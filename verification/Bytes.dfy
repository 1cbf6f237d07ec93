/** Bytes, and the big-endian integers that RLP writes for lengths and numbers. */
module Bytes {

  type byte = x: int | 0 <= x < 256

  type bytes = seq<byte>

  datatype Option<+T> = None | Some(value: T)

  const TWO64: nat := 0x1_0000_0000_0000_0000

  /** The minimal big-endian form: no leading zero, and nothing at all for zero.
      Its length is what the source calls the number of bytes required. */
  function BigEndian(n: nat): (b: bytes)
    ensures n == 0 <==> b == []
    ensures b != [] ==> b[0] != 0
  {
    if n == 0 then [] else BigEndian(n / 256) + [n % 256]
  }

  function FromBigEndian(b: bytes): nat
  {
    if b == [] then 0 else FromBigEndian(b[..|b| - 1]) * 256 + b[|b| - 1]
  }

  lemma {:induction false} BigEndianRoundTrip(n: nat)
    ensures FromBigEndian(BigEndian(n)) == n
  {
    if n != 0 {
      BigEndianRoundTrip(n / 256);
      assert BigEndian(n)[..|BigEndian(n)| - 1] == BigEndian(n / 256);
    }
  }

  lemma {:induction false} BigEndianCanonical(b: bytes)
    requires b == [] || b[0] != 0
    ensures BigEndian(FromBigEndian(b)) == b
  {
    if b != [] {
      var init, last := b[..|b| - 1], b[|b| - 1];
      BigEndianCanonical(init);
      if init != [] {
        assert FromBigEndian(init) != 0 by {
          assert BigEndian(FromBigEndian(init)) == init;
        }
      }
      assert FromBigEndian(b) / 256 == FromBigEndian(init);
      assert FromBigEndian(b) % 256 == last;
      assert b == init + [last];
    }
  }

  function Pow256(w: nat): (p: nat)
    ensures p > 0
  {
    if w == 0 then 1 else 256 * Pow256(w - 1)
  }

  /** A number needs at most `w` bytes exactly when it is below 256 to the `w`. */
  lemma {:induction false} BigEndianWidth(n: nat, w: nat)
    ensures |BigEndian(n)| <= w <==> n < Pow256(w)
  {
    if n != 0 && w != 0 {
      BigEndianWidth(n / 256, w - 1);
    }
  }

  lemma BigEndianWidth64(n: nat)
    ensures |BigEndian(n)| <= 8 <==> n < TWO64
  {
    BigEndianWidth(n, 8);
    assert Pow256(4) == 0x1_0000_0000;
    assert Pow256(8) == TWO64;
  }

  ghost predicate IsPrefix(p: bytes, b: bytes)
  {
    |p| <= |b| && b[..|p|] == p
  }
}
