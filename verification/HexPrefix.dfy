/** Nibbles, nibble slices, and the hex-prefix form of trie keys
    (Ethereum Yellow Paper, Appendix C). */
module HexPrefix {
  import opened Bytes

  type nibble = x: int | 0 <= x < 16

  type Nibbles = seq<nibble>

  function Join(high: nibble, low: nibble): byte
  {
    16 * high + low
  }

  function NibbleAt(b: bytes, i: nat): nibble
    requires i < 2 * |b|
  {
    if i % 2 == 1 then b[i / 2] % 16 else b[i / 2] / 16
  }

  /** All nibbles of a byte string, high nibble first. */
  function Unpack(b: bytes): (k: Nibbles)
    ensures |k| == 2 * |b|
  {
    seq(2 * |b|, i requires 0 <= i < 2 * |b| => NibbleAt(b, i))
  }

  /** One step of the encoders, at the `d`-th nibble: into the low half of the last byte,
      which is still zero, or into the high half of a new one. */
  function Push(ret: bytes, d: nat, n: nibble): bytes
    requires d % 2 == 1 ==> ret != []
  {
    if d % 2 == 1 then ret[|ret| - 1 := Join(ret[|ret| - 1] / 16, n)] else ret + [Join(n, 0)]
  }

  /** Two nibbles to a byte; an odd one at the end becomes a high half. */
  function Pack(k: Nibbles): (b: bytes)
    ensures |b| == (|k| + 1) / 2
  {
    if k == [] then [] else Push(Pack(k[..|k| - 1]), |k| - 1, k[|k| - 1])
  }

  /** The flag nibble: 2 marks a leaf, 1 an odd number of nibbles. */
  function Flags(leaf: bool, odd: bool): nibble
  {
    (if leaf then 2 else 0) + (if odd then 1 else 0)
  }

  /** The nibbles in front of the key: the flags, and a filler when the key is even. */
  function Prefix(leaf: bool, odd: bool): (p: Nibbles)
    ensures odd ==> |p| == 1
    ensures !odd ==> |p| == 2
  {
    if odd then [Flags(leaf, odd)] else [Flags(leaf, odd), 0]
  }

  /** The hex-prefix form of a whole key. */
  function Encode(k: Nibbles, leaf: bool): (hpe: bytes)
    ensures |hpe| == |k| / 2 + 1
  {
    Pack(Prefix(leaf, |k| % 2 == 1) + k)
  }

  /** The key that a hex-prefix form carries. */
  function KeyOf(hpe: bytes): Nibbles
  {
    if hpe == [] then []
    else if hpe[0] / 16 % 2 == 1 then Unpack(hpe)[1..]
    else Unpack(hpe)[2..]
  }

  predicate HasLeafFlag(hpe: bytes)
    requires hpe != []
  {
    hpe[0] / 32 % 2 == 1
  }

  lemma JoinParts(high: nibble, low: nibble)
    ensures Join(high, low) / 16 == high && Join(high, low) % 16 == low
    ensures Join(high, low) / 32 == high / 2
  {
  }

  lemma UnpackPush(b: bytes, high: nibble, low: nibble)
    ensures Unpack(b + [Join(high, low)]) == Unpack(b) + [high, low]
  {
    JoinParts(high, low);
  }

  lemma PackPush(k: Nibbles, n: nibble)
    ensures Pack(k + [n]) == Push(Pack(k), |k|, n)
  {
    assert (k + [n])[..|k|] == k;
  }

  lemma PackPair(k: Nibbles, high: nibble, low: nibble)
    requires |k| % 2 == 0
    ensures Pack(k + [high] + [low]) == Pack(k) + [Join(high, low)]
  {
    hide Pack, Join;
    PackPush(k, high);
    PackPush(k + [high], low);
    JoinParts(high, 0);
    LastReplaced(Pack(k), Join(high, 0), Join(high, low));
  }

  lemma LastReplaced(b: bytes, x: byte, y: byte)
    ensures (b + [x])[|b| := y] == b + [y]
  {
  }

  lemma {:induction false} UnpackPack(k: Nibbles)
    requires |k| % 2 == 0
    ensures Unpack(Pack(k)) == k
  {
    if k != [] {
      var init, high, low := k[..|k| - 2], k[|k| - 2], k[|k| - 1];
      assert k == init + [high] + [low];
      UnpackPack(init);
      PackPair(init, high, low);
      UnpackPush(Pack(init), high, low);
    }
  }

  /** The key and the leaf flag come back from the hex-prefix form, for either parity. */
  lemma KeyOfEncode(k: Nibbles, leaf: bool)
    ensures KeyOf(Encode(k, leaf)) == k
    ensures HasLeafFlag(Encode(k, leaf)) == leaf
  {
    var odd := |k| % 2 == 1;
    var all, hpe := Prefix(leaf, odd) + k, Encode(k, leaf);
    UnpackPack(all);
    assert all[0] == Unpack(hpe)[0] == hpe[0] / 16;
    assert hpe[0] / 32 == hpe[0] / 16 / 2;
  }

  /** The nibbles of the hex-prefix form: 2 marks a leaf, 1 is added for an odd key, and an even key
      has a zero in front. */
  ghost predicate Flagged(hpe: bytes, k: Nibbles, leaf: bool)
  {
    Unpack(hpe) == (if |k| % 2 == 0 then [if leaf then 2 else 0, 0] else [if leaf then 3 else 1]) + k
  }

  lemma EncodeFlagged(k: Nibbles, leaf: bool)
    ensures Flagged(Encode(k, leaf), k, leaf)
  {
    UnpackPack(Prefix(leaf, |k| % 2 == 1) + k);
  }

  lemma EncodeInjective(k: Nibbles, leaf: bool, k': Nibbles, leaf': bool)
    requires Encode(k, leaf) == Encode(k', leaf')
    ensures k == k' && leaf == leaf'
  {
    KeyOfEncode(k, leaf);
    KeyOfEncode(k', leaf');
  }

  // ---------------------------------------------------------------- slices

  /** A view on a byte string that starts at any nibble. */
  datatype NibbleSlice = NibbleSlice(data: bytes, offset: nat) {

    predicate Valid() {
      offset <= 2 * |data|
    }

    function Size(): nat
      requires Valid()
    {
      2 * |data| - offset
    }

    /** The nibbles in view. */
    function View(): (k: Nibbles)
      requires Valid()
      ensures |k| == Size()
    {
      Unpack(data)[offset..]
    }

    function At(i: nat): nibble
      requires Valid() && i < Size()
    {
      NibbleAt(data, offset + i)
    }

    /** The length of the longest common prefix of two slices. */
    method Shared(that: NibbleSlice) returns (n: nat)
      requires Valid() && that.Valid()
      ensures n == SharedLength(View(), that.View())
    {
      ghost var a, b := View(), that.View();
      n := 0;
      while n < Size() && n < that.Size() && At(n) == that.At(n)
        invariant n <= |a| && n <= |b| && a[..n] == b[..n]
      {
        assert a[n] == At(n) && b[n] == that.At(n);
        n := n + 1;
      }
      SharedUnique(a, b, n);
    }

    /** True iff this full key lies strictly before every key with prefix `that`. */
    method IsEarlierThan(that: NibbleSlice) returns (r: bool)
      requires Valid() && that.Valid()
      ensures r == Earlier(View(), that.View())
    {
      hide Earlier;
      ghost var a, b := View(), that.View();
      var i := 0;
      while i < that.Size() && i < Size()
        invariant i <= |a| && i <= |b|
        invariant Earlier(a, b) == Earlier(a[i..], b[i..])
      {
        assert a[i] == At(i) && b[i] == that.At(i);
        EarlierAt(a, b, i);
        if At(i) < that.At(i) {
          return true;
        } else if At(i) > that.At(i) {
          return false;
        }
        i := i + 1;
      }
      EarlierAt(a, b, i);
      return i < that.Size();
    }
  }

  function SharedLength(a: Nibbles, b: Nibbles): (n: nat)
    ensures n <= |a| && n <= |b|
    ensures a[..n] == b[..n]
    ensures n < |a| && n < |b| ==> a[n] != b[n]
  {
    if a == [] || b == [] || a[0] != b[0] then 0 else 1 + SharedLength(a[1..], b[1..])
  }

  lemma {:induction false} SharedUnique(a: Nibbles, b: Nibbles, n: nat)
    requires n <= |a| && n <= |b| && a[..n] == b[..n]
    requires n < |a| && n < |b| ==> a[n] != b[n]
    ensures n == SharedLength(a, b)
  {
    if n > 0 {
      assert a[..n][0] == b[..n][0];
      assert a[1..][..n - 1] == a[..n][1..] == b[1..][..n - 1];
      SharedUnique(a[1..], b[1..], n - 1);
    }
  }

  predicate IsPrefixOf(p: Nibbles, k: Nibbles)
  {
    |p| <= |k| && k[..|p|] == p
  }

  /** `k` is before every key that starts with `p`. */
  predicate Earlier(k: Nibbles, p: Nibbles)
  {
    p != [] && (k == [] || k[0] < p[0] || (k[0] == p[0] && Earlier(k[1..], p[1..])))
  }

  /** The order of two keys that agree on their first `i` nibbles. */
  lemma EarlierAt(k: Nibbles, p: Nibbles, i: nat)
    requires i <= |k| && i <= |p|
    ensures i == |p| || i == |k| ==> Earlier(k[i..], p[i..]) == (i < |p|)
    ensures i < |k| && i < |p| && k[i] != p[i] ==> Earlier(k[i..], p[i..]) == (k[i] < p[i])
    ensures i < |k| && i < |p| && k[i] == p[i] ==> Earlier(k[i..], p[i..]) == Earlier(k[i + 1..], p[i + 1..])
  {
    if i < |k| && i < |p| {
      assert k[i..][1..] == k[i + 1..];
      assert p[i..][1..] == p[i + 1..];
    }
  }

  // ---------------------------------------------------------------- the encoders

  lemma PackPrefix(leaf: bool, odd: bool)
    ensures Pack(Prefix(leaf, odd)) == [Join(Flags(leaf, odd), 0)]
  {
    PackPush([], Flags(leaf, odd));
    PackPair([], Flags(leaf, odd), 0);
    assert [] + [Flags(leaf, odd)] == [Flags(leaf, odd)];
    assert [] + [Flags(leaf, odd)] + [0] == [Flags(leaf, odd), 0];
  }

  /** From a vector that holds one nibble in each element; a negative end counts from the back. */
  method EncodeVector(v: Nibbles, leaf: bool, begin: nat, endArg: int) returns (ret: bytes)
    requires begin <= (if endArg < 0 then |v| + 1 + endArg else endArg) <= |v|
    ensures ret == Encode(v[begin..if endArg < 0 then |v| + 1 + endArg else endArg], leaf)
    ensures Flagged(ret, v[begin..if endArg < 0 then |v| + 1 + endArg else endArg], leaf)
  {
    hide Pack, Join, Flags, Flagged;
    var end := if endArg < 0 then |v| + 1 + endArg else endArg;
    var odd := (end - begin) % 2 != 0;
    ghost var done := Prefix(leaf, odd);
    PackPrefix(leaf, odd);
    ret := [Join(Flags(leaf, odd), 0)];
    var i := begin;
    if odd {
      PackPush(done, v[i]);
      done := done + [v[i]];
      ret := Push(ret, 1, v[i]);
      i := i + 1;
    }
    ret := PushPairs(ret, v, i, end, done);
    assert done + v[i..end] == Prefix(leaf, odd) + v[begin..end];
    EncodeFlagged(v[begin..end], leaf);
  }

  /** The loop over the vector: two nibbles make one more byte. */
  method PushPairs(ret0: bytes, v: Nibbles, begin: nat, end: nat, ghost done: Nibbles) returns (ret: bytes)
    requires begin <= end <= |v| && (end - begin) % 2 == 0
    requires |done| % 2 == 0 && ret0 == Pack(done)
    ensures ret == Pack(done + v[begin..end])
  {
    hide Pack, Join;
    ret := ret0;
    var i := begin;
    assert done + v[begin..begin] == done;
    while i < end
      invariant begin <= i <= end && (end - i) % 2 == 0
      invariant ret == Pack(done + v[begin..i])
    {
      OneMore(done, v, begin, i);
      OneMore(done, v, begin, i + 1);
      PackPair(done + v[begin..i], v[i], v[i + 1]);
      ret := ret + [Join(v[i], v[i + 1])];
      i := i + 2;
    }
  }

  lemma OneMore(p: Nibbles, v: Nibbles, begin: nat, i: nat)
    requires begin <= i < |v|
    ensures p + v[begin..i] + [v[i]] == p + v[begin..i + 1]
  {
  }

  /** Pushes the nibbles `begin..end` of `data`; `d` counts the halves written. */
  method PushNibbles(ret0: bytes, d0: nat, data: bytes, begin: nat, end: nat, ghost done: Nibbles)
    returns (ret: bytes, d: nat)
    requires begin <= end <= 2 * |data|
    requires done != [] && d0 == |done| && ret0 == Pack(done)
    ensures ret == Pack(done + Unpack(data)[begin..end]) && d == d0 + end - begin
  {
    hide Pack;
    ret, d := ret0, d0;
    ghost var k, written := Unpack(data), done;
    var i := begin;
    while i < end
      invariant begin <= i <= end && d == |written|
      invariant written == done + k[begin..i]
      invariant ret == Pack(written)
    {
      var n := NibbleAt(data, i);
      PackPush(written, n);
      assert k[i] == n;
      written := written + [n];
      ret, i, d := Push(ret, d, n), i + 1, d + 1;
    }
  }

  /** From a slice of the nibbles of a byte string. */
  method EncodeSlice(s: NibbleSlice, leaf: bool, beginNibble: nat, endNibble: int) returns (ret: bytes)
    requires s.Valid()
    requires beginNibble <= (if endNibble < 0 then s.Size() + 1 + endNibble else endNibble) <= s.Size()
    ensures ret == Encode(s.View()[beginNibble..if endNibble < 0 then s.Size() + 1 + endNibble else endNibble], leaf)
    ensures Flagged(ret, s.View()[beginNibble..if endNibble < 0 then s.Size() + 1 + endNibble else endNibble], leaf)
  {
    hide Pack, Flagged;
    var begin := beginNibble + s.offset;
    var end := (if endNibble < 0 then s.Size() + 1 + endNibble else endNibble) + s.offset;
    var odd := (end - begin) % 2 == 1;
    ret := [Join(Flags(leaf, odd), 0)];
    var d := if odd then 1 else 2;
    PackPrefix(leaf, odd);
    ret, d := PushNibbles(ret, d, s.data, begin, end, Prefix(leaf, odd));
    assert Unpack(s.data)[begin..end] == s.View()[beginNibble..end - s.offset];
    EncodeFlagged(s.View()[beginNibble..end - s.offset], leaf);
  }

  /** From two slices, as if they were one key. */
  method EncodeTwo(s1: NibbleSlice, s2: NibbleSlice, leaf: bool) returns (ret: bytes)
    requires s1.Valid() && s2.Valid()
    ensures ret == Encode(s1.View() + s2.View(), leaf) && Flagged(ret, s1.View() + s2.View(), leaf)
  {
    hide Pack, Flagged;
    var odd := (s1.Size() + s2.Size()) % 2 == 1;
    ghost var p, k1, k2 := Prefix(leaf, odd), s1.View(), s2.View();
    ret := [Join(Flags(leaf, odd), 0)];
    var d := if odd then 1 else 2;
    PackPrefix(leaf, odd);
    assert Unpack(s1.data)[s1.offset..2 * |s1.data|] == k1;
    assert Unpack(s2.data)[s2.offset..2 * |s2.data|] == k2;
    ret, d := PushNibbles(ret, d, s1.data, s1.offset, 2 * |s1.data|, p);
    ret, d := PushNibbles(ret, d, s2.data, s2.offset, 2 * |s2.data|, p + k1);
    assert p + k1 + k2 == p + (k1 + k2);
    EncodeFlagged(k1 + k2, leaf);
  }
}
