/** RLPx packets: the encoding of a packet type, followed by one item of data or by nothing. */
module RlpxPacket {
  import opened Bytes
  import opened Rlp
  import opened RlpStream

  datatype Packet = Packet(kind: bytes, data: bytes)

  /** The bytes are one item, or nothing at all: the strict view does not throw. */
  predicate Exact(b: bytes)
  {
    ActualSize(b) == Some(|b|)
  }

  predicate IsValid(p: Packet)
  {
    !(p.kind == [] && p.data == []) && Exact(p.kind) && Exact(p.data)
  }

  /** The first item, cut at the end of the bytes; nothing where the view throws. */
  function NextRlp(b: bytes): bytes
  {
    match ActualSize(b)
    case None => []
    case Some(s) => if s <= |b| then b[..s] else b
  }

  /** The size that the headers announce; 0 where a view throws. */
  function Size(p: Packet): nat
  {
    if !Exact(p.kind) || ActualSize(p.data).None? then 0 else |p.kind| + ActualSize(p.data).value
  }

  function Appended(p: Packet, b: bytes): Packet
  {
    Packet(p.kind, p.data + b)
  }

  function Wire(p: Packet): bytes
  {
    p.kind + p.data
  }

  function WireAll(q: seq<Packet>): bytes
  {
    if q == [] then [] else Wire(q[0]) + WireAll(q[1..])
  }

  lemma {:induction false} WireAllMore(q: seq<Packet>, p: Packet)
    ensures WireAll(q + [p]) == WireAll(q) + Wire(p)
  {
    if q == [] {
      assert WireAll([p][1..]) == [] && [] + [p] == [p] && Wire(p) + [] == Wire(p) && [] + Wire(p) == Wire(p);
    } else {
      WireAllMore(q[1..], p);
      assert (q + [p])[1..] == q[1..] + [p];
      Concat3(Wire(q[0]), WireAll(q[1..]), Wire(p));
    }
  }

  lemma ValidSize(p: Packet)
    requires IsValid(p)
    ensures Size(p) == |Wire(p)| > 0
  {
  }

  /** What follows an item does not change its size. */
  lemma SizeExtends(b: bytes, tail: bytes)
    requires b != [] && Exact(b)
    ensures ActualSize(b + tail) == Some(|b|)
  {
    if LengthSize(b) > 0 {
      assert (b + tail)[1..1 + LengthSize(b)] == b[1..1 + LengthSize(b)];
    }
  }

  /** The next item in front of anything is found. */
  lemma NextFound(b: bytes, tail: bytes)
    requires b != [] && Exact(b)
    ensures NextRlp(b + tail) == b
  {
    SizeExtends(b, tail);
  }

  /** A proper beginning of an item is not an item. */
  lemma BeginningNotExact(b: bytes, n: nat)
    requires Exact(b) && 0 < n < |b|
    ensures !Exact(b[..n])
  {
    assert b[..n] + b[n..] == b;
    if Exact(b[..n]) {
      SizeExtends(b[..n], b[n..]);
    }
  }
}
