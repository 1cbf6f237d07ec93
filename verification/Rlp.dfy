/** The RLP codec: the recursive encoding, the header arithmetic of the RLP view class,
    and the strict recursive decoder that this arithmetic defines. */
module Rlp {
  import opened Bytes

  /** A string of bytes, or a list of items. */
  datatype Item = Data(data: bytes) | List(items: seq<Item>)

  const DATA_START: byte := 0x80
  const LIST_START: byte := 0xc0
  const IMM_COUNT: nat := 56
  const DATA_IND_ZERO: byte := 0xb7
  const LIST_IND_ZERO: byte := 0xf7

  // Lengths from here on are refused by the decoder.
  const LENGTH_LIMIT: nat := TWO64 - 1 - 0x100

  /** The header before a payload of `len` bytes, for a string (0x80) or a list (0xc0).
      The cast of the count byte wraps; it cannot for lengths below 2 to the 64. */
  function Header(start: byte, len: nat): (h: bytes)
    ensures h != []
  {
    if len < IMM_COUNT then [(start + len) % 256]
    else [(start + 55 + |BigEndian(len)|) % 256] + BigEndian(len)
  }

  function EncodeData(d: bytes): (b: bytes)
    ensures b != []
  {
    if |d| == 1 && d[0] < DATA_START then d else Header(DATA_START, |d|) + d
  }

  function Encode(it: Item): (b: bytes)
    ensures b != []
    decreases it, 1
  {
    match it
    case Data(d) => EncodeData(d)
    case List(items) =>
      var payload := EncodeAll(items);
      Header(LIST_START, |payload|) + payload
  }

  function EncodeAll(items: seq<Item>): bytes
    decreases items, 0
  {
    if items == [] then [] else Encode(items[0]) + EncodeAll(items[1..])
  }

  /** The item is short enough for the decoder's length check. */
  ghost predicate Fits(it: Item)
  {
    |Encode(it)| < LENGTH_LIMIT
  }

  // ---------------------------------------------------------------- reading

  /** A one-byte string whose byte could have stood for itself is refused. */
  predicate Good(b: bytes)
  {
    b != [] && (b[0] == DATA_START + 1 ==> |b| >= 2 && b[1] >= DATA_START)
  }

  /** The number of bytes that encode the length. */
  function LengthSize(b: bytes): nat
  {
    if b == [] then 0
    else if DATA_IND_ZERO < b[0] < LIST_START then b[0] - DATA_IND_ZERO
    else if LIST_IND_ZERO < b[0] then b[0] - LIST_IND_ZERO
    else 0
  }

  /** The payload length that the header announces; None where the source throws. */
  function Length(b: bytes): Option<nat>
  {
    if b == [] then Some(0)
    else if !Good(b) then None
    else if b[0] < DATA_START then Some(1)
    else if b[0] <= DATA_IND_ZERO then Some(b[0] - DATA_START)
    else if LIST_START <= b[0] <= LIST_IND_ZERO then Some(b[0] - LIST_START)
    else if |b| <= LengthSize(b) || b[1] == 0 then None
    else
      var len := FromBigEndian(b[1..1 + LengthSize(b)]);
      if len < IMM_COUNT || len >= LENGTH_LIMIT then None else Some(len)
  }

  function PayloadOffset(b: bytes): nat
  {
    if b != [] && b[0] < DATA_START then 0 else 1 + LengthSize(b)
  }

  /** The size of the first item of `b` according to its header. */
  function ActualSize(b: bytes): Option<nat>
  {
    if b == [] then Some(0)
    else if b[0] < DATA_START then Some(1)
    else match Length(b)
      case None => None
      case Some(len) => Some(PayloadOffset(b) + len)
  }

  /** The strict recursive decoder: exact size at every level, lists fully consumed. */
  function Decode(b: bytes): Option<Item>
    decreases |b|, 0
  {
    if b == [] || ActualSize(b) != Some(|b|) then None
    else if b[0] < LIST_START then Some(Data(b[PayloadOffset(b)..]))
    else match DecodeAll(b[PayloadOffset(b)..])
      case None => None
      case Some(items) => Some(List(items))
  }

  function DecodeAll(d: bytes): Option<seq<Item>>
    decreases |d|, 1
  {
    if d == [] then Some([])
    else match ActualSize(d)
      case None => None
      case Some(size) =>
        if size == 0 || size > |d| then None
        else match (Decode(d[..size]), DecodeAll(d[size..]))
          case (Some(first), Some(rest)) => Some([first] + rest)
          case _ => None
  }

  // ---------------------------------------------------------------- round trip

  /** The header that Encode writes is read back, whatever follows the payload. */
  lemma HeaderRead(start: byte, len: nat, b: bytes, tail: bytes)
    requires start == DATA_START || start == LIST_START
    requires b == Header(start, len) + tail
    requires len < LENGTH_LIMIT && len <= |tail|
    requires start == DATA_START && len == 1 ==> tail[0] >= DATA_START
    ensures b[0] >= start && (start == DATA_START ==> b[0] < LIST_START)
    ensures PayloadOffset(b) == |Header(start, len)|
    ensures ActualSize(b) == Some(|Header(start, len)| + len)
  {
    if len >= IMM_COUNT {
      LongHeaderRead(start, len, b, tail);
    } else if start == DATA_START && len == 1 {
      assert b[1] == tail[0];
    }
  }

  lemma LongHeaderRead(start: byte, len: nat, b: bytes, tail: bytes)
    requires start == DATA_START || start == LIST_START
    requires IMM_COUNT <= len < LENGTH_LIMIT && b == Header(start, len) + tail
    ensures b[0] >= start && (start == DATA_START ==> b[0] < LIST_START)
    ensures PayloadOffset(b) == |Header(start, len)| && Length(b) == Some(len)
  {
    var be := BigEndian(len);
    BigEndianWidth64(len);
    BigEndianRoundTrip(len);
    assert b == [b[0]] + be + tail;
    assert b[0] == start + 55 + |be| && b[1] == be[0] != 0;
    assert LengthSize(b) == |be|;
    assert b[1..1 + |be|] == be;
  }

  lemma SizeOfEncoding(it: Item, tail: bytes)
    requires Fits(it)
    ensures ActualSize(Encode(it) + tail) == Some(|Encode(it)|)
  {
    var b := Encode(it) + tail;
    match it
    case Data(d) =>
      if !(|d| == 1 && d[0] < DATA_START) {
        HeaderRead(DATA_START, |d|, b, d + tail);
      }
    case List(items) =>
      var payload := EncodeAll(items);
      HeaderRead(LIST_START, |payload|, b, payload + tail);
  }

  /** Decoding an encoding gives the item back. */
  lemma {:induction false} DecodeEncode(it: Item)
    requires Fits(it)
    ensures Decode(Encode(it)) == Some(it)
    decreases it, 1
  {
    SizeOfEncoding(it, []);
    assert Encode(it) + [] == Encode(it);
    match it
    case Data(d) =>
      if !(|d| == 1 && d[0] < DATA_START) {
        HeaderRead(DATA_START, |d|, Encode(it), d);
        assert Encode(it)[PayloadOffset(Encode(it))..] == d;
      }
    case List(items) =>
      var payload := EncodeAll(items);
      HeaderRead(LIST_START, |payload|, Encode(it), payload);
      assert Encode(it)[PayloadOffset(Encode(it))..] == payload;
      DecodeEncodeAll(items);
  }

  lemma {:induction false} DecodeEncodeAll(items: seq<Item>)
    requires |EncodeAll(items)| < LENGTH_LIMIT
    ensures DecodeAll(EncodeAll(items)) == Some(items)
    decreases items, 0
  {
    if items != [] {
      var first, rest := Encode(items[0]), EncodeAll(items[1..]);
      SizeOfEncoding(items[0], rest);
      DecodeEncode(items[0]);
      DecodeEncodeAll(items[1..]);
      assert (first + rest)[..|first|] == first;
      assert (first + rest)[|first|..] == rest;
      assert items == [items[0]] + items[1..];
    }
  }

  /** Canonicality: only one byte string decodes to an item, namely its encoding. */
  lemma {:induction false} EncodeDecode(b: bytes, it: Item)
    requires Decode(b) == Some(it)
    ensures Encode(it) == b
    decreases |b|, 0
  {
    if b[0] >= DATA_START {
      var payload := DecodeParts(b, it);
      if it.List? {
        EncodeDecodeAll(payload, it.items);
      }
    }
  }

  /** What a decoded item, other than a byte that stands for itself, is made of. */
  lemma DecodeParts(b: bytes, it: Item) returns (payload: bytes)
    requires Decode(b) == Some(it) && b[0] >= DATA_START
    ensures |payload| < |b|
    ensures b == Header(if it.Data? then DATA_START else LIST_START, |payload|) + payload
    ensures it.Data? ==> it.data == payload && (|payload| == 1 ==> payload[0] >= DATA_START)
    ensures it.List? ==> DecodeAll(payload) == Some(it.items)
  {
    var start, offset := HeaderWritten(b, |b|);
    payload := b[offset..];
    assert b == b[..offset] + payload;
  }

  /** A header that is read is the one that would have been written. */
  lemma HeaderWritten(b: bytes, size: nat) returns (start: byte, offset: nat)
    requires b != [] && b[0] >= DATA_START && ActualSize(b) == Some(size) && size <= |b|
    ensures start == (if b[0] < LIST_START then DATA_START else LIST_START)
    ensures offset == PayloadOffset(b) && 0 < offset <= size
    ensures b[..offset] == Header(start, size - offset)
    ensures start == DATA_START && size - offset == 1 ==> b[offset] >= DATA_START
  {
    start := if b[0] < LIST_START then DATA_START else LIST_START;
    offset := PayloadOffset(b);
    if LengthSize(b) > 0 {
      LongHeaderWritten(b, start);
    }
  }

  lemma LongHeaderWritten(b: bytes, start: byte)
    requires b != [] && start == (if b[0] < LIST_START then DATA_START else LIST_START)
    requires LengthSize(b) > 0 && Length(b).Some?
    ensures IMM_COUNT <= Length(b).value
    ensures b[..1 + LengthSize(b)] == Header(start, Length(b).value)
  {
    var be := b[1..1 + LengthSize(b)];
    var len := Length(b).value;
    assert len == FromBigEndian(be);
    BigEndianCanonical(be);
    assert b[..1 + LengthSize(b)] == [b[0]] + be;
    assert b[0] == start + 55 + |be|;
  }

  lemma {:induction false} EncodeDecodeAll(d: bytes, items: seq<Item>)
    requires DecodeAll(d) == Some(items)
    ensures EncodeAll(items) == d
    decreases |d|, 1
  {
    if d != [] {
      var size, first, rest := DecodeAllCons(d, items);
      assert Encode(first) == d[..size] by { EncodeDecode(d[..size], first); }
      assert EncodeAll(rest) == d[size..] by { EncodeDecodeAll(d[size..], rest); }
      EncodeAllCons(first, rest);
    }
  }

  lemma DecodeAllCons(d: bytes, items: seq<Item>) returns (size: nat, first: Item, rest: seq<Item>)
    requires d != [] && DecodeAll(d) == Some(items)
    ensures 0 < size <= |d| && ActualSize(d) == Some(size)
    ensures Decode(d[..size]) == Some(first) && DecodeAll(d[size..]) == Some(rest)
    ensures items == [first] + rest
  {
    size := ActualSize(d).value;
    first, rest := Decode(d[..size]).value, DecodeAll(d[size..]).value;
  }

  lemma EncodeAllCons(first: Item, rest: seq<Item>)
    ensures EncodeAll([first] + rest) == Encode(first) + EncodeAll(rest)
  {
    assert ([first] + rest)[1..] == rest;
  }

  // ---------------------------------------------------------------- uniqueness

  /** No encoding is a proper prefix of another, and encodings are unique. */
  lemma PrefixFree(a: Item, b: Item)
    requires Fits(a) && Fits(b)
    requires IsPrefix(Encode(a), Encode(b))
    ensures a == b
  {
    var tail := Encode(b)[|Encode(a)|..];
    SizeOfEncoding(a, tail);
    SizeOfEncoding(b, []);
    assert Encode(b) == Encode(a) + tail;
    assert Encode(b) + [] == Encode(b);
    DecodeEncode(a);
    DecodeEncode(b);
  }
}
