/** The RLP reader: the length in a header, the list view with its index cache, and iteration. */
module RlpView {
  import opened Bytes
  import opened Rlp

  // The largest value of the source's size type, which marks a fresh cache.
  const NO_INDEX: nat := TWO64 - 1

  type Index = x: int | 0 <= x <= NO_INDEX

  /** fromBigEndian: the bytes, shifted in one after the other, into a type of `size` bytes. */
  method ReadBigEndian(b: bytes, size: nat) returns (n: nat)
    ensures n == FromBigEndian(b) % Pow256(size)
    ensures |b| <= size ==> n == FromBigEndian(b)
  {
    n := 0;
    var limit := Pow256(size);
    IsRemainder(0, 0, 0, limit);
    for i := 0 to |b|
      invariant n == FromBigEndian(b[..i]) % limit
    {
      ShiftedIn(FromBigEndian(b[..i]), b[i], limit);
      n := (n * 256 + b[i]) % limit;
      assert b[..i + 1][..i] == b[..i];
    }
    assert b[..|b|] == b;
    if |b| <= size {
      NoWrap(b, size);
    }
  }

  /** A remainder is recognised. */
  lemma IsRemainder(n: nat, q: nat, r: nat, limit: nat)
    requires limit > 0 && n == limit * q + r && r < limit
    ensures n % limit == r
  {
    var k := q - n / limit;
    assert n == limit * (n / limit) + n % limit;
    Distribute(limit, q, n / limit);
    if k >= 1 {
      AtLeastOne(limit, k);
    } else if k <= -1 {
      AtLeastOne(limit, -k);
    }
  }

  lemma Distribute(a: int, b: int, c: int)
    ensures a * (b - c) == a * b - a * c
  {
  }

  lemma AtLeastOne(a: int, k: int)
    requires a > 0 && k >= 1
    ensures a * k >= a
  {
  }

  /** Shifting in a byte wraps around in the same way before and after. */
  lemma ShiftedIn(n: nat, d: byte, limit: nat)
    requires limit > 0
    ensures (n % limit * 256 + d) % limit == (n * 256 + d) % limit
  {
    var q, x := n / limit, n % limit * 256 + d;
    assert n == limit * q + n % limit;
    Scaled(limit, q, n, n % limit, d);
    IsRemainder(n * 256 + d, q * 256 + x / limit, x % limit, limit);
  }

  lemma Scaled(limit: nat, q: nat, n: nat, r: nat, d: nat)
    requires limit > 0 && n == limit * q + r
    ensures n * 256 + d == limit * (q * 256 + (r * 256 + d) / limit) + (r * 256 + d) % limit
  {
    var x := r * 256 + d;
    assert limit * (q * 256 + x / limit) == limit * (q * 256) + limit * (x / limit);
    assert limit * (q * 256) == limit * q * 256;
  }

  lemma {:induction false} BelowPower(b: bytes, size: nat)
    requires |b| <= size
    ensures FromBigEndian(b) < Pow256(size)
  {
    if b == [] {
      assert Pow256(size) > 0;
    } else {
      BelowPower(b[..|b| - 1], size - 1);
    }
  }

  lemma NoWrap(b: bytes, size: nat)
    requires |b| <= size
    ensures FromBigEndian(b) % Pow256(size) == FromBigEndian(b)
  {
    BelowPower(b, size);
    IsRemainder(FromBigEndian(b), 0, FromBigEndian(b), Pow256(size));
  }

  /** length: the payload length, with the source's order of checks; None where it throws. */
  method LengthOf(b: bytes) returns (r: Option<nat>)
    ensures r == Length(b)
  {
    if b == [] {
      return Some(0);
    }
    if !Good(b) {
      return None;
    }
    var ret, n := 0, b[0];
    if n < DATA_START {
      return Some(1);
    } else if n <= DATA_IND_ZERO {
      return Some(n - DATA_START);
    } else if LIST_START <= n <= LIST_IND_ZERO {
      return Some(n - LIST_START);
    }
    var lengthSize := if n < LIST_START then n - DATA_IND_ZERO else n - LIST_IND_ZERO;
    if |b| <= lengthSize || b[1] == 0 {
      return None;
    }
    for i := 0 to lengthSize
      invariant ret == FromBigEndian(b[1..1 + i])
    {
      ret := ret * 256 + b[i + 1];
      assert b[1..1 + (i + 1)][..i] == b[1..1 + i];
    }
    if ret < IMM_COUNT || ret >= LENGTH_LIMIT {
      return None;
    }
    return Some(ret);
  }

  // ---------------------------------------------------------------- the items of a payload

  /** The size of the first item; None where the source throws, also when it does not fit. */
  function SizeAsEncoded(d: bytes): (r: Option<nat>)
    ensures r.Some? ==> r.value <= |d| && (r.value == 0 <==> d == [])
  {
    match ActualSize(d)
    case None => None
    case Some(s) => if s > |d| then None else Some(s)
  }

  /** The items of a payload as byte strings, up to its end or to the first bad one. */
  function Split(d: bytes): seq<bytes>
    decreases |d|
  {
    if d == [] then []
    else match SizeAsEncoded(d)
      case None => []
      case Some(s) => [d[..s]] + Split(d[s..])
  }

  /** There is no bad item. */
  predicate Splits(d: bytes)
    decreases |d|
  {
    d == [] || (SizeAsEncoded(d).Some? && Splits(d[SizeAsEncoded(d).value..]))
  }

  /** The length of the first `j` items together. */
  function Total(chunks: seq<bytes>, j: nat): nat
    requires j <= |chunks|
  {
    if j == 0 then 0 else |chunks[0]| + Total(chunks[1..], j - 1)
  }

  /** The rest of a payload splits into the rest of its items. */
  lemma {:induction false} SplitRest(d: bytes, j: nat)
    requires j <= |Split(d)|
    ensures Total(Split(d), j) <= |d|
    ensures Split(d[Total(Split(d), j)..]) == Split(d)[j..]
    ensures Splits(d[Total(Split(d), j)..]) <==> Splits(d)
    decreases j
  {
    hide SizeAsEncoded;
    if j == 0 {
      assert d[0..] == d && Split(d)[0..] == Split(d);
    } else {
      var s := SizeAsEncoded(d).value;
      var rest, chunks := d[s..], Split(d[s..]);
      SplitRest(rest, j - 1);
      var t := Total(chunks, j - 1);
      assert Split(d) == [d[..s]] + chunks;
      assert Split(d)[1..] == chunks && Split(d)[j..] == chunks[j - 1..];
      DropDrop(d, s, t);
    }
  }

  lemma DropDrop(d: bytes, s: nat, t: nat)
    requires s + t <= |d|
    ensures d[s..][t..] == d[s + t..]
  {
  }

  lemma {:induction false} TotalNext(chunks: seq<bytes>, j: nat)
    requires j < |chunks|
    ensures Total(chunks, j + 1) == Total(chunks, j) + |chunks[j]|
    decreases j
  {
    if j > 0 {
      TotalNext(chunks[1..], j - 1);
    }
  }

  /** What is found at the place of item `j`: the item, the end, or something bad. */
  lemma NextChunk(d: bytes, j: nat)
    requires j <= |Split(d)|
    ensures var t := Total(Split(d), j);
            && t <= |d|
            && (j < |Split(d)| ==> SizeAsEncoded(d[t..]) == Some(|Split(d)[j]|) &&
                                   d[t..][..|Split(d)[j]|] == Split(d)[j] != [] &&
                                   Total(Split(d), j + 1) == t + |Split(d)[j]|)
            && (j == |Split(d)| && Splits(d) ==> d[t..] == [])
            && (j == |Split(d)| && !Splits(d) ==> SizeAsEncoded(d[t..]) == None)
  {
    SplitRest(d, j);
    if j < |Split(d)| {
      TotalNext(Split(d), j);
      assert Split(d)[j..] != [];
    }
  }

  lemma {:induction false} ChunkCount(d: bytes)
    ensures |Split(d)| <= |d|
    decreases |d|
  {
    if d != [] && SizeAsEncoded(d).Some? {
      ChunkCount(d[SizeAsEncoded(d).value..]);
    }
  }

  lemma {:induction false} ChunkReadable(d: bytes, j: nat)
    requires j < |Split(d)|
    ensures SizeAsEncoded(Split(d)[j]) == Some(|Split(d)[j]|)
    decreases j
  {
    var s := SizeAsEncoded(d).value;
    if j > 0 {
      ChunkReadable(d[s..], j - 1);
    } else {
      SizeOfPrefix(d, s);
    }
  }

  /** The size of an item does not depend on what follows it. */
  lemma SizeOfPrefix(d: bytes, s: nat)
    requires d != [] && SizeAsEncoded(d) == Some(s)
    ensures SizeAsEncoded(d[..s]) == Some(s)
  {
    if LengthSize(d) > 0 {
      assert d[..s][1..1 + LengthSize(d)] == d[1..1 + LengthSize(d)];
    }
  }

  /** The items that the encoder wrote are the ones found, each with its own encoding. */
  lemma {:induction false} SplitEncoded(items: seq<Item>)
    requires |EncodeAll(items)| < LENGTH_LIMIT
    ensures Splits(EncodeAll(items)) && |Split(EncodeAll(items))| == |items|
    ensures forall i :: 0 <= i < |items| ==> Split(EncodeAll(items))[i] == Encode(items[i])
  {
    if items != [] {
      var first, rest := Encode(items[0]), EncodeAll(items[1..]);
      SizeOfEncoding(items[0], rest);
      SplitEncoded(items[1..]);
      assert (first + rest)[..|first|] == first && (first + rest)[|first|..] == rest;
    }
  }

  // ---------------------------------------------------------------- the index cache

  /** The last position asked for, where that item ends, and the item. */
  datatype Cache = Cache(index: nat, end: nat, item: bytes)

  const FRESH := Cache(NO_INDEX, 0, [])

  function Crop(d: bytes, begin: nat): bytes
  {
    if begin <= |d| then d[begin..] else []
  }

  /** The loop of operator[], from where the cache stands. */
  function Walk(d: bytes, c: Cache, i: Index): (Cache, Option<bytes>)
    decreases i - c.index
  {
    if c.index < i && c.item != [] then
      var rest := Crop(d, c.end);
      match SizeAsEncoded(rest)
      case None => (Cache(c.index, c.end, rest), None)
      case Some(s) => Walk(d, Cache(c.index + 1, c.end + s, rest[..s]), i)
    else (c, if SizeAsEncoded(c.item).Some? then Some(c.item) else None)
  }

  /** operator[]: the new cache, and the item; None where the source throws. */
  function Query(d: bytes, c: Cache, i: Index): (Cache, Option<bytes>)
  {
    if i < c.index then
      match SizeAsEncoded(d)
      case None => (c, None)
      case Some(s) => Walk(d, Cache(0, s, d[..s]), i)
    else Walk(d, c, i)
  }

  function AfterQueries(d: bytes, c: Cache, queries: seq<Index>): Cache
    decreases |queries|
  {
    if queries == [] then c else AfterQueries(d, Query(d, c, queries[0]).0, queries[1..])
  }

  /** The payload of a view that fits. */
  function PayloadIn(data: bytes): bytes
  {
    if data == [] then [] else Crop(data, PayloadOffset(data))
  }

  class RLP {
    const data: bytes
    var lastIndex: nat
    var lastEnd: nat
    var lastItem: bytes

    ghost predicate Valid()
    {
      ActualSize(data) == Some(|data|)
    }

    predicate IsList()
    {
      data != [] && data[0] >= LIST_START
    }

    function Payload(): bytes
    {
      PayloadIn(data)
    }

    ghost function View(): Cache
      reads this
    {
      Cache(lastIndex, lastEnd, lastItem)
    }

    /** A view on nothing, or on one item that fills the bytes exactly; others are refused. */
    constructor (data: bytes)
      requires ActualSize(data) == Some(|data|)
      ensures this.data == data && Valid() && View() == FRESH
    {
      this.data := data;
      lastIndex, lastEnd, lastItem := NO_INDEX, 0, [];
    }

    /** operator[]. The code does not ask whether the view is a list. */
    method At(i: Index) returns (r: Option<bytes>)
      requires Valid()
      modifies this
      ensures (View(), r) == Query(Payload(), old(View()), i)
    {
      hide SizeAsEncoded, Payload;
      var d := Payload();
      if i < lastIndex {
        var s := SizeAsEncoded(d);
        if s.None? {
          return None;
        }
        lastEnd := s.value;
        lastItem := d[..s.value];
        lastIndex := 0;
      }
      while lastIndex < i && lastItem != []
        invariant Walk(d, View(), i) == Query(d, old(View()), i)
        decreases i - lastIndex
      {
        lastItem := Crop(d, lastEnd);
        var s := SizeAsEncoded(lastItem);
        if s.None? {
          return None;
        }
        lastItem := lastItem[..s.value];
        lastEnd := lastEnd + |lastItem|;
        lastIndex := lastIndex + 1;
      }
      return if SizeAsEncoded(lastItem).Some? then Some(lastItem) else None;
    }

    /** itemCount: how many there are; none in a view that is not a list. */
    method Items() returns (r: Option<nat>)
      requires Valid()
      ensures r == if !IsList() then Some(0) else if Splits(Payload()) then Some(|Split(Payload())|) else None
    {
      if !IsList() {
        return Some(0);
      }
      var d, i := Payload(), 0;
      while |d| > 0
        invariant Splits(d) <==> Splits(Payload())
        invariant Splits(d) ==> i + |Split(d)| == |Split(Payload())|
        decreases |d|
      {
        var s := SizeAsEncoded(d);
        if s.None? {
          return None;
        }
        d, i := Crop(d, s.value), i + 1;
      }
      return Some(i);
    }

    /** toList: from begin to end. */
    method ToList() returns (r: Option<seq<bytes>>)
      requires Valid()
      ensures r == if !IsList() then Some([]) else if Splits(Payload()) then Some(Split(Payload())) else None
    {
      if !IsList() {
        return Some([]);
      }
      var it := new Iterator(Payload());
      var list: seq<bytes> := [];
      var ok := it.Begin();
      while ok && !it.AtEnd()
        invariant it.payload == Payload() && |list| <= |Split(it.payload)| && list == Split(it.payload)[..|list|]
        invariant if ok then it.Stands(|list|) else !Splits(it.payload)
        decreases if ok then 1 else 0, |Split(it.payload)| - |list|
      {
        it.NotAtEnd(|list|);
        list := list + [it.Current()];
        ok := it.Next(|list| - 1);
      }
      if !ok {
        return None;
      }
      it.EndReached(|list|);
      assert list == Split(Payload());
      return Some(list);
    }
  }

  class Iterator {
    const payload: bytes
    var pos: nat
    var size: nat
    var remaining: nat

    /** The current item is the `j`-th, or the end. */
    ghost predicate Stands(j: nat)
      reads this
    {
      && j <= |Split(payload)|
      && pos == Total(Split(payload), j)
      && pos + size + remaining == |payload|
      && (if j < |Split(payload)| then size == |Split(payload)[j]| else size == 0 && Splits(payload))
    }

    constructor (payload: bytes)
      ensures this.payload == payload
    {
      this.payload := payload;
      pos, size, remaining := 0, 0, 0;
    }

    method Begin() returns (ok: bool)
      modifies this
      ensures if ok then Stands(0) else !Splits(payload)
    {
      NextChunk(payload, 0);
      assert payload[0..] == payload;
      var s := SizeAsEncoded(payload);
      if s.None? {
        return false;
      }
      pos, size, remaining := 0, s.value, |payload| - s.value;
      return true;
    }

    /** operator++ */
    method Next(ghost j: nat) returns (ok: bool)
      requires Stands(j) && j < |Split(payload)|
      modifies this
      ensures if ok then Stands(j + 1) else !Splits(payload)
    {
      hide SizeAsEncoded, Split;
      EmptySize();
      NextChunk(payload, j);
      NextChunk(payload, j + 1);
      if remaining > 0 {
        var current := payload[pos + size..pos + size + remaining];
        assert current == payload[Total(Split(payload), j + 1)..];
        var s := SizeAsEncoded(current);
        if s.None? {
          return false;
        }
        pos, size := pos + size, s.value;
        remaining := remaining - if remaining < size then remaining else size;
      } else {
        pos, size := pos + size, 0;
      }
      return true;
    }

    /** Equality with the end iterator, which is empty and lies behind the payload. */
    predicate AtEnd()
      reads this
    {
      pos == |payload| && size == 0
    }

    function Current(): bytes
      requires pos + size <= |payload|
      reads this
    {
      payload[pos..pos + size]
    }

    lemma NotAtEnd(j: nat)
      requires Stands(j) && !AtEnd()
      ensures j < |Split(payload)| && pos + size <= |payload| && Current() == Split(payload)[j]
    {
      NextChunk(payload, j);
      assert payload[pos..][..size] == payload[pos..pos + size];
    }

    lemma EndReached(j: nat)
      requires Stands(j) && AtEnd()
      ensures j == |Split(payload)| && Splits(payload)
    {
      NextChunk(payload, j);
    }
  }

  // ---------------------------------------------------------------- transparency

  /** The cache is fresh or stands at an item of the payload, or behind the last. */
  ghost predicate Stands(d: bytes, c: Cache)
  {
    c == FRESH ||
    (var chunks := Split(d);
     && c.index <= |chunks|
     && c.end == Total(chunks, if c.index < |chunks| then c.index + 1 else |chunks|)
     && c.item == if c.index < |chunks| then chunks[c.index] else [])
  }

  /** What a query for position `i` is to give. */
  function ItemAt(d: bytes, i: nat): bytes
  {
    if i < |Split(d)| then Split(d)[i] else []
  }

  lemma EmptySize()
    ensures SizeAsEncoded([]) == Some(0)
  {
  }

  lemma {:induction false} WalkFinds(d: bytes, c: Cache, i: Index)
    requires Splits(d) && Stands(d, c) && c != FRESH && c.index <= i
    ensures Stands(d, Walk(d, c, i).0) && Walk(d, c, i).1 == Some(ItemAt(d, i))
    decreases i - c.index
  {
    hide SizeAsEncoded, Split;
    EmptySize();
    if c.index < |Split(d)| {
      ChunkReadable(d, c.index);
      NextChunk(d, c.index);
      NextChunk(d, c.index + 1);
      if c.index < i {
        var s := SizeAsEncoded(d[c.end..]).value;
        WalkFinds(d, Cache(c.index + 1, c.end + s, d[c.end..][..s]), i);
      }
    }
  }

  lemma FirstChunk(d: bytes)
    requires Splits(d) && |d| < LENGTH_LIMIT
    ensures SizeAsEncoded(d).Some? && var s := SizeAsEncoded(d).value; Stands(d, Cache(0, s, d[..s]))
  {
    NextChunk(d, 0);
    assert d[0..] == d;
  }

  lemma QueryFinds(d: bytes, c: Cache, i: Index)
    requires |d| < LENGTH_LIMIT && Splits(d) && Stands(d, c)
    ensures Stands(d, Query(d, c, i).0) && Query(d, c, i).1 == Some(ItemAt(d, i))
  {
    hide SizeAsEncoded, Split;
    EmptySize();
    ChunkCount(d);
    if i < c.index {
      FirstChunk(d);
      var s := SizeAsEncoded(d).value;
      WalkFinds(d, Cache(0, s, d[..s]), i);
    } else if c != FRESH {
      WalkFinds(d, c, i);
    }
  }

  /** On a well-formed list every query finds its item, or the empty view past the end, whatever
      was asked for before. */
  lemma {:induction false} CacheIsTransparent(d: bytes, c: Cache, queries: seq<Index>, i: Index)
    requires |d| < LENGTH_LIMIT && Splits(d) && Stands(d, c)
    ensures Query(d, AfterQueries(d, c, queries), i).1 == Some(ItemAt(d, i))
    decreases |queries|
  {
    if queries == [] {
      QueryFinds(d, c, i);
    } else {
      QueryFinds(d, c, queries[0]);
      CacheIsTransparent(d, Query(d, c, queries[0]).0, queries[1..], i);
    }
  }

  /** On a list with a bad item after good ones it is not: asking for the bad item spoils the
      cache, and the item before it is then refused as well. */
  lemma BadItemSpoilsCache(d: bytes)
    requires |d| < LENGTH_LIMIT && !Splits(d) && Split(d) != []
    ensures var k := |Split(d)|;
            && k <= NO_INDEX
            && Query(d, FRESH, k - 1).1 == Some(Split(d)[k - 1])
            && Query(d, AfterQueries(d, FRESH, [k]), k - 1).1 == None
  {
    hide SizeAsEncoded, Split, Walk;
    var k := |Split(d)|;
    ChunkCount(d);
    NextChunk(d, 0);
    assert d[0..] == d;
    var first := Cache(0, |Split(d)[0]|, Split(d)[0]);
    WalkToBad(d, first, k - 1);
    WalkToBad(d, first, k);
    var spoiled := Query(d, FRESH, k).0;
    assert [k as Index][1..] == [] && AfterQueries(d, spoiled, []) == spoiled;
    RefusedAgain(d, spoiled, k - 1);
  }

  /** The list [0xc2, 0x01, 0x81] is an example: its first item is 1, its second is cut off. */
  lemma SpoiledExample()
    ensures var d := [0x01, 0x81];
            && ActualSize([LIST_START + 2] + d) == Some(3)
            && Query(d, FRESH, 0).1 == Some([0x01])
            && Query(d, AfterQueries(d, FRESH, [1]), 0).1 == None
  {
    var d: bytes := [0x01, 0x81];
    assert Length([0x81]) == None;
    assert d[1..] == [0x81] && d[..1] == [0x01];
    assert Split([0x81]) == [] && !Splits([0x81]);
    assert Split(d) == [[0x01]] + Split([0x81]);
    BadItemSpoilsCache(d);
  }

  lemma RefusedAgain(d: bytes, c: Cache, i: Index)
    requires c.index == i && SizeAsEncoded(c.item) == None
    ensures Query(d, c, i).1 == None
  {
  }

  /** From one item the cache gets to the next, or runs into the bad one. */
  lemma OneFurther(d: bytes, c: Cache)
    requires !Splits(d) && Stands(d, c) && c != FRESH && c.index < |Split(d)|
    ensures c.end <= |d| && c.item == Split(d)[c.index] != [] && SizeAsEncoded(c.item).Some?
    ensures var size := SizeAsEncoded(d[c.end..]);
            if c.index + 1 < |Split(d)| then
              size.Some? && Stands(d, Cache(c.index + 1, c.end + size.value, d[c.end..][..size.value]))
            else size == None
  {
    hide SizeAsEncoded, Split;
    ChunkReadable(d, c.index);
    NextChunk(d, c.index);
    NextChunk(d, c.index + 1);
  }

  lemma {:induction false} WalkToBad(d: bytes, c: Cache, i: Index)
    requires !Splits(d) && Stands(d, c) && c != FRESH && c.index < |Split(d)| && c.index <= i <= |Split(d)| <= NO_INDEX
    ensures i < |Split(d)| ==> Walk(d, c, i).1 == Some(Split(d)[i])
    ensures i == |Split(d)| ==> Walk(d, c, i).0.index == i - 1 && SizeAsEncoded(Walk(d, c, i).0.item) == None
    decreases i - c.index
  {
    hide SizeAsEncoded, Split, Splits, Stands;
    OneFurther(d, c);
    if c.index + 1 < |Split(d)| && c.index < i {
      var s := SizeAsEncoded(d[c.end..]).value;
      var next := Cache(c.index + 1, c.end + s, d[c.end..][..s]);
      WalkToBad(d, next, i);
    }
  }

  /** With a bad item in front, every query in range is refused, and the cache stays fresh. */
  lemma {:induction false} BadFirstItem(d: bytes, queries: seq<Index>, i: Index)
    requires !Splits(d) && Split(d) == []
    ensures Query(d, AfterQueries(d, FRESH, queries), i) == (FRESH, if i < NO_INDEX then None else Some([]))
    decreases |queries|
  {
    if queries != [] {
      BadFirstItem(d, [], queries[0]);
      BadFirstItem(d, queries[1..], i);
    }
  }

  /** Queries made before never change what a query gives. */
  ghost predicate Transparent(d: bytes)
  {
    forall queries: seq<Index>, i: Index :: Query(d, AfterQueries(d, FRESH, queries), i).1 == Query(d, FRESH, i).1
  }

  /** The exact condition: there is no bad item, or not a single good one before it. */
  lemma TransparentExactly(d: bytes)
    requires |d| < LENGTH_LIMIT
    ensures Transparent(d) <==> Splits(d) || Split(d) == []
  {
    hide Query;
    if Splits(d) {
      forall queries: seq<Index>, i: Index
        ensures Query(d, AfterQueries(d, FRESH, queries), i).1 == Query(d, FRESH, i).1
      {
        CacheIsTransparent(d, FRESH, queries, i);
        CacheIsTransparent(d, FRESH, [], i);
      }
    } else if Split(d) == [] {
      forall queries: seq<Index>, i: Index
        ensures Query(d, AfterQueries(d, FRESH, queries), i).1 == Query(d, FRESH, i).1
      {
        BadFirstItem(d, queries, i);
        BadFirstItem(d, [], i);
      }
    } else {
      BadItemSpoilsCache(d);
    }
  }

  // ---------------------------------------------------------------- views that are no lists

  /** Every query gives the empty view, whatever was asked for before. */
  ghost predicate AlwaysEmpty(d: bytes)
  {
    forall queries: seq<Index>, i: Index :: Query(d, AfterQueries(d, FRESH, queries), i).1 == Some([])
  }

  /** A first query for position 0 gives the empty view only if there is nothing in the payload. */
  lemma FirstQuery(d: bytes)
    requires |d| < LENGTH_LIMIT && Query(d, FRESH, 0).1 == Some([])
    ensures d == []
  {
    assert SizeAsEncoded(d).Some?;
  }

  lemma AlwaysEmptyExactly(d: bytes)
    requires |d| < LENGTH_LIMIT
    ensures AlwaysEmpty(d) <==> d == []
  {
    hide Query;
    if AlwaysEmpty(d) {
      assert AfterQueries(d, FRESH, []) == FRESH;
      FirstQuery(d);
    }
    if d == [] {
      forall queries: seq<Index>, i: Index
        ensures Query(d, AfterQueries(d, FRESH, queries), i).1 == Some([])
      {
        CacheIsTransparent(d, FRESH, queries, i);
      }
    }
  }

  /** A view that is no list gives the empty view for every position, as documented, exactly when it is
      a view on nothing or on the empty string; otherwise operator[] looks into the bytes of the string. */
  lemma StringIndexedExactly(data: bytes)
    requires ActualSize(data) == Some(|data|) && (data == [] || data[0] < LIST_START)
    ensures AlwaysEmpty(PayloadIn(data)) <==> data == [] || data == [DATA_START]
  {
    var d := PayloadIn(data);
    AlwaysEmptyExactly(d);
    if data != [] && d == [] {
      assert Length(data) == Some(0);
    }
  }

  /** Of the string [0x82, 0x01, 0x02], for example, it gives the first and the second byte. */
  lemma StringIndexed()
    ensures var data := [DATA_START + 2, 0x01, 0x02]; var d := PayloadIn(data);
            && ActualSize(data) == Some(3)
            && Query(d, FRESH, 0).1 == Some([0x01]) && Query(d, FRESH, 1).1 == Some([0x02])
  {
    var d: bytes := [0x01, 0x02];
    assert [DATA_START + 2, 0x01, 0x02][1..] == d;
    var items: seq<Item> := [Data([0x01]), Data([0x02])];
    assert items[1..] == [Data([0x02])] && items[1..][1..] == [];
    assert EncodeAll(items) == d;
    SplitEncoded(items);
    QueryFinds(d, FRESH, 0);
    QueryFinds(d, FRESH, 1);
  }

  // ---------------------------------------------------------------- numbers

  /** isInt; None where the source throws. */
  function IsInt(b: bytes): Option<bool>
  {
    if b == [] then Some(false)
    else if !Good(b) then None
    else if b[0] < DATA_START then Some(b[0] != 0)
    else if b[0] == DATA_START then Some(true)
    else if b[0] <= DATA_IND_ZERO then if |b| <= 1 then None else Some(b[1] != 0)
    else if b[0] < LIST_START then
      var i := 1 + b[0] - DATA_IND_ZERO;
      if |b| <= i then None else Some(b[i] != 0)
    else Some(false)
  }

  /** How toInt is to take what is no number of its type. */
  datatype Flags = Flags(allowNonCanon: bool, throwOnFail: bool, failIfTooBig: bool)

  const STRICT := Flags(false, true, true)

  /** toInt for a number type of `size` bytes; None where the source throws. */
  function ToIntWith(b: bytes, size: nat, flags: Flags): Option<nat>
  {
    var refused: Option<nat> := if flags.throwOnFail then None else Some(0);
    if !Good(b) || IsInt(b).None? then None
    else if (!IsInt(b).value && !flags.allowNonCanon) || b[0] >= LIST_START then refused
    else match Length(b)
      case None => None
      case Some(len) =>
        if len > |b| then None
        else
          var p := if PayloadOffset(b) + len <= |b| then b[PayloadOffset(b)..PayloadOffset(b) + len] else [];
          if |p| > size && flags.failIfTooBig then refused else Some(FromBigEndian(p) % Pow256(size))
  }

  function ToInt(b: bytes, size: nat): Option<nat>
  {
    ToIntWith(b, size, STRICT)
  }

  /** Of all decodable strings, the numbers are those without a leading zero, or all if flags allow it;
      one that is too long for its type is refused, or wraps around if flags allow it. */
  lemma NumbersRead(b: bytes, it: Item, size: nat, flags: Flags)
    requires Decode(b) == Some(it)
    ensures var refused: Option<nat> := if flags.throwOnFail then None else Some(0);
            ToIntWith(b, size, flags) ==
            if it.List? || (it.data != [] && it.data[0] == 0 && !flags.allowNonCanon) then refused
            else if |it.data| <= size then Some(FromBigEndian(it.data))
            else if flags.failIfTooBig then refused
            else Some(FromBigEndian(it.data) % Pow256(size))
  {
    if it.Data? {
      var o := PayloadOffset(b);
      assert it.data == b[o..];
      assert b[o..|b|] == b[o..];
      if b[0] >= DATA_START && o < |b| {
        assert it.data[0] == b[o];
      }
      if |it.data| <= size {
        NoWrap(it.data, size);
      }
    }
  }

  /** A number that is written is read back, by every type that can hold it and by no other. */
  lemma NumberRoundTrip(i: nat, maxSize: nat)
    requires Fits(Data(BigEndian(i)))
    ensures ToInt(EncodeData(BigEndian(i)), maxSize) == if i < Pow256(maxSize) then Some(i) else None
  {
    DecodeEncode(Data(BigEndian(i)));
    NumbersRead(EncodeData(BigEndian(i)), Data(BigEndian(i)), maxSize, STRICT);
    BigEndianRoundTrip(i);
    BigEndianWidth(i, maxSize);
  }
}
