/** The RLP writer. A list is announced by its number of items; its header is inserted in front
    of its body when the last item is complete. */
module RlpStream {
  import opened Bytes
  import opened Rlp

  /** A list that was announced: how many items are still missing, and where its body starts. */
  datatype OpenList = OpenList(missing: nat, start: nat)

  datatype Output = Output(out: bytes, open: seq<OpenList>)

  ghost predicate StartsInside(s: Output)
  {
    forall l :: l in s.open ==> l.start <= |s.out|
  }

  predicate HeaderFits(indirect: byte, len: nat)
  {
    len < IMM_COUNT || indirect + |BigEndian(len)| <= 0xff
  }

  /** The effect of `k` more complete items at the end of the output; None where the source
      throws: more items than the list was announced to have, or a body too long for a header. */
  function Noted(s: Output, k: nat): (r: Option<Output>)
    requires StartsInside(s)
    ensures r.Some? ==> StartsInside(r.value)
    decreases |s.open|
  {
    if k == 0 || s.open == [] then Some(s)
    else
      var outer, top := s.open[..|s.open| - 1], s.open[|s.open| - 1];
      if top.missing < k then None
      else if top.missing > k then Some(Output(s.out, outer + [OpenList(top.missing - k, top.start)]))
      else
        var body := s.out[top.start..];
        if !HeaderFits(LIST_IND_ZERO, |body|) then None
        else Noted(Output(s.out[..top.start] + Header(LIST_START, |body|) + body, outer), 1)
  }

  /** The effect of one whole item, given by its encoding. */
  function Added(s: Output, b: bytes): (r: Option<Output>)
    requires StartsInside(s)
    ensures r.Some? ==> StartsInside(r.value)
  {
    Noted(Output(s.out + b, s.open), 1)
  }

  method BytesRequired(n: nat) returns (br: nat)
    ensures br == |BigEndian(n)|
  {
    br := 0;
    var i := n;
    while i != 0
      invariant |BigEndian(n)| == br + |BigEndian(i)|
    {
      br, i := br + 1, i / 256;
    }
  }

  class RLPStream {
    var out: bytes
    var listStack: seq<OpenList>

    ghost function View(): Output
      reads this
    {
      Output(out, listStack)
    }

    ghost predicate Valid()
      reads this
    {
      StartsInside(View())
    }

    constructor ()
      ensures Valid() && View() == Output([], [])
    {
      out := [];
      listStack := [];
    }

    /** Writes the digits of a number from the given position backwards. */
    method WriteBack(last: nat, n: nat)
      requires |BigEndian(n)| <= last + 1 <= |out|
      modifies this`out
      ensures out == old(out[..last + 1 - |BigEndian(n)|] + BigEndian(n) + out[last + 1..])
    {
      var i, b: int := n, last;
      ghost var before, written: bytes := out, [];
      assert out == before[..last + 1] + [] + before[last + 1..];
      while i != 0
        invariant BigEndian(n) == BigEndian(i) + written && b + 1 >= |BigEndian(i)|
        invariant b == last - |written| && b < |before|
        invariant out == before[..b + 1] + written + before[last + 1..]
        decreases i
      {
        DigitPut(before, before[last + 1..], written, b, i % 256);
        assert BigEndian(i) + written == BigEndian(i / 256) + ([i % 256] + written);
        written := [i % 256] + written;
        out := out[b := i % 256];
        b, i := b - 1, i / 256;
      }
    }

    lemma DigitPut(before: bytes, tail: bytes, written: bytes, b: nat, digit: byte)
      requires b < |before|
      ensures (before[..b + 1] + written + tail)[b := digit] == before[..b] + ([digit] + written) + tail
    {
    }

    method PushInt(n: nat, br: nat)
      requires br == |BigEndian(n)|
      modifies this`out
      ensures out == old(out) + BigEndian(n)
    {
      out := out + seq(br, _ => 0);
      if br > 0 {
        ghost var grown := out;
        WriteBack(|out| - 1, n);
        assert grown[..|grown| - br] == old(out);
      }
    }

    method PushCount(count: nat, base: byte) returns (ok: bool)
      modifies this`out
      ensures ok <==> |BigEndian(count)| + base <= 0xff
      ensures ok ==> out == old(out) + [base + |BigEndian(count)|] + BigEndian(count)
    {
      var br := BytesRequired(count);
      if br + base > 0xff {
        return false;
      }
      out := out + [br + base];
      PushInt(count, br);
      return true;
    }

    /** The header of a string or a list, in front of what is appended next. */
    method PushHeader(start: byte, len: nat) returns (ok: bool)
      requires start == DATA_START || start == LIST_START
      modifies this`out
      ensures ok <==> HeaderFits(start + 55, len)
      ensures ok ==> out == old(out) + Header(start, len)
    {
      hide BigEndian;
      if len < IMM_COUNT {
        out := out + [start + len];
        return true;
      }
      ok := PushCount(len, start + 55);
      assert ok ==> out == old(out) + ([start + 55 + |BigEndian(len)|] + BigEndian(len));
    }

    /** Grows the output and moves what starts at `p` to its end. */
    method MakeRoom(p: nat, n: nat)
      requires p <= |out|
      modifies this`out
      ensures |out| == |old(out)| + n && out[..p] == old(out[..p]) && out[p + n..] == old(out[p..])
    {
      var os := |out|;
      out := out + seq(n, _ => 0);
      BodyMoved(old(out), p, n, out[..p + n] + out[p..os]);
      out := out[..p + n] + out[p..os];
    }

    /** Inserts a header in front of the body that starts at `p`. */
    method InsertHeader(p: nat) returns (ok: bool)
      requires p <= |out|
      modifies this`out
      ensures ok <==> HeaderFits(LIST_IND_ZERO, |old(out)| - p)
      ensures ok ==> out == old(out[..p] + Header(LIST_START, |out| - p) + out[p..])
    {
      var s := |out| - p;
      var brs := BytesRequired(s);
      var encodeSize := if s < IMM_COUNT then 1 else 1 + brs;
      hide BigEndian;
      ghost var before, body := out[..p], out[p..];
      MakeRoom(p, encodeSize);
      if s < IMM_COUNT {
        RoomFilled(out, before, body, LIST_START + s, []);
        out := out[p := LIST_START + s];
      } else if LIST_IND_ZERO + brs <= 0xff {
        RoomFilled(out, before, body, LIST_IND_ZERO + brs, BigEndian(s));
        out := out[p := LIST_IND_ZERO + brs];
        WriteBack(p + brs, s);
      } else {
        return false;
      }
      return true;
    }

    lemma BodyMoved(before: bytes, p: nat, n: nat, moved: bytes)
      requires p <= |before|
      requires moved == (before + seq(n, _ => 0))[..p + n] + (before + seq(n, _ => 0))[p..|before|]
      ensures |moved| == |before| + n && moved[..p] == before[..p] && moved[p + n..] == before[p..]
    {
    }

    /** A first byte and digits, put into the room in front of the body. */
    lemma RoomFilled(moved: bytes, before: bytes, body: bytes, first: byte, digits: bytes)
      requires |moved| == |before| + 1 + |digits| + |body|
      requires moved[..|before|] == before && moved[|before| + 1 + |digits|..] == body
      ensures var marked := moved[|before| := first];
              marked[..|before| + 1] + digits + marked[|before| + |digits| + 1..] == before + ([first] + digits) + body
      ensures digits == [] ==> moved[|before| := first] == before + [first] + body
    {
      var marked := moved[|before| := first];
      assert marked[..|before| + 1] == before + [first];
      assert marked[|before| + |digits| + 1..] == body;
    }

    method NoteAppended(itemCount: nat) returns (ok: bool)
      requires Valid()
      modifies this
      ensures var r := Noted(old(View()), itemCount); ok == r.Some? && (ok ==> Valid() && View() == r.value)
    {
      if itemCount == 0 {
        return true;
      }
      var k := itemCount;
      while |listStack| > 0
        invariant Valid() && k > 0 && Noted(View(), k) == Noted(old(View()), itemCount)
        decreases |listStack|
      {
        var outer, top := listStack[..|listStack| - 1], listStack[|listStack| - 1];
        if top.missing < k {
          return false;
        }
        if top.missing - k > 0 {
          listStack := outer + [OpenList(top.missing - k, top.start)];
          return true;
        }
        listStack := outer;
        var fits := InsertHeader(top.start);
        if !fits {
          return false;
        }
        k := 1;
      }
      return true;
    }

    /** Appends bytes that hold the given number of items. */
    method AppendRaw(s: bytes, itemCount: nat) returns (ok: bool)
      requires Valid()
      modifies this
      ensures var r := Noted(Output(old(out) + s, old(listStack)), itemCount);
              ok == r.Some? && (ok ==> Valid() && View() == r.value)
    {
      out := out + s;
      ok := NoteAppended(itemCount);
    }

    /** Announces a list; an empty one is complete at once. */
    method AppendList(items: nat) returns (ok: bool)
      requires Valid()
      modifies this
      ensures var r := Announced(old(View()), items); ok == r.Some? && (ok ==> Valid() && View() == r.value)
    {
      if items > 0 {
        listStack := listStack + [OpenList(items, |out|)];
        return true;
      }
      ok := AppendBody([]);
    }

    /** Appends a list whose body is given as a whole. */
    method AppendBody(body: bytes) returns (ok: bool)
      requires Valid()
      modifies this
      ensures ok ==> HeaderFits(LIST_IND_ZERO, |body|)
      ensures HeaderFits(LIST_IND_ZERO, |body|) ==>
                var r := Added(old(View()), Header(LIST_START, |body|) + body);
                ok == r.Some? && (ok ==> Valid() && View() == r.value)
    {
      hide Noted, Header, HeaderFits;
      ok := PushHeader(LIST_START, |body|);
      if !ok {
        return;
      }
      Concat3(old(out), Header(LIST_START, |body|), body);
      ok := AppendRaw(body, 1);
    }

    /** Appends a string of bytes; on request without its leading zeros. */
    method Append(s: bytes, compact: bool) returns (ok: bool)
      requires Valid()
      modifies this
      ensures var d := if compact then WithoutZeros(s) else s;
              if !HeaderFits(DATA_IND_ZERO, |d|) then !ok
              else var r := Added(old(View()), EncodeData(d)); ok == r.Some? && (ok ==> Valid() && View() == r.value)
    {
      var d: bytes := s;
      if compact {
        while |d| > 0 && d[0] == 0
          invariant WithoutZeros(d) == WithoutZeros(s)
        {
          d := d[1..];
        }
      }
      ok := AppendWhole(d);
    }

    method AppendWhole(d: bytes) returns (ok: bool)
      requires Valid()
      modifies this
      ensures if !HeaderFits(DATA_IND_ZERO, |d|) then !ok
              else var r := Added(old(View()), EncodeData(d)); ok == r.Some? && (ok ==> Valid() && View() == r.value)
    {
      hide Noted, Header, HeaderFits;
      if |d| == 1 && d[0] < DATA_START {
        OneByte(d);
        out := out + [d[0]];
      } else {
        ok := PushHeader(DATA_START, |d|);
        if !ok {
          return;
        }
        NothingNoted(Output(out + d, listStack));
        Concat3(old(out), Header(DATA_START, |d|), d);
        ok := AppendRaw(d, 0);
      }
      ok := NoteAppended(1);
    }

    lemma OneByte(d: bytes)
      requires |d| == 1
      ensures d == [d[0]] && HeaderFits(DATA_IND_ZERO, |d|)
    {
    }

    /** Appends a number of any size. */
    method AppendInt(i: nat) returns (ok: bool)
      requires Valid()
      modifies this
      ensures if !HeaderFits(DATA_IND_ZERO, |BigEndian(i)|) then !ok
              else var r := Added(old(View()), EncodeData(BigEndian(i)));
                   ok == r.Some? && (ok ==> Valid() && View() == r.value)
    {
      hide Noted;
      if i == 0 {
        out := out + [DATA_START];
      } else if i < DATA_START {
        assert BigEndian(i / 256) == [] && BigEndian(i) == [i];
        out := out + [i];
      } else {
        OneDigit(i);
        var fits := PushLong(i);
        if !fits {
          return false;
        }
      }
      assert out == old(out) + EncodeData(BigEndian(i));
      ok := NoteAppended(1);
    }

    /** Header and digits of a number that is not its own encoding. */
    method PushLong(i: nat) returns (ok: bool)
      modifies this`out
      ensures ok <==> HeaderFits(DATA_IND_ZERO, |BigEndian(i)|)
      ensures ok ==> out == old(out) + (Header(DATA_START, |BigEndian(i)|) + BigEndian(i))
    {
      hide BigEndian;
      ghost var before := out;
      var br := BytesRequired(i);
      if br < IMM_COUNT {
        out := out + [br + DATA_START];
      } else {
        var brbr := BytesRequired(br);
        if DATA_IND_ZERO + brbr > 0xff {
          return false;
        }
        out := out + [DATA_IND_ZERO + brbr];
        PushInt(br, brbr);
      }
      assert out == before + Header(DATA_START, br);
      PushInt(i, br);
      assert before + Header(DATA_START, br) + BigEndian(i) == before + (Header(DATA_START, br) + BigEndian(i));
      return true;
    }

    /** A number that has one digit is that digit. */
    lemma OneDigit(i: nat)
      requires i >= DATA_START
      ensures !(|BigEndian(i)| == 1 && BigEndian(i)[0] < DATA_START)
    {
      if |BigEndian(i)| == 1 {
        assert BigEndian(i / 256) == [];
      }
    }

    /** What the container templates do: announce the list, then append the elements in turn. */
    method AppendItem(it: Item) returns (ok: bool)
      requires Valid() && |Encode(it)| < TWO64
      modifies this
      ensures var r := Added(old(View()), Encode(it)); ok == r.Some? && (ok ==> Valid() && View() == r.value)
      decreases it
    {
      hide Noted, Encode, EncodeAll;
      match it
      case Data(d) =>
        SizedHeader(it);
        ok := Append(d, false);
      case List(items) =>
        ghost var s := View();
        ok := AppendList(|items|);
        if !ok {
          return;
        }
        if |items| > 0 {
          NoItems(s, items);
        }
        var i := 0;
        while i < |items|
          invariant i <= |items| && Valid() && ok
          invariant i < |items| ==> View() == Midway(s, items, i)
          invariant i == |items| ==> Added(s, Encode(it)) == Some(View())
        {
          OneMore(s, items, i);
          ok := AppendItem(items[i]);
          i := i + 1;
          if !ok {
            return;
          }
        }
    }

    /** The finished bytes; None where the source throws, with a list still open. */
    method Finished() returns (r: Option<bytes>)
      ensures r == if listStack == [] then Some(out) else None
    {
      if listStack != [] {
        return None;
      }
      return Some(out);
    }
  }

  function WithoutZeros(s: bytes): (d: bytes)
    ensures d == [] || d[0] != 0
  {
    if s != [] && s[0] == 0 then WithoutZeros(s[1..]) else s
  }

  /** The compact form stands for the same number, and is the one that a number is written in. */
  lemma {:induction false} CompactSameNumber(s: bytes)
    ensures FromBigEndian(WithoutZeros(s)) == FromBigEndian(s)
    ensures BigEndian(FromBigEndian(s)) == WithoutZeros(s)
  {
    if s != [] && s[0] == 0 {
      CompactSameNumber(s[1..]);
      LeadingZero(s[1..]);
      assert s == [0] + s[1..];
    } else {
      BigEndianCanonical(s);
    }
  }

  lemma {:induction false} LeadingZero(s: bytes)
    ensures FromBigEndian([0] + s) == FromBigEndian(s)
  {
    if s != [] {
      LeadingZero(s[..|s| - 1]);
      assert ([0] + s)[..|s|] == [0] + s[..|s| - 1];
    }
  }

  function Announced(s: Output, items: nat): (r: Option<Output>)
    requires StartsInside(s)
    ensures r.Some? ==> StartsInside(r.value)
  {
    if items > 0 then Some(Output(s.out, s.open + [OpenList(items, |s.out|)]))
    else Added(s, Encode(List([])))
  }

  lemma NothingNoted(s: Output)
    requires StartsInside(s)
    ensures Noted(s, 0) == Some(s)
  {
  }

  // ---------------------------------------------------------------- streaming one item

  /** The output while the first `j` items of a list are complete. */
  ghost function Midway(s: Output, items: seq<Item>, j: nat): Output
    requires j < |items|
  {
    Output(s.out + EncodeAll(items[..j]), s.open + [OpenList(|items| - j, |s.out|)])
  }

  lemma NoItems(s: Output, items: seq<Item>)
    requires items != []
    ensures Midway(s, items, 0) == Output(s.out, s.open + [OpenList(|items|, |s.out|)])
  {
    assert s.out + [] == s.out;
  }

  lemma {:induction false} EncodeAllConcat(a: seq<Item>, b: seq<Item>)
    ensures EncodeAll(a + b) == EncodeAll(a) + EncodeAll(b)
  {
    hide Encode;
    if a == [] {
      assert a + b == b;
    } else {
      EncodeAllConcat(a[1..], b);
      assert (a + b)[0] == a[0] && (a + b)[1..] == a[1..] + b;
      Concat3(Encode(a[0]), EncodeAll(a[1..]), EncodeAll(b));
    }
  }

  lemma Concat3(x: bytes, y: bytes, z: bytes)
    ensures (x + y) + z == x + (y + z)
  {
  }

  lemma EncodeAllMore(a: seq<Item>, it: Item)
    ensures EncodeAll(a + [it]) == EncodeAll(a) + Encode(it)
  {
    EncodeAllConcat(a, [it]);
    assert EncodeAll([it][1..]) == [];
    assert Encode(it) + [] == Encode(it);
  }

  /** Lengths below 2 to the 64 have a header. */
  lemma SizedHeader(it: Item)
    requires |Encode(it)| < TWO64
    ensures it.Data? ==> HeaderFits(DATA_IND_ZERO, |it.data|) && Encode(it) == EncodeData(it.data)
    ensures it.List? ==> |EncodeAll(it.items)| < TWO64 && HeaderFits(LIST_IND_ZERO, |EncodeAll(it.items)|)
  {
    match it
    case Data(d) => BigEndianWidth64(|d|);
    case List(items) => BigEndianWidth64(|EncodeAll(items)|);
  }

  /** One more item inside a list; the last one closes the list. */
  lemma OneMore(s: Output, items: seq<Item>, j: nat)
    requires StartsInside(s) && j < |items| && |Encode(List(items))| < TWO64
    ensures StartsInside(Midway(s, items, j)) && |Encode(items[j])| < TWO64
    ensures Added(Midway(s, items, j), Encode(items[j])) ==
            if j + 1 < |items| then Some(Midway(s, items, j + 1)) else Added(s, Encode(List(items)))
  {
    hide HeaderFits, Header;
    var body := EncodeAll(items[..j]) + Encode(items[j]);
    EncodeAllMore(items[..j], items[j]);
    assert items[..j] + [items[j]] == items[..j + 1];
    EncodeAllConcat(items[..j + 1], items[j + 1..]);
    assert items[..j + 1] + items[j + 1..] == items;
    SizedHeader(List(items));
    var m := Midway(s, items, j);
    assert m.out + Encode(items[j]) == s.out + body;
    if j + 1 == |items| {
      assert items[..|items|] == items;
      assert (s.out + body)[|s.out|..] == body && (s.out + body)[..|s.out|] == s.out;
      assert s.out + Header(LIST_START, |body|) + body == s.out + Encode(List(items));
    }
  }

  // ---------------------------------------------------------------- any sequence of calls

  /** What the calls meant so far: finished items, and lists that still miss some of theirs. */
  datatype Partial = Partial(missing: nat, items: seq<Item>)

  datatype Forest = Forest(items: seq<Item>, open: seq<Partial>)

  datatype Call = Whole(it: Item) | Announce(n: nat)

  /** One more item: it completes every list that misses only this one. */
  function Put(f: Forest, it: Item): Forest
    decreases |f.open|
  {
    if f.open == [] then Forest(f.items + [it], [])
    else
      var outer, top := f.open[..|f.open| - 1], f.open[|f.open| - 1];
      if top.missing > 1 then Forest(f.items, outer + [Partial(top.missing - 1, top.items + [it])])
      else Put(Forest(f.items, outer), List(top.items + [it]))
  }

  function Meant(f: Forest, calls: seq<Call>): Forest
    decreases |calls|
  {
    if calls == [] then f
    else match calls[0]
      case Whole(it) => Meant(Put(f, it), calls[1..])
      case Announce(n) =>
        Meant(if n == 0 then Put(f, List([])) else Forest(f.items, f.open + [Partial(n, [])]), calls[1..])
  }

  /** The output after the calls; None where one of them throws. */
  function Written(s: Output, calls: seq<Call>): Option<Output>
    requires StartsInside(s)
    decreases |calls|
  {
    if calls == [] then Some(s)
    else
      var r := match calls[0] case Whole(it) => Added(s, Encode(it)) case Announce(n) => Announced(s, n);
      if r.None? then None else Written(r.value, calls[1..])
  }

  /** What is left of an output, and of a forest, without the list on top. */
  function Under(s: Output): Output
    requires s.open != [] && s.open[|s.open| - 1].start <= |s.out|
  {
    Output(s.out[..s.open[|s.open| - 1].start], s.open[..|s.open| - 1])
  }

  function Beneath(f: Forest): Forest
    requires f.open != []
  {
    Forest(f.items, f.open[..|f.open| - 1])
  }

  /** The output shows the forest: finished items encoded, bodies of open lists without headers. */
  ghost predicate ShowsForest(s: Output, f: Forest)
    decreases |f.open|
  {
    if f.open == [] then s == Output(EncodeAll(f.items), [])
    else
      var top := f.open[|f.open| - 1];
      && s.open != []
      && var l := s.open[|s.open| - 1];
         && l.missing == top.missing > 0 && l.start <= |s.out| && s.out[l.start..] == EncodeAll(top.items)
         && ShowsForest(Under(s), Beneath(f))
  }

  lemma {:induction false} ShownStarts(s: Output, f: Forest)
    requires ShowsForest(s, f)
    ensures StartsInside(s) && |s.open| == |f.open|
    decreases |f.open|
  {
    if f.open != [] {
      ShownStarts(Under(s), Beneath(f));
      assert s.open == Under(s).open + [s.open[|s.open| - 1]];
    }
  }

  /** A list has a header exactly when its body has less than 2 to the 64 bytes. */
  lemma HeaderFitsExactly(len: nat)
    ensures HeaderFits(LIST_IND_ZERO, len) <==> len < TWO64
  {
    BigEndianWidth64(len);
  }

  /** The lists that one more item completes, from the innermost on, have bodies below 2 to the 64. */
  ghost predicate Completable(f: Forest, it: Item)
    decreases |f.open|
  {
    f.open == [] ||
    var top := f.open[|f.open| - 1];
    || top.missing > 1
    || (|EncodeAll(top.items + [it])| < TWO64 && Completable(Beneath(f), List(top.items + [it])))
  }

  ghost predicate AllCompletable(f: Forest, calls: seq<Call>)
    decreases |calls|
  {
    calls == [] ||
    match calls[0]
    case Whole(it) => Completable(f, it) && AllCompletable(Put(f, it), calls[1..])
    case Announce(n) =>
      if n == 0 then Completable(f, List([])) && AllCompletable(Put(f, List([])), calls[1..])
      else AllCompletable(Forest(f.items, f.open + [Partial(n, [])]), calls[1..])
  }

  lemma AddedOnTop(s: Output, b: bytes, items: seq<Item>)
    requires s.open != [] && StartsInside(s) && s.open[|s.open| - 1].missing > 0
    requires s.open[|s.open| - 1].start <= |s.out| && StartsInside(Under(s))
    requires s.out[s.open[|s.open| - 1].start..] + b == EncodeAll(items)
    ensures var l := s.open[|s.open| - 1];
            if l.missing > 1 then
              Added(s, b) == Some(Output(s.out + b, Under(s).open + [OpenList(l.missing - 1, l.start)]))
            else Added(s, b) == if |EncodeAll(items)| < TWO64 then Added(Under(s), Encode(List(items))) else None
  {
    hide HeaderFits, Header, EncodeAll;
    var l := s.open[|s.open| - 1];
    var body := EncodeAll(items);
    HeaderFitsExactly(|body|);
    Tail(s.out, l.start, b);
    Concat3(s.out[..l.start], Header(LIST_START, |body|), body);
  }

  /** One more item in the output is one more item in the forest; only a list that becomes too long
      for a header throws. */
  lemma {:induction false} PutShown(s: Output, f: Forest, it: Item)
    requires ShowsForest(s, f) && StartsInside(s)
    ensures Added(s, Encode(it)).Some? <==> Completable(f, it)
    ensures Added(s, Encode(it)).Some? ==> ShowsForest(Added(s, Encode(it)).value, Put(f, it))
    decreases |f.open|
  {
    hide Added, EncodeAll, Encode, StartsInside;
    if f.open == [] {
      EncodeAllMore(f.items, it);
      AddedAtTop(s, Encode(it));
    } else {
      var top, l := f.open[|f.open| - 1], s.open[|s.open| - 1];
      EncodeAllMore(top.items, it);
      ShownStarts(Under(s), Beneath(f));
      AddedOnTop(s, Encode(it), top.items + [it]);
      if top.missing > 1 {
        Tail(s.out, l.start, Encode(it));
        CountedShown(Under(s), Beneath(f), top.missing - 1, top.items + [it], s.out + Encode(it), l.start);
      } else {
        PutShown(Under(s), Beneath(f), List(top.items + [it]));
      }
    }
  }

  lemma AddedAtTop(s: Output, b: bytes)
    requires s.open == [] && StartsInside(s)
    ensures Added(s, b) == Some(Output(s.out + b, []))
  {
  }

  lemma Tail(b: bytes, p: nat, more: bytes)
    requires p <= |b|
    ensures (b + more)[..p] == b[..p] && (b + more)[p..] == b[p..] + more
  {
  }

  lemma CountedShown(outer: Output, rest: Forest, missing: nat, items: seq<Item>, b: bytes, p: nat)
    requires ShowsForest(outer, rest) && missing > 0 && p <= |b| && b[..p] == outer.out && b[p..] == EncodeAll(items)
    ensures ShowsForest(Output(b, outer.open + [OpenList(missing, p)]),
                        Forest(rest.items, rest.open + [Partial(missing, items)]))
  {
    hide EncodeAll;
    var s := Output(b, outer.open + [OpenList(missing, p)]);
    var f := Forest(rest.items, rest.open + [Partial(missing, items)]);
    assert s.open[..|s.open| - 1] == outer.open && f.open[..|f.open| - 1] == rest.open;
  }

  lemma AnnounceShown(s: Output, f: Forest, n: nat)
    requires ShowsForest(s, f) && n > 0
    ensures ShowsForest(Output(s.out, s.open + [OpenList(n, |s.out|)]), Forest(f.items, f.open + [Partial(n, [])]))
  {
    assert s.out[..|s.out|] == s.out;
    CountedShown(s, f, n, [], s.out, |s.out|);
  }

  /** The calls throw exactly when a list that they complete has a body of 2 to the 64 bytes or more;
      otherwise the output shows what the calls meant. */
  lemma {:induction false} CallsShown(s: Output, f: Forest, calls: seq<Call>)
    requires ShowsForest(s, f) && StartsInside(s)
    ensures Written(s, calls).Some? <==> AllCompletable(f, calls)
    ensures Written(s, calls).Some? ==> ShowsForest(Written(s, calls).value, Meant(f, calls))
    decreases |calls|
  {
    hide ShowsForest, Completable, Put, Encode, Noted;
    if calls != [] {
      match calls[0]
      case Whole(it) =>
        PutShown(s, f, it);
        if Completable(f, it) {
          CallsShown(Added(s, Encode(it)).value, Put(f, it), calls[1..]);
        }
      case Announce(n) =>
        if n == 0 {
          PutShown(s, f, List([]));
          if Completable(f, List([])) {
            CallsShown(Announced(s, n).value, Put(f, List([])), calls[1..]);
          }
        } else {
          AnnounceShown(s, f, n);
          CallsShown(Announced(s, n).value, Forest(f.items, f.open + [Partial(n, [])]), calls[1..]);
        }
    }
  }

  // ---------------------------------------------------------------- calls that are short enough

  ghost predicate AllMissing(s: Output)
  {
    StartsInside(s) && forall l :: l in s.open ==> l.missing > 0
  }

  /** The bytes of an output when every open list gets the longest header. */
  function Extent(s: Output): nat
  {
    |s.out| + 9 * |s.open|
  }

  /** The bytes of the items, and a longest header for each list. */
  function Cost(calls: seq<Call>): nat
  {
    if calls == [] then 0
    else (match calls[0] case Whole(it) => |Encode(it)| case Announce(_) => 9) + Cost(calls[1..])
  }

  lemma {:induction false} NotedWithin(s: Output)
    requires AllMissing(s) && Extent(s) < TWO64
    ensures Noted(s, 1).Some? && AllMissing(Noted(s, 1).value) && Extent(Noted(s, 1).value) <= Extent(s)
    decreases |s.open|
  {
    hide BigEndian;
    if s.open != [] {
      var outer, top := s.open[..|s.open| - 1], s.open[|s.open| - 1];
      assert top in s.open;
      if top.missing == 1 {
        var body := s.out[top.start..];
        BigEndianWidth64(|body|);
        NotedWithin(Output(s.out[..top.start] + Header(LIST_START, |body|) + body, outer));
      }
    }
  }

  /** Calls that stay below 2 to the 64 bytes with all headers never throw. */
  lemma {:induction false} ShortCalls(s: Output, calls: seq<Call>)
    requires AllMissing(s) && Extent(s) + Cost(calls) < TWO64
    ensures Written(s, calls).Some?
    decreases |calls|
  {
    hide Noted, Encode;
    if calls != [] {
      match calls[0]
      case Whole(it) =>
        NotedWithin(Output(s.out + Encode(it), s.open));
        ShortCalls(Added(s, Encode(it)).value, calls[1..]);
      case Announce(n) =>
        if n == 0 {
          EmptyList();
          NotedWithin(Output(s.out + Encode(List([])), s.open));
        }
        ShortCalls(Announced(s, n).value, calls[1..]);
    }
  }

  lemma EmptyList()
    ensures |Encode(List([]))| == 1
  {
  }

  /** From an empty stream: calls that stay below 2 to the 64 bytes do not throw. If they leave no list
      open, they have written the encodings of exactly the items that they built, and the strict
      decoder reads these items back. */
  lemma FinishedStream(calls: seq<Call>)
    ensures Written(Output([], []), calls).Some? <==> AllCompletable(Forest([], []), calls)
    ensures Cost(calls) < TWO64 ==> Written(Output([], []), calls).Some?
    ensures Written(Output([], []), calls).Some? ==>
              var s, f := Written(Output([], []), calls).value, Meant(Forest([], []), calls);
              && |s.open| == |f.open|
              && (s.open == [] ==> s.out == EncodeAll(f.items))
              && (s.open == [] && |s.out| < LENGTH_LIMIT ==> DecodeAll(s.out) == Some(f.items))
  {
    CallsShown(Output([], []), Forest([], []), calls);
    if Cost(calls) < TWO64 {
      ShortCalls(Output([], []), calls);
    }
    if Written(Output([], []), calls).Some? {
      var s, f := Written(Output([], []), calls).value, Meant(Forest([], []), calls);
      ShownStarts(s, f);
      if s.open == [] && |s.out| < LENGTH_LIMIT {
        DecodeEncodeAll(f.items);
      }
    }
  }
}
