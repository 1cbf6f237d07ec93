/** Sets of numbers inside a ground range, kept as an ordered map of separated intervals. */
module RangeMask {

  /** The numbers from `begin` up to, and without, `end`. */
  datatype Range = Range(begin: int, end: int)

  ghost predicate In(x: int, r: Range)
  {
    r.begin <= x < r.end
  }

  /** The canonical form: no interval is empty, and between any two there is a gap. */
  ghost predicate Canonical(r: seq<Range>)
  {
    && (forall i :: 0 <= i < |r| ==> r[i].begin < r[i].end)
    && (forall i, j :: 0 <= i < j < |r| ==> r[i].end < r[j].begin)
  }

  ghost predicate Has(r: seq<Range>, x: int)
  {
    exists i :: 0 <= i < |r| && In(x, r[i])
  }

  ghost predicate Inside(r: seq<Range>, all: Range)
  {
    forall i :: 0 <= i < |r| ==> all.begin <= r[i].begin && r[i].end <= all.end
  }

  // ---------------------------------------------------------------- the ordered map

  /** upper_bound: the first interval that begins after `x`, or the number of intervals. */
  function UpperBound(r: seq<Range>, x: int): (k: nat)
    ensures k <= |r|
    ensures forall i :: 0 <= i < k ==> r[i].begin <= x
    ensures k < |r| ==> x < r[k].begin
  {
    if r == [] || x < r[0].begin then 0 else 1 + UpperBound(r[1..], x)
  }

  /** operator[] with an assignment: changes the end of an interval, or inserts one in order. */
  function Put(r: seq<Range>, begin: int, end: int): seq<Range>
  {
    var k := UpperBound(r, begin);
    if k > 0 && r[k - 1].begin == begin then r[k - 1 := Range(begin, end)] else r[..k] + [Range(begin, end)] + r[k..]
  }

  function Erase(r: seq<Range>, k: nat): seq<Range>
    requires k < |r|
  {
    r[..k] + r[k + 1..]
  }

  // ---------------------------------------------------------------- replacing intervals by one

  /** The intervals from `a` to `b` make way for one that covers them and keeps its distance. */
  lemma Replaced(r: seq<Range>, a: nat, b: nat, n: Range)
    requires Canonical(r) && a <= b <= |r| && n.begin < n.end
    requires a > 0 ==> r[a - 1].end < n.begin
    requires b < |r| ==> n.end < r[b].begin
    requires forall i :: a <= i < b ==> n.begin <= r[i].begin && r[i].end <= n.end
    ensures var s := r[..a] + [n] + r[b..]; Canonical(s) && forall x :: Has(s, x) <==> Has(r, x) || In(x, n)
  {
    hide Has;
    ReplacedCanonical(r, a, b, n);
    forall x
      ensures Has(r[..a] + [n] + r[b..], x) <==> Has(r, x) || In(x, n)
    {
      HasConcat(r[..a] + [n], r[b..], x);
      HasConcat(r[..a], [n], x);
      HasOne(n, x);
      assert r[..a] + r[a..b] + r[b..] == r;
      HasConcat(r[..a] + r[a..b], r[b..], x);
      HasConcat(r[..a], r[a..b], x);
      HasWithin(r[a..b], n, x);
    }
  }

  lemma ReplacedCanonical(r: seq<Range>, a: nat, b: nat, n: Range)
    requires Canonical(r) && a <= b <= |r| && n.begin < n.end
    requires a > 0 ==> r[a - 1].end < n.begin
    requires b < |r| ==> n.end < r[b].begin
    ensures Canonical(r[..a] + [n] + r[b..])
  {
    var s, d := r[..a] + [n] + r[b..], b - a - 1;
    forall i, j | 0 <= i < j < |s|
      ensures s[i].end < s[j].begin
    {
      assert i < a ==> s[i] == r[i] && r[i].end <= r[a - 1].end;
      assert j > a ==> s[j] == r[j + d] && r[b].begin <= r[j + d].begin;
      assert i > a ==> s[i] == r[i + d];
    }
    forall i | 0 <= i < |s|
      ensures s[i].begin < s[i].end
    {
      assert i > a ==> s[i] == r[i + d];
    }
  }

  lemma HasConcat(r: seq<Range>, s: seq<Range>, x: int)
    ensures Has(r + s, x) <==> Has(r, x) || Has(s, x)
  {
    if Has(r + s, x) {
      var i :| 0 <= i < |r + s| && In(x, (r + s)[i]);
      assert if i < |r| then In(x, r[i]) else In(x, s[i - |r|]);
    }
    if Has(r, x) {
      var i :| 0 <= i < |r| && In(x, r[i]);
      assert In(x, (r + s)[i]);
    }
    if Has(s, x) {
      var i :| 0 <= i < |s| && In(x, s[i]);
      assert In(x, (r + s)[|r| + i]);
    }
  }

  lemma HasOne(n: Range, x: int)
    ensures Has([n], x) <==> In(x, n)
  {
    if In(x, n) {
      assert In(x, [n][0]);
    }
  }

  lemma HasWithin(r: seq<Range>, n: Range, x: int)
    requires forall i :: 0 <= i < |r| ==> n.begin <= r[i].begin && r[i].end <= n.end
    ensures Has(r, x) ==> In(x, n)
  {
  }

  /** At most one interval contains a number: the last one that does not begin after it. */
  lemma Located(r: seq<Range>, x: int)
    requires Canonical(r)
    ensures var k := UpperBound(r, x); Has(r, x) <==> k > 0 && x < r[k - 1].end
  {
    var k := UpperBound(r, x);
    assert forall j :: k <= j < |r| ==> x < r[j].begin;
    assert forall j :: 0 <= j < k - 1 ==> r[j].end < r[k - 1].begin;
    if Has(r, x) {
      var i :| 0 <= i < |r| && In(x, r[i]);
      assert i == k - 1;
    } else if k > 0 {
      assert !In(x, r[k - 1]);
    }
  }

  // ---------------------------------------------------------------- equal sets, equal forms

  /** Only one canonical form has the same elements. */
  lemma {:induction false} SameSetSameForm(r: seq<Range>, s: seq<Range>)
    requires Canonical(r) && Canonical(s) && forall x :: Has(r, x) <==> Has(s, x)
    ensures r == s
    decreases |r|
  {
    hide Has, Canonical;
    NothingHas();
    if r != [] {
      FirstHas(r);
    }
    if s != [] {
      FirstHas(s);
    }
    if r != [] && s != [] {
      FirstNotLarger(r, s);
      FirstNotLarger(s, r);
      forall x
        ensures Has(r[1..], x) <==> Has(s[1..], x)
      {
        WithoutFirst(r, x);
        WithoutFirst(s, x);
      }
      CanonicalRest(r);
      CanonicalRest(s);
      SameSetSameForm(r[1..], s[1..]);
      assert r == [r[0]] + r[1..] && s == [s[0]] + s[1..];
    }
  }

  lemma FirstHas(r: seq<Range>)
    requires Canonical(r) && r != []
    ensures Has(r, r[0].begin)
  {
    assert In(r[0].begin, r[0]);
  }

  lemma CanonicalRest(r: seq<Range>)
    requires Canonical(r) && r != []
    ensures Canonical(r[1..])
  {
  }

  lemma WithoutFirst(r: seq<Range>, x: int)
    requires Canonical(r) && r != []
    ensures Has(r[1..], x) <==> Has(r, x) && !In(x, r[0])
  {
    if Has(r[1..], x) {
      var i :| 0 <= i < |r[1..]| && In(x, r[1..][i]);
      assert In(x, r[i + 1]);
    }
    if Has(r, x) && !In(x, r[0]) {
      var i :| 0 <= i < |r| && In(x, r[i]);
      assert In(x, r[1..][i - 1]);
    }
  }

  /** The first interval starts at the least number, and ends before the first gap. */
  lemma FirstNotLarger(r: seq<Range>, s: seq<Range>)
    requires Canonical(r) && Canonical(s) && r != [] && s != [] && forall x :: Has(r, x) <==> Has(s, x)
    ensures r[0].begin <= s[0].begin && (r[0].begin == s[0].begin ==> r[0].end <= s[0].end)
  {
    assert In(s[0].begin, s[0]);
    assert Has(s, s[0].begin);
    assert !Has(s, s[0].end) && !Has(r, s[0].end);
    assert !In(s[0].end, r[0]);
  }

  // ---------------------------------------------------------------- how many

  function Size(r: seq<Range>): int
  {
    if r == [] then 0 else Size(r[..|r| - 1]) + (r[|r| - 1].end - r[|r| - 1].begin)
  }

  ghost function Numbers(begin: int, end: int): set<int>
  {
    set x | begin <= x < end && In(x, Range(begin, end))
  }

  lemma {:induction false} CountNumbers(begin: int, end: int)
    requires begin <= end
    ensures |Numbers(begin, end)| == end - begin
    decreases end - begin
  {
    if begin < end {
      CountNumbers(begin, end - 1);
      assert Numbers(begin, end) == Numbers(begin, end - 1) + {end - 1};
    } else {
      assert Numbers(begin, end) == {};
    }
  }

  /** The size is the number of elements. */
  lemma {:induction false} SizeCounts(r: seq<Range>) returns (s: set<int>)
    requires Canonical(r)
    ensures (forall x :: x in s <==> Has(r, x)) && |s| == Size(r)
    decreases |r|
  {
    if r == [] {
      s := {};
    } else {
      var init, last := r[..|r| - 1], r[|r| - 1];
      var t := SizeCounts(init);
      CountNumbers(last.begin, last.end);
      HasLast(r);
      s := t + Numbers(last.begin, last.end);
      assert t !! Numbers(last.begin, last.end) by {
        forall x | x in t
          ensures x < last.begin
        {
          var i :| 0 <= i < |init| && In(x, init[i]);
          assert r[i].end < last.begin;
        }
      }
    }
  }

  lemma HasLast(r: seq<Range>)
    requires r != []
    ensures forall x :: Has(r, x) <==> Has(r[..|r| - 1], x) || In(x, r[|r| - 1])
  {
    forall x
      ensures Has(r, x) <==> Has(r[..|r| - 1], x) || In(x, r[|r| - 1])
    {
      if Has(r, x) {
        var i :| 0 <= i < |r| && In(x, r[i]);
        assert i < |r| - 1 ==> In(x, r[..|r| - 1][i]);
      }
      if Has(r[..|r| - 1], x) {
        var i :| 0 <= i < |r| - 1 && In(x, r[..|r| - 1][i]);
        assert In(x, r[i]);
      }
    }
  }

  function Min(a: int, b: int): int
  {
    if a < b then a else b
  }

  function Max(a: int, b: int): int
  {
    if a < b then b else a
  }

  // ---------------------------------------------------------------- one turn of unionWith

  /** `r` is `r0` together with the numbers from `begin` up to `i`, as far as they lie before `end`. */
  ghost predicate Grown(r0: seq<Range>, r: seq<Range>, begin: int, i: int, end: int)
  {
    forall x :: Has(r, x) <==> Has(r0, x) || In(x, Range(begin, Min(i, end)))
  }

  lemma PutNew(r: seq<Range>, i: int, end: int)
    requires Canonical(r)
    requires var k := UpperBound(r, i); k == 0 || r[k - 1].end < i
    ensures var k := UpperBound(r, i); Put(r, i, end) == r[..k] + [Range(i, end)] + r[k..]
  {
  }

  lemma PutAt(r: seq<Range>, j: nat, end: int)
    requires Canonical(r) && j < |r|
    ensures Put(r, r[j].begin, end) == r[..j] + [Range(r[j].begin, end)] + r[j + 1..]
  {
    var k := UpperBound(r, r[j].begin);
    assert k < |r| ==> r[k].begin > r[j].begin;
    assert k > 0 ==> r[k - 1].begin <= r[j].begin;
    assert k == j + 1;
  }

  /** The result of a turn: the intervals from `a` to `b` become one, which reaches from `i` to the
      new position, or begins with the interval that ends at `i`. */
  lemma TurnGrows(r0: seq<Range>, r: seq<Range>, a: nat, b: nat, n: Range, begin: int, i: int, end: int)
    requires Canonical(r) && Grown(r0, r, begin, i, end) && begin <= i < end
    requires a <= b <= |r| && n.begin < n.end && i < n.end
    requires a > 0 ==> r[a - 1].end < n.begin
    requires b < |r| ==> n.end < r[b].begin
    requires forall j :: a <= j < b ==> n.begin <= r[j].begin && r[j].end <= n.end
    requires n.begin == i || (a < b && r[a].begin == n.begin && r[a].end == i)
    requires n.end == end || (a < b && r[b - 1].end == n.end && r[b - 1].begin <= end)
    ensures Canonical(r[..a] + [n] + r[b..]) && Grown(r0, r[..a] + [n] + r[b..], begin, n.end, end)
  {
    Replaced(r, a, b, n);
    forall x
      ensures Has(r, x) || In(x, n) <==> Has(r0, x) || In(x, Range(begin, Min(n.end, end)))
    {
      if In(x, n) && x < i {
        assert In(x, r[a]);
      }
      if In(x, n) && end <= x {
        assert In(x, r[b - 1]);
      }
    }
  }

  /** What holds between two turns, at position `i`. */
  ghost predicate Between(r0: seq<Range>, r: seq<Range>, all: Range, m: Range, i: int)
  {
    Canonical(r) && Inside(r, all) && m.begin <= i && Grown(r0, r, m.begin, i, m.end)
  }

  lemma TurnKeeps(r0: seq<Range>, r: seq<Range>, all: Range, a: nat, b: nat, n: Range, m: Range, i: int)
    requires Between(r0, r, all, m, i) && i < m.end && a <= b <= |r| && n.begin < n.end && i < n.end
    requires all.begin <= m.begin && m.end <= all.end
    requires a > 0 ==> r[a - 1].end < n.begin
    requires b < |r| ==> n.end < r[b].begin
    requires forall j :: a <= j < b ==> n.begin <= r[j].begin && r[j].end <= n.end
    requires n.begin == i || (a < b && r[a].begin == n.begin && r[a].end == i)
    requires n.end == m.end || (a < b && r[b - 1].end == n.end && r[b - 1].begin <= m.end)
    ensures Between(r0, r[..a] + [n] + r[b..], all, m, n.end)
  {
    hide Canonical, Grown;
    TurnGrows(r0, r, a, b, n, m.begin, i, m.end);
    assert forall j :: 0 <= j < |r[b..]| ==> r[b..][j] == r[b + j];
  }

  /** Nothing at `i` or around it: a new range. */
  lemma TurnNew(r0: seq<Range>, r: seq<Range>, all: Range, m: Range, i: int)
    requires Between(r0, r, all, m, i) && i < m.end && all.begin <= m.begin && m.end <= all.end
    requires var k := UpperBound(r, i); (k == 0 || r[k - 1].end < i) && (k == |r| || r[k].begin > m.end)
    ensures Between(r0, Put(r, i, m.end), all, m, m.end)
  {
    hide Grown, Inside;
    var k := UpperBound(r, i);
    PutNew(r, i, m.end);
    TurnKeeps(r0, r, all, k, k, Range(i, m.end), m, i);
  }

  lemma NextErased(front: seq<Range>, n: Range, back: seq<Range>)
    requires back != []
    ensures |front| + 1 < |front + [n] + back|
    ensures Erase(front + [n] + back, |front| + 1) == front + [n] + back[1..]
  {
  }

  /** A range starts before the end: it is extended downwards. */
  lemma TurnNext(r0: seq<Range>, r: seq<Range>, all: Range, m: Range, i: int)
    requires Between(r0, r, all, m, i) && i < m.end && all.begin <= m.begin && m.end <= all.end
    requires var k := UpperBound(r, i); (k == 0 || r[k - 1].end < i) && k < |r| && r[k].begin <= m.end
    ensures var k := UpperBound(r, i); var s := Put(r, i, r[k].end);
            k + 1 < |s| && r[k].end > i && Between(r0, Erase(s, k + 1), all, m, r[k].end)
  {
    hide Grown, Inside, Put, Erase;
    var k := UpperBound(r, i);
    PutNew(r, i, r[k].end);
    NextErased(r[..k], Range(i, r[k].end), r[k..]);
    assert r[k..][1..] == r[k + 1..];
    TurnKeeps(r0, r, all, k, k + 1, Range(i, r[k].end), m, i);
  }

  /** A range ends at `i`: it is extended upwards. */
  lemma TurnPrevious(r0: seq<Range>, r: seq<Range>, all: Range, m: Range, i: int)
    requires Between(r0, r, all, m, i) && i < m.end && all.begin <= m.begin && m.end <= all.end
    requires var k := UpperBound(r, i); k > 0 && r[k - 1].end == i && (k == |r| || r[k].begin > m.end)
    ensures var k := UpperBound(r, i); Between(r0, Put(r, r[k - 1].begin, m.end), all, m, m.end)
  {
    hide Grown, Inside;
    var k := UpperBound(r, i);
    PutAt(r, k - 1, m.end);
    TurnKeeps(r0, r, all, k - 1, k, Range(r[k - 1].begin, m.end), m, i);
  }

  /** Both: the two ranges become one. */
  lemma TurnBoth(r0: seq<Range>, r: seq<Range>, all: Range, m: Range, i: int)
    requires Between(r0, r, all, m, i) && i < m.end && all.begin <= m.begin && m.end <= all.end
    requires var k := UpperBound(r, i); k > 0 && r[k - 1].end == i && k < |r| && r[k].begin <= m.end
    ensures var k := UpperBound(r, i); var s := Put(r, r[k - 1].begin, r[k].end);
            k < |s| && r[k].end > i && Between(r0, Erase(s, k), all, m, r[k].end)
  {
    hide Grown, Inside, Put, Erase;
    var k := UpperBound(r, i);
    PutAt(r, k - 1, r[k].end);
    NextErased(r[..k - 1], Range(r[k - 1].begin, r[k].end), r[k..]);
    assert r[k..][1..] == r[k + 1..];
    TurnKeeps(r0, r, all, k - 1, k + 1, Range(r[k - 1].begin, r[k].end), m, i);
  }

  /** `i` lies in a range: on to its end. */
  lemma TurnSkip(r0: seq<Range>, r: seq<Range>, all: Range, m: Range, i: int)
    requires Between(r0, r, all, m, i) && i < m.end
    requires var k := UpperBound(r, i); k > 0 && r[k - 1].end > i
    ensures Between(r0, r, all, m, r[UpperBound(r, i) - 1].end)
  {
    var k := UpperBound(r, i);
    forall x
      ensures Has(r, x) <==> Has(r0, x) || In(x, Range(m.begin, Min(r[k - 1].end, m.end)))
    {
      if In(x, Range(i, r[k - 1].end)) {
        assert In(x, r[k - 1]);
      }
    }
  }

  // ---------------------------------------------------------------- the class

  class RangeMask {
    var all: Range
    var ranges: seq<Range>

    ghost predicate Valid()
      reads this
    {
      all.begin <= all.end && Canonical(ranges) && Inside(ranges, all)
    }

    /** An empty mask on a ground range. */
    constructor (all: Range)
      requires all.begin <= all.end
      ensures Valid() && this.all == all && ranges == []
    {
      this.all := all;
      ranges := [];
    }

    /** Includes a range, which has to lie inside the ground range. */
    method UnionWithRange(m: Range)
      requires Valid() && (m.begin < m.end ==> all.begin <= m.begin && m.end <= all.end)
      modifies this`ranges
      ensures Valid() && forall x :: Has(ranges, x) <==> Has(old(ranges), x) || In(x, m)
    {
      hide Between, Has, UpperBound, Put, Erase;
      var i := m.begin;
      ghost var r0 := ranges;
      NothingYet(r0, all, m);
      while i < m.end
        invariant Between(r0, ranges, all, m, i)
        decreases m.end - i
      {
        WithinGround(r0, ranges, all, m, i);
        assert i >= all.begin;
        assert i < all.end;
        var after := UpperBound(ranges, i);
        if after == 0 || ranges[after - 1].end < i {
          if after == |ranges| || ranges[after].begin > m.end {
            TurnNew(r0, ranges, all, m, i);
            ranges := Put(ranges, i, m.end);
            i := m.end;
            break;
          }
          TurnNext(r0, ranges, all, m, i);
          var end := ranges[after].end;
          ranges := Put(ranges, i, end);
          i := end;
          ranges := Erase(ranges, after + 1);
        } else if ranges[after - 1].end == i {
          if after == |ranges| || ranges[after].begin > m.end {
            TurnPrevious(r0, ranges, all, m, i);
            ranges := Put(ranges, ranges[after - 1].begin, m.end);
            i := m.end;
            break;
          }
          TurnBoth(r0, ranges, all, m, i);
          i := ranges[after].end;
          ranges := Put(ranges, ranges[after - 1].begin, i);
          ranges := Erase(ranges, after);
        } else {
          TurnSkip(r0, ranges, all, m, i);
          i := ranges[after - 1].end;
        }
      }
      AllUnited(r0, ranges, all, m, i);
    }

    /** Includes another mask, and its ground range. */
    method UnionWith(m: RangeMask)
      requires Valid() && m.Valid()
      modifies this
      ensures Valid() && all == Hull(old(m.all), old(all))
      ensures forall x :: Has(ranges, x) <==> Has(old(ranges), x) || Has(old(m.ranges), x)
      ensures m == this ==> ranges == old(ranges)
    {
      hide Canonical, Has, Inside;
      all := Hull(m.all, all);
      ghost var mine, other := ranges, m.ranges;
      InHull(old(all), old(m.all), mine, other);
      NothingHas();
      for k := 0 to |m.ranges|
        invariant Valid() && all == Hull(old(m.all), old(all)) && m.ranges == other
        invariant forall x :: Has(ranges, x) <==> Has(mine, x) || Has(other[..k], x)
        invariant m == this ==> ranges == mine
      {
        MoreHas(m.ranges, k);
        RangeInside(other, k, all);
        UnionWithRange(m.ranges[k]);
        if m == this {
          PartHas(mine, k);
          SameSetSameForm(ranges, mine);
        }
      }
      assert m.ranges[..|m.ranges|] == m.ranges;
    }

    /** The complement within the ground range. */
    method Inverted() returns (ret: RangeMask)
      requires Valid()
      ensures fresh(ret) && ret.Valid() && ret.all == all
      ensures forall x :: Has(ret.ranges, x) <==> In(x, all) && !Has(ranges, x)
    {
      hide Has, Canonical, Inside, Inverting;
      ret := new RangeMask(all);
      var last := all.begin;
      InvertingStarts(ranges, all);
      for k := 0 to |ranges|
        invariant ret.all == all && Inverting(ranges, all, k, ret.ranges, last)
      {
        InvertingMore(ranges, all, k, ret.ranges, last);
        if ranges[k].begin != last {
          ret.ranges := ret.ranges + [Range(last, ranges[k].begin)];
        }
        last := ranges[k].end;
      }
      InvertingEnds(ranges, all, ret.ranges, last);
      if last != all.end {
        ret.ranges := ret.ranges + [Range(last, all.end)];
      }
    }

    method Invert()
      requires Valid()
      modifies this
      ensures Valid() && all == old(all)
      ensures forall x :: Has(ranges, x) <==> In(x, all) && !Has(old(ranges), x)
    {
      var r := Inverted();
      all, ranges := r.all, r.ranges;
    }

    /** operator-=: inverts, adds and inverts again. On a larger ground range the numbers that were not
        in the first ground range come in; a mask taken from itself stays as it is. */
    method Subtract(m: RangeMask)
      requires Valid() && m.Valid()
      modifies this
      ensures Valid() && all == Hull(old(m.all), old(all))
      ensures m != this ==> forall x :: Has(ranges, x) <==>
                In(x, all) && !Has(old(m.ranges), x) && (In(x, old(all)) ==> Has(old(ranges), x))
      ensures m == this ==> ranges == old(ranges)
    {
      hide Canonical, Has, Inside;
      ghost var r, r0 := ranges, all;
      Invert();
      ghost var inverse := ranges;
      UnionWith(m);
      Invert();
      if m == this {
        InvertedTwice(r, inverse, ranges, r0);
      }
    }

    method SubtractRange(m: Range)
      requires Valid() && (m.begin < m.end ==> all.begin <= m.begin && m.end <= all.end)
      modifies this
      ensures Valid() && all == old(all)
      ensures forall x :: Has(ranges, x) <==> Has(old(ranges), x) && !In(x, m)
    {
      hide Canonical, Has;
      ghost var r := ranges;
      InGround(r, all);
      Invert();
      UnionWithRange(m);
      Invert();
    }

    /** The least elements, as many as asked for, or all of them. */
    method Lowest(items: nat) returns (ret: RangeMask)
      requires Valid()
      ensures fresh(ret) && ret.Valid() && ret.all == all
      ensures Size(ret.ranges) == Min(items, Size(ranges))
      ensures forall x :: Has(ret.ranges, x) ==> Has(ranges, x)
      ensures forall x, y :: Has(ret.ranges, x) && Has(ranges, y) && !Has(ret.ranges, y) ==> x < y
    {
      hide Has, Canonical, Inside, Taking;
      ret := new RangeMask(all);
      var left: nat := items;
      var k := 0;
      TakingStarts(ranges, all, items);
      while k < |ranges| && left > 0
        invariant k <= |ranges| && ret.all == all && Taking(ranges, all, items, k, ret.ranges, left)
      {
        TakingMore(ranges, all, items, k, ret.ranges, left);
        var end := Min(ranges[k].begin + left, ranges[k].end);
        ret.ranges := ret.ranges + [Range(ranges[k].begin, end)];
        left := left - (end - ranges[k].begin);
        k := k + 1;
      }
      TakingEnds(ranges, all, items, k, ret.ranges, left);
    }

    predicate Contains(i: int)
      requires Valid()
      reads this
      ensures Contains(i) <==> Has(ranges, i)
    {
      Located(ranges, i);
      var it := UpperBound(ranges, i);
      if it == 0 then false else ranges[it - 1].end > i
    }

    predicate Full()
      requires Valid()
      reads this
      ensures Full() <==> forall x :: In(x, all) ==> Has(ranges, x)
    {
      FullMeans(ranges, all);
      all.begin == all.end || ranges == [all]
    }

    /** The least element after a number, or the end of the ground range. */
    function Next(t: int): (n: int)
      requires Valid()
      reads this
      ensures n == all.end || (t < n < all.end && Has(ranges, n))
      ensures forall x :: t < x && Has(ranges, x) ==> n <= x
    {
      NextMeans(ranges, all, t + 1);
      var uit := UpperBound(ranges, t + 1);
      if uit > 0 && ranges[uit - 1].begin <= t + 1 && ranges[uit - 1].end > t + 1 then t + 1
      else if uit == |ranges| then all.end
      else ranges[uit].begin
    }

    function Begin(): (n: int)
      requires Valid()
      reads this
      ensures all.begin <= n <= all.end && (n < all.end ==> Has(ranges, n))
      ensures forall x :: Has(ranges, x) ==> n <= x
    {
      FirstMeans(ranges, all);
      if ranges == [] then all.end else ranges[0].begin
    }

    method Count() returns (c: int)
      requires Valid()
      ensures c == Size(ranges)
    {
      c := 0;
      for k := 0 to |ranges|
        invariant c == Size(ranges[..k])
      {
        c := c + (ranges[k].end - ranges[k].begin);
        assert ranges[..k + 1][..k] == ranges[..k];
      }
      assert ranges[..|ranges|] == ranges;
    }

    /** The least number from the beginning of the ground range on that is not in the mask. */
    function FirstOut(): (n: int)
      requires Valid()
      reads this
      ensures all.begin <= n <= all.end && !Has(ranges, n)
      ensures forall x :: all.begin <= x < n ==> Has(ranges, x)
    {
      FirstOutMeans(ranges, all);
      if ranges == [] || ranges[0].begin != all.begin then all.begin else ranges[0].end
    }

    /** The greatest element. */
    function LastIn(): (n: int)
      requires Valid()
      reads this
      ensures if ranges == [] then n == all.begin else Has(ranges, n) && forall x :: Has(ranges, x) ==> x <= n
    {
      LastInMeans(ranges);
      if ranges == [] then all.begin else ranges[|ranges| - 1].end - 1
    }

    /** From begin to end: each element once, in ascending order, as many as the size says. */
    method Elements() returns (list: seq<int>)
      requires Valid()
      ensures forall i, j :: 0 <= i < j < |list| ==> list[i] < list[j]
      ensures forall x :: x in list <==> Has(ranges, x)
      ensures |list| == Size(ranges)
    {
      hide Has, Canonical, Inside, Size, UpperBound;
      InGround(ranges, all);
      var it := Begin();
      list := [];
      while it != all.end
        invariant all.begin <= it <= all.end && (it < all.end ==> Has(ranges, it))
        invariant forall i, j :: 0 <= i < j < |list| ==> list[i] < list[j]
        invariant forall i :: 0 <= i < |list| ==> list[i] < it
        invariant forall x :: x in list <==> Has(ranges, x) && x < it
        decreases all.end - it
      {
        list := list + [it];
        it := Next(it);
      }
      CountedBySize(ranges, list);
    }
  }

  lemma NothingHas()
    ensures forall x :: !Has([], x)
  {
  }

  /** The least range that holds both. */
  function Hull(a: Range, b: Range): Range
  {
    Range(Min(a.begin, b.begin), Max(a.end, b.end))
  }

  lemma InHull(a: Range, b: Range, r: seq<Range>, s: seq<Range>)
    requires Inside(r, a) && Inside(s, b)
    ensures Inside(r, Hull(b, a)) && Inside(s, Hull(b, a))
  {
  }

  lemma RangeInside(r: seq<Range>, k: nat, all: Range)
    requires k < |r| && Inside(r, all)
    ensures all.begin <= r[k].begin && r[k].end <= all.end
  {
  }

  lemma PartHas(r: seq<Range>, k: nat)
    requires k < |r|
    ensures forall x :: Has(r[..k], x) || In(x, r[k]) ==> Has(r, x)
  {
  }

  /** Taking out another mask gives the difference exactly when its ground range reaches beyond the
      first one only by numbers that are in it. */
  lemma DifferenceExactly(r: seq<Range>, all: Range, s: seq<Range>, other: Range, t: seq<Range>)
    requires Inside(r, all)
    requires forall x :: Has(t, x) <==> In(x, Hull(other, all)) && !Has(s, x) && (In(x, all) ==> Has(r, x))
    ensures (forall x :: Has(t, x) <==> Has(r, x) && !Has(s, x)) <==>
            forall x :: In(x, Hull(other, all)) && !In(x, all) ==> Has(s, x)
  {
    hide Has;
    InGround(r, all);
    if forall x :: Has(t, x) <==> Has(r, x) && !Has(s, x) {
      forall x | In(x, Hull(other, all)) && !In(x, all)
        ensures Has(s, x)
      {
        assert Has(t, x) <==> Has(r, x) && !Has(s, x);
      }
    }
  }

  /** For instance, [0, 1) without elements, minus [0, 2) without elements, gets the element 1. */
  lemma DifferenceExample()
    ensures var all, other, t := Range(0, 1), Range(0, 2), [Range(1, 2)];
            && (forall x :: Has(t, x) <==> In(x, Hull(other, all)) && !Has([], x) && (In(x, all) ==> Has([], x)))
            && Has(t, 1) && !Has([], 1)
  {
    NothingHas();
    var t := [Range(1, 2)];
    assert In(1, t[0]);
  }

  /** A mask that is taken from itself stays as it is, which is the difference exactly when it is empty. */
  lemma SelfDifferenceExactly(r: seq<Range>)
    requires Canonical(r)
    ensures (forall x :: Has(r, x) <==> Has(r, x) && !Has(r, x)) <==> r == []
  {
    if r != [] {
      assert In(r[0].begin, r[0]) && Has(r, r[0].begin);
    }
  }

  lemma MoreHas(r: seq<Range>, k: nat)
    requires k < |r|
    ensures forall x :: Has(r[..k + 1], x) <==> Has(r[..k], x) || In(x, r[k])
  {
    HasLast(r[..k + 1]);
    assert r[..k + 1][..k] == r[..k];
  }

  lemma InGround(r: seq<Range>, all: Range)
    requires Inside(r, all)
    ensures forall x :: Has(r, x) ==> In(x, all)
  {
  }

  // ---------------------------------------------------------------- the complement

  /** The gaps in front of the first `k` intervals; `last` is where the last of these ends. */
  ghost predicate Inverting(r: seq<Range>, all: Range, k: nat, gaps: seq<Range>, last: int)
  {
    && k <= |r| && Canonical(gaps) && Inside(gaps, all) && all.begin <= last <= all.end
    && last == (if k == 0 then all.begin else r[k - 1].end)
    && (gaps != [] ==> k > 0 && gaps[|gaps| - 1].end < last)
    && forall x :: Has(gaps, x) <==> all.begin <= x < last && !Has(r, x)
  }

  lemma InvertingStarts(r: seq<Range>, all: Range)
    requires all.begin <= all.end
    ensures Inverting(r, all, 0, [], all.begin)
  {
  }

  lemma AppendedRange(r: seq<Range>, n: Range, all: Range)
    requires Canonical(r) && Inside(r, all) && (r != [] ==> r[|r| - 1].end < n.begin) && n.begin < n.end
    requires all.begin <= n.begin && n.end <= all.end
    ensures Canonical(r + [n]) && Inside(r + [n], all) && forall x :: Has(r + [n], x) <==> Has(r, x) || In(x, n)
  {
    Replaced(r, |r|, |r|, n);
    assert r[..|r|] + [n] + r[|r|..] == r + [n];
  }

  /** In front of interval `k`, and after the one before it, there is nothing. */
  lemma GapBefore(r: seq<Range>, k: nat, last: int)
    requires Canonical(r) && k <= |r| && (k > 0 ==> last == r[k - 1].end)
    ensures k > 0 ==> forall x :: Has(r, x) && last <= x ==> k < |r| && r[k].begin <= x
    ensures k == 0 ==> forall x :: Has(r, x) ==> k < |r| && r[k].begin <= x
  {
  }

  lemma InvertingMore(r: seq<Range>, all: Range, k: nat, gaps: seq<Range>, last: int)
    requires Canonical(r) && Inside(r, all) && k < |r| && Inverting(r, all, k, gaps, last)
    ensures last <= r[k].begin
    ensures Inverting(r, all, k + 1, if r[k].begin != last then gaps + [Range(last, r[k].begin)] else gaps, r[k].end)
  {
    GapBefore(r, k, last);
    forall x | In(x, r[k])
      ensures Has(r, x)
    {
    }
    if r[k].begin != last {
      AppendedRange(gaps, Range(last, r[k].begin), all);
    }
  }

  lemma InvertingEnds(r: seq<Range>, all: Range, gaps: seq<Range>, last: int)
    requires Canonical(r) && Inside(r, all) && Inverting(r, all, |r|, gaps, last)
    ensures var out := if last != all.end then gaps + [Range(last, all.end)] else gaps;
            Canonical(out) && Inside(out, all) && forall x :: Has(out, x) <==> In(x, all) && !Has(r, x)
  {
    GapBefore(r, |r|, last);
    if last != all.end {
      AppendedRange(gaps, Range(last, all.end), all);
    }
  }

  /** Inverting twice gives back the same intervals. */
  lemma InvertedTwice(r: seq<Range>, s: seq<Range>, t: seq<Range>, all: Range)
    requires Canonical(r) && Canonical(t) && Inside(r, all)
    requires forall x :: Has(s, x) <==> In(x, all) && !Has(r, x)
    requires forall x :: Has(t, x) <==> In(x, all) && !Has(s, x)
    ensures t == r
  {
    InGround(r, all);
    SameSetSameForm(t, r);
  }

  // ---------------------------------------------------------------- the lowest elements

  /** The first `k` intervals are taken whole, save the last, when nothing more is to be taken. */
  ghost predicate Taking(r: seq<Range>, all: Range, items: nat, k: nat, taken: seq<Range>, left: int)
  {
    && k <= |r| && 0 <= left && |taken| == k && Canonical(taken) && Inside(taken, all) && Size(taken) + left == items
    && (forall j :: 0 <= j < k - 1 ==> taken[j] == r[j])
    && (k > 0 ==> taken[k - 1].begin == r[k - 1].begin && taken[k - 1].end <= r[k - 1].end)
    && (left > 0 ==> taken == r[..k])
  }

  lemma TakingStarts(r: seq<Range>, all: Range, items: nat)
    ensures Taking(r, all, items, 0, [], items)
  {
  }

  lemma TakingMore(r: seq<Range>, all: Range, items: nat, k: nat, taken: seq<Range>, left: int)
    requires Canonical(r) && Inside(r, all) && k < |r| && left > 0 && Taking(r, all, items, k, taken, left)
    ensures var end := Min(r[k].begin + left, r[k].end);
            Taking(r, all, items, k + 1, taken + [Range(r[k].begin, end)], left - (end - r[k].begin))
  {
    var end := Min(r[k].begin + left, r[k].end);
    var n := Range(r[k].begin, end);
    AppendedRange(taken, n, all);
    assert (taken + [n])[..k] == taken;
    assert end == r[k].end ==> taken + [n] == r[..k + 1];
  }

  lemma TakingEnds(r: seq<Range>, all: Range, items: nat, k: nat, taken: seq<Range>, left: int)
    requires Canonical(r) && Taking(r, all, items, k, taken, left) && (k == |r| || left == 0)
    ensures Canonical(taken) && Inside(taken, all) && Size(taken) == Min(items, Size(r))
    ensures forall x :: Has(taken, x) ==> Has(r, x)
    ensures forall x, y :: Has(taken, x) && Has(r, y) && !Has(taken, y) ==> x < y
  {
    hide Size, Has;
    if left > 0 {
      assert r[..k] == r;
    } else {
      TakenSize(r, taken, k);
    }
    TakenLeast(r, taken, k);
  }

  lemma TakenLeast(r: seq<Range>, taken: seq<Range>, k: nat)
    requires Canonical(r) && k == |taken| <= |r|
    requires forall j :: 0 <= j < k - 1 ==> taken[j] == r[j]
    requires k > 0 ==> taken[k - 1].begin == r[k - 1].begin && taken[k - 1].end <= r[k - 1].end
    ensures forall x :: Has(taken, x) ==> Has(r, x)
    ensures forall x, y :: Has(taken, x) && Has(r, y) && !Has(taken, y) ==> x < y
  {
    forall x | Has(taken, x)
      ensures Has(r, x)
    {
      var i :| 0 <= i < k && In(x, taken[i]);
      assert In(x, r[i]);
    }
    forall x, y | Has(taken, x) && Has(r, y) && !Has(taken, y)
      ensures x < y
    {
      var i :| 0 <= i < k && In(x, taken[i]);
      var j :| 0 <= j < |r| && In(y, r[j]);
      assert j < k ==> !In(y, taken[j]);
      assert i < j ==> r[i].end < r[j].begin;
    }
  }

  lemma TakenSize(r: seq<Range>, taken: seq<Range>, k: nat)
    requires Canonical(r) && k == |taken| <= |r| && Canonical(taken)
    requires forall j :: 0 <= j < k - 1 ==> taken[j] == r[j]
    requires k > 0 ==> taken[k - 1].begin == r[k - 1].begin && taken[k - 1].end <= r[k - 1].end
    ensures Size(taken) <= Size(r)
  {
    if k > 0 {
      assert taken[..k - 1] == r[..k][..k - 1];
    }
    SizeGrows(r, k);
  }

  lemma {:induction false} SizeGrows(r: seq<Range>, k: nat)
    requires Canonical(r) && k <= |r|
    ensures 0 <= Size(r[..k]) <= Size(r)
    decreases |r|
  {
    if k < |r| {
      SizeGrows(r[..|r| - 1], k);
      assert r[..|r| - 1][..k] == r[..k];
    } else {
      assert r[..k] == r;
      if r != [] {
        SizeGrows(r[..|r| - 1], |r| - 1);
        assert r[..|r| - 1][..|r| - 1] == r[..|r| - 1];
      }
    }
  }

  // ---------------------------------------------------------------- what the queries mean

  lemma FullMeans(r: seq<Range>, all: Range)
    requires Canonical(r) && Inside(r, all) && all.begin <= all.end
    ensures (all.begin == all.end || r == [all]) <==> forall x :: In(x, all) ==> Has(r, x)
  {
    InGround(r, all);
    if r == [all] {
      assert forall x :: In(x, all) ==> In(x, r[0]);
    }
    if all.begin < all.end && forall x :: In(x, all) ==> Has(r, x) {
      forall x
        ensures Has(r, x) <==> Has([all], x)
      {
        HasOne(all, x);
      }
      SameSetSameForm(r, [all]);
    }
  }

  lemma NextMeans(r: seq<Range>, all: Range, t: int)
    requires Canonical(r) && Inside(r, all)
    ensures var k := UpperBound(r, t);
            && (k > 0 && r[k - 1].end > t ==> Has(r, t) && t < all.end)
            && (!(k > 0 && r[k - 1].end > t) ==> forall x :: t <= x && Has(r, x) ==> k < |r| && r[k].begin <= x)
            && (k < |r| ==> Has(r, r[k].begin) && t < r[k].begin < all.end)
  {
    hide UpperBound;
    var k := UpperBound(r, t);
    if k > 0 && r[k - 1].end > t {
      assert In(t, r[k - 1]);
    }
    if k < |r| {
      assert In(r[k].begin, r[k]);
    }
    assert forall i :: 0 <= i < k ==> r[i].end <= r[k - 1].end;
    assert forall i :: k <= i < |r| ==> r[k].begin <= r[i].begin;
  }

  lemma FirstMeans(r: seq<Range>, all: Range)
    requires Canonical(r) && Inside(r, all)
    ensures r != [] ==> Has(r, r[0].begin) && all.begin <= r[0].begin < all.end
    ensures forall x :: Has(r, x) ==> r != [] && r[0].begin <= x
  {
    if r != [] {
      assert In(r[0].begin, r[0]);
    }
  }

  lemma FirstOutMeans(r: seq<Range>, all: Range)
    requires Canonical(r) && Inside(r, all) && all.begin <= all.end
    ensures r == [] || r[0].begin != all.begin ==> !Has(r, all.begin)
    ensures r != [] && r[0].begin == all.begin ==>
              !Has(r, r[0].end) && forall x :: all.begin <= x < r[0].end ==> Has(r, x)
  {
    if r != [] && r[0].begin == all.begin {
      forall x | all.begin <= x < r[0].end
        ensures Has(r, x)
      {
        assert In(x, r[0]);
      }
    }
  }

  lemma LastInMeans(r: seq<Range>)
    requires Canonical(r)
    ensures r != [] ==> Has(r, r[|r| - 1].end - 1) && forall x :: Has(r, x) ==> x <= r[|r| - 1].end - 1
  {
    if r != [] {
      assert In(r[|r| - 1].end - 1, r[|r| - 1]);
    }
  }

  /** A list of exactly the elements, without repetition, is as long as the size says. */
  lemma CountedBySize(r: seq<Range>, list: seq<int>)
    requires Canonical(r) && (forall x :: x in list <==> Has(r, x))
    requires forall i, j :: 0 <= i < j < |list| ==> list[i] < list[j]
    ensures |list| == Size(r)
  {
    var s := SizeCounts(r);
    var t := set x | x in list;
    Distinct(list);
    assert forall x :: x in s <==> x in t;
    assert s == t;
  }

  lemma {:induction false} Distinct(list: seq<int>)
    requires forall i, j :: 0 <= i < j < |list| ==> list[i] < list[j]
    ensures |set x | x in list| == |list|
  {
    if list != [] {
      var init, last := list[..|list| - 1], list[|list| - 1];
      Distinct(init);
      assert list == init + [last];
      assert (set x | x in list) == (set x | x in init) + {last};
    }
  }

  lemma NothingYet(r: seq<Range>, all: Range, m: Range)
    requires Canonical(r) && Inside(r, all)
    ensures Between(r, r, all, m, m.begin)
  {
  }

  lemma WithinGround(r0: seq<Range>, r: seq<Range>, all: Range, m: Range, i: int)
    requires Between(r0, r, all, m, i) && i < m.end && all.begin <= m.begin && m.end <= all.end
    ensures all.begin <= i < all.end
  {
  }

  lemma AllUnited(r0: seq<Range>, r: seq<Range>, all: Range, m: Range, i: int)
    requires Between(r0, r, all, m, i) && i >= m.end
    ensures Canonical(r) && Inside(r, all) && forall x :: Has(r, x) <==> Has(r0, x) || In(x, m)
  {
  }
}
