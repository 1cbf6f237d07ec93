/** When a removal goes wrong, and what an empty value does, told from the keys that are in the trie. */
module TrieRemovable {
  import opened Bytes
  import opened HexPrefix
  import opened TrieNode
  import opened TrieMerge
  import opened TrieDelete

  predicate Before(p: Nibbles, q: Nibbles)
  {
    IsPrefixOf(p, q) && p != q
  }

  /** No key goes on from `p`. */
  ghost predicate LastOn(n: Node, p: Nibbles)
  {
    forall q: Nibbles :: Before(p, q) ==> Lookup(n, q) == []
  }

  /** No key but `k` goes on from `p`. */
  ghost predicate OnlyOn(n: Node, p: Nibbles, k: Nibbles)
  {
    forall q: Nibbles :: Before(p, q) && q != k ==> Lookup(n, q) == []
  }

  /** Keys part right behind `k`. */
  ghost predicate PartAt(n: Node, k: Nibbles)
  {
    exists a: Nibbles, b: Nibbles ::
      && Before(k, a) && Before(k, b) && a[|k|] != b[|k|] && Lookup(n, a) != [] && Lookup(n, b) != []
  }

  // ---------------------------------------------------------------- one step down

  /** The first nibbles that lead from a node to a child, and the child. */
  ghost predicate Leads(n: Node, p: Nibbles, child: Node)
  {
    match n
    case Ext(key, c) => p == key && child == c
    case Branch(children, _) => |p| == 1 && |children| == 16 && child == children[p[0]]
    case _ => false
  }

  lemma LookupBelow(n: Node, p: Nibbles, child: Node, q: Nibbles)
    requires Leads(n, p, child)
    ensures Lookup(n, p + q) == Lookup(child, q)
  {
    assert (p + q)[..|p|] == p && (p + q)[|p|..] == q;
  }

  lemma BeforeBelow(p: Nibbles, a: Nibbles, b: Nibbles)
    ensures Before(p + a, p + b) <==> Before(a, b)
  {
    if IsPrefixOf(a, b) {
      assert (p + b)[..|p + a|] == p + b[..|a|];
    }
    if IsPrefixOf(p + a, p + b) {
      assert (p + b)[..|p + a|][|p|..] == b[..|a|];
    }
    assert (p + a)[|p|..] == a && (p + b)[|p|..] == b;
  }

  lemma Rejoined(p: Nibbles, q: Nibbles)
    requires IsPrefixOf(p, q)
    ensures q == p + q[|p|..]
  {
  }

  lemma BeforeSplit(p: Nibbles, a: Nibbles, q: Nibbles)
    requires Before(p + a, q)
    ensures IsPrefixOf(p, q) && q == p + q[|p|..] && Before(a, q[|p|..])
  {
    assert q[..|p|] == q[..|p + a|][..|p|] == p;
    BeforeBelow(p, a, q[|p|..]);
  }

  lemma LastOnBelow(n: Node, p: Nibbles, child: Node, a: Nibbles)
    requires Leads(n, p, child)
    ensures LastOn(n, p + a) <==> LastOn(child, a)
  {
    if LastOn(n, p + a) {
      forall q: Nibbles | Before(a, q)
        ensures Lookup(child, q) == []
      {
        BeforeBelow(p, a, q);
        LookupBelow(n, p, child, q);
      }
    }
    if LastOn(child, a) {
      forall q: Nibbles | Before(p + a, q)
        ensures Lookup(n, q) == []
      {
        BeforeSplit(p, a, q);
        LookupBelow(n, p, child, q[|p|..]);
      }
    }
  }

  // ---------------------------------------------------------------- a leaf on the way

  lemma LeafKey(n: Node, k: Nibbles) returns (p: Nibbles)
    requires WellFormed(n) && LeafBefore(n, k) != []
    ensures Lookup(n, p) == LeafBefore(n, k) && Before(p, k) && LastOn(n, p)
    decreases n
  {
    match n
    case Leaf(key, _) => p := key;
    case Ext(key, child) =>
      var rest := LeafKey(child, k[|key|..]);
      p := Lifted(n, key, child, rest, k);
    case Branch(children, _) =>
      var rest := LeafKey(children[k[0]], k[1..]);
      assert k == [k[0]] + k[1..];
      p := Lifted(n, [k[0]], children[k[0]], rest, k);
  }

  lemma Lifted(n: Node, first: Nibbles, child: Node, rest: Nibbles, k: Nibbles) returns (p: Nibbles)
    requires Leads(n, first, child) && IsPrefixOf(first, k) && Before(rest, k[|first|..]) && LastOn(child, rest)
    ensures p == first + rest && Lookup(n, p) == Lookup(child, rest) && Before(p, k) && LastOn(n, p)
  {
    p := first + rest;
    Rejoined(first, k);
    LookupBelow(n, first, child, rest);
    BeforeBelow(first, rest, k[|first|..]);
    LastOnBelow(n, first, child, rest);
  }

  /** A key that goes on from the empty one, under a slot in use. */
  lemma SlotOn(n: Node, i: nat) returns (q: Nibbles)
    requires Normal(n) && n.Branch? && i < 16 && n.children[i] != Null
    ensures Before([], q) && q[0] == i && Lookup(n, q) != []
  {
    assert n.children[i] in n.children;
    q := SlotKey(n.children, n.value, i);
  }

  lemma {:induction false} KeyLeaf(n: Node, k: Nibbles, p: Nibbles)
    requires WellFormed(n) && Normal(n) && Lookup(n, p) != [] && Before(p, k) && LastOn(n, p)
    ensures LeafBefore(n, k) == Lookup(n, p)
    decreases n
  {
    match n
    case Leaf(_, _) =>
    case Ext(key, child) =>
      var rest := Lowered(n, key, child, p, k);
      KeyLeaf(child, k[|key|..], rest);
    case Branch(children, v) =>
      if p == [] {
        var i: nat, j: nat :| i < j <= 16 && InUse(children, v, i) && InUse(children, v, j);
        var q := SlotOn(n, i);
      } else {
        assert k[..|p|] == p && children[k[0]] in children;
        assert p[..1] == [k[0]];
        var rest := Lowered(n, [k[0]], children[k[0]], p, k);
        KeyLeaf(children[k[0]], k[1..], rest);
      }
  }

  /** The other way: from a node to its child. */
  lemma Lowered(n: Node, first: Nibbles, child: Node, p: Nibbles, k: Nibbles) returns (rest: Nibbles)
    requires Leads(n, first, child) && IsPrefixOf(first, p) && Before(p, k)
    ensures rest == p[|first|..] && p == first + rest && Lookup(child, rest) == Lookup(n, p)
    ensures IsPrefixOf(first, k) && k == first + k[|first|..] && Before(rest, k[|first|..])
    ensures Lookup(child, k[|first|..]) == Lookup(n, k)
    ensures LastOn(n, p) <==> LastOn(child, rest)
  {
    rest := p[|first|..];
    Rejoined(first, p);
    BeforeSplit(first, rest, k);
    LookupBelow(n, first, child, rest);
    LookupBelow(n, first, child, k[|first|..]);
    LastOnBelow(n, first, child, rest);
  }

  // ---------------------------------------------------------------- a branch with two children

  lemma WideKeys(n: Node, k: Nibbles) returns (a: Nibbles, b: Nibbles)
    requires WellFormed(n) && Normal(n) && Wide(n, k)
    ensures Lookup(n, a) != [] && Lookup(n, b) != []
    ensures Before(k, a) && Before(k, b) && a[|k|] != b[|k|]
    decreases n
  {
    match n
    case Ext(key, child) =>
      Rejoined(key, k);
      a, b := WideKeys(child, k[|key|..]);
      a, b := Parted(n, key, child, a, b, k);
    case Branch(children, v) =>
      if k == [] {
        var i: nat, j: nat :| i < j <= 16 && InUse(children, [], i) && InUse(children, [], j);
        a := SlotOn(n, i);
        b := SlotOn(n, j);
      } else {
        assert children[k[0]] in children && k == [k[0]] + k[1..];
        a, b := WideKeys(children[k[0]], k[1..]);
        a, b := Parted(n, [k[0]], children[k[0]], a, b, k);
      }
  }

  lemma Parted(n: Node, first: Nibbles, child: Node, a0: Nibbles, b0: Nibbles, k: Nibbles)
    returns (a: Nibbles, b: Nibbles)
    requires Leads(n, first, child) && IsPrefixOf(first, k)
    requires Before(k[|first|..], a0) && Before(k[|first|..], b0) && a0[|k| - |first|] != b0[|k| - |first|]
    ensures a == first + a0 && b == first + b0
    ensures Lookup(n, a) == Lookup(child, a0) && Lookup(n, b) == Lookup(child, b0)
    ensures Lookup(n, k) == Lookup(child, k[|first|..])
    ensures Before(k, a) && Before(k, b) && a[|k|] != b[|k|]
  {
    a, b := first + a0, first + b0;
    Rejoined(first, k);
    LookupBelow(n, first, child, a0);
    LookupBelow(n, first, child, b0);
    LookupBelow(n, first, child, k[|first|..]);
    BeforeBelow(first, k[|first|..], a0);
    BeforeBelow(first, k[|first|..], b0);
  }

  lemma {:induction false} KeysWide(n: Node, k: Nibbles, a: Nibbles, b: Nibbles)
    requires WellFormed(n) && Lookup(n, a) != [] && Lookup(n, b) != []
    requires Before(k, a) && Before(k, b) && a[|k|] != b[|k|]
    ensures Wide(n, k)
    decreases n
  {
    match n
    case Leaf(_, _) =>
    case Ext(key, child) =>
      if |key| > |k| {
        SamePlace(key, a, b, |k|);
      } else {
        assert k == a[..|k|] && a[..|k|][..|key|] == a[..|key|];
        KeysDown(n, key, child, k, a, b);
        KeysWide(child, k[|key|..], a[|key|..], b[|key|..]);
      }
    case Branch(children, v) =>
      if k != [] {
        assert k == a[..|k|] == b[..|k|];
        assert k[..1] == [k[0]] && children[k[0]] in children;
        KeysDown(n, [k[0]], children[k[0]], k, a, b);
        KeysWide(children[k[0]], k[1..], a[1..], b[1..]);
      } else if a[0] < b[0] {
        assert InUse(children, [], a[0]) && InUse(children, [], b[0]);
      } else {
        assert InUse(children, [], b[0]) && InUse(children, [], a[0]);
      }
  }

  /** The walk ends in a branch with two children exactly when keys part right behind its key. */
  lemma WideExactly(n: Node, k: Nibbles)
    requires WellFormed(n) && Normal(n)
    ensures Wide(n, k) <==> PartAt(n, k)
  {
    hide WellFormed, Normal, Lookup, Wide;
    if Wide(n, k) {
      var a, b := WideKeys(n, k);
    }
    if PartAt(n, k) {
      var a: Nibbles, b: Nibbles :|
        && Before(k, a) && Before(k, b) && a[|k|] != b[|k|] && Lookup(n, a) != [] && Lookup(n, b) != [];
      KeysWide(n, k, a, b);
    }
  }

  lemma {:induction false} StopsExactly(n: Node, k: Nibbles)
    requires WellFormed(n) && Normal(n)
    ensures Stops(n, k) <==> Wide(n, k) && Lookup(n, k) == []
    decreases n
  {
    match n
    case Null =>
    case Leaf(_, _) =>
    case Ext(key, child) =>
      if IsPrefixOf(key, k) {
        StopsExactly(child, k[|key|..]);
      }
    case Branch(children, v) =>
      if k != [] {
        assert children[k[0]] in children;
        StopsExactly(children[k[0]], k[1..]);
      } else if v == [] {
        var i: nat, j: nat :| i < j <= 16 && InUse(children, v, i) && InUse(children, v, j);
      }
  }

  lemma SamePlace(p: Nibbles, a: Nibbles, b: Nibbles, i: nat)
    requires IsPrefixOf(p, a) && IsPrefixOf(p, b) && i < |p|
    ensures a[i] == b[i]
  {
    assert a[i] == p[i] && b[i] == p[i];
  }

  lemma KeysDown(n: Node, first: Nibbles, child: Node, k: Nibbles, a: Nibbles, b: Nibbles)
    requires Leads(n, first, child) && IsPrefixOf(first, k) && Before(k, a) && Before(k, b) && a[|k|] != b[|k|]
    ensures Lookup(child, k[|first|..]) == Lookup(n, k)
    ensures Lookup(child, a[|first|..]) == Lookup(n, a) && Lookup(child, b[|first|..]) == Lookup(n, b)
    ensures Before(k[|first|..], a[|first|..]) && Before(k[|first|..], b[|first|..])
    ensures a[|first|..][|k| - |first|] != b[|first|..][|k| - |first|]
  {
    Rejoined(first, k);
    BeforeSplit(first, k[|first|..], a);
    BeforeSplit(first, k[|first|..], b);
    LookupBelow(n, first, child, k[|first|..]);
    LookupBelow(n, first, child, a[|first|..]);
    LookupBelow(n, first, child, b[|first|..]);
  }

  // ---------------------------------------------------------------- a value left alone

  lemma OnlyOnBelow(n: Node, p: Nibbles, child: Node, a: Nibbles, k: Nibbles)
    requires Leads(n, p, child) && IsPrefixOf(p, k)
    ensures OnlyOn(n, p + a, k) <==> OnlyOn(child, a, k[|p|..])
  {
    Rejoined(p, k);
    if OnlyOn(n, p + a, k) {
      forall q: Nibbles | Before(a, q) && q != k[|p|..]
        ensures Lookup(child, q) == []
      {
        BeforeBelow(p, a, q);
        LookupBelow(n, p, child, q);
        assert (p + q)[|p|..] == q;
      }
    }
    if OnlyOn(child, a, k[|p|..]) {
      forall q: Nibbles | Before(p + a, q) && q != k
        ensures Lookup(n, q) == []
      {
        BeforeSplit(p, a, q);
        LookupBelow(n, p, child, q[|p|..]);
      }
    }
  }

  lemma AloneKey(n: Node, k: Nibbles) returns (p: Nibbles)
    requires WellFormed(n) && Normal(n) && LeftAlone(n, k) != []
    ensures Lookup(n, k) != [] && Before(p, k) && Lookup(n, p) == LeftAlone(n, k) && OnlyOn(n, p, k)
    decreases n
  {
    match n
    case Ext(key, child) =>
      Rejoined(key, k);
      var rest := AloneKey(child, k[|key|..]);
      p := LiftedAlone(n, key, child, rest, k);
    case Branch(children, v) =>
      var child := children[k[0]];
      assert child in children && k == [k[0]] + k[1..];
      if Delete(child, k[1..]) == Some(Null) && OnlyInUse(children[k[0] := Null], v, 16) {
        p := [];
        AloneHere(n, k);
      } else {
        var rest := AloneKey(child, k[1..]);
        p := LiftedAlone(n, [k[0]], child, rest, k);
      }
  }

  lemma LiftedAlone(n: Node, first: Nibbles, child: Node, rest: Nibbles, k: Nibbles) returns (p: Nibbles)
    requires Leads(n, first, child) && IsPrefixOf(first, k)
    requires Before(rest, k[|first|..]) && OnlyOn(child, rest, k[|first|..])
    ensures p == first + rest && Lookup(n, p) == Lookup(child, rest) && Before(p, k) && OnlyOn(n, p, k)
    ensures Lookup(n, k) == Lookup(child, k[|first|..])
  {
    p := first + rest;
    Rejoined(first, k);
    LookupBelow(n, first, child, rest);
    LookupBelow(n, first, child, k[|first|..]);
    BeforeBelow(first, rest, k[|first|..]);
    OnlyOnBelow(n, first, child, rest, k);
  }

  lemma AloneHere(n: Node, k: Nibbles)
    requires WellFormed(n) && Normal(n) && n.Branch? && k != []
    requires Delete(n.children[k[0]], k[1..]) == Some(Null) && OnlyInUse(n.children[k[0] := Null], n.value, 16)
    ensures Lookup(n, k) != [] && n.value != [] && OnlyOn(n, [], k)
  {
    var child := n.children[k[0]];
    assert child in n.children;
    DeleteLookup(child, k[1..], k[1..]);
    forall q: Nibbles | Before([], q) && q != k
      ensures Lookup(n, q) == []
    {
      if q[0] == k[0] {
        assert q == [q[0]] + q[1..] && k == [k[0]] + k[1..];
        DeleteLookup(child, k[1..], q[1..]);
      } else {
        assert !InUse(n.children[k[0] := Null], n.value, q[0]);
      }
    }
  }

  lemma {:induction false} KeyAlone(n: Node, k: Nibbles, p: Nibbles)
    requires WellFormed(n) && Normal(n) && Lookup(n, k) != [] && Before(p, k) && Lookup(n, p) != [] && OnlyOn(n, p, k)
    ensures LeftAlone(n, k) == Lookup(n, p)
    decreases n
  {
    match n
    case Leaf(_, _) =>
    case Ext(key, child) =>
      var rest := Lowered(n, key, child, p, k);
      OnlyOnBelow(n, key, child, rest, k);
      KeyAlone(child, k[|key|..], rest);
    case Branch(children, v) =>
      if p == [] {
        HereAlone(n, k);
      } else {
        assert k[..|p|] == p && children[k[0]] in children;
        assert p[..1] == [k[0]];
        var child := children[k[0]];
        var rest := Lowered(n, [k[0]], child, p, k);
        OnlyOnBelow(n, [k[0]], child, rest, k);
        KeyAlone(child, k[1..], rest);
        DeleteLookup(child, k[1..], rest);
      }
  }

  lemma HereAlone(n: Node, k: Nibbles)
    requires WellFormed(n) && Normal(n) && n.Branch? && k != []
    requires Lookup(n, k) != [] && n.value != [] && OnlyOn(n, [], k)
    ensures Delete(n.children[k[0]], k[1..]) == Some(Null) && OnlyInUse(n.children[k[0] := Null], n.value, 16)
  {
    var child := n.children[k[0]];
    assert child in n.children;
    DeleteLookup(child, k[1..], k[1..]);
    DeleteNormal(child, k[1..]);
    var left := Delete(child, k[1..]).value;
    if left != Null {
      var r := SomeKey(left);
      DeleteLookup(child, k[1..], r);
      LookupBelow(n, [k[0]], child, r);
      OtherKey(k, r);
    }
    var others := n.children[k[0] := Null];
    forall j | 0 <= j < 16
      ensures others[j] == Null
    {
      if j != k[0] && n.children[j] != Null {
        var q := SlotOn(n, j);
      }
    }
  }

  lemma OtherKey(k: Nibbles, r: Nibbles)
    requires k != [] && r != k[1..]
    ensures [k[0]] + r != k && Before([], [k[0]] + r)
  {
    assert ([k[0]] + r)[1..] == r;
  }

  // ---------------------------------------------------------------- the exact condition

  /** A removal goes wrong exactly when a key ends before the given one does and no key goes on from
      there; when the given one is missing and keys part right behind it; or when it is the only one
      that goes on from a key whose value has more than 32 bytes. */
  lemma FailsExactly(n: Node, k: Nibbles)
    requires WellFormed(n) && Normal(n)
    ensures Fails(n, k) <==>
              || (exists p: Nibbles :: Before(p, k) && Lookup(n, p) != [] && LastOn(n, p))
              || (Lookup(n, k) == [] && PartAt(n, k))
              || (Lookup(n, k) != [] && exists p: Nibbles :: Before(p, k) && |Lookup(n, p)| > 32 && OnlyOn(n, p, k))
  {
    hide WellFormed, Normal, LastOn, OnlyOn, Lookup, Stops, LeafBefore, LeftAlone;
    if LeafBefore(n, k) != [] {
      var p := LeafKey(n, k);
    }
    StopsExactly(n, k);
    WideExactly(n, k);
    if LeftAlone(n, k) != [] {
      var p := AloneKey(n, k);
    }
    if p: Nibbles :| Before(p, k) && Lookup(n, p) != [] && LastOn(n, p) {
      KeyLeaf(n, k, p);
    }
    if Lookup(n, k) != [] {
      if p: Nibbles :| Before(p, k) && |Lookup(n, p)| > 32 && OnlyOn(n, p, k) {
        KeyAlone(n, k, p);
      }
    }
  }

  /** Inserting an empty value keeps the normal form exactly when keys part right behind its key. */
  lemma EmptyValueKeys(n: Node, k: Nibbles)
    requires WellFormed(n) && Normal(n)
    ensures Normal(Merge(n, k, [])) <==> PartAt(n, k)
  {
    hide WellFormed, Normal, Lookup, Wide, PartAt, Merge;
    EmptyValueExactly(n, k);
    WideExactly(n, k);
  }

  /** Among keys of which none is the beginning of another, no removal goes wrong, and none takes a
      value for a reference. */
  lemma FreeWorks(n: Node, k: Nibbles)
    requires WellFormed(n) && Normal(n)
    requires forall p: Nibbles :: Lookup(n, p) != [] ==> !Before(p, k) && !Before(k, p)
    ensures !Stops(n, k) && LeafBefore(n, k) == [] && LeftAlone(n, k) == []
  {
    hide WellFormed, Normal, Before, LastOn, OnlyOn, Lookup, Stops, LeafBefore, LeftAlone;
    if LeafBefore(n, k) != [] {
      var p := LeafKey(n, k);
    }
    StopsExactly(n, k);
    WideExactly(n, k);
    if LeftAlone(n, k) != [] {
      var p := AloneKey(n, k);
    }
  }

  /** A branch with one or two slots in use. */
  function SampleBranch(i: nibble, j: nibble, n: Node, v: bytes): (b: Node)
    ensures b.Branch? && |b.children| == 16 && b.value == v
    ensures forall k :: 0 <= k < 16 ==> b.children[k] == if k == i || k == j then n else Null
  {
    Branch(seq(16, k => if k == i || k == j then n else Null), v)
  }

  /** Tries for each cause: the removal of 0x6465 when 0x64 is the only key; of 0x64 when 0x6410 and
      0x6420 are the keys; and of 0x6465 when it is there, and 0x64 has a value of more than 32 bytes. */
  lemma FailingRemovals(v: bytes, long: bytes)
    requires v != [] && |long| > 32
    ensures var n := Leaf([6, 4], v); Normal(n) && Fails(n, [6, 4, 6, 5]) && LeafBefore(n, [6, 4, 6, 5]) != []
    ensures var n := Ext([6, 4], SampleBranch(1, 2, Leaf([0], v), []));
            Normal(n) && WellFormed(n) && Fails(n, [6, 4]) && Stops(n, [6, 4])
    ensures var n := Ext([6, 4], SampleBranch(6, 6, Leaf([5], v), long));
            && Normal(n) && WellFormed(n) && Fails(n, [6, 4, 6, 5])
            && Lookup(n, [6, 4, 6, 5]) == v && LeftAlone(n, [6, 4, 6, 5]) == long
  {
    var k: Nibbles, short: Nibbles := [6, 4, 6, 5], [6, 4];
    assert k[..2] == short && k[2..] == [6, 5] && k[2..][1..] == [5];
    assert short[..2] == short && short[2..] == [];
    PartsInTwo(v);
    LongAlone(v, long);
  }

  lemma PartsInTwo(v: bytes)
    requires v != []
    ensures var b := SampleBranch(1, 2, Leaf([0], v), []); Normal(b) && WellFormed(b) && Stops(b, [])
  {
    var b := SampleBranch(1, 2, Leaf([0], v), []);
    assert InUse(b.children, [], 1) && InUse(b.children, [], 2);
  }

  lemma LongAlone(v: bytes, long: bytes)
    requires v != [] && |long| > 32
    ensures var b := SampleBranch(6, 6, Leaf([5], v), long);
            Normal(b) && WellFormed(b) && Lookup(b, [6, 5]) == v && LeftAlone(b, [6, 5]) == long
  {
    var b := SampleBranch(6, 6, Leaf([5], v), long);
    assert InUse(b.children, long, 6) && InUse(b.children, long, 16);
    var k: Nibbles := [6, 5];
    assert k[1..] == [5];
    assert OnlyInUse(b.children[6 := Null], long, 16);
  }
}
