/** The unfolded trie: nodes with their children in place of references, the map that a
    trie denotes, and the normal form, which that map determines. */
module TrieNode {
  import opened Bytes
  import opened HexPrefix

  datatype Node =
    | Null
    | Leaf(key: Nibbles, value: bytes)
    | Ext(key: Nibbles, child: Node)
    | Branch(children: seq<Node>, value: bytes)

  /** Every branch has its sixteen slots, and no extension has an empty key. */
  ghost predicate WellFormed(n: Node)
  {
    match n
    case Null => true
    case Leaf(_, _) => true
    case Ext(k, child) => k != [] && WellFormed(child)
    case Branch(children, _) => |children| == 16 && forall c :: c in children ==> WellFormed(c)
  }

  /** The value stored for a key; empty when there is none. */
  function Lookup(n: Node, k: Nibbles): bytes
  {
    match n
    case Null => []
    case Leaf(p, v) => if k == p then v else []
    case Ext(p, child) => if IsPrefixOf(p, k) then Lookup(child, k[|p|..]) else []
    case Branch(children, v) =>
      if k == [] then v
      else if k[0] < |children| then Lookup(children[k[0]], k[1..])
      else []
  }

  predicate IsPair(n: Node)
  {
    n.Leaf? || n.Ext?
  }

  /** Slot `i` of a branch holds something; slot 16 is the value. */
  predicate InUse(children: seq<Node>, v: bytes, i: nat)
    requires |children| == 16 && i <= 16
  {
    if i < 16 then children[i] != Null else v != []
  }

  ghost predicate TwoInUse(children: seq<Node>, v: bytes)
    requires |children| == 16
  {
    exists i: nat, j: nat :: i < j <= 16 && InUse(children, v, i) && InUse(children, v, j)
  }

  /** The normal form: no empty value, no extension above a two-item node, no branch with
      fewer than two slots in use. */
  ghost predicate Normal(n: Node)
  {
    match n
    case Null => true
    case Leaf(_, v) => v != []
    case Ext(k, child) => k != [] && child.Branch? && Normal(child)
    case Branch(children, v) =>
      |children| == 16 && TwoInUse(children, v) && forall c :: c in children ==> Normal(c)
  }

  lemma {:induction false} NormalWellFormed(n: Node)
    requires Normal(n)
    ensures WellFormed(n)
  {
    match n
    case Null =>
    case Leaf(_, _) =>
    case Ext(_, child) => NormalWellFormed(child);
    case Branch(children, _) =>
      forall c | c in children
        ensures WellFormed(c)
      {
        NormalWellFormed(c);
      }
  }

  // ---------------------------------------------------------------- keys of normal tries

  /** A key under slot `i` of a branch, or the empty key for its value. */
  lemma SlotKey(children: seq<Node>, v: bytes, i: nat) returns (k: Nibbles)
    requires |children| == 16 && i <= 16 && InUse(children, v, i)
    requires i < 16 ==> Normal(children[i])
    ensures Lookup(Branch(children, v), k) != []
    ensures if i < 16 then k != [] && k[0] == i else k == []
    decreases children, 0
  {
    if i < 16 {
      var rest := SomeKey(children[i]);
      k := [i as nibble] + rest;
      assert k[1..] == rest;
    } else {
      k := [];
    }
  }

  lemma SomeKey(n: Node) returns (k: Nibbles)
    requires Normal(n) && n != Null
    ensures Lookup(n, k) != []
    decreases n, 1
  {
    match n
    case Leaf(p, _) => k := p;
    case Ext(p, child) =>
      var rest := SomeKey(child);
      k := p + rest;
      assert k[|p|..] == rest;
    case Branch(children, v) =>
      var i: nat, j: nat :| i < j <= 16 && InUse(children, v, i) && InUse(children, v, j);
      k := SlotKey(children, v, i);
  }

  /** Two keys of a normal branch part at once: they have different heads, or one is empty. */
  ghost predicate Diverge(a: Nibbles, b: Nibbles)
  {
    a != [] && (b == [] || a[0] != b[0])
  }

  lemma TwoKeys(n: Node) returns (a: Nibbles, b: Nibbles)
    requires Normal(n) && n.Branch?
    ensures Lookup(n, a) != [] && Lookup(n, b) != [] && Diverge(a, b)
  {
    var i: nat, j: nat :| i < j <= 16 && InUse(n.children, n.value, i) && InUse(n.children, n.value, j);
    a := SlotKey(n.children, n.value, i);
    b := SlotKey(n.children, n.value, j);
  }

  // ---------------------------------------------------------------- extensionality

  ghost predicate SameMap(m: Node, n: Node)
  {
    forall k: Nibbles :: Lookup(m, k) == Lookup(n, k)
  }

  /** The normal form is unique: two normal tries with the same map are the same trie. */
  lemma {:induction false} NormalUnique(m: Node, n: Node)
    requires Normal(m) && Normal(n) && SameMap(m, n)
    ensures m == n
    decreases m
  {
    SameShape(m, n);
    match m
    case Null =>
    case Leaf(k, v) =>
      assert Lookup(m, k) == Lookup(n, k);
    case Ext(k, child) =>
      SameExtKey(m, n);
      forall q: Nibbles
        ensures Lookup(child, q) == Lookup(n.child, q)
      {
        assert (k + q)[|k|..] == q;
        assert Lookup(m, k + q) == Lookup(n, k + q);
      }
      NormalUnique(child, n.child);
    case Branch(children, v) =>
      assert Lookup(m, []) == Lookup(n, []);
      forall i | 0 <= i < 16
        ensures children[i] == n.children[i]
      {
        SlotMap(m, n, i);
        NormalUnique(children[i], n.children[i]);
      }
  }

  lemma SlotMap(m: Node, n: Node, i: nat)
    requires m.Branch? && n.Branch? && |m.children| == 16 && |n.children| == 16 && i < 16
    requires SameMap(m, n)
    ensures SameMap(m.children[i], n.children[i])
  {
    forall q: Nibbles
      ensures Lookup(m.children[i], q) == Lookup(n.children[i], q)
    {
      var k := [i as nibble] + q;
      assert k[1..] == q;
      assert Lookup(m, k) == Lookup(n, k);
    }
  }

  /** Equal maps put the same kind of node at the top. */
  lemma SameShape(m: Node, n: Node)
    requires Normal(m) && Normal(n) && SameMap(m, n)
    ensures m.Null? == n.Null? && m.Leaf? == n.Leaf? && m.Ext? == n.Ext?
  {
    OneWay(m, n);
    OneWay(n, m);
  }

  lemma OneWay(m: Node, n: Node)
    requires Normal(m) && Normal(n) && SameMap(m, n)
    ensures m.Null? ==> n.Null?
    ensures m.Leaf? ==> !n.Ext? && !n.Branch?
    ensures m.Ext? ==> !n.Branch?
  {
    if !n.Null? {
      var k := SomeKey(n);
      assert Lookup(m, k) == Lookup(n, k);
    }
    if n.Branch? {
      var a, b := TwoKeys(n);
      assert Lookup(m, a) == Lookup(n, a) && Lookup(m, b) == Lookup(n, b);
    }
    if n.Ext? {
      var a, b := ExtKeys(n);
      assert Lookup(m, a) == Lookup(n, a) && Lookup(m, b) == Lookup(n, b);
    }
  }

  /** Two keys of a normal extension part exactly where its own key ends. */
  lemma ExtKeys(n: Node) returns (a: Nibbles, b: Nibbles)
    requires Normal(n) && n.Ext?
    ensures Lookup(n, a) != [] && Lookup(n, b) != [] && a != b
    ensures IsPrefixOf(n.key, a) && IsPrefixOf(n.key, b) && Diverge(a[|n.key|..], b[|n.key|..])
  {
    var x, y := TwoKeys(n.child);
    a, b := n.key + x, n.key + y;
    assert a[|n.key|..] == x && b[|n.key|..] == y;
  }

  lemma SameExtKey(m: Node, n: Node)
    requires Normal(m) && Normal(n) && SameMap(m, n) && m.Ext? && n.Ext?
    ensures m.key == n.key
  {
    ExtKeyNotLonger(m, n);
    ExtKeyNotLonger(n, m);
    var a, b := ExtKeys(m);
    assert Lookup(n, a) == Lookup(m, a);
    assert a[..|m.key|] == m.key && a[..|n.key|] == n.key;
  }

  lemma ExtKeyNotLonger(m: Node, n: Node)
    requires Normal(m) && Normal(n) && SameMap(m, n) && m.Ext? && n.Ext?
    ensures |n.key| <= |m.key|
  {
    var a, b := ExtKeys(m);
    assert Lookup(n, a) == Lookup(m, a) && Lookup(n, b) == Lookup(m, b);
    PartingBounds(m.key, n.key, a, b);
  }

  /** Keys that part right after `p` have no longer prefix in common. */
  lemma PartingBounds(p: Nibbles, q: Nibbles, a: Nibbles, b: Nibbles)
    requires IsPrefixOf(p, a) && IsPrefixOf(p, b) && Diverge(a[|p|..], b[|p|..])
    requires IsPrefixOf(q, a) && IsPrefixOf(q, b)
    ensures |q| <= |p|
  {
    assert forall i :: 0 <= i < |q| ==> a[i] == a[..|q|][i] == b[..|q|][i] == b[i];
    assert a[|p|..][0] == a[|p|];
    assert |p| < |b| ==> b[|p|..][0] == b[|p|];
  }
}
