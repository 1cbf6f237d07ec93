/** Insertion on the unfolded trie, with the rewrites of the source: place, cleve, branch
    and the recursive mergeAt. The result denotes the updated map and is in normal form. */
module TrieMerge {
  import opened Bytes
  import opened HexPrefix
  import opened TrieNode

  function NoChildren(): (s: seq<Node>)
    ensures |s| == 16 && forall i :: 0 <= i < 16 ==> s[i] == Null
  {
    [Null, Null, Null, Null, Null, Null, Null, Null, Null, Null, Null, Null, Null, Null, Null, Null]
  }

  /** Puts the value right at the node. */
  function Place(n: Node, k: Nibbles, v: bytes): Node
    requires !n.Ext?
  {
    match n
    case Null => Leaf(k, v)
    case Leaf(p, _) => Leaf(p, v)
    case Branch(children, _) => Branch(children, v)
  }

  /** Splits the key of a two-item node after `s` nibbles. */
  function Cleve(n: Node, s: nat): Node
    requires IsPair(n) && s <= |n.key|
  {
    Ext(n.key[..s], CleveBottom(n, s))
  }

  function CleveBottom(n: Node, s: nat): Node
    requires IsPair(n) && s <= |n.key|
  {
    if n.Leaf? then Leaf(n.key[s..], n.value) else Ext(n.key[s..], n.child)
  }

  /** What hangs below the branch that a two-item node with a key is turned into. */
  function BranchChild(n: Node): Node
    requires IsPair(n) && n.key != []
  {
    if n.Leaf? then Leaf(n.key[1..], n.value)
    else if |n.key| > 1 then Ext(n.key[1..], n.child)
    else n.child
  }

  /** Turns a two-item node into a branch with one slot in use. */
  function BranchOut(n: Node): Node
    requires IsPair(n) && (n.Ext? ==> n.key != [])
  {
    if n.key == [] then Branch(NoChildren(), n.value)
    else Branch(NoChildren()[n.key[0] := BranchChild(n)], [])
  }

  /** The key is the node's own, or lies below it: no rewrite is needed first. */
  predicate Descends(n: Node, k: Nibbles)
  {
    match n
    case Leaf(p, _) => k == p
    case Ext(p, _) => IsPrefixOf(p, k)
    case _ => true
  }

  /** The rewrite of a two-item node that is in the way. */
  function Split(n: Node, k: Nibbles): (r: Node)
    requires WellFormed(n) && !Descends(n, k)
    ensures WellFormed(r) && Descends(r, k) && !r.Leaf? && !r.Null?
  {
    var s := SharedLength(k, n.key);
    assert s == |n.key| ==> n.key[..s] == n.key;
    if s > 0 then Cleve(n, s) else BranchOut(n)
  }

  /** The trie after inserting `v` at `k`. */
  function Merge(n: Node, k: Nibbles, v: bytes): (r: Node)
    requires WellFormed(n)
    ensures WellFormed(r)
    decreases |k|, if Descends(n, k) then 0 else 1
  {
    if !Descends(n, k) then Merge(Split(n, k), k, v)
    else match n
      case Null => Place(n, k, v)
      case Leaf(_, _) => Place(n, k, v)
      case Ext(p, child) => Ext(p, Merge(child, k[|p|..], v))
      case Branch(children, w) =>
        if k == [] then Place(n, k, v)
        else Branch(children[k[0] := Merge(children[k[0]], k[1..], v)], w)
  }

  // ---------------------------------------------------------------- the map

  lemma SplitLookup(n: Node, k: Nibbles, q: Nibbles)
    requires WellFormed(n) && !Descends(n, k)
    ensures Lookup(Split(n, k), q) == Lookup(n, q)
  {
    var s := SharedLength(k, n.key);
    if s > 0 {
      CleveLookup(n, s, q);
    } else {
      BranchLookup(n, q);
    }
  }

  lemma PrefixSplit(p: Nibbles, s: nat, q: Nibbles)
    requires s <= |p|
    ensures IsPrefixOf(p, q) <==> IsPrefixOf(p[..s], q) && IsPrefixOf(p[s..], q[s..])
    ensures |p| <= |q| ==> q[s..][|p| - s..] == q[|p|..]
  {
    assert p == p[..s] + p[s..];
    if |p| <= |q| {
      assert q[..|p|] == q[..s] + q[s..][..|p| - s];
    }
  }

  lemma CleveLookup(n: Node, s: nat, q: Nibbles)
    requires IsPair(n) && s <= |n.key|
    ensures Lookup(Cleve(n, s), q) == Lookup(n, q)
  {
    PrefixSplit(n.key, s, q);
    if n.Leaf? && IsPrefixOf(n.key[..s], q) {
      assert q == q[..s] + q[s..] && n.key == n.key[..s] + n.key[s..];
    }
  }

  lemma BranchLookup(n: Node, q: Nibbles)
    requires IsPair(n) && (n.Ext? ==> n.key != [])
    ensures Lookup(BranchOut(n), q) == Lookup(n, q)
  {
    var p := n.key;
    if p != [] && q != [] {
      assert p == [p[0]] + p[1..] && q == [q[0]] + q[1..];
      if |p| <= |q| {
        assert q[..|p|] == [q[0]] + q[1..][..|p| - 1];
        assert q[1..][|p| - 1..] == q[|p|..];
      }
    }
  }

  /** Insertion updates the map at `k` and nowhere else. */
  lemma {:induction false} MergeLookup(n: Node, k: Nibbles, v: bytes, q: Nibbles)
    requires WellFormed(n)
    ensures Lookup(Merge(n, k, v), q) == if q == k then v else Lookup(n, q)
    decreases |k|, if Descends(n, k) then 0 else 1
  {
    if !Descends(n, k) {
      SplitLookup(n, k, q);
      MergeLookup(Split(n, k), k, v, q);
    } else if n.Ext? {
      assert k == n.key + k[|n.key|..];
      if IsPrefixOf(n.key, q) {
        assert q == n.key + q[|n.key|..];
        MergeLookup(n.child, k[|n.key|..], v, q[|n.key|..]);
      }
    } else if n.Branch? && k != [] && q != [] {
      assert k == [k[0]] + k[1..] && q == [q[0]] + q[1..];
      MergeLookup(n.children[k[0]], k[1..], v, q[1..]);
    }
  }

  // ---------------------------------------------------------------- the normal form

  /** Insertion restores the normal form, and a branch stays a branch. */
  lemma {:induction false} MergeNormal(n: Node, k: Nibbles, v: bytes)
    requires Normal(n) && WellFormed(n) && v != []
    ensures Normal(Merge(n, k, v)) && Merge(n, k, v) != Null
    ensures n.Branch? ==> Merge(n, k, v).Branch?
    decreases |k|, 0
  {
    if !Descends(n, k) {
      var s := SharedLength(k, n.key);
      if s > 0 {
        CleveBottomParts(n, k, s);
        PartedNormal(CleveBottom(n, s), k[s..], v);
      } else {
        PartedNormal(n, k, v);
      }
    } else if n.Ext? {
      MergeNormal(n.child, k[|n.key|..], v);
    } else if n.Branch? {
      MergeBranchNormal(n, k, v);
    }
  }

  /** Below the cleft, the rest of the node and the rest of the key have nothing in common. */
  lemma CleveBottomParts(n: Node, k: Nibbles, s: nat)
    requires Normal(n) && IsPair(n) && !Descends(n, k) && s == SharedLength(k, n.key)
    ensures var bottom := CleveBottom(n, s);
            Normal(bottom) && WellFormed(bottom) && !Descends(bottom, k[s..]) &&
            SharedLength(k[s..], bottom.key) == 0
  {
    var bottom := CleveBottom(n, s);
    assert s == |n.key| ==> n.key[..s] == n.key;
    assert k[..s] + k[s..] == k && n.key[..s] + n.key[s..] == n.key;
    NormalWellFormed(n);
    NormalWellFormed(bottom);
  }

  /** A two-item node and a key that part at once become a normal branch. */
  lemma PartedNormal(n: Node, k: Nibbles, v: bytes)
    requires Normal(n) && WellFormed(n) && IsPair(n) && !Descends(n, k) && v != []
    requires SharedLength(k, n.key) == 0
    ensures Merge(n, k, v).Branch? && Normal(Merge(n, k, v))
    decreases |k|, 0
  {
    var b := BranchOut(n);
    var r := Merge(n, k, v);
    assert r == Merge(b, k, v);
    if k == [] {
      assert InUse(r.children, r.value, n.key[0]) && InUse(r.children, r.value, 16);
    } else {
      assert b.children[k[0]] == Null && Merge(Null, k[1..], v) == Leaf(k[1..], v);
      assert Descends(b, k) && r.children == b.children[k[0] := Leaf(k[1..], v)];
      if n.key == [] {
        assert InUse(r.children, r.value, k[0]) && InUse(r.children, r.value, 16);
      } else if k[0] < n.key[0] {
        assert InUse(r.children, r.value, k[0]) && InUse(r.children, r.value, n.key[0]);
      } else {
        assert InUse(r.children, r.value, n.key[0]) && InUse(r.children, r.value, k[0]);
      }
    }
  }

  lemma MergeBranchNormal(n: Node, k: Nibbles, v: bytes)
    requires Normal(n) && WellFormed(n) && n.Branch? && v != []
    ensures Normal(Merge(n, k, v))
    decreases |k|, 0, 0
  {
    var r := Merge(n, k, v);
    var i: nat, j: nat :| i < j <= 16 && InUse(n.children, n.value, i) && InUse(n.children, n.value, j);
    if k != [] {
      MergeNormal(n.children[k[0]], k[1..], v);
    }
    assert InUse(r.children, r.value, i) && InUse(r.children, r.value, j);
  }

  // ---------------------------------------------------------------- empty values

  /** The walk to `k` ends in a branch with two children. */
  ghost predicate Wide(n: Node, k: Nibbles)
    requires WellFormed(n)
  {
    match n
    case Null => false
    case Leaf(_, _) => false
    case Ext(p, child) => IsPrefixOf(p, k) && Wide(child, k[|p|..])
    case Branch(children, _) => if k == [] then TwoInUse(children, []) else Wide(children[k[0]], k[1..])
  }

  /** An empty value, which the trie does not tell from a missing one, leaves a trie in normal form
      exactly when the walk to its key ends in a branch with two children. */
  lemma {:induction false} EmptyValueExactly(n: Node, k: Nibbles)
    requires Normal(n) && WellFormed(n)
    ensures Normal(Merge(n, k, [])) <==> Wide(n, k)
    decreases n
  {
    if !Descends(n, k) {
      var s := SharedLength(k, n.key);
      if s > 0 {
        CleveBottomParts(n, k, s);
        EmptyParted(CleveBottom(n, s), k[s..]);
      } else {
        EmptyParted(n, k);
      }
    } else if n.Ext? {
      EmptyValueExactly(n.child, k[|n.key|..]);
    } else if n.Branch? && k != [] {
      assert n.children[k[0]] in n.children;
      EmptyValueExactly(n.children[k[0]], k[1..]);
      EmptyBelow(n, k);
    }
  }

  /** A two-item node and a key that part at once become a branch that is not in normal form. */
  lemma EmptyParted(n: Node, k: Nibbles)
    requires Normal(n) && WellFormed(n) && IsPair(n) && !Descends(n, k) && SharedLength(k, n.key) == 0
    ensures !Normal(Merge(n, k, []))
  {
    var b := BranchOut(n);
    var r := Merge(n, k, []);
    assert r == Merge(b, k, []) && Descends(b, k);
    if k != [] {
      assert b.children[k[0]] == Null && Merge(Null, k[1..], []) == Leaf(k[1..], []);
      assert r.children[k[0]] == Leaf(k[1..], []) && r.children[k[0]] in r.children;
    } else {
      assert r == Branch(b.children, []);
    }
  }

  lemma EmptyBelow(n: Node, k: Nibbles)
    requires Normal(n) && WellFormed(n) && n.Branch? && k != []
    ensures Normal(Merge(n, k, [])) <==> Normal(Merge(n.children[k[0]], k[1..], []))
  {
    var c, r := Merge(n.children[k[0]], k[1..], []), Merge(n, k, []);
    assert r.children[k[0]] == c && c in r.children;
    if Normal(c) {
      var i: nat, j: nat :| i < j <= 16 && InUse(n.children, n.value, i) && InUse(n.children, n.value, j);
      MergeNotNull(n.children[k[0]], k[1..], []);
      assert InUse(r.children, r.value, i) && InUse(r.children, r.value, j);
      assert forall x :: x in r.children ==> x == c || x in n.children;
    }
  }

  lemma {:induction false} MergeNotNull(n: Node, k: Nibbles, v: bytes)
    requires WellFormed(n)
    ensures Merge(n, k, v) != Null
    decreases |k|, if Descends(n, k) then 0 else 1
  {
    if !Descends(n, k) {
      MergeNotNull(Split(n, k), k, v);
    }
  }
}
