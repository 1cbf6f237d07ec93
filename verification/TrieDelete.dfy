/** Removal on the unfolded trie, with the rewrites of the source: the recursive deleteAt,
    uniqueInUse, merge and graft; and where the source's walk goes wrong. */
module TrieDelete {
  import opened Bytes
  import opened HexPrefix
  import opened TrieNode

  /** Joins a key and the two-item node below it into one two-item node. */
  function Graft(p: Nibbles, n: Node): Node
    requires IsPair(n)
  {
    if n.Leaf? then Leaf(p + n.key, n.value) else Ext(p + n.key, n.child)
  }

  ghost predicate OnlyInUse(children: seq<Node>, v: bytes, i: nat)
    requires |children| == 16 && i <= 16
  {
    InUse(children, v, i) && forall j: nat :: j <= 16 && InUse(children, v, j) ==> j == i
  }

  /** An extension by `p`, merged with the node below where that is a two-item node. */
  function Extend(p: Nibbles, n: Node): Node
  {
    if IsPair(n) then Graft(p, n) else Ext(p, n)
  }

  /** The branch, or what is left of it when a single slot is in use. */
  ghost function Rejig(children: seq<Node>, v: bytes): Node
    requires |children| == 16
  {
    if exists i: nat :: i <= 16 && OnlyInUse(children, v, i) then
      var i: nat :| i <= 16 && OnlyInUse(children, v, i);
      if i < 16 then Extend([i as nibble], children[i]) else Leaf([], v)
    else Branch(children, v)
  }

  /** The trie after removing `k`; None when the key did not turn up. */
  ghost function Delete(n: Node, k: Nibbles): Option<Node>
    requires WellFormed(n)
    decreases n
  {
    match n
    case Null => None
    case Leaf(p, _) => if k == p then Some(Null) else None
    case Ext(p, child) =>
      if !IsPrefixOf(p, k) then None
      else (match Delete(child, k[|p|..])
            case None => None
            case Some(c) => Some(Extend(p, c)))
    case Branch(children, v) =>
      if k == [] then (if v == [] then None else Some(Rejig(children, [])))
      else
        match Delete(children[k[0]], k[1..])
        case None => None
        case Some(c) => Some(Rejig(children[k[0] := c], v))
  }

  // ---------------------------------------------------------------- the map

  lemma ExtendLookup(p: Nibbles, n: Node, q: Nibbles)
    ensures Lookup(Extend(p, n), q) == Lookup(Ext(p, n), q)
  {
    if IsPair(n) {
      assert (p + n.key)[..|p|] == p && (p + n.key)[|p|..] == n.key;
      if IsPrefixOf(p, q) {
        assert q == p + q[|p|..];
        if |p + n.key| <= |q| {
          assert q[..|p + n.key|] == p + q[|p|..][..|n.key|];
          assert q[|p|..][|n.key|..] == q[|p + n.key|..];
        }
      } else if |p + n.key| <= |q| {
        assert q[..|p + n.key|][..|p|] == q[..|p|];
      }
    }
  }

  /** Replacing a branch that has a single slot left keeps the map. */
  lemma RejigLookup(children: seq<Node>, v: bytes, q: Nibbles)
    requires |children| == 16
    ensures Lookup(Rejig(children, v), q) == Lookup(Branch(children, v), q)
  {
    if exists i: nat :: i <= 16 && OnlyInUse(children, v, i) {
      var i: nat :| i <= 16 && OnlyInUse(children, v, i) &&
                    Rejig(children, v) == if i < 16 then Extend([i as nibble], children[i]) else Leaf([], v);
      if i < 16 {
        ExtendLookup([i as nibble], children[i], q);
        assert !InUse(children, v, 16);
      }
      if q != [] && q[0] != i {
        assert !InUse(children, v, q[0]);
      }
      assert q != [] ==> q[..1] == [q[0]];
    }
  }

  /** Removal takes `k` out of the map and nothing else; it finds exactly the keys of the map. */
  lemma {:induction false} DeleteLookup(n: Node, k: Nibbles, q: Nibbles)
    requires WellFormed(n) && Normal(n)
    ensures Delete(n, k).None? <==> Lookup(n, k) == []
    ensures Delete(n, k).Some? ==> Lookup(Delete(n, k).value, q) == if q == k then [] else Lookup(n, q)
    decreases n
  {
    match n
    case Null =>
    case Leaf(p, _) =>
    case Ext(p, child) =>
      if IsPrefixOf(p, k) {
        assert k == p + k[|p|..];
        DeleteLookup(child, k[|p|..], q[if |p| <= |q| then |p| else 0..]);
        if Delete(n, k).Some? {
          ExtendLookup(p, Delete(child, k[|p|..]).value, q);
        }
        assert IsPrefixOf(p, q) ==> q == p + q[|p|..];
      }
    case Branch(children, v) =>
      if k == [] {
        RejigLookup(children, [], q);
      } else {
        assert children[k[0]] in children;
        assert k == [k[0]] + k[1..];
        assert q != [] ==> q == [q[0]] + q[1..];
        DeleteLookup(children[k[0]], k[1..], if q == [] then [] else q[1..]);
        if Delete(n, k).Some? {
          RejigLookup(children[k[0] := Delete(children[k[0]], k[1..]).value], v, q);
        }
      }
  }

  // ---------------------------------------------------------------- the normal form

  lemma ExtendNormal(p: Nibbles, n: Node)
    requires Normal(n) && n != Null && p != []
    ensures Normal(Extend(p, n)) && IsPair(Extend(p, n))
  {
  }

  lemma RejigNormal(children: seq<Node>, v: bytes, i: nat)
    requires |children| == 16 && i <= 16 && InUse(children, v, i)
    requires forall c :: c in children ==> Normal(c)
    ensures Normal(Rejig(children, v)) && Rejig(children, v) != Null
  {
    if j: nat :| j <= 16 && OnlyInUse(children, v, j) &&
                 Rejig(children, v) == if j < 16 then Extend([j as nibble], children[j]) else Leaf([], v) {
      if j < 16 {
        ExtendNormal([j as nibble], children[j]);
      }
    } else {
      assert !OnlyInUse(children, v, i);
      var j: nat :| j <= 16 && InUse(children, v, j) && j != i;
      assert TwoInUse(children, v);
    }
  }

  /** Removal restores the normal form. */
  lemma {:induction false} DeleteNormal(n: Node, k: Nibbles)
    requires WellFormed(n) && Normal(n)
    ensures Delete(n, k).Some? ==> Normal(Delete(n, k).value)
    ensures Delete(n, k).Some? && n.Branch? ==> Delete(n, k).value != Null
    decreases n
  {
    match n
    case Null =>
    case Leaf(p, _) =>
    case Ext(p, child) =>
      if Delete(n, k).Some? {
        DeleteNormal(child, k[|p|..]);
        ExtendNormal(p, Delete(child, k[|p|..]).value);
      }
    case Branch(children, v) =>
      var i: nat, j: nat :| i < j <= 16 && InUse(children, v, i) && InUse(children, v, j);
      if Delete(n, k).Some? {
        if k == [] {
          RejigNormal(children, [], i);
        } else {
          assert children[k[0]] in children;
          DeleteNormal(children[k[0]], k[1..]);
          var left := children[k[0] := Delete(children[k[0]], k[1..]).value];
          assert forall c :: c in left ==> c == left[k[0]] || c in children;
          RejigNormal(left, v, if i == k[0] then j else i);
        }
      }
  }

  // ---------------------------------------------------------------- where the walk goes wrong

  /** The walk to `k` ends in a branch without a value. */
  predicate Stops(n: Node, k: Nibbles)
    requires WellFormed(n)
  {
    match n
    case Null => false
    case Leaf(_, _) => false
    case Ext(p, child) => IsPrefixOf(p, k) && Stops(child, k[|p|..])
    case Branch(children, v) => if k == [] then v == [] else Stops(children[k[0]], k[1..])
  }

  /** The value of the leaf whose key ends before `k` does; the walk takes it for a reference. */
  function LeafBefore(n: Node, k: Nibbles): bytes
    requires WellFormed(n)
  {
    match n
    case Null => []
    case Leaf(p, v) => if IsPrefixOf(p, k) && k != p then v else []
    case Ext(p, child) => if IsPrefixOf(p, k) then LeafBefore(child, k[|p|..]) else []
    case Branch(children, v) => if k == [] then [] else LeafBefore(children[k[0]], k[1..])
  }

  /** The value that removing `k` leaves alone in a branch; it, too, is taken for a reference. */
  ghost function LeftAlone(n: Node, k: Nibbles): bytes
    requires WellFormed(n)
  {
    match n
    case Null => []
    case Leaf(_, _) => []
    case Ext(p, child) => if IsPrefixOf(p, k) then LeftAlone(child, k[|p|..]) else []
    case Branch(children, v) =>
      if k == [] then []
      else if Delete(children[k[0]], k[1..]) == Some(Null) && OnlyInUse(children[k[0] := Null], v, 16) then v
      else LeftAlone(children[k[0]], k[1..])
  }

  /** A value of more than 32 bytes is no reference, and the attempt to take it for one throws. */
  ghost predicate Fails(n: Node, k: Nibbles)
    requires WellFormed(n)
  {
    Stops(n, k) || LeafBefore(n, k) != [] || |LeftAlone(n, k)| > 32
  }
}
