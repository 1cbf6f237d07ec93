/** How nodes become bytes: the RLP item of a node, the rule that puts a child inline or
    behind its hash, the digests a trie keeps alive, and what it needs from the store.

    The hash is a parameter. Nothing is assumed of it beyond its 32 bytes of output, except
    where a predicate asks that it does not collide on the strings at hand. */
module TrieCode {
  import opened Bytes
  import opened HexPrefix
  import opened TrieNode
  import Rlp

  type Digest = d: bytes | |d| == 32
    witness [0, 0, 0, 0, 0, 0, 0, 0, 0, 0, 0, 0, 0, 0, 0, 0, 0, 0, 0, 0, 0, 0, 0, 0, 0, 0, 0, 0, 0, 0, 0, 0]

  type Hasher = bytes -> Digest

  /** The hash has no collision among these strings. */
  ghost predicate CollisionFree(sha3: Hasher, strings: iset<bytes>)
  {
    forall a: bytes, b: bytes :: a in strings && b in strings && sha3(a) == sha3(b) ==> a == b
  }

  /** The strings do not collide, and are short enough for the RLP decoder. */
  ghost predicate Usable(sha3: Hasher, strings: iset<bytes>)
  {
    && CollisionFree(sha3, strings)
    && forall a: bytes :: a in strings ==> 0 < |a| < Rlp.LENGTH_LIMIT
  }

  // ---------------------------------------------------------------- items

  /** The item of a node. */
  function ItemOf(sha3: Hasher, n: Node): Rlp.Item
    decreases n, 0
  {
    match n
    case Null => Rlp.Data([])
    case Leaf(k, v) => Rlp.List([Rlp.Data(Encode(k, true)), Rlp.Data(v)])
    case Ext(k, child) => Rlp.List([Rlp.Data(Encode(k, false)), Ref(sha3, child)])
    case Branch(children, v) =>
      Rlp.List(seq(|children|, i requires 0 <= i < |children| => Ref(sha3, children[i])) + [Rlp.Data(v)])
  }

  function Code(sha3: Hasher, n: Node): bytes
    decreases n, 1
  {
    Rlp.Encode(ItemOf(sha3, n))
  }

  /** Only nodes of 32 bytes or more live in the store. */
  predicate Hashed(sha3: Hasher, n: Node)
    decreases n, 2
  {
    |Code(sha3, n)| >= 32
  }

  /** What a parent holds for a child: the node itself if it is short, else its hash. */
  function Ref(sha3: Hasher, n: Node): Rlp.Item
    decreases n, 3
  {
    if Hashed(sha3, n) then Rlp.Data(sha3(Code(sha3, n))) else ItemOf(sha3, n)
  }

  function Refs(sha3: Hasher, children: seq<Node>): (s: seq<Rlp.Item>)
    ensures |s| == |children|
    ensures forall i :: 0 <= i < |s| ==> s[i] == Ref(sha3, children[i])
  {
    seq(|children|, i requires 0 <= i < |children| => Ref(sha3, children[i]))
  }

  lemma BranchItem(sha3: Hasher, n: Node)
    requires n.Branch?
    ensures ItemOf(sha3, n) == Rlp.List(Refs(sha3, n.children) + [Rlp.Data(n.value)])
  {
    assert seq(|n.children|, i requires 0 <= i < |n.children| => Ref(sha3, n.children[i])) == Refs(sha3, n.children);
  }

  // ---------------------------------------------------------------- reading items

  /** A string or list of length zero. */
  predicate IsEmpty(it: Rlp.Item)
  {
    it == Rlp.Data([]) || it == Rlp.List([])
  }

  predicate IsPairItem(it: Rlp.Item)
  {
    it.List? && |it.items| == 2 && it.items[0].Data? && it.items[0].data != []
  }

  function ItemKey(it: Rlp.Item): Nibbles
    requires IsPairItem(it)
  {
    KeyOf(it.items[0].data)
  }

  predicate IsLeafItem(it: Rlp.Item)
    requires IsPairItem(it)
  {
    HasLeafFlag(it.items[0].data)
  }

  predicate IsBranchItem(it: Rlp.Item)
  {
    it.List? && |it.items| == 17
  }

  /** The item shows which kind of node it is, and its key. */
  lemma ItemShape(sha3: Hasher, n: Node)
    requires WellFormed(n)
    ensures IsEmpty(ItemOf(sha3, n)) <==> n == Null
    ensures IsPairItem(ItemOf(sha3, n)) <==> IsPair(n)
    ensures IsBranchItem(ItemOf(sha3, n)) <==> n.Branch?
    ensures n.Null? <==> ItemOf(sha3, n).Data?
    ensures IsPair(n) ==> ItemKey(ItemOf(sha3, n)) == n.key && (IsLeafItem(ItemOf(sha3, n)) <==> n.Leaf?)
  {
    if IsPair(n) {
      KeyOfEncode(n.key, n.Leaf?);
    }
  }

  /** A reference shows whether it must be looked up. */
  lemma RefShape(sha3: Hasher, n: Node)
    requires WellFormed(n)
    ensures n == Null ==> !Hashed(sha3, n)
    ensures IsEmpty(Ref(sha3, n)) <==> n == Null
    ensures Ref(sha3, n).List? <==> n != Null && !Hashed(sha3, n)
  {
    assert Rlp.Encode(Rlp.Data([])) == [0x80];
    ItemShape(sha3, n);
  }

  // ---------------------------------------------------------------- live digests

  /** The digest of the node itself, if it lives in the store. */
  function Own(sha3: Hasher, n: Node): multiset<Digest>
  {
    if Hashed(sha3, n) then multiset{sha3(Code(sha3, n))} else multiset{}
  }

  /** One digest for every position strictly below the node that lives in the store. */
  function Below(sha3: Hasher, n: Node): multiset<Digest>
    decreases n, 0
  {
    match n
    case Null => multiset{}
    case Leaf(_, _) => multiset{}
    case Ext(_, child) => Here(sha3, child)
    case Branch(children, _) => HereAll(sha3, children)
  }

  /** The same with the node's own position. */
  function Here(sha3: Hasher, n: Node): multiset<Digest>
    decreases n, 1
  {
    Below(sha3, n) + Own(sha3, n)
  }

  function HereAll(sha3: Hasher, ns: seq<Node>): multiset<Digest>
    decreases ns, 0
  {
    if ns == [] then multiset{} else Here(sha3, ns[0]) + HereAll(sha3, ns[1..])
  }

  /** The root is always hashed. */
  function RootDigests(sha3: Hasher, n: Node): multiset<Digest>
  {
    Below(sha3, n) + multiset{sha3(Code(sha3, n))}
  }

  lemma {:induction false} HereAllUpdate(sha3: Hasher, ns: seq<Node>, i: nat, n: Node)
    requires i < |ns|
    ensures HereAll(sha3, ns[i := n]) + Here(sha3, ns[i]) == HereAll(sha3, ns) + Here(sha3, n)
  {
    if i == 0 {
      assert ns[0 := n][1..] == ns[1..];
    } else {
      var rest, rest' := ns[1..], ns[1..][i - 1 := n];
      assert ns[i := n][0] == ns[0] && ns[i := n][1..] == rest';
      HereAllUpdate(sha3, rest, i - 1, n);
      SumShift(Here(sha3, ns[0]), HereAll(sha3, rest'), Here(sha3, ns[i]), HereAll(sha3, rest), Here(sha3, n));
    }
  }

  lemma SumShift(a: multiset<Digest>, x: multiset<Digest>, p: multiset<Digest>,
                 y: multiset<Digest>, q: multiset<Digest>)
    requires x + p == y + q
    ensures (a + x) + p == (a + y) + q
  {
    assert (a + x) + p == a + (x + p);
    assert (a + y) + q == a + (y + q);
  }

  lemma {:induction false} HereAllNull(sha3: Hasher, ns: seq<Node>)
    requires forall i :: 0 <= i < |ns| ==> ns[i] == Null
    ensures HereAll(sha3, ns) == multiset{}
  {
    if ns != [] {
      RefShape(sha3, Null);
      HereAllNull(sha3, ns[1..]);
    }
  }

  // ---------------------------------------------------------------- stored tries

  /** Everything strictly below the node can be read from `view`. */
  ghost predicate Stored(view: map<Digest, bytes>, sha3: Hasher, n: Node)
    decreases n, 0
  {
    match n
    case Null => true
    case Leaf(_, _) => true
    case Ext(_, child) => StoredRef(view, sha3, child)
    case Branch(children, _) => forall c :: c in children ==> StoredRef(view, sha3, c)
  }

  /** The node can be read through its reference, and everything below it. */
  ghost predicate StoredRef(view: map<Digest, bytes>, sha3: Hasher, n: Node)
    decreases n, 1
  {
    && Stored(view, sha3, n)
    && (Hashed(sha3, n) ==> Holds(view, sha3, n))
  }

  ghost predicate Holds(view: map<Digest, bytes>, sha3: Hasher, n: Node)
  {
    sha3(Code(sha3, n)) in view && view[sha3(Code(sha3, n))] == Code(sha3, n)
  }

  /** Nothing that could be read is lost or changed. */
  ghost predicate Grows(view: map<Digest, bytes>, view': map<Digest, bytes>)
  {
    forall d: Digest :: d in view ==> d in view' && view'[d] == view[d]
  }

  lemma GrowsReflexive(view: map<Digest, bytes>)
    ensures Grows(view, view)
  {
  }

  lemma GrowsTransitive(view: map<Digest, bytes>, view': map<Digest, bytes>, view'': map<Digest, bytes>)
    requires Grows(view, view') && Grows(view', view'')
    ensures Grows(view, view'')
  {
  }

  lemma {:induction false} StoredGrows(view: map<Digest, bytes>, view': map<Digest, bytes>, sha3: Hasher, n: Node)
    requires Grows(view, view') && Stored(view, sha3, n)
    ensures Stored(view', sha3, n)
    decreases n
  {
    match n
    case Null =>
    case Leaf(_, _) =>
    case Ext(_, child) => StoredGrows(view, view', sha3, child);
    case Branch(children, _) =>
      forall c | c in children
        ensures StoredRef(view', sha3, c)
      {
        StoredGrows(view, view', sha3, c);
      }
  }

  /** The strings of all positions below the node that live in the store. */
  ghost predicate CodesIn(strings: iset<bytes>, sha3: Hasher, n: Node)
    decreases n, 0
  {
    match n
    case Null => true
    case Leaf(_, _) => true
    case Ext(_, child) => CodesInRef(strings, sha3, child)
    case Branch(children, _) => forall c :: c in children ==> CodesInRef(strings, sha3, c)
  }

  ghost predicate CodesInRef(strings: iset<bytes>, sha3: Hasher, n: Node)
    decreases n, 1
  {
    && CodesIn(strings, sha3, n)
    && (Hashed(sha3, n) ==> Code(sha3, n) in strings)
  }

  /** Every digest of `live` reads as one of the strings, and that string has the digest. */
  ghost predicate Readable(view: map<Digest, bytes>, sha3: Hasher, strings: iset<bytes>, live: multiset<Digest>)
  {
    forall d: Digest :: d in live ==> d in view && view[d] in strings && sha3(view[d]) == d
  }

  /** If every live digest can be read, so can the trie. */
  lemma {:induction false} LiveStored(view: map<Digest, bytes>, sha3: Hasher, strings: iset<bytes>, n: Node)
    requires CollisionFree(sha3, strings) && CodesIn(strings, sha3, n)
    requires Readable(view, sha3, strings, Below(sha3, n))
    ensures Stored(view, sha3, n)
    decreases n, 0
  {
    match n
    case Null =>
    case Leaf(_, _) =>
    case Ext(_, child) => LiveStoredRef(view, sha3, strings, child);
    case Branch(children, _) =>
      forall c | c in children
        ensures StoredRef(view, sha3, c)
      {
        HereAllContains(sha3, children, c);
        LiveStoredRef(view, sha3, strings, c);
      }
  }

  lemma {:induction false} LiveStoredRef(view: map<Digest, bytes>, sha3: Hasher, strings: iset<bytes>, n: Node)
    requires CollisionFree(sha3, strings) && CodesInRef(strings, sha3, n)
    requires Readable(view, sha3, strings, Here(sha3, n))
    ensures StoredRef(view, sha3, n)
    decreases n, 1
  {
    assert Below(sha3, n) <= Here(sha3, n);
    LiveStored(view, sha3, strings, n);
    if Hashed(sha3, n) {
      assert sha3(Code(sha3, n)) in Here(sha3, n);
    }
  }

  lemma {:induction false} HereAllContains(sha3: Hasher, ns: seq<Node>, n: Node)
    requires n in ns
    ensures Here(sha3, n) <= HereAll(sha3, ns)
  {
    if ns[0] != n {
      HereAllContains(sha3, ns[1..], n);
    }
  }

  /** A trie that can be read has its strings among those of the store. */
  lemma {:induction false} StoredCodes(view: map<Digest, bytes>, sha3: Hasher, strings: iset<bytes>, n: Node)
    requires Stored(view, sha3, n) && forall d: Digest :: d in view ==> view[d] in strings
    ensures CodesIn(strings, sha3, n)
    decreases n
  {
    match n
    case Null =>
    case Leaf(_, _) =>
    case Ext(_, child) => StoredCodes(view, sha3, strings, child);
    case Branch(children, _) =>
      forall c | c in children
        ensures CodesInRef(strings, sha3, c)
      {
        StoredCodes(view, sha3, strings, c);
      }
  }

  /** The strings that a root stands for. */
  ghost predicate RootCodesIn(strings: iset<bytes>, sha3: Hasher, n: Node)
  {
    Code(sha3, n) in strings && CodesIn(strings, sha3, n)
  }

  lemma ReadableStored(view: map<Digest, bytes>, sha3: Hasher, strings: iset<bytes>, n: Node, live: multiset<Digest>)
    requires Usable(sha3, strings) && RootCodesIn(strings, sha3, n)
    requires Readable(view, sha3, strings, RootDigests(sha3, n) + live)
    ensures Holds(view, sha3, n) && Stored(view, sha3, n)
  {
    assert sha3(Code(sha3, n)) in RootDigests(sha3, n) + live;
    forall d: Digest | d in Below(sha3, n)
      ensures d in RootDigests(sha3, n) + live
    {
    }
    LiveStored(view, sha3, strings, n);
  }

  /** Equal digests give equal codes, and equal codes equal items. */
  lemma CodeInjective(sha3: Hasher, strings: iset<bytes>, m: Node, n: Node)
    requires sha3(Code(sha3, m)) == sha3(Code(sha3, n))
    requires Usable(sha3, strings) && Code(sha3, m) in strings && Code(sha3, n) in strings
    ensures ItemOf(sha3, m) == ItemOf(sha3, n)
  {
    Rlp.DecodeEncode(ItemOf(sha3, m));
    Rlp.DecodeEncode(ItemOf(sha3, n));
  }

  // ---------------------------------------------------------------- elements

  function Elements(m: multiset<Digest>): set<Digest>
  {
    set d | d in m
  }

  lemma ElementsSum(a: multiset<Digest>, b: multiset<Digest>)
    ensures Elements(a + b) == Elements(a) + Elements(b)
  {
  }

  lemma EmptyDifference(a: set<Digest>, b: set<Digest>)
    ensures a - b == {} <==> a <= b
  {
    forall d | d in a && a - b == {}
      ensures d in b
    {
      assert d !in a - b;
    }
  }

  /** The digests of the first slots, and of one more. */
  lemma {:induction false} HereUpTo(sha3: Hasher, ns: seq<Node>, i: nat)
    requires i <= |ns|
    ensures Elements(HereAll(sha3, ns[..0])) == {}
    ensures i < |ns| ==>
              Elements(HereAll(sha3, ns[..i + 1])) == Elements(HereAll(sha3, ns[..i])) + Elements(Here(sha3, ns[i]))
    ensures i < |ns| && ns[i] == Null ==> Elements(Here(sha3, ns[i])) == {}
    decreases i
  {
    hide Here;
    if i < |ns| {
      HereAllPush(sha3, ns[..i], ns[i]);
      assert ns[..i + 1] == ns[..i] + [ns[i]];
      ElementsSum(HereAll(sha3, ns[..i]), Here(sha3, ns[i]));
      if ns[i] == Null {
        HereNull(sha3);
      }
    }
  }

  lemma HereNull(sha3: Hasher)
    ensures Here(sha3, Null) == multiset{}
  {
    RefShape(sha3, Null);
  }

  lemma {:induction false} HereAllPush(sha3: Hasher, ns: seq<Node>, n: Node)
    ensures HereAll(sha3, ns + [n]) == HereAll(sha3, ns) + Here(sha3, n)
  {
    hide Here;
    if ns == [] {
      assert [n][1..] == [] && [] + [n] == [n];
    } else {
      assert (ns + [n])[0] == ns[0] && (ns + [n])[1..] == ns[1..] + [n];
      HereAllPush(sha3, ns[1..], n);
    }
  }
}
