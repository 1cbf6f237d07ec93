/** What the trie operations do to the store, on the unfolded trie: the strings they write,
    and how the live digests change around each rewrite. */
module TrieEffects {
  import opened Bytes
  import opened HexPrefix
  import opened TrieNode
  import opened TrieMerge
  import opened TrieDelete
  import opened TrieCode
  import Rlp

  // ---------------------------------------------------------------- strings an operation writes

  ghost function Written(sha3: Hasher, n: Node): iset<bytes>
  {
    if Hashed(sha3, n) then iset{Code(sha3, n)} else iset{}
  }

  /** The strings that the split of a two-item node puts in the store, and that of an opened
      branch whose own hash is then released because the key ends there. */
  ghost function SplitWrites(sha3: Hasher, n: Node, k: Nibbles): iset<bytes>
    requires WellFormed(n) && !Descends(n, k)
  {
    var s := SharedLength(k, n.key);
    if s > 0 then Written(sha3, CleveBottom(n, s))
    else
      (if n.key == [] || (n.Ext? && |n.key| == 1) then iset{} else Written(sha3, BranchChild(n))) +
      (if k == [] then Written(sha3, BranchOut(n)) else iset{})
  }

  /** The strings that an insertion puts in the store below the node. */
  ghost function MergeWrites(sha3: Hasher, n: Node, k: Nibbles, v: bytes): iset<bytes>
    requires WellFormed(n)
    decreases |k|, if Descends(n, k) then 0 else 1
  {
    if !Descends(n, k) then SplitWrites(sha3, n, k) + MergeWrites(sha3, Split(n, k), k, v)
    else if n.Ext? then MergeAuxWrites(sha3, n.child, k[|n.key|..], v)
    else if n.Branch? && k != [] then
      assert n.children[k[0]] in n.children;
      MergeAuxWrites(sha3, n.children[k[0]], k[1..], v)
    else iset{}
  }

  ghost function MergeAuxWrites(sha3: Hasher, n: Node, k: Nibbles, v: bytes): iset<bytes>
    requires WellFormed(n)
    decreases |k|, 2
  {
    MergeWrites(sha3, n, k, v) + Written(sha3, Merge(n, k, v))
  }

  /** The strings that a removal puts in the store below the node. */
  ghost function DeleteWrites(sha3: Hasher, n: Node, k: Nibbles): iset<bytes>
    requires WellFormed(n)
    decreases n, 0
  {
    if n.Ext? && IsPrefixOf(n.key, k) then DeleteAuxWrites(sha3, n.child, k[|n.key|..])
    else if n.Branch? && k != [] then
      assert n.children[k[0]] in n.children;
      DeleteAuxWrites(sha3, n.children[k[0]], k[1..])
    else iset{}
  }

  ghost function DeleteAuxWrites(sha3: Hasher, n: Node, k: Nibbles): iset<bytes>
    requires WellFormed(n)
    decreases n, 1
  {
    DeleteWrites(sha3, n, k) + (if Delete(n, k).Some? then Written(sha3, Delete(n, k).value) else iset{})
  }

  ghost function InsertWrites(sha3: Hasher, n: Node, k: Nibbles, v: bytes): iset<bytes>
    requires WellFormed(n)
  {
    MergeWrites(sha3, n, k, v) + iset{Code(sha3, Merge(n, k, v))}
  }

  /** Removal from a normal trie. */
  ghost function AfterRemove(n: Node, k: Nibbles): Option<Node>
    requires Normal(n)
  {
    NormalWellFormed(n);
    Delete(n, k)
  }

  ghost function RemoveWrites(sha3: Hasher, n: Node, k: Nibbles): iset<bytes>
    requires Normal(n)
  {
    NormalWellFormed(n);
    DeleteWrites(sha3, n, k) + (if Delete(n, k).Some? then iset{Code(sha3, Delete(n, k).value)} else iset{})
  }

  // ---------------------------------------------------------------- digests around the rewrites

  /** A branch with one child has just that child's digests. */
  lemma OneChild(sha3: Hasher, i: nibble, child: Node)
    ensures HereAll(sha3, NoChildren()[i := child]) == Here(sha3, child)
  {
    hide Here, HereAll;
    HereAllUpdate(sha3, NoChildren(), i, child);
    HereAllNull(sha3, NoChildren());
    HereNull(sha3);
    calc {
      HereAll(sha3, NoChildren()[i := child]);
      HereAll(sha3, NoChildren()[i := child]) + Here(sha3, Null);
      HereAll(sha3, NoChildren()) + Here(sha3, child);
      Here(sha3, child);
    }
  }

  lemma CleveDigests(sha3: Hasher, n: Node, s: nat, live: multiset<Digest>)
    requires IsPair(n) && s <= |n.key|
    ensures Below(sha3, n) + live + Own(sha3, CleveBottom(n, s)) == Below(sha3, Cleve(n, s)) + live
  {
    hide Own;
    var bottom := CleveBottom(n, s);
    assert Below(sha3, bottom) == Below(sha3, n);
    assert Below(sha3, Cleve(n, s)) == Here(sha3, bottom) == Below(sha3, bottom) + Own(sha3, bottom);
  }

  /** The references of a branch with one child. */
  lemma OneChildRefs(sha3: Hasher, i: nibble, child: Node) returns (refs: seq<Rlp.Item>)
    ensures refs == Refs(sha3, NoChildren()[i := child]) && |refs| == 16
    ensures forall j :: 0 <= j < 16 ==> refs[j] == if j == i then Ref(sha3, child) else Rlp.Data([])
  {
    hide Ref;
    refs := Refs(sha3, NoChildren()[i := child]);
    NullRef(sha3);
  }

  lemma OneChildStored(view: map<Digest, bytes>, sha3: Hasher, i: nibble, child: Node)
    requires StoredRef(view, sha3, child)
    ensures Stored(view, sha3, Branch(NoChildren()[i := child], []))
    ensures forall v: bytes :: Stored(view, sha3, Branch(NoChildren(), v))
  {
    hide Hashed;
    RefShape(sha3, Null);
  }

  lemma NullStored(view: map<Digest, bytes>, sha3: Hasher)
    ensures StoredRef(view, sha3, Null)
  {
    RefShape(sha3, Null);
  }

  lemma NullRef(sha3: Hasher)
    ensures Ref(sha3, Null) == Rlp.Data([])
  {
    RefShape(sha3, Null);
  }

  /** What hangs below the new branch had been below the old node, or is the node itself. */
  lemma BranchDigests(sha3: Hasher, n: Node)
    requires IsPair(n) && n.key != []
    ensures Below(sha3, BranchOut(n)) == Here(sha3, BranchChild(n))
    ensures if n.Leaf? || |n.key| > 1 then Below(sha3, BranchChild(n)) == Below(sha3, n)
            else Here(sha3, BranchChild(n)) == Below(sha3, n)
  {
    hide Own;
    OneChild(sha3, n.key[0], BranchChild(n));
  }

  lemma HereInline(sha3: Hasher, n: Node)
    requires !Hashed(sha3, n)
    ensures Here(sha3, n) == Below(sha3, n)
  {
    hide Below;
  }

  /** Taking one child out of a branch and putting another one in, as far as digests go. */
  lemma SlotDigests(sha3: Hasher, n: Node, i: nibble, c: Node, live: multiset<Digest>)
    returns (others: multiset<Digest>)
    requires n.Branch? && |n.children| == 16
    ensures Here(sha3, n.children[i]) + others == Below(sha3, n) + live
    ensures Here(sha3, c) + others == Below(sha3, Branch(n.children[i := c], n.value)) + live
  {
    hide Here, HereAll;
    HereAllContains(sha3, n.children, n.children[i]);
    HereAllUpdate(sha3, n.children, i, c);
    others := HereAll(sha3, n.children) - Here(sha3, n.children[i]) + live;
    Swap(HereAll(sha3, n.children), Here(sha3, n.children[i]), HereAll(sha3, n.children[i := c]), Here(sha3, c), live);
  }

  lemma Swap(a: multiset<Digest>, x: multiset<Digest>, b: multiset<Digest>, y: multiset<Digest>, live: multiset<Digest>)
    requires x <= a && b + x == a + y
    ensures x + (a - x + live) == a + live
    ensures y + (a - x + live) == b + live
  {
    assert a == x + (a - x);
    assert forall d: Digest :: b[d] + x[d] == (b + x)[d] == (a + y)[d] == a[d] + y[d];
  }

  lemma KillShift(sha3: Hasher, n: Node, live: multiset<Digest>)
    ensures Here(sha3, n) + live == Below(sha3, n) + live + Own(sha3, n)
  {
    hide Own, Below;
  }

  /** With a single slot in use, the branch has just the digests of that slot. */
  lemma OnlyDigests(sha3: Hasher, children: seq<Node>, v: bytes, i: nat)
    requires |children| == 16 && i <= 16 && OnlyInUse(children, v, i)
    ensures HereAll(sha3, children) == if i < 16 then Here(sha3, children[i]) else multiset{}
    ensures Rejig(children, v) == if i < 16 then Extend([i as nibble], children[i]) else Leaf([], v)
  {
    hide Here, HereAll;
    forall j: nat | j < 16 && j != i
      ensures children[j] == Null
    {
      assert !InUse(children, v, j);
    }
    if i < 16 {
      assert children == NoChildren()[i := children[i]];
      OneChild(sha3, i as nibble, children[i]);
    } else {
      HereAllNull(sha3, children);
    }
  }

  lemma GraftDigests(sha3: Hasher, p: Nibbles, n: Node)
    requires IsPair(n)
    ensures Below(sha3, Graft(p, n)) == Below(sha3, n)
  {
    hide Here;
  }

  lemma GraftStored(view: map<Digest, bytes>, sha3: Hasher, p: Nibbles, n: Node)
    requires IsPair(n) && Stored(view, sha3, n)
    ensures Stored(view, sha3, Graft(p, n))
  {
    hide StoredRef;
  }

  /** Slot `j` is the only one in use, leaving out `except`. */
  ghost predicate SoleInUse(items: seq<Rlp.Item>, except: nat, j: nat)
    requires |items| == 17
  {
    && j < 17 && j != except && !IsEmpty(items[j])
    && forall i :: 0 <= i < 17 && i != except && i != j ==> IsEmpty(items[i])
  }

  /** The item of a branch shows which slots are in use, also when the value is left out. */
  lemma SoleSlot(sha3: Hasher, b: Node, j: nat)
    requires WellFormed(b) && b.Branch? && j <= 16
    ensures SoleInUse(Refs(sha3, b.children) + [Rlp.Data(b.value)], 255, j) <==> OnlyInUse(b.children, b.value, j)
    ensures SoleInUse(Refs(sha3, b.children) + [Rlp.Data(b.value)], 16, j) <==> OnlyInUse(b.children, [], j)
  {
    var items := Refs(sha3, b.children) + [Rlp.Data(b.value)];
    forall i: nat | i <= 16
      ensures IsEmpty(items[i]) <==> !InUse(b.children, b.value, i)
      ensures i < 16 ==> (IsEmpty(items[i]) <==> !InUse(b.children, [], i))
    {
      if i < 16 {
        assert b.children[i] in b.children;
        RefShape(sha3, b.children[i]);
      }
    }
  }

  lemma SlotOk(n: Node, k: Nibbles) returns (child: Node)
    requires WellFormed(n) && Normal(n) && n.Branch? && k != []
    ensures |n.children| == 16 && child == n.children[k[0]] && child in n.children
    ensures WellFormed(child) && Normal(child)
  {
    child := n.children[k[0]];
    assert child in n.children;
  }

  lemma SlotWellFormed(n: Node, i: nibble, c: Node)
    requires WellFormed(n) && n.Branch? && WellFormed(c)
    ensures WellFormed(Branch(n.children[i := c], n.value))
  {
  }

  /** The node leads on to a child on the way to the key. */
  predicate Forked(n: Node, k: Nibbles)
  {
    Descends(n, k) && (n.Ext? || (n.Branch? && k != []))
  }

  // ---------------------------------------------------------------- values taken for references

  /** A byte string as the digest that the source makes of it: zeros in front. */
  function Pad(v: bytes): Digest
    requires |v| <= 32
  {
    seq(32 - |v|, _ => 0) + v
  }

  /** The value, taken for a digest, is that of none of the strings. */
  ghost predicate Apart(sha3: Hasher, strings: iset<bytes>, v: bytes)
  {
    v != [] && |v| <= 32 ==> forall s: bytes :: s in strings ==> sha3(s) != Pad(v)
  }

  /** The same for the values that the removal of `k` takes for references; there are none when all
      keys have the same length. */
  ghost predicate AllApart(sha3: Hasher, strings: iset<bytes>, n: Node, k: Nibbles)
    requires WellFormed(n)
  {
    Apart(sha3, strings, LeafBefore(n, k)) && Apart(sha3, strings, LeftAlone(n, k))
  }

  ghost predicate RemoveApart(sha3: Hasher, strings: iset<bytes>, n: Node, k: Nibbles)
    requires Normal(n)
  {
    NormalWellFormed(n);
    AllApart(sha3, strings, n, k)
  }

  ghost predicate RemoveFails(n: Node, k: Nibbles)
    requires Normal(n)
  {
    NormalWellFormed(n);
    Fails(n, k)
  }

  // ---------------------------------------------------------------- branches with one slot

  /** A branch with fewer than two slots in use, as a split opens it. */
  ghost predicate Sparse(n: Node)
  {
    n.Branch? && |n.children| == 16 && !TwoInUse(n.children, n.value)
  }

  /** No digest is that of a sparse branch; such a branch never stays in a trie. */
  ghost predicate Settled(sha3: Hasher, strings: iset<bytes>, live: multiset<Digest>)
  {
    forall b: Node :: WellFormed(b) && Sparse(b) && Code(sha3, b) in strings ==> sha3(Code(sha3, b)) !in live
  }

  lemma BranchOutSparse(n: Node)
    requires IsPair(n) && (n.Ext? ==> n.key != [])
    ensures Sparse(BranchOut(n))
  {
    hide BranchChild;
    var b := BranchOut(n);
    forall i: nat, j: nat | i < j <= 16
      ensures !(InUse(b.children, b.value, i) && InUse(b.children, b.value, j))
    {
    }
  }

  /** The item shows that a branch is sparse. */
  lemma SparseItem(sha3: Hasher, m: Node, b: Node)
    requires WellFormed(m) && WellFormed(b) && Sparse(b) && ItemOf(sha3, m) == ItemOf(sha3, b)
    ensures Sparse(m)
  {
    hide ItemOf, Ref;
    ItemShape(sha3, m);
    ItemShape(sha3, b);
    BranchItem(sha3, m);
    BranchItem(sha3, b);
    var items, items' := Refs(sha3, m.children) + [Rlp.Data(m.value)], Refs(sha3, b.children) + [Rlp.Data(b.value)];
    assert items[16] == items'[16];
    forall i: nat | i <= 16
      ensures InUse(m.children, m.value, i) == InUse(b.children, b.value, i)
    {
      if i < 16 {
        assert items[i] == items'[i];
        assert m.children[i] in m.children && b.children[i] in b.children;
        RefShape(sha3, m.children[i]);
        RefShape(sha3, b.children[i]);
      }
    }
  }

  lemma SettledPart(sha3: Hasher, strings: iset<bytes>, part: multiset<Digest>, all: multiset<Digest>)
    requires Settled(sha3, strings, all) && part <= all
    ensures Settled(sha3, strings, part)
  {
    forall b: Node | WellFormed(b) && Sparse(b) && Code(sha3, b) in strings
      ensures sha3(Code(sha3, b)) !in part
    {
      assert sha3(Code(sha3, b)) !in all;
    }
  }

  lemma SettledInner(sha3: Hasher, strings: iset<bytes>, n: Node, live: multiset<Digest>)
    requires Settled(sha3, strings, Here(sha3, n) + live)
    ensures Settled(sha3, strings, Below(sha3, n) + live)
  {
    hide Settled, Below;
    SettledPart(sha3, strings, Below(sha3, n) + live, Here(sha3, n) + live);
  }

  lemma SettledSum(sha3: Hasher, strings: iset<bytes>, a: multiset<Digest>, b: multiset<Digest>)
    requires Settled(sha3, strings, a) && Settled(sha3, strings, b)
    ensures Settled(sha3, strings, a + b)
  {
  }

  /** The digest of a node that is not sparse belongs to no sparse branch. */
  lemma SettledNode(sha3: Hasher, strings: iset<bytes>, n: Node)
    requires Usable(sha3, strings) && WellFormed(n) && !Sparse(n) && Code(sha3, n) in strings
    ensures Settled(sha3, strings, multiset{sha3(Code(sha3, n))})
  {
    hide ItemOf, Code, Sparse, Usable;
    forall b: Node | WellFormed(b) && Sparse(b) && Code(sha3, b) in strings
      ensures sha3(Code(sha3, b)) != sha3(Code(sha3, n))
    {
      if sha3(Code(sha3, b)) == sha3(Code(sha3, n)) {
        CodeInjective(sha3, strings, b, n);
        SparseItem(sha3, n, b);
      }
    }
  }

  lemma SettledOwn(sha3: Hasher, strings: iset<bytes>, n: Node, live: multiset<Digest>)
    requires Usable(sha3, strings) && WellFormed(n) && !Sparse(n) && Written(sha3, n) <= strings
    requires Settled(sha3, strings, live)
    ensures Settled(sha3, strings, live + Own(sha3, n))
  {
    hide Usable, Sparse, Code, Settled;
    if Hashed(sha3, n) {
      assert Code(sha3, n) in Written(sha3, n);
      SettledNode(sha3, strings, n);
      SettledSum(sha3, strings, live, multiset{sha3(Code(sha3, n))});
    } else {
      assert live + Own(sha3, n) == live;
    }
  }

  /** The digests of a normal trie are settled. */
  lemma {:induction false} SettledBelow(sha3: Hasher, strings: iset<bytes>, n: Node)
    requires Usable(sha3, strings) && Normal(n) && CodesIn(strings, sha3, n)
    ensures Settled(sha3, strings, Below(sha3, n))
    decreases n, 0
  {
    hide Usable, Code;
    match n
    case Null =>
    case Leaf(_, _) =>
    case Ext(_, child) => SettledHere(sha3, strings, child);
    case Branch(children, _) =>
      forall c | c in children
        ensures Settled(sha3, strings, Here(sha3, c))
      {
        SettledHere(sha3, strings, c);
      }
      SettledAll(sha3, strings, children);
  }

  lemma {:induction false} SettledHere(sha3: Hasher, strings: iset<bytes>, n: Node)
    requires Usable(sha3, strings) && Normal(n) && CodesInRef(strings, sha3, n)
    ensures Settled(sha3, strings, Here(sha3, n))
    decreases n, 1
  {
    hide Usable, Code, Below, Settled;
    SettledBelow(sha3, strings, n);
    NormalWellFormed(n);
    SettledOwn(sha3, strings, n, Below(sha3, n));
  }

  lemma {:induction false} SettledAll(sha3: Hasher, strings: iset<bytes>, ns: seq<Node>)
    requires forall c :: c in ns ==> Settled(sha3, strings, Here(sha3, c))
    ensures Settled(sha3, strings, HereAll(sha3, ns))
  {
    hide Here, Settled;
    if ns == [] {
      SettledNone(sha3, strings);
    } else {
      SettledAll(sha3, strings, ns[1..]);
      SettledSum(sha3, strings, Here(sha3, ns[0]), HereAll(sha3, ns[1..]));
    }
  }

  lemma SettledNone(sha3: Hasher, strings: iset<bytes>)
    ensures Settled(sha3, strings, multiset{})
  {
  }

  lemma SettledRoot(sha3: Hasher, strings: iset<bytes>, n: Node)
    requires Usable(sha3, strings) && Normal(n) && RootCodesIn(strings, sha3, n)
    ensures Settled(sha3, strings, RootDigests(sha3, n))
  {
    hide Usable, Code, Below, Settled;
    SettledBelow(sha3, strings, n);
    NormalWellFormed(n);
    SettledNode(sha3, strings, n);
    SettledSum(sha3, strings, Below(sha3, n), multiset{sha3(Code(sha3, n))});
  }

  /** The digest of an opened branch that the key ends in is nowhere among the others. */
  ghost predicate Unshared(sha3: Hasher, n: Node, live: multiset<Digest>)
  {
    Hashed(sha3, n) ==> sha3(Code(sha3, n)) !in Below(sha3, n) + live
  }

  /** After a split the digests are still settled, and the new node leads on to a child or is
      an opened branch whose digest nothing else has. */
  lemma SplitSettled(sha3: Hasher, strings: iset<bytes>, n: Node, k: Nibbles, live: multiset<Digest>)
    requires Usable(sha3, strings) && WellFormed(n) && !Descends(n, k) && SplitWrites(sha3, n, k) <= strings
    requires Settled(sha3, strings, Below(sha3, n) + live)
    ensures Settled(sha3, strings, Below(sha3, Split(n, k)) + live)
    ensures Forked(Split(n, k), k) || Unshared(sha3, Split(n, k), live)
  {
    hide Usable, Code, Here, Below, Settled, SharedLength, Hashed, Own;
    var s := SharedLength(k, n.key);
    var r := Split(n, k);
    if s > 0 {
      CleveDigests(sha3, n, s, live);
      SettledOwn(sha3, strings, CleveBottom(n, s), Below(sha3, n) + live);
    } else {
      BranchOutSettled(sha3, strings, n, k, live);
    }
  }

  lemma BranchOutSettled(sha3: Hasher, strings: iset<bytes>, n: Node, k: Nibbles, live: multiset<Digest>)
    requires Usable(sha3, strings) && WellFormed(n) && !Descends(n, k) && SplitWrites(sha3, n, k) <= strings
    requires SharedLength(k, n.key) == 0
    requires Settled(sha3, strings, Below(sha3, n) + live)
    ensures Settled(sha3, strings, Below(sha3, BranchOut(n)) + live)
    ensures Forked(BranchOut(n), k) || Unshared(sha3, BranchOut(n), live)
  {
    hide Usable, Code, Below, Settled, Hashed;
    var r := BranchOut(n);
    assert r == Split(n, k);
    if n.key != [] {
      BranchDigests(sha3, n);
      if n.Leaf? || |n.key| > 1 {
        var child := BranchChild(n);
        SettledOwn(sha3, strings, child, Below(sha3, n) + live);
        assert Below(sha3, n) + live + Own(sha3, child) == Below(sha3, r) + live;
      }
    } else {
      BelowValue(sha3, n);
    }
    if k == [] {
      OpenedUnshared(sha3, strings, n, live);
    }
  }

  lemma BelowValue(sha3: Hasher, n: Node)
    requires n.Leaf? && n.key == []
    ensures Below(sha3, BranchOut(n)) == Below(sha3, n)
  {
    HereAllNull(sha3, NoChildren());
  }

  lemma OpenedUnshared(sha3: Hasher, strings: iset<bytes>, n: Node, live: multiset<Digest>)
    requires WellFormed(n) && IsPair(n) && Written(sha3, BranchOut(n)) <= strings
    requires Settled(sha3, strings, Below(sha3, BranchOut(n)) + live)
    ensures Unshared(sha3, BranchOut(n), live)
  {
    hide Code, Below, BranchOut, Sparse;
    BranchOutSparse(n);
    BranchOutWellFormed(n);
    if Hashed(sha3, BranchOut(n)) {
      assert Code(sha3, BranchOut(n)) in Written(sha3, BranchOut(n));
    }
  }

  lemma BranchOutWellFormed(n: Node)
    requires WellFormed(n) && IsPair(n)
    ensures WellFormed(BranchOut(n))
  {
  }

  lemma StoredSlot(view: map<Digest, bytes>, view': map<Digest, bytes>, sha3: Hasher, n: Node, i: nibble, c: Node)
    requires n.Branch? && |n.children| == 16 && Stored(view, sha3, n) && Grows(view, view')
    requires StoredRef(view', sha3, c)
    ensures Stored(view', sha3, Branch(n.children[i := c], n.value))
  {
    hide Grows;
    StoredGrows(view, view', sha3, n);
  }
}
