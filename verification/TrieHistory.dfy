/** Whole runs of a trie: the root depends only on the map, and the counts are exact. A run goes on
    until a removal goes wrong; with keys of which none is the beginning of another, none does. */
module TrieHistory {
  import opened Bytes
  import opened HexPrefix
  import opened TrieNode
  import opened TrieMerge
  import opened TrieDelete
  import opened TrieRemovable
  import opened TrieCode
  import opened TrieEffects
  import opened TrieBuild
  import opened TrieHash
  import opened NodeStore
  import opened TrieDB
  import YellowPaper

  datatype Op = Put(key: bytes, value: bytes) | Del(key: bytes)

  /** The map after an operation. */
  function MapAfter(m: map<bytes, bytes>, op: Op): map<bytes, bytes>
  {
    match op
    case Put(k, v) => m[k := v]
    case Del(k) => m - {k}
  }

  /** An empty value is never put. */
  predicate Given(op: Op)
  {
    op.Put? ==> op.value != []
  }

  ghost predicate AllGiven(ops: seq<Op>)
  {
    forall op :: op in ops ==> Given(op)
  }

  ghost function TrieAfter(n: Node, op: Op): (r: Node)
    requires Normal(n) && Given(op)
    ensures Normal(r)
  {
    NormalWellFormed(n);
    match op
    case Put(k, v) =>
      MergeNormal(n, Unpack(k), v);
      Merge(n, Unpack(k), v)
    case Del(k) =>
      DeleteNormal(n, Unpack(k));
      var r := AfterRemove(n, Unpack(k));
      if r.Some? then r.value else n
  }

  ghost function WritesOf(sha3: Hasher, n: Node, op: Op): iset<bytes>
    requires Normal(n)
  {
    NormalWellFormed(n);
    match op
    case Put(k, v) => InsertWrites(sha3, n, Unpack(k), v)
    case Del(k) => RemoveWrites(sha3, n, Unpack(k))
  }

  ghost function RunMap(ops: seq<Op>): map<bytes, bytes>
  {
    if ops == [] then map[] else MapAfter(RunMap(ops[..|ops| - 1]), ops[|ops| - 1])
  }

  ghost function RunTrie(ops: seq<Op>): (n: Node)
    requires AllGiven(ops)
    ensures Normal(n)
  {
    if ops == [] then Null else TrieAfter(RunTrie(ops[..|ops| - 1]), ops[|ops| - 1])
  }

  /** All strings that the run puts in the store. */
  ghost function RunWrites(sha3: Hasher, ops: seq<Op>): iset<bytes>
    requires AllGiven(ops)
  {
    if ops == [] then iset{Code(sha3, Null)}
    else RunWrites(sha3, ops[..|ops| - 1]) + WritesOf(sha3, RunTrie(ops[..|ops| - 1]), ops[|ops| - 1])
  }

  ghost predicate NoEmptyValues(m: map<bytes, bytes>)
  {
    forall k: bytes :: k in m ==> m[k] != []
  }

  // ---------------------------------------------------------------- the map of a run

  /** An operation changes the trie as it changes the map. */
  lemma TrieAfterHolds(n: Node, m: map<bytes, bytes>, op: Op)
    requires Normal(n) && Given(op) && HoldsMap(n, m) && NoEmptyValues(m)
    ensures HoldsMap(TrieAfter(n, op), MapAfter(m, op)) && NoEmptyValues(MapAfter(m, op))
  {
    hide TrieAfter, Normal;
    var r, m' := TrieAfter(n, op), MapAfter(m, op);
    forall k: bytes | k in m'
      ensures Lookup(r, Unpack(k)) == m'[k]
    {
      AfterLookup(n, op, Unpack(k));
      if Unpack(k) == Unpack(op.key) {
        UnpackInjective(k, op.key);
      }
    }
    forall q: Nibbles | Lookup(r, q) != []
      ensures exists k: bytes :: k in m' && Unpack(k) == q
    {
      AfterLookup(n, op, q);
      if q == Unpack(op.key) {
        assert op.key in m';
      } else {
        var k: bytes :| k in m && Unpack(k) == q;
        assert k in m';
      }
    }
  }

  lemma AfterLookup(n: Node, op: Op, q: Nibbles)
    requires Normal(n) && Given(op)
    ensures Lookup(TrieAfter(n, op), q) ==
            if q == Unpack(op.key) then (if op.Put? then op.value else []) else Lookup(n, q)
  {
    NormalWellFormed(n);
    if op.Put? {
      MergeLookup(n, Unpack(op.key), op.value, q);
    } else {
      DeleteLookup(n, Unpack(op.key), q);
    }
  }

  lemma {:induction false} RunHolds(ops: seq<Op>)
    requires AllGiven(ops)
    ensures HoldsMap(RunTrie(ops), RunMap(ops)) && NoEmptyValues(RunMap(ops))
  {
    if ops != [] {
      RunHolds(ops[..|ops| - 1]);
      TrieAfterHolds(RunTrie(ops[..|ops| - 1]), RunMap(ops[..|ops| - 1]), ops[|ops| - 1]);
    }
  }

  /** History independence: runs with the same final map end in the same trie. */
  lemma SameMapSameTrie(ops: seq<Op>, ops': seq<Op>)
    requires AllGiven(ops) && AllGiven(ops') && RunMap(ops) == RunMap(ops')
    ensures RunTrie(ops) == RunTrie(ops')
  {
    RunHolds(ops);
    RunHolds(ops');
    HoldsUnique(RunTrie(ops), RunTrie(ops'), RunMap(ops));
  }

  lemma HoldsUnique(n: Node, n': Node, m: map<bytes, bytes>)
    requires Normal(n) && Normal(n') && HoldsMap(n, m) && HoldsMap(n', m)
    ensures n == n'
  {
    forall q: Nibbles
      ensures Lookup(n, q) == Lookup(n', q)
    {
      if k: bytes :| k in m && Unpack(k) == q {
        assert Lookup(n, Unpack(k)) == m[k] == Lookup(n', Unpack(k));
      }
    }
    NormalUnique(n, n');
  }

  // ---------------------------------------------------------------- removals that work

  /** A removal works; an insertion always does. */
  ghost predicate Works(n: Node, op: Op)
    requires Normal(n)
  {
    op.Del? ==> !RemoveFails(n, Unpack(op.key))
  }

  ghost predicate RunWorks(ops: seq<Op>)
    requires AllGiven(ops)
  {
    forall i :: 0 <= i < |ops| ==> Works(RunTrie(ops[..i]), ops[i])
  }

  /** No value that a removal of the run takes for a digest is that of one of the strings. */
  ghost predicate RunApart(sha3: Hasher, strings: iset<bytes>, ops: seq<Op>)
    requires AllGiven(ops)
  {
    forall i :: 0 <= i < |ops| && ops[i].Del? ==> RemoveApart(sha3, strings, RunTrie(ops[..i]), Unpack(ops[i].key))
  }

  ghost predicate PrefixFree(ops: seq<Op>)
  {
    forall a, b :: a in ops && b in ops ==> !Before(Unpack(a.key), Unpack(b.key))
  }

  lemma {:induction false} MapKeys(ops: seq<Op>, k: bytes) returns (op: Op)
    requires k in RunMap(ops)
    ensures op in ops && op.key == k
  {
    op := ops[|ops| - 1];
    if op.key != k {
      op := MapKeys(ops[..|ops| - 1], k);
    }
  }

  /** A key of the trie is the key of an operation. */
  lemma TrieKey(ops: seq<Op>, i: nat, p: Nibbles) returns (op: Op)
    requires AllGiven(ops) && i <= |ops| && Lookup(RunTrie(ops[..i]), p) != []
    ensures op in ops && Unpack(op.key) == p
  {
    RunHolds(ops[..i]);
    var k: bytes :| k in RunMap(ops[..i]) && Unpack(k) == p;
    op := MapKeys(ops[..i], k);
  }

  /** When no key is the beginning of another, every removal works, and takes no value for a reference. */
  lemma PrefixFreeRun(sha3: Hasher, strings: iset<bytes>, ops: seq<Op>)
    requires AllGiven(ops) && PrefixFree(ops)
    ensures RunWorks(ops) && RunApart(sha3, strings, ops)
  {
    hide Stops, LeafBefore, LeftAlone, Before, Normal, WellFormed, RunTrie;
    forall i | 0 <= i < |ops|
      ensures Works(RunTrie(ops[..i]), ops[i])
      ensures ops[i].Del? ==> RemoveApart(sha3, strings, RunTrie(ops[..i]), Unpack(ops[i].key))
    {
      var n, k := RunTrie(ops[..i]), Unpack(ops[i].key);
      NormalWellFormed(n);
      forall p: Nibbles | Lookup(n, p) != []
        ensures !Before(p, k) && !Before(k, p)
      {
        var op := TrieKey(ops, i, p);
        assert op in ops && ops[i] in ops;
      }
      FreeWorks(n, k);
    }
  }

  /** Keys of one length are such keys. */
  lemma EqualLengthPrefixFree(ops: seq<Op>, len: nat)
    requires forall op :: op in ops ==> |op.key| == len
    ensures PrefixFree(ops)
  {
    forall a, b | a in ops && b in ops
      ensures !Before(Unpack(a.key), Unpack(b.key))
    {
      assert |Unpack(a.key)| == 2 * len == |Unpack(b.key)|;
    }
  }

  // ---------------------------------------------------------------- runs of the program

  /** Performs one operation. */
  method Step(t: GenericTrieDB, op: Op, ghost live: multiset<Digest>, ghost exact: bool) returns (ok: bool)
    requires t.Valid() && Given(op) && WritesOf(t.sha3, t.tree, op) <= t.strings
    requires op.Del? ==> RemoveApart(t.sha3, t.strings, t.tree, Unpack(op.key))
    requires exact ==> t.Exact(live) && Settled(t.sha3, t.strings, live)
    modifies t, t.db`main
    ensures t.Valid() && ok == Works(old(t.tree), op)
    ensures t.tree == if ok then TrieAfter(old(t.tree), op) else old(t.tree)
    ensures exact && ok ==> t.Exact(live)
  {
    ok := true;
    NormalWellFormed(t.tree);
    match op
    case Put(k, v) => t.Insert(k, v, live, exact);
    case Del(k) => ok := t.Remove(k, live, exact);
  }

  /** Starts with the empty trie and performs the operations, up to the first that goes wrong. */
  method Run(db: OverlayDB, sha3: Hasher, ops: seq<Op>,
             ghost strings: iset<bytes>, ghost live: multiset<Digest>, ghost exact: bool)
    returns (t: GenericTrieDB, done: nat)
    requires AllGiven(ops) && RunWrites(sha3, ops) <= strings && RunApart(sha3, strings, ops)
    requires Usable(sha3, strings) && !db.enforceRefs && Sound(db.main, db.disk, sha3, strings)
    requires exact ==> Counted(db.main, db.disk, live) && Settled(sha3, strings, live)
    modifies db`main
    ensures fresh(t) && t.db == db && t.sha3 == sha3 && t.strings == strings
    ensures done <= |ops| && (done == |ops| <==> RunWorks(ops))
    ensures done < |ops| ==> !Works(RunTrie(ops[..done]), ops[done])
    ensures t.Valid() && t.tree == RunTrie(ops[..done])
    ensures exact && done == |ops| ==> t.Exact(live)
  {
    hide Sound, Usable, Counted, Settled, AllGiven, RunTrie, RunWrites, WritesOf, Works, RemoveApart,
         GenericTrieDB.Valid, GenericTrieDB.Exact;
    t := new GenericTrieDB(db, sha3, strings);
    GivenUpTo(ops);
    WritesUpTo(sha3, ops, 0);
    WritesStart(sha3, ops);
    t.Init(live, exact);
    done := 0;
    while done < |ops|
      invariant done <= |ops| && t.db == db && t.sha3 == sha3 && t.strings == strings && fresh(t)
      invariant t.Valid() && t.tree == RunTrie(ops[..done])
      invariant forall i :: 0 <= i < done ==> Works(RunTrie(ops[..i]), ops[i])
      invariant exact ==> t.Exact(live)
    {
      NextOp(sha3, ops, done);
      var ok := Step(t, ops[done], live, exact);
      if !ok {
        return;
      }
      done := done + 1;
    }
  }

  lemma GivenUpTo(ops: seq<Op>)
    requires AllGiven(ops)
    ensures forall i :: 0 <= i <= |ops| ==> AllGiven(ops[..i])
    ensures ops[..0] == [] && RunTrie([]) == Null && ops[..|ops|] == ops
  {
  }

  lemma NextOp(sha3: Hasher, ops: seq<Op>, i: nat)
    requires AllGiven(ops) && i < |ops|
    ensures Given(ops[i]) && RunTrie(ops[..i + 1]) == TrieAfter(RunTrie(ops[..i]), ops[i])
    ensures WritesOf(sha3, RunTrie(ops[..i]), ops[i]) <= RunWrites(sha3, ops)
  {
    hide TrieAfter, WritesOf;
    WritesUpTo(sha3, ops, i + 1);
    assert ops[..i + 1][..i] == ops[..i];
  }

  lemma {:induction false} WritesUpTo(sha3: Hasher, ops: seq<Op>, i: nat)
    requires AllGiven(ops) && i <= |ops|
    ensures RunWrites(sha3, ops[..i]) <= RunWrites(sha3, ops)
    ensures Code(sha3, Null) in RunWrites(sha3, ops[..i])
    decreases |ops|
  {
    if i < |ops| {
      WritesUpTo(sha3, ops[..|ops| - 1], i);
      assert ops[..|ops| - 1][..i] == ops[..i];
    } else {
      assert ops[..i] == ops;
    }
    WritesStart(sha3, ops[..i]);
  }

  lemma {:induction false} WritesStart(sha3: Hasher, ops: seq<Op>)
    requires AllGiven(ops)
    ensures Code(sha3, Null) in RunWrites(sha3, ops)
  {
    if ops != [] {
      WritesStart(sha3, ops[..|ops| - 1]);
    }
  }

  /** The incremental root and the root from scratch: the same digest, for every run that works. */
  method RootTwice(sha3: Hasher, ops: seq<Op>, m: map<bytes, bytes>)
    returns (ok: bool, incremental: Digest, scratch: Digest)
    requires AllGiven(ops) && m == RunMap(ops)
    requires Usable(sha3, RunWrites(sha3, ops)) && RunApart(sha3, RunWrites(sha3, ops), ops)
    ensures ok <==> RunWorks(ops)
    ensures ok ==> incremental == scratch
    ensures scratch == YellowPaper.Root(sha3, m)
  {
    hide YellowPaper.Root, YellowPaper.Digests, RootDigests, RunTrie, RunMap, HoldsMap, EntriesOf, Sorted, Usable,
         TrieOf, RunWrites, RunApart, AllGiven;
    var db := new OverlayDB(None);
    var t, done := Run(db, sha3, ops, RunWrites(sha3, ops), multiset{}, false);
    ok := done == |ops|;
    incremental := t.root;
    ghost var hex;
    scratch, hex := Hash256(sha3, m);
    if ok {
      assert ops[..done] == ops;
      RunHolds(ops);
      YellowPaper.NormalIsRoot(sha3, t.tree, m);
    }
  }

  /** The counts after a run over a plain memory store are exactly the multiplicities. */
  method CountsAfterRun(sha3: Hasher, ops: seq<Op>) returns (ok: bool, db: OverlayDB, clean: bool)
    requires AllGiven(ops)
    requires Usable(sha3, RunWrites(sha3, ops)) && RunApart(sha3, RunWrites(sha3, ops), ops)
    ensures fresh(db)
    ensures ok <==> RunWorks(ops)
    ensures ok ==> clean && forall d: Digest :: CountOf(db.main, d) == RootDigests(sha3, RunTrie(ops))[d]
    ensures ok ==> forall d: Digest :: CountOf(db.main, d) == YellowPaper.Digests(sha3, RunMap(ops))[d]
  {
    hide YellowPaper.Digests;
    RunHolds(ops);
    YellowPaper.NormalIsRoot(sha3, RunTrie(ops), RunMap(ops));
    db := new OverlayDB(None);
    SettledNone(sha3, RunWrites(sha3, ops));
    var t, done := Run(db, sha3, ops, RunWrites(sha3, ops), multiset{}, true);
    ok := done == |ops|;
    WritesStart(sha3, ops);
    clean := t.Check(true);
    assert ok ==> ops[..done] == ops;
    assert RootDigests(sha3, t.tree) + multiset{} == RootDigests(sha3, t.tree);
  }
}
