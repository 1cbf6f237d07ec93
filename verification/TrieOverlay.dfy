/** A trie over a disk: operations, commits and rollbacks in any order. The trie always denotes
    the current map and can be read in full; a rollback brings back the map of the last commit. */
module TrieOverlay {
  import opened Bytes
  import opened HexPrefix
  import opened TrieNode
  import opened TrieDelete
  import opened TrieRemovable
  import opened TrieCode
  import opened TrieEffects
  import opened TrieBuild
  import opened TrieHash
  import opened NodeStore
  import opened TrieDB
  import opened TrieHistory
  import YellowPaper

  datatype Action = Do(op: Op) | CommitAll | RollBack

  /** Something that is current, and what it was at the last commit. */
  datatype Saved<T> = Saved(current: T, committed: T)

  ghost predicate ActionsGiven(actions: seq<Action>)
  {
    forall a :: a in actions && a.Do? ==> Given(a.op)
  }

  ghost function MapsAfter(s: Saved<map<bytes, bytes>>, a: Action): Saved<map<bytes, bytes>>
  {
    match a
    case Do(op) => s.(current := MapAfter(s.current, op))
    case CommitAll => s.(committed := s.current)
    case RollBack => s.(current := s.committed)
  }

  ghost predicate BothNormal(s: Saved<Node>)
  {
    Normal(s.current) && Normal(s.committed)
  }

  ghost function TriesAfter(s: Saved<Node>, a: Action): (r: Saved<Node>)
    requires BothNormal(s) && (a.Do? ==> Given(a.op))
    ensures BothNormal(r)
  {
    match a
    case Do(op) => s.(current := TrieAfter(s.current, op))
    case CommitAll => s.(committed := s.current)
    case RollBack => s.(current := s.committed)
  }

  ghost function RunMaps(actions: seq<Action>): Saved<map<bytes, bytes>>
  {
    if actions == [] then Saved(map[], map[])
    else MapsAfter(RunMaps(actions[..|actions| - 1]), actions[|actions| - 1])
  }

  ghost function RunTries(actions: seq<Action>): (r: Saved<Node>)
    requires ActionsGiven(actions)
    ensures BothNormal(r)
  {
    if actions == [] then Saved(Null, Null)
    else TriesAfter(RunTries(actions[..|actions| - 1]), actions[|actions| - 1])
  }

  ghost function ActionWrites(sha3: Hasher, actions: seq<Action>): iset<bytes>
    requires ActionsGiven(actions)
  {
    if actions == [] then iset{Code(sha3, Null)}
    else
      var before, a := actions[..|actions| - 1], actions[|actions| - 1];
      ActionWrites(sha3, before) + (if a.Do? then WritesOf(sha3, RunTries(before).current, a.op) else iset{})
  }

  /** An operation works; commits and rollbacks always do. */
  ghost predicate ActionWorks(s: Saved<Node>, a: Action)
    requires BothNormal(s)
  {
    a.Do? ==> Works(s.current, a.op)
  }

  ghost predicate ActionsWork(actions: seq<Action>)
    requires ActionsGiven(actions)
  {
    forall i :: 0 <= i < |actions| ==> ActionWorks(RunTries(actions[..i]), actions[i])
  }

  ghost predicate ActionApart(sha3: Hasher, strings: iset<bytes>, s: Saved<Node>, a: Action)
    requires BothNormal(s)
  {
    a.Do? && a.op.Del? ==> RemoveApart(sha3, strings, s.current, Unpack(a.op.key))
  }

  ghost predicate ActionsApart(sha3: Hasher, strings: iset<bytes>, actions: seq<Action>)
    requires ActionsGiven(actions)
  {
    forall i :: 0 <= i < |actions| ==> ActionApart(sha3, strings, RunTries(actions[..i]), actions[i])
  }

  lemma {:induction false} RunTriesHold(actions: seq<Action>)
    requires ActionsGiven(actions)
    ensures HoldsMap(RunTries(actions).current, RunMaps(actions).current)
    ensures HoldsMap(RunTries(actions).committed, RunMaps(actions).committed)
    ensures NoEmptyValues(RunMaps(actions).current) && NoEmptyValues(RunMaps(actions).committed)
  {
    if actions != [] {
      var before, a := actions[..|actions| - 1], actions[|actions| - 1];
      RunTriesHold(before);
      if a.Do? {
        TrieAfterHolds(RunTries(before).current, RunMaps(before).current, a.op);
      }
    }
  }

  lemma {:induction false} ActionWritesUpTo(sha3: Hasher, actions: seq<Action>, i: nat)
    requires ActionsGiven(actions) && i <= |actions|
    ensures ActionWrites(sha3, actions[..i]) <= ActionWrites(sha3, actions)
    ensures Code(sha3, Null) in ActionWrites(sha3, actions)
    decreases |actions|
  {
    if i < |actions| {
      ActionWritesUpTo(sha3, actions[..|actions| - 1], i);
      assert actions[..|actions| - 1][..i] == actions[..i];
    } else {
      assert actions[..i] == actions;
      if i > 0 {
        ActionWritesUpTo(sha3, actions[..i - 1], i - 1);
      }
    }
  }

  lemma GivenUpTo(actions: seq<Action>)
    requires ActionsGiven(actions)
    ensures forall i :: 0 <= i <= |actions| ==> ActionsGiven(actions[..i])
    ensures actions[..0] == [] && RunTries([]) == Saved(Null, Null) && actions[..|actions|] == actions
  {
  }

  ghost predicate ActionsPrefixFree(actions: seq<Action>)
  {
    forall a, b :: a in actions && b in actions && a.Do? && b.Do? ==> !Before(Unpack(a.op.key), Unpack(b.op.key))
  }

  lemma {:induction false} ActionKeys(actions: seq<Action>, k: bytes) returns (a: Action)
    requires k in RunMaps(actions).current || k in RunMaps(actions).committed
    ensures a in actions && a.Do? && a.op.key == k
  {
    a := actions[|actions| - 1];
    if !a.Do? || a.op.key != k {
      a := ActionKeys(actions[..|actions| - 1], k);
    }
  }

  /** When no key is the beginning of another, every removal works, and takes no value for a reference. */
  lemma PrefixFreeActions(sha3: Hasher, strings: iset<bytes>, actions: seq<Action>)
    requires ActionsGiven(actions) && ActionsPrefixFree(actions)
    ensures ActionsWork(actions) && ActionsApart(sha3, strings, actions)
  {
    hide Stops, LeafBefore, LeftAlone, Before, Normal, WellFormed, RunTries, RunMaps;
    GivenUpTo(actions);
    forall i | 0 <= i < |actions|
      ensures ActionWorks(RunTries(actions[..i]), actions[i])
      ensures ActionApart(sha3, strings, RunTries(actions[..i]), actions[i])
    {
      var n := RunTries(actions[..i]).current;
      NormalWellFormed(n);
      if actions[i].Do? {
        var k := Unpack(actions[i].op.key);
        forall p: Nibbles | Lookup(n, p) != []
          ensures !Before(p, k) && !Before(k, p)
        {
          RunTriesHold(actions[..i]);
          var key: bytes :| key in RunMaps(actions[..i]).current && Unpack(key) == p;
          var a := ActionKeys(actions[..i], key);
          assert a in actions && actions[i] in actions;
        }
        FreeWorks(n, k);
      }
    }
  }

  /** What is kept for a rollback: the digest of the last commit, whose trie is on disk. */
  ghost predicate Recoverable(t: GenericTrieDB, committedRoot: Digest, committed: Node)
    reads t, t.db
  {
    && committedRoot == t.sha3(Code(t.sha3, committed))
    && RootCodesIn(t.strings, t.sha3, committed)
    && t.Durable(RootDigests(t.sha3, committed))
    && t.db.disk.Some?
  }

  /** Performs one action. A removal that goes wrong leaves the trie readable, and the last commit
      recoverable. */
  method Act(t: GenericTrieDB, a: Action, committedRoot: Digest, ghost s: Saved<Node>)
    returns (ok: bool, savedRoot: Digest)
    requires t.Valid() && t.Exact(multiset{}) && t.tree == s.current && BothNormal(s)
    requires Recoverable(t, committedRoot, s.committed) && Code(t.sha3, Null) in t.strings
    requires a.Do? ==> Given(a.op) && WritesOf(t.sha3, t.tree, a.op) <= t.strings
    requires ActionApart(t.sha3, t.strings, s, a)
    modifies t, t.db
    ensures t.Valid() && ok == ActionWorks(s, a)
    ensures if ok then t.Exact(multiset{}) && t.tree == TriesAfter(s, a).current else t.tree == s.current
    ensures Recoverable(t, savedRoot, if ok then TriesAfter(s, a).committed else s.committed)
  {
    hide Sound, View, Usable, Counted, Normal, Works;
    savedRoot := committedRoot;
    ok := true;
    match a
    case Do(op) =>
      SettledNone(t.sha3, t.strings);
      ok := Step(t, op, multiset{}, true);
    case CommitAll =>
      t.Commit(multiset{});
      assert RootDigests(t.sha3, t.tree) + multiset{} == RootDigests(t.sha3, t.tree);
      t.CodesStored();
      savedRoot := t.root;
    case RollBack =>
      assert RootDigests(t.sha3, s.committed) + multiset{} == RootDigests(t.sha3, s.committed);
      t.Rollback(committedRoot, s.committed, multiset{});
  }

  /** What the next action does, and that its strings are among those of the whole run. */
  lemma NextAction(sha3: Hasher, actions: seq<Action>, i: nat)
    requires ActionsGiven(actions) && i < |actions|
    ensures RunTries(actions[..i + 1]) == TriesAfter(RunTries(actions[..i]), actions[i])
    ensures actions[i].Do? ==> Given(actions[i].op)
    ensures actions[i].Do? ==>
              WritesOf(sha3, RunTries(actions[..i]).current, actions[i].op) <= ActionWrites(sha3, actions)
  {
    hide TriesAfter, WritesOf;
    ActionWritesUpTo(sha3, actions, i + 1);
    assert actions[..i + 1][..i] == actions[..i];
  }

  /** Opens an empty trie on a disk and commits it. */
  method Open(disk: Disk, sha3: Hasher, ghost strings: iset<bytes>) returns (t: GenericTrieDB, saved: Digest)
    requires Code(sha3, Null) in strings && Usable(sha3, strings) && Sound(map[], Some(disk), sha3, strings)
    ensures fresh(t) && fresh(t.db) && t.sha3 == sha3 && t.strings == strings
    ensures t.Valid() && t.tree == Null && t.Exact(multiset{}) && Recoverable(t, saved, Null)
  {
    hide Sound, View, Usable;
    var db := new OverlayDB(Some(disk));
    t := new GenericTrieDB(db, sha3, strings);
    t.Init(multiset{}, true);
    t.Commit(multiset{});
    t.CodesStored();
    saved := t.root;
    assert RootDigests(sha3, Null) + multiset{} == RootDigests(sha3, Null);
  }

  /** Opens an empty trie on a disk, commits it, and performs the actions in order, up to the first
      removal that goes wrong. */
  method RunOverlay(disk: Disk, sha3: Hasher, actions: seq<Action>, ghost strings: iset<bytes>)
    returns (t: GenericTrieDB, done: nat, saved: Digest)
    requires ActionsGiven(actions) && ActionWrites(sha3, actions) <= strings && ActionsApart(sha3, strings, actions)
    requires Usable(sha3, strings) && Sound(map[], Some(disk), sha3, strings)
    ensures done <= |actions| && (done == |actions| <==> ActionsWork(actions))
    ensures done < |actions| ==> !ActionWorks(RunTries(actions[..done]), actions[done])
    ensures t.Valid() && t.tree == RunTries(actions[..done]).current
    ensures HoldsMap(t.tree, RunMaps(actions[..done]).current)
    ensures done == |actions| ==> t.Exact(multiset{})
    ensures Recoverable(t, saved, RunTries(actions[..done]).committed)
    ensures HoldsMap(RunTries(actions[..done]).committed, RunMaps(actions[..done]).committed)
    ensures t.root == YellowPaper.Root(sha3, RunMaps(actions[..done]).current)
    ensures saved == YellowPaper.Root(sha3, RunMaps(actions[..done]).committed)
  {
    hide YellowPaper.Root, YellowPaper.Digests, RootDigests, Code;
    hide Sound, View, Usable, Recoverable, TriesAfter, ActionWorks, ActionApart, ActionsGiven, RunTries, RunMaps,
         HoldsMap, WritesOf, ActionWrites, Given, GenericTrieDB.Valid, GenericTrieDB.Exact;
    GivenUpTo(actions);
    ActionWritesUpTo(sha3, actions, 0);
    t, saved := Open(disk, sha3, strings);
    done := 0;
    while done < |actions|
      invariant done <= |actions| && t.sha3 == sha3 && t.strings == strings && fresh(t) && fresh(t.db)
      invariant t.Valid() && t.Exact(multiset{}) && t.tree == RunTries(actions[..done]).current
      invariant forall i :: 0 <= i < done ==> ActionWorks(RunTries(actions[..i]), actions[i])
      invariant Recoverable(t, saved, RunTries(actions[..done]).committed)
    {
      NextAction(sha3, actions, done);
      var ok;
      ok, saved := Act(t, actions[done], saved, RunTries(actions[..done]));
      if !ok {
        break;
      }
      done := done + 1;
    }
    RunTriesHold(actions[..done]);
    YellowPaper.NormalIsRoot(sha3, t.tree, RunMaps(actions[..done]).current);
    YellowPaper.NormalIsRoot(sha3, RunTries(actions[..done]).committed, RunMaps(actions[..done]).committed);
    RootsAre(t, saved, RunTries(actions[..done]).committed);
  }

  lemma RootsAre(t: GenericTrieDB, saved: Digest, committed: Node)
    requires t.Valid() && Recoverable(t, saved, committed)
    ensures t.root == t.sha3(Code(t.sha3, t.tree)) && saved == t.sha3(Code(t.sha3, committed))
  {
  }
}
