/** The cursor over a trie: a stack machine that visits the entries in order. */
module TrieCursor {
  import opened Bytes
  import opened HexPrefix
  import opened TrieNode
  import opened TrieCode
  import opened TrieBuild
  import opened TrieEntries
  import opened NodeStore
  import opened TrieDB
  import Rlp

  // The values of a frame's child field, besides the slots 0 to 15.
  const ENTERING: nat := 255
  const AT_VALUE: nat := 16
  const EXITING: nat := 17

  /** A node on the way: its item, its key in hex-prefix form, and where the visit stands. */
  datatype Frame = Frame(item: Rlp.Item, key: bytes, child: nat)

  /** The order of the visit: 16, 0, 1, ..., 15, 17. */
  function NextChild(c: nat): nat
  {
    if c == 16 then 0 else if c == 15 then 17 else c + 1
  }

  // ---------------------------------------------------------------- what is still to come

  /** What a frame stands for: a node at a key. */
  datatype Spot = Spot(node: Node, key: Nibbles, child: nat)

  ghost predicate SpotOk(s: Spot)
  {
    && Normal(s.node) && WellFormed(s.node)
    && (s.child == ENTERING || (s.node.Leaf? && s.child == 0) || (s.node.Branch? && s.child <= 16))
  }

  /** The entries strictly after the place where the visit of the node stands. */
  ghost function After(s: Spot): seq<Entry>
    requires SpotOk(s)
  {
    if s.child == ENTERING then Entries(s.node, s.key)
    else if s.node.Leaf? then []
    else SlotEntries(s.node.children, s.key, if s.child == AT_VALUE then 0 else s.child + 1)
  }

  ghost predicate SpotsOk(spots: seq<Spot>)
  {
    forall s :: s in spots ==> SpotOk(s)
  }

  /** The entries strictly after the place where the whole visit stands. */
  ghost function Rest(spots: seq<Spot>): seq<Entry>
    requires SpotsOk(spots)
  {
    if spots == [] then [] else After(spots[|spots| - 1]) + Rest(spots[..|spots| - 1])
  }

  /** The entry at which the visit stands, if it stands at one. */
  ghost predicate StandsAt(spots: seq<Spot>, x: Entry)
  {
    && spots != []
    && var s := spots[|spots| - 1];
       && (s.node.Leaf? || s.node.Branch?) && x == Entry(s.key, s.node.value)
       && s.child == if s.node.Leaf? then 0 else AT_VALUE
  }

  // ---------------------------------------------------------------- how much is still to do

  function Cost(n: Node): nat
    decreases n, 0
  {
    match n
    case Null => 1
    case Leaf(_, _) => 1
    case Ext(_, child) => 1 + Cost(child)
    case Branch(children, _) => 2 + SlotCost(children, 0)
  }

  function SlotCost(children: seq<Node>, i: nat): nat
    requires i <= |children|
    decreases children, |children| - i
  {
    if i == |children| then 0 else Cost(children[i]) + 2 + SlotCost(children, i + 1)
  }

  ghost function SpotCost(s: Spot): nat
    requires SpotOk(s)
  {
    if s.child == ENTERING then Cost(s.node) + 1
    else if s.node.Leaf? then 1
    else 1 + SlotCost(s.node.children, if s.child == AT_VALUE then 0 else s.child + 1)
  }

  ghost function TotalCost(spots: seq<Spot>): nat
    requires SpotsOk(spots)
  {
    if spots == [] then 0 else SpotCost(spots[|spots| - 1]) + TotalCost(spots[..|spots| - 1])
  }

  lemma PushSpot(spots: seq<Spot>, s: Spot)
    requires SpotsOk(spots) && SpotOk(s)
    ensures SpotsOk(spots + [s])
    ensures Rest(spots + [s]) == After(s) + Rest(spots)
    ensures TotalCost(spots + [s]) == SpotCost(s) + TotalCost(spots)
  {
    assert (spots + [s])[..|spots|] == spots;
  }

  // ---------------------------------------------------------------- scanning a branch

  /** The entries of a branch from slot `c` on, that slot included. */
  ghost function From(n: Node, p: Nibbles, c: nat): seq<Entry>
    requires n.Branch? && |n.children| == 16 && c <= 17
  {
    if c == AT_VALUE then Entries(n, p)
    else if c == EXITING then []
    else SlotEntries(n.children, p, c)
  }

  predicate SlotEmpty(n: Node, c: nat)
    requires n.Branch? && |n.children| == 16 && c <= 16
  {
    if c == AT_VALUE then n.value == [] else n.children[c] == Null
  }

  /** An empty slot contributes nothing. */
  lemma SkipSlot(n: Node, p: Nibbles, c: nat)
    requires n.Branch? && |n.children| == 16 && c <= 16 && SlotEmpty(n, c)
    ensures From(n, p, NextChild(c)) == From(n, p, c)
  {
    assert SlotEntries(n.children, p, 16) == [];
    if c < 16 {
      assert Entries(n.children[c], p + [c as nibble]) == [];
    } else {
      assert [] + SlotEntries(n.children, p, 0) == SlotEntries(n.children, p, 0);
    }
  }

  lemma SlotCostDrops(children: seq<Node>, i: nat, j: nat)
    requires i <= j <= |children|
    ensures SlotCost(children, j) <= SlotCost(children, i)
    decreases j - i
  {
    if i < j {
      SlotCostDrops(children, i + 1, j);
    }
  }

  class Cursor {
    const trie: GenericTrieDB
    var attached: bool
    var trail: seq<Frame>
    ghost var spots: seq<Spot>

    /** Every frame shows its node, and the node can be read. */
    ghost predicate FrameOk(i: nat)
      requires i < |trail| && i < |spots|
      reads this, trie, trie.db
    {
      && SpotOk(spots[i])
      && trail[i] == Frame(ItemOf(trie.sha3, spots[i].node), Encode(spots[i].key, false), spots[i].child)
      && Stored(trie.Visible(), trie.sha3, spots[i].node)
    }

    ghost predicate Valid()
      reads this, trie, trie.db
    {
      && trie.StoreOk()
      && |trail| == |spots|
      && SpotsOk(spots)
      && forall i: nat :: i < |trail| ==> FrameOk(i)
    }

    /** The frames below the one on top. */
    ghost function Base(): seq<Spot>
      requires spots != []
      reads this
    {
      spots[..|spots| - 1]
    }

    ghost function Top(): Spot
      requires spots != []
      reads this
    {
      spots[|spots| - 1]
    }

    /** The visit stands at the `i`-th entry of the trie, or off its end. */
    ghost predicate Placed(i: nat)
      reads this, trie
    {
      var all := Entries(trie.tree, []);
      && SpotsOk(spots)
      && i <= |all|
      && if i == |all| then spots == [] && !attached
         else StandsAt(spots, all[i]) && Rest(spots) == all[i + 1..]
    }

    lemma PlacedInRange(i: nat)
      requires Valid() && Placed(i)
      ensures i <= |Entries(trie.tree, [])| && (|trail| == 0 <==> i == |Entries(trie.tree, [])|)
      ensures |trail| > 0 ==>
                StandsAt(spots, Entries(trie.tree, [])[i]) && Rest(spots) == Entries(trie.tree, [])[i + 1..]
    {
      hide FrameOk, Entries, Rest;
    }

    /** begin: the first entry. */
    constructor Begin(trie: GenericTrieDB)
      requires trie.Valid()
      ensures this.trie == trie && Valid() && Placed(0)
    {
      this.trie := trie;
      attached := true;
      trail := [];
      spots := [];
      new;
      Start();
      hide FrameOk, Entries, Rest, StandsAt;
      ghost var all := Entries(trie.tree, []);
      RestAtRoot(trie.tree);
      Next();
      assert all != [] ==> all[1..] == all[0 + 1..];
    }

    /** lower_bound: the first entry whose key is not before the given one. */
    constructor LowerBound(trie: GenericTrieDB, key: bytes)
      requires trie.Valid()
      ensures this.trie == trie && Valid()
      ensures exists i: nat :: IsLowerBound(Entries(trie.tree, []), i, Unpack(key)) && Placed(i)
    {
      this.trie := trie;
      attached := true;
      trail := [];
      spots := [];
      new;
      Start();
      NextFrom(Unpack(key));
    }

    /** A frame at the root, just entering. */
    method Start()
      requires trie.Valid() && trail == [] && spots == []
      modifies this
      ensures Valid() && attached == old(attached)
      ensures spots == [Spot(trie.tree, [], ENTERING)]
    {
      hide ItemOf, Stored;
      NormalWellFormed(trie.tree);
      EmptyKey();
      var item := trie.Node(trie.root, trie.tree);
      Push(item, [0], ENTERING, Spot(trie.tree, [], ENTERING));
    }

    /** The entry at which the visit stands: whole bytes of key, and the value. */
    method At(ghost x: Entry) returns (key: bytes, value: bytes)
      requires Valid() && StandsAt(spots, x) && |x.key| % 2 == 0
      ensures Unpack(key) == x.key && value == x.value
    {
      hide Stored, Encode, Normal;
      var b := trail[|trail| - 1];
      assert FrameOk(|trail| - 1);
      WholeKey(x.key);
      assert b.key[0] / 16 % 2 == 0;
      ItemShape(trie.sha3, Top().node);
      key := b.key[1..];
      if |b.item.items| == 2 {
        value := b.item.items[1].data;
      } else {
        value := b.item.items[16].data;
      }
    }

    /** Without a flag, an even key is its hex-prefix form without the first byte. */
    lemma WholeKey(k: Nibbles)
      requires |k| % 2 == 0
      ensures Encode(k, false)[0] == 0 && Unpack(Encode(k, false)[1..]) == k
    {
      var all := Prefix(false, false) + k;
      UnpackPack(all);
      var hpe := Encode(k, false);
      assert Unpack(hpe)[0] == 0 && Unpack(hpe)[1] == 0;
      assert Unpack(hpe)[2..] == k;
      assert Unpack(hpe[1..]) == Unpack(hpe)[2..];
    }

    /** One null byte is the hex-prefix form of the empty key. */
    lemma EmptyKey()
      ensures Encode([], false) == [0]
    {
      PackPrefix(false, false);
      assert Prefix(false, false) + [] == Prefix(false, false);
    }

    method Push(item: Rlp.Item, key: bytes, child: nat, ghost s: Spot)
      requires Valid() && SpotOk(s) && s.child == child
      requires item == ItemOf(trie.sha3, s.node) && key == Encode(s.key, false)
      requires Stored(trie.Visible(), trie.sha3, s.node)
      modifies this
      ensures Valid() && attached == old(attached) && spots == old(spots) + [s]
    {
      hide ItemOf, Stored, SpotOk, Encode;
      trail := trail + [Frame(item, key, child)];
      spots := spots + [s];
      forall i: nat | i < |trail|
        ensures FrameOk(i)
      {
        if i < |trail| - 1 {
          assert old(FrameOk(i));
        }
      }
    }

    method Pop()
      requires Valid() && spots != []
      modifies this
      ensures Valid() && attached == old(attached) && spots == old(Base())
    {
      hide ItemOf, Stored, SpotOk, Encode;
      trail := trail[..|trail| - 1];
      spots := spots[..|spots| - 1];
      forall i: nat | i < |trail|
        ensures FrameOk(i)
      {
        assert old(FrameOk(i));
      }
    }

    /** Enters a two-item node: its key joins the key so far. A leaf is where the visit stands
        now; an extension makes way for the node below it. */
    method EnterPair() returns (leaf: bool)
      requires Valid() && spots != [] && Top().child == ENTERING && IsPair(Top().node)
      modifies this
      ensures Valid() && attached == old(attached)
      ensures leaf == old(Top().node.Leaf?)
      ensures var s := old(Top());
              spots == old(Base()) + [if leaf then Spot(s.node, s.key + s.node.key, 0)
                                      else Spot(s.node.child, s.key + s.node.key, ENTERING)]
    {
      hide Stored, Encode;
      ghost var s := Top();
      var b := trail[|trail| - 1];
      assert FrameOk(|trail| - 1);
      ItemShape(trie.sha3, s.node);
      KeyOfEncode(s.key, false);
      var key := Encode(KeyOf(b.key) + ItemKey(b.item), false);
      leaf := IsLeafItem(b.item);
      Pop();
      if leaf {
        Push(b.item, key, 0, Spot(s.node, s.key + s.node.key, 0));
      } else {
        ChildStored(trie.Visible(), trie.sha3, s.node);
        var item, _ := trie.Deref(b.item.items[1], s.node.child);
        Push(item, key, ENTERING, Spot(s.node.child, s.key + s.node.key, ENTERING));
      }
    }

    /** Looks for the first slot in use from `c0` on. Stops at the branch's own value, or enters
        the child, or leaves the branch. */
    method Scan(c0: nat) returns (atValue: bool, c: nat)
      requires Valid() && spots != [] && Top().node.Branch? && |Top().node.children| == 16 && c0 <= 17
      modifies this
      ensures Valid() && attached == old(attached) && c <= 17
      ensures var s := old(Top());
              From(s.node, s.key, c) == From(s.node, s.key, c0) && (c < 17 ==> !SlotEmpty(s.node, c)) &&
              ScanCost(s.node, c) <= ScanCost(s.node, c0) && (c != c0 && c0 < 17 ==> SlotEmpty(s.node, c0)) &&
              spots == old(Base()) + Scanned(s, c)
      ensures atValue <==> c == AT_VALUE
    {
      hide Stored, Encode, ItemOf, Entries, SlotEntries, Normal, Sound, View, Usable, Holds, SpotCost;
      ghost var s := Top();
      var b := trail[|trail| - 1];
      assert FrameOk(|trail| - 1);
      BranchItem(trie.sha3, s.node);
      c := c0;
      while c != EXITING && IsEmpty(b.item.items[c])
        invariant c <= 17
        invariant From(s.node, s.key, c) == From(s.node, s.key, c0)
        invariant ScanCost(s.node, c) <= ScanCost(s.node, c0)
        invariant c != c0 && c0 < 17 ==> SlotEmpty(s.node, c0)
        modifies {}
        decreases if c == 16 then 17 else if c == 17 then 0 else 16 - c
      {
        SlotShown(trie.sha3, s.node, c);
        SkipSlot(s.node, s.key, c);
        SkipCost(s.node, c);
        c := NextChild(c);
      }
      Pop();
      if c == EXITING {
        return false, c;
      }
      SlotShown(trie.sha3, s.node, c);
      if c == AT_VALUE {
        Push(b.item, b.key, AT_VALUE, Spot(s.node, s.key, AT_VALUE));
        return true, c;
      }
      Push(b.item, b.key, c, Spot(s.node, s.key, c));
      ghost var child := SlotChild(trie.Visible(), trie.sha3, s.node, c);
      KeyOfEncode(s.key, false);
      assert Unpack([c])[1..] == [c as nibble];
      var item, _ := trie.Deref(b.item.items[c], child);
      Push(item, Encode(KeyOf(b.key) + Unpack([c])[1..], false), ENTERING,
           Spot(child, s.key + [c as nibble], ENTERING));
      atValue := false;
    }

    /** Moves to the next entry, or off the end. */
    method Next()
      requires Valid()
      modifies this
      ensures Valid()
      ensures Rest(old(spots)) == [] ==> spots == [] && !attached
      ensures Rest(old(spots)) != [] ==> StandsAt(spots, Rest(old(spots))[0]) && Rest(spots) == Rest(old(spots))[1..]
    {
      hide FrameOk, StandsAt, Rest, TotalCost;
      ghost var all := Rest(spots);
      while true
        invariant Valid() && Rest(spots) == all
        decreases TotalCost(spots)
      {
        if |trail| == 0 {
          RestOfNothing();
          attached := false;
          return;
        }
        var done := Advance();
        if done {
          return;
        }
      }
    }

    /** operator++: from one entry to the next, or off the end. */
    method Step(ghost i: nat)
      requires Valid() && Placed(i) && |trail| > 0
      modifies this
      ensures Valid() && Placed(i + 1)
    {
      hide FrameOk, Entries, Rest, StandsAt;
      ghost var all := Entries(trie.tree, []);
      Next();
      assert all[i + 1..] != [] ==> all[i + 1..][1..] == all[i + 2..];
    }

    /** The body of a loop over the trie: what it sees of one entry, and the next one. */
    method Take(ghost i: nat) returns (kv: (bytes, bytes))
      requires Valid() && Placed(i) && WholeKeys(trie.tree) && Normal(trie.tree) && |trail| > 0
      modifies this
      ensures Valid() && Placed(i + 1) && i < |Entries(trie.tree, [])| && Shows(kv, Entries(trie.tree, [])[i])
    {
      hide FrameOk, Entries, Rest, StandsAt, Normal, WholeKeys, SpotsOk;
      PlacedInRange(i);
      EntryWhole(trie.tree, i);
      var key, value := At(Entries(trie.tree, [])[i]);
      Step(i);
      kv := (key, value);
    }

    method Collect() returns (list: seq<(bytes, bytes)>)
      requires Valid() && Placed(0) && WholeKeys(trie.tree) && Normal(trie.tree)
      modifies this
      ensures ShowsAll(Entries(trie.tree, []), list) && |list| == |Entries(trie.tree, [])|
    {
      hide Valid, Placed, Entries, Normal, WholeKeys, Shows;
      ghost var all := Entries(trie.tree, []);
      list := [];
      PlacedInRange(0);
      while |trail| > 0
        invariant |list| <= |all| && Valid() && Placed(|list|) && ShowsAll(all, list)
        decreases |all| - |list|
      {
        var kv := Take(|list|);
        list := list + [kv];
      }
      PlacedInRange(|list|);
    }

    /** One turn of the loop: either the visit stands at the next entry, or it lost none and
        has less to do. */
    method Advance() returns (done: bool)
      requires Valid() && spots != []
      modifies this
      ensures Valid()
      ensures !done ==> Rest(spots) == Rest(old(spots)) && TotalCost(spots) < TotalCost(old(spots))
      ensures done ==> Rest(old(spots)) != [] && StandsAt(spots, Rest(old(spots))[0])
      ensures done ==> Rest(spots) == Rest(old(spots))[1..]
    {
      hide Stored, Encode, ItemOf, Normal, From, Rest, TotalCost;
      var b := trail[|trail| - 1];
      assert FrameOk(|trail| - 1);
      ghost var s, base := Top(), Base();
      assert spots == base + [s];
      PushSpot(base, s);
      ItemShape(trie.sha3, s.node);
      if b.child == ENTERING {
        if IsEmpty(b.item) {
          DropSpot(base, s);
          Pop();
          return false;
        }
        if |b.item.items| == 2 {
          done := EnterPair();
          PairEntries(base, s);
          return;
        }
      } else if !IsBranchItem(b.item) {
        DropSpot(base, s);
        Pop();
        return false;
      }
      var c := if b.child == ENTERING then AT_VALUE else NextChild(b.child);
      BranchAfter(s);
      var c';
      done, c' := Scan(c);
      ScanRest(base, s, c');
    }

    /** Moves to the least key that is not before the target, from the root. */
    method NextFrom(target: Nibbles)
      requires Valid() && spots == [Spot(trie.tree, [], ENTERING)]
      modifies this
      ensures Valid()
      ensures exists i: nat :: IsLowerBound(Entries(trie.tree, []), i, target) && Placed(i)
    {
      hide FrameOk, StandsAt, Rest, TotalCost, Entries, Aim, IsLowerBound, Earlier, Passed, SpotsOk;
      ghost var all := Entries(trie.tree, []);
      ghost var dropped: seq<Entry> := [];
      RootSpot(spots);
      AimAtRoot(trie.tree, target);
      var k := target;
      while |trail| > 0
        invariant Valid() && Aim(spots, k, target) && Passed(all, dropped, Rest(spots), target)
        decreases TotalCost(spots)
      {
        ghost var before := Rest(spots);
        ghost var more;
        var done;
        done, k, more := AdvanceFrom(k, target);
        if done {
          FoundAt(all, dropped, before, more, Rest(spots), target);
          assert Placed(|dropped| + |more|);
          return;
        }
        PassedMore(all, dropped, more, Rest(spots), target);
        dropped := dropped + more;
      }
      NotFound(all, dropped, target);
      attached := false;
      assert Placed(|all|);
    }

    /** The keyed loop at a two-item node: skips it as a whole, or takes its key off the target. */
    method AdvancePair(k0: Nibbles, ghost target: Nibbles) returns (done: bool, k: Nibbles, ghost more: seq<Entry>)
      requires Valid() && spots != [] && Aim(spots, k0, target)
      requires Top().child == ENTERING && IsPair(Top().node)
      modifies this
      ensures Valid() && AllBefore(more, target)
      ensures !done ==> Rest(old(spots)) == more + Rest(spots) && TotalCost(spots) < TotalCost(old(spots))
      ensures !done ==> Aim(spots, k, target)
      ensures done ==>
                var all := Rest(old(spots)); |more| < |all| && all == more + [all[|more|]] + Rest(spots)
      ensures done ==> StandsAt(spots, Rest(old(spots))[|more|]) && !Earlier(Rest(old(spots))[|more|].key, target)
    {
      hide Stored, Encode, ItemOf, Normal, Rest, TotalCost, Earlier, Entries, Aim;
      var b := trail[|trail| - 1];
      assert FrameOk(|trail| - 1);
      ghost var s, base := Top(), Base();
      assert spots == base + [s];
      ItemShape(trie.sha3, s.node);
      k, more := k0, [];
      var q := ItemKey(b.item);
      if !IsPrefixOf(q, k) {
        if !Earlier(k, q) {
          more := SkipPair(base, s, k0, target);
          Pop();
          return false, [], more;
        }
        k := [];
      }
      k := k[if |k| < |q| then |k| else |q|..];
      var leaf := EnterPair();
      PairEntries(base, s);
      AimPair(base, s, k0, k, target);
      if leaf {
        if |k| == 0 {
          return true, k, [];
        }
        more := [Entry(s.key + s.node.key, s.node.value)];
        ghost var t := Spot(s.node, s.key + s.node.key, 0);
        DropSpot(base, t);
        Pop();
        assert (base + [t])[..|base|] == base;
        return false, [], more;
      }
      return false, k, [];
    }

    /** One turn of the keyed loop; `more` are the entries that it passes by. */
    method AdvanceFrom(k0: Nibbles, ghost target: Nibbles) returns (done: bool, k: Nibbles, ghost more: seq<Entry>)
      requires Valid() && spots != [] && Aim(spots, k0, target)
      modifies this
      ensures Valid() && AllBefore(more, target)
      ensures !done ==> Rest(old(spots)) == more + Rest(spots) && TotalCost(spots) < TotalCost(old(spots))
      ensures !done ==> Aim(spots, k, target)
      ensures done ==>
                var all := Rest(old(spots)); |more| < |all| && all == more + [all[|more|]] + Rest(spots)
      ensures done ==> StandsAt(spots, Rest(old(spots))[|more|]) && !Earlier(Rest(old(spots))[|more|].key, target)
    {
      hide Stored, Encode, ItemOf, Normal, From, Rest, TotalCost, Earlier, Entries, Aim;
      var b := trail[|trail| - 1];
      assert FrameOk(|trail| - 1);
      ghost var s, base := Top(), Base();
      assert spots == base + [s];
      PushSpot(base, s);
      ItemShape(trie.sha3, s.node);
      if k0 != [] {
        AimTop(base, s, k0, target);
      }
      k, more := k0, [];
      var c := AT_VALUE;
      if b.child == ENTERING {
        if IsEmpty(b.item) {
          DropSpot(base, s);
          AimDropped(base, s, k0, target);
          Pop();
          return false, [], [];
        }
        if |b.item.items| == 2 {
          done, k, more := AdvancePair(k0, target);
          return;
        }
        if |k| > 0 {
          c := k[0];
          k := k[1..];
        }
      } else {
        if !IsBranchItem(b.item) {
          DropSpot(base, s);
          AimDropped(base, s, k0, target);
          Pop();
          return false, [], [];
        }
        c := NextChild(b.child);
      }
      done, k, more := AdvanceScan(k0, k, c, target);
    }

    /** The keyed loop at a branch, from the slot of the target's next nibble. */
    method AdvanceScan(k0: Nibbles, k1: Nibbles, c: nat, ghost target: Nibbles)
      returns (done: bool, k: Nibbles, ghost more: seq<Entry>)
      requires Valid() && spots != [] && Aim(spots, k0, target)
      requires Top().node.Branch? && k1 == if k0 != [] then k0[1..] else []
      requires c == if k0 != [] then k0[0] else if Top().child == ENTERING then AT_VALUE else NextChild(Top().child)
      modifies this
      ensures Valid() && AllBefore(more, target)
      ensures !done ==> Rest(old(spots)) == more + Rest(spots) && TotalCost(spots) < TotalCost(old(spots))
      ensures !done ==> Aim(spots, k, target)
      ensures done ==>
                var all := Rest(old(spots)); |more| < |all| && all == more + [all[|more|]] + Rest(spots)
      ensures done ==> StandsAt(spots, Rest(old(spots))[|more|]) && !Earlier(Rest(old(spots))[|more|].key, target)
    {
      hide Stored, Encode, ItemOf, FrameOk, From, Rest, TotalCost, Earlier, Entries, Aim, SlotEmpty, ScanCost,
           SpotCost, StandsAt, SpotsOk, SpotOk, AllBefore, Scanned;
      ghost var s, base := Top(), Base();
      assert spots == base + [s];
      TopBranch(base, s, k0, target);
      var c';
      done, c' := Scan(c);
      more := ScanStep(base, s, k0, c, c', target);
      k := if c' != c || c' == EXITING then [] else k1;
    }
  }

  lemma RestAtRoot(n: Node)
    requires Normal(n)
    ensures SpotsOk([Spot(n, [], ENTERING)]) && Rest([Spot(n, [], ENTERING)]) == Entries(n, [])
  {
    hide Normal, Entries;
    var s := Spot(n, [], ENTERING);
    NormalWellFormed(n);
    assert [] + [s] == [s];
    PushSpot([], s);
    RestOfNothing();
  }

  // ---------------------------------------------------------------- a whole visit

  /** The keys of the trie are whole bytes, as those of its interface are. */
  ghost predicate WholeKeys(n: Node)
  {
    forall q: Nibbles :: Lookup(n, q) != [] ==> |q| % 2 == 0
  }

  /** Every key with a value once, with that value, in ascending order of the keys. */
  ghost predicate ListsTheMap(n: Node, list: seq<(bytes, bytes)>)
  {
    && (forall i, j :: 0 <= i < j < |list| ==> Earlier(Unpack(list[i].0), Unpack(list[j].0)))
    && (forall key, value :: (key, value) in list <==> value != [] && Lookup(n, Unpack(key)) == value)
  }

  /** A trie that holds a map of byte strings has whole keys, and what is listed is that map. */
  lemma ListsHeldMap(n: Node, m: map<bytes, bytes>, list: seq<(bytes, bytes)>)
    requires HoldsMap(n, m) && forall k: bytes :: k in m ==> m[k] != []
    ensures WholeKeys(n)
    ensures ListsTheMap(n, list) ==> forall key, value :: (key, value) in list <==> key in m && m[key] == value
  {
    hide Lookup, Unpack;
    WholeWhenHeld(n, m);
    if ListsTheMap(n, list) {
      forall key, value
        ensures (key, value) in list <==> key in m && m[key] == value
      {
        HeldEntry(n, m, key, value);
      }
    }
  }

  lemma HeldEntry(n: Node, m: map<bytes, bytes>, key: bytes, value: bytes)
    requires HoldsMap(n, m) && forall k: bytes :: k in m ==> m[k] != []
    ensures value != [] && Lookup(n, Unpack(key)) == value <==> key in m && m[key] == value
  {
    hide Lookup, Unpack;
    assert key in m ==> Lookup(n, Unpack(key)) == m[key];
    if value != [] && Lookup(n, Unpack(key)) == value {
      var k: bytes :| k in m && Unpack(k) == Unpack(key);
      UnpackInjective(k, key);
    }
  }

  lemma WholeWhenHeld(n: Node, m: map<bytes, bytes>)
    requires HoldsMap(n, m)
    ensures WholeKeys(n)
  {
    hide Lookup, Unpack;
  }

  /** From begin to end: exactly the map. */
  method Visit(trie: GenericTrieDB) returns (list: seq<(bytes, bytes)>)
    requires trie.Valid() && WholeKeys(trie.tree)
    ensures ListsTheMap(trie.tree, list)
  {
    hide Cursor.Valid, Cursor.Placed, Entries, WholeKeys, ListsTheMap, Lookup, ShowsAll;
    var it := new Cursor.Begin(trie);
    list := it.Collect();
    Shown(trie.tree, list);
  }

  ghost predicate Shows(kv: (bytes, bytes), x: Entry)
  {
    Unpack(kv.0) == x.key && kv.1 == x.value
  }

  ghost predicate ShowsAll(all: seq<Entry>, list: seq<(bytes, bytes)>)
  {
    |list| <= |all| && forall i :: 0 <= i < |list| ==> Shows(list[i], all[i])
  }

  lemma Shown(n: Node, list: seq<(bytes, bytes)>)
    requires Normal(n) && |list| == |Entries(n, [])| && ShowsAll(Entries(n, []), list)
    ensures ListsTheMap(n, list)
  {
    hide Entries, Earlier, Normal, Lookup;
    var all := Entries(n, []);
    NormalWellFormed(n);
    EntriesSorted(n, []);
    assert forall i :: 0 <= i < |list| ==> Shows(list[i], all[i]);
    forall key, value
      ensures (key, value) in list <==> value != [] && Lookup(n, Unpack(key)) == value
    {
      ShownEntry(n, list, key, value);
    }
  }

  lemma ShownEntry(n: Node, list: seq<(bytes, bytes)>, key: bytes, value: bytes)
    requires Normal(n) && |list| == |Entries(n, [])| && ShowsAll(Entries(n, []), list)
    ensures (key, value) in list <==> value != [] && Lookup(n, Unpack(key)) == value
  {
    hide Entries, Normal, Lookup;
    var x := Entry(Unpack(key), value);
    EntriesAreTheMap(n, x.key, value);
    if (key, value) in list {
      var i :| 0 <= i < |list| && list[i] == (key, value);
      assert Shows(list[i], Entries(n, [])[i]);
    } else if x in Entries(n, []) {
      var i :| 0 <= i < |list| && Entries(n, [])[i] == x;
      assert Shows(list[i], x);
      UnpackInjective(list[i].0, key);
    }
  }

  lemma EntryWhole(n: Node, i: nat)
    requires Normal(n) && WholeKeys(n) && i < |Entries(n, [])|
    ensures |Entries(n, [])[i].key| % 2 == 0
  {
    var x := Entries(n, [])[i];
    EntriesAreTheMap(n, x.key, x.value);
  }

  // ---------------------------------------------------------------- steps of the visit

  lemma RestOfNothing()
    ensures Rest([]) == []
  {
  }

  /** An empty node and a leaf that was visited have nothing more to come. */
  lemma DropSpot(base: seq<Spot>, s: Spot)
    requires SpotsOk(base) && SpotOk(s) && (s.node == Null || (s.node.Leaf? && s.child == 0))
    ensures SpotsOk(base + [s]) && Rest(base + [s]) == Rest(base) && TotalCost(base) < TotalCost(base + [s])
  {
    PushSpot(base, s);
  }

  lemma ChildStored(view: map<Digest, bytes>, sha3: Hasher, n: Node)
    requires n.Ext? && Normal(n) && WellFormed(n) && Stored(view, sha3, n)
    ensures StoredRef(view, sha3, n.child) && Normal(n.child) && WellFormed(n.child)
  {
  }

  lemma SlotChild(view: map<Digest, bytes>, sha3: Hasher, n: Node, c: nat) returns (child: Node)
    requires n.Branch? && Normal(n) && WellFormed(n) && Stored(view, sha3, n) && c < 16
    ensures child == n.children[c] && StoredRef(view, sha3, child) && Normal(child) && WellFormed(child)
  {
    child := n.children[c];
    assert child in n.children;
  }

  /** The item of a branch shows which slots are empty. */
  lemma SlotShown(sha3: Hasher, n: Node, c: nat)
    requires n.Branch? && WellFormed(n) && c <= 16
    ensures IsEmpty((Refs(sha3, n.children) + [Rlp.Data(n.value)])[c]) <==> SlotEmpty(n, c)
  {
    if c < 16 {
      assert n.children[c] in n.children;
      RefShape(sha3, n.children[c]);
    }
  }

  function ScanCost(n: Node, c: nat): nat
    requires n.Branch? && |n.children| == 16 && c <= 17
  {
    if c == EXITING then 0 else SlotCost(n.children, if c == AT_VALUE then 0 else c)
  }

  lemma SkipCost(n: Node, c: nat)
    requires n.Branch? && |n.children| == 16 && c <= 16
    ensures ScanCost(n, NextChild(c)) <= ScanCost(n, c)
  {
  }

  /** Entering a two-item node loses no entry and costs one step. */
  lemma PairEntries(base: seq<Spot>, s: Spot)
    requires SpotsOk(base) && SpotOk(s) && s.child == ENTERING && IsPair(s.node)
    ensures var t := if s.node.Leaf? then Spot(s.node, s.key + s.node.key, 0)
                     else Spot(s.node.child, s.key + s.node.key, ENTERING);
            SpotOk(t) && SpotsOk(base + [t]) && SpotsOk(base + [s]) &&
            TotalCost(base + [t]) < TotalCost(base + [s]) &&
            Rest(base + [s]) ==
            if s.node.Leaf? then [Entry(t.key, s.node.value)] + Rest(base + [t]) else Rest(base + [t])
  {
    var t := if s.node.Leaf? then Spot(s.node, s.key + s.node.key, 0)
             else Spot(s.node.child, s.key + s.node.key, ENTERING);
    PushSpot(base, t);
    PushSpot(base, s);
  }

  /** Where the scan of a branch starts, and what is to come from there. */
  lemma BranchAfter(s: Spot)
    requires SpotOk(s) && s.node.Branch?
    ensures var c := if s.child == ENTERING then AT_VALUE else NextChild(s.child);
            c <= 17 && After(s) == From(s.node, s.key, c) && ScanCost(s.node, c) < SpotCost(s)
  {
    assert SlotEntries(s.node.children, s.key, 16) == [];
    assert SlotCost(s.node.children, 16) == 0;
  }

  /** Where a scan that reached `c` leaves the visit. */
  ghost function Scanned(s: Spot, c: nat): seq<Spot>
    requires s.node.Branch? && |s.node.children| == 16 && c <= 17
  {
    if c == EXITING then []
    else if c == AT_VALUE then [Spot(s.node, s.key, AT_VALUE)]
    else [Spot(s.node, s.key, c), Spot(s.node.children[c], s.key + [c as nibble], ENTERING)]
  }

  /** A scan loses no entry but the one at which it stops, and it costs at least one step. */
  lemma ScanRest(base: seq<Spot>, s: Spot, c: nat)
    requires SpotsOk(base) && SpotOk(s) && s.node.Branch? && c <= 17 && (c < 17 ==> !SlotEmpty(s.node, c))
    ensures SpotsOk(base + Scanned(s, c))
    ensures From(s.node, s.key, c) + Rest(base) ==
            if c == AT_VALUE then [Entry(s.key, s.node.value)] + Rest(base + Scanned(s, c))
            else Rest(base + Scanned(s, c))
    ensures c != AT_VALUE ==> TotalCost(base + Scanned(s, c)) <= ScanCost(s.node, c) + TotalCost(base)
  {
    hide Rest, TotalCost, Entries, SlotEntries, SpotOk, SpotCost, ScanCost, From, After;
    if c == AT_VALUE {
      StopAtValue(s);
      var t := Spot(s.node, s.key, AT_VALUE);
      PushSpot(base, t);
      var first := [Entry(s.key, s.node.value)];
      assert first + After(t) + Rest(base) == first + (After(t) + Rest(base));
    } else if c < 16 {
      SixteenSlots(s);
      var t, u := Spot(s.node, s.key, c), Spot(s.node.children[c], s.key + [c as nibble], ENTERING);
      EnterSlot(s, c, t, u);
      PushSpot(base, t);
      PushSpot(base + [t], u);
      assert base + [t] + [u] == base + Scanned(s, c);
      assert After(u) + (After(t) + Rest(base)) == (After(u) + After(t)) + Rest(base);
    } else {
      LeaveBranch(s);
      assert base + [] == base && [] + Rest(base) == Rest(base);
    }
  }

  lemma SixteenSlots(s: Spot)
    requires SpotOk(s) && s.node.Branch?
    ensures |s.node.children| == 16
  {
  }

  lemma StopAtValue(s: Spot)
    requires SpotOk(s) && s.node.Branch? && !SlotEmpty(s.node, AT_VALUE)
    ensures var t := Spot(s.node, s.key, AT_VALUE);
            SpotOk(t) && From(s.node, s.key, AT_VALUE) == [Entry(s.key, s.node.value)] + After(t)
  {
  }

  lemma EnterSlot(s: Spot, c: nat, t: Spot, u: Spot)
    requires SpotOk(s) && s.node.Branch? && |s.node.children| == 16 && c < 16
    requires t == Spot(s.node, s.key, c) && u == Spot(s.node.children[c], s.key + [c as nibble], ENTERING)
    ensures SpotOk(t) && SpotOk(u) && From(s.node, s.key, c) == After(u) + After(t)
    ensures SpotCost(u) + SpotCost(t) <= ScanCost(s.node, c)
  {
    assert s.node.children[c] in s.node.children;
  }

  lemma LeaveBranch(s: Spot)
    requires SpotOk(s) && s.node.Branch?
    ensures From(s.node, s.key, EXITING) == [] && ScanCost(s.node, EXITING) == 0
  {
  }

  // ---------------------------------------------------------------- the target of a keyed visit

  ghost predicate AllBefore(es: seq<Entry>, target: Nibbles)
  {
    forall x :: x in es ==> Earlier(x.key, target)
  }

  ghost predicate NoneBefore(es: seq<Entry>, target: Nibbles)
  {
    forall x :: x in es ==> !Earlier(x.key, target)
  }

  /** Position `i` is the first one whose key is not before the target. */
  ghost predicate IsLowerBound(es: seq<Entry>, i: nat, target: Nibbles)
  {
    i <= |es| && AllBefore(es[..i], target) && (i < |es| ==> !Earlier(es[i].key, target))
  }

  /** While some of the target is left, the node about to be entered lies on the way to it, and
      nothing below on the trail is before it; then nothing at all is before it. */
  ghost predicate Aim(spots: seq<Spot>, k: Nibbles, target: Nibbles)
  {
    && SpotsOk(spots)
    && (k == [] ==> NoneBefore(Rest(spots), target))
    && (k != [] ==> spots != [] && spots[|spots| - 1].child == ENTERING && spots[|spots| - 1].key + k == target &&
                    NoneBefore(Rest(spots[..|spots| - 1]), target))
  }

  /** The keyed visit went past the entries `dropped`, all of them before the target. */
  ghost predicate Passed(all: seq<Entry>, dropped: seq<Entry>, rest: seq<Entry>, target: Nibbles)
  {
    all == dropped + rest && AllBefore(dropped, target)
  }

  lemma PassedMore(all: seq<Entry>, dropped: seq<Entry>, more: seq<Entry>, rest: seq<Entry>, target: Nibbles)
    requires Passed(all, dropped, more + rest, target) && AllBefore(more, target)
    ensures Passed(all, dropped + more, rest, target)
  {
  }

  lemma NotFound(all: seq<Entry>, dropped: seq<Entry>, target: Nibbles)
    requires Passed(all, dropped, Rest([]), target)
    ensures IsLowerBound(all, |all|, target)
  {
    assert all[..|all|] == dropped;
  }

  lemma FoundAt(all: seq<Entry>, dropped: seq<Entry>, before: seq<Entry>, more: seq<Entry>, rest: seq<Entry>,
                target: Nibbles)
    requires Passed(all, dropped, before, target) && AllBefore(more, target)
    requires |more| < |before| && before == more + [before[|more|]] + rest && !Earlier(before[|more|].key, target)
    ensures var i := |dropped| + |more|;
            IsLowerBound(all, i, target) && i < |all| && all[i] == before[|more|] && all[i + 1..] == rest
  {
    hide Earlier;
    assert all[..|dropped| + |more|] == dropped + more;
  }

  /** A node on the way to the target, above a trail with nothing before the target. */
  lemma AimOnTheWay(base: seq<Spot>, s: Spot, k: Nibbles, target: Nibbles)
    requires SpotsOk(base) && SpotOk(s) && s.child == ENTERING && s.key + k == target && NoneBefore(Rest(base), target)
    ensures Aim(base + [s], k, target)
  {
    hide SpotOk, Earlier;
    PushSpot(base, s);
    assert (base + [s])[..|base|] == base;
    if k == [] {
      forall x | x in Entries(s.node, s.key)
        ensures !Earlier(x.key, target)
      {
        SpotWellFormed(s);
        EntryLookup(s.node, s.key, x);
        assert s.key + [] == s.key;
        PrefixNotLater(x.key, target);
      }
    }
  }

  lemma SpotWellFormed(s: Spot)
    requires SpotOk(s)
    ensures WellFormed(s.node)
  {
  }

  lemma RootSpot(spots: seq<Spot>)
    requires |spots| == 1 && SpotsOk(spots)
    ensures SpotOk(spots[0])
  {
  }

  lemma AimAtRoot(n: Node, target: Nibbles)
    requires Normal(n) && WellFormed(n)
    ensures SpotsOk([Spot(n, [], ENTERING)]) && Aim([Spot(n, [], ENTERING)], target, target)
    ensures Passed(Entries(n, []), [], Rest([Spot(n, [], ENTERING)]), target)
  {
    hide Earlier, Normal, WellFormed, Entries, Aim;
    var s := Spot(n, [], ENTERING);
    assert [] + [s] == [s];
    PushSpot([], s);
    RestOfNothing();
    assert s.key + target == target;
    AimOnTheWay([], s, target, target);
  }

  /** Below the top, nothing is before the target in either case. */
  lemma AimBase(base: seq<Spot>, s: Spot, k: Nibbles, target: Nibbles)
    requires Aim(base + [s], k, target)
    ensures SpotsOk(base) && SpotOk(s) && NoneBefore(Rest(base), target)
  {
    assert (base + [s])[..|base|] == base;
    assert s in base + [s];
    assert forall t :: t in base ==> t in base + [s];
    PushSpot(base, s);
  }

  lemma AimDropped(base: seq<Spot>, s: Spot, k: Nibbles, target: Nibbles)
    requires Aim(base + [s], k, target)
    ensures Aim(base, [], target)
  {
    AimBase(base, s, k, target);
  }

  // ---- two-item nodes

  /** A key that starts with `q` is before `k`, when `k` does not and lies after `q`. */
  lemma {:induction false} StartsBefore(q: Nibbles, k: Nibbles, y: Nibbles)
    requires IsPrefixOf(q, y) && !IsPrefixOf(q, k) && !Earlier(k, q)
    ensures Earlier(y, k)
  {
    assert q != [] && k != [] && y[0] == q[0];
    if q[0] == k[0] {
      assert q == [q[0]] + q[1..] && k == [k[0]] + k[1..];
      assert y[1..][..|q| - 1] == y[..|q|][1..];
      PrefixCons(q, k);
      StartsBefore(q[1..], k[1..], y[1..]);
    }
  }

  lemma PrefixCons(q: Nibbles, k: Nibbles)
    requires q != [] && k != [] && q[0] == k[0]
    ensures IsPrefixOf(q, k) <==> IsPrefixOf(q[1..], k[1..])
  {
    if |q| <= |k| {
      assert k[..|q|] == [k[0]] + k[1..][..|q| - 1] && q == [q[0]] + q[1..];
    }
  }

  lemma {:induction false} StartsAfter(q: Nibbles, k: Nibbles, y: Nibbles)
    requires IsPrefixOf(q, y) && Earlier(k, q)
    ensures !Earlier(y, k)
  {
    assert y[0] == y[..|q|][0];
    if k != [] && k[0] == q[0] {
      assert y[1..][..|q| - 1] == y[..|q|][1..];
      StartsAfter(q[1..], k[1..], y[1..]);
    }
  }

  /** Every entry of a two-item node continues the key so far with the key of the node. */
  lemma PairKey(s: Spot, x: Entry)
    requires SpotOk(s) && s.child == ENTERING && IsPair(s.node) && x in Entries(s.node, s.key)
    ensures IsPrefixOf(s.key, x.key) && IsPrefixOf(s.node.key, x.key[|s.key|..])
  {
    var p, q := s.key, s.node.key;
    if s.node.Leaf? {
      assert x.key == p + q;
    } else {
      EntryLookup(s.node.child, p + q, x);
      assert x.key[..|p + q|] == p + q;
    }
    assert x.key[..|p|] == (p + q)[..|p|] && x.key[|p|..][..|q|] == (p + q)[|p|..];
  }

  /** A node that lies before the target as a whole. */
  lemma SkipPair(base: seq<Spot>, s: Spot, k: Nibbles, target: Nibbles) returns (more: seq<Entry>)
    requires Aim(base + [s], k, target) && s.child == ENTERING && IsPair(s.node)
    requires !IsPrefixOf(s.node.key, k) && !Earlier(k, s.node.key)
    ensures AllBefore(more, target) && SpotsOk(base) && Rest(base + [s]) == more + Rest(base)
    ensures TotalCost(base) < TotalCost(base + [s]) && Aim(base, [], target)
  {
    AimBase(base, s, k, target);
    PushSpot(base, s);
    more := Entries(s.node, s.key);
    assert (base + [s])[|base|] == s;
    forall x | x in more
      ensures Earlier(x.key, target)
    {
      PairKey(s, x);
      StartsBefore(s.node.key, k, x.key[|s.key|..]);
      assert target[..|s.key|] == s.key && target[|s.key|..] == k;
      EarlierDrop(x.key, target, |s.key|);
    }
  }

  /** What is left of the target after the key of a two-item node. */
  lemma AimPair(base: seq<Spot>, s: Spot, k0: Nibbles, k: Nibbles, target: Nibbles)
    requires Aim(base + [s], k0, target) && s.child == ENTERING && IsPair(s.node)
    requires if IsPrefixOf(s.node.key, k0) then k == k0[|s.node.key|..] else Earlier(k0, s.node.key) && k == []
    ensures SpotsOk(base) && Aim(base, [], target)
    ensures s.node.Leaf? ==> (k == [] <==> !Earlier(s.key + s.node.key, target))
    ensures s.node.Ext? ==> Aim(base + [Spot(s.node.child, s.key + s.node.key, ENTERING)], k, target)
  {
    hide Earlier, Entries, Normal, SpotOk, Aim;
    AimBase(base, s, k0, target);
    PairEntries(base, s);
    AimDropped(base, s, k0, target);
    if k0 != [] && IsPrefixOf(s.node.key, k0) {
      AimTop(base, s, k0, target);
      PairOnTheWay(base, s, k, target);
    } else {
      PairAfter(base, s, k0, target);
    }
  }

  lemma PairOnTheWay(base: seq<Spot>, s: Spot, k: Nibbles, target: Nibbles)
    requires SpotsOk(base) && SpotOk(s) && NoneBefore(Rest(base), target) && s.child == ENTERING && IsPair(s.node)
    requires target == s.key + (s.node.key + k)
    ensures s.node.Leaf? ==> (k == [] <==> !Earlier(s.key + s.node.key, target))
    ensures s.node.Ext? ==> SpotOk(Spot(s.node.child, s.key + s.node.key, ENTERING)) &&
                            Aim(base + [Spot(s.node.child, s.key + s.node.key, ENTERING)], k, target)
  {
    hide Earlier, Entries, Aim;
    var p, q := s.key, s.node.key;
    assert target == (p + q) + k;
    if s.node.Ext? {
      AimOnTheWay(base, Spot(s.node.child, p + q, ENTERING), k, target);
    } else {
      assert target[..|p + q|] == p + q && target[|p + q|..] == k;
      EarlierDrop(p + q, target, |p + q|);
      assert (p + q)[|p + q|..] == [];
      EarlierThanRest(k);
    }
  }

  lemma EarlierThanRest(k: Nibbles)
    ensures Earlier([], k) <==> k != []
  {
  }

  /** A node that lies after the target as a whole, or below which the target is already met. */
  lemma PairAfter(base: seq<Spot>, s: Spot, k: Nibbles, target: Nibbles)
    requires Aim(base + [s], k, target) && s.child == ENTERING && IsPair(s.node)
    requires k == [] || Earlier(k, s.node.key)
    ensures s.node.Leaf? ==> !Earlier(s.key + s.node.key, target)
    ensures s.node.Ext? ==> Aim(base + [Spot(s.node.child, s.key + s.node.key, ENTERING)], [], target)
  {
    hide Earlier, Normal;
    AimBase(base, s, k, target);
    PairEntries(base, s);
    PushSpot(base, s);
    var p, q := s.key, s.node.key;
    if k != [] {
      AimTop(base, s, k, target);
    }
    forall x | x in Entries(s.node, p)
      ensures !Earlier(x.key, target)
    {
      if k != [] {
        PairKey(s, x);
        StartsAfter(q, k, x.key[|p|..]);
        assert target[..|p|] == p && target[|p|..] == k;
        EarlierDrop(x.key, target, |p|);
      } else {
        assert x in Rest(base + [s]);
      }
    }
    if s.node.Leaf? {
      assert Entry(p + q, s.node.value) in Entries(s.node, p);
    } else {
      PushSpot(base, Spot(s.node.child, p + q, ENTERING));
    }
  }

  // ---- branches

  /** The entries of the slots before slot `c`. */
  ghost function SlotsUpTo(children: seq<Node>, p: Nibbles, c: nat): seq<Entry>
    requires c <= 16 <= |children|
    decreases c
  {
    if c == 0 then [] else SlotsUpTo(children, p, c - 1) + Entries(children[c - 1], p + [(c - 1) as nibble])
  }

  lemma {:induction false} SlotsSplit(children: seq<Node>, p: Nibbles, c: nat)
    requires |children| == 16 && c <= 16
    ensures SlotEntries(children, p, 0) == SlotsUpTo(children, p, c) + SlotEntries(children, p, c)
    decreases c
  {
    if c > 0 {
      SlotsSplit(children, p, c - 1);
      assert SlotsUpTo(children, p, c) + SlotEntries(children, p, c) == SlotsUpTo(children, p, c - 1) +
             (Entries(children[c - 1], p + [(c - 1) as nibble]) + SlotEntries(children, p, c));
    } else {
      assert [] + SlotEntries(children, p, 0) == SlotEntries(children, p, 0);
    }
  }

  lemma {:induction false} SlotsUpToBefore(children: seq<Node>, p: Nibbles, c: nat, x: Entry)
    requires |children| == 16 && c <= 16 && (forall n :: n in children ==> WellFormed(n))
    requires x in SlotsUpTo(children, p, c)
    ensures IsPrefixOf(p, x.key) && |p| < |x.key| && x.key[|p|] < c
    decreases c
  {
    if x in SlotsUpTo(children, p, c - 1) {
      SlotsUpToBefore(children, p, c - 1, x);
    } else {
      var q := p + [(c - 1) as nibble];
      EntryLookup(children[c - 1], q, x);
      assert x.key[..|q|] == q && x.key[..|p|] == q[..|p|] == p && x.key[|p|] == x.key[..|q|][|p|];
    }
  }

  /** The entries of a branch that lie before the slot of the target's next nibble. */
  lemma BranchSkipped(base: seq<Spot>, s: Spot, k: Nibbles, c: nat, target: Nibbles) returns (more: seq<Entry>)
    requires Aim(base + [s], k, target) && s.node.Branch? && |s.node.children| == 16 && c <= 17
    requires c == if k != [] then k[0] else if s.child == ENTERING then AT_VALUE else NextChild(s.child)
    ensures AllBefore(more, target) && SpotsOk(base) && SpotOk(s)
    ensures Rest(base + [s]) == more + (From(s.node, s.key, c) + Rest(base))
    ensures ScanCost(s.node, c) < SpotCost(s)
  {
    hide Aim, Earlier, Entries, SlotEntries, Rest, SpotOk, SpotCost, ScanCost, After, From;
    AimBase(base, s, k, target);
    PushSpot(base, s);
    if k == [] {
      BranchAfter(s);
      more := [];
      assert After(s) + Rest(base) == more + (From(s.node, s.key, c) + Rest(base));
    } else {
      AimTop(base, s, k, target);
      more := SlotsSkipped(s, k, target);
      assert (more + From(s.node, s.key, c)) + Rest(base) == more + (From(s.node, s.key, c) + Rest(base));
    }
  }

  lemma TopBranch(base: seq<Spot>, s: Spot, k: Nibbles, target: Nibbles)
    requires Aim(base + [s], k, target) && s.node.Branch?
    ensures |s.node.children| == 16 && (s.child == ENTERING || s.child <= 16)
  {
    AimBase(base, s, k, target);
  }

  /** What a scan of a branch from `c` to `c'` does to a keyed visit. */
  lemma ScanStep(base: seq<Spot>, s: Spot, k: Nibbles, c: nat, c': nat, target: Nibbles) returns (more: seq<Entry>)
    requires Aim(base + [s], k, target) && s.node.Branch? && |s.node.children| == 16 && c <= 17 && c' <= 17
    requires c == if k != [] then k[0] else if s.child == ENTERING then AT_VALUE else NextChild(s.child)
    requires From(s.node, s.key, c') == From(s.node, s.key, c) && (c' < 17 ==> !SlotEmpty(s.node, c'))
    requires ScanCost(s.node, c') <= ScanCost(s.node, c) && (c' != c && c < 17 ==> SlotEmpty(s.node, c))
    ensures SpotsOk(base + [s]) && SpotsOk(base + Scanned(s, c')) && AllBefore(more, target)
    ensures c' != AT_VALUE ==>
              Rest(base + [s]) == more + Rest(base + Scanned(s, c')) &&
              TotalCost(base + Scanned(s, c')) < TotalCost(base + [s]) &&
              Aim(base + Scanned(s, c'), if c' != c || c' == EXITING || k == [] then [] else k[1..], target)
    ensures c' == AT_VALUE ==>
              |more| < |Rest(base + [s])| &&
              Rest(base + [s]) == more + [Rest(base + [s])[|more|]] + Rest(base + Scanned(s, c')) &&
              StandsAt(base + Scanned(s, c'), Rest(base + [s])[|more|]) &&
              !Earlier(Rest(base + [s])[|more|].key, target)
  {
    hide Aim, Earlier, Entries, SlotEntries, Rest, From, TotalCost, SlotEmpty, ScanCost, SpotCost, AllBefore;
    more := BranchSkipped(base, s, k, c, target);
    PushSpot(base, s);
    ScanRest(base, s, c');
    AimScanned(base, s, k, c, c', target);
    if c' == AT_VALUE {
      assert Rest(base + [s]) == more + ([Entry(s.key, s.node.value)] + Rest(base + Scanned(s, c')));
    }
  }

  lemma AimTop(base: seq<Spot>, s: Spot, k: Nibbles, target: Nibbles)
    requires Aim(base + [s], k, target) && k != []
    ensures s.child == ENTERING && s.key + k == target
  {
    assert (base + [s])[|base|] == s;
  }

  lemma SlotsSkipped(s: Spot, k: Nibbles, target: Nibbles) returns (more: seq<Entry>)
    requires SpotOk(s) && s.node.Branch? && |s.node.children| == 16 && s.child == ENTERING
    requires k != [] && s.key + k == target
    ensures AllBefore(more, target) && After(s) == more + From(s.node, s.key, k[0])
    ensures ScanCost(s.node, k[0]) < SpotCost(s)
  {
    hide Earlier, SlotEntries, Normal;
    var n, p, c: nat := s.node, s.key, k[0];
    var own := if n.value != [] then [Entry(p, n.value)] else [];
    more := own + SlotsUpTo(n.children, p, c);
    SlotsSplit(n.children, p, c);
    SlotCostDrops(n.children, 0, c);
    assert own + (SlotsUpTo(n.children, p, c) + SlotEntries(n.children, p, c)) == more + SlotEntries(n.children, p, c);
    forall x | x in more
      ensures Earlier(x.key, target)
    {
      assert target[..|p|] == p && target[|p|] == k[0];
      if x in SlotsUpTo(n.children, p, c) {
        SlotsUpToBefore(n.children, p, c, x);
      }
      AfterPrefix(p, x.key, target);
    }
  }

  /** Where the keyed scan leaves the visit, nothing before the target is still to come. */
  lemma AimScanned(base: seq<Spot>, s: Spot, k: Nibbles, c: nat, c': nat, target: Nibbles)
    requires Aim(base + [s], k, target) && s.node.Branch? && |s.node.children| == 16 && c <= 17 && c' <= 17
    requires c == if k != [] then k[0] else if s.child == ENTERING then AT_VALUE else NextChild(s.child)
    requires From(s.node, s.key, c') == From(s.node, s.key, c) && (c' < 17 ==> !SlotEmpty(s.node, c'))
    requires c' != c && c < 17 ==> SlotEmpty(s.node, c)
    ensures SpotsOk(base + Scanned(s, c'))
    ensures c' != AT_VALUE ==> Aim(base + Scanned(s, c'), if c' == c && c' != 17 && k != [] then k[1..] else [], target)
    ensures c' == AT_VALUE ==> !Earlier(s.key, target)
  {
    hide Earlier, Entries, SlotEntries, Normal, Aim, Rest, From;
    AimBase(base, s, k, target);
    ScanRest(base, s, c');
    if k == [] {
      PushSpot(base, s);
      BranchAfter(s);
      AimFree(base, s, target);
      AimNothing(s, c', base, target);
    } else {
      AimTop(base, s, k, target);
      SlotsAfter(s, k, target);
      if c' == c {
        AimHit(base, s, k, target);
      } else {
        AimMiss(base, s, k, c', target);
      }
    }
  }

  /** The slot of the target's next nibble is in use: the visit goes on below it. */
  lemma AimHit(base: seq<Spot>, s: Spot, k: Nibbles, target: Nibbles)
    requires SpotsOk(base) && SpotOk(s) && NoneBefore(Rest(base), target) && s.node.Branch? && |s.node.children| == 16
    requires k != [] && s.key + k == target && !SlotEmpty(s.node, k[0])
    requires NoneBefore(SlotEntries(s.node.children, s.key, k[0] as nat + 1), target)
    ensures SpotsOk(base + Scanned(s, k[0])) && Aim(base + Scanned(s, k[0]), k[1..], target)
  {
    hide *;
    var c: nat := k[0];
    var t, u := Spot(s.node, s.key, c), Spot(s.node.children[c], s.key + [k[0]], ENTERING);
    EnterSlot(s, c, t, u);
    PushSpot(base, t);
    RestOfSlot(base, t, target);
    HeadAndTail(s.key, k);
    AimOnTheWay(base + [t], u, k[1..], target);
    PushSpot(base + [t], u);
    ScannedSlot(base, s, c, t, u);
  }

  lemma HeadAndTail(p: Nibbles, k: Nibbles)
    requires k != []
    ensures (p + [k[0]]) + k[1..] == p + k
  {
  }

  lemma ScannedSlot(base: seq<Spot>, s: Spot, c: nat, t: Spot, u: Spot)
    requires s.node.Branch? && |s.node.children| == 16 && c < 16
    requires t == Spot(s.node, s.key, c) && u == Spot(s.node.children[c], s.key + [c as nibble], ENTERING)
    ensures base + [t] + [u] == base + Scanned(s, c)
  {
    hide SpotOk;
  }

  lemma RestOfSlot(base: seq<Spot>, t: Spot, target: Nibbles)
    requires SpotsOk(base) && SpotOk(t) && t.node.Branch? && |t.node.children| == 16 && t.child < 16
    requires NoneBefore(Rest(base), target) && NoneBefore(SlotEntries(t.node.children, t.key, t.child + 1), target)
    ensures SpotsOk(base + [t]) && NoneBefore(Rest(base + [t]), target)
  {
    PushSpot(base, t);
  }

  /** The slot is empty: everything from the next slot on lies after the target. */
  lemma AimMiss(base: seq<Spot>, s: Spot, k: Nibbles, c': nat, target: Nibbles)
    requires SpotsOk(base) && SpotOk(s) && NoneBefore(Rest(base), target) && s.node.Branch? && |s.node.children| == 16
    requires k != [] && SlotEmpty(s.node, k[0])
    requires NoneBefore(SlotEntries(s.node.children, s.key, k[0] as nat + 1), target)
    requires c' <= 17 && From(s.node, s.key, c') == From(s.node, s.key, k[0]) && (c' < 17 ==> !SlotEmpty(s.node, c'))
    ensures SpotsOk(base + Scanned(s, c'))
    ensures if c' == AT_VALUE then !Earlier(s.key, target) else Aim(base + Scanned(s, c'), [], target)
  {
    hide Earlier, Entries, SlotEntries, Aim, Rest, Normal;
    SkipSlot(s.node, s.key, k[0]);
    SlotsEnd(s.node, s.key);
    AimNothing(s, c', base, target);
  }

  lemma AimFree(base: seq<Spot>, s: Spot, target: Nibbles)
    requires Aim(base + [s], [], target)
    ensures SpotsOk(base + [s]) && NoneBefore(Rest(base + [s]), target)
  {
  }

  lemma SlotsEnd(n: Node, p: Nibbles)
    requires n.Branch? && |n.children| == 16
    ensures SlotEntries(n.children, p, 16) == []
  {
  }

  /** With nothing of the target left, the scan just goes on to what comes next. */
  lemma AimNothing(s: Spot, c: nat, base: seq<Spot>, target: Nibbles)
    requires SpotOk(s) && SpotsOk(base) && s.node.Branch? && |s.node.children| == 16 && c <= 17
    requires c < 17 ==> !SlotEmpty(s.node, c)
    requires NoneBefore(From(s.node, s.key, c) + Rest(base), target)
    ensures SpotsOk(base + Scanned(s, c))
    ensures if c == AT_VALUE then !Earlier(s.key, target) else Aim(base + Scanned(s, c), [], target)
  {
    ScanRest(base, s, c);
    if c == AT_VALUE {
      assert Entry(s.key, s.node.value) in From(s.node, s.key, c) + Rest(base);
    }
  }

  /** The slots after that of the target's next nibble lie after the target. */
  lemma SlotsAfter(s: Spot, k: Nibbles, target: Nibbles)
    requires SpotOk(s) && s.node.Branch? && |s.node.children| == 16 && k != [] && s.key + k == target
    ensures NoneBefore(SlotEntries(s.node.children, s.key, k[0] as nat + 1), target)
  {
    hide Earlier;
    var n, p, c: nat := s.node, s.key, k[0];
    assert target[..|p|] == p && target[|p|] == k[0];
    forall x | x in SlotEntries(n.children, p, c + 1)
      ensures !Earlier(x.key, target)
    {
      SlotEntryLookup(n.children, n.value, p, c + 1, x);
      AfterPrefix(p, target, x.key);
      EarlierTotal(target, x.key);
    }
  }
}
