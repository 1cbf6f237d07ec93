/** The trie over the node store: GenericTrieDB, working on RLP items and keeping the
    reference counts. Every method is tied to the operation on the unfolded trie.

    Ghost parameters of the helper methods: the node `n` that the item stands for, the digests
    `live` that belong to everything else, and `exact`, under which the reference counts are
    followed as well. */
module TrieDB {
  import opened Bytes
  import opened HexPrefix
  import opened TrieNode
  import opened TrieMerge
  import opened TrieDelete
  import opened TrieRemovable
  import opened TrieCode
  import opened TrieEffects
  import opened NodeStore
  import Rlp

  /** What deleteAt comes to: the key is not there, the source goes wrong, or something new. */
  datatype Removal<T> = Missing | Failed | Removed(value: T)

  class GenericTrieDB {
    const db: OverlayDB
    const sha3: Hasher
    ghost const strings: iset<bytes>
    var root: Digest
    ghost var tree: Node

    /** A trie that is not open yet; see Init. */
    constructor (db: OverlayDB, sha3: Hasher, ghost strings: iset<bytes>)
      ensures this.db == db && this.sha3 == sha3 && this.strings == strings
    {
      this.db, this.sha3, this.strings := db, sha3, strings;
      root := sha3([]);
      tree := Null;
    }

    // -------------------------------------------------------------- the store

    ghost predicate StoreOk()
      reads this, db
    {
      && !db.enforceRefs
      && Usable(sha3, strings)
      && Sound(db.main, db.disk, sha3, strings)
    }

    ghost function Visible(): map<Digest, bytes>
      reads this, db
    {
      View(db.main, db.disk)
    }

    ghost predicate Counts(live: multiset<Digest>)
      reads this, db
    {
      Counted(db.main, db.disk, live)
    }

    /** Reads the node behind a hash. */
    method Node(d: Digest, ghost n: Node) returns (it: Rlp.Item)
      requires StoreOk() && Holds(Visible(), sha3, n) && d == sha3(Code(sha3, n))
      ensures it == ItemOf(sha3, n)
    {
      var s := db.Lookup(d);
      SoundView(db.main, db.disk, sha3, strings, d);
      assert s == Code(sha3, n);
      Rlp.DecodeEncode(ItemOf(sha3, n));
      it := Rlp.Decode(s).value;
    }

    /** Follows a reference; `removable` tells whether the node was behind a hash. */
    method Deref(r: Rlp.Item, ghost n: Node) returns (it: Rlp.Item, removable: bool)
      requires StoreOk() && WellFormed(n) && r == Ref(sha3, n) && StoredRef(Visible(), sha3, n)
      ensures it == ItemOf(sha3, n) && removable == Hashed(sha3, n)
    {
      RefShape(sha3, n);
      it, removable := r, false;
      if !r.List? && !IsEmpty(r) {
        it := Node(r.data, n);
        removable := true;
      }
    }

    /** Killing the node leaves the counts of just these digests: either it is counted once more besides
        them, or its digest is not among them at all. */
    ghost predicate Releases(n: Node, live: multiset<Digest>)
      reads this, db
    {
      || Counts(live + Own(sha3, n))
      || (Counts(live) && (Hashed(sha3, n) ==> sha3(Code(sha3, n)) !in live))
    }

    /** Drops the reference of a node that lives in the store. */
    method KillNode(it: Rlp.Item, d: Digest, ghost n: Node, ghost live: multiset<Digest>, ghost exact: bool)
      requires StoreOk() && it == ItemOf(sha3, n) && d == sha3(Code(sha3, n))
      requires exact ==> Releases(n, live)
      modifies db`main
      ensures StoreOk() && Visible() == old(Visible())
      ensures exact ==> Counts(live)
    {
      if |Rlp.Encode(it)| >= 32 {
        assert Hashed(sha3, n);
        KillSound(db.main, db.disk, sha3, strings, d);
        if exact {
          if Counts(live + Own(sha3, n)) {
            KillCounted(db.main, db.disk, live, d);
          } else {
            KillUncounted(db.main, db.disk, live, d);
          }
        }
        db.Kill(d);
      } else {
        assert live + Own(sha3, n) == live;
      }
    }

    /** Appends a child: inline when short, else into the store and by its hash. */
    method StreamNode(out0: seq<Rlp.Item>, b: Rlp.Item, ghost n: Node, ghost live: multiset<Digest>, ghost exact: bool)
      returns (out: seq<Rlp.Item>)
      requires StoreOk() && b == ItemOf(sha3, n)
      requires Stored(Visible(), sha3, n) && Written(sha3, n) <= strings
      requires exact ==> Counts(live)
      modifies db`main
      ensures StoreOk() && Grows(old(Visible()), Visible())
      ensures out == out0 + [Ref(sha3, n)] && StoredRef(Visible(), sha3, n)
      ensures exact ==> Counts(live + Own(sha3, n))
      ensures var code, child := Code(sha3, n), out[|out0|];
              if |code| < 32 then Rlp.Encode(child) == code && db.main == old(db.main)
              else child == Rlp.Data(sha3(code)) && sha3(code) in Visible() && Visible()[sha3(code)] == code
    {
      hide Sound, View, Counted, Usable, Grows, ItemOf, Stored;
      var s := Rlp.Encode(b);
      GrowsReflexive(Visible());
      if |s| < 32 {
        assert !Hashed(sha3, n);
        assert live + Own(sha3, n) == live;
        out := out0 + [b];
      } else {
        assert Hashed(sha3, n) && s == Code(sha3, n);
        assert s in Written(sha3, n);
        ghost var before := Visible();
        InsertSound(db.main, db.disk, sha3, strings, s);
        if exact {
          InsertCounted(db.main, db.disk, live, sha3(s), s);
        }
        db.Insert(sha3(s), s);
        StoredGrows(before, Visible(), sha3, n);
        out := out0 + [Rlp.Data(sha3(s))];
      }
    }

    // -------------------------------------------------------------- insertion

    method PlaceAt(orig: Rlp.Item, k: Nibbles, v: bytes, ghost n: Node, ghost live: multiset<Digest>, ghost exact: bool)
      returns (r: Rlp.Item)
      requires StoreOk() && WellFormed(n) && !n.Ext? && orig == ItemOf(sha3, n) && Stored(Visible(), sha3, n)
      requires exact ==> Releases(n, Below(sha3, n) + live)
      modifies db`main
      ensures StoreOk() && Visible() == old(Visible())
      ensures r == ItemOf(sha3, Place(n, k, v)) && Stored(Visible(), sha3, Place(n, k, v))
      ensures exact ==> Counts(Below(sha3, Place(n, k, v)) + live)
    {
      KillNode(orig, sha3(Rlp.Encode(orig)), n, Below(sha3, n) + live, exact);
      ItemShape(sha3, n);
      if IsEmpty(orig) {
        r := Rlp.List([Rlp.Data(Encode(k, true)), Rlp.Data(v)]);
      } else if |orig.items| == 2 {
        r := Rlp.List([orig.items[0], Rlp.Data(v)]);
      } else {
        r := Rlp.List(orig.items[..16] + [Rlp.Data(v)]);
        BranchItem(sha3, n);
        BranchItem(sha3, Place(n, k, v));
      }
    }

    method CleveAt(orig: Rlp.Item, s: nat, ghost n: Node, ghost live: multiset<Digest>, ghost exact: bool)
      returns (r: Rlp.Item)
      requires StoreOk() && WellFormed(n) && IsPair(n) && orig == ItemOf(sha3, n) && Stored(Visible(), sha3, n)
      requires s <= |n.key| && Written(sha3, CleveBottom(n, s)) <= strings
      requires exact ==> Counts(Here(sha3, n) + live)
      modifies db`main
      ensures StoreOk() && Grows(old(Visible()), Visible())
      ensures r == ItemOf(sha3, Cleve(n, s)) && Stored(Visible(), sha3, Cleve(n, s))
      ensures exact ==> Counts(Below(sha3, Cleve(n, s)) + live)
    {
      hide Sound, View, Usable, Grows, Counted, Below, Here, Own;
      KillShift(sha3, n, live);
      KillNode(orig, sha3(Rlp.Encode(orig)), n, Below(sha3, n) + live, exact);
      ItemShape(sha3, n);
      CleveDigests(sha3, n, s, live);
      var k := ItemKey(orig);
      var bottom := Rlp.List([Rlp.Data(Encode(k[s..], IsLeafItem(orig))), orig.items[1]]);
      var top := [Rlp.Data(Encode(k[..s], false))];
      top := StreamNode(top, bottom, CleveBottom(n, s), Below(sha3, n) + live, exact);
      r := Rlp.List(top);
    }

    method BranchAt(orig: Rlp.Item, ghost n: Node, ghost live: multiset<Digest>, ghost exact: bool)
      returns (r: Rlp.Item)
      requires StoreOk() && WellFormed(n) && IsPair(n) && orig == ItemOf(sha3, n) && Stored(Visible(), sha3, n)
      requires n.key != [] && (n.Leaf? || |n.key| > 1) ==> Written(sha3, BranchChild(n)) <= strings
      requires exact ==> Counts(Here(sha3, n) + live)
      modifies db`main
      ensures StoreOk() && Grows(old(Visible()), Visible())
      ensures r == ItemOf(sha3, BranchOut(n)) && Stored(Visible(), sha3, BranchOut(n))
      ensures exact ==> Counts(Below(sha3, BranchOut(n)) + live)
    {
      hide Sound, View, Usable, Grows, Counted, Below, Here, Own;
      KillShift(sha3, n, live);
      KillNode(orig, sha3(Rlp.Encode(orig)), n, Below(sha3, n) + live, exact);
      ItemShape(sha3, n);
      GrowsReflexive(Visible());
      if |ItemKey(orig)| == 0 {
        r := BranchValue(orig, n, live, exact);
      } else {
        r := BranchKey(orig, n, live, exact);
      }
    }

    /** The leaf had no key left: its value moves to the value slot. */
    method BranchValue(orig: Rlp.Item, ghost n: Node, ghost live: multiset<Digest>, ghost exact: bool)
      returns (r: Rlp.Item)
      requires StoreOk() && n.Leaf? && n.key == [] && orig == ItemOf(sha3, n)
      requires exact ==> Counts(Below(sha3, n) + live)
      ensures r == ItemOf(sha3, BranchOut(n)) && Stored(Visible(), sha3, BranchOut(n))
      ensures exact ==> Counts(Below(sha3, BranchOut(n)) + live)
    {
      hide Sound, View, Usable, Grows, Counted, Ref, Here, HereAll, Code, Encode, Stored, StoredRef;
      BranchItem(sha3, BranchOut(n));
      NullRef(sha3);
      HereAllNull(sha3, NoChildren());
      NullStored(Visible(), sha3);
      OneChildStored(Visible(), sha3, 0, Null);
      ghost var refs := Refs(sha3, NoChildren());
      var out := [];
      for i := 0 to 16
        invariant out == refs[..i]
      {
        out := out + [Rlp.Data([])];
        assert refs[..i + 1] == refs[..i] + [refs[i]];
      }
      r := Rlp.List(out + [orig.items[1]]);
    }

    /** The node moves below the slot of its first nibble, with the rest of its key. */
    method BranchKey(orig: Rlp.Item, ghost n: Node, ghost live: multiset<Digest>, ghost exact: bool)
      returns (r: Rlp.Item)
      requires StoreOk() && WellFormed(n) && IsPair(n) && n.key != [] && orig == ItemOf(sha3, n)
      requires Stored(Visible(), sha3, n)
      requires n.Leaf? || |n.key| > 1 ==> Written(sha3, BranchChild(n)) <= strings
      requires exact ==> Counts(Below(sha3, n) + live)
      modifies db`main
      ensures StoreOk() && Grows(old(Visible()), Visible())
      ensures r == ItemOf(sha3, BranchOut(n)) && Stored(Visible(), sha3, BranchOut(n))
      ensures exact ==> Counts(Below(sha3, BranchOut(n)) + live)
    {
      hide Sound, View, Usable, Grows, Counted, Below, Own, Here, HereAll, Code, Encode, Ref, Stored, StoredRef;
      ItemShape(sha3, n);
      BranchItem(sha3, BranchOut(n));
      BranchDigests(sha3, n);
      GrowsReflexive(Visible());
      var k := ItemKey(orig);
      ghost var child := BranchChild(n);
      ghost var refs := OneChildRefs(sha3, k[0], child);
      var out := [];
      for i := 0 to 16
        invariant StoreOk() && Grows(old(Visible()), Visible())
        invariant out == refs[..i]
        invariant i <= k[0] ==> Visible() == old(Visible())
        invariant i > k[0] ==> StoredRef(Visible(), sha3, child)
        invariant exact ==> Counts((if i > k[0] then Below(sha3, BranchOut(n)) else Below(sha3, n)) + live)
      {
        if i == k[0] {
          out := BranchSlot(orig, out, n, live, exact);
        } else {
          out := out + [Rlp.Data([])];
        }
        assert refs[..i + 1] == refs[..i] + [refs[i]];
      }
      OneChildStored(Visible(), sha3, k[0], child);
      r := Rlp.List(out + [Rlp.Data([])]);
    }

    method BranchSlot(orig: Rlp.Item, out0: seq<Rlp.Item>,
                      ghost n: Node, ghost live: multiset<Digest>, ghost exact: bool)
      returns (out: seq<Rlp.Item>)
      requires StoreOk() && WellFormed(n) && IsPair(n) && n.key != [] && orig == ItemOf(sha3, n)
      requires Stored(Visible(), sha3, n)
      requires n.Leaf? || |n.key| > 1 ==> Written(sha3, BranchChild(n)) <= strings
      requires exact ==> Counts(Below(sha3, n) + live)
      modifies db`main
      ensures StoreOk() && Grows(old(Visible()), Visible())
      ensures out == out0 + [Ref(sha3, BranchChild(n))] && StoredRef(Visible(), sha3, BranchChild(n))
      ensures exact ==> Counts(Below(sha3, BranchOut(n)) + live)
    {
      hide Sound, View, Usable, Grows, Counted, Below, Own, Code;
      ghost var child := BranchChild(n);
      ItemShape(sha3, n);
      BranchDigests(sha3, n);
      GrowsReflexive(Visible());
      var k := ItemKey(orig);
      if IsLeafItem(orig) || |k| > 1 {
        var item := Rlp.List([Rlp.Data(Encode(k[1..], IsLeafItem(orig))), orig.items[1]]);
        out := StreamNode(out0, item, child, Below(sha3, n) + live, exact);
        assert Below(sha3, n) + live + Own(sha3, child) == Here(sha3, child) + live;
      } else {
        out := out0 + [orig.items[1]];
      }
    }

    /** mergeAt. An inline node is not in the store by itself, so it is not killed; the result
        of a split is passed on as inline as well, whatever its size. */
    method MergeAt(orig: Rlp.Item, origHash: Digest, k: Nibbles, v: bytes, inLine: bool,
                   ghost n: Node, ghost live: multiset<Digest>, ghost exact: bool)
      returns (r: Rlp.Item)
      requires StoreOk() && WellFormed(n) && Stored(Visible(), sha3, n)
      requires orig == ItemOf(sha3, n) && origHash == sha3(Code(sha3, n))
      requires MergeWrites(sha3, n, k, v) <= strings
      requires exact ==> Counts((if inLine then Below(sha3, n) else Here(sha3, n)) + live)
      requires exact ==> Settled(sha3, strings, Below(sha3, n) + live)
      requires exact && inLine && Hashed(sha3, n) ==> Forked(n, k) || (Descends(n, k) && Unshared(sha3, n, live))
      modifies db`main
      ensures StoreOk() && Grows(old(Visible()), Visible())
      ensures r == ItemOf(sha3, Merge(n, k, v)) && Stored(Visible(), sha3, Merge(n, k, v))
      ensures exact ==> Counts(Below(sha3, Merge(n, k, v)) + live)
      decreases |k|, if Descends(n, k) then 0 else 1, 1
    {
      hide Sound, View, Usable, Grows, Counted, Below, Here, Code, Stored, ItemOf;
      ItemShape(sha3, n);
      GrowsReflexive(Visible());
      if exact {
        Releasable(n, k, inLine, live);
      }
      if IsEmpty(orig) {
        r := PlaceAt(orig, k, v, n, live, exact);
      } else if |orig.items| == 2 {
        if ItemKey(orig) == k && IsLeafItem(orig) {
          r := PlaceAt(orig, k, v, n, live, exact);
        } else if IsPrefixOf(ItemKey(orig), k) && !IsLeafItem(orig) {
          r := MergeExt(orig, origHash, k, v, inLine, n, live, exact);
        } else {
          r := MergeSplit(orig, k, v, n, live, exact);
        }
      } else if |k| == 0 {
        r := PlaceAt(orig, k, v, n, live, exact);
      } else {
        r := MergeBranch(orig, origHash, k, v, inLine, n, live, exact);
      }
    }

    /** Unless the node leads on to a child, it can be killed, inline or not. */
    lemma Releasable(n: Node, k: Nibbles, inLine: bool, live: multiset<Digest>)
      requires Counts((if inLine then Below(sha3, n) else Here(sha3, n)) + live)
      requires inLine && Hashed(sha3, n) ==> Forked(n, k) || (Descends(n, k) && Unshared(sha3, n, live))
      ensures !Forked(n, k) ==> Releases(n, Below(sha3, n) + live)
      ensures !Descends(n, k) ==> Counts(Here(sha3, n) + live)
    {
      hide Counted, Below, Code, Hashed;
      KillShift(sha3, n, live);
      if !Hashed(sha3, n) {
        HereInline(sha3, n);
      }
    }

    method MergeExt(orig: Rlp.Item, origHash: Digest, k: Nibbles, v: bytes, inLine: bool,
                    ghost n: Node, ghost live: multiset<Digest>, ghost exact: bool)
      returns (r: Rlp.Item)
      requires StoreOk() && WellFormed(n) && n.Ext? && Descends(n, k) && Stored(Visible(), sha3, n)
      requires orig == ItemOf(sha3, n) && origHash == sha3(Code(sha3, n))
      requires MergeWrites(sha3, n, k, v) <= strings
      requires exact ==> Counts((if inLine then Below(sha3, n) else Here(sha3, n)) + live)
      requires exact ==> Settled(sha3, strings, Below(sha3, n) + live)
      modifies db`main
      ensures StoreOk() && Grows(old(Visible()), Visible())
      ensures r == ItemOf(sha3, Merge(n, k, v)) && Stored(Visible(), sha3, Merge(n, k, v))
      ensures exact ==> Counts(Below(sha3, Merge(n, k, v)) + live)
      decreases |k|, 0, 0
    {
      hide Sound, View, Usable, Grows, Counted, Here, Code;
      ItemShape(sha3, n);
      KillShift(sha3, n, live);
      if !inLine {
        KillNode(orig, origHash, n, Below(sha3, n) + live, exact);
      }
      var out := [orig.items[0]];
      out := MergeAtAux(out, orig.items[1], k[|ItemKey(orig)|..], v, n.child, live, exact);
      r := Rlp.List(out);
    }

    /** Cleve at the disagreement, or branch where nothing is shared, and go on from there. */
    method MergeSplit(orig: Rlp.Item, k: Nibbles, v: bytes,
                      ghost n: Node, ghost live: multiset<Digest>, ghost exact: bool)
      returns (r: Rlp.Item)
      requires StoreOk() && WellFormed(n) && IsPair(n) && !Descends(n, k) && Stored(Visible(), sha3, n)
      requires orig == ItemOf(sha3, n)
      requires MergeWrites(sha3, n, k, v) <= strings
      requires exact ==> Counts(Here(sha3, n) + live) && Settled(sha3, strings, Below(sha3, n) + live)
      modifies db`main
      ensures StoreOk() && Grows(old(Visible()), Visible())
      ensures r == ItemOf(sha3, Merge(n, k, v)) && Stored(Visible(), sha3, Merge(n, k, v))
      ensures exact ==> Counts(Below(sha3, Merge(n, k, v)) + live)
      decreases |k|, 1, 0
    {
      hide Sound, View, Usable, Grows, Counted, Below, Here, Stored, ItemOf, Written;
      ItemShape(sha3, n);
      ghost var before := Visible();
      if exact {
        SplitSettled(sha3, strings, n, k, live);
      }
      var s := SharedLength(k, ItemKey(orig));
      var split;
      if s > 0 {
        split := CleveAt(orig, s, n, live, exact);
      } else {
        split := BranchAt(orig, n, live, exact);
      }
      ghost var middle := Visible();
      r := MergeAt(split, sha3(Rlp.Encode(split)), k, v, true, Split(n, k), live, exact);
      GrowsTransitive(before, middle, Visible());
    }

    method MergeBranch(orig: Rlp.Item, origHash: Digest, k: Nibbles, v: bytes, inLine: bool,
                       ghost n: Node, ghost live: multiset<Digest>, ghost exact: bool)
      returns (r: Rlp.Item)
      requires StoreOk() && WellFormed(n) && n.Branch? && k != [] && Stored(Visible(), sha3, n)
      requires orig == ItemOf(sha3, n) && origHash == sha3(Code(sha3, n))
      requires MergeWrites(sha3, n, k, v) <= strings
      requires exact ==> Counts((if inLine then Below(sha3, n) else Here(sha3, n)) + live)
      requires exact ==> Settled(sha3, strings, Below(sha3, n) + live)
      modifies db`main
      ensures StoreOk() && Grows(old(Visible()), Visible())
      ensures r == ItemOf(sha3, Merge(n, k, v)) && Stored(Visible(), sha3, Merge(n, k, v))
      ensures exact ==> Counts(Below(sha3, Merge(n, k, v)) + live)
      decreases |k|, 0, 0
    {
      hide Sound, View, Usable, Grows, Counted, Below, Here, Code, ItemOf;
      KillShift(sha3, n, live);
      GrowsReflexive(Visible());
      if !inLine {
        KillNode(orig, origHash, n, Below(sha3, n) + live, exact);
      }
      BranchItem(sha3, n);
      ghost var child, merged := n.children[k[0]], Merge(n, k, v);
      ghost var child' := Merge(child, k[1..], v);
      assert child in n.children;
      BranchItem(sha3, merged);
      ghost var items := Refs(sha3, merged.children) + [Rlp.Data(n.value)];
      ghost var others := SlotDigests(sha3, n, k[0], child', live);
      var out: seq<Rlp.Item> := [];
      for i := 0 to 17
        invariant StoreOk() && Grows(old(Visible()), Visible())
        invariant out == items[..i]
        invariant i <= k[0] ==> Visible() == old(Visible())
        invariant i > k[0] ==> StoredRef(Visible(), sha3, child')
        invariant exact ==> Counts((if i > k[0] then Here(sha3, child') else Here(sha3, child)) + others)
      {
        if i == k[0] {
          out := MergeAtAux(out, orig.items[i], k[1..], v, child, others, exact);
        } else {
          assert orig.items[i] == items[i];
          out := out + [orig.items[i]];
        }
        OneMoreItem(items, i);
      }
      StoredSlot(old(Visible()), Visible(), sha3, n, k[0], child');
      r := Rlp.List(out);
    }

    /** mergeAtAux: through the reference, and back with a new one. */
    method MergeAtAux(out0: seq<Rlp.Item>, orig: Rlp.Item, k: Nibbles, v: bytes,
                      ghost n: Node, ghost live: multiset<Digest>, ghost exact: bool)
      returns (out: seq<Rlp.Item>)
      requires StoreOk() && WellFormed(n) && orig == Ref(sha3, n) && StoredRef(Visible(), sha3, n)
      requires MergeAuxWrites(sha3, n, k, v) <= strings
      requires exact ==> Counts(Here(sha3, n) + live) && Settled(sha3, strings, Here(sha3, n) + live)
      modifies db`main
      ensures StoreOk() && Grows(old(Visible()), Visible())
      ensures out == out0 + [Ref(sha3, Merge(n, k, v))] && StoredRef(Visible(), sha3, Merge(n, k, v))
      ensures exact ==> Counts(Here(sha3, Merge(n, k, v)) + live)
      decreases |k|, 2, 0
    {
      hide Sound, View, Usable, Grows, Counted, Below, Here, ItemOf, Merge, Settled;
      ghost var before := Visible();
      var r, removable := Deref(orig, n);
      if exact && !removable {
        HereInline(sha3, n);
      }
      if exact {
        SettledInner(sha3, strings, n, live);
      }
      var b := MergeAt(r, sha3(Rlp.Encode(r)), k, v, !removable, n, live, exact);
      ghost var middle := Visible();
      ghost var m := Merge(n, k, v);
      out := StreamNode(out0, b, m, Below(sha3, m) + live, exact);
      KillShift(sha3, m, live);
      GrowsTransitive(before, middle, Visible());
    }

    // -------------------------------------------------------------- removal

    /** What a slot in use holds: a reference to the node, or a value. */
    ghost predicate Slot(r: Rlp.Item, n: Option<Node>)
      reads this, db
    {
      match n
      case Some(c) => WellFormed(c) && c != Null && r == Ref(sha3, c) && StoredRef(Visible(), sha3, c)
      case None => r.Data? && r.data != [] && Apart(sha3, strings, r.data)
    }

    /** Looks up a byte string that is taken for a reference; None when it is too long for one. */
    method Behind(v: bytes) returns (s: Option<bytes>)
      requires StoreOk()
      ensures s == if |v| > 32 then None else Some(Read(db.main, false, db.disk, Pad(v)))
    {
      if |v| > 32 {
        return None;
      }
      var r := db.Lookup(Pad(v));
      return Some(r);
    }

    /** Behind a reference is the node, behind a value nothing. */
    lemma BehindSlot(r: Rlp.Item, n: Option<Node>)
      requires StoreOk() && Slot(r, n) && r.Data?
      ensures n.Some? ==> |r.data| == 32 && var s := Read(db.main, false, db.disk, Pad(r.data));
                          s != [] && Rlp.Decode(s) == Some(ItemOf(sha3, n.value))
      ensures n.None? && |r.data| <= 32 ==> Read(db.main, false, db.disk, Pad(r.data)) == []
    {
      hide View, Sound, Usable;
      if n.Some? {
        RefShape(sha3, n.value);
        assert Pad(r.data) == r.data;
        BehindHash(r.data, n.value);
      } else if |r.data| <= 32 {
        ReadNonEmpty(Pad(r.data));
        if Pad(r.data) in Visible() {
          SoundView(db.main, db.disk, sha3, strings, Pad(r.data));
        }
      }
    }

    lemma BehindHash(d: Digest, n: Node)
      requires StoreOk() && Holds(Visible(), sha3, n) && d == sha3(Code(sha3, n))
      ensures Read(db.main, false, db.disk, d) != []
      ensures Rlp.Decode(Read(db.main, false, db.disk, d)) == Some(ItemOf(sha3, n))
    {
      SoundView(db.main, db.disk, sha3, strings, d);
      Rlp.DecodeEncode(ItemOf(sha3, n));
    }

    /** Whether what a slot refers to has two items; None where the source throws, because a value is
        taken for a reference and is too long. */
    method IsTwoItemNode(r: Rlp.Item, ghost n: Option<Node>) returns (two: Option<bool>)
      requires StoreOk() && Slot(r, n)
      ensures two == if n.Some? then Some(IsPair(n.value)) else if |r.data| > 32 then None else Some(false)
    {
      hide Sound, View, Usable, Pad, Apart;
      if n.Some? {
        RefShape(sha3, n.value);
        ItemShape(sha3, n.value);
      }
      if r.Data? {
        BehindSlot(r, n);
        var s := Behind(r.data);
        if s.None? {
          return None;
        }
        if s.value == [] {
          return Some(false);
        }
        var it := Rlp.Decode(s.value);
        return Some(it.Some? && it.value.List? && |it.value.items| == 2);
      }
      return Some(|r.items| == 2);
    }

    /** graft: joins an item `[key, reference]` with the two-item node it refers to. */
    method GraftAt(orig: Rlp.Item, ghost p: Nibbles, ghost n: Node, ghost live: multiset<Digest>, ghost exact: bool)
      returns (r: Rlp.Item)
      requires StoreOk() && WellFormed(n) && IsPair(n) && StoredRef(Visible(), sha3, n)
      requires orig == Rlp.List([Rlp.Data(Encode(p, false)), Ref(sha3, n)])
      requires exact ==> Counts(Here(sha3, n) + live)
      modifies db`main
      ensures StoreOk() && Visible() == old(Visible())
      ensures r == ItemOf(sha3, Graft(p, n)) && Stored(Visible(), sha3, Graft(p, n))
      ensures exact ==> Counts(Below(sha3, Graft(p, n)) + live)
    {
      hide Sound, View, Usable, Counted, Below, Here;
      RefShape(sha3, n);
      ItemShape(sha3, n);
      KeyOfEncode(p, false);
      KillShift(sha3, n, live);
      GraftDigests(sha3, p, n);
      GraftStored(Visible(), sha3, p, n);
      var it;
      if orig.items[1].List? {
        it := orig.items[1];
        HereInline(sha3, n);
      } else {
        var lh := orig.items[1].data;
        it := Node(lh, n);
        KillSound(db.main, db.disk, sha3, strings, lh);
        if exact {
          KillCounted(db.main, db.disk, Below(sha3, n) + live, lh);
        }
        db.Kill(lh);
      }
      r := Rlp.List([Rlp.Data(Encode(ItemKey(orig) + ItemKey(it), IsLeafItem(it))), it.items[1]]);
    }

    /** The index of the only slot in use, leaving out `except`; 255 if there is none or more than one. */
    method UniqueInUse(items: seq<Rlp.Item>, except: nat) returns (used: nat)
      requires |items| == 17
      ensures used < 17 ==> SoleInUse(items, except, used)
      ensures used >= 17 ==> used == 255 && !exists j: nat :: SoleInUse(items, except, j)
    {
      used := 255;
      for i := 0 to 17
        invariant used == 255 || (used < i && used != except && !IsEmpty(items[used]))
        invariant forall j :: 0 <= j < i && j != except && j != used ==> IsEmpty(items[j])
      {
        if i != except && !IsEmpty(items[i]) {
          if used == 255 {
            used := i;
          } else {
            return 255;
          }
        }
      }
    }

    /** merge: the branch with one slot in use becomes an item `[key, reference]`. */
    method MergeSlot(orig: Rlp.Item, i: nat) returns (r: Rlp.Item)
      requires orig.List? && |orig.items| == 17 && i < 17
      ensures i < 16 ==> r == Rlp.List([Rlp.Data(Encode([i as nibble], false)), orig.items[i]])
      ensures i == 16 ==> r == Rlp.List([Rlp.Data(Encode([], true)), orig.items[i]])
    {
      if i != 16 {
        r := Rlp.List([Rlp.Data(Encode(Unpack([i])[1..2], false)), orig.items[i]]);
        assert Unpack([i])[1..2] == [i as nibble];
      } else {
        r := Rlp.List([Rlp.Data(Encode([], true)), orig.items[i]]);
      }
    }

    /** An extension above whatever the reference leads to, grafted if that has two items. */
    method ExtendAt(orig: Rlp.Item, ghost p: Nibbles, ghost n: Node, ghost live: multiset<Digest>, ghost exact: bool)
      returns (r: Rlp.Item)
      requires StoreOk() && WellFormed(n) && n != Null && StoredRef(Visible(), sha3, n)
      requires orig == Rlp.List([Rlp.Data(Encode(p, false)), Ref(sha3, n)])
      requires exact ==> Counts(Here(sha3, n) + live)
      modifies db`main
      ensures StoreOk() && Visible() == old(Visible())
      ensures r == ItemOf(sha3, Extend(p, n)) && Stored(Visible(), sha3, Extend(p, n))
      ensures exact ==> Counts(Below(sha3, Extend(p, n)) + live)
    {
      hide Sound, View, Usable, Counted, Here;
      var two := IsTwoItemNode(orig.items[1], Some(n));
      if two.value {
        r := GraftAt(orig, p, n, live, exact);
      } else {
        r := orig;
      }
    }

    /** deleteAt, for any key. It goes wrong exactly when the walk stops in a branch without a value and
        reads on behind the key, when a leaf ends before the key does and its value is taken for a
        reference, or when a value of more than 32 bytes is left alone in a branch. */
    method DeleteAt(orig: Rlp.Item, k: Nibbles, ghost n: Node, ghost live: multiset<Digest>, ghost exact: bool)
      returns (r: Removal<Rlp.Item>)
      requires StoreOk() && WellFormed(n) && Normal(n)
      requires orig == ItemOf(sha3, n) && Stored(Visible(), sha3, n)
      requires DeleteWrites(sha3, n, k) <= strings && AllApart(sha3, strings, n, k)
      requires exact ==> Counts(Here(sha3, n) + live)
      modifies db`main
      ensures StoreOk() && Grows(old(Visible()), Visible())
      ensures r.Failed? <==> Fails(n, k)
      ensures r.Missing? <==> !Fails(n, k) && Delete(n, k).None?
      ensures Delete(n, k).None? ==> db.main == old(db.main)
      ensures r.Removed? ==> r.value == ItemOf(sha3, Delete(n, k).value) && Stored(Visible(), sha3, Delete(n, k).value)
      ensures exact && r.Removed? ==> Counts(Below(sha3, Delete(n, k).value) + live)
      decreases n, 2
    {
      hide Sound, View, Usable, Grows, Counted, Here, Apart;
      ItemShape(sha3, n);
      GrowsReflexive(Visible());
      if IsEmpty(orig) {
        return Missing;
      }
      if |orig.items| == 2 {
        if ItemKey(orig) == k && IsLeafItem(orig) {
          KillShift(sha3, n, live);
          KillNode(orig, sha3(Rlp.Encode(orig)), n, Below(sha3, n) + live, exact);
          return Removed(Rlp.Data([]));
        } else if IsPrefixOf(ItemKey(orig), k) {
          r := DeletePair(orig, k, n, live, exact);
        } else {
          return Missing;
        }
      } else {
        BranchItem(sha3, n);
        if |k| == 0 && !IsEmpty(orig.items[16]) {
          var e := DeleteValue(orig, n, live, exact);
          return Removed(e);
        } else if |k| == 0 {
          return Failed;
        }
        r := DeleteBranch(orig, k, n, live, exact);
      }
    }

    /** The key of the two-item node is a beginning of the key, which the source also lets pass when the
        node is a leaf. */
    method DeletePair(orig: Rlp.Item, k: Nibbles, ghost n: Node, ghost live: multiset<Digest>, ghost exact: bool)
      returns (r: Removal<Rlp.Item>)
      requires StoreOk() && WellFormed(n) && Normal(n) && IsPair(n) && IsPrefixOf(n.key, k) && (n.Leaf? ==> n.key != k)
      requires orig == ItemOf(sha3, n) && Stored(Visible(), sha3, n)
      requires DeleteWrites(sha3, n, k) <= strings && AllApart(sha3, strings, n, k)
      requires exact ==> Counts(Here(sha3, n) + live)
      modifies db`main
      ensures StoreOk() && Grows(old(Visible()), Visible())
      ensures r.Failed? <==> Fails(n, k)
      ensures r.Missing? <==> !Fails(n, k) && Delete(n, k).None?
      ensures Delete(n, k).None? ==> db.main == old(db.main)
      ensures r.Removed? ==> r.value == ItemOf(sha3, Delete(n, k).value) && Stored(Visible(), sha3, Delete(n, k).value)
      ensures exact && r.Removed? ==> Counts(Below(sha3, Delete(n, k).value) + live)
      decreases n, 1
    {
      hide Sound, View, Usable, Grows, Counted, Own, Apart, Hashed;
      ItemShape(sha3, n);
      var out := [orig.items[0]];
      var rest := k[|ItemKey(orig)|..];
      ghost var others := Own(sha3, n) + live;
      if n.Ext? {
        assert Here(sha3, n) + live == Here(sha3, n.child) + others;
      }
      var more := DeleteAtAux(out, orig.items[1], rest, if n.Ext? then n.child else n, n.Leaf?, others, exact);
      if !more.Removed? {
        return if more.Failed? then Failed else Missing;
      }
      ghost var c := Delete(n.child, rest).value;
      DeleteNormal(n.child, rest);
      NormalWellFormed(c);
      assert Here(sha3, c) + others == (Here(sha3, c) + live) + Own(sha3, n);
      KillNode(orig, sha3(Rlp.Encode(orig)), n, Here(sha3, c) + live, exact);
      var e := ExtendAt(Rlp.List(more.value), n.key, c, live, exact);
      return Removed(e);
    }

    /** The key ends at a branch with a value. */
    method DeleteValue(orig: Rlp.Item, ghost n: Node, ghost live: multiset<Digest>, ghost exact: bool)
      returns (r: Rlp.Item)
      requires StoreOk() && WellFormed(n) && n.Branch?
      requires orig == ItemOf(sha3, n) && Stored(Visible(), sha3, n)
      requires exact ==> Counts(Here(sha3, n) + live)
      modifies db`main
      ensures StoreOk() && Visible() == old(Visible())
      ensures r == ItemOf(sha3, Rejig(n.children, [])) && Stored(Visible(), sha3, Rejig(n.children, []))
      ensures exact ==> Counts(Below(sha3, Rejig(n.children, [])) + live)
    {
      hide Sound, View, Usable, Counted, Own, HereAll, Ref, Here;
      BranchItem(sha3, n);
      KillShift(sha3, n, live);
      KillNode(orig, sha3(Rlp.Encode(orig)), n, Below(sha3, n) + live, exact);
      var used := UniqueInUse(orig.items, 16);
      if used != 255 {
        SoleSlot(sha3, n, used);
        OnlyDigests(sha3, n.children, [], used);
        assert n.children[used] in n.children;
        var merged := MergeSlot(orig, used);
        r := ExtendAt(merged, [used as nibble], n.children[used], live, exact);
      } else {
        r := Rlp.List(orig.items[..16] + [Rlp.Data([])]);
        NoneInUse(n);
        BranchItem(sha3, Branch(n.children, []));
      }
    }

    /** With no slot or several in use, the branch stays. */
    lemma NoneInUse(n: Node)
      requires WellFormed(n) && n.Branch?
      requires !exists j: nat :: SoleInUse(Refs(sha3, n.children) + [Rlp.Data(n.value)], 16, j)
      ensures Rejig(n.children, []) == Branch(n.children, [])
    {
      forall i: nat | i <= 16
        ensures !OnlyInUse(n.children, [], i)
      {
        SoleSlot(sha3, n, i);
      }
    }

    method DeleteBranch(orig: Rlp.Item, k: Nibbles, ghost n: Node, ghost live: multiset<Digest>, ghost exact: bool)
      returns (r: Removal<Rlp.Item>)
      requires StoreOk() && WellFormed(n) && Normal(n) && n.Branch? && k != []
      requires orig == ItemOf(sha3, n) && Stored(Visible(), sha3, n)
      requires DeleteWrites(sha3, n, k) <= strings && AllApart(sha3, strings, n, k)
      requires exact ==> Counts(Here(sha3, n) + live)
      modifies db`main
      ensures StoreOk() && Grows(old(Visible()), Visible())
      ensures r.Failed? <==> Fails(n, k)
      ensures r.Missing? <==> !Fails(n, k) && Delete(n, k).None?
      ensures Delete(n, k).None? ==> db.main == old(db.main)
      ensures r.Removed? ==> r.value == ItemOf(sha3, Delete(n, k).value) && Stored(Visible(), sha3, Delete(n, k).value)
      ensures exact && r.Removed? ==> Counts(Below(sha3, Delete(n, k).value) + live)
      decreases n, 1, 1
    {
      hide Sound, View, Usable, Grows, Counted, Own, HereAll, Ref, Rejig, Normal, Apart, OnlyInUse;
      GrowsReflexive(Visible());
      ghost var child := SlotOk(n, k);
      BelowSlot(n, k);
      var slots := DeleteSlots(orig, k, n, child, live, exact);
      if !slots.Removed? {
        return if slots.Failed? then Failed else Missing;
      }
      ghost var c := Delete(child, k[1..]).value;
      ghost var b := Branch(n.children[k[0] := c], n.value);
      assert Below(sha3, b) + (Own(sha3, n) + live) == (Below(sha3, b) + live) + Own(sha3, n);
      KillNode(orig, sha3(Rlp.Encode(orig)), n, Below(sha3, b) + live, exact);
      DeleteNormal(child, k[1..]);
      NormalWellFormed(c);
      SlotWellFormed(n, k[0], c);
      BranchItem(sha3, b);
      AloneSlot(n, k, c);
      var e := RejigAt(Rlp.List(slots.value), b, live, exact);
      if e.None? {
        return Failed;
      }
      return Removed(e.value);
    }

    /** Below a branch the walk runs into the same, unless a value is left alone right here. */
    lemma BelowSlot(n: Node, k: Nibbles)
      requires WellFormed(n) && n.Branch? && k != [] && AllApart(sha3, strings, n, k)
      ensures var child, rest := n.children[k[0]], k[1..];
              && WellFormed(child) && AllApart(sha3, strings, child, rest)
              && (Stops(n, k) <==> Stops(child, rest)) && LeafBefore(n, k) == LeafBefore(child, rest)
              && (Fails(child, rest) ==> Fails(n, k))
    {
      hide Apart;
      assert n.children[k[0]] in n.children;
    }

    /** The value that may be left alone, when the child has become `c`. */
    lemma AloneSlot(n: Node, k: Nibbles, c: Node)
      requires WellFormed(n) && n.Branch? && k != [] && AllApart(sha3, strings, n, k)
      requires Delete(n.children[k[0]], k[1..]) == Some(c) && !Fails(n.children[k[0]], k[1..])
      ensures var alone := OnlyInUse(n.children[k[0] := c], n.value, 16);
              && (alone ==> Apart(sha3, strings, n.value))
              && (Fails(n, k) <==> alone && |n.value| > 32)
    {
      hide Apart;
      if OnlyInUse(n.children[k[0] := c], n.value, 16) {
        assert !InUse(n.children[k[0] := c], n.value, k[0]);
      }
    }

    /** The loop over the slots of a branch, which bombs out if the key did not turn up. */
    method DeleteSlots(orig: Rlp.Item, k: Nibbles,
                       ghost n: Node, ghost child: Node, ghost live: multiset<Digest>, ghost exact: bool)
      returns (r: Removal<seq<Rlp.Item>>)
      requires StoreOk() && WellFormed(n) && n.Branch? && k != []
      requires child == n.children[k[0]] && WellFormed(child) && Normal(child)
      requires orig == ItemOf(sha3, n) && Stored(Visible(), sha3, n)
      requires DeleteWrites(sha3, n, k) <= strings && AllApart(sha3, strings, child, k[1..])
      requires exact ==> Counts(Here(sha3, n) + live)
      modifies db`main
      ensures StoreOk() && Grows(old(Visible()), Visible())
      ensures r.Failed? <==> Fails(child, k[1..])
      ensures r.Missing? <==> !Fails(child, k[1..]) && Delete(child, k[1..]).None?
      ensures Delete(child, k[1..]).None? ==> db.main == old(db.main)
      ensures r.Removed? ==> var b := Branch(n.children[k[0] := Delete(child, k[1..]).value], n.value);
                             && r.value == Refs(sha3, b.children) + [Rlp.Data(n.value)] && Stored(Visible(), sha3, b)
                             && (exact ==> Counts(Below(sha3, b) + (Own(sha3, n) + live)))
      decreases n, 1, 0
    {
      hide Sound, View, Usable, Grows, Counted, Own, HereAll, Ref, Normal, AllApart, Fails, ItemOf, Code, Hashed;
      BranchItem(sha3, n);
      GrowsReflexive(Visible());
      assert child in n.children;
      ghost var removed := Delete(child, k[1..]);
      ghost var c := if removed.Some? then removed.value else Null;
      ghost var items := Refs(sha3, n.children[k[0] := c]) + [Rlp.Data(n.value)];
      ghost var others := SlotDigests(sha3, n, k[0], c, Own(sha3, n) + live);
      assert Here(sha3, n) + live == Below(sha3, n) + (Own(sha3, n) + live);
      var out := [];
      for i := 0 to 17
        invariant StoreOk() && Grows(old(Visible()), Visible())
        invariant out == items[..i]
        invariant i <= k[0] ==> db.main == old(db.main)
        invariant i > k[0] ==> removed.Some? && !Fails(child, k[1..]) && StoredRef(Visible(), sha3, c)
        invariant exact ==> Counts((if i > k[0] then Here(sha3, c) else Here(sha3, child)) + others)
      {
        if i == k[0] {
          var more := DeleteAtAux(out, orig.items[i], k[1..], child, false, others, exact);
          if !more.Removed? {
            return more;
          }
          out := more.value;
        } else {
          assert orig.items[i] == items[i];
          out := out + [orig.items[i]];
        }
        assert items[..i + 1] == items[..i] + [items[i]];
      }
      StoredSlot(old(Visible()), Visible(), sha3, n, k[0], c);
      return Removed(out);
    }

    lemma OneMoreItem(items: seq<Rlp.Item>, i: nat)
      requires i < |items|
      ensures items[..i + 1] == items[..i] + [items[i]]
    {
    }

    /** The end of a removal from a branch: merge and graft if one slot is left in use. None where the
        source throws, because it takes the value for a reference. */
    method RejigAt(orig: Rlp.Item, ghost b: Node, ghost live: multiset<Digest>, ghost exact: bool)
      returns (r: Option<Rlp.Item>)
      requires StoreOk() && WellFormed(b) && b.Branch?
      requires orig == ItemOf(sha3, b) && Stored(Visible(), sha3, b)
      requires OnlyInUse(b.children, b.value, 16) ==> Apart(sha3, strings, b.value)
      requires exact ==> Counts(Below(sha3, b) + live)
      modifies db`main
      ensures StoreOk() && Visible() == old(Visible())
      ensures r.None? <==> OnlyInUse(b.children, b.value, 16) && |b.value| > 32
      ensures r.Some? ==> r.value == ItemOf(sha3, Rejig(b.children, b.value))
      ensures r.Some? ==> Stored(Visible(), sha3, Rejig(b.children, b.value))
      ensures exact && r.Some? ==> Counts(Below(sha3, Rejig(b.children, b.value)) + live)
    {
      hide Sound, View, Usable, Counted, Own, HereAll, Ref, Here, Apart, Holds, Hashed, Stored, Below, ItemOf,
           WellFormed;
      BranchItem(sha3, b);
      BranchSize(b);
      var used := UniqueInUse(orig.items, 255);
      if used == 255 {
        r := Some(orig);
        forall i: nat | i <= 16
          ensures !OnlyInUse(b.children, b.value, i)
        {
          SoleSlot(sha3, b, i);
        }
      } else {
        SoleSlot(sha3, b, used);
        NoOtherSlot(b, used);
        r := MergeOne(orig, b, used, live, exact);
      }
    }

    lemma BranchSize(b: Node)
      requires WellFormed(b) && b.Branch?
      ensures |b.children| == 16
    {
    }

    lemma NoOtherSlot(b: Node, used: nat)
      requires WellFormed(b) && b.Branch? && used <= 16 && OnlyInUse(b.children, b.value, used)
      ensures OnlyInUse(b.children, b.value, 16) <==> used == 16
    {
    }

    /** The branch has one slot in use, which replaces it. */
    method MergeOne(orig: Rlp.Item, ghost b: Node, used: nat, ghost live: multiset<Digest>, ghost exact: bool)
      returns (r: Option<Rlp.Item>)
      requires StoreOk() && WellFormed(b) && b.Branch? && used <= 16 && OnlyInUse(b.children, b.value, used)
      requires orig == ItemOf(sha3, b) && Stored(Visible(), sha3, b)
      requires used == 16 ==> Apart(sha3, strings, b.value)
      requires exact ==> Counts(Below(sha3, b) + live)
      modifies db`main
      ensures StoreOk() && Visible() == old(Visible())
      ensures r.None? <==> used == 16 && |b.value| > 32
      ensures r.Some? ==> r.value == ItemOf(sha3, Rejig(b.children, b.value))
      ensures r.Some? ==> Stored(Visible(), sha3, Rejig(b.children, b.value))
      ensures exact && r.Some? ==> Counts(Below(sha3, Rejig(b.children, b.value)) + live)
    {
      hide Sound, View, Usable, Counted, Own, HereAll, Ref, Here, Apart, Holds, Hashed, Rejig, OnlyInUse;
      BranchItem(sha3, b);
      OnlyDigests(sha3, b.children, b.value, used);
      assert used < 16 ==> b.children[used] in b.children;
      OnlyWhatIs(b, used);
      var two := IsTwoItemNode(orig.items[used], if used < 16 then Some(b.children[used]) else None);
      if two.None? {
        return None;
      }
      var merged := MergeSlot(orig, used);
      if two.value {
        merged := GraftAt(merged, [used as nibble], b.children[used], live, exact);
      }
      r := Some(merged);
    }

    lemma OnlyWhatIs(b: Node, used: nat)
      requires WellFormed(b) && b.Branch? && used <= 16 && OnlyInUse(b.children, b.value, used)
      ensures used == 16 ==> b.value != []
      ensures used < 16 ==> b.children[used] != Null
    {
    }

    /** deleteAtAux, on a reference to the node, or on the value of a leaf. */
    method DeleteAtAux(out0: seq<Rlp.Item>, orig: Rlp.Item, k: Nibbles,
                       ghost n: Node, ghost value: bool, ghost live: multiset<Digest>, ghost exact: bool)
      returns (r: Removal<seq<Rlp.Item>>)
      requires StoreOk()
      requires value ==> Slot(orig, None)
      requires !value ==> WellFormed(n) && Normal(n) && orig == Ref(sha3, n) && StoredRef(Visible(), sha3, n)
      requires !value ==> DeleteAuxWrites(sha3, n, k) <= strings && AllApart(sha3, strings, n, k)
      requires exact && !value ==> Counts(Here(sha3, n) + live)
      modifies db`main
      ensures StoreOk() && Grows(old(Visible()), Visible())
      ensures value ==> r.Failed? && db.main == old(db.main)
      ensures !value ==> (r.Failed? <==> Fails(n, k))
      ensures !value ==> (r.Missing? <==> !Fails(n, k) && Delete(n, k).None?)
      ensures !value && Delete(n, k).None? ==> db.main == old(db.main)
      ensures r.Removed? ==> r.value == out0 + [Ref(sha3, Delete(n, k).value)]
      ensures r.Removed? ==> StoredRef(Visible(), sha3, Delete(n, k).value)
      ensures exact && r.Removed? ==> Counts(Here(sha3, Delete(n, k).value) + live)
      decreases n, if value then 0 else 3
    {
      hide Sound, View, Usable, Grows, Counted, Below, Here, ItemOf, Fails, Apart;
      GrowsReflexive(Visible());
      if !value {
        RefShape(sha3, n);
      }
      if IsEmpty(orig) {
        NullWorks(n, k);
        return Missing;
      }
      ghost var before := Visible();
      var it := Follow(orig, if value then None else Some(n));
      if it.None? {
        return Failed;
      }
      var b := DeleteAt(it.value, k, n, live, exact);
      if !b.Removed? {
        return if b.Failed? then Failed else Missing;
      }
      ghost var middle := Visible();
      ghost var m := Delete(n, k).value;
      var out := StreamNode(out0, b.value, m, Below(sha3, m) + live, exact);
      KillShift(sha3, m, live);
      GrowsTransitive(before, middle, Visible());
      return Removed(out);
    }

    lemma NullWorks(n: Node, k: Nibbles)
      ensures n == Null ==> !Fails(n, k) && Delete(n, k).None?
    {
    }

    /** The item behind a slot; None where the source throws, or asserts that a node is a list. */
    method Follow(r: Rlp.Item, ghost n: Option<Node>) returns (it: Option<Rlp.Item>)
      requires StoreOk() && Slot(r, n)
      ensures it == if n.Some? then Some(ItemOf(sha3, n.value)) else None
    {
      hide Sound, View, Usable, Pad, Apart;
      if r.List? {
        return Some(r);
      }
      BehindSlot(r, n);
      var s := Behind(r.data);
      if s.None? || s.value == [] {
        return None;
      }
      return Rlp.Decode(s.value);
    }

    // -------------------------------------------------------------- the public operations

    /** The trie denotes `tree`, and all of it can be read from the root. */
    ghost predicate Readable()
      reads this, db
    {
      && StoreOk()
      && WellFormed(tree)
      && root == sha3(Code(sha3, tree))
      && Holds(Visible(), sha3, tree)
      && Stored(Visible(), sha3, tree)
    }

    /** The same, with `tree` in normal form. */
    ghost predicate Valid()
      reads this, db
    {
      && StoreOk()
      && Normal(tree)
      && root == sha3(Code(sha3, tree))
      && Holds(Visible(), sha3, tree)
      && Stored(Visible(), sha3, tree)
    }

    lemma ValidReadable()
      ensures Valid() <==> Readable() && Normal(tree)
    {
      if Normal(tree) {
        NormalWellFormed(tree);
      }
    }

    /** The reference counts are exactly right: this trie, and `live` for everything else. */
    ghost predicate Exact(live: multiset<Digest>)
      reads this, db
    {
      Counts(RootDigests(sha3, tree) + live)
    }

    /** forceInsertNode, which makes the string the new root. */
    method InsertRoot(it: Rlp.Item, ghost n: Node, ghost live: multiset<Digest>, ghost exact: bool)
      requires StoreOk() && WellFormed(n) && it == ItemOf(sha3, n) && Stored(Visible(), sha3, n)
      requires Code(sha3, n) in strings
      requires exact ==> Counts(Below(sha3, n) + live)
      modifies this`root, this`tree, db`main
      ensures Readable() && tree == n && Grows(old(Visible()), Visible())
      ensures Normal(n) ==> Valid()
      ensures exact ==> Exact(live)
    {
      hide Sound, View, Usable, Grows, Counted, Below;
      var s := Rlp.Encode(it);
      ghost var before := Visible();
      InsertSound(db.main, db.disk, sha3, strings, s);
      if exact {
        InsertCounted(db.main, db.disk, Below(sha3, n) + live, sha3(s), s);
        assert RootDigests(sha3, n) + live == Below(sha3, n) + live + multiset{sha3(s)};
      }
      db.Insert(sha3(s), s);
      StoredGrows(before, Visible(), sha3, n);
      root := sha3(s);
      tree := n;
    }

    /** init: the empty trie, whose root node is the empty string. */
    method Init(ghost live: multiset<Digest>, ghost exact: bool)
      requires StoreOk() && Code(sha3, Null) in strings
      requires exact ==> Counts(live)
      modifies this`root, this`tree, db`main
      ensures Valid() && tree == Null && Grows(old(Visible()), Visible())
      ensures exact ==> Exact(live)
    {
      assert Below(sha3, Null) + live == live;
      InsertRoot(Rlp.Data([]), Null, live, exact);
    }

    /** The digest of a short root counts although a node of its size would be inline. */
    lemma RootShift(n: Node, live: multiset<Digest>)
      ensures RootDigests(sha3, n) + live ==
              Here(sha3, n) + (if Hashed(sha3, n) then live else multiset{sha3(Code(sha3, n))} + live)
    {
      hide Below;
    }

    /** insert, for any key and value. The normal form is kept, unless the value is empty and no two keys
        part right behind its key. */
    method Insert(key: bytes, value: bytes, ghost live: multiset<Digest>, ghost exact: bool)
      requires Readable() && InsertWrites(sha3, tree, Unpack(key), value) <= strings
      requires exact ==> Normal(tree) && Exact(live) && Settled(sha3, strings, live)
      modifies this`root, this`tree, db`main
      ensures Readable() && tree == Merge(old(tree), Unpack(key), value)
      ensures Grows(old(Visible()), Visible())
      ensures old(Normal(tree)) ==> (Valid() <==> value != [] || PartAt(old(tree), Unpack(key)))
      ensures exact ==> Exact(live)
    {
      hide Sound, View, Usable, Grows, Counted, Below, Here, ItemOf, Stored, Own, PartAt;
      var k := Unpack(key);
      if Normal(tree) {
        InsertNormal(tree, k, value);
      }
      RootShift(tree, live);
      ghost var before := Visible();
      var orig := Node(root, tree);
      ghost var rest := if Hashed(sha3, tree) then live else multiset{root} + live;
      if exact {
        ValidReadable();
        TreeSettled(live, rest);
      }
      var b := MergeAt(orig, root, k, value, false, tree, rest, exact);
      ghost var m := Merge(tree, k, value);
      assert Below(sha3, m) + (multiset{root} + live) == Below(sha3, m) + live + multiset{root};
      ghost var middle := Visible();
      KillShortRoot(orig, Below(sha3, m) + live, exact);
      InsertRoot(b, m, live, exact);
      GrowsTransitive(before, middle, Visible());
    }

    lemma InsertNormal(n: Node, k: Nibbles, v: bytes)
      requires Normal(n) && WellFormed(n)
      ensures Normal(Merge(n, k, v)) <==> v != [] || PartAt(n, k)
    {
      hide Normal, PartAt, Merge;
      if v == [] {
        EmptyValueKeys(n, k);
      } else {
        MergeNormal(n, k, v);
      }
    }

    /** The digests of the trie are settled, since every branch of it has two slots in use. */
    lemma TreeSettled(live: multiset<Digest>, rest: multiset<Digest>)
      requires Valid() && Settled(sha3, strings, live)
      requires rest == live || rest == multiset{root} + live
      ensures Settled(sha3, strings, Below(sha3, tree) + rest)
    {
      hide Sound, View, Usable, Below, Settled, Stored, Normal, Code;
      CodesStored();
      SettledRoot(sha3, strings, tree);
      SettledSum(sha3, strings, RootDigests(sha3, tree), live);
      assert RootDigests(sha3, tree) + live == Below(sha3, tree) + (multiset{root} + live);
      SettledPart(sha3, strings, Below(sha3, tree) + rest, RootDigests(sha3, tree) + live);
    }

    /** forceKillNode on a root that is too short to have been killed as a node. */
    method KillShortRoot(orig: Rlp.Item, ghost live: multiset<Digest>, ghost exact: bool)
      requires StoreOk() && root == sha3(Code(sha3, tree)) && orig == ItemOf(sha3, tree)
      requires exact ==> Counts(if Hashed(sha3, tree) then live else live + multiset{root})
      modifies db`main
      ensures StoreOk() && Visible() == old(Visible())
      ensures exact ==> Counts(live)
    {
      hide Sound, View, Usable, Counted, ItemOf;
      if |Rlp.Encode(orig)| < 32 {
        KillSound(db.main, db.disk, sha3, strings, root);
        if exact {
          KillCounted(db.main, db.disk, live, root);
        }
        db.Kill(root);
      }
    }

    /** remove, for any key; not `ok` when the source throws or reads behind the key. The trie is valid
        and the same then, but counts may be off when a value was left alone. */
    method Remove(key: bytes, ghost live: multiset<Digest>, ghost exact: bool) returns (ok: bool)
      requires Valid() && RemoveWrites(sha3, tree, Unpack(key)) <= strings
      requires RemoveApart(sha3, strings, tree, Unpack(key))
      requires exact ==> Exact(live)
      modifies this`root, this`tree, db`main
      ensures Valid() && Grows(old(Visible()), Visible())
      ensures ok <==> !RemoveFails(old(tree), Unpack(key))
      ensures var r := AfterRemove(old(tree), Unpack(key));
              if ok && r.Some? then tree == r.value
              else tree == old(tree) && root == old(root) && (r.None? ==> db.main == old(db.main))
      ensures exact && (ok || AfterRemove(old(tree), Unpack(key)).None?) ==> Exact(live)
    {
      hide Sound, View, Usable, Grows, Counted, Below, Here, ItemOf, Stored, Own, Apart, Fails;
      var k := Unpack(key);
      NormalWellFormed(tree);
      DeleteNormal(tree, k);
      RootShift(tree, live);
      ghost var before := Visible();
      var orig := Node(root, tree);
      ghost var rest := if Hashed(sha3, tree) then live else multiset{root} + live;
      var b := DeleteAt(orig, k, tree, rest, exact);
      if b.Removed? {
        ghost var m := Delete(tree, k).value;
        assert Below(sha3, m) + (multiset{root} + live) == Below(sha3, m) + live + multiset{root};
        ghost var middle := Visible();
        KillShortRoot(orig, Below(sha3, m) + live, exact);
        NormalWellFormed(m);
        InsertRoot(b.value, m, live, exact);
        GrowsTransitive(before, middle, Visible());
      } else {
        StillValid(before);
      }
      ok := !b.Failed?;
    }

    /** A trie that could be read still can be when nothing was lost. */
    lemma StillValid(before: map<Digest, bytes>)
      requires StoreOk() && Normal(tree) && root == sha3(Code(sha3, tree))
      requires Holds(before, sha3, tree) && Stored(before, sha3, tree) && Grows(before, Visible())
      ensures Valid()
    {
      StoredGrows(before, Visible(), sha3, tree);
    }

    /** at: the value of the key, or nothing. */
    method At(key: bytes) returns (r: bytes)
      requires Readable()
      ensures r == Lookup(tree, Unpack(key))
    {
      var here := Node(root, tree);
      r := AtAux(here, Unpack(key), tree);
    }

    method AtAux(here: Rlp.Item, k: Nibbles, ghost n: Node) returns (r: bytes)
      requires StoreOk() && WellFormed(n) && here == ItemOf(sha3, n) && Stored(Visible(), sha3, n)
      ensures r == Lookup(n, k)
      decreases n
    {
      hide Sound, View, Usable;
      ItemShape(sha3, n);
      if IsEmpty(here) {
        return [];
      }
      if |here.items| == 2 {
        var p := ItemKey(here);
        if k == p && IsLeafItem(here) {
          return here.items[1].data;
        } else if IsPrefixOf(p, k) && !IsLeafItem(here) {
          var next, _ := Deref(here.items[1], n.child);
          r := AtAux(next, k[|p|..], n.child);
        } else {
          return [];
        }
      } else {
        BranchItem(sha3, n);
        if |k| == 0 {
          return here.items[16].data;
        }
        ghost var child := n.children[k[0]];
        assert child in n.children;
        RefShape(sha3, child);
        if IsEmpty(here.items[k[0]]) {
          return [];
        }
        var next, _ := Deref(here.items[k[0]], child);
        r := AtAux(next, k[1..], child);
      }
    }

    // -------------------------------------------------------------- opening, committing, rolling back

    /** setRoot: opens the trie at a digest. The digest of the empty trie is put in the store
        when it is missing; any other digest that cannot be read is refused (RootNotFound).
        `n` is the trie behind the digest, if it can be read. */
    method SetRoot(d: Digest, ghost n: Node) returns (found: bool)
      requires StoreOk() && Code(sha3, Null) in strings
      requires d in Visible() ==>
                 Normal(n) && d == sha3(Code(sha3, n)) && Holds(Visible(), sha3, n) && Stored(Visible(), sha3, n)
      modifies this`root, this`tree, db`main
      ensures root == d && found == (d in old(Visible()) || d == sha3(Code(sha3, Null)))
      ensures d in old(Visible()) ==> Valid() && tree == n && db.main == old(db.main)
      ensures found && d !in old(Visible()) ==> Valid() && tree == Null
      ensures !found ==> db.main == old(db.main)
    {
      hide Sound, Usable, Grows, Counted, Stored, Normal;
      ReadNonEmpty(d);
      root := d;
      tree := n;
      var present := db.Exists(d);
      if d == sha3(Rlp.Encode(Rlp.Data([]))) && !present {
        Init(multiset{}, false);
      }
      var s := db.Lookup(root);
      ReadNonEmpty(root);
      found := |s| != 0;
    }

    /** Whatever can be read is not empty. */
    lemma ReadNonEmpty(d: Digest)
      requires StoreOk()
      ensures d in Visible() <==> Read(db.main, false, db.disk, d) != []
      ensures d in Visible() <==> d in db.main || DiskRead(db.disk, d) != []
    {
    }

    /** Every digest is on disk. */
    ghost predicate Durable(digests: multiset<Digest>)
      reads this, db
    {
      forall d: Digest :: d in digests ==> OnDisk(db.disk, d)
    }

    /** Commits the store. The trie stays readable, and all of it is on disk now. */
    method Commit(ghost live: multiset<Digest>)
      requires Valid() && Exact(live) && db.disk.Some?
      modifies db
      ensures Valid() && Exact(live) && db.disk.Some?
      ensures Durable(RootDigests(sha3, tree) + live)
      ensures forall d: Digest :: OnDisk(old(db.disk), d) ==> OnDisk(db.disk, d)
    {
      ghost var all := RootDigests(sha3, tree) + live;
      CodesStored();
      ghost var before := db.main;
      CommitSound(db.main, db.disk.value, sha3, strings);
      CommitCounted(db.main, db.disk.value, all);
      db.Commit();
      Reread(all);
    }

    /** Drops the entries without references. The trie stays readable. */
    method Purge(ghost live: multiset<Digest>)
      requires Valid() && Exact(live)
      modifies db`main
      ensures Valid() && Exact(live)
      ensures forall d: Digest :: d in db.main ==> CountOf(db.main, d) > 0
    {
      CodesStored();
      db.Purge();
      Reread(RootDigests(sha3, tree) + live);
    }

    /** Throws away what was not committed and opens the trie at a root that was. */
    method Rollback(d: Digest, ghost n: Node, ghost live: multiset<Digest>)
      requires StoreOk() && Normal(n) && d == sha3(Code(sha3, n)) && RootCodesIn(strings, sha3, n)
      requires Durable(RootDigests(sha3, n) + live) && Code(sha3, Null) in strings
      modifies this`root, this`tree, db`main
      ensures Valid() && tree == n && Exact(live)
    {
      hide Usable, Grows, Stored, Normal, Sound;
      RollbackSound();
      db.Rollback();
      ghost var all := RootDigests(sha3, n) + live;
      CountedReadable(db.main, db.disk, sha3, strings, all);
      ReadableStored(Visible(), sha3, strings, n, live);
      var found := SetRoot(d, n);
    }

    lemma RollbackSound()
      requires Sound(db.main, db.disk, sha3, strings)
      ensures Sound(map[], db.disk, sha3, strings)
    {
    }

    lemma CodesStored()
      requires Valid()
      ensures RootCodesIn(strings, sha3, tree)
    {
      forall d: Digest | d in Visible()
        ensures Visible()[d] in strings
      {
        SoundView(db.main, db.disk, sha3, strings, d);
      }
      StoredCodes(Visible(), sha3, strings, tree);
    }

    /** Exact counts are enough to read the whole trie. */
    lemma Reread(all: multiset<Digest>)
      requires StoreOk() && Counts(all) && RootDigests(sha3, tree) <= all && RootCodesIn(strings, sha3, tree)
      requires Normal(tree) && root == sha3(Code(sha3, tree))
      ensures Valid()
    {
      hide Normal, Sound;
      CountedReadable(db.main, db.disk, sha3, strings, all);
      ReadableStored(Visible(), sha3, strings, tree, all - RootDigests(sha3, tree));
    }

    // -------------------------------------------------------------- check

    /** descendKey: takes the digest and all that hangs below it out of the mask. */
    method DescendKey(d: Digest, mask: set<Digest>, wasExt: bool, ghost n: Node) returns (left: set<Digest>, ok: bool)
      requires StoreOk() && Normal(n) && WellFormed(n) && d == sha3(Code(sha3, n))
      requires Holds(Visible(), sha3, n) && Stored(Visible(), sha3, n)
      requires Code(sha3, Null) in strings && (n == Null ==> d == root) && (wasExt ==> n.Branch?)
      ensures ok && left == mask - {d} - Elements(Below(sha3, n))
      decreases n, 1
    {
      hide Sound, View, Usable;
      left := mask - {d};
      if d == root && d == sha3(Rlp.Encode(Rlp.Data([]))) {
        IsNull(n);
        return left, true;
      }
      var it := Node(d, n);
      left, ok := DescendList(it, left, wasExt, n);
    }

    lemma IsNull(n: Node)
      requires StoreOk() && WellFormed(n) && Holds(Visible(), sha3, n) && Code(sha3, Null) in strings
      requires sha3(Code(sha3, n)) == sha3(Code(sha3, Null))
      ensures n == Null
    {
      SoundView(db.main, db.disk, sha3, strings, sha3(Code(sha3, n)));
      CodeInjective(sha3, strings, n, Null);
      ItemShape(sha3, n);
    }

    method DescendEntry(r: Rlp.Item, mask: set<Digest>, wasExt: bool, ghost n: Node)
      returns (left: set<Digest>, ok: bool)
      requires StoreOk() && Normal(n) && WellFormed(n) && n != Null && r == Ref(sha3, n)
      requires StoredRef(Visible(), sha3, n) && Code(sha3, Null) in strings && (wasExt ==> n.Branch?)
      ensures ok && left == mask - Elements(Here(sha3, n))
      decreases n, 2
    {
      hide Sound, View, Usable, Normal, Stored, Below;
      RefShape(sha3, n);
      ElementsSum(Below(sha3, n), Own(sha3, n));
      if r.Data? && |r.data| == 32 {
        left, ok := DescendKey(r.data, mask, wasExt, n);
      } else if r.List? {
        left, ok := DescendList(r, mask, wasExt, n);
      } else {
        left, ok := mask, false;
      }
    }

    method DescendList(it: Rlp.Item, mask: set<Digest>, wasExt: bool, ghost n: Node)
      returns (left: set<Digest>, ok: bool)
      requires StoreOk() && Normal(n) && WellFormed(n) && n != Null && it == ItemOf(sha3, n)
      requires Stored(Visible(), sha3, n) && Code(sha3, Null) in strings && (wasExt ==> n.Branch?)
      ensures ok && left == mask - Elements(Below(sha3, n))
      decreases n, 0
    {
      hide Sound, View, Usable, Here, HereAll;
      ItemShape(sha3, n);
      left, ok := mask, true;
      if it.List? && |it.items| == 2 && !wasExt {
        if !IsLeafItem(it) {
          left, ok := DescendEntry(it.items[1], left, true, n.child);
        }
      } else if it.List? && |it.items| == 17 {
        BranchItem(sha3, n);
        HereUpTo(sha3, n.children, 0);
        for i := 0 to 16
          invariant ok && left == mask - Elements(HereAll(sha3, n.children[..i]))
        {
          ghost var child := n.children[i];
          assert child in n.children;
          RefShape(sha3, child);
          HereUpTo(sha3, n.children, i);
          if !IsEmpty(it.items[i]) {
            left, ok := DescendEntry(it.items[i], left, false, child);
          }
        }
        assert n.children[..16] == n.children;
      } else {
        ok := false;
      }
    }

    /** leftOvers: the referenced digests that are not part of the trie. */
    method LeftOvers() returns (left: set<Digest>, ok: bool)
      requires Valid() && Code(sha3, Null) in strings
      ensures ok && left == Referenced(db.main) - Elements(RootDigests(sha3, tree))
    {
      NormalWellFormed(tree);
      ElementsSum(Below(sha3, tree), multiset{root});
      var keys := db.Keys();
      left, ok := DescendKey(root, keys, false, tree);
    }

    /** check: the structure is sound and, if asked for, nothing is left over. */
    method Check(requireNoLeftOvers: bool) returns (r: bool)
      requires Valid() && Code(sha3, Null) in strings
      ensures r <==> (requireNoLeftOvers ==> Referenced(db.main) <= Elements(RootDigests(sha3, tree)))
      ensures db.disk.None? && Exact(multiset{}) ==> r
    {
      hide Valid, Exact, Referenced, Elements;
      var left, ok := LeftOvers();
      r := ok && (left == {} || !requireNoLeftOvers);
      EmptyDifference(Referenced(db.main), Elements(RootDigests(sha3, tree)));
      if db.disk.None? && Exact(multiset{}) {
        NothingLeft();
      }
    }

    /** In a plain memory store with exact counts, only digests of the trie are referenced. */
    lemma NothingLeft()
      requires db.disk.None? && Exact(multiset{})
      ensures Referenced(db.main) == Elements(RootDigests(sha3, tree))
    {
      assert RootDigests(sha3, tree) + multiset{} == RootDigests(sha3, tree);
      forall d: Digest
        ensures d in Referenced(db.main) <==> d in RootDigests(sha3, tree)
      {
        assert CountOf(db.main, d) == RootDigests(sha3, tree)[d];
      }
    }
  }
}
