/** The root commits to the map: without collisions, equal roots mean equal tries, maps and
    ordered lists. */
module TrieCommitment {
  import opened Bytes
  import opened HexPrefix
  import opened TrieNode
  import opened TrieCode
  import opened TrieBuild
  import opened TrieHash
  import opened TrieEntries
  import Rlp
  import RlpStream
  import YellowPaper

  // ---------------------------------------------------------------- equal codes, equal tries

  /** A node can be told from its item: which kind it is, its key and its references. */
  lemma {:induction false} ItemInjective(sha3: Hasher, strings: iset<bytes>, m: Node, n: Node)
    requires WellFormed(m) && WellFormed(n) && ItemOf(sha3, m) == ItemOf(sha3, n)
    requires Usable(sha3, strings) && CodesIn(strings, sha3, m) && CodesIn(strings, sha3, n)
    ensures m == n
    decreases m, 0
  {
    ItemShape(sha3, m);
    ItemShape(sha3, n);
    if m.Ext? {
      var a, b := ItemOf(sha3, m).items, ItemOf(sha3, n).items;
      assert a[1] == b[1];
      RefInjective(sha3, strings, m.child, n.child);
    } else if m.Branch? {
      BranchItem(sha3, m);
      BranchItem(sha3, n);
      var a, b := Refs(sha3, m.children) + [Rlp.Data(m.value)], Refs(sha3, n.children) + [Rlp.Data(n.value)];
      assert a[16] == b[16];
      forall i | 0 <= i < 16
        ensures m.children[i] == n.children[i]
      {
        assert a[i] == b[i];
        assert m.children[i] in m.children && n.children[i] in n.children;
        RefInjective(sha3, strings, m.children[i], n.children[i]);
      }
    } else if m.Leaf? {
      assert ItemOf(sha3, m).items[1] == ItemOf(sha3, n).items[1];
    }
  }

  /** A reference is either an inline node or a hash, never both. */
  lemma {:induction false} RefInjective(sha3: Hasher, strings: iset<bytes>, m: Node, n: Node)
    requires WellFormed(m) && WellFormed(n) && Ref(sha3, m) == Ref(sha3, n)
    requires Usable(sha3, strings) && CodesInRef(strings, sha3, m) && CodesInRef(strings, sha3, n)
    ensures m == n
    decreases m, 1
  {
    RefShape(sha3, m);
    RefShape(sha3, n);
    if Hashed(sha3, m) && Hashed(sha3, n) {
      CodeInjective(sha3, strings, m, n);
    }
    ItemInjective(sha3, strings, m, n);
  }

  lemma RootCommitsToTrie(sha3: Hasher, strings: iset<bytes>, m: Node, n: Node)
    requires WellFormed(m) && WellFormed(n) && sha3(Code(sha3, m)) == sha3(Code(sha3, n))
    requires Usable(sha3, strings) && RootCodesIn(strings, sha3, m) && RootCodesIn(strings, sha3, n)
    ensures m == n
  {
    CodeInjective(sha3, strings, m, n);
    ItemInjective(sha3, strings, m, n);
  }

  /** Equal hash256 values mean equal maps. */
  lemma Hash256Commits(sha3: Hasher, strings: iset<bytes>,
                       m: map<bytes, bytes>, hex: seq<Entry>, m': map<bytes, bytes>, hex': seq<Entry>)
    requires Sorted(hex) && EntriesOf(hex, m) && Sorted(hex') && EntriesOf(hex', m')
    requires forall k: bytes :: k in m ==> m[k] != []
    requires forall k: bytes :: k in m' ==> m'[k] != []
    requires Usable(sha3, strings)
    requires RootCodesIn(strings, sha3, TrieOf(hex)) && RootCodesIn(strings, sha3, TrieOf(hex'))
    requires sha3(Code(sha3, TrieOf(hex))) == sha3(Code(sha3, TrieOf(hex')))
    ensures m == m'
  {
    hide Earlier, EntriesOf, ItemOf, CodesIn, Usable, Normal;
    TrieOfCorrect(hex, m);
    TrieOfCorrect(hex', m');
    NormalWellFormed(TrieOf(hex));
    NormalWellFormed(TrieOf(hex'));
    RootCommitsToTrie(sha3, strings, TrieOf(hex), TrieOf(hex'));
    SameTrieSameMap(TrieOf(hex), m, m');
    SameTrieSameMap(TrieOf(hex), m', m);
  }

  lemma SameTrieSameMap(n: Node, m: map<bytes, bytes>, m': map<bytes, bytes>)
    requires HoldsMap(n, m) && HoldsMap(n, m')
    requires forall k: bytes :: k in m ==> m[k] != []
    ensures forall k: bytes :: k in m ==> k in m' && m'[k] == m[k]
  {
    forall k: bytes | k in m
      ensures k in m' && m'[k] == m[k]
    {
      assert Lookup(n, Unpack(k)) == m[k];
      var k' :| k' in m' && Unpack(k') == Unpack(k);
      UnpackInjective(k', k);
    }
  }

  // ---------------------------------------------------------------- the entries of a built trie

  /** A key that is a prefix of another one has a value; the value of a branch is never empty. */
  ghost predicate Clean(s: seq<Entry>)
  {
    forall i, j :: 0 <= i < |s| && 0 <= j < |s| && i != j && IsPrefixOf(s[i].key, s[j].key) ==> s[i].value != []
  }

  /** The from-scratch trie gives back the very entries it was built from, in order. */
  lemma {:induction false} BuildEntries(s: seq<Entry>, b: nat, e: nat, pre: nat, p: Nibbles)
    requires Sorted(s) && Agree(s, b, e, pre) && Clean(s)
    requires b < e ==> p == s[b].key[..pre]
    ensures Entries(Build(s, b, e, pre), p) == s[b..e]
    decreases MaxLength(s) - pre, 1, 0
  {
    hide Earlier, SharedPrefix, SlotEntries, Slots, Clean;
    if b + 1 == e {
      assert p + s[b].key[pre..] == s[b].key;
      assert s[b..e] == [s[b]];
    } else if b < e {
      SharedPrefixAgrees(s, b, e);
      SharedPrefixLongest(s, b, e, pre);
      var shared := SharedPrefix(s, b, e);
      if shared > pre {
        BuildEntries(s, b, e, shared, s[b].key[..shared]);
        assert p + s[b].key[pre..shared] == s[b].key[..shared];
      } else {
        AfterValue(s, b, e, pre);
        var here := |s[b].key| == pre;
        var first := if here then b + 1 else b;
        SlotsEntries(s, first, e, pre, 0, p, Slots(s, first, e, pre, 0));
        if here {
          assert s[b].value != [] by { FirstNotEmpty(s, b, e, pre); }
          assert s[b].key[..pre] == s[b].key;
          assert s[b..e] == [s[b]] + s[b + 1..e];
        }
      }
    }
  }

  lemma {:induction false} SlotsEntries(s: seq<Entry>, b: nat, e: nat, pre: nat, i: nat, p: Nibbles, all: seq<Node>)
    requires Sorted(s) && Agree(s, b, e, pre) && Clean(s) && i <= 16 && Longer(s, b, e, pre, i)
    requires b < e ==> p == s[b].key[..pre]
    requires |all| == 16 && all[i..] == Slots(s, b, e, pre, i)
    ensures SlotEntries(all, p, i) == s[b..e]
    decreases MaxLength(s) - pre, 0, 16 - i
  {
    hide Earlier, Clean, RunEnd, Build, Entries, Slots;
    if i < 16 {
      var n, c, rest := SlotsCons(s, b, e, pre, i);
      SlotStep(all, i, c, rest);
      var q := p + [i as nibble];
      if b < n {
        assert s[b].key[..pre + 1] == q;
        BuildEntries(s, b, n, pre + 1, q);
      }
      if n < e {
        assert p == s[n].key[..pre];
      }
      SlotsEntries(s, n, e, pre, i + 1, p, all);
      NullEntries(q);
      assert s[b..e] == s[b..n] + s[n..e];
    }
  }

  /** A key that ends where others go on is a prefix of them, so its value is not empty. */
  lemma FirstNotEmpty(s: seq<Entry>, b: nat, e: nat, pre: nat)
    requires Agree(s, b, e, pre) && Clean(s) && b + 1 < e && |s[b].key| == pre
    ensures s[b].value != []
  {
    assert s[b].key[..pre] == s[b].key;
    assert IsPrefixOf(s[b].key, s[b + 1].key);
  }

  lemma NullEntries(p: Nibbles)
    ensures Entries(Null, p) == []
  {
  }

  // ---------------------------------------------------------------- ordered lists

  /** The source counts the items in an unsigned type of 32 bits. */
  const INDICES: nat := 0x1_0000_0000

  /** The key of an index: its RLP form as an integer. */
  function IndexKey(j: nat): bytes
  {
    Rlp.Encode(Rlp.Data(BigEndian(j)))
  }

  /** The map from index keys to items. */
  ghost function ListMap(data: seq<bytes>): map<bytes, bytes>
  {
    if data == [] then map[]
    else ListMap(data[..|data| - 1])[IndexKey((|data| - 1) % INDICES) := data[|data| - 1]]
  }

  /** rlp of an index: what a stream holds when only the number was written to it. */
  method RlpOf(j: nat) returns (b: bytes)
    requires j < INDICES
    ensures b == IndexKey(j)
  {
    hide Rlp.EncodeData, BigEndian;
    var stream := new RlpStream.RLPStream();
    BigEndianWidth(j, 4);
    assert Pow256(4) == INDICES;
    RlpStream.AddedAtTop(RlpStream.Output([], []), Rlp.EncodeData(BigEndian(j)));
    assert [] + Rlp.EncodeData(BigEndian(j)) == Rlp.EncodeData(BigEndian(j));
    var ok := stream.AppendInt(j);
    var r := stream.Finished();
    b := r.value;
  }

  method OrderedTrieRoot(sha3: Hasher, data: seq<bytes>) returns (d: Digest, ghost hex: seq<Entry>)
    ensures Sorted(hex) && EntriesOf(hex, ListMap(data)) && d == sha3(Code(sha3, TrieOf(hex)))
    ensures d == YellowPaper.Root(sha3, ListMap(data))
  {
    hide YellowPaper.Root, IndexKey, EntriesOf, Sorted, Earlier, TrieOf, Code;
    var m: map<bytes, bytes> := map[];
    var j: nat := 0;
    for i := 0 to |data|
      invariant m == ListMap(data[..i]) && j == i % INDICES
    {
      assert data[..i + 1][..i] == data[..i];
      var k := RlpOf(j);
      m := m[k := data[i]];
      NextIndex(i);
      j := (j + 1) % INDICES;
    }
    assert data[..|data|] == data;
    d, hex := Hash256(sha3, m);
  }

  lemma NextIndex(i: nat)
    ensures (i % INDICES + 1) % INDICES == (i + 1) % INDICES
  {
  }

  /** The bytes are the strict encoding of the number `j`, without leading zeros. */
  ghost predicate Spells(k: bytes, j: nat)
  {
    match Rlp.Decode(k)
    case Some(Data(d)) => (d == [] || d[0] != 0) && FromBigEndian(d) == j
    case _ => false
  }

  lemma IndexSpelled(j: nat)
    requires j < INDICES
    ensures Spells(IndexKey(j), j)
  {
    IndexFits(j);
    Rlp.DecodeEncode(Rlp.Data(BigEndian(j)));
    BigEndianRoundTrip(j);
  }

  lemma SpelledOnce(k: bytes, j: nat)
    requires Spells(k, j)
    ensures k == IndexKey(j)
  {
    var it := Rlp.Decode(k).value;
    Rlp.EncodeDecode(k, it);
    BigEndianCanonical(it.data);
  }

  /** Which of `n` items is filed under the number `r`: the last one whose index is `r` modulo 2 to the 32. */
  ghost predicate FiledLast(n: nat, i: nat, r: nat)
  {
    i < n <= i + INDICES && i % INDICES == r
  }

  lemma {:induction false} KeyFiled(data: seq<bytes>, k: bytes) returns (i: nat, r: nat)
    requires k in ListMap(data)
    ensures FiledLast(|data|, i, r) && Spells(k, r) && ListMap(data)[k] == data[i]
  {
    hide Spells;
    var last := |data| - 1;
    if k == IndexKey(last % INDICES) {
      i, r := last, last % INDICES;
      IndexSpelled(r);
    } else {
      i, r := KeyFiled(data[..last], k);
      SpelledOnce(k, r);
      StillLast(last, i, r);
    }
  }

  lemma {:induction false} ItemFiled(data: seq<bytes>, i: nat, r: nat)
    requires FiledLast(|data|, i, r)
    ensures Spells(IndexKey(r), r) && IndexKey(r) in ListMap(data) && ListMap(data)[IndexKey(r)] == data[i]
    decreases |data|
  {
    hide Spells, IndexKey;
    var last := |data| - 1;
    IndexSpelled(r);
    if i != last {
      OtherThanLast(last, i, r);
      ItemFiled(data[..last], i, r);
      IndexSpelled(last % INDICES);
      SpelledApart(IndexKey(r), r, last % INDICES);
    }
  }

  /** Every item of the last 2 to the 32 is filed under its index modulo 2 to the 32, and nothing else is
      in the map. */
  lemma ListMapExactly(data: seq<bytes>)
    ensures forall k: bytes :: k in ListMap(data) ==>
              exists i: nat, r: nat :: FiledLast(|data|, i, r) && Spells(k, r) && ListMap(data)[k] == data[i]
    ensures forall i: nat, r: nat :: FiledLast(|data|, i, r) ==>
              exists k: bytes :: Spells(k, r) && k in ListMap(data) && ListMap(data)[k] == data[i]
  {
    hide Spells, ListMap, IndexKey;
    forall k: bytes | k in ListMap(data)
      ensures exists i: nat, r: nat :: FiledLast(|data|, i, r) && Spells(k, r) && ListMap(data)[k] == data[i]
    {
      var i, r := KeyFiled(data, k);
    }
    forall i: nat, r: nat | FiledLast(|data|, i, r)
      ensures exists k: bytes :: Spells(k, r) && k in ListMap(data) && ListMap(data)[k] == data[i]
    {
      ItemFiled(data, i, r);
    }
  }

  lemma SpelledApart(k: bytes, i: nat, j: nat)
    ensures Spells(k, i) && Spells(k, j) ==> i == j
  {
  }

  lemma StillLast(n: nat, i: nat, r: nat)
    requires FiledLast(n, i, r) && r != n % INDICES
    ensures FiledLast(n + 1, i, r)
  {
  }

  lemma OtherThanLast(n: nat, i: nat, r: nat)
    requires FiledLast(n + 1, i, r) && i != n
    ensures r != n % INDICES
  {
    var d := n - i;
    assert 0 < d < INDICES;
  }

  function WithFirst(data: seq<bytes>, x: bytes): seq<bytes>
    requires data != []
  {
    data[0 := x]
  }

  /** So the map tells the first item of a list exactly while there are at most 2 to the 32. */
  lemma FirstItemTold(data: seq<bytes>)
    requires data != []
    ensures (forall x: bytes :: ListMap(WithFirst(data, x)) == ListMap(data)) <==> |data| > INDICES
  {
    hide ListMap, IndexKey;
    if |data| > INDICES {
      forall x: bytes
        ensures ListMap(WithFirst(data, x)) == ListMap(data)
      {
        FirstOverwritten(data, x);
      }
    } else {
      var x := data[0] + [0];
      ItemFiled(data, 0, 0);
      ItemFiled(WithFirst(data, x), 0, 0);
      assert ListMap(WithFirst(data, x)) != ListMap(data);
    }
  }

  lemma {:induction false} FirstOverwritten(data: seq<bytes>, x: bytes)
    requires |data| > INDICES
    ensures ListMap(WithFirst(data, x)) == ListMap(data)
  {
    var last, data' := |data| - 1, WithFirst(data, x);
    assert data'[..last] == WithFirst(data[..last], x);
    if last > INDICES {
      FirstOverwritten(data[..last], x);
    } else {
      OnlyFirstDiffers(data[..last], x);
      assert last % INDICES == 0;
    }
  }

  /** Lists that differ in the first item only have maps that differ in its entry only. */
  lemma {:induction false} OnlyFirstDiffers(data: seq<bytes>, x: bytes)
    requires 0 < |data| <= INDICES
    ensures ListMap(WithFirst(data, x)) == ListMap(data)[IndexKey(0) := x]
  {
    var last, data' := |data| - 1, WithFirst(data, x);
    if last > 0 {
      assert data'[..last] == WithFirst(data[..last], x);
      OnlyFirstDiffers(data[..last], x);
      IndexKeysApart(last);
    } else {
      assert data'[..0] == [] == data[..0];
    }
  }

  lemma IndexKeysApart(j: nat)
    requires 0 < j < INDICES
    ensures IndexKey(j % INDICES) != IndexKey(0)
  {
    IndexSpelled(j);
    IndexSpelled(0);
  }

  lemma IndexFits(j: nat)
    requires j < TWO64
    ensures Rlp.Fits(Rlp.Data(BigEndian(j)))
  {
    BigEndianWidth64(j);
  }

  /** No index key is a prefix of another one. */
  lemma IndexKeysPrefixFree(i: nat, j: nat)
    requires i < TWO64 && j < TWO64 && IsPrefixOf(Unpack(IndexKey(i)), Unpack(IndexKey(j)))
    ensures i == j
  {
    var a, b := IndexKey(i), IndexKey(j);
    assert Unpack(b[..|a|]) == Unpack(b)[..2 * |a|];
    UnpackInjective(b[..|a|], a);
    IndexFits(i);
    IndexFits(j);
    Rlp.PrefixFree(Rlp.Data(BigEndian(i)), Rlp.Data(BigEndian(j)));
    BigEndianRoundTrip(i);
    BigEndianRoundTrip(j);
  }

  lemma IndexKeysDistinct(i: nat, j: nat)
    requires i < TWO64 && j < TWO64 && IndexKey(i) == IndexKey(j)
    ensures i == j
  {
    IndexKeysPrefixFree(i, j);
  }

  /** The list map has exactly the index keys of the list. */
  lemma {:induction false} ListMapIs(data: seq<bytes>)
    requires |data| <= INDICES
    ensures forall j :: 0 <= j < |data| ==> IndexKey(j) in ListMap(data) && ListMap(data)[IndexKey(j)] == data[j]
    ensures forall k: bytes :: k in ListMap(data) ==> exists j: nat :: j < |data| && k == IndexKey(j)
  {
    if data != [] {
      var last := |data| - 1;
      ListMapIs(data[..last]);
      assert last % INDICES == last;
      forall j: nat | j < |data|
        ensures IndexKey(j) in ListMap(data) && ListMap(data)[IndexKey(j)] == data[j]
      {
        if IndexKey(j) == IndexKey(last) {
          IndexKeysDistinct(j, last);
        } else {
          assert data[..last][j] == data[j];
        }
      }
    }
  }

  lemma ListEntriesClean(hex: seq<Entry>, data: seq<bytes>)
    requires |data| <= INDICES && Sorted(hex) && EntriesOf(hex, ListMap(data))
    ensures Clean(hex)
  {
    forall i: nat, j: nat | i < |hex| && j < |hex| && IsPrefixOf(hex[i].key, hex[j].key)
      ensures i == j
    {
      ListKeysPrefixFree(hex, data, i, j);
    }
  }

  lemma ListKeysPrefixFree(hex: seq<Entry>, data: seq<bytes>, i: nat, j: nat)
    requires |data| <= INDICES && Sorted(hex) && EntriesOf(hex, ListMap(data))
    requires i < |hex| && j < |hex| && IsPrefixOf(hex[i].key, hex[j].key)
    ensures i == j
  {
    ListMapIs(data);
    assert hex[i] in hex && hex[j] in hex;
    if i != j {
      SortedDistinct(hex, i, j);
    }
    var a: bytes :| a in ListMap(data) && hex[i] == Entry(Unpack(a), ListMap(data)[a]);
    var b: bytes :| b in ListMap(data) && hex[j] == Entry(Unpack(b), ListMap(data)[b]);
    var x: nat :| x < |data| && a == IndexKey(x);
    var y: nat :| y < |data| && b == IndexKey(y);
    IndexKeysPrefixFree(x, y);
  }

  lemma SortedDistinct(s: seq<Entry>, i: nat, j: nat)
    requires Sorted(s) && i < |s| && j < |s| && i != j
    ensures s[i].key != s[j].key
  {
    EarlierTotal(s[i].key, s[i].key);
    if i < j {
      assert Earlier(s[i].key, s[j].key);
    } else {
      assert Earlier(s[j].key, s[i].key);
    }
  }

  /** Equal orderedTrieRoot values mean equal lists, empty items included. */
  lemma OrderedRootCommits(sha3: Hasher, strings: iset<bytes>,
                           data: seq<bytes>, hex: seq<Entry>, data': seq<bytes>, hex': seq<Entry>)
    requires |data| <= INDICES && |data'| <= INDICES
    requires Sorted(hex) && EntriesOf(hex, ListMap(data)) && Sorted(hex') && EntriesOf(hex', ListMap(data'))
    requires Usable(sha3, strings)
    requires RootCodesIn(strings, sha3, TrieOf(hex)) && RootCodesIn(strings, sha3, TrieOf(hex'))
    requires sha3(Code(sha3, TrieOf(hex))) == sha3(Code(sha3, TrieOf(hex')))
    ensures data == data'
  {
    hide *;
    ListTrieEntries(hex, data);
    ListTrieEntries(hex', data');
    RootCommitsToTrie(sha3, strings, TrieOf(hex), TrieOf(hex'));
    SameEntriesSameList(hex, data, data');
    SameEntriesSameList(hex, data', data);
  }

  lemma ListTrieEntries(hex: seq<Entry>, data: seq<bytes>)
    requires |data| <= INDICES && Sorted(hex) && EntriesOf(hex, ListMap(data))
    ensures WellFormed(TrieOf(hex)) && Entries(TrieOf(hex), []) == hex
  {
    hide Earlier, Clean, EntriesOf, Build;
    BuildWellFormed(hex, 0, |hex|, 0);
    ListEntriesClean(hex, data);
    BuildEntries(hex, 0, |hex|, 0, []);
    assert hex[0..|hex|] == hex;
  }

  /** Equal entries, so the one list has every item of the other at the same place. */
  lemma SameEntriesSameList(hex: seq<Entry>, data: seq<bytes>, data': seq<bytes>)
    requires |data| <= INDICES && |data'| <= INDICES && Sorted(hex)
    requires EntriesOf(hex, ListMap(data)) && EntriesOf(hex, ListMap(data'))
    ensures |data| <= |data'| && forall j :: 0 <= j < |data| ==> data[j] == data'[j]
  {
    ListMapIs(data);
    ListMapIs(data');
    forall j: nat | j < |data|
      ensures j < |data'| && data[j] == data'[j]
    {
      var k := IndexKey(j);
      var x := Entry(Unpack(k), data[j]);
      assert x in hex;
      var k' :| k' in ListMap(data') && x == Entry(Unpack(k'), ListMap(data')[k']);
      UnpackInjective(k', k);
      var j': nat :| j' < |data'| && k' == IndexKey(j');
      IndexKeysDistinct(j, j');
    }
    if |data| > 0 {
      assert |data| - 1 < |data'|;
    }
  }

  /** The from-scratch trie is well formed, whatever the values. */
  lemma {:induction false} BuildWellFormed(s: seq<Entry>, b: nat, e: nat, pre: nat)
    requires Sorted(s) && Agree(s, b, e, pre)
    ensures WellFormed(Build(s, b, e, pre))
    decreases MaxLength(s) - pre, 1, 0
  {
    if b + 1 < e {
      SharedPrefixAgrees(s, b, e);
      SharedPrefixLongest(s, b, e, pre);
      var shared := SharedPrefix(s, b, e);
      if shared > pre {
        BuildWellFormed(s, b, e, shared);
      } else {
        AfterValue(s, b, e, pre);
        SlotsWellFormed(s, if |s[b].key| == pre then b + 1 else b, e, pre, 0);
      }
    }
  }

  lemma {:induction false} SlotsWellFormed(s: seq<Entry>, b: nat, e: nat, pre: nat, i: nat)
    requires Sorted(s) && Agree(s, b, e, pre) && i <= 16 && Longer(s, b, e, pre, i)
    ensures forall c :: c in Slots(s, b, e, pre, i) ==> WellFormed(c)
    decreases MaxLength(s) - pre, 0, 16 - i
  {
    hide Earlier, RunEnd, Build;
    if i < 16 {
      var n, c, rest := SlotsCons(s, b, e, pre, i);
      if b < n {
        BuildWellFormed(s, b, n, pre + 1);
      }
      SlotsWellFormed(s, n, e, pre, i + 1);
      assert Slots(s, b, e, pre, i) == [c] + rest;
    }
  }
}
