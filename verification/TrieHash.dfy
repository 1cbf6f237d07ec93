/** The trie root computed from scratch: hash256rlp over a sorted range of entries. */
module TrieHash {
  import opened Bytes
  import opened HexPrefix
  import opened TrieNode
  import opened TrieCode
  import opened TrieBuild
  import Rlp
  import YellowPaper

  // ---------------------------------------------------------------- the loops of the source

  lemma {:induction false} SharedPrefixShrinks(s: seq<Entry>, b: nat, i: nat, e: nat)
    requires b < i <= e <= |s|
    ensures SharedPrefix(s, b, e) <= SharedPrefix(s, b, i)
  {
    if i < e {
      SharedPrefixShrinks(s, b, i, e - 1);
    }
  }

  /** The nibbles that two keys share up to `limit`, of which `pre` are known. */
  method SharedUpTo(k: Nibbles, p: Nibbles, pre: nat, limit: nat) returns (shared: nat)
    requires pre <= limit <= |k| && limit <= |p| && k[..pre] == p[..pre]
    ensures shared == if SharedLength(k, p) < limit then SharedLength(k, p) else limit
  {
    shared := pre;
    while shared < limit && k[shared] == p[shared]
      invariant pre <= shared <= limit && k[..shared] == p[..shared]
    {
      assert k[..shared + 1] == k[..shared] + [k[shared]];
      assert p[..shared + 1] == p[..shared] + [p[shared]];
      shared := shared + 1;
    }
    if shared < limit {
      SharedUnique(k, p, shared);
    } else {
      SharedAtLeast(k, p, shared);
    }
  }

  /** The minimum over all further keys of the range; -1 stands for the largest unsigned. */
  method FindShared(s: seq<Entry>, b: nat, e: nat, pre: nat) returns (r: nat)
    requires b + 1 < e && Agree(s, b, e, pre)
    ensures r == SharedPrefix(s, b, e)
  {
    hide Agree;
    var first := AgreeOn(s, b, e, pre, b);
    var shared: int := -1;
    var i := b + 1;
    while i != e && shared != 0
      invariant b + 1 <= i <= e
      invariant i == b + 1 ==> shared == -1
      invariant i > b + 1 ==> shared == SharedPrefix(s, b, i) && pre <= shared
    {
      var key := AgreeOn(s, b, e, pre, i);
      var limit := if |first| < |key| then |first| else |key|;
      if 0 <= shared < limit {
        limit := shared;
      }
      var x := SharedUpTo(first, key, pre, limit);
      SharedAtLeast(first, key, pre);
      if shared == -1 || x < shared {
        shared := x;
      }
      i := i + 1;
    }
    SharedPrefixShrinks(s, b, i, e);
    r := shared;
  }

  method AgreeOn(s: seq<Entry>, b: nat, e: nat, pre: nat, i: nat) returns (key: Nibbles)
    requires b <= i < e && Agree(s, b, e, pre)
    ensures e <= |s| && key == s[i].key && pre <= |key| && pre <= |s[b].key| && key[..pre] == s[b].key[..pre]
  {
    key := s[i].key;
  }

  /** hash256rlp: the item of the trie of a range of entries. */
  method Hash256Rlp(sha3: Hasher, s: seq<Entry>, b: nat, e: nat, pre: nat) returns (it: Rlp.Item)
    requires Sorted(s) && Agree(s, b, e, pre)
    ensures it == ItemOf(sha3, Build(s, b, e, pre))
    decreases MaxLength(s) - pre, 1, 0
  {
    hide Earlier, SharedPrefix, Slots, Sorted;
    if b == e {
      it := Rlp.Data([]);
    } else if b + 1 == e {
      it := Rlp.List([Rlp.Data(Encode(s[b].key[pre..], true)), Rlp.Data(s[b].value)]);
    } else {
      SharedPrefixAgrees(s, b, e);
      SharedPrefixLongest(s, b, e, pre);
      var shared := FindShared(s, b, e, pre);
      if shared > pre {
        var child := Hash256Aux(sha3, s, b, e, shared);
        it := Rlp.List([Rlp.Data(Encode(s[b].key[pre..shared], false)), child]);
      } else {
        it := Hash256Branch(sha3, s, b, e, pre);
      }
    }
  }

  /** The enumeration of all 16 + 1 slots. */
  method Hash256Branch(sha3: Hasher, s: seq<Entry>, b: nat, e: nat, pre: nat) returns (it: Rlp.Item)
    requires Sorted(s) && Agree(s, b, e, pre) && b + 1 < e && SharedPrefix(s, b, e) <= pre
    ensures it == ItemOf(sha3, Build(s, b, e, pre))
    decreases MaxLength(s) - pre, 0, 17
  {
    hide Earlier, SharedPrefix, Slots, Sorted, ItemOf, Ref, RunEnd, MaxLength;
    AfterValue(s, b, e, pre);
    ghost var first := if |s[b].key| == pre then b + 1 else b;
    ghost var all := Slots(s, first, e, pre, 0);
    var out: seq<Rlp.Item> := [];
    var cur := b;
    if pre == |s[b].key| {
      cur := cur + 1;
    }
    for i := 0 to 16
      invariant b <= cur <= e && Agree(s, cur, e, pre) && Longer(s, cur, e, pre, i)
      invariant Slots(s, cur, e, pre, i) == all[i..]
      invariant out == Refs(sha3, all)[..i]
    {
      var n := FindRunEnd(s, cur, e, pre, i as nibble);
      ghost var m, c, rest := SlotsCons(s, cur, e, pre, i);
      SlotStep(all, i, c, rest);
      if cur == n {
        NullIsEmpty(sha3);
        out := out + [Rlp.Data([])];
      } else {
        var child := Hash256Aux(sha3, s, cur, n, pre + 1);
        out := out + [child];
      }
      assert Refs(sha3, all)[..i + 1] == Refs(sha3, all)[..i] + [Ref(sha3, all[i])];
      cur := n;
    }
    var value := if pre == |s[b].key| then s[b].value else [];
    BranchItem(sha3, Branch(all, value));
    it := Rlp.List(out + [Rlp.Data(value)]);
  }

  method FindRunEnd(s: seq<Entry>, b: nat, e: nat, pre: nat, i: nibble) returns (n: nat)
    requires b <= e <= |s|
    requires forall j :: b <= j < e ==> pre < |s[j].key|
    ensures n == RunEnd(s, b, e, pre, i)
  {
    n := b;
    while n != e && s[n].key[pre] == i
      invariant b <= n <= e
      invariant RunEnd(s, b, e, pre, i) == RunEnd(s, n, e, pre, i)
    {
      n := n + 1;
    }
  }

  /** hash256aux: the same as a child, inline or by its hash. */
  method Hash256Aux(sha3: Hasher, s: seq<Entry>, b: nat, e: nat, pre: nat) returns (it: Rlp.Item)
    requires Sorted(s) && Agree(s, b, e, pre)
    ensures it == Ref(sha3, Build(s, b, e, pre))
    ensures var code := Code(sha3, Build(s, b, e, pre)); if |code| < 32 then Rlp.Encode(it) == code
                                                         else it == Rlp.Data(sha3(code))
    decreases MaxLength(s) - pre, 1, 1
  {
    hide Build, ItemOf;
    ghost var n := Build(s, b, e, pre);
    var inner := Hash256Rlp(sha3, s, b, e, pre);
    var out := Rlp.Encode(inner);
    assert out == Code(sha3, n) && (|out| >= 32 <==> Hashed(sha3, n));
    if |out| < 32 {
      it := inner;
    } else {
      it := Rlp.Data(sha3(out));
    }
  }

  // ---------------------------------------------------------------- whole maps

  /** rlp256. The map is gone through in any order. */
  method Rlp256(sha3: Hasher, m: map<bytes, bytes>) returns (r: bytes, ghost hex: seq<Entry>)
    ensures Sorted(hex) && EntriesOf(hex, m) && r == Code(sha3, TrieOf(hex))
    ensures r == YellowPaper.RLP(YellowPaper.Structure(sha3, m))
  {
    hide YellowPaper.RLP, YellowPaper.Structure, Earlier, Sorted, EntriesOf, TrieOf, Code, Put, Unpack;
    NothingListed(sha3);
    if m == map[] {
      YellowPaper.TrieOfIsRoot(sha3, [], m);
      return Rlp.Encode(Rlp.Data([])), [];
    }
    var hexMap: seq<Entry> := [];
    var todo := m.Keys;
    ghost var done: map<bytes, bytes> := map[];
    while todo != {}
      invariant todo <= m.Keys && done == map k | k in m && k !in todo :: m[k]
      invariant Sorted(hexMap) && EntriesOf(hexMap, done)
    {
      var k :| k in todo;
      PutCorrect(hexMap, Unpack(k), m[k]);
      PutEntries(hexMap, done, k, m[k]);
      hexMap := Put(hexMap, Unpack(k), m[k]);
      todo := todo - {k};
      done := done[k := m[k]];
    }
    assert done == m;
    hex := hexMap;
    YellowPaper.TrieOfIsRoot(sha3, hex, m);
    WholeCode(sha3, hex);
    var it := Hash256Rlp(sha3, hexMap, 0, |hexMap|, 0);
    r := Rlp.Encode(it);
  }

  lemma NothingListed(sha3: Hasher)
    ensures Sorted([]) && EntriesOf([], map[]) && Code(sha3, TrieOf([])) == Rlp.Encode(Rlp.Data([]))
  {
  }

  lemma WholeCode(sha3: Hasher, hex: seq<Entry>)
    requires Sorted(hex)
    ensures Agree(hex, 0, |hex|, 0)
    ensures Code(sha3, TrieOf(hex)) == Rlp.Encode(ItemOf(sha3, Build(hex, 0, |hex|, 0)))
  {
    hide Earlier, Sorted, Build;
  }

  /** hash256: the root of the map, as the paper defines it. */
  method Hash256(sha3: Hasher, m: map<bytes, bytes>) returns (d: Digest, ghost hex: seq<Entry>)
    ensures Sorted(hex) && EntriesOf(hex, m) && d == sha3(Code(sha3, TrieOf(hex)))
    ensures d == YellowPaper.Root(sha3, m)
  {
    hide YellowPaper.RLP, YellowPaper.Structure, TrieOf, Code, Sorted, EntriesOf;
    var r;
    r, hex := Rlp256(sha3, m);
    d := sha3(r);
  }
}
