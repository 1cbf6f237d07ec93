/** The trie that hash256rlp makes of a sorted range of entries, described as a tree. */
module TrieBuild {
  import opened Bytes
  import opened HexPrefix
  import opened TrieNode
  import opened TrieCode
  import Rlp

  datatype Entry = Entry(key: Nibbles, value: bytes)

  /** An ordered map: entries in strictly ascending order of their keys. */
  ghost predicate Sorted(s: seq<Entry>)
  {
    forall i, j :: 0 <= i < j < |s| ==> Earlier(s[i].key, s[j].key)
  }

  function MaxLength(s: seq<Entry>): (m: nat)
    ensures forall i :: 0 <= i < |s| ==> |s[i].key| <= m
  {
    if s == [] then 0
    else
      var m := MaxLength(s[1..]);
      assert forall i :: 1 <= i < |s| ==> s[i] == s[1..][i - 1];
      if |s[0].key| > m then |s[0].key| else m
  }

  /** All keys of the range agree on their first `pre` nibbles. */
  ghost predicate Agree(s: seq<Entry>, b: nat, e: nat, pre: nat)
  {
    && b <= e <= |s|
    && (b < e ==> pre <= |s[b].key|)
    && forall i :: b <= i < e ==> pre <= |s[i].key| && s[i].key[..pre] == s[b].key[..pre]
  }

  /** The length of the prefix that all keys of a range share with its first key. */
  function SharedPrefix(s: seq<Entry>, b: nat, e: nat): nat
    requires b < e <= |s|
  {
    if e == b + 1 then |s[b].key|
    else
      var m, x := SharedPrefix(s, b, e - 1), SharedLength(s[b].key, s[e - 1].key);
      if x < m then x else m
  }

  /** The end of the run of keys from `b` on that have `i` at position `pre`. */
  function RunEnd(s: seq<Entry>, b: nat, e: nat, pre: nat, i: nibble): (n: nat)
    requires b <= e <= |s|
    requires forall j :: b <= j < e ==> pre < |s[j].key|
    ensures b <= n <= e
    ensures forall j :: b <= j < n ==> s[j].key[pre] == i
    ensures n < e ==> s[n].key[pre] != i
    decreases e - b
  {
    if b == e || s[b].key[pre] != i then b else RunEnd(s, b + 1, e, pre, i)
  }

  /** The trie of the entries `b..e`, of whose keys the first `pre` nibbles are used up. */
  ghost function Build(s: seq<Entry>, b: nat, e: nat, pre: nat): Node
    requires Sorted(s) && Agree(s, b, e, pre)
    decreases MaxLength(s) - pre, 1, 0
  {
    if b == e then Null
    else if b + 1 == e then Leaf(s[b].key[pre..], s[b].value)
    else
      SharedPrefixAgrees(s, b, e);
      SharedPrefixLongest(s, b, e, pre);
      var shared := SharedPrefix(s, b, e);
      if shared > pre then Ext(s[b].key[pre..shared], Build(s, b, e, shared))
      else
        AfterValue(s, b, e, pre);
        var here := |s[b].key| == pre;
        Branch(Slots(s, if here then b + 1 else b, e, pre, 0), if here then s[b].value else [])
  }

  /** The slots from `i` on of a branch over the entries `b..e`. */
  ghost function Slots(s: seq<Entry>, b: nat, e: nat, pre: nat, i: nat): (r: seq<Node>)
    requires Sorted(s) && Agree(s, b, e, pre) && i <= 16
    requires forall j :: b <= j < e ==> pre < |s[j].key|
    ensures |r| == 16 - i
    decreases MaxLength(s) - pre, 0, 16 - i
  {
    if i == 16 then []
    else
      var n := RunEnd(s, b, e, pre, i as nibble);
      RunAgrees(s, b, e, pre, i as nibble);
      [if b == n then Null else Build(s, b, n, pre + 1)] + Slots(s, n, e, pre, i + 1)
  }

  // ---------------------------------------------------------------- shared prefixes

  lemma {:induction false} SharedPrefixAgrees(s: seq<Entry>, b: nat, e: nat)
    requires b < e <= |s|
    ensures Agree(s, b, e, SharedPrefix(s, b, e))
    decreases e
  {
    if e > b + 1 {
      SharedPrefixAgrees(s, b, e - 1);
      var m, x, shared := SharedPrefix(s, b, e - 1), SharedLength(s[b].key, s[e - 1].key), SharedPrefix(s, b, e);
      forall i | b <= i < e
        ensures shared <= |s[i].key| && s[i].key[..shared] == s[b].key[..shared]
      {
        ShorterAgree(s[i].key, s[b].key, if i < e - 1 then m else x, shared);
      }
    }
  }

  lemma ShorterAgree(a: Nibbles, b: Nibbles, m: nat, n: nat)
    requires n <= m <= |a| && m <= |b| && a[..m] == b[..m]
    ensures a[..n] == b[..n]
  {
    assert a[..m][..n] == a[..n] && b[..m][..n] == b[..n];
  }

  /** No longer prefix is shared. */
  lemma {:induction false} SharedPrefixLongest(s: seq<Entry>, b: nat, e: nat, pre: nat)
    requires b < e && Agree(s, b, e, pre)
    ensures pre <= SharedPrefix(s, b, e)
    decreases e
  {
    if e > b + 1 {
      SharedPrefixLongest(s, b, e - 1, pre);
      SharedAtLeast(s[b].key, s[e - 1].key, pre);
    }
  }

  lemma {:induction false} SharedAtLeast(k: Nibbles, p: Nibbles, i: nat)
    requires i <= |k| && i <= |p| && k[..i] == p[..i]
    ensures SharedLength(k, p) >= i
  {
    if i > 0 {
      assert k[..i][0] == p[..i][0];
      assert k[1..][..i - 1] == k[..i][1..] && p[1..][..i - 1] == p[..i][1..];
      SharedAtLeast(k[1..], p[1..], i - 1);
    }
  }

  // ---------------------------------------------------------------- the order of keys

  /** The order of keys is decided after a common prefix. */
  lemma {:induction false} EarlierDrop(k: Nibbles, p: Nibbles, i: nat)
    requires i <= |k| && i <= |p| && k[..i] == p[..i]
    ensures Earlier(k, p) == Earlier(k[i..], p[i..])
  {
    if i > 0 {
      assert k[..i][i - 1] == p[..i][i - 1];
      assert k[..i][..i - 1] == k[..i - 1] && p[..i][..i - 1] == p[..i - 1];
      EarlierDrop(k, p, i - 1);
      EarlierAt(k, p, i - 1);
    }
  }

  /** A key is not before its own prefixes. */
  lemma PrefixNotLater(k: Nibbles, p: Nibbles)
    requires IsPrefixOf(p, k)
    ensures !Earlier(k, p)
  {
    EarlierDrop(k, p, |p|);
  }

  /** Only the first key of a range can end where the common prefix ends. */
  lemma AfterValue(s: seq<Entry>, b: nat, e: nat, pre: nat)
    requires Sorted(s) && Agree(s, b, e, pre) && b < e
    ensures forall j :: b < j < e ==> pre < |s[j].key|
  {
    forall j | b < j < e
      ensures pre < |s[j].key|
    {
      if |s[j].key| == pre {
        assert s[j].key[..pre] == s[j].key;
        PrefixNotLater(s[b].key, s[j].key);
      }
    }
  }

  lemma RunAgrees(s: seq<Entry>, b: nat, e: nat, pre: nat, i: nibble)
    requires Agree(s, b, e, pre)
    requires forall j :: b <= j < e ==> pre < |s[j].key|
    ensures Agree(s, b, RunEnd(s, b, e, pre, i), pre + 1) && Agree(s, RunEnd(s, b, e, pre, i), e, pre)
  {
    var n := RunEnd(s, b, e, pre, i);
    forall j | b <= j < n
      ensures s[j].key[..pre + 1] == s[b].key[..pre + 1]
    {
      assert s[j].key[..pre + 1] == s[j].key[..pre] + [i];
      assert s[b].key[..pre + 1] == s[b].key[..pre] + [i];
    }
  }

  /** In a sorted range the nibble after the common prefix never goes down. */
  lemma Ascending(s: seq<Entry>, b: nat, e: nat, pre: nat, i: nat, j: nat)
    requires Sorted(s) && Agree(s, b, e, pre) && b <= i < j < e
    requires pre < |s[i].key| && pre < |s[j].key|
    ensures s[i].key[pre] <= s[j].key[pre]
  {
    EarlierDrop(s[i].key, s[j].key, pre);
    EarlierAt(s[i].key, s[j].key, pre);
  }

  // ---------------------------------------------------------------- the map of a built trie

  /** Some key of the range is `q` after its first `pre` nibbles. */
  ghost predicate Listed(s: seq<Entry>, b: nat, e: nat, pre: nat, q: Nibbles)
  {
    exists i :: b <= i < e <= |s| && pre <= |s[i].key| && s[i].key[pre..] == q
  }

  /** The trie holds exactly the entries of the range, with `pre` nibbles taken off. */
  ghost predicate Denotes(n: Node, s: seq<Entry>, b: nat, e: nat, pre: nat)
    requires Agree(s, b, e, pre)
  {
    && (forall i :: b <= i < e ==> Lookup(n, s[i].key[pre..]) == s[i].value)
    && (forall q: Nibbles :: Lookup(n, q) != [] ==> Listed(s, b, e, pre, q))
  }

  ghost predicate NonEmpty(s: seq<Entry>)
  {
    forall i :: 0 <= i < |s| ==> s[i].value != []
  }

  /** Some key of the range goes on with the nibble `c` and then `q`. */
  ghost predicate ListedUnder(s: seq<Entry>, b: nat, e: nat, pre: nat, c: nat, q: Nibbles)
  {
    exists j :: b <= j < e <= |s| && pre < |s[j].key| && s[j].key[pre] == c && s[j].key[pre + 1..] == q
  }

  ghost predicate Longer(s: seq<Entry>, b: nat, e: nat, pre: nat, i: nat)
  {
    e <= |s| && forall j :: b <= j < e ==> pre < |s[j].key| && i <= s[j].key[pre]
  }

  /** The slots hold exactly the entries of the range, with one more nibble taken off. */
  ghost predicate SlotsDenote(r: seq<Node>, s: seq<Entry>, b: nat, e: nat, pre: nat, i: nat)
    requires |r| + i == 16 && Longer(s, b, e, pre, i)
  {
    && (forall j :: b <= j < e ==> Lookup(r[s[j].key[pre] - i], s[j].key[pre + 1..]) == s[j].value)
    && (forall c: nat, q: Nibbles :: c < |r| && Lookup(r[c], q) != [] ==> ListedUnder(s, b, e, pre, c + i, q))
  }

  /** The from-scratch trie holds exactly the entries, and is in normal form. */
  lemma {:induction false} BuildCorrect(s: seq<Entry>, b: nat, e: nat, pre: nat)
    requires Sorted(s) && Agree(s, b, e, pre) && NonEmpty(s)
    ensures Normal(Build(s, b, e, pre)) && Denotes(Build(s, b, e, pre), s, b, e, pre)
    ensures b < e ==> Build(s, b, e, pre) != Null
    decreases MaxLength(s) - pre, 1, 0
  {
    if b + 1 < e {
      SharedPrefixAgrees(s, b, e);
      SharedPrefixLongest(s, b, e, pre);
      var shared := SharedPrefix(s, b, e);
      if shared > pre {
        BuildCorrect(s, b, e, shared);
        ExtDenotes(Build(s, b, e, shared), s, b, e, pre, shared);
      } else {
        AfterValue(s, b, e, pre);
        var first := if |s[b].key| == pre then b + 1 else b;
        var v := if |s[b].key| == pre then s[b].value else [];
        SlotsCorrect(s, first, e, pre, 0);
        BranchDenotes(Slots(s, first, e, pre, 0), v, s, b, first, e, pre);
        BranchTwo(Slots(s, first, e, pre, 0), v, s, b, first, e, pre);
      }
    } else if b + 1 == e {
      assert Listed(s, b, e, pre, s[b].key[pre..]);
    }
  }

  lemma ExtDenotes(c: Node, s: seq<Entry>, b: nat, e: nat, pre: nat, shared: nat)
    requires b < e && Agree(s, b, e, pre) && Agree(s, b, e, shared) && pre < shared
    requires Denotes(c, s, b, e, shared)
    ensures Denotes(Ext(s[b].key[pre..shared], c), s, b, e, pre)
  {
    var p := s[b].key[pre..shared];
    forall i | b <= i < e
      ensures s[i].key[pre..] == p + s[i].key[shared..]
    {
      assert s[i].key[pre..shared] == s[i].key[..shared][pre..] == s[b].key[..shared][pre..] == p;
    }
    forall i | b <= i < e
      ensures Lookup(Ext(p, c), s[i].key[pre..]) == s[i].value
    {
      assert s[i].key[pre..][|p|..] == s[i].key[shared..];
    }
    forall q: Nibbles | Lookup(Ext(p, c), q) != []
      ensures Listed(s, b, e, pre, q)
    {
      assert Listed(s, b, e, shared, q[|p|..]);
      assert q == p + q[|p|..];
    }
  }

  lemma {:induction false} SlotsCorrect(s: seq<Entry>, b: nat, e: nat, pre: nat, i: nat)
    requires Sorted(s) && Agree(s, b, e, pre) && NonEmpty(s) && i <= 16 && Longer(s, b, e, pre, i)
    ensures forall c :: c in Slots(s, b, e, pre, i) ==> Normal(c)
    ensures SlotsDenote(Slots(s, b, e, pre, i), s, b, e, pre, i)
    decreases MaxLength(s) - pre, 0, 16 - i
  {
    hide Earlier, Denotes, Normal, RunEnd, Build, SlotsDenote;
    if i < 16 {
      var n, c, rest := SlotsCons(s, b, e, pre, i);
      if b < n {
        BuildCorrect(s, b, n, pre + 1);
      } else {
        NullNormal();
      }
      SlotsCorrect(s, n, e, pre, i + 1);
      SlotsDenoteCons(c, rest, s, b, n, e, pre, i);
      assert Slots(s, b, e, pre, i) == [c] + rest;
    } else {
      NoSlots(s, b, e, pre);
    }
  }

  lemma NullNormal()
    ensures Normal(Null)
  {
  }

  lemma NoSlots(s: seq<Entry>, b: nat, e: nat, pre: nat)
    requires Longer(s, b, e, pre, 16)
    ensures SlotsDenote([], s, b, e, pre, 16)
  {
  }

  /** The first slot and the range of the rest. */
  lemma SlotsCons(s: seq<Entry>, b: nat, e: nat, pre: nat, i: nat) returns (n: nat, c: Node, rest: seq<Node>)
    requires Sorted(s) && Agree(s, b, e, pre) && i < 16 && Longer(s, b, e, pre, i)
    ensures b <= n <= e && n == RunEnd(s, b, e, pre, i as nibble)
    ensures Agree(s, b, n, pre + 1) && Agree(s, n, e, pre) && Longer(s, n, e, pre, i + 1)
    ensures forall j :: b <= j < n ==> s[j].key[pre] == i
    ensures c == if b == n then Null else Build(s, b, n, pre + 1)
    ensures rest == Slots(s, n, e, pre, i + 1) && Slots(s, b, e, pre, i) == [c] + rest
  {
    n := RunEnd(s, b, e, pre, i as nibble);
    RunAgrees(s, b, e, pre, i as nibble);
    forall j | n <= j < e
      ensures i + 1 <= s[j].key[pre]
    {
      if n < j {
        Ascending(s, n, e, pre, n, j);
      }
    }
    c := if b == n then Null else Build(s, b, n, pre + 1);
    rest := Slots(s, n, e, pre, i + 1);
  }

  lemma SlotsDenoteCons(c: Node, r: seq<Node>, s: seq<Entry>, b: nat, n: nat, e: nat, pre: nat, i: nat)
    requires i < 16 && |r| == 15 - i && b <= n <= e && Longer(s, b, e, pre, i) && Longer(s, n, e, pre, i + 1)
    requires Agree(s, b, n, pre + 1)
    requires forall j :: b <= j < n ==> s[j].key[pre] == i
    requires if b == n then c == Null else Denotes(c, s, b, n, pre + 1)
    requires SlotsDenote(r, s, n, e, pre, i + 1)
    ensures SlotsDenote([c] + r, s, b, e, pre, i)
  {
    var all := [c] + r;
    forall d: nat, q: Nibbles | d < 16 - i && Lookup(all[d], q) != []
      ensures ListedUnder(s, b, e, pre, d + i, q)
    {
      if d > 0 {
        assert all[d] == r[d - 1];
        assert ListedUnder(s, n, e, pre, d - 1 + (i + 1), q);
      } else {
        assert Listed(s, b, n, pre + 1, q);
      }
    }
    forall j | b <= j < e
      ensures Lookup(all[s[j].key[pre] - i], s[j].key[pre + 1..]) == s[j].value
    {
      if j >= n {
        assert all[s[j].key[pre] - i] == r[s[j].key[pre] - (i + 1)];
      }
    }
  }

  lemma BranchDenotes(r: seq<Node>, v: bytes, s: seq<Entry>, b: nat, first: nat, e: nat, pre: nat)
    requires |r| == 16 && b < e && Agree(s, b, e, pre) && Longer(s, first, e, pre, 0)
    requires if |s[b].key| == pre then first == b + 1 && v == s[b].value else first == b && v == []
    requires SlotsDenote(r, s, first, e, pre, 0)
    ensures Denotes(Branch(r, v), s, b, e, pre)
  {
    forall i | b <= i < e
      ensures Lookup(Branch(r, v), s[i].key[pre..]) == s[i].value
    {
      if i >= first {
        assert s[i].key[pre..] == [s[i].key[pre]] + s[i].key[pre + 1..];
        assert Lookup(r[s[i].key[pre] - 0], s[i].key[pre + 1..]) == s[i].value;
      }
    }
    forall q: Nibbles | Lookup(Branch(r, v), q) != []
      ensures Listed(s, b, e, pre, q)
    {
      if q == [] {
        assert s[b].key[pre..] == q;
      } else {
        BranchListed(r, s, b, first, e, pre, q);
      }
    }
  }

  lemma BranchListed(r: seq<Node>, s: seq<Entry>, b: nat, first: nat, e: nat, pre: nat, q: Nibbles)
    requires |r| == 16 && b <= first && Longer(s, first, e, pre, 0) && q != []
    requires SlotsDenote(r, s, first, e, pre, 0) && Lookup(r[q[0]], q[1..]) != []
    ensures Listed(s, b, e, pre, q)
  {
    var c: nat := q[0];
    assert ListedUnder(s, first, e, pre, c + 0, q[1..]);
    var j :| first <= j < e <= |s| && pre < |s[j].key| && s[j].key[pre] == c && s[j].key[pre + 1..] == q[1..];
    assert s[j].key[pre..] == [s[j].key[pre]] + s[j].key[pre + 1..];
    assert q == [q[0]] + q[1..];
  }

  /** Where nothing more is shared, two slots are in use. */
  lemma BranchTwo(r: seq<Node>, v: bytes, s: seq<Entry>, b: nat, first: nat, e: nat, pre: nat)
    requires |r| == 16 && b + 1 < e && NonEmpty(s) && Sorted(s)
    requires Agree(s, b, e, pre) && SharedPrefix(s, b, e) <= pre && Longer(s, first, e, pre, 0)
    requires if |s[b].key| == pre then first == b + 1 && v == s[b].value else first == b && v == []
    requires SlotsDenote(r, s, first, e, pre, 0)
    ensures TwoInUse(r, v)
  {
    SlotUsed(r, v, s, first, e, pre, e - 1);
    if |s[b].key| == pre {
      assert InUse(r, v, s[e - 1].key[pre]) && InUse(r, v, 16);
    } else {
      SlotUsed(r, v, s, first, e, pre, b);
      HeadsDiffer(s, b, e, pre);
      assert InUse(r, v, s[b].key[pre]) && InUse(r, v, s[e - 1].key[pre]);
    }
  }

  lemma SlotUsed(r: seq<Node>, v: bytes, s: seq<Entry>, b: nat, e: nat, pre: nat, j: nat)
    requires |r| == 16 && b <= j < e && NonEmpty(s) && Longer(s, b, e, pre, 0) && SlotsDenote(r, s, b, e, pre, 0)
    ensures InUse(r, v, s[j].key[pre])
  {
    assert Lookup(r[s[j].key[pre] - 0], s[j].key[pre + 1..]) == s[j].value;
  }

  lemma HeadsDiffer(s: seq<Entry>, b: nat, e: nat, pre: nat)
    requires b + 1 < e && Sorted(s) && Agree(s, b, e, pre) && SharedPrefix(s, b, e) <= pre && Longer(s, b, e, pre, 0)
    ensures s[b].key[pre] < s[e - 1].key[pre]
  {
    Ascending(s, b, e, pre, b, e - 1);
    if s[b].key[pre] == s[e - 1].key[pre] {
      FirstLastAgree(s, b, e, pre);
      SharedPrefixLongest(s, b, e, pre + 1);
    }
  }

  /** If the first and the last key of a range agree on a nibble, all keys do. */
  lemma FirstLastAgree(s: seq<Entry>, b: nat, e: nat, pre: nat)
    requires Sorted(s) && b < e && Agree(s, b, e, pre)
    requires forall j :: b <= j < e ==> pre < |s[j].key|
    requires s[b].key[pre] == s[e - 1].key[pre]
    ensures Agree(s, b, e, pre + 1)
  {
    forall j | b <= j < e
      ensures s[j].key[..pre + 1] == s[b].key[..pre + 1]
    {
      if b < j {
        Ascending(s, b, e, pre, b, j);
      }
      if j < e - 1 {
        Ascending(s, b, e, pre, j, e - 1);
      }
      assert s[j].key[..pre + 1] == s[j].key[..pre] + [s[j].key[pre]];
      assert s[b].key[..pre + 1] == s[b].key[..pre] + [s[b].key[pre]];
    }
  }

  lemma SlotStep(all: seq<Node>, i: nat, c: Node, rest: seq<Node>)
    requires i < |all| && all[i..] == [c] + rest
    ensures all[i] == c && all[i + 1..] == rest
  {
    assert all[i] == all[i..][0] && all[i + 1..] == all[i..][1..];
  }

  lemma NullIsEmpty(sha3: Hasher)
    ensures Ref(sha3, Null) == Rlp.Data([])
  {
    RefShape(sha3, Null);
  }

  // ---------------------------------------------------------------- ordered maps

  lemma {:induction false} EarlierTotal(k: Nibbles, p: Nibbles)
    ensures k == p || Earlier(k, p) || Earlier(p, k)
    ensures !(Earlier(k, p) && Earlier(p, k))
  {
    if k != [] && p != [] && k[0] == p[0] {
      EarlierTotal(k[1..], p[1..]);
      assert k == [k[0]] + k[1..] && p == [p[0]] + p[1..];
    }
  }

  lemma {:induction false} EarlierTransitive(k: Nibbles, p: Nibbles, q: Nibbles)
    requires Earlier(k, p) && Earlier(p, q)
    ensures Earlier(k, q)
  {
    if k != [] && k[0] == p[0] && p[0] == q[0] {
      EarlierTransitive(k[1..], p[1..], q[1..]);
    }
  }

  /** The ordered map after `m[k] = v`. */
  function Put(m: seq<Entry>, k: Nibbles, v: bytes): seq<Entry>
  {
    if m == [] then [Entry(k, v)]
    else if m[0].key == k then [Entry(k, v)] + m[1..]
    else if Earlier(k, m[0].key) then [Entry(k, v)] + m
    else [m[0]] + Put(m[1..], k, v)
  }

  /** Assignment keeps the order, and changes the entry of one key only. */
  lemma {:induction false} PutCorrect(m: seq<Entry>, k: Nibbles, v: bytes)
    requires Sorted(m)
    ensures Sorted(Put(m, k, v))
    ensures forall x :: x in Put(m, k, v) <==> x == Entry(k, v) || (x in m && x.key != k)
  {
    hide Earlier;
    if m != [] {
      var rest := m[1..];
      assert m == [m[0]] + rest;
      if m[0].key == k {
        assert forall x :: x in rest ==> Earlier(m[0].key, x.key);
        EarlierTotal(k, k);
      } else if Earlier(k, m[0].key) {
        forall i | 0 <= i < |m|
          ensures Earlier(k, m[i].key) && m[i].key != k
        {
          if i > 0 {
            EarlierTransitive(k, m[0].key, m[i].key);
          }
          EarlierTotal(k, k);
        }
      } else {
        EarlierTotal(k, m[0].key);
        PutCorrect(rest, k, v);
        assert forall x :: x in Put(rest, k, v) ==> Earlier(m[0].key, x.key);
      }
    }
  }

  /** The entries of the ordered map are those of `m`, with keys spelled in nibbles. */
  ghost predicate EntriesOf(hex: seq<Entry>, m: map<bytes, bytes>)
  {
    && (forall x :: x in hex ==> exists k: bytes :: k in m && x == Entry(Unpack(k), m[k]))
    && (forall k: bytes :: k in m ==> Entry(Unpack(k), m[k]) in hex)
  }

  lemma UnpackInjective(a: bytes, b: bytes)
    requires Unpack(a) == Unpack(b)
    ensures a == b
  {
    forall i | 0 <= i < |a|
      ensures a[i] == b[i]
    {
      assert Unpack(a)[2 * i] == a[i] / 16 && Unpack(a)[2 * i + 1] == a[i] % 16;
      assert Unpack(b)[2 * i] == b[i] / 16 && Unpack(b)[2 * i + 1] == b[i] % 16;
    }
  }

  /** The empty map and the whole range of a sorted map. */
  ghost function TrieOf(hex: seq<Entry>): Node
    requires Sorted(hex)
  {
    Build(hex, 0, |hex|, 0)
  }

  /** A map has only one sorted listing. */
  lemma {:induction false} ListingUnique(a: seq<Entry>, b: seq<Entry>)
    requires Sorted(a) && Sorted(b) && forall x :: x in a <==> x in b
    ensures a == b
    decreases |a|
  {
    hide Earlier;
    assert b != [] ==> b[0] in b;
    if a != [] {
      assert a[0] in a && a[0] in b && b[0] in a;
      FirstListed(a, b);
      assert forall x :: x in a[1..] <==> x in a && x != a[0] by {
        NotRepeated(a);
      }
      assert forall x :: x in b[1..] <==> x in b && x != b[0] by {
        NotRepeated(b);
      }
      ListingUnique(a[1..], b[1..]);
      assert a == [a[0]] + a[1..] && b == [b[0]] + b[1..];
    }
  }

  lemma FirstListed(a: seq<Entry>, b: seq<Entry>)
    requires Sorted(a) && Sorted(b) && a != [] && b != [] && a[0] in b && b[0] in a
    ensures a[0] == b[0]
  {
    hide Earlier;
    EarlierTotal(a[0].key, a[0].key);
    if a[0] != b[0] {
      var i :| 0 <= i < |b| && b[i] == a[0];
      var j :| 0 <= j < |a| && a[j] == b[0];
      EarlierTransitive(a[0].key, b[0].key, a[0].key);
    }
  }

  lemma NotRepeated(a: seq<Entry>)
    requires Sorted(a) && a != []
    ensures a[0] !in a[1..] && forall x :: x in a <==> x == a[0] || x in a[1..]
  {
    hide Earlier;
    assert a == [a[0]] + a[1..];
    EarlierTotal(a[0].key, a[0].key);
  }

  lemma SameListing(a: seq<Entry>, b: seq<Entry>, m: map<bytes, bytes>)
    requires Sorted(a) && Sorted(b) && EntriesOf(a, m) && EntriesOf(b, m)
    ensures a == b
  {
    hide Earlier, Unpack;
    ListingUnique(a, b);
  }

  lemma PutEntries(hex: seq<Entry>, m: map<bytes, bytes>, k: bytes, v: bytes)
    requires Sorted(hex) && EntriesOf(hex, m)
    ensures EntriesOf(Put(hex, Unpack(k), v), m[k := v])
  {
    var m' := m[k := v];
    PutCorrect(hex, Unpack(k), v);
    forall x | x in Put(hex, Unpack(k), v)
      ensures exists q: bytes :: q in m' && x == Entry(Unpack(q), m'[q])
    {
      if x == Entry(Unpack(k), v) {
        assert k in m';
      } else {
        var q: bytes :| q in m && x == Entry(Unpack(q), m[q]);
        assert q in m';
      }
    }
    forall q: bytes | q in m'
      ensures Entry(Unpack(q), m'[q]) in Put(hex, Unpack(k), v)
    {
      if q != k {
        if Unpack(q) == Unpack(k) {
          UnpackInjective(q, k);
        }
      }
    }
  }

  // ---------------------------------------------------------------- tries and maps

  /** The trie holds exactly the entries of the map. */
  ghost predicate HoldsMap(n: Node, m: map<bytes, bytes>)
  {
    && (forall k: bytes :: k in m ==> Lookup(n, Unpack(k)) == m[k])
    && (forall q: Nibbles :: Lookup(n, q) != [] ==> exists k: bytes :: k in m && Unpack(k) == q)
  }

  /** The from-scratch trie holds the map it was built from. */
  lemma TrieOfCorrect(hex: seq<Entry>, m: map<bytes, bytes>)
    requires Sorted(hex) && EntriesOf(hex, m) && forall k: bytes :: k in m ==> m[k] != []
    ensures Normal(TrieOf(hex)) && HoldsMap(TrieOf(hex), m)
  {
    assert forall i :: 0 <= i < |hex| ==> hex[i] in hex;
    BuildCorrect(hex, 0, |hex|, 0);
    forall k: bytes | k in m
      ensures Lookup(TrieOf(hex), Unpack(k)) == m[k]
    {
      var i :| 0 <= i < |hex| && hex[i] == Entry(Unpack(k), m[k]);
      assert hex[i].key[0..] == Unpack(k);
    }
    forall q: Nibbles | Lookup(TrieOf(hex), q) != []
      ensures exists k: bytes :: k in m && Unpack(k) == q
    {
      assert Listed(hex, 0, |hex|, 0, q);
      var i :| 0 <= i < |hex| && hex[i].key[0..] == q;
      assert hex[i] in hex;
    }
  }

  /** Any normal trie that holds the map is the from-scratch trie, so its root is hash256. */
  lemma NormalIsTrieOf(n: Node, hex: seq<Entry>, m: map<bytes, bytes>)
    requires Sorted(hex) && EntriesOf(hex, m) && forall k: bytes :: k in m ==> m[k] != []
    requires Normal(n) && HoldsMap(n, m)
    ensures n == TrieOf(hex)
  {
    TrieOfCorrect(hex, m);
    forall q: Nibbles
      ensures Lookup(n, q) == Lookup(TrieOf(hex), q)
    {
      if k: bytes :| k in m && Unpack(k) == q {
        assert Lookup(n, Unpack(k)) == m[k];
      }
    }
    NormalUnique(n, TrieOf(hex));
  }
}
