/** The entries of a trie in the order in which the cursor meets them: a branch's own value
    first, then its slots. */
module TrieEntries {
  import opened Bytes
  import opened HexPrefix
  import opened TrieNode
  import opened TrieBuild

  /** The entries below a node that sits at `p`. */
  function Entries(n: Node, p: Nibbles): seq<Entry>
    decreases n, 0
  {
    match n
    case Null => []
    case Leaf(k, v) => [Entry(p + k, v)]
    case Ext(k, child) => Entries(child, p + k)
    case Branch(children, v) => (if v != [] then [Entry(p, v)] else []) + SlotEntries(children, p, 0)
  }

  /** The entries below the slots from `i` on. */
  function SlotEntries(children: seq<Node>, p: Nibbles, i: nat): seq<Entry>
    requires i <= |children|
    decreases children, |children| - i
  {
    if i == |children| || i >= 16 then []
    else Entries(children[i], p + [i as nibble]) + SlotEntries(children, p, i + 1)
  }

  // ---------------------------------------------------------------- what the entries are

  /** Every entry below a node at `p` has a key that starts with `p`; the rest leads to its value. */
  lemma {:induction false} EntryLookup(n: Node, p: Nibbles, x: Entry)
    requires WellFormed(n) && x in Entries(n, p)
    ensures IsPrefixOf(p, x.key) && Lookup(n, x.key[|p|..]) == x.value
    decreases n, 0
  {
    match n
    case Null =>
    case Leaf(k, v) =>
      assert (p + k)[|p|..] == k;
    case Ext(k, child) =>
      EntryLookup(child, p + k, x);
      assert x.key[..|p + k|] == p + k;
      assert x.key[..|p|] == x.key[..|p + k|][..|p|] == p;
      assert x.key[|p|..][..|k|] == x.key[..|p + k|][|p|..] == k;
      assert x.key[|p|..][|k|..] == x.key[|p + k|..];
    case Branch(children, v) =>
      if v != [] && x == Entry(p, v) {
        assert x.key[|p|..] == [];
      } else {
        SlotEntryLookup(children, v, p, 0, x);
      }
  }

  lemma {:induction false} SlotEntryLookup(children: seq<Node>, v: bytes, p: Nibbles, i: nat, x: Entry)
    requires |children| == 16 && i <= 16 && (forall c :: c in children ==> WellFormed(c))
    requires x in SlotEntries(children, p, i)
    ensures IsPrefixOf(p, x.key) && |p| < |x.key| && i <= x.key[|p|]
    ensures Lookup(Branch(children, v), x.key[|p|..]) == x.value
    decreases children, 16 - i
  {
    if x in Entries(children[i], p + [i as nibble]) {
      var q := p + [i as nibble];
      EntryLookup(children[i], q, x);
      assert x.key[..|q|] == q && x.key[..|p|] == q[..|p|] == p && x.key[|p|] == x.key[..|q|][|p|] == i;
      assert x.key[|p|..][1..] == x.key[|q|..];
    } else {
      SlotEntryLookup(children, v, p, i + 1, x);
    }
  }

  /** Every key with a value has its entry. */
  lemma {:induction false} LookupEntry(n: Node, p: Nibbles, q: Nibbles)
    requires WellFormed(n) && Lookup(n, q) != []
    ensures Entry(p + q, Lookup(n, q)) in Entries(n, p)
    decreases n, 0
  {
    match n
    case Leaf(k, v) =>
    case Ext(k, child) =>
      LookupEntry(child, p + k, q[|k|..]);
      assert (p + k) + q[|k|..] == p + q;
    case Branch(children, v) =>
      if q == [] {
        assert p + q == p;
      } else {
        SlotLookupEntry(children, p, 0, q);
      }
  }

  lemma {:induction false} SlotLookupEntry(children: seq<Node>, p: Nibbles, i: nat, q: Nibbles)
    requires |children| == 16 && i <= 16 && (forall c :: c in children ==> WellFormed(c))
    requires q != [] && i <= q[0] && Lookup(children[q[0]], q[1..]) != []
    ensures Entry(p + q, Lookup(children[q[0]], q[1..])) in SlotEntries(children, p, i)
    decreases children, 16 - i
  {
    if q[0] == i {
      LookupEntry(children[i], p + [i as nibble], q[1..]);
      assert (p + [i as nibble]) + q[1..] == p + q;
    } else {
      SlotLookupEntry(children, p, i + 1, q);
    }
  }

  // ---------------------------------------------------------------- their order

  lemma SortedConcat(a: seq<Entry>, b: seq<Entry>)
    requires Sorted(a) && Sorted(b)
    requires forall x, y :: x in a && y in b ==> Earlier(x.key, y.key)
    ensures Sorted(a + b)
  {
  }

  /** Keys with a common prefix are ordered by what follows it. */
  lemma AfterPrefix(p: Nibbles, k: Nibbles, l: Nibbles)
    requires IsPrefixOf(p, k) && IsPrefixOf(p, l)
    requires |p| < |l| && (|p| == |k| || k[|p|] < l[|p|])
    ensures Earlier(k, l)
  {
    EarlierDrop(k, l, |p|);
    assert l[|p|..][0] == l[|p|];
    assert |p| < |k| ==> k[|p|..][0] == k[|p|];
  }

  /** The entries are in strictly ascending order of their keys. */
  lemma {:induction false} EntriesSorted(n: Node, p: Nibbles)
    requires WellFormed(n)
    ensures Sorted(Entries(n, p))
    decreases n, 0
  {
    match n
    case Null =>
    case Leaf(k, v) =>
    case Ext(k, child) => EntriesSorted(child, p + k);
    case Branch(children, v) =>
      SlotEntriesSorted(children, p, 0);
      var own := if v != [] then [Entry(p, v)] else [];
      forall x, y | x in own && y in SlotEntries(children, p, 0)
        ensures Earlier(x.key, y.key)
      {
        SlotEntryLookup(children, v, p, 0, y);
        AfterPrefix(p, x.key, y.key);
      }
      SortedConcat(own, SlotEntries(children, p, 0));
  }

  lemma {:induction false} SlotEntriesSorted(children: seq<Node>, p: Nibbles, i: nat)
    requires |children| == 16 && i <= 16 && forall c :: c in children ==> WellFormed(c)
    ensures Sorted(SlotEntries(children, p, i))
    decreases children, 16 - i
  {
    if i < 16 {
      var q := p + [i as nibble];
      EntriesSorted(children[i], q);
      SlotEntriesSorted(children, p, i + 1);
      forall x, y | x in Entries(children[i], q) && y in SlotEntries(children, p, i + 1)
        ensures Earlier(x.key, y.key)
      {
        EntryLookup(children[i], q, x);
        SlotEntryLookup(children, [], p, i + 1, y);
        assert x.key[..|q|][..|p|] == x.key[..|p|] && x.key[|p|] == x.key[..|q|][|p|];
        AfterPrefix(p, x.key, y.key);
      }
      SortedConcat(Entries(children[i], q), SlotEntries(children, p, i + 1));
    }
  }

  /** Every entry below a node in normal form has a value. */
  lemma {:induction false} EntryHasValue(n: Node, p: Nibbles, x: Entry)
    requires Normal(n) && x in Entries(n, p)
    ensures x.value != []
    decreases n, 0
  {
    match n
    case Leaf(k, v) =>
    case Ext(k, child) => EntryHasValue(child, p + k, x);
    case Branch(children, v) =>
      if x in SlotEntries(children, p, 0) {
        SlotEntryHasValue(children, p, 0, x);
      }
  }

  lemma {:induction false} SlotEntryHasValue(children: seq<Node>, p: Nibbles, i: nat, x: Entry)
    requires |children| == 16 && i <= 16 && (forall c :: c in children ==> Normal(c))
    requires x in SlotEntries(children, p, i)
    ensures x.value != []
    decreases children, 16 - i
  {
    if x in Entries(children[i], p + [i as nibble]) {
      EntryHasValue(children[i], p + [i as nibble], x);
    } else {
      SlotEntryHasValue(children, p, i + 1, x);
    }
  }

  /** A normal trie has entries exactly for the keys with a value. */
  lemma EntriesAreTheMap(n: Node, q: Nibbles, v: bytes)
    requires Normal(n)
    ensures Entry(q, v) in Entries(n, []) <==> v != [] && Lookup(n, q) == v
  {
    NormalWellFormed(n);
    if v != [] && Lookup(n, q) == v {
      LookupEntry(n, [], q);
      assert [] + q == q;
    }
    if Entry(q, v) in Entries(n, []) {
      EntryHasValue(n, [], Entry(q, v));
      EntryLookup(n, [], Entry(q, v));
      assert q[0..] == q;
    }
  }
}
