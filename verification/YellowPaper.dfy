/** The root of a map as the Ethereum Yellow Paper defines it (Appendices B, C and D), without tries:
    straight from the map. The trie of the program is proved to have this root. */
module YellowPaper {
  import opened Bytes
  import opened HexPrefix
  import opened TrieNode
  import opened TrieCode
  import opened TrieBuild
  import Rlp

  // ---------------------------------------------------------------- Appendix B

  function BE(x: nat): (b: bytes)
  {
    if x == 0 then [] else BE(x / 256) + [x % 256]
  }

  /** The serialisation of bytes. The paper stops at lengths of 2 to the 64; up to there no first byte
      wraps around. */
  function Rb(x: bytes): bytes
  {
    if |x| == 1 && x[0] < 128 then x
    else if |x| < 56 then [128 + |x|] + x
    else [(183 + |BE(|x|)|) % 256] + BE(|x|) + x
  }

  function RLP(x: Rlp.Item): bytes
    decreases x, 1
  {
    match x
    case Data(d) => Rb(d)
    case List(items) =>
      var s := Serialised(items);
      if |s| < 56 then [192 + |s|] + s else [(247 + |BE(|s|)|) % 256] + BE(|s|) + s
  }

  function Serialised(items: seq<Rlp.Item>): bytes
    decreases items, 0
  {
    if items == [] then [] else RLP(items[0]) + Serialised(items[1..])
  }

  lemma {:induction false} SameDigits(x: nat)
    ensures BE(x) == BigEndian(x)
  {
    if x != 0 {
      SameDigits(x / 256);
    }
  }

  /** The program's encoding is that of the paper. */
  lemma {:induction false} EncodeIsRLP(x: Rlp.Item)
    ensures Rlp.Encode(x) == RLP(x)
    decreases x, 1
  {
    match x
    case Data(d) => SameDigits(|d|);
    case List(items) =>
      SameDigits(|Serialised(items)|);
      EncodeAllIsRLP(items);
  }

  lemma {:induction false} EncodeAllIsRLP(items: seq<Rlp.Item>)
    ensures Rlp.EncodeAll(items) == Serialised(items)
    decreases items, 0
  {
    if items != [] {
      EncodeIsRLP(items[0]);
      EncodeAllIsRLP(items[1..]);
    }
  }

  // ---------------------------------------------------------------- Appendix C

  function Pairs(x: Nibbles): bytes
  {
    seq<byte>(|x| / 2, i requires 0 <= i < |x| / 2 => var high: nat := x[2 * i]; 16 * high + x[2 * i + 1])
  }

  function HP(x: Nibbles, t: bool): bytes
  {
    var f: nat := if t then 2 else 0;
    if |x| % 2 == 0 then [16 * f] + Pairs(x) else [16 * (f + 1) + x[0]] + Pairs(x[1..])
  }

  lemma UnpackMore(high: nibble, low: nibble, rest: bytes)
    ensures var h: nat := high; Unpack([16 * h + low] + rest) == [high, low] + Unpack(rest)
  {
    var h: nat := high;
    var b := [16 * h + low] + rest;
    assert |Unpack(b)| == 2 * |rest| + 2 && Unpack(b)[0] == high && Unpack(b)[1] == low;
    forall i | 2 <= i < 2 * |rest| + 2
      ensures Unpack(b)[i] == ([high, low] + Unpack(rest))[i]
    {
      assert b[i / 2] == rest[(i - 2) / 2] && i % 2 == (i - 2) % 2;
    }
  }

  lemma PairsCons(x: Nibbles)
    requires |x| % 2 == 0 && x != []
    ensures |x| >= 2 && var h: nat := x[0]; Pairs(x) == [16 * h + x[1]] + Pairs(x[2..])
  {
    forall i | 1 <= i < |x| / 2
      ensures Pairs(x)[i] == Pairs(x[2..])[i - 1]
    {
      assert x[2 * i] == x[2..][2 * (i - 1)] && x[2 * i + 1] == x[2..][2 * (i - 1) + 1];
    }
  }

  lemma {:induction false} UnpackPairs(x: Nibbles)
    requires |x| % 2 == 0
    ensures Unpack(Pairs(x)) == x
  {
    hide Pairs, Unpack;
    if x != [] {
      UnpackPairs(x[2..]);
      PairsCons(x);
      UnpackMore(x[0], x[1], Pairs(x[2..]));
      assert x == [x[0], x[1]] + x[2..];
    } else {
      NoPairs();
    }
  }

  lemma NoPairs()
    ensures Unpack(Pairs([])) == []
  {
  }

  /** The program's hex-prefix form is that of the paper. */
  lemma EncodeIsHP(x: Nibbles, t: bool)
    ensures HexPrefix.Encode(x, t) == HP(x, t)
  {
    hide Pairs, Unpack;
    EncodeFlagged(x, t);
    if |x| % 2 == 0 {
      UnpackPairs(x);
      UnpackMore(if t then 2 else 0, 0, Pairs(x));
    } else {
      UnpackPairs(x[1..]);
      UnpackMore(if t then 3 else 1, x[0], Pairs(x[1..]));
      assert x == [x[0]] + x[1..];
    }
    UnpackInjective(HP(x, t), HexPrefix.Encode(x, t));
  }

  // ---------------------------------------------------------------- Appendix D

  /** The pairs of keys, in nibbles, and values that are to be put below some node: what is left of the
      keys there. */
  type Pending = map<Nibbles, bytes>

  predicate Common(m: Pending, p: Nibbles)
  {
    forall k :: k in m ==> p <= k
  }

  function Suffixes(m: Pending, p: Nibbles): set<Nibbles>
  {
    set k | k in m && p <= k :: k[|p|..]
  }

  /** What is left behind the nibbles `p`. */
  function Behind(m: Pending, p: Nibbles): (r: Pending)
    ensures forall k :: k in m && p <= k ==> k[|p|..] in r
    ensures forall q :: q in r ==> p + q in m && r[q] == m[p + q]
  {
    PrefixJoined(m, p);
    map q | q in Suffixes(m, p) :: m[p + q]
  }

  lemma PrefixJoined(m: Pending, p: Nibbles)
    ensures forall q :: q in Suffixes(m, p) ==> p + q in m
  {
    forall q | q in Suffixes(m, p)
      ensures p + q in m
    {
      var k :| k in m && p <= k && k[|p|..] == q;
      assert k == p + q;
    }
  }

  /** One more than the length of the longest key. */
  ghost function Span(m: Pending): (n: nat)
    ensures forall k :: k in m ==> |k| < n
    ensures m != map[] ==> exists k :: k in m && n == 1 + |k|
    decreases |m|
  {
    if m == map[] then 0
    else
      var k :| k in m;
      var rest := Span(m - {k});
      assert forall q :: q in m ==> q == k || q in m - {k};
      if |k| < rest then rest else 1 + |k|
  }

  lemma SpanBehind(m: Pending, p: Nibbles)
    requires m != map[] && p != []
    ensures Span(Behind(m, p)) < Span(m)
  {
    var r := Behind(m, p);
    if r != map[] {
      var q :| q in r && Span(r) == 1 + |q|;
      assert p + q in m;
    }
  }

  /** The longest common prefix of the keys. */
  ghost function Prefixed(m: Pending): (p: Nibbles)
    requires m != map[]
    ensures Common(m, p) && forall q: Nibbles :: Common(m, q) ==> |q| <= |p|
  {
    SomePrefix(m);
    var p: Nibbles :| Common(m, p) && forall q: Nibbles :: Common(m, q) ==> |q| <= |p|;
    p
  }

  lemma SomePrefix(m: Pending)
    requires m != map[]
    ensures exists p: Nibbles :: Common(m, p) && forall q: Nibbles :: Common(m, q) ==> |q| <= |p|
  {
    var k :| k in m;
    PrefixUpTo(m, k, |k|);
  }

  lemma {:induction false} PrefixUpTo(m: Pending, k: Nibbles, n: nat)
    requires k in m && n <= |k| && forall q: Nibbles :: Common(m, q) ==> |q| <= n
    ensures exists p: Nibbles :: Common(m, p) && forall q: Nibbles :: Common(m, q) ==> |q| <= |p|
  {
    if !Common(m, k[..n]) {
      assert Common(m, []);
      forall q: Nibbles | Common(m, q)
        ensures |q| < n
      {
        CommonIsPrefix(m, k, q);
      }
      PrefixUpTo(m, k, n - 1);
    }
  }

  lemma CommonIsPrefix(m: Pending, k: Nibbles, q: Nibbles)
    requires Common(m, q) && k in m
    ensures |q| <= |k| && q == k[..|q|]
  {
  }

  /** c: the structure of the node for these pairs. */
  ghost function C(kec: Hasher, m: Pending): Rlp.Item
    requires m != map[]
    decreases Span(m), 0
  {
    if |m| == 1 then
      var k :| k in m;
      Rlp.List([Rlp.Data(HP(k, true)), Rlp.Data(m[k])])
    else
      var p := Prefixed(m);
      if p != [] then
        SpanBehind(m, p);
        Rlp.List([Rlp.Data(HP(p, false)), N(kec, Behind(m, p))])
      else
        Rlp.List(Slots16(kec, m, 0) + [Rlp.Data(if [] in m then m[[]] else [])])
  }

  /** u: what the slots from `j` on of a branch hold. */
  ghost function Slots16(kec: Hasher, m: Pending, j: nat): (s: seq<Rlp.Item>)
    requires m != map[] && j <= 16
    ensures |s| == 16 - j
    decreases Span(m), 0, 16 - j
  {
    if j == 16 then []
    else
      SpanBehind(m, [j as nibble]);
      [N(kec, Behind(m, [j as nibble]))] + Slots16(kec, m, j + 1)
  }

  /** n: nothing, the node itself if it is shorter than 32 bytes, or its hash. */
  ghost function N(kec: Hasher, m: Pending): Rlp.Item
    decreases Span(m), 1
  {
    if m == map[] then Rlp.Data([])
    else if |RLP(C(kec, m))| < 32 then C(kec, m)
    else Rlp.Data(kec(RLP(C(kec, m))))
  }

  /** The nibbles of a key. */
  function Y(k: bytes): Nibbles
  {
    seq(2 * |k|, i requires 0 <= i < 2 * |k| => if i % 2 == 0 then k[i / 2] / 16 else k[i / 2] % 16)
  }

  lemma YApart()
    ensures forall a: bytes, b: bytes :: Y(a) == Y(b) ==> a == b
  {
    forall a: bytes, b: bytes | Y(a) == Y(b)
      ensures a == b
    {
      assert |a| == |b|;
      forall i | 0 <= i < |a|
        ensures a[i] == b[i]
      {
        assert Y(a)[2 * i] == a[i] / 16 && Y(a)[2 * i + 1] == a[i] % 16;
        assert Y(b)[2 * i] == b[i] / 16 && Y(b)[2 * i + 1] == b[i] % 16;
      }
    }
  }

  function InNibbles(m: map<bytes, bytes>): (r: Pending)
    ensures forall k :: k in m ==> Y(k) in r && r[Y(k)] == m[k]
    ensures forall q :: q in r ==> exists k :: k in m && Y(k) == q
  {
    YApart();
    map k | k in m :: Y(k) := m[k]
  }

  /** The structure of the whole map, or no bytes at all. */
  ghost function Structure(kec: Hasher, m: map<bytes, bytes>): Rlp.Item
  {
    if m == map[] then Rlp.Data([])
    else
      var k :| k in m;
      assert Y(k) in InNibbles(m);
      C(kec, InNibbles(m))
  }

  /** TRIE: the hash of the map. */
  ghost function Root(kec: Hasher, m: map<bytes, bytes>): Digest
  {
    kec(RLP(Structure(kec, m)))
  }

  // ---------------------------------------------------------------- what is referred to by hash

  /** The hashes in the structure of these pairs, one for every place. */
  ghost function Inside(kec: Hasher, m: Pending): multiset<Digest>
    requires m != map[]
    decreases Span(m), 0
  {
    if |m| == 1 then multiset{}
    else
      var p := Prefixed(m);
      if p != [] then
        SpanBehind(m, p);
        With(kec, Behind(m, p))
      else Inside16(kec, m, 0)
  }

  ghost function Inside16(kec: Hasher, m: Pending, j: nat): multiset<Digest>
    requires m != map[] && j <= 16
    decreases Span(m), 0, 16 - j
  {
    if j == 16 then multiset{}
    else
      SpanBehind(m, [j as nibble]);
      With(kec, Behind(m, [j as nibble])) + Inside16(kec, m, j + 1)
  }

  /** The same with the place itself. */
  ghost function With(kec: Hasher, m: Pending): multiset<Digest>
    decreases Span(m), 1
  {
    if m == map[] then multiset{}
    else Inside(kec, m) + if |RLP(C(kec, m))| < 32 then multiset{} else multiset{kec(RLP(C(kec, m)))}
  }

  // ---------------------------------------------------------------- the program's trie

  /** What is pending below a node that is built from the entries `b..e`. */
  ghost predicate Pends(m: Pending, s: seq<Entry>, b: nat, e: nat, pre: nat)
  {
    && e <= |s|
    && (forall i :: b <= i < e ==>
          pre <= |s[i].key| && s[i].key[pre..] in m && m[s[i].key[pre..]] == s[i].value)
    && (forall k :: k in m ==> Listed(s, b, e, pre, k))
  }

  /** The same of the keys that go on with a nibble from `i` on. */
  ghost predicate PendsFrom(m: Pending, s: seq<Entry>, b: nat, e: nat, pre: nat, i: nat)
  {
    && e <= |s|
    && (forall j :: b <= j < e ==>
          pre < |s[j].key| && s[j].key[pre..] in m && m[s[j].key[pre..]] == s[j].value)
    && (forall k :: k in m && k != [] && k[0] >= i ==> Listed(s, b, e, pre, k))
  }

  lemma PendsAt(m: Pending, s: seq<Entry>, b: nat, e: nat, pre: nat, i: nat)
    requires Pends(m, s, b, e, pre) && b <= i < e
    ensures pre <= |s[i].key| && s[i].key[pre..] in m && m[s[i].key[pre..]] == s[i].value
  {
  }

  lemma PendsKey(m: Pending, s: seq<Entry>, b: nat, e: nat, pre: nat, k: Nibbles) returns (i: nat)
    requires Pends(m, s, b, e, pre) && k in m
    ensures b <= i < e <= |s| && pre <= |s[i].key| && s[i].key[pre..] == k
  {
    i :| b <= i < e && pre <= |s[i].key| && s[i].key[pre..] == k;
  }

  lemma SharedSlice(x: Nibbles, y: Nibbles, pre: nat, shared: nat)
    requires pre <= shared <= |x| && shared <= |y| && x[..shared] == y[..shared]
    ensures x[pre..] == y[pre..shared] + x[shared..]
    ensures y[pre..shared] <= x[pre..] && x[pre..][shared - pre..] == x[shared..]
  {
    assert x[pre..shared] == x[..shared][pre..] == y[..shared][pre..] == y[pre..shared];
    assert x[pre..] == x[pre..shared] + x[shared..];
  }

  lemma OneKey(m: Pending, s: seq<Entry>, b: nat, pre: nat)
    requires Pends(m, s, b, b + 1, pre)
    ensures |m| == 1 && forall k :: k in m <==> k == s[b].key[pre..]
  {
    assert m.Keys == {s[b].key[pre..]};
    assert |m| == |m.Keys|;
  }

  lemma TwoKeys(m: Pending, s: seq<Entry>, b: nat, e: nat, pre: nat)
    requires Sorted(s) && Agree(s, b, e, pre) && b + 1 < e && Pends(m, s, b, e, pre)
    ensures |m| != 1
  {
    hide Earlier;
    var x, y := s[b].key[pre..], s[b + 1].key[pre..];
    EarlierTotal(s[b].key, s[b].key);
    assert s[b].key == s[b].key[..pre] + x && s[b + 1].key == s[b + 1].key[..pre] + y;
    assert x != y && x in m && y in m.Keys - {x};
    assert |m| == |m.Keys| == 1 + |m.Keys - {x}|;
  }

  lemma SharedIsCommon(m: Pending, s: seq<Entry>, b: nat, e: nat, pre: nat, shared: nat)
    requires b < e <= |s| && Agree(s, b, e, shared) && Pends(m, s, b, e, pre) && pre <= shared <= |s[b].key|
    ensures Common(m, s[b].key[pre..shared])
  {
    hide Pends, Agree;
    forall k | k in m
      ensures s[b].key[pre..shared] <= k
    {
      var i := PendsKey(m, s, b, e, pre, k);
      AgreeAt(s, b, e, shared, i);
      SharedSlice(s[i].key, s[b].key, pre, shared);
    }
  }

  /** The longest common prefix of what is pending is what the entries share behind `pre`. */
  lemma PrefixedIs(m: Pending, s: seq<Entry>, b: nat, e: nat, pre: nat)
    requires m != map[] && Agree(s, b, e, pre) && b < e && Pends(m, s, b, e, pre)
    requires pre <= SharedPrefix(s, b, e) && Agree(s, b, e, SharedPrefix(s, b, e))
    ensures Prefixed(m) == s[b].key[pre..SharedPrefix(s, b, e)]
  {
    hide SharedPrefix, Pends, Agree, Common;
    AgreeAt(s, b, e, pre, b);
    var shared := SharedPrefix(s, b, e);
    AgreeAt(s, b, e, shared, b);
    SharedIsCommon(m, s, b, e, pre, shared);
    var best := Prefixed(m);
    CommonAgrees(m, s, b, e, pre, best);
    SharedPrefixLongest(s, b, e, pre + |best|);
    PendsAt(m, s, b, e, pre, b);
    CommonIsPrefix(m, s[b].key[pre..], best);
    SliceOfTail(s[b].key, pre, shared);
  }

  lemma SliceOfTail(k: Nibbles, pre: nat, end: nat)
    requires pre <= end <= |k|
    ensures k[pre..][..end - pre] == k[pre..end]
  {
  }

  lemma AgreeAt(s: seq<Entry>, b: nat, e: nat, pre: nat, i: nat)
    requires Agree(s, b, e, pre) && b <= i < e
    ensures e <= |s| && pre <= |s[i].key| && pre <= |s[b].key| && s[i].key[..pre] == s[b].key[..pre]
  {
  }

  lemma CommonAgrees(m: Pending, s: seq<Entry>, b: nat, e: nat, pre: nat, p: Nibbles)
    requires Agree(s, b, e, pre) && b < e && Pends(m, s, b, e, pre) && Common(m, p)
    ensures Agree(s, b, e, pre + |p|)
  {
    hide Common, Pends;
    forall i | b <= i < e
      ensures pre + |p| <= |s[i].key| && s[i].key[..pre + |p|] == s[b].key[..pre] + p
    {
      AgreeAt(s, b, e, pre, i);
      PendsAt(m, s, b, e, pre, i);
      CommonIsPrefix(m, s[i].key[pre..], p);
      assert s[i].key[..pre + |p|] == s[i].key[..pre] + s[i].key[pre..][..|p|];
    }
  }

  lemma BehindPends(m: Pending, s: seq<Entry>, b: nat, e: nat, pre: nat, shared: nat)
    requires Agree(s, b, e, pre) && b < e && Pends(m, s, b, e, pre) && pre < shared && Agree(s, b, e, shared)
    ensures Pends(Behind(m, s[b].key[pre..shared]), s, b, e, shared)
  {
    hide Agree, Behind, Listed;
    AgreeAt(s, b, e, shared, b);
    var p := s[b].key[pre..shared];
    var r := Behind(m, p);
    forall i | b <= i < e
      ensures shared <= |s[i].key| && s[i].key[shared..] in r && r[s[i].key[shared..]] == s[i].value
    {
      AgreeAt(s, b, e, shared, i);
      SharedSlice(s[i].key, s[b].key, pre, shared);
      PendsAt(m, s, b, e, pre, i);
    }
    forall q | q in r
      ensures Listed(s, b, e, shared, q)
    {
      BehindListed(m, s, b, e, pre, shared, q);
    }
  }

  lemma BehindListed(m: Pending, s: seq<Entry>, b: nat, e: nat, pre: nat, shared: nat, q: Nibbles)
    requires Agree(s, b, e, shared) && b < e && Pends(m, s, b, e, pre) && pre < shared
    requires s[b].key[pre..shared] + q in m
    ensures Listed(s, b, e, shared, q)
  {
    hide Pends, Agree;
    AgreeAt(s, b, e, shared, b);
    var p := s[b].key[pre..shared];
    var i := PendsKey(m, s, b, e, pre, p + q);
    AgreeAt(s, b, e, shared, i);
    SharedSlice(s[i].key, s[b].key, pre, shared);
    assert s[i].key[shared..] == (p + q)[|p|..] == q;
  }

  lemma RefIsN(kec: Hasher, n: Node, m: Pending)
    requires m != map[] && ItemOf(kec, n) == C(kec, m) && Below(kec, n) == Inside(kec, m)
    ensures Ref(kec, n) == N(kec, m) && Here(kec, n) == With(kec, m)
  {
    EncodeIsRLP(C(kec, m));
    assert Code(kec, n) == Rlp.Encode(ItemOf(kec, n));
    assert Hashed(kec, n) <==> |Code(kec, n)| >= 32;
  }

  lemma NullIsN(kec: Hasher)
    ensures Ref(kec, Null) == N(kec, map[]) && Here(kec, Null) == With(kec, map[])
  {
    RefShape(kec, Null);
  }

  /** The structure that the trie of a range of entries has, and the digests it holds. */
  lemma {:induction false} BuildIsC(kec: Hasher, s: seq<Entry>, b: nat, e: nat, pre: nat, m: Pending)
    requires Sorted(s) && Agree(s, b, e, pre) && b < e && Pends(m, s, b, e, pre)
    ensures m != map[] && ItemOf(kec, Build(s, b, e, pre)) == C(kec, m)
    ensures Below(kec, Build(s, b, e, pre)) == Inside(kec, m)
    decreases MaxLength(s) - pre, 1, 0
  {
    hide Earlier, SharedPrefix, Prefixed, Pends, C, Inside, ItemOf, Below, Build, Agree, MaxLength;
    PendsAt(m, s, b, e, pre, b);
    AgreeAt(s, b, e, pre, b);
    if b + 1 == e {
      LeafIsC(kec, s, b, pre, m);
    } else {
      TwoKeys(m, s, b, e, pre);
      SharedPrefixAgrees(s, b, e);
      SharedPrefixLongest(s, b, e, pre);
      PrefixedIs(m, s, b, e, pre);
      var shared := SharedPrefix(s, b, e);
      if shared > pre {
        ExtOfBuild(s, b, e, pre);
        BehindPends(m, s, b, e, pre, shared);
        BuildIsC(kec, s, b, e, shared, Behind(m, Prefixed(m)));
        ExtIsC(kec, Build(s, b, e, shared), m);
      } else {
        BranchIsC(kec, s, b, e, pre, m);
      }
    }
  }

  lemma LeafIsC(kec: Hasher, s: seq<Entry>, b: nat, pre: nat, m: Pending)
    requires Sorted(s) && Agree(s, b, b + 1, pre) && Pends(m, s, b, b + 1, pre)
    ensures m != map[] && ItemOf(kec, Build(s, b, b + 1, pre)) == C(kec, m)
    ensures Below(kec, Build(s, b, b + 1, pre)) == Inside(kec, m)
  {
    hide Earlier, SharedPrefix, Prefixed, HP;
    var k := s[b].key[pre..];
    PendsAt(m, s, b, b + 1, pre, b);
    OneKey(m, s, b, pre);
    EncodeIsHP(k, true);
  }

  lemma ExtOfBuild(s: seq<Entry>, b: nat, e: nat, pre: nat)
    requires Sorted(s) && Agree(s, b, e, pre) && b + 1 < e
    requires SharedPrefix(s, b, e) > pre && Agree(s, b, e, SharedPrefix(s, b, e))
    ensures var shared := SharedPrefix(s, b, e);
            && pre <= shared <= |s[b].key| && shared <= MaxLength(s)
            && Build(s, b, e, pre) == Ext(s[b].key[pre..shared], Build(s, b, e, shared))
  {
    hide Earlier, SharedPrefix;
  }

  lemma ExtIsC(kec: Hasher, child: Node, m: Pending)
    requires m != map[] && |m| != 1 && Prefixed(m) != []
    requires var r := Behind(m, Prefixed(m));
             r != map[] && ItemOf(kec, child) == C(kec, r) && Below(kec, child) == Inside(kec, r)
    ensures ItemOf(kec, Ext(Prefixed(m), child)) == C(kec, m)
    ensures Below(kec, Ext(Prefixed(m), child)) == Inside(kec, m)
  {
    hide Prefixed, Behind, N, Ref, Here, With, C, Inside, ItemOf, Below;
    RefIsN(kec, child, Behind(m, Prefixed(m)));
    EncodeIsHP(Prefixed(m), false);
    ExtItem(kec, Prefixed(m), child);
    PrefixedC(kec, m);
  }

  lemma ExtItem(kec: Hasher, k: Nibbles, child: Node)
    ensures ItemOf(kec, Ext(k, child)) == Rlp.List([Rlp.Data(HexPrefix.Encode(k, false)), Ref(kec, child)])
    ensures Below(kec, Ext(k, child)) == Here(kec, child)
  {
  }

  lemma PrefixedC(kec: Hasher, m: Pending)
    requires m != map[] && |m| != 1 && Prefixed(m) != []
    ensures var p := Prefixed(m);
            && C(kec, m) == Rlp.List([Rlp.Data(HP(p, false)), N(kec, Behind(m, p))])
            && Inside(kec, m) == With(kec, Behind(m, p))
  {
    hide Prefixed, HP, Behind;
  }

  lemma {:induction false} BranchIsC(kec: Hasher, s: seq<Entry>, b: nat, e: nat, pre: nat, m: Pending)
    requires Sorted(s) && Agree(s, b, e, pre) && b + 1 < e && Pends(m, s, b, e, pre)
    requires m != map[] && |m| != 1 && Prefixed(m) == [] && SharedPrefix(s, b, e) <= pre
    ensures ItemOf(kec, Build(s, b, e, pre)) == C(kec, m)
    ensures Below(kec, Build(s, b, e, pre)) == Inside(kec, m)
    decreases MaxLength(s) - pre, 0, 17
  {
    hide Earlier, SharedPrefix, Prefixed, Slots, Build, ItemOf, C, Below, Inside, MaxLength, Pends, Agree;
    AgreeAt(s, b, e, pre, b);
    AfterValue(s, b, e, pre);
    FirstPends(m, s, b, e, pre);
    var first := if |s[b].key| == pre then b + 1 else b;
    SlotsAreN(kec, s, first, e, pre, 0, m);
    BranchOfBuild(s, b, e, pre);
    BranchOfC(kec, Slots(s, first, e, pre, 0), if |s[b].key| == pre then s[b].value else [], m);
  }

  lemma BranchOfBuild(s: seq<Entry>, b: nat, e: nat, pre: nat)
    requires Sorted(s) && Agree(s, b, e, pre) && b + 1 < e && SharedPrefix(s, b, e) <= pre
    ensures var first := if |s[b].key| == pre then b + 1 else b;
            && Agree(s, first, e, pre) && (forall j :: first <= j < e ==> pre < |s[j].key|)
            && Build(s, b, e, pre) ==
               Branch(Slots(s, first, e, pre, 0), if |s[b].key| == pre then s[b].value else [])
  {
    hide Earlier, SharedPrefix, Slots;
    AfterValue(s, b, e, pre);
  }

  lemma BranchOfC(kec: Hasher, slots: seq<Node>, value: bytes, m: Pending)
    requires m != map[] && |m| != 1 && Prefixed(m) == [] && value == (if [] in m then m[[]] else [])
    requires Refs(kec, slots) == Slots16(kec, m, 0) && HereAll(kec, slots) == Inside16(kec, m, 0)
    ensures ItemOf(kec, Branch(slots, value)) == C(kec, m) && Below(kec, Branch(slots, value)) == Inside(kec, m)
  {
    hide Prefixed, Slots16, Inside16, HereAll, Refs;
    BranchItem(kec, Branch(slots, value));
  }

  /** The value of the branch, and the entries of its slots. */
  lemma FirstPends(m: Pending, s: seq<Entry>, b: nat, e: nat, pre: nat)
    requires Agree(s, b, e, pre) && b + 1 < e && Pends(m, s, b, e, pre)
    requires forall j :: b < j < e ==> pre < |s[j].key|
    ensures var first := if |s[b].key| == pre then b + 1 else b;
            PendsFrom(m, s, first, e, pre, 0) && Agree(s, first, e, pre) && Longer(s, first, e, pre, 0)
    ensures (if [] in m then m[[]] else []) == if |s[b].key| == pre then s[b].value else []
  {
    assert s[b].key[pre..] in m;
    if |s[b].key| == pre {
      assert s[b].key[pre..] == [];
    }
    var first := if |s[b].key| == pre then b + 1 else b;
    forall k | k in m && k != []
      ensures Listed(s, first, e, pre, k)
    {
      var i :| b <= i < e && s[i].key[pre..] == k;
    }
  }

  lemma {:induction false} SlotsAreN(kec: Hasher, s: seq<Entry>, b: nat, e: nat, pre: nat, i: nat, m: Pending)
    requires Sorted(s) && Agree(s, b, e, pre) && i <= 16 && Longer(s, b, e, pre, i)
    requires m != map[] && PendsFrom(m, s, b, e, pre, i)
    ensures Refs(kec, Slots(s, b, e, pre, i)) == Slots16(kec, m, i)
    ensures HereAll(kec, Slots(s, b, e, pre, i)) == Inside16(kec, m, i)
    decreases MaxLength(s) - pre, 0, 16 - i
  {
    hide Earlier, Build, RunEnd, Slots, Ref, Here, N, With, Behind, MaxLength, PendsFrom, Pends;
    if i < 16 {
      var n, c, rest := SlotsCons(s, b, e, pre, i);
      var here := Behind(m, [i as nibble]);
      SlotPends(m, s, b, n, e, pre, i);
      if b < n {
        BuildIsC(kec, s, b, n, pre + 1, here);
        RefIsN(kec, c, here);
      } else {
        NullIsN(kec);
      }
      SlotsAreN(kec, s, n, e, pre, i + 1, m);
      RefsCons(kec, c, rest);
    } else {
      NoMoreSlots(s, b, e, pre);
    }
  }

  lemma RefsCons(kec: Hasher, c: Node, rest: seq<Node>)
    ensures Refs(kec, [c] + rest) == [Ref(kec, c)] + Refs(kec, rest)
    ensures HereAll(kec, [c] + rest) == Here(kec, c) + HereAll(kec, rest)
  {
    hide Ref, Here;
    assert ([c] + rest)[1..] == rest;
  }

  lemma NoMoreSlots(s: seq<Entry>, b: nat, e: nat, pre: nat)
    requires Sorted(s) && Agree(s, b, e, pre) && Longer(s, b, e, pre, 16)
    ensures Slots(s, b, e, pre, 16) == []
  {
  }

  /** What goes on with the nibble `i` is pending in slot `i`, the rest in later ones. */
  lemma SlotPends(m: Pending, s: seq<Entry>, b: nat, n: nat, e: nat, pre: nat, i: nat)
    requires i < 16 && b <= n <= e && PendsFrom(m, s, b, e, pre, i) && Longer(s, n, e, pre, i + 1)
    requires forall j :: b <= j < n ==> s[j].key[pre] == i
    ensures var here := Behind(m, [i as nibble]);
            if b < n then Pends(here, s, b, n, pre + 1) else here == map[]
    ensures PendsFrom(m, s, n, e, pre, i + 1)
  {
    hide Behind, Listed, Longer;
    var p, here := [i as nibble], Behind(m, [i as nibble]);
    forall j | b <= j < n
      ensures s[j].key[pre + 1..] in here && here[s[j].key[pre + 1..]] == s[j].value
    {
      assert s[j].key[pre..] == p + s[j].key[pre + 1..];
      assert s[j].key[pre..][|p|..] == s[j].key[pre + 1..];
    }
    forall q | q in here
      ensures b < n && Listed(s, b, n, pre + 1, q)
    {
      SlotListed(m, s, b, n, e, pre, i, q);
    }
    forall k | k in m && k != [] && k[0] >= i + 1
      ensures Listed(s, n, e, pre, k)
    {
      LaterListed(m, s, b, n, e, pre, i, k);
    }
  }

  lemma SlotListed(m: Pending, s: seq<Entry>, b: nat, n: nat, e: nat, pre: nat, i: nat, q: Nibbles)
    requires i < 16 && b <= n <= e && PendsFrom(m, s, b, e, pre, i) && Longer(s, n, e, pre, i + 1)
    requires [i as nibble] + q in m
    ensures b < n && Listed(s, b, n, pre + 1, q)
  {
    var k := [i as nibble] + q;
    assert k[0] == i && Listed(s, b, e, pre, k);
    var j :| b <= j < e && pre <= |s[j].key| && s[j].key[pre..] == k;
    assert s[j].key[pre] == i && s[j].key[pre + 1..] == k[1..] == q;
  }

  lemma LaterListed(m: Pending, s: seq<Entry>, b: nat, n: nat, e: nat, pre: nat, i: nat, k: Nibbles)
    requires b <= n <= e && PendsFrom(m, s, b, e, pre, i) && k in m && k != [] && k[0] >= i + 1
    requires forall j :: b <= j < n ==> s[j].key[pre] == i
    ensures Listed(s, n, e, pre, k)
  {
    var j :| b <= j < e && pre <= |s[j].key| && s[j].key[pre..] == k;
    assert s[j].key[pre] == k[0];
  }

  // ---------------------------------------------------------------- whole maps

  /** The trie that is built from a map has the root of the paper, and holds the digests of the paper. */
  lemma TrieOfIsRoot(kec: Hasher, hex: seq<Entry>, m: map<bytes, bytes>)
    requires Sorted(hex) && EntriesOf(hex, m)
    ensures Code(kec, TrieOf(hex)) == RLP(Structure(kec, m)) && kec(Code(kec, TrieOf(hex))) == Root(kec, m)
    ensures m != map[] ==> InNibbles(m) != map[] && Below(kec, TrieOf(hex)) == Inside(kec, InNibbles(m))
  {
    hide *;
    EncodeIsRLP(ItemOf(kec, TrieOf(hex)));
    NoEntries(hex, m);
    if m != map[] {
      MapPends(hex, m);
      WholeIsC(kec, hex, InNibbles(m));
    }
    RootMeans(kec, hex, m);
  }

  lemma WholeIsC(kec: Hasher, hex: seq<Entry>, w: Pending)
    requires Sorted(hex) && hex != [] && Pends(w, hex, 0, |hex|, 0)
    ensures w != map[] && ItemOf(kec, TrieOf(hex)) == C(kec, w) && Below(kec, TrieOf(hex)) == Inside(kec, w)
  {
    hide Earlier, Pends, C, Inside, ItemOf, Below, Build;
    BuildIsC(kec, hex, 0, |hex|, 0, w);
  }

  lemma RootMeans(kec: Hasher, hex: seq<Entry>, m: map<bytes, bytes>)
    requires Sorted(hex) && Rlp.Encode(ItemOf(kec, TrieOf(hex))) == RLP(ItemOf(kec, TrieOf(hex)))
    requires m == map[] ==> TrieOf(hex) == Null
    requires m != map[] ==> InNibbles(m) != map[] && ItemOf(kec, TrieOf(hex)) == C(kec, InNibbles(m))
    ensures Code(kec, TrieOf(hex)) == RLP(Structure(kec, m)) && kec(Code(kec, TrieOf(hex))) == Root(kec, m)
  {
    hide Earlier, Sorted, C, InNibbles, TrieOf, RLP;
  }

  lemma NoEntries(hex: seq<Entry>, m: map<bytes, bytes>)
    requires Sorted(hex) && EntriesOf(hex, m)
    ensures hex == [] <==> m == map[]
    ensures hex == [] ==> TrieOf(hex) == Null
  {
    hide Unpack;
    if hex != [] {
      assert hex[0] in hex;
    }
    if m != map[] {
      var k :| k in m;
    }
  }

  lemma MapPends(hex: seq<Entry>, m: map<bytes, bytes>)
    requires Sorted(hex) && EntriesOf(hex, m)
    ensures Pends(InNibbles(m), hex, 0, |hex|, 0)
  {
    hide Earlier, Y, Unpack, Sorted, EntriesOf, Listed;
    var w := InNibbles(m);
    forall i | 0 <= i < |hex|
      ensures hex[i].key[0..] in w && w[hex[i].key[0..]] == hex[i].value
    {
      EntryInMap(hex, m, i);
    }
    forall q | q in w
      ensures Listed(hex, 0, |hex|, 0, q)
    {
      var k: bytes :| k in m && Y(k) == q;
      KeyListed(hex, m, k);
    }
  }

  lemma EntryInMap(hex: seq<Entry>, m: map<bytes, bytes>, i: nat)
    requires EntriesOf(hex, m) && i < |hex|
    ensures var w := InNibbles(m); hex[i].key[0..] in w && w[hex[i].key[0..]] == hex[i].value
  {
    hide Y, Unpack;
    assert hex[i] in hex;
    var k: bytes :| k in m && hex[i] == Entry(Unpack(k), m[k]);
    YIsUnpack(k);
    assert hex[i].key[0..] == Y(k);
  }

  lemma KeyListed(hex: seq<Entry>, m: map<bytes, bytes>, k: bytes)
    requires EntriesOf(hex, m) && k in m
    ensures Listed(hex, 0, |hex|, 0, Y(k))
  {
    hide Y, Unpack;
    YIsUnpack(k);
    var i :| 0 <= i < |hex| && hex[i] == Entry(Unpack(k), m[k]);
    assert hex[i].key[0..] == Y(k);
  }

  lemma YIsUnpack(k: bytes)
    ensures Y(k) == Unpack(k)
  {
  }

  /** The digests that the trie of a map refers to, one for every place, and its root. */
  ghost function Digests(kec: Hasher, m: map<bytes, bytes>): multiset<Digest>
  {
    (if InNibbles(m) == map[] then multiset{} else Inside(kec, InNibbles(m))) + multiset{Root(kec, m)}
  }

  /** A trie in normal form that holds a map has its root and its digests. */
  lemma NormalIsRoot(kec: Hasher, n: Node, m: map<bytes, bytes>)
    requires Normal(n) && HoldsMap(n, m) && forall k: bytes :: k in m ==> m[k] != []
    ensures kec(Code(kec, n)) == Root(kec, m) && RootDigests(kec, n) == Digests(kec, m)
  {
    hide Code, Root, Inside, Below, Normal, InNibbles, EntriesOf, Sorted, Earlier, TrieOf;
    var hex := SomeListing(m);
    NormalIsTrieOf(n, hex, m);
    TrieOfIsRoot(kec, hex, m);
    if m == map[] {
      NoEntries(hex, m);
      NothingPending();
    }
  }

  lemma NothingPending()
    ensures InNibbles(map[]) == map[] && forall kec :: Below(kec, Null) == multiset{}
  {
  }

  lemma {:induction false} SomeListing(m: map<bytes, bytes>) returns (hex: seq<Entry>)
    ensures Sorted(hex) && EntriesOf(hex, m)
    decreases |m|
  {
    hide Earlier;
    if m == map[] {
      hex := [];
    } else {
      var k :| k in m;
      var rest := m - {k};
      assert rest[k := m[k]] == m;
      var less := SomeListing(rest);
      PutCorrect(less, Unpack(k), m[k]);
      PutEntries(less, rest, k, m[k]);
      hex := Put(less, Unpack(k), m[k]);
    }
  }
}
