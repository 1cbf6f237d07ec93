/** What the RLPx frame coder puts on the wire, byte by byte, and what its tags vouch for. */
module FrameIntegrity {
  import opened Bytes
  import opened Rlp
  import opened TrieCode
  import opened FrameCoder

  // ---------------------------------------------------------------- on the wire

  /** Each byte is mixed with the next byte of the key stream. */
  ghost predicate Enciphers(cr: Crypto, s: Side, plain: bytes, cipher: bytes)
  {
    |cipher| == |plain| && forall i :: 0 <= i < |plain| ==> cipher[i] == Xor(plain[i], cr.stream(s.key, s.used + i))
  }

  /** A header: one block, cut or filled with zeros, enciphered; the MAC absorbs a block that is mixed
      with what is on the wire; the tag is the digest then. */
  lemma HeaderOnTheWire(cr: Crypto, s: Side, header: bytes)
    ensures var (s', io) := HeaderSent(cr, s, header);
            && |io| == 32
            && Enciphers(cr, s, seq(16, i requires 0 <= i => if i < |header| then header[i] else 0), io[..16])
            && Absorbs(cr, s.macKey, s.mac, io[..16], s'.mac)
            && io[16..] == cr.sha3(s'.mac)[..16]
            && s' == s.(used := s.used + 16, mac := s'.mac)
  {
    hide Xor, MacUpdated, Absorbs;
    var (s', io) := HeaderSent(cr, s, header);
    var cipher := Ciphered(cr, s, HeaderBlock(header));
    assert io[..16] == cipher && io[16..] == Tag(cr, s');
    MacAbsorbs(cr, Advanced(s, 16), Some(cipher));
  }

  /** A body: the payload and zeros up to a whole block, enciphered with the key stream from where it was
      left; the MAC absorbs what is on the wire, and then a block that is mixed with its own digest. */
  lemma BodyOnTheWire(cr: Crypto, s: Side, payload: bytes)
    ensures var (s', io) := BodySent(cr, s, payload); var n := |io| - 16; var before := s.mac + io[..n];
            && |payload| <= n < |payload| + 16 && n % 16 == 0
            && Enciphers(cr, s, payload + seq(n - |payload|, _ => 0), io[..n])
            && Absorbs(cr, s.macKey, before, cr.sha3(before)[..16], s'.mac)
            && io[n..] == cr.sha3(s'.mac)[..16]
            && s' == s.(used := s.used + n, mac := s'.mac)
  {
    hide Xor, MacUpdated, Absorbs, Padding;
    var (s', io) := BodySent(cr, s, payload);
    var plain := Padded(payload);
    var n := |plain|;
    var cipher := Ciphered(cr, s, plain);
    assert io[..n] == cipher && io[n..] == Tag(cr, s');
    assert plain == payload + seq(n - |payload|, _ => 0);
    MacAbsorbs(cr, Advanced(s, n).(mac := s.mac + cipher), None);
  }

  /** A header is accepted exactly when its tag is the digest after absorbing it, and is deciphered with
      the next block of the key stream; when it is refused the key stream stays where it was. */
  lemma HeaderAccepted(cr: Crypto, s: Side, io: bytes)
    requires |io| == 32
    ensures var (s', r) := HeaderOpened(cr, s, io);
            && Absorbs(cr, s.macKey, s.mac, io[..16], s'.mac)
            && (r.Some? <==> io[16..] == cr.sha3(s'.mac)[..16])
            && s' == s.(used := s.used + if r.Some? then 16 else 0, mac := s'.mac)
            && (r.Some? ==> |r.value| == 32 && Enciphers(cr, s, io[..16], r.value[..16]))
  {
    hide Xor, MacUpdated, Absorbs;
    MacAbsorbs(cr, s, Some(io[..16]));
    var s' := MacHeader(cr, s, io[..16]);
    assert (Ciphered(cr, s', io[..16]) + io[16..])[..16] == Ciphered(cr, s', io[..16]);
  }

  lemma BodyAccepted(cr: Crypto, s: Side, io: bytes)
    requires |io| >= 16
    ensures var (s', r) := BodyOpened(cr, s, io); var n := |io| - 16; var before := s.mac + io[..n];
            && Absorbs(cr, s.macKey, before, cr.sha3(before)[..16], s'.mac)
            && (r.Some? <==> io[n..] == cr.sha3(s'.mac)[..16])
            && s' == s.(used := s.used + if r.Some? then n else 0, mac := s'.mac)
            && (r.Some? ==> |r.value| == |io| && Enciphers(cr, s, io[..n], r.value[..n]))
  {
    hide Xor, MacUpdated, Absorbs;
    var n := |io| - 16;
    MacAbsorbs(cr, s.(mac := s.mac + io[..n]), None);
    var s' := MacFrame(cr, s, io[..n]);
    assert (Ciphered(cr, s', io[..n]) + io[n..])[..n] == Ciphered(cr, s', io[..n]);
  }

  /** What the two directions of a coder begin with: the keys of the hash chain over the agreed secret
      and the nonces, the responder's first; the MAC key mixed with the nonce of the receiving end; and
      the handshake message of the sending end, the originator's being `auth`. */
  lemma SetUpExactly(cr: Crypto, originated: bool, remoteEphemeral: bytes, remoteNonce: Digest, secret: bytes,
                     nonce: Digest, ack: bytes, auth: bytes)
    ensures var (egress, ingress) := SetUp(cr, originated, remoteEphemeral, remoteNonce, secret, nonce, ack, auth);
            var shared := cr.agree(secret, remoteEphemeral);
            var nonces := if originated then remoteNonce + nonce else nonce + remoteNonce;
            && egress.key == ingress.key == cr.sha3(shared + cr.sha3(shared + cr.sha3(nonces)))
            && egress.macKey == ingress.macKey == cr.sha3(shared + egress.key)
            && egress.used == ingress.used == 0
            && |egress.mac| >= 32 && |ingress.mac| >= 32
            && XorAll(egress.mac[..32], egress.macKey) == remoteNonce
            && XorAll(ingress.mac[..32], egress.macKey) == nonce
            && egress.mac[32..] == (if originated then auth else ack)
            && ingress.mac[32..] == (if originated then ack else auth)
  {
    hide Xor;
    var (egress, ingress) := SetUp(cr, originated, remoteEphemeral, remoteNonce, secret, nonce, ack, auth);
    assert egress.mac[..32] == XorAll(egress.macKey, remoteNonce);
    assert ingress.mac[..32] == XorAll(egress.macKey, nonce);
    XorAllSwap(egress.macKey, remoteNonce);
    XorAllSwap(egress.macKey, nonce);
    XorAllTwice(remoteNonce, egress.macKey);
    XorAllTwice(nonce, egress.macKey);
  }

  lemma {:induction false} XorBitsSwap(a: nat, b: nat, width: nat)
    ensures XorBits(a, b, width) == XorBits(b, a, width)
  {
    if width > 0 {
      XorBitsSwap(a / 2, b / 2, width - 1);
    }
  }

  lemma XorAllSwap(a: bytes, b: bytes)
    requires |a| == |b|
    ensures XorAll(a, b) == XorAll(b, a)
  {
    forall i | 0 <= i < |a|
      ensures XorAll(a, b)[i] == XorAll(b, a)[i]
    {
      XorBitsSwap(a[i], b[i], 8);
    }
  }

  /** The header of a frame: the low 24 bits of the length, high byte first, and a strict list of the
      fields, each in its minimal form. */
  lemma HeaderSpelled(len: nat, fields: seq<nat>)
    requires FieldsOk(fields)
    ensures var h := FrameHeader(len, fields);
            && 3 < |h| <= 16
            && (var high: nat, mid: nat, low: nat := h[0], h[1], h[2];
                high * 0x1_0000 + mid * 0x100 + low == len % 0x100_0000)
            && match Decode(h[3..])
               case Some(List(items)) =>
                 && |items| == |fields|
                 && forall i :: 0 <= i < |fields| ==>
                      items[i].Data? && FromBigEndian(items[i].data) == fields[i] &&
                      (items[i].data == [] || items[i].data[0] != 0)
               case _ => false
  {
    hide Encode, EncodeAll, FieldsOk, Decode;
    FieldsSize(fields);
    ThreeBytes(len);
    var h, items := FrameHeader(len, fields), Numbers(fields);
    assert h[3..] == Encode(List(items));
    DecodeEncode(List(items));
    forall i | 0 <= i < |fields|
      ensures FromBigEndian(items[i].data) == fields[i]
    {
      BigEndianRoundTrip(fields[i]);
    }
  }

  // ---------------------------------------------------------------- what a tag vouches for

  /** Two continuations of what the hash has absorbed, whose digests have the same first block. */
  ghost predicate Collide(cr: Crypto, before: bytes, x: bytes, y: bytes)
  {
    x != y && cr.sha3(before + x)[..16] == cr.sha3(before + y)[..16]
  }

  lemma Rejoin(before: bytes, after: bytes)
    requires |before| <= |after| && after[..|before|] == before
    ensures after == before + after[|before|..]
  {
  }

  /** A header that is accepted under the tag of another one is that one, or the hash collides on two
      continuations by one block. */
  lemma HeaderVouched(cr: Crypto, s: Side, io: bytes, io': bytes)
    requires |io| == |io'| == 32 && io[16..] == io'[16..]
    requires HeaderOpened(cr, s, io).1.Some? && HeaderOpened(cr, s, io').1.Some?
    ensures io == io' || exists x: bytes, y: bytes :: |x| == |y| == 16 && Collide(cr, s.mac, x, y)
  {
    hide Xor, HeaderOpened;
    HeaderAccepted(cr, s, io);
    HeaderAccepted(cr, s, io');
    var m, m' := HeaderOpened(cr, s, io).0.mac, HeaderOpened(cr, s, io').0.mac;
    var x, y := m[|s.mac|..], m'[|s.mac|..];
    Rejoin(s.mac, m);
    Rejoin(s.mac, m');
    if x == y {
      SeedFound(x, io[..16], io'[..16]);
      assert io == io[..16] + io[16..] && io' == io'[..16] + io'[16..];
    } else {
      assert Collide(cr, s.mac, x, y);
    }
  }

  lemma SeedFound(block: bytes, seed: bytes, seed': bytes)
    requires |block| == |seed| == |seed'| && XorAll(block, seed) == XorAll(block, seed')
    ensures seed == seed'
  {
    hide Xor;
    XorAllSwap(block, seed);
    XorAllSwap(block, seed');
    XorAllTwice(seed, block);
    XorAllTwice(seed', block);
  }

  /** The same for bodies, of any lengths. */
  lemma BodyVouched(cr: Crypto, s: Side, io: bytes, io': bytes)
    requires |io| >= 16 && |io'| >= 16 && io[|io| - 16..] == io'[|io'| - 16..]
    requires BodyOpened(cr, s, io).1.Some? && BodyOpened(cr, s, io').1.Some?
    ensures io == io' ||
            exists x: bytes, y: bytes :: |x| == |io| && |y| == |io'| && Collide(cr, s.mac, x, y)
  {
    hide Xor, XorAll, BodyOpened;
    BodyAccepted(cr, s, io);
    BodyAccepted(cr, s, io');
    var m, m' := BodyOpened(cr, s, io).0.mac, BodyOpened(cr, s, io').0.mac;
    BodyInMac(cr, s, io);
    BodyInMac(cr, s, io');
    var x, y := m[|s.mac|..], m'[|s.mac|..];
    if x == y {
      assert io[..|io| - 16] == io'[..|io'| - 16];
      assert io == io[..|io| - 16] + io[|io| - 16..] && io' == io'[..|io'| - 16] + io'[|io'| - 16..];
    } else {
      assert Collide(cr, s.mac, x, y);
    }
  }

  /** What the MAC has absorbed holds the body. */
  lemma BodyInMac(cr: Crypto, s: Side, io: bytes)
    requires |io| >= 16
    ensures var m := BodyOpened(cr, s, io).0.mac; var at := |s.mac|;
            && |m| == at + |io| && m == s.mac + m[at..] && m[at..][..|io| - 16] == io[..|io| - 16]
  {
    hide Xor, XorAll, BodyOpened;
    BodyAccepted(cr, s, io);
    var m, n, at := BodyOpened(cr, s, io).0.mac, |io| - 16, |s.mac|;
    var before := s.mac + io[..n];
    assert m[..at] == m[..at + n][..at] == before[..at] == s.mac;
    assert m[at..][..n] == m[..at + n][at..] == before[at..] == io[..n];
    Rejoin(s.mac, m);
  }

  /** A frame that is read leaves the MAC longer by its size without one tag. */
  lemma FrameInMac(cr: Crypto, s: Side, io: bytes)
    requires |io| >= 48 && PlainRead(cr, s, io).1.Some?
    ensures var m := PlainRead(cr, s, io).0.mac;
            && |m| == |s.mac| + |io| - 16 && m[..|s.mac|] == s.mac && io[|io| - 16..] == cr.sha3(m)[..16]
    ensures var h := HeaderOpened(cr, s, io[..32]); var m := PlainRead(cr, s, io).0.mac;
            && h.1.Some? && BodyOpened(cr, h.0, io[32..]).1.Some? && BodyOpened(cr, h.0, io[32..]).0.mac == m
            && |h.0.mac| == |s.mac| + 16 && m[..|s.mac| + 16] == h.0.mac
  {
    hide Xor, XorAll, HeaderOpened, BodyOpened, ReadInfo;
    HeaderAccepted(cr, s, io[..32]);
    var h := HeaderOpened(cr, s, io[..32]).0;
    BodyInMac(cr, h, io[32..]);
    BodyAccepted(cr, h, io[32..]);
    var m := PlainRead(cr, s, io).0.mac;
    assert m[..|h.mac|] == h.mac;
    assert m[..|s.mac|] == h.mac[..|s.mac|];
    assert io[32..][|io| - 48..] == io[|io| - 16..];
  }

  /** The MAC tells the frame. */
  lemma MacTellsFrame(cr: Crypto, s: Side, io: bytes, io': bytes)
    requires |io| == |io'| >= 48 && PlainRead(cr, s, io).1.Some? && PlainRead(cr, s, io').1.Some?
    requires PlainRead(cr, s, io).0.mac == PlainRead(cr, s, io').0.mac
    ensures io == io'
  {
    hide Xor, XorAll, HeaderOpened, BodyOpened, PlainRead;
    FrameInMac(cr, s, io);
    FrameInMac(cr, s, io');
    MacTellsHeader(cr, s, io[..32], io'[..32]);
    var h := HeaderOpened(cr, s, io[..32]).0;
    BodyInMac(cr, h, io[32..]);
    BodyInMac(cr, h, io'[32..]);
    assert io == io[..32] + io[32..][..|io| - 48] + io[|io| - 16..];
    assert io' == io'[..32] + io'[32..][..|io| - 48] + io'[|io| - 16..];
  }

  lemma MacTellsHeader(cr: Crypto, s: Side, io: bytes, io': bytes)
    requires |io| == |io'| == 32 && HeaderOpened(cr, s, io).1.Some? && HeaderOpened(cr, s, io').1.Some?
    requires HeaderOpened(cr, s, io).0.mac == HeaderOpened(cr, s, io').0.mac
    ensures io == io'
  {
    hide Xor, XorAll, HeaderOpened;
    HeaderAccepted(cr, s, io);
    HeaderAccepted(cr, s, io');
    SeedFound(HeaderOpened(cr, s, io).0.mac[|s.mac|..], io[..16], io'[..16]);
    assert io == io[..16] + io[16..] && io' == io'[..16] + io'[16..];
  }

  ghost predicate SameSizes(ios: seq<bytes>, ios': seq<bytes>)
  {
    |ios| == |ios'| && forall i :: 0 <= i < |ios| ==> |ios[i]| == |ios'[i]| >= 48
  }

  lemma {:induction false} RunInMac(cr: Crypto, s: Side, ios: seq<bytes>)
    requires (forall io :: io in ios ==> |io| >= 48) && AllRead(cr, s, ios).1.Some?
    ensures var m := AllRead(cr, s, ios).0.mac; |m| >= |s.mac| && m[..|s.mac|] == s.mac
    ensures ios != [] ==> var last := ios[|ios| - 1]; last[|last| - 16..] == cr.sha3(AllRead(cr, s, ios).0.mac)[..16]
    decreases |ios|
  {
    hide PlainRead;
    if ios != [] {
      FrameInMac(cr, s, ios[0]);
      var s1 := PlainRead(cr, s, ios[0]).0;
      RunInMac(cr, s1, ios[1..]);
      var m := AllRead(cr, s, ios).0.mac;
      assert m[..|s.mac|] == m[..|s1.mac|][..|s.mac|];
    }
  }

  /** The MAC tells the whole run. */
  lemma {:induction false} MacTellsRun(cr: Crypto, s: Side, ios: seq<bytes>, ios': seq<bytes>)
    requires SameSizes(ios, ios') && AllRead(cr, s, ios).1.Some? && AllRead(cr, s, ios').1.Some?
    requires AllRead(cr, s, ios).0.mac == AllRead(cr, s, ios').0.mac
    ensures ios == ios'
    decreases |ios|
  {
    hide PlainRead;
    if ios != [] {
      var s1, s1' := PlainRead(cr, s, ios[0]).0, PlainRead(cr, s, ios'[0]).0;
      FrameInMac(cr, s, ios[0]);
      FrameInMac(cr, s, ios'[0]);
      RunInMac(cr, s1, ios[1..]);
      RunInMac(cr, s1', ios'[1..]);
      MacTellsFrame(cr, s, ios[0], ios'[0]);
      MacTellsRun(cr, s1, ios[1..], ios'[1..]);
      assert ios == [ios[0]] + ios[1..] && ios' == [ios'[0]] + ios'[1..];
    }
  }

  /** The last tag vouches for everything before it: a run of frames that the reader accepts, with the
      sizes and the last tag of another such run, is that run byte for byte, or the hash collides. */
  lemma LastTagVouches(cr: Crypto, s: Side, ios: seq<bytes>, ios': seq<bytes>)
    requires SameSizes(ios, ios') && ios != [] && AllRead(cr, s, ios).1.Some? && AllRead(cr, s, ios').1.Some?
    requires var k := |ios| - 1; var n := |ios[k]| - 16; ios[k][n..] == ios'[k][n..]
    ensures ios == ios' || exists x: bytes, y: bytes :: Collide(cr, s.mac, x, y)
  {
    hide AllRead;
    RunInMac(cr, s, ios);
    RunInMac(cr, s, ios');
    var m, m' := AllRead(cr, s, ios).0.mac, AllRead(cr, s, ios').0.mac;
    Rejoin(s.mac, m);
    Rejoin(s.mac, m');
    if m == m' {
      MacTellsRun(cr, s, ios, ios');
    } else {
      assert Collide(cr, s.mac, m[|s.mac|..], m'[|s.mac|..]);
    }
  }
}
