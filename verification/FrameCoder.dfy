/** The RLPx frame coder: keys and MACs of one end of a connection, and what it does to them when
    it writes and reads frames. The cryptographic primitives are parameters. */
module FrameCoder {
  import opened Bytes
  import opened Rlp
  import opened RlpStream
  import opened RlpView
  import opened TrieCode

  const BLOCK: nat := 16

  type Block = b: bytes | |b| == BLOCK witness [0, 0, 0, 0, 0, 0, 0, 0, 0, 0, 0, 0, 0, 0, 0, 0]

  /** SHA3, one block of AES with a key, the key stream of AES in counter mode from a zero
      counter, and the key agreement with the public form of a secret. */
  datatype Crypto = Crypto(
    sha3: Hasher, aes: (bytes, Block) -> Block, stream: (bytes, nat) -> byte,
    agree: (bytes, bytes) -> Digest, publicOf: bytes -> bytes)

  /** Key agreement commutes. */
  ghost predicate Commutes(cr: Crypto)
  {
    forall a, b :: cr.agree(a, cr.publicOf(b)) == cr.agree(b, cr.publicOf(a))
  }

  // ---------------------------------------------------------------- exclusive or

  function XorBits(a: nat, b: nat, width: nat): (x: nat)
  {
    if width == 0 then 0 else 2 * XorBits(a / 2, b / 2, width - 1) + if a % 2 == b % 2 then 0 else 1
  }

  lemma {:induction false} XorBitsBound(a: nat, b: nat, width: nat, limit: nat)
    requires width <= 8 && limit == [1, 2, 4, 8, 16, 32, 64, 128, 256][width]
    ensures XorBits(a, b, width) < limit
  {
    if width > 0 {
      XorBitsBound(a / 2, b / 2, width - 1, limit / 2);
    }
  }

  lemma {:induction false} XorBitsTwice(a: nat, b: nat, width: nat, limit: nat)
    requires width <= 8 && limit == [1, 2, 4, 8, 16, 32, 64, 128, 256][width] && a < limit
    ensures XorBits(XorBits(a, b, width), b, width) == a
  {
    if width > 0 {
      XorBitsTwice(a / 2, b / 2, width - 1, limit / 2);
    }
  }

  /** Bit `i` of a number. */
  function Bit(x: nat, i: nat): bool
  {
    if i == 0 then x % 2 == 1 else Bit(x / 2, i - 1)
  }

  lemma {:induction false} XorBitsBit(a: nat, b: nat, width: nat, i: nat)
    requires i < width
    ensures Bit(XorBits(a, b, width), i) <==> Bit(a, i) != Bit(b, i)
  {
    if i > 0 {
      XorBitsBit(a / 2, b / 2, width - 1, i - 1);
    }
  }

  function Xor(a: byte, b: byte): byte
  {
    XorBitsBound(a, b, 8, 256);
    XorBits(a, b, 8)
  }

  /** A bit is set where the two differ. */
  lemma XorBit(a: byte, b: byte, i: nat)
    requires i < 8
    ensures Bit(Xor(a, b), i) <==> Bit(a, i) != Bit(b, i)
  {
    XorBitsBit(a, b, 8, i);
  }

  lemma XorTwice(a: byte, b: byte)
    ensures Xor(Xor(a, b), b) == a
  {
    XorBitsTwice(a, b, 8, 256);
  }

  function XorAll(a: bytes, b: bytes): (x: bytes)
    requires |a| == |b|
    ensures |x| == |a|
  {
    seq(|a|, i requires 0 <= i < |a| => Xor(a[i], b[i]))
  }

  lemma XorAllTwice(a: bytes, b: bytes)
    requires |a| == |b|
    ensures XorAll(XorAll(a, b), b) == a
  {
    hide Xor;
    forall i | 0 <= i < |a|
      ensures XorAll(XorAll(a, b), b)[i] == a[i]
    {
      XorTwice(a[i], b[i]);
    }
  }

  // ---------------------------------------------------------------- one direction

  /** One direction of a coder: the cipher key and how far its key stream is used up, the key of
      the MAC's block cipher, and everything that the MAC has absorbed. */
  datatype Side = Side(key: bytes, used: nat, macKey: bytes, mac: bytes)

  function KeyStream(cr: Crypto, s: Side, n: nat): (k: bytes)
    ensures |k| == n
  {
    seq<byte>(n, i requires 0 <= i < n => cr.stream(s.key, s.used + i))
  }

  /** The cipher; enciphering and deciphering are the same. */
  function Ciphered(cr: Crypto, s: Side, b: bytes): (c: bytes)
    ensures |c| == |b|
  {
    XorAll(b, KeyStream(cr, s, |b|))
  }

  function Advanced(s: Side, n: nat): Side
  {
    s.(used := s.used + n)
  }

  lemma CipheredTwice(cr: Crypto, s: Side, b: bytes)
    ensures Ciphered(cr, s, Ciphered(cr, s, b)) == b
  {
    XorAllTwice(b, KeyStream(cr, s, |b|));
  }

  /** The first block of the digest of what the MAC has absorbed. */
  function Tag(cr: Crypto, s: Side): Block
  {
    cr.sha3(s.mac)[..BLOCK]
  }

  /** updateMAC: absorbs the enciphered tag, mixed with a seed or with the tag itself. */
  function MacUpdated(cr: Crypto, s: Side, seed: Option<Block>): Side
  {
    var tag := Tag(cr, s);
    s.(mac := s.mac + XorAll(cr.aes(s.macKey, tag), if seed.Some? then seed.value else tag))
  }

  function MacHeader(cr: Crypto, s: Side, header: Block): Side
  {
    MacUpdated(cr, s, Some(header))
  }

  function MacFrame(cr: Crypto, s: Side, cipher: bytes): Side
  {
    MacUpdated(cr, s.(mac := s.mac + cipher), None)
  }

  /** The hash has absorbed one more block, which mixed with `seed` is the enciphered digest of what it
      had absorbed before. */
  ghost predicate Absorbs(cr: Crypto, macKey: bytes, before: bytes, seed: bytes, after: bytes)
  {
    && |seed| == BLOCK && |after| == |before| + BLOCK && after[..|before|] == before
    && XorAll(after[|before|..], seed) == cr.aes(macKey, cr.sha3(before)[..BLOCK])
  }

  /** A seed is mixed in; without one it is the digest itself. */
  lemma MacAbsorbs(cr: Crypto, s: Side, seed: Option<Block>)
    ensures var s' := MacUpdated(cr, s, seed);
            && Absorbs(cr, s.macKey, s.mac, if seed.Some? then seed.value else cr.sha3(s.mac)[..BLOCK], s'.mac)
            && s' == s.(mac := s'.mac)
  {
    hide Xor;
    XorAllTwice(cr.aes(s.macKey, Tag(cr, s)), if seed.Some? then seed.value else Tag(cr, s));
  }

  function Padding(len: nat): (p: nat)
    ensures p < BLOCK && (len + p) % BLOCK == 0
  {
    (16 - len % 16) % 16
  }

  function Zeros(n: nat): (z: bytes)
    ensures |z| == n
  {
    seq(n, _ => 0)
  }

  /** A header is cut, or filled with zeros, to one block. */
  function HeaderBlock(header: bytes): Block
  {
    if |header| >= BLOCK then header[..BLOCK] else header + Zeros(BLOCK - |header|)
  }

  function Padded(payload: bytes): bytes
  {
    payload + Zeros(Padding(|payload|))
  }

  /** The header of a frame as it is sent, and the state after it. */
  function HeaderSent(cr: Crypto, s: Side, header: bytes): (Side, bytes)
  {
    var cipher := Ciphered(cr, s, HeaderBlock(header));
    var s' := MacHeader(cr, Advanced(s, BLOCK), cipher);
    (s', cipher + Tag(cr, s'))
  }

  function BodySent(cr: Crypto, s: Side, payload: bytes): (Side, bytes)
  {
    var plain := Padded(payload);
    var cipher := Ciphered(cr, s, plain);
    var s' := MacFrame(cr, Advanced(s, |plain|), cipher);
    (s', cipher + Tag(cr, s'))
  }

  function FrameSent(cr: Crypto, s: Side, header: bytes, payload: bytes): (Side, bytes)
  {
    var (s1, h) := HeaderSent(cr, s, header);
    var (s2, b) := BodySent(cr, s1, payload);
    (s2, h + b)
  }

  /** Reads a header block with its tag; None when the tag is wrong. */
  function HeaderOpened(cr: Crypto, s: Side, io: bytes): (Side, Option<bytes>)
    requires |io| == 2 * BLOCK
  {
    var s' := MacHeader(cr, s, io[..BLOCK]);
    if io[BLOCK..] != Tag(cr, s') then (s', None)
    else (Advanced(s', BLOCK), Some(Ciphered(cr, s', io[..BLOCK]) + io[BLOCK..]))
  }

  function BodyOpened(cr: Crypto, s: Side, io: bytes): (Side, Option<bytes>)
    requires |io| >= BLOCK
  {
    var n := |io| - BLOCK;
    var s' := MacFrame(cr, s, io[..n]);
    if io[n..] != Tag(cr, s') then (s', None)
    else (Advanced(s', n), Some(Ciphered(cr, s', io[..n]) + io[n..]))
  }

  // ---------------------------------------------------------------- lockstep

  /** A header that is sent passes the reader's check and comes back, and the states stay equal. */
  lemma HeaderLockstep(cr: Crypto, s: Side, header: bytes)
    ensures var (s', io) := HeaderSent(cr, s, header);
            |io| == 2 * BLOCK && HeaderOpened(cr, s, io) == (s', Some(HeaderBlock(header) + io[BLOCK..]))
  {
    hide MacUpdated, Ciphered, Tag;
    var cipher := Ciphered(cr, s, HeaderBlock(header));
    var (s', io) := HeaderSent(cr, s, header);
    assert io[..BLOCK] == cipher && io[BLOCK..] == Tag(cr, s');
    MacSameStream(cr, s, Some(cipher), BLOCK);
    CipherWithoutMac(cr, s, MacHeader(cr, s, cipher), cipher);
    CipheredTwice(cr, s, HeaderBlock(header));
  }

  lemma BodyLockstep(cr: Crypto, s: Side, payload: bytes)
    ensures var (s', io) := BodySent(cr, s, payload); var n := |Padded(payload)|;
            |io| == n + BLOCK && BodyOpened(cr, s, io) == (s', Some(Padded(payload) + io[n..]))
  {
    hide MacUpdated, Ciphered, Padded, Tag;
    var plain := Padded(payload);
    var cipher := Ciphered(cr, s, plain);
    var (s', io) := BodySent(cr, s, payload);
    assert io[..|plain|] == cipher && io[|plain|..] == Tag(cr, s');
    MacSameStream(cr, s.(mac := s.mac + cipher), None, |plain|);
    CipherWithoutMac(cr, s, MacFrame(cr, s, cipher), cipher);
    CipheredTwice(cr, s, plain);
  }

  /** The MAC and the position in the key stream do not influence each other. */
  lemma MacSameStream(cr: Crypto, s: Side, seed: Option<Block>, n: nat)
    ensures MacUpdated(cr, Advanced(s, n), seed) == Advanced(MacUpdated(cr, s, seed), n)
    ensures Tag(cr, Advanced(MacUpdated(cr, s, seed), n)) == Tag(cr, MacUpdated(cr, s, seed))
    ensures MacUpdated(cr, s, seed).key == s.key && MacUpdated(cr, s, seed).used == s.used
  {
  }

  lemma CipherWithoutMac(cr: Crypto, s: Side, t: Side, b: bytes)
    requires s.key == t.key && s.used == t.used
    ensures Ciphered(cr, s, b) == Ciphered(cr, t, b)
  {
  }

  /** A whole frame: both tags pass, header and payload come back, and the reader's state is the
      writer's again. */
  lemma FrameLockstep(cr: Crypto, s: Side, header: bytes, payload: bytes)
    ensures var (s', io) := FrameSent(cr, s, header, payload); var n := |Padded(payload)|;
            && |io| == 2 * BLOCK + n + BLOCK
            && var (s1, h) := HeaderOpened(cr, s, io[..2 * BLOCK]);
            && h == Some(HeaderBlock(header) + io[BLOCK..2 * BLOCK])
            && BodyOpened(cr, s1, io[2 * BLOCK..]) == (s', Some(Padded(payload) + io[2 * BLOCK + n..]))
  {
    hide HeaderOpened, BodyOpened, HeaderSent, BodySent, HeaderBlock, Padded;
    HeaderLockstep(cr, s, header);
    var (s1, h) := HeaderSent(cr, s, header);
    BodyLockstep(cr, s1, payload);
    var (s2, b) := BodySent(cr, s1, payload);
    var io := h + b;
    assert io[..2 * BLOCK] == h && io[2 * BLOCK..] == b && io[BLOCK..2 * BLOCK] == h[BLOCK..];
    assert io[2 * BLOCK + |Padded(payload)|..] == b[|Padded(payload)|..];
  }

  // ---------------------------------------------------------------- keys

  /** The hash chain over the shared secret, from the hash of the nonces: the cipher key and the
      MAC secret. */
  function Secrets(cr: Crypto, shared: Digest, left: Digest, right: Digest): (Digest, Digest)
  {
    var aesSecret := cr.sha3(shared + cr.sha3(shared + cr.sha3(left + right)));
    (aesSecret, cr.sha3(shared + aesSecret))
  }

  /** The two directions of a coder after its set-up: egress and ingress. */
  function SetUp(cr: Crypto, originated: bool, remoteEphemeral: bytes, remoteNonce: Digest, secret: bytes,
      nonce: Digest, ackCipher: bytes, authCipher: bytes): (Side, Side)
  {
    var shared := cr.agree(secret, remoteEphemeral);
    var left, right := if originated then remoteNonce else nonce, if originated then nonce else remoteNonce;
    var (aes, mac) := Secrets(cr, shared, left, right);
    (Side(aes, 0, mac, XorAll(mac, remoteNonce) + if originated then authCipher else ackCipher),
     Side(aes, 0, mac, XorAll(mac, nonce) + if originated then ackCipher else authCipher))
  }

  /** Ends that are set up with mirrored arguments: what one sends is what the other expects. */
  lemma MirroredSetUp(cr: Crypto, secretA: bytes, secretB: bytes, nonceA: Digest, nonceB: Digest,
                      ack: bytes, auth: bytes)
    requires Commutes(cr)
    ensures var a := SetUp(cr, true, cr.publicOf(secretB), nonceB, secretA, nonceA, ack, auth);
            var b := SetUp(cr, false, cr.publicOf(secretA), nonceA, secretB, nonceB, ack, auth);
            a.0 == b.1 && a.1 == b.0
  {
    assert cr.agree(secretA, cr.publicOf(secretB)) == cr.agree(secretB, cr.publicOf(secretA));
  }

  // ---------------------------------------------------------------- headers

  function Number(n: nat): Item
  {
    Data(BigEndian(n))
  }

  /** The low 24 bits of the length. */
  function Length24(len: nat): bytes
  {
    [len / 256 / 256 % 256, len / 256 % 256, len % 256]
  }

  function LengthRead(header: bytes): nat
    requires |header| >= 3
  {
    var high: nat, mid: nat, low: nat := header[0], header[1], header[2];
    (high * 256 + mid) * 256 + low
  }

  /** The header of a frame: its length, and a list of the protocol, for a frame of a sequence the
      sequence number, and for the first frame of a packet the packet's size. */
  function FrameHeader(len: nat, fields: seq<nat>): bytes
  {
    Length24(len) + Encode(List(Numbers(fields)))
  }

  function Numbers(fields: seq<nat>): (items: seq<Item>)
    ensures |items| == |fields|
  {
    seq(|fields|, i requires 0 <= i < |fields| => Number(fields[i]))
  }

  datatype FrameInfo = FrameInfo(
    length: nat, padding: nat, protocolId: nat, multiFrame: bool, sequenceId: nat, totalLength: nat)

  function PayloadOf(b: bytes): Option<bytes>
  {
    match Length(b)
    case None => None
    case Some(len) =>
      if len > |b| then None
      else if PayloadOffset(b) + len <= |b| then Some(b[PayloadOffset(b)..PayloadOffset(b) + len])
      else Some([])
  }

  /** The number in a field of the header list. */
  function Field(payload: bytes, c: Cache, i: Index, size: nat): (Cache, Option<nat>)
  {
    var (c', item) := Query(payload, c, i);
    (c', if item.None? then None else ToInt(item.value, size))
  }

  /** The fields that are read from a header; None where the source throws. */
  function ReadInfo(header: bytes): Option<FrameInfo>
    requires |header| >= 3
  {
    var len := LengthRead(header);
    var data := header[3..];
    if SizeAsEncoded(data).None? then None
    else match PayloadOf(data)
      case None => None
      case Some(payload) =>
        var isList := data != [] && data[0] >= LIST_START;
        var (c0, protocol) := Field(payload, FRESH, 0, 2);
        if protocol.None? || (isList && !Splits(payload)) then None
        else
          var count := if isList then |Split(payload)| else 0;
          var (c1, sequence) := if count > 1 then Field(payload, c0, 1, 2) else (c0, Some(0));
          var (c2, total) := if count == 3 then Field(payload, c1, 2, 4) else (c1, Some(0));
          if sequence.None? || total.None? then None
          else Some(FrameInfo(len, Padding(len), protocol.value, count > 1, sequence.value, total.value))
  }

  /** Fields that their integer types can hold: two bytes, two bytes, four bytes. */
  ghost predicate FieldsOk(fields: seq<nat>)
  {
    && 1 <= |fields| <= 3
    && fields[0] < 0x1_0000
    && (|fields| > 1 ==> fields[1] < 0x1_0000)
    && (|fields| > 2 ==> fields[2] < 0x1_0000_0000)
  }

  lemma NumberSize(n: nat, size: nat)
    requires n < Pow256(size) && size <= 4
    ensures |Encode(Number(n))| <= 1 + size
    ensures ToInt(Encode(Number(n)), size) == Some(n)
  {
    BigEndianWidth(n, size);
    NumberRoundTrip(n, size);
  }

  lemma Powers()
    ensures Pow256(2) == 0x1_0000 && Pow256(4) == 0x1_0000_0000
  {
    assert Pow256(3) == 0x100_0000;
  }

  /** The list of the fields fits what is left of the header block. */
  lemma FieldsSize(fields: seq<nat>)
    requires FieldsOk(fields)
    ensures |EncodeAll(Numbers(fields))| <= 11 && |FrameHeader(0, fields)| <= BLOCK
  {
    Powers();
    NumberSize(fields[0], 2);
    var items := Numbers(fields);
    if |fields| == 1 {
      assert items == [Number(fields[0])];
      EncodeAllMore([], Number(fields[0]));
      assert [] + [Number(fields[0])] == items;
    } else if |fields| == 2 {
      NumberSize(fields[1], 2);
      EncodeAllMore([], Number(fields[0]));
      EncodeAllMore([] + [Number(fields[0])], Number(fields[1]));
      assert [] + [Number(fields[0])] + [Number(fields[1])] == items;
    } else {
      NumberSize(fields[1], 2);
      NumberSize(fields[2], 4);
      EncodeAllMore([], Number(fields[0]));
      EncodeAllMore([] + [Number(fields[0])], Number(fields[1]));
      EncodeAllMore([] + [Number(fields[0])] + [Number(fields[1])], Number(fields[2]));
      assert [] + [Number(fields[0])] + [Number(fields[1])] + [Number(fields[2])] == items;
    }
  }

  /** A query for a field finds the number. */
  lemma FieldFound(fields: seq<nat>, c: Cache, i: nat, size: nat)
    requires i < |fields| && i < 3 && fields[i] < Pow256(size) && size <= 4
    requires |EncodeAll(Numbers(fields))| < IMM_COUNT && Stands(EncodeAll(Numbers(fields)), c)
    ensures var (c', n) := Field(EncodeAll(Numbers(fields)), c, i, size);
            n == Some(fields[i]) && Stands(EncodeAll(Numbers(fields)), c')
  {
    hide Stands, Query, ToInt;
    var d := EncodeAll(Numbers(fields));
    SplitEncoded(Numbers(fields));
    QueryFinds(d, c, i);
    NumberSize(fields[i], size);
  }

  lemma HeaderPayload(items: seq<Item>, tail: bytes)
    requires |EncodeAll(items)| < IMM_COUNT
    ensures var data := Encode(List(items)) + tail;
            && SizeAsEncoded(data).Some? && data[0] >= LIST_START && PayloadOf(data) == Some(EncodeAll(items))
  {
    hide EncodeAll, BigEndian, FromBigEndian;
    var payload := EncodeAll(items);
    var data := Encode(List(items)) + tail;
    assert data == [LIST_START + |payload|] + payload + tail;
    assert Length(data) == Some(|payload|) && PayloadOffset(data) == 1;
    assert data[1..1 + |payload|] == payload;
  }

  /** Fields that can be read: the first two fit two bytes, and the third of three fits four. */
  ghost predicate Readable(fields: seq<nat>)
  {
    && fields != [] && |EncodeAll(Numbers(fields))| < IMM_COUNT
    && fields[0] < 0x1_0000
    && (|fields| > 1 ==> fields[1] < 0x1_0000)
    && (|fields| == 3 ==> fields[2] < 0x1_0000_0000)
  }

  /** What is read from a header that lists any numbers: the low 24 bits of the length, protocol and
      sequence number, and the third number only of exactly three. */
  lemma InfoOfNumbers(len: nat, fields: seq<nat>, tail: bytes)
    requires Readable(fields)
    ensures ReadInfo(FrameHeader(len, fields) + tail) ==
            Some(FrameInfo(len % 0x100_0000, Padding(len % 0x100_0000), fields[0], |fields| > 1,
                           if |fields| > 1 then fields[1] else 0, if |fields| == 3 then fields[2] else 0))
  {
    hide Stands, Query, ToInt, Encode, EncodeAll, SizeAsEncoded, PayloadOf, Field, Split, Splits, Padding;
    var header := FrameHeader(len, fields) + tail;
    var items := Numbers(fields);
    var payload := EncodeAll(items);
    Powers();
    assert header[3..] == Encode(List(items)) + tail;
    HeaderPayload(items, tail);
    SplitEncoded(items);
    FreshStands(payload);
    FieldFound(fields, FRESH, 0, 2);
    var (c0, protocol) := Field(payload, FRESH, 0, 2);
    if |fields| > 1 {
      FieldFound(fields, c0, 1, 2);
      var (c1, sequence) := Field(payload, c0, 1, 2);
      if |fields| == 3 {
        FieldFound(fields, c1, 2, 4);
      }
    }
    ThreeBytes(len);
    assert LengthRead(header) == LengthRead(Length24(len));
  }

  /** What is written into a header is read from it; of the length, the low 24 bits. */
  lemma InfoReadBack(len: nat, fields: seq<nat>, tail: bytes)
    requires FieldsOk(fields)
    ensures ReadInfo(FrameHeader(len, fields) + tail) ==
            Some(FrameInfo(len % 0x100_0000, Padding(len % 0x100_0000), fields[0], |fields| > 1,
                           if |fields| > 1 then fields[1] else 0, if |fields| > 2 then fields[2] else 0))
  {
    hide ReadInfo, FrameHeader, EncodeAll, Padding;
    FieldsSize(fields);
    InfoOfNumbers(len, fields, tail);
  }

  /** The fixed header of writeSingleFramePacket is that of protocol 0 and sequence number 0. */
  lemma LegacyHeader(len: nat)
    ensures FrameHeader(len, [0, 0]) == Length24(len) + [0xc2, 0x80, 0x80]
  {
    var zero := Data([]);
    assert Numbers([0, 0]) == [] + [zero] + [zero];
    EncodeAllMore([], zero);
    EncodeAllMore([] + [zero], zero);
  }

  lemma FreshStands(d: bytes)
    ensures Stands(d, FRESH)
  {
  }

  lemma ThreeBytes(len: nat)
    ensures LengthRead(Length24(len)) == len % 0x100_0000
  {
    var x := len / 256;
    var y := x / 256;
    var z := y / 256;
    assert len == 0x100_0000 * z + LengthRead(Length24(len));
  }

  // ---------------------------------------------------------------- runs of frames

  /** A frame before it is sent: the fields of its header, and its payload. */
  datatype Plain = Plain(fields: seq<nat>, payload: bytes)

  function PlainSent(cr: Crypto, s: Side, f: Plain): (Side, bytes)
  {
    FrameSent(cr, s, FrameHeader(|f.payload|, f.fields), f.payload)
  }

  function AllSent(cr: Crypto, s: Side, frames: seq<Plain>): (Side, seq<bytes>)
    decreases |frames|
  {
    if frames == [] then (s, [])
    else
      var (s1, io) := PlainSent(cr, s, frames[0]);
      var (s2, rest) := AllSent(cr, s1, frames[1..]);
      (s2, [io] + rest)
  }

  /** Reads one frame: header, then fields, then body; None where a tag or the header is refused. */
  function PlainRead(cr: Crypto, s: Side, io: bytes): (Side, Option<(FrameInfo, bytes)>)
    requires |io| >= 3 * BLOCK
  {
    match HeaderOpened(cr, s, io[..2 * BLOCK])
    case (s1, None) => (s1, None)
    case (s1, Some(header)) =>
      var info := ReadInfo(header);
      var (s2, body) := BodyOpened(cr, s1, io[2 * BLOCK..]);
      if info.None? || body.None? then (s2, None) else (s2, Some((info.value, body.value)))
  }

  function FieldOr0(fields: seq<nat>, i: nat): nat
  {
    if i < |fields| then fields[i] else 0
  }

  /** The lengths that fit the three bytes of a header. */
  const LENGTHS: nat := 0x100_0000

  /** What the reader is to see of a frame; of its length, what three bytes hold. */
  ghost predicate Seen(f: Plain, info: FrameInfo, body: bytes)
  {
    && info == FrameInfo(|f.payload| % LENGTHS, Padding(|f.payload|), FieldOr0(f.fields, 0), |f.fields| > 1,
                         FieldOr0(f.fields, 1), FieldOr0(f.fields, 2))
    && |body| == |f.payload| + info.padding + BLOCK
    && body[..|f.payload|] == f.payload
  }

  lemma {:induction false} PlainLockstep(cr: Crypto, s: Side, f: Plain)
    requires FieldsOk(f.fields)
    ensures var (s', io) := PlainSent(cr, s, f);
            && |io| == 3 * BLOCK + |f.payload| + Padding(|f.payload|)
            && PlainRead(cr, s, io).0 == s' && PlainRead(cr, s, io).1.Some?
            && var (info, body) := PlainRead(cr, s, io).1.value; Seen(f, info, body)
  {
    hide FrameSent, HeaderOpened, BodyOpened, ReadInfo, FrameHeader, Encode, Padding;
    var header := FrameHeader(|f.payload|, f.fields);
    FrameLockstep(cr, s, header, f.payload);
    var (s', io) := PlainSent(cr, s, f);
    HeaderUnpadded(|f.payload|, f.fields, io[BLOCK..2 * BLOCK]);
    assert Padded(f.payload)[..|f.payload|] == f.payload;
  }

  lemma HeaderUnpadded(len: nat, fields: seq<nat>, tail: bytes)
    requires FieldsOk(fields)
    ensures ReadInfo(HeaderBlock(FrameHeader(len, fields)) + tail) ==
            Some(FrameInfo(len % LENGTHS, Padding(len), fields[0], |fields| > 1,
                           FieldOr0(fields, 1), FieldOr0(fields, 2)))
  {
    hide ReadInfo, Encode, Padding, FieldsOk;
    PaddingOfLow(len);
    FieldsSize(fields);
    var header := FrameHeader(len, fields);
    var more := Zeros(BLOCK - |header|) + tail;
    assert HeaderBlock(header) + tail == header + more;
    InfoReadBack(len, fields, more);
  }

  lemma PaddingOfLow(len: nat)
    ensures Padding(len % LENGTHS) == Padding(len)
  {
    hide Padding;
    PaddingShift(len / LENGTHS, len % LENGTHS);
  }

  lemma PaddingShift(q: nat, r: nat)
    ensures Padding(LENGTHS * q + r) == Padding(r)
  {
    assert LENGTHS * q + r == 16 * (0x10_0000 * q) + r;
    WholeBlocks(0x10_0000 * q, r);
  }

  lemma WholeBlocks(a: nat, r: nat)
    ensures (16 * a + r) % 16 == r % 16
  {
  }

  /** The header announces the size of its frame exactly when the payload is shorter than 16 MB. */
  lemma AnnouncedExactly(cr: Crypto, s: Side, f: Plain)
    requires FieldsOk(f.fields)
    ensures var (s', io) := PlainSent(cr, s, f);
            && |io| >= 3 * BLOCK && PlainRead(cr, s, io).1.Some?
            && var info := PlainRead(cr, s, io).1.value.0;
               3 * BLOCK + info.length + info.padding == |io| <==> |f.payload| < LENGTHS
  {
    hide PlainSent, PlainRead, Padding;
    PlainLockstep(cr, s, f);
  }

  function AllRead(cr: Crypto, s: Side, ios: seq<bytes>): (Side, Option<seq<(FrameInfo, bytes)>>)
    requires forall io :: io in ios ==> |io| >= 3 * BLOCK
    decreases |ios|
  {
    if ios == [] then (s, Some([]))
    else match PlainRead(cr, s, ios[0])
      case (s1, None) => (s1, None)
      case (s1, Some(first)) =>
        var (s2, rest) := AllRead(cr, s1, ios[1..]);
        (s2, if rest.None? then None else Some([first] + rest.value))
  }

  /** Any run of frames, written at one end and read in order at the other, whose state is the
      same: every check passes, every frame is seen, and the states are the same again. */
  lemma {:induction false} RunLockstep(cr: Crypto, s: Side, frames: seq<Plain>)
    requires forall f :: f in frames ==> FieldsOk(f.fields)
    ensures var (s', ios) := AllSent(cr, s, frames);
            && (forall io :: io in ios ==> |io| >= 3 * BLOCK)
            && var (t, seen) := AllRead(cr, s, ios);
            && t == s' && seen.Some? && |seen.value| == |frames|
            && forall i :: 0 <= i < |frames| ==> Seen(frames[i], seen.value[i].0, seen.value[i].1)
    decreases |frames|
  {
    hide PlainSent, PlainRead, Seen, FieldsOk;
    if frames != [] {
      PlainLockstep(cr, s, frames[0]);
      var (s1, io) := PlainSent(cr, s, frames[0]);
      RunLockstep(cr, s1, frames[1..]);
      var (s2, rest) := AllSent(cr, s1, frames[1..]);
      assert ([io] + rest)[1..] == rest;
    }
  }

  // ---------------------------------------------------------------- the coder

  lemma CipheredSplit(cr: Crypto, s: Side, a: bytes, b: bytes)
    ensures Ciphered(cr, s, a + b) == Ciphered(cr, s, a) + Ciphered(cr, Advanced(s, |a|), b)
  {
    hide Xor;
    assert KeyStream(cr, s, |a| + |b|) == KeyStream(cr, s, |a|) + KeyStream(cr, Advanced(s, |a|), |b|);
  }

  lemma ZerosSplit(a: nat, b: nat, c: nat)
    ensures Zeros(a + b + c) == Zeros(a) + (Zeros(b) + Zeros(c))
  {
  }

  /** The two blocks in front, after the header is copied: its first block, and something. */
  lemma HeaderLaid(header: bytes, cut: bytes, n: nat) returns (second: bytes)
    requires 2 * BLOCK <= n && cut == if |header| <= 2 * BLOCK then header else header[..2 * BLOCK]
    ensures |second| == BLOCK && Zeros(n) == [] + Zeros(|cut|) + Zeros(n - |cut|)
    ensures [] + cut + Zeros(n - |cut|) == [] + HeaderBlock(header) + (second + Zeros(n - 2 * BLOCK))
  {
    assert [] + cut == cut;
    var whole := cut + Zeros(n - |cut|);
    second := whole[BLOCK..2 * BLOCK];
    assert whole[..BLOCK] == HeaderBlock(header);
    assert whole[2 * BLOCK..] == Zeros(n - 2 * BLOCK);
    ThreeParts(whole);
  }

  lemma ThreeParts(b: bytes)
    requires |b| >= 2 * BLOCK
    ensures [] + b == b == [] + b[..BLOCK] + (b[BLOCK..2 * BLOCK] + b[2 * BLOCK..])
  {
  }

  lemma WithNothing(x: bytes, y: bytes)
    ensures x + y + [] == x + y
  {
  }

  lemma NothingBefore(x: bytes, y: bytes)
    ensures [] + x + y == x + y
  {
  }

  lemma Sliced(x: bytes, y: bytes, z: bytes)
    ensures (x + y + z)[..|x|] == x && (x + y + z)[|x|..|x| + |y|] == y && (x + y + z)[|x| + |y|..] == z
  {
  }

  lemma HeaderOpenedMeans(cr: Crypto, s: Side, io: bytes, mac: bytes)
    requires |io| == 2 * BLOCK && MacUpdated(cr, s, Some(io[..BLOCK])) == s.(mac := mac)
    ensures HeaderOpened(cr, s, io) ==
            if io[BLOCK..] != cr.sha3(mac)[..BLOCK] then (s.(mac := mac), None)
            else (s.(mac := mac, used := s.used + BLOCK), Some(Ciphered(cr, s.(mac := mac), io[..BLOCK]) + io[BLOCK..]))
  {
    hide Ciphered, MacUpdated;
  }

  lemma BodyOpenedMeans(cr: Crypto, s: Side, io: bytes, mac: bytes)
    requires |io| >= BLOCK && MacUpdated(cr, s.(mac := s.mac + io[..|io| - BLOCK]), None) == s.(mac := mac)
    ensures var n := |io| - BLOCK;
            BodyOpened(cr, s, io) ==
            if io[n..] != cr.sha3(mac)[..BLOCK] then (s.(mac := mac), None)
            else (s.(mac := mac, used := s.used + n), Some(Ciphered(cr, s.(mac := mac), io[..n]) + io[n..]))
  {
    hide Ciphered, MacUpdated;
  }

  class RLPXFrameCoder {
    const cr: Crypto
    var encKey: bytes
    var decKey: bytes
    var encUsed: nat
    var decUsed: nat
    var macKey: bytes
    var egressMac: bytes
    var ingressMac: bytes

    ghost function Egress(): Side
      reads this
    {
      Side(encKey, encUsed, macKey, egressMac)
    }

    ghost function Ingress(): Side
      reads this
    {
      Side(decKey, decUsed, macKey, ingressMac)
    }

    /** setup: the key material is one buffer of two halves; the second is hashed over and over. */
    constructor (cr: Crypto, originated: bool, remoteEphemeral: bytes, remoteNonce: Digest, secret: bytes,
        nonce: Digest, ackCipher: bytes, authCipher: bytes)
      ensures this.cr == cr
      ensures (Egress(), Ingress()) ==
              SetUp(cr, originated, remoteEphemeral, remoteNonce, secret, nonce, ackCipher, authCipher)
    {
      var shared := cr.agree(secret, remoteEphemeral);
      var nonces := (if originated then remoteNonce else nonce) + (if originated then nonce else remoteNonce);
      var keyMaterial := shared + cr.sha3(nonces);
      keyMaterial := keyMaterial[..32] + cr.sha3(keyMaterial);
      assert keyMaterial == shared + cr.sha3(shared + cr.sha3(nonces));
      keyMaterial := keyMaterial[..32] + cr.sha3(keyMaterial);
      encKey, decKey := keyMaterial[32..], keyMaterial[32..];
      encUsed, decUsed := 0, 0;
      ghost var aes := keyMaterial[32..];
      assert keyMaterial == shared + aes;
      keyMaterial := keyMaterial[..32] + cr.sha3(keyMaterial);
      macKey := keyMaterial[32..];
      ghost var mac := keyMaterial[32..];
      assert mac == cr.sha3(shared + aes);
      keyMaterial := XorAll(keyMaterial[32..], remoteNonce) + if originated then authCipher else ackCipher;
      egressMac := keyMaterial;
      assert keyMaterial[..32] == XorAll(mac, remoteNonce);
      XorAllTwice(mac, remoteNonce);
      keyMaterial := XorAll(XorAll(keyMaterial[..32], remoteNonce), nonce) +
                     if originated then ackCipher else authCipher;
      ingressMac := keyMaterial;
      this.cr := cr;
    }

    /** The cipher, in place on a part of a buffer that holds `x + y + z`. */
    method Process(s: Side, io: array<byte>, at: nat, n: nat, ghost x: bytes, ghost y: bytes, ghost z: bytes)
      requires io[..] == x + y + z && |x| == at && |y| == n
      modifies io
      ensures io[..] == x + Ciphered(cr, s, y) + z
    {
      hide Xor;
      for i := 0 to n
        invariant io[..] == x + (Ciphered(cr, s, y)[..i] + y[i..]) + z
      {
        assert io[at + i] == io[..][at + i] == y[i];
        io[at + i] := Xor(io[at + i], cr.stream(s.key, s.used + i));
      }
    }

    method Copy(b: bytes, io: array<byte>, at: nat, ghost x: bytes, ghost y: bytes, ghost z: bytes)
      requires io[..] == x + y + z && |x| == at && |y| == |b|
      modifies io
      ensures io[..] == x + b + z
    {
      forall i | 0 <= i < |b| {
        io[at + i] := b[i];
      }
    }

    lemma Part(io: array<byte>, x: bytes, y: bytes, z: bytes)
      requires io[..] == x + y + z
      ensures |x| + |y| + |z| == io.Length
      ensures io[..|x|] == x && io[|x|..|x| + |y|] == y && io[|x| + |y|..] == z
    {
      Sliced(x, y, z);
      assert io[..|x|] == io[..][..|x|] && io[|x|..|x| + |y|] == io[..][|x|..|x| + |y|];
      assert io[|x| + |y|..] == io[..][|x| + |y|..];
    }

    /** The state of a MAC after its update; a seed is missing or one block. */
    method UpdateMac(mac: bytes, seed: bytes) returns (r: bytes)
      requires seed == [] || |seed| == BLOCK
      ensures forall s: Side :: s.macKey == macKey && s.mac == mac ==>
                MacUpdated(cr, s, if seed == [] then None else Some(seed)) == s.(mac := r)
      ensures Absorbs(cr, macKey, mac, if seed == [] then cr.sha3(mac)[..BLOCK] else seed, r)
    {
      hide Xor, Absorbs;
      MacAbsorbs(cr, Side(encKey, 0, macKey, mac), if seed == [] then None else Some(seed));
      var prev: Block := cr.sha3(mac)[..BLOCK];
      var enc: bytes := cr.aes(macKey, prev);
      if seed != [] {
        enc := XorAll(enc, seed);
      } else {
        enc := XorAll(enc, prev);
      }
      r := mac + enc;
    }

    method WriteFrame(header: bytes, payload: bytes) returns (o: bytes)
      modifies this`encUsed, this`egressMac
      ensures (Egress(), o) == FrameSent(cr, old(Egress()), header, payload)
    {
      hide Ciphered, MacUpdated, Tag;
      var padding := Padding(|payload|);
      var io := new byte[2 * BLOCK + |payload| + padding + BLOCK](_ => 0);
      ghost var s0 := Egress();
      SendHeader(header, io);
      ghost var s1 := Egress();
      SendBody(payload, io);
      o := io[..];
      assert o == io[..2 * BLOCK] + io[2 * BLOCK..];
    }

    method SendHeader(header: bytes, io: array<byte>)
      requires io.Length >= 2 * BLOCK && io[..] == Zeros(io.Length)
      modifies this`encUsed, this`egressMac, io
      ensures (Egress(), io[..2 * BLOCK]) == HeaderSent(cr, old(Egress()), header)
      ensures io[2 * BLOCK..] == Zeros(io.Length - 2 * BLOCK)
    {
      hide Ciphered, MacUpdated, Zeros, HeaderBlock, Absorbs;
      var cut := if |header| <= 2 * BLOCK then header else header[..2 * BLOCK];
      ghost var block, rest := HeaderBlock(header), Zeros(io.Length - 2 * BLOCK);
      ghost var second := HeaderLaid(header, cut, io.Length);
      Copy(cut, io, 0, [], Zeros(|cut|), Zeros(io.Length - |cut|));
      Process(Side(encKey, encUsed, macKey, egressMac), io, 0, BLOCK, [], block, second + rest);
      encUsed := encUsed + BLOCK;
      ghost var cipher := Ciphered(cr, old(Egress()), block);
      Part(io, [], cipher, second + rest);
      egressMac := UpdateMac(egressMac, io[..BLOCK]);
      var tag := cr.sha3(egressMac)[..BLOCK];
      assert [] + cipher + (second + rest) == cipher + second + rest;
      Copy(tag, io, BLOCK, cipher, second, rest);
      assert cipher + tag + rest == [] + (cipher + tag) + rest;
      Part(io, [], cipher + tag, rest);
    }

    method SendBody(payload: bytes, io: array<byte>)
      requires io.Length == 2 * BLOCK + |payload| + Padding(|payload|) + BLOCK
      requires io[2 * BLOCK..] == Zeros(io.Length - 2 * BLOCK)
      modifies this`encUsed, this`egressMac, io
      ensures (Egress(), io[2 * BLOCK..]) == BodySent(cr, old(Egress()), payload)
      ensures io[..2 * BLOCK] == old(io[..2 * BLOCK])
    {
      hide Ciphered, MacUpdated, Padding, Zeros, Absorbs;
      ghost var front, last := io[..2 * BLOCK], Zeros(BLOCK);
      assert io[..] == io[..2 * BLOCK] + io[2 * BLOCK..];
      EncipherBody(payload, io, front);
      ghost var cipher := Ciphered(cr, old(Egress()), Padded(payload));
      var end := io.Length - BLOCK;
      Part(io, front, cipher, last);
      egressMac := egressMac + io[2 * BLOCK..end];
      egressMac := UpdateMac(egressMac, []);
      var tag := cr.sha3(egressMac)[..BLOCK];
      WithNothing(front + cipher, last);
      Copy(tag, io, end, front + cipher, last, []);
      WithNothing(front + cipher, tag);
      Concat3(front, cipher, tag);
      WithNothing(front, cipher + tag);
      Part(io, front, cipher + tag, []);
    }

    /** The payload and its padding, enciphered one after the other. */
    method EncipherBody(payload: bytes, io: array<byte>, ghost front: bytes)
      requires |front| == 2 * BLOCK
      requires io[..] == front + Zeros(|payload| + Padding(|payload|) + BLOCK)
      modifies this`encUsed, io
      ensures io[..] == front + Ciphered(cr, old(Egress()), Padded(payload)) + Zeros(BLOCK)
      ensures encUsed == old(encUsed) + |Padded(payload)|
    {
      hide Ciphered, Padding, Zeros;
      var padding, at := Padding(|payload|), 2 * BLOCK + |payload|;
      ghost var s, blank, zeros, last := Egress(), Zeros(|payload|), Zeros(padding), Zeros(BLOCK);
      ZerosSplit(|payload|, padding, BLOCK);
      Concat3(front, blank, zeros + last);
      Copy(payload, io, 2 * BLOCK, front, blank, zeros + last);
      Process(Side(encKey, encUsed, macKey, egressMac), io, 2 * BLOCK, |payload|, front, payload, zeros + last);
      encUsed := encUsed + |payload|;
      ghost var c1, c2 := Ciphered(cr, s, payload), Ciphered(cr, Advanced(s, |payload|), zeros);
      Concat3(front + c1, zeros, last);
      Process(Side(encKey, encUsed, macKey, egressMac), io, at, padding, front + c1, zeros, last);
      encUsed := encUsed + padding;
      CipheredSplit(cr, s, payload, zeros);
      Concat3(front, c1, c2);
    }

    lemma TwoParts(io: array<byte>, n: nat)
      requires n <= io.Length
      ensures io[..n] == io[..][..n] && io[n..] == io[..][n..] && io[..] == [] + io[..n] + io[n..]
    {
    }

    /** Checks the tag and deciphers the header block, in place. */
    method AuthAndDecryptHeader(io: array<byte>) returns (ok: bool)
      requires io.Length == 2 * BLOCK
      modifies this`decUsed, this`ingressMac, io
      ensures var (s, r) := HeaderOpened(cr, old(Ingress()), old(io[..]));
              Ingress() == s && ok == r.Some? && io[..] == if ok then r.value else old(io[..])
      ensures Absorbs(cr, macKey, old(ingressMac), old(io[..BLOCK]), ingressMac)
      ensures ok <==> old(io[BLOCK..]) == cr.sha3(ingressMac)[..BLOCK]
    {
      hide Ciphered, MacUpdated, Absorbs, HeaderOpened;
      ghost var s, whole := Ingress(), io[..];
      TwoParts(io, BLOCK);
      ingressMac := UpdateMac(ingressMac, io[..BLOCK]);
      HeaderOpenedMeans(cr, s, whole, ingressMac);
      if io[BLOCK..] != cr.sha3(ingressMac)[..BLOCK] {
        return false;
      }
      Process(Side(decKey, decUsed, macKey, ingressMac), io, 0, BLOCK, [], whole[..BLOCK], whole[BLOCK..]);
      NothingBefore(Ciphered(cr, Side(decKey, decUsed, macKey, ingressMac), whole[..BLOCK]), whole[BLOCK..]);
      decUsed := decUsed + BLOCK;
      return true;
    }

    method AuthAndDecryptFrame(io: array<byte>) returns (ok: bool)
      requires io.Length >= BLOCK
      modifies this`decUsed, this`ingressMac, io
      ensures var (s, r) := BodyOpened(cr, old(Ingress()), old(io[..]));
              Ingress() == s && ok == r.Some? && io[..] == if ok then r.value else old(io[..])
      ensures var n := io.Length - BLOCK; var before := old(ingressMac) + old(io[..n]);
              && Absorbs(cr, macKey, before, cr.sha3(before)[..BLOCK], ingressMac)
              && (ok <==> old(io[n..]) == cr.sha3(ingressMac)[..BLOCK])
    {
      hide Ciphered, MacUpdated, Absorbs, BodyOpened;
      var n := io.Length - BLOCK;
      ghost var s, whole := Ingress(), io[..];
      TwoParts(io, n);
      ingressMac := ingressMac + io[..n];
      ingressMac := UpdateMac(ingressMac, []);
      BodyOpenedMeans(cr, s, whole, ingressMac);
      if io[n..] != cr.sha3(ingressMac)[..BLOCK] {
        return false;
      }
      Process(Side(decKey, decUsed, macKey, ingressMac), io, 0, n, [], whole[..n], whole[n..]);
      NothingBefore(Ciphered(cr, Side(decKey, decUsed, macKey, ingressMac), whole[..n]), whole[n..]);
      decUsed := decUsed + n;
      return true;
    }

    /** The three forms of writeFrame: one to three fields in the header. */
    method WriteFields(fields: seq<nat>, payload: bytes) returns (o: bytes)
      requires FieldsOk(fields)
      modifies this`encUsed, this`egressMac
      ensures (Egress(), o) == PlainSent(cr, old(Egress()), Plain(fields, payload))
    {
      var header := MakeHeader(|payload|, fields);
      o := WriteFrame(header, payload);
    }

    static method MakeHeader(len: nat, fields: seq<nat>) returns (header: bytes)
      requires FieldsOk(fields)
      ensures header == FrameHeader(len, fields)
    {
      hide Encode, EncodeAll, Noted, FieldsOk;
      var stream := new RLPStream();
      ghost var items := Numbers(fields);
      FieldsSize(fields);
      AnyFieldFits(fields);
      ghost var s := Output(Length24(len), []);
      NotedAtTop(s);
      assert [] + Length24(len) == Length24(len);
      var ok := stream.AppendRaw(Length24(len), 1);
      ok := stream.AppendList(|fields|);
      NoItems(s, items);
      var i := 0;
      while i < |fields|
        invariant i <= |fields| && stream.Valid()
        invariant i < |fields| ==> stream.View() == Midway(s, items, i)
        invariant i == |fields| ==> Added(s, Encode(List(items))) == Some(stream.View())
      {
        OneMore(s, items, i);
        AddedAtTop(s, Encode(List(items)));
        ok := stream.AppendInt(fields[i]);
        i := i + 1;
      }
      AddedAtTop(s, Encode(List(items)));
      var r := stream.Finished();
      header := r.value;
    }
  }

  lemma NotedAtTop(s: Output)
    requires s.open == []
    ensures StartsInside(s) && Noted(s, 1) == Some(s)
  {
  }

  lemma AnyFieldFits(fields: seq<nat>)
    requires FieldsOk(fields)
    ensures forall i :: 0 <= i < |fields| ==> HeaderFits(DATA_IND_ZERO, |BigEndian(fields[i])|)
    ensures forall i :: 0 <= i < |fields| ==> EncodeData(BigEndian(fields[i])) == Encode(Numbers(fields)[i])
    ensures fields != [] && |Encode(List(Numbers(fields)))| < TWO64
  {
    FieldsSize(fields);
    Powers();
    BigEndianWidth(fields[0], 2);
    if |fields| > 1 {
      BigEndianWidth(fields[1], 2);
    }
    if |fields| > 2 {
      BigEndianWidth(fields[2], 4);
    }
  }
}
