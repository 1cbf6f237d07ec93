/** The RLPx frame writer: two queues of packets, cut into frames of limited size. */
module FrameWriter {
  import opened Bytes
  import opened Rlp
  import opened RlpStream
  import opened RlpView
  import opened RlpxPacket
  import opened FrameCoder

  const OVERHEAD: nat := 3 * BLOCK
  const SEQUENCES: nat := 0x1_0000

  // ---------------------------------------------------------------- what a frame takes from a queue

  /** A queue, and how far its first packet is written: `remaining` bytes of its data are missing. */
  datatype Queue = Queue(q: seq<Packet>, writing: bool, remaining: nat, multiFrame: bool, sequence: nat)

  /** What the public interface lets into a queue: valid packets with the encoding of a small number
      as their type. */
  predicate Sendable(p: Packet)
  {
    IsValid(p) && 1 <= |p.kind| <= 2
  }

  ghost predicate QueueOk(v: Queue)
  {
    && (forall p :: p in v.q ==> Sendable(p))
    && if v.writing then v.q != [] && v.multiFrame && 0 < v.remaining < |v.q[0].data|
       else v.remaining == 0 && !v.multiFrame
  }

  /** What one frame takes: several whole packets, the type and the first `len` bytes of data of
      a packet, or `len` more bytes of it. */
  datatype Cut = Several(count: nat) | Start(len: nat) | More(len: nat)

  predicate CanCut(v: Queue, c: Cut)
  {
    match c
    case Several(count) => !v.writing && 1 <= count <= |v.q|
    case Start(len) => !v.writing && v.q != [] && 0 < len < |v.q[0].data|
    case More(len) => v.writing && v.q != [] && 0 < len <= v.remaining <= |v.q[0].data|
  }

  function CutPayload(v: Queue, c: Cut): bytes
    requires CanCut(v, c)
  {
    match c
    case Several(count) => WireAll(v.q[..count])
    case Start(len) => v.q[0].kind + v.q[0].data[..len]
    case More(len) => var at := |v.q[0].data| - v.remaining; v.q[0].data[at..at + len]
  }

  function AfterCut(v: Queue, c: Cut, sequence: nat): Queue
    requires CanCut(v, c)
  {
    match c
    case Several(count) => v.(q := v.q[count..])
    case Start(len) => Queue(v.q, true, |v.q[0].data| - len, true, sequence)
    case More(len) =>
      if len == v.remaining then Queue(v.q[1..], false, 0, false, v.sequence) else v.(remaining := v.remaining - len)
  }

  /** The packets that a frame completes. */
  function Completed(v: Queue, c: Cut): seq<Packet>
    requires CanCut(v, c)
  {
    match c
    case Several(count) => v.q[..count]
    case Start(_) => []
    case More(len) => if len == v.remaining then [v.q[0]] else []
  }

  /** The bytes of a queue that are still to be sent. */
  function Unsent(v: Queue): bytes
  {
    if v.writing && v.q != [] && v.remaining <= |v.q[0].data| then
      v.q[0].data[|v.q[0].data| - v.remaining..] + WireAll(v.q[1..])
    else WireAll(v.q)
  }

  /** Every frame sends the next bytes of its queue, at least one, and nothing else. */
  lemma CutConserves(v: Queue, c: Cut, sequence: nat)
    requires QueueOk(v) && CanCut(v, c)
    ensures QueueOk(AfterCut(v, c, sequence)) && CutPayload(v, c) != []
    ensures Unsent(v) == CutPayload(v, c) + Unsent(AfterCut(v, c, sequence))
    ensures v.q == Completed(v, c) + AfterCut(v, c, sequence).q
  {
    hide IsValid;
    match c
    case Several(count) =>
      WireAllSplit(v.q, count);
      assert v.q[0] in v.q && v.q[..count][0] == v.q[0];
      assert v.q == v.q[..count] + v.q[count..];
    case Start(len) => StartConserves(v, len, sequence);
    case More(len) => MoreConserves(v, len, sequence);
  }

  lemma StartConserves(v: Queue, len: nat, sequence: nat)
    requires QueueOk(v) && CanCut(v, Start(len))
    ensures QueueOk(AfterCut(v, Start(len), sequence)) && CutPayload(v, Start(len)) != []
    ensures Unsent(v) == CutPayload(v, Start(len)) + Unsent(AfterCut(v, Start(len), sequence))
  {
    hide IsValid;
    var kind, d, rest := v.q[0].kind, v.q[0].data, WireAll(v.q[1..]);
    assert v.q[0] in v.q;
    assert d == d[..len] + d[len..];
    Concat3(kind, d[..len], d[len..]);
    Concat3(kind + d[..len], d[len..], rest);
  }

  lemma MoreConserves(v: Queue, len: nat, sequence: nat)
    requires QueueOk(v) && CanCut(v, More(len))
    ensures QueueOk(AfterCut(v, More(len), sequence)) && CutPayload(v, More(len)) != []
    ensures Unsent(v) == CutPayload(v, More(len)) + Unsent(AfterCut(v, More(len), sequence))
    ensures v.q == Completed(v, More(len)) + AfterCut(v, More(len), sequence).q
  {
    hide QueueOk, Unsent, CutPayload, AfterCut, CanCut, Completed;
    if len == v.remaining {
      LastConserves(v, len, sequence);
    } else {
      PartConserves(v, len, sequence);
    }
  }

  lemma LastConserves(v: Queue, len: nat, sequence: nat)
    requires QueueOk(v) && CanCut(v, More(len)) && len == v.remaining
    ensures QueueOk(AfterCut(v, More(len), sequence)) && CutPayload(v, More(len)) != []
    ensures Unsent(v) == CutPayload(v, More(len)) + Unsent(AfterCut(v, More(len), sequence))
    ensures v.q == Completed(v, More(len)) + AfterCut(v, More(len), sequence).q
  {
    hide Sendable, Wire, WireAll;
    var d := v.q[0].data;
    var at := |d| - v.remaining;
    TailSplit(d, at, len);
    WithNothingBehind(d[at..at + len], d[at + len..]);
    FirstAndRest(v.q);
  }

  lemma PartConserves(v: Queue, len: nat, sequence: nat)
    requires QueueOk(v) && CanCut(v, More(len)) && len != v.remaining
    ensures QueueOk(AfterCut(v, More(len), sequence)) && CutPayload(v, More(len)) != []
    ensures Unsent(v) == CutPayload(v, More(len)) + Unsent(AfterCut(v, More(len), sequence))
    ensures v.q == Completed(v, More(len)) + AfterCut(v, More(len), sequence).q
  {
    hide Sendable, Wire, WireAll, Unsent;
    var d, rest := v.q[0].data, WireAll(v.q[1..]);
    var at := |d| - v.remaining;
    var w := AfterCut(v, More(len), sequence);
    UnsentPart(v, at);
    UnsentPart(w, at + len);
    TailSplit(d, at, len);
    Concat3(d[at..at + len], d[at + len..], rest);
    NothingDone(v.q);
  }

  lemma NothingDone(q: seq<Packet>)
    ensures [] + q == q
  {
  }

  lemma UnsentPart(v: Queue, at: nat)
    requires v.writing && v.q != [] && at + v.remaining == |v.q[0].data|
    ensures Unsent(v) == v.q[0].data[at..] + WireAll(v.q[1..])
  {
  }

  lemma TailSplit(d: bytes, at: nat, len: nat)
    requires at + len <= |d|
    ensures d[at..] == d[at..at + len] + d[at + len..]
  {
  }

  lemma WithNothingBehind(a: bytes, b: bytes)
    requires b == []
    ensures a + b == a
  {
  }

  lemma FirstAndRest(q: seq<Packet>)
    requires q != []
    ensures q == [q[0]] + q[1..]
  {
  }

  lemma {:induction false} WireAllSplit(q: seq<Packet>, k: nat)
    requires k <= |q|
    ensures WireAll(q) == WireAll(q[..k]) + WireAll(q[k..])
  {
    if k == 0 {
      assert q[..0] == [] && q[0..] == q && [] + WireAll(q) == WireAll(q);
    } else {
      WireAllSplit(q[1..], k - 1);
      assert q[1..][..k - 1] == q[..k][1..] && q[1..][k - 1..] == q[k..];
      Concat3(Wire(q[0]), WireAll(q[..k][1..]), WireAll(q[k..]));
    }
  }

  /** The cut takes all that the allotment allows: whole packets as long as a block is left and until
      the next one does not fit; a packet is only segmented when it is longer than an empty frame. */
  ghost predicate Greedy(v: Queue, c: Cut, allot: nat)
    requires CanCut(v, c)
  {
    match c
    case Several(count) =>
      var left := allot - |CutPayload(v, c)|;
      && 0 <= left && (left < BLOCK || count == |v.q| || |Wire(v.q[count])| > left)
      && |WireAll(v.q[..count - 1])| + BLOCK <= allot
    case Start(len) => |Wire(v.q[0])| > allot == |v.q[0].kind| + len
    case More(len) => len == if v.remaining <= allot then v.remaining else allot
  }

  /** What the next frame takes is determined. */
  lemma GreedyUnique(v: Queue, c: Cut, d: Cut, allot: nat)
    requires CanCut(v, c) && CanCut(v, d) && Greedy(v, c, allot) && Greedy(v, d, allot)
    ensures c == d
  {
    hide Wire, WireAll;
    if c.Several? && d.Several? {
      SeveralUnique(v, c.count, d.count, allot);
      SeveralUnique(v, d.count, c.count, allot);
    } else if c.Several? {
      FirstTaken(v.q, c.count);
    } else if d.Several? {
      FirstTaken(v.q, d.count);
    }
  }

  lemma FirstTaken(q: seq<Packet>, count: nat)
    requires 1 <= count <= |q|
    ensures |WireAll(q[..count])| >= |Wire(q[0])|
  {
    assert q[..count][0] == q[0];
  }

  lemma SeveralUnique(v: Queue, count: nat, more: nat, allot: nat)
    requires CanCut(v, Several(count)) && CanCut(v, Several(more))
    requires Greedy(v, Several(count), allot) && Greedy(v, Several(more), allot)
    ensures more <= count
  {
    hide Wire, WireAll;
    if count < more {
      OneMorePacket(v.q, count);
      WireAllUpTo(v.q, count, more - 1);
      WireAllUpTo(v.q, count + 1, more);
    }
  }

  lemma OneMorePacket(q: seq<Packet>, count: nat)
    requires count < |q|
    ensures |WireAll(q[..count + 1])| == |WireAll(q[..count])| + |Wire(q[count])|
  {
    WireAllMore(q[..count], q[count]);
    assert q[..count + 1] == q[..count] + [q[count]];
  }

  lemma WireAllUpTo(q: seq<Packet>, i: nat, j: nat)
    requires i <= j <= |q|
    ensures |WireAll(q[..i])| <= |WireAll(q[..j])|
  {
    WireAllSplit(q[..j], i);
    assert q[..j][..i] == q[..i];
  }

  // ---------------------------------------------------------------- what a run of frames takes

  datatype Writer = Writer(high: Queue, low: Queue, sequenceId: nat)

  /** A frame of the class of high or of low priority. */
  datatype Tagged = Tagged(high: bool, cut: Cut)

  function Of(w: Writer, high: bool): Queue
  {
    if high then w.high else w.low
  }

  /** Only the first frame of a packet takes a new sequence number. */
  function NextSequence(w: Writer, c: Cut): nat
  {
    if c.Start? then (w.sequenceId + 1) % SEQUENCES else w.sequenceId
  }

  function Emitted(w: Writer, t: Tagged): Writer
    requires CanCut(Of(w, t.high), t.cut)
  {
    var id := NextSequence(w, t.cut);
    if t.high then Writer(AfterCut(w.high, t.cut, id), w.low, id) else Writer(w.high, AfterCut(w.low, t.cut, id), id)
  }

  /** The header fields of a frame; the size goes into four bytes. */
  function CutFields(protocol: nat, w: Writer, t: Tagged): seq<nat>
    requires CanCut(Of(w, t.high), t.cut)
  {
    var v := Of(w, t.high);
    match t.cut
    case Several(_) => [protocol]
    case Start(_) => [protocol, NextSequence(w, t.cut), Size(v.q[0]) % 0x1_0000_0000]
    case More(_) => [protocol, v.sequence]
  }

  function CutPlain(protocol: nat, w: Writer, t: Tagged): Plain
    requires CanCut(Of(w, t.high), t.cut)
  {
    Plain(CutFields(protocol, w, t), CutPayload(Of(w, t.high), t.cut))
  }

  predicate CanRun(w: Writer, cuts: seq<Tagged>)
    decreases |cuts|
  {
    cuts == [] || (CanCut(Of(w, cuts[0].high), cuts[0].cut) && CanRun(Emitted(w, cuts[0]), cuts[1..]))
  }

  function AfterRun(w: Writer, cuts: seq<Tagged>): Writer
    requires CanRun(w, cuts)
    decreases |cuts|
  {
    if cuts == [] then w else AfterRun(Emitted(w, cuts[0]), cuts[1..])
  }

  function Plains(protocol: nat, w: Writer, cuts: seq<Tagged>): (frames: seq<Plain>)
    requires CanRun(w, cuts)
    ensures |frames| == |cuts|
    decreases |cuts|
  {
    if cuts == [] then [] else [CutPlain(protocol, w, cuts[0])] + Plains(protocol, Emitted(w, cuts[0]), cuts[1..])
  }

  /** The packets of one class that a run completes. */
  function CompletedRun(w: Writer, cuts: seq<Tagged>, high: bool): seq<Packet>
    requires CanRun(w, cuts)
    decreases |cuts|
  {
    if cuts == [] then []
    else (if cuts[0].high == high then Completed(Of(w, high), cuts[0].cut) else []) +
         CompletedRun(Emitted(w, cuts[0]), cuts[1..], high)
  }

  /** The payloads of the frames of one class, joined. */
  function Joined(w: Writer, cuts: seq<Tagged>, high: bool): bytes
    requires CanRun(w, cuts)
    decreases |cuts|
  {
    if cuts == [] then []
    else (if cuts[0].high == high then CutPayload(Of(w, high), cuts[0].cut) else []) +
         Joined(Emitted(w, cuts[0]), cuts[1..], high)
  }

  ghost predicate WriterOk(w: Writer)
  {
    && QueueOk(w.high) && QueueOk(w.low)
    && w.sequenceId < SEQUENCES && w.high.sequence < SEQUENCES && w.low.sequence < SEQUENCES
  }

  /** The class whose turn it is: high priority for the first frame, low priority after it. */
  function PickHigh(w: Writer, swapQueues: bool): bool
  {
    if w.high.q != [] && !swapQueues then true else w.low.q == []
  }

  function BothPending(w: Writer): bool
  {
    w.high.q != [] && w.low.q != []
  }

  function FrameSize(payload: bytes): nat
  {
    OVERHEAD + |payload| + Padding(|payload|)
  }

  /** The space that a run of frames leaves, when each frame is of the class whose turn it is and takes
      all that its allotment allows; None for any other run. */
  ghost function SpaceLeft(w: Writer, cuts: seq<Tagged>, frameLen: nat, swapQueues: bool): Option<nat>
    requires CanRun(w, cuts)
    decreases |cuts|
  {
    if cuts == [] then Some(frameLen)
    else
      var v := Of(w, cuts[0].high);
      var size := FrameSize(CutPayload(v, cuts[0].cut));
      if OVERHEAD + BLOCK <= frameLen && size <= frameLen && cuts[0].high == PickHigh(w, swapQueues) &&
         Greedy(v, cuts[0].cut, Allotment(frameLen, BothPending(w), swapQueues))
      then SpaceLeft(Emitted(w, cuts[0]), cuts[1..], frameLen - size, true)
      else None
  }

  lemma {:induction false} RunSnoc(w: Writer, cuts: seq<Tagged>, t: Tagged)
    requires CanRun(w, cuts) && CanCut(Of(AfterRun(w, cuts), t.high), t.cut)
    ensures CanRun(w, cuts + [t]) && AfterRun(w, cuts + [t]) == Emitted(AfterRun(w, cuts), t)
    ensures forall high :: CompletedRun(w, cuts + [t], high) ==
              CompletedRun(w, cuts, high) + if t.high == high then Completed(Of(AfterRun(w, cuts), high), t.cut) else []
    decreases |cuts|
  {
    hide CanCut, AfterCut, Completed;
    if cuts == [] {
      assert [] + [t] == [t] && [t][1..] == [];
    } else {
      assert (cuts + [t])[1..] == cuts[1..] + [t];
      RunSnoc(Emitted(w, cuts[0]), cuts[1..], t);
    }
  }

  lemma {:induction false} PlainsSnoc(protocol: nat, w: Writer, cuts: seq<Tagged>, t: Tagged)
    requires CanRun(w, cuts) && CanCut(Of(AfterRun(w, cuts), t.high), t.cut) && CanRun(w, cuts + [t])
    ensures Plains(protocol, w, cuts + [t]) == Plains(protocol, w, cuts) + [CutPlain(protocol, AfterRun(w, cuts), t)]
    decreases |cuts|
  {
    hide CanCut, AfterCut, CutPlain;
    if cuts == [] {
      assert [] + [t] == [t] && [t][1..] == [];
    } else {
      assert (cuts + [t])[1..] == cuts[1..] + [t];
      PlainsSnoc(protocol, Emitted(w, cuts[0]), cuts[1..], t);
    }
  }

  lemma {:induction false} SpaceSnoc(w: Writer, cuts: seq<Tagged>, t: Tagged, frameLen: nat, swapQueues: bool)
    requires CanRun(w, cuts) && CanCut(Of(AfterRun(w, cuts), t.high), t.cut) && CanRun(w, cuts + [t])
    ensures SpaceLeft(w, cuts + [t], frameLen, swapQueues) ==
            match SpaceLeft(w, cuts, frameLen, swapQueues)
            case None => None
            case Some(left) => SpaceLeft(AfterRun(w, cuts), [t], left, swapQueues || cuts != [])
    decreases |cuts|
  {
    hide CanCut, AfterCut, CutPayload, Greedy, Allotment, PickHigh, FrameSize;
    if cuts == [] {
      assert [] + [t] == [t];
    } else {
      assert (cuts + [t])[1..] == cuts[1..] + [t];
      var size := FrameSize(CutPayload(Of(w, cuts[0].high), cuts[0].cut));
      if size <= frameLen {
        SpaceSnoc(Emitted(w, cuts[0]), cuts[1..], t, frameLen - size, true);
      }
    }
  }

  lemma {:induction false} AllSentSnoc(cr: Crypto, s: Side, frames: seq<Plain>, f: Plain)
    ensures var (s1, ios) := AllSent(cr, s, frames);
            var (s2, io) := PlainSent(cr, s1, f);
            AllSent(cr, s, frames + [f]) == (s2, ios + [io])
    decreases |frames|
  {
    hide PlainSent;
    if frames == [] {
      assert [] + [f] == [f] && [f][1..] == [];
      var (s2, io) := PlainSent(cr, s, f);
      assert [io] + [] == [io] && [] + [io] == [io];
    } else {
      assert (frames + [f])[1..] == frames[1..] + [f];
      var (s1, io) := PlainSent(cr, s, frames[0]);
      AllSentSnoc(cr, s1, frames[1..], f);
      var (s2, ios) := AllSent(cr, s1, frames[1..]);
      var (s3, last) := PlainSent(cr, s2, f);
      assert [io] + (ios + [last]) == ([io] + ios) + [last];
    }
  }

  /** One frame, seen from either class. */
  lemma EmittedConserves(w: Writer, t: Tagged, high: bool)
    requires WriterOk(w) && CanCut(Of(w, t.high), t.cut)
    ensures var w' := Emitted(w, t);
            && WriterOk(w')
            && Unsent(Of(w, high)) ==
               (if t.high == high then CutPayload(Of(w, high), t.cut) else []) + Unsent(Of(w', high))
            && Of(w, high).q == (if t.high == high then Completed(Of(w, high), t.cut) else []) + Of(w', high).q
            && |Unsent(w'.high)| + |Unsent(w'.low)| < |Unsent(w.high)| + |Unsent(w.low)|
  {
    hide Unsent, QueueOk, CutPayload, Completed, CanCut, AfterCut;
    CutConserves(Of(w, t.high), t.cut, NextSequence(w, t.cut));
    CutSequence(w, t);
    assert [] + Unsent(Of(w, high)) == Unsent(Of(w, high));
    assert [] + Of(w, high).q == Of(w, high).q;
  }

  /** In each class, a run of frames sends the queued bytes in order, each exactly once, and takes
      the completed packets off the queue in order. */
  lemma {:induction false} RunConserves(w: Writer, cuts: seq<Tagged>, high: bool)
    requires WriterOk(w) && CanRun(w, cuts)
    ensures WriterOk(AfterRun(w, cuts))
    ensures Unsent(Of(w, high)) == Joined(w, cuts, high) + Unsent(Of(AfterRun(w, cuts), high))
    ensures Of(w, high).q == CompletedRun(w, cuts, high) + Of(AfterRun(w, cuts), high).q
    ensures var w' := AfterRun(w, cuts);
            |Unsent(w'.high)| + |Unsent(w'.low)| + |cuts| <= |Unsent(w.high)| + |Unsent(w.low)|
    decreases |cuts|
  {
    hide Unsent, WriterOk, CutPayload, Completed, CanCut, Emitted, Of;
    if cuts == [] {
      assert [] + Unsent(Of(w, high)) == Unsent(Of(w, high));
      assert [] + Of(w, high).q == Of(w, high).q;
    } else {
      EmittedConserves(w, cuts[0], high);
      RunConserves(Emitted(w, cuts[0]), cuts[1..], high);
    }
  }

  lemma CutSequence(w: Writer, t: Tagged)
    requires WriterOk(w) && CanCut(Of(w, t.high), t.cut)
    ensures AfterCut(Of(w, t.high), t.cut, NextSequence(w, t.cut)).sequence < SEQUENCES
    ensures NextSequence(w, t.cut) < SEQUENCES
  {
  }

  // ---------------------------------------------------------------- the allotment of a frame

  /** The space for the payload of the next frame. The first frame leaves half of the space to the
      other class when both wait. The source computes in an unsigned type of 64 bits. */
  function Allotment(frameLen: nat, both: bool, swapQueues: bool): nat
  {
    var half := frameLen / 2;
    var share := if !swapQueues && both && (half - (OVERHEAD + BLOCK)) % TWO64 > 0 then half else frameLen;
    (share - OVERHEAD) % TWO64
  }

  /** A frame that uses up its allotment fits, exactly unless the first frame is to leave half of
      less than 96 bytes. */
  lemma AllotmentFits(frameLen: nat, both: bool, swapQueues: bool)
    requires OVERHEAD + BLOCK <= frameLen < TWO64 && frameLen % BLOCK == 0
    ensures Allotment(frameLen, both, swapQueues) + OVERHEAD <= frameLen <==> !(both && !swapQueues && frameLen < 96)
    ensures !(both && !swapQueues) ==> Allotment(frameLen, both, swapQueues) == frameLen - OVERHEAD
  {
    var half := frameLen / 2;
    if !swapQueues && both {
      if half >= 64 {
        assert (half - 64) % TWO64 == half - 64;
      } else {
        assert (half - 64) % TWO64 == half - 64 + TWO64;
      }
    }
  }

  lemma PaddedFits(frameLen: nat, len: nat)
    requires frameLen % BLOCK == 0 && len + OVERHEAD <= frameLen
    ensures len + Padding(len) + OVERHEAD <= frameLen
  {
  }

  // ---------------------------------------------------------------- the writer

  class WriterState {
    var q: seq<Packet>
    var writing: bool
    var remaining: nat
    var multiFrame: bool
    var sequence: nat

    ghost function View(): Queue
      reads this
    {
      Queue(q, writing, remaining, multiFrame, sequence)
    }

    constructor ()
      ensures View() == Queue([], false, 0, false, SEQUENCES - 1)
    {
      q, writing, remaining, multiFrame, sequence := [], false, 0, false, SEQUENCES - 1;
    }
  }

  /** What a turn of the packing loop does with a packet. */
  datatype Packing = Refused | Segmented | Packed

  class RLPXFrameWriter {
    const protocol: nat
    const high: WriterState
    const low: WriterState
    var sequenceId: nat

    ghost function View(): Writer
      reads this, high, low
    {
      Writer(high.View(), low.View(), sequenceId)
    }

    ghost predicate Valid()
      reads this, high, low
    {
      high != low && protocol < 0x1_0000 && WriterOk(View())
    }

    constructor (protocol: nat)
      requires protocol < 0x1_0000
      ensures Valid() && this.protocol == protocol && fresh(high) && fresh(low)
      ensures View() == Writer(Queue([], false, 0, false, SEQUENCES - 1), Queue([], false, 0, false, SEQUENCES - 1), 0)
    {
      this.protocol := protocol;
      high := new WriterState();
      low := new WriterState();
      sequenceId := 0;
    }

    /** Queues a packet of the given type; data that is not one item is dropped. */
    method Enque(packetType: byte, payload: bytes, priority: bool)
      requires Valid()
      modifies high, low
      ensures Valid()
      ensures var p := Packet(Encode(Number(packetType)), payload);
              View() == if !Exact(payload) then old(View())
                        else if priority then old(View()).(high := old(View().high.(q := high.q + [p])))
                        else old(View()).(low := old(View().low.(q := low.q + [p])))
    {
      hide ActualSize, Encode, EncodeData, BigEndian, HeaderFits, Unsent, WireAll;
      var stream := new RLPStream();
      AddedAtTop(Output([], []), EncodeData(BigEndian(packetType)));
      SmallNumber(packetType);
      var ok := stream.AppendInt(packetType);
      var kind := stream.Finished();
      assert [] + Encode(Number(packetType)) == Encode(Number(packetType));
      var p := Packet(kind.value, payload);
      if IsValid(p) {
        if priority {
          high.q := high.q + [p];
        } else {
          low.q := low.q + [p];
        }
      }
    }

    /** The encoding of a packet type has one or two bytes. */
    lemma SmallNumber(n: byte)
      ensures HeaderFits(DATA_IND_ZERO, |BigEndian(n)|)
      ensures Encode(Number(n)) == EncodeData(BigEndian(n))
      ensures 1 <= |Encode(Number(n))| <= 2 && Exact(Encode(Number(n)))
    {
      assert BigEndian(n / 256) == [];
      SizeOfEncoding(Number(n), []);
      assert Encode(Number(n)) + [] == Encode(Number(n));
    }

    /** Takes up the first packet of a queue, if it can go into the frame: one that has to be
        segmented only starts in an empty frame. */
    method TakeUp(qs: WriterState, frameAllot: nat, empty: bool) returns (ok: bool)
      requires (qs == high || qs == low) && !qs.writing && !qs.multiFrame && qs.remaining == 0
      requires qs.q != [] && Sendable(qs.q[0]) && frameAllot >= BLOCK
      modifies qs, this`sequenceId
      ensures !ok ==> !empty && |Wire(old(qs.q[0]))| > frameAllot
      ensures !ok ==> qs.View() == old(qs.View()) && sequenceId == old(sequenceId)
      ensures ok ==> var v := old(qs.View()); var multi := |Wire(v.q[0])| > frameAllot;
                     && (multi ==> empty)
                     && sequenceId == (if multi then (old(sequenceId) + 1) % SEQUENCES else old(sequenceId))
                     && qs.View() == Queue(v.q, true, |v.q[0].data|, multi, if multi then sequenceId else v.sequence)
    {
      hide IsValid;
      ValidSize(qs.q[0]);
      qs.writing := true;
      qs.multiFrame := Size(qs.q[0]) > frameAllot;
      if |qs.q[0].kind| > frameAllot || (qs.multiFrame && !empty) {
        qs.writing := false;
        qs.remaining := 0;
        qs.multiFrame := false;
        return false;
      } else if qs.multiFrame {
        sequenceId := (sequenceId + 1) % SEQUENCES;
        qs.sequence := sequenceId;
      }
      qs.remaining := |qs.q[0].data|;
      return true;
    }

    /** Writes as much data of the packet as the frame can take; the packet leaves the queue when
        none is missing. */
    method Portion(qs: WriterState, frameAllot: nat, offset0: nat) returns (portion: bytes, offset: nat, popped: bool)
      requires (qs == high || qs == low) && qs.writing && qs.q != [] && qs.remaining <= |qs.q[0].data|
      requires qs.multiFrame ==> frameAllot > 0 && qs.remaining > 0
      requires !qs.multiFrame ==> frameAllot >= qs.remaining
      modifies qs
      ensures var v := old(qs.View()); var at := |v.q[0].data| - v.remaining;
              var len := if v.remaining <= frameAllot then v.remaining else frameAllot;
              && portion == v.q[0].data[at..at + len]
              && offset == (if len > 0 then at else offset0)
              && popped == (len == v.remaining)
              && qs.View() == v.(writing := !popped, remaining := v.remaining - len,
                                 q := if popped then v.q[1..] else v.q)
    {
      portion, offset := [], offset0;
      if frameAllot > 0 && qs.remaining > 0 {
        offset := |qs.q[0].data| - qs.remaining;
        var length := if qs.remaining <= frameAllot then qs.remaining else frameAllot;
        portion := qs.q[0].data[offset..offset + length];
        qs.remaining := qs.remaining - length;
      }
      popped := qs.remaining == 0;
      if popped {
        qs.writing := false;
        qs.q := qs.q[1..];
      }
    }

    /** The same for a packet of which nothing has been written. */
    method FirstPortion(qs: WriterState, frameAllot: nat, offset0: nat)
      returns (portion: bytes, offset: nat, popped: bool)
      requires (qs == high || qs == low) && qs.writing && qs.q != [] && qs.remaining == |qs.q[0].data|
      requires qs.multiFrame ==> frameAllot > 0 && qs.remaining > 0
      requires !qs.multiFrame ==> frameAllot >= qs.remaining
      modifies qs
      ensures var v := old(qs.View()); var len := if v.remaining <= frameAllot then v.remaining else frameAllot;
              && portion == v.q[0].data[..len] && (len > 0 ==> offset == 0)
              && popped == (len == v.remaining)
              && qs.View() == v.(writing := !popped, remaining := v.remaining - len,
                                 q := if popped then v.q[1..] else v.q)
    {
      portion, offset, popped := Portion(qs, frameAllot, offset0);
    }

    /** More of a packet that is being written; it has the frame to itself. */
    method Continue(qs: WriterState, allot: nat) returns (payload: bytes, offset: nat, ret: nat, ghost cut: Cut)
      requires (qs == high || qs == low) && QueueOk(qs.View()) && qs.writing && allot >= BLOCK
      modifies qs
      ensures CanCut(old(qs.View()), cut) && payload == CutPayload(old(qs.View()), cut)
      ensures ret == |Completed(old(qs.View()), cut)| && |payload| <= allot && Greedy(old(qs.View()), cut, allot)
      ensures cut.More? && offset > 0
      ensures qs.View() == AfterCut(old(qs.View()), cut, 0).(multiFrame := true)
    {
      hide Sendable;
      var popped;
      payload, offset, popped := Portion(qs, allot, 0);
      assert (qs.remaining == 0 && offset > 0) || (qs.remaining > 0 && qs.multiFrame);
      ret := if popped then 1 else 0;
      cut := More(|payload|);
    }

    /** One turn of the packing loop: the packet is left for the next frame, segmented, or packed whole. */
    method PackOne(qs: WriterState, allot: nat, payload0: bytes, offset0: nat)
      returns (step: Packing, payload: bytes, left: nat, offset: nat)
      requires (qs == high || qs == low) && !qs.writing && !qs.multiFrame && qs.remaining == 0
      requires qs.q != [] && Sendable(qs.q[0]) && allot >= BLOCK
      modifies qs, this`sequenceId
      ensures step == Refused ==> payload0 != [] && |Wire(old(qs.q[0]))| > allot && payload == payload0
      ensures step == Refused ==> qs.View() == old(qs.View()) && sequenceId == old(sequenceId)
      ensures step == Segmented ==>
                var v := old(qs.View()); var len := |payload| - |v.q[0].kind|;
                && payload0 == [] && |Wire(v.q[0])| > allot == |payload| && offset == 0 && 0 < len
                && CanCut(v, Start(len)) && payload == CutPayload(v, Start(len))
                && sequenceId == (old(sequenceId) + 1) % SEQUENCES && qs.View() == AfterCut(v, Start(len), sequenceId)
      ensures step == Packed ==>
                var v := old(qs.View()); var size := |Wire(v.q[0])|;
                && size <= allot && left == allot - size && payload == payload0 + Wire(v.q[0])
                && qs.View() == v.(q := v.q[1..]) && sequenceId == old(sequenceId)
    {
      hide Sendable, Wire, WireAll, CanCut, CutPayload, AfterCut;
      step, payload, left, offset := Refused, payload0, allot, offset0;
      KindSize(qs.q[0]);
      ghost var v, p := qs.View(), qs.q[0];
      var ok := TakeUp(qs, allot, payload == []);
      if !ok {
        return;
      }
      left := left - |qs.q[0].kind|;
      payload := payload + qs.q[0].kind;
      assert qs.multiFrame || left >= qs.remaining;
      var portion, popped;
      portion, offset, popped := FirstPortion(qs, left, offset);
      left := left - |portion|;
      PacketWire(payload0, p, |portion|);
      payload := payload + portion;
      assert (qs.remaining == 0 && !qs.multiFrame) || (qs.remaining > 0 && qs.multiFrame);
      if qs.multiFrame {
        StartMeans(v, |portion|, sequenceId);
        step := Segmented;
      } else {
        step := Packed;
      }
    }

    lemma PacketWire(before: bytes, p: Packet, len: nat)
      requires len <= |p.data|
      ensures len == |p.data| ==> before + p.kind + p.data[..len] == before + Wire(p)
      ensures before == [] ==> before + p.kind + p.data[..len] == p.kind + p.data[..len]
    {
      Concat3(before, p.kind, p.data[..len]);
      assert len == |p.data| ==> p.data[..len] == p.data;
      assert before == [] ==> before + (p.kind + p.data[..len]) == p.kind + p.data[..len];
    }

    lemma StartMeans(v: Queue, len: nat, sequence: nat)
      requires !v.writing && v.q != [] && 0 < len < |v.q[0].data|
      ensures CanCut(v, Start(len)) && CutPayload(v, Start(len)) == v.q[0].kind + v.q[0].data[..len]
      ensures AfterCut(v, Start(len), sequence) == Queue(v.q, true, |v.q[0].data| - len, true, sequence)
    {
    }

    /** Packs packets, or the beginning of one packet, into one payload. */
    method Pack(qs: WriterState, allot: nat) returns (payload: bytes, offset: nat, ret: nat, ghost cut: Cut)
      requires (qs == high || qs == low) && QueueOk(qs.View()) && !qs.writing && qs.q != [] && allot >= BLOCK
      modifies qs, this`sequenceId
      ensures CanCut(old(qs.View()), cut) && payload == CutPayload(old(qs.View()), cut)
      ensures ret == |Completed(old(qs.View()), cut)| && |payload| <= allot && Greedy(old(qs.View()), cut, allot)
      ensures !cut.More? && (cut.Start? ==> offset == 0)
      ensures sequenceId == if cut.Start? then (old(sequenceId) + 1) % SEQUENCES else old(sequenceId)
      ensures qs.View() == AfterCut(old(qs.View()), cut, sequenceId)
    {
      hide Sendable, WireAll, Greedy, Wire;
      ghost var v := qs.View();
      var frameAllot: nat := allot;
      payload, offset, ret := [], 0, 0;
      NothingPacked(v.q);
      while frameAllot >= BLOCK && qs.q != []
        invariant ret <= |v.q| && qs.View() == v.(q := v.q[ret..]) && sequenceId == old(sequenceId)
        invariant payload == WireAll(v.q[..ret]) && |payload| + frameAllot == allot
        invariant if ret == 0 then payload == [] && frameAllot == allot else payload != []
        invariant ret > 0 ==> |WireAll(v.q[..ret - 1])| + BLOCK <= allot
        decreases frameAllot
      {
        assert qs.q[0] == v.q[ret] && v.q[ret] in v.q;
        PackedMore(v.q, ret);
        var step;
        step, payload, frameAllot, offset := PackOne(qs, frameAllot, payload, offset);
        if step == Refused {
          break;
        }
        if step == Segmented {
          cut := Start(|payload| - |v.q[0].kind|);
          GreedyStart(v, |payload| - |v.q[0].kind|, allot);
          return;
        }
        ret := ret + 1;
      }
      cut := Several(ret);
      GreedySeveral(v, ret, allot, allot - |payload|);
    }

    /** The inner loop of mux. */
    method Fill(qs: WriterState, allot: nat) returns (payload: bytes, offset: nat, ret: nat, ghost cut: Option<Cut>)
      requires Valid() && (qs == high || qs == low)
      modifies qs, this`sequenceId
      ensures cut.None? <==> allot < BLOCK || old(qs.q) == []
      ensures cut.None? ==> payload == [] && ret == 0 && qs.View() == old(qs.View()) && sequenceId == old(sequenceId)
      ensures cut.Some? ==> CanCut(old(qs.View()), cut.value) && payload == CutPayload(old(qs.View()), cut.value)
      ensures cut.Some? ==> ret == |Completed(old(qs.View()), cut.value)| && |payload| <= allot
      ensures cut.Some? ==> Greedy(old(qs.View()), cut.value, allot)
      ensures cut.Some? ==> sequenceId == NextSequence(old(View()), cut.value)
      ensures cut.Some? ==>
                qs.View() == AfterCut(old(qs.View()), cut.value, sequenceId).(multiFrame := !cut.value.Several?)
      ensures cut.Some? && !cut.value.Several? ==> (offset == 0 <==> cut.value.Start?)
    {
      hide Sendable, WireAll;
      payload, offset, ret, cut := [], 0, 0, None;
      QueueOfWriter(qs);
      if allot >= BLOCK && qs.q != [] {
        ghost var c;
        if qs.writing {
          payload, offset, ret, c := Continue(qs, allot);
        } else {
          payload, offset, ret, c := Pack(qs, allot);
        }
        cut := Some(c);
      }
    }

    /** One turn of the outer loop of mux: fills a frame from the queue whose turn it is, and has
        the coder write it. `fits` is what the source then asserts. */
    method MuxFrame(coder: RLPXFrameCoder, frameLen: nat, swapQueues: bool)
      returns (frame: bytes, ret: nat, fits: bool, ghost t: Option<Tagged>)
      requires Valid() && OVERHEAD + BLOCK <= frameLen < TWO64 && frameLen % BLOCK == 0
      requires high.q != [] || low.q != []
      modifies high, low, this`sequenceId, coder`encUsed, coder`egressMac
      ensures t.None? <==> !swapQueues && BothPending(old(View())) && Allotment(frameLen, true, false) < BLOCK
      ensures t.None? ==> View() == old(View()) && coder.Egress() == old(coder.Egress()) && ret == 0 && frame == []
      ensures t.Some? ==> CanCut(Of(old(View()), t.value.high), t.value.cut) && View() == Emitted(old(View()), t.value)
      ensures t.Some? ==> ret == |Completed(Of(old(View()), t.value.high), t.value.cut)|
      ensures t.Some? ==> |frame| == FrameSize(CutPayload(Of(old(View()), t.value.high), t.value.cut)) > 0
      ensures fits <==> |frame| <= frameLen
      ensures !fits ==> BothPending(old(View())) && !swapQueues && frameLen < 96
      ensures t.Some? ==> t.value.high == PickHigh(old(View()), swapQueues)
      ensures t.Some? ==> Greedy(Of(old(View()), t.value.high), t.value.cut,
                                 Allotment(frameLen, BothPending(old(View())), swapQueues))
      ensures t.Some? ==> (coder.Egress(), frame) ==
                          PlainSent(coder.cr, old(coder.Egress()), CutPlain(protocol, old(View()), t.value))
    {
      hide WireAll, Sendable, PlainSent, Greedy, Padding, Completed, CutPayload;
      ghost var w := View();
      var highPending, lowPending := high.q != [], low.q != [];
      var isHigh := if highPending && !swapQueues then true else !lowPending;
      var qs := if isHigh then high else low;
      var frameAllot := Allotment(frameLen, highPending && lowPending, swapQueues);
      AllotmentFits(frameLen, highPending && lowPending, swapQueues);
      var payload, offset;
      ghost var cut;
      ghost var v := qs.View();
      payload, offset, ret, cut := Fill(qs, frameAllot);
      t := None;
      frame := [];
      if cut.Some? {
        t := Some(Tagged(isHigh, cut.value));
        CutConserves(v, cut.value, sequenceId);
        if |payload| + OVERHEAD <= frameLen {
          PaddedFits(frameLen, |payload|);
        }
      }
      fits := true;
      if payload != [] {
        frame := WriteCut(coder, qs, offset, payload, w, t.value);
        fits := frameLen >= |frame|;
        if qs.remaining == 0 && qs.multiFrame {
          qs.multiFrame := false;
        }
      }
    }

    /** Chooses among the three forms of writeFrame. */
    method WriteCut(coder: RLPXFrameCoder, qs: WriterState, offset: nat, payload: bytes,
                    ghost w: Writer, ghost t: Tagged)
      returns (frame: bytes)
      requires WriterOk(w) && protocol < 0x1_0000
      requires CanCut(Of(w, t.high), t.cut) && payload == CutPayload(Of(w, t.high), t.cut)
      requires qs.View() == AfterCut(Of(w, t.high), t.cut, NextSequence(w, t.cut)).(multiFrame := !t.cut.Several?)
      requires !t.cut.Several? ==> (offset == 0 <==> t.cut.Start?)
      modifies coder`encUsed, coder`egressMac
      ensures (coder.Egress(), frame) == PlainSent(coder.cr, old(coder.Egress()), CutPlain(protocol, w, t))
      ensures |frame| == FrameSize(payload)
    {
      hide PlainSent, WireAll, QueueOk, CutPayload, Size, Padding;
      CutSequence(w, t);
      ghost var s, f := coder.Egress(), CutPlain(protocol, w, t);
      if qs.multiFrame {
        if offset == 0 {
          frame := coder.WriteFields([protocol, qs.sequence, Size(qs.q[0]) % 0x1_0000_0000], payload);
        } else {
          frame := coder.WriteFields([protocol, qs.sequence], payload);
        }
      } else {
        frame := coder.WriteFields([protocol], payload);
      }
      PlainSize(coder.cr, s, f);
    }

    /** mux: frames of at most `size` bytes in all. Not `ok` when the assertion fails that the frame
        fits: the first frame of two waiting classes in less than 96 bytes has no limit. */
    method Mux(coder: RLPXFrameCoder, size: nat)
      returns (ret: nat, frames: seq<bytes>, ok: bool, ghost cuts: seq<Tagged>)
      requires Valid() && size < 0x1_0000_0000
      modifies high, low, this`sequenceId, coder`encUsed, coder`egressMac
      ensures Valid() && CanRun(old(View()), cuts) && View() == AfterRun(old(View()), cuts)
      ensures !ok ==> Overrun(old(View()), cuts, size)
      ensures ok ==>
                (coder.Egress(), frames) == AllSent(coder.cr, old(coder.Egress()), Plains(protocol, old(View()), cuts))
      ensures ok ==> ret == |CompletedRun(old(View()), cuts, true)| + |CompletedRun(old(View()), cuts, false)|
      ensures ok ==> Filled(old(View()), cuts, size) && Shared(old(View()), cuts, size)
      ensures ok && size >= OVERHEAD + BLOCK ==>
                var left := SpaceLeft(old(View()), cuts, size / 16 * 16, LowGoesFirst(old(View()), size));
                left.Some? && TotalSize(frames) + left.value == size / 16 * 16
    {
      hide AllSent, Plains, SpaceLeft, CompletedRun, CanRun, AfterRun, CanCut, PlainSent, WriterOk, Emitted, Progress,
           Greedy, Allotment, CutPayload, Completed, CutPlain, TotalSize, PickHigh, Filled, Overrun, LowGoesFirst,
           Of, BothPending, FrameSize, Padding, Shared;
      ret, frames, cuts, ok := 0, [], [], true;
      ghost var w, s, space, swap0 := View(), coder.Egress(), size / 16 * 16, LowGoesFirst(View(), size);
      ProgressStarts(protocol, coder.cr, s, w, space, swap0);
      if size >= OVERHEAD + BLOCK {
        var frameLen: nat := size / 16 * 16;
        var swapQueues := false;
        while frameLen >= OVERHEAD + BLOCK && (high.q != [] || low.q != [])
          invariant Valid() && frameLen % BLOCK == 0 && frameLen <= size
          invariant Progress(protocol, coder.cr, s, w, space, swap0, cuts,
                             View(), coder.Egress(), frames, ret, frameLen)
          invariant if cuts == [] then View() == w && frameLen == space && (swapQueues ==> swap0) else swapQueues
          decreases frameLen, !swapQueues
        {
          ghost var v, e := View(), coder.Egress();
          var frame, popped, fits;
          ghost var t;
          frame, popped, fits, t := MuxFrame(coder, frameLen, swapQueues);
          if !fits {
            cuts := [t.value];
            OneRun(w, t.value);
            ProgressOk(w, t.value);
            OverrunHere(w, t.value, size);
            ok := false;
            return;
          }
          TurnSkipped(w, size);
          if frame != [] {
            ProgressMore(protocol, coder.cr, s, w, space, swap0, cuts,
                         v, e, frames, ret, frameLen, t.value, frame, swapQueues);
            ProgressOk(v, t.value);
            WholeBlocksOnly(CutPayload(Of(v, t.value.high), t.value.cut));
            frames := frames + [frame];
            frameLen := frameLen - |frame|;
            ret := ret + popped;
            cuts := cuts + [t.value];
          }
          swapQueues := true;
        }
        ProgressMeans(protocol, coder.cr, s, w, size, cuts, View(), coder.Egress(), frames, ret, frameLen);
        FilledShared(w, cuts, size);
      } else {
        ProgressMeans(protocol, coder.cr, s, w, size, cuts, View(), coder.Egress(), frames, ret, space);
        FilledShared(w, cuts, size);
      }
    }

    lemma QueueOfWriter(qs: WriterState)
      requires Valid() && (qs == high || qs == low)
      ensures QueueOk(qs.View())
    {
    }
  }

  function TotalSize(frames: seq<bytes>): nat
  {
    if frames == [] then 0 else TotalSize(frames[..|frames| - 1]) + |frames[|frames| - 1]|
  }

  lemma TotalMore(frames: seq<bytes>, frame: bytes)
    ensures TotalSize(frames + [frame]) == TotalSize(frames) + |frame|
  {
    assert (frames + [frame])[..|frames|] == frames;
  }

  lemma WholeBlocksOnly(payload: bytes)
    ensures FrameSize(payload) % BLOCK == 0
  {
  }

  lemma PlainSize(cr: Crypto, s: Side, f: Plain)
    ensures |PlainSent(cr, s, f).1| == FrameSize(f.payload)
  {
    hide Ciphered, MacUpdated, Tag, HeaderBlock, FrameHeader;
  }

  /** Half of the space is too little for a frame: the class of low priority goes first after all. */
  ghost predicate LowGoesFirst(w: Writer, size: nat)
  {
    BothPending(w) && Allotment(size / 16 * 16, true, false) < BLOCK
  }

  /** What a call of mux sends: nothing without space for a frame; else frames that each take all they
      may, until there is no such space or nothing to send. */
  ghost predicate Filled(w: Writer, cuts: seq<Tagged>, size: nat)
  {
    && CanRun(w, cuts)
    && if size < OVERHEAD + BLOCK then cuts == []
       else
         var left, w' := SpaceLeft(w, cuts, size / 16 * 16, LowGoesFirst(w, size)), AfterRun(w, cuts);
         left.Some? && Exhausted(w', left.value)
  }

  /** There is no space for a frame, or nothing to send. */
  ghost predicate Exhausted(w: Writer, left: nat)
  {
    left < OVERHEAD + BLOCK || (w.high.q == [] && w.low.q == [])
  }

  /** The frames of a call of mux are determined by the queues and the space. */
  lemma FilledUnique(w: Writer, a: seq<Tagged>, b: seq<Tagged>, size: nat)
    requires Filled(w, a, size) && Filled(w, b, size)
    ensures a == b
  {
    hide CanRun, AfterRun, SpaceLeft, LowGoesFirst;
    if size >= OVERHEAD + BLOCK {
      SpaceUnique(w, a, b, size / 16 * 16, LowGoesFirst(w, size));
    }
  }

  lemma {:induction false} SpaceUnique(w: Writer, a: seq<Tagged>, b: seq<Tagged>, space: nat, swapQueues: bool)
    requires CanRun(w, a) && CanRun(w, b)
    requires SpaceLeft(w, a, space, swapQueues).Some? && SpaceLeft(w, b, space, swapQueues).Some?
    requires Exhausted(AfterRun(w, a), SpaceLeft(w, a, space, swapQueues).value)
    requires Exhausted(AfterRun(w, b), SpaceLeft(w, b, space, swapQueues).value)
    ensures a == b
    decreases |a|
  {
    hide CanCut, Emitted, Greedy, Allotment, PickHigh, CutPayload;
    if a != [] && b != [] {
      var v := Of(w, a[0].high);
      GreedyUnique(v, a[0].cut, b[0].cut, Allotment(space, BothPending(w), swapQueues));
      var size := FrameSize(CutPayload(v, a[0].cut));
      SpaceUnique(Emitted(w, a[0]), a[1..], b[1..], space - size, true);
      assert a == [a[0]] + a[1..] && b == [b[0]] + b[1..];
    } else if a != [] {
      CutNeedsPackets(w, a[0]);
    } else if b != [] {
      CutNeedsPackets(w, b[0]);
    }
  }

  lemma CutNeedsPackets(w: Writer, t: Tagged)
    requires CanCut(Of(w, t.high), t.cut)
    ensures w.high.q != [] || w.low.q != []
  {
  }

  // ---------------------------------------------------------------- how a call of mux shares its space

  /** The payload has at most `share` bytes, and as many as that allows: it is full when what comes next
      is longer; else it holds whole packets, and takes one more as long as a block is left and it fits. */
  ghost predicate TakesUpTo(v: Queue, c: Cut, share: nat)
    requires CanCut(v, c)
  {
    var taken := |CutPayload(v, c)|;
    && taken <= share
    && (v.writing ==> taken == if v.remaining > share then share else v.remaining)
    && (!v.writing && |Wire(v.q[0])| > share ==> taken == share)
    && (!v.writing && |Wire(v.q[0])| <= share ==>
          && c.Several? && |WireAll(v.q[..c.count - 1])| + 16 <= share
          && (c.count == |v.q| || share - taken < 16 || |Wire(v.q[c.count])| > share - taken))
  }

  /** Frames of low priority while packets of that class wait, then of high priority, each of which may
      fill the space that is left. */
  ghost predicate LowThenHigh(w: Writer, cuts: seq<Tagged>, left: nat)
    requires CanRun(w, cuts)
    decreases |cuts|
  {
    cuts == [] ||
    var v := Of(w, cuts[0].high);
    var taken := |CutPayload(v, cuts[0].cut)|;
    && cuts[0].high == (w.low.q == [])
    && 48 + taken + Padding(taken) <= left && TakesUpTo(v, cuts[0].cut, left - 48)
    && LowThenHigh(Emitted(w, cuts[0]), cuts[1..], left - 48 - taken - Padding(taken))
  }

  /** When both classes wait, the first frame is of high priority, with half of the space; but with all of
      it when there are 128 bytes, not at all when half of the space is too little for a block (96 or 112
      bytes), and without a limit of its own below that. */
  ghost predicate Shared(w: Writer, cuts: seq<Tagged>, size: nat)
    requires CanRun(w, cuts)
  {
    var space := size / 16 * 16;
    if cuts == [] || w.high.q == [] || w.low.q == [] || 96 <= space < 128 then LowThenHigh(w, cuts, space)
    else
      var taken := |CutPayload(Of(w, cuts[0].high), cuts[0].cut)|;
      && cuts[0].high
      && (space == 128 ==> TakesUpTo(w.high, cuts[0].cut, 80))
      && (space > 128 ==> TakesUpTo(w.high, cuts[0].cut, space / 2 - 48))
      && 48 + taken + Padding(taken) <= space
      && LowThenHigh(Emitted(w, cuts[0]), cuts[1..], space - 48 - taken - Padding(taken))
  }

  lemma GreedyTakes(v: Queue, c: Cut, allot: nat)
    requires CanCut(v, c) && Greedy(v, c, allot) && allot >= BLOCK
    ensures TakesUpTo(v, c, allot)
  {
    hide Wire, WireAll;
    if c.Several? {
      FirstTaken(v.q, c.count);
    }
  }

  lemma {:induction false} LowThenHighFollows(w: Writer, cuts: seq<Tagged>, left: nat)
    requires CanRun(w, cuts) && SpaceLeft(w, cuts, left, true).Some? && left % BLOCK == 0 && left < TWO64
    ensures LowThenHigh(w, cuts, left)
    decreases |cuts|
  {
    hide CanCut, Emitted, Greedy, Allotment, CutPayload, TakesUpTo, Padding;
    if cuts != [] {
      var v := Of(w, cuts[0].high);
      AllotmentFits(left, BothPending(w), true);
      GreedyTakes(v, cuts[0].cut, left - OVERHEAD);
      WholeBlocksOnly(CutPayload(v, cuts[0].cut));
      LowThenHighFollows(Emitted(w, cuts[0]), cuts[1..], left - FrameSize(CutPayload(v, cuts[0].cut)));
    }
  }

  /** The frames of a call of mux are so shared. */
  lemma FilledShared(w: Writer, cuts: seq<Tagged>, size: nat)
    requires Filled(w, cuts, size) && size < 0x1_0000_0000
    ensures Shared(w, cuts, size)
  {
    hide CanCut, Emitted, Greedy, CutPayload, TakesUpTo, Padding, LowThenHigh;
    var space := size / 16 * 16;
    if cuts == [] {
      NoFrames(w, space);
    } else if w.high.q == [] || w.low.q == [] || LowGoesFirst(w, size) {
      OneClassFirst(w, cuts, space, LowGoesFirst(w, size));
      LowThenHighFollows(w, cuts, space);
      FirstShare(space);
    } else {
      FirstShare(space);
      var cut := cuts[0].cut;
      WholeBlocksOnly(CutPayload(w.high, cut));
      LowThenHighFollows(Emitted(w, cuts[0]), cuts[1..], space - FrameSize(CutPayload(w.high, cut)));
      GreedyTakes(w.high, cut, Allotment(space, true, false));
    }
  }

  lemma NoFrames(w: Writer, left: nat)
    ensures LowThenHigh(w, [], left)
  {
  }

  /** Without two waiting classes the order makes no difference to the first frame. */
  lemma OneClassFirst(w: Writer, cuts: seq<Tagged>, space: nat, low: bool)
    requires CanRun(w, cuts) && SpaceLeft(w, cuts, space, low).Some? && (low || !BothPending(w))
    requires cuts != [] && space % BLOCK == 0 && space < TWO64
    ensures SpaceLeft(w, cuts, space, true).Some?
  {
    hide Emitted, Greedy, CutPayload;
    AllotmentFits(space, BothPending(w), low);
    AllotmentFits(space, BothPending(w), true);
    CutNeedsPackets(w, cuts[0]);
  }

  lemma FirstShare(space: nat)
    requires OVERHEAD + BLOCK <= space < TWO64 && space % BLOCK == 0
    ensures Allotment(space, true, false) < BLOCK <==> 96 <= space < 128
    ensures space == 128 ==> Allotment(space, true, false) == 80
    ensures space > 128 ==> Allotment(space, true, false) == space / 2 - 48
  {
    var half := space / 2;
    if half >= 64 {
      assert (half - 64) % TWO64 == half - 64;
    } else {
      assert (half - 64) % TWO64 == half - 64 + TWO64;
    }
  }

  /** So neither class starves: with both waiting, and space for more than 128 bytes, every call sends
      something of either. */
  lemma BothServed(w: Writer, cuts: seq<Tagged>, size: nat)
    requires Filled(w, cuts, size) && w.high.q != [] && w.low.q != [] && 144 <= size < 0x1_0000_0000
    ensures |cuts| >= 2 && cuts[0].high && !cuts[1].high
  {
    hide CanCut, Greedy, TakesUpTo, CutPayload, Emitted, FrameSize, Padding, SpaceLeft, Allotment, AfterRun;
    var space, swap0 := size / 16 * 16, LowGoesFirst(w, size);
    FilledShared(w, cuts, size);
    FirstShare(space);
    NoneSent(w, space, swap0);
    assert cuts != [];
    var left := FirstLeaves(w, cuts, size);
    OneFrameLeaves(w, cuts, space, swap0);
  }

  lemma NoneSent(w: Writer, space: nat, swapQueues: bool)
    ensures AfterRun(w, []) == w && SpaceLeft(w, [], space, swapQueues) == Some(space)
  {
  }

  lemma OneFrameLeaves(w: Writer, cuts: seq<Tagged>, space: nat, swapQueues: bool)
    requires |cuts| >= 1 && CanRun(w, cuts) && SpaceLeft(w, cuts, space, swapQueues).Some?
    ensures |cuts| == 1 ==> AfterRun(w, cuts) == Emitted(w, cuts[0])
    ensures |cuts| == 1 ==>
              SpaceLeft(w, cuts, space, swapQueues).value ==
              space - FrameSize(CutPayload(Of(w, cuts[0].high), cuts[0].cut))
    ensures cuts[0].high ==> Emitted(w, cuts[0]).low == w.low
  {
    hide CanCut, Greedy, CutPayload, FrameSize;
    if |cuts| == 1 {
      assert cuts[1..] == [];
    }
  }

  /** After the first frame there is space for another one. */
  lemma FirstLeaves(w: Writer, cuts: seq<Tagged>, size: nat) returns (left: nat)
    requires Filled(w, cuts, size) && Shared(w, cuts, size) && cuts != []
    requires w.high.q != [] && w.low.q != [] && 144 <= size < 0x1_0000_0000
    ensures left == size / 16 * 16 - FrameSize(CutPayload(w.high, cuts[0].cut)) >= 64
  {
    hide CanCut, Greedy, CutPayload, Emitted, Wire;
    var space := size / 16 * 16;
    var taken := |CutPayload(w.high, cuts[0].cut)|;
    assert taken <= space / 2 - 48;
    left := space - FrameSize(CutPayload(w.high, cuts[0].cut));
  }

  lemma TurnSkipped(w: Writer, size: nat)
    ensures LowGoesFirst(w, size) <==> BothPending(w) && Allotment(size / 16 * 16, true, false) < BLOCK
  {
  }

  /** One more frame at the end of a run. */
  lemma RunMore(protocol: nat, cr: Crypto, s: Side, w: Writer, cuts: seq<Tagged>, t: Tagged,
                frameLen: nat, swapQueues: bool)
    requires CanRun(w, cuts) && CanCut(Of(AfterRun(w, cuts), t.high), t.cut)
    ensures CanRun(w, cuts + [t]) && AfterRun(w, cuts + [t]) == Emitted(AfterRun(w, cuts), t)
    ensures forall high :: |CompletedRun(w, cuts + [t], high)| ==
              |CompletedRun(w, cuts, high)| +
              if t.high == high then |Completed(Of(AfterRun(w, cuts), high), t.cut)| else 0
    ensures var (s1, ios) := AllSent(cr, s, Plains(protocol, w, cuts));
            var (s2, io) := PlainSent(cr, s1, CutPlain(protocol, AfterRun(w, cuts), t));
            AllSent(cr, s, Plains(protocol, w, cuts + [t])) == (s2, ios + [io])
    ensures SpaceLeft(w, cuts + [t], frameLen, swapQueues) ==
            match SpaceLeft(w, cuts, frameLen, swapQueues)
            case None => None
            case Some(left) => SpaceLeft(AfterRun(w, cuts), [t], left, swapQueues || cuts != [])
  {
    hide CanCut, AfterCut, Completed, PlainSent, SpaceLeft, AllSent;
    RunSnoc(w, cuts, t);
    PlainsSnoc(protocol, w, cuts, t);
    AllSentSnoc(cr, s, Plains(protocol, w, cuts), CutPlain(protocol, AfterRun(w, cuts), t));
    SpaceSnoc(w, cuts, t, frameLen, swapQueues);
  }

  /** Where mux stands after the frames `cuts`. */
  ghost predicate Progress(protocol: nat, cr: Crypto, s: Side, w: Writer, space: nat, swap0: bool, cuts: seq<Tagged>,
      view: Writer, egress: Side, frames: seq<bytes>, ret: nat, left: nat)
  {
    && CanRun(w, cuts) && view == AfterRun(w, cuts)
    && (egress, frames) == AllSent(cr, s, Plains(protocol, w, cuts))
    && ret == |CompletedRun(w, cuts, true)| + |CompletedRun(w, cuts, false)|
    && SpaceLeft(w, cuts, space, swap0) == Some(left)
    && TotalSize(frames) + left == space
  }

  lemma ProgressStarts(protocol: nat, cr: Crypto, s: Side, w: Writer, space: nat, swap0: bool)
    ensures Progress(protocol, cr, s, w, space, swap0, [], w, s, [], 0, space)
  {
  }

  /** When neither space nor packets are left for a frame, mux has done what it is to do. */
  lemma ProgressMeans(protocol: nat, cr: Crypto, s: Side, w: Writer, size: nat, cuts: seq<Tagged>,
      view: Writer, egress: Side, frames: seq<bytes>, ret: nat, left: nat)
    requires Progress(protocol, cr, s, w, size / 16 * 16, LowGoesFirst(w, size), cuts, view, egress, frames, ret, left)
    requires if size < OVERHEAD + BLOCK then cuts == []
             else left < OVERHEAD + BLOCK || (view.high.q == [] && view.low.q == [])
    ensures CanRun(w, cuts) && view == AfterRun(w, cuts) && Filled(w, cuts, size)
    ensures (egress, frames) == AllSent(cr, s, Plains(protocol, w, cuts))
    ensures ret == |CompletedRun(w, cuts, true)| + |CompletedRun(w, cuts, false)|
    ensures SpaceLeft(w, cuts, size / 16 * 16, LowGoesFirst(w, size)) == Some(left)
    ensures TotalSize(frames) + left == size / 16 * 16
  {
    hide AllSent, Plains, SpaceLeft, CompletedRun, CanRun, AfterRun, TotalSize, LowGoesFirst;
  }

  lemma ProgressMore(protocol: nat, cr: Crypto, s: Side, w: Writer, space: nat, swap0: bool, cuts: seq<Tagged>,
      view: Writer, egress: Side, frames: seq<bytes>, ret: nat, left: nat, t: Tagged, frame: bytes, swapQueues: bool)
    requires Progress(protocol, cr, s, w, space, swap0, cuts, view, egress, frames, ret, left)
    requires CanCut(Of(view, t.high), t.cut) && OVERHEAD + BLOCK <= left
    requires frame == PlainSent(cr, egress, CutPlain(protocol, view, t)).1
    requires |frame| == FrameSize(CutPayload(Of(view, t.high), t.cut)) <= left
    requires swapQueues == (swap0 || cuts != [])
    requires t.high == PickHigh(view, swapQueues)
    requires Greedy(Of(view, t.high), t.cut, Allotment(left, BothPending(view), swapQueues))
    ensures Progress(protocol, cr, s, w, space, swap0, cuts + [t], Emitted(view, t),
              PlainSent(cr, egress, CutPlain(protocol, view, t)).0, frames + [frame],
              ret + |Completed(Of(view, t.high), t.cut)|, left - |frame|)
  {
    hide CanCut, PlainSent, Greedy, Completed, AllSent, Plains, Emitted, CutPayload, CutPlain, FrameSize, SpaceLeft;
    RunMore(protocol, cr, s, w, cuts, t, space, swap0);
    TotalMore(frames, frame);
    SpaceOne(view, t, left, swapQueues);
  }

  lemma SpaceOne(w: Writer, t: Tagged, left: nat, swapQueues: bool)
    requires CanCut(Of(w, t.high), t.cut) && OVERHEAD + BLOCK <= left
    requires FrameSize(CutPayload(Of(w, t.high), t.cut)) <= left
    requires t.high == PickHigh(w, swapQueues)
    requires Greedy(Of(w, t.high), t.cut, Allotment(left, BothPending(w), swapQueues))
    ensures var size := FrameSize(CutPayload(Of(w, t.high), t.cut));
            CanRun(w, [t]) && SpaceLeft(w, [t], left, swapQueues) == Some(left - size)
  {
    hide CanCut, Greedy, CutPayload, FrameSize, Emitted;
    assert [t][1..] == [];
  }

  lemma OneRun(w: Writer, t: Tagged)
    requires CanCut(Of(w, t.high), t.cut)
    ensures CanRun(w, [t]) && AfterRun(w, [t]) == Emitted(w, t)
  {
    hide CanCut, Emitted;
    assert [t][1..] == [];
  }

  /** The one frame of the class of high priority that mux fills without a limit, and that does
      not fit. */
  ghost predicate Overrun(w: Writer, cuts: seq<Tagged>, size: nat)
  {
    var space := size / 16 * 16;
    && BothPending(w) && OVERHEAD + BLOCK <= space < 96
    && |cuts| == 1 && cuts[0].high && CanCut(w.high, cuts[0].cut)
    && Greedy(w.high, cuts[0].cut, Allotment(space, true, false))
    && FrameSize(CutPayload(w.high, cuts[0].cut)) > space
  }

  lemma OverrunHere(w: Writer, t: Tagged, size: nat)
    requires BothPending(w) && OVERHEAD + BLOCK <= size / 16 * 16 < 96 && t.high == PickHigh(w, false)
    requires CanCut(Of(w, t.high), t.cut) && FrameSize(CutPayload(Of(w, t.high), t.cut)) > size / 16 * 16
    requires Greedy(Of(w, t.high), t.cut, Allotment(size / 16 * 16, BothPending(w), false))
    ensures Overrun(w, [t], size)
  {
  }

  /** What a frame without a limit takes from a queue. */
  function FirstTake(v: Queue): nat
  {
    if v.writing then v.remaining else |WireAll(v.q)|
  }

  lemma UnlimitedCut(v: Queue, cut: Cut, space: nat)
    requires QueueOk(v) && CanCut(v, cut) && OVERHEAD + BLOCK <= space < 96 && space % BLOCK == 0
    requires Greedy(v, cut, Allotment(space, true, false)) && |Unsent(v)| < TWO64 - 2 * BLOCK
    ensures |CutPayload(v, cut)| == FirstTake(v)
    ensures FrameSize(CutPayload(v, cut)) > space <==> FirstTake(v) + OVERHEAD > space
  {
    hide Sendable, Wire, WireAll;
    assert space == 64 || space == 80;
    var allot := Allotment(space, true, false);
    assert allot >= TWO64 - BLOCK;
    match cut
    case Several(count) =>
      WireAllSplit(v.q, count);
      if count < |v.q| {
        FirstOfAll(v.q[count..]);
      } else {
        assert v.q[..count] == v.q;
      }
    case Start(len) => FirstOfAll(v.q);
    case More(len) =>
    if FirstTake(v) + OVERHEAD <= space {
      PaddedFits(space, FirstTake(v));
    }
  }

  lemma FirstOfAll(q: seq<Packet>)
    requires q != []
    ensures |WireAll(q)| >= |Wire(q[0])|
  {
  }

  /** Mux runs into its assertion exactly when both classes wait, there is space for one frame of 64
      or 80 bytes, and all that is next in the class of high priority does not fit into it. */
  lemma OverrunExactly(w: Writer, cuts: seq<Tagged>, size: nat, ok: bool)
    requires WriterOk(w) && CanRun(w, cuts) && |Unsent(w.high)| < TWO64 - 2 * BLOCK
    requires !ok ==> Overrun(w, cuts, size)
    requires ok ==> Filled(w, cuts, size)
    ensures var space := size / 16 * 16;
            !ok <==> BothPending(w) && OVERHEAD + BLOCK <= space < 96 && FirstTake(w.high) + OVERHEAD > space
  {
    hide QueueOk, Unsent, CanCut, CutPayload, Greedy, FrameSize, FirstTake;
    var space := size / 16 * 16;
    if !ok {
      UnlimitedCut(w.high, cuts[0].cut, space);
    } else if BothPending(w) && OVERHEAD + BLOCK <= space < 96 {
      assert space == 64 || space == 80;
      MuxSends(w, cuts, space, LowGoesFirst(w, size));
      UnlimitedCut(w.high, cuts[0].cut, space);
    }
  }

  /** A packet of 21 bytes, as a sample: a type of one byte and a string of 19 bytes. */
  function SamplePacket(): (p: Packet)
    ensures Sendable(p) && |p.kind| == 1 && |p.data| == 20
  {
    var p := Packet([0x01], [0x93] + seq(19, _ => 0));
    assert Length(p.data) == Some(19);
    p
  }

  /** For instance, with a packet of 21 bytes waiting in each class mux(64) writes a frame of 80 bytes. */
  lemma OverrunExample()
    ensures var v := Queue([SamplePacket()], false, 0, false, SEQUENCES - 1);
            var w, cuts := Writer(v, v, 0), [Tagged(true, Several(1))];
            WriterOk(w) && Overrun(w, cuts, 64) && FrameSize(CutPayload(w.high, cuts[0].cut)) == 80
  {
    hide IsValid;
    var p := SamplePacket();
    assert [p][..0] == [] && [p][..1] == [p] && WireAll([p][1..]) == [];
  }

  lemma ProgressOk(w: Writer, t: Tagged)
    requires WriterOk(w) && CanCut(Of(w, t.high), t.cut)
    ensures WriterOk(Emitted(w, t))
  {
    EmittedConserves(w, t, t.high);
  }

  /** With something to send and space for a frame, mux sends; what is unsent gets less. */
  lemma MuxSends(w: Writer, cuts: seq<Tagged>, space: nat, swap0: bool)
    requires WriterOk(w) && CanRun(w, cuts) && SpaceLeft(w, cuts, space, swap0).Some?
    requires space >= OVERHEAD + BLOCK && (w.high.q != [] || w.low.q != [])
    requires var left, w' := SpaceLeft(w, cuts, space, swap0).value, AfterRun(w, cuts);
             left < OVERHEAD + BLOCK || (w'.high.q == [] && w'.low.q == [])
    ensures cuts != []
    ensures |Unsent(AfterRun(w, cuts).high)| + |Unsent(AfterRun(w, cuts).low)| < |Unsent(w.high)| + |Unsent(w.low)|
  {
    RunConserves(w, cuts, true);
  }

  lemma NothingPacked(q: seq<Packet>)
    ensures WireAll(q[..0]) == []
  {
  }

  lemma GreedySeveral(v: Queue, count: nat, allot: nat, left: nat)
    requires CanCut(v, Several(count)) && |WireAll(v.q[..count])| + left == allot
    requires left < BLOCK || count == |v.q| || |Wire(v.q[count])| > left
    requires |WireAll(v.q[..count - 1])| + BLOCK <= allot
    ensures Greedy(v, Several(count), allot)
  {
  }

  lemma GreedyStart(v: Queue, len: nat, allot: nat)
    requires CanCut(v, Start(len)) && |Wire(v.q[0])| > allot == |v.q[0].kind| + len
    ensures Greedy(v, Start(len), allot)
  {
  }

  lemma KindSize(p: Packet)
    requires Sendable(p)
    ensures 1 <= |p.kind| <= 2 && |Wire(p)| == |p.kind| + |p.data|
  {
  }

  lemma PackedMore(q: seq<Packet>, k: nat)
    requires k < |q| && Sendable(q[k])
    ensures WireAll(q[..k]) + Wire(q[k]) == WireAll(q[..k + 1]) != [] && |Wire(q[k])| > 0
  {
    hide IsValid;
    WireAllMore(q[..k], q[k]);
    assert q[..k + 1] == q[..k] + [q[k]];
  }
}
