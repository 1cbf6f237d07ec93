/** Whole sessions: packets are queued and frames are sent in any order at one end of an enciphered
    connection, and at the other end the packets come out again. The objects of both ends are run. */
module FrameSession {
  import opened Bytes
  import opened TrieCode
  import opened RlpxPacket
  import opened FrameCoder
  import opened FrameWriter
  import opened FrameReader
  import Rlp

  // ---------------------------------------------------------------- calls

  datatype Call = Enque(packetType: byte, payload: bytes, priority: bool) | Mux(size: nat)

  function PacketOf(c: Call): Packet
    requires c.Enque?
  {
    Packet(Rlp.Encode(Number(c.packetType)), c.payload)
  }

  /** The packets that the calls put into the queue of one class: all whose data is one item or nothing. */
  function QueuedBy(calls: seq<Call>, high: bool): seq<Packet>
  {
    if calls == [] then []
    else
      var c := calls[|calls| - 1];
      QueuedBy(calls[..|calls| - 1], high) +
      if c.Enque? && c.priority == high && Exact(c.payload) then [PacketOf(c)] else []
  }

  /** What one call does to the writer; `cuts` are the frames that it sends. */
  ghost predicate StepOf(w: Writer, c: Call, cuts: seq<Tagged>, w': Writer)
  {
    match c
    case Enque(_, payload, priority) =>
      cuts == [] && w' == if Exact(payload) then Joining(w, priority, PacketOf(c)) else w
    case Mux(size) => Filled(w, cuts, size) && w' == AfterRun(w, cuts)
  }

  ghost predicate Trace(calls: seq<Call>, states: seq<Writer>, runs: seq<seq<Tagged>>)
  {
    && |states| == |calls| + 1 && |runs| == |calls| && states[0] == Idle()
    && forall i :: 0 <= i < |calls| ==> StepOf(states[i], calls[i], runs[i], states[i + 1])
  }

  /** The calls determine the states of the writer and the frames. */
  lemma {:induction false} TraceUnique(calls: seq<Call>, states: seq<Writer>, runs: seq<seq<Tagged>>,
                                       states': seq<Writer>, runs': seq<seq<Tagged>>)
    requires Trace(calls, states, runs) && Trace(calls, states', runs')
    ensures states == states' && runs == runs'
  {
    hide Filled, Joining, PacketOf, AfterRun, CanRun;
    if calls != [] {
      var k := |calls| - 1;
      TraceBefore(calls, states, runs);
      TraceBefore(calls, states', runs');
      TraceUnique(calls[..k], states[..k + 1], runs[..k], states'[..k + 1], runs'[..k]);
      assert states[k] == states[..k + 1][k] && states'[k] == states'[..k + 1][k];
      assert StepOf(states[k], calls[k], runs[k], states[k + 1]);
      assert StepOf(states'[k], calls[k], runs'[k], states'[k + 1]);
      if calls[k].Mux? {
        FilledUnique(states[k], runs[k], runs'[k], calls[k].size);
      }
      LastOne(states, k + 1);
      LastOne(states', k + 1);
      LastOne(runs, k);
      LastOne(runs', k);
    }
  }

  lemma LastOne<T>(s: seq<T>, k: nat)
    requires |s| == k + 1
    ensures s == s[..k] + [s[k]]
  {
  }

  lemma TraceBefore(calls: seq<Call>, states: seq<Writer>, runs: seq<seq<Tagged>>)
    requires Trace(calls, states, runs) && calls != []
    ensures var k := |calls| - 1; Trace(calls[..k], states[..k + 1], runs[..k])
  {
    hide StepOf;
    var k := |calls| - 1;
    forall i | 0 <= i < k
      ensures StepOf(states[..k + 1][i], calls[..k][i], runs[..k][i], states[..k + 1][i + 1])
    {
      assert StepOf(states[i], calls[i], runs[i], states[i + 1]);
    }
  }

  function Idle(): Writer
  {
    Writer(Queue([], false, 0, false, SEQUENCES - 1), Queue([], false, 0, false, SEQUENCES - 1), 0)
  }

  /** All frames of a session. */
  function AllCuts(runs: seq<seq<Tagged>>): seq<Tagged>
  {
    if runs == [] then [] else AllCuts(runs[..|runs| - 1]) + runs[|runs| - 1]
  }

  /** Every frame of a call of mux is kept, and starts no packet with a number that is in flight. */
  ghost predicate StepDeliverable(w: Writer, c: Call, cuts: seq<Tagged>)
  {
    c.Mux? ==> CanRun(w, cuts) && Deliverable(w, cuts)
  }

  /** What makes a session deliver. */
  ghost predicate Fine(calls: seq<Call>, states: seq<Writer>, runs: seq<seq<Tagged>>)
    requires |states| > |calls| && |runs| == |calls|
  {
    forall i :: 0 <= i < |calls| ==> StepDeliverable(states[i], calls[i], runs[i])
  }

  // ---------------------------------------------------------------- in step

  /** The writer and what the reader holds. */
  ghost predicate Level(w: Writer, m: Incomplete)
  {
    WriterOk(w) && Distinct(w) && m == InFlight(w)
  }

  lemma LevelStarts()
    ensures Level(Idle(), map[])
  {
  }

  lemma LevelQueued(w: Writer, m: Incomplete, high: bool, p: Packet)
    requires Level(w, m) && Sendable(p)
    ensures Level(Joining(w, high, p), m)
  {
    hide WriterOk, Distinct, Sendable, InFlight;
    JoiningOk(w, high, p);
  }

  lemma {:induction false} LevelSent(w: Writer, cuts: seq<Tagged>)
    requires WriterOk(w) && Distinct(w) && CanRun(w, cuts) && Deliverable(w, cuts)
    ensures Level(AfterRun(w, cuts), InFlight(AfterRun(w, cuts)))
    decreases |cuts|
  {
    hide WriterOk, Distinct, CanCut, Emitted, Numbered, Kept;
    if cuts != [] {
      ProgressOk(w, cuts[0]);
      StaysDistinct(w, cuts[0]);
      LevelSent(Emitted(w, cuts[0]), cuts[1..]);
    }
  }

  lemma {:induction false} DeliveredSum(a: seq<Tagged>, x: seq<seq<Packet>>, b: seq<Tagged>, y: seq<seq<Packet>>,
                                        high: bool)
    requires |a| == |x| && |b| == |y|
    ensures Delivered(a + b, x + y, high) == Delivered(a, x, high) + Delivered(b, y, high)
  {
    if a == [] {
      assert [] + b == b && x + y == y && [] + Delivered(b, y, high) == Delivered(b, y, high);
    } else {
      assert (a + b)[0] == a[0] && (a + b)[1..] == a[1..] + b && (x + y)[0] == x[0] && (x + y)[1..] == x[1..] + y;
      DeliveredSum(a[1..], x[1..], b, y, high);
    }
  }

  /** What came out of a class, and then what is still in its queue, is what was queued. */
  ghost predicate Accounted(calls: seq<Call>, w: Writer, cuts: seq<Tagged>, arrived: seq<seq<Packet>>)
  {
    && |arrived| == |cuts|
    && forall high :: Delivered(cuts, arrived, high) + Of(w, high).q == QueuedBy(calls, high)
  }

  lemma AccountedQueued(calls: seq<Call>, w: Writer, cuts: seq<Tagged>, arrived: seq<seq<Packet>>, c: Call, w': Writer)
    requires Accounted(calls, w, cuts, arrived) && c.Enque? && StepOf(w, c, [], w')
    ensures Accounted(calls + [c], w', cuts + [], arrived)
  {
    hide Exact, PacketOf, Delivered;
    assert (calls + [c])[..|calls|] == calls && cuts + [] == cuts;
    forall high
      ensures Delivered(cuts, arrived, high) + Of(w', high).q == QueuedBy(calls + [c], high)
    {
      assert Delivered(cuts, arrived, high) + Of(w, high).q == QueuedBy(calls, high);
      if c.priority == high && Exact(c.payload) {
        JoinLast(Delivered(cuts, arrived, high), Of(w, high).q, PacketOf(c));
      } else {
        assert QueuedBy(calls, high) + [] == QueuedBy(calls, high);
      }
    }
  }

  lemma JoinLast(done: seq<Packet>, q: seq<Packet>, p: Packet)
    ensures done + (q + [p]) == (done + q) + [p]
  {
  }

  lemma AccountedSent(calls: seq<Call>, w: Writer, cuts: seq<Tagged>, arrived: seq<seq<Packet>>,
                      c: Call, run: seq<Tagged>, out: seq<seq<Packet>>)
    requires Accounted(calls, w, cuts, arrived) && c.Mux? && WriterOk(w) && CanRun(w, run) && |out| == |run|
    requires forall high :: Delivered(run, out, high) == CompletedRun(w, run, high)
    ensures Accounted(calls + [c], AfterRun(w, run), cuts + run, arrived + out)
  {
    hide WriterOk, CanRun, AfterRun, CompletedRun, Delivered;
    assert (calls + [c])[..|calls|] == calls;
    forall high
      ensures Delivered(cuts + run, arrived + out, high) + Of(AfterRun(w, run), high).q == QueuedBy(calls + [c], high)
    {
      assert Delivered(cuts, arrived, high) + Of(w, high).q == QueuedBy(calls, high);
      assert Delivered(run, out, high) == CompletedRun(w, run, high);
      DeliveredSum(cuts, arrived, run, out, high);
      RunConserves(w, run, high);
      SplitQueue(Delivered(cuts, arrived, high), CompletedRun(w, run, high), Of(AfterRun(w, run), high).q);
      assert QueuedBy(calls, high) + [] == QueuedBy(calls, high);
    }
  }

  lemma SplitQueue(before: seq<Packet>, done: seq<Packet>, q: seq<Packet>)
    ensures (before + done) + q == before + (done + q)
  {
  }

  // ---------------------------------------------------------------- the receiving end

  /** One frame off the wire: header, fields, and the body into the reader. */
  method ReadFrame(coder: RLPXFrameCoder, reader: RLPXFrameReader, io: bytes) returns (r: Outcome)
    requires |io| >= 3 * BLOCK
    modifies reader, coder`decUsed, coder`ingressMac
    ensures var (s, read) := PlainRead(coder.cr, old(coder.Ingress()), io);
            match read
            case None => r == DecryptFailed
            case Some(f) =>
              var (m, packets) := Demuxed(old(reader.incomplete), f.0, f.1);
              && coder.Ingress() == s && reader.incomplete == m
              && r == if packets.None? then InvalidPacket else Packets(packets.value)
  {
    hide HeaderOpened, BodyOpened, ReadInfo, Demuxed;
    var header := new byte[2 * BLOCK](i requires 0 <= i < |io| => io[i]);
    assert header[..] == io[..2 * BLOCK];
    var ok := coder.AuthAndDecryptHeader(header);
    if !ok {
      return DecryptFailed;
    }
    var info := ReadInfo(header[..]);
    if info.None? {
      return DecryptFailed;
    }
    var body := new byte[|io| - 2 * BLOCK](i requires 0 <= i < |io| - 2 * BLOCK => io[2 * BLOCK + i]);
    assert body[..] == io[2 * BLOCK..];
    r := reader.Demux(coder, info.value, body);
  }

  /** Frames off the wire, until one is refused. */
  method ReadAll(coder: RLPXFrameCoder, reader: RLPXFrameReader, ios: seq<bytes>)
    returns (ok: bool, out: seq<seq<Packet>>)
    requires forall io :: io in ios ==> |io| >= 3 * BLOCK
    modifies reader, coder`decUsed, coder`ingressMac
    ensures var (s, seen) := AllRead(coder.cr, old(coder.Ingress()), ios);
            seen.Some? ==>
              var (m, packets) := DemuxAll(old(reader.incomplete), seen.value);
              packets.Some? ==> ok && coder.Ingress() == s && reader.incomplete == m && out == packets.value
    decreases |ios|
  {
    hide PlainRead, Demuxed;
    ok, out := true, [];
    if ios != [] {
      ghost var s0, m0 := coder.Ingress(), reader.incomplete;
      var r := ReadFrame(coder, reader, ios[0]);
      if !r.Packets? {
        return false, [];
      }
      var rest;
      ok, rest := ReadAll(coder, reader, ios[1..]);
      out := [r.packets] + rest;
      ghost var seen := AllRead(coder.cr, s0, ios).1;
      assert seen.Some? ==> seen.value[1..] == AllRead(coder.cr, PlainRead(coder.cr, s0, ios[0]).0, ios[1..]).1.value;
    }
  }

  // ---------------------------------------------------------------- sessions

  /** Where a session stands: as long as it is fine, both ends are in step and every packet is
      accounted for. */
  ghost predicate Going(calls: seq<Call>, states: seq<Writer>, runs: seq<seq<Tagged>>, arrived: seq<seq<Packet>>,
                        ok: bool, egress: Side, ingress: Side, m: Incomplete)
    requires |states| == |calls| + 1 && |runs| == |calls|
  {
    Fine(calls, states, runs) ==>
      && ok && egress == ingress
      && Level(states[|calls|], m)
      && Accounted(calls, states[|calls|], AllCuts(runs), arrived)
  }

  /** A session that is fine was fine one call earlier. */
  lemma FineBefore(calls: seq<Call>, states: seq<Writer>, runs: seq<seq<Tagged>>, c: Call, cuts: seq<Tagged>, w: Writer)
    requires Trace(calls, states, runs) && Fine(calls + [c], states + [w], runs + [cuts])
    ensures Fine(calls, states, runs) && StepDeliverable(states[|calls|], c, cuts)
    ensures AllCuts(runs + [cuts]) == AllCuts(runs) + cuts
  {
    hide StepOf, StepDeliverable;
    assert (runs + [cuts])[..|runs|] == runs;
    forall i | 0 <= i < |calls|
      ensures StepDeliverable(states[i], calls[i], runs[i])
    {
      assert StepDeliverable((states + [w])[i], (calls + [c])[i], (runs + [cuts])[i]);
    }
    assert StepDeliverable((states + [w])[|calls|], (calls + [c])[|calls|], (runs + [cuts])[|calls|]);
  }

  lemma TraceMore(calls: seq<Call>, states: seq<Writer>, runs: seq<seq<Tagged>>, c: Call, cuts: seq<Tagged>, w: Writer)
    requires Trace(calls, states, runs) && StepOf(states[|calls|], c, cuts, w)
    ensures Trace(calls + [c], states + [w], runs + [cuts])
  {
    hide StepOf;
    forall i | 0 <= i < |calls + [c]|
      ensures StepOf((states + [w])[i], (calls + [c])[i], (runs + [cuts])[i], (states + [w])[i + 1])
    {
      if i < |calls| {
        assert StepOf(states[i], calls[i], runs[i], states[i + 1]);
      }
    }
  }

  lemma EnqueStep(w: Writer, c: Call, w': Writer)
    requires c.Enque? && w' == if Exact(c.payload) then Joining(w, c.priority, PacketOf(c)) else w
    ensures StepOf(w, c, [], w')
    ensures Exact(c.payload) ==> Sendable(PacketOf(c))
  {
    Rlp.SizeOfEncoding(Number(c.packetType), []);
    assert Rlp.Encode(Number(c.packetType)) + [] == Rlp.Encode(Number(c.packetType));
    assert BigEndian(c.packetType / 256) == [];
  }

  lemma MuxStep(w: Writer, c: Call, cuts: seq<Tagged>)
    requires c.Mux? && Filled(w, cuts, c.size)
    ensures StepOf(w, c, cuts, AfterRun(w, cuts))
  {
  }

  /** The result of a session that performed `calls` and went on to `next`, if there is more: mux then
      broke off on the source's assertion (see OverrunExactly). If every frame is kept, and the two
      packets that may be in flight never have the same number, no frame is refused, and what came out
      of a class, and then what is still in its queue, is what was queued, in order. */
  ghost predicate Result(calls: seq<Call>, next: Option<Call>, ok: bool, arrived: seq<seq<Packet>>,
                         states: seq<Writer>, runs: seq<seq<Tagged>>)
    requires Trace(calls, states, runs)
  {
    && (next.Some? ==> next.value.Mux? && exists cuts :: Overrun(states[|calls|], cuts, next.value.size))
    && (Fine(calls, states, runs) ==>
          && ok && |arrived| == |AllCuts(runs)|
          && forall high ::
               Delivered(AllCuts(runs), arrived, high) + Of(states[|calls|], high).q == QueuedBy(calls, high))
  }

  lemma GoingMeans(calls: seq<Call>, next: Option<Call>, states: seq<Writer>, runs: seq<seq<Tagged>>,
                   arrived: seq<seq<Packet>>, ok: bool, egress: Side, ingress: Side, m: Incomplete)
    requires Trace(calls, states, runs) && Going(calls, states, runs, arrived, ok, egress, ingress, m)
    requires next.Some? ==> next.value.Mux? && exists cuts :: Overrun(states[|calls|], cuts, next.value.size)
    ensures Result(calls, next, ok, arrived, states, runs)
  {
    hide Fine, Level, Overrun;
  }

  lemma GoingStarts(s: Side)
    ensures Going([], [Idle()], [], [], true, s, s, map[])
  {
    LevelStarts();
  }

  lemma GoingQueued(calls: seq<Call>, states: seq<Writer>, runs: seq<seq<Tagged>>, arrived: seq<seq<Packet>>,
                    ok: bool, egress: Side, ingress: Side, m: Incomplete, c: Call, w: Writer)
    requires Trace(calls, states, runs) && Going(calls, states, runs, arrived, ok, egress, ingress, m)
    requires c.Enque? && StepOf(states[|calls|], c, [], w)
    requires Exact(c.payload) ==> Sendable(PacketOf(c))
    ensures Going(calls + [c], states + [w], runs + [[]], arrived, ok, egress, ingress, m)
  {
    hide StepDeliverable, Level, Accounted, Exact, Sendable, AllCuts, PacketOf, Joining;
    if Fine(calls + [c], states + [w], runs + [[]]) {
      FineBefore(calls, states, runs, c, [], w);
      AccountedQueued(calls, states[|calls|], AllCuts(runs), arrived, c, w);
      if Exact(c.payload) {
        LevelQueued(states[|calls|], m, c.priority, PacketOf(c));
      }
    }
  }

  lemma FramesSized(cr: Crypto, s: Side, protocol: nat, w: Writer, cuts: seq<Tagged>)
    requires WriterOk(w) && protocol < 0x1_0000 && CanRun(w, cuts)
    ensures forall io :: io in AllSent(cr, s, Plains(protocol, w, cuts)).1 ==> |io| >= 3 * BLOCK
  {
    PlainsOk(protocol, w, cuts);
    RunLockstep(cr, s, Plains(protocol, w, cuts));
  }

  /** What a call of mux puts on the wire, read at the other end: the states of both coders before
      and after it, what the reader held and holds, and what came out. */
  ghost predicate Transferred(cr: Crypto, plains: seq<Plain>, egress: Side, ingress: Side, m: Incomplete,
      egress': Side, ingress': Side, m': Incomplete, ok: bool, out: seq<seq<Packet>>)
  {
    var (e, frames) := AllSent(cr, egress, plains);
    && egress' == e
    && (forall io :: io in frames ==> |io| >= 3 * BLOCK)
    && var (t, seen) := AllRead(cr, ingress, frames);
    seen.Some? ==>
      var (left, packets) := DemuxAll(m, seen.value);
      packets.Some? ==> ok && ingress' == t && m' == left && out == packets.value
  }

  lemma GoingSent(calls: seq<Call>, states: seq<Writer>, runs: seq<seq<Tagged>>, arrived: seq<seq<Packet>>,
                  ok: bool, s: Side, t: Side, m: Incomplete, c: Call, cuts: seq<Tagged>, cr: Crypto, protocol: nat,
                  s': Side, t': Side, m': Incomplete, ok': bool, out: seq<seq<Packet>>)
    requires Trace(calls, states, runs) && Going(calls, states, runs, arrived, ok, s, t, m)
    requires c.Mux? && CanRun(states[|calls|], cuts) && protocol < 0x1_0000
    requires ok ==> Transferred(cr, Plains(protocol, states[|calls|], cuts), s, t, m, s', t', m', ok', out)
    ensures Going(calls + [c], states + [AfterRun(states[|calls|], cuts)], runs + [cuts], arrived + out,
                  ok', s', t', m')
  {
    hide StepOf, Accounted, AllCuts, AllSent, AllRead, DemuxAll, Deliverable, Plains, AfterRun, CanRun, InFlight,
         WriterOk, Distinct, Delivered;
    var w := states[|calls|];
    if Fine(calls + [c], states + [AfterRun(w, cuts)], runs + [cuts]) {
      FineBefore(calls, states, runs, c, cuts, AfterRun(w, cuts));
      EndToEnd(cr, s, protocol, w, cuts);
      LevelSent(w, cuts);
      AccountedSent(calls, w, AllCuts(runs), arrived, c, cuts, out);
    }
  }

  /** One call of mux, and the frames read at the other end as long as none was refused there. */
  method Transfer(writer: RLPXFrameWriter, sender: RLPXFrameCoder, receiver: RLPXFrameCoder, reader: RLPXFrameReader,
      size: nat, live: bool)
    returns (fits: bool, ok: bool, out: seq<seq<Packet>>, ghost cuts: seq<Tagged>)
    requires writer.Valid() && sender != receiver && sender.cr == receiver.cr && size < TWO32
    modifies writer, writer.high, writer.low, reader
    modifies sender`encUsed, sender`egressMac, receiver`decUsed, receiver`ingressMac
    ensures writer.Valid() && CanRun(old(writer.View()), cuts) && writer.View() == AfterRun(old(writer.View()), cuts)
    ensures if fits then Filled(old(writer.View()), cuts, size) else Overrun(old(writer.View()), cuts, size)
    ensures fits && live ==>
              Transferred(sender.cr, Plains(writer.protocol, old(writer.View()), cuts),
                          old(sender.Egress()), old(receiver.Ingress()), old(reader.incomplete),
                          sender.Egress(), receiver.Ingress(), reader.incomplete, ok, out)
  {
    hide AllSent, AllRead, DemuxAll, Plains, SpaceLeft, Filled, CompletedRun, TotalSize, AfterRun, CanRun, WriterOk,
         Overrun;
    ghost var w, s := writer.View(), sender.Egress();
    var count, frames;
    count, frames, fits, cuts := writer.Mux(sender, size);
    ok, out := false, [];
    if fits && live {
      FramesSized(sender.cr, s, writer.protocol, w, cuts);
      ok, out := ReadAll(receiver, reader, frames);
    }
  }

  /** The same for the one trace of the first `done` calls. */
  ghost predicate Delivers(calls: seq<Call>, done: nat, ok: bool, arrived: seq<seq<Packet>>)
  {
    && done <= |calls|
    && (exists states, runs :: Trace(calls[..done], states, runs))
    && forall states, runs :: Trace(calls[..done], states, runs) ==>
         Result(calls[..done], if done < |calls| then Some(calls[done]) else None, ok, arrived, states, runs)
  }

  lemma OneTrace(calls: seq<Call>, done: nat, ok: bool, arrived: seq<seq<Packet>>,
                 states: seq<Writer>, runs: seq<seq<Tagged>>)
    requires done <= |calls| && Trace(calls[..done], states, runs)
    requires Result(calls[..done], if done < |calls| then Some(calls[done]) else None, ok, arrived, states, runs)
    ensures Delivers(calls, done, ok, arrived)
  {
    hide Trace, Result;
    forall states', runs' | Trace(calls[..done], states', runs')
      ensures states' == states && runs' == runs
    {
      TraceUnique(calls[..done], states, runs, states', runs');
    }
  }

  /** Runs the calls at the sending end and reads what arrives at the other. */
  method Session(sender: RLPXFrameCoder, receiver: RLPXFrameCoder, protocol: nat, calls: seq<Call>)
    returns (done: nat, ok: bool, arrived: seq<seq<Packet>>)
    requires protocol < 0x1_0000 && sender != receiver && sender.cr == receiver.cr
    requires sender.Egress() == receiver.Ingress()
    requires forall c :: c in calls && c.Mux? ==> c.size < TWO32
    modifies sender`encUsed, sender`egressMac, receiver`decUsed, receiver`ingressMac
    ensures Delivers(calls, done, ok, arrived)
  {
    hide Fine, Going, Result, Delivers, Level, Exact, Overrun, Filled, Transferred, StepOf, AfterRun, CanRun, WriterOk,
         InFlight, Plains, RLPXFrameWriter.Valid;
    var writer := new RLPXFrameWriter(protocol);
    var reader := new RLPXFrameReader();
    ghost var states, runs: seq<seq<Tagged>> := [Idle()], [];
    done, ok, arrived := 0, true, [];
    GoingStarts(sender.Egress());
    assert calls[..0] == [];
    while done < |calls|
      invariant done <= |calls| && Trace(calls[..done], states, runs)
      invariant writer.Valid() && writer.protocol == protocol && writer.View() == states[done]
      invariant fresh(writer) && fresh(writer.high) && fresh(writer.low) && fresh(reader)
      invariant Going(calls[..done], states, runs, arrived, ok, sender.Egress(), receiver.Ingress(), reader.incomplete)
    {
      ghost var c, w, s, t, m := calls[done], writer.View(), sender.Egress(), receiver.Ingress(), reader.incomplete;
      ghost var before := calls[..done];
      assert calls[..done + 1] == before + [c] && c in calls;
      if calls[done].Enque? {
        writer.Enque(calls[done].packetType, calls[done].payload, calls[done].priority);
        EnqueStep(w, c, writer.View());
        TraceMore(before, states, runs, c, [], writer.View());
        GoingQueued(before, states, runs, arrived, ok, s, t, m, c, writer.View());
        states, runs := states + [writer.View()], runs + [[]];
      } else {
        var fits, still, out;
        ghost var cuts;
        fits, still, out, cuts := Transfer(writer, sender, receiver, reader, calls[done].size, ok);
        if !fits {
          GoingMeans(before, Some(c), states, runs, arrived, ok, s, t, m);
          OneTrace(calls, done, ok, arrived, states, runs);
          return;
        }
        MuxStep(w, c, cuts);
        TraceMore(before, states, runs, c, cuts, writer.View());
        GoingSent(before, states, runs, arrived, ok, s, t, m, c, cuts, sender.cr, protocol,
          sender.Egress(), receiver.Ingress(), reader.incomplete, still, out);
        states, runs, arrived, ok := states + [writer.View()], runs + [cuts], arrived + out, still;
      }
      done := done + 1;
    }
    GoingMeans(calls[..done], None, states, runs, arrived, ok, sender.Egress(), receiver.Ingress(), reader.incomplete);
    OneTrace(calls, done, ok, arrived, states, runs);
  }

  /** A connection: both ends set up with mirrored arguments, and a session in either direction. */
  method Connection(cr: Crypto, secretA: bytes, secretB: bytes, nonceA: Digest, nonceB: Digest, ack: bytes, auth: bytes,
      fromOriginator: bool, protocol: nat, calls: seq<Call>)
    returns (done: nat, ok: bool, arrived: seq<seq<Packet>>)
    requires Commutes(cr) && protocol < 0x1_0000
    requires forall c :: c in calls && c.Mux? ==> c.size < TWO32
    ensures Delivers(calls, done, ok, arrived)
  {
    hide Delivers, Commutes, SetUp;
    var a := new RLPXFrameCoder(cr, true, cr.publicOf(secretB), nonceB, secretA, nonceA, ack, auth);
    var b := new RLPXFrameCoder(cr, false, cr.publicOf(secretA), nonceA, secretB, nonceB, ack, auth);
    MirroredSetUp(cr, secretA, secretB, nonceA, nonceB, ack, auth);
    if fromOriginator {
      done, ok, arrived := Session(a, b, protocol, calls);
    } else {
      done, ok, arrived := Session(b, a, protocol, calls);
    }
  }

  // ---------------------------------------------------------------- few segmented packets

  /** Packets are shorter than 4 GB, and every frame is kept. */
  ghost predicate StepKept(w: Writer, c: Call, cuts: seq<Tagged>)
  {
    match c
    case Enque(_, payload, _) => |payload| + 2 < TWO32
    case Mux(_) => CanRun(w, cuts) && AllKept(w, cuts)
  }

  /** How recent the numbers in flight are after `age` starts. */
  ghost predicate Young(w: Writer, age: nat)
  {
    WriterOk(w) && Distinct(w) && Sized(w) && Recent(w, age)
  }

  lemma YoungStarts()
    ensures Young(Idle(), 0)
  {
  }

  lemma YoungQueued(w: Writer, age: nat, c: Call)
    requires Young(w, age) && c.Enque? && StepKept(w, c, []) && Exact(c.payload)
    ensures Young(Joining(w, c.priority, PacketOf(c)), age)
  {
    hide WriterOk, Distinct, Sized, Recent, Sendable, Wire, Joining, PacketOf, Exact;
    var p := PacketOf(c);
    EnqueStep(w, c, Joining(w, c.priority, p));
    ShortPacket(c);
    JoiningOk(w, c.priority, p);
    JoiningRecent(w, c.priority, p, age);
  }

  lemma ShortPacket(c: Call)
    requires c.Enque? && |c.payload| + 2 < TWO32 && Sendable(PacketOf(c))
    ensures |Wire(PacketOf(c))| < TWO32
  {
    KindSize(PacketOf(c));
  }

  lemma {:induction false} YoungSent(w: Writer, cuts: seq<Tagged>, age: nat)
    requires Young(w, age) && CanRun(w, cuts) && age + Starts(cuts) < SEQUENCES
    ensures Young(AfterRun(w, cuts), age + Starts(cuts))
    decreases |cuts|
  {
    hide WriterOk, Distinct, Sized, Recent, CanCut, Emitted, Numbered;
    if cuts != [] {
      StepRecent(w, cuts[0], age);
      ProgressOk(w, cuts[0]);
      StaysDistinct(w, cuts[0]);
      YoungSent(Emitted(w, cuts[0]), cuts[1..], if cuts[0].cut.Start? then age + 1 else age);
    }
  }

  lemma {:induction false} StartsSum(a: seq<Tagged>, b: seq<Tagged>)
    ensures Starts(a + b) == Starts(a) + Starts(b)
  {
    if a == [] {
      assert [] + b == b;
    } else {
      assert (a + b)[0] == a[0] && (a + b)[1..] == a[1..] + b;
      StartsSum(a[1..], b);
    }
  }

  /** A session whose frames are kept and that segments less than 65536 packets is fine, whatever
      wraps around. */
  lemma {:induction false} FewStartsFine(calls: seq<Call>, states: seq<Writer>, runs: seq<seq<Tagged>>)
    requires Trace(calls, states, runs)
    requires forall i :: 0 <= i < |calls| ==> StepKept(states[i], calls[i], runs[i])
    requires Starts(AllCuts(runs)) < SEQUENCES
    ensures Fine(calls, states, runs) && Young(states[|calls|], Starts(AllCuts(runs)))
    decreases |calls|
  {
    hide Young, StepOf, StepKept, StepDeliverable;
    if calls == [] {
      YoungStarts();
    } else {
      var k := |calls| - 1;
      var states', runs' := states[..k + 1], runs[..k];
      TraceBefore(calls, states, runs);
      forall i | 0 <= i < k
        ensures StepKept(states'[i], calls[..k][i], runs'[i])
      {
        assert StepKept(states[i], calls[i], runs[i]);
      }
      StartsSum(AllCuts(runs'), runs[k]);
      FewStartsFine(calls[..k], states', runs');
      FewStartsStep(states[k], calls[k], runs[k], states[k + 1], Starts(AllCuts(runs')));
      forall i | 0 <= i < |calls|
        ensures StepDeliverable(states[i], calls[i], runs[i])
      {
        if i < k {
          assert StepDeliverable(states'[i], calls[..k][i], runs'[i]);
        }
      }
    }
  }

  lemma FewStartsStep(w: Writer, c: Call, cuts: seq<Tagged>, w': Writer, age: nat)
    requires Young(w, age) && StepOf(w, c, cuts, w') && StepKept(w, c, cuts) && age + Starts(cuts) < SEQUENCES
    ensures StepDeliverable(w, c, cuts) && Young(w', age + Starts(cuts))
  {
    hide WriterOk, Distinct, Sized, Recent, Exact, Joining, PacketOf, CanRun, AfterRun, Deliverable, AllKept;
    if c.Mux? {
      FewStartsDeliverable(w, cuts, age);
      YoungSent(w, cuts, age);
    } else if Exact(c.payload) {
      YoungQueued(w, age, c);
    }
  }
}
