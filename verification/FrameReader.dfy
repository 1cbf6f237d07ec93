/** The RLPx frame reader: takes frames apart into packets, and puts segmented packets together.
    What the writer sends, the reader gets back, exactly under the conditions given here. */
module FrameReader {
  import opened Bytes
  import opened Rlp
  import opened RlpStream
  import opened RlpView
  import opened RlpxPacket
  import opened FrameCoder
  import opened FrameWriter

  const TWO32: nat := 0x1_0000_0000

  /** Packets that are not complete, by sequence number, and the bytes that each still misses. */
  type Incomplete = map<nat, (Packet, nat)>

  function FromBytes(b: bytes): Packet
  {
    Packet(NextRlp(b), b[|NextRlp(b)|..])
  }

  /** What an unfinished packet becomes when it is inserted; a present one stays. */
  function Inserted(m: Incomplete, sequence: nat, p: Packet, remaining: nat): Incomplete
  {
    if sequence in m then m else m[sequence := (p, remaining)]
  }

  /** The loop over a buffer: packets one after the other; a frame of a sequence holds only one.
      None where the source throws. */
  function Parsed(m: Incomplete, info: FrameInfo, buffer: bytes, ret: seq<Packet>): (Incomplete, Option<seq<Packet>>)
    decreases |buffer|
  {
    if buffer == [] then (m, Some(ret))
    else
      var kind := NextRlp(buffer);
      if kind == [] then (m, Some(ret))
      else
        var rest := buffer[|kind|..];
        var data := if info.multiFrame then rest else NextRlp(rest);
        var p := Appended(FromBytes(kind), data);
        var remaining := (info.totalLength - |kind| - |data|) % TWO32;
        if IsValid(p) then Parsed(m, info, rest[|data|..], ret + [p])
        else if info.multiFrame && remaining > 0 then
          Parsed(Inserted(m, info.sequenceId, p, remaining), info, rest[|data|..], ret)
        else (m, None)
  }

  /** demux on a frame that passed its check. */
  function Demuxed(m: Incomplete, info: FrameInfo, frame: bytes): (Incomplete, Option<seq<Packet>>)
  {
    if frame == [] || (info.multiFrame && info.totalLength > 0 && |frame| > info.totalLength) then (m, Some([]))
    else
      var trailer := BLOCK + info.padding;
      var buffer := if |frame| >= trailer then frame[..|frame| - trailer] else [];
      if info.multiFrame && info.sequenceId in m then
        var (p, missing) := m[info.sequenceId];
        if info.totalLength == 0 && 0 < |buffer| <= missing then
          var p', left := Appended(p, buffer), missing - |buffer|;
          if left > 0 then (m[info.sequenceId := (p', left)], Some([]))
          else (m - {info.sequenceId}, if IsValid(p') then Some([p']) else None)
        else Parsed(m - {info.sequenceId}, info, buffer, [])
      else Parsed(m, info, buffer, [])
  }

  datatype Outcome = DecryptFailed | InvalidPacket | Packets(packets: seq<Packet>)

  class RLPXFrameReader {
    var incomplete: Incomplete

    constructor ()
      ensures incomplete == map[]
    {
      incomplete := map[];
    }

    method Demux(coder: RLPXFrameCoder, info: FrameInfo, frame: array<byte>) returns (r: Outcome)
      requires frame.Length >= BLOCK
      modifies this, coder`decUsed, coder`ingressMac, frame
      ensures var (s, body) := BodyOpened(coder.cr, old(coder.Ingress()), old(frame[..]));
              && coder.Ingress() == s
              && if body.None? then r == DecryptFailed && incomplete == old(incomplete)
                 else var (m, packets) := Demuxed(old(incomplete), info, body.value);
                      incomplete == m && r == if packets.None? then InvalidPacket else Packets(packets.value)
    {
      hide BodyOpened, IsValid, Parsed;
      ghost var (s, plain) := BodyOpened(coder.cr, coder.Ingress(), frame[..]);
      var ok := coder.AuthAndDecryptFrame(frame);
      assert ok == plain.Some? && coder.Ingress() == s;
      if !ok {
        return DecryptFailed;
      }
      if info.multiFrame && info.totalLength > 0 && frame.Length > info.totalLength {
        return Packets([]);
      }
      ghost var body := frame[..];
      var trailer := BLOCK + info.padding;
      var buffer := if frame.Length >= trailer then frame[..frame.Length - trailer] else [];
      assert frame.Length >= trailer ==> frame[..frame.Length - trailer] == body[..|body| - trailer];
      if info.multiFrame && info.sequenceId in incomplete {
        var (p, remaining) := incomplete[info.sequenceId];
        if info.totalLength == 0 && |buffer| > 0 && |buffer| <= remaining {
          remaining := remaining - |buffer|;
          p := Appended(p, buffer);
          incomplete := incomplete[info.sequenceId := (p, remaining)];
          var ret := [];
          if IsValid(p) && remaining == 0 {
            ret := [p];
          }
          if remaining == 0 {
            incomplete := incomplete - {info.sequenceId};
          }
          if ret == [] && remaining == 0 {
            return InvalidPacket;
          }
          return Packets(ret);
        }
        incomplete := incomplete - {info.sequenceId};
      }
      r := Parse(info, buffer);
    }

    method Parse(info: FrameInfo, whole: bytes) returns (r: Outcome)
      modifies this
      ensures var (m, packets) := Parsed(old(incomplete), info, whole, []);
              incomplete == m && r == if packets.None? then InvalidPacket else Packets(packets.value)
    {
      hide IsValid, NextRlp;
      var buffer, ret := whole, [];
      while |buffer| > 0
        invariant Parsed(incomplete, info, buffer, ret) == Parsed(old(incomplete), info, whole, [])
        decreases |buffer|
      {
        var kind := NextRlp(buffer);
        if kind == [] {
          break;
        }
        NextPart(buffer);
        buffer := buffer[|kind|..];
        NextPart(buffer);
        var packet := if info.multiFrame then buffer else NextRlp(buffer);
        buffer := buffer[|packet|..];
        var p := FromBytes(kind);
        if packet != [] {
          p := Appended(p, packet);
        }
        assert FromBytes(kind).data + [] == FromBytes(kind).data;
        var remaining := (info.totalLength - |kind| - |packet|) % TWO32;
        if IsValid(p) {
          ret := ret + [p];
        } else if info.multiFrame && remaining > 0 {
          incomplete := Inserted(incomplete, info.sequenceId, p, remaining);
        } else {
          return InvalidPacket;
        }
      }
      return Packets(ret);
    }
  }

  lemma NextPart(b: bytes)
    ensures |NextRlp(b)| <= |b|
  {
  }

  // ---------------------------------------------------------------- frames of whole packets

  /** Every packet but the last one has data. */
  predicate DataGiven(q: seq<Packet>)
  {
    forall i :: 0 <= i < |q| - 1 ==> q[i].data != []
  }

  /** One packet in front of anything; without data it takes the next item for its own. */
  lemma FirstParsed(m: Incomplete, info: FrameInfo, p: Packet, rest: bytes, ret: seq<Packet>)
    requires !info.multiFrame && Sendable(p)
    requires p.data != [] || rest == []
    ensures Parsed(m, info, Wire(p) + rest, ret) == Parsed(m, info, rest, ret + [p])
  {
    hide ActualSize, NextRlp;
    NextFound(p.kind, p.data + rest);
    Concat3(p.kind, p.data, rest);
    var b := Wire(p) + rest;
    assert b[|p.kind|..] == p.data + rest;
    KindAlone(p.kind);
    if p.data != [] {
      NextFound(p.data, rest);
    } else {
      NextOfNothing();
      assert p.data + rest == [];
    }
    assert Appended(FromBytes(p.kind), p.data) == p;
    assert b[|p.kind|..][|p.data|..] == rest;
  }

  lemma KindAlone(kind: bytes)
    requires kind != [] && Exact(kind)
    ensures FromBytes(kind) == Packet(kind, [])
  {
    NextFound(kind, []);
    assert kind + [] == kind;
  }

  lemma NextOfNothing()
    ensures NextRlp([]) == []
  {
  }

  lemma NothingParsed(m: Incomplete, info: FrameInfo, ret: seq<Packet>)
    ensures Parsed(m, info, [], ret) == (m, Some(ret))
  {
  }

  lemma TailGiven(q: seq<Packet>)
    requires q != []
    ensures DataGiven(q) <==> DataGiven(q[1..]) && (|q| > 1 ==> q[0].data != [])
  {
    assert forall i :: 0 <= i < |q[1..]| ==> q[1..][i] == q[i + 1];
    if DataGiven(q[1..]) && (|q| > 1 ==> q[0].data != []) {
      forall i | 0 <= i < |q| - 1
        ensures q[i].data != []
      {
        assert i > 0 ==> q[i] == q[1..][i - 1];
      }
    }
  }

  lemma {:induction false} SeveralParsed(m: Incomplete, info: FrameInfo, q: seq<Packet>, ret: seq<Packet>)
    requires !info.multiFrame && (forall p :: p in q ==> Sendable(p)) && DataGiven(q)
    ensures Parsed(m, info, WireAll(q), ret) == (m, Some(ret + q))
    decreases |q|
  {
    hide Sendable, Parsed, DataGiven, Wire;
    if q == [] {
      NothingParsed(m, info, ret);
      assert ret + q == ret;
    } else {
      assert q[0] in q;
      assert |q| == 1 ==> WireAll(q[1..]) == [];
      TailGiven(q);
      FirstParsed(m, info, q[0], WireAll(q[1..]), ret);
      SeveralParsed(m, info, q[1..], ret + [q[0]]);
      assert ret + [q[0]] + q[1..] == ret + q;
    }
  }

  /** What was parsed stays. */
  lemma {:induction false} ParsedKeeps(m: Incomplete, info: FrameInfo, b: bytes, ret: seq<Packet>)
    ensures var (_, r) := Parsed(m, info, b, ret); r.Some? ==> |ret| <= |r.value| && r.value[..|ret|] == ret
    decreases |b|
  {
    hide IsValid, NextRlp, Appended, FromBytes, Inserted;
    if b != [] && NextRlp(b) != [] {
      var kind := NextRlp(b);
      NextPart(b);
      var rest := b[|kind|..];
      NextPart(rest);
      var data := if info.multiFrame then rest else NextRlp(rest);
      var p := Appended(FromBytes(kind), data);
      var remaining := (info.totalLength - |kind| - |data|) % TWO32;
      ParsedKeeps(m, info, rest[|data|..], ret + [p]);
      ParsedKeeps(Inserted(m, info.sequenceId, p, remaining), info, rest[|data|..], ret);
      KeptMore(ret, p, Parsed(m, info, rest[|data|..], ret + [p]).1);
    }
  }

  lemma KeptMore(ret: seq<Packet>, p: Packet, r: Option<seq<Packet>>)
    requires r.Some? ==> |ret| < |r.value| && r.value[..|ret| + 1] == ret + [p]
    ensures r.Some? ==> r.value[..|ret|] == ret
  {
    if r.Some? {
      assert r.value[..|ret|] == r.value[..|ret| + 1][..|ret|];
    }
  }

  /** A packet without data in front of another: it comes out with that one's type as its data. */
  lemma EmptyDataMisread(m: Incomplete, info: FrameInfo, p: Packet, next: Packet, rest: bytes, ret: seq<Packet>)
    requires !info.multiFrame && Sendable(p) && Sendable(next) && p.data == []
    ensures Parsed(m, info, Wire(p) + (Wire(next) + rest), ret) ==
            Parsed(m, info, next.data + rest, ret + [Packet(p.kind, next.kind)])
  {
    hide ActualSize, NextRlp;
    var b := Wire(p) + (Wire(next) + rest);
    assert b == p.kind + (next.kind + (next.data + rest));
    NextFound(p.kind, next.kind + (next.data + rest));
    NextFound(next.kind, next.data + rest);
    KindAlone(p.kind);
    assert b[|p.kind|..] == next.kind + (next.data + rest);
    assert b[|p.kind|..][|next.kind|..] == next.data + rest;
    assert Appended(FromBytes(p.kind), next.kind) == Packet(p.kind, next.kind);
  }

  /** A frame of whole packets comes back as it was, exactly when all but the last have data. */
  lemma {:induction false} SeveralExactly(m: Incomplete, info: FrameInfo, q: seq<Packet>, ret: seq<Packet>)
    requires !info.multiFrame && (forall p :: p in q ==> Sendable(p))
    ensures Parsed(m, info, WireAll(q), ret) == (m, Some(ret + q)) <==> DataGiven(q)
    decreases |q|
  {
    hide Sendable, Parsed, DataGiven, Wire;
    if DataGiven(q) {
      SeveralParsed(m, info, q, ret);
    } else {
      ManyPackets(q);
      assert q[0] in q && q[1] in q;
      TailGiven(q);
      if q[0].data == [] {
        assert q[1..][1..] == q[2..] && q[1..][0] == q[1];
        EmptyDataMisread(m, info, q[0], q[1], WireAll(q[2..]), ret);
        var wrong := Packet(q[0].kind, q[1].kind);
        ParsedKeeps(m, info, q[1].data + WireAll(q[2..]), ret + [wrong]);
        WrongPacket(q, ret, wrong);
      } else {
        FirstParsed(m, info, q[0], WireAll(q[1..]), ret);
        SeveralExactly(m, info, q[1..], ret + [q[0]]);
        assert ret + [q[0]] + q[1..] == ret + q;
      }
    }
  }

  lemma ManyPackets(q: seq<Packet>)
    requires !DataGiven(q)
    ensures |q| > 1
  {
  }

  lemma WrongPacket(q: seq<Packet>, ret: seq<Packet>, wrong: Packet)
    requires q != [] && |q| > 1 && Sendable(q[1]) && q[0].data == [] && wrong == Packet(q[0].kind, q[1].kind)
    ensures (ret + q)[..|ret + [wrong]|] != ret + [wrong]
  {
    assert (ret + q)[|ret|] == q[0] && (ret + [wrong])[|ret|] == wrong;
  }

  // ---------------------------------------------------------------- any frames at all

  /** The size that the first frame of a packet announced. */
  function Announced(part: (Packet, nat)): nat
  {
    |part.0.kind| + |part.0.data| + part.1
  }

  function Buffer(info: FrameInfo, frame: bytes): bytes
  {
    if |frame| >= 16 + info.padding then frame[..|frame| - 16 - info.padding] else []
  }

  /** The frame is ignored: it is longer than the packet that it announces. */
  predicate TooLarge(info: FrameInfo, frame: bytes)
  {
    frame == [] || (info.multiFrame && 0 < info.totalLength < |frame|)
  }

  /** A part that was held and has grown, of a packet of the same size. */
  ghost predicate Grown(m: Incomplete, m': Incomplete, k: nat, b: bytes)
    requires k in m'
  {
    && k in m && m'[k].0.kind == m[k].0.kind && m'[k].0.data == m[k].0.data + b
    && b != [] && m'[k].1 > 0 && Announced(m'[k]) == Announced(m[k])
  }

  /** A part that is new, of a packet of the size that the frame announces. */
  ghost predicate Begun(info: FrameInfo, m': Incomplete, k: nat, b: bytes)
    requires k in m'
  {
    Wire(m'[k].0) == b && 0 < m'[k].1 < TWO32 && Announced(m'[k]) % TWO32 == info.totalLength % TWO32
  }

  /** Whatever frame arrives, only the part with its number changes: it grows, begins anew, goes or, for a
      frame that is too large, stays. A packet that comes out is valid; one of several frames has the size
      that was announced, and its bytes are those of its frames in order. */
  lemma AnyFrame(m: Incomplete, info: FrameInfo, frame: bytes)
    ensures var (m', r) := Demuxed(m, info, frame); var k, b := info.sequenceId, Buffer(info, frame);
            && (TooLarge(info, frame) ==> m' == m && r == Some([]))
            && (!info.multiFrame ==> m' == m)
            && (forall j :: j != k ==> (j in m' <==> j in m) && (j in m ==> m'[j] == m[j]))
            && (!TooLarge(info, frame) && info.multiFrame && k in m' ==> Grown(m, m', k, b) || Begun(info, m', k, b))
            && (r.Some? ==> forall p :: p in r.value ==> IsValid(p))
            && (info.multiFrame && r.Some? && r.value != [] ==>
                  && |r.value| == 1 && k !in m'
                  && (Wire(r.value[0]) == b ||
                      (k in m && Wire(r.value[0]) == Wire(m[k].0) + b && |b| == m[k].1)))
  {
    hide IsValid, NextRlp, Parsed;
    if !TooLarge(info, frame) {
      var k, b := info.sequenceId, Buffer(info, frame);
      if !info.multiFrame {
        WholeParsed(m, info, b, []);
      } else if k in m && info.totalLength == 0 && 0 < |b| <= m[k].1 {
        assert Wire(Appended(m[k].0, b)) == Wire(m[k].0) + b;
      } else {
        BeginningParsed(if k in m then m - {k} else m, info, b);
      }
    }
  }

  lemma {:induction false} WholeParsed(m: Incomplete, info: FrameInfo, b: bytes, ret: seq<Packet>)
    requires !info.multiFrame && forall p :: p in ret ==> IsValid(p)
    ensures var (m', r) := Parsed(m, info, b, ret); m' == m && (r.Some? ==> forall p :: p in r.value ==> IsValid(p))
    decreases |b|
  {
    hide IsValid, NextRlp, Appended, FromBytes;
    if b != [] && NextRlp(b) != [] {
      var kind := NextRlp(b);
      NextPart(b);
      var rest := b[|kind|..];
      NextPart(rest);
      var data := NextRlp(rest);
      var p := Appended(FromBytes(kind), data);
      if IsValid(p) {
        WholeParsed(m, info, rest[|data|..], ret + [p]);
      }
    }
  }

  /** A frame of a sequence whose number is not known: one packet, or the beginning of one. */
  lemma BeginningParsed(m: Incomplete, info: FrameInfo, b: bytes)
    requires info.multiFrame && info.sequenceId !in m
    ensures var (m', r) := Parsed(m, info, b, []); var k := info.sequenceId;
            && (forall j :: j != k ==> (j in m' <==> j in m) && (j in m ==> m'[j] == m[j]))
            && (k in m' ==> Begun(info, m', k, b) && r == Some([]))
            && (r.Some? && r.value != [] ==> |r.value| == 1 && IsValid(r.value[0]) && Wire(r.value[0]) == b)
  {
    hide IsValid, NextRlp, Parsed;
    var kind := NextRlp(b);
    NextPart(b);
    NextPrefix(b);
    if b == [] || kind == [] {
      NothingNext(m, info, b);
    } else {
      var data := b[|kind|..];
      var p := Appended(FromBytes(kind), data);
      AppendedWire(kind, data);
      assert b == kind + data;
      OneParsed(m, info, b);
    }
  }

  lemma NothingNext(m: Incomplete, info: FrameInfo, b: bytes)
    requires b == [] || NextRlp(b) == []
    ensures Parsed(m, info, b, []) == (m, Some([]))
  {
  }

  lemma AppendedWire(kind: bytes, data: bytes)
    ensures Wire(Appended(FromBytes(kind), data)) == kind + data
  {
    hide NextRlp;
    NextPart(kind);
    NextPrefix(kind);
  }

  lemma NextPrefix(b: bytes)
    ensures |NextRlp(b)| <= |b| && NextRlp(b) + b[|NextRlp(b)|..] == b
  {
  }

  lemma OneParsed(m: Incomplete, info: FrameInfo, b: bytes)
    requires info.multiFrame && info.sequenceId !in m && b != [] && NextRlp(b) != []
    ensures |NextRlp(b)| <= |b|
    ensures var kind := NextRlp(b); var data := b[|kind|..]; var p := Appended(FromBytes(kind), data);
            var remaining := (info.totalLength - |b|) % TWO32;
            Parsed(m, info, b, []) ==
            if IsValid(p) then (m, Some([p]))
            else if remaining > 0 then (m[info.sequenceId := (p, remaining)], Some([]))
            else (m, None)
  {
    hide IsValid, NextRlp, Appended, FromBytes;
    NextPart(b);
    var kind := NextRlp(b);
    var data := b[|kind|..];
    assert data[|data|..] == [];
    assert [] + [Appended(FromBytes(kind), data)] == [Appended(FromBytes(kind), data)];
  }

  /** The size of a beginning is that of the whole item, or unknown. */
  lemma SizeOfBeginning(b: bytes, n: nat)
    requires Exact(b) && 0 < n < |b|
    ensures ActualSize(b[..n]) == None || ActualSize(b[..n]) == Some(|b|)
  {
    var c := b[..n];
    if LengthSize(c) > 0 && |c| > LengthSize(c) {
      assert c[1..1 + LengthSize(c)] == b[1..1 + LengthSize(b)];
    }
  }

  /** An unsegmented frame that ends within the data of a packet is refused, exactly if it holds the whole
      header of the data; otherwise the packet comes out without data. */
  lemma CutOffExactly(m: Incomplete, info: FrameInfo, p: Packet, n: nat, ret: seq<Packet>)
    requires !info.multiFrame && Sendable(p) && 0 < n < |p.data|
    ensures Parsed(m, info, p.kind + p.data[..n], ret) ==
            if ActualSize(p.data[..n]).Some? then (m, None) else (m, Some(ret + [Packet(p.kind, [])]))
  {
    hide ActualSize, NextRlp, Parsed;
    var part := p.data[..n];
    var b := p.kind + part;
    NextFound(p.kind, part);
    KindAlone(p.kind);
    SizeOfBeginning(p.data, n);
    BeginningNotExact(p.data, n);
    assert b[|p.kind|..] == part;
    if ActualSize(part).Some? {
      assert NextRlp(part) == part by {
        NextOfSize(part);
      }
      assert part[|part|..] == [];
      ParsedOnce(m, info, b, ret);
      AppendedTo(p.kind, part);
    } else {
      NextOfSize(part);
      ParsedOnce(m, info, b, ret);
      AppendedTo(p.kind, []);
      assert part[0..] == part;
      ParsedNothing(m, info, part, ret + [Packet(p.kind, [])]);
      NoDataValid(p);
    }
  }

  lemma NoDataValid(p: Packet)
    requires Sendable(p)
    ensures IsValid(Packet(p.kind, []))
  {
  }

  lemma NextOfSize(b: bytes)
    ensures ActualSize(b) == None ==> NextRlp(b) == []
    ensures ActualSize(b).Some? && ActualSize(b).value >= |b| ==> NextRlp(b) == b
  {
    hide ActualSize;
    assert b[..|b|] == b;
  }

  lemma AppendedTo(kind: bytes, data: bytes)
    ensures Appended(Packet(kind, []), data) == Packet(kind, data)
  {
    assert [] + data == data;
  }

  lemma ParsedNothing(m: Incomplete, info: FrameInfo, b: bytes, ret: seq<Packet>)
    requires NextRlp(b) == []
    ensures Parsed(m, info, b, ret) == (m, Some(ret))
  {
  }

  /** One turn of the loop over an unsegmented frame. */
  lemma ParsedOnce(m: Incomplete, info: FrameInfo, b: bytes, ret: seq<Packet>)
    requires !info.multiFrame && b != [] && NextRlp(b) != []
    ensures |NextRlp(b)| <= |b|
    ensures var kind := NextRlp(b); var rest := b[|kind|..]; var data := NextRlp(rest);
            && |data| <= |rest|
            && var p := Appended(FromBytes(kind), data);
               Parsed(m, info, b, ret) ==
               if IsValid(p) then Parsed(m, info, rest[|data|..], ret + [p]) else (m, None)
  {
    hide IsValid, NextRlp, Appended, FromBytes;
    NextPart(b);
    NextPart(b[|NextRlp(b)|..]);
  }

  /** So any frames at all give valid packets only. */
  lemma {:induction false} AnyRun(m: Incomplete, seen: seq<(FrameInfo, bytes)>)
    ensures var (_, out) := DemuxAll(m, seen);
            out.Some? ==> |out.value| == |seen| && forall ps :: ps in out.value ==> forall p :: p in ps ==> IsValid(p)
    decreases |seen|
  {
    hide Demuxed, IsValid;
    if seen != [] {
      AnyFrame(m, seen[0].0, seen[0].1);
      AnyRun(Demuxed(m, seen[0].0, seen[0].1).0, seen[1..]);
    }
  }

  // ---------------------------------------------------------------- in step with the writer

  /** What the reader holds of a packet that is being written. */
  function Part(v: Queue): (Packet, nat)
    requires v.q != [] && v.remaining <= |v.q[0].data|
  {
    (Packet(v.q[0].kind, v.q[0].data[..|v.q[0].data| - v.remaining]), v.remaining)
  }

  function PartOf(v: Queue): Incomplete
  {
    if v.writing && v.q != [] && v.remaining <= |v.q[0].data| then map[v.sequence := Part(v)] else map[]
  }

  function InFlight(w: Writer): Incomplete
  {
    PartOf(w.high) + PartOf(w.low)
  }

  /** The sequence numbers in flight are different. */
  predicate Distinct(w: Writer)
  {
    w.high.writing && w.low.writing ==> w.high.sequence != w.low.sequence
  }

  /** The first frame of a packet is not longer, with padding and tag, than the whole packet; packets
      that share a frame have data, except for the last. */
  predicate Kept(w: Writer, t: Tagged)
    requires CanCut(Of(w, t.high), t.cut)
  {
    var v := Of(w, t.high);
    match t.cut
    case Several(count) => DataGiven(v.q[..count])
    case Start(_) =>
      var payload := CutPayload(v, t.cut);
      |payload| + Padding(|payload|) + BLOCK <= |Wire(v.q[0])|
    case More(_) => true
  }

  /** A packet that starts has a size of four bytes and a number that is not in flight. */
  predicate Numbered(w: Writer, t: Tagged)
    requires CanCut(Of(w, t.high), t.cut)
  {
    t.cut.Start? ==>
      && |Wire(Of(w, t.high).q[0])| < TWO32
      && (Of(w, !t.high).writing ==> Of(w, !t.high).sequence != NextSequence(w, t.cut))
  }

  /** The reader does what the writer did: it gives the completed packets, and holds the same parts. */
  ghost predicate InStep(w: Writer, t: Tagged, info: FrameInfo, body: bytes)
    requires CanCut(Of(w, t.high), t.cut)
  {
    Demuxed(InFlight(w), info, body) == (InFlight(Emitted(w, t)), Some(Completed(Of(w, t.high), t.cut)))
  }

  lemma BufferOfBody(payload: bytes, info: FrameInfo, body: bytes)
    requires |body| == |payload| + info.padding + BLOCK && body[..|payload|] == payload
    ensures body != [] && body[..|body| - (BLOCK + info.padding)] == payload
  {
  }

  lemma SeveralInStep(w: Writer, t: Tagged, f: Plain, info: FrameInfo, body: bytes)
    requires CanCut(Of(w, t.high), t.cut) && QueueOk(Of(w, t.high)) && t.cut.Several?
    requires f.payload == CutPayload(Of(w, t.high), t.cut) && |f.fields| == 1 && Seen(f, info, body)
    ensures InStep(w, t, info, body) <==> Kept(w, t)
  {
    hide Parsed, Sendable, WireAll, DataGiven;
    var q := Of(w, t.high).q[..t.cut.count];
    BufferOfBody(f.payload, info, body);
    assert forall p :: p in q ==> p in Of(w, t.high).q;
    SeveralExactly(InFlight(w), info, q, []);
    assert [] + q == q;
    SameInFlight(w, t);
  }

  lemma SameInFlight(w: Writer, t: Tagged)
    requires CanCut(Of(w, t.high), t.cut) && t.cut.Several?
    ensures InFlight(Emitted(w, t)) == InFlight(w)
  {
  }

  /** The first frame of a packet, in a reader that does not know its number. */
  lemma StartDemuxed(m: Incomplete, p: Packet, len: nat, f: Plain, info: FrameInfo, body: bytes)
    requires Sendable(p) && 0 < len < |p.data| && |Wire(p)| < TWO32
    requires f.payload == p.kind + p.data[..len] && |f.fields| == 3 && f.fields[2] == |Wire(p)| && Seen(f, info, body)
    requires f.fields[1] !in m
    ensures var part := (Packet(p.kind, p.data[..len]), |p.data| - len);
            Demuxed(m, info, body) == (if |body| > |Wire(p)| then m else m[f.fields[1] := part], Some([]))
  {
    hide ActualSize, NextRlp;
    BufferOfBody(f.payload, info, body);
    if |body| <= |Wire(p)| {
      var part := p.data[..len];
      NextFound(p.kind, part);
      KindAlone(p.kind);
      BeginningNotExact(p.data, len);
      assert f.payload[|p.kind|..] == part && part[len..] == [];
      assert Appended(Packet(p.kind, []), part) == Packet(p.kind, part);
      assert (info.totalLength - |p.kind| - len) % TWO32 == |p.data| - len;
      assert !IsValid(Packet(p.kind, part));
      var m' := Inserted(m, info.sequenceId, Packet(p.kind, part), |p.data| - len);
      NothingParsed(m', info, []);
      assert Parsed(m, info, f.payload, []) == (m', Some([]));
    }
  }

  lemma StartInStep(w: Writer, t: Tagged, f: Plain, info: FrameInfo, body: bytes)
    requires WriterOk(w) && CanCut(Of(w, t.high), t.cut) && t.cut.Start? && Distinct(w) && Numbered(w, t)
    requires f.payload == CutPayload(Of(w, t.high), t.cut) && Seen(f, info, body)
    requires |f.fields| == 3 && f.fields[1] == NextSequence(w, t.cut) && f.fields[2] == Size(Of(w, t.high).q[0]) % TWO32
    ensures InStep(w, t, info, body) <==> Kept(w, t)
  {
    hide Demuxed, Wire, Sendable, Size;
    var v := Of(w, t.high);
    assert v.q[0] in v.q;
    SizeOfSendable(v.q[0]);
    StartedInFlight(w, t);
    StartDemuxed(InFlight(w), v.q[0], t.cut.len, f, info, body);
  }

  lemma SizeOfSendable(p: Packet)
    requires Sendable(p)
    ensures Size(p) == |Wire(p)|
  {
    ValidSize(p);
  }

  lemma StartedInFlight(w: Writer, t: Tagged)
    requires WriterOk(w) && CanCut(Of(w, t.high), t.cut) && t.cut.Start? && Numbered(w, t)
    ensures NextSequence(w, t.cut) !in InFlight(w)
    ensures var v := Of(w, t.high);
            var part := (Packet(v.q[0].kind, v.q[0].data[..t.cut.len]), |v.q[0].data| - t.cut.len);
            InFlight(Emitted(w, t)) == InFlight(w)[NextSequence(w, t.cut) := part]
  {
    hide Sendable, Wire;
  }

  /** A further frame of a packet that the reader holds a part of. */
  lemma MoreDemuxed(m: Incomplete, v: Queue, len: nat, f: Plain, info: FrameInfo, body: bytes)
    requires QueueOk(v) && CanCut(v, More(len))
    requires v.sequence in m && m[v.sequence] == Part(v)
    requires f.payload == CutPayload(v, More(len)) && |f.fields| == 2 && f.fields[1] == v.sequence
    requires Seen(f, info, body)
    ensures Demuxed(m, info, body) ==
            if len == v.remaining then (m - {v.sequence}, Some([v.q[0]]))
            else (m[v.sequence := Part(AfterCut(v, More(len), 0))], Some([]))
  {
    hide IsValid, Parsed;
    BufferOfBody(f.payload, info, body);
    var d, at := v.q[0].data, |v.q[0].data| - v.remaining;
    assert d[..at] + d[at..at + len] == d[..at + len];
    assert v.q[0] in v.q;
    if len == v.remaining {
      assert d[..at + len] == d;
    }
  }

  lemma MoreInFlight(w: Writer, t: Tagged)
    requires WriterOk(w) && CanCut(Of(w, t.high), t.cut) && t.cut.More? && Distinct(w)
    ensures var v := Of(w, t.high);
            && v.sequence in InFlight(w) && InFlight(w)[v.sequence] == Part(v)
            && InFlight(Emitted(w, t)) ==
               if t.cut.len == v.remaining then InFlight(w) - {v.sequence}
               else InFlight(w)[v.sequence := Part(AfterCut(v, t.cut, 0))]
  {
    hide Sendable, Wire;
  }

  lemma MoreInStep(w: Writer, t: Tagged, f: Plain, info: FrameInfo, body: bytes)
    requires WriterOk(w) && CanCut(Of(w, t.high), t.cut) && t.cut.More? && Distinct(w)
    requires f.payload == CutPayload(Of(w, t.high), t.cut) && Seen(f, info, body)
    requires |f.fields| == 2 && f.fields[1] == Of(w, t.high).sequence
    ensures InStep(w, t, info, body)
  {
    hide Demuxed, Sendable, InFlight, Part;
    MoreInFlight(w, t);
    MoreDemuxed(InFlight(w), Of(w, t.high), t.cut.len, f, info, body);
  }

  /** With distinct numbers, the reader stays in step with the writer exactly when the frame is kept. */
  lemma InStepExactly(protocol: nat, w: Writer, t: Tagged, info: FrameInfo, body: bytes)
    requires WriterOk(w) && CanCut(Of(w, t.high), t.cut) && Distinct(w) && Numbered(w, t)
    requires Seen(CutPlain(protocol, w, t), info, body)
    ensures InStep(w, t, info, body) <==> Kept(w, t)
  {
    hide InStep, Seen, QueueOk, CutPayload, Size;
    var f := CutPlain(protocol, w, t);
    match t.cut
    case Several(_) => SeveralInStep(w, t, f, info, body);
    case Start(_) => StartInStep(w, t, f, info, body);
    case More(_) => MoreInStep(w, t, f, info, body);
  }

  lemma StaysDistinct(w: Writer, t: Tagged)
    requires WriterOk(w) && CanCut(Of(w, t.high), t.cut) && Distinct(w) && Numbered(w, t)
    ensures Distinct(Emitted(w, t))
  {
    hide Sendable, Wire;
  }

  // ---------------------------------------------------------------- whole runs

  predicate Deliverable(w: Writer, cuts: seq<Tagged>)
    requires CanRun(w, cuts)
    decreases |cuts|
  {
    cuts == [] || (Numbered(w, cuts[0]) && Kept(w, cuts[0]) && Deliverable(Emitted(w, cuts[0]), cuts[1..]))
  }

  function DemuxAll(m: Incomplete, seen: seq<(FrameInfo, bytes)>): (Incomplete, Option<seq<seq<Packet>>>)
    decreases |seen|
  {
    if seen == [] then (m, Some([]))
    else match Demuxed(m, seen[0].0, seen[0].1)
      case (m', None) => (m', None)
      case (m', Some(packets)) =>
        var (m2, rest) := DemuxAll(m', seen[1..]);
        (m2, if rest.None? then None else Some([packets] + rest.value))
  }

  /** The packets that come out of the frames of one class. */
  function Delivered(cuts: seq<Tagged>, out: seq<seq<Packet>>, high: bool): seq<Packet>
    requires |cuts| == |out|
    decreases |cuts|
  {
    if cuts == [] then [] else (if cuts[0].high == high then out[0] else []) + Delivered(cuts[1..], out[1..], high)
  }

  /** Segment and reassemble: of any run of frames, whose frames arrive in order, each class gets
      back exactly its completed packets, intact and in order. */
  lemma {:induction false} Reassembled(protocol: nat, w: Writer, cuts: seq<Tagged>, seen: seq<(FrameInfo, bytes)>)
    requires WriterOk(w) && Distinct(w) && CanRun(w, cuts) && Deliverable(w, cuts) && |seen| == |cuts|
    requires forall i :: 0 <= i < |cuts| ==> Seen(Plains(protocol, w, cuts)[i], seen[i].0, seen[i].1)
    ensures var (m, out) := DemuxAll(InFlight(w), seen);
            && m == InFlight(AfterRun(w, cuts)) && out.Some? && |out.value| == |cuts|
            && forall high :: Delivered(cuts, out.value, high) == CompletedRun(w, cuts, high)
    decreases |cuts|
  {
    hide Seen, Numbered, Kept, Demuxed, InFlight, CanCut, CutPlain, WriterOk, Distinct, Emitted, Completed;
    if cuts != [] {
      var frames := Plains(protocol, w, cuts);
      assert Seen(frames[0], seen[0].0, seen[0].1);
      InStepExactly(protocol, w, cuts[0], seen[0].0, seen[0].1);
      ProgressOk(w, cuts[0]);
      StaysDistinct(w, cuts[0]);
      var w' := Emitted(w, cuts[0]);
      forall i | 0 <= i < |cuts[1..]|
        ensures Seen(Plains(protocol, w', cuts[1..])[i], seen[1..][i].0, seen[1..][i].1)
      {
        assert frames[i + 1] == Plains(protocol, w', cuts[1..])[i] && seen[1..][i] == seen[i + 1];
        assert Seen(frames[i + 1], seen[i + 1].0, seen[i + 1].1);
      }
      Reassembled(protocol, w', cuts[1..], seen[1..]);
      var packets := Demuxed(InFlight(w), seen[0].0, seen[0].1).1.value;
      var out := DemuxAll(InFlight(w'), seen[1..]).1.value;
      assert ([packets] + out)[1..] == out;
    }
  }

  /** From the writer to the packets at the other end, through the ciphers and the checks of coders
      in lockstep. */
  lemma EndToEnd(cr: Crypto, s: Side, protocol: nat, w: Writer, cuts: seq<Tagged>)
    requires WriterOk(w) && protocol < 0x1_0000 && Distinct(w) && CanRun(w, cuts) && Deliverable(w, cuts)
    ensures var (s', ios) := AllSent(cr, s, Plains(protocol, w, cuts));
            && (forall io :: io in ios ==> |io| >= 3 * BLOCK)
            && var (t, seen) := AllRead(cr, s, ios);
            && t == s' && seen.Some?
            && var (m, out) := DemuxAll(InFlight(w), seen.value);
            && m == InFlight(AfterRun(w, cuts)) && out.Some? && |out.value| == |cuts|
            && forall high :: Delivered(cuts, out.value, high) == CompletedRun(w, cuts, high)
  {
    hide AllSent, AllRead, DemuxAll, Deliverable, Seen, WriterOk, InFlight;
    PlainsOk(protocol, w, cuts);
    RunLockstep(cr, s, Plains(protocol, w, cuts));
    var (s', ios) := AllSent(cr, s, Plains(protocol, w, cuts));
    var (t, seen) := AllRead(cr, s, ios);
    Reassembled(protocol, w, cuts, seen.value);
  }

  lemma {:induction false} PlainsOk(protocol: nat, w: Writer, cuts: seq<Tagged>)
    requires WriterOk(w) && protocol < 0x1_0000 && CanRun(w, cuts)
    ensures forall f :: f in Plains(protocol, w, cuts) ==> FieldsOk(f.fields)
    decreases |cuts|
  {
    hide CanCut, Emitted, QueueOk, CutPayload, Size;
    if cuts != [] {
      CutSequence(w, cuts[0]);
      ProgressOk(w, cuts[0]);
      PlainsOk(protocol, Emitted(w, cuts[0]), cuts[1..]);
    }
  }

  // ---------------------------------------------------------------- numbers in flight

  /** How many packets were started since the one that is being written. */
  function Age(w: Writer, v: Queue): nat
  {
    (w.sequenceId - v.sequence) % SEQUENCES
  }

  ghost predicate Recent(w: Writer, age: nat)
  {
    (w.high.writing ==> Age(w, w.high) <= age) && (w.low.writing ==> Age(w, w.low) <= age)
  }

  function Starts(cuts: seq<Tagged>): nat
  {
    if cuts == [] then 0 else (if cuts[0].cut.Start? then 1 else 0) + Starts(cuts[1..])
  }

  lemma NextNumber(id: nat, starts: nat)
    ensures ((id + 1) % SEQUENCES + starts) % SEQUENCES == (id + (1 + starts)) % SEQUENCES
    ensures ((id + 1) % SEQUENCES + starts + 1) % SEQUENCES == (id + (1 + starts) + 1) % SEQUENCES
  {
  }

  /** The header fields of a frame: the protocol; for a packet that is begun, its number and its size; for
      one that goes on, its number, which it keeps until then. */
  ghost predicate Headed(protocol: nat, number: nat, now: Writer, t: Tagged, fields: seq<nat>)
    requires CanCut(Of(now, t.high), t.cut)
  {
    var v := Of(now, t.high);
    && (t.cut.Several? ==> fields == [protocol])
    && (t.cut.Start? ==> fields == [protocol, number, (|v.q[0].kind| + |v.q[0].data|) % 0x1_0000_0000])
    && (t.cut.More? ==> fields == [protocol, v.sequence])
    && forall high :: Of(Emitted(now, t), high).sequence ==
         if t.cut.Start? && high == t.high then number else Of(now, high).sequence
  }

  /** The headers of a run of frames; a packet that is begun has one number more, in 16 bits, than the one
      that was begun before it. */
  lemma {:induction false} HeadersExactly(protocol: nat, w: Writer, cuts: seq<Tagged>, i: nat)
    requires WriterOk(w) && CanRun(w, cuts) && i < |cuts|
    ensures CanRun(w, cuts[..i]) && CanCut(Of(AfterRun(w, cuts[..i]), cuts[i].high), cuts[i].cut)
    ensures AfterRun(w, cuts[..i]).sequenceId == (w.sequenceId + Starts(cuts[..i])) % 0x1_0000
    ensures Headed(protocol, (w.sequenceId + Starts(cuts[..i]) + 1) % 0x1_0000, AfterRun(w, cuts[..i]), cuts[i],
                   Plains(protocol, w, cuts)[i].fields)
    decreases |cuts|
  {
    hide CanCut, WriterOk, CutPayload, Emitted, Headed, CutFields;
    if i == 0 {
      assert cuts[..0] == [];
      HeaderOf(protocol, w, cuts[0]);
    } else {
      ProgressOk(w, cuts[0]);
      NumberAfter(w, cuts[0]);
      HeadersExactly(protocol, Emitted(w, cuts[0]), cuts[1..], i - 1);
      assert cuts[..i] == [cuts[0]] + cuts[1..][..i - 1];
      assert cuts[..i][1..] == cuts[1..][..i - 1];
      NextNumber(w.sequenceId, Starts(cuts[1..][..i - 1]));
      assert Plains(protocol, w, cuts)[i] == Plains(protocol, Emitted(w, cuts[0]), cuts[1..])[i - 1];
    }
  }

  lemma NumberAfter(w: Writer, t: Tagged)
    requires CanCut(Of(w, t.high), t.cut)
    ensures Emitted(w, t).sequenceId == if t.cut.Start? then (w.sequenceId + 1) % SEQUENCES else w.sequenceId
  {
  }

  lemma HeaderOf(protocol: nat, w: Writer, t: Tagged)
    requires WriterOk(w) && CanCut(Of(w, t.high), t.cut)
    ensures w.sequenceId % 0x1_0000 == w.sequenceId
    ensures Headed(protocol, (w.sequenceId + 1) % 0x1_0000, w, t, CutFields(protocol, w, t))
  {
    hide Sendable, Size;
    if t.cut.Start? {
      assert Of(w, t.high).q[0] in Of(w, t.high).q;
      SizeOfSendable(Of(w, t.high).q[0]);
    }
  }

  ghost predicate Sized(w: Writer)
  {
    forall p :: p in w.high.q || p in w.low.q ==> |Wire(p)| < TWO32
  }

  predicate AllKept(w: Writer, cuts: seq<Tagged>)
    requires CanRun(w, cuts)
    decreases |cuts|
  {
    cuts == [] || (Kept(w, cuts[0]) && AllKept(Emitted(w, cuts[0]), cuts[1..]))
  }

  lemma NextIsNew(id: nat, sequence: nat)
    requires id < SEQUENCES && sequence < SEQUENCES && (id - sequence) % SEQUENCES < SEQUENCES - 1
    ensures sequence != (id + 1) % SEQUENCES
    ensures ((id + 1) % SEQUENCES - sequence) % SEQUENCES == (id - sequence) % SEQUENCES + 1
  {
  }

  lemma StepRecent(w: Writer, t: Tagged, age: nat)
    requires WriterOk(w) && Sized(w) && CanCut(Of(w, t.high), t.cut) && Recent(w, age)
    requires age < SEQUENCES - 1 || !t.cut.Start?
    ensures Numbered(w, t) && Sized(Emitted(w, t)) && Recent(Emitted(w, t), if t.cut.Start? then age + 1 else age)
  {
    hide Sendable, Wire;
    assert Of(w, t.high).q != [] && Of(w, t.high).q[0] in Of(w, t.high).q;
    if t.cut.Start? && Of(w, !t.high).writing {
      NextIsNew(w.sequenceId, Of(w, !t.high).sequence);
    }
  }

  /** Less than 65536 segmented packets, counted from a writer in the middle of none, have different
      numbers whenever they are in flight together. */
  lemma {:induction false} FewStartsDeliverable(w: Writer, cuts: seq<Tagged>, age: nat)
    requires WriterOk(w) && Sized(w) && CanRun(w, cuts) && Recent(w, age) && AllKept(w, cuts)
    requires age + Starts(cuts) < SEQUENCES
    ensures Deliverable(w, cuts)
    decreases |cuts|
  {
    hide Numbered, Kept, CanCut, Emitted, WriterOk, Sized, Recent;
    if cuts != [] {
      StepRecent(w, cuts[0], age);
      ProgressOk(w, cuts[0]);
      FewStartsDeliverable(Emitted(w, cuts[0]), cuts[1..], if cuts[0].cut.Start? then age + 1 else age);
    }
  }

  ghost predicate Long(w: Writer, len: nat)
  {
    forall p :: p in w.high.q || p in w.low.q ==> p.data != [] && |Wire(p)| >= len
  }

  /** Packets with data that are almost as long as the space of a call of mux are never dropped. */
  lemma {:induction false} LongKept(w: Writer, cuts: seq<Tagged>, frameLen: nat, swapQueues: bool, len: nat)
    requires CanRun(w, cuts) && SpaceLeft(w, cuts, frameLen, swapQueues).Some?
    requires Long(w, len) && len + 2 * BLOCK >= frameLen
    ensures AllKept(w, cuts)
    decreases |cuts|
  {
    hide Greedy, Allotment, PickHigh, Padding, CutPayload, Long, Wire;
    if cuts != [] {
      LongOne(w, cuts[0], len);
      var size := FrameSize(CutPayload(Of(w, cuts[0].high), cuts[0].cut));
      LongKept(Emitted(w, cuts[0]), cuts[1..], frameLen - size, true, len);
    }
  }

  lemma LongOne(w: Writer, t: Tagged, len: nat)
    requires CanCut(Of(w, t.high), t.cut) && Long(w, len)
    ensures Long(Emitted(w, t), len)
    ensures FrameSize(CutPayload(Of(w, t.high), t.cut)) <= len + 2 * BLOCK ==> Kept(w, t)
  {
    hide Padding, CutPayload, Wire;
    var v := Of(w, t.high);
    assert v.q[0] in v.q;
    if t.cut.Several? {
      assert forall i :: 0 <= i < t.cut.count ==> v.q[..t.cut.count][i] in v.q;
    }
  }

  /** For instance, mux(64) begins a packet of 21 bytes with a frame that the reader drops. */
  lemma DroppedExample()
    ensures var idle := Queue([], false, 0, false, SEQUENCES - 1);
            var w, t := Writer(idle, idle.(q := [SamplePacket()]), 0), Tagged(false, Start(15));
            WriterOk(w) && Filled(w, [t], 64) && !Kept(w, t)
  {
    hide IsValid;
    var idle := Queue([], false, 0, false, SEQUENCES - 1);
    var w, t := Writer(idle, idle.(q := [SamplePacket()]), 0), Tagged(false, Start(15));
    assert CanCut(w.low, t.cut) && |CutPayload(w.low, t.cut)| == 16;
    assert [t][1..] == [];
    SpaceOne(w, t, 64, false);
    assert AfterRun(w, [t]) == Emitted(w, t);
  }

  // ---------------------------------------------------------------- queueing in between

  function Joining(w: Writer, high: bool, p: Packet): Writer
  {
    if high then w.(high := w.high.(q := w.high.q + [p])) else w.(low := w.low.(q := w.low.q + [p]))
  }

  lemma JoiningOk(w: Writer, high: bool, p: Packet)
    requires WriterOk(w) && Distinct(w) && Sendable(p)
    ensures var w' := Joining(w, high, p); WriterOk(w') && Distinct(w') && InFlight(w') == InFlight(w)
  {
    hide Sendable;
  }

  lemma JoiningRecent(w: Writer, high: bool, p: Packet, age: nat)
    requires Sized(w) && Recent(w, age) && |Wire(p)| < TWO32
    ensures Sized(Joining(w, high, p)) && Recent(Joining(w, high, p), age)
  {
    hide Wire;
  }
}
