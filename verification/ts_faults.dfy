/** What the demuxer counts and refuses, for streams from anywhere. */
module TsFaults {
  import opened Bytes
  import opened Media
  import opened TsMux
  import opened TsDemux
  import RT = TsRoundTrip
  import TsSyntax

  // ----- continuity

  /** The continuity counters of this PID's packets, in order. */
  function Counters(pkts: seq<bytes>, pid: nat): seq<nat>
    requires AllPackets(pkts)
  {
    if pkts == [] then []
    else (if TsSyntax.PidOf(pkts[0]) == pid then [pkts[0][3] as int % 16] else []) + Counters(pkts[1..], pid)
  }

  /** How many of them do not follow the one before by one, modulo 16. */
  function Jumps(cs: seq<nat>): nat {
    var n := |cs|;
    if n <= 1 then 0 else Jumps(cs[..n - 1]) + if cs[n - 1] == (cs[n - 2] + 1) % 16 then 0 else 1
  }

  lemma {:induction false} JumpsSnoc(cs: seq<nat>, c: nat)
    ensures Jumps(cs + [c]) == Jumps(cs) + if cs == [] || c == (cs[|cs| - 1] + 1) % 16 then 0 else 1
  {
    var more := cs + [c];
    assert more[..|more| - 1] == cs;
  }

  /** The demuxer knows this much of one PID after these counters. */
  ghost predicate KnowsOf(d: Demux, idx: nat, seen: seq<nat>)
    requires Valid(d) && idx < 3
  {
    && d.report.ccErrors[idx] == Jumps(seen)
    && (d.due[idx].Some? <==> seen != [])
    && (seen != [] ==> d.due[idx].value == (seen[|seen| - 1] + 1) % 16)
  }

  function PidAt(idx: nat): nat
    requires idx < 3
  {
    if idx == 0 then 0 else if idx == 1 then 0x1000 else 0x100
  }

  lemma {:induction false} TrackKnows(d: Demux, at: nat, cc: counter, idx: nat, seen: seq<nat>)
    requires Valid(d) && at < 3 && idx < 3 && KnowsOf(d, idx, seen)
    ensures KnowsOf(Track(d, at, cc), idx, if at == idx then seen + [cc] else seen)
    ensures Track(d, at, cc).report.packets == d.report.packets + 1
  {
    hide Jumps;
    JumpsSnoc(seen, cc);
  }

  /** The same counters. */
  predicate Alike(d: Demux, e: Demux) {
    e.due == d.due && e.report.ccErrors == d.report.ccErrors && e.report.packets == d.report.packets
  }

  lemma {:induction false} FieldAlike(d: Demux, pkt: bytes)
    requires |pkt| == PACKET_LEN
    ensures Alike(d, ReadField(d, pkt).0)
  {
    hide ReadPcr;
  }

  lemma {:induction false} PayloadAlike(d: Demux, payload: bytes, unitStart: bool)
    ensures ReadPmt(d, payload).Done? ==> Alike(d, ReadPmt(d, payload).value)
    ensures ReadVideo(d, payload, unitStart).Done? ==> Alike(d, ReadVideo(d, payload, unitStart).value)
  {
    hide ReadPts;
  }

  /** All a packet does to the counters is what its own header says. */
  lemma {:induction false} PacketTracks(d: Demux, pkt: bytes)
    requires Valid(d) && |pkt| == PACKET_LEN && Packet(d, pkt).Done?
    ensures PidIndex(TsSyntax.PidOf(pkt)).Some?
    ensures Alike(Track(d, PidIndex(TsSyntax.PidOf(pkt)).value, pkt[3] % 16), Packet(d, pkt).value)
  {
    hide Track, ReadField, ReadPmt, ReadVideo;
    var unitStart := pkt[1] / 64 % 2 == 1;
    var t := Track(d, PidIndex(FromBe16(pkt[1] % 32, pkt[2])).value, pkt[3] % 16);
    FieldAlike(t, pkt);
    var (e, p) := ReadField(t, pkt);
    if p <= PACKET_LEN {
      PayloadAlike(e, pkt[p..], unitStart);
    }
  }

  lemma {:induction false} PidIndexIs(pid: u16)
    ensures PidIndex(pid).Some? ==> PidIndex(pid).value < 3
    ensures forall idx: nat :: idx < 3 ==> (PidIndex(pid) == Some(idx) <==> pid == PidAt(idx))
  {
  }

  lemma {:induction false} PidIsShort(p: bytes)
    requires |p| >= 3
    ensures TsSyntax.PidOf(p) < 0x2000
  {
  }

  lemma {:induction false} PacketKnows(d: Demux, pkt: bytes, idx: nat, seen: seq<nat>)
    requires Valid(d) && |pkt| == PACKET_LEN && Packet(d, pkt).Done? && idx < 3 && KnowsOf(d, idx, seen)
    ensures KnowsOf(Packet(d, pkt).value, idx,
                    seen + if TsSyntax.PidOf(pkt) == PidAt(idx) then [pkt[3] as int % 16] else [])
    ensures Packet(d, pkt).value.report.packets == d.report.packets + 1
  {
    hide Packet, Track, Jumps, PidIndex, PidAt, TsSyntax.PidOf;
    PidIsShort(pkt);
    PacketTracks(d, pkt);
    PidIndexIs(TsSyntax.PidOf(pkt));
    TrackKnows(d, PidIndex(TsSyntax.PidOf(pkt)).value, pkt[3] % 16, idx, seen);
    assert seen + [] == seen;
  }

  lemma {:induction false} PacketsKnow(d: Demux, pkts: seq<bytes>, idx: nat, seen: seq<nat>)
    requires Valid(d) && AllPackets(pkts) && Packets(d, pkts).Done? && idx < 3 && KnowsOf(d, idx, seen)
    ensures KnowsOf(Packets(d, pkts).value, idx, seen + Counters(pkts, PidAt(idx)))
    ensures Packets(d, pkts).value.report.packets == d.report.packets + |pkts|
    decreases |pkts|
  {
    hide Packet, KnowsOf, PidAt, TsSyntax.PidOf;
    if pkts == [] {
      assert seen + [] == seen;
    } else {
      var mine := if TsSyntax.PidOf(pkts[0]) == PidAt(idx) then [pkts[0][3] as int % 16] else [];
      PacketKnows(d, pkts[0], idx, seen);
      PacketsKnow(Packet(d, pkts[0]).value, pkts[1..], idx, seen + mine);
      assert seen + mine + Counters(pkts[1..], PidAt(idx)) == seen + (mine + Counters(pkts[1..], PidAt(idx)));
    }
  }

  /** Any stream the demuxer accepts: its packets are counted, and the errors on each PID are the packets whose counter
      does not follow the one before on that PID. */
  lemma {:induction false} ErrorsExactly(ts: bytes)
    requires Parse(ts).Done?
    ensures |ts| % 188 == 0 && Parse(ts).value.packets == |ts| / 188
    ensures var pkts := Chunks(ts);
            Parse(ts).value.ccErrors ==
            [Jumps(Counters(pkts, 0)), Jumps(Counters(pkts, 0x1000)), Jumps(Counters(pkts, 0x100))]
  {
    hide Packets, Chunks, Jumps, Counters;
    var pkts := Chunks(ts);
    ChunkCount(ts);
    StartKnows();
    PacketsKnow(START, pkts, 0, []);
    PacketsKnow(START, pkts, 1, []);
    PacketsKnow(START, pkts, 2, []);
    Empty(Counters(pkts, 0));
    Empty(Counters(pkts, 0x1000));
    Empty(Counters(pkts, 0x100));
  }

  lemma {:induction false} Empty(cs: seq<nat>)
    ensures [] + cs == cs
  {
  }

  lemma {:induction false} StartKnows()
    ensures Valid(START) && KnowsOf(START, 0, []) && KnowsOf(START, 1, []) && KnowsOf(START, 2, [])
  {
  }

  lemma {:induction false} ChunkCount(ts: bytes)
    requires |ts| % 188 == 0
    ensures |Chunks(ts)| == |ts| / 188
    decreases |ts|
  {
    if ts != [] {
      ChunkCount(ts[188..]);
    }
  }

  // ----- refusals

  /** What a packet is refused with, if its own header and payload start are reason enough. */
  function Faulty(p: bytes): Option<Fault>
    requires |p| == 188
  {
    if p[0] != 0x47 then Some(BadSync)
    else if TsSyntax.PidOf(p) !in {0, 0x1000, 0x100} then Some(UnexpectedPid)
    else if TsSyntax.PidOf(p) == 0x100 && TsSyntax.UnitStart(p) && p[3] / 16 % 2 == 1 && TsSyntax.PayloadAt(p) <= 188
         && (|TsSyntax.PayloadOf(p)| < 9 || TsSyntax.PayloadOf(p)[..4] != [0, 0, 1, 0xE0])
      then Some(BadPes)
    else None
  }

  lemma {:induction false} FaultyPacket(d: Demux, p: bytes)
    requires Valid(d) && |p| == PACKET_LEN && Faulty(p).Some?
    ensures Packet(d, p) == Failed(Faulty(p).value)
  {
    hide Track, ReadPcr, ReadPts, Close;
  }

  lemma {:induction false} SplitOff(a: seq<bytes>, p: bytes, rest: seq<bytes>)
    requires AllPackets(a) && |p| == PACKET_LEN && AllPackets(rest)
    ensures AllPackets(a + ([p] + rest)) && AllPackets([p] + rest)
  {
  }

  /** A stream of the mux, a faulty packet behind it, and anything behind that, is refused with that packet's fault. */
  lemma {:induction false} FaultBehindRun(ps: seq<MediaPacket>, p: bytes, rest: seq<bytes>)
    requires AllAccepted(ps) && |p| == 188 && AllPackets(rest) && Faulty(p).Some?
    ensures Parse(Concat(Stream(INIT, ps) + ([p] + rest))) == Failed(Faulty(p).value)
  {
    hide Packet, Packets, Stream, Concat, Chunks, Faulty, RT.InStep, RT.Extended, RT.Closed, AllPackets;
    var a := Stream(INIT, ps);
    FreshInStep();
    RT.RunRead(START, INIT, ps);
    SplitOff(a, p, rest);
    RT.PacketsAppend(START, a, [p] + rest);
    var d := Packets(START, a).value;
    FaultyPacket(d, p);
    RT.PacketsCons(d, p, rest);
    RT.ChunksConcat(a + ([p] + rest));
    Whole(a + ([p] + rest));
  }

  lemma {:induction false} FreshInStep()
    ensures Valid(START) && RT.InStep(START, INIT) && RT.Typed(START, INIT)
  {
  }

  lemma {:induction false} Whole(pkts: seq<bytes>)
    requires AllPackets(pkts) && |Concat(pkts)| % PACKET_LEN == 0 && Chunks(Concat(pkts)) == pkts
    requires Valid(START) && Packets(START, pkts).Failed?
    ensures Parse(Concat(pkts)) == Failed(Packets(START, pkts).fault)
  {
    hide Packets, Concat, Chunks;
  }

  /** Nothing but whole packets. */
  lemma {:induction false} PartialRefused(ts: bytes)
    ensures Parse(ts) == Failed(BadLength) <==> |ts| % 188 != 0
  {
    hide Packet, Packets, Chunks;
    if |ts| % 188 == 0 {
      NeverBadLength(START, Chunks(ts));
    }
  }

  lemma {:induction false} NeverBadLength(d: Demux, pkts: seq<bytes>)
    requires Valid(d) && AllPackets(pkts)
    ensures Packets(d, pkts) != Failed(BadLength)
    decreases |pkts|
  {
    hide Track, ReadPcr, ReadPts, Close;
    if pkts != [] && Packet(d, pkts[0]).Done? {
      NeverBadLength(Packet(d, pkts[0]).value, pkts[1..]);
    }
  }
}
