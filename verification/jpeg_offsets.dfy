/** How long a scan may be: exactly the JPEGs whose every fragment starts below 2^24 survive even a perfect link. */
module JpegOffsets {
  import opened Bytes
  import opened JpegFile
  import opened JpegSender
  import opened JpegReceiver
  import opened JpegLossyLink
  import H = RtpHeader
  import P = JpegHeaders

  lemma {:induction false} DeliveredStep(s: State, info: JpegScan, ts: u32, mtu: nat, ssrc: u32, seqNo: u16, off: nat)
    requires Valid(s) && TablesPresent(info) && mtu >= MIN_MTU && off < |info.scan|
    ensures var r := Push(s, Packet(info, ts, mtu, ssrc, seqNo, off));
            Delivered(s, Packets(info, ts, mtu, ssrc, seqNo, off)) ==
            Out(r) + Delivered(r.state, Packets(info, ts, mtu, ssrc, (seqNo + 1) % 0x1_0000, off + Take(info, mtu, off)))
  {
    hide Push, Packet, Take, Packets, Out;
    PacketsStep(info, ts, mtu, ssrc, seqNo, off);
    var p := Packet(info, ts, mtu, ssrc, seqNo, off);
    var rest := Packets(info, ts, mtu, ssrc, (seqNo + 1) % 0x1_0000, off + Take(info, mtu, off));
    assert ([p] + rest)[1..] == rest;
  }

  lemma {:induction false} NothingSent(s: State, info: JpegScan, ts: u32, mtu: nat, ssrc: u32, seqNo: u16)
    requires Valid(s) && TablesPresent(info) && mtu >= MIN_MTU
    ensures Delivered(s, Packets(info, ts, mtu, ssrc, seqNo, |info.scan|)) == []
  {
    hide Packet, Take;
    PacketsStep(info, ts, mtu, ssrc, seqNo, |info.scan|);
  }

  // ----- every offset fits

  lemma {:induction false} ArrivesFrom(s: State, job: Job, mtu: nat, ssrc: u32, seqNo: u16, off: nat)
    requires Legal(job.info, s.cap) && mtu >= MIN_MTU && 0 < off < |job.info.scan|
    requires Midway(s, job, off) && Gap(s.lastSeq, seqNo) == 0 && LastOffset(job.info, mtu, off) < OFFSETS
    ensures Delivered(s, Packets(job.info, job.ts, mtu, ssrc, seqNo, off)) == [Expected(job)]
    decreases |job.info.scan| - off
  {
    hide Push, Packet, Packets, Delivered, Out, Midway, Legal, Expected, TablesPresent, Take, Gap, LastOffset;
    LegalIs(job.info, s.cap);
    MidwayIs(s, job, off);
    var to := off + Take(job.info, mtu, off);
    PushNext(s, job, mtu, ssrc, seqNo, off);
    DeliveredStep(s, job.info, job.ts, mtu, ssrc, seqNo, off);
    var r := Push(s, Packet(job.info, job.ts, mtu, ssrc, seqNo, off)).state;
    var next: u16 := (seqNo + 1) % 0x1_0000;
    LastOffsetStep(job.info, mtu, off);
    NextGap(seqNo);
    if to == |job.info.scan| {
      NothingSent(r, job.info, job.ts, mtu, ssrc, next);
    } else {
      ArrivesFrom(r, job, mtu, ssrc, next, to);
    }
  }

  // ----- an offset wraps

  /** A frame in progress holds at most `n` scan bytes. */
  predicate Short(s: State, n: nat) {
    Valid(s) && (s.inFrame ==> |s.scan| <= n)
  }

  /** Files of at most `n` scan bytes. */
  predicate ShortFiles(ds: seq<Delivery>, n: nat) {
    forall k :: 0 <= k < |ds| ==> |ds[k].jpeg| <= 1000 + n
  }

  lemma {:induction false} AppendShort(s: State, marker: bool, data: bytes, n: nat)
    requires Valid(s) && HasHeader(s) && |s.scan| <= n
    ensures var r := Append(s, marker, data);
            Short(r.state, n + |data|) && ShortFiles(Out(r), n + |data|)
  {
    hide P.Printable, P.Headers;
    HeaderTables(s);
    P.HeadersLen(s.width, s.height, s.kind, s.restart, s.qtables[..s.qcount]);
  }

  lemma {:induction false} HeaderTables(s: State)
    requires HasHeader(s)
    ensures |s.qtables[..s.qcount]| == s.qcount <= 2
    ensures forall k :: 0 <= k < s.qcount ==> |s.qtables[..s.qcount][k]| == 64
  {
  }

  lemma {:induction false} QuantShort(m: Main, qtables: seq<bytes>, qcount: nat)
    requires |qtables| == 2 && |qtables[0]| == 64 && |qtables[1]| == 64 && qcount <= 2
    ensures var q := ReadQuant(m, qtables, qcount);
            q.Ok? ==> |q.value.data| <= |m.rest|
  {
  }

  /** A fragment that opens a frame holds no more than its own bytes. */
  lemma {:induction false} StartShort(s: State, h: H.Header, m: Main)
    requires Valid(s) && (m.kind % 64) <= 1 && 0 < m.width <= 2040 && 0 < m.height <= 2040
    requires m.width % 8 == 0 && m.height % 8 == 0
    ensures var r := Start(s, h, m);
            Short(r.state, |m.rest|) && ShortFiles(Out(r), |m.rest|)
  {
    hide Append, ReadQuant;
    QuantShort(m, s.qtables, s.qcount);
    var q := ReadQuant(m, s.qtables, s.qcount);
    if q.Ok? {
      var o := Open(s, h, m).(qtables := q.value.qtables, qcount := q.value.qcount);
      AppendShort(o, h.marker, q.value.data, 0);
    }
  }

  lemma {:induction false} ContinueShort(s: State, h: H.Header, m: Main, gap: nat, n: nat)
    requires Short(s, n) && m.off != 0
    ensures var r := Continue(s, h, m, gap);
            Short(r.state, n + |m.rest|) && ShortFiles(Out(r), n + |m.rest|)
  {
    hide Append;
    if s.inFrame && gap == 0 && m.off == |s.scan| && h.timestamp == s.timestamp {
      AppendShort(s, h.marker, m.rest, n);
    }
  }

  /** A later fragment adds at most its own bytes to what is in progress. */
  lemma {:induction false} PushShort(s: State, info: JpegScan, ts: u32, mtu: nat, ssrc: u32, seqNo: u16, off: nat, n: nat)
    requires Short(s, n) && Legal(info, s.cap) && mtu >= MIN_MTU && 0 < off < |info.scan|
    ensures var r, m := Push(s, Packet(info, ts, mtu, ssrc, seqNo, off)), n + Take(info, mtu, off);
            Short(r.state, m) && ShortFiles(Out(r), m)
  {
    hide Start, Continue, Packet, Push, Take, Gap, P.Printable;
    PushPacket(s, info, ts, mtu, ssrc, seqNo, off);
    var take := Take(info, mtu, off);
    var h := H.Header(off + take == |info.scan|, H.PT_JPEG, seqNo, ts, ssrc);
    var rest := info.scan[off..off + take];
    assert [] + rest == rest;
    var m := Main(off % OFFSETS, info.kind, 255, info.width, info.height, info.restart, rest);
    if off % OFFSETS == 0 {
      StartShort(Note(s, seqNo), h, m);
    } else {
      ContinueShort(Note(s, seqNo), h, m, Gap(s.lastSeq, seqNo), n);
    }
  }

  /** From there on every frame delivered is short. */
  lemma {:induction false} TailShort(s: State, info: JpegScan, ts: u32, mtu: nat, ssrc: u32, seqNo: u16, off: nat, n: nat)
    requires Short(s, n) && Legal(info, s.cap) && mtu >= MIN_MTU && 0 < off <= |info.scan|
    ensures ShortFiles(Delivered(s, Packets(info, ts, mtu, ssrc, seqNo, off)), n + |info.scan| - off)
    decreases |info.scan| - off
  {
    hide Push, Packet, Packets, Delivered, Out, Legal, Take, TablesPresent;
    LegalIs(info, s.cap);
    if off == |info.scan| {
      NothingSent(s, info, ts, mtu, ssrc, seqNo);
    } else {
      var take := Take(info, mtu, off);
      PushShort(s, info, ts, mtu, ssrc, seqNo, off, n);
      DeliveredStep(s, info, ts, mtu, ssrc, seqNo, off);
      var r := Push(s, Packet(info, ts, mtu, ssrc, seqNo, off)).state;
      TailShort(r, info, ts, mtu, ssrc, (seqNo + 1) % 0x1_0000, off + take, n + take);
    }
  }

  /** The first fragment whose offset wraps breaks the frame, or is taken for the start of another one. */
  lemma {:induction false} WrapBreaks(s: State, job: Job, mtu: nat, ssrc: u32, seqNo: u16, off: nat)
    requires Legal(job.info, s.cap) && mtu >= MIN_MTU && OFFSETS <= off < |job.info.scan| && Midway(s, job, off)
    ensures var r, take := Push(s, Packet(job.info, job.ts, mtu, ssrc, seqNo, off)), Take(job.info, mtu, off);
            Short(r.state, take) && ShortFiles(Out(r), take)
  {
    hide Start, Packet, Push, Take, Gap, Append, P.Printable;
    var info := job.info;
    PushPacket(s, info, job.ts, mtu, ssrc, seqNo, off);
    var take := Take(info, mtu, off);
    var h := H.Header(off + take == |info.scan|, H.PT_JPEG, seqNo, job.ts, ssrc);
    var rest := info.scan[off..off + take];
    assert [] + rest == rest;
    if off % OFFSETS == 0 {
      StartShort(Note(s, seqNo), h, Main(0, info.kind, 255, info.width, info.height, info.restart, rest));
    }
  }

  lemma {:induction false} MoreShort(a: seq<Delivery>, b: seq<Delivery>, m: nat, n: nat)
    requires ShortFiles(a, m) && ShortFiles(b, n) && m <= n
    ensures ShortFiles(a + b, n)
  {
  }

  /** A frame whose offsets wrap is not delivered, whatever else is. */
  lemma {:induction false} NeverWhole(s: State, job: Job, mtu: nat, ssrc: u32, seqNo: u16, off: nat)
    requires Legal(job.info, s.cap) && mtu >= MIN_MTU && 0 < off < |job.info.scan|
    requires Midway(s, job, off) && Gap(s.lastSeq, seqNo) == 0 && LastOffset(job.info, mtu, off) >= OFFSETS
    ensures ShortFiles(Delivered(s, Packets(job.info, job.ts, mtu, ssrc, seqNo, off)), |job.info.scan| - OFFSETS)
    decreases |job.info.scan| - off
  {
    hide Push, Packet, Packets, Delivered, Out, Midway, Legal, Expected, Take, TablesPresent, ShortFiles;
    LegalIs(job.info, s.cap);
    MidwayIs(s, job, off);
    var take := Take(job.info, mtu, off);
    DeliveredStep(s, job.info, job.ts, mtu, ssrc, seqNo, off);
    var step := Push(s, Packet(job.info, job.ts, mtu, ssrc, seqNo, off));
    var next: u16 := (seqNo + 1) % 0x1_0000;
    var later := Delivered(step.state, Packets(job.info, job.ts, mtu, ssrc, next, off + take));
    if off >= OFFSETS {
      WrapBreaks(s, job, mtu, ssrc, seqNo, off);
      TailShort(step.state, job.info, job.ts, mtu, ssrc, next, off + take, take);
      var n := |job.info.scan| - off;
      MoreShort(Out(step), later, take, n);
      MoreShort(Out(step) + later, [], n, |job.info.scan| - OFFSETS) by { NoFiles(|job.info.scan| - OFFSETS); }
      assert Out(step) + later + [] == Out(step) + later;
    } else {
      PushNext(s, job, mtu, ssrc, seqNo, off);
      NeverWhole(step.state, job, mtu, ssrc, next, off + take);
      assert [] + later == later;
    }
  }

  lemma {:induction false} NoFiles(n: nat)
    ensures ShortFiles([], n)
  {
  }

  /** Over a perfect link a JPEG is delivered intact if and only if its last fragment starts below 2^24: an offset
      of 24 bits, cut off without an error, carries no more. */
  lemma {:induction false} OffsetsExactly(job: Job, cap: nat, mtu: nat, ssrc: u32, seqNo: u16)
    requires Legal(job.info, cap) && mtu >= MIN_MTU
    ensures TablesPresent(job.info) && job.info.scan != []
    ensures Delivered(Init(cap), Packets(job.info, job.ts, mtu, ssrc, seqNo, 0)) == [Expected(job)] <==>
            LastOffset(job.info, mtu, 0) < OFFSETS
  {
    hide Push, Packet, Packets, Delivered, Out, Midway, Expected, Take, TablesPresent, P.Printable;
    var s, info := Init(cap), job.info;
    var take := Take(info, mtu, 0);
    PushFirst(s, job, mtu, ssrc, seqNo);
    DeliveredStep(s, info, job.ts, mtu, ssrc, seqNo, 0);
    var r := Push(s, Packet(info, job.ts, mtu, ssrc, seqNo, 0)).state;
    var next: u16 := (seqNo + 1) % 0x1_0000;
    if take == |info.scan| {
      NothingSent(r, info, job.ts, mtu, ssrc, next);
    } else if LastOffset(info, mtu, 0) < OFFSETS {
      ArrivesFrom(r, job, mtu, ssrc, next, take);
    } else {
      NeverWhole(r, job, mtu, ssrc, next, take);
      ExpectedLong(job, cap);
      var later := Delivered(r, Packets(info, job.ts, mtu, ssrc, next, take));
      assert [] + later == later;
      TooShort(later, |info.scan| - OFFSETS, Expected(job));
    }
  }

  lemma {:induction false} TooShort(ds: seq<Delivery>, n: nat, d: Delivery)
    requires ShortFiles(ds, n) && |d.jpeg| > 1000 + n
    ensures ds != [d]
  {
    assert |ds| == 1 ==> |ds[0].jpeg| <= 1000 + n;
  }

  lemma {:induction false} ExpectedLong(job: Job, cap: nat)
    requires Legal(job.info, cap)
    ensures |Expected(job).jpeg| > |job.info.scan|
  {
    hide P.Headers, P.Printable;
    var info := job.info;
    P.HeadersLen(info.width, info.height, info.kind % 64, info.restart, info.qtables[..info.qcount]);
  }
}
