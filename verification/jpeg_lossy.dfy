/** RTP/JPEG over a lossy link: exactly the frames all of whose packets arrive come out. */
module JpegLossyLink {
  import opened Bytes
  import opened JpegFile
  import opened JpegSender
  import opened JpegReceiver
  import H = RtpHeader
  import P = JpegHeaders

  /** One JPEG to send, and its RTP timestamp. */
  datatype Job = Job(info: JpegScan, ts: u32)

  /** Offsets are 24 bits. */
  const OFFSETS := 0x100_0000

  /** A JPEG RFC 2435 describes, with a scan that fits the receiver's buffer. */
  predicate Legal(info: JpegScan, cap: nat) {
    && TablesPresent(info)
    && P.Printable(info.width, info.height, info.kind % 64, info.qtables[..info.qcount])
    && info.kind == info.kind % 64 + (if info.restart.Some? then 64 else 0)
    && info.scan != []
    && RESERVE + |info.scan| + 2 <= cap
  }

  /** Where the last fragment starts. */
  function LastOffset(info: JpegScan, mtu: nat, off: nat): (r: nat)
    requires TablesPresent(info) && mtu >= MIN_MTU && off < |info.scan|
    ensures off <= r < |info.scan|
    decreases |info.scan| - off
  {
    var to := off + Take(info, mtu, off);
    if to == |info.scan| then off else LastOffset(info, mtu, to)
  }

  lemma {:induction false} LastOffsetStep(info: JpegScan, mtu: nat, off: nat)
    requires TablesPresent(info) && mtu >= MIN_MTU && off < |info.scan|
    ensures var to := off + Take(info, mtu, off);
            LastOffset(info, mtu, off) == if to == |info.scan| then off else LastOffset(info, mtu, to)
    ensures off <= LastOffset(info, mtu, off)
  {
    hide Take;
  }

  /** One that RFC 2435 can carry at this MTU: the offsets of its fragments, from the one at `off` on, fit 24 bits too. */
  predicate SendableFrom(info: JpegScan, cap: nat, mtu: nat, off: nat) {
    Legal(info, cap) && mtu >= MIN_MTU && (off < |info.scan| ==> LastOffset(info, mtu, off) < OFFSETS)
  }

  predicate Sendable(info: JpegScan, cap: nat, mtu: nat) {
    SendableFrom(info, cap, mtu, 0)
  }

  lemma {:induction false} SendableNext(info: JpegScan, cap: nat, mtu: nat, off: nat)
    requires SendableFrom(info, cap, mtu, off) && off < |info.scan|
    ensures TablesPresent(info) && off < OFFSETS && SendableFrom(info, cap, mtu, off + Take(info, mtu, off))
  {
    hide Take, LastOffset, P.Printable;
    LastOffsetStep(info, mtu, off);
  }

  lemma {:induction false} SendableIs(info: JpegScan, cap: nat, mtu: nat, off: nat)
    requires SendableFrom(info, cap, mtu, off)
    ensures TablesPresent(info) && Legal(info, cap) && info.scan != [] && mtu >= MIN_MTU
  {
    hide P.Printable;
  }

  /** The file the receiver should rebuild. */
  function Rebuilt(info: JpegScan): bytes
    requires TablesPresent(info)
  {
    P.File(info.width, info.height, info.kind % 64, info.restart, info.qtables[..info.qcount], info.scan)
  }

  function Expected(job: Job): Delivery
    requires TablesPresent(job.info)
  {
    Delivery(Rebuilt(job.info), job.ts, job.info.width, job.info.height)
  }

  lemma {:induction false} LegalIs(info: JpegScan, cap: nat)
    requires Legal(info, cap)
    ensures TablesPresent(info) && info.scan != []
  {
    hide P.Printable;
  }

  function Report(job: Job): Depayload
    requires TablesPresent(job.info)
  {
    Frame(|Rebuilt(job.info)|, job.ts, job.info.width, job.info.height)
  }

  /** What a step answers, and what it adds to the two counters. */
  predicate Counts(s: State, r: Step, answer: Depayload, frames: nat, dropped: nat) {
    r.result == Ok(answer) && r.state.frames == s.frames + frames && r.state.dropped == s.dropped + dropped
  }

  // ----- single packets

  lemma {:induction false} RestartBytes(restart: Option<u16>, rest: bytes)
    ensures restart.Some? ==>
              var r := RestartHeader(restart) + rest;
              |r| >= 4 && FromBe16(r[0], r[1]) == restart.value && r[4..] == rest
    ensures restart.None? ==> RestartHeader(restart) + rest == rest
  {
    if restart.Some? {
      Be16RoundTrip(restart.value);
    }
  }

  lemma {:induction false} OffsetLeft(off: nat, q: nat, r: nat)
    requires off == q * OFFSETS + r && r < OFFSETS
    ensures off % OFFSETS == r
  {
  }

  /** The three bytes of an offset hold its remainder by 2^24. */
  lemma {:induction false} OffsetBytes(off: nat)
    ensures FromBe32(0, off / 0x1_0000 % 256, off / 256 % 256, off % 256) == off % OFFSETS
  {
    ByteShifts(off);
    var low, high := off / 256, off / 256 / 256;
    var r := high % 256 * 0x1_0000 + low % 256 * 256 + off % 256;
    OffsetLeft(off, high / 256, r);
  }

  /** The receiver's reading of eight main-header bytes. */
  lemma {:induction false} ReadMainBytes(p: bytes, off: nat, kind: byte, w: u16, h: u16, restart: Option<u16>, tail: bytes)
    requires |p| >= 8 && FromBe32(0, p[1], p[2], p[3]) == off && p[4] == kind
    requires 0 < w <= 2040 && w % 8 == 0 && p[6] == w / 8 && 0 < h <= 2040 && h % 8 == 0 && p[7] == h / 8
    requires kind % 64 <= 1 && (kind >= 64 <==> restart.Some?)
    requires p[8..] == RestartHeader(restart) + tail
    ensures ReadMain(p) == Ok(Main(off, kind, p[5], w, h, restart, tail))
  {
    hide FromBe32, FromBe16;
    RestartBytes(restart, tail);
    if restart.Some? {
      var more := p[8..];
      assert p[8] == more[0] && p[9] == more[1] && p[12..] == more[4..];
    }
  }

  /** The receiver reads back the main and restart headers the sender wrote. */
  lemma {:induction false} ReadFragmentHeader(info: JpegScan, off: nat, data: bytes, cap: nat)
    requires Legal(info, cap) && off < |info.scan|
    ensures ReadMain(FragmentHeader(info, off) + data) ==
            Ok(Main(off % OFFSETS, info.kind, 255, info.width, info.height, info.restart,
                    (if off == 0 then TableHeader(info) else []) + data))
  {
    hide TableHeader, RestartHeader, FromBe32, P.Printable, ReadMain;
    SendableKind(info, cap);
    var tail := (if off == 0 then TableHeader(info) else []) + data;
    var p := FragmentHeader(info, off) + data;
    assert p[8..] == RestartHeader(info.restart) + tail;
    OffsetBytes(off);
    assert p[1] == off / 0x1_0000 % 256 && p[2] == off / 256 % 256 && p[3] == off % 256;
    assert p[4] == info.kind && p[5] == 255 && p[6] == info.width / 8 && p[7] == info.height / 8;
    ReadMainBytes(p, off % OFFSETS, info.kind, info.width, info.height, info.restart, tail);
  }

  lemma {:induction false} SendableKind(info: JpegScan, cap: nat)
    requires Legal(info, cap)
    ensures info.kind % 64 <= 1 && (info.kind >= 64 <==> info.restart.Some?)
    ensures 0 < info.width <= 2040 && info.width % 8 == 0 && 0 < info.height <= 2040 && info.height % 8 == 0
  {
  }

  lemma {:induction false} ThreeParts(a: bytes, b: bytes, c: bytes)
    requires |a| == |b| == 64
    ensures var t := a + b + c;
            t[..64] == a && t[64..128] == b && t[128..] == c
  {
  }

  /** The receiver reads back the quantization tables. */
  lemma {:induction false} ReadTableHeader(info: JpegScan, data: bytes, m: Main, qtables: seq<bytes>, qcount: nat)
    requires TablesPresent(info) && m.q == 255 && m.rest == TableHeader(info) + data
    requires |qtables| == 2 && |qtables[0]| == 64 && |qtables[1]| == 64 && qcount <= 2
    ensures var q := ReadQuant(m, qtables, qcount);
            && q.Ok? && q.value.qcount == info.qcount && q.value.data == data
            && q.value.qtables[..info.qcount] == info.qtables[..info.qcount]
  {
    var len, t := 64 * info.qcount, m.rest[4..];
    assert m.rest[1] == 0 && m.rest[2] == Be16(len)[0] && m.rest[3] == Be16(len)[1];
    Be16RoundTrip(len);
    if info.qcount == 2 {
      assert t == info.qtables[0] + info.qtables[1] + data;
      ThreeParts(info.qtables[0], info.qtables[1], data);
      assert [t[..64], t[64..128]][..2] == info.qtables[..2];
    } else {
      assert t == info.qtables[0] + data;
    }
  }

  /** What pushing a packet of this stream comes to, once its headers are read. */
  lemma {:induction false} PushPacket(s: State, info: JpegScan, ts: u32, mtu: nat, ssrc: u32, seqNo: u16, off: nat)
    requires Valid(s) && Legal(info, s.cap) && mtu >= MIN_MTU && off < |info.scan|
    ensures var take := Take(info, mtu, off);
            var h := H.Header(off + take == |info.scan|, H.PT_JPEG, seqNo, ts, ssrc);
            var m := Main(off % OFFSETS, info.kind, 255, info.width, info.height, info.restart,
                          (if off == 0 then TableHeader(info) else []) + info.scan[off..off + take]);
            && m.kind % 64 <= 1 && 0 < m.width <= 2040 && 0 < m.height <= 2040 && m.width % 8 == 0 && m.height % 8 == 0
            && Push(s, Packet(info, ts, mtu, ssrc, seqNo, off)) ==
               if off % OFFSETS == 0 then Start(Note(s, seqNo), h, m)
               else Continue(Note(s, seqNo), h, m, Gap(s.lastSeq, seqNo))
  {
    hide Start, Continue, FragmentHeader, Take, H.Encode, Gap, H.Parse, TableHeader, P.Printable, ReadMain;
    var take := Take(info, mtu, off);
    var h := H.Header(off + take == |info.scan|, H.PT_JPEG, seqNo, ts, ssrc);
    var data := info.scan[off..off + take];
    var payload := FragmentHeader(info, off) + data;
    H.ParseEncode(h, payload);
    assert Packet(info, ts, mtu, ssrc, seqNo, off) == H.Encode(h) + payload;
    SendableKind(info, s.cap);
    ReadFragmentHeader(info, off, data, s.cap);
  }

  /** The receiver holds the first `off` scan bytes of `job`, and everything its file header needs. */
  ghost predicate Midway(s: State, job: Job, off: nat)
    requires TablesPresent(job.info)
  {
    var info := job.info;
    && Valid(s) && HasHeader(s) && s.inFrame
    && off <= |info.scan| && s.scan == info.scan[..off] && s.timestamp == job.ts
    && s.width == info.width && s.height == info.height && s.kind == info.kind % 64
    && s.restart == info.restart && s.qcount == info.qcount
    && s.qtables[..s.qcount] == info.qtables[..info.qcount]
  }

  lemma {:induction false} MidwayIs(s: State, job: Job, off: nat)
    requires TablesPresent(job.info) && Midway(s, job, off)
    ensures Valid(s) && s.inFrame && |s.scan| == off && s.timestamp == job.ts
  {
    hide P.Printable;
  }

  /** Noting the next packet leaves the frame as it is. */
  lemma {:induction false} NoteMidway(s: State, job: Job, off: nat, seqNo: u16)
    requires TablesPresent(job.info) && Midway(s, job, off)
    ensures Midway(Note(s, seqNo), job, off)
  {
    hide P.Printable, Gap;
  }

  lemma {:induction false} GoesOn(s: State, h: H.Header, m: Main)
    requires Valid(s) && s.inFrame && m.off == |s.scan| != 0 && h.timestamp == s.timestamp
    ensures HasHeader(s) && Continue(s, h, m, 0) == Append(s, h.marker, m.rest)
  {
    hide Append, P.Printable;
  }

  /** Appending the next fragment of `job` goes on with it or completes it. */
  lemma {:induction false} AppendNext(s: State, job: Job, off: nat, take: nat)
    requires Legal(job.info, s.cap) && Midway(s, job, off) && off + take <= |job.info.scan|
    ensures var last := off + take == |job.info.scan|;
            var r := Append(s, last, job.info.scan[off..off + take]);
            && Out(r) == (if last then [Expected(job)] else [])
            && (last ==> !r.state.inFrame)
            && (!last ==> Midway(r.state, job, off + take))
            && r.state.lastSeq == s.lastSeq && r.state.lost == s.lost
            && Counts(s, r, if last then Report(job) else Fragment, if last then 1 else 0, 0)
  {
    hide P.File, P.Printable;
    var scan := job.info.scan;
    assert scan[..off] + scan[off..off + take] == scan[..off + take];
    assert scan[..|scan|] == scan;
  }

  /** A first fragment always opens its frame, whatever was in progress. */
  lemma {:induction false} PushFirst(s: State, job: Job, mtu: nat, ssrc: u32, seqNo: u16)
    requires Valid(s) && Legal(job.info, s.cap) && mtu >= MIN_MTU
    ensures var take := Take(job.info, mtu, 0);
            var last := take == |job.info.scan|;
            var r := Push(s, Packet(job.info, job.ts, mtu, ssrc, seqNo, 0));
            && Out(r) == (if last then [Expected(job)] else [])
            && (last ==> !r.state.inFrame)
            && (!last ==> Midway(r.state, job, take))
            && r.state.lastSeq == Some(seqNo) && r.state.lost == s.lost + Gap(s.lastSeq, seqNo)
            && Counts(s, r, if last then Report(job) else Fragment, if last then 1 else 0,
                      if s.inFrame && s.scan != [] then 1 else 0)
  {
    hide P.Printable, Append, Push, Packet, Take, ReadQuant, Gap, TableHeader, Rebuilt;
    var info := job.info;
    var take := Take(info, mtu, 0);
    PushPacket(s, info, job.ts, mtu, ssrc, seqNo, 0);
    var h := H.Header(take == |info.scan|, H.PT_JPEG, seqNo, job.ts, ssrc);
    var data := info.scan[0..take];
    var m := Main(0, info.kind, 255, info.width, info.height, info.restart, TableHeader(info) + data);
    var s1 := Note(s, seqNo);
    ReadTableHeader(info, data, m, s1.qtables, s1.qcount);
    var q := ReadQuant(m, s1.qtables, s1.qcount).value;
    var o := Open(s1, h, m).(qtables := q.qtables, qcount := q.qcount);
    assert info.scan[..0] == [];
    assert Midway(o, job, 0);
    AppendNext(o, job, 0, take);
  }

  /** The next fragment with nothing missing before it continues the frame. */
  lemma {:induction false} PushNext(s: State, job: Job, mtu: nat, ssrc: u32, seqNo: u16, off: nat)
    requires Legal(job.info, s.cap) && mtu >= MIN_MTU && 0 < off < |job.info.scan| && off < OFFSETS
    requires Midway(s, job, off) && Gap(s.lastSeq, seqNo) == 0
    ensures var take := Take(job.info, mtu, off);
            var last := off + take == |job.info.scan|;
            var r := Push(s, Packet(job.info, job.ts, mtu, ssrc, seqNo, off));
            && Out(r) == (if last then [Expected(job)] else [])
            && (last ==> !r.state.inFrame)
            && (!last ==> Midway(r.state, job, off + take))
            && r.state.lastSeq == Some(seqNo) && r.state.lost == s.lost
            && Counts(s, r, if last then Report(job) else Fragment, if last then 1 else 0, 0)
  {
    hide P.Printable, Append, Push, Packet, Take, Gap, Midway, Legal, TableHeader, Expected, Continue, Valid, Rebuilt;
    LegalIs(job.info, s.cap);
    MidwayIs(s, job, off);
    NoteMidway(s, job, off, seqNo);
    MidwayIs(Note(s, seqNo), job, off);
    PushPacket(s, job.info, job.ts, mtu, ssrc, seqNo, off);
    var info, s1, take := job.info, Note(s, seqNo), Take(job.info, mtu, off);
    var data := info.scan[off..off + take];
    assert [] + data == data;
    GoesOn(s1, H.Header(off + take == |info.scan|, H.PT_JPEG, seqNo, job.ts, ssrc),
           Main(off, info.kind, 255, info.width, info.height, info.restart, data));
    AppendNext(s1, job, off, take);
  }

  /** A later fragment after a loss, or with no frame in progress, delivers nothing and leaves no frame. */
  lemma {:induction false} PushStray(s: State, job: Job, mtu: nat, ssrc: u32, seqNo: u16, off: nat)
    requires Valid(s) && Legal(job.info, s.cap) && mtu >= MIN_MTU && 0 < off < |job.info.scan| && off < OFFSETS
    requires !s.inFrame || Gap(s.lastSeq, seqNo) != 0
    ensures var r := Push(s, Packet(job.info, job.ts, mtu, ssrc, seqNo, off));
            && Out(r) == [] && !r.state.inFrame
            && r.state.lastSeq == Some(seqNo) && r.state.lost == s.lost + Gap(s.lastSeq, seqNo)
            && Counts(s, r, if s.inFrame then Dropped else Fragment, 0, if s.inFrame then 1 else 0)
  {
    hide P.Printable, Append, Push, Packet, Take, Gap;
    PushPacket(s, job.info, job.ts, mtu, ssrc, seqNo, off);
  }

  // ----- loss patterns

  /** What the link has done so far: has anything arrived, and how many packets were lost since. */
  datatype Track = Track(started: bool, lost: nat)

  function After(t: Track, mask: seq<bool>): Track
    decreases |mask|
  {
    if mask == [] then t
    else After(if mask[0] then Track(true, 0) else Track(t.started, t.lost + 1), mask[1..])
  }

  /** Between two packets that arrive, fewer than 2^15 are lost. */
  predicate ShortRuns(t: Track, mask: seq<bool>)
    decreases |mask|
  {
    if mask == [] then true
    else if mask[0] then (t.started ==> t.lost < 0x8000) && ShortRuns(Track(true, 0), mask[1..])
    else ShortRuns(Track(t.started, t.lost + 1), mask[1..])
  }

  /** Packets lost between the first and the last that arrive. */
  function LostBetween(t: Track, mask: seq<bool>): nat
    decreases |mask|
  {
    if mask == [] then 0
    else if mask[0] then (if t.started then t.lost else 0) + LostBetween(Track(true, 0), mask[1..])
    else LostBetween(Track(t.started, t.lost + 1), mask[1..])
  }

  lemma {:induction false} MaskAppend(t: Track, a: seq<bool>, b: seq<bool>)
    ensures After(t, a + b) == After(After(t, a), b)
    ensures ShortRuns(t, a + b) <==> ShortRuns(t, a) && ShortRuns(After(t, a), b)
    ensures LostBetween(t, a + b) == LostBetween(t, a) + LostBetween(After(t, a), b)
    decreases |a|
  {
    if a == [] {
      assert a + b == b;
    } else {
      assert (a + b)[0] == a[0] && (a + b)[1..] == a[1..] + b;
      MaskAppend(if a[0] then Track(true, 0) else Track(t.started, t.lost + 1), a[1..], b);
    }
  }

  /** The packets that get through. */
  function Arrived(packets: seq<bytes>, mask: seq<bool>): seq<bytes>
    requires |packets| == |mask|
  {
    if packets == [] then []
    else (if mask[0] then [packets[0]] else []) + Arrived(packets[1..], mask[1..])
  }

  /** The receiver's sequence memory agrees with the link; `next` is the next packet's number. */
  ghost predicate Synced(s: State, t: Track, next: u16) {
    && Valid(s)
    && (t.started <==> s.lastSeq.Some?)
    && (!t.started ==> !s.inFrame)
    && (t.started ==> s.lastSeq.value == (next - 1 - t.lost) % 0x1_0000)
  }

  lemma {:induction false} GapIsLoss(s: State, t: Track, next: u16)
    requires Synced(s, t, next) && (t.started ==> t.lost < 0x8000)
    ensures Gap(s.lastSeq, next) == if t.started then t.lost else 0
  {
    if t.started {
      var last := s.lastSeq.value;
      if next - 1 - t.lost >= 0 {
        assert last == next - 1 - t.lost;
      } else {
        assert last == next - 1 - t.lost + 0x1_0000;
      }
    }
  }

  lemma {:induction false} NextGap(seqNo: u16)
    ensures Gap(Some(seqNo), (seqNo + 1) % 0x1_0000) == 0
  {
  }

  lemma {:induction false} SyncedLost(s: State, t: Track, next: u16)
    requires Synced(s, t, next)
    ensures Synced(s, Track(t.started, t.lost + 1), (next + 1) % 0x1_0000)
  {
    if t.started && next == 0xFFFF {
      assert (0 - 1 - (t.lost + 1)) % 0x1_0000 == (0xFFFF - 1 - t.lost) % 0x1_0000 by {
        var x := 0xFFFF - 1 - t.lost;
        assert x - 0x1_0000 == 0 - 1 - (t.lost + 1);
        assert (x - 0x1_0000) % 0x1_0000 == x % 0x1_0000;
      }
    }
  }

  function Count(mask: seq<bool>): nat {
    if mask == [] then 0 else (if mask[0] then 1 else 0) + Count(mask[1..])
  }

  /** Index just past the last packet that arrives; 0 when none does. */
  function PastLast(mask: seq<bool>): nat {
    if mask == [] then 0
    else
      var rest := PastLast(mask[1..]);
      if rest > 0 then rest + 1 else if mask[0] then 1 else 0
  }

  /** Once a packet has arrived, the losses counted are all those up to the last arrival. */
  lemma {:induction false} LostAfterStart(lost: nat, mask: seq<bool>)
    ensures LostBetween(Track(true, lost), mask) ==
            if PastLast(mask) == 0 then 0 else lost + PastLast(mask) - Count(mask)
    ensures PastLast(mask) == 0 ==> Count(mask) == 0
    decreases |mask|
  {
    if mask != [] {
      LostAfterStart(if mask[0] then 0 else lost + 1, mask[1..]);
    }
  }

  /** With nothing arrived yet, the leading losses do not count: `lost` is the width of the window from the
      first arrival to the last, less the arrivals. */
  lemma {:induction false} LostIsWindowLessArrivals(before: nat, mask: seq<bool>, first: nat)
    requires first < |mask| && mask[first] && forall k :: 0 <= k < first ==> !mask[k]
    ensures LostBetween(Track(false, before), mask) == PastLast(mask) - first - Count(mask)
    decreases |mask|
  {
    if first == 0 {
      LostAfterStart(0, mask[1..]);
    } else {
      LostIsWindowLessArrivals(before + 1, mask[1..], first - 1);
    }
  }

  predicate AllTrue(mask: seq<bool>) {
    forall k :: 0 <= k < |mask| ==> mask[k]
  }

  // ----- one frame's packets

  /** The fragments of `job` from `off` on, some of them lost. `good`: none lost so far. */
  lemma {:induction false} FrameOverLink(s: State, t: Track, job: Job, mtu: nat, ssrc: u32, seqNo: u16, off: nat,
                                         mask: seq<bool>, good: bool)
    requires SendableFrom(job.info, s.cap, mtu, off) && Synced(s, t, seqNo) && ShortRuns(t, mask)
    requires |mask| == |Packets(job.info, job.ts, mtu, ssrc, seqNo, off)|
    requires good && 0 < off < |job.info.scan| ==> Midway(s, job, off) && t == Track(true, 0)
    requires !good ==> off > 0 && (!s.inFrame || t.lost > 0)
    ensures var pkts := Packets(job.info, job.ts, mtu, ssrc, seqNo, off);
            var e := Run(s, Arrived(pkts, mask));
            && Synced(e, After(t, mask), (seqNo + |pkts|) % 0x1_0000)
            && e.lost == s.lost + LostBetween(t, mask)
            && Delivered(s, Arrived(pkts, mask)) ==
               if off < |job.info.scan| && good && AllTrue(mask) then [Expected(job)] else []
    decreases |job.info.scan| - off
  {
    hide P.Printable, Midway, Expected, Packet, Packets, Take, Push, Out, Arrived, Run, Delivered;
    hide After, ShortRuns, LostBetween, Gap, AllTrue, HasHeader, SendableFrom;
    SendableIs(job.info, s.cap, mtu, off);
    PacketsStep(job.info, job.ts, mtu, ssrc, seqNo, off);
    var pkts := Packets(job.info, job.ts, mtu, ssrc, seqNo, off);
    if off < |job.info.scan| {
      var next, off' := (seqNo + 1) % 0x1_0000, off + Take(job.info, mtu, off);
      SendableNext(job.info, s.cap, mtu, off);
      var p, rest := Packet(job.info, job.ts, mtu, ssrc, seqNo, off), Packets(job.info, job.ts, mtu, ssrc, next, off');
      assert pkts[1..] == rest;
      NextSeq(seqNo, |rest|);
      MaskStep(t, mask);
      ArrivedStep(pkts, mask);
      if mask[0] {
        FragmentArrives(s, t, job, mtu, ssrc, seqNo, off, good);
        var r := Push(s, p);
        FrameOverLink(r.state, Track(true, 0), job, mtu, ssrc, next, off', mask[1..], good);
        RunCons(s, p, Arrived(rest, mask[1..]));
        if off' >= |job.info.scan| {
          PacketsStep(job.info, job.ts, mtu, ssrc, next, off');
          NothingLeft(mask[1..]);
        }
      } else {
        SyncedLost(s, t, seqNo);
        FrameOverLink(s, Track(t.started, t.lost + 1), job, mtu, ssrc, next, off', mask[1..], false);
      }
    } else {
      NothingLeft(mask);
      NothingArrives(s, t, pkts, mask);
    }
  }

  lemma {:induction false} NothingLeft(mask: seq<bool>)
    requires |mask| == 0
    ensures AllTrue(mask)
  {
  }

  lemma {:induction false} NothingArrives(s: State, t: Track, pkts: seq<bytes>, mask: seq<bool>)
    requires Valid(s) && |pkts| == |mask| == 0
    ensures Run(s, Arrived(pkts, mask)) == s && Delivered(s, Arrived(pkts, mask)) == []
    ensures After(t, mask) == t && LostBetween(t, mask) == 0
  {
  }

  lemma {:induction false} MaskStep(t: Track, mask: seq<bool>)
    requires mask != []
    ensures var t' := if mask[0] then Track(true, 0) else Track(t.started, t.lost + 1);
            && After(t, mask) == After(t', mask[1..])
            && (ShortRuns(t, mask) <==> (mask[0] && t.started ==> t.lost < 0x8000) && ShortRuns(t', mask[1..]))
            && LostBetween(t, mask) == (if mask[0] && t.started then t.lost else 0) + LostBetween(t', mask[1..])
    ensures AllTrue(mask) <==> mask[0] && AllTrue(mask[1..])
  {
    AllTrueStep(mask);
  }

  lemma {:induction false} ArrivedStep(packets: seq<bytes>, mask: seq<bool>)
    requires |packets| == |mask| > 0
    ensures Arrived(packets, mask) ==
            if mask[0] then [packets[0]] + Arrived(packets[1..], mask[1..]) else Arrived(packets[1..], mask[1..])
  {
  }

  lemma {:induction false} NextSeq(seqNo: u16, n: nat)
    ensures ((seqNo + 1) % 0x1_0000 + n) % 0x1_0000 == (seqNo + (n + 1)) % 0x1_0000
  {
  }

  lemma {:induction false} AllTrueStep(mask: seq<bool>)
    requires mask != []
    ensures AllTrue(mask) <==> mask[0] && AllTrue(mask[1..])
  {
    if mask[0] && AllTrue(mask[1..]) {
      forall k | 0 <= k < |mask| ensures mask[k] {
        if k > 0 {
          assert mask[k] == mask[1..][k - 1];
        }
      }
    }
  }

  lemma {:induction false} RunCons(s: State, p: bytes, rest: seq<bytes>)
    requires Valid(s)
    ensures Run(s, [p] + rest) == Run(Push(s, p).state, rest)
    ensures Delivered(s, [p] + rest) == Out(Push(s, p)) + Delivered(Push(s, p).state, rest)
  {
    hide Push, Out;
    assert ([p] + rest)[1..] == rest;
  }

  /** One fragment that arrives, in each of the three situations. */
  lemma {:induction false} FragmentArrives(s: State, t: Track, job: Job, mtu: nat, ssrc: u32, seqNo: u16, off: nat, good: bool)
    requires SendableFrom(job.info, s.cap, mtu, off) && Synced(s, t, seqNo) && (t.started ==> t.lost < 0x8000)
    requires off < |job.info.scan|
    requires good && 0 < off ==> Midway(s, job, off) && t == Track(true, 0)
    requires !good ==> off > 0 && (!s.inFrame || t.lost > 0)
    ensures var r := Push(s, Packet(job.info, job.ts, mtu, ssrc, seqNo, off));
            var off' := off + Take(job.info, mtu, off);
            && Synced(r.state, Track(true, 0), (seqNo + 1) % 0x1_0000)
            && r.state.lost == s.lost + (if t.started then t.lost else 0)
            && Out(r) == (if good && off' == |job.info.scan| then [Expected(job)] else [])
            && (good && off' < |job.info.scan| ==> Midway(r.state, job, off'))
            && (!good ==> !r.state.inFrame)
  {
    hide Push, P.Printable, Packet, Take, Midway, Expected, Out, Gap, LastOffset;
    SendableNext(job.info, s.cap, mtu, off);
    GapIsLoss(s, t, seqNo);
    if off == 0 {
      PushFirst(s, job, mtu, ssrc, seqNo);
    } else if good {
      PushNext(s, job, mtu, ssrc, seqNo, off);
    } else {
      PushStray(s, job, mtu, ssrc, seqNo, off);
    }
  }

  // ----- whole streams

  predicate AllPresent(jobs: seq<Job>) {
    forall k :: 0 <= k < |jobs| ==> TablesPresent(jobs[k].info)
  }

  predicate AllSendable(jobs: seq<Job>, cap: nat, mtu: nat) {
    forall k :: 0 <= k < |jobs| ==> Sendable(jobs[k].info, cap, mtu)
  }

  /** Every packet of every job, numbered consecutively. */
  function Sent(jobs: seq<Job>, mtu: nat, ssrc: u32, seqNo: u16): seq<bytes>
    requires mtu >= MIN_MTU && AllPresent(jobs)
  {
    if jobs == [] then []
    else
      var first := Packets(jobs[0].info, jobs[0].ts, mtu, ssrc, seqNo, 0);
      first + Sent(jobs[1..], mtu, ssrc, (seqNo + |first|) % 0x1_0000)
  }

  /** The frames none of whose packets is lost. */
  function Whole(jobs: seq<Job>, mtu: nat, ssrc: u32, seqNo: u16, mask: seq<bool>): seq<Delivery>
    requires mtu >= MIN_MTU && AllPresent(jobs)
    requires |mask| == |Sent(jobs, mtu, ssrc, seqNo)|
  {
    if jobs == [] then []
    else
      var n := |Packets(jobs[0].info, jobs[0].ts, mtu, ssrc, seqNo, 0)|;
      (if AllTrue(mask[..n]) then [Expected(jobs[0])] else []) +
      Whole(jobs[1..], mtu, ssrc, (seqNo + n) % 0x1_0000, mask[n..])
  }

  lemma {:induction false} ArrivedAppend(a: seq<bytes>, b: seq<bytes>, ma: seq<bool>, mb: seq<bool>)
    requires |a| == |ma| && |b| == |mb|
    ensures Arrived(a + b, ma + mb) == Arrived(a, ma) + Arrived(b, mb)
  {
    hide Arrived;
    if a == [] {
      assert a + b == b && ma + mb == mb;
      NoneSent();
    } else {
      var rest, more := Arrived(a[1..], ma[1..]), Arrived(b, mb);
      HeadAndTail(a, b);
      HeadAndTail(ma, mb);
      ArrivedStep(a, ma);
      ArrivedStep(a + b, ma + mb);
      ArrivedAppend(a[1..], b, ma[1..], mb);
      FirstOfThree(a[0], rest, more);
    }
  }

  lemma {:induction false} HeadAndTail<T>(a: seq<T>, b: seq<T>)
    requires a != []
    ensures (a + b)[0] == a[0] && (a + b)[1..] == a[1..] + b
  {
  }

  lemma {:induction false} FirstOfThree<T>(p: T, a: seq<T>, b: seq<T>)
    ensures [p] + (a + b) == ([p] + a) + b
  {
  }

  lemma {:induction false} NoneSent()
    ensures Arrived([], []) == []
  {
  }

  lemma {:induction false} RunAppend(s: State, a: seq<bytes>, b: seq<bytes>)
    requires Valid(s)
    ensures Run(s, a + b) == Run(Run(s, a), b)
    ensures Delivered(s, a + b) == Delivered(s, a) + Delivered(Run(s, a), b)
    decreases |a|
  {
    hide Push, Out;
    if a == [] {
      assert a + b == b;
    } else {
      assert (a + b)[1..] == a[1..] + b;
      RunAppend(Push(s, a[0]).state, a[1..], b);
    }
  }

  /** From any receiver in step with the link: the frames delivered are exactly the whole ones. */
  lemma {:induction false} StreamOverLink(s: State, t: Track, jobs: seq<Job>, mtu: nat, ssrc: u32, seqNo: u16, mask: seq<bool>)
    requires mtu >= MIN_MTU && AllPresent(jobs) && AllSendable(jobs, s.cap, mtu)
    requires Synced(s, t, seqNo) && |mask| == |Sent(jobs, mtu, ssrc, seqNo)| && ShortRuns(t, mask)
    ensures var a := Arrived(Sent(jobs, mtu, ssrc, seqNo), mask);
            && Delivered(s, a) == Whole(jobs, mtu, ssrc, seqNo, mask)
            && Run(s, a).lost == s.lost + LostBetween(t, mask)
    decreases |jobs|
  {
    hide Push, Out, P.Printable, Expected, Packets, Midway, After, ShortRuns, LostBetween, AllTrue, HasHeader, Delivered, Run, Arrived;
    EmptyStream(s, t, mask);
    if jobs != [] {
      var first := Packets(jobs[0].info, jobs[0].ts, mtu, ssrc, seqNo, 0);
      var n, next := |first|, (seqNo + |first|) % 0x1_0000;
      var rest := Sent(jobs[1..], mtu, ssrc, next);
      var m1, m2 := mask[..n], mask[n..];
      assert mask == m1 + m2;
      MaskAppend(t, m1, m2);
      FrameOverLink(s, t, jobs[0], mtu, ssrc, seqNo, 0, m1, true);
      var mid := Run(s, Arrived(first, m1));
      FirstNonEmpty(jobs[0].info, s.cap, mtu);
      StreamOverLink(mid, After(t, m1), jobs[1..], mtu, ssrc, next, m2);
      ArrivedAppend(first, rest, m1, m2);
      RunAppend(s, Arrived(first, m1), Arrived(rest, m2));
    }
  }

  lemma {:induction false} EmptyStream(s: State, t: Track, mask: seq<bool>)
    requires Valid(s)
    ensures Delivered(s, []) == [] && Run(s, []) == s && Arrived([], []) == []
    ensures mask == [] ==> LostBetween(t, mask) == 0
  {
  }

  lemma {:induction false} FirstNonEmpty(info: JpegScan, cap: nat, mtu: nat)
    requires Sendable(info, cap, mtu)
    ensures 0 < |info.scan|
  {
  }

  /** A fresh receiver, any list of JPEGs, any loss pattern with short runs: the receiver hands over exactly
      the frames all of whose packets arrived, in order and each with its own bytes, and counts exactly the
      packets lost between the first and the last that arrived. */
  lemma {:induction false} LossyLink(jobs: seq<Job>, cap: nat, mtu: nat, ssrc: u32, firstSeq: u16, mask: seq<bool>)
    requires mtu >= MIN_MTU && cap >= RESERVE + 2 && AllPresent(jobs) && AllSendable(jobs, cap, mtu)
    requires |mask| == |Sent(jobs, mtu, ssrc, firstSeq)| && ShortRuns(Track(false, 0), mask)
    ensures var a := Arrived(Sent(jobs, mtu, ssrc, firstSeq), mask);
            && Delivered(Init(cap), a) == Whole(jobs, mtu, ssrc, firstSeq, mask)
            && Run(Init(cap), a).lost == LostBetween(Track(false, 0), mask)
  {
    StreamOverLink(Init(cap), Track(false, 0), jobs, mtu, ssrc, firstSeq, mask);
  }
}
