/** Runs of loss of any length and the frames delivered: exactly which streams of JPEGs can be put together wrongly. */
module JpegSplice {
  import opened Bytes
  import opened JpegFile
  import opened JpegSender
  import opened JpegReceiver
  import opened JpegLossyLink
  import G = JpegGaps
  import P = JpegHeaders

  // ----- which fragments can be taken for neighbours

  /** Of the fragments from the one at `from` on, one starts at `off`, or the last one ends there. */
  predicate Starts(info: JpegScan, mtu: nat, from: nat, off: nat)
    requires TablesPresent(info) && mtu >= MIN_MTU
    decreases |info.scan| - from
  {
    from == off || (from < |info.scan| && Starts(info, mtu, from + Take(info, mtu, from), off))
  }

  /** How many packets there are from the one at `from` on that start below `to`. */
  function Between(info: JpegScan, mtu: nat, from: nat, to: nat): nat
    requires TablesPresent(info) && mtu >= MIN_MTU
    decreases |info.scan| - from
  {
    if from >= |info.scan| || from >= to then 0 else 1 + Between(info, mtu, from + Take(info, mtu, from), to)
  }

  /** How many packets there are from the one at `from` on. */
  function Later(info: JpegScan, mtu: nat, from: nat): nat
    requires TablesPresent(info) && mtu >= MIN_MTU
    decreases |info.scan| - from
  {
    if from >= |info.scan| then 0 else 1 + Later(info, mtu, from + Take(info, mtu, from))
  }

  /** The receiver holds `end` bytes of `a` and `n` packets are missed; a fragment of `b` from the one at `off` on goes
      on where they end, has their timestamp, and comes when the misses look like none. */
  predicate JoinsFrom(a: Job, end: nat, n: nat, b: Job, mtu: nat, off: nat)
    requires TablesPresent(b.info) && mtu >= MIN_MTU
  {
    && a.ts == b.ts && end < |b.info.scan| && Starts(b.info, mtu, off, end)
    && G.SeenLoss(n + Between(b.info, mtu, off, end)) == 0
  }

  /** So does a fragment of one of `jobs`, if nothing of those before it arrives either. */
  predicate JoinsLater(a: Job, end: nat, n: nat, jobs: seq<Job>, mtu: nat)
    requires AllPresent(jobs) && mtu >= MIN_MTU
    decreases |jobs|
  {
    jobs != [] &&
    (JoinsFrom(a, end, n, jobs[0], mtu, 0) || JoinsLater(a, end, n + Later(jobs[0].info, mtu, 0), jobs[1..], mtu))
  }

  /** The first `end` bytes of `a`, a fragment's end but not the last one's, and a later fragment of one of `jobs`. */
  predicate JoinsAt(a: Job, end: nat, jobs: seq<Job>, mtu: nat)
    requires TablesPresent(a.info) && AllPresent(jobs) && mtu >= MIN_MTU
  {
    && 0 < end < |a.info.scan| && Starts(a.info, mtu, 0, end)
    && JoinsLater(a, end, Later(a.info, mtu, end), jobs, mtu)
  }

  /** Some JPEG's front can be joined to the rest of a later one. */
  predicate Joinable(jobs: seq<Job>, mtu: nat)
    requires AllPresent(jobs) && mtu >= MIN_MTU
    decreases |jobs|
  {
    jobs != [] &&
    ((exists end :: 0 < end < |jobs[0].info.scan| && JoinsAt(jobs[0], end, jobs[1..], mtu)) ||
     Joinable(jobs[1..], mtu))
  }

  lemma {:induction false} StartsAbove(info: JpegScan, mtu: nat, from: nat, off: nat)
    requires TablesPresent(info) && mtu >= MIN_MTU && Starts(info, mtu, from, off)
    ensures from <= off
    decreases |info.scan| - from
  {
    hide Take;
    if from != off {
      StartsAbove(info, mtu, from + Take(info, mtu, from), off);
    }
  }

  lemma {:induction false} StartsNext(info: JpegScan, mtu: nat, from: nat, off: nat)
    requires TablesPresent(info) && mtu >= MIN_MTU && Starts(info, mtu, from, off) && off < |info.scan|
    ensures Starts(info, mtu, from, off + Take(info, mtu, off))
    decreases |info.scan| - from
  {
    hide Take;
    if from != off {
      StartsNext(info, mtu, from + Take(info, mtu, from), off);
    }
  }

  lemma {:induction false} LaterIs(info: JpegScan, ts: u32, mtu: nat, ssrc: u32, seqNo: u16, off: nat)
    requires TablesPresent(info) && mtu >= MIN_MTU
    ensures |Packets(info, ts, mtu, ssrc, seqNo, off)| == Later(info, mtu, off)
    decreases |info.scan| - off
  {
    hide Packets, Packet, Take;
    PacketsStep(info, ts, mtu, ssrc, seqNo, off);
    if off < |info.scan| {
      LaterIs(info, ts, mtu, ssrc, (seqNo + 1) % 0x1_0000, off + Take(info, mtu, off));
    }
  }

  // ----- no joint: the frames delivered are the whole ones

  /** What is in progress: the first `end` bytes of `a`, with `n` packets missed since, and no fragment of `job` from
      `off` on, nor any of `rest`, can be joined to it. */
  ghost predicate Harmless(s: State, a: Job, end: nat, n: nat, seqNo: u16, job: Job, mtu: nat, off: nat, rest: seq<Job>)
    requires TablesPresent(job.info) && AllPresent(rest) && mtu >= MIN_MTU
  {
    s.inFrame ==>
      && s.timestamp == a.ts && |s.scan| == end
      && s.lastSeq.Some? && s.lastSeq.value == (seqNo - 1 - n) % 0x1_0000
      && !JoinsFrom(a, end, n, job, mtu, off)
      && !JoinsLater(a, end, n + Later(job.info, mtu, off), rest, mtu)
  }

  /** Nothing in progress goes on with the fragment of `job` at `off` now. */
  predicate Stranger(s: State, job: Job, seqNo: u16, off: nat) {
    !s.inFrame || Gap(s.lastSeq, seqNo) != 0 || s.timestamp != job.ts || |s.scan| != off
  }

  lemma {:induction false} HarmlessIsStranger(s: State, a: Job, end: nat, n: nat, seqNo: u16, job: Job, mtu: nat, off: nat,
                                              rest: seq<Job>)
    requires TablesPresent(job.info) && AllPresent(rest) && mtu >= MIN_MTU && off < |job.info.scan|
    requires Harmless(s, a, end, n, seqNo, job, mtu, off, rest)
    ensures Stranger(s, job, seqNo, off)
  {
    hide Gap, G.SeenLoss, Take, TablesPresent, JoinsLater;
    if s.inFrame {
      G.LossByRange(s.lastSeq.value, n, seqNo);
    }
  }

  /** Such a fragment delivers nothing and leaves no frame. */
  lemma {:induction false} PushStranger(s: State, job: Job, mtu: nat, ssrc: u32, seqNo: u16, off: nat)
    requires Valid(s) && Legal(job.info, s.cap) && mtu >= MIN_MTU && 0 < off < |job.info.scan| && off < OFFSETS
    requires Stranger(s, job, seqNo, off)
    ensures var r := Push(s, Packet(job.info, job.ts, mtu, ssrc, seqNo, off));
            Out(r) == [] && !r.state.inFrame
  {
    hide P.Printable, Append, Push, Packet, Take, Gap;
    PushPacket(s, job.info, job.ts, mtu, ssrc, seqNo, off);
  }

  lemma {:induction false} HarmlessLost(s: State, a: Job, end: nat, n: nat, seqNo: u16, job: Job, mtu: nat, off: nat,
                                        rest: seq<Job>)
    requires TablesPresent(job.info) && AllPresent(rest) && mtu >= MIN_MTU && off < |job.info.scan|
    requires Harmless(s, a, end, n, seqNo, job, mtu, off, rest)
    ensures Harmless(s, a, end, n + 1, (seqNo + 1) % 0x1_0000, job, mtu, off + Take(job.info, mtu, off), rest)
  {
    hide G.SeenLoss, Take, TablesPresent, JoinsLater;
    var to := off + Take(job.info, mtu, off);
    if s.inFrame {
      LastSeen(s.lastSeq.value, seqNo, n);
      if Starts(job.info, mtu, to, end) {
        StartsAbove(job.info, mtu, to, end);
      }
    }
  }

  lemma {:induction false} LastSeen(last: u16, seqNo: u16, n: nat)
    requires last == (seqNo - 1 - n) % 0x1_0000
    ensures last == ((seqNo + 1) % 0x1_0000 - 1 - (n + 1)) % 0x1_0000
  {
    if seqNo == 0xFFFF {
      var x := seqNo - 1 - n;
      assert (x - 0x1_0000) % 0x1_0000 == x % 0x1_0000;
    }
  }

  /** A frame that was good so far and now misses a fragment. */
  lemma {:induction false} GoodLost(s: State, job: Job, mtu: nat, seqNo: u16, off: nat, rest: seq<Job>)
    requires TablesPresent(job.info) && AllPresent(rest) && mtu >= MIN_MTU && 0 < off < |job.info.scan|
    requires Midway(s, job, off) && s.lastSeq == Some((seqNo - 1) % 0x1_0000)
    requires Starts(job.info, mtu, 0, off) && !JoinsAt(job, off, rest, mtu)
    ensures Harmless(s, job, off, 1, (seqNo + 1) % 0x1_0000, job, mtu, off + Take(job.info, mtu, off), rest)
  {
    hide G.SeenLoss, Take, TablesPresent, JoinsLater, P.Printable, HasHeader;
    var to := off + Take(job.info, mtu, off);
    LastSeen(s.lastSeq.value, seqNo, 0);
    if Starts(job.info, mtu, to, off) {
      StartsAbove(job.info, mtu, to, off);
    }
  }

  /** Between the fragments of `job`: everything so far arrived, or what is in progress is harmless. */
  ghost predicate Along(s: State, a: Job, end: nat, n: nat, seqNo: u16, job: Job, mtu: nat, off: nat, rest: seq<Job>,
                        good: bool)
    requires TablesPresent(job.info) && AllPresent(rest) && mtu >= MIN_MTU
  {
    && Valid(s) && Starts(job.info, mtu, 0, off) && (off == 0 ==> good)
    && (if good && 0 < off < |job.info.scan| then Midway(s, job, off) && s.lastSeq == Some((seqNo - 1) % 0x1_0000)
        else Harmless(s, a, end, n, seqNo, job, mtu, off, rest))
  }

  lemma {:induction false} GapBehind(seqNo: u16)
    ensures Gap(Some((seqNo - 1) % 0x1_0000), seqNo) == 0
  {
    G.LossByRange((seqNo - 1) % 0x1_0000, 0, seqNo);
  }

  /** One fragment that arrives. */
  lemma {:induction false} OneArrives(s: State, a: Job, end: nat, n: nat, job: Job, mtu: nat, ssrc: u32, seqNo: u16,
                                      off: nat, rest: seq<Job>, good: bool)
    requires SendableFrom(job.info, s.cap, mtu, off) && AllPresent(rest) && off < |job.info.scan|
    requires Along(s, a, end, n, seqNo, job, mtu, off, rest, good)
    ensures var r, to := Push(s, Packet(job.info, job.ts, mtu, ssrc, seqNo, off)), off + Take(job.info, mtu, off);
            && Out(r) == (if good && to == |job.info.scan| then [Expected(job)] else [])
            && r.state.cap == s.cap
            && Along(r.state, a, end, n, (seqNo + 1) % 0x1_0000, job, mtu, to, rest, good)
  {
    hide Push, P.Printable, Packet, Take, Expected, Out, Gap, HasHeader, Starts, Between, JoinsFrom, JoinsLater, Later;
    StartsNext(job.info, mtu, 0, off);
    if off == 0 {
      PushFirst(s, job, mtu, ssrc, seqNo);
    } else if good {
      GapBehind(seqNo);
      PushNext(s, job, mtu, ssrc, seqNo, off);
    } else {
      HarmlessIsStranger(s, a, end, n, seqNo, job, mtu, off, rest);
      PushStranger(s, job, mtu, ssrc, seqNo, off);
    }
  }

  /** One fragment that is lost: what is in progress from now on, and how many are missed. */
  lemma {:induction false} OneLost(s: State, a: Job, end: nat, n: nat, job: Job, mtu: nat, seqNo: u16, off: nat,
                                   rest: seq<Job>, good: bool) returns (a': Job, end': nat, n': nat)
    requires mtu >= MIN_MTU && TablesPresent(job.info) && AllPresent(rest) && off < |job.info.scan|
    requires Along(s, a, end, n, seqNo, job, mtu, off, rest, good) && !JoinsAt(job, off, rest, mtu)
    ensures Along(s, a', end', n', (seqNo + 1) % 0x1_0000, job, mtu, off + Take(job.info, mtu, off), rest, false)
  {
    hide Midway, Harmless, TablesPresent, Take, Starts, JoinsAt, Valid;
    StartsNext(job.info, mtu, 0, off);
    if good && off > 0 {
      GoodLost(s, job, mtu, seqNo, off, rest);
      a', end', n' := job, off, 1;
    } else {
      HarmlessLost(s, a, end, n, seqNo, job, mtu, off, rest);
      a', end', n' := a, end, n + 1;
    }
  }

  /** Between two JPEGs: what is in progress, and that none of `jobs` can be joined to it. */
  ghost predicate Loose(s: State, a: Job, end: nat, n: nat, seqNo: u16, jobs: seq<Job>, mtu: nat)
    requires AllPresent(jobs) && mtu >= MIN_MTU
  {
    && Valid(s)
    && (s.inFrame ==>
          && s.timestamp == a.ts && |s.scan| == end
          && s.lastSeq.Some? && s.lastSeq.value == (seqNo - 1 - n) % 0x1_0000
          && !JoinsLater(a, end, n, jobs, mtu))
  }

  lemma {:induction false} LooseAlong(s: State, a: Job, end: nat, n: nat, seqNo: u16, jobs: seq<Job>, mtu: nat)
    requires AllPresent(jobs) && mtu >= MIN_MTU && jobs != [] && Loose(s, a, end, n, seqNo, jobs, mtu)
    ensures Along(s, a, end, n, seqNo, jobs[0], mtu, 0, jobs[1..], true)
  {
    hide JoinsFrom, Later, Valid, TablesPresent, Midway;
  }

  lemma {:induction false} AlongLoose(s: State, a: Job, end: nat, n: nat, seqNo: u16, job: Job, mtu: nat, off: nat,
                                      rest: seq<Job>, good: bool)
    requires TablesPresent(job.info) && AllPresent(rest) && mtu >= MIN_MTU && off >= |job.info.scan|
    requires Along(s, a, end, n, seqNo, job, mtu, off, rest, good)
    ensures Loose(s, a, end, n, seqNo, rest, mtu)
  {
    hide JoinsFrom, JoinsLater, Valid, TablesPresent, Midway, Take, Starts;
  }

  lemma {:induction false} AlongIs(s: State, a: Job, end: nat, n: nat, seqNo: u16, job: Job, mtu: nat, off: nat,
                                   rest: seq<Job>, good: bool)
    requires TablesPresent(job.info) && AllPresent(rest) && mtu >= MIN_MTU
    requires Along(s, a, end, n, seqNo, job, mtu, off, rest, good)
    ensures Valid(s)
  {
    hide Harmless, Midway, TablesPresent, Starts, Valid;
  }

  /** The fragments of `job` from `off` on, any of them lost. */
  lemma {:induction false} FrameLoose(s: State, a: Job, end: nat, n: nat, job: Job, mtu: nat, ssrc: u32, seqNo: u16,
                                      off: nat, rest: seq<Job>, mask: seq<bool>, good: bool)
    returns (a': Job, end': nat, n': nat)
    requires SendableFrom(job.info, s.cap, mtu, off) && AllPresent(rest)
    requires Along(s, a, end, n, seqNo, job, mtu, off, rest, good)
    requires forall e :: 0 < e < |job.info.scan| ==> !JoinsAt(job, e, rest, mtu)
    requires |mask| == |Packets(job.info, job.ts, mtu, ssrc, seqNo, off)|
    ensures var pkts := Packets(job.info, job.ts, mtu, ssrc, seqNo, off);
            && Loose(Run(s, Arrived(pkts, mask)), a', end', n', (seqNo + |pkts|) % 0x1_0000, rest, mtu)
            && Delivered(s, Arrived(pkts, mask)) ==
               if off < |job.info.scan| && good && AllTrue(mask) then [Expected(job)] else []
    decreases |job.info.scan| - off
  {
    hide P.Printable, Expected, Packet, Packets, Take, Push, Out, Arrived, Run, Delivered, AllTrue, TablesPresent;
    hide Along, Loose, JoinsAt;
    AlongIs(s, a, end, n, seqNo, job, mtu, off, rest, good);
    PacketsStep(job.info, job.ts, mtu, ssrc, seqNo, off);
    var pkts := Packets(job.info, job.ts, mtu, ssrc, seqNo, off);
    if off < |job.info.scan| {
      var next: u16, to := (seqNo + 1) % 0x1_0000, off + Take(job.info, mtu, off);
      var p, more := Packet(job.info, job.ts, mtu, ssrc, seqNo, off), Packets(job.info, job.ts, mtu, ssrc, next, to);
      assert pkts[1..] == more;
      NextSeq(seqNo, |more|);
      AllTrueStep(mask);
      ArrivedStep(pkts, mask);
      if mask[0] {
        OneArrives(s, a, end, n, job, mtu, ssrc, seqNo, off, rest, good);
        a', end', n' := FrameLoose(Push(s, p).state, a, end, n, job, mtu, ssrc, next, to, rest, mask[1..], good);
        RunCons(s, p, Arrived(more, mask[1..]));
        if to >= |job.info.scan| {
          PacketsStep(job.info, job.ts, mtu, ssrc, next, to);
          NothingLeft(mask[1..]);
        }
      } else {
        if off == 0 {
          NotAtStart(job, rest, mtu);
        }
        a', end', n' := OneLost(s, a, end, n, job, mtu, seqNo, off, rest, good);
        a', end', n' := FrameLoose(s, a', end', n', job, mtu, ssrc, next, to, rest, mask[1..], false);
      }
    } else {
      NothingLeft(mask);
      NothingArrives(s, Track(false, 0), pkts, mask);
      AlongLoose(s, a, end, n, seqNo, job, mtu, off, rest, good);
      a', end', n' := a, end, n;
    }
  }

  lemma {:induction false} NotAtStart(job: Job, rest: seq<Job>, mtu: nat)
    requires TablesPresent(job.info) && AllPresent(rest) && mtu >= MIN_MTU
    ensures !JoinsAt(job, 0, rest, mtu)
  {
    hide TablesPresent, Starts, JoinsLater;
  }

  lemma {:induction false} StreamLoose(s: State, a: Job, end: nat, n: nat, jobs: seq<Job>, mtu: nat, ssrc: u32, seqNo: u16,
                                       mask: seq<bool>)
    requires mtu >= MIN_MTU && AllPresent(jobs) && AllSendable(jobs, s.cap, mtu) && !Joinable(jobs, mtu)
    requires Loose(s, a, end, n, seqNo, jobs, mtu) && |mask| == |Sent(jobs, mtu, ssrc, seqNo)|
    ensures Valid(s)
    ensures Delivered(s, Arrived(Sent(jobs, mtu, ssrc, seqNo), mask)) == Whole(jobs, mtu, ssrc, seqNo, mask)
    decreases |jobs|
  {
    hide Push, Out, P.Printable, Expected, Packets, AllTrue, HasHeader, Delivered, Run, Arrived, SendableFrom, TablesPresent;
    hide JoinsAt, JoinsLater, Along;
    EmptyStream(s, Track(false, 0), mask);
    if jobs != [] {
      var first := Packets(jobs[0].info, jobs[0].ts, mtu, ssrc, seqNo, 0);
      var k, next: u16 := |first|, (seqNo + |first|) % 0x1_0000;
      var rest := Sent(jobs[1..], mtu, ssrc, next);
      var m1, m2 := mask[..k], mask[k..];
      assert mask == m1 + m2;
      LooseAlong(s, a, end, n, seqNo, jobs, mtu);
      var a', end', n' := FrameLoose(s, a, end, n, jobs[0], mtu, ssrc, seqNo, 0, jobs[1..], m1, true);
      var mid := Run(s, Arrived(first, m1));
      FirstNonEmpty(jobs[0].info, s.cap, mtu);
      StreamLoose(mid, a', end', n', jobs[1..], mtu, ssrc, next, m2);
      ArrivedAppend(first, rest, m1, m2);
      RunAppend(s, Arrived(first, m1), Arrived(rest, m2));
    }
  }

  // ----- a joint: some losses have a frame delivered that was never sent

  /** The front of one JPEG and the rest of another, under the headers of the first. */
  function Hybrid(a: JpegScan, b: JpegScan, end: nat): JpegScan
    requires end <= |a.scan| && end <= |b.scan|
  {
    a.(scan := a.scan[..end] + b.scan[end..])
  }

  /** A fragment of `b` goes on with the frame the receiver takes it for. */
  lemma {:induction false} PushOther(s: State, h: Job, b: Job, mtu: nat, ssrc: u32, seqNo: u16, off: nat)
    requires Legal(h.info, s.cap) && SendableFrom(b.info, s.cap, mtu, off) && 0 < off < |b.info.scan|
    requires h.ts == b.ts && |h.info.scan| == |b.info.scan| && h.info.scan[off..] == b.info.scan[off..]
    requires Midway(s, h, off) && Gap(s.lastSeq, seqNo) == 0
    ensures var r, to := Push(s, Packet(b.info, b.ts, mtu, ssrc, seqNo, off)), off + Take(b.info, mtu, off);
            && Out(r) == (if to == |b.info.scan| then [Expected(h)] else [])
            && (to < |b.info.scan| ==> Midway(r.state, h, to))
            && r.state.lastSeq == Some(seqNo)
  {
    hide P.Printable, Append, Push, Packet, Take, Gap, Midway, Legal, SendableFrom, Expected, TablesPresent;
    LegalIs(h.info, s.cap);
    SendableIs(b.info, s.cap, mtu, off);
    SendableNext(b.info, s.cap, mtu, off);
    MidwayIs(s, h, off);
    NoteMidway(s, h, off, seqNo);
    PushPacket(s, b.info, b.ts, mtu, ssrc, seqNo, off);
    var s1, take := Note(s, seqNo), Take(b.info, mtu, off);
    var data := b.info.scan[off..off + take];
    assert data == b.info.scan[off..][..take] == h.info.scan[off..off + take];
    assert [] + data == data;
    AppendNext(s1, h, off, take);
  }

  lemma {:induction false} OtherArrives(s: State, h: Job, b: Job, mtu: nat, ssrc: u32, seqNo: u16, off: nat)
    requires Legal(h.info, s.cap) && SendableFrom(b.info, s.cap, mtu, off) && 0 < off < |b.info.scan|
    requires h.ts == b.ts && |h.info.scan| == |b.info.scan| && h.info.scan[off..] == b.info.scan[off..]
    requires Midway(s, h, off) && Gap(s.lastSeq, seqNo) == 0
    ensures Valid(s) && Delivered(s, Packets(b.info, b.ts, mtu, ssrc, seqNo, off)) == [Expected(h)]
    decreases |b.info.scan| - off
  {
    hide Push, Packet, Packets, Delivered, Out, Legal, Expected, TablesPresent, Take, Gap, SendableFrom, HasHeader;
    LegalIs(h.info, s.cap);
    SendableIs(b.info, s.cap, mtu, off);
    SendableNext(b.info, s.cap, mtu, off);
    PushOther(s, h, b, mtu, ssrc, seqNo, off);
    PacketsStep(b.info, b.ts, mtu, ssrc, seqNo, off);
    var next: u16, to := (seqNo + 1) % 0x1_0000, off + Take(b.info, mtu, off);
    var p, rest := Packet(b.info, b.ts, mtu, ssrc, seqNo, off), Packets(b.info, b.ts, mtu, ssrc, next, to);
    RunCons(s, p, rest);
    if to == |b.info.scan| {
      PacketsStep(b.info, b.ts, mtu, ssrc, next, to);
      EmptyStream(Push(s, p).state, Track(false, 0), []);
    } else {
      assert h.info.scan[to..] == h.info.scan[off..][to - off..];
      assert b.info.scan[to..] == b.info.scan[off..][to - off..];
      GapBehind(next);
      OtherArrives(Push(s, p).state, h, b, mtu, ssrc, next, to);
    }
  }

  /** What can be sent from one fragment on can be sent from any later one. */
  lemma {:induction false} SendableOn(info: JpegScan, cap: nat, mtu: nat, from: nat, off: nat)
    requires SendableFrom(info, cap, mtu, from) && TablesPresent(info) && Starts(info, mtu, from, off)
    ensures SendableFrom(info, cap, mtu, off)
    decreases |info.scan| - from
  {
    hide Take, TablesPresent, SendableFrom;
    SendableIs(info, cap, mtu, from);
    if from != off {
      SendableNext(info, cap, mtu, from);
      SendableOn(info, cap, mtu, from + Take(info, mtu, from), off);
    }
  }

  /** Of the fragments from `off` on those below `end` arrive, or, not `front`, those from `end` on. */
  function Half(info: JpegScan, mtu: nat, off: nat, end: nat, front: bool): (mask: seq<bool>)
    requires TablesPresent(info) && mtu >= MIN_MTU
    ensures |mask| == Later(info, mtu, off)
    ensures off < |info.scan| ==> mask != [] && mask[0] == if front then off < end else off >= end
    decreases |info.scan| - off
  {
    if off >= |info.scan| then []
    else [if front then off < end else off >= end] + Half(info, mtu, off + Take(info, mtu, off), end, front)
  }

  lemma {:induction false} HalfStep(info: JpegScan, mtu: nat, off: nat, end: nat, front: bool)
    requires TablesPresent(info) && mtu >= MIN_MTU && off < |info.scan|
    ensures Half(info, mtu, off, end, front)[1..] == Half(info, mtu, off + Take(info, mtu, off), end, front)
  {
    hide Take;
  }

  /** The rear half is what is sent from there on. */
  lemma {:induction false} RearArrives(b: Job, mtu: nat, ssrc: u32, seqNo: u16, off: nat, end: nat)
    requires TablesPresent(b.info) && mtu >= MIN_MTU && Starts(b.info, mtu, off, end) && end < |b.info.scan|
    ensures |Half(b.info, mtu, off, end, false)| == |Packets(b.info, b.ts, mtu, ssrc, seqNo, off)|
    ensures Arrived(Packets(b.info, b.ts, mtu, ssrc, seqNo, off), Half(b.info, mtu, off, end, false)) ==
            Packets(b.info, b.ts, mtu, ssrc, (seqNo + Between(b.info, mtu, off, end)) % 0x1_0000, end)
    decreases |b.info.scan| - off
  {
    hide Packets, Packet, Take, Arrived, Half, TablesPresent;
    LaterIs(b.info, b.ts, mtu, ssrc, seqNo, off);
    if off == end {
      AllFromHere(b, mtu, ssrc, seqNo, off, end);
    } else {
      PacketsStep(b.info, b.ts, mtu, ssrc, seqNo, off);
      var next: u16, to := (seqNo + 1) % 0x1_0000, off + Take(b.info, mtu, off);
      StartsAbove(b.info, mtu, to, end);
      RearArrives(b, mtu, ssrc, next, to, end);
      HalfStep(b.info, mtu, off, end, false);
      ArrivedStep(Packets(b.info, b.ts, mtu, ssrc, seqNo, off), Half(b.info, mtu, off, end, false));
      G.SeqAdds(seqNo, 1, Between(b.info, mtu, to, end));
    }
  }

  lemma {:induction false} AllFromHere(b: Job, mtu: nat, ssrc: u32, seqNo: u16, off: nat, end: nat)
    requires TablesPresent(b.info) && mtu >= MIN_MTU && end <= off
    ensures |Half(b.info, mtu, off, end, false)| == |Packets(b.info, b.ts, mtu, ssrc, seqNo, off)|
    ensures Arrived(Packets(b.info, b.ts, mtu, ssrc, seqNo, off), Half(b.info, mtu, off, end, false)) ==
            Packets(b.info, b.ts, mtu, ssrc, seqNo, off)
    decreases |b.info.scan| - off
  {
    hide Packets, Packet, Take, TablesPresent;
    LaterIs(b.info, b.ts, mtu, ssrc, seqNo, off);
    PacketsStep(b.info, b.ts, mtu, ssrc, seqNo, off);
    if off < |b.info.scan| {
      var next: u16, to := (seqNo + 1) % 0x1_0000, off + Take(b.info, mtu, off);
      AllFromHere(b, mtu, ssrc, next, to, end);
      HalfStep(b.info, mtu, off, end, false);
    }
  }

  /** The front half leaves the receiver midway. */
  lemma {:induction false} FrontArrives(s: State, a: Job, mtu: nat, ssrc: u32, seqNo: u16, off: nat, end: nat)
    requires SendableFrom(a.info, s.cap, mtu, off) && Valid(s)
    requires Starts(a.info, mtu, off, end) && off <= end && 0 < end < |a.info.scan|
    requires off > 0 ==> Midway(s, a, off) && s.lastSeq == Some((seqNo - 1) % 0x1_0000)
    ensures var pkts := Packets(a.info, a.ts, mtu, ssrc, seqNo, off);
            && |Half(a.info, mtu, off, end, true)| == |pkts|
            && var got := Arrived(pkts, Half(a.info, mtu, off, end, true));
               && Delivered(s, got) == [] && Midway(Run(s, got), a, end)
               && Run(s, got).lastSeq == Some((seqNo + Between(a.info, mtu, off, end) - 1) % 0x1_0000)
    decreases |a.info.scan| - off
  {
    hide Packets, Packet, Take, Arrived, Half, TablesPresent, Push, Run, Delivered, Out, Gap, Expected, P.Printable;
    hide HasHeader;
    LaterIs(a.info, a.ts, mtu, ssrc, seqNo, off);
    if off == end {
      NoneFromHere(a, mtu, ssrc, seqNo, off, end);
      EmptyStream(s, Track(false, 0), []);
    } else {
      PacketsStep(a.info, a.ts, mtu, ssrc, seqNo, off);
      var next: u16, to := (seqNo + 1) % 0x1_0000, off + Take(a.info, mtu, off);
      var p, more := Packet(a.info, a.ts, mtu, ssrc, seqNo, off), Packets(a.info, a.ts, mtu, ssrc, next, to);
      assert ([p] + more)[1..] == more;
      StartsAbove(a.info, mtu, to, end);
      if off == 0 {
        PushFirst(s, a, mtu, ssrc, seqNo);
      } else {
        GapBehind(seqNo);
        PushNext(s, a, mtu, ssrc, seqNo, off);
      }
      FrontArrives(Push(s, p).state, a, mtu, ssrc, next, to, end);
      HalfStep(a.info, mtu, off, end, true);
      ArrivedStep([p] + more, Half(a.info, mtu, off, end, true));
      RunCons(s, p, Arrived(more, Half(a.info, mtu, to, end, true)));
      LastOne(seqNo, next, Between(a.info, mtu, to, end));
    }
  }

  lemma {:induction false} LastOne(seqNo: u16, next: u16, n: nat)
    requires next == (seqNo + 1) % 0x1_0000
    ensures (next + n - 1) % 0x1_0000 == (seqNo + (1 + n) - 1) % 0x1_0000
  {
    if seqNo == 0xFFFF {
      var x := seqNo + n;
      assert (x - 0x1_0000) % 0x1_0000 == x % 0x1_0000;
    }
  }

  lemma {:induction false} NoneFromHere(a: Job, mtu: nat, ssrc: u32, seqNo: u16, off: nat, end: nat)
    requires TablesPresent(a.info) && mtu >= MIN_MTU && end <= off
    ensures |Half(a.info, mtu, off, end, true)| == |Packets(a.info, a.ts, mtu, ssrc, seqNo, off)|
    ensures Arrived(Packets(a.info, a.ts, mtu, ssrc, seqNo, off), Half(a.info, mtu, off, end, true)) == []
    decreases |a.info.scan| - off
  {
    hide Packets, Packet, Take, TablesPresent;
    LaterIs(a.info, a.ts, mtu, ssrc, seqNo, off);
    PacketsStep(a.info, a.ts, mtu, ssrc, seqNo, off);
    if off < |a.info.scan| {
      var next: u16, to := (seqNo + 1) % 0x1_0000, off + Take(a.info, mtu, off);
      NoneFromHere(a, mtu, ssrc, next, to, end);
      HalfStep(a.info, mtu, off, end, true);
    }
  }

  /** A mask over one JPEG's packets and one over those of the others. */
  lemma {:induction false} MasksMeet(jobs: seq<Job>, mtu: nat, ssrc: u32, seqNo: u16, first: seq<bytes>, next: u16,
                                     m1: seq<bool>, m2: seq<bool>)
    requires jobs != [] && AllPresent(jobs) && mtu >= MIN_MTU
    requires first == Packets(jobs[0].info, jobs[0].ts, mtu, ssrc, seqNo, 0) && next == (seqNo + |first|) % 0x1_0000
    requires |m1| == |first| && |m2| == |Sent(jobs[1..], mtu, ssrc, next)|
    ensures |m1 + m2| == |Sent(jobs, mtu, ssrc, seqNo)|
    ensures Arrived(Sent(jobs, mtu, ssrc, seqNo), m1 + m2) ==
            Arrived(first, m1) + Arrived(Sent(jobs[1..], mtu, ssrc, next), m2)
    ensures !AllTrue(m1) ==> Whole(jobs, mtu, ssrc, seqNo, m1 + m2) == Whole(jobs[1..], mtu, ssrc, next, m2)
  {
    hide Packets, TablesPresent, Arrived, AllTrue, Expected;
    ArrivedAppend(first, Sent(jobs[1..], mtu, ssrc, next), m1, m2);
    assert (m1 + m2)[..|first|] == m1 && (m1 + m2)[|first|..] == m2;
  }

  /** All of `jobs` lost. */
  lemma {:induction false} NothingOf(jobs: seq<Job>, mtu: nat, ssrc: u32, seqNo: u16, cap: nat) returns (mask: seq<bool>)
    requires AllPresent(jobs) && AllSendable(jobs, cap, mtu) && mtu >= MIN_MTU
    ensures |mask| == |Sent(jobs, mtu, ssrc, seqNo)|
    ensures Arrived(Sent(jobs, mtu, ssrc, seqNo), mask) == [] && Whole(jobs, mtu, ssrc, seqNo, mask) == []
    decreases |jobs|
  {
    hide Packets, TablesPresent, Half, AllTrue, SendableFrom, Sent, Whole, Arrived, Expected;
    if jobs == [] {
      mask := [];
      NothingSent(mtu, ssrc, seqNo);
    } else {
      var b := jobs[0];
      SendableIs(b.info, cap, mtu, 0);
      var first := Packets(b.info, b.ts, mtu, ssrc, seqNo, 0);
      var next: u16 := (seqNo + |first|) % 0x1_0000;
      var more := NothingOf(jobs[1..], mtu, ssrc, next, cap);
      var none := Half(b.info, mtu, 0, 0, true);
      NoneFromHere(b, mtu, ssrc, seqNo, 0, 0);
      LostAtFirst(none);
      MasksMeet(jobs, mtu, ssrc, seqNo, first, next, none, more);
      mask := none + more;
    }
  }

  lemma {:induction false} NothingSent(mtu: nat, ssrc: u32, seqNo: u16)
    requires mtu >= MIN_MTU
    ensures Sent([], mtu, ssrc, seqNo) == [] && Arrived([], []) == [] && Whole([], mtu, ssrc, seqNo, []) == []
  {
  }

  lemma {:induction false} LostAtFirst(mask: seq<bool>)
    requires mask != [] && !mask[0]
    ensures !AllTrue(mask)
  {
  }

  /** Of `jobs` there arrives the rest of one, and before it the misses look like none. */
  lemma {:induction false} RearOfLater(a: Job, end: nat, n: nat, jobs: seq<Job>, mtu: nat, ssrc: u32, seqNo: u16, cap: nat)
    returns (mask: seq<bool>, b: Job, missed: nat)
    requires AllPresent(jobs) && AllSendable(jobs, cap, mtu) && mtu >= MIN_MTU && end > 0
    requires JoinsLater(a, end, n, jobs, mtu)
    ensures |mask| == |Sent(jobs, mtu, ssrc, seqNo)| && Whole(jobs, mtu, ssrc, seqNo, mask) == []
    ensures SendableFrom(b.info, cap, mtu, end) && end < |b.info.scan| && a.ts == b.ts && G.SeenLoss(n + missed) == 0
    ensures Arrived(Sent(jobs, mtu, ssrc, seqNo), mask) ==
            Packets(b.info, b.ts, mtu, ssrc, (seqNo + missed) % 0x1_0000, end)
    decreases |jobs|
  {
    hide Packets, TablesPresent, Half, AllTrue, SendableFrom, Starts, Between, Later, Arrived, Sent, Whole, G.SeenLoss;
    b := jobs[0];
    SendableIs(b.info, cap, mtu, 0);
    var first := Packets(b.info, b.ts, mtu, ssrc, seqNo, 0);
    LaterIs(b.info, b.ts, mtu, ssrc, seqNo, 0);
    var next: u16 := (seqNo + |first|) % 0x1_0000;
    if JoinsFrom(a, end, n, b, mtu, 0) {
      missed := Between(b.info, mtu, 0, end);
      SendableOn(b.info, cap, mtu, 0, end);
      var half := Half(b.info, mtu, 0, end, false);
      RearArrives(b, mtu, ssrc, seqNo, 0, end);
      LostAtFirst(half);
      var more := NothingOf(jobs[1..], mtu, ssrc, next, cap);
      MasksMeet(jobs, mtu, ssrc, seqNo, first, next, half, more);
      mask := half + more;
      assert Arrived(first, half) + [] == Arrived(first, half);
    } else {
      var none, later := Half(b.info, mtu, 0, 0, true), |first|;
      NoneFromHere(b, mtu, ssrc, seqNo, 0, 0);
      LostAtFirst(none);
      var more, c, m := RearOfLater(a, end, n + later, jobs[1..], mtu, ssrc, next, cap);
      MasksMeet(jobs, mtu, ssrc, seqNo, first, next, none, more);
      mask, b, missed := none + more, c, later + m;
      G.SeqAdds(seqNo, later, m);
      assert [] + Arrived(Sent(jobs[1..], mtu, ssrc, next), more) == Arrived(Sent(jobs[1..], mtu, ssrc, next), more);
    }
  }

  lemma {:induction false} FrontLoses(info: JpegScan, mtu: nat, off: nat, end: nat)
    requires TablesPresent(info) && mtu >= MIN_MTU && end < |info.scan| && Starts(info, mtu, off, end)
    ensures !AllTrue(Half(info, mtu, off, end, true))
    decreases |info.scan| - off
  {
    hide Take, TablesPresent, AllTrue;
    var mask := Half(info, mtu, off, end, true);
    if off == end {
      LostAtFirst(mask);
    } else {
      HalfStep(info, mtu, off, end, true);
      FrontLoses(info, mtu, off + Take(info, mtu, off), end);
      AllTrueStep(mask);
    }
  }

  lemma {:induction false} BetweenAndLater(info: JpegScan, mtu: nat, off: nat, end: nat)
    requires TablesPresent(info) && mtu >= MIN_MTU && Starts(info, mtu, off, end)
    ensures Later(info, mtu, off) == Between(info, mtu, off, end) + Later(info, mtu, end)
    decreases |info.scan| - off
  {
    hide Take, TablesPresent;
    if off != end {
      StartsAbove(info, mtu, off + Take(info, mtu, off), end);
      BetweenAndLater(info, mtu, off + Take(info, mtu, off), end);
    }
  }

  /** The rest of `b` seems to follow the front of `a`. */
  lemma {:induction false} Unseen(seqNo: u16, before: nat, lost: nat, missed: nat, last: u16, next: u16, third: u16)
    requires last == (seqNo + before - 1) % 0x1_0000 && next == (seqNo + (before + lost)) % 0x1_0000
    requires third == (next + missed) % 0x1_0000 && G.SeenLoss(lost + missed) == 0
    ensures Gap(Some(last), third) == 0
  {
    hide G.SeenLoss, Gap;
    G.SeqAdds(seqNo, before + lost, missed);
    var whole := seqNo + (before + lost + missed);
    var x := seqNo + before - 1;
    assert third == whole % 0x1_0000;
    SameRemainder(whole, x, whole / 0x1_0000);
    assert third - 1 - (lost + missed) == x - whole / 0x1_0000 * 0x1_0000;
    G.LossByRange(last, lost + missed, third);
  }

  lemma {:induction false} SameRemainder(whole: nat, x: int, q: nat)
    requires q == whole / 0x1_0000
    ensures whole % 0x1_0000 == whole - q * 0x1_0000
    ensures (x - q * 0x1_0000) % 0x1_0000 == x % 0x1_0000
  {
  }

  lemma {:induction false} MidwayHybrid(s: State, a: Job, b: JpegScan, end: nat)
    requires Legal(a.info, s.cap) && Legal(b, s.cap) && end < |a.info.scan| && end < |b.scan| && Midway(s, a, end)
    ensures var h := Job(Hybrid(a.info, b, end), a.ts);
            && Legal(h.info, s.cap) && Midway(s, h, end) && |h.info.scan| == |b.scan|
            && h.info.scan[end..] == b.scan[end..]
  {
    hide P.Printable;
    var h := Hybrid(a.info, b, end);
    assert h.scan[..end] == a.info.scan[..end];
    assert h.scan[end..] == b.scan[end..];
  }

  /** From a joinable stream some losses leave packets that are delivered as one frame, the front of one JPEG and the
      rest of another, although no JPEG arrives whole. */
  lemma {:induction false} Joined(jobs: seq<Job>, cap: nat, mtu: nat, ssrc: u32, seqNo: u16)
    returns (mask: seq<bool>, a: Job, b: Job, end: nat)
    requires AllPresent(jobs) && AllSendable(jobs, cap, mtu) && mtu >= MIN_MTU && cap >= RESERVE + 2
    requires Joinable(jobs, mtu)
    ensures |mask| == |Sent(jobs, mtu, ssrc, seqNo)| && Whole(jobs, mtu, ssrc, seqNo, mask) == []
    ensures a.ts == b.ts && 0 < end < |a.info.scan| && end < |b.info.scan| && TablesPresent(a.info)
    ensures Delivered(Init(cap), Arrived(Sent(jobs, mtu, ssrc, seqNo), mask)) ==
            [Expected(Job(Hybrid(a.info, b.info, end), a.ts))]
    decreases |jobs|
  {
    hide Packets, Half, AllTrue, SendableFrom, Arrived, Sent, Whole, Delivered, Expected, JoinsAt, TablesPresent;
    a := jobs[0];
    SendableIs(a.info, cap, mtu, 0);
    var first := Packets(a.info, a.ts, mtu, ssrc, seqNo, 0);
    var next: u16 := (seqNo + |first|) % 0x1_0000;
    if exists e :: 0 < e < |a.info.scan| && JoinsAt(a, e, jobs[1..], mtu) {
      end :| 0 < end < |a.info.scan| && JoinsAt(a, end, jobs[1..], mtu);
      mask, b := JoinedHere(jobs, end, cap, mtu, ssrc, seqNo);
    } else {
      var none := Half(a.info, mtu, 0, 0, true);
      NoneFromHere(a, mtu, ssrc, seqNo, 0, 0);
      LostAtFirst(none);
      var more, c, d, e := Joined(jobs[1..], cap, mtu, ssrc, next);
      MasksMeet(jobs, mtu, ssrc, seqNo, first, next, none, more);
      var rest := Arrived(Sent(jobs[1..], mtu, ssrc, next), more);
      assert [] + rest == rest;
      mask, a, b, end := none + more, c, d, e;
    }
  }

  lemma {:induction false} JoinedHere(jobs: seq<Job>, end: nat, cap: nat, mtu: nat, ssrc: u32, seqNo: u16)
    returns (mask: seq<bool>, b: Job)
    requires AllPresent(jobs) && AllSendable(jobs, cap, mtu) && mtu >= MIN_MTU && cap >= RESERVE + 2 && jobs != []
    requires JoinsAt(jobs[0], end, jobs[1..], mtu)
    ensures |mask| == |Sent(jobs, mtu, ssrc, seqNo)| && Whole(jobs, mtu, ssrc, seqNo, mask) == []
    ensures jobs[0].ts == b.ts && end < |b.info.scan|
    ensures Delivered(Init(cap), Arrived(Sent(jobs, mtu, ssrc, seqNo), mask)) ==
            [Expected(Job(Hybrid(jobs[0].info, b.info, end), jobs[0].ts))]
  {
    hide Packets, Half, AllTrue, SendableFrom, Arrived, Sent, Whole, Delivered, Run, Expected, TablesPresent, Midway, Gap;
    hide Starts, JoinsLater, Later, Between, G.SeenLoss, Legal;
    var s, a := Init(cap), jobs[0];
    var pkts := Packets(a.info, a.ts, mtu, ssrc, seqNo, 0);
    var next: u16 := (seqNo + |pkts|) % 0x1_0000;
    SendableIs(a.info, cap, mtu, 0);
    LaterIs(a.info, a.ts, mtu, ssrc, seqNo, 0);
    var front := Half(a.info, mtu, 0, end, true);
    FrontArrives(s, a, mtu, ssrc, seqNo, 0, end);
    FrontLoses(a.info, mtu, 0, end);
    var lost, before := Later(a.info, mtu, end), Between(a.info, mtu, 0, end);
    BetweenAndLater(a.info, mtu, 0, end);
    var more, c, missed := RearOfLater(a, end, lost, jobs[1..], mtu, ssrc, next, cap);
    MasksMeet(jobs, mtu, ssrc, seqNo, pkts, next, front, more);
    mask, b := front + more, c;
    SendableIs(b.info, cap, mtu, end);
    var third: u16 := (next + missed) % 0x1_0000;
    var got := Arrived(pkts, front);
    var s1 := Run(s, got);
    Unseen(seqNo, before, lost, missed, s1.lastSeq.value, next, third);
    MidwayHybrid(s1, a, b.info, end);
    OtherArrives(s1, Job(Hybrid(a.info, b.info, end), a.ts), b, mtu, ssrc, third, end);
    RunAppend(s, got, Packets(b.info, b.ts, mtu, ssrc, third, end));
  }

  // ----- the exact condition

  /** Under every pattern of loss, however long its runs, exactly the frames all of whose packets arrived are delivered,
      if and only if no JPEG's front can be joined to the rest of a later one. */
  lemma {:induction false} WholeExactly(jobs: seq<Job>, cap: nat, mtu: nat, ssrc: u32, firstSeq: u16)
    requires mtu >= MIN_MTU && cap >= RESERVE + 2 && AllPresent(jobs) && AllSendable(jobs, cap, mtu)
    ensures (forall mask | |mask| == |Sent(jobs, mtu, ssrc, firstSeq)| ::
               Delivered(Init(cap), Arrived(Sent(jobs, mtu, ssrc, firstSeq), mask)) ==
               Whole(jobs, mtu, ssrc, firstSeq, mask)) <==>
            !Joinable(jobs, mtu)
  {
    hide Delivered, Arrived, Sent, Whole, SendableFrom, TablesPresent, Joinable, Expected;
    if Joinable(jobs, mtu) {
      var mask, a, b, end := Joined(jobs, cap, mtu, ssrc, firstSeq);
    } else {
      forall mask | |mask| == |Sent(jobs, mtu, ssrc, firstSeq)|
        ensures Delivered(Init(cap), Arrived(Sent(jobs, mtu, ssrc, firstSeq), mask)) ==
                Whole(jobs, mtu, ssrc, firstSeq, mask)
      {
        AnyMask(jobs, cap, mtu, ssrc, firstSeq, mask);
      }
    }
  }

  lemma {:induction false} AnyMask(jobs: seq<Job>, cap: nat, mtu: nat, ssrc: u32, firstSeq: u16, mask: seq<bool>)
    requires mtu >= MIN_MTU && cap >= RESERVE + 2 && AllPresent(jobs) && AllSendable(jobs, cap, mtu)
    requires !Joinable(jobs, mtu) && |mask| == |Sent(jobs, mtu, ssrc, firstSeq)|
    ensures Delivered(Init(cap), Arrived(Sent(jobs, mtu, ssrc, firstSeq), mask)) ==
            Whole(jobs, mtu, ssrc, firstSeq, mask)
  {
    hide Delivered, Arrived, Sent, Whole, SendableFrom, TablesPresent, Joinable;
    if jobs == [] {
      NoStream(cap, mtu, ssrc, firstSeq, mask);
    } else {
      StreamLoose(Init(cap), jobs[0], 0, 0, jobs, mtu, ssrc, firstSeq, mask);
    }
  }

  lemma {:induction false} NoStream(cap: nat, mtu: nat, ssrc: u32, firstSeq: u16, mask: seq<bool>)
    requires mtu >= MIN_MTU && cap >= RESERVE + 2 && |mask| == |Sent([], mtu, ssrc, firstSeq)|
    ensures Delivered(Init(cap), Arrived(Sent([], mtu, ssrc, firstSeq), mask)) == Whole([], mtu, ssrc, firstSeq, mask)
  {
  }

  predicate DistinctStamps(jobs: seq<Job>) {
    forall i, j :: 0 <= i < j < |jobs| ==> jobs[i].ts != jobs[j].ts
  }

  lemma {:induction false} OtherStamps(a: Job, end: nat, n: nat, jobs: seq<Job>, mtu: nat)
    requires AllPresent(jobs) && mtu >= MIN_MTU && forall k :: 0 <= k < |jobs| ==> jobs[k].ts != a.ts
    ensures !JoinsLater(a, end, n, jobs, mtu)
    decreases |jobs|
  {
    hide TablesPresent, Starts, Later, Between;
    if jobs != [] {
      OtherStamps(a, end, n + Later(jobs[0].info, mtu, 0), jobs[1..], mtu);
    }
  }

  /** JPEGs each with a timestamp of its own are not. */
  lemma {:induction false} StampedApart(jobs: seq<Job>, mtu: nat)
    requires AllPresent(jobs) && mtu >= MIN_MTU && DistinctStamps(jobs)
    ensures !Joinable(jobs, mtu)
    decreases |jobs|
  {
    hide TablesPresent, Starts, Later, Between, JoinsLater;
    if jobs != [] {
      forall end | 0 < end < |jobs[0].info.scan| ensures !JoinsAt(jobs[0], end, jobs[1..], mtu) {
        OtherStamps(jobs[0], end, Later(jobs[0].info, mtu, end), jobs[1..], mtu);
      }
      StampedApart(jobs[1..], mtu);
    }
  }

  /** When no two JPEGs share a timestamp, exactly the frames all of whose packets arrived are delivered, over every
      loss pattern, however long its runs. */
  lemma {:induction false} StampedLink(jobs: seq<Job>, cap: nat, mtu: nat, ssrc: u32, firstSeq: u16, mask: seq<bool>)
    requires mtu >= MIN_MTU && cap >= RESERVE + 2 && AllPresent(jobs) && AllSendable(jobs, cap, mtu)
    requires DistinctStamps(jobs) && |mask| == |Sent(jobs, mtu, ssrc, firstSeq)|
    ensures Delivered(Init(cap), Arrived(Sent(jobs, mtu, ssrc, firstSeq), mask)) ==
            Whole(jobs, mtu, ssrc, firstSeq, mask)
  {
    hide Delivered, Arrived, Sent, Whole, SendableFrom, TablesPresent, Joinable;
    StampedApart(jobs, mtu);
    AnyMask(jobs, cap, mtu, ssrc, firstSeq, mask);
  }

  // ----- two JPEGs that can be joined

  /** A JPEG of 8 by 8 pixels with one quantization table. */
  function Small(scan: bytes): JpegScan {
    JpegScan(8, 8, 0, None, [Zeros(64), []], 1, scan)
  }

  lemma {:induction false} SmallIs(scan: bytes)
    ensures Small(scan).scan == scan && TablesPresent(Small(scan))
  {
  }

  /** At the smallest MTU a first fragment of it takes 69 bytes, and every other 137. */
  lemma {:induction false} SmallTakes(scan: bytes, off: nat)
    requires off < |scan|
    ensures TablesPresent(Small(scan))
    ensures Take(Small(scan), MIN_MTU, off) == Min(|scan| - off, if off == 0 then 69 else 137)
  {
  }

  lemma {:induction false} SmallLater(scan: bytes, off: nat, n: nat)
    requires 0 < off && |scan| == off + 137 * n && TablesPresent(Small(scan))
    ensures Later(Small(scan), MIN_MTU, off) == n
    decreases n
  {
    hide Take, TablesPresent, Small;
    SmallIs(scan);
    if n > 0 {
      SmallTakes(scan, off);
      SmallLater(scan, off + 137, n - 1);
    }
  }

  lemma {:induction false} FirstTwo(info: JpegScan, mtu: nat)
    requires TablesPresent(info) && mtu >= MIN_MTU && info.scan != []
    ensures var take := Take(info, mtu, 0);
            && Starts(info, mtu, 0, take) && Between(info, mtu, 0, take) == 1
            && Later(info, mtu, 0) == 1 + Later(info, mtu, take)
  {
    hide Take, TablesPresent;
  }

  /** Two JPEGs of one timestamp in a row whose first fragments are of one size, neither of them the whole: once the
      first fills 2^15 packets, or the number of its packets looks like no loss otherwise, they can be joined. */
  lemma {:induction false} TwoAreJoinable(a: Job, b: Job, mtu: nat)
    requires TablesPresent(a.info) && TablesPresent(b.info) && mtu >= MIN_MTU && a.ts == b.ts
    requires a.info.scan != [] && b.info.scan != [] && Take(a.info, mtu, 0) == Take(b.info, mtu, 0)
    requires Take(a.info, mtu, 0) < |a.info.scan| && Take(b.info, mtu, 0) < |b.info.scan|
    requires G.SeenLoss(Later(a.info, mtu, 0)) == 0
    ensures AllPresent([a, b]) && Joinable([a, b], mtu)
  {
    hide Take, TablesPresent, Starts, Between, Later, G.SeenLoss;
    var jobs, take := [a, b], Take(a.info, mtu, 0);
    assert jobs[1..] == [b];
    FirstTwo(a.info, mtu);
    FirstTwo(b.info, mtu);
    assert JoinsLater(a, take, Later(a.info, mtu, take), [b], mtu);
    assert JoinsAt(jobs[0], take, jobs[1..], mtu);
  }

  /** There are such JPEGs. */
  lemma {:induction false} LongIsJoinable(long: bytes, short: bytes, ts: u32)
    requires |long| == 69 + 137 * 0x7FFF && |short| > 69
    ensures var jobs := [Job(Small(long), ts), Job(Small(short), ts)];
            AllPresent(jobs) && Joinable(jobs, MIN_MTU)
  {
    hide Take, TablesPresent, Small, Joinable, Later;
    SmallIs(long);
    SmallIs(short);
    SmallTakes(long, 0);
    SmallTakes(short, 0);
    SmallLater(long, 69, 0x7FFF);
    FirstTwo(Small(long), MIN_MTU);
    TwoAreJoinable(Job(Small(long), ts), Job(Small(short), ts), MIN_MTU);
  }
}
