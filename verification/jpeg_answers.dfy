/** What the receiver answers over a lossy link, packet by packet, and what its counters come to. */
module JpegAnswers {
  import opened Bytes
  import opened JpegSender
  import opened JpegReceiver
  import opened JpegLossyLink
  import P = JpegHeaders

  // ----- the packets of a stream, as a reader of the timetable sees them

  /** One packet sent: a fragment of `job`, its first or its last. */
  datatype Slot = Slot(job: Job, first: bool, last: bool)

  function Slots(job: Job, mtu: nat, off: nat): seq<Slot>
    requires TablesPresent(job.info) && mtu >= MIN_MTU
    decreases |job.info.scan| - off
  {
    if off >= |job.info.scan| then []
    else
      var to := off + Take(job.info, mtu, off);
      [Slot(job, off == 0, to == |job.info.scan|)] + Slots(job, mtu, to)
  }

  function AllSlots(jobs: seq<Job>, mtu: nat): seq<Slot>
    requires AllPresent(jobs) && mtu >= MIN_MTU
  {
    if jobs == [] then [] else Slots(jobs[0], mtu, 0) + AllSlots(jobs[1..], mtu)
  }

  predicate Reportable(slots: seq<Slot>) {
    forall k :: 0 <= k < |slots| ==> TablesPresent(slots[k].job.info)
  }

  /** Packet `j` arrives, and so does every one of its JPEG before it, and there is more of the JPEG to come. */
  predicate Kept(slots: seq<Slot>, mask: seq<bool>, j: nat)
    requires |mask| == |slots| && j < |slots|
  {
    mask[j] && !slots[j].last && (slots[j].first || (j > 0 && Kept(slots, mask, j - 1)))
  }

  /** Packet `i` is the first to arrive behind a loss inside a JPEG that had come so far. */
  predicate Breaks(slots: seq<Slot>, mask: seq<bool>, i: nat)
    requires |mask| == |slots| && i <= |slots|
  {
    exists j :: 0 <= j < i - 1 && Kept(slots, mask, j) && forall k :: j < k < i ==> !mask[k]
  }

  /** What packet `i` should be answered. */
  function AnswerAt(slots: seq<Slot>, mask: seq<bool>, i: nat): Depayload
    requires |mask| == |slots| && i < |slots| && Reportable(slots)
  {
    if slots[i].first || (i > 0 && Kept(slots, mask, i - 1)) then
      if slots[i].last then Report(slots[i].job) else Fragment
    else if Breaks(slots, mask, i) then Dropped
    else Fragment
  }

  /** The answers to the packets that arrive, from packet `i` on. */
  function AnswersFrom(slots: seq<Slot>, mask: seq<bool>, i: nat): seq<Result<Depayload>>
    requires |mask| == |slots| && i <= |slots| && Reportable(slots)
    decreases |slots| - i
  {
    if i == |slots| then []
    else (if mask[i] then [Ok(AnswerAt(slots, mask, i))] else []) + AnswersFrom(slots, mask, i + 1)
  }

  /** How many first fragments arrive. */
  function Opened(slots: seq<Slot>, mask: seq<bool>): nat
    requires |mask| == |slots|
  {
    if slots == [] then 0 else (if mask[0] && slots[0].first then 1 else 0) + Opened(slots[1..], mask[1..])
  }

  // ----- the same, step by step

  /** No frame in progress; one, with nothing missing; or one that misses something. */
  datatype Phase = Idle | Going | Broken

  function Lose(ph: Phase): Phase {
    if ph == Going then Broken else ph
  }

  function Arrive(slot: Slot, ph: Phase): Phase {
    if (slot.first || ph == Going) && !slot.last then Going else Idle
  }

  function Tell(slot: Slot, ph: Phase): Depayload
    requires TablesPresent(slot.job.info)
  {
    if slot.first || ph == Going then if slot.last then Report(slot.job) else Fragment
    else if ph == Broken then Dropped
    else Fragment
  }

  function PhaseAfter(slots: seq<Slot>, mask: seq<bool>, ph: Phase): Phase
    requires |mask| == |slots|
  {
    if slots == [] then ph else PhaseAfter(slots[1..], mask[1..], if mask[0] then Arrive(slots[0], ph) else Lose(ph))
  }

  function Told(slots: seq<Slot>, mask: seq<bool>, ph: Phase): seq<Result<Depayload>>
    requires |mask| == |slots| && Reportable(slots)
  {
    if slots == [] then []
    else if mask[0] then [Ok(Tell(slots[0], ph))] + Told(slots[1..], mask[1..], Arrive(slots[0], ph))
    else Told(slots[1..], mask[1..], Lose(ph))
  }

  lemma {:induction false} ToldStep(slots: seq<Slot>, mask: seq<bool>, ph: Phase)
    requires |mask| == |slots| > 0 && Reportable(slots)
    ensures Reportable(slots[1..])
    ensures Told(slots, mask, ph) ==
            if mask[0] then [Ok(Tell(slots[0], ph))] + Told(slots[1..], mask[1..], Arrive(slots[0], ph))
            else Told(slots[1..], mask[1..], Lose(ph))
    ensures PhaseAfter(slots, mask, ph) ==
            PhaseAfter(slots[1..], mask[1..], if mask[0] then Arrive(slots[0], ph) else Lose(ph))
    ensures Opened(slots, mask) == (if mask[0] && slots[0].first then 1 else 0) + Opened(slots[1..], mask[1..])
  {
    hide Tell, Arrive, Lose, TablesPresent;
  }

  lemma {:induction false} ToldNothing(ph: Phase)
    ensures Told([], [], ph) == [] && PhaseAfter([], [], ph) == ph && Opened([], []) == 0
  {
  }

  lemma {:induction false} ToldAppend(a: seq<Slot>, b: seq<Slot>, ma: seq<bool>, mb: seq<bool>, ph: Phase)
    requires |a| == |ma| && |b| == |mb| && Reportable(a) && Reportable(b)
    ensures Reportable(a + b)
    ensures Told(a + b, ma + mb, ph) == Told(a, ma, ph) + Told(b, mb, PhaseAfter(a, ma, ph))
    ensures PhaseAfter(a + b, ma + mb, ph) == PhaseAfter(b, mb, PhaseAfter(a, ma, ph))
    ensures Opened(a + b, ma + mb) == Opened(a, ma) + Opened(b, mb)
    decreases |a|
  {
    hide Told, PhaseAfter, Opened, Tell, Arrive, Lose, TablesPresent;
    if a == [] {
      ToldNothing(ph);
      assert a + b == b && ma + mb == mb;
    } else {
      var ph1 := if ma[0] then Arrive(a[0], ph) else Lose(ph);
      ToldStep(a, ma, ph);
      HeadAndTail(a, b);
      HeadAndTail(ma, mb);
      ToldAppend(a[1..], b, ma[1..], mb, ph1);
      ToldStep(a + b, ma + mb, ph);
      if ma[0] {
        FirstOfThree(Ok(Tell(a[0], ph)), Told(a[1..], ma[1..], ph1), Told(b, mb, PhaseAfter(a, ma, ph)));
      }
    }
  }

  // ----- one frame's packets

  /** The receiver in a phase, before the fragment of `job` at `off`. */
  ghost predicate Stands(s: State, t: Track, ph: Phase, job: Job, seqNo: u16, off: nat)
    requires TablesPresent(job.info)
  {
    && Synced(s, t, seqNo)
    && (s.inFrame <==> ph != Idle) && (s.inFrame ==> s.scan != [])
    && (ph == Going ==> 0 < off < |job.info.scan| && Midway(s, job, off) && t == Track(true, 0))
    && (ph == Broken ==> t.started && t.lost > 0)
  }

  lemma {:induction false} SlotsStep(job: Job, mtu: nat, off: nat)
    requires TablesPresent(job.info) && mtu >= MIN_MTU
    ensures Slots(job, mtu, off) ==
            if off >= |job.info.scan| then []
            else [Slot(job, off == 0, off + Take(job.info, mtu, off) == |job.info.scan|)] +
                 Slots(job, mtu, off + Take(job.info, mtu, off))
  {
    hide Take;
  }

  lemma {:induction false} SlotsFit(job: Job, mtu: nat, ssrc: u32, seqNo: u16, off: nat)
    requires TablesPresent(job.info) && mtu >= MIN_MTU
    ensures |Slots(job, mtu, off)| == |Packets(job.info, job.ts, mtu, ssrc, seqNo, off)|
    ensures Reportable(Slots(job, mtu, off))
    decreases |job.info.scan| - off
  {
    hide Take, Packet, Packets, Slots, TablesPresent;
    SlotsStep(job, mtu, off);
    PacketsStep(job.info, job.ts, mtu, ssrc, seqNo, off);
    if off < |job.info.scan| {
      SlotsFit(job, mtu, ssrc, (seqNo + 1) % 0x1_0000, off + Take(job.info, mtu, off));
    }
  }

  /** One fragment that arrives. */
  lemma {:induction false} OneTold(s: State, t: Track, ph: Phase, job: Job, mtu: nat, ssrc: u32, seqNo: u16, off: nat)
    requires SendableFrom(job.info, s.cap, mtu, off) && off < |job.info.scan| && TablesPresent(job.info)
    requires Stands(s, t, ph, job, seqNo, off) && (t.started ==> t.lost < 0x8000)
    ensures var to := off + Take(job.info, mtu, off);
            var slot := Slot(job, off == 0, to == |job.info.scan|);
            var r := Push(s, Packet(job.info, job.ts, mtu, ssrc, seqNo, off));
            && Stands(r.state, Track(true, 0), Arrive(slot, ph), job, (seqNo + 1) % 0x1_0000, to)
            && r.result == Ok(Tell(slot, ph))
            && r.state.frames == s.frames + |Out(r)|
            && r.state.frames + r.state.dropped + (if r.state.inFrame then 1 else 0) ==
               s.frames + s.dropped + (if s.inFrame then 1 else 0) + (if off == 0 then 1 else 0)
  {
    hide Push, P.Printable, Packet, Take, Midway, Expected, Out, Gap, LastOffset, HasHeader, TablesPresent, Report;
    SendableNext(job.info, s.cap, mtu, off);
    GapIsLoss(s, t, seqNo);
    var to := off + Take(job.info, mtu, off);
    var r := Push(s, Packet(job.info, job.ts, mtu, ssrc, seqNo, off));
    if off == 0 {
      PushFirst(s, job, mtu, ssrc, seqNo);
    } else if ph == Going {
      PushNext(s, job, mtu, ssrc, seqNo, off);
    } else {
      PushStray(s, job, mtu, ssrc, seqNo, off);
    }
    if (off == 0 || ph == Going) && to < |job.info.scan| {
      MidwayIs(r.state, job, to);
    }
  }

  lemma {:induction false} OneMissed(s: State, t: Track, ph: Phase, job: Job, mtu: nat, seqNo: u16, off: nat)
    requires TablesPresent(job.info) && mtu >= MIN_MTU && off < |job.info.scan| && Stands(s, t, ph, job, seqNo, off)
    ensures Stands(s, Track(t.started, t.lost + 1), Lose(ph), job, (seqNo + 1) % 0x1_0000,
                   off + Take(job.info, mtu, off))
  {
    hide Take, Midway, TablesPresent, Valid;
    SyncedLost(s, t, seqNo);
  }

  lemma {:induction false} AnswersStep(s: State, p: bytes, rest: seq<bytes>)
    requires Valid(s)
    ensures Answers(s, [p] + rest) == [Push(s, p).result] + Answers(Push(s, p).state, rest)
    ensures Answers(s, []) == []
  {
    hide Push;
    assert ([p] + rest)[1..] == rest;
  }

  lemma {:induction false} AnswersAppend(s: State, a: seq<bytes>, b: seq<bytes>)
    requires Valid(s)
    ensures Answers(s, a + b) == Answers(s, a) + Answers(Run(s, a), b)
    decreases |a|
  {
    hide Push;
    if a == [] {
      assert a + b == b;
    } else {
      assert (a + b)[1..] == a[1..] + b;
      AnswersAppend(Push(s, a[0]).state, a[1..], b);
    }
  }

  lemma {:induction false} StandsIs(s: State, t: Track, ph: Phase, job: Job, seqNo: u16, off: nat)
    requires TablesPresent(job.info) && Stands(s, t, ph, job, seqNo, off)
    ensures Valid(s) && Synced(s, t, seqNo) && (s.inFrame <==> ph != Idle)
  {
    hide Midway, TablesPresent, Valid;
  }

  /** The fragments of `job` from `off` on, some of them lost. */
  lemma {:induction false} FrameTold(s: State, t: Track, ph: Phase, job: Job, mtu: nat, ssrc: u32, seqNo: u16, off: nat,
                                     mask: seq<bool>)
    requires SendableFrom(job.info, s.cap, mtu, off) && TablesPresent(job.info) && ShortRuns(t, mask)
    requires Stands(s, t, ph, job, seqNo, off)
    requires |mask| == |Packets(job.info, job.ts, mtu, ssrc, seqNo, off)|
    ensures |mask| == |Slots(job, mtu, off)| && Reportable(Slots(job, mtu, off)) && Valid(s)
    ensures var got := Arrived(Packets(job.info, job.ts, mtu, ssrc, seqNo, off), mask);
            var slots, e := Slots(job, mtu, off), Run(s, got);
            var after := PhaseAfter(slots, mask, ph);
            && Answers(s, got) == Told(slots, mask, ph)
            && Stands(e, After(t, mask), after, job, (seqNo + |mask|) % 0x1_0000, Max(off, |job.info.scan|))
            && e.frames == s.frames + |Delivered(s, got)|
            && e.frames + e.dropped + (if e.inFrame then 1 else 0) ==
               s.frames + s.dropped + (if s.inFrame then 1 else 0) + Opened(slots, mask)
    decreases |job.info.scan| - off
  {
    hide P.Printable, Expected, Packet, Packets, Take, Push, Out, Arrived, Run, Delivered, Answers, Slots, Reportable;
    hide After, ShortRuns, Gap, HasHeader, SendableFrom, TablesPresent, Told, PhaseAfter, Opened, Stands, Arrive, Lose, Tell;
    SendableIs(job.info, s.cap, mtu, off);
    SlotsFit(job, mtu, ssrc, seqNo, off);
    SlotsStep(job, mtu, off);
    StandsIs(s, t, ph, job, seqNo, off);
    PacketsStep(job.info, job.ts, mtu, ssrc, seqNo, off);
    var pkts, slots := Packets(job.info, job.ts, mtu, ssrc, seqNo, off), Slots(job, mtu, off);
    if off < |job.info.scan| {
      var next: u16, to := (seqNo + 1) % 0x1_0000, off + Take(job.info, mtu, off);
      SendableNext(job.info, s.cap, mtu, off);
      var p, rest := Packet(job.info, job.ts, mtu, ssrc, seqNo, off), Packets(job.info, job.ts, mtu, ssrc, next, to);
      assert pkts[1..] == rest && slots[1..] == Slots(job, mtu, to);
      NextSeq(seqNo, |rest|);
      MaskStep(t, mask);
      ArrivedStep(pkts, mask);
      ToldStep(slots, mask, ph);
      if mask[0] {
        OneTold(s, t, ph, job, mtu, ssrc, seqNo, off);
        FrameTold(Push(s, p).state, Track(true, 0), Arrive(slots[0], ph), job, mtu, ssrc, next, to, mask[1..]);
        RunCons(s, p, Arrived(rest, mask[1..]));
        AnswersStep(s, p, Arrived(rest, mask[1..]));
      } else {
        OneMissed(s, t, ph, job, mtu, seqNo, off);
        FrameTold(s, Track(t.started, t.lost + 1), Lose(ph), job, mtu, ssrc, next, to, mask[1..]);
      }
    } else {
      NothingArrives(s, t, pkts, mask);
      ToldNothing(ph);
      AnswersNothing(s, pkts, mask);
    }
  }

  lemma {:induction false} AnswersNothing(s: State, pkts: seq<bytes>, mask: seq<bool>)
    requires Valid(s) && |pkts| == |mask| == 0
    ensures Answers(s, Arrived(pkts, mask)) == []
  {
  }

  // ----- whole streams

  lemma {:induction false} SlotsSent(jobs: seq<Job>, mtu: nat, ssrc: u32, seqNo: u16)
    requires AllPresent(jobs) && mtu >= MIN_MTU
    ensures |AllSlots(jobs, mtu)| == |Sent(jobs, mtu, ssrc, seqNo)| && Reportable(AllSlots(jobs, mtu))
  {
    hide Packets, Slots, TablesPresent;
    if jobs != [] {
      SlotsFit(jobs[0], mtu, ssrc, seqNo, 0);
      SlotsSent(jobs[1..], mtu, ssrc, (seqNo + |Packets(jobs[0].info, jobs[0].ts, mtu, ssrc, seqNo, 0)|) % 0x1_0000);
    }
  }

  /** Between two JPEGs. */
  ghost predicate Rests(s: State, t: Track, ph: Phase, seqNo: u16) {
    && Synced(s, t, seqNo) && ph != Going
    && (s.inFrame <==> ph != Idle) && (s.inFrame ==> s.scan != [])
    && (ph == Broken ==> t.started && t.lost > 0)
  }

  lemma {:induction false} StreamTold(s: State, t: Track, ph: Phase, jobs: seq<Job>, mtu: nat, ssrc: u32, seqNo: u16,
                                      mask: seq<bool>)
    requires mtu >= MIN_MTU && AllPresent(jobs) && AllSendable(jobs, s.cap, mtu)
    requires Rests(s, t, ph, seqNo) && |mask| == |Sent(jobs, mtu, ssrc, seqNo)| && ShortRuns(t, mask)
    ensures |mask| == |AllSlots(jobs, mtu)| && Reportable(AllSlots(jobs, mtu)) && Valid(s)
    ensures var got := Arrived(Sent(jobs, mtu, ssrc, seqNo), mask);
            var slots, e := AllSlots(jobs, mtu), Run(s, got);
            && Answers(s, got) == Told(slots, mask, ph)
            && e.frames == s.frames + |Delivered(s, got)|
            && e.frames + e.dropped + (if e.inFrame then 1 else 0) ==
               s.frames + s.dropped + (if s.inFrame then 1 else 0) + Opened(slots, mask)
            && (e.inFrame <==> PhaseAfter(slots, mask, ph) != Idle)
    decreases |jobs|
  {
    hide Push, Out, P.Printable, Expected, Packets, After, ShortRuns, HasHeader, Delivered, Run, Arrived, Answers, Slots;
    hide Told, PhaseAfter, Opened, Midway, SendableFrom, Reportable, TablesPresent;
    SlotsSent(jobs, mtu, ssrc, seqNo);
    EmptyStream(s, t, mask);
    ToldNothing(ph);
    if jobs == [] {
      AnswersNothing(s, [], mask);
    } else {
      var job := jobs[0];
      var first := Packets(job.info, job.ts, mtu, ssrc, seqNo, 0);
      var n, next: u16 := |first|, (seqNo + |first|) % 0x1_0000;
      var rest := Sent(jobs[1..], mtu, ssrc, next);
      var m1, m2 := mask[..n], mask[n..];
      assert mask == m1 + m2;
      MaskAppend(t, m1, m2);
      FirstNonEmpty(job.info, s.cap, mtu);
      FrameTold(s, t, ph, job, mtu, ssrc, seqNo, 0, m1);
      var mid, ph1 := Run(s, Arrived(first, m1)), PhaseAfter(Slots(job, mtu, 0), m1, ph);
      StreamTold(mid, After(t, m1), ph1, jobs[1..], mtu, ssrc, next, m2);
      SlotsFit(job, mtu, ssrc, seqNo, 0);
      SlotsSent(jobs[1..], mtu, ssrc, next);
      ToldAppend(Slots(job, mtu, 0), AllSlots(jobs[1..], mtu), m1, m2, ph);
      ArrivedAppend(first, rest, m1, m2);
      RunAppend(s, Arrived(first, m1), Arrived(rest, m2));
      AnswersAppend(s, Arrived(first, m1), Arrived(rest, m2));
    }
  }

  // ----- from steps to positions

  function PhaseAt(slots: seq<Slot>, mask: seq<bool>, i: nat): Phase
    requires |mask| == |slots| && i <= |slots|
  {
    if i == 0 then Idle
    else
      var before := PhaseAt(slots, mask, i - 1);
      if mask[i - 1] then Arrive(slots[i - 1], before) else Lose(before)
  }

  /** The phase in terms of what arrived: going, when the packet before is kept; broken, when the last one kept is
      followed by losses only. */
  lemma {:induction false} PhaseIs(slots: seq<Slot>, mask: seq<bool>, i: nat)
    requires |mask| == |slots| && i <= |slots|
    ensures PhaseAt(slots, mask, i) == Going <==> i > 0 && Kept(slots, mask, i - 1)
    ensures PhaseAt(slots, mask, i) == Broken <==> Breaks(slots, mask, i)
  {
    hide Kept;
    if i > 0 {
      PhaseIs(slots, mask, i - 1);
      KeptStep(slots, mask, i - 1);
      if !mask[i - 1] {
        if Breaks(slots, mask, i - 1) {
          var j :| 0 <= j < i - 2 && Kept(slots, mask, j) && forall k :: j < k < i - 1 ==> !mask[k];
          assert Breaks(slots, mask, i);
        }
        if i > 1 && Kept(slots, mask, i - 2) {
          assert Breaks(slots, mask, i);
        }
        if Breaks(slots, mask, i) {
          var j :| 0 <= j < i - 1 && Kept(slots, mask, j) && forall k :: j < k < i ==> !mask[k];
          assert j < i - 2 ==> Breaks(slots, mask, i - 1);
        }
      }
    }
  }

  lemma {:induction false} KeptStep(slots: seq<Slot>, mask: seq<bool>, j: nat)
    requires |mask| == |slots| && j < |slots|
    ensures Kept(slots, mask, j) <==> mask[j] && !slots[j].last && (slots[j].first || (j > 0 && Kept(slots, mask, j - 1)))
  {
  }

  lemma {:induction false} ToldIsAnswers(slots: seq<Slot>, mask: seq<bool>, i: nat)
    requires |mask| == |slots| && i <= |slots| && Reportable(slots)
    ensures Reportable(slots[i..]) && Told(slots[i..], mask[i..], PhaseAt(slots, mask, i)) == AnswersFrom(slots, mask, i)
    decreases |slots| - i
  {
    hide Kept, Breaks, TablesPresent, Report, Told;
    if i < |slots| {
      ToldStep(slots[i..], mask[i..], PhaseAt(slots, mask, i));
      assert slots[i..][1..] == slots[i + 1..] && mask[i..][1..] == mask[i + 1..];
      PhaseIs(slots, mask, i);
      ToldIsAnswers(slots, mask, i + 1);
    } else {
      assert slots[i..] == [] && mask[i..] == [];
      ToldNothing(PhaseAt(slots, mask, i));
    }
  }

  /** Over every loss pattern with short runs: a packet that arrives is answered `Frame` when it is its JPEG's last and
      all of it came, `Dropped` if and only if it is a later fragment, and the first packet behind a loss inside a JPEG
      that had come so far, and `Fragment` otherwise. Each frame reported is counted and delivered, and frames, drops and
      the frame in progress are together the first fragments that arrived. */
  lemma {:induction false} AnswersOverLink(jobs: seq<Job>, cap: nat, mtu: nat, ssrc: u32, firstSeq: u16, mask: seq<bool>)
    requires mtu >= MIN_MTU && cap >= RESERVE + 2 && AllPresent(jobs) && AllSendable(jobs, cap, mtu)
    requires |mask| == |Sent(jobs, mtu, ssrc, firstSeq)| && ShortRuns(Track(false, 0), mask)
    ensures |mask| == |AllSlots(jobs, mtu)| && Reportable(AllSlots(jobs, mtu))
    ensures var got := Arrived(Sent(jobs, mtu, ssrc, firstSeq), mask);
            var slots, e := AllSlots(jobs, mtu), Run(Init(cap), got);
            && Answers(Init(cap), got) == AnswersFrom(slots, mask, 0)
            && e.frames == |Delivered(Init(cap), got)|
            && e.frames + e.dropped + (if e.inFrame then 1 else 0) == Opened(slots, mask)
            && (e.inFrame <==> Breaks(slots, mask, |mask|) || (mask != [] && Kept(slots, mask, |mask| - 1)))
  {
    hide Answers, AnswersFrom, Run, Delivered, Arrived, Sent, AllSlots, Opened, Told, PhaseAfter, Kept, Breaks;
    hide SendableFrom, TablesPresent, ShortRuns, Reportable;
    StreamTold(Init(cap), Track(false, 0), Idle, jobs, mtu, ssrc, firstSeq, mask);
    var slots := AllSlots(jobs, mtu);
    ToldIsAnswers(slots, mask, 0);
    assert slots[0..] == slots && mask[0..] == mask;
    PhaseAfterIs(slots, mask, 0);
    PhaseIs(slots, mask, |slots|);
  }

  lemma {:induction false} PhaseAfterIs(slots: seq<Slot>, mask: seq<bool>, i: nat)
    requires |mask| == |slots| && i <= |slots|
    ensures PhaseAfter(slots[i..], mask[i..], PhaseAt(slots, mask, i)) == PhaseAt(slots, mask, |slots|)
    decreases |slots| - i
  {
    hide Arrive, Lose;
    if i < |slots| {
      assert slots[i..][1..] == slots[i + 1..] && mask[i..][1..] == mask[i + 1..];
      PhaseAfterIs(slots, mask, i + 1);
    }
  }
}
