/** Runs of loss of any length: exactly when the receiver's count of losses is right. */
module JpegGaps {
  import opened Bytes
  import opened JpegFile
  import opened JpegSender
  import opened JpegReceiver
  import opened JpegLossyLink
  import H = RtpHeader
  import P = JpegHeaders

  // ----- the loss counter

  /** What the receiver makes of `lost` packets missing: their number by 2^16, or nothing from 2^15 on. */
  function SeenLoss(lost: nat): (r: nat)
    ensures r <= lost && (r == lost <==> lost < 0x8000)
  {
    var gap := lost % 0x1_0000;
    if gap >= 0x8000 then 0 else gap
  }

  /** The losses counted over a pattern. */
  function SeenBetween(t: Track, mask: seq<bool>): nat
    decreases |mask|
  {
    if mask == [] then 0
    else if mask[0] then (if t.started then SeenLoss(t.lost) else 0) + SeenBetween(Track(true, 0), mask[1..])
    else SeenBetween(Track(t.started, t.lost + 1), mask[1..])
  }

  /** They are never more than the losses, and all of them exactly when every run is short. */
  lemma {:induction false} SeenExactly(t: Track, mask: seq<bool>)
    ensures SeenBetween(t, mask) <= LostBetween(t, mask)
    ensures SeenBetween(t, mask) == LostBetween(t, mask) <==> ShortRuns(t, mask)
    decreases |mask|
  {
    hide SeenLoss;
    if mask != [] {
      SeenExactly(if mask[0] then Track(true, 0) else Track(t.started, t.lost + 1), mask[1..]);
    }
  }

  lemma {:induction false} LossByRange(last: u16, lost: nat, next: u16)
    requires last == (next - 1 - lost) % 0x1_0000
    ensures Gap(Some(last), next) == SeenLoss(lost)
  {
    var q := (next - 1 - lost) / 0x1_0000;
    assert next - 1 - lost == q * 0x1_0000 + last;
    assert next - last - 1 == lost + q * 0x1_0000;
    assert (next - last - 1) % 0x1_0000 == lost % 0x1_0000;
  }

  /** JPEG packets of one stream, numbered from `seqNo` on. */
  ghost predicate Numbered(ps: seq<bytes>, seqNo: u16) {
    forall k :: 0 <= k < |ps| ==>
      H.Parse(ps[k]).Ok? && H.Parse(ps[k]).value.0.payloadType == H.PT_JPEG &&
      H.Parse(ps[k]).value.0.seqNo == (seqNo + k) % 0x1_0000
  }

  lemma {:induction false} NumberedConcat(a: seq<bytes>, b: seq<bytes>, seqNo: u16)
    requires Numbered(a, seqNo) && Numbered(b, (seqNo + |a|) % 0x1_0000)
    ensures Numbered(a + b, seqNo)
  {
    hide H.Parse;
    forall k | |a| <= k < |a + b|
      ensures (a + b)[k] == b[k - |a|] && ((seqNo + |a|) % 0x1_0000 + (k - |a|)) % 0x1_0000 == (seqNo + k) % 0x1_0000
    {
      SeqAdds(seqNo, |a|, k - |a|);
    }
  }

  lemma {:induction false} SeqAdds(seqNo: u16, a: nat, b: nat)
    ensures ((seqNo + a) % 0x1_0000 + b) % 0x1_0000 == (seqNo + (a + b)) % 0x1_0000
  {
  }

  lemma {:induction false} NumberedTail(ps: seq<bytes>, seqNo: u16)
    requires Numbered(ps, seqNo) && ps != []
    ensures Numbered(ps[1..], (seqNo + 1) % 0x1_0000)
    ensures H.Parse(ps[0]).Ok? && H.Parse(ps[0]).value.0.payloadType == H.PT_JPEG
    ensures H.Parse(ps[0]).value.0.seqNo == seqNo
  {
    hide H.Parse;
    assert ps[0] == ps[0 + 0];
    forall k | 0 <= k < |ps| - 1
      ensures ps[1..][k] == ps[k + 1] && ((seqNo + 1) % 0x1_0000 + k) % 0x1_0000 == (seqNo + (k + 1)) % 0x1_0000
    {
      SeqAdds(seqNo, 1, k);
    }
  }

  lemma {:induction false} PacketsNumbered(info: JpegScan, ts: u32, mtu: nat, ssrc: u32, seqNo: u16)
    requires TablesPresent(info) && mtu >= MIN_MTU
    ensures Numbered(Packets(info, ts, mtu, ssrc, seqNo, 0), seqNo)
  {
    hide Packets, H.Parse, TablesPresent;
    PacketsHeaded(info, ts, mtu, ssrc, seqNo, 0);
  }

  lemma {:induction false} NoneNumbered(seqNo: u16)
    ensures Numbered([], seqNo)
  {
  }

  lemma {:induction false} SentNumbered(jobs: seq<Job>, mtu: nat, ssrc: u32, seqNo: u16)
    requires mtu >= MIN_MTU && AllPresent(jobs)
    ensures Numbered(Sent(jobs, mtu, ssrc, seqNo), seqNo)
    decreases |jobs|
  {
    hide Packets, Numbered;
    if jobs == [] {
      NoneNumbered(seqNo);
    } else {
      var first := Packets(jobs[0].info, jobs[0].ts, mtu, ssrc, seqNo, 0);
      var next: u16 := (seqNo + |first|) % 0x1_0000;
      PacketsNumbered(jobs[0].info, jobs[0].ts, mtu, ssrc, seqNo);
      SentNumbered(jobs[1..], mtu, ssrc, next);
      NumberedConcat(first, Sent(jobs[1..], mtu, ssrc, next), seqNo);
    }
  }

  /** Whatever a JPEG packet's payload, its number is noted. */
  lemma {:induction false} PushNotes(s: State, p: bytes)
    requires Valid(s) && H.Parse(p).Ok? && H.Parse(p).value.0.payloadType == H.PT_JPEG
    ensures var r, seqNo := Push(s, p).state, H.Parse(p).value.0.seqNo;
            r.lastSeq == Some(seqNo) && r.lost == s.lost + Gap(s.lastSeq, seqNo)
  {
    hide H.Parse, ReadMain, ReadQuant, P.File, P.Printable, Gap, HasHeader;
  }

  /** Where the sequence memory stands, whatever frame is in progress. */
  ghost predicate InStep(s: State, t: Track, next: u16) {
    && Valid(s)
    && (t.started <==> s.lastSeq.Some?)
    && (t.started ==> s.lastSeq.value == (next - 1 - t.lost) % 0x1_0000)
  }

  lemma {:induction false} StepLost(s: State, t: Track, next: u16)
    requires InStep(s, t, next)
    ensures InStep(s, Track(t.started, t.lost + 1), (next + 1) % 0x1_0000)
  {
    hide Valid;
    if t.started && next == 0xFFFF {
      var x := 0xFFFF - 1 - t.lost;
      assert (x - 0x1_0000) % 0x1_0000 == x % 0x1_0000;
    }
  }

  lemma {:induction false} StepArrived(s: State, t: Track, next: u16, p: bytes)
    requires InStep(s, t, next) && H.Parse(p).Ok? && H.Parse(p).value.0.payloadType == H.PT_JPEG
    requires H.Parse(p).value.0.seqNo == next
    ensures InStep(Push(s, p).state, Track(true, 0), (next + 1) % 0x1_0000)
    ensures Push(s, p).state.lost == s.lost + if t.started then SeenLoss(t.lost) else 0
  {
    hide Valid, Push, H.Parse, Gap, SeenLoss;
    PushNotes(s, p);
    if t.started {
      LossByRange(s.lastSeq.value, t.lost, next);
    } else {
      NoGap(next);
    }
  }

  lemma {:induction false} NoGap(next: u16)
    ensures Gap(None, next) == 0
  {
  }

  lemma {:induction false} RunCounts(s: State, t: Track, ps: seq<bytes>, seqNo: u16, mask: seq<bool>)
    requires Numbered(ps, seqNo) && |mask| == |ps| && InStep(s, t, seqNo)
    ensures Run(s, Arrived(ps, mask)).lost == s.lost + SeenBetween(t, mask)
    decreases |ps|
  {
    hide Valid, Push, H.Parse, Numbered, SeenLoss;
    if ps != [] {
      var next: u16 := (seqNo + 1) % 0x1_0000;
      NumberedTail(ps, seqNo);
      ArrivedStep(ps, mask);
      if mask[0] {
        StepArrived(s, t, seqNo, ps[0]);
        StepIsValid(s, ps[0]);
        RunCounts(Push(s, ps[0]).state, Track(true, 0), ps[1..], next, mask[1..]);
        assert Arrived(ps, mask)[1..] == Arrived(ps[1..], mask[1..]);
      } else {
        StepLost(s, t, seqNo);
        RunCounts(s, Track(t.started, t.lost + 1), ps[1..], next, mask[1..]);
      }
    }
  }

  lemma {:induction false} StepIsValid(s: State, p: bytes)
    requires Valid(s)
    ensures Valid(Push(s, p).state)
  {
    hide Push;
  }

  /** Over every run, whatever the JPEGs: the receiver counts all the losses between the first and the last arrival if
      and only if each run of them is shorter than 2^15. */
  lemma {:induction false} LossCountedExactly(jobs: seq<Job>, cap: nat, mtu: nat, ssrc: u32, firstSeq: u16, mask: seq<bool>)
    requires mtu >= MIN_MTU && cap >= RESERVE + 2 && AllPresent(jobs) && |mask| == |Sent(jobs, mtu, ssrc, firstSeq)|
    ensures Run(Init(cap), Arrived(Sent(jobs, mtu, ssrc, firstSeq), mask)).lost == LostBetween(Track(false, 0), mask) <==>
            ShortRuns(Track(false, 0), mask)
    ensures Run(Init(cap), Arrived(Sent(jobs, mtu, ssrc, firstSeq), mask)).lost <= LostBetween(Track(false, 0), mask)
  {
    hide Run, Arrived, Sent, Numbered, SeenBetween, LostBetween, ShortRuns;
    SentNumbered(jobs, mtu, ssrc, firstSeq);
    RunCounts(Init(cap), Track(false, 0), Sent(jobs, mtu, ssrc, firstSeq), firstSeq, mask);
    SeenExactly(Track(false, 0), mask);
  }
}
