/** The RTP/JPEG sender and the receiver together: a budget drops whole frames, and every other one comes out. */
module BudgetedStream {
  import opened Bytes
  import opened UdpSenders
  import opened Wire
  import B = Budgets
  import J = JpegFile
  import S = JpegSender
  import L = JpegLossyLink
  import R = JpegReceiver

  /** A run of calls: what went out, the answers, and what is left behind. */
  datatype Log = Log(sent: seq<bytes>, answers: seq<Result<nat>>, stats: TxStats, budget: Option<B.State>, seqNo: u16)

  function SendAll(mtu: nat, ssrc: u32, budget: Option<B.State>, seqNo: u16, stats: TxStats, jobs: seq<Job>): Log
    requires mtu >= S.MIN_MTU
    decreases |jobs|
  {
    if jobs == [] then Log([], [], stats, budget, seqNo)
    else
      var x := SendFrame(mtu, ssrc, budget, seqNo, stats, jobs[0].jpeg, jobs[0].now, jobs[0].ts);
      NumberFits(mtu, ssrc, budget, seqNo, stats, jobs[0]);
      var rest := SendAll(mtu, ssrc, x.budget, x.seqNo, x.stats, jobs[1..]);
      rest.(sent := x.sent + rest.sent, answers := [x.result] + rest.answers)
  }

  lemma {:induction false} NumberFits(mtu: nat, ssrc: u32, budget: Option<B.State>, seqNo: u16, stats: TxStats, job: Job)
    requires mtu >= S.MIN_MTU
    ensures SendFrame(mtu, ssrc, budget, seqNo, stats, job.jpeg, job.now, job.ts).seqNo < 0x1_0000
  {
    hide J.Parse, S.Packets, B.Admits, B.Spend, RtpCharge, Total, S.TablesPresent;
  }

  // ----- counters

  function Errors(answers: seq<Result<nat>>): nat {
    if answers == [] then 0 else (if answers[0].Err? then 1 else 0) + Errors(answers[1..])
  }

  lemma {:induction false} ErrorsCons(a: Result<nat>, rest: seq<Result<nat>>)
    ensures Errors([a] + rest) == (if a.Err? then 1 else 0) + Errors(rest)
  {
    assert ([a] + rest)[1..] == rest;
  }

  lemma {:induction false} TotalAppend(a: seq<bytes>, b: seq<bytes>)
    ensures Total(a + b) == Total(a) + Total(b)
  {
    if a == [] {
      assert a + b == b;
    } else {
      assert (a + b)[1..] == a[1..] + b;
      TotalAppend(a[1..], b);
    }
  }

  lemma {:induction false} OneTally(mtu: nat, ssrc: u32, budget: Option<B.State>, seqNo: u16, stats: TxStats, job: Job)
    requires mtu >= S.MIN_MTU
    ensures var x := SendFrame(mtu, ssrc, budget, seqNo, stats, job.jpeg, job.now, job.ts);
            && x.stats.packets == stats.packets + |x.sent| && x.stats.bytes == stats.bytes + Total(x.sent)
            && x.stats.frames + x.stats.dropped + (if x.result.Err? then 1 else 0) == stats.frames + stats.dropped + 1
            && (x.result.Err? ==> x.sent == [] && x.stats == stats)
            && x.budget.Some? == budget.Some?
            && (budget == None ==> x.stats.dropped == stats.dropped)
            && (budget.Some? ==> x.stats.dropped - stats.dropped == x.budget.value.dropped - budget.value.dropped)
  {
    hide J.Parse, S.Packets, RtpCharge, S.TablesPresent, B.Credited;
    TotalNothing();
  }

  lemma {:induction false} TotalNothing()
    ensures Total([]) == 0
  {
  }

  /** Over any run the statistics are what happened: every call is a frame, a drop or an error, packets and bytes are those
      on the wire, and the drops are the budget's. */
  lemma {:induction false} TallyExactly(mtu: nat, ssrc: u32, budget: Option<B.State>, seqNo: u16, stats: TxStats, jobs: seq<Job>)
    requires mtu >= S.MIN_MTU
    ensures var r := SendAll(mtu, ssrc, budget, seqNo, stats, jobs);
            && r.stats.packets == stats.packets + |r.sent| && r.stats.bytes == stats.bytes + Total(r.sent)
            && |r.answers| == |jobs|
            && r.stats.frames + r.stats.dropped + Errors(r.answers) == stats.frames + stats.dropped + |jobs|
            && r.budget.Some? == budget.Some?
            && (budget == None ==> r.stats.dropped == stats.dropped)
            && (budget.Some? ==> r.stats.dropped - stats.dropped == r.budget.value.dropped - budget.value.dropped)
    decreases |jobs|
  {
    hide SendFrame, Total, Errors;
    TotalNothing();
    if jobs == [] {
      assert Errors([]) == 0 by {
        ErrorsNone();
      }
    } else {
      var x := SendFrame(mtu, ssrc, budget, seqNo, stats, jobs[0].jpeg, jobs[0].now, jobs[0].ts);
      NumberFits(mtu, ssrc, budget, seqNo, stats, jobs[0]);
      OneTally(mtu, ssrc, budget, seqNo, stats, jobs[0]);
      TallyExactly(mtu, ssrc, x.budget, x.seqNo, x.stats, jobs[1..]);
      var rest := SendAll(mtu, ssrc, x.budget, x.seqNo, x.stats, jobs[1..]);
      TotalAppend(x.sent, rest.sent);
      ErrorsCons(x.result, rest.answers);
    }
  }

  lemma {:induction false} ErrorsNone()
    ensures Errors([]) == 0
  {
  }

  // ----- what comes out

  /** There is something to send and nothing in its way. */
  predicate Goes(jpeg: bytes) {
    J.Parse(jpeg).Ok? && J.Parse(jpeg).value.scan != [] && S.TablesPresent(J.Parse(jpeg).value)
  }

  /** The frames that go out: those the budget has the bytes for when their turn comes. */
  function Passed(mtu: nat, budget: Option<B.State>, jobs: seq<Job>): seq<L.Job>
    decreases |jobs|
  {
    if jobs == [] then []
    else
      var j := jobs[0];
      var charge := RtpCharge(|j.jpeg|, mtu);
      (if Goes(j.jpeg) && (budget.Some? ==> B.Admits(budget.value, j.now, charge))
       then [L.Job(J.Parse(j.jpeg).value, j.ts)] else []) +
      Passed(mtu, if budget.Some? then Some(B.Spend(budget.value, j.now, charge)) else None, jobs[1..])
  }

  lemma {:induction false} OnePassed(mtu: nat, ssrc: u32, budget: Option<B.State>, seqNo: u16, stats: TxStats, job: Job)
    requires mtu >= S.MIN_MTU
    ensures var x := SendFrame(mtu, ssrc, budget, seqNo, stats, job.jpeg, job.now, job.ts);
            var charge := RtpCharge(|job.jpeg|, mtu);
            && x.budget == (if budget.Some? then Some(B.Spend(budget.value, job.now, charge)) else None)
            && (if Goes(job.jpeg) && (budget.Some? ==> B.Admits(budget.value, job.now, charge))
                then x.sent == S.Packets(J.Parse(job.jpeg).value, job.ts, mtu, ssrc, seqNo, 0)
                     && x.seqNo == (seqNo + |x.sent|) % 0x1_0000
                else x.sent == [] && x.seqNo == seqNo)
  {
    hide J.Parse, S.Packets, RtpCharge, S.TablesPresent, B.Admits, B.Spend, Total;
  }

  /** The wire carries the fragments of exactly these frames, numbered without a gap. */
  lemma {:induction false} WireIsPassed(mtu: nat, ssrc: u32, budget: Option<B.State>, seqNo: u16, stats: TxStats, jobs: seq<Job>)
    requires mtu >= S.MIN_MTU
    ensures L.AllPresent(Passed(mtu, budget, jobs))
    ensures SendAll(mtu, ssrc, budget, seqNo, stats, jobs).sent == L.Sent(Passed(mtu, budget, jobs), mtu, ssrc, seqNo)
    decreases |jobs|
  {
    hide SendFrame, Goes, S.Packets, RtpCharge, B.Admits, B.Spend, J.Parse, S.TablesPresent;
    if jobs != [] {
      var j := jobs[0];
      var x := SendFrame(mtu, ssrc, budget, seqNo, stats, j.jpeg, j.now, j.ts);
      NumberFits(mtu, ssrc, budget, seqNo, stats, j);
      OnePassed(mtu, ssrc, budget, seqNo, stats, j);
      WireIsPassed(mtu, ssrc, x.budget, x.seqNo, x.stats, jobs[1..]);
      var rest := Passed(mtu, x.budget, jobs[1..]);
      if Goes(j.jpeg) && (budget.Some? ==> B.Admits(budget.value, j.now, RtpCharge(|j.jpeg|, mtu))) {
        GoesPresent(j.jpeg);
        SentCons(L.Job(J.Parse(j.jpeg).value, j.ts), rest, mtu, ssrc, seqNo);
      } else {
        assert [] + rest == rest && [] + L.Sent(rest, mtu, ssrc, seqNo) == L.Sent(rest, mtu, ssrc, seqNo);
      }
    }
  }

  lemma {:induction false} GoesPresent(jpeg: bytes)
    requires Goes(jpeg)
    ensures J.Parse(jpeg).Ok? && S.TablesPresent(J.Parse(jpeg).value)
  {
    hide J.Parse, S.TablesPresent;
  }

  lemma {:induction false} SentCons(job: L.Job, rest: seq<L.Job>, mtu: nat, ssrc: u32, seqNo: u16)
    requires mtu >= S.MIN_MTU && S.TablesPresent(job.info) && L.AllPresent(rest)
    ensures L.AllPresent([job] + rest)
    ensures var first := S.Packets(job.info, job.ts, mtu, ssrc, seqNo, 0);
            L.Sent([job] + rest, mtu, ssrc, seqNo) == first + L.Sent(rest, mtu, ssrc, (seqNo + |first|) % 0x1_0000)
  {
    hide S.Packets, S.TablesPresent;
    assert ([job] + rest)[1..] == rest;
  }

  function ExpectedAll(jobs: seq<L.Job>): seq<R.Delivery>
    requires L.AllPresent(jobs)
  {
    if jobs == [] then [] else [L.Expected(jobs[0])] + ExpectedAll(jobs[1..])
  }

  function AllArrive(n: nat): (r: seq<bool>)
    ensures |r| == n && L.AllTrue(r)
  {
    if n == 0 then [] else [true] + AllArrive(n - 1)
  }

  lemma {:induction false} Unbroken(t: L.Track, mask: seq<bool>)
    requires L.AllTrue(mask) && (t.started ==> t.lost == 0)
    ensures L.ShortRuns(t, mask) && L.LostBetween(t, mask) == 0
    decreases |mask|
  {
    if mask != [] {
      assert mask[0] && L.AllTrue(mask[1..]);
      Unbroken(L.Track(true, 0), mask[1..]);
    }
  }

  lemma {:induction false} EverythingArrives(packets: seq<bytes>, mask: seq<bool>)
    requires |mask| == |packets| && L.AllTrue(mask)
    ensures L.Arrived(packets, mask) == packets
  {
    if packets != [] {
      assert mask[0] && L.AllTrue(mask[1..]);
      EverythingArrives(packets[1..], mask[1..]);
    }
  }

  lemma {:induction false} WholeIsAll(jobs: seq<L.Job>, mtu: nat, ssrc: u32, seqNo: u16, mask: seq<bool>)
    requires mtu >= S.MIN_MTU && L.AllPresent(jobs) && |mask| == |L.Sent(jobs, mtu, ssrc, seqNo)| && L.AllTrue(mask)
    ensures L.Whole(jobs, mtu, ssrc, seqNo, mask) == ExpectedAll(jobs)
  {
    hide L.Expected, S.Packets, S.TablesPresent;
    if jobs != [] {
      var n := |S.Packets(jobs[0].info, jobs[0].ts, mtu, ssrc, seqNo, 0)|;
      assert L.AllTrue(mask[..n]) && L.AllTrue(mask[n..]);
      WholeIsAll(jobs[1..], mtu, ssrc, (seqNo + n) % 0x1_0000, mask[n..]);
    }
  }

  /** A sender with or without a budget, and a receiver behind a link that loses nothing: exactly the frames the budget let
      pass come out, whole and in order, and nothing counts as lost. */
  lemma {:induction false} PassedComeOut(mtu: nat, ssrc: u32, budget: Option<B.State>, seqNo: u16, stats: TxStats,
                                         jobs: seq<Job>, cap: nat)
    requires mtu >= S.MIN_MTU && cap >= R.RESERVE + 2 && L.AllPresent(Passed(mtu, budget, jobs))
    requires L.AllSendable(Passed(mtu, budget, jobs), cap, mtu)
    ensures var wire := SendAll(mtu, ssrc, budget, seqNo, stats, jobs).sent;
            && R.Delivered(R.Init(cap), wire) == ExpectedAll(Passed(mtu, budget, jobs))
            && R.Run(R.Init(cap), wire).lost == 0
  {
    hide SendAll, Passed, ExpectedAll, R.Delivered, R.Run, L.Sent, L.Whole, L.AllPresent, L.AllSendable, L.ShortRuns,
         L.LostBetween, L.AllTrue, L.Arrived;
    WireIsPassed(mtu, ssrc, budget, seqNo, stats, jobs);
    var passed := Passed(mtu, budget, jobs);
    var wire := L.Sent(passed, mtu, ssrc, seqNo);
    var mask := AllArrive(|wire|);
    Unbroken(L.Track(false, 0), mask);
    EverythingArrives(wire, mask);
    WholeIsAll(passed, mtu, ssrc, seqNo, mask);
    L.LossyLink(passed, cap, mtu, ssrc, seqNo, mask);
  }
}
