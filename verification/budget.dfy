/** The byte budget: a token bucket in whole bytes, and the exact bucket it trails. */
module Budgets {
  import opened Bytes

  const MICROS := 1_000_000

  datatype State = State(rate: u64, burst: u64, tokens: u64, last: Option<u64>, admitted: nat, dropped: nat, bytes: nat)

  /** Time passed, none when the clock went back. */
  function Since(now: u64, last: u64): u64 {
    Max(0, now - last)
  }

  /** Whole bytes the rate gives in that time, cut to 64 bits. */
  function Refill(elapsed: u64, rate: u64): u64 {
    Times(elapsed, rate) / MICROS % 0x1_0000_0000_0000_0000
  }

  /** The bucket after the time up to `now` is credited. */
  function Credited(s: State, now: u64): (r: u64)
    ensures s.last == None ==> r == s.tokens
    ensures s.last.Some? ==> r <= s.burst
  {
    if s.last == None then s.tokens
    else Min(Min(s.tokens + Refill(Since(now, s.last.value), s.rate), U64_MAX), s.burst)
  }

  function Admits(s: State, now: u64, need: nat): bool {
    s.rate == 0 || need <= Credited(s, now)
  }

  /** A frame of `need` bytes at `now`: it takes its bytes, or none. */
  function Spend(s: State, now: u64, need: nat): State {
    if s.rate == 0 then s.(admitted := s.admitted + 1, bytes := s.bytes + need)
    else
      var tokens := Credited(s, now);
      if need <= tokens then
        s.(last := Some(now), tokens := tokens - need, admitted := s.admitted + 1, bytes := s.bytes + need)
      else s.(last := Some(now), tokens := tokens, dropped := s.dropped + 1)
  }

  /** `kbps` kilobits per second, with `burstMs` of headroom. The product wraps at 64 bits. */
  function Init(kbps: u32, burstMs: u32): State {
    var rate := kbps * 1000 / 8;
    var burst := Times(rate, Max(burstMs, 1)) % 0x1_0000_0000_0000_0000 / 1000;
    State(rate, burst, burst, None, 0, 0, 0)
  }

  class Budget {
    const bytesPerSecond: u64
    const burstBytes: u64
    var tokens: u64
    var last: Option<u64>
    var admitted: nat
    var dropped: nat
    var bytesAdmitted: nat

    ghost function Model(): State
      reads this
    {
      State(bytesPerSecond, burstBytes, tokens, last, admitted, dropped, bytesAdmitted)
    }

    constructor (kbps: u32, burstMs: u32)
      ensures Model() == Init(kbps, burstMs)
    {
      var rate := kbps * 1000 / 8;
      var burst := rate * Max(burstMs, 1) % 0x1_0000_0000_0000_0000 / 1000;
      bytesPerSecond, burstBytes, tokens := rate, burst, burst;
      last, admitted, dropped, bytesAdmitted := None, 0, 0, 0;
    }

    /** Should a frame of `bytes` captured at `now` be sent? */
    method Admit(now: u64, bytes: nat) returns (ok: bool)
      modifies this
      ensures ok == Admits(old(Model()), now, bytes) && Model() == Spend(old(Model()), now, bytes)
    {
      if bytesPerSecond == 0 {
        admitted := admitted + 1;
        bytesAdmitted := bytesAdmitted + bytes;
        return true;
      }
      if last.Some? {
        var refill := Refill(Since(now, last.value), bytesPerSecond);
        tokens := Min(Min(tokens + refill, U64_MAX), burstBytes);
      }
      last := Some(now);
      if bytes <= tokens {
        tokens := tokens - bytes;
        admitted := admitted + 1;
        bytesAdmitted := bytesAdmitted + bytes;
        return true;
      }
      dropped := dropped + 1;
      return false;
    }

    /** Full bucket, no history. */
    method Reset()
      modifies this`tokens, this`last
      ensures Model() == old(Model()).(tokens := burstBytes, last := None)
    {
      tokens, last := burstBytes, None;
    }
  }

  // ----- runs

  datatype Call = Call(now: u64, need: nat)

  predicate Valid(s: State) {
    s.tokens <= s.burst
  }

  function After(s: State, calls: seq<Call>): State
    decreases |calls|
  {
    if calls == [] then s else After(Spend(s, calls[0].now, calls[0].need), calls[1..])
  }

  /** Bytes a run admits. */
  function Sent(s: State, calls: seq<Call>): nat
    decreases |calls|
  {
    if calls == [] then 0
    else
      var c := calls[0];
      (if Admits(s, c.now, c.need) then c.need else 0) + Sent(Spend(s, c.now, c.need), calls[1..])
  }

  predicate InOrder(calls: seq<Call>) {
    forall i, j :: 0 <= i < j < |calls| ==> calls[i].now <= calls[j].now
  }

  /** The bucket never holds more than the burst, and the byte counter counts what went out. */
  lemma {:induction false} NeverOverfull(s: State, calls: seq<Call>)
    requires Valid(s)
    ensures Valid(After(s, calls)) && After(s, calls).burst == s.burst && After(s, calls).rate == s.rate
    ensures After(s, calls).bytes == s.bytes + Sent(s, calls)
    ensures After(s, calls).admitted + After(s, calls).dropped == s.admitted + s.dropped + |calls|
    decreases |calls|
  {
    hide Credited;
    if calls != [] {
      var c := calls[0];
      SpendValid(s, c.now, c.need);
      NeverOverfull(Spend(s, c.now, c.need), calls[1..]);
    }
  }

  lemma {:induction false} SpendValid(s: State, now: u64, need: nat)
    requires Valid(s)
    ensures Valid(Spend(s, now, need)) && Credited(s, now) <= s.burst
  {
  }

  // ----- the rate bound

  /** What is credited is what the rate earns, at most. */
  lemma {:induction false} RefillBound(elapsed: u64, rate: u64)
    ensures MICROS * Refill(elapsed, rate) <= Times(elapsed, rate)
  {
    hide Times;
    var x := Times(elapsed, rate);
    assert x / MICROS % 0x1_0000_0000_0000_0000 <= x / MICROS;
  }

  lemma {:induction false} TimesAdds(a: nat, b: nat, rate: nat)
    ensures Times(a, rate) + Times(b, rate) == Times(a + b, rate)
  {
  }

  /** The time the bucket sees pass over a run: what lies between each call and the one before it, and nothing where
      the clock goes back. */
  function Elapsed(calls: seq<Call>): nat
    decreases |calls|
  {
    if |calls| <= 1 then 0 else Since(calls[1].now, calls[0].now) + Elapsed(calls[1..])
  }

  /** From a bucket last credited at `from`: bytes sent and bytes left come out of what was there and what the rate
      has earned since. */
  lemma {:induction false} SpendingBound(s: State, from: u64, calls: seq<Call>)
    requires s.rate > 0 && s.last == Some(from) && calls != []
    ensures var r := After(s, calls);
            MICROS * (Sent(s, calls) + r.tokens) <=
            MICROS * s.tokens + Times(Since(calls[0].now, from) + Elapsed(calls), s.rate)
    decreases |calls|
  {
    hide Refill, Times, Since;
    var c := calls[0];
    var s1 := Spend(s, c.now, c.need);
    RefillBound(Since(c.now, from), s.rate);
    if |calls| > 1 {
      SpendingBound(s1, c.now, calls[1..]);
      TimesAdds(Since(c.now, from), Elapsed(calls), s.rate);
    } else {
      assert calls[1..] == [];
    }
  }

  /** Whatever came before and whatever the times, the bytes admitted by a run of calls are at most the burst and what
      the rate earns in the time that passes from each call to the next. */
  lemma {:induction false} RateBound(s: State, calls: seq<Call>)
    requires s.rate > 0 && Valid(s) && calls != []
    ensures MICROS * Sent(s, calls) <= MICROS * s.burst + Times(Elapsed(calls), s.rate)
  {
    hide Times, Credited, Since;
    var c := calls[0];
    var s1 := Spend(s, c.now, c.need);
    SpendValid(s, c.now, c.need);
    if |calls| > 1 {
      SpendingBound(s1, c.now, calls[1..]);
    } else {
      assert calls[1..] == [];
    }
  }

  /** For times in order that is the time from the first call to the last. */
  lemma {:induction false} ElapsedInOrder(calls: seq<Call>)
    requires calls != [] && InOrder(calls)
    ensures calls[0].now <= calls[|calls| - 1].now
    ensures Elapsed(calls) == calls[|calls| - 1].now - calls[0].now
    decreases |calls|
  {
    if |calls| > 1 {
      ElapsedInOrder(calls[1..]);
    }
  }

  lemma {:induction false} AfterConcat(s: State, a: seq<Call>, b: seq<Call>)
    ensures After(s, a + b) == After(After(s, a), b)
    ensures Sent(s, a + b) == Sent(s, a) + Sent(After(s, a), b)
    decreases |a|
  {
    hide Spend, Admits;
    if a == [] {
      assert a + b == b;
    } else {
      assert (a + b)[1..] == a[1..] + b;
      AfterConcat(Spend(s, a[0].now, a[0].need), a[1..], b);
    }
  }

  /** The same over any stretch of a longer run from a fresh budget. */
  lemma {:induction false} WindowBound(kbps: u32, burstMs: u32, calls: seq<Call>, i: nat, j: nat)
    requires Init(kbps, burstMs).rate > 0 && i <= j < |calls|
    ensures var s := After(Init(kbps, burstMs), calls[..i]);
            MICROS * Sent(s, calls[i..j + 1]) <=
            MICROS * Init(kbps, burstMs).burst + Times(Elapsed(calls[i..j + 1]), Init(kbps, burstMs).rate)
    ensures InOrder(calls) ==> Elapsed(calls[i..j + 1]) == calls[j].now - calls[i].now
  {
    hide Times, Sent, After, Init, Elapsed;
    InitValid(kbps, burstMs);
    NeverOverfull(Init(kbps, burstMs), calls[..i]);
    RateBound(After(Init(kbps, burstMs), calls[..i]), calls[i..j + 1]);
    if InOrder(calls) {
      ElapsedInOrder(calls[i..j + 1]);
    }
  }

  // ----- the cap in kilobits per second

  lemma {:induction false} RateIs(kbps: u32, burstMs: u32)
    ensures Init(kbps, burstMs).rate == 125 * kbps
    ensures Init(kbps, burstMs).burst == Times(125 * kbps, Max(burstMs, 1)) % 0x1_0000_0000_0000_0000 / 1000
  {
    hide Times;
    assert kbps * 1000 / 8 == 125 * kbps;
  }

  /** The burst is `burstMs` (1 at least) of the rate in whole bytes, unless that product does not fit 64 bits: then it is
      less. */
  lemma {:induction false} BurstExactly(kbps: u32, burstMs: u32)
    ensures var burst, bits := Init(kbps, burstMs).burst, kbps * Max(burstMs, 1);
            && 8 * burst <= bits
            && (bits < 8 * (burst + 1) <==> 125 * bits < 0x1_0000_0000_0000_0000)
  {
    RateIs(kbps, burstMs);
    hide Init;
    Reassociated(kbps, Max(burstMs, 1));
    Truncated(kbps * Max(burstMs, 1));
  }

  lemma {:induction false} Reassociated(kbps: nat, ms: nat)
    ensures Times(125 * kbps, ms) == 125 * (kbps * ms)
  {
  }

  lemma {:induction false} Truncated(bits: nat)
    ensures var burst := 125 * bits % 0x1_0000_0000_0000_0000 / 1000;
            && 8 * burst <= bits
            && (bits < 8 * (burst + 1) <==> 125 * bits < 0x1_0000_0000_0000_0000)
  {
    var x := 125 * bits;
    var w := x % 0x1_0000_0000_0000_0000;
    if x >= 0x1_0000_0000_0000_0000 {
      assert w + 0x1_0000_0000_0000_0000 <= x;
    }
  }

  /** The promised cap, in kilobits and milliseconds: whatever came before and whatever the times, the bits admitted over a
      stretch of calls are at most `kbps` for the burst and the time that passes. */
  lemma {:induction false} CapInKbps(kbps: u32, burstMs: u32, calls: seq<Call>, i: nat, j: nat)
    requires kbps > 0 && i <= j < |calls|
    ensures var s := After(Init(kbps, burstMs), calls[..i]);
            1000 * (8 * Sent(s, calls[i..j + 1])) <= kbps * (1000 * Max(burstMs, 1) + Elapsed(calls[i..j + 1]))
    ensures InOrder(calls) ==> Elapsed(calls[i..j + 1]) == calls[j].now - calls[i].now
  {
    hide Sent, After, Elapsed, Init, Times;
    RateIs(kbps, burstMs);
    WindowBound(kbps, burstMs, calls, i, j);
    BurstExactly(kbps, burstMs);
    var sent := Sent(After(Init(kbps, burstMs), calls[..i]), calls[i..j + 1]);
    var elapsed := Elapsed(calls[i..j + 1]);
    Reassociated(kbps, elapsed);
    TimesCommutes(elapsed, 125 * kbps);
    InBits(sent, Init(kbps, burstMs).burst, kbps, Max(burstMs, 1), elapsed, kbps * elapsed, kbps * Max(burstMs, 1));
  }

  lemma {:induction false} TimesCommutes(a: nat, b: nat)
    ensures Times(a, b) == Times(b, a)
  {
  }

  lemma {:induction false} InBits(sent: nat, burst: nat, kbps: nat, ms: nat, elapsed: nat, earned: nat, bits: nat)
    requires earned == kbps * elapsed && bits == kbps * ms && 8 * burst <= bits
    requires 1_000_000 * sent <= 1_000_000 * burst + 125 * earned
    ensures 1000 * (8 * sent) <= kbps * (1000 * ms + elapsed)
  {
    assert kbps * (1000 * ms + elapsed) == 1000 * bits + earned;
  }

  /** And a frame within the burst is admitted once the rate has earned it since the last call, unless the credit does not
      fit 64 bits. */
  lemma {:induction false} EarnedIsAdmitted(kbps: u32, burstMs: u32, calls: seq<Call>, now: u64, need: nat)
    requires kbps > 0 && After(Init(kbps, burstMs), calls).last.Some? && need <= Init(kbps, burstMs).burst
    requires var bits := kbps * Max(0, now - After(Init(kbps, burstMs), calls).last.value);
             8000 * need <= bits < 8000 * 0x1_0000_0000_0000_0000
    ensures Admits(After(Init(kbps, burstMs), calls), now, need)
  {
    hide After, Init;
    RateIs(kbps, burstMs);
    InitValid(kbps, burstMs);
    NeverOverfull(Init(kbps, burstMs), calls);
    AdmitsEarned(After(Init(kbps, burstMs), calls), kbps, now, need);
  }

  lemma {:induction false} AdmitsEarned(s: State, kbps: u32, now: u64, need: nat)
    requires s.rate == 125 * kbps && s.last.Some? && need <= s.burst
    requires 8000 * need <= kbps * Since(now, s.last.value) < 8000 * 0x1_0000_0000_0000_0000
    ensures Admits(s, now, need)
  {
    hide Refill, Since;
    var elapsed := Since(now, s.last.value);
    RefillInBits(elapsed, kbps);
    var bits := kbps * elapsed;
    assert need <= bits / 8000;
  }

  lemma {:induction false} RefillInBits(elapsed: u64, kbps: u32)
    requires kbps * elapsed < 8000 * 0x1_0000_0000_0000_0000
    ensures Refill(elapsed, 125 * kbps) == kbps * elapsed / 8000
  {
    Reassociated(kbps, elapsed);
    TimesCommutes(elapsed, 125 * kbps);
    hide Times;
    var bits := kbps * elapsed;
    assert 125 * bits / 1_000_000 == bits / 8000;
  }

  /** 0 kbps is no cap: everything is admitted. */
  lemma {:induction false} ZeroIsNoCap(burstMs: u32, calls: seq<Call>)
    ensures After(Init(0, burstMs), calls).admitted == |calls| && After(Init(0, burstMs), calls).dropped == 0
  {
    RateIs(0, burstMs);
    hide Init;
    NoRateNoCap(Init(0, burstMs), calls);
    InitCounters(0, burstMs);
  }

  lemma {:induction false} InitCounters(kbps: u32, burstMs: u32)
    ensures Init(kbps, burstMs).admitted == 0 && Init(kbps, burstMs).dropped == 0
    ensures Init(kbps, burstMs).tokens == Init(kbps, burstMs).burst && Init(kbps, burstMs).last == None
  {
    hide Times;
  }

  lemma {:induction false} NoRateNoCap(s: State, calls: seq<Call>)
    requires s.rate == 0
    ensures After(s, calls).admitted == s.admitted + |calls| && After(s, calls).dropped == s.dropped
    decreases |calls|
  {
    if calls != [] {
      NoRateNoCap(Spend(s, calls[0].now, calls[0].need), calls[1..]);
    }
  }

  // ----- a clock that goes back

  /** A clock that goes back earns the same time twice: from a full bucket, a burst, a look back and one byte more
      at the first time again are all admitted. */
  lemma {:induction false} ClockBackOverspends(s: State, t: u64, back: u64)
    requires s.rate > 0 && s.tokens == s.burst > 0 && s.last == None
    requires back < t && Refill(t - back, s.rate) > 0
    ensures var calls := [Call(t, s.burst), Call(back, 0), Call(t, 1)];
            MICROS * Sent(s, calls) > MICROS * s.burst + Times(calls[2].now - calls[0].now, s.rate)
  {
    hide Refill, Times, Sent;
    var a, b, c := Call(t, s.burst), Call(back, 0), Call(t, 1);
    var s1 := Spend(s, t, s.burst);
    var s2 := Spend(s1, back, 0);
    var s3 := Spend(s2, t, 1);
    SentStep(s, a, [b, c]);
    SentStep(s1, b, [c]);
    SentStep(s2, c, []);
    SentStep(s3, c, []);
    assert [a] + [b, c] == [a, b, c] && [b] + [c] == [b, c] && [c] + [] == [c];
    NoTime(s.rate);
  }

  lemma {:induction false} NoTime(rate: u64)
    ensures Times(0, rate) == 0
  {
  }

  lemma {:induction false} SentStep(s: State, c: Call, rest: seq<Call>)
    ensures Sent(s, [c] + rest) ==
            (if Admits(s, c.now, c.need) then c.need else 0) + Sent(Spend(s, c.now, c.need), rest)
    ensures Sent(s, []) == 0
  {
    hide Admits, Spend;
    assert ([c] + rest)[1..] == rest;
  }

  function WithNeeds(times: seq<u64>, needs: seq<nat>): (r: seq<Call>)
    requires |needs| == |times|
    ensures |r| == |times|
  {
    if times == [] then [] else [Call(times[0], needs[0])] + WithNeeds(times[1..], needs[1..])
  }

  /** What a bucket of this size can be credited at `times` after `prev`, if it is emptied each time. */
  function Earned(prev: u64, times: seq<u64>, rate: u64, burst: u64): nat
    decreases |times|
  {
    if times == [] then 0
    else Min(Refill(Since(times[0], prev), rate), burst) + Earned(times[0], times[1..], rate, burst)
  }

  /** No choice of needs gets more than that. */
  lemma {:induction false} EarnedAtMost(s: State, prev: u64, times: seq<u64>, needs: seq<nat>)
    requires s.rate > 0 && s.last == Some(prev) && |needs| == |times|
    ensures Sent(s, WithNeeds(times, needs)) <= s.tokens + Earned(prev, times, s.rate, s.burst)
    decreases |times|
  {
    hide Refill, Since;
    if times != [] {
      var c := Call(times[0], needs[0]);
      SentStep(s, c, WithNeeds(times[1..], needs[1..]));
      EarnedAtMost(Spend(s, c.now, c.need), c.now, times[1..], needs[1..]);
    }
  }

  /** Taking every credit at once gets all of it. */
  lemma {:induction false} EarnedTaken(s: State, prev: u64, times: seq<u64>) returns (needs: seq<nat>)
    requires s.rate > 0 && s.last == Some(prev) && s.tokens == 0
    ensures |needs| == |times| && Sent(s, WithNeeds(times, needs)) == Earned(prev, times, s.rate, s.burst)
    decreases |times|
  {
    hide Refill, Since;
    if times == [] {
      needs := [];
    } else {
      var c := Call(times[0], Credited(s, times[0]));
      var rest := EarnedTaken(Spend(s, c.now, c.need), c.now, times[1..]);
      needs := [c.need] + rest;
      assert needs[1..] == rest;
      SentStep(s, c, WithNeeds(times[1..], rest));
    }
  }

  /** The documented bound, by the clock from the first call to the last. */
  ghost predicate ByTheClock(s: State, times: seq<u64>, needs: seq<nat>)
    requires times != []
  {
    |needs| == |times| ==>
      MICROS * Sent(s, WithNeeds(times, needs)) <= MICROS * s.burst + (times[|times| - 1] - times[0]) * s.rate
  }

  /** From a full bucket, whatever the frames ask for: the bound by the clock holds at these call times if and only if
      the credits they can earn are within it. */
  lemma {:induction false} ClockExactly(s: State, times: seq<u64>)
    requires s.rate > 0 && s.tokens == s.burst && times != []
    ensures (forall needs :: ByTheClock(s, times, needs)) <==>
            MICROS * Earned(times[0], times[1..], s.rate, s.burst) <= (times[|times| - 1] - times[0]) * s.rate
  {
    hide Refill, Since, Earned, Sent, WithNeeds;
    var span, earned := (times[|times| - 1] - times[0]) * s.rate, Earned(times[0], times[1..], s.rate, s.burst);
    if MICROS * earned <= span {
      forall needs ensures ByTheClock(s, times, needs) {
        if |needs| == |times| {
          FromFull(s, times, needs);
        }
      }
    } else {
      var c := Call(times[0], s.burst);
      var rest := EarnedTaken(Spend(s, c.now, c.need), c.now, times[1..]);
      var needs := [s.burst] + rest;
      FirstNeed(times, s.burst, rest);
      SentStep(s, c, WithNeeds(times[1..], rest));
      assert !ByTheClock(s, times, needs);
    }
  }

  lemma {:induction false} FirstNeed(times: seq<u64>, need: nat, rest: seq<nat>)
    requires times != [] && |rest| == |times| - 1
    ensures WithNeeds(times, [need] + rest) == [Call(times[0], need)] + WithNeeds(times[1..], rest)
  {
    assert ([need] + rest)[1..] == rest;
  }

  lemma {:induction false} FromFull(s: State, times: seq<u64>, needs: seq<nat>)
    requires s.rate > 0 && s.tokens == s.burst && times != [] && |needs| == |times|
    ensures Sent(s, WithNeeds(times, needs)) <= s.burst + Earned(times[0], times[1..], s.rate, s.burst)
  {
    hide Refill, Since, Earned, Sent;
    var c := Call(times[0], needs[0]);
    SentStep(s, c, WithNeeds(times[1..], needs[1..]));
    EarnedAtMost(Spend(s, c.now, c.need), c.now, times[1..], needs[1..]);
  }

  lemma {:induction false} InitValid(kbps: u32, burstMs: u32)
    ensures Valid(Init(kbps, burstMs))
  {
    hide Times;
  }

  // ----- the exact bucket

  /** The bucket without rounding, in millionths of a byte, spending what the floored one admits. */
  function Exact(s: State, exact: int, calls: seq<Call>): int
    decreases |calls|
  {
    if calls == [] then exact
    else
      var c := calls[0];
      var credited := CreditedExactly(s, exact, c.now);
      var left := if Admits(s, c.now, c.need) then credited - MICROS * c.need else credited;
      Exact(Spend(s, c.now, c.need), left, calls[1..])
  }

  function CreditedExactly(s: State, exact: int, now: u64): int {
    if s.last == None then exact
    else Min(exact + Times(Since(now, s.last.value), s.rate), MICROS * s.burst)
  }

  /** No call comes so late that its credit does not fit 64 bits. */
  predicate CreditsFit(s: State, calls: seq<Call>)
    decreases |calls|
  {
    calls == [] ||
    (&& (s.last.Some? ==> Times(Since(calls[0].now, s.last.value), s.rate) / MICROS <= U64_MAX)
     && CreditsFit(Spend(s, calls[0].now, calls[0].need), calls[1..]))
  }

  /** The floored bucket trails the exact one by less than `n` bytes, and never leads. */
  predicate Trails(s: State, exact: int, n: nat) {
    MICROS * s.tokens <= exact && (if n == 0 then exact == MICROS * s.tokens else exact < MICROS * (s.tokens + n))
  }

  /** One credit loses less than a byte. */
  lemma {:induction false} CreditTrails(s: State, exact: int, n: nat, now: u64)
    requires Valid(s) && Trails(s, exact, n)
    requires s.last.Some? ==> Times(Since(now, s.last.value), s.rate) / MICROS <= U64_MAX
    ensures MICROS * Credited(s, now) <= CreditedExactly(s, exact, now) < MICROS * (Credited(s, now) + n + 1)
  {
    hide Times;
  }

  /** What the exact bucket holds covers every frame admitted; a frame that would leave the exact bucket `n` bytes is
      never dropped by the floored one after `n` calls. */
  lemma {:induction false} DecidesAlmostExactly(s: State, exact: int, n: nat, now: u64, need: nat)
    requires Valid(s) && s.rate > 0 && Trails(s, exact, n)
    requires s.last.Some? ==> Times(Since(now, s.last.value), s.rate) / MICROS <= U64_MAX
    ensures Admits(s, now, need) ==> MICROS * need <= CreditedExactly(s, exact, now)
    ensures MICROS * (need + n + 1) <= CreditedExactly(s, exact, now) + 1 ==> Admits(s, now, need)
  {
    hide Times, Credited, CreditedExactly;
    CreditTrails(s, exact, n, now);
  }

  /** Over every run the floored bucket trails the exact one by less than one byte a call, and never leads it. */
  lemma {:induction false} TrailsByCalls(s: State, exact: int, n: nat, calls: seq<Call>)
    requires Valid(s) && s.rate > 0 && Trails(s, exact, n) && CreditsFit(s, calls)
    ensures Trails(After(s, calls), Exact(s, exact, calls), n + |calls|)
    decreases |calls|
  {
    hide Times, Credited, CreditedExactly;
    if calls != [] {
      var c := calls[0];
      CreditTrails(s, exact, n, c.now);
      SpendValid(s, c.now, c.need);
      var credited := CreditedExactly(s, exact, c.now);
      var left := if Admits(s, c.now, c.need) then credited - MICROS * c.need else credited;
      TrailsByCalls(Spend(s, c.now, c.need), left, n + 1, calls[1..]);
    }
  }
}
