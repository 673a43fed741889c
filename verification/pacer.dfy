/** The frame-rate cap: a generic cell rate algorithm, and the all-history rule it stands for. */
module Pacing {
  import opened Bytes

  function SatAdd(a: u64, b: u64): u64 {
    Min(a + b, U64_MAX)
  }

  /** `due` is when the next frame is due at the capped rate. */
  datatype State = State(interval: u64, tolerance: u64, due: Option<u64>, admitted: nat, dropped: nat)

  function Admits(s: State, t: u64): bool {
    s.interval == 0 || s.due == None || SatAdd(t, s.tolerance) >= s.due.value
  }

  function Paced(s: State, t: u64): State {
    if !Admits(s, t) then s.(dropped := s.dropped + 1)
    else if s.interval == 0 then s.(admitted := s.admitted + 1)
    else
      var from: u64 := if s.due.Some? then Max(s.due.value, t) else t;
      s.(due := Some(SatAdd(from, s.interval)), admitted := s.admitted + 1)
  }

  function Init(fps: u32, burst: u32): State {
    var interval := if fps == 0 then 0 else 1_000_000 / fps;
    BurstFits(interval, burst);
    State(interval, interval * burst, None, 0, 0)
  }

  lemma {:induction false} BurstFits(interval: nat, burst: u32)
    requires interval <= 1_000_000
    ensures 0 <= interval * burst <= U64_MAX
  {
    assert interval * burst <= 1_000_000 * burst;
  }

  class Pacer {
    const intervalMicros: u64
    const toleranceMicros: u64
    var due: Option<u64>
    var admitted: nat
    var dropped: nat

    ghost function Model(): State
      reads this
    {
      State(intervalMicros, toleranceMicros, due, admitted, dropped)
    }

    constructor WithBurst(fps: u32, burst: u32)
      ensures Model() == Init(fps, burst)
    {
      var interval := if fps == 0 then 0 else 1_000_000 / fps;
      BurstFits(interval, burst);
      intervalMicros, toleranceMicros := interval, interval * burst;
      due, admitted, dropped := None, 0, 0;
    }

    /** Should a frame captured at `t` be sent? */
    method Admit(t: u64) returns (ok: bool)
      modifies this
      ensures ok == Admits(old(Model()), t) && Model() == Paced(old(Model()), t)
    {
      ok := intervalMicros == 0 || due == None || SatAdd(t, toleranceMicros) >= due.value;
      if ok {
        if intervalMicros != 0 {
          var from := if due.Some? then Max(due.value, t) else t;
          due := Some(SatAdd(from, intervalMicros));
        }
        admitted := admitted + 1;
      } else {
        dropped := dropped + 1;
      }
    }

    /** Forgets the frames admitted so far. */
    method Reset()
      modifies this`due
      ensures Model() == old(Model()).(due := None)
    {
      due := None;
    }
  }

  // ----- the all-history rule

  /** The times a run admits. */
  function Admitted(s: State, arrivals: seq<u64>): seq<u64>
    decreases |arrivals|
  {
    if arrivals == [] then []
    else (if Admits(s, arrivals[0]) then [arrivals[0]] else []) + Admitted(Paced(s, arrivals[0]), arrivals[1..])
  }

  function After(s: State, arrivals: seq<u64>): State
    decreases |arrivals|
  {
    if arrivals == [] then s else After(Paced(s, arrivals[0]), arrivals[1..])
  }

  /** Admitting `t` as the next frame after those of `log` keeps every window within the cap: `n` intervals take
      their time, less the tolerance. */
  ghost predicate WithinCap(log: seq<u64>, interval: nat, tolerance: nat, t: u64) {
    forall i :: 0 <= i < |log| ==> Intervals(|log| - i, interval) <= t - log[i] + tolerance
  }

  /** `n` intervals. */
  function Intervals(n: nat, interval: nat): nat {
    n * interval
  }

  /** The greedy rule over the whole history: a frame goes out unless some window bound would break. Past the end of
      the 64-bit clock everything goes out. */
  ghost function Greedy(log: seq<u64>, interval: u64, tolerance: u64, arrivals: seq<u64>): seq<u64>
    decreases |arrivals|
  {
    if arrivals == [] then log
    else
      var t := arrivals[0];
      var ok := interval == 0 || WithinCap(log, interval, tolerance, t) || t + tolerance >= U64_MAX;
      Greedy(if ok then log + [t] else log, interval, tolerance, arrivals[1..])
  }

  /** `d` is the latest of `log[i]` plus one interval for each frame from `i` on. */
  ghost predicate IsDue(d: nat, log: seq<u64>, interval: nat) {
    && (forall i :: 0 <= i < |log| ==> log[i] + Intervals(|log| - i, interval) <= d)
    && (exists i :: 0 <= i < |log| && log[i] + Intervals(|log| - i, interval) == d)
  }

  /** The one number the pacer keeps is the due time of its whole history, cut off at 64 bits. */
  ghost predicate Remembers(s: State, log: seq<u64>) {
    if log == [] || s.interval == 0 then s.due == None
    else s.due.Some? && exists d: nat :: IsDue(d, log, s.interval) && s.due.value == Min(d, U64_MAX)
  }

  lemma {:induction false} OneMore(n: nat, interval: nat)
    ensures Intervals(n + 1, interval) == Intervals(n, interval) + interval && Intervals(0, interval) == 0
  {
  }

  /** The due time after one more frame. */
  lemma {:induction false} NextDue(d: nat, log: seq<u64>, interval: nat, t: u64)
    requires log == [] || IsDue(d, log, interval)
    ensures IsDue((if log == [] then t else Max(d, t)) + interval, log + [t], interval)
  {
    hide Intervals;
    var more, d' := log + [t], (if log == [] then t else Max(d, t)) + interval;
    OneMore(0, interval);
    forall i | 0 <= i < |more| ensures more[i] + Intervals(|more| - i, interval) <= d' {
      OneMore(|log| - i, interval);
    }
    if log != [] && d >= t {
      var i :| 0 <= i < |log| && log[i] + Intervals(|log| - i, interval) == d;
      OneMore(|log| - i, interval);
      assert more[i] + Intervals(|more| - i, interval) == d';
    } else {
      assert more[|log|] + Intervals(|more| - |log|, interval) == d';
    }
  }

  lemma {:induction false} DueIsCap(d: nat, log: seq<u64>, interval: nat, tolerance: nat, t: u64)
    requires IsDue(d, log, interval)
    ensures t + tolerance >= d <==> WithinCap(log, interval, tolerance, t)
  {
    hide Intervals;
  }

  /** One arrival: the pacer decides as the history says, and goes on remembering it. */
  lemma {:induction false} AdmitRemembers(s: State, log: seq<u64>, t: u64)
    requires Remembers(s, log)
    ensures Admits(s, t) <==> s.interval == 0 || WithinCap(log, s.interval, s.tolerance, t) || t + s.tolerance >= U64_MAX
    ensures Remembers(Paced(s, t), if Admits(s, t) then log + [t] else log)
    ensures Paced(s, t).interval == s.interval && Paced(s, t).tolerance == s.tolerance
  {
    hide IsDue, WithinCap;
    if s.interval != 0 {
      if log == [] {
        NextDue(0, log, s.interval, t);
        NothingBefore(s.interval, s.tolerance, t);
      } else {
        var d: nat :| IsDue(d, log, s.interval) && s.due.value == Min(d, U64_MAX);
        NextDue(d, log, s.interval, t);
        DueIsCap(d, log, s.interval, s.tolerance, t);
      }
    }
  }

  lemma {:induction false} NothingBefore(interval: nat, tolerance: nat, t: u64)
    ensures WithinCap([], interval, tolerance, t)
  {
  }

  lemma {:induction false} RunIsGreedy(s: State, log: seq<u64>, arrivals: seq<u64>)
    requires Remembers(s, log)
    ensures log + Admitted(s, arrivals) == Greedy(log, s.interval, s.tolerance, arrivals)
    ensures Remembers(After(s, arrivals), log + Admitted(s, arrivals))
    ensures After(s, arrivals).admitted == s.admitted + |Admitted(s, arrivals)|
    ensures After(s, arrivals).dropped == s.dropped + |arrivals| - |Admitted(s, arrivals)|
    decreases |arrivals|
  {
    hide Remembers, WithinCap, Admits;
    if arrivals == [] {
      assert log + [] == log;
    } else {
      var t := arrivals[0];
      AdmitRemembers(s, log, t);
      var more := if Admits(s, t) then [t] else [];
      RunIsGreedy(Paced(s, t), log + more, arrivals[1..]);
      var rest := Admitted(Paced(s, t), arrivals[1..]);
      assert log + [] == log;
      assert log + (more + rest) == (log + more) + rest;
    }
  }

  /** The constant-size pacer is the greedy rule over all history, for arrivals at any times in any order. */
  lemma {:induction false} PacerIsGreedy(fps: u32, burst: u32, arrivals: seq<u64>)
    ensures var s := Init(fps, burst);
            Admitted(s, arrivals) == Greedy([], s.interval, s.tolerance, arrivals)
  {
    hide Admitted, Greedy;
    var s := Init(fps, burst);
    RunIsGreedy(s, [], arrivals);
    assert [] + Admitted(s, arrivals) == Admitted(s, arrivals);
  }

  // ----- rate bounds

  /** No arrival is so late that the tolerance runs past the clock. */
  predicate InClock(arrivals: seq<u64>, tolerance: u64) {
    forall k :: 0 <= k < |arrivals| ==> arrivals[k] + tolerance < U64_MAX
  }

  /** Every pair of admitted frames keeps its distance, up to the tolerance. */
  ghost predicate Spaced(log: seq<u64>, interval: nat, tolerance: nat) {
    forall i, j :: 0 <= i < j < |log| ==> Intervals(j - i, interval) <= log[j] - log[i] + tolerance
  }

  lemma {:induction false} SpacedMore(log: seq<u64>, interval: nat, tolerance: nat, t: u64)
    requires Spaced(log, interval, tolerance) && WithinCap(log, interval, tolerance, t)
    ensures Spaced(log + [t], interval, tolerance)
  {
    hide Intervals;
  }

  lemma {:induction false} GreedySpaced(log: seq<u64>, interval: u64, tolerance: u64, arrivals: seq<u64>)
    requires interval > 0 && InClock(arrivals, tolerance) && Spaced(log, interval, tolerance)
    ensures Spaced(Greedy(log, interval, tolerance, arrivals), interval, tolerance)
    decreases |arrivals|
  {
    hide Spaced, WithinCap;
    if arrivals != [] {
      var t := arrivals[0];
      if WithinCap(log, interval, tolerance, t) {
        SpacedMore(log, interval, tolerance, t);
        GreedySpaced(log + [t], interval, tolerance, arrivals[1..]);
      } else {
        GreedySpaced(log, interval, tolerance, arrivals[1..]);
      }
    }
  }

  /** How many times lie in a window. */
  function InWindow(log: seq<u64>, lo: nat, hi: nat): nat {
    if log == [] then 0 else (if lo <= log[0] <= hi then 1 else 0) + InWindow(log[1..], lo, hi)
  }

  /** The count is within the stretch from the first to the last of them. */
  lemma {:induction false} WindowStretch(log: seq<u64>, lo: nat, hi: nat) returns (i: nat, j: nat)
    ensures InWindow(log, lo, hi) > 0 ==>
              && i <= j < |log| && lo <= log[i] <= hi && lo <= log[j] <= hi && InWindow(log, lo, hi) <= j - i + 1
  {
    i, j := 0, 0;
    if log != [] {
      var i', j' := WindowStretch(log[1..], lo, hi);
      if InWindow(log[1..], lo, hi) > 0 {
        i, j := i' + 1, j' + 1;
        if lo <= log[0] <= hi {
          i := 0;
        }
      }
    }
  }

  lemma {:induction false} BelowQuotient(n: nat, interval: nat, span: nat, burst: nat)
    requires interval > 0 && Intervals(n, interval) <= span + Intervals(burst, interval)
    ensures n <= span / interval + burst
  {
    if n > burst {
      var k := n - burst;
      assert Intervals(n, interval) == k * interval + Intervals(burst, interval);
      assert k * interval <= span;
      QuotientAtLeast(k, interval, span);
    }
  }

  lemma {:induction false} QuotientAtLeast(k: nat, interval: nat, span: nat)
    requires interval > 0 && k * interval <= span
    ensures k <= span / interval
  {
    assert span < (span / interval + 1) * interval;
    if k > span / interval {
      TimesGrows(span / interval + 1, k, interval);
    }
  }

  lemma {:induction false} TimesGrows(a: nat, b: nat, c: nat)
    requires a <= b
    ensures a * c <= b * c
  {
  }

  /** Any stretch of time admits at most its length in intervals, plus the burst, plus one. */
  lemma {:induction false} WindowBound(fps: u32, burst: u32, arrivals: seq<u64>, lo: nat, hi: nat)
    requires 1 <= fps <= 1_000_000 && lo <= hi && InClock(arrivals, Init(fps, burst).tolerance)
    ensures InWindow(Admitted(Init(fps, burst), arrivals), lo, hi) <= (hi - lo) / (1_000_000 / fps) + burst + 1
  {
    hide Admitted, Greedy, InWindow, InClock;
    var s := Init(fps, burst);
    var interval := 1_000_000 / fps;
    AtLeastOne(fps);
    PacerIsGreedy(fps, burst, arrivals);
    GreedySpaced([], s.interval, s.tolerance, arrivals);
    var log := Admitted(s, arrivals);
    var i, j := WindowStretch(log, lo, hi);
    if InWindow(log, lo, hi) > 0 {
      OneMore(0, interval);
      assert Intervals(j - i, interval) <= (hi - lo) + Intervals(burst, interval) by {
        BurstIs(interval, burst);
      }
      BelowQuotient(j - i, interval, hi - lo, burst);
    }
  }

  lemma {:induction false} AtLeastOne(fps: u32)
    requires 1 <= fps <= 1_000_000
    ensures 1_000_000 / fps >= 1
  {
    QuotientAtLeast(1, fps, 1_000_000);
  }

  lemma {:induction false} BurstIs(interval: nat, burst: nat)
    ensures Intervals(burst, interval) == interval * burst
  {
  }

  /** Arrivals an interval apart. */
  predicate Steady(arrivals: seq<u64>, interval: nat) {
    forall k :: 0 <= k < |arrivals| - 1 ==> arrivals[k] + interval <= arrivals[k + 1]
  }

  /** Frames that arrive an interval apart or more are never dropped, whatever the burst. */
  lemma {:induction false} SteadyAdmitted(s: State, arrivals: seq<u64>)
    requires Steady(arrivals, s.interval)
    requires arrivals != [] && s.due.Some? ==> s.due.value <= arrivals[0]
    ensures Admitted(s, arrivals) == arrivals
    decreases |arrivals|
  {
    if arrivals != [] {
      assert |arrivals| > 1 ==> arrivals[0] + s.interval <= arrivals[0 + 1];
      forall k | 0 <= k < |arrivals[1..]| - 1 ensures arrivals[1..][k] + s.interval <= arrivals[1..][k + 1] {
        assert arrivals[k + 1] + s.interval <= arrivals[k + 1 + 1];
      }
      SteadyAdmitted(Paced(s, arrivals[0]), arrivals[1..]);
    }
  }

  // ----- frames per second

  /** The documented cap: over this stretch at most `fps` frames a second, besides the burst and the first. */
  ghost predicate KeepsFps(fps: u32, burst: u32, arrivals: seq<u64>, lo: nat, hi: nat) {
    lo <= hi && InClock(arrivals, Init(fps, burst).tolerance) ==>
      (InWindow(Admitted(Init(fps, burst), arrivals), lo, hi) - burst - 1) * 1_000_000 <= (hi - lo) * fps
  }

  lemma {:induction false} DividesKeepsFps(fps: u32, burst: u32, arrivals: seq<u64>, lo: nat, hi: nat)
    requires fps > 0 && 1_000_000 % fps == 0
    ensures KeepsFps(fps, burst, arrivals, lo, hi)
  {
    hide Admitted, InWindow, InClock, Init;
    if lo <= hi && InClock(arrivals, Init(fps, burst).tolerance) {
      var interval := 1_000_000 / fps;
      Divisor(fps);
      WindowBound(fps, burst, arrivals, lo, hi);
      ScaledUp(InWindow(Admitted(Init(fps, burst), arrivals), lo, hi) - burst - 1, hi - lo, interval, fps);
    }
  }

  lemma {:induction false} Divisor(fps: nat)
    requires fps > 0 && 1_000_000 % fps == 0
    ensures 1 <= fps <= 1_000_000 && 1_000_000 / fps * fps == 1_000_000 && 1_000_000 / fps > 0
  {
  }

  lemma {:induction false} ScaledUp(n: int, span: nat, interval: nat, fps: nat)
    requires interval > 0 && interval * fps == 1_000_000 && n <= span / interval
    ensures n * 1_000_000 <= span * fps
  {
    if n > 0 {
      var q := span / interval;
      TimesGrows(n, q, interval);
      assert q * interval <= span;
      TimesGrows(n * interval, span, fps);
      assert n * interval * fps == n * (interval * fps);
    }
  }

  function Same(n: nat, t: u64): (r: seq<u64>)
    ensures |r| == n && forall k :: 0 <= k < n ==> r[k] == t
  {
    if n == 0 then [] else [t] + Same(n - 1, t)
  }

  lemma {:induction false} FewIntervals(n: nat, m: nat, interval: nat)
    requires n <= m <= 0x1_0000_0000 && interval <= 1_000_000
    ensures Intervals(n, interval) <= Intervals(m, interval) <= 1_000_000 * 0x1_0000_0000
  {
    TimesGrows(n, m, interval);
    TimesGrows(m, 0x1_0000_0000, interval);
  }

  /** A burst at once and one more frame an interval later all go out. */
  lemma {:induction false} BurstAdmitted(s: State, burst: u32, k: nat, n: nat)
    requires s.interval <= 1_000_000 && s.tolerance == Intervals(burst, s.interval) && k + n == burst + 1
    requires s.due == if k == 0 || s.interval == 0 then None else Some(Intervals(k, s.interval))
    ensures Admitted(s, Same(n, 0) + [s.interval]) == Same(n, 0) + [s.interval]
    decreases n
  {
    hide Intervals;
    var t := if n == 0 then s.interval else 0;
    FewIntervals(k, burst + 1, s.interval);
    FewIntervals(if k <= burst then k else burst, burst, s.interval);
    OneMore(k, s.interval);
    OneMore(0, s.interval);
    OneMore(burst, s.interval);
    assert Admits(s, t);
    if n == 0 {
      assert Same(0, 0) + [s.interval] == [s.interval];
      assert [s.interval][1..] == [];
    } else {
      var rest := Same(n - 1, 0) + [s.interval];
      assert Same(n, 0) + [s.interval] == [0] + rest;
      assert ([0] + rest)[1..] == rest;
      BurstAdmitted(Paced(s, 0), burst, k + 1, n - 1);
    }
  }

  lemma {:induction false} AllInWindow(log: seq<u64>, lo: nat, hi: nat)
    requires forall k :: 0 <= k < |log| ==> lo <= log[k] <= hi
    ensures InWindow(log, lo, hi) == |log|
  {
    if log != [] {
      AllInWindow(log[1..], lo, hi);
    }
  }

  /** When the rate does not divide a million microseconds, that pattern is one frame too many. */
  lemma {:induction false} RoundedBreaksFps(fps: u32, burst: u32)
    requires fps > 0 && 1_000_000 % fps != 0
    ensures var interval := 1_000_000 / fps;
            !KeepsFps(fps, burst, Same(burst + 1, 0) + [interval], 0, interval)
  {
    hide Admitted, InWindow, Same;
    var s := Init(fps, burst);
    var arrivals := Same(burst + 1, 0) + [s.interval];
    BurstIs(s.interval, burst);
    BurstAdmitted(s, burst, 0, burst + 1);
    FewIntervals(burst, burst, s.interval);
    assert InClock(arrivals, s.tolerance);
    AllInWindow(arrivals, 0, s.interval);
    RoundedDown(fps);
  }

  lemma {:induction false} RoundedDown(fps: nat)
    requires fps > 0 && 1_000_000 % fps != 0
    ensures 1_000_000 / fps * fps < 1_000_000
  {
  }

  /** The documented rate is kept, for all arrivals and over every stretch, if and only if it divides a million: the
      interval is in whole microseconds, and above a million frames a second it is zero. */
  lemma {:induction false} FpsExactly(fps: u32, burst: u32)
    requires fps > 0
    ensures (forall arrivals, lo, hi :: KeepsFps(fps, burst, arrivals, lo, hi)) <==> 1_000_000 % fps == 0
  {
    hide KeepsFps;
    if 1_000_000 % fps == 0 {
      forall arrivals: seq<u64>, lo: nat, hi: nat ensures KeepsFps(fps, burst, arrivals, lo, hi) {
        DividesKeepsFps(fps, burst, arrivals, lo, hi);
      }
    } else {
      RoundedBreaksFps(fps, burst);
    }
  }

  /** A rate of 0 is no cap: everything goes out. */
  lemma {:induction false} ZeroIsNoCap(burst: u32, arrivals: seq<u64>)
    ensures Admitted(Init(0, burst), arrivals) == arrivals
  {
    NoIntervalNoCap(Init(0, burst), arrivals);
  }

  lemma {:induction false} NoIntervalNoCap(s: State, arrivals: seq<u64>)
    requires s.interval == 0
    ensures Admitted(s, arrivals) == arrivals
    decreases |arrivals|
  {
    if arrivals != [] {
      NoIntervalNoCap(Paced(s, arrivals[0]), arrivals[1..]);
    }
  }

  /** At any rate the burst and one frame more go out at once, and a further one an interval later. */
  lemma {:induction false} BurstAtOnce(fps: u32, burst: u32)
    requires fps > 0
    ensures var arrivals := Same(burst + 1, 0) + [1_000_000 / fps];
            Admitted(Init(fps, burst), arrivals) == arrivals
  {
    hide Admitted, Same;
    BurstIs(Init(fps, burst).interval, burst);
    BurstAdmitted(Init(fps, burst), burst, 0, burst + 1);
  }
}
