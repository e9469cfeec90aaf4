/** The main loop's time keeping: updates at a fixed rate, rendering in between. */
module FixedTimestep {
  import opened Arithmetic
  import opened Basics

  const UINT64_RANGE := 0x1_0000_0000_0000_0000

  // ----- constants derived from the timer frequency

  /** `(8.333 / 1000) * tiFreq` */
  function TicksPerUpdate(freq: nat): real {
    8.333 / 1000.0 * freq as real
  }

  /** What one update takes off the lag: the ticks per update, truncated. */
  function UpdateTicks(freq: nat): nat {
    freq * 8333 / 1_000_000
  }

  /** `(NkUint64)(0.016 * tiFreq)` */
  function MaxElapsed(freq: nat): nat {
    freq * 16 / 1000
  }

  /** The integer quotients are the truncated real values. */
  lemma TruncatedTicks(freq: nat)
    ensures UpdateTicks(freq) == TicksPerUpdate(freq).Floor
    ensures MaxElapsed(freq) == (0.016 * freq as real).Floor
    ensures UpdateTicks(freq) as real <= TicksPerUpdate(freq)
  {
    assert TicksPerUpdate(freq) * 1_000_000.0 == (freq * 8333) as real;
    assert (0.016 * freq as real) * 1000.0 == (freq * 16) as real;
  }

  /** The timer is fast enough for an update to take at least one whole tick. */
  predicate FastEnough(freq: nat) {
    freq >= 121
  }

  lemma FastEnoughIff(freq: nat)
    ensures FastEnough(freq) <==> UpdateTicks(freq) >= 1
  {
    TruncatedTicks(freq);
  }

  // ----- one frame

  /** Ticks that passed, as unsigned difference, limited. */
  function Elapsed(prev: nat, curr: nat, freq: nat): nat
  {
    var passed := (curr - prev) % UINT64_RANGE;
    if passed > MaxElapsed(freq) then MaxElapsed(freq) else passed
  }

  /** Number of updates a frame runs for a given lag: how often the ticks of an update can be
      taken off until at most one update's worth is left. */
  function Updates(lag: nat, freq: nat): nat
    requires FastEnough(freq)
  {
    if lag == 0 then 0 else (lag - 1) / UpdateTicks(freq)
  }

  /** The lag is an integer, so comparing it with the ticks per update or with their integer
      part is the same. */
  lemma LagComparison(lag: nat, freq: nat)
    ensures lag as real > TicksPerUpdate(freq) <==> lag > UpdateTicks(freq)
  {
    TruncatedTicks(freq);
  }

  lemma UpdatesStep(lag: nat, freq: nat)
    requires FastEnough(freq)
    ensures lag <= UpdateTicks(freq) ==> Updates(lag, freq) == 0
    ensures lag > UpdateTicks(freq) ==> Updates(lag, freq) == 1 + Updates(lag - UpdateTicks(freq), freq)
  {
    hide UpdateTicks;
    FastEnoughIff(freq);
    var f := UpdateTicks(freq);
    if lag > f {
      QuotientStep(lag - 1, f);
    } else if lag > 0 {
      SmallQuotient(lag - 1, f);
    }
  }

  lemma QuotientStep(n: nat, d: nat)
    requires d > 0 && n >= d
    ensures n / d == 1 + (n - d) / d
  {
    QuotientIsUnique(n - d, d, n / d - 1, n % d);
  }

  lemma SmallQuotient(n: nat, d: nat)
    requires n < d
    ensures n / d == 0
  {
    QuotientIsUnique(n, d, 0, n);
  }

  /** The inner loop. */
  method CatchUp(lag: nat, freq: nat) returns (rest: nat, updates: nat)
    requires FastEnough(freq)
    ensures updates == Updates(lag, freq)
    ensures lag == UpdateTicks(freq) * updates + rest
    ensures rest as real <= TicksPerUpdate(freq)
  {
    hide UpdateTicks, TicksPerUpdate, Updates;
    FastEnoughIff(freq);
    rest, updates := lag, 0;
    LagComparison(rest, freq);
    while rest as real > TicksPerUpdate(freq)
      invariant updates + Updates(rest, freq) == Updates(lag, freq)
      invariant lag == UpdateTicks(freq) * updates + rest
      invariant rest as real > TicksPerUpdate(freq) <==> rest > UpdateTicks(freq)
      decreases rest
    {
      UpdatesStep(rest, freq);
      rest, updates := rest - UpdateTicks(freq), updates + 1;
      LagComparison(rest, freq);
    }
    UpdatesStep(rest, freq);
  }

  /** With a slower timer the integer part is 0: the inner loop, once entered, takes nothing off
      the lag; see `SomeRunHangsIff`. */
  lemma SlowTimerHangs(lag: nat, freq: nat)
    requires !FastEnough(freq) && lag as real > TicksPerUpdate(freq)
    ensures (lag - UpdateTicks(freq)) as real > TicksPerUpdate(freq) && UpdateTicks(freq) == 0
  {
    FastEnoughIff(freq);
    TruncatedTicks(freq);
  }

  // ----- whole runs

  /** The time keeping after some frames: time of the last frame, lag, sum of elapsed ticks, and
      for every frame the number of updates and the ratio passed to the renderer. */
  datatype Run = Run(prevTime: nat, lag: nat, elapsed: nat, updates: seq<nat>, ratios: seq<real>)

  function Frame(r: Run, time: nat, freq: nat): Run
    requires FastEnough(freq)
  {
    var e := Elapsed(r.prevTime, time, freq);
    var n := Updates(r.lag + e, freq);
    UpdatesTakeOff(r.lag + e, freq);
    var rest := r.lag + e - UpdateTicks(freq) * n;
    Run(time, rest, r.elapsed + e, r.updates + [n], r.ratios + [Ratio(rest, freq)])
  }

  function Ratio(lag: nat, freq: nat): real
    requires FastEnough(freq)
  {
    lag as real / TicksPerUpdate(freq)
  }

  lemma {:induction false} UpdatesTakeOff(lag: nat, freq: nat)
    requires FastEnough(freq)
    ensures 0 <= lag - UpdateTicks(freq) * Updates(lag, freq) <= UpdateTicks(freq)
    ensures lag > 0 ==> lag - UpdateTicks(freq) * Updates(lag, freq) > 0
    decreases lag
  {
    hide UpdateTicks, Updates;
    FastEnoughIff(freq);
    UpdatesStep(lag, freq);
    var f := UpdateTicks(freq);
    if lag > f {
      UpdatesTakeOff(lag - f, freq);
      assert f * (1 + Updates(lag - f, freq)) == f + f * Updates(lag - f, freq);
    }
  }

  function Start(time: nat): Run {
    Run(time, 0, 0, [], [])
  }

  /** The run over frames at the given times. */
  function After(start: nat, times: seq<nat>, freq: nat): Run
    requires FastEnough(freq)
  {
    if times == [] then Start(start) else Frame(After(start, times[..|times| - 1], freq), times[|times| - 1], freq)
  }

  function Sum(s: seq<nat>): nat {
    if s == [] then 0 else Sum(s[..|s| - 1]) + s[|s| - 1]
  }

  /** What one frame does to a run. */
  lemma FrameStep(r: Run, time: nat, freq: nat)
    requires FastEnough(freq)
    ensures var r' := Frame(r, time, freq);
            var e, n := Elapsed(r.prevTime, time, freq), Updates(r.lag + Elapsed(r.prevTime, time, freq), freq);
            && r'.prevTime == time && r'.elapsed == r.elapsed + e
            && r'.updates == r.updates + [n] && r'.ratios == r.ratios + [Ratio(r'.lag, freq)]
            && r.lag + e == UpdateTicks(freq) * n + r'.lag
            && r'.lag <= UpdateTicks(freq) && e <= MaxElapsed(freq)
            && (r'.lag == 0 ==> r.lag == 0 && e == 0)
  {
    var e := Elapsed(r.prevTime, time, freq);
    assert e <= MaxElapsed(freq);
    hide UpdateTicks, MaxElapsed, Updates, Elapsed, TicksPerUpdate, Ratio;
    UpdatesTakeOff(r.lag + e, freq);
  }

  lemma SumOfAppend(s: seq<nat>, n: nat)
    ensures Sum(s + [n]) == Sum(s) + n
  {
    assert (s + [n])[..|s|] == s;
  }

  /** Main result: over every run no time is lost or invented, and what is left over is at most
      one update, so that every render ratio lies between 0 and 1. */
  lemma {:induction false} TimeIsConserved(start: nat, times: seq<nat>, freq: nat)
    requires FastEnough(freq)
    ensures var r := After(start, times, freq);
            && r.elapsed == UpdateTicks(freq) * Sum(r.updates) + r.lag
            && r.lag <= UpdateTicks(freq)
            && |r.updates| == |r.ratios| == |times|
            && (forall k | 0 <= k < |r.ratios| :: 0.0 <= r.ratios[k] <= 1.0)
            && (r.lag == 0 ==> r.elapsed == 0)
  {
    hide UpdateTicks, Updates, Elapsed, TicksPerUpdate, Ratio, Frame;
    if times != [] {
      var n := |times| - 1;
      TimeIsConserved(start, times[..n], freq);
      var before := After(start, times[..n], freq);
      FrameStep(before, times[n], freq);
      var after := Frame(before, times[n], freq);
      RatioInUnit(after.lag, freq);
      SumOfAppend(before.updates, after.updates[n]);
      Distribute(UpdateTicks(freq), Sum(before.updates), after.updates[n]);
    }
  }

  lemma RatioInUnit(lag: nat, freq: nat)
    requires FastEnough(freq) && lag <= UpdateTicks(freq)
    ensures 0.0 <= Ratio(lag, freq) <= 1.0
    ensures Ratio(lag, freq) * TicksPerUpdate(freq) == lag as real
  {
    TruncatedTicks(freq);
    FastEnoughIff(freq);
    hide UpdateTicks, TicksPerUpdate;
    RatioOf(lag as real, TicksPerUpdate(freq));
  }

  lemma RatioOf(a: real, b: real)
    requires 0.0 <= a <= b && b > 0.0
    ensures 0.0 <= a / b <= 1.0 && a / b * b == a
  {
    assert a / b * b == a;
  }

  /** The ratio a frame passes to the renderer, times the ticks per update, is the lag left after
      that frame. */
  lemma {:induction false} RatioIsLag(start: nat, times: seq<nat>, freq: nat, k: nat)
    requires FastEnough(freq) && k < |times|
    ensures k < |After(start, times, freq).ratios|
    ensures After(start, times, freq).ratios[k] * TicksPerUpdate(freq) == After(start, times[..k + 1], freq).lag as real
    decreases |times|
  {
    hide UpdateTicks, Updates, Elapsed, TicksPerUpdate, Ratio, Frame;
    var n := |times| - 1;
    TimeIsConserved(start, times[..n], freq);
    var before := After(start, times[..n], freq);
    FrameStep(before, times[n], freq);
    if k < n {
      RatioIsLag(start, times[..n], freq, k);
      assert times[..n][..k + 1] == times[..k + 1];
    } else {
      RatioInUnit(After(start, times, freq).lag, freq);
      assert times[..k + 1] == times;
    }
  }

  /** Ticks between frames at times that do not decrease, each limited. */
  function LimitedTicks(start: nat, times: seq<nat>, freq: nat): nat {
    if times == [] then 0
    else
      var n := |times| - 1;
      var prev := if n == 0 then start else times[n - 1];
      var passed := if times[n] > prev then times[n] - prev else 0;
      LimitedTicks(start, times[..n], freq) + if passed <= MaxElapsed(freq) then passed else MaxElapsed(freq)
  }

  predicate NeverDecreases(start: nat, times: seq<nat>) {
    (times != [] ==> start <= times[0]) && (forall k | 0 < k < |times| :: times[k - 1] <= times[k])
    && forall k | 0 <= k < |times| :: times[k] < UINT64_RANGE
  }

  /** For a timer that does not decrease and does not wrap, the ticks of a run are those between
      its frames, each limited. */
  lemma {:induction false} ElapsedIsLimited(start: nat, times: seq<nat>, freq: nat)
    requires FastEnough(freq) && NeverDecreases(start, times)
    ensures After(start, times, freq).elapsed == LimitedTicks(start, times, freq)
    ensures After(start, times, freq).prevTime == if times == [] then start else times[|times| - 1]
  {
    hide UpdateTicks, MaxElapsed, TicksPerUpdate, Ratio, Updates, Frame, Elapsed;
    if times != [] {
      var n := |times| - 1;
      ElapsedIsLimited(start, times[..n], freq);
      var before := After(start, times[..n], freq);
      FrameStep(before, times[n], freq);
      ElapsedIs(before.prevTime, times[n], freq);
    }
  }

  lemma ElapsedIs(prev: nat, curr: nat, freq: nat)
    requires prev <= curr < UINT64_RANGE
    ensures Elapsed(prev, curr, freq) == if curr - prev <= MaxElapsed(freq) then curr - prev else MaxElapsed(freq)
  {
  }

  // ----- runs whose update loop never ends

  /** The update loop, entered with a lag, is left neither at once nor after any number of
      updates. */
  ghost predicate NeverEnds(lag: nat, freq: nat) {
    forall n: nat :: (lag - n * UpdateTicks(freq)) as real > TicksPerUpdate(freq)
  }

  /** Lag that frames at the given times leave; `None` if the update loop of one never ends. For
      any frequency. */
  ghost function LagLeft(start: nat, times: seq<nat>, freq: nat): Option<nat> {
    if times == [] then Some(0)
    else
      var n := |times| - 1;
      var before := LagLeft(start, times[..n], freq);
      if before.None? then None
      else
        var lag := before.value + Elapsed(if n == 0 then start else times[n - 1], times[n], freq);
        if NeverEnds(lag, freq) then None
        else if FastEnough(freq) then
          UpdatesTakeOff(lag, freq);
          Some(lag - UpdateTicks(freq) * Updates(lag, freq))
        else Some(lag)
  }

  /** An update loop never ends exactly if the lag is above the ticks per update and an update
      takes nothing off. */
  lemma NeverEndsIff(lag: nat, freq: nat)
    ensures NeverEnds(lag, freq) <==> !FastEnough(freq) && lag as real > TicksPerUpdate(freq)
  {
    FastEnoughIff(freq);
    TruncatedTicks(freq);
    var f := UpdateTicks(freq);
    hide UpdateTicks, FastEnough;
    if f == 0 {
      assert (lag - 0 * f) == lag;
    } else {
      assert lag * f >= lag;
      assert (lag - lag * f) as real <= TicksPerUpdate(freq);
    }
  }

  /** For a timer that is fast enough this is the lag of the run. */
  lemma {:induction false} LagLeftIsLag(start: nat, times: seq<nat>, freq: nat)
    requires FastEnough(freq)
    ensures LagLeft(start, times, freq) == Some(After(start, times, freq).lag)
    ensures After(start, times, freq).prevTime == if times == [] then start else times[|times| - 1]
  {
    hide UpdateTicks, TicksPerUpdate, Elapsed, Updates, NeverEnds, Ratio;
    if times != [] {
      var n := |times| - 1;
      LagLeftIsLag(start, times[..n], freq);
      var before := After(start, times[..n], freq);
      NeverEndsIff(before.lag + Elapsed(before.prevTime, times[n], freq), freq);
    }
  }

  /** Below 63 Hz no time ever passes. */
  lemma {:induction false} NoLagWithoutTime(start: nat, times: seq<nat>, freq: nat)
    requires MaxElapsed(freq) == 0
    ensures LagLeft(start, times, freq) == Some(0)
  {
    if times != [] {
      var n := |times| - 1;
      NoLagWithoutTime(start, times[..n], freq);
      NeverEndsIff(0, freq);
      assert !FastEnough(freq);
    }
  }

  /** Main result on termination: some run reaches an update loop that never ends if and only if
      the timer runs at 63 to 120 Hz. */
  lemma SomeRunHangsIff(freq: nat)
    ensures (exists start: nat, times: seq<nat> :: LagLeft(start, times, freq) == None)
       <==> !FastEnough(freq) && MaxElapsed(freq) > 0
    ensures !FastEnough(freq) && MaxElapsed(freq) > 0 <==> 63 <= freq <= 120
  {
    if FastEnough(freq) {
      forall start: nat, times: seq<nat>
        ensures LagLeft(start, times, freq) != None
      {
        LagLeftIsLag(start, times, freq);
      }
    } else if MaxElapsed(freq) == 0 {
      forall start: nat, times: seq<nat>
        ensures LagLeft(start, times, freq) != None
      {
        NoLagWithoutTime(start, times, freq);
      }
    } else {
      OneTickHangs(freq);
    }
  }

  /** A run that hangs in its first frame, one tick after the start. */
  lemma OneTickHangs(freq: nat)
    requires !FastEnough(freq) && MaxElapsed(freq) > 0
    ensures LagLeft(0, [1], freq) == None
  {
    assert Elapsed(0, 1, freq) == 1;
    assert [1][..0] == [];
    assert LagLeft(0, [], freq) == Some(0);
    NeverEndsIff(1, freq);
  }

  /** Whether no frame of any run does more than two updates. */
  ghost predicate NeverMoreThanTwo(freq: nat)
    requires FastEnough(freq)
  {
    forall start: nat, times: seq<nat>, k: nat | k < |After(start, times, freq).updates| ::
      After(start, times, freq).updates[k] <= 2
  }

  /** Main result: no run has a frame with more than two updates exactly if the limit on elapsed
      ticks is at most two updates' worth. */
  lemma AtMostTwoIff(freq: nat)
    requires FastEnough(freq) && freq < UINT64_RANGE
    ensures NeverMoreThanTwo(freq) <==> MaxElapsed(freq) <= 2 * UpdateTicks(freq)
  {
    if MaxElapsed(freq) <= 2 * UpdateTicks(freq) {
      forall start: nat, times: seq<nat>, k: nat | k < |After(start, times, freq).updates|
        ensures After(start, times, freq).updates[k] <= 2
      {
        AtMostTwo(start, times, freq, k);
      }
    } else {
      ThreeUpdatesHappen(freq);
      var f, m := UpdateTicks(freq), MaxElapsed(freq);
      assert After(0, [f, f + m], freq).updates[1] >= 3;
    }
  }

  lemma {:induction false} AtMostTwo(start: nat, times: seq<nat>, freq: nat, k: nat)
    requires FastEnough(freq) && MaxElapsed(freq) <= 2 * UpdateTicks(freq)
    requires k < |After(start, times, freq).updates|
    ensures After(start, times, freq).updates[k] <= 2
  {
    hide UpdateTicks, MaxElapsed, TicksPerUpdate, Ratio, Elapsed, Frame;
    FastEnoughIff(freq);
    TimeIsConserved(start, times, freq);
    var n := |times| - 1;
    TimeIsConserved(start, times[..n], freq);
    var before := After(start, times[..n], freq);
    FrameStep(before, times[n], freq);
    if k < n {
      AtMostTwo(start, times[..n], freq, k);
    } else {
      ThreeNeedMore(before.lag + Elapsed(before.prevTime, times[n], freq), UpdateTicks(freq));
    }
  }

  lemma ThreeNeedMore(lag: nat, f: nat)
    requires f > 0
    ensures lag > 0 && (lag - 1) / f >= 3 <==> lag > 3 * f
  {
    if lag > 3 * f {
      QuotientAtLeast(lag - 1, f, 3);
    } else if lag > 0 {
      QuotientBelow(lag - 1, f, 3);
    }
  }

  lemma ElapsedWithinLimit(prev: nat, e: nat, freq: nat)
    requires e <= MaxElapsed(freq) && e < UINT64_RANGE
    ensures Elapsed(prev, prev + e, freq) == e
  {
  }

  /** A run with a frame of three updates: first a frame that leaves the largest possible lag,
      then one of the largest possible length. */
  lemma ThreeUpdatesHappen(freq: nat)
    requires FastEnough(freq) && freq < UINT64_RANGE && MaxElapsed(freq) > 2 * UpdateTicks(freq)
    ensures var f, m := UpdateTicks(freq), MaxElapsed(freq);
            var r := After(0, [f, f + m], freq);
            |r.updates| == 2 && r.updates[1] >= 3
  {
    var f, m := UpdateTicks(freq), MaxElapsed(freq);
    assert f + m < UINT64_RANGE;
    hide UpdateTicks, MaxElapsed, Frame;
    LargestLag(freq);
    var first := Frame(Start(0), f, freq);
    assert [f, f + m][..1] == [f] && [f][..0] == [];
    assert After(0, [f], freq) == first;
    FrameFromLargestLag(first, freq);
  }

  /** A first frame of exactly one update's length leaves it all as lag. */
  lemma LargestLag(freq: nat)
    requires FastEnough(freq) && freq < UINT64_RANGE && MaxElapsed(freq) > UpdateTicks(freq)
    ensures var f := UpdateTicks(freq); var r := Frame(Start(0), f, freq);
            r.lag == f == r.prevTime && |r.updates| == 1
  {
    assert UpdateTicks(freq) < UINT64_RANGE;
    hide UpdateTicks, MaxElapsed, TicksPerUpdate, Ratio, Elapsed, Frame;
    var f := UpdateTicks(freq);
    ElapsedWithinLimit(0, f, freq);
    FrameStep(Start(0), f, freq);
    UpdatesStep(f, freq);
  }

  lemma FrameFromLargestLag(r: Run, freq: nat)
    requires FastEnough(freq) && freq < UINT64_RANGE && MaxElapsed(freq) > 2 * UpdateTicks(freq)
    requires r.lag == UpdateTicks(freq)
    ensures var r' := Frame(r, r.prevTime + MaxElapsed(freq), freq);
            |r'.updates| == |r.updates| + 1 && r'.updates[|r.updates|] >= 3
  {
    assert MaxElapsed(freq) < UINT64_RANGE;
    FastEnoughIff(freq);
    hide UpdateTicks, MaxElapsed, TicksPerUpdate, Ratio, Elapsed, Frame;
    ElapsedWithinLimit(r.prevTime, MaxElapsed(freq), freq);
    FrameStep(r, r.prevTime + MaxElapsed(freq), freq);
    ThreeNeedMore(UpdateTicks(freq) + MaxElapsed(freq), UpdateTicks(freq));
  }

  /** From 1441 Hz on the limit holds; at 1440 Hz it does not. */
  lemma FrequenciesWithTwoUpdates(freq: nat)
    requires freq >= 1441
    ensures FastEnough(freq) && MaxElapsed(freq) <= 2 * UpdateTicks(freq)
    ensures MaxElapsed(1440) > 2 * UpdateTicks(1440)
  {
  }

  /** The main loop: frames at the given times until one asks to leave. A leaving frame adds its
      ticks to the lag but is neither updated nor rendered. */
  method MainLoop(start: nat, frames: seq<(nat, bool)>, freq: nat)
    returns (done: nat, currLag: nat, updates: seq<nat>, ratios: seq<real>)
    requires FastEnough(freq)
    ensures done <= |frames| && forall k | 0 <= k < done :: !frames[k].1
    ensures done < |frames| ==> frames[done].1
    ensures var r := After(start, seq(done, k requires 0 <= k < done => frames[k].0), freq);
            && updates == r.updates && ratios == r.ratios
            && currLag == r.lag + if done < |frames| then Elapsed(r.prevTime, frames[done].0, freq) else 0
  {
    hide UpdateTicks, Updates, Elapsed, TicksPerUpdate;
    FastEnoughIff(freq);
    ghost var times: seq<nat> := [];
    var prevTime := start;
    currLag, updates, ratios, done := 0, [], [], 0;
    while done < |frames|
      invariant done <= |frames| && forall k | 0 <= k < done :: !frames[k].1
      invariant times == seq(done, k requires 0 <= k < done => frames[k].0)
      invariant After(start, times, freq) == Run(prevTime, currLag, After(start, times, freq).elapsed, updates, ratios)
    {
      var (currTime, isLeave) := frames[done];
      var elapsedTime := Elapsed(prevTime, currTime, freq);
      currLag := currLag + elapsedTime;
      if isLeave {
        break;
      }
      prevTime := currTime;
      var n: nat;
      UpdatesTakeOff(currLag, freq);
      currLag, n := CatchUp(currLag, freq);
      updates, ratios := updates + [n], ratios + [Ratio(currLag, freq)];
      assert (times + [currTime])[..|times|] == times;
      times := times + [currTime];
      done := done + 1;
    }
  }
}
