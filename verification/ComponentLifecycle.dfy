/** Startup and shutdown of the engine's components. */
module ComponentLifecycle {
  import opened Arithmetic
  import opened Basics

  datatype Stage = PreStartup | Startup | PostStartup | PreShutdown | Shutdown | PostShutdown

  function IndexOf(s: Stage): nat {
    match s
    case PreStartup => 0
    case Startup => 1
    case PostStartup => 2
    case PreShutdown => 3
    case Shutdown => 4
    case PostShutdown => 5
  }

  /** The lookup table of opposite stages. */
  function Opposite(s: Stage): Stage {
    match s
    case PreStartup => PostShutdown
    case Startup => Shutdown
    case PostStartup => PreShutdown
    case PreShutdown => PostStartup
    case Shutdown => Startup
    case PostShutdown => PreStartup
  }

  /** The table is an involution that reverses the order of the stages. */
  lemma OppositeIsReversal(s: Stage, t: Stage)
    ensures Opposite(Opposite(s)) == s
    ensures IndexOf(s) + IndexOf(Opposite(s)) == 5
    ensures IndexOf(s) < IndexOf(t) <==> IndexOf(Opposite(t)) < IndexOf(Opposite(s))
  {
  }

  function StartupStage(j: nat): Stage
    requires j < 3
  {
    if j == 0 then PreStartup else if j == 1 then Startup else PostStartup
  }

  /** A callback invocation: component index and stage. */
  datatype Call = Call(comp: nat, stage: Stage)

  /** Whether a callback succeeds; one that is not provided does. */
  type Outcome = Call -> bool

  predicate Succeeds(outcome: Outcome, call: Call) {
    outcome(call)
  }

  // ----- what startup and shutdown call

  /** The `m`-th call of a startup. */
  function StartupCall(m: nat): Call {
    Call(m / 3, StartupStage(m % 3))
  }

  /** Number of successful calls before the first failure, counting from call `m`, for `n`
      components. */
  function Successes(n: nat, outcome: Outcome, m: nat): (f: nat)
    requires m <= 3 * n
    ensures m <= f <= 3 * n
    ensures forall k | m <= k < f :: Succeeds(outcome, StartupCall(k))
    ensures f < 3 * n ==> !Succeeds(outcome, StartupCall(f))
    decreases 3 * n - m
  {
    if m == 3 * n || !Succeeds(outcome, StartupCall(m)) then m else Successes(n, outcome, m + 1)
  }

  /** The first `m` calls of a startup. */
  function StartupCalls(m: nat): seq<Call> {
    if m == 0 then [] else StartupCalls(m - 1) + [StartupCall(m - 1)]
  }

  /** The startup calls one by one: all stages of a component before the next component. */
  lemma {:induction false} StartupCallsInFull(m: nat, i: nat, j: nat)
    requires j < 3 && 3 * i + j < m
    ensures |StartupCalls(m)| == m
    ensures StartupCalls(m)[3 * i + j] == Call(i, if j == 0 then PreStartup else if j == 1 then Startup else PostStartup)
    decreases m
  {
    StartupCallsLength(m - 1);
    if 3 * i + j < m - 1 {
      StartupCallsInFull(m - 1, i, j);
    } else {
      QuotientIsUnique(3 * i + j, 3, i, j);
    }
  }

  lemma {:induction false} StartupCallsLength(m: nat)
    ensures |StartupCalls(m)| == m
  {
    if m > 0 {
      StartupCallsLength(m - 1);
    }
  }

  /** What a shutdown has to call to undo `f` successful startup calls: their opposites, in
      reverse order. */
  function Undoing(f: nat): seq<Call> {
    if f == 0 then [] else [Call((f - 1) / 3, Opposite(StartupStage((f - 1) % 3)))] + Undoing(f - 1)
  }

  /** The undoing sequence is the reversed startup trace under the opposite-stage mapping. */
  lemma {:induction false} UndoingIsReversal(f: nat)
    ensures |Undoing(f)| == |StartupCalls(f)| == f
    ensures forall k | 0 <= k < f ::
      Undoing(f)[k] == Call(StartupCalls(f)[f - 1 - k].comp, Opposite(StartupCalls(f)[f - 1 - k].stage))
  {
    if f > 0 {
      UndoingIsReversal(f - 1);
    }
  }

  /** Calls of one component in a shutdown, down from stage `j - 1`: the opposites of the stages
      whose flag is set. */
  function StageCalls(comp: nat, flags: seq<bool>, j: nat): seq<Call>
    requires |flags| == 3 && j <= 3
  {
    if j == 0 then []
    else (if flags[j - 1] then [Call(comp, Opposite(StartupStage(j - 1)))] else []) + StageCalls(comp, flags, j - 1)
  }

  /** Calls of a shutdown from component `comp` down. The flags are the same for all. */
  function ShutdownCalls(comp: nat, flags: seq<bool>): seq<Call>
    requires |flags| == 3
  {
    StageCalls(comp, flags, 3) + if comp == 0 then [] else ShutdownCalls(comp - 1, flags)
  }

  /** Success flags after a startup with `f` successes: those of the last component that was
      tried, where later stages still show the component before it. */
  function FlagsAfter(n: nat, f: nat): (flags: seq<bool>)
    requires f <= 3 * n
    ensures |flags| == 3
  {
    if f == 3 * n then [n > 0, n > 0, n > 0]
    else [0 < f && f % 3 != 0, 1 < f && f % 3 != 1, 2 < f && f % 3 != 2]
  }

  /** Component index after a startup with `f` successes. */
  function IndexAfter(n: nat, f: nat): nat
    requires f <= 3 * n
  {
    if f == 3 * n then (if n == 0 then 0 else n - 1) else f / 3
  }

  /** What the code calls on shutdown if all its callbacks succeed. */
  function ShutdownAfter(n: nat, f: nat): seq<Call>
    requires f <= 3 * n
  {
    if IndexAfter(n, f) == 0 then [] else ShutdownCalls(IndexAfter(n, f), FlagsAfter(n, f))
  }

  lemma {:induction false} AllFlagsUndo(comp: nat)
    ensures ShutdownCalls(comp, [true, true, true]) == Undoing(3 * comp + 3)
  {
    hide Undoing;
    var flags := [true, true, true];
    assert StageCalls(comp, flags, 0) == [];
    assert StageCalls(comp, flags, 1) == [Call(comp, PostShutdown)];
    assert StageCalls(comp, flags, 2) == [Call(comp, Shutdown), Call(comp, PostShutdown)];
    assert StageCalls(comp, flags, 3) == [Call(comp, PreShutdown), Call(comp, Shutdown), Call(comp, PostShutdown)];
    UndoingComponent(comp);
    if comp > 0 {
      AllFlagsUndo(comp - 1);
    } else {
      UndoingNothing();
    }
  }

  lemma UndoingNothing()
    ensures Undoing(0) == []
  {
  }

  lemma UndoingStep(comp: nat, s: nat)
    requires s < 3
    ensures Undoing(3 * comp + s + 1) == [Call(comp, Opposite(StartupStage(s)))] + Undoing(3 * comp + s)
  {
    QuotientIsUnique(3 * comp + s, 3, comp, s);
  }

  lemma UndoingComponent(comp: nat)
    ensures Undoing(3 * comp + 3)
         == [Call(comp, PreShutdown), Call(comp, Shutdown), Call(comp, PostShutdown)] + Undoing(3 * comp)
  {
    hide Undoing;
    UndoingStep(comp, 0);
    UndoingStep(comp, 1);
    UndoingStep(comp, 2);
  }

  /** After a failure at stage `s` of component `comp > 0`: two calls per component, none of them
      the opposite of stage `s`. */
  lemma PartialShutdown(comp: nat, s: nat)
    requires comp > 0 && s < 3
    ensures 3 * comp + s <= 3 * (comp + 1)
    ensures ShutdownCalls(comp, [s != 0, s != 1, s != 2]) != Undoing(3 * comp + s)
  {
    hide Undoing;
    var flags := [s != 0, s != 1, s != 2];
    var calls, rest := ShutdownCalls(comp, flags), ShutdownCalls(comp - 1, flags);
    assert StageCalls(comp, flags, 1) == if s == 0 then [] else [Call(comp, PostShutdown)];
    assert StageCalls(comp, flags, 2) == (if s == 1 then [] else [Call(comp, Shutdown)]) + StageCalls(comp, flags, 1);
    assert StageCalls(comp, flags, 3) == (if s == 2 then [] else [Call(comp, PreShutdown)]) + StageCalls(comp, flags, 2);
    UndoingComponent(comp - 1);
    if s == 0 {
      assert calls[0] == Call(comp, PreShutdown);
      assert Undoing(3 * comp)[0] == Call(comp - 1, PreShutdown);
    } else if s == 1 {
      assert calls[0] == Call(comp, PreShutdown);
      UndoingStep(comp, 0);
    } else {
      assert StageCalls(comp - 1, flags, 2)[0] == Call(comp - 1, Shutdown);
      assert StageCalls(comp - 1, flags, 3)[0] == Call(comp - 1, Shutdown);
      assert calls[2] == Call(comp - 1, Shutdown);
      UndoingStep(comp, 0);
      UndoingStep(comp, 1);
      assert Undoing(3 * comp + 2)[2] == Call(comp - 1, PreShutdown);
    }
  }

  /** Main result: a shutdown calls exactly what undoes the startup, if and only if the startup
      succeeded completely and there is more than one component, or its very first call failed.
      The success flags are shared by all components, and component index 0 is taken to mean
      that nothing was started. */
  lemma ShutdownUndoesIff(n: nat, f: nat)
    requires n > 0 && f <= 3 * n
    ensures ShutdownAfter(n, f) == Undoing(f) <==> (f == 3 * n && n >= 2) || f == 0
  {
    UndoingIsReversal(f);
    hide Undoing, StageCalls, ShutdownCalls;
    if f == 3 * n {
      AllFlagsUndo(n - 1);
    } else if f >= 3 {
      var comp, s := f / 3, f % 3;
      PartialShutdown(comp, s);
      assert FlagsAfter(n, f) == [s != 0, s != 1, s != 2];
    }
  }

  /** The calls on one component, flag by flag. */
  lemma StageCallsInFull(comp: nat, flags: seq<bool>)
    requires |flags| == 3
    ensures StageCalls(comp, flags, 3)
         == (if flags[2] then [Call(comp, PreShutdown)] else [])
          + (if flags[1] then [Call(comp, Shutdown)] else [])
          + (if flags[0] then [Call(comp, PostShutdown)] else [])
  {
    assert StageCalls(comp, flags, 0) == [];
    assert StageCalls(comp, flags, 1) == if flags[0] then [Call(comp, PostShutdown)] else [];
    assert StageCalls(comp, flags, 2) == (if flags[1] then [Call(comp, Shutdown)] else []) + StageCalls(comp, flags, 1);
    assert StageCalls(comp, flags, 3) == (if flags[2] then [Call(comp, PreShutdown)] else []) + StageCalls(comp, flags, 2);
  }

  predicate Flagged(flags: seq<bool>, s: Stage)
    requires |flags| == 3
  {
    (s == PreShutdown && flags[2]) || (s == Shutdown && flags[1]) || (s == PostShutdown && flags[0])
  }

  /** `a` is called before `b` in a shutdown: a later component, or an earlier stage of the same. */
  predicate Before(a: Call, b: Call) {
    a.comp > b.comp || (a.comp == b.comp && IndexOf(a.stage) < IndexOf(b.stage))
  }

  predicate InOrder(calls: seq<Call>) {
    forall i, j | 0 <= i < j < |calls| :: Before(calls[i], calls[j])
  }

  lemma OwnCallsInFull(comp: nat, flags: seq<bool>)
    requires |flags| == 3
    ensures forall c: Call :: c in StageCalls(comp, flags, 3) <==> c.comp == comp && Flagged(flags, c.stage)
    ensures InOrder(StageCalls(comp, flags, 3))
  {
    StageCallsInFull(comp, flags);
    hide StageCalls;
  }

  /** Main result on partial shutdowns: for all flags, a shutdown calls exactly the flagged stages of
      exactly the components up to the given one, the last component first, stage by stage. */
  lemma {:induction false} ShutdownCallsInFull(comp: nat, flags: seq<bool>)
    requires |flags| == 3
    ensures forall c: Call :: c in ShutdownCalls(comp, flags) <==> c.comp <= comp && Flagged(flags, c.stage)
    ensures InOrder(ShutdownCalls(comp, flags))
  {
    OwnCallsInFull(comp, flags);
    var own := StageCalls(comp, flags, 3);
    if comp == 0 {
      assert ShutdownCalls(0, flags) == own;
      hide StageCalls, ShutdownCalls, InOrder, Flagged;
    } else {
      assert ShutdownCalls(comp, flags) == own + ShutdownCalls(comp - 1, flags);
      hide StageCalls, ShutdownCalls, InOrder, Flagged;
      ShutdownCallsInFull(comp - 1, flags);
      OrderedConcat(own, ShutdownCalls(comp - 1, flags));
    }
  }

  lemma OrderedConcat(own: seq<Call>, rest: seq<Call>)
    requires InOrder(own) && InOrder(rest) && forall a, b | a in own && b in rest :: Before(a, b)
    ensures InOrder(own + rest)
    ensures forall c :: c in own + rest <==> c in own || c in rest
  {
    hide Before;
  }

  /** The calls made out of a planned sequence: up to and including the first that fails. */
  function UntilFailure(calls: seq<Call>, outcome: Outcome): seq<Call> {
    if calls == [] then [] else [calls[0]] + if Succeeds(outcome, calls[0]) then UntilFailure(calls[1..], outcome) else []
  }

  predicate AllSucceed(calls: seq<Call>, outcome: Outcome) {
    forall k | 0 <= k < |calls| :: Succeeds(outcome, calls[k])
  }

  lemma {:induction false} NoFailureRunsAll(calls: seq<Call>, outcome: Outcome)
    ensures AllSucceed(calls, outcome) ==> UntilFailure(calls, outcome) == calls
    ensures UntilFailure(calls, outcome) <= calls
  {
    hide AllSucceed, UntilFailure, Succeeds;
    if calls == [] {
      UntilFailureOfNone(outcome);
    } else {
      NoFailureRunsAll(calls[1..], outcome);
      FirstCall(calls, outcome);
      PrefixOfRest(calls, UntilFailure(calls[1..], outcome));
    }
  }

  lemma PrefixOfRest(calls: seq<Call>, p: seq<Call>)
    requires calls != [] && p <= calls[1..]
    ensures [calls[0]] <= calls && [calls[0]] + p <= calls && (p == calls[1..] ==> [calls[0]] + p == calls)
  {
  }

  lemma {:induction false} UntilFailureOfConcat(a: seq<Call>, b: seq<Call>, outcome: Outcome)
    ensures UntilFailure(a + b, outcome)
         == UntilFailure(a, outcome) + if AllSucceed(a, outcome) then UntilFailure(b, outcome) else []
    ensures AllSucceed(a + b, outcome) <==> AllSucceed(a, outcome) && AllSucceed(b, outcome)
  {
    hide AllSucceed, UntilFailure, Succeeds;
    if a == [] {
      assert a + b == b;
      UntilFailureOfNone(outcome);
    } else {
      UntilFailureOfConcat(a[1..], b, outcome);
      assert (a + b)[0] == a[0] && (a + b)[1..] == a[1..] + b;
      FirstCall(a, outcome);
      FirstCall(a + b, outcome);
    }
  }

  /** A non-empty plan, seen from its first call. */
  lemma {:induction false} FirstCall(calls: seq<Call>, outcome: Outcome)
    requires calls != []
    ensures AllSucceed(calls, outcome) <==> Succeeds(outcome, calls[0]) && AllSucceed(calls[1..], outcome)
    ensures UntilFailure(calls, outcome)
         == [calls[0]] + if Succeeds(outcome, calls[0]) then UntilFailure(calls[1..], outcome) else []
  {
    if Succeeds(outcome, calls[0]) && AllSucceed(calls[1..], outcome) {
      forall k | 0 < k < |calls|
        ensures Succeeds(outcome, calls[k])
      {
        assert calls[k] == calls[1..][k - 1];
      }
    }
  }

  lemma UntilFailureOfOne(call: Call, outcome: Outcome)
    ensures UntilFailure([call], outcome) == [call] && (AllSucceed([call], outcome) <==> Succeeds(outcome, call))
  {
  }

  lemma UntilFailureOfNone(outcome: Outcome)
    ensures UntilFailure([], outcome) == [] && AllSucceed([], outcome)
  {
  }

  class Application {
    const nComps: nat
    const outcome: Outcome
    /** `m_initErrInfo`: the component index, and the success flags. The source has three flags,
        one for each startup stage, but also writes them at the indices of the shutdown stages;
        the array is long enough here for those writes to be harmless, as the padding behind
        the flags makes them. */
    var compIndex: nat
    const compSucc: array<bool>
    /** Callback invocations so far. */
    ghost var trace: seq<Call>

    ghost predicate Valid()
      reads this, compSucc
    {
      nComps > 0 && compSucc.Length == 6 && compIndex < nComps
    }

    constructor (nComps: nat, outcome: Outcome)
      requires nComps > 0
      ensures Valid() && this.nComps == nComps && this.outcome == outcome && trace == [] && fresh(compSucc)
    {
      this.nComps, this.outcome := nComps, outcome;
      compIndex, compSucc, trace := 0, new bool[6](_ => false), [];
    }

    method InvokeCompCallback(index: nat, stage: Stage) returns (ok: bool)
      requires Valid() && index < nComps
      modifies this, compSucc
      ensures Valid() && ok == Succeeds(outcome, Call(index, stage))
      ensures trace == old(trace) + [Call(index, stage)]
      ensures compIndex == index && compSucc[..] == old(compSucc[..])[IndexOf(stage) := ok]
    {
      ok := Succeeds(outcome, Call(index, stage));
      trace := trace + [Call(index, stage)];
      compIndex := index;
      compSucc[IndexOf(stage)] := ok;
    }

    /** Where a startup stands before its `m`-th call, with no failure so far. */
    ghost predicate StartedUpTo(m: nat)
      requires m <= 3 * nComps
      reads this, compSucc
    {
      && Valid()
      && Successes(nComps, outcome, 0) == Successes(nComps, outcome, m)
      && trace == StartupCalls(m)
      && compIndex == (if m == 0 then 0 else (m - 1) / 3)
      && forall j | 0 <= j < 3 :: compSucc[j] == (j < m)
    }

    /** One call of a startup. */
    method StartupStep(i: nat, j: nat) returns (ok: bool)
      requires i < nComps && j < 3 && StartedUpTo(3 * i + j)
      modifies this, compSucc
      ensures ok ==> StartedUpTo(3 * i + j + 1)
      ensures !ok ==>
        var f := Successes(nComps, outcome, 0);
        && Valid() && f == 3 * i + j && trace == StartupCalls(f + 1)
        && compIndex == IndexAfter(nComps, f) && compSucc[..3] == FlagsAfter(nComps, f)
    {
      ghost var m := 3 * i + j;
      hide Succeeds, Successes, StartupCalls, FlagsAfter, IndexAfter;
      SuccessesStep(nComps, outcome, m);
      StartupCallsStep(m);
      WhereCallIs(nComps, i, j);
      ok := InvokeCompCallback(i, StartupStage(j));
      assert compSucc[..][j] == ok;
      if !ok {
        FlagsOfFailure(compSucc[..], m, j);
        assert compSucc[..3] == compSucc[..][..3];
      }
    }

    /** The three calls of one component. */
    method StartComponent(i: nat) returns (ok: bool)
      requires i < nComps && StartedUpTo(3 * i)
      modifies this, compSucc
      ensures ok ==> StartedUpTo(3 * i + 3)
      ensures !ok ==>
        var f := Successes(nComps, outcome, 0);
        && Valid() && f < 3 * nComps && trace == StartupCalls(f + 1)
        && compIndex == IndexAfter(nComps, f) && compSucc[..3] == FlagsAfter(nComps, f)
    {
      hide Succeeds, StartedUpTo, Successes, StartupCalls, FlagsAfter, IndexAfter;
      ok := StartupStep(i, 0);
      if ok {
        ok := StartupStep(i, 1);
      }
      if ok {
        ok := StartupStep(i, 2);
      }
    }

    /** Starts all components, stage by stage; stops at the first failure. */
    method Start() returns (ok: bool)
      requires Valid()
      modifies this, compSucc
      ensures var f := Successes(nComps, outcome, 0);
              && Valid() && ok == (f == 3 * nComps)
              && trace == StartupCalls(if ok then f else f + 1)
              && compIndex == IndexAfter(nComps, f) && compSucc[..3] == FlagsAfter(nComps, f)
    {
      compIndex, trace := 0, [];
      forall k | 0 <= k < 6 {
        compSucc[k] := false;
      }
      hide Succeeds, StartedUpTo, Successes, StartupCalls, FlagsAfter, IndexAfter;
      StartedNothing();
      for i := 0 to nComps
        invariant StartedUpTo(3 * i)
      {
        ok := StartComponent(i);
        if !ok {
          return;
        }
      }
      StartedAll();
      return true;
    }

    lemma StartedNothing()
      requires Valid() && compIndex == 0 && trace == [] && forall k | 0 <= k < 6 :: !compSucc[k]
      ensures StartedUpTo(0)
    {
    }

    lemma StartedAll()
      requires nComps > 0 && StartedUpTo(3 * nComps)
      ensures var f := Successes(nComps, outcome, 0);
              && Valid() && f == 3 * nComps && trace == StartupCalls(f)
              && compIndex == IndexAfter(nComps, f) && compSucc[..3] == FlagsAfter(nComps, f)
    {
      QuotientIsUnique(3 * nComps - 1, 3, nComps - 1, 2);
    }

    /** One stage of a shutdown, on the way to the goal; nothing is called if its flag is not set. */
    method StopStage(i: nat, j: nat, ghost flags: seq<bool>, ghost goal: seq<Call>, ghost goalOk: bool) returns (ok: bool)
      requires Valid() && i < nComps && j < 3 && compSucc[..3] == flags
      requires Leads(trace, StageCalls(i, flags, j + 1), outcome, goal, goalOk)
      modifies this, compSucc
      ensures Valid() && compSucc[..3] == flags
      ensures if ok then Leads(trace, StageCalls(i, flags, j), outcome, goal, goalOk)
              else trace == goal && !goalOk
    {
      hide Succeeds, UntilFailure, AllSucceed, StageCalls, Leads;
      assert compSucc[..3][j] == compSucc[j];
      StageCallsStep(i, flags, j);
      if !compSucc[j] {
        return true;
      }
      LeadsThroughCall(trace, Call(i, Opposite(StartupStage(j))), StageCalls(i, flags, j), outcome, goal, goalOk);
      ok := InvokeCompCallback(i, Opposite(StartupStage(j)));
      assert compSucc[..3] == compSucc[..][..3];
    }

    /** Runs the opposites of the stages of one component whose flag is set, last one first. */
    method StopComponent(i: nat) returns (ok: bool)
      requires Valid() && i < nComps
      modifies this, compSucc
      ensures var calls := StageCalls(i, old(compSucc[..3]), 3);
              trace == old(trace) + UntilFailure(calls, outcome) && ok == AllSucceed(calls, outcome)
      ensures Valid() && compSucc[..3] == old(compSucc[..3])
    {
      ghost var flags := compSucc[..3];
      ghost var calls := StageCalls(i, flags, 3);
      ghost var goal, goalOk := trace + UntilFailure(calls, outcome), AllSucceed(calls, outcome);
      LeadsBegin(trace, calls, outcome);
      hide Succeeds, UntilFailure, AllSucceed, StageCalls, Leads;
      var j := 3;
      while j > 0
        invariant Valid() && 0 <= j <= 3 && compSucc[..3] == flags
        invariant Leads(trace, StageCalls(i, flags, j), outcome, goal, goalOk)
      {
        j := j - 1;
        ok := StopStage(i, j, flags, goal, goalOk);
        if !ok {
          return;
        }
      }
      StageCallsEnd(i, flags);
      LeadsEnd(trace, outcome, goal, goalOk);
      return true;
    }

    /** One component of a shutdown, on the way to the goal. */
    method StopNext(i: nat, ghost flags: seq<bool>, ghost goal: seq<Call>, ghost goalOk: bool) returns (ok: bool)
      requires Valid() && i < nComps && compSucc[..3] == flags
      requires Leads(trace, CallsFrom(i, flags), outcome, goal, goalOk)
      modifies this, compSucc
      ensures Valid() && compSucc[..3] == flags
      ensures if ok then Leads(trace, CallsFrom(i - 1, flags), outcome, goal, goalOk)
              else trace == goal && !goalOk
    {
      hide Succeeds, UntilFailure, AllSucceed, StageCalls, ShutdownCalls, CallsFrom, Leads;
      CallsFromStep(i, flags);
      LeadsThrough(trace, StageCalls(i, flags, 3), CallsFrom(i - 1, flags), outcome, goal, goalOk);
      ok := StopComponent(i);
    }

    /** The loop of a shutdown, from component `first` down. */
    method StopFrom(first: nat, ghost flags: seq<bool>, ghost goal: seq<Call>, ghost goalOk: bool) returns (ok: bool)
      requires Valid() && first < nComps && compSucc[..3] == flags
      requires Leads(trace, CallsFrom(first, flags), outcome, goal, goalOk)
      modifies this, compSucc
      ensures Valid() && compSucc[..3] == flags
      ensures if ok then Leads(trace, CallsFrom(-1, flags), outcome, goal, goalOk) else trace == goal && !goalOk
    {
      hide Succeeds, UntilFailure, AllSucceed, StageCalls, ShutdownCalls, CallsFrom, Leads;
      var i: int := first;
      while i >= 0
        invariant Valid() && -1 <= i < nComps && compSucc[..3] == flags
        invariant Leads(trace, CallsFrom(i, flags), outcome, goal, goalOk)
      {
        ok := StopNext(i, flags, goal, goalOk);
        if !ok {
          return;
        }
        i := i - 1;
      }
      return true;
    }

    /** Shuts components down, from the one last tried; stops at the first failure. */
    method Stop() returns (ok: bool)
      requires Valid()
      modifies this, compSucc
      ensures var calls := if old(compIndex) == 0 then [] else ShutdownCalls(old(compIndex), old(compSucc[..3]));
              trace == old(trace) + UntilFailure(calls, outcome) && ok == AllSucceed(calls, outcome)
      ensures Valid() && compSucc[..3] == old(compSucc[..3])
    {
      hide Succeeds, UntilFailure, AllSucceed, StageCalls, ShutdownCalls, CallsFrom, Leads;
      if compIndex == 0 {
        UntilFailureOfNone(outcome);
        return true;
      }
      ghost var flags, calls := compSucc[..3], ShutdownCalls(compIndex, compSucc[..3]);
      ghost var goal, goalOk := trace + UntilFailure(calls, outcome), AllSucceed(calls, outcome);
      LeadsBegin(trace, calls, outcome);
      CallsFromEnds(compIndex, flags);
      ok := StopFrom(compIndex, flags, goal, goalOk);
      if ok {
        LeadsEnd(trace, outcome, goal, goalOk);
      }
    }
  }

  /** From the given trace, the remaining calls lead to the goal. */
  ghost predicate Leads(trace: seq<Call>, calls: seq<Call>, outcome: Outcome, goal: seq<Call>, goalOk: bool) {
    trace + UntilFailure(calls, outcome) == goal && AllSucceed(calls, outcome) == goalOk
  }

  lemma LeadsBegin(trace: seq<Call>, calls: seq<Call>, outcome: Outcome)
    ensures Leads(trace, calls, outcome, trace + UntilFailure(calls, outcome), AllSucceed(calls, outcome))
  {
  }

  lemma LeadsThrough(trace: seq<Call>, first: seq<Call>, rest: seq<Call>, outcome: Outcome, goal: seq<Call>, goalOk: bool)
    requires Leads(trace, first + rest, outcome, goal, goalOk)
    ensures if AllSucceed(first, outcome) then Leads(trace + UntilFailure(first, outcome), rest, outcome, goal, goalOk)
            else trace + UntilFailure(first, outcome) == goal && !goalOk
  {
    UntilFailureOfConcat(first, rest, outcome);
    hide UntilFailure, AllSucceed, Succeeds;
    ConcatIsAssociative(trace, UntilFailure(first, outcome), UntilFailure(rest, outcome));
  }

  lemma LeadsThroughCall(trace: seq<Call>, call: Call, rest: seq<Call>, outcome: Outcome, goal: seq<Call>, goalOk: bool)
    requires Leads(trace, [call] + rest, outcome, goal, goalOk)
    ensures if Succeeds(outcome, call) then Leads(trace + [call], rest, outcome, goal, goalOk)
            else trace + [call] == goal && !goalOk
  {
    LeadsThrough(trace, [call], rest, outcome, goal, goalOk);
    UntilFailureOfOne(call, outcome);
  }

  lemma LeadsEnd(trace: seq<Call>, outcome: Outcome, goal: seq<Call>, goalOk: bool)
    requires Leads(trace, [], outcome, goal, goalOk)
    ensures trace == goal && goalOk
  {
  }

  /** One stage of a shutdown, split off. */
  lemma StageCallsStep(i: nat, flags: seq<bool>, j: nat)
    requires |flags| == 3 && j < 3
    ensures StageCalls(i, flags, j + 1)
         == if flags[j] then [Call(i, Opposite(StartupStage(j)))] + StageCalls(i, flags, j) else StageCalls(i, flags, j)
  {
  }

  lemma StageCallsEnd(i: nat, flags: seq<bool>)
    requires |flags| == 3
    ensures StageCalls(i, flags, 0) == []
  {
  }

  /** Calls of a shutdown from component `i` down; none for index -1. */
  function CallsFrom(i: int, flags: seq<bool>): seq<Call>
    requires i >= -1 && |flags| == 3
  {
    if i == -1 then [] else ShutdownCalls(i, flags)
  }

  lemma CallsFromEnds(i: nat, flags: seq<bool>)
    requires |flags| == 3
    ensures CallsFrom(i, flags) == ShutdownCalls(i, flags) && CallsFrom(-1, flags) == []
  {
  }

  /** One component of a shutdown, split off. */
  lemma CallsFromStep(i: nat, flags: seq<bool>)
    requires |flags| == 3
    ensures CallsFrom(i, flags) == StageCalls(i, flags, 3) + CallsFrom(i - 1, flags)
  {
  }

  lemma StartupCallsStep(m: nat)
    ensures StartupCalls(m + 1) == StartupCalls(m) + [StartupCall(m)]
  {
  }

  lemma FlagsOfFailure(s: seq<bool>, m: nat, j: nat)
    requires |s| >= 3 && forall k | 0 <= k < 3 :: s[k] == (k < m && k != j)
    ensures s[..3] == [0 < m && j != 0, 1 < m && j != 1, 2 < m && j != 2]
  {
  }

  /** Call `3 * i + j` is stage `j` of component `i`; what a failure there leaves behind. */
  lemma WhereCallIs(n: nat, i: nat, j: nat)
    requires i < n && j < 3
    ensures var m := 3 * i + j;
            && m < 3 * n && m / 3 == i && StartupCall(m) == Call(i, StartupStage(j)) && IndexAfter(n, m) == i
            && FlagsAfter(n, m) == [0 < m && j != 0, 1 < m && j != 1, 2 < m && j != 2]
  {
    QuotientIsUnique(3 * i + j, 3, i, j);
  }

  lemma SuccessesStep(n: nat, outcome: Outcome, m: nat)
    requires m < 3 * n
    ensures Successes(n, outcome, m) == if Succeeds(outcome, StartupCall(m)) then Successes(n, outcome, m + 1) else m
  {
  }

  /** Main result on full runs: if every startup callback succeeds and there is more than one
      component, a shutdown whose callbacks succeed runs exactly the reversed startup under the
      opposite-stage mapping, and what it runs when one fails is a beginning of that. */
  lemma FullRunIsUndone(n: nat, outcome: Outcome)
    requires n >= 2 && Successes(n, outcome, 0) == 3 * n
    ensures var calls := ShutdownCalls(IndexAfter(n, 3 * n), FlagsAfter(n, 3 * n));
            && calls == Undoing(3 * n)
            && UntilFailure(calls, outcome) <= Undoing(3 * n)
            && (AllSucceed(calls, outcome) ==> UntilFailure(calls, outcome) == Undoing(3 * n))
  {
    ShutdownUndoesIff(n, 3 * n);
    NoFailureRunsAll(Undoing(3 * n), outcome);
  }
}
