/**
 Runs of exceptions: what the in-progress flag of arch/arm64/ExceptionHandler.c guards, and what it
 does not.
 */
module ExceptionRuns {
  import opened Words
  import opened Exceptions

  /** An exception is taken, or the handling of the latest one ends. */
  datatype Step = Take(cause: Cause) | End

  /** The machine between two steps; `pending` holds the actions decided for the exceptions being handled. */
  datatype State = State(flag: U64, output: seq<Event>, pending: seq<Action>, stopped: bool)

  const START := State(0, [], [], false)

  ghost predicate Proper(run: seq<Step>) {
    forall k :: 0 <= k < |run| ==> run[k].Take? ==> WellFormed(run[k].cause)
  }

  /** A decision takes effect. */
  function Taken(s: State, d: Decision): State {
    if d.action == Halted then s.(stopped := true)
    else State(d.flag, s.output + d.output, s.pending + [d.action], false)
  }

  /** The latest exception is resumed, or the machine stops. */
  function Ended(s: State): State {
    if s.pending == [] then s
    else
      var last := |s.pending| - 1;
      s.(pending := s.pending[..last], stopped := s.pending[last] != Resume)
  }

  function Next(s: State, step: Step): State
    requires step.Take? ==> |step.cause.saved| == 32
  {
    if s.stopped then s else if step.Take? then Taken(s, Decide(s.flag, step.cause)) else Ended(s)
  }

  ghost function After(run: seq<Step>): State
    requires Proper(run)
  {
    if run == [] then START else Next(After(run[..|run| - 1]), run[|run| - 1])
  }

  function Banners(output: seq<Event>): nat {
    if output == [] then 0 else Banners(output[..|output| - 1]) + if output[|output| - 1].Banner? then 1 else 0
  }

  lemma {:induction false} BannersConcat(a: seq<Event>, b: seq<Event>)
    ensures Banners(a + b) == Banners(a) + Banners(b)
    decreases |b|
  {
    if b == [] {
      assert a + b == a;
    } else {
      BannersConcat(a, b[..|b| - 1]);
      assert (a + b)[..|a + b| - 1] == a + b[..|b| - 1];
    }
  }

  lemma {:induction false} NoBanners(output: seq<Event>)
    requires forall k :: 0 <= k < |output| ==> !output[k].Banner?
    ensures Banners(output) == 0
    decreases |output|
  {
    if output != [] {
      NoBanners(output[..|output| - 1]);
    }
  }

  lemma OneBannerInReport(c: Cause)
    ensures Banners(FatalReport(c)) == 1
  {
    var lines := RegisterLines(c.saved) + [Closing];
    NoBanners(lines);
    BannersConcat([Banner(ReportOf(c))], lines);
    assert FatalReport(c) == [Banner(ReportOf(c))] + lines;
    assert [Banner(ReportOf(c))][..0] == [];
  }

  lemma DecisionShape(flag: U64, c: Cause)
    requires WellFormed(c)
    ensures var d := Decide(flag, c);
      && (d.action == Panic <==> IsFatal(c) && flag == 0) && (d.action == Halted <==> IsFatal(c) && flag != 0)
      && (d.action == Resume <==> IsTick(c) || IsEcho(c))
      && d.flag == (if d.action == Panic then 1 else if IsEcho(c) then 0 else flag)
      && Banners(d.output) == (if d.action == Panic then 1 else 0)
      && (d.action == Halted ==> d.output == []) && (d.action == Panic ==> d.output == FatalReport(c))
      && !(IsFatal(c) && IsEcho(c))
  {
    OneBannerInReport(c);
    NoBanners([]);
    NoBanners([RestartNotice]);
    NoBanners([Echo(c.saved[8])]);
  }

  // ---- Runs in which no call is echoed inside a fatal exception ----

  /** A call would be echoed while a fatal exception is still being handled. */
  ghost predicate EchoInFatal(s: State, step: Step)
    requires step.Take? ==> |step.cause.saved| == 32
  {
    !s.stopped && step.Take? && IsEcho(step.cause) && Panic in s.pending
  }

  /** No such call happens in the run. */
  ghost predicate Quiet(run: seq<Step>)
    requires Proper(run)
  {
    run == [] || (Quiet(run[..|run| - 1]) && !EchoInFatal(After(run[..|run| - 1]), run[|run| - 1]))
  }

  /** What every quiet run keeps: the flag is set exactly while a fatal exception is pending, and a
      banner has been printed only by that one or by one that stopped the machine. */
  ghost predicate Guarded(s: State) {
    && Banners(s.output) <= 1
    && (!s.stopped && Panic !in s.pending ==> s.flag == 0 && Banners(s.output) == 0)
    && (!s.stopped && Panic in s.pending ==> s.flag != 0 && Banners(s.output) == 1)
  }

  lemma Pushed(pending: seq<Action>, a: Action)
    ensures Panic in pending + [a] <==> Panic in pending || a == Panic
  {
  }

  lemma Popped(pending: seq<Action>)
    requires pending != [] && pending[|pending| - 1] == Resume
    ensures Panic in pending[..|pending| - 1] <==> Panic in pending
  {
    assert pending == pending[..|pending| - 1] + [Resume];
  }

  lemma TakeKeepsGuard(s: State, c: Cause)
    requires WellFormed(c) && Guarded(s) && !s.stopped && !EchoInFatal(s, Take(c))
    ensures Guarded(Next(s, Take(c)))
  {
    var d := Decide(s.flag, c);
    DecisionShape(s.flag, c);
    BannersConcat(s.output, d.output);
    Pushed(s.pending, d.action);
    assert Next(s, Take(c)) == Taken(s, d);
    if d.action != Halted {
      KeptGuard(s, d);
    }
  }

  lemma KeptGuard(s: State, d: Decision)
    requires Guarded(s) && !s.stopped && d.action != Halted
    requires d.action == Panic ==> s.flag == 0 && d.flag == 1
    requires d.action != Panic ==> d.flag == s.flag || (d.flag == 0 && Panic !in s.pending)
    requires Banners(s.output + d.output) == Banners(s.output) + if d.action == Panic then 1 else 0
    requires Panic in s.pending + [d.action] <==> Panic in s.pending || d.action == Panic
    ensures Guarded(State(d.flag, s.output + d.output, s.pending + [d.action], false))
  {
  }

  lemma EndKeepsGuard(s: State)
    requires Guarded(s) && !s.stopped && s.pending != []
    ensures Guarded(Next(s, End))
  {
    if s.pending[|s.pending| - 1] == Resume {
      Popped(s.pending);
    }
  }

  lemma {:induction false} QuietRunsAreGuarded(run: seq<Step>)
    requires Proper(run) && Quiet(run)
    ensures Guarded(After(run))
    decreases |run|
  {
    if run != [] {
      var before, step := run[..|run| - 1], run[|run| - 1];
      QuietRunsAreGuarded(before);
      var s := After(before);
      if !s.stopped && step.Take? {
        TakeKeepsGuard(s, step.cause);
      } else if !s.stopped && s.pending != [] {
        EndKeepsGuard(s);
      }
    }
  }

  lemma {:induction false} QuietPrefix(run: seq<Step>, k: nat)
    requires Proper(run) && Quiet(run) && k <= |run|
    ensures Quiet(run[..k])
    decreases |run|
  {
    if k < |run| {
      QuietPrefix(run[..|run| - 1], k);
      assert run[..|run| - 1][..k] == run[..k];
    } else {
      assert run[..k] == run;
    }
  }

  /** The first step of a run that is not quiet. */
  lemma {:induction false} FirstEcho(run: seq<Step>) returns (k: nat)
    requires Proper(run) && !Quiet(run)
    ensures k < |run| && Quiet(run[..k]) && EchoInFatal(After(run[..k]), run[k])
    decreases |run|
  {
    var n := |run| - 1;
    if Quiet(run[..n]) {
      k := n;
    } else {
      k := FirstEcho(run[..n]);
      assert run[..n][..k] == run[..k];
    }
  }

  // ---- When the banner is printed at most once ----

  /** The i-th step is a call echoed inside a fatal exception. */
  ghost predicate EchoAt(run: seq<Step>, i: nat)
    requires Proper(run) && i < |run|
  {
    EchoInFatal(After(run[..i]), run[i])
  }

  /** The j-th step is a fatal exception that the machine takes. */
  ghost predicate FatalAt(run: seq<Step>, j: nat)
    requires Proper(run) && j < |run|
  {
    !After(run[..j]).stopped && run[j].Take? && IsFatal(run[j].cause)
  }

  ghost predicate EchoThenFatal(run: seq<Step>)
    requires Proper(run)
  {
    exists i: nat, j: nat :: i < j < |run| && EchoAt(run, i) && FatalAt(run, j)
  }

  /** The same, step by step. */
  ghost predicate FatalAgain(run: seq<Step>)
    requires Proper(run)
  {
    run != [] && var n := |run| - 1;
    FatalAgain(run[..n]) || (!Quiet(run[..n]) && FatalAt(run, n))
  }

  lemma {:induction false} FatalAgainPrefix(run: seq<Step>, k: nat)
    requires Proper(run) && k <= |run| && FatalAgain(run[..k])
    ensures FatalAgain(run)
    decreases |run|
  {
    if k == |run| {
      assert run[..k] == run;
    } else {
      assert run[..|run| - 1][..k] == run[..k];
      FatalAgainPrefix(run[..|run| - 1], k);
    }
  }

  lemma {:induction false} EchoIsNotQuiet(run: seq<Step>, i: nat)
    requires Proper(run) && i < |run| && EchoAt(run, i)
    ensures !Quiet(run)
    decreases |run|
  {
    if i < |run| - 1 {
      assert run[..|run| - 1][..i] == run[..i];
      EchoIsNotQuiet(run[..|run| - 1], i);
    }
  }

  lemma {:induction false} WhereFatalAgain(run: seq<Step>) returns (i: nat, j: nat)
    requires Proper(run) && FatalAgain(run)
    ensures i < j < |run| && EchoAt(run, i) && FatalAt(run, j)
    decreases |run|
  {
    var n := |run| - 1;
    if FatalAgain(run[..n]) {
      i, j := WhereFatalAgain(run[..n]);
      assert run[..n][..j] == run[..j];
    } else {
      i := FirstEcho(run[..n]);
      j := n;
    }
    assert run[..n][..i] == run[..i];
  }

  lemma EchoThenFatalIsAgain(run: seq<Step>)
    requires Proper(run)
    ensures EchoThenFatal(run) <==> FatalAgain(run)
  {
    if FatalAgain(run) {
      var i, j := WhereFatalAgain(run);
    } else if EchoThenFatal(run) {
      var i: nat, j: nat :| i < j < |run| && EchoAt(run, i) && FatalAt(run, j);
      assert run[..j][..i] == run[..i] && run[..j + 1][..j] == run[..j];
      EchoIsNotQuiet(run[..j], i);
      assert FatalAt(run[..j + 1], j);
      FatalAgainPrefix(run, j + 1);
    }
  }

  /** After an echo inside a fatal exception: one banner has been printed, and if the flag is set again,
      two. */
  ghost predicate Cleared(s: State) {
    Panic in s.pending && Banners(s.output) >= if s.flag == 0 then 1 else 2
  }

  lemma TakeKeepsCleared(s: State, c: Cause)
    requires WellFormed(c) && Cleared(s) && !s.stopped && !Next(s, Take(c)).stopped
    ensures Cleared(Next(s, Take(c)))
  {
    var d := Decide(s.flag, c);
    DecisionShape(s.flag, c);
    BannersConcat(s.output, d.output);
    Pushed(s.pending, d.action);
    assert Next(s, Take(c)) == Taken(s, d);
  }

  lemma EndKeepsCleared(s: State)
    requires Cleared(s) && !s.stopped && !Next(s, End).stopped
    ensures Cleared(Next(s, End))
  {
    Popped(s.pending);
  }

  lemma EchoClears(s: State, c: Cause)
    requires WellFormed(c) && Guarded(s) && EchoInFatal(s, Take(c))
    ensures Cleared(Next(s, Take(c)))
  {
    var d := Decide(s.flag, c);
    DecisionShape(s.flag, c);
    BannersConcat(s.output, d.output);
    Pushed(s.pending, d.action);
    assert Next(s, Take(c)) == Taken(s, d);
  }

  lemma {:induction false} NotQuietIsCleared(run: seq<Step>)
    requires Proper(run) && !Quiet(run) && !After(run).stopped
    ensures Cleared(After(run))
    decreases |run|
  {
    var before, step := run[..|run| - 1], run[|run| - 1];
    if Quiet(before) {
      QuietRunsAreGuarded(before);
      EchoClears(After(before), step.cause);
    } else {
      NotQuietIsCleared(before);
      if step.Take? {
        TakeKeepsCleared(After(before), step.cause);
      } else {
        EndKeepsCleared(After(before));
      }
    }
  }

  lemma StepBanners(s: State, step: Step)
    requires step.Take? ==> WellFormed(step.cause)
    ensures var more := if !s.stopped && s.flag == 0 && step.Take? && IsFatal(step.cause) then 1 else 0;
      Banners(Next(s, step).output) == Banners(s.output) + more
  {
    if !s.stopped && step.Take? {
      DecisionShape(s.flag, step.cause);
      BannersConcat(s.output, Decide(s.flag, step.cause).output);
      assert Next(s, step) == Taken(s, Decide(s.flag, step.cause));
    }
  }

  lemma {:induction false} SecondBanner(run: seq<Step>)
    requires Proper(run)
    ensures Banners(After(run).output) >= 2 <==> FatalAgain(run)
    decreases |run|
  {
    if run == [] {
      NoBanners([]);
    } else {
      var n := |run| - 1;
      SecondBanner(run[..n]);
      StepBanners(After(run[..n]), run[n]);
      if Quiet(run[..n]) {
        QuietRunsAreGuarded(run[..n]);
      } else if !After(run[..n]).stopped {
        NotQuietIsCleared(run[..n]);
      }
    }
  }

  /** A run prints at most one banner exactly when no fatal exception is taken after a call was echoed
      inside the handling of a fatal exception. */
  lemma BannerAtMostOnce(run: seq<Step>)
    requires Proper(run)
    ensures Banners(After(run).output) <= 1 <==> !EchoThenFatal(run)
  {
    SecondBanner(run);
    EchoThenFatalIsAgain(run);
  }

  const FATAL := Cause(0, System(0, 0, 0, 0), seq(32, _ => 0), false)
  const CALL := Cause(4, System(0x5600_0000, 0, 0, 0), seq(32, _ => 0), false)

  lemma ExampleCauses()
    ensures WellFormed(FATAL) && IsFatal(FATAL) && WellFormed(CALL) && IsEcho(CALL)
  {
    assert ClassOf(0) == 0 && ClassOf(0x5600_0000) == SVC_AARCH64;
  }

  /** A fatal exception, a call echoed inside its handling, and another fatal one: two banners. It is a run of
      the handler and the vectors; in this tree the code between a fatal decision and the halt makes no call, so
      the tree's own runs are quiet. */
  lemma TwoBanners() returns (run: seq<Step>)
    ensures Proper(run) && Banners(After(run).output) >= 2
  {
    run := [Take(FATAL), Take(CALL), Take(FATAL)];
    ExampleCauses();
    var one, two := [Take(FATAL)], [Take(FATAL), Take(CALL)];
    assert one[..0] == [] && two[..1] == one && run[..1] == one && run[..2] == two;
    FatalFirst(one);
    assert EchoAt(run, 1);
    assert After(two) == Next(After(one), Take(CALL));
    assert FatalAt(run, 2);
    BannerAtMostOnce(run);
  }

  lemma FatalFirst(run: seq<Step>)
    requires run == [Take(FATAL)] && WellFormed(FATAL)
    ensures !After(run).stopped && After(run).pending == [Panic] && After(run).flag == 1
  {
    ExampleCauses();
    DecisionShape(0, FATAL);
    assert run[..0] == [];
    assert After(run) == Next(START, Take(FATAL)) == Taken(START, Decide(0, FATAL));
  }

  // ---- What the next exception would do ----

  /** Whatever exception came next, at any moment of the run, no second banner would be printed. */
  ghost predicate NoSecondToCome(run: seq<Step>)
    requires Proper(run)
  {
    forall k: nat, c: Cause :: k <= |run| && WellFormed(c) ==> Banners(Next(After(run[..k]), Take(c)).output) <= 1
  }

  /** The machine is never one fatal exception away from a second banner exactly when no call is echoed
      inside the handling of a fatal exception. */
  lemma QuietIsSafe(run: seq<Step>)
    requires Proper(run)
    ensures NoSecondToCome(run) <==> Quiet(run)
  {
    if Quiet(run) {
      forall k: nat, c: Cause | k <= |run| && WellFormed(c)
        ensures Banners(Next(After(run[..k]), Take(c)).output) <= 1
      {
        QuietPrefix(run, k);
        QuietRunsAreGuarded(run[..k]);
        StepBanners(After(run[..k]), Take(c));
      }
    } else {
      var i := FirstEcho(run);
      QuietRunsAreGuarded(run[..i]);
      EchoThenFatalNext(After(run[..i]), run[i].cause);
      assert run[..i + 1][..i] == run[..i];
      assert Banners(Next(After(run[..i + 1]), Take(FATAL)).output) == 2;
    }
  }

  lemma EchoThenFatalNext(s: State, c: Cause)
    requires WellFormed(c) && Guarded(s) && EchoInFatal(s, Take(c))
    ensures WellFormed(FATAL) && Banners(Next(Next(s, Take(c)), Take(FATAL)).output) == 2
  {
    ExampleCauses();
    DecisionShape(s.flag, c);
    StepBanners(s, Take(c));
    StepBanners(Next(s, Take(c)), Take(FATAL));
    assert Next(s, Take(c)) == Taken(s, Decide(s.flag, c));
  }

  // ---- When a fatal exception is silent ----

  /** Of the fatal exceptions and the echoed calls taken so far, the latest is fatal. */
  ghost predicate LatestIsFatal(run: seq<Step>)
    requires Proper(run)
  {
    run != [] && var before, step := run[..|run| - 1], run[|run| - 1];
    if !After(before).stopped && step.Take? && (IsFatal(step.cause) || IsEcho(step.cause)) then IsFatal(step.cause)
    else LatestIsFatal(before)
  }

  lemma {:induction false} FlagIsLatest(run: seq<Step>)
    requires Proper(run)
    ensures After(run).flag != 0 <==> LatestIsFatal(run)
    decreases |run|
  {
    if run != [] {
      var before, step := run[..|run| - 1], run[|run| - 1];
      FlagIsLatest(before);
      var s := After(before);
      if !s.stopped && step.Take? {
        DecisionShape(s.flag, step.cause);
        assert Next(s, step) == Taken(s, Decide(s.flag, step.cause));
      }
    }
  }

  /** A fatal exception stops the machine with no output exactly when the latest of the earlier fatal
      exceptions and echoed calls is fatal; otherwise it prints its report. */
  lemma {:induction false} FatalIsSilent(run: seq<Step>, c: Cause)
    requires Proper(run) && WellFormed(c) && IsFatal(c) && !After(run).stopped
    ensures Next(After(run), Take(c)) == After(run).(stopped := true) <==> LatestIsFatal(run)
    ensures !LatestIsFatal(run) ==> Next(After(run), Take(c)).output == After(run).output + FatalReport(c)
  {
    FlagIsLatest(run);
    DecisionShape(After(run).flag, c);
    assert Next(After(run), Take(c)) == Taken(After(run), Decide(After(run).flag, c));
  }

  /** A fatal exception inside the handling of another one is silent exactly when the latest fatal
      exception or echoed call is fatal; so it is silent in every quiet run. */
  lemma {:induction false} NestedFatalIsSilent(run: seq<Step>, c: Cause)
    requires Proper(run) && WellFormed(c) && IsFatal(c)
    requires !After(run).stopped && Panic in After(run).pending
    ensures Next(After(run), Take(c)).output == After(run).output <==> LatestIsFatal(run)
    ensures Quiet(run) ==> LatestIsFatal(run) && Next(After(run), Take(c)) == After(run).(stopped := true)
  {
    FatalIsSilent(run, c);
    FlagIsLatest(run);
    assert |After(run).output + FatalReport(c)| > |After(run).output|;
    if Quiet(run) {
      QuietRunsAreGuarded(run);
    }
  }

  // ---- Runs without nesting ----

  /** Each exception is handled to its end before the next one. */
  function OneByOne(causes: seq<Cause>): seq<Step> {
    if causes == [] then [] else OneByOne(causes[..|causes| - 1]) + [Take(causes[|causes| - 1])] + [End]
  }

  /** Between two exceptions the machine is idle, unless it has stopped. */
  ghost predicate Idle(s: State) {
    s.pending == [] && s.flag == 0 && Banners(s.output) == 0 && !s.stopped
  }

  /** Nothing follows the report of a fatal exception, and there is no other. */
  ghost predicate ReportIsLast(output: seq<Event>) {
    Banners(output) == 0
    || exists before: seq<Event>, c: Cause :: Banners(before) == 0 && output == before + FatalReport(c)
  }

  /** One exception, handled to its end. */
  function Visit(s: State, c: Cause): State
    requires |c.saved| == 32
  {
    Next(Next(s, Take(c)), End)
  }

  ghost predicate Handled(c: Cause) {
    WellFormed(c) && (IsTick(c) || IsEcho(c))
  }

  ghost predicate AllHandled(causes: seq<Cause>) {
    forall k :: 0 <= k < |causes| ==> Handled(causes[k])
  }

  ghost predicate BetweenVisits(s: State) {
    (s.stopped || Idle(s)) && ReportIsLast(s.output)
  }

  lemma OneVisit(s: State, c: Cause)
    requires Idle(s) && WellFormed(c)
    ensures BetweenVisits(Visit(s, c)) && (Idle(Visit(s, c)) <==> Handled(c))
  {
    var d := Decide(0, c);
    DecisionShape(0, c);
    BannersConcat(s.output, d.output);
    assert Next(s, Take(c)) == Taken(s, d);
    assert [d.action][..0] == [] && s.pending + [d.action] == [d.action];
    assert Visit(s, c) == State(d.flag, s.output + d.output, [], d.action != Resume);
  }

  lemma VisitKeeps(s: State, c: Cause)
    requires BetweenVisits(s) && WellFormed(c)
    ensures BetweenVisits(Visit(s, c)) && (Idle(Visit(s, c)) <==> Idle(s) && Handled(c))
  {
    if Idle(s) {
      OneVisit(s, c);
    }
  }

  lemma AfterVisit(run: seq<Step>, c: Cause)
    requires Proper(run) && WellFormed(c)
    ensures Proper(run + [Take(c)] + [End]) && After(run + [Take(c)] + [End]) == Visit(After(run), c)
  {
    assert (run + [Take(c)])[..|run|] == run;
    assert (run + [Take(c)] + [End])[..|run| + 1] == run + [Take(c)];
  }

  lemma AllHandledLast(causes: seq<Cause>)
    requires causes != []
    ensures AllHandled(causes) <==> AllHandled(causes[..|causes| - 1]) && Handled(causes[|causes| - 1])
  {
    assert causes == causes[..|causes| - 1] + [causes[|causes| - 1]];
  }

  /** Without nesting: at every entry the flag is clear, the banner is printed at most once and nothing
      follows it, and the run goes on exactly as long as every exception is a tick or an echoed call. */
  lemma {:induction false} OneByOneRuns(causes: seq<Cause>)
    requires forall k :: 0 <= k < |causes| ==> WellFormed(causes[k])
    ensures Proper(OneByOne(causes)) && BetweenVisits(After(OneByOne(causes)))
    ensures Idle(After(OneByOne(causes))) <==> AllHandled(causes)
    decreases |causes|
  {
    if causes != [] {
      var before, c := causes[..|causes| - 1], causes[|causes| - 1];
      OneByOneRuns(before);
      AfterVisit(OneByOne(before), c);
      VisitKeeps(After(OneByOne(before)), c);
      AllHandledLast(causes);
    }
  }
}
