/**
 What a run of exceptions prints, with the numbers of the architecture.
 */
module ExceptionTrace {
  import opened Words
  import opened Exceptions
  import opened ExceptionRuns

  /** The tick of the timer. */
  predicate Ticks(c: Cause) {
    c.kind == 5 && c.tick
  }

  /** A system call from the kernel or from a program, in either state. */
  predicate Calls(c: Cause) {
    c.kind in {0, 4, 8, 12} && c.system.esr / 0x400_0000 % 0x40 == 0x15
  }

  /** A call is fatal, restarts, or is echoed by its number in x8; a tick is resumed; everything else is fatal,
      also an interrupt that is no tick. */
  lemma CauseKinds(c: Cause)
    requires WellFormed(c)
    ensures IsTick(c) <==> Ticks(c)
    ensures IsEcho(c) <==> Calls(c) && c.saved[8] != 0x4444 && c.saved[8] != 0x7777
    ensures IsRestart(c) <==> Calls(c) && c.saved[8] == 0x4444
    ensures IsFatal(c) <==> !Ticks(c) && (Calls(c) ==> c.saved[8] == 0x7777)
    ensures Calls(c) ==> !Ticks(c)
  {
  }

  /** What one exception prints. */
  function Prints(c: Cause, silent: bool): seq<Event>
    requires |c.saved| == 32
  {
    if Ticks(c) then []
    else if Calls(c) && c.saved[8] == 0x4444 then [RestartNotice]
    else if Calls(c) && c.saved[8] != 0x7777 then [Echo(c.saved[8])]
    else if silent then []
    else
      [Banner(Report(c.kind, c.system.esr / 0x400_0000 % 0x40, c.system.esr % 0x200_0000, c.system))]
      + RegisterLines(c.saved) + [Closing]
  }

  /** The step is an exception that the machine takes. */
  ghost predicate TakenNow(run: seq<Step>, step: Step)
    requires Proper(run)
  {
    step.Take? && !After(run).stopped
  }

  /** All that is printed: a fatal exception is silent when the latest of the fatal exceptions and echoed calls
      before it is fatal. */
  ghost function Printed(run: seq<Step>): seq<Event>
    requires Proper(run)
  {
    if run == [] then []
    else
      var before, step := run[..|run| - 1], run[|run| - 1];
      Printed(before) + if TakenNow(before, step) then Prints(step.cause, LatestIsFatal(before)) else []
  }

  lemma StepPrints(flag: U64, c: Cause)
    requires WellFormed(c)
    ensures Decide(flag, c).output == Prints(c, flag != 0)
  {
    CauseKinds(c);
  }

  /** The output of a run is what its exceptions print, in order. */
  lemma {:induction false} RunPrints(run: seq<Step>)
    requires Proper(run)
    ensures After(run).output == Printed(run)
    decreases |run|
  {
    if run != [] {
      var before, step := run[..|run| - 1], run[|run| - 1];
      RunPrints(before);
      FlagIsLatest(before);
      var s := After(before);
      if !s.stopped && step.Take? {
        StepPrints(s.flag, step.cause);
        DecisionShape(s.flag, step.cause);
        assert s.output + [] == s.output;
        assert Next(s, step) == Taken(s, Decide(s.flag, step.cause));
      }
    }
  }

  // ---- Echoes ----

  /** The call numbers that an output shows. */
  function EchoesIn(output: seq<Event>): seq<U64> {
    if output == [] then []
    else
      var last := output[|output| - 1];
      EchoesIn(output[..|output| - 1]) + if last.Echo? then [last.number] else []
  }

  lemma {:induction false} EchoesConcat(a: seq<Event>, b: seq<Event>)
    ensures EchoesIn(a + b) == EchoesIn(a) + EchoesIn(b)
    decreases |b|
  {
    if b == [] {
      assert a + b == a;
    } else {
      EchoesConcat(a, b[..|b| - 1]);
      assert (a + b)[..|a + b| - 1] == a + b[..|b| - 1];
    }
  }

  lemma {:induction false} NoEchoes(output: seq<Event>)
    requires forall k :: 0 <= k < |output| ==> !output[k].Echo?
    ensures EchoesIn(output) == []
    decreases |output|
  {
    if output != [] {
      NoEchoes(output[..|output| - 1]);
    }
  }

  /** The call numbers, in x8, of the calls of a run that are neither 0x4444 nor 0x7777. */
  ghost function CallsOf(run: seq<Step>): seq<U64>
    requires Proper(run)
  {
    if run == [] then []
    else
      var before, step := run[..|run| - 1], run[|run| - 1];
      CallsOf(before) + if TakenNow(before, step) then NumberOf(step.cause) else []
  }

  function NumberOf(c: Cause): seq<U64>
    requires |c.saved| == 32
  {
    if Calls(c) && c.saved[8] != 0x4444 && c.saved[8] != 0x7777 then [c.saved[8]] else []
  }

  lemma EchoOfCall(c: Cause, silent: bool)
    requires WellFormed(c)
    ensures EchoesIn(Prints(c, silent)) == NumberOf(c)
  {
    var p := Prints(c, silent);
    if NumberOf(c) == [] {
      NoEchoes(p);
    } else {
      assert p[..0] == [];
    }
  }

  /** The echoes of a run are the numbers of its calls, in order. */
  lemma {:induction false} EchoesInOrder(run: seq<Step>)
    requires Proper(run)
    ensures EchoesIn(After(run).output) == CallsOf(run)
    decreases |run|
  {
    RunPrints(run);
    if run != [] {
      var before, step := run[..|run| - 1], run[|run| - 1];
      EchoesInOrder(before);
      RunPrints(before);
      if TakenNow(before, step) {
        EchoOfCall(step.cause, LatestIsFatal(before));
        EchoesConcat(Printed(before), Prints(step.cause, LatestIsFatal(before)));
      } else {
        assert Printed(before) + [] == Printed(before);
      }
    }
  }
}
