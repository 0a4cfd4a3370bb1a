/**
 Deciding what to do about an exception (arch/arm64/ExceptionHandler.c).
 */
module Exceptions {
  import opened Words

  const IRQ_EL1_SPX := 5
  const SVC_AARCH64 := 0x15
  const CALL_RESTART := 0x4444
  const CALL_PANIC := 0x7777

  /** ESR_EL1, ELR_EL1, SPSR_EL1 and FAR_EL1. */
  datatype System = System(esr: U64, elr: U64, spsr: U64, far: U64)

  /** An exception: its vector, the system registers, the saved registers, and whether the interrupt
      controller would recognise it as a timer tick. */
  datatype Cause = Cause(kind: U64, system: System, saved: seq<U64>, tick: bool)

  /** The values at the head of the fatal report. */
  datatype Report = Report(kind: U64, ec: nat, iss: nat, system: System)

  /** What is printed. The fatal report is its banner, one line for each saved register, and the last
      line. */
  datatype Event =
    | RestartNotice
    | Echo(number: U64)
    | Banner(report: Report)
    | Register(index: nat, value: U64)
    | Closing

  datatype Action = Resume | Restart | Panic | Halted

  // ---- The fields of the syndrome ----

  function ClassOf(esr: nat): nat {
    esr / 0x400_0000 % 0x40
  }

  function IssOf(esr: nat): nat {
    esr % 0x200_0000
  }

  method ExceptionClass(esr: U64) returns (ec: nat)
    ensures ec == ClassOf(esr) < 0x40
  {
    MaskWidths();
    ShiftRightDivides(esr, 26);
    AndMask(esr as nat / 0x400_0000, 6);
    ec := And(ShiftRight(esr, 26), 0x3F);
  }

  method Iss(esr: U64) returns (iss: nat)
    ensures iss == IssOf(esr) < 0x200_0000
  {
    MaskWidths();
    AndMask(esr, 25);
    iss := And(esr, 0x1FF_FFFF);
  }

  lemma MaskWidths()
    ensures Pow2(6) == 0x40 && Pow2(25) == 0x200_0000 && Pow2(26) == 0x400_0000
  {
    assert Pow2(6) == 0x40;
    assert Pow2(12) == 0x1000;
    assert Pow2(18) == 0x4_0000;
    assert Pow2(25) == 0x200_0000;
  }

  // ---- Deciding ----

  /** Synchronous, from EL1 with either stack pointer or from EL0 in either state. */
  predicate IsSync(kind: U64) {
    kind == 0 || kind == 4 || kind == 8 || kind == 12
  }

  predicate IsTick(c: Cause) {
    c.kind == IRQ_EL1_SPX && c.tick
  }

  predicate IsCall(c: Cause) {
    IsSync(c.kind) && ClassOf(c.system.esr) == SVC_AARCH64
  }

  ghost predicate WellFormed(c: Cause) {
    |c.saved| == 32
  }

  /** A system call that is echoed and then resumed. */
  predicate IsEcho(c: Cause)
    requires |c.saved| == 32
  {
    IsCall(c) && c.saved[8] != CALL_RESTART && c.saved[8] != CALL_PANIC
  }

  predicate IsRestart(c: Cause)
    requires |c.saved| == 32
  {
    IsCall(c) && c.saved[8] == CALL_RESTART
  }

  /** Everything else is fatal. */
  predicate IsFatal(c: Cause)
    requires |c.saved| == 32
  {
    !IsTick(c) && !IsEcho(c) && !IsRestart(c)
  }

  function ReportOf(c: Cause): Report {
    Report(c.kind, ClassOf(c.system.esr), IssOf(c.system.esr), c.system)
  }

  /** The lines of the first registers. */
  function RegisterLines(saved: seq<U64>): (lines: seq<Event>)
    ensures |lines| == |saved|
    ensures forall i :: 0 <= i < |saved| ==> lines[i] == Register(i, saved[i])
  {
    seq(|saved|, i requires 0 <= i < |saved| => Register(i, saved[i]))
  }

  /** The whole fatal report. */
  function FatalReport(c: Cause): seq<Event> {
    [Banner(ReportOf(c))] + RegisterLines(c.saved) + [Closing]
  }

  /** The flag, the output and the action that follow. */
  datatype Decision = Decision(flag: U64, output: seq<Event>, action: Action)

  function Decide(flag: U64, c: Cause): Decision
    requires |c.saved| == 32
  {
    if IsFatal(c) then
      if flag != 0 then Decision(flag, [], Halted) else Decision(1, FatalReport(c), Panic)
    else if IsEcho(c) then Decision(0, [Echo(c.saved[8])], Resume)
    else if IsRestart(c) then Decision(flag, [RestartNotice], Restart)
    else Decision(flag, [], Resume)
  }

  class Handler {
    /** g_exception_in_progress */
    var inProgress: U64
    var output: seq<Event>

    constructor ()
      ensures inProgress == 0 && output == []
    {
      inProgress, output := 0, [];
    }

    /** The flag is now this, this has been printed, and this action has been decided. */
    ghost predicate Does(flag: U64, before: seq<Event>, more: seq<Event>, action: Action, decided: Action)
      reads this`inProgress, this`output
    {
      inProgress == flag && output == before + more && action == decided
    }

    /** Lines 282 to 321. */
    method PrintReport(kind: U64, ec: nat, iss: nat, system: System, saved: seq<U64>)
      requires |saved| == 32
      modifies this`output
      ensures output == old(output) + ([Banner(Report(kind, ec, iss, system))] + RegisterLines(saved) + [Closing])
    {
      output := output + [Banner(Report(kind, ec, iss, system))];
      ghost var head := output;
      assert RegisterLines(saved[..0]) == [];
      for i := 0 to 32
        invariant output == head + RegisterLines(saved[..i])
      {
        assert RegisterLines(saved[..i + 1]) == RegisterLines(saved[..i]) + [Register(i, saved[i])];
        output := output + [Register(i, saved[i])];
      }
      assert saved[..32] == saved;
      output := output + [Closing];
    }

    /** handle_exception; a halt inside it is the action Halted. What it does about ticks, calls and everything
        else is stated with the numbers of the architecture, and is what Decide says. */
    method HandleException(saved: seq<U64>, kind: U64, system: System, tick: bool) returns (action: Action)
      requires |saved| == 32
      modifies this`inProgress, this`output
      ensures kind == 5 && tick ==> Does(old(inProgress), old(output), [], action, Resume)
      ensures var call := kind in {0, 4, 8, 12} && system.esr / 0x400_0000 % 0x40 == 0x15;
        && (call && saved[8] == 0x4444 ==>
             Does(old(inProgress), old(output), [RestartNotice], action, Restart))
        && (call && saved[8] != 0x4444 && saved[8] != 0x7777 ==>
             Does(0, old(output), [Echo(saved[8])], action, Resume))
        && (!(kind == 5 && tick) && !(call && saved[8] != 0x7777) ==>
             if old(inProgress) != 0 then Does(old(inProgress), old(output), [], action, Halted)
             else Does(1, old(output),
                       [Banner(Report(kind, system.esr / 0x400_0000 % 0x40, system.esr % 0x200_0000, system))]
                       + RegisterLines(saved) + [Closing], action, Panic))
      ensures Decide(old(inProgress), Cause(kind, system, saved, tick)).flag == inProgress
      ensures output == old(output) + Decide(old(inProgress), Cause(kind, system, saved, tick)).output
      ensures action == Decide(old(inProgress), Cause(kind, system, saved, tick)).action
    {
      var ec := ExceptionClass(system.esr);
      var iss := Iss(system.esr);
      if kind == IRQ_EL1_SPX {
        if tick {
          return Resume;
        }
      } else if IsSync(kind) && ec == SVC_AARCH64 {
        var requested := saved[8];
        if requested == CALL_RESTART {
          output := output + [RestartNotice];
          return Restart;
        } else if requested != CALL_PANIC {
          output := output + [Echo(requested)];
          inProgress := 0;
          return Resume;
        }
      }
      if inProgress != 0 {
        // Nested: stop without output.
        return Halted;
      }
      inProgress := 1;
      PrintReport(kind, ec, iss, system, saved);
      return Panic;
    }
  }
}
