/**
 Exceptions inside the handling of exceptions, with their frames on the stack.
 */
module ExceptionNesting {
  import opened Words
  import opened Exceptions
  import opened ExceptionRuns
  import opened ExceptionEntry

  /** The slots that code stores to, with their new values. */
  type Stores = map<nat, U64>

  /** An exception and those taken while it is handled, before and after it is decided.
      The interrupted code has the registers `program`, its stack pointer is 256 above the address of
      `slot`, and since the exception before this one it has made the stores `made`. At its end the compiled
      handler has made the stores `last` and leaves the registers `left`. */
  datatype Nest = Nest(kind: U64, system: System, tick: bool, program: seq<U64>, slot: nat, made: Stores,
                       before: seq<Nest>, after: seq<Nest>, left: seq<U64>, last: Stores)

  function CauseOf(n: Nest): Cause
    requires 8 * n.slot < TWO_64
  {
    Cause(n.kind, n.system, n.program + [8 * n.slot], n.tick)
  }

  predicate InFrame(k: nat, slot: nat) {
    slot <= k < slot + 32
  }

  /** The slots of a frame. */
  function Span(slot: nat): (s: set<nat>)
    ensures forall k :: k in s <==> InFrame(k, slot)
  {
    set k: nat | 0 <= k < slot + 32 && InFrame(k, slot)
  }

  /** Code stores to no slot in use: not to those in `held`, and not to the frame of the exception it
      handles. */
  ghost predicate Fits(n: Nest, size: nat, held: set<nat>)
    decreases n, 0
  {
    && |n.program| == 31 && |n.left| == 31
    && n.slot + 32 <= size && 8 * size <= TWO_64 && Span(n.slot) !! held
    && n.made.Keys !! held && n.last.Keys !! held + Span(n.slot)
    && AllFit(n.before, size, held + Span(n.slot)) && AllFit(n.after, size, held + Span(n.slot))
  }

  ghost predicate AllFit(ns: seq<Nest>, size: nat, held: set<nat>)
    decreases ns
  {
    ns == [] || (Fits(ns[0], size, held) && AllFit(ns[1..], size, held))
  }

  // ---- The run of a nest ----

  ghost function StepsOf(n: Nest): seq<Step>
    decreases n, 0
  {
    if 8 * n.slot >= TWO_64 then []
    else StepsOfAll(n.before) + ([Take(CauseOf(n))] + (StepsOfAll(n.after) + [End]))
  }

  ghost function StepsOfAll(ns: seq<Nest>): seq<Step>
    decreases ns
  {
    if ns == [] then [] else StepsOf(ns[0]) + StepsOfAll(ns[1..])
  }

  ghost function From(s: State, steps: seq<Step>): State
    requires Proper(steps)
    decreases |steps|
  {
    if steps == [] then s else From(Next(s, steps[0]), steps[1..])
  }

  lemma {:induction false} FromConcat(s: State, a: seq<Step>, b: seq<Step>)
    requires Proper(a) && Proper(b)
    ensures Proper(a + b) && From(s, a + b) == From(From(s, a), b)
    decreases |a|
  {
    if a == [] {
      assert a + b == b;
    } else {
      FromConcat(Next(s, a[0]), a[1..], b);
      assert (a + b)[1..] == a[1..] + b;
    }
  }

  lemma FromOne(s: State, step: Step)
    requires step.Take? ==> WellFormed(step.cause)
    ensures From(s, [step]) == Next(s, step)
  {
    assert [step][1..] == [];
  }

  lemma {:induction false} FromStopped(s: State, steps: seq<Step>)
    requires Proper(steps) && s.stopped
    ensures From(s, steps) == s
    decreases |steps|
  {
    if steps != [] {
      FromStopped(s, steps[1..]);
    }
  }

  /** From the start, a run leads where the run model says. */
  lemma {:induction false} FromStart(run: seq<Step>)
    requires Proper(run)
    ensures From(START, run) == After(run)
    decreases |run|
  {
    if run != [] {
      var before, step := run[..|run| - 1], run[|run| - 1];
      FromStart(before);
      FromConcat(START, before, [step]);
      FromOne(After(before), step);
      assert before + [step] == run;
    }
  }

  lemma {:induction false} StepsAreProper(n: Nest, size: nat, held: set<nat>)
    requires Fits(n, size, held)
    ensures Proper(StepsOf(n)) && Proper(StepsOfAll(n.before)) && Proper(StepsOfAll(n.after))
    decreases n, 0
  {
    AllStepsAreProper(n.before, size, held + Span(n.slot));
    AllStepsAreProper(n.after, size, held + Span(n.slot));
  }

  lemma {:induction false} AllStepsAreProper(ns: seq<Nest>, size: nat, held: set<nat>)
    requires AllFit(ns, size, held)
    ensures Proper(StepsOfAll(ns))
    decreases ns
  {
    if ns != [] {
      StepsAreProper(ns[0], size, held);
      AllStepsAreProper(ns[1..], size, held);
    }
  }

  /** The run of an exception: those before its decision, the decision, those after it, the end. */
  lemma FromNest(s: State, n: Nest, size: nat, held: set<nat>)
    requires Fits(n, size, held)
    ensures Proper(StepsOf(n)) && Proper(StepsOfAll(n.before)) && Proper(StepsOfAll(n.after))
    ensures var decided := Next(From(s, StepsOfAll(n.before)), Take(CauseOf(n)));
      From(s, StepsOf(n)) == Next(From(decided, StepsOfAll(n.after)), End)
  {
    StepsAreProper(n, size, held);
    var b, t, a := StepsOfAll(n.before), [Take(CauseOf(n))], StepsOfAll(n.after);
    FromConcat(s, b, t + (a + [End]));
    FromConcat(From(s, b), t, a + [End]);
    FromOne(From(s, b), Take(CauseOf(n)));
    FromConcat(Next(From(s, b), Take(CauseOf(n))), a, [End]);
    FromOne(From(Next(From(s, b), Take(CauseOf(n))), a), End);
  }

  lemma FromNests(s: State, ns: seq<Nest>, size: nat, held: set<nat>)
    requires ns != [] && AllFit(ns, size, held)
    ensures Proper(StepsOf(ns[0])) && Proper(StepsOfAll(ns[1..])) && Proper(StepsOfAll(ns))
    ensures From(s, StepsOfAll(ns)) == From(From(s, StepsOf(ns[0])), StepsOfAll(ns[1..]))
  {
    StepsAreProper(ns[0], size, held);
    AllStepsAreProper(ns[1..], size, held);
    FromConcat(s, StepsOf(ns[0]), StepsOfAll(ns[1..]));
  }

  // ---- Memory ----

  function Written(memory: seq<U64>, stores: Stores): (m: seq<U64>)
    ensures |m| == |memory|
  {
    seq(|memory|, k requires 0 <= k < |memory| => if k in stores then stores[k] else memory[k])
  }

  /** These slots have kept their values. */
  ghost predicate Keeps(memory: seq<U64>, kept: Stores) {
    forall k :: k in kept ==> k < |memory| && memory[k] == kept[k]
  }

  function FrameAt(slot: nat, frame: seq<U64>): (m: Stores)
    requires |frame| == 32
    ensures m.Keys == Span(slot)
  {
    map k | k in Span(slot) :: frame[k - slot]
  }

  lemma WrittenKeeps(memory: seq<U64>, stores: Stores, kept: Stores)
    requires Keeps(memory, kept) && stores.Keys !! kept.Keys
    ensures Keeps(Written(memory, stores), kept)
  {
  }

  lemma FrameKeeps(memory: seq<U64>, slot: nat, frame: seq<U64>, kept: Stores)
    requires Keeps(memory, kept) && Span(slot) !! kept.Keys && |frame| == 32 && slot + 32 <= |memory|
    ensures Keeps(Stored(memory, slot, frame), kept + FrameAt(slot, frame))
    ensures (kept + FrameAt(slot, frame)).Keys == kept.Keys + Span(slot)
  {
    var m := Stored(memory, slot, frame);
    assert forall k :: slot <= k < slot + 32 ==> m[k] == m[slot..slot + 32][k - slot];
  }

  lemma KeptFrame(memory: seq<U64>, slot: nat, frame: seq<U64>, kept: Stores)
    requires |frame| == 32 && Keeps(memory, kept + FrameAt(slot, frame))
    ensures slot + 32 <= |memory| && memory[slot..slot + 32] == frame
  {
    var all := kept + FrameAt(slot, frame);
    forall i | 0 <= i < 32
      ensures slot + i < |memory| && memory[slot + i] == frame[i]
    {
      assert InFrame(slot + i, slot) && slot + i in all;
    }
    assert InFrame(slot + 31, slot) && slot + 31 in all;
  }

  lemma KeepsLess(memory: seq<U64>, slot: nat, frame: seq<U64>, kept: Stores)
    requires |frame| == 32 && Keeps(memory, kept + FrameAt(slot, frame)) && Span(slot) !! kept.Keys
    ensures Keeps(memory, kept)
  {
    var all := kept + FrameAt(slot, frame);
    assert forall k :: k in kept ==> k in all && all[k] == kept[k];
  }

  // ---- The machine ----

  /** The machine is where a run has led, with these exceptions still being handled. */
  ghost predicate At(s: State, flag: U64, output: seq<Event>, pending: seq<Action>, exit: Exit) {
    && s.flag == flag && s.output == output && s.stopped == (exit != Returned)
    && (exit == Returned ==> s.pending == pending)
  }

  /** Code runs: it has these registers, this stack pointer, and has made these stores. */
  method RunCode(cpu: Cpu, registers: seq<U64>, sp: nat, stores: Stores, ghost kept: Stores)
    requires cpu.Valid() && |registers| == 31 && sp <= 8 * cpu.memory.Length
    requires Keeps(cpu.memory[..], kept) && stores.Keys !! kept.Keys
    modifies cpu`sp, cpu.x, cpu.memory
    ensures cpu.Valid() && cpu.x[..] == registers && cpu.sp == sp && Keeps(cpu.memory[..], kept)
  {
    WrittenKeeps(cpu.memory[..], stores, kept);
    cpu.Clobber(registers, Written(cpu.memory[..], stores));
    cpu.sp := sp;
  }

  /** The vector code up to the call: the frame of the interrupted program joins the slots in use. */
  method Enter(cpu: Cpu, n: Nest, ghost kept: Stores, ghost frame: seq<U64>)
    requires cpu.Valid() && Fits(n, cpu.memory.Length, kept.Keys) && Keeps(cpu.memory[..], kept)
    requires frame == n.program + [8 * n.slot]
    modifies cpu`sp, cpu.x, cpu.memory
    ensures cpu.Valid() && Keeps(cpu.memory[..], kept + FrameAt(n.slot, frame))
    ensures (kept + FrameAt(n.slot, frame)).Keys == kept.Keys + Span(n.slot)
  {
    RunCode(cpu, n.program, 8 * n.slot + FRAME, n.made, kept);
    FrameKeeps(cpu.memory[..], n.slot, frame, kept);
    cpu.SaveFrame(n.slot);
    assert frame[..32] == frame;
  }

  /** The vector code after a call that asks to resume. */
  method Leave(cpu: Cpu, n: Nest, ghost kept: Stores, ghost frame: seq<U64>)
    requires cpu.Valid() && Fits(n, cpu.memory.Length, kept.Keys)
    requires frame == n.program + [8 * n.slot] && Keeps(cpu.memory[..], kept + FrameAt(n.slot, frame))
    modifies cpu`sp, cpu.x, cpu.memory
    ensures cpu.Valid() && Keeps(cpu.memory[..], kept)
    ensures cpu.x[..] == n.program && cpu.sp == 8 * n.slot + FRAME
  {
    ghost var all := kept + FrameAt(n.slot, frame);
    assert all.Keys == kept.Keys + Span(n.slot);
    RunCode(cpu, n.left, 8 * n.slot, n.last, all);
    KeptFrame(cpu.memory[..], n.slot, frame, kept);
    KeepsLess(cpu.memory[..], n.slot, frame, kept);
    cpu.RestoreFrame(n.slot, frame);
    assert frame[..31] == n.program;
  }

  /** Once the machine has stopped, nothing more of an exception is handled. */
  lemma StaysStopped(s: State, c: Cause, steps: seq<Step>)
    requires s.stopped && WellFormed(c) && Proper(steps)
    ensures Next(From(Next(s, Take(c)), steps), End) == s && Next(From(s, steps), End) == s
  {
    FromStopped(s, steps);
  }

  /** One exception with all those inside it: the machine follows its run, no slot in use changes, and
      if it is resumed, the interrupted program has its registers and its stack pointer. */
  method TakeNest(cpu: Cpu, h: Handler, n: Nest, ghost kept: Stores, ghost s: State) returns (exit: Exit)
    requires cpu.Valid() && Fits(n, cpu.memory.Length, kept.Keys) && Keeps(cpu.memory[..], kept)
    requires At(s, h.inProgress, h.output, s.pending, Returned)
    modifies cpu`sp, cpu.x, cpu.memory, h
    ensures cpu.Valid() && (exit == Returned ==> Keeps(cpu.memory[..], kept))
    ensures Proper(StepsOf(n)) && At(From(s, StepsOf(n)), h.inProgress, h.output, s.pending, exit)
    ensures exit == Returned ==> cpu.x[..] == n.program && cpu.sp == 8 * n.slot + FRAME
    decreases n, 1
  {
    ghost var frame := n.program + [8 * n.slot];
    FromNest(s, n, cpu.memory.Length, kept.Keys);
    ghost var s1 := From(s, StepsOfAll(n.before));
    Enter(cpu, n, kept, frame);
    exit := TakeNests(cpu, h, n.before, kept + FrameAt(n.slot, frame), s);
    if exit == Returned {
      exit := HandleNest(cpu, h, n, kept, s1);
    } else {
      StaysStopped(s1, CauseOf(n), StepsOfAll(n.after));
    }
  }

  /** The decision about an exception, and what follows. */
  method HandleNest(cpu: Cpu, h: Handler, n: Nest, ghost kept: Stores, ghost s: State) returns (exit: Exit)
    requires cpu.Valid() && Fits(n, cpu.memory.Length, kept.Keys)
    requires Keeps(cpu.memory[..], kept + FrameAt(n.slot, n.program + [8 * n.slot]))
    requires At(s, h.inProgress, h.output, s.pending, Returned)
    requires Proper(StepsOfAll(n.after))
    modifies cpu`sp, cpu.x, cpu.memory, h
    ensures cpu.Valid() && (exit == Returned ==> Keeps(cpu.memory[..], kept))
    ensures var decided := Next(s, Take(CauseOf(n)));
      At(Next(From(decided, StepsOfAll(n.after)), End), h.inProgress, h.output, s.pending, exit)
    ensures exit == Returned ==> cpu.x[..] == n.program && cpu.sp == 8 * n.slot + FRAME
    decreases n, 0
  {
    ghost var frame := n.program + [8 * n.slot];
    ghost var decided := Next(s, Take(CauseOf(n)));
    KeptFrame(cpu.memory[..], n.slot, frame, kept);
    var action := h.HandleException(cpu.memory[n.slot..n.slot + 32], n.kind, n.system, n.tick);
    if action == Halted {
      StaysStopped(decided, CauseOf(n), StepsOfAll(n.after));
      return Stopped;
    }
    exit := TakeNests(cpu, h, n.after, kept + FrameAt(n.slot, frame), decided);
    if exit != Returned {
      return;
    }
    if action == Resume {
      Leave(cpu, n, kept, frame);
    } else {
      exit := ExitOf(action);
    }
  }

  method TakeNests(cpu: Cpu, h: Handler, ns: seq<Nest>, ghost kept: Stores, ghost s: State) returns (exit: Exit)
    requires cpu.Valid() && AllFit(ns, cpu.memory.Length, kept.Keys) && Keeps(cpu.memory[..], kept)
    requires At(s, h.inProgress, h.output, s.pending, Returned)
    modifies cpu`sp, cpu.x, cpu.memory, h
    ensures cpu.Valid() && (exit == Returned ==> Keeps(cpu.memory[..], kept))
    ensures Proper(StepsOfAll(ns)) && At(From(s, StepsOfAll(ns)), h.inProgress, h.output, s.pending, exit)
    decreases ns
  {
    if ns == [] {
      return Returned;
    }
    FromNests(s, ns, cpu.memory.Length, kept.Keys);
    exit := TakeNest(cpu, h, ns[0], kept, s);
    ghost var next := From(s, StepsOf(ns[0]));
    if exit != Returned {
      FromStopped(next, StepsOfAll(ns[1..]));
      return;
    }
    exit := TakeNests(cpu, h, ns[1..], kept, next);
  }

  /** From a machine that has just started, exceptions nested in any way follow the run model, so what it
      proves of runs holds of the machine. */
  method TakeAll(cpu: Cpu, h: Handler, ns: seq<Nest>) returns (exit: Exit)
    requires cpu.Valid() && AllFit(ns, cpu.memory.Length, {})
    requires h.inProgress == 0 && h.output == []
    modifies cpu`sp, cpu.x, cpu.memory, h
    ensures Proper(StepsOfAll(ns))
    ensures At(After(StepsOfAll(ns)), h.inProgress, h.output, [], exit)
    ensures Banners(h.output) <= 1 <==> !EchoThenFatal(StepsOfAll(ns))
  {
    ghost var none: Stores := map[];
    assert none.Keys == {};
    exit := TakeNests(cpu, h, ns, none, START);
    FromStart(StepsOfAll(ns));
    BannerAtMostOnce(StepsOfAll(ns));
  }
}
