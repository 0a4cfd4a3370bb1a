/**
 Entering and leaving an exception (the EXCEPTION_HANDLER macro of arch/arm64/ExceptionVectors.s).
 Memory is an array of doublewords: the doubleword at address a has index a / 8.
 */
module ExceptionEntry {
  import opened Words
  import opened Exceptions
  import opened ExceptionRuns

  const FRAME := 256

  /** How the vector code ends. */
  datatype Exit = Returned | Rebooted | Stopped

  function ExitOf(a: Action): Exit {
    if a == Resume then Returned else if a == Restart then Rebooted else Stopped
  }

  /** Memory in which doublewords were stored one after another. */
  function Stored(memory: seq<U64>, at: nat, values: seq<U64>): (m: seq<U64>)
    requires at + |values| <= |memory|
    ensures |m| == |memory| && m[at..at + |values|] == values
    ensures forall k :: 0 <= k < |m| ==> k < at || k >= at + |values| ==> m[k] == memory[k]
  {
    memory[..at] + values + memory[at + |values|..]
  }

  lemma StoredPair(memory: seq<U64>, at: nat, values: seq<U64>, n: nat)
    requires n + 2 <= |values| && at + |values| <= |memory|
    ensures Stored(memory, at, values[..n])[at + n := values[n]][at + n + 1 := values[n + 1]]
         == Stored(memory, at, values[..n + 2])
  {
    assert values[..n + 2] == values[..n] + [values[n], values[n + 1]];
  }

  /** The registers and the stack pointer of a program. */
  datatype Core = Core(x: seq<U64>, sp: nat)

  /** An exception that arrives: the registers and memory of the interrupted program, whose stack
      pointer is 256 above the address of `slot`, then what the compiled handler leaves behind. */
  datatype Arrival = Arrival(kind: U64, system: System, tick: bool, program: seq<U64>, memory: seq<U64>, slot: nat,
                             registers: seq<U64>, contents: seq<U64>)
  {
    predicate Fits(size: nat) {
      && |program| == 31 && |registers| == 31
      && |memory| == size && |contents| == size && slot + 32 <= size
    }

    /** The cause that the handler sees. */
    predicate Causes(c: Cause) {
      && c.kind == kind && c.system == system && c.tick == tick
      && |c.saved| == 32 && c.saved[..31] == program && c.saved[31] == 8 * slot
    }

    function StackPointer(): nat {
      8 * slot + FRAME
    }

    /** The handler left the saved registers as they were. */
    predicate KeepsFrame() {
      slot + 31 <= |contents| && contents[slot..slot + 31] == program
    }

    /** How the program is resumed. */
    predicate Resumes(c: Core) {
      slot + 31 <= |contents| && c == Core(contents[slot..slot + 31], StackPointer())
    }
  }

  /** The general registers and the stack pointer of a core, and its memory. */
  class Cpu {
    const x: array<U64>
    const memory: array<U64>
    var sp: nat

    constructor (x: array<U64>, memory: array<U64>, sp: nat)
      requires x.Length == 31 && x != memory && sp <= 8 * memory.Length <= TWO_64
      ensures Valid() && this.x == x && this.memory == memory && this.sp == sp
    {
      this.x, this.memory, this.sp := x, memory, sp;
    }

    ghost predicate Valid()
      reads this
    {
      x.Length == 31 && x != memory && sp <= 8 * memory.Length <= TWO_64
    }

    /** The first n doublewords of a frame have been stored at the stack pointer. */
    ghost predicate Filled(before: seq<U64>, at: nat, frame: seq<U64>, n: nat)
      reads this, memory
    {
      && n <= |frame| == 32 && |before| == memory.Length && sp == 8 * at && at + 32 <= memory.Length
      && memory[..] == Stored(before, at, frame[..n])
    }

    /** The first n registers have been loaded from a frame. */
    ghost predicate Loaded(frame: seq<U64>, n: nat)
      reads this, x
    {
      n <= x.Length == 31 && x != memory && |frame| == 32 && x[..n] == frame[..n]
    }

    ghost predicate FrameIs(at: nat, frame: seq<U64>)
      reads this, memory
    {
      |frame| == 32 && sp == 8 * at && at + 32 <= memory.Length && memory[at..at + 32] == frame
    }

    method Put(address: nat, value: U64, ghost slot: nat)
      requires address == 8 * slot && slot < memory.Length
      modifies memory
      ensures memory[..] == old(memory[..])[slot := value]
    {
      memory[address / 8] := value;
    }

    method Get(address: nat, ghost slot: nat) returns (value: U64)
      requires address == 8 * slot && slot < memory.Length
      ensures value == memory[slot]
    {
      value := memory[address / 8];
    }

    /** stp xi, xj, [sp, #offset], the next pair of a frame. */
    method StorePair(i: nat, j: nat, offset: nat, ghost before: seq<U64>, ghost at: nat, ghost frame: seq<U64>)
      requires j == i + 1 < 31 && offset == 8 * i
      requires Filled(before, at, frame, i) && Loaded(frame, 31)
      modifies memory
      ensures Filled(before, at, frame, j + 1)
    {
      assert x[i] == frame[..31][i] && x[j] == frame[..31][j];
      Put(sp + offset, x[i], at + i);
      Put(sp + offset + 8, x[j], at + j);
      StoredPair(before, at, frame, i);
    }

    /** ldp xi, xj, [sp, #offset], the next pair of a frame. */
    method LoadPair(i: nat, j: nat, offset: nat, ghost at: nat, ghost frame: seq<U64>)
      requires j == i + 1 < 31 && offset == 8 * i
      requires FrameIs(at, frame) && Loaded(frame, i)
      modifies x
      ensures Loaded(frame, j + 1)
    {
      assert memory[at + i] == frame[i] && memory[at + j] == frame[j];
      x[i] := Get(sp + offset, at + i);
      x[j] := Get(sp + offset + 8, at + j);
      assert frame[..j + 1] == frame[..i] + [frame[i], frame[j]];
      assert x[..j + 1] == x[..i] + [x[i], x[j]];
    }

    /** Lines 99 to 117. Slot 31 gets the stack pointer after it was lowered. */
    method SaveFrame(ghost at: nat)
      requires Valid() && sp == 8 * at + FRAME
      modifies this`sp, x, memory
      ensures Valid() && sp == old(sp) - 256
      ensures Filled(old(memory[..]), at, old(x[..]) + [sp], 32)
    {
      sp := sp - FRAME;
      assert Valid();
      ghost var frame := x[..] + [sp];
      SaveRegisters(memory[..], at, frame);
      assert x[30] == frame[30];
      x[9] := sp;
      StoreLast(old(memory[..]), at, frame);
    }

    /** Lines 100 to 114. */
    method SaveRegisters(ghost before: seq<U64>, ghost at: nat, ghost frame: seq<U64>)
      requires Filled(before, at, frame, 0) && Loaded(frame, 31)
      modifies memory
      ensures Filled(before, at, frame, 30)
    {
      StorePair(0, 1, 0, before, at, frame);
      StorePair(2, 3, 16, before, at, frame);
      StorePair(4, 5, 32, before, at, frame);
      StorePair(6, 7, 48, before, at, frame);
      StorePair(8, 9, 64, before, at, frame);
      StorePair(10, 11, 80, before, at, frame);
      StorePair(12, 13, 96, before, at, frame);
      StorePair(14, 15, 112, before, at, frame);
      StorePair(16, 17, 128, before, at, frame);
      StorePair(18, 19, 144, before, at, frame);
      StorePair(20, 21, 160, before, at, frame);
      StorePair(22, 23, 176, before, at, frame);
      StorePair(24, 25, 192, before, at, frame);
      StorePair(26, 27, 208, before, at, frame);
      StorePair(28, 29, 224, before, at, frame);
    }

    /** Line 117: the link register, and x9, which holds the stack pointer by now. */
    method StoreLast(ghost before: seq<U64>, ghost at: nat, ghost frame: seq<U64>)
      requires x.Length == 31 && Filled(before, at, frame, 30) && frame[30] == x[30] && frame[31] == x[9]
      modifies memory
      ensures Filled(before, at, frame, 32)
    {
      var link, lowered := x[30], x[9];
      Put(sp + 240, link, at + 30);
      Put(sp + 248, lowered, at + 31);
      StoredPair(before, at, frame, 30);
    }

    /** Lines 149 to 165. */
    method RestoreFrame(ghost at: nat, ghost frame: seq<U64>)
      requires Valid() && FrameIs(at, frame)
      modifies this`sp, x
      ensures Valid() && sp == old(sp) + 256 && x[..] == frame[..31]
    {
      assert Loaded(frame, 0);
      LoadPair(0, 1, 0, at, frame);
      LoadPair(2, 3, 16, at, frame);
      LoadPair(4, 5, 32, at, frame);
      LoadPair(6, 7, 48, at, frame);
      LoadPair(8, 9, 64, at, frame);
      LoadPair(10, 11, 80, at, frame);
      LoadPair(12, 13, 96, at, frame);
      LoadPair(14, 15, 112, at, frame);
      LoadPair(16, 17, 128, at, frame);
      LoadPair(18, 19, 144, at, frame);
      LoadPair(20, 21, 160, at, frame);
      LoadPair(22, 23, 176, at, frame);
      LoadPair(24, 25, 192, at, frame);
      LoadPair(26, 27, 208, at, frame);
      LoadPair(28, 29, 224, at, frame);
      LoadLink(at, frame);
      sp := sp + FRAME;
    }

    /** Line 164. */
    method LoadLink(ghost at: nat, ghost frame: seq<U64>)
      requires FrameIs(at, frame) && Loaded(frame, 30)
      modifies x
      ensures x[..] == frame[..31]
    {
      assert memory[at + 30] == frame[30];
      x[30] := Get(sp + 240, at + 30);
      assert frame[..31] == frame[..30] + [frame[30]] && x[..] == x[..30] + [x[30]];
    }

    /** Whatever compiled code leaves in the registers and in memory. */
    method Clobber(registers: seq<U64>, contents: seq<U64>)
      requires Valid() && |registers| == 31 && |contents| == memory.Length
      modifies x, memory
      ensures x[..] == registers && memory[..] == contents
    {
      forall k | 0 <= k < 31 {
        x[k] := registers[k];
      }
      forall k | 0 <= k < memory.Length {
        memory[k] := contents[k];
      }
    }

    /** The saved registers, as the handler's array. */
    method FrameArray(ghost at: nat, ghost frame: seq<U64>) returns (saved: seq<U64>)
      requires FrameIs(at, frame)
      ensures saved == frame
    {
      saved := memory[sp / 8..sp / 8 + 32];
    }

    /** Lines 122 to 129: the handler sees the frame. */
    method CallHandler(h: Handler, kind: U64, system: System, tick: bool, ghost at: nat, ghost c: Cause)
      returns (action: Action)
      requires FrameIs(at, c.saved) && c.kind == kind && c.system == system && c.tick == tick
      modifies h
      ensures var d := Decide(old(h.inProgress), c);
        h.inProgress == d.flag && h.output == old(h.output) + d.output && action == d.action
    {
      var saved := FrameArray(at, c.saved);
      action := h.HandleException(saved, kind, system, tick);
    }

    /** One exception, from the vector to its end. `registers` and `contents` are what the compiled
        handler leaves behind, `at` is the slot of the frame, and c what the handler sees. */
    method TakeException(h: Handler, kind: U64, system: System, tick: bool, registers: seq<U64>, contents: seq<U64>,
                         ghost at: nat, ghost c: Cause)
      returns (exit: Exit)
      requires Valid() && sp == 8 * at + FRAME && |registers| == 31 && |contents| == memory.Length
      requires c == Cause(kind, system, x[..] + [sp - FRAME], tick)
      modifies this`sp, x, memory, h
      ensures Valid()
      ensures Visited(State(old(h.inProgress), old(h.output), [], false), c, h.inProgress, h.output, exit)
      ensures Leaves(kind, system.esr, tick, old(x[8]), exit)
      ensures exit == Returned ==> sp == old(sp) && x[..] == contents[at..at + 31] && memory[..] == contents
      ensures exit == Returned && contents[at..at + 31] == old(x[..]) ==> x[..] == old(x[..])
    {
      SaveFrame(at);
      ghost var frame := old(x[..]) + [sp];
      SavedFrame(old(memory[..]), at, frame);
      var action := CallHandler(h, kind, system, tick, at, c);
      VisitDecides(old(h.inProgress), old(h.output), c);
      DecisionLeaves(old(h.inProgress), c);
      Clobber(registers, contents);
      if action == Resume {
        RestoreFrame(at, contents[at..at + 32]);
        exit := Returned;
      } else if action == Restart {
        exit := Rebooted;
      } else {
        exit := Stopped;
      }
    }

    /** The interrupted program runs up to the exception, which is then taken. */
    method TakeArrival(h: Handler, a: Arrival) returns (exit: Exit, ghost c: Cause)
      requires Valid() && a.Fits(memory.Length)
      modifies this`sp, x, memory, h
      ensures Valid() && a.Causes(c)
      ensures Visited(State(old(h.inProgress), old(h.output), [], false), c, h.inProgress, h.output, exit)
      ensures exit == Returned ==> sp == a.StackPointer() && x[..] == a.contents[a.slot..a.slot + 31]
    {
      Clobber(a.program, a.memory);
      sp := 8 * a.slot + FRAME;
      c := Cause(a.kind, a.system, x[..] + [sp - FRAME], a.tick);
      CauseOfArrival(a, c, 8 * a.slot);
      exit := TakeException(h, a.kind, a.system, a.tick, a.registers, a.contents, a.slot, c);
    }

    method TakeNext(h: Handler, a: Arrival, ghost causes: seq<Cause>) returns (exit: Exit, ghost causes': seq<Cause>)
      requires Valid() && a.Fits(memory.Length)
      requires Follows(causes, h.inProgress, h.output, Returned)
      modifies this`sp, x, memory, h
      ensures Valid()
      ensures |causes'| == |causes| + 1 && causes'[..|causes|] == causes && a.Causes(causes'[|causes|])
      ensures Follows(causes', h.inProgress, h.output, exit)
      ensures exit == Returned ==> sp == a.StackPointer() && x[..] == a.contents[a.slot..a.slot + 31]
    {
      ghost var c;
      exit, c := TakeArrival(h, a);
      OneMoreVisit(causes, c, old(h.inProgress), old(h.output), h.inProgress, h.output, exit);
      causes' := causes + [c];
    }

    /** Exceptions without nesting, from a machine that has just started: it follows the run of the
        causes that were taken, and stops only at one that is not resumed. `after` lists the programs as
        they were resumed: with their own stack pointers, with the registers that the handler left in
        the frame, and so with their own registers if it left the frame alone. */
    method TakeInTurn(h: Handler, arrivals: seq<Arrival>)
      returns (exit: Exit, after: seq<Core>, ghost causes: seq<Cause>)
      requires Valid() && h.inProgress == 0 && h.output == []
      requires forall k :: 0 <= k < |arrivals| ==> arrivals[k].Fits(memory.Length)
      modifies this`sp, x, memory, h
      ensures Valid()
      ensures Follows(causes, h.inProgress, h.output, exit)
      ensures Proper(OneByOne(causes)) && After(OneByOne(causes)).output == h.output
      ensures if exit == Returned then |after| == |causes| == |arrivals| else |after| + 1 == |causes| <= |arrivals|
      ensures forall k :: 0 <= k < |causes| ==> arrivals[k].Causes(causes[k])
      ensures forall k :: 0 <= k < |after| ==> arrivals[k].Resumes(after[k])
      ensures forall k :: 0 <= k < |after| ==>
        arrivals[k].KeepsFrame() ==> after[k] == Core(arrivals[k].program, arrivals[k].StackPointer())
    {
      exit, after, causes := Returned, [], [];
      var i := 0;
      while i < |arrivals| && exit == Returned
        invariant i == |causes| <= |arrivals| && |causes| == |after| + (if exit == Returned then 0 else 1)
        invariant Valid() && Follows(causes, h.inProgress, h.output, exit)
        invariant forall k :: 0 <= k < |causes| ==> arrivals[k].Causes(causes[k])
        invariant forall k :: 0 <= k < |after| ==> arrivals[k].Resumes(after[k])
        decreases |arrivals| - i
      {
        assert arrivals[i].Fits(memory.Length);
        exit, causes := TakeNext(h, arrivals[i], causes);
        if exit == Returned {
          after := after + [Core(x[..], sp)];
        }
        i := i + 1;
      }
    }

    lemma SavedFrame(before: seq<U64>, at: nat, frame: seq<U64>)
      requires Filled(before, at, frame, 32)
      ensures FrameIs(at, frame)
    {
      assert frame[..32] == frame;
      assert memory[at..at + 32] == memory[..][at..at + 32];
    }
  }

  /** An exception returns exactly when it is a tick of the timer or a call other than 0x4444 and 0x7777, and
      reboots exactly when it is the call 0x4444; otherwise the machine stops. `number` is x8. */
  ghost predicate Leaves(kind: U64, esr: U64, tick: bool, number: U64, exit: Exit) {
    var call := kind in {0, 4, 8, 12} && esr / 0x400_0000 % 0x40 == 0x15;
    && (exit == Returned <==> (kind == 5 && tick) || (call && number != 0x4444 && number != 0x7777))
    && (exit == Rebooted <==> call && number == 0x4444)
  }

  lemma DecisionLeaves(flag: U64, c: Cause)
    requires WellFormed(c)
    ensures Leaves(c.kind, c.system.esr, c.tick, c.saved[8], ExitOf(Decide(flag, c).action))
  {
  }

  /** An exception was handled to its end, as in a run. */
  ghost predicate Visited(before: State, c: Cause, flag: U64, output: seq<Event>, exit: Exit) {
    && WellFormed(c)
    && Visit(before, c) == State(flag, output, [], exit != Returned)
    && exit == ExitOf(Decide(before.flag, c).action)
  }

  lemma CauseOfArrival(a: Arrival, c: Cause, frame: U64)
    requires |a.program| == 31 && frame == 8 * a.slot && c == Cause(a.kind, a.system, a.program + [frame], a.tick)
    ensures a.Causes(c)
  {
  }

  /** The machine is where the run of these causes leads. */
  ghost predicate Follows(causes: seq<Cause>, flag: U64, output: seq<Event>, exit: Exit) {
    var run := OneByOne(causes);
    Proper(run) && After(run) == State(flag, output, [], exit != Returned)
  }

  lemma OneMoreVisit(causes: seq<Cause>, c: Cause, flag: U64, output: seq<Event>, flag': U64, output': seq<Event>,
                     exit: Exit)
    requires Follows(causes, flag, output, Returned)
    requires Visited(State(flag, output, [], false), c, flag', output', exit)
    ensures Follows(causes + [c], flag', output', exit)
  {
    assert (causes + [c])[..|causes|] == causes;
    AfterVisit(OneByOne(causes), c);
  }

  lemma VisitDecides(flag: U64, output: seq<Event>, c: Cause)
    requires WellFormed(c)
    ensures var d := Decide(flag, c);
      Visit(State(flag, output, [], false), c) == State(d.flag, output + d.output, [], d.action != Resume)
  {
    var d := Decide(flag, c);
    assert [] + [d.action] == [d.action] && [d.action][..0] == [];
    assert d.output == [] ==> output + d.output == output;
  }
}
