/**
 The command shell (kernel/Console/Shell.c): dispatch, the add command and the loop.
 */
module Shell {
  import opened Words
  import opened Strings
  import opened Console
  import opened Hex
  import opened Tokeniser

  const MAX_SHELL_ARGS := 10
  const COMMAND_LENGTH := 255

  const PROMPT := Ascii("> ")
  const ADD := Ascii("add")

  /** The command table, in order. */
  const COMMANDS: seq<Bytes> := [ADD, Ascii("help"), Ascii("info"), Ascii("memread"), Ascii("panic"),
                                 Ascii("reboot"), Ascii("trapsvc"), Ascii("uptime")]

  const USAGE := Ascii("Usage: add 0x1234 0xdbca\n")
  const FAILED := Ascii("Error: an error occurred in the command ")
  const NEWLINE := Ascii("\n")
  const UNKNOWN := Ascii("Error: the command ")
  const UNRECOGNIZED := Ascii(" could not be recognized. ") + Ascii("Type help for a list of commands.\n")

  /** What a command does: its output, its result, and whether it returns at all. */
  datatype Reply = Reply(output: Bytes, result: int, resumes: bool)

  /** The handlers other than add, by place in the table, arguments and moment. */
  type Handlers = (nat, seq<Bytes>, nat) -> Reply

  // ---- What a line does ----

  /** The first command of a name, or the number of commands when there is none. */
  function CommandIndex(name: Bytes, from: nat): (i: nat)
    requires from <= |COMMANDS|
    ensures from <= i <= |COMMANDS|
    ensures i < |COMMANDS| ==> COMMANDS[i] == name
    ensures forall j :: from <= j < i ==> COMMANDS[j] != name
    decreases |COMMANDS| - from
  {
    if from == |COMMANDS| || COMMANDS[from] == name then from else CommandIndex(name, from + 1)
  }

  /** The sum in a 64-bit register. */
  function Sum(x: nat, y: nat): U64 {
    (x + y) % TWO_64
  }

  function AddReply(args: seq<Bytes>): Reply {
    if |args| != 3 then Reply(Wire(USAGE), 1, true)
    else Reply(Hex64(Sum(ParsedHex(args[1]), ParsedHex(args[2]))) + [CR, LF], 0, true)
  }

  function HandlerReply(others: Handlers, index: nat, args: seq<Bytes>, moment: nat): Reply {
    if index == 0 then AddReply(args) else others(index, args, moment)
  }

  /** After a command that failed, an error message follows. */
  function WithError(name: Bytes, r: Reply): Reply {
    if r.resumes && r.result != 0 then
      r.(output := r.output + (Wire(FAILED) + Wire(name) + Wire(NEWLINE)))
    else r
  }

  function Arguments(line: Bytes): (args: seq<Bytes>)
    ensures 0 < |args| <= MAX_SHELL_ARGS && args <= TokensOf(line)
  {
    TokensOf(line)[..Min(|TokensOf(line)|, MAX_SHELL_ARGS)]
  }

  function Resolved(args: seq<Bytes>, others: Handlers, moment: nat): Reply
    requires args != []
  {
    var i := CommandIndex(args[0], 0);
    if i == |COMMANDS| then Reply(Wire(UNKNOWN) + Wire(args[0]) + Wire(UNRECOGNIZED), 0, true)
    else WithError(args[0], HandlerReply(others, i, args, moment))
  }

  /** What dispatching a line does. */
  function Dispatched(line: Bytes, others: Handlers, moment: nat): Reply {
    if line == [] then Reply([], 0, true) else Resolved(Arguments(line), others, moment)
  }

  // ---- End to end ----

  lemma SpellingIsAWord(s: Bytes, v: U64)
    requires Spells(s, v)
    ensures s != [] && NoBlank(s)
  {
    var prefix, digits, ds :| SpellsWith(s, prefix, digits, ds, v);
    DigitsAreWorth(digits, ds);
    forall k | 0 <= k < |s|
      ensures !IsBlank(s[k])
    {
      if k >= |prefix| {
        assert s[k] == digits[k - |prefix|];
      }
    }
  }

  /** A line that asks for the sum of two spelled numbers, with any blanks between and after. */
  ghost predicate AsksForSum(line: Bytes, x: U64, y: U64) {
    exists w1: Bytes, sx: Bytes, w2: Bytes, sy: Bytes, w3: Bytes :: AddLine(line, w1, sx, w2, sy, w3, x, y)
  }

  ghost predicate AddLine(line: Bytes, w1: Bytes, sx: Bytes, w2: Bytes, sy: Bytes, w3: Bytes, x: U64, y: U64) {
    && line == ADD + w1 + sx + w2 + sy + w3
    && w1 != [] && w2 != [] && AllBlank(w1) && AllBlank(w2) && AllBlank(w3)
    && Spells(sx, x) && Spells(sy, y)
  }

  lemma AddLineTokens(line: Bytes, w1: Bytes, sx: Bytes, w2: Bytes, sy: Bytes, w3: Bytes, x: U64, y: U64)
    requires AddLine(line, w1, sx, w2, sy, w3, x, y)
    ensures TokensOf(line) == [ADD, sx, sy]
  {
    SpellingIsAWord(sx, x);
    SpellingIsAWord(sy, y);
    ThreeTokens(ADD, w1, sx, w2, sy, w3);
  }

  lemma ThreeTokens(first: Bytes, w1: Bytes, s1: Bytes, w2: Bytes, s2: Bytes, w3: Bytes)
    requires w1 != [] && w2 != [] && AllBlank(w1) && AllBlank(w2) && AllBlank(w3)
    requires NoBlank(first) && s1 != [] && NoBlank(s1) && s2 != [] && NoBlank(s2)
    ensures TokensOf(first + w1 + s1 + w2 + s2 + w3) == [first, s1, s2]
  {
    SpacedPair(w1, s1, w2, s2);
    SpacedThenTokens(first, [w1, w2], [s1, s2], w3);
    assert first + w1 + s1 + w2 + s2 + w3 == first + (Spaced([w1, w2], [s1, s2]) + w3);
  }

  lemma SpacedPair(w1: Bytes, s1: Bytes, w2: Bytes, s2: Bytes)
    ensures Spaced([w1, w2], [s1, s2]) == w1 + s1 + w2 + s2
  {
    assert [w1, w2][1..] == [w2] && [s1, s2][1..] == [s2];
    assert Spaced([w2], [s2]) == w2 + s2 by { assert [w2][1..] == [] && [s2][1..] == []; }
  }

  lemma AddIsFirst(line: Bytes, sx: Bytes, sy: Bytes, others: Handlers, moment: nat)
    requires line != [] && TokensOf(line) == [ADD, sx, sy]
    ensures Dispatched(line, others, moment) == AddReply([ADD, sx, sy])
  {
    assert Arguments(line) == [ADD, sx, sy] && COMMANDS[0] == ADD;
  }

  lemma SumOfArguments(args: seq<Bytes>, x: U64, y: U64)
    requires |args| == 3 && ParsedHex(args[1]) == x && ParsedHex(args[2]) == y
    ensures AddReply(args) == Reply(Hex64((x + y) % TWO_64) + [CR, LF], 0, true)
  {
  }

  lemma SumOfSpellings(sx: Bytes, sy: Bytes, x: U64, y: U64)
    requires Spells(sx, x) && Spells(sy, y)
    ensures AddReply([ADD, sx, sy]) == Reply(Hex64((x + y) % TWO_64) + [CR, LF], 0, true)
  {
    SpellingParses(sx, x);
    SpellingParses(sy, y);
    SumOfArguments([ADD, sx, sy], x, y);
  }

  /** `add x y` prints the sixteen digits of x + y modulo 2^64, a line end, and nothing else. */
  lemma AddPrintsSum(line: Bytes, x: U64, y: U64, others: Handlers, moment: nat)
    requires AsksForSum(line, x, y)
    ensures Dispatched(line, others, moment) == Reply(Hex64((x + y) % TWO_64) + [CR, LF], 0, true)
  {
    var w1, sx, w2, sy, w3 :| AddLine(line, w1, sx, w2, sy, w3, x, y);
    AddLineTokens(line, w1, sx, w2, sy, w3, x, y);
    AddIsFirst(line, sx, sy, others, moment);
    SumOfSpellings(sx, sy, x, y);
  }

  /** A line that starts with a blank never runs a command: its first token is the empty one. */
  lemma LeadingBlankIsUnknown(line: Bytes, others: Handlers, moment: nat)
    requires line != [] && IsBlank(line[0])
    ensures Dispatched(line, others, moment) == Reply(Wire(UNKNOWN) + Wire(UNRECOGNIZED), 0, true)
  {
    assert Arguments(line)[0] == [] && Wire([]) == [];
    assert Wire(UNKNOWN) + [] == Wire(UNKNOWN);
    var i := CommandIndex([], 0);
    assert i < |COMMANDS| ==> |COMMANDS[i]| == 0;
  }

  lemma NamesDistinct(i: nat, j: nat)
    requires i < |COMMANDS| && j < |COMMANDS| && i != j
    ensures COMMANDS[i] != COMMANDS[j]
  {
    assert forall k :: 0 <= k < 8 ==> COMMANDS[k] != [];
    assert COMMANDS[1][0] == 0x68 && COMMANDS[2][0] == 0x69;
    assert COMMANDS[3][0] == 0x6D && COMMANDS[6][0] == 0x74;
    assert COMMANDS[5][0] == 0x72 && COMMANDS[7][0] == 0x75;
    assert |COMMANDS[0]| == 3 && |COMMANDS[4]| == 5;
  }

  /** A line whose first word is a command's name runs that command exactly when it does not start with
      a blank. */
  lemma FirstWordRuns(line: Bytes, i: nat)
    requires i < |COMMANDS| && RunsIn(line) != [] && RunsIn(line)[0] == COMMANDS[i]
    ensures CommandIndex(Arguments(line)[0], 0) == i <==> !IsBlank(line[0])
  {
    var found := CommandIndex(Arguments(line)[0], 0);
    if IsBlank(line[0]) {
      assert Arguments(line)[0] == [] && |COMMANDS[i]| > 0;
    } else {
      assert Arguments(line)[0] == COMMANDS[i];
      if found != i {
        NamesDistinct(found, i);
      }
    }
  }

  /** A line whose first word is a command's name, and that runs no command. */
  lemma NamedButNotRun(others: Handlers, moment: nat) returns (line: Bytes)
    ensures RunsIn(line) != [] && RunsIn(line)[0] == COMMANDS[0] && CommandIndex(Arguments(line)[0], 0) != 0
    ensures Dispatched(line, others, moment) == Reply(Wire(UNKNOWN) + Wire(UNRECOGNIZED), 0, true)
  {
    line := [SPACE] + ADD;
    BlanksSkipped([SPACE], ADD);
    WordSplit(ADD, []);
    assert ADD + [] == ADD && NoBlank(ADD);
    FirstWordRuns(line, 0);
    LeadingBlankIsUnknown(line, others, moment);
  }

  // ---- The source's operations ----

  /** console_print of a string literal. */
  method PrintLiteral(t: Terminal, text: Bytes)
    requires NulFree(text)
    modifies t`output
    ensures t.output == old(t.output) + Wire(text)
  {
    CStringOfLiteral(text, []);
    assert text + [0] + [] == Literal(text);
    t.Print(Literal(text));
  }

  /** add_handler. The arguments point into the tokenised command. */
  method AddHandler(t: Terminal, memory: Bytes, argv: seq<nat>, ghost args: seq<Bytes>) returns (result: int)
    requires ReadsAs(memory, argv, args) && |argv| == |args|
    modifies t`output
    ensures t.output == old(t.output) + AddReply(args).output && result == AddReply(args).result
  {
    if |argv| != 3 {
      PrintLiteral(t, USAGE);
      return 1;
    }
    var a := Uint64FromHex(memory[argv[1]..]);
    var b := Uint64FromHex(memory[argv[2]..]);
    PrintSum(t, a, b);
    return 0;
  }

  /** Lines 123 to 125. */
  method PrintSum(t: Terminal, a: U64, b: U64)
    modifies t`output
    ensures t.output == old(t.output) + (Hex64(Sum(a, b)) + [CR, LF])
  {
    var result: U64 := (a + b) % TWO_64;
    VariablePrintsAsValue(result, t.bigEndian);
    PrintHexValue(t, InMemory(result, t.bigEndian), 8);
    PrintLiteral(t, NEWLINE);
    NewlineOnWire();
    Assoc(old(t.output), Hex64(result), [CR, LF]);
  }

  lemma NewlineOnWire()
    ensures Wire(NEWLINE) == [CR, LF]
  {
    assert NEWLINE == [LF];
    assert [LF][1..] == [];
  }

  /** The strings that pointers denote. */
  function StringsAt(memory: Bytes, argv: seq<nat>): (args: seq<Bytes>)
    requires forall k :: 0 <= k < |argv| ==> argv[k] <= |memory|
    ensures |args| == |argv| && forall k :: 0 <= k < |argv| ==> args[k] == CString(memory[argv[k]..])
  {
    if argv == [] then [] else [CString(memory[argv[0]..])] + StringsAt(memory, argv[1..])
  }

  method RunHandler(t: Terminal, others: Handlers, index: nat, memory: Bytes, argv: seq<nat>, moment: nat,
                    ghost args: seq<Bytes>) returns (result: int, resumes: bool)
    requires ReadsAs(memory, argv, args) && |argv| == |args|
    modifies t`output
    ensures var r := HandlerReply(others, index, args, moment);
      t.output == old(t.output) + r.output && result == r.result && resumes == r.resumes
  {
    if index == 0 {
      result := AddHandler(t, memory, argv, args);
      resumes := true;
    } else {
      var strings := StringsAt(memory, argv);
      assert strings == args;
      var r := others(index, strings, moment);
      t.output := t.output + r.output;
      result, resumes := r.result, r.resumes;
    }
  }

  /** The loop of dispatch_command. */
  method Resolve(t: Terminal, others: Handlers, memory: Bytes, argv: seq<nat>, moment: nat, ghost args: seq<Bytes>)
    returns (resumes: bool)
    requires ReadsAs(memory, argv, args) && |argv| == |args| > 0
    modifies t`output
    ensures var r := Resolved(args, others, moment); t.output == old(t.output) + r.output && resumes == r.resumes
  {
    var name := memory[argv[0]..];
    for i := 0 to |COMMANDS|
      invariant t.output == old(t.output)
      invariant CommandIndex(args[0], 0) == CommandIndex(args[0], i)
    {
      var same := CompareToName(name, COMMANDS[i]);
      if same {
        var result;
        result, resumes := RunHandler(t, others, i, memory, argv, moment, args);
        if resumes && result != 0 {
          PrintAround(t, FAILED, name, NEWLINE);
          Assoc(old(t.output), HandlerReply(others, i, args, moment).output,
                Wire(FAILED) + Wire(args[0]) + Wire(NEWLINE));
        }
        return;
      }
    }
    PrintAround(t, UNKNOWN, name, UNRECOGNIZED);
    resumes := true;
  }

  /** A message about a name. */
  method PrintAround(t: Terminal, start: Bytes, name: Bytes, end: Bytes)
    requires NulFree(start) && Terminated(name) && NulFree(end)
    modifies t`output
    ensures t.output == old(t.output) + (Wire(start) + Wire(CString(name)) + Wire(end))
  {
    PrintLiteral(t, start);
    t.Print(name);
    PrintLiteral(t, end);
    Regrouped(old(t.output), Wire(start), Wire(CString(name)), Wire(end));
  }

  lemma Regrouped(before: Bytes, a: Bytes, b: Bytes, c: Bytes)
    ensures before + a + b + c == before + (a + b + c)
  {
  }

  /** string_compare against a name of the table. */
  method CompareToName(text: Bytes, name: Bytes) returns (same: bool)
    requires Terminated(text) && NulFree(name)
    ensures same <==> name == CString(text)
  {
    CStringOfLiteral(name, []);
    assert name + [0] + [] == Literal(name);
    same := StringCompare(text, Literal(name));
  }

  /** dispatch_command; `resumes` is false when the command never returns. */
  method DispatchCommand(t: Terminal, command: array<Byte>, others: Handlers, moment: nat) returns (resumes: bool)
    requires Terminated(command[..])
    modifies t`output, command
    ensures var d := Dispatched(CString(old(command[..])), others, moment);
      t.output == old(t.output) + d.output && resumes == d.resumes
  {
    ghost var line := CString(command[..]);
    var tokens := new nat[MAX_SHELL_ARGS];
    var argc := TokenizeCommand(command, tokens, MAX_SHELL_ARGS);
    if argc == 0 {
      // Empty command.
      return true;
    }
    assert ReadsAs(command[..], tokens[..argc], Arguments(line));
    resumes := Resolve(t, others, command[..], tokens[..argc], moment, Arguments(line));
  }
}
