/**
 The shell's loop (run_shell_loop in kernel/Console/Shell.c): whole sessions over a finite input.
 */
module ShellSession {
  import opened Words
  import opened Strings
  import opened Console
  import opened Hex
  import opened Shell

  /** What the buffer holds as a string after a line was read. */
  function Command(l: Line): Bytes {
    CString(l.text + [0])
  }

  /** The output of the loop from a read onwards, over the rest of the input. */
  function Session(input: Bytes, others: Handlers, moment: nat): Bytes
    decreases |input|
  {
    var l := TakeLine(COMMAND_LENGTH, [], input);
    if l.ending == Waiting || l.consumed == 0 then l.echoed
    else l.echoed + After(Dispatched(Command(l), others, moment), Session(input[l.consumed..], others, moment + 1))
  }

  /** A command's output, then the prompt and what follows it, if the command returns. */
  function After(d: Reply, following: Bytes): Bytes {
    if d.resumes then d.output + (Wire(PROMPT) + following) else d.output
  }

  // ---- Sessions are made of segments ----

  /** The output for a list of segments, each read and dispatched on its own. */
  function Transcript(segments: seq<Bytes>, last: Bytes, others: Handlers, moment: nat): Bytes
    decreases |segments|
  {
    if segments == [] then last
    else
      var l := TakeLine(COMMAND_LENGTH, [], segments[0]);
      l.echoed + After(Dispatched(Command(l), others, moment), Transcript(segments[1..], last, others, moment + 1))
  }

  /** Reading a line never depends on what comes after it. */
  lemma {:induction false} LineIsLocal(size: nat, held: Bytes, input: Bytes)
    requires TakeLine(size, held, input).ending != Waiting
    ensures var l := TakeLine(size, held, input); TakeLine(size, held, input[..l.consumed]) == l
    decreases |input|
  {
    var l := TakeLine(size, held, input);
    if |held| + 1 < size && !Ends(input[0]) {
      LineIsLocal(size, Press(held, input[0]), input[1..]);
      assert input[..l.consumed][1..] == input[1..][..l.consumed - 1];
    }
  }

  /** The output over an input is that of these segments, then the echo of the unfinished line. */
  ghost predicate Recorded(segments: seq<Bytes>, input: Bytes, others: Handlers, moment: nat) {
    && Joined(segments) <= input
    && Session(input, others, moment)
       == Transcript(segments, TakeLine(COMMAND_LENGTH, [], input[|Joined(segments)|..]).echoed, others, moment)
  }

  lemma RecordedCons(first: Bytes, segments: seq<Bytes>, rest: Bytes, l: Line, others: Handlers, moment: nat)
    requires Recorded(segments, rest, others, moment + 1)
    requires l == TakeLine(COMMAND_LENGTH, [], first) == TakeLine(COMMAND_LENGTH, [], first + rest)
    requires l.ending != Waiting && l.consumed == |first| > 0
    ensures Recorded([first] + segments, first + rest, others, moment)
  {
    JoinedCons(first, segments, rest);
    SessionCons(first, rest, l, others, moment);
    TranscriptCons(first, segments, TakeLine(COMMAND_LENGTH, [], rest[|Joined(segments)|..]).echoed, l, others, moment);
  }

  lemma SessionCons(first: Bytes, rest: Bytes, l: Line, others: Handlers, moment: nat)
    requires l == TakeLine(COMMAND_LENGTH, [], first + rest) && l.ending != Waiting && l.consumed == |first| > 0
    ensures Session(first + rest, others, moment)
         == l.echoed + After(Dispatched(Command(l), others, moment), Session(rest, others, moment + 1))
  {
    assert (first + rest)[|first|..] == rest;
  }

  lemma TranscriptCons(first: Bytes, segments: seq<Bytes>, last: Bytes, l: Line, others: Handlers, moment: nat)
    requires l == TakeLine(COMMAND_LENGTH, [], first)
    ensures Transcript([first] + segments, last, others, moment)
         == l.echoed + After(Dispatched(Command(l), others, moment), Transcript(segments, last, others, moment + 1))
  {
    assert ([first] + segments)[1..] == segments;
  }

  /** The session's output is that of its segments, one after another: every input byte belongs to one
      dispatched line, in order, or to the unfinished one. */
  lemma {:induction false} SessionIsTranscript(input: Bytes, others: Handlers, moment: nat)
    ensures Recorded(Segments(COMMAND_LENGTH, input), input, others, moment)
    decreases |input|
  {
    FirstLine(COMMAND_LENGTH, input);
    var l := TakeLine(COMMAND_LENGTH, [], input);
    if l.ending == Waiting {
      assert input[0..] == input;
    } else {
      var first, rest := input[..l.consumed], input[l.consumed..];
      SessionIsTranscript(rest, others, moment + 1);
      LineIsLocal(COMMAND_LENGTH, [], input);
      assert input == first + rest;
      RecordedCons(first, Segments(COMMAND_LENGTH, rest), rest, l, others, moment);
    }
  }

  // ---- A typed line ----

  lemma GoesOnTail(size: nat, held: Bytes, keys: Bytes)
    requires GoesOn(size, held, keys) && keys != []
    ensures |held| + 1 < size && keys[0] != 10 && keys[0] != 13 && GoesOn(size, Press(held, keys[0]), keys[1..])
  {
    var held', keys' := Press(held, keys[0]), keys[1..];
    assert keys[..0] == [];
    forall k | 0 <= k < |keys'|
      ensures keys'[k] != 10 && keys'[k] != 13 && |Edit(held', keys'[..k])| + 1 < size
    {
      assert keys[..k + 1][1..] == keys'[..k];
    }
  }

  /** Keystrokes that do not end the line, then one that does, make a line. */
  lemma {:induction false} KeysMakeLine(size: nat, held: Bytes, keys: Bytes, c: Byte, rest: Bytes)
    requires GoesOn(size, held, keys) && |Edit(held, keys)| + 1 < size && (c == 10 || c == 13)
    ensures TakeLine(size, held, keys + ([c] + rest))
         == Line(|keys| + 1, Edit(held, keys), Echo(held, keys) + [13, 10], Entered)
    decreases |keys|
  {
    var input := keys + ([c] + rest);
    if keys == [] {
      assert input == [c] + rest;
    } else {
      var held', keys' := Press(held, keys[0]), keys[1..];
      GoesOnTail(size, held, keys);
      KeysMakeLine(size, held', keys', c, rest);
      assert input[1..] == keys' + ([c] + rest);
      Assoc(EchoOf(held, keys[0]), Echo(held', keys'), [CR, LF]);
    }
  }

  lemma SumLineIsNulFree(line: Bytes, x: U64, y: U64)
    requires AsksForSum(line, x, y)
    ensures NulFree(line)
  {
    var w1, sx, w2, sy, w3 :| AddLine(line, w1, sx, w2, sy, w3, x, y);
    SpellingIsNulFree(sx, x);
    SpellingIsNulFree(sy, y);
    forall c | c in line
      ensures c != 0
    {
      assert c in ADD || c in w1 || c in sx || c in w2 || c in sy || c in w3;
    }
  }

  lemma SpellingIsNulFree(s: Bytes, v: U64)
    requires Spells(s, v)
    ensures 0 !in s
  {
    var prefix, digits, ds :| SpellsWith(s, prefix, digits, ds, v);
    DigitsAreWorth(digits, ds);
  }

  lemma PromptOnWire()
    ensures Wire(PROMPT) == [0x3E, 0x20]
  {
    WirePlain(PROMPT);
  }

  lemma CommandTyped(l: Line)
    requires NulFree(l.text)
    ensures Command(l) == l.text
  {
    CStringOfLiteral(l.text, []);
    assert l.text + [0] + [] == l.text + [0];
  }

  /** What a command prints, then the prompt and what follows it, unless it does not return. */
  ghost predicate Goes(output: Bytes, before: Bytes, d: Reply, following: Bytes) {
    output == before + if d.resumes then d.output + ([0x3E, 0x20] + following) else d.output
  }

  lemma LineGoes(input: Bytes, rest: Bytes, l: Line, others: Handlers, moment: nat)
    requires l == TakeLine(255, [], input) && l.ending != Waiting && NulFree(l.text)
    requires 0 < l.consumed <= |input| && rest == input[l.consumed..]
    ensures Goes(Session(input, others, moment), l.echoed, Dispatched(l.text, others, moment),
                 Session(rest, others, moment + 1))
  {
    CommandTyped(l);
    PromptOnWire();
  }

  /** Whatever is typed and erased, when the byte 10 or 13 follows, the keys are echoed, the line that is left is
      dispatched, and the shell prompts again if the command returns. */
  lemma TypedLine(keys: Bytes, enter: Byte, rest: Bytes, others: Handlers, moment: nat)
    requires GoesOn(255, [], keys) && |Edit([], keys)| < 254 && (enter == 10 || enter == 13)
    requires NulFree(Edit([], keys))
    ensures Goes(Session(keys + ([enter] + rest), others, moment), Echo([], keys) + [13, 10],
                 Dispatched(Edit([], keys), others, moment), Session(rest, others, moment + 1))
  {
    var input := keys + ([enter] + rest);
    KeysMakeLine(255, [], keys, enter, rest);
    assert input[|keys| + 1..] == rest;
    LineGoes(input, rest, TakeLine(255, [], input), others, moment);
  }

  /** Enter on a line with nothing left on it only prompts again. */
  lemma TypedNothing(keys: Bytes, enter: Byte, rest: Bytes, others: Handlers, moment: nat)
    requires GoesOn(255, [], keys) && Edit([], keys) == [] && (enter == 10 || enter == 13)
    ensures Session(keys + ([enter] + rest), others, moment)
         == Echo([], keys) + [13, 10] + ([0x3E, 0x20] + Session(rest, others, moment + 1))
  {
    TypedLine(keys, enter, rest, others, moment);
    assert [] + ([0x3E, 0x20] + Session(rest, others, moment + 1)) == [0x3E, 0x20] + Session(rest, others, moment + 1);
  }

  lemma {:induction false} KeysFillLine(size: nat, held: Bytes, keys: Bytes, rest: Bytes)
    requires GoesOn(size, held, keys) && |Edit(held, keys)| + 1 >= size
    ensures TakeLine(size, held, keys + rest) == Line(|keys|, Edit(held, keys), Echo(held, keys), Filled)
    decreases |keys|
  {
    if keys == [] {
      assert keys + rest == rest;
    } else {
      var held', keys' := Press(held, keys[0]), keys[1..];
      GoesOnTail(size, held, keys);
      KeysFillLine(size, held', keys', rest);
      assert (keys + rest)[1..] == keys' + rest;
    }
  }

  /** As soon as 254 characters are held, the line is dispatched without Enter. */
  lemma TypedFull(keys: Bytes, rest: Bytes, others: Handlers, moment: nat)
    requires GoesOn(255, [], keys) && |Edit([], keys)| == 254 && NulFree(Edit([], keys))
    ensures Goes(Session(keys + rest, others, moment), Echo([], keys), Dispatched(Edit([], keys), others, moment),
                 Session(rest, others, moment + 1))
  {
    KeysFillLine(255, [], keys, rest);
    assert keys != [] && (keys + rest)[|keys|..] == rest;
    LineGoes(keys + rest, rest, TakeLine(255, [], keys + rest), others, moment);
  }

  /** From keystrokes to output: whatever is typed and erased, when what is left on the line asks for a
      sum and Enter is pressed, the shell echoes the keys, prints the sum and prompts again. */
  lemma TypedSum(keys: Bytes, x: U64, y: U64, enter: Byte, rest: Bytes, others: Handlers, moment: nat)
    requires GoesOn(255, [], keys) && |Edit([], keys)| < 254 && (enter == 10 || enter == 13)
    requires AsksForSum(Edit([], keys), x, y)
    ensures Session(keys + ([enter] + rest), others, moment)
         == Echo([], keys) + [13, 10]
            + ((Hex64((x + y) % TWO_64) + [13, 10]) + ([0x3E, 0x20] + Session(rest, others, moment + 1)))
  {
    SumLineIsNulFree(Edit([], keys), x, y);
    AddPrintsSum(Edit([], keys), x, y, others, moment);
    TypedLine(keys, enter, rest, others, moment);
  }

  // ---- The source's operations ----

  /** print_prompt. */
  method PrintPrompt(t: Terminal)
    modifies t`output
    ensures t.output == old(t.output) + Wire(PROMPT)
  {
    PrintLiteral(t, PROMPT);
  }

  /** run_shell_loop. It stops here when the input is used up or a command does not return. */
  method RunShellLoop(t: Terminal, others: Handlers)
    requires t.Valid()
    modifies t`pos, t`output
    ensures t.Valid()
    ensures t.output == old(t.output) + (Wire(PROMPT) + Session(t.input[old(t.pos)..], others, 0))
  {
    ghost var whole := t.output + (Wire(PROMPT) + Session(t.input[t.pos..], others, 0));
    var command := new Byte[COMMAND_LENGTH];
    PrintPrompt(t);
    Assoc(old(t.output), Wire(PROMPT), Session(t.input[t.pos..], others, 0));
    var moment, stopped := 0, false;
    while !stopped
      invariant t.Valid()
      invariant whole == t.output + if stopped then [] else Session(t.input[t.pos..], others, moment)
      decreases |t.input| - t.pos, !stopped
    {
      stopped := ReadAndDispatch(t, command, others, moment, whole);
      moment := moment + 1;
    }
  }

  /** One iteration. */
  method ReadAndDispatch(t: Terminal, command: array<Byte>, others: Handlers, moment: nat, ghost whole: Bytes)
    returns (stopped: bool)
    requires t.Valid() && command.Length == COMMAND_LENGTH
    requires whole == t.output + Session(t.input[t.pos..], others, moment)
    modifies t`pos, t`output, command
    ensures t.Valid() && t.pos >= old(t.pos) && (!stopped ==> t.pos > old(t.pos))
    ensures whole == t.output + if stopped then [] else Session(t.input[t.pos..], others, moment + 1)
  {
    ghost var input := t.input[t.pos..];
    ghost var l := TakeLine(COMMAND_LENGTH, [], input);
    FirstLine(COMMAND_LENGTH, input);
    stopped := t.ReadLine(command, COMMAND_LENGTH, true);
    if stopped {
      return;
    }
    assert input[l.consumed..] == t.input[t.pos..];
    BufferString(command[..], l.text);
    var resumes := DispatchCommand(t, command, others, moment);
    ghost var d := Dispatched(Command(l), others, moment);
    if resumes {
      PrintPrompt(t);
    }
    stopped := !resumes;
    AfterRegrouped(old(t.output), l.echoed, d, Session(t.input[t.pos..], others, moment + 1));
  }

  lemma BufferString(buffer: Bytes, text: Bytes)
    requires |text| < |buffer| && buffer[..|text|] == text && buffer[|text|] == 0
    ensures Terminated(buffer) && CString(buffer) == CString(text + [0])
  {
    var n := NulAt(text + [0], 0);
    assert (text + [0])[|text|] == 0;
    assert forall k :: 0 <= k < |text| ==> buffer[k] == buffer[..|text|][k] == (text + [0])[k];
    assert NulAt(buffer, 0) == n;
    assert buffer[..n] == (text + [0])[..n];
  }

  lemma AfterRegrouped(before: Bytes, echoed: Bytes, d: Reply, following: Bytes)
    ensures before + (echoed + After(d, following))
         == if d.resumes then before + echoed + d.output + Wire(PROMPT) + following else before + echoed + d.output + []
  {
  }
}
