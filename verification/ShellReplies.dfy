/**
 What the shell says and does with a line, character by character.
 */
module ShellReplies {
  import opened Words
  import opened Strings
  import opened Console
  import opened Tokeniser
  import opened Shell

  // ---- Text on the wire ----

  lemma SaysConcat(a: Bytes, s: string, b: Bytes, t: string)
    requires Says(a, s) && Says(b, t)
    ensures Says(a + b, s + t)
  {
  }

  lemma NoNewline(b: Bytes, text: string)
    requires Says(b, text) && '\n' !in text
    ensures 10 !in b
  {
    forall c | c in b
      ensures c != 10
    {
      var i :| 0 <= i < |b| && b[i] == c;
      assert text[i] in text;
    }
  }

  /** Text without newlines is sent as it is. */
  lemma TextOnWire(b: Bytes, text: string)
    requires Says(b, text) && '\n' !in text
    ensures Says(Wire(b), text)
  {
    NoNewline(b, text);
    WirePlain(b);
  }

  /** A line of text ends with a carriage return and a newline. */
  lemma LineOnWire(b: Bytes, text: string)
    requires Says(b, text + "\n") && '\n' !in text
    ensures Says(Wire(b), text + "\r\n")
  {
    var front := b[..|text|];
    TextOnWire(front, text);
    WireConcat(front, NEWLINE);
    NewlineOnWire();
    assert b == front + NEWLINE;
  }

  /** The names of the commands, in the order of the table. */
  lemma CommandNames(i: nat)
    requires i < 8
    ensures |COMMANDS| == 8
    ensures Says(COMMANDS[i], ["add", "help", "info", "memread", "panic", "reboot", "trapsvc", "uptime"][i])
    ensures 10 !in COMMANDS[i] && COMMANDS[i] != []
  {
  }

  /** The first token of a line is free of newlines. */
  lemma FirstTokenPlain(line: Bytes)
    ensures 10 !in TokensOf(line)[0] && Arguments(line)[0] == TokensOf(line)[0]
  {
    var n := RunLength(line);
    assert forall k :: 0 <= k < n ==> line[..n][k] != 10;
  }

  // ---- Commands ----

  lemma UsageText()
    ensures Says(USAGE, "Usage: add 0x1234 0xdbca" + "\n") && '\n' !in "Usage: add 0x1234 0xdbca"
  {
  }

  lemma FailedText()
    ensures Says(FAILED, "Error: an error occurred in the command ")
    ensures '\n' !in "Error: an error occurred in the command "
  {
  }

  lemma UnknownText()
    ensures Says(UNKNOWN, "Error: the command ") && '\n' !in "Error: the command "
  {
  }

  lemma HelpTexts() returns (a: Bytes, b: Bytes)
    ensures UNRECOGNIZED == a + b
    ensures Says(a, " could not be recognized. ") && '\n' !in " could not be recognized. "
    ensures Says(b, "Type help for a list of commands." + "\n") && '\n' !in "Type help for a list of commands."
  {
    a, b := Ascii(" could not be recognized. "), Ascii("Type help for a list of commands.\n");
  }

  lemma LineEndSays()
    ensures Says(Wire(NEWLINE), "\r\n")
  {
    NewlineOnWire();
  }

  lemma FailureSays(name: Bytes, text: string, intro: string)
    requires Says(name, text) && 10 !in name && Says(FAILED, intro) && '\n' !in intro
    ensures Says(Wire(FAILED) + Wire(name) + Wire(NEWLINE), intro + text + "\r\n")
  {
    TextOnWire(FAILED, intro);
    WirePlain(name);
    LineEndSays();
    SaysConcat(Wire(FAILED), intro, name, text);
    SaysConcat(Wire(FAILED) + name, intro + text, Wire(NEWLINE), "\r\n");
  }

  /** A reply, followed by the message `m` if the command failed. */
  ghost predicate Completes(d: Reply, r: Reply, m: Bytes) {
    d == if r.resumes && r.result != 0 then r.(output := r.output + m) else r
  }

  lemma IndexOfCommand(i: nat)
    requires i < |COMMANDS|
    ensures CommandIndex(COMMANDS[i], 0) == i
  {
    var found := CommandIndex(COMMANDS[i], 0);
    if found != i {
      NamesDistinct(found, i);
    }
  }

  lemma NamedIs(name: Bytes, other: Bytes, text: string)
    requires Says(name, text) && Says(other, text)
    ensures name == other
  {
  }

  /** A line whose first token is the i-th name runs the i-th handler, which gets the first ten tokens; if it
      reports a failure, a message with the name follows. */
  lemma CommandRuns(line: Bytes, i: nat, others: Handlers, moment: nat) returns (m: Bytes)
    requires line != [] && 0 < i < 8
    requires Says(TokensOf(line)[0], ["add", "help", "info", "memread", "panic", "reboot", "trapsvc", "uptime"][i])
    ensures Says(m, "Error: an error occurred in the command "
                    + ["add", "help", "info", "memread", "panic", "reboot", "trapsvc", "uptime"][i] + "\r\n")
    ensures var args := TokensOf(line);
      Completes(Dispatched(line, others, moment), others(i, if |args| <= 10 then args else args[..10], moment), m)
  {
    var name := TokensOf(line)[0];
    var text := ["add", "help", "info", "memread", "panic", "reboot", "trapsvc", "uptime"][i];
    CommandNames(i);
    NamedIs(name, COMMANDS[i], text);
    IndexOfCommand(i);
    FirstTokenPlain(line);
    FailedText();
    FailureSays(name, text, "Error: an error occurred in the command ");
    m := Wire(FAILED) + Wire(name) + Wire(NEWLINE);
    assert TokensOf(line)[..|TokensOf(line)|] == TokensOf(line);
  }

  lemma HelpSays(a: Bytes, s: string, b: Bytes, t: string)
    requires Says(a, s) && Says(b, t + "\n") && '\n' !in s && '\n' !in t
    ensures Says(Wire(a + b), s + (t + "\r\n"))
  {
    TextOnWire(a, s);
    LineOnWire(b, t);
    WireConcat(a, b);
    SaysConcat(Wire(a), s, Wire(b), t + "\r\n");
  }

  /** No command has this name. */
  ghost predicate NoCommand(name: Bytes) {
    forall i: nat :: i < 8 ==>
      !Says(name, ["add", "help", "info", "memread", "panic", "reboot", "trapsvc", "uptime"][i])
  }

  lemma NoIndex(name: Bytes)
    requires NoCommand(name)
    ensures CommandIndex(name, 0) == |COMMANDS|
  {
    var found := CommandIndex(name, 0);
    CommandNames(0);
    if found < |COMMANDS| {
      CommandNames(found);
    }
  }

  lemma Unresolved(line: Bytes, others: Handlers, moment: nat)
    requires line != [] && CommandIndex(TokensOf(line)[0], 0) == |COMMANDS|
    ensures Dispatched(line, others, moment) == Reply(Wire(UNKNOWN) + TokensOf(line)[0] + Wire(UNRECOGNIZED), 0, true)
  {
    FirstTokenPlain(line);
    WirePlain(TokensOf(line)[0]);
  }

  /** A line whose first token is none of the names is reported with that token. */
  lemma UnknownCommand(line: Bytes, others: Handlers, moment: nat) returns (before: Bytes, after: Bytes)
    requires line != [] && NoCommand(TokensOf(line)[0])
    ensures Says(before, "Error: the command ")
    ensures Says(after, " could not be recognized. " + ("Type help for a list of commands." + "\r\n"))
    ensures Dispatched(line, others, moment) == Reply(before + TokensOf(line)[0] + after, 0, true)
  {
    before, after := Wire(UNKNOWN), Wire(UNRECOGNIZED);
    UnknownText();
    TextOnWire(UNKNOWN, "Error: the command ");
    var a, b := HelpTexts();
    HelpSays(a, " could not be recognized. ", b, "Type help for a list of commands.");
    NoIndex(TokensOf(line)[0]);
    Unresolved(line, others, moment);
  }

  lemma AddMisused(line: Bytes, others: Handlers, moment: nat)
    requires line != [] && Says(TokensOf(line)[0], "add") && |TokensOf(line)| != 3
    ensures Dispatched(line, others, moment)
         == Reply(Wire(USAGE) + (Wire(FAILED) + Wire(ADD) + Wire(NEWLINE)), 1, true)
  {
    CommandNames(0);
    NamedIs(TokensOf(line)[0], COMMANDS[0], "add");
    IndexOfCommand(0);
    FirstTokenPlain(line);
  }

  /** With any number of arguments but two, `add` prints how it is used, and that it failed. */
  lemma AddUsage(line: Bytes, others: Handlers, moment: nat) returns (usage: Bytes, failure: Bytes)
    requires line != [] && Says(TokensOf(line)[0], "add") && |TokensOf(line)| != 3
    ensures Says(usage, "Usage: add 0x1234 0xdbca" + "\r\n")
    ensures Says(failure, "Error: an error occurred in the command " + "add" + "\r\n")
    ensures Dispatched(line, others, moment) == Reply(usage + failure, 1, true)
  {
    usage, failure := Wire(USAGE), Wire(FAILED) + Wire(ADD) + Wire(NEWLINE);
    UsageText();
    LineOnWire(USAGE, "Usage: add 0x1234 0xdbca");
    FailedText();
    CommandNames(0);
    FailureSays(ADD, "add", "Error: an error occurred in the command ");
    AddMisused(line, others, moment);
  }
}
