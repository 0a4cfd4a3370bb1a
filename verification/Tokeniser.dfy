/**
 Splitting a command line in place (tokenize_command in kernel/Console/Shell.c).
 */
module Tokeniser {
  import opened Words
  import opened Strings
  import opened Console

  // ---- Tokens ----

  predicate IsBlank(c: Byte) {
    c == TAB || c == SPACE || c == CR || c == LF
  }

  predicate AllBlank(s: Bytes) {
    forall k :: 0 <= k < |s| ==> IsBlank(s[k])
  }

  predicate NoBlank(s: Bytes) {
    forall k :: 0 <= k < |s| ==> !IsBlank(s[k])
  }

  /** The end of the blank-free run at the start. */
  function RunLength(s: Bytes): (n: nat)
    ensures n <= |s| && NoBlank(s[..n])
    ensures n < |s| ==> IsBlank(s[n])
  {
    if s == [] || IsBlank(s[0]) then 0
    else
      var n := 1 + RunLength(s[1..]);
      assert forall k :: 1 <= k < n ==> s[k] == s[1..][k - 1];
      n
  }

  /** The maximal blank-free runs. */
  function RunsIn(s: Bytes): seq<Bytes>
    decreases |s|
  {
    if s == [] then []
    else if IsBlank(s[0]) then RunsIn(s[1..])
    else [s[..RunLength(s)]] + RunsIn(s[RunLength(s)..])
  }

  /** The tokens of a line: the run it starts with, which is empty when the line starts with a blank,
      then the runs after it. */
  function TokensOf(line: Bytes): (ts: seq<Bytes>)
    ensures |ts| > 0
  {
    [line[..RunLength(line)]] + RunsIn(line[RunLength(line)..])
  }

  /** Where the later tokens start, from position i on; `between` when i follows a blank. */
  function Starts(line: Bytes, i: nat, between: bool): (s: seq<nat>)
    requires i <= |line|
    ensures forall k :: 0 <= k < |s| ==> i <= s[k] < |line|
    decreases |line| - i
  {
    if i == |line| then []
    else if IsBlank(line[i]) then Starts(line, i + 1, true)
    else if between then [i] + Starts(line, i + 1, false)
    else Starts(line, i + 1, false)
  }

  /** The run that starts at a position. */
  function RunAt(line: Bytes, start: nat): (run: Bytes)
    requires start <= |line|
  {
    line[start..start + RunLength(line[start..])]
  }

  /** The run at the start of a rest, one character on. */
  lemma RunGrows(line: Bytes, i: nat)
    requires i < |line| && !IsBlank(line[i])
    ensures var n := RunLength(line[i + 1..]);
      && RunLength(line[i..]) == n + 1 && line[i..][n + 1..] == line[i + 1..][n..]
      && RunAt(line, i) == line[i..][..n + 1]
  {
    var rest := line[i..];
    assert rest[1..] == line[i + 1..];
  }

  lemma {:induction false} StartsAreRuns(line: Bytes, i: nat, between: bool)
    requires i <= |line|
    ensures var s := Starts(line, i, between);
      var runs := if between then RunsIn(line[i..]) else RunsIn(line[i..][RunLength(line[i..])..]);
      |s| == |runs| && forall k :: 0 <= k < |s| ==> RunAt(line, s[k]) == runs[k]
    decreases |line| - i
  {
    if i < |line| {
      var rest := line[i..];
      if IsBlank(line[i]) {
        StartsAreRuns(line, i + 1, true);
        assert rest[1..] == line[i + 1..] && rest[0..] == rest;
      } else {
        StartsAreRuns(line, i + 1, false);
        RunGrows(line, i);
      }
    }
  }

  function AllStarts(line: Bytes): (s: seq<nat>)
    ensures |s| > 0 && s[0] == 0
    ensures forall k :: 0 <= k < |s| ==> s[k] <= |line|
  {
    [0] + Starts(line, 0, false)
  }

  lemma TokensAtStarts(line: Bytes)
    ensures |AllStarts(line)| == |TokensOf(line)|
    ensures forall k :: 0 <= k < |AllStarts(line)| ==> RunAt(line, AllStarts(line)[k]) == TokensOf(line)[k]
  {
    StartsAreRuns(line, 0, false);
    assert line[0..] == line;
  }

  /** The end of the run that starts at a position. */
  function EndOf(line: Bytes, start: nat): nat
    requires start <= |line|
  {
    start + RunLength(line[start..])
  }

  lemma EndOfRun(line: Bytes, start: nat)
    requires start <= |line|
    ensures var e := EndOf(line, start);
      && start <= e <= |line| && (e < |line| ==> IsBlank(line[e]))
      && forall k :: start <= k < e ==> !IsBlank(line[k])
  {
    var rest, n := line[start..], RunLength(line[start..]);
    assert forall k :: start <= k < start + n ==> line[k] == rest[..n][k - start];
    assert n < |rest| ==> line[start + n] == rest[n];
  }

  /** A run whose blank has been overwritten, or that ends the line, reads back as a string. */
  lemma RunReadsBack(line: Bytes, buffer: Bytes, i: nat, start: nat)
    requires NulFree(line) && start <= |line| < |buffer| && i <= |line|
    requires forall j :: 0 <= j < i ==> buffer[j] == if IsBlank(line[j]) then 0 else line[j]
    requires forall j :: i <= j < |line| ==> buffer[j] == line[j]
    requires buffer[|line|] == 0
    requires EndOf(line, start) < i || (i == |line| && EndOf(line, start) == |line|)
    ensures Terminated(buffer[start..]) && CString(buffer[start..]) == RunAt(line, start)
  {
    EndOfRun(line, start);
    var e := EndOf(line, start);
    var text := buffer[start..];
    assert text[e - start] == buffer[e] == 0;
    forall k | 0 <= k < e - start
      ensures text[k] == line[start + k] != 0
    {
      assert text[k] == buffer[start + k];
    }
    assert NulAt(text, 0) == e - start;
    assert text[..e - start] == line[start..e];
  }

  // ---- What the tokens of a line are ----

  /** Words, each after its gap. */
  function Spaced(gaps: seq<Bytes>, words: seq<Bytes>): Bytes
    requires |gaps| == |words|
  {
    if words == [] then [] else gaps[0] + (words[0] + Spaced(gaps[1..], words[1..]))
  }

  /** Gaps are blank, words are not, and neither is empty. */
  ghost predicate Separated(gaps: seq<Bytes>, words: seq<Bytes>) {
    && |gaps| == |words|
    && (forall k :: 0 <= k < |gaps| ==> gaps[k] != [] && AllBlank(gaps[k]))
    && (forall k :: 0 <= k < |words| ==> words[k] != [] && NoBlank(words[k]))
  }

  /** What follows a word: nothing, or a blank. */
  predicate Parted(rest: Bytes) {
    rest == [] || IsBlank(rest[0])
  }

  lemma {:induction false} RunOfWord(word: Bytes, rest: Bytes)
    requires NoBlank(word) && Parted(rest)
    ensures RunLength(word + rest) == |word|
    decreases |word|
  {
    if word == [] {
      assert word + rest == rest;
    } else {
      RunOfWord(word[1..], rest);
      assert (word + rest)[1..] == word[1..] + rest;
    }
  }

  lemma {:induction false} BlanksSkipped(gap: Bytes, rest: Bytes)
    requires AllBlank(gap)
    ensures RunsIn(gap + rest) == RunsIn(rest)
    decreases |gap|
  {
    if gap == [] {
      assert gap + rest == rest;
    } else {
      BlanksSkipped(gap[1..], rest);
      assert (gap + rest)[1..] == gap[1..] + rest;
    }
  }

  lemma WordSplit(word: Bytes, rest: Bytes)
    requires word != [] && NoBlank(word) && Parted(rest)
    ensures RunsIn(word + rest) == [word] + RunsIn(rest)
  {
    RunOfWord(word, rest);
    var s := word + rest;
    assert s[..|word|] == word && s[|word|..] == rest && s[0] == word[0];
  }

  lemma {:induction false} RunsOfSpaced(gaps: seq<Bytes>, words: seq<Bytes>, end: Bytes)
    requires Separated(gaps, words) && AllBlank(end)
    ensures RunsIn(Spaced(gaps, words) + end) == words && Parted(Spaced(gaps, words) + end)
    decreases |words|
  {
    if words == [] {
      assert Spaced(gaps, words) + end == end + [];
      BlanksSkipped(end, []);
    } else {
      var rest := Spaced(gaps[1..], words[1..]) + end;
      RunsOfSpaced(gaps[1..], words[1..], end);
      assert Spaced(gaps, words) + end == gaps[0] + (words[0] + rest);
      WordSplit(words[0], rest);
      BlanksSkipped(gaps[0], words[0] + rest);
      assert words == [words[0]] + words[1..];
    }
  }

  /** Tokenising gives back the words, whatever the blanks between and after them. */
  lemma SpacedThenTokens(first: Bytes, gaps: seq<Bytes>, words: seq<Bytes>, end: Bytes)
    requires NoBlank(first) && Separated(gaps, words) && AllBlank(end)
    ensures TokensOf(first + (Spaced(gaps, words) + end)) == [first] + words
  {
    var rest := Spaced(gaps, words) + end;
    RunsOfSpaced(gaps, words, end);
    RunOfWord(first, rest);
    assert (first + rest)[..|first|] == first && (first + rest)[|first|..] == rest;
  }

  /** Tab, newline, carriage return and space are blank. */
  lemma BlankBytes(c: Byte)
    ensures IsBlank(c) <==> c in {9, 10, 13, 32}
  {
  }

  /** One of the bytes 9, 10, 13 and 32 between two words makes them two tokens; any other byte joins them. */
  lemma OneSeparator(a: Bytes, c: Byte, b: Bytes)
    requires forall k :: 0 <= k < |a| ==> a[k] !in {9, 10, 13, 32}
    requires forall k :: 0 <= k < |b| ==> b[k] !in {9, 10, 13, 32}
    requires b != []
    ensures TokensOf(a + ([c] + b)) == if c in {9, 10, 13, 32} then [a, b] else [a + ([c] + b)]
  {
    assert NoBlank(a) && NoBlank(b);
    BlankBytes(c);
    var whole := a + ([c] + b);
    if IsBlank(c) {
      var gaps: seq<Bytes>, words: seq<Bytes> := [[c]], [b];
      SpacedThenTokens(a, gaps, words, []);
      assert gaps[1..] == [] && words[1..] == [];
      assert Spaced(gaps, words) + [] == [c] + b;
    } else {
      assert NoBlank(whole);
      RunOfWord(whole, []);
      assert whole + [] == whole && whole[..|whole|] == whole && whole[|whole|..] == [];
    }
  }

  lemma SpacedCons(gap: Bytes, word: Bytes, gaps: seq<Bytes>, words: seq<Bytes>, end: Bytes)
    requires gap != [] && AllBlank(gap) && word != [] && NoBlank(word) && Separated(gaps, words)
    ensures Separated([gap] + gaps, [word] + words)
    ensures Spaced([gap] + gaps, [word] + words) + end == gap + (word + (Spaced(gaps, words) + end))
  {
    assert ([gap] + gaps)[1..] == gaps && ([word] + words)[1..] == words;
  }

  lemma {:induction false} LeadingGap(s: Bytes) returns (gap: Bytes, rest: Bytes)
    ensures AllBlank(gap) && s == gap + rest && (rest == [] || !IsBlank(rest[0]))
    ensures RunsIn(s) == RunsIn(rest) && (gap == [] <==> s == [] || !IsBlank(s[0]))
    decreases |s|
  {
    if s == [] || !IsBlank(s[0]) {
      gap, rest := [], s;
    } else {
      var gap';
      gap', rest := LeadingGap(s[1..]);
      gap := [s[0]] + gap';
    }
  }

  /** Every string that is empty or starts with a blank is spaced out from its runs. */
  lemma {:induction false} RunsAreSpaced(s: Bytes) returns (gaps: seq<Bytes>, end: Bytes)
    requires Parted(s)
    ensures Separated(gaps, RunsIn(s)) && AllBlank(end) && s == Spaced(gaps, RunsIn(s)) + end
    decreases |s|
  {
    var gap, rest := LeadingGap(s);
    if rest == [] {
      gaps, end := [], gap;
    } else {
      var n := RunLength(rest);
      var gaps';
      gaps', end := RunsAreSpaced(rest[n..]);
      SpacedCons(gap, rest[..n], gaps', RunsIn(rest[n..]), end);
      gaps := [gap] + gaps';
      assert rest[..n] + rest[n..] == rest;
    }
  }

  /** Every line is its tokens, in order, with nothing but blanks between and after them. */
  lemma TokensMakeLine(line: Bytes) returns (gaps: seq<Bytes>, end: Bytes)
    ensures NoBlank(TokensOf(line)[0]) && Separated(gaps, TokensOf(line)[1..]) && AllBlank(end)
    ensures line == TokensOf(line)[0] + (Spaced(gaps, TokensOf(line)[1..]) + end)
  {
    var n := RunLength(line);
    gaps, end := RunsAreSpaced(line[n..]);
    assert TokensOf(line)[1..] == RunsIn(line[n..]);
    assert line[..n] + line[n..] == line;
  }

  // ---- The loop ----

  function Min(a: nat, b: nat): nat {
    if a < b then a else b
  }

  /** A buffer in which some blanks of the line have been overwritten with NUL, and nothing else. */
  ghost predicate OnlyBlanksCleared(line: Bytes, before: Bytes, after: Bytes) {
    && |before| == |after| && |line| <= |before|
    && forall j :: 0 <= j < |after| ==> after[j] == before[j] || (j < |line| && IsBlank(before[j]) && after[j] == 0)
  }

  /** The state of the tokeniser's loop at position i, with n tokens found. */
  ghost predicate Tokenised(line: Bytes, buffer: Bytes, tokens: seq<nat>, i: nat, between: bool) {
    && i <= |line| < |buffer| && tokens != []
    && (forall j :: 0 <= j < i ==> buffer[j] == if IsBlank(line[j]) then 0 else line[j])
    && (forall j :: i <= j < |line| ==> buffer[j] == line[j])
    && buffer[|line|] == 0
    && tokens + Starts(line, i, between) == AllStarts(line)
    && (forall k :: 0 <= k < |tokens| - 1 ==> tokens[k] <= |line| && EndOf(line, tokens[k]) < i)
    && tokens[|tokens| - 1] <= i
    && (between <==> EndOf(line, tokens[|tokens| - 1]) < i)
  }

  /** A pointer into the buffer denotes this string. */
  ghost predicate PointsTo(buffer: Bytes, p: nat, text: Bytes) {
    p <= |buffer| && Terminated(buffer[p..]) && CString(buffer[p..]) == text
  }

  /** Each token, read as a string, is the run of the line it stands for. */
  ghost predicate ReadsAs(buffer: Bytes, tokens: seq<nat>, runs: seq<Bytes>) {
    |tokens| <= |runs| && forall k :: 0 <= k < |tokens| ==> PointsTo(buffer, tokens[k], runs[k])
  }

  /** Stopping, at the end of the line or in front of one token too many, leaves every token readable. */
  lemma TokensReadBack(line: Bytes, buffer: Bytes, tokens: seq<nat>, i: nat, between: bool)
    requires NulFree(line) && Tokenised(line, buffer, tokens, i, between) && (between || i == |line|)
    ensures ReadsAs(buffer, tokens, TokensOf(line))
    ensures i == |line| ==> |tokens| == |TokensOf(line)|
  {
    TokensAtStarts(line);
    forall k | 0 <= k < |tokens|
      ensures PointsTo(buffer, tokens[k], TokensOf(line)[k])
    {
      assert tokens[k] == AllStarts(line)[k];
      EndOfRun(line, tokens[k]);
      RunReadsBack(line, buffer, i, tokens[k]);
    }
  }

  lemma AtBlank(line: Bytes, buffer: Bytes, tokens: seq<nat>, i: nat, between: bool)
    requires Tokenised(line, buffer, tokens, i, between) && i < |line| && IsBlank(line[i])
    ensures Tokenised(line, buffer[i := 0], tokens, i + 1, true)
  {
    EndOfRun(line, tokens[|tokens| - 1]);
  }

  lemma InRun(line: Bytes, buffer: Bytes, tokens: seq<nat>, i: nat)
    requires Tokenised(line, buffer, tokens, i, false) && i < |line| && !IsBlank(line[i])
    ensures Tokenised(line, buffer, tokens, i + 1, false)
  {
    EndOfRun(line, tokens[|tokens| - 1]);
  }

  lemma AtNewRun(line: Bytes, buffer: Bytes, tokens: seq<nat>, i: nat)
    requires Tokenised(line, buffer, tokens, i, true) && i < |line| && !IsBlank(line[i])
    ensures Tokenised(line, buffer, tokens + [i], i + 1, false)
    ensures |tokens| < |AllStarts(line)|
  {
    EndOfRun(line, i);
    assert tokens + ([i] + Starts(line, i + 1, false)) == tokens + [i] + Starts(line, i + 1, false);
  }

  lemma AtStart(line: Bytes, buffer: Bytes)
    requires line != [] && |line| < |buffer| && line <= buffer && buffer[|line|] == 0
    ensures Tokenised(line, buffer, [0], 0, false)
  {
  }

  lemma BlankCleared(line: Bytes, before: Bytes, after: Bytes, i: nat)
    requires OnlyBlanksCleared(line, before, after) && i < |line| && IsBlank(after[i])
    ensures OnlyBlanksCleared(line, before, after[i := 0])
  {
  }

  /** tokenize_command. The token pointers are offsets into the command. */
  method TokenizeCommand(command: array<Byte>, tokens: array<nat>, maxTokens: nat) returns (n: nat)
    requires Terminated(command[..]) && maxTokens <= tokens.Length
    modifies command, tokens
    ensures n == if CString(old(command[..])) == [] then 0 else Min(|TokensOf(CString(old(command[..])))|, maxTokens)
    ensures OnlyBlanksCleared(CString(old(command[..])), old(command[..]), command[..])
    ensures ReadsAs(command[..], tokens[..n], TokensOf(CString(old(command[..]))))
  {
    if maxTokens == 0 {
      return 0;
    }
    var commandLength := StringLength(command[..]);
    if commandLength == 0 {
      return 0;
    }
    tokens[0] := 0;
    n := SplitCommand(command, tokens, maxTokens, commandLength, CString(command[..]), command[..]);
  }

  /** The loop of tokenize_command. */
  method SplitCommand(command: array<Byte>, tokens: array<nat>, maxTokens: nat, commandLength: nat,
                      ghost line: Bytes, ghost before: Bytes) returns (n: nat)
    requires 1 <= maxTokens <= tokens.Length && tokens[0] == 0 && command[..] == before
    requires NulFree(line) && 0 < |line| == commandLength < command.Length
    requires line <= before && before[|line|] == 0
    modifies command, tokens
    ensures n == Min(|TokensOf(line)|, maxTokens)
    ensures OnlyBlanksCleared(line, before, command[..])
    ensures ReadsAs(command[..], tokens[..n], TokensOf(line))
  {
    var between, i: nat, full := false, 0, false;
    n := 1;
    AtStart(line, command[..]);
    TokensAtStarts(line);
    assert tokens[..1] == [0];
    while i < commandLength && !full
      invariant i <= commandLength && 1 <= n <= maxTokens
      invariant Tokenised(line, command[..], tokens[..n], i, between)
      invariant OnlyBlanksCleared(line, before, command[..])
      invariant full ==> between && n == maxTokens < |TokensOf(line)|
      decreases commandLength - i, !full
    {
      between, i, n, full := TokenizeOne(command, tokens, maxTokens, between, i, n, line, before);
    }
    TokensReadBack(line, command[..], tokens[..n], i, between || full);
  }

  /** One iteration; `full` when the token that starts here has no room left. */
  method TokenizeOne(command: array<Byte>, tokens: array<nat>, maxTokens: nat, between: bool, i: nat, n: nat,
                     ghost line: Bytes, ghost before: Bytes)
    returns (between': bool, i': nat, n': nat, full: bool)
    requires NulFree(line) && i < |line| && 1 <= n <= maxTokens <= tokens.Length
    requires Tokenised(line, command[..], tokens[..n], i, between)
    requires OnlyBlanksCleared(line, before, command[..])
    modifies command, tokens
    ensures n <= n' <= maxTokens
    ensures Tokenised(line, command[..], tokens[..n'], i', between')
    ensures OnlyBlanksCleared(line, before, command[..])
    ensures if full then i' == i && between' && n' == maxTokens < |AllStarts(line)| else i' == i + 1
  {
    between', i', n', full := between, i + 1, n, false;
    ghost var buffer, found := command[..], tokens[..n];
    assert buffer[i] == line[i];
    if command[i] == 0 {
      // There is no NUL before the end of the line.
      assert false;
    } else if IsBlank(command[i]) {
      AtBlank(line, buffer, found, i, between);
      BlankCleared(line, before, buffer, i);
      between' := true;
      command[i] := 0;
      assert command[..] == buffer[i := 0];
    } else if between {
      AtNewRun(line, buffer, found, i);
      if n >= maxTokens {
        return between, i, n, true;
      }
      tokens[n] := i;
      n' := n + 1;
      assert tokens[..n'] == found + [i];
      between' := false;
    } else {
      InRun(line, buffer, found, i);
    }
  }
}
