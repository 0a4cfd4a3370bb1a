/**
 Console input and output (kernel/Console/IO.c) over a finite input and an output trace.
 */
module Console {
  import opened Words
  import opened Strings

  const BS: Byte := 8
  const TAB: Byte := 9
  const LF: Byte := 10
  const CR: Byte := 13
  const SPACE: Byte := 32
  const DEL: Byte := 127

  // ---- Output ----

  /** What the terminal receives for a text: each newline is preceded by a carriage return. */
  function Wire(text: Bytes): Bytes {
    if text == [] then [] else WireOne(text[0]) + Wire(text[1..])
  }

  function WireOne(c: Byte): Bytes {
    if c == LF then [CR, LF] else [c]
  }

  lemma {:induction false} WireConcat(a: Bytes, b: Bytes)
    ensures Wire(a + b) == Wire(a) + Wire(b)
  {
    if a == [] {
      assert a + b == b;
    } else {
      WireConcat(a[1..], b);
      assert (a + b)[1..] == a[1..] + b;
      Assoc(WireOne(a[0]), Wire(a[1..]), Wire(b));
    }
  }

  /** Text without newlines is sent as it is. */
  lemma {:induction false} WirePlain(text: Bytes)
    requires LF !in text
    ensures Wire(text) == text
  {
    if text != [] {
      WirePlain(text[1..]);
    }
  }

  /** Texts, with something between each two. */
  function JoinWith(texts: seq<Bytes>, between: Bytes): Bytes {
    if texts == [] then []
    else if |texts| == 1 then texts[0]
    else texts[0] + (between + JoinWith(texts[1..], between))
  }

  /** Lines of text: the bytes 13, 10 are sent between each two, and nothing else is added. */
  lemma {:induction false} WireOfLines(lines: seq<Bytes>)
    requires forall k :: 0 <= k < |lines| ==> 10 !in lines[k]
    ensures Wire(JoinWith(lines, [10])) == JoinWith(lines, [13, 10])
    decreases |lines|
  {
    if lines != [] {
      WirePlain(lines[0]);
      if |lines| > 1 {
        var rest := JoinWith(lines[1..], [10]);
        WireOfLines(lines[1..]);
        WireConcat(lines[0], [10] + rest);
        WireConcat([10], rest);
        var newline: Bytes := [10];
        assert newline[1..] == [] && Wire(newline) == [13, 10];
      }
    }
  }

  // ---- Line editing ----

  predicate Ends(c: Byte) {
    c == LF || c == CR
  }

  predicate Erases(c: Byte) {
    c == BS || c == DEL
  }

  /** One keystroke: an erasing key removes the last character, if any; any other key adds itself. */
  function Press(held: Bytes, c: Byte): Bytes {
    if !Erases(c) then held + [c] else if held == [] then [] else held[..|held| - 1]
  }

  function Edit(held: Bytes, keys: Bytes): Bytes
    decreases |keys|
  {
    if keys == [] then held else Edit(Press(held, keys[0]), keys[1..])
  }

  /** What one keystroke sends back. */
  function EchoOf(held: Bytes, c: Byte): Bytes {
    if !Erases(c) then [c] else if held == [] then [] else [BS, SPACE, BS]
  }

  function Echo(held: Bytes, keys: Bytes): Bytes
    decreases |keys|
  {
    if keys == [] then [] else EchoOf(held, keys[0]) + Echo(Press(held, keys[0]), keys[1..])
  }

  lemma {:induction false} EditConcat(held: Bytes, a: Bytes, b: Bytes)
    ensures Edit(held, a + b) == Edit(Edit(held, a), b)
    ensures Echo(held, a + b) == Echo(held, a) + Echo(Edit(held, a), b)
    decreases |a|
  {
    if a == [] {
      assert a + b == b;
    } else {
      EditConcat(Press(held, a[0]), a[1..], b);
      assert (a + b)[1..] == a[1..] + b;
      Assoc(EchoOf(held, a[0]), Echo(Press(held, a[0]), a[1..]), Echo(Edit(held, a), b));
    }
  }

  /** Any bytes but 8 and 127 are added as they are, and sent back as they are. */
  lemma {:induction false} PlainKeys(held: Bytes, keys: Bytes)
    requires 8 !in keys && 127 !in keys
    ensures Edit(held, keys) == held + keys && Echo(held, keys) == keys
    decreases |keys|
  {
    if keys != [] {
      assert keys == [keys[0]] + keys[1..];
      PlainKeys(held + [keys[0]], keys[1..]);
      Assoc(held, [keys[0]], keys[1..]);
    }
  }

  /** The bytes 8 and 127 remove the last character, on the screen as well, and nothing from an empty line. */
  lemma EraseKeys(held: Bytes, erase: Byte)
    requires erase == 8 || erase == 127
    ensures Edit(held, [erase]) == if held == [] then [] else held[..|held| - 1]
    ensures Echo(held, [erase]) == if held == [] then [] else [8, 32, 8]
  {
    FoldCons(held, erase, []);
    assert [erase] + [] == [erase];
  }

  /** Wherever it happens, typing a character and erasing it leaves no trace in the line. */
  lemma Undone(held: Bytes, before: Bytes, c: Byte, erase: Byte, after: Bytes)
    requires c != 8 && c != 127 && (erase == 8 || erase == 127)
    ensures Edit(held, before + ([c] + ([erase] + after))) == Edit(held, before + after)
  {
    var typed := Edit(held, before);
    EditConcat(held, before, [c] + ([erase] + after));
    EditConcat(held, before, after);
    EditConcat(typed, [c], [erase] + after);
    EditConcat(typed + [c], [erase], after);
    PlainKeys(typed, [c]);
    EraseKeys(typed + [c], erase);
  }

  /** How a line read ends: at CR or LF, with the buffer full, or with the input used up, in which case
      the reader is still waiting. */
  datatype Ending = Entered | Filled | Waiting

  datatype Line = Line(consumed: nat, text: Bytes, echoed: Bytes, ending: Ending)

  /** Reading a line into `size` bytes, with `held` already typed. */
  function TakeLine(size: nat, held: Bytes, input: Bytes): (l: Line)
    ensures l.consumed <= |input|
    decreases |input|
  {
    if |held| + 1 >= size then Line(0, held, [], Filled)
    else if input == [] then Line(0, held, [], Waiting)
    else if Ends(input[0]) then Line(1, held, [CR, LF], Entered)
    else
      var l := TakeLine(size, Press(held, input[0]), input[1..]);
      Line(l.consumed + 1, l.text, EchoOf(held, input[0]) + l.echoed, l.ending)
  }

  /** The keystrokes of a line: what it consumed, without the key that ended it. */
  function Keys(l: Line, input: Bytes): Bytes
    requires l.consumed <= |input| && (l.ending == Entered ==> l.consumed > 0)
  {
    if l.ending == Entered then input[..l.consumed - 1] else input[..l.consumed]
  }

  lemma FoldCons(held: Bytes, c: Byte, keys: Bytes)
    ensures Edit(held, [c] + keys) == Edit(Press(held, c), keys)
    ensures Echo(held, [c] + keys) == EchoOf(held, c) + Echo(Press(held, c), keys)
  {
    assert ([c] + keys)[1..] == keys;
  }

  /** The line holds what its keystrokes leave, and has echoed them. */
  ghost predicate FoldOf(l: Line, size: nat, held: Bytes, keys: Bytes) {
    && l.text == Edit(held, keys) && |l.text| < size
    && l.echoed == Echo(held, keys) + (if l.ending == Entered then [CR, LF] else [])
    && (l.ending == Filled <==> |l.text| + 1 == size)
  }

  /** The line consumes its keystrokes, and the key that ends it, from the input. */
  ghost predicate FoldsInput(l: Line, size: nat, held: Bytes, input: Bytes) {
    && l.consumed <= |input|
    && (l.ending == Entered ==> l.consumed > 0 && Ends(input[l.consumed - 1]))
    && FoldOf(l, size, held, Keys(l, input))
    && (l.ending == Waiting ==> l.consumed == |input|)
  }

  lemma FoldStep(l: Line, size: nat, held: Bytes, c: Byte, rest: Bytes)
    requires FoldsInput(l, size, Press(held, c), rest)
    ensures FoldsInput(Line(l.consumed + 1, l.text, EchoOf(held, c) + l.echoed, l.ending), size, held, [c] + rest)
  {
    var keys, l' := Keys(l, rest), Line(l.consumed + 1, l.text, EchoOf(held, c) + l.echoed, l.ending);
    assert Keys(l', [c] + rest) == [c] + keys;
    FoldCons(held, c, keys);
    Assoc(EchoOf(held, c), Echo(Press(held, c), keys), if l.ending == Entered then [CR, LF] else []);
  }

  lemma {:induction false} LineIsFold(size: nat, held: Bytes, input: Bytes)
    requires |held| < size
    ensures FoldsInput(TakeLine(size, held, input), size, held, input)
    decreases |input|
  {
    if |held| + 1 < size && input != [] && !Ends(input[0]) {
      var held', rest := Press(held, input[0]), input[1..];
      LineIsFold(size, held', rest);
      FoldStep(TakeLine(size, held', rest), size, held, input[0], rest);
      assert input == [input[0]] + rest;
    }
  }

  /** The keys go on: none of them ends the line, and before each there was still room. */
  ghost predicate GoesOn(size: nat, held: Bytes, keys: Bytes) {
    && (forall k :: 0 <= k < |keys| ==> keys[k] != 10 && keys[k] != 13)
    && (forall k :: 0 <= k < |keys| ==> |Edit(held, keys[..k])| + 1 < size)
  }

  lemma GoesOnCons(size: nat, held: Bytes, c: Byte, keys: Bytes)
    requires |held| + 1 < size && !Ends(c) && GoesOn(size, Press(held, c), keys)
    ensures GoesOn(size, held, [c] + keys)
  {
    var all := [c] + keys;
    forall k | 0 <= k < |all|
      ensures all[k] != 10 && all[k] != 13 && |Edit(held, all[..k])| + 1 < size
    {
      if k > 0 {
        assert all[..k][1..] == keys[..k - 1];
      }
    }
  }

  lemma {:induction false} LineGoesOn(size: nat, held: Bytes, input: Bytes)
    requires |held| < size
    ensures var l := TakeLine(size, held, input);
      (l.ending == Entered ==> l.consumed > 0) && GoesOn(size, held, Keys(l, input))
    decreases |input|
  {
    var l := TakeLine(size, held, input);
    if |held| + 1 < size && input != [] && !Ends(input[0]) {
      var held', rest := Press(held, input[0]), input[1..];
      LineGoesOn(size, held', rest);
      var keys' := Keys(TakeLine(size, held', rest), rest);
      assert Keys(l, input) == [input[0]] + keys';
      GoesOnCons(size, held, input[0], keys');
    }
  }

  /** A line is the fold of its keystrokes; it ends at the first byte 10 or 13, or as soon as size - 1
      characters are held, or when the input runs out, whichever is first. */
  lemma LineMeaning(size: nat, input: Bytes)
    requires size > 0
    ensures var l := TakeLine(size, [], input);
      && (l.ending == Entered ==> l.consumed > 0 && (input[l.consumed - 1] == 10 || input[l.consumed - 1] == 13))
      && var keys := Keys(l, input);
      && l.text == Edit([], keys) && |l.text| < size
      && l.echoed == Echo([], keys) + (if l.ending == Entered then [13, 10] else [])
      && GoesOn(size, [], keys)
      && (l.ending == Filled <==> |l.text| + 1 == size)
      && (l.ending == Waiting ==> l.consumed == |input|)
  {
    LineIsFold(size, [], input);
    LineGoesOn(size, [], input);
  }

  // ---- The terminal that shows the echo ----

  /** One row of a terminal; cells to the right of the written ones are blank. */
  datatype Screen = Screen(cells: Bytes, cursor: nat)

  /** A backspace moves left, any other byte is shown and moves right. */
  function Show(s: Screen, c: Byte): Screen {
    if c == BS then s.(cursor := if s.cursor == 0 then 0 else s.cursor - 1)
    else if s.cursor < |s.cells| then Screen(s.cells[s.cursor := c], s.cursor + 1)
    else Screen(s.cells + Blanks(s.cursor - |s.cells|) + [c], s.cursor + 1)
  }

  function Blanks(n: nat): (b: Bytes)
    ensures |b| == n && forall i :: 0 <= i < n ==> b[i] == SPACE
  {
    if n == 0 then [] else [SPACE] + Blanks(n - 1)
  }

  function ShowAll(s: Screen, bytes: Bytes): Screen
    decreases |bytes|
  {
    if bytes == [] then s else ShowAll(Show(s, bytes[0]), bytes[1..])
  }

  /** The row shows the prompt and the held text, the cursor is after them, and the rest is blank. */
  ghost predicate Displays(s: Screen, prompt: Bytes, held: Bytes) {
    && s.cursor == |prompt| + |held| <= |s.cells|
    && s.cells[..s.cursor] == prompt + held
    && forall i :: s.cursor <= i < |s.cells| ==> s.cells[i] == SPACE
  }

  lemma {:induction false} ShowConcat(s: Screen, a: Bytes, b: Bytes)
    ensures ShowAll(s, a + b) == ShowAll(ShowAll(s, a), b)
    decreases |a|
  {
    if a == [] {
      assert a + b == b;
    } else {
      ShowConcat(Show(s, a[0]), a[1..], b);
      assert (a + b)[1..] == a[1..] + b;
    }
  }

  predicate Typed(c: Byte) {
    0x20 <= c < 0x7F || c == 8 || c == 127
  }

  lemma OneKeyShows(s: Screen, prompt: Bytes, held: Bytes, c: Byte)
    requires Displays(s, prompt, held) && Typed(c)
    ensures Displays(ShowAll(s, EchoOf(held, c)), prompt, Press(held, c))
  {
    if !Erases(c) {
      var t := Show(s, c);
      assert [c][1..] == [];
      assert ShowAll(s, [c]) == t;
      assert t.cells[..t.cursor] == s.cells[..s.cursor] + [c];
    } else if held != [] {
      var t1 := Show(s, BS);
      var t2 := Show(t1, SPACE);
      var t3 := Show(t2, BS);
      assert [BS, SPACE, BS][1..] == [SPACE, BS] && [SPACE, BS][1..] == [BS] && [BS][1..] == [];
      assert ShowAll(s, [BS, SPACE, BS]) == ShowAll(t1, [SPACE, BS]);
      assert ShowAll(t1, [SPACE, BS]) == ShowAll(t2, [BS]);
      assert ShowAll(t2, [BS]) == t3;
      assert t3.cells[..t3.cursor] == s.cells[..s.cursor][..t3.cursor];
    }
  }

  /** With echo on, the terminal shows exactly the held text after every keystroke: the cursor is at its
      end and everything to the right is blank, however often characters were erased. */
  lemma {:induction false} EchoShowsText(s: Screen, prompt: Bytes, held: Bytes, keys: Bytes)
    requires Displays(s, prompt, held)
    requires forall k :: 0 <= k < |keys| ==> Typed(keys[k])
    ensures Displays(ShowAll(s, Echo(held, keys)), prompt, Edit(held, keys))
    decreases |keys|
  {
    if keys != [] {
      OneKeyShows(s, prompt, held, keys[0]);
      ShowConcat(s, EchoOf(held, keys[0]), Echo(Press(held, keys[0]), keys[1..]));
      EchoShowsText(ShowAll(s, EchoOf(held, keys[0])), prompt, Press(held, keys[0]), keys[1..]);
    }
  }

  // ---- Sessions of lines ----

  /** The segments of the input that successive line reads consume, as far as they complete. */
  function Segments(size: nat, input: Bytes): (segments: seq<Bytes>)
    requires size > 1
    decreases |input|
  {
    var l := TakeLine(size, [], input);
    if l.ending == Waiting || l.consumed == 0 then [] else [input[..l.consumed]] + Segments(size, input[l.consumed..])
  }

  function Joined(segments: seq<Bytes>): Bytes {
    if segments == [] then [] else segments[0] + Joined(segments[1..])
  }

  /** A segment is one line: it has a byte 10 or 13 at its end and nowhere else, or has none and fills the
      buffer exactly with its last key. */
  ghost predicate IsLine(size: nat, segment: Bytes) {
    && segment != []
    && var n := |segment| - 1;
    && (forall k :: 0 <= k < n ==> segment[k] != 10 && segment[k] != 13)
    && (forall k :: 0 <= k <= n ==> |Edit([], segment[..k])| + 1 < size)
    && (segment[n] == 10 || segment[n] == 13 || |Edit([], segment)| + 1 == size)
  }

  lemma FirstLine(size: nat, input: Bytes)
    requires size > 1
    ensures var l := TakeLine(size, [], input);
      l.ending != Waiting ==> l.consumed > 0 && IsLine(size, input[..l.consumed])
  {
    LineMeaning(size, input);
    var l := TakeLine(size, [], input);
    if l.ending != Waiting {
      var keys, segment := Keys(l, input), input[..l.consumed];
      if l.ending == Entered {
        assert segment[..|segment| - 1] == keys;
        forall k | 0 <= k <= |segment| - 1
          ensures |Edit([], segment[..k])| + 1 < size
        {
          if k < |keys| {
            assert segment[..k] == keys[..k];
          }
        }
      } else {
        assert segment == keys;
        forall k | 0 <= k <= |segment| - 1
          ensures |Edit([], segment[..k])| + 1 < size
        {
          assert segment[..k] == keys[..k];
        }
      }
    }
  }

  ghost predicate AllLines(size: nat, segments: seq<Bytes>) {
    forall k :: 0 <= k < |segments| ==> IsLine(size, segments[k])
  }

  /** Every segment is a line, and what is left of the input after them is an unfinished line. */
  ghost predicate Conserves(size: nat, segments: seq<Bytes>, input: Bytes) {
    && Joined(segments) <= input && AllLines(size, segments)
    && TakeLine(size, [], input[|Joined(segments)|..]).ending == Waiting
  }

  lemma JoinedCons(first: Bytes, segments: seq<Bytes>, rest: Bytes)
    requires Joined(segments) <= rest
    ensures Joined([first] + segments) <= first + rest
    ensures (first + rest)[|Joined([first] + segments)|..] == rest[|Joined(segments)|..]
  {
    assert ([first] + segments)[1..] == segments;
    assert (first + rest)[..|first| + |Joined(segments)|] == first + rest[..|Joined(segments)|];
  }

  lemma ConservesCons(size: nat, first: Bytes, segments: seq<Bytes>, rest: Bytes)
    requires IsLine(size, first) && Conserves(size, segments, rest)
    ensures Conserves(size, [first] + segments, first + rest)
  {
    JoinedCons(first, segments, rest);
  }

  /** No input byte is lost or read twice: the segments, in order, are the input up to the unfinished
      line, and each is one line. */
  lemma {:induction false} SegmentsConserve(size: nat, input: Bytes)
    requires size > 1
    ensures Conserves(size, Segments(size, input), input)
    decreases |input|
  {
    FirstLine(size, input);
    var l := TakeLine(size, [], input);
    if l.ending == Waiting {
      assert input[0..] == input;
    } else {
      var first, rest := input[..l.consumed], input[l.consumed..];
      SegmentsConserve(size, rest);
      ConservesCons(size, first, Segments(size, rest), rest);
      assert input == first + rest;
    }
  }

  // ---- The source's operations ----

  /** The console of a machine with this byte order. */
  class Terminal {
    const input: Bytes
    const bigEndian: bool
    var pos: nat
    var output: Bytes

    ghost predicate Valid()
      reads this
    {
      pos <= |input|
    }

    constructor (input: Bytes, bigEndian: bool)
      ensures Valid() && this.input == input && this.bigEndian == bigEndian && pos == 0 && output == []
    {
      this.input, this.bigEndian := input, bigEndian;
      pos, output := 0, [];
    }

    method PutC(c: Byte)
      modifies this`output
      ensures output == old(output) + [c]
    {
      output := output + [c];
    }

    method Write(text: Bytes, size: nat)
      requires size <= |text|
      modifies this`output
      ensures output == old(output) + Wire(text[..size])
    {
      var i := 0;
      assert text[..0] == [];
      while i < size
        invariant i <= size
        invariant output == old(output) + Wire(text[..i])
      {
        var character := text[i];
        WireConcat(text[..i], [character]);
        assert text[..i + 1] == text[..i] + [character];
        assert [character][1..] == [];
        if character == LF {
          PutC(CR);
        }
        PutC(character);
        i := i + 1;
      }
    }

    /** console_print: the string up to its terminator. */
    method Print(text: Bytes)
      requires Terminated(text)
      modifies this`output
      ensures output == old(output) + Wire(CString(text))
    {
      var n := StringLength(text);
      Write(text, n);
    }

    method GetC() returns (c: Byte)
      requires pos < |input|
      modifies this`pos
      ensures c == input[old(pos)] && pos == old(pos) + 1
    {
      c := input[pos];
      pos := pos + 1;
    }

    /** Move left, show a blank, move left. */
    method EraseOne()
      modifies this`output
      ensures output == old(output) + [BS, SPACE, BS]
    {
      EraseSequence();
      Print([BS, SPACE, BS, 0]);
    }

    /** Lines 69 to 87: one keystroke that does not end the line. */
    method PressKey(text: array<Byte>, i: nat, c: Byte, echo: bool) returns (i': nat)
      requires i < text.Length
      modifies this`output, text
      ensures i' == |Press(old(text[..i]), c)| <= i + 1 && text[..i'] == Press(old(text[..i]), c)
      ensures output == old(output) + (if echo then EchoOf(old(text[..i]), c) else [])
      ensures forall k :: i < k < text.Length ==> text[k] == old(text[k])
    {
      i' := i;
      if c == BS || c == DEL {
        if i == 0 {
          return;
        }
        i' := i - 1;
        if echo {
          EraseOne();
        }
      } else {
        text[i] := c;
        if echo {
          PutC(c);
        }
        i' := i + 1;
      }
    }

    /** Lines 59 to 67: the key that ends the line. */
    method EnterKey(text: array<Byte>, i: nat, echo: bool)
      requires i < text.Length
      modifies this`output, text
      ensures text[i] == 0 && text[..i] == old(text[..i])
      ensures output == old(output) + (if echo then [CR, LF] else [])
      ensures forall k :: i < k < text.Length ==> text[k] == old(text[k])
    {
      text[i] := 0;
      if echo {
        PutC(CR);
        PutC(LF);
      }
    }

    /** console_read_line. On hardware the read waits when there is no input; here it returns `waiting`. */
    method ReadLine(text: array<Byte>, size: nat, echo: bool) returns (waiting: bool)
      requires Valid() && size <= text.Length
      modifies this`pos, this`output, text
      ensures Valid()
      ensures size == 0 ==> pos == old(pos) && output == old(output) && text[..] == old(text[..]) && !waiting
      ensures size > 0 ==>
        var l := TakeLine(size, [], input[old(pos)..]);
        && pos == old(pos) + l.consumed
        && output == old(output) + (if echo then l.echoed else [])
        && waiting == (l.ending == Waiting)
        && |l.text| < size && text[..|l.text|] == l.text && (!waiting ==> text[|l.text|] == 0)
      ensures forall k :: size <= k < text.Length ==> text[k] == old(text[k])
    {
      if size == 0 {
        return false;
      }
      ghost var line := TakeLine(size, [], input[pos..]);
      assert [] + line.echoed == line.echoed;
      waiting := ReadKeys(text, size, echo, line);
    }

    /** The loop of console_read_line, for the line `l` that is about to be typed. */
    method ReadKeys(text: array<Byte>, size: nat, echo: bool, ghost l: Line) returns (waiting: bool)
      requires Valid() && 0 < size <= text.Length
      requires Reads(l, size, [], input[pos..], 0, [])
      modifies this`pos, this`output, text
      ensures Valid() && pos == old(pos) + l.consumed
      ensures output == old(output) + (if echo then l.echoed else [])
      ensures waiting <==> l.ending == Waiting
      ensures |l.text| < size && text[..|l.text|] == l.text
      ensures !waiting ==> text[|l.text|] == 0
      ensures forall k :: size <= k < text.Length ==> text[k] == old(text[k])
    {
      var i: nat, finished := 0, false;
      waiting := false;
      ghost var n: nat, sent: Bytes := 0, [];
      while i + 1 < size && !finished
        invariant Valid() && i < size && Echoed(old(output), echo, sent)
        invariant if finished then Done(l, old(pos), sent, text, i, waiting)
                  else pos == old(pos) + n && !waiting && Reads(l, size, text[..i], input[pos..], n, sent)
        invariant forall k :: size <= k < text.Length ==> text[k] == old(text[k])
        decreases |input| - pos, !finished
      {
        ghost var more;
        i, finished, waiting, more := ReadKey(text, i, echo, size, l, n, sent);
        EchoGrows(old(output), echo, sent, more);
        n, sent := n + 1, sent + more;
      }
      if !finished {
        ReadsEnd(l, size, text[..i], input[pos..], n, sent);
        text[i] := 0;
      }
    }

    /** What has been sent back so far, if echo is on. */
    ghost predicate Echoed(before: Bytes, echo: bool, sent: Bytes)
      reads this
    {
      output == before + (if echo then sent else [])
    }

    /** The line is complete, or still waited for. */
    ghost predicate Done(l: Line, start: nat, sent: Bytes, text: array<Byte>, i: nat, waiting: bool)
      reads this, text
    {
      && pos == start + l.consumed && sent == l.echoed && (waiting <==> l.ending == Waiting)
      && i == |l.text| < text.Length && text[..i] == l.text && (!waiting ==> text[i] == 0)
    }

    /** One iteration: `finished` when the line is complete or no key is there. */
    method ReadKey(text: array<Byte>, i: nat, echo: bool, size: nat, ghost l: Line, ghost n: nat, ghost sent: Bytes)
      returns (i': nat, finished: bool, waiting: bool, ghost more: Bytes)
      requires Valid() && i + 1 < size <= text.Length && n <= pos
      requires Reads(l, size, text[..i], input[pos..], n, sent)
      modifies this`pos, this`output, text
      ensures Valid() && i' < size && output == old(output) + (if echo then more else [])
      ensures if finished then Done(l, old(pos) - n, sent + more, text, i', waiting) && pos >= old(pos)
              else pos == old(pos) + 1 && !waiting && Reads(l, size, text[..i'], input[pos..], n + 1, sent + more)
      ensures forall k :: size <= k < text.Length ==> text[k] == old(text[k])
    {
      ghost var held, rest := text[..i], input[pos..];
      ReadsEnd(l, size, held, rest, n, sent);
      i', finished, waiting, more := i, true, false, [];
      if pos == |input| {
        assert sent + [] == sent;
        waiting := true;
        return;
      }
      var c := GetC();
      assert rest[0] == c && rest[1..] == input[pos..];
      if c == LF || c == CR {
        EnterKey(text, i, echo);
        more := [CR, LF];
        return;
      }
      ReadsStep(l, size, held, rest, n, sent);
      i' := PressKey(text, i, c, echo);
      finished, more := false, EchoOf(held, c);
    }
  }

  lemma EchoGrows(before: Bytes, echo: bool, sent: Bytes, more: Bytes)
    ensures before + (if echo then sent else []) + (if echo then more else [])
         == before + (if echo then sent + more else [])
  {
  }

  /** With `held` typed, `n` keys read and `sent` echoed, the rest of the input makes the line. */
  ghost predicate Reads(line: Line, size: nat, held: Bytes, rest: Bytes, n: nat, sent: Bytes) {
    var l := TakeLine(size, held, rest);
    line == Line(n + l.consumed, l.text, sent + l.echoed, l.ending)
  }

  lemma ReadsStep(line: Line, size: nat, held: Bytes, rest: Bytes, n: nat, sent: Bytes)
    requires Reads(line, size, held, rest, n, sent)
    requires |held| + 1 < size && rest != [] && !Ends(rest[0])
    ensures Reads(line, size, Press(held, rest[0]), rest[1..], n + 1, sent + EchoOf(held, rest[0]))
  {
    Assoc(sent, EchoOf(held, rest[0]), TakeLine(size, Press(held, rest[0]), rest[1..]).echoed);
  }

  lemma ReadsEnd(line: Line, size: nat, held: Bytes, rest: Bytes, n: nat, sent: Bytes)
    requires Reads(line, size, held, rest, n, sent)
    ensures |held| + 1 >= size ==> line == Line(n, held, sent, Filled)
    ensures |held| + 1 < size && rest == [] ==> line == Line(n, held, sent, Waiting)
    ensures |held| + 1 < size && rest != [] && Ends(rest[0]) ==> line == Line(n + 1, held, sent + [CR, LF], Entered)
  {
    assert sent + [] == sent;
  }

  lemma EraseSequence()
    ensures Wire(CString([BS, SPACE, BS, 0])) == [BS, SPACE, BS]
    ensures Terminated([BS, SPACE, BS, 0])
  {
    CStringOfLiteral([BS, SPACE, BS], []);
    assert [BS, SPACE, BS] + [0] + [] == [BS, SPACE, BS, 0];
    WirePlain([BS, SPACE, BS]);
    assert [BS, SPACE, BS, 0][3] == 0;
  }
}
