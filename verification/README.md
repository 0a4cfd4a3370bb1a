# CharcoalOS: a verified model of boot, device tree, shell and exceptions

This project models the parts of the kernel that take decisions over untrusted or shared bytes, and proves what
they compute. It has three parts.

**Device tree.** `DeviceTree` is the walker of `parse_device_tree_blob`, a class that is written in place, with
the loops, the cursor and the branches of the source. It is proved equal, verdict and harvest, to a simple
specification (`DeviceTreeBlob.Parse`): cut the structure block into tokens up to the first FDT_END
(`TokenCut`, `DeviceTreeTokens`), then fold a pure step over depth and current node (`DeviceTreeFold`). That
specification is then given a meaning that mentions neither tokens nor cursors: a tree (`DeviceTreeFlatten`),
and what a tree declares (`DeviceTreeMeaning`; `DeviceTreeAnyTree` for trees that repeat property names).
`DeviceTreeForest` is the converse: what is accepted is the flattening of exactly one forest. `DeviceTreeRoundTrip`
closes the circle with an encoder of whole blobs as in section 5 of the Devicetree Specification v0.4, and
`DeviceTreeInvariance` and `DeviceTreeEdits` say which edits of a block or a blob parsing cannot see. `Memory` has
decoder and encoder of `reg` values (section 2.3.6), and the statement that each is the other's inverse.
`DeviceTreeLayout` covers blobs of any layout and every header that is rejected, `DeviceTreeFaults` every reason for
which the walk stops, both with the numbers and names of the format, and `DeviceTreeExample` one blob, word by word.

**Shell.** `Console`, `Hex`, `Tokeniser`, `Shell` and `ShellSession` model the line editor, the printer and parser
of hexadecimal numbers, the in-place tokeniser, dispatch and the loop, over a finite input and an output trace.
The results run from keystrokes to output. `ShellReplies` says what the shell answers, character by character, and
`ShellExample` is one session, byte by byte.

**Machine.** `Boot` is the three-phase clearing of .bss, `Exceptions` the decision about an exception,
`ExceptionRuns` whole runs of exceptions, `ExceptionTrace` what a run prints, `ExceptionEntry` the vector code that
saves and restores the registers, and `ExceptionNesting` exceptions inside the handling of exceptions, to any depth,
with their frames on the stack.

Where a definition is shared by a method and its specification, a law beside it is stated with the literal bytes,
numbers or names, so that a change of both would contradict the law.

Modelling conventions:

- Memory is a sequence (or, where it is written, an array) of bytes and the address is the index, so a read outside
  it would not verify. 32-bit and 64-bit words are bounded integers; `<<`, `>>`, `|` and `&` are defined on
  binary digits in `Words` and related to arithmetic by proof.
- `kernel_panic` never returns, so it is an outcome that carries its reason (`Panic`). The contents of the caller's
  structure after a panic are not specified.
- A property-name comparison reads the byte at the compared length first, so it may look up to 14 bytes beyond the
  strings block. `DeviceTreeBlob.Readable` asks for these bytes; nothing claims that they lie in the block.
- At kernel/Hardware/DeviceTree.c:341 the device type may be NULL; here it is an option that compares unequal.
- Properties that follow a child's end are handled with the child's node context, as the code does.
- The branches of the source that can never be taken (kernel/Hardware/DeviceTree.c:125, 174, 186 and 205,
  kernel/Console/Shell.c:58) are in the model as `assert false`.
- `DeviceTreeRoundTrip.RootAloneFits` and `DeviceTreeRoundTrip.PlacedSomewhere` show that the hypotheses of the round
  trip can be met.
- Where the code and its comments differ, the model follows the code: slot 31 of the exception frame holds the
  stack pointer after it was lowered by 256, not the one at the exception (arch/arm64/ExceptionVectors.s:92-117);
  and a command line that starts with a blank has the empty string as its command name
  (kernel/Console/Shell.h:103-107).

Four statements one might expect are false of the code, and are replaced by exact conditions. The first two fail of
the handler and the vectors under arbitrary sequences of exceptions. Runs of this tree alone are quiet: its only `svc`
instructions are at kernel/Console/Shell.c:277 and 283, and the code between a fatal decision and the halt
(arch/arm64/ExceptionHandler.c:278-321, then arch/arm64/Halt.c:7-17) executes none, with interrupts masked. In quiet
runs the banner is printed at most once (`ExceptionRuns.BannerAtMostOnce`) and a nested fatal exception is silent
(`ExceptionRuns.NestedFatalIsSilent`).

- "The fatal banner is printed at most once" fails when a system call is echoed while a fatal exception is being
  handled, because the echo clears the flag, and a fatal exception follows (`ExceptionRuns.TwoBanners`).
  `ExceptionRuns.BannerAtMostOnce` proves that a run prints at most one banner exactly when no fatal exception is taken
  after such a call.
- "A fatal exception inside the handling of another one stops with no output" fails after such a call, too.
  `ExceptionRuns.NestedFatalIsSilent` proves that it holds exactly when, of the fatal exceptions and echoed calls taken so
  far, the latest is fatal.
- "A line whose first word is a command runs it" fails for lines that start with a blank
  (`Shell.LeadingBlankIsUnknown`), for instance a blank and `add` (`Shell.NamedButNotRun`); `Shell.FirstWordRuns` proves
  that it holds exactly for the others.
- "The order of a node's properties does not matter" fails for a root that is itself a memory node:
  `DeviceTreeMeaning.OrderMatters` gives an accepted root with a permutation that is rejected.
  `DeviceTreeMeaning.AnyRootOrder` proves that a reordered root stays accepted exactly when it is no memory node or its
  cell counts come before its memory. With unique property names the order of `device_type` and `reg` alone does not
  matter (`DeviceTreeMeaning.TypeAndRegOrder`).

## Model

| member | source | states |
|---|---|---|
| Words.OrDisjoint | kernel/Hardware/Endian.h:62-82 | or-ing a value into the clear low bits of a word is addition, for every width; no bit is lost or shared |
| Words.AndMask | arch/arm64/ExceptionHandler.c:99-109 | and-ing with a mask of k ones is the remainder modulo 2^k |
| Endian.ReadBe32 | kernel/Hardware/Endian.h:62-67 | the shift-and-or expression is the positional value of the four bytes |
| Endian.ReadBe64 | kernel/Hardware/Endian.h:75-82 | the shift-and-or expression is the positional value of the eight bytes |
| Endian.BeOfEnc | kernel/Hardware/Endian.h:62-82 | reading the n-byte big-endian encoding of any value gives the value modulo 256^n |
| Endian.EncOfBe | kernel/Hardware/Endian.h:62-82 | encoding what was read gives the bytes back |
| Strings.StringLength | kernel/String/String.c:39-45 | the index of the first NUL |
| Strings.StringCompare | kernel/String/String.c:9-21 | true exactly when the two C strings are equal |
| Strings.StringCompareWithLength | kernel/String/String.c:23-37 | true exactly when the first bytes agree and, if asked for, both end there |
| Strings.BoundedEqualIsStringEqual | kernel/String/String.c:23-37 | against a NUL-free literal, the bounded comparison is equality of the C string with the literal, even if the text is not terminated anywhere else |
| Strings.ComparisonsAgree | kernel/String/String.c:9-37 | on terminated text the two comparisons of the source agree |
| Memory.PhysicalMemoryRegions | kernel/Memory/Memory.c:12-113 | the in-place decoder gives exactly the verdict and regions of the specification `DecodeReg`, and leaves the rest of the output array alone |
| Memory.DecodeRegions | kernel/Memory/Memory.c:63-112 | the loop stops at the first faulty region with its reason, or stores every region |
| Memory.ReadRegion | kernel/Memory/Memory.c:68-86 | the cursor reads region k from its own place and ends at the place of region k + 1 |
| Memory.DecodeInvertsEncode | kernel/Memory/Memory.c:12-113 | the decoder returns a list exactly for the big-endian encoding of that list, for every list it can return: 1 to 16 non-empty regions below 2^64, one or two cells |
| Memory.DecodeAcceptance | kernel/Memory/Memory.c:17-112 | accepted exactly when both cell counts are 1 or 2, the length is 1 to 16 whole regions and each region is non-empty and does not overflow; region k is then read from place k |
| Memory.SizeFaults | kernel/Memory/Memory.c:17-60 | when the bytes are not 1 to 16 whole regions of 1 or 2 cells: each reason, exactly when it is given |
| Memory.RegionFaults | kernel/Memory/Memory.c:87-108 | of whole regions, the first that is empty or leaves the 64-bit address space decides, and with that reason |
| TokenCut.CutStopsOnce | kernel/Hardware/DeviceTree.c:172-383 | a cut has at most one stopping token, its last: FDT_END is met at most once |
| TokenCut.CutPhase | kernel/Hardware/DeviceTree.c:219-221 | cutting depends on the address only through its residue modulo 4 |
| TokenCut.InsertInCut | kernel/Hardware/DeviceTree.c:361-363 | the bytes of a whole token, a multiple of four of them, inserted at a token boundary, add that token to the cut and change no other |
| DeviceTreeTokens.NextPiece | kernel/Hardware/DeviceTree.c:183-283 | every token that does not stop the walk takes at least 4 bytes and stays inside the block |
| DeviceTreeTokens.PieceLocal | kernel/Hardware/DeviceTree.c:183-283 | a token is decided by its own bytes alone |
| DeviceTreeTokens.PiecePhase | kernel/Hardware/DeviceTree.c:219-221 | of the cursor's address only the residue modulo 4 matters to a token |
| DeviceTreeFaults.BeginReads | kernel/Hardware/DeviceTree.c:193-225 | a block begins with a node exactly when it holds word 1, a NUL-terminated name, and room up to the next multiple of four |
| DeviceTreeFaults.PropReads | kernel/Hardware/DeviceTree.c:247-286 | a block begins with a property exactly when it holds word 3, the value's length, an offset inside the strings block, the value, and room for the padding |
| DeviceTreeFaults.NodeFaults | kernel/Hardware/DeviceTree.c:193-225 | each reason for which no node can be begun, exactly when it is given |
| DeviceTreeFaults.PropFaults | kernel/Hardware/DeviceTree.c:247-283 | each reason for which no property can be read, and the unknown token, exactly when they are given |
| DeviceTreeFaults.PropertyMeaning | kernel/Hardware/DeviceTree.c:304-358 | what one property does, by its text: a cell count of the root, that the node is memory, its `reg`; and each reason for which it is rejected |
| DeviceTreeFaults.FirstFault | kernel/Hardware/DeviceTree.c:172-384 | the walk is rejected for a reason exactly when it gets through some tokens and the next one, or the end, is wrong for that reason |
| DeviceTreeFold.StepSplits | kernel/Hardware/DeviceTree.c:192-372 | a step succeeds exactly when the depth stays non-negative and the token's content is acceptable, independently |
| DeviceTreeFold.AcceptedStreams | kernel/Hardware/DeviceTree.c:172-384 | a token stream is accepted exactly when FDT_END closes it, its nesting never goes negative and ends at zero, and the fold of its properties alone succeeds; the harvest is that of the fold |
| DeviceTreeInvariance.NopIsInvisible | kernel/Hardware/DeviceTree.c:361-363 | an FDT_NOP inserted between any two tokens changes neither verdict nor harvest |
| DeviceTreeInvariance.TailIsInvisibleToTheWalk | kernel/Hardware/DeviceTree.c:364-368 | on any block in which FDT_END is reached, accepted or rejected, the bytes after it and their number do not matter |
| DeviceTreeEdits.NopInBlob | kernel/Hardware/DeviceTree.c:18-394 | two blobs that differ in an FDT_NOP between two tokens of the structure block, and in the header, parse the same but for the header, accepted or rejected |
| DeviceTreeEdits.TailOfBlob | kernel/Hardware/DeviceTree.c:18-394 | the same for blobs whose structure blocks differ after FDT_END |
| DeviceTreeEdits.NopInAssembled | kernel/Hardware/DeviceTree.c:18-394 | an FDT_NOP inserted into an assembled blob, with every offset and size adjusted, changes only those, accepted or rejected; what follows the two blobs in memory may differ if the strings block ends with NUL |
| DeviceTreeForest.UnflattenInverts | kernel/Hardware/DeviceTree.c:192-294 | reading back a forest's tokens, whatever comes after them that starts no item, gives that forest and leaves the rest |
| DeviceTreeForest.ForestStreams | kernel/Hardware/DeviceTree.c:172-384 | a stream without FDT_NOP is closed by FDT_END and balanced exactly when it is the flattening of a forest and FDT_END; the forest is unique |
| DeviceTreeForest.AcceptedIsForest | kernel/Hardware/DeviceTree.c:172-384 | a stream is accepted exactly when, up to FDT_NOP, it flattens a forest, properties and subtrees in any order, that the direct recursion accepts; the forest is unique and the harvest is the recursion's |
| DeviceTreeForest.AcceptedBlockIsForest | kernel/Hardware/DeviceTree.c:152-384 | the same for the bytes of any structure block: nothing but the flattening of a forest, up to FDT_NOP and the bytes after FDT_END, is accepted |
| DeviceTreeFlatten.StructureBlockCuts | kernel/Hardware/DeviceTree.c:172-373 | the bytes of a flattened tree cut into exactly the tree's tokens and FDT_END |
| DeviceTreeFlatten.RunTree | kernel/Hardware/DeviceTree.c:192-372 | walking a tree's tokens restores the depth and harvests what the recursion over the tree harvests, or fails for its reason |
| DeviceTreeFlatten.FlattenThenWalk | kernel/Hardware/DeviceTree.c:152-384 | flatten, then walk: verdict and harvest are those of a direct recursion over the tree, for every tree the format can carry, at every aligned address |
| DeviceTreeMeaning.DecodingIsIdempotent | kernel/Hardware/DeviceTree.c:340-358 | decoding the memory node's `reg` again changes nothing |
| DeviceTreeMeaning.PropertyOrder | kernel/Hardware/DeviceTree.c:327-358 | in a named node with unique property names, decoding at every later property comes to one decoding at the end |
| DeviceTreeMeaning.AnyPropertyOrder | kernel/Hardware/DeviceTree.c:227-358 | permuting the uniquely named properties of a named node changes nothing |
| DeviceTreeMeaning.AnyRootOrder | kernel/Hardware/DeviceTree.c:227-358 | a permutation of an accepted root's uniquely named properties is accepted exactly when the root is no memory node or its cell counts still come before the later of `device_type` and `reg`; then the harvest is the same |
| DeviceTreeMeaning.OrderMatters | kernel/Hardware/DeviceTree.c:304-358 | a memory root that is accepted, and a permutation of it that is rejected |
| DeviceTreeMeaning.TypeAndRegOrder | kernel/Hardware/DeviceTree.c:327-358 | in a node with unique property names, named or root, exchanging `device_type` and `reg` changes nothing, whatever other properties lie before, between and after them |
| DeviceTreeMeaning.NamedNode | kernel/Hardware/DeviceTree.c:327-358 | a named node is accepted exactly when it is no memory node or its `reg` decodes, and contributes those regions and nothing else |
| DeviceTreeMeaning.RootMemory | kernel/Hardware/DeviceTree.c:304-358 | a root that is a memory node is accepted exactly when its cell counts are well-formed and come before its memory, and its `reg` decodes with them |
| DeviceTreeMeaning.RootNode | kernel/Hardware/DeviceTree.c:304-358 | a root with unique property names is accepted exactly when its cell counts are 4 bytes long and, if it is a memory node, come in time and decode its `reg`; it contributes the counts and those regions |
| DeviceTreeMeaning.LastMemoryWins | kernel/Hardware/DeviceTree.c:340-358 | a series of memory nodes is accepted exactly when each decodes, and the last one's regions remain |
| DeviceTreeMeaning.TreeMeaning | kernel/Hardware/DeviceTree.c:152-384 | a proper tree is accepted exactly when its declarations are acceptable, and yields the root's cell counts and the last memory node's regions |
| DeviceTreeAnyTree.EveryNode | kernel/Hardware/DeviceTree.c:227-358 | a node with any properties, repeated or not, is accepted exactly when its own cell counts are 4 bytes long and what is known of it after each property decodes; it contributes what is known at its end |
| DeviceTreeAnyTree.NamedInForce | kernel/Hardware/DeviceTree.c:327-358 | a named node decodes every `reg` in force while it is known to be memory, and contributes the last |
| DeviceTreeAnyTree.UniqueInForce | kernel/Hardware/DeviceTree.c:327-358 | with unique names, the `reg` in force is the memory node's `reg` and nothing else |
| DeviceTreeAnyTree.AnyTreeMeaning | kernel/Hardware/DeviceTree.c:152-384 | any tree whose root alone is unnamed, property names repeated or not: accepted exactly when its root is acceptable and every `reg` in force below decodes with the root's last cell counts; the last of them remains |
| DeviceTreeBlob.EncodedPrefix | kernel/Hardware/DeviceTree.c:108-146 | a table begins with the encoding of a list exactly when its entries begin with the list |
| DeviceTreeBlob.ReservedMeaning | kernel/Hardware/DeviceTree.c:108-146 | a list is read exactly when it is followed by (0, 0) in the table, holds no (0, 0), and has at most 254 entries |
| DeviceTree.HardwareInfo.ReadHeader | kernel/Hardware/DeviceTree.c:24-106 | magic, size and block bounds are checked in the source's order, with its reason; the header fields are those of the blob |
| DeviceTree.HardwareInfo.ReadReservations | kernel/Hardware/DeviceTree.c:108-146 | the recorded arrays and count are the entries before the first (0, 0), or the fault of the specification; the early exit is never taken |
| DeviceTree.HardwareInfo.ReadEntry | kernel/Hardware/DeviceTree.c:128-144 | one entry extends the recorded list, or is the terminator |
| DeviceTree.SkipNodeName | kernel/Hardware/DeviceTree.c:193-225 | name and padding loops end, read only inside the block, and find the token or fault of the specification |
| DeviceTree.SkipProperty | kernel/Hardware/DeviceTree.c:248-283 | lengths, offsets and padding are those of the token, or its fault, without overflow |
| DeviceTree.HardwareInfo.SaveCells | kernel/Hardware/DeviceTree.c:304-325 | root cell counts are stored exactly as the pure step says |
| DeviceTree.NoteNode | kernel/Hardware/DeviceTree.c:330-339 | the node locals follow the pure step for `device_type` and `reg` |
| DeviceTree.HardwareInfo.DecodeMemory | kernel/Hardware/DeviceTree.c:340-358 | memory is decoded exactly when the pure step decodes it |
| DeviceTree.HardwareInfo.HandleProperty | kernel/Hardware/DeviceTree.c:304-358 | everything done with one property is the pure property step |
| DeviceTree.HardwareInfo.WalkToken | kernel/Hardware/DeviceTree.c:183-372 | one iteration consumes one token of the cut, does its step, keeps the cursor in the block and 4-aligned |
| DeviceTree.VerdictAfter | kernel/Hardware/DeviceTree.c:172-373 | one iteration keeps the verdict that the rest of the block will give |
| DeviceTree.HardwareInfo.WalkTokens | kernel/Hardware/DeviceTree.c:165-384 | the byte-level loop terminates and reaches exactly the verdict and harvest of cutting and folding |
| DeviceTree.HardwareInfo.WalkStructureBlock | kernel/Hardware/DeviceTree.c:151-384 | the same, for the block the header describes |
| DeviceTree.ParseDeviceTreeBlob | kernel/Hardware/DeviceTree.c:18-394 | for every readable blob, verdict, reason, header, reservations, cell counts and regions are those of the specification `Parse` |
| DeviceTreeRoundTrip.ParsesAsTree | kernel/Hardware/DeviceTree.c:18-394 | a blob whose structure block is any tree's, wherever the blocks lie, parses exactly when header, reservations and tree are acceptable, and yields what the recursion over the tree yields: for a proper tree, what it declares |
| DeviceTreeRoundTrip.EncodeThenParse | kernel/Hardware/DeviceTree.c:18-394 | encode, then parse: what any tree yields and any reservations come back, whatever surrounds the blob in memory; for a proper tree, what it declares |
| DeviceTreeLayout.AnyLayout | kernel/Hardware/DeviceTree.c:18-394 | encode, then parse, with the blocks anywhere inside the total size and any free space before, between and after them: what the tree yields and the reservations come back |
| DeviceTreeLayout.NoHeader | kernel/Hardware/DeviceTree.c:24-45 | no blob, a wrong magic number and a total size below 40 are reported, and no more than that is read |
| DeviceTreeLayout.OutOfBounds | kernel/Hardware/DeviceTree.c:90-106 | a block that leaves the blob is reported, in the order of reservations, structure and strings; what is accepted has all three inside |
| DeviceTreeLayout.ReservationFaults | kernel/Hardware/DeviceTree.c:112-146 | the reservations are rejected exactly when none of the first 255 entries is zero, or the blob ends before a zero entry |
| DeviceTreeExample.ExampleParses | kernel/Hardware/DeviceTree.c:18-394 | a small blob given word by word, with a gap before, between and after the blocks, parses to its literal header, reservation, cell counts and region |
| DeviceTreeExample.ParseExample | kernel/Hardware/DeviceTree.c:18-394 | the parser's own fields after that blob, as numbers |
| DeviceTreeRoundTrip.Relocatable | kernel/Hardware/DeviceTree.c:18-394 | the same bytes at another address with the same residue modulo 4 parse the same, accepted or rejected, for whatever reason; of a rejected header only the bytes that were read count |
| Console.Terminal.Write | kernel/Console/IO.c:13-26 | each newline is preceded by a carriage return, everything else is sent as it is |
| Console.WireOfLines | kernel/Console/IO.c:13-26 | lines of text with byte 10 between them are sent with bytes 13, 10 between them, and nothing else is added |
| Console.Terminal.Print | kernel/Console/IO.c:28-31 | the string before the terminator is written |
| Console.Terminal.ReadLine | kernel/Console/IO.c:47-91 | the buffer, the input consumed and the echo are those of the line specification; the text is terminated within `size` and bytes beyond it are untouched |
| Console.Terminal.ReadKey | kernel/Console/IO.c:54-88 | one iteration reads one key and leaves the rest of the line to come |
| Console.Terminal.PressKey | kernel/Console/IO.c:69-87 | one keystroke is a push or a pop, with its echo |
| Console.PlainKeys | kernel/Console/IO.c:69-87 | keys other than bytes 8 and 127 are added and sent back as they are |
| Console.EraseKeys | kernel/Console/IO.c:69-79 | bytes 8 and 127 remove the last character, and send 8, 32, 8; on an empty line they do nothing |
| Console.Undone | kernel/Console/IO.c:69-87 | typing a character and erasing it, wherever it happens, leaves no trace in the line |
| Console.LineMeaning | kernel/Console/IO.c:47-91 | the text is the push-and-pop fold of the keystrokes; the line ends at its first byte 10 or 13 or as soon as size - 1 characters are held, and no earlier |
| Console.EchoShowsText | kernel/Console/IO.c:54-88 | a terminal fed the echo shows exactly the held text after every keystroke, cursor at its end, blanks to the right |
| Console.SegmentsConserve | kernel/Console/IO.c:54-90 | successive line reads split the input into consecutive lines: no byte is lost or read twice, also across an overfull line |
| Hex.PrintHexBytes | kernel/Console/IO.c:123-147 | two digits for each byte, in the order of memory |
| Hex.PrintHexValue | kernel/Console/IO.c:93-121 | on a machine of either byte order, what byte printing gives for the bytes, most significant first |
| Hex.PrintedDigits | kernel/Console/IO.c:99-146 | each byte is printed as the digits, out of 0123456789ABCDEF, of its upper and its lower half |
| Hex.DigitsStandFor | kernel/Console/IO.c:161-169 | the characters of 0123456789abcdef and 0123456789ABCDEF, and no others, are digits, and are worth their place |
| Hex.HexOfValue | kernel/Console/IO.c:99-146 | the printed digits have the positional value of the bytes |
| Hex.VariablePrintsAsValue | kernel/Console/IO.c:93-121 | printing the memory of a 64-bit variable prints its sixteen digits, on a machine of either byte order |
| Hex.Uint64FromHex | kernel/Console/IO.c:149-174 | on any string, the positional value of the longest run of at most 16 digits after an optional prefix; shift-and-or loses no bit |
| Hex.ParsedHexFits | kernel/Console/IO.c:149-174 | the value fits 64 bits |
| Hex.SpellingParses | kernel/Console/IO.c:149-174 | every spelling of a value in the digits of either case, mixed or not, with or without prefix, parses to it |
| Hex.LongestRun | kernel/Console/IO.c:149-174 | after the optional prefix, sixteen digits, or fewer in front of a character that is no digit, are all that counts |
| Hex.PrintThenParse | kernel/Console/IO.c:93-174 | parsing the printed form of any 64-bit value returns it |
| Tokeniser.TokenizeCommand | kernel/Console/Shell.c:40-75 | each token, read as a C string afterwards, is the corresponding run of the original line, cut off at the maximum; only blanks were overwritten, only with NUL |
| Tokeniser.SplitCommand | kernel/Console/Shell.c:52-74 | the loop, for a non-empty line |
| Tokeniser.RunReadsBack | kernel/Console/Shell.c:57-72 | a run whose blank was overwritten, or that ends the line, reads back as a string |
| Tokeniser.TokensReadBack | kernel/Console/Shell.c:57-74 | wherever the loop stops, every token found so far is terminated and is its run |
| Tokeniser.SpacedThenTokens | kernel/Console/Shell.c:40-75 | words joined by any blanks tokenise back to the words |
| Tokeniser.OneSeparator | kernel/Console/Shell.c:52-74 | one of the bytes 9, 10, 13 and 32 between two words makes them two tokens, and any other byte makes them one |
| Tokeniser.TokensMakeLine | kernel/Console/Shell.c:40-75 | every line is its tokens in order, with nothing but blanks between and after them |
| Shell.DispatchCommand | kernel/Console/Shell.c:77-110 | the output and whether the command returns are those of the dispatch specification for the line, whatever the other handlers do |
| Shell.Resolve | kernel/Console/Shell.c:87-109 | the first command whose name equals the first token runs; its failure and an unknown name are reported |
| Shell.AddHandler | kernel/Console/Shell.c:116-127 | usage and failure unless there are three arguments; else the digits of the 64-bit sum |
| Shell.AddPrintsSum | kernel/Console/Shell.c:40-127 | `add x y`, with any spelling and any blanks, prints the 16 digits of (x + y) modulo 2^64, CR LF and nothing else |
| Shell.LeadingBlankIsUnknown | kernel/Console/Shell.c:52-109 | a line that starts with a blank never runs a command |
| Shell.FirstWordRuns | kernel/Console/Shell.c:52-103 | a line whose first word is a command's name runs that command exactly when it does not start with a blank |
| Shell.NamedButNotRun | kernel/Console/Shell.c:52-109 | a blank and `add`: the first word is a command's name, and no command runs |
| ShellReplies.CommandRuns | kernel/Console/Shell.c:77-104 | a line whose first token is the i-th name runs the i-th handler with the first ten tokens; if it fails, the message with the name follows |
| ShellReplies.UnknownCommand | kernel/Console/Shell.c:105-109 | any other first token is reported in the words of the source |
| ShellReplies.AddUsage | kernel/Console/Shell.c:93-120 | with any number of arguments but two, `add` prints its usage and that it failed |
| ShellSession.RunShellLoop | kernel/Console/Shell.c:299-309 | over any finite input, the loop's whole output is that of the session specification |
| ShellSession.LineIsLocal | kernel/Console/IO.c:54-90 | reading a line does not depend on what comes after it |
| ShellSession.SessionIsTranscript | kernel/Console/Shell.c:301-309 | a session's output is that of its segments, each read and dispatched on its own, in order |
| ShellSession.KeysMakeLine | kernel/Console/IO.c:54-88 | keys that do not end the line, then one that does, are read as one line |
| ShellSession.TypedLine | kernel/Console/Shell.c:301-309 | whatever is typed and erased, at byte 10 or 13 the keys are echoed, the line left is dispatched, and the prompt follows if the command returns |
| ShellSession.TypedFull | kernel/Console/Shell.c:299-309 | as soon as 254 characters are held, the line is dispatched without Enter |
| ShellSession.TypedNothing | kernel/Console/Shell.c:301-309 | Enter on a line with nothing left on it only prompts again |
| ShellExample.ExampleSum | kernel/Console/Shell.c:116-127 | the bytes of `add 0x1234 0xdbca` and Enter give the bytes of 000000000000EDFE, a line end and a new prompt |
| ShellSession.TypedSum | kernel/Console/Shell.c:301-309 | whatever is typed and erased, when the line left asks for a sum and Enter is pressed, the shell echoes the keys, prints the sum and prompts again |
| Boot.TilesFill | platform/virt/boot.s:29-45 | stores that cover a range in order do what a byte fill does |
| Boot.TilesAreInside | platform/virt/boot.s:29-45 | such stores stay inside the range |
| Boot.Ram.ClearHead | platform/virt/boot.s:29-34 | at most seven single bytes, up to an aligned address or the end |
| Boot.Ram.ClearBulk | platform/virt/boot.s:35-41 | aligned doublewords while eight bytes remain |
| Boot.Ram.ClearTail | platform/virt/boot.s:42-45 | the bytes that are left, fewer than eight |
| Boot.Ram.ClearBss | platform/virt/boot.s:26-46 | for any start and end it terminates, the range is zero and nothing else changed; every byte is stored once, wide stores are aligned and inside; nothing is stored if start >= end |
| Exceptions.ExceptionClass | arch/arm64/ExceptionHandler.c:99-105 | bits 31 to 26 of the syndrome |
| Exceptions.Iss | arch/arm64/ExceptionHandler.c:107-109 | bits 24 to 0 of the syndrome |
| Exceptions.Handler.HandleException | arch/arm64/ExceptionHandler.c:232-323 | in numbers: a tick is resumed, call 0x4444 restarts with its notice, 0x7777 is fatal, any other call is echoed by x8 and clears the flag; everything else prints its report or, nested, halts without output |
| Exceptions.Handler.PrintReport | arch/arm64/ExceptionHandler.c:282-321 | the banner with its values, one line for each of the 32 saved registers in order, and the last line |
| ExceptionTrace.RunPrints | arch/arm64/ExceptionHandler.c:232-323 | the whole output of a run, exception by exception, with the numbers of the architecture |
| ExceptionTrace.EchoesInOrder | arch/arm64/ExceptionHandler.c:251-266 | the echoes of a run are the x8 values of its calls other than 0x4444 and 0x7777, in order |
| ExceptionRuns.QuietRunsAreGuarded | arch/arm64/ExceptionHandler.c:216-323 | in every run without an echoed call inside a fatal exception, the flag is set exactly while a fatal exception is being handled |
| ExceptionRuns.FlagIsLatest | arch/arm64/ExceptionHandler.c:216-323 | in every run, the flag is set exactly when the latest of the fatal exceptions and echoed calls taken is fatal |
| ExceptionRuns.NestedFatalIsSilent | arch/arm64/ExceptionHandler.c:269-276 | a fatal exception inside another one prints nothing exactly when the latest of the fatal exceptions and echoed calls is fatal; so in every run without such a call it stops the machine silently |
| ExceptionRuns.FatalIsSilent | arch/arm64/ExceptionHandler.c:269-323 | a fatal exception stops the machine with no output exactly when the latest of the earlier fatal exceptions and echoed calls is fatal; otherwise it prints its report |
| ExceptionRuns.SecondBanner | arch/arm64/ExceptionHandler.c:256-284 | a run prints two banners or more exactly when a fatal exception is taken after a call was echoed inside a fatal exception, step by step |
| ExceptionRuns.TwoBanners | arch/arm64/ExceptionHandler.c:256-284 | a concrete run with two banners |
| ExceptionRuns.BannerAtMostOnce | arch/arm64/ExceptionHandler.c:216-323 | a run prints at most one banner exactly when no fatal exception is taken after a call was echoed inside the handling of a fatal exception |
| ExceptionRuns.QuietIsSafe | arch/arm64/ExceptionHandler.c:216-323 | at no moment of a run would the next exception print a second banner, exactly when no call is echoed inside the handling of a fatal exception |
| ExceptionRuns.OneByOneRuns | arch/arm64/ExceptionHandler.c:216-323 | without nesting, the flag is clear at every entry, the report is printed at most once and last, and the run goes on exactly while every exception is a tick or an echoed call |
| ExceptionEntry.Cpu.SaveFrame | arch/arm64/ExceptionVectors.s:99-117 | the 32 slots hold x0 to x30 and the lowered stack pointer; no other memory changes |
| ExceptionEntry.Cpu.RestoreFrame | arch/arm64/ExceptionVectors.s:149-165 | x0 to x30 and sp come from the frame |
| ExceptionEntry.Cpu.TakeException | arch/arm64/ExceptionVectors.s:91-175 | one exception is one visit of the run model; it returns, reboots or stops by the numbers of kind, class and x8; when it resumes, sp is exact and the registers are those the handler left in the frame, hence unchanged if it left the frame intact |
| ExceptionEntry.Cpu.TakeInTurn | arch/arm64/ExceptionVectors.s:91-175 | exceptions without nesting, each with its own program and stack pointer, follow the run of their causes; each resumed program has its stack pointer and the registers left in its frame, so its own registers if the handler left the frame alone |
| ExceptionNesting.TakeNest | arch/arm64/ExceptionVectors.s:91-175 | an exception with others nested in it to any depth, frames on the stack: the machine follows the run of the nest, changes no slot in use, and if it resumes, the interrupted program has its registers and stack pointer |
| ExceptionNesting.FromNest | arch/arm64/ExceptionVectors.s:91-175 | the run of an exception is that of those before its decision, the decision, those after it, and its end |
| ExceptionNesting.TakeAll | arch/arm64/ExceptionVectors.s:91-175 | from the start, nested exceptions follow the run model, so the machine prints at most one banner exactly under the condition on runs |

## Left out

- DeviceTreeMeaning.TreeMeaning: covers nodes with unique property names, as the specification demands; DeviceTreeAnyTree.AnyTreeMeaning covers the others. Trees with an unnamed node below the root are covered by DeviceTreeFlatten.FlattenThenWalk alone.
- DeviceTree.ParseDeviceTreeBlob: does not model the console output of the parser (kernel/Hardware/DeviceTree.c:56-86, 386-393), nor what the caller's structure holds after a panic.
- Memory.PhysicalMemoryRegions: does not model the contents of the output array after a panic, nor the printed diagnostics; the casts to pointer width at kernel/Memory/Memory.c:102-109 cannot fail on a 64-bit machine.
- Console.Terminal.ReadLine: does not wait; when the finite input is used up it reports that it is still waiting.
- Shell.DispatchCommand: takes the handlers other than `add` as a parameter that may print anything, fail, or not return; their own formatting and raw memory reads are not modelled.
- Exceptions.Handler.HandleException: records the echo, the restart notice and the lines of the fatal report as events with their values, not as text; the name tables (arch/arm64/ExceptionHandler.c:12-50, 117-214) only choose printed text.
- ExceptionEntry.Cpu.TakeException: memory is addressed in doublewords, and what compiled code leaves in the registers and in memory is a parameter; the system registers restored by `eret` are not modelled.
- ExceptionNesting.TakeNest: does not model code that stores into a live frame; nested exceptions are taken before or after the decision about the outer one, not inside a printed line.
- platform/rpi/boot.s: repeats the clearing loop of platform/virt/boot.s.
- UART, interrupt controller, watchdog and power registers: replaced by an input sequence, an output trace and a parameter that says whether an interrupt was a timer tick.
- System register set-up, the change of exception level and inline assembly have no meaning in the model.
- Uptime, `info`, `help` and `memread` would only add formatting and finite lookups.
