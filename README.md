# tty-raw: a Dafny model of the raw input reporter

`tty-raw` puts the terminal in raw mode and reports every chunk of bytes it
reads from standard input. A chunk with at most one escape byte is handled whole.
A chunk with k > 1 escape bytes goes through k - 1 passes, each cutting off
the prefix that ends before the next escape byte after position 0; whatever is
left after the last pass is dropped. When the chunk starts with an escape byte
the slices are its first k - 1 escape sequences and the last one is dropped;
when it does not, the first slice is the leading text and the last two escape
sequences are dropped. Every handled slice is printed
as text: ASCII punctuation, letters and digits (0x21..0x7E) stay as they are, and
any other byte, space included, is shown as unpadded lower-case hex. Each handled
slice also goes to an external event parser, and the decoded event, if any, is
printed as well. After each non-empty read the program quits if the last two
key presses decoded so far were both `q`; each slice is decoded once, so
a read such as `qq` (one slice) yields at most one event, and presses in a
dropped tail are never seen. Before the loop starts it turns the command-line
switches into a set of keyboard-enhancement flags.

The model follows `src/main.rs` in six modules:

- `Events` (events.dfy): bytes, the escape byte and the events the parser
  returns. `ParseOutcome` stands for the parser's `io::Result<Option<Event>>`.
  `Collapse` is `.ok().flatten()`. The parser is a function-valued parameter
  (`Decoder`) and is never given a body.
- `Rendering` (render.dfy): the text line `write_sequence` prints for a slice.
  It is a pure per-byte map joined with no separator, and it uses Rust's
  `{:#02x}` format for non-printable bytes.
- `Segment` (segment.dfy): escape counting and the cut loop as functions. `Cut`
  is the loop, run from a given count. `Sent` is the list of slices handed to
  `write_sequence`. `Unsent` is the tail the loop leaves over.
- `Quit` (quit.dfy): the `q_key_count` protocol as a fold over decoded events.
- `InputLoop` (input_loop.dfy): `write_sequence`, and the per-chunk body of
  `main` as a method whose loop cuts the slice and updates the counter, proved
  against `Segment` and `Quit`. It also holds the outer loop over a finite list
  of reads.
- `Enhancement` (flags.dfy): the options record and the method that ORs
  flags into an initially empty set.

Two details of the code are easy to misread:

- `{:#02x}` counts the `0x` prefix in the width of 2, so there is no zero
  padding. Byte 0x05 prints as `0x5`.
- When a chunk holds more than one escape byte, the slice left when the cut
  loop stops is never written or decoded. The `else if` that handles a single
  sequence is only reached when the count is at most 1.

## Model

| member | source | states |
|---|---|---|
| Events.Collapse | src/main.rs:169 | the result is an event exactly when the parser succeeded with an event, and then it is that event; parse errors and "no event" both become None |
| Rendering.Utf8Single | src/main.rs:156-157 | a one-byte vector is valid UTF-8 exactly when the byte is below 0x80, and then it decodes to the character with that code point |
| Rendering.LowerHex | src/main.rs:163 | the digits of `{:x}` form a non-empty lower-case hex numeral without a leading zero (except for 0), and the numeral has one digit exactly when n < 16 |
| Rendering.HexRoundTrip | src/main.rs:163 | reading the hex digits back gives the number printed |
| Rendering.FormatAltHex | src/main.rs:163 | `{:#0Wx}` is as wide as the prefix plus the digits, or W if W is larger |
| Rendering.FormatAltHexValue | src/main.rs:163 | for every width the text is "0x" followed by a hex numeral whose value is the number |
| Rendering.NoPadding | src/main.rs:163 | with width 2 no zero padding is added: "0x" and the bare digits, 3 characters below 0x10 and 4 above |
| Rendering.RenderByte | src/main.rs:155-164 | bytes 0x21..0x7E (ASCII punctuation and alphanumerics) render as their own character; every other byte, including space, controls and bytes from 0x80 up, renders as "0x" plus unpadded lower-case hex |
| Rendering.Render | src/main.rs:153-166 | the joined text is at least as long as the slice |
| Rendering.RenderAppend | src/main.rs:153-166 | rendering a concatenation is the concatenation of the renderings, so there is no separator |
| Rendering.RenderOfByte | src/main.rs:153-166 | each byte contributes its own text, in place and in order |
| Rendering.RenderPrintable | src/main.rs:153-166 | a slice of printable bytes is shown verbatim, character for byte |
| Rendering.RenderExamples | src/main.rs:149-166 | ESC '[' 'A' renders as "0x1b[A"; 0x05 as "0x5"; ESC 'a' as "0x1ba"; space and 0xFF as "0x200xff" |
| Segment.CountEsc | src/main.rs:98 | the escape count never exceeds the slice length |
| Segment.CountEscMultiset | src/main.rs:98 | the escape count is the number of occurrences of 0x1B in the slice |
| Segment.FirstEsc | src/main.rs:101 | the position found holds an escape byte with none before it; None means there is no escape byte |
| Segment.CutStep | src/main.rs:101 | with at least two escape bytes the search after position 0 succeeds, so the `.unwrap()` cannot fail; the cut point lies in [1, len), holds an escape byte, and the piece before it has none after position 0 |
| Segment.CutPoint | src/main.rs:101 | `next_esc` lies in [1, len) and at least count - 1 escape bytes remain after it |
| Segment.Cut | src/main.rs:100-117 | the slices cut off, followed by the rest, concatenate to the input |
| Segment.CutLength | src/main.rs:99-117 | started with count k, the loop cuts exactly k - 1 slices |
| Segment.CutPieces | src/main.rs:101-116 | every slice is non-empty and has no escape byte after position 0; the first starts where the input does, every later one with an escape byte |
| Segment.CutRest | src/main.rs:100-117 | the tail left when the loop stops is non-empty, starts with an escape byte, and holds the count the cut steps leave |
| Segment.SentCover | src/main.rs:97-118 | slices written plus tail left over give back the chunk; with at most one escape byte the whole chunk is written once and nothing is left; with k > 1 there are k - 1 slices and a non-empty tail is always left |
| Segment.SentPieces | src/main.rs:97-118 | slices of a non-empty chunk are non-empty; with several escape bytes each slice has none after position 0, every slice but the first starts with one, and the unwritten tail starts with one and holds one sequence (two when the chunk does not start with an escape byte) |
| Segment.CutExampleTwoSequences | src/main.rs:99-118 | for ESC 'a' ESC 'b' only ESC 'a' is written; ESC 'b' is left over |
| Segment.CutExampleLeadingText | src/main.rs:99-118 | for 'x' ESC 'a' ESC 'b' only 'x' is written; both escape sequences are left over |
| Segment.CutExampleSingle | src/main.rs:98-99 | a chunk with one escape byte is written whole |
| Quit.QuitStep | src/main.rs:104-113 | only a key press changes the counter: 'q' adds 1, any other pressed key resets it to 0; other events, release and repeat kinds, and None leave it unchanged |
| Quit.CounterIsTrailingRun | src/main.rs:92 | the counter equals the number of 'q' presses that end the press history; the start value survives only if every press was 'q' |
| Quit.QuitFoldAppend | src/main.rs:100-125 | counting over two runs of events in turn is counting over their concatenation |
| Quit.QuitFoldBound | src/main.rs:104-113 | each event raises the counter by at most one |
| Quit.NonPressesIgnored | src/main.rs:104-107 | a run with no key presses leaves the counter unchanged |
| Quit.QuitExamples | src/main.rs:104-130 | presses q q reach 2 and exit; q x q leaves 1 and continues; q q x in one chunk does not exit; release, repeat, mouse and None do nothing |
| InputLoop.WriteSequence | src/main.rs:149-174 | the event returned is the collapsed parse of the slice; the rendered line is printed first, followed by the event line exactly when there is an event |
| InputLoop.WriteAndCount | src/main.rs:104-125 | one slice is written and the counter takes the QuitStep of the event returned |
| InputLoop.ProcessChunk | src/main.rs:96-130 | the slices written are Sent(chunk); one slice (the whole chunk) when it holds at most one escape byte, k - 1 slices otherwise; slices plus unsent tail give back the chunk; the output is exactly the lines for those slices; the counter is folded over their events in order; the exit flag is counter > 1 |
| InputLoop.CutLoopStep | src/main.rs:100-117 | one pass of the cut loop finds `next_esc` at the cut point and keeps the loop invariant: count at most the escape bytes left, and slices so far plus the cut of what is left give the cut of the chunk |
| InputLoop.DroppedTailExample | src/main.rs:99-118 | for the read ESC 'a' ESC 'b' only ESC 'a' is decoded and printed (as "0x1ba"); the second sequence produces no output and no event |
| InputLoop.Run | src/main.rs:92-133 | reads are handled in order; the loop stops right after the first non-empty read whose exit test succeeds, otherwise it consumes every read; the counter and the output are those of the reads consumed; the counter is at most 1 between reads and never exceeds 1 + 4096, so the `i32` of `q_key_count` cannot overflow |
| InputLoop.CounterAcrossReads | src/main.rs:92-130 | chunk boundaries do not matter to the counter: it is the fold over all events decoded so far, that is, the trailing run of 'q' presses |
| InputLoop.QuitsAfterIff | src/main.rs:128-130 | the loop exits after a read exactly when the read was non-empty and the last two key presses decoded so far were both 'q' |
| Enhancement.EnhancementFlags | src/main.rs:70-82 | each of the four flags is in the set exactly when its own option or all_kitty is set; nothing else is; all_kitty gives all four; no options give the empty set |

## Left out

- Raw mode, the `queue!`/`execute!` terminal commands (mouse capture, bracketed paste, focus change, `MoveToColumn`), `flush`, and pushing or popping the enhancement flags. These are terminal I/O. The mouse, paste and focus switches are kept in `Options` but drive nothing.
- Whether the terminal supports keyboard enhancement. This is a query to the terminal and only decides whether the flags are pushed.
- `stdin.read` and `thread::sleep`. The reads are a finite list of chunks of at most 4096 bytes, and a read of 0 bytes is an empty chunk. The loop runs forever in the source; the model stops when the list ends.
- Errors propagated with `?` from writes, reads and terminal commands. This is I/O failure plumbing; every write is taken to succeed.
- The event parser's internals and the `{event:?}` debug text. The parser is a foreign library, kept as an uninterpreted `Decoder`, and an event line carries the event value instead of its text.
- Command-line parsing. `Options` is a record of booleans.
- Key modifiers and lock state, and the contents of mouse events: the loop never inspects them. Paste text and resize dimensions are carried in `Event` but nothing in the model reads them.
