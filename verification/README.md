# basementui core, modelled in Dafny

This project models the Go terminal UI library of basementui and proves
properties of that model. The library has six parts:

- **Cell buffer and frame diff.** A width × height grid of styled cells
  (`Buffer`). It has bounds-checked `Set`/`Get`, a content-preserving
  `Resize` and clearing. Multi-line text drawing is `drawTextUnlocked`.
  The diff renderer `renderUnlocked` writes only the cells that changed
  between the back and front buffers.
- **Key decoder.** Raw terminal bytes become `KeyEvent`s: control bytes,
  DEL, CSI sequences (ESC `[` params final) and SS3 sequences (ESC `O` x).
- **Flex layout.** `LayoutNode` trees are built with `Row`, `Col` and
  `Box`. The measure pass `Measure` handles padding and border, Fixed,
  Auto and Flex sizes, and truncating proportional flex shares. `Draw`
  places the children and paints borders and text content.
- **Template AST and renderer.** `ParseAST` is the line-oriented markdown
  subset: fenced code, list grouping, headers, rules, quotes, and the
  inline token pass `parseInline`. `Template` numbers the holes.
  `renderNode` walks the tree with its cursor-advance rules.
- **Basement string pass.** `processCodeBlocks` pairs backtick runs and
  hides each code span behind its hash. `Parse` restores the spans
  afterwards. `getColor`/`GetColorCode` map colour names to SGR
  sequences.
- **Reactive signals.** Signals, Computeds and Effects, with dependency
  tracking, dirty flags and nested `Batch` queuing.

There is one module per source component:

| file | module | models |
|---|---|---|
| wrappers.dfy | `Wrappers` | `Option` |
| text.dfy | `Text` | the `strings`/`strconv` helpers the code relies on |
| style.dfy | `Styles` | `Style`, `GetColorCode` |
| ast.dfy | `Ast` | `Node`, `NewNode`, `AddChild` |
| parser.dfy | `Parser` | `ParseAST`, `parseInline`, with the regular expressions as matchers |
| basement.dfy | `Basement` | `processCodeBlocks`, the restore loop of `Parse`, `getColor` |
| keys.dfy, input.dfy | `Keys`, `Input` | `KeyEvent`, the byte decoder |
| screen.dfy | `Screen` | `Buffer` and the diff renderer |
| layout.dfy | `Layout` | `Size`, `LayoutNode`, the tree constructors |
| layout_engine.dfy | `LayoutEngine` | `Measure`, `Draw`, content and border drawing |
| render.dfy | `Renderer` | `Template`, `assignHoles`, `renderNode`, `mergeStyles`, `containsMarkup` |
| signals.dfy | `Signals` | the reactive graph |

## Modelling choices

**Text and bytes**
- Strings are sequences of runes. Every slice the code takes is at an
  ASCII delimiter, so byte offsets and rune offsets agree there.
- The key decoder works on bytes (0..255).

**Regular expressions.** Each regular expression is replaced by a
matcher written by hand with the RE2 meaning:
- the leftmost match;
- alternatives tried in order;
- `.+?` as the shortest stretch;
- `.` never matching a newline.

`Parser.MatchAt` and `Parser.NextMatch` are the inline pattern.
`Basement.RunsFrom` is the backtick-run pattern.

**Signals**
- The objects are numbered:
  - signals in creation order;
  - computeds in creation order, each reading only signals and earlier
    computeds;
  - effects.
- A computed's closure is a weighted sum of the values it reads.
- An effect's closure is a list of reads. It records the values it saw
  and how often it ran.
- A Go map used as a set is a duplicate-free sequence. Its order is one
  admissible iteration order.

**Input timeouts.** A timeout while reading is the end of the input.

**Layout and render values.** `interface{}` values are either layout
nodes or text. A signal child is resolved to its value before it reaches
the model.

**Terminal output.** The diff renderer emits abstract items:
- a cursor move;
- a reset;
- a style switch;
- a rune.

`Screen.Apply` gives these items their terminal meaning. The cursor
sequence itself is modelled byte for byte (`Screen.CursorPos`).

**Where the model departs from the code**
- A hole is looked up with the guard `0 <= HoleID < len(args)`
  (`Renderer.HoleLookup`), not the written `HoleID < len(args)`
  (go/tui/render.go:203-204), which panics on the hole numbered -1 that a
  dynamic "!%v" argument produces; see the second Findings row.
- `wrapChild` turns a value that is not a `*LayoutNode` into a leaf
  `*LayoutNode` with `Content` set (go/tui/layout_api.go:77-85). The engine
  type-switches each child on `*LayoutNode` (go/tui/layout_engine.go:45,
  100 and 186) and never reads `Content`. As written, such a leaf therefore
  measures as an empty Auto node and its text is never drawn, so
  `measureContent` and `drawContent` are unreachable from the API. The
  model measures and draws a leaf's content with them instead
  (`LayoutEngine.KindOf` reads a leaf with content as content), which is
  the behaviour those two functions exist for.

**Where the code is followed over its documentation**
- The layout API links children through `FirstChild`/`LastChild`/`Prev`/`Next`.
  go/tui/layout.go:42-56 declares none of these fields, and the engine
  iterates `Children`. The model keeps one ordered child sequence, and
  `Layout.AddChild` states the linked-list view over it.
- `getColor` wraps the text in reverse video whenever `bg` is non-empty,
  even when the colour name is unknown (go/basement/basement.go:206-219).
  An unknown name does not return the text unchanged in that case, and
  the model follows the code.

## Model

| member | source | states |
|---|---|---|
| Text.TrimSpace | go/basement/parser.go:33 | the result is an infix of the line with only white space around it and no white space at either end |
| Text.TrimWitness | go/basement/parser.go:33 | trimming the left and then the right gives an infix bordered by white space on both sides |
| Text.IndexOf | go/tui/input.go:193-200 | `indexOf` returns the least position holding the separator, or -1 exactly when there is none |
| Text.LastIndexOf | go/basement/parser.go:178 | `strings.LastIndex` for `)`: the greatest position holding it, or -1 when absent |
| Text.ContainsRune | go/tui/render.go:251 | a one-rune pattern is contained exactly when the rune occurs |
| Text.Split | go/basement/parser.go:24 | a split has at least one piece, and no piece contains the separator |
| Text.JoinSplit | go/basement/parser.go:24 | joining the lines of a split with "\n" gives the input back |
| Text.SplitJoin | go/basement/parser.go:24 | splitting a join of separator-free lines gives the lines back |
| Text.Decimal | go/tui/screen.go:333-335 | the decimal text of a number is at least one digit, with no leading zero |
| Text.DecimalRoundTrip | go/tui/screen.go:333-335 | the decimal digits read back to the number written |
| Styles.GetColorCode | go/basement/style.go:17-30 | the result is "", or SGR 90, or SGR 30..37 |
| Styles.GetColorCodeMatchesPalette | go/basement/style.go:18-28 | black..white and grey map to SGR 30, 31, 32, 33, 34, 35, 36, 37 and 90; every other name, other case included, maps to "" |
| Styles.SgrInjective | go/basement/style.go:19-27 | distinct SGR parameters give distinct escape sequences |
| Styles.GetColorCodeInjective | go/basement/style.go:19-27 | distinct recognised colour names give distinct codes |
| Ast.NodeTypeCode | go/basement/ast.go:6-18 | node types carry their iota values 0..10, with Root as 0 |
| Ast.NodeTypeCodeInjective | go/basement/ast.go:6-18 | two node types share a code only when they are equal |
| Ast.NewNode | go/basement/ast.go:31-36 | a new node has the given type, no children, empty content and language, the zero style and hole id 0 |
| Ast.AddChild | go/basement/ast.go:39-41 | the child count grows by one, the argument is last, earlier children and all other fields are unchanged |
| Ast.AddChildTwice | go/basement/ast.go:39-41 | two additions append both children in call order |
| Parser.RunEnd | go/basement/parser.go:10-18 | a greedy run stops at the first rune outside its class or at the end |
| Parser.LineEnd | go/basement/parser.go:10-18 | a greedy `.+` stops at the next newline or the end of the text |
| Parser.CaptureStart | go/basement/parser.go:10-13 | the capture starts at the last position where `[ \t]{min,}` can end and `.+` can take a rune; none exactly when no position works |
| Parser.BlanksStopAt | go/basement/parser.go:10-13 | no capture starts beyond the first rune that is not a blank |
| Parser.HeaderOf | go/basement/parser.go:75-77 | a header has 1 to 6 leading `#`, then a blank, then non-empty text without newline; a line not starting with `#` is no header |
| Parser.ListItemOf | go/basement/parser.go:59-65 | after the leading blank run a list line has a marker rune `*`, `+`, `-` or a digit, and its item text is non-empty, without newline |
| Parser.QuoteOf | go/basement/parser.go:100-102 | a quote line starts with `>`, and its text is non-empty, without newline |
| Parser.HeaderOfMatches | go/basement/parser.go:10 | exactly the header pattern: whenever `#`×h (1 ≤ h ≤ 6) is followed by blanks and the RE2 capture starts at j, the result is level h with the text captured from j; a result means the pattern matched |
| Parser.ListItemOfMatches | go/basement/parser.go:12 | exactly the list pattern: after the blank run, a `*`, `+` or `-` marker or digits and a dot, then blanks; the item text is the capture, and a result means the pattern matched |
| Parser.QuoteOfMatches | go/basement/parser.go:13 | exactly the quote pattern: `>`, optional blanks, and the text captured from the RE2 capture start; a result means the pattern matched |
| Parser.ListLineNotFence | go/basement/parser.go:33-59 | a list line never reads as a code fence, so the fence test cannot take it |
| Parser.FindClose | go/basement/parser.go:18 | `.+?` followed by the closer stops at the least end with a non-empty newline-free stretch |
| Parser.Delimited | go/basement/parser.go:18 | a delimited match spans the opener, a non-empty stretch and the closer |
| Parser.ColorAt | go/basement/parser.go:18 | a colour match is a well-formed colour token: `!` optional, `#`, a 3 to 8 rune alphanumeric name, and a non-empty bracketed text |
| Parser.ColorShape | go/basement/parser.go:18 | every colour match has the shape the colour branch of the dispatch expects |
| Parser.MatchAt | go/basement/parser.go:18 | the first alternative in priority order that matches at a position, and its end |
| Parser.NextMatch | go/basement/parser.go:126 | the leftmost position at or after a point where the inline pattern matches, and nothing matches before it |
| Parser.NoMatchAtPlain | go/basement/parser.go:18 | the pattern cannot match at a rune that starts none of its alternatives |
| Parser.Segments | go/basement/parser.go:125-139 | the leftmost non-overlapping matches and the text between them spell the line back; each token is well formed |
| Parser.SegmentsJoin | go/basement/parser.go:128-139 | a plain piece, a match and the segments after it keep that shape |
| Parser.ColorTokenStyled | go/basement/parser.go:174-197 | a well-formed colour token yields a Style node with its colour code over the bracketed text |
| Parser.ColorDispatch | go/basement/parser.go:174-197 | the colour branch: a style over text strictly shorter than the token, and a slice panic only for a token starting `(` or `!(` |
| Parser.DispatchAsWritten | go/basement/parser.go:141-197 | the prefix dispatch: a hole exactly for "%v", a style over strictly shorter text, and a panic only for a token shorter than 4 runes or starting `(` or `!(` |
| Parser.DispatchByAlt | go/basement/parser.go:141-200 | a hole token gives a hole; every other token gives a Style node over a non-empty text shorter than the token |
| Parser.DispatchAgrees | go/basement/parser.go:141-200 | the dispatch by prefix and the one by alternative agree on every token, except an italic token that starts with `**` |
| Parser.ColorAgrees | go/basement/parser.go:174-200 | on well-formed colour tokens the colour branch as written is the intended one |
| Parser.TripleStarPanics | go/basement/parser.go:146-148 | on the line "a *** b" the italic token "***" takes the bold branch and is sliced from 2 to 1 |
| Parser.TripleStarSegments | go/basement/parser.go:126 | "a *** b" splits into "a ", the italic token "***" and " b" |
| Parser.ParseInline | go/basement/parser.go:122-214 | one node per segment of the line, with tokens dispatched by the alternative that matched (the corrected dispatch; see the Findings) |
| Parser.SegmentNode | go/basement/parser.go:130-197 | a text piece becomes its Text node; a token becomes a hole exactly when it is "%v", and a Style node otherwise |
| Parser.ParseInlineAsWritten | go/basement/parser.go:122-214 | `parseInline` with the source's prefix dispatch and a panic as `None`: at most one node per segment |
| Parser.InlineAgrees | go/basement/parser.go:122-214 | the source's parse succeeds with exactly the model's nodes if and only if no italic token starting with `**` occurs at any depth |
| Parser.DoubleStarItalic | go/basement/parser.go:141-155 | "**ab*" is one italic token; the source makes it bold over "a", the model italic over the plain "*ab" |
| Parser.TripleStarInline | go/basement/parser.go:141-148 | the source's parse of "a *** b" panics |
| Parser.PlainInline | go/basement/parser.go:206-211 | text with no rune that can open a token is one Text node, or none when empty |
| Parser.BangHoleInline | go/basement/parser.go:141-145 | "!%v" is the text "!" followed by a hole numbered -1 |
| Parser.HeaderStyle | go/basement/parser.go:79-84 | headers are bold; level 1 is also reversed and level 2 underlined |
| Parser.LineNode | go/basement/parser.go:74-115 | a line that is neither code nor a list item gives one block node, never a List or a CodeBlock |
| Parser.Classify | go/basement/parser.go:32-115 | fence, blank and list tests read the trimmed or raw line as the loop does; a list item is never a fence or blank |
| Parser.Step | go/basement/parser.go:31-116 | one iteration appends at most one child; the only earlier child it can change is the open list |
| Parser.Append | go/basement/parser.go:60-66 | `root.AddChild`, with the open list set as given |
| Parser.AddItem | go/basement/parser.go:60-66 | the item joins the open list, and a new List child is opened first when none is open |
| Parser.Run | go/basement/parser.go:31-116 | the loop keeps its state consistent and adds at most one root child per line |
| Parser.RunAppend | go/basement/parser.go:31-116 | running two batches of lines is running their concatenation |
| Parser.ParseAST | go/basement/parser.go:22-119 | the result is a Root with every other field at its zero value, at most one child per line, each child a block node |
| Parser.ParseLines | go/basement/parser.go:22-31 | `ParseAST` runs the loop over the newline-split lines of its input |
| Parser.CodeLines | go/basement/parser.go:53-56 | inside a code block, lines that are not fences only accumulate, each followed by "\n" |
| Parser.StepClose | go/basement/parser.go:37-45 | a fence inside a code block adds one CodeBlock child with the collected code and language |
| Parser.FencedBlock | go/basement/parser.go:36-56 | an opening fence, non-fence lines and a closing fence add one CodeBlock with the lines verbatim and the opening fence's trimmed language |
| Parser.UnterminatedFence | go/basement/parser.go:46-56 | a fence that is never closed swallows the rest of the input, and no child is added |
| Parser.FencedDocument | go/basement/parser.go:36-56 | a document that is one fenced block parses to a Root with that single CodeBlock |
| Parser.FencedRun | go/basement/parser.go:36-56 | running the classified fenced lines from the start leaves exactly that CodeBlock |
| Parser.CodeTextSplit | go/basement/parser.go:54 | the collected code splits back into the body lines, plus the empty text after the last newline |
| Parser.ListExtends | go/basement/parser.go:59-67 | list lines while a list is open all join that list |
| Parser.ListGroups | go/basement/parser.go:59-67 | consecutive list lines with no list open make exactly one new List with one item per line |
| Parser.ListDocument | go/basement/parser.go:59-67 | a document of list lines parses to one List whose items are the lines' texts, in order |
| Parser.MarkedLineNotBlank | go/basement/parser.go:68-72 | header, quote and list lines are never blank once trimmed |
| Parser.BlankLine | go/basement/parser.go:108-111 | a blank line outside code adds an empty Text child and leaves the open list open |
| Parser.HeaderLine | go/basement/parser.go:75-90 | a header line adds a Header styled for its level over its inline nodes and closes the open list |
| Parser.HeaderInfo | go/basement/parser.go:75-76 | a header line is classified as a header block, not a fence, blank or list item |
| Parser.BangHoleClassify | go/basement/parser.go:113-115 | the line "!%v" is an ordinary paragraph line |
| Parser.BangHoleDocument | go/basement/parser.go:22-119 | the document "!%v" is one Block holding "!" and a hole numbered -1 |
| Parser.SingleLine | go/basement/parser.go:113-115 | a one-line document that is neither fence nor list item is the block of that line |
| Basement.RunsFrom | go/basement/basement.go:79 | the backtick runs are maximal, in text order and non-overlapping |
| Basement.RunsCover | go/basement/basement.go:79 | every backtick of the text lies in one of the runs |
| Basement.NoTicksNoRuns | go/basement/basement.go:79-83 | text with no backtick has no runs |
| Basement.Partner | go/basement/basement.go:95-106 | the first run at or after a point with the length of run `i`, or none |
| Basement.Pairs | go/basement/basement.go:88-130 | each pair joins a run and a later run of the same length; pairs are ordered and do not overlap |
| Basement.UnpairedHasNoPartner | go/basement/basement.go:88-130 | a run outside every pair has no later run of its length, so the pairing is maximal |
| Basement.PairsStep | go/basement/basement.go:88-130 | from a run, the pairing either pairs it with its partner and skips past it, or moves to the next run |
| Basement.PairRuns | go/basement/basement.go:85-130 | the loop with its `used` flags produces exactly the pairing, however the flags skip runs |
| Basement.PairAt | go/basement/basement.go:93-129 | the body at an unflagged run records its pair and flags the whole span, so the pairs so far stay a prefix |
| Basement.FindPartner | go/basement/basement.go:95-106 | the inner search returns the first later unflagged run of equal length |
| Basement.FlagSpan | go/basement/basement.go:122-128 | the run, its partner and every run between them are flagged, and no other flag changes |
| Basement.Replacements | go/basement/basement.go:108-120 | each pair's replacement covers the text between its delimiters and carries that code's hash |
| Basement.ReplacementAt | go/basement/basement.go:108-120 | one replacement spans from the opener's end to the closer's start |
| Basement.BuildSpliced | go/basement/basement.go:136-145 | the builder writes the text before each replacement, then its text, then the tail |
| Basement.SpliceIdentity | go/basement/basement.go:136-145 | replacing each interval by its own text changes nothing |
| Basement.Reps | go/basement/basement.go:108-134 | the replacements of the pass lie inside the text, in order, without overlapping |
| Basement.CodeBlocks | go/basement/basement.go:78-146 | text with no backtick comes back unchanged, with an empty code map |
| Basement.NoPairsUnchanged | go/basement/basement.go:81-83 | text whose runs make no pair comes back unchanged |
| Basement.CodeMapFinds | go/basement/basement.go:112-114 | each hidden code can be found in the map by its hash, when distinct codes hash apart |
| Basement.RestoreRoundTrip | go/basement/basement.go:65-68 | putting back, at each hash, the code the map holds for it gives the original text |
| Basement.ReplaceNone | go/basement/basement.go:67 | `ReplaceAll` leaves text where the pattern never starts unchanged |
| Basement.ReplaceOnce | go/basement/basement.go:67 | a pattern that starts at exactly one position is replaced there and nowhere else |
| Basement.SingleSpanRoundTrip | go/basement/basement.go:51-71 | with a single code span, hiding and restoring gives the original text, when the hash occurs only where it was put |
| Basement.GetColor | go/basement/basement.go:206-219 | a known colour gives code + text + reset; an unknown one the text; a non-empty `bg` wraps either in reverse video |
| Input.ProcessChar | go/tui/input.go:77-97 | CR, TAB and BS are Enter, Tab and Backspace; other control bytes are Ctrl with rune b + 0x60; DEL is Backspace; every other byte is its own rune |
| Input.CtrlCIsGeneralCtrlRule | go/tui/input.go:87-90 | the Ctrl+C case gives what the general Ctrl rule gives for 0x03 |
| Input.ProcessCharInjective | go/tui/input.go:77-97 | two bytes give the same event only when they are BS and DEL |
| Input.TildeKey | go/tui/input.go:152-188 | a selector that names a key is one or two decimal digits; "1" is exactly Home and "4" exactly End, and every other key it names has that selector in the encoder's `~` table (`TildeSelector`) |
| Input.TildeKeyEncodes | go/tui/input.go:159-188 | for every key but Home and End, a selector names the key if and only if the encoder sends that selector for it, so the whole table is pinned |
| Input.TildeKeyInjective | go/tui/input.go:159-188 | distinct selectors name distinct keys |
| Input.Selector | go/tui/input.go:155-158 | the `~` selector is the parameter text before the first `;`, or all of it |
| Input.FinalIndex | go/tui/input.go:121-133 | the position of the first byte in 0x40..0x7E, or none |
| Input.DispatchCSI | go/tui/input.go:136-191 | only the finals `A`, `B`, `C`, `D`, `H` and `F`, or `~` with a selector naming a key, give an event, a special key with no rune or modifier; a cursor final gives, whatever the parameters, the key the encoder sends as `ESC [` and that final, and `~` gives the selector's key |
| Input.CsiFinalEncodes | go/tui/input.go:139-151 | a final other than `~` names a key, under any parameters, if and only if the encoder sends `ESC [` and that final for it |
| Input.DecodeCursorParams | go/tui/input.go:139-151 | parameters before a cursor final, such as the modifier in `ESC [ 1;5 A`, are dropped |
| Input.SS3 | go/tui/input.go:202-232 | exactly the bytes `A`, `B`, `C`, `D`, `P`, `Q`, `R`, `S`, `H` and `F` give an event, a special key with no rune or modifier; outside `P` to `S` the key is the CSI dispatch's for the same final, and `P` to `S` give the keys the encoder sends as ESC `O` and that byte |
| Input.SS3Encodes | go/tui/input.go:219-226 | `P`, `Q`, `R` and `S` name F1 to F4 exactly as the encoder sends them |
| Input.DecodeSS3Cursor | go/tui/input.go:209-231 | ESC `O` before a cursor final decodes as `ESC [` and that final |
| Input.SS3Injective | go/tui/input.go:209-232 | distinct SS3 bytes name distinct keys |
| Input.Decode | go/tui/input.go:16-97 | at most one event per byte, and input without ESC decodes byte by byte through `processChar` |
| Input.DecodeCSI | go/tui/input.go:113-133 | ESC `[` then parameters: every byte before the first final byte is a parameter, and the final dispatches |
| Input.DecodeCSIUnterminated | go/tui/input.go:121-125 | a CSI sequence cut short by the end of input emits nothing |
| Input.DecodeAlt | go/tui/input.go:63-70 | ESC and a byte other than `[` and `O` is Alt plus that byte |
| Input.DecodeSingle | go/tui/input.go:39-48 | a byte other than ESC decodes through `processChar`, and decoding goes on after it |
| Input.DecodeSS3 | go/tui/input.go:202-232 | ESC `O` and one byte emit what the SS3 switch gives for that byte, and decoding goes on after it |
| Input.DecodeCsiKey | go/tui/input.go:139-151 | a complete CSI sequence whose dispatch gives an event emits exactly that event |
| Input.TildeIgnoresModifiers | go/tui/input.go:152-158 | only the selector before the first `;` chooses a `~` key |
| Input.DecodeTilde | go/tui/input.go:152-188 | a digit selector that names a key, followed by `~`, emits exactly that key |
| Input.DecodeEncode | go/tui/input.go:34-50 | the bytes a terminal sends for a decodable event decode back to it, whatever follows; ESC alone only at the end of the input |
| Input.DecodeEncodeAll | go/tui/input.go:34-50 | decoding the concatenated encodings of a sequence of events gives the sequence back |
| Screen.IdxInjective | go/tui/screen.go:44 | distinct in-range positions have distinct row-major indices |
| Screen.NewBuffer | go/tui/screen.go:31-37 | a new buffer has width·height cells, and every position reads as the zero cell |
| Screen.Set | go/tui/screen.go:40-45 | a write outside the grid is ignored, and the size is kept |
| Screen.Get | go/tui/screen.go:48-53 | the cell at (x, y), or the zero cell outside the grid |
| Screen.GetSet | go/tui/screen.go:40-53 | after an in-range write, the written cell reads back and every other position reads as before |
| Screen.GetSetAll | go/tui/screen.go:40-53 | after an out-of-range write every position reads as before |
| Screen.Resize | go/tui/screen.go:56-75 | the new grid has the new size, keeps every cell of the shared rows and columns, and is zero elsewhere |
| Screen.RowCopied | go/tui/screen.go:68-70 | copying a row extends the copied region by that row |
| Screen.Clear | go/tui/screen.go:237-250 | every position in the grid reads as a plain space, and the size does not change |
| Screen.DrawText | go/tui/screen.go:385-396 | drawing keeps the buffer valid and its size unchanged |
| Screen.DrawLine | go/tui/screen.go:386-395 | a line without newline lands on consecutive columns of its row, and nothing else changes |
| Screen.DrawNewline | go/tui/screen.go:388-392 | a newline restarts drawing one row down, at the original column |
| Screen.ShowAll | go/tui/screen.go:309-312 | a zero rune shows as a space, and every other cell shows as it is |
| Screen.MoveStep | go/tui/screen.go:294-297 | the optional cursor move leaves the cursor on the cell and changes nothing else |
| Screen.StyleStep | go/tui/screen.go:300-307 | the optional style switch leaves the pen equal to the cell's style |
| Screen.DiffRow | go/tui/screen.go:288-318 | one row of the scan keeps the front-equals-back prefix and the output-replays invariant |
| Screen.DiffCell | go/tui/screen.go:293-316 | the front copy gets the back cell; the output grows, by exactly one rune, if and only if the cell differs |
| Screen.Render | go/tui/screen.go:276-327 | the front becomes the back; the output writes exactly one rune per cell that differs, and nothing for equal buffers; replaying it on the front shows the back with a plain pen |
| Screen.FinishReplays | go/tui/screen.go:321-324 | the closing reset leaves the pen plain, and the terminal shows the back buffer |
| Screen.CursorPosRoundTrip | go/tui/screen.go:330-338 | the cursor sequence ESC `[` row `;` column `H` reads back to exactly the row and column written |
| Screen.CursorPos | go/tui/screen.go:330-338 | the sequence is framed by ESC `[` and `H` with a `;` inside |
| Screen.ParseDigitPair | go/tui/screen.go:330-338 | two digit strings around `;` read back to their values |
| Layout.EnumCodes | go/tui/layout.go:6-18 | the iota codes read back to their enumerators, and the zero values are Row and Auto |
| Layout.Fixed | go/tui/layout.go:27-29 | a Fixed size with the given cells |
| Layout.Flex | go/tui/layout.go:32-34 | a Flex size with the given weight |
| Layout.Auto | go/tui/layout.go:37-39 | an Auto size with value 0 |
| Layout.SizeConstructorsDistinct | go/tui/layout.go:27-39 | the three constructors never give the same size, and each is injective |
| Layout.WithSize | go/tui/layout_api.go:43-47 | both constraints are set, and nothing else changes |
| Layout.WithWidth | go/tui/layout_api.go:50-53 | only the width changes |
| Layout.WithHeight | go/tui/layout_api.go:56-59 | only the height changes |
| Layout.WithSizeComposes | go/tui/layout_api.go:43-59 | `WithSize` is `WithWidth` then `WithHeight`, in either order |
| Layout.AddChild | go/tui/layout_api.go:62-72 | the child is last, its predecessor is the old last child, the first child changes only when the list was empty, and earlier children keep their order |
| Layout.WrapChild | go/tui/layout_api.go:77-85 | a node stays itself, and any other value becomes an Auto-sized leaf holding it |
| Layout.AddAllAppends | go/tui/layout_api.go:9-11 | adding values appends their wrapped forms in argument order and touches nothing else |
| Layout.Row | go/tui/layout_api.go:4-14 | a Row node with Auto sizes whose children are the wrapped arguments, in order |
| Layout.Col | go/tui/layout_api.go:17-27 | a Column node with Auto sizes whose children are the wrapped arguments, in order |
| Layout.Box | go/tui/layout_api.go:30-40 | a Column with the given border and padding, Auto sizes, and exactly one wrapped child |
| Layout.RowColDual | go/tui/layout_api.go:4-27 | `Row` and `Col` differ only in direction |
| LayoutEngine.GoDivTruncates | go/tui/layout_engine.go:110 | Go's division truncates toward zero: the remainder has the dividend's sign and is smaller than the divisor |
| LayoutEngine.GoDivOdd | go/tui/layout_engine.go:110 | truncating division is odd in the dividend |
| LayoutEngine.LongestLine | go/tui/layout_engine.go:215-221 | the longest line's rune count bounds every line and is reached by one |
| LayoutEngine.MeasureContent | go/tui/layout_engine.go:209-230 | the widest line and the number of lines, each clamped to its maximum |
| LayoutEngine.MaxCross | go/tui/layout_engine.go:123-128 | the largest cross extent of the children, or 0 |
| LayoutEngine.Pass1 | go/tui/layout_engine.go:40-83 | content and Fixed/Auto node children are measured in the first pass, and Flex nodes wait |
| LayoutEngine.FlexPass | go/tui/layout_engine.go:104-120 | a Flex child in the second pass is measured as a node, and its geometry is the node's own |
| LayoutEngine.FirstPass | go/tui/layout_engine.go:40-83 | the first-pass results of every child, in order |
| LayoutEngine.SecondPass | go/tui/layout_engine.go:97-129 | the results of both passes for every child, in order |
| LayoutEngine.Measure | go/tui/layout_engine.go:13-159 | a non-Auto dimension is the constraint; an Auto one is the sum or the max of the children plus the deduction; one geometry per child |
| LayoutEngine.FixedChildGetsValue | go/tui/layout_engine.go:48-63 | a Fixed node child is measured with exactly its fixed extent on the main axis |
| LayoutEngine.FlexChildGetsShare | go/tui/layout_engine.go:104-119 | a Flex child is measured with ⌊available·weight/total⌋ on the main axis, or 0 when the total weight is 0 |
| LayoutEngine.NonFlexKept | go/tui/layout_engine.go:97-121 | children that are not Flex keep their first-pass geometry |
| LayoutEngine.SharesFit | go/tui/layout_engine.go:105-111 | with non-negative weights the flex shares add up to at most the available space |
| LayoutEngine.FlexChildrenFit | go/tui/layout_engine.go:86-120 | the Flex children take no more than the main-axis space the other children leave |
| LayoutEngine.AvailableFromMeasured | go/tui/layout_engine.go:86-92 | the space for Flex children can be read off the final geometries |
| LayoutEngine.FlexWithinAvailable | go/tui/layout_engine.go:86-120 | the Flex children's measured extents add up to no more than the space left for them |
| LayoutEngine.GetPaint | go/tui/layout_engine.go:272-287 | after a series of writes, a cell holds the last rune written to it, or what it held before |
| LayoutEngine.DrawBorder | go/tui/layout_engine.go:263-288 | the buffer keeps its size, and no cell off the frame changes |
| LayoutEngine.DrawBorderCells | go/tui/layout_engine.go:263-288 | only frame cells change; a frame of at least 2 × 2 shows its corners and edges in the box-drawing runes |
| LayoutEngine.Truncate | go/tui/layout_engine.go:243-247 | a truncated line is the first min(length, w) runes of the line |
| LayoutEngine.DrawContent | go/tui/layout_engine.go:232-261 | the buffer keeps its size, and no cell outside the w × h box changes |
| LayoutEngine.DrawContentCells | go/tui/layout_engine.go:232-261 | inside the w × h box a cell holds its line's rune when the line reaches that column; every other cell keeps its value |
| LayoutEngine.ChildrenAbut | go/tui/layout_engine.go:180-199 | each child starts where the previous one ends along the main axis |
| LayoutEngine.DrawKid | go/tui/layout_engine.go:183-198 | one iteration draws the child at the running corner and moves past its extent |
| LayoutEngine.Draw | go/tui/layout_engine.go:162-200 | the node records its position; node child i is placed at the content corner advanced by the extents of the children before it; the buffer keeps its size |
| Renderer.NumberCorrect | go/tui/render.go:31-39 | numbering gives the holes c, c+1, … in pre-order, advances the counter by the hole count, and changes nothing else |
| Renderer.NumberSeqCorrect | go/tui/render.go:36-38 | the children are numbered in order, with the counter threaded through |
| Renderer.Template | go/tui/render.go:18-29 | the parsed template's holes are numbered 0..k-1 in pre-order, its shape is kept, and the arguments are bound |
| Renderer.MergeStyles | go/tui/render.go:258-280 | the flags are or-ed, and the child's colour and background win when non-empty |
| Renderer.MergeLaws | go/tui/render.go:258-280 | the empty style is neutral on both sides, merging is associative, and a style absorbs itself |
| Renderer.ContainsMarkup | go/tui/render.go:249-256 | true exactly when the value contains "**", "__", "#" or "!" |
| Renderer.HoleLookupAsWritten | go/tui/render.go:203-204 | the guard `HoleID < len(args)` lets a negative number through to the index, which panics |
| Renderer.HoleLookup | go/tui/render.go:202-204 | with a lower bound added, a number outside the arguments finds nothing |
| Renderer.LookupAgrees | go/tui/render.go:202-204 | the two guards agree on every non-negative number, and differ exactly on negative ones |
| Renderer.TemplateHolesNonNegative | go/tui/render.go:21-23 | every hole of a template has a non-negative number, so the written guard never panics on it |
| Renderer.RenderNode | go/tui/render.go:60-247 | the buffer keeps its size, the cursor never moves left, and a node below the viewport returns the cursor unchanged |
| Renderer.RenderRows | go/tui/render.go:86-92 | the Root and List loop keeps the buffer's size and returns to column x |
| Renderer.RenderInline | go/tui/render.go:94-107 | the inline loop keeps children on row y and moves the cursor rightwards |
| Renderer.RenderDynamic | go/tui/render.go:222-236 | dynamic markup keeps the buffer's size and the row, and never moves the cursor left |
| Renderer.RenderFrame | go/tui/render.go:42-57 | the frame keeps the buffer's size and leaves the cursor at a non-negative column |
| Renderer.LineAdvance | go/tui/render.go:94-149 | Block, Header, HR, Quote, ListItem and an empty Text return to their column one row down, or stay put below the viewport |
| Renderer.RuleFrom | go/tui/render.go:110-116 | row y from column k to the right edge holds the dimmed rule rune, and every other cell is unchanged |
| Renderer.RowsOfLines | go/tui/render.go:86-92 | stacking one-row nodes moves down one row per node until the bottom of the buffer |
| Renderer.StackOfLines | go/tui/render.go:86-137 | a Root or List of one-row children ends that many rows down, clamped at the bottom |
| Renderer.TextCells | go/tui/render.go:177-187 | a one-line Text moves right by its rune count and writes its runes in its style into consecutive cells of its row, and no other cell |
| Renderer.HoleSkipped | go/tui/render.go:202-246 | a hole numbered outside the arguments draws nothing and leaves the cursor where it was |
| Renderer.HoleAsText | go/tui/render.go:237-243 | a non-empty argument without markup renders exactly as a Text node holding it |
| Renderer.CodeRows | go/tui/render.go:151-175 | the code-block loop keeps the buffer valid and its size; its cells are stated by Renderer.CodeBlockCells |
| Renderer.CodeBlockCells | go/tui/render.go:151-175 | code line i is drawn dimmed at row y + i from column x, no other cell changes, and the cursor goes below the last line |
| Renderer.InlineTexts | go/tui/render.go:94-107 | non-empty Text children side by side advance the cursor by their total width |
| Renderer.StyleSpan | go/tui/render.go:189-200 | a Style node over non-empty Texts ends after all their runes, on the same row |
| Renderer.DynamicHolePanics | go/tui/render.go:222-235 | a hole bound to "!%v" parses it and meets the inner hole numbered -1 with no arguments; the written guard panics on it |
| Renderer.DynamicHoleRendered | go/tui/render.go:222-236 | with the intended guard the same hole draws "!" in its style and moves one column on |
| Renderer.BangDynamic | go/tui/render.go:222-236 | the Block parsed from "!%v" draws one rune and skips the inner hole |
| Signals.Insert | go/signals/signal.go:79 | map assignment as set insertion adds the element unless it is already there, and keeps the sequence duplicate-free |
| Signals.Remove | go/signals/signal.go:85 | `delete` removes every occurrence and keeps the others in order |
| Signals.Subscribe | go/signals/signal.go:76-80 | the subscriber joins the dependency's subscriber set, and no other set changes |
| Signals.Unsubscribe | go/signals/signal.go:82-86 | the subscriber leaves the dependency's subscriber set, and no other set changes |
| Signals.AddDependency | go/signals/signal.go:166-170 | the dependency joins the subscriber's dependency set, and no other set changes |
| Signals.DropDeps | go/signals/signal.go:294-300 | the subscriber leaves every dependency it had, its set empties, and every other subscriber keeps its edges |
| Signals.Track | go/signals/signal.go:98-101 | under an active subscriber the edge is recorded in both directions; with none, nothing changes |
| Signals.Get | go/signals/signal.go:196-238 | a signal read returns its value; a clean computed returns its cache; a dirty one recomputes, caches and turns clean; the edge is tracked |
| Signals.Cached | go/signals/signal.go:207-237 | a clean computed returns its cache and changes nothing; either way it ends clean holding the returned value, and only caches and edges change, never those of later computeds or of subscribers it does not reach |
| Signals.Recompute | go/signals/signal.go:208-235 | the computed ends clean holding the value returned; only caches and edges change, and later computeds keep theirs |
| Signals.Eval | go/signals/signal.go:222-225 | running the closure changes only caches and edges; the caches of this computed and later ones, and the edges of subscribers it does not reach, are kept |
| Signals.EvalDenotes | go/signals/signal.go:222-225 | on a coherent state the closure returns the weighted sum of what its reads denote, and keeps the state coherent |
| Signals.RecomputeDenotes | go/signals/signal.go:208-235 | on a coherent state recomputing gives what the computed denotes, and keeps the state coherent |
| Signals.AllDirtyCoherent | go/signals/signal.go:145-152 | a state whose computeds are all dirty, as new ones start, is coherent |
| Signals.GetDenotes | go/signals/signal.go:196-238 | on a coherent state `Get` returns what the object denotes under the signal values, and leaves the state coherent |
| Signals.ReadAll | go/signals/signal.go:308-309 | the effect's closure reads its dependencies in order with the effect active and returns the values it saw |
| Signals.ReadAllSubscribes | go/signals/signal.go:308-309 | after the closure, the effect and everything it read are linked in both directions |
| Signals.RunEffect | go/signals/signal.go:279-315 | a disposed effect does nothing; a live one drops its dependencies, runs once more and is subscribed to everything it reads |
| Signals.Notify | go/signals/signal.go:172-190 | a dirty computed stops propagation; an effect is queued inside a batch and runs outside one |
| Signals.NotifyInvalidates | go/signals/signal.go:172-190 | a clean computed turns dirty and notifies its own subscribers |
| Signals.NotifyRuns | go/signals/signal.go:263-277 | outside a batch an effect's notification runs it |
| Signals.NotifyAll | go/signals/signal.go:130-132 | every effect among the subscribers runs outside a batch, or is queued inside one |
| Signals.Set | go/signals/signal.go:114-133 | an equal value changes nothing; a new value is stored, and each subscribed effect runs or is queued |
| Signals.Batch | go/signals/signal.go:37-59 | the writes land in order; no effect runs inside an inner batch; the outermost batch ends with an empty queue, and every live effect its body queued has run once more |
| Signals.Flush | go/signals/signal.go:45-52 | every queued live effect is notified and runs at least once more |
| Signals.RunActions | go/signals/signal.go:263-273 | inside a batch, writes notify no effect into running, and queued effects stay queued |
| Signals.NewSignal | go/signals/signal.go:69-74 | a new signal holds the value and has no subscribers |
| Signals.NewComputed | go/signals/signal.go:145-152 | a new computed starts dirty, with no dependencies and no subscribers |
| Signals.CreateEffect | go/signals/signal.go:248-255 | a new effect runs once at creation and is subscribed to everything it reads |
| Signals.Dispose | go/signals/signal.go:317-328 | the effect is marked disposed and leaves every dependency; a second call does nothing |
| Signals.Peek | go/signals/signal.go:108-112 | the value read is the signal's denotation |
| Signals.PeekIsUntrackedGet | go/signals/signal.go:92-112 | `Peek` and an untracked `Get` read the same value, and neither records an edge |
| Signals.DisposeIdempotent | go/signals/signal.go:317-322 | disposing twice is disposing once |
| Signals.RunAfterDispose | go/signals/signal.go:279-284 | after `Dispose`, `Run` leaves the state unchanged |
| Signals.SignalScenario | go/signals/signal_test.go:7-17 | a signal made with 0 reads 0, and reads 1 after `Set(1)` |
| Signals.EffectScenario | go/signals/signal_test.go:19-41 | an effect reading a signal runs once at creation and once more on each of two changes |
| Signals.ComputedScenario | go/signals/signal_test.go:43-57 | a computed doubling a signal of 1 reads 2, and reads 4 after the signal is set to 2 |

## Left out

- Terminal I/O is not modelled: raw mode, `NewScreen`, `Close`, `handleResize`, `OnKey`, the mutexes and the output writer. The diff renderer's output is a sequence of abstract items.
- The exact SGR bytes of `writeStyle` are not modelled, because they depend on the terminal's italic and strike support. A style switch is one abstract item whose meaning layers the style onto the pen.
- `StartInput`, `inputLoop`'s goroutines and the read timeouts are not modelled. A timeout, or a closed channel, is the end of the input.
- The regex replace passes of `Parse` are not modelled: `horizontal`, `header`, `boldUnderlineStrike`, `list`, `quote` and `color`. Only the code-span hiding, `getColor` and the restore loop are.
- `md5Base64` is a hash function parameter. The round trips assume distinct codes hash apart, and that a hash does not otherwise occur in the text.
- Basement.RestoreRoundTrip: states the restore on the structure of the hidden text, not on the string-level `ReplaceAll` loop. That loop over the map's keys is proved to give the original text only for a single code span (`Basement.SingleSpanRoundTrip`), because its result depends on Go's map iteration order.
- `Highlight` is the built-in stub: the whole code is one dimmed span. The Chroma highlighter is a foreign library.
- Arbitrary `interface{}` values and `fmt.Sprintf("%v")` are not modelled. Arguments are text or layout nodes, and a layout node is measured and drawn by `LayoutEngine.Measure` and `LayoutEngine.Draw`, as render.go does. A `Getter` is resolved before it reaches the model.
- Renderer.RenderNode: the layout-node branch of a hole uses the node's measured height and draw. Its cells are not restated in `RenderNode`'s contract; `LayoutEngine.Draw` states them. A hole is looked up with the corrected guard `Renderer.HoleLookup`, which also requires `HoleID >= 0`, where the source's `HoleID < len(args)` indexes a negative number and panics; `Renderer.HoleLookupAsWritten` and the second Findings row state the difference.
- Parser.ParseInline: dispatches each token by the alternative that matched it, the corrected dispatch of the first Findings row. For an italic token that starts with `**`, the source gives a Bold node over `token[2:len-2]`, or panics when the token is "***"; the model gives an Italic node over `token[1:len-1]`. `Parser.ParseInlineAsWritten` is the source's dispatch, and `Parser.InlineAgrees` states exactly when the two agree.
- Parser.ParseAST: inherits that difference through `ParseInline`, and so do `Renderer.Template` and `Renderer.RenderNode`.
- LayoutEngine.Measure: measures a wrapped leaf's content, and `LayoutEngine.Draw` draws it, where the engine as written treats the leaf as an empty Auto node (see Modelling choices).
- Signals use integer values, and `reflect.DeepEqual` is integer equality. A computed's closure is a weighted sum of its reads. An effect's closure is a fixed list of reads with no writes. Closures that branch on values, or that write signals, are not modelled.
- Signals.Set: proves that subscribed effects run or are queued, and that the graph stays well formed. It does not prove that every cache stays coherent after a set. `Signals.GetDenotes` states coherence for reads, and the scenarios show invalidation.
- The two-signal scenario of TestDependencyTracking (go/signals/signal_test.go:59-81) is not stated as its own lemma. Its steps are the same as `Signals.EffectScenario`, over two reads.
- Go map iteration order is fixed as insertion order, one of the orders Go may choose. The properties stated do not depend on it, except where noted above.
- The parser test's line "# Hello **World** %v" (go/basement/parser_test.go:7-56) is not stated as a concrete lemma. `Parser.HeaderLine`, `Parser.HeaderStyle` and `Parser.ParseInline` state the rules it checks.

## Findings

| source | as written | input that shows it | evidently intended | confidence | as-written member | corrected member |
|---|---|---|---|---|---|---|
| go/basement/parser.go:146-148 | tokens are dispatched by prefix, so a token of the italic alternative `\*.+?\*` that starts with `**` takes the bold branch and is sliced `token[2:len-2]` | the line "a *** b": the italic alternative matches "***", and the slice is `[2:1]`, which panics; the line "**ab*" does not panic but becomes bold "a" | dispatch by the alternative that matched, giving italic "*" and italic "*ab" | not executed | Parser.ParseInlineAsWritten, Parser.TripleStarInline, Parser.DoubleStarItalic | Parser.ParseInline, Parser.InlineAgrees |
| go/tui/render.go:203-204 | the guard `n.HoleID < len(args)` has no lower bound | a hole argument "!%v": it contains markup, so it is parsed into a hole numbered -1 and rendered with no arguments; -1 < 0 passes and `args[-1]` panics | also require `HoleID >= 0`, so the inner hole draws nothing | not executed | Renderer.DynamicHolePanics | Renderer.DynamicHoleRendered |
