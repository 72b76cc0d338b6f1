# elfin editor core in Dafny

A model of the core of a small kilo-style terminal text editor written in C. It has two parts, and the model proves properties of both:

- **The row store of `editor.c`.** A document is a sequence of rows. Each row is a byte buffer plus a recorded length. The row store has
  - the character operations `insertChar` and `deleteChar`, which check their bounds and report success;
  - the structural operations `newRow`, `deleteRow`, `splitRow` and `delCatRow`.
- **The display logic of `display.c`:**
  - the row-major point order and its min/max helpers;
  - the cursor clamp in `resize`;
  - the append buffer `abAppend`;
  - the wrap-around substring `search`;
  - the viewport mapper `getBoundedCursor`, `getLargestDisplayedPoint` and `adjustToprow`;
  - the frame renderer `printEditorContents`;
  - the status line builder `statusPrintMode`.

The types of `editor.h` become datatypes: `Mode`, `Row` for `erow`, `CommandRow` and `Editor`. The display state that `display.c` reads through its global `I` becomes an explicit record, `Screen.Display`. Terminal output is a sequence of tokens (`Terminal.Token`) rather than escape-sequence bytes.

One decision shapes the whole row model: a `Row` keeps `buf`, the bytes of the allocation that have a defined value, apart from `len`, the length the C code records. The two must be kept apart because `editor.c` handles the terminating NUL in several ways:

- `editor.h` documents `len` as excluding the terminator.
- Rows appended by `newRow` record `len == 0`, with the NUL lying past `len`.
- A row inserted in the middle records `len == 1`, so the NUL is counted.
- `splitRow` ends the upper half with a counted NUL, and the loader ends every newline-terminated line with one.
- The last line of a file without a final newline gets no NUL. An empty file keeps the single row `Row([NUL], 0)`.

`RowStore.Terminated` names the shape of a loaded newline-terminated line. The split/join round trips are stated for such lines.

The files are:

| file | contents |
|---|---|
| `bytes.dfy` | bytes and `%d` formatting |
| `points.dfy` | points and their order |
| `rowstore.dfy` | `editor.h` types and `editor.c` |
| `terminal.dfy` | `abAppend` and the output tokens |
| `screen.dfy` | the display record |
| `search.dfy` | `search` |
| `viewport.dfy` | the viewport mapper |
| `render.dfy` | `printEditorContents` |
| `status.dfy` | `statusPrintMode` |

## Model

| member | source | states |
|---|---|---|
| Bytes.Digits | display.c:246 | the decimal digits of a natural number: at least one, all digits, and no leading zero unless the number is 0 |
| Bytes.Decimal | display.c:246 | `%d` output is non-empty; it starts with a minus sign exactly when the number is negative; it is all digits otherwise |
| Bytes.DigitsRoundTrip | display.c:246 | reading back the digits of `n` gives `n` |
| Bytes.DecimalRoundTrip | display.c:241-249 | `%d` output is a well-formed decimal whose value is the number printed, so the row count and the coordinates lose nothing |
| Bytes.Spaces | display.c:153 | exactly max(n, 0) spaces: the padding `%*d` puts before a number, none when the number already fills the field |
| Bytes.PadDecimal | display.c:153 | for a field width of at least 0 (display.c passes `coloff - 1`), `%*d` right-justifies: the width is the larger of the field width and the number's length, the number ends the field, and only spaces precede it |
| Points.PointEqual | display.c:18-20 | true exactly when the two points are equal |
| Points.PointGreater | display.c:22-26 | true exactly when the second point comes before the first in row-major order |
| Points.PointLess | display.c:28-32 | true exactly when the first point comes before the second in row-major order |
| Points.Trichotomy | display.c:18-32 | exactly one of less, equal and greater holds for any pair, and less(p, q) equals greater(q, p) |
| Points.LessTransitive | display.c:28-32 | the point order is transitive |
| Points.MaxPoint | display.c:34-37 | the result is one of the two arguments and is below neither |
| Points.MinPoint | display.c:39-42 | the result is one of the two arguments and is above neither |
| Points.ResizeClamp | display.c:265-267 | the clamped cursor lies between (0, 0) and (ws_row, ws_col) in point order; it is the cursor or one of the two bounds; a cursor already in range is kept |
| RowStore.FirstNul | editor.c:81 | the first NUL at or after `from`, or the end of the buffer: no NUL lies between `from` and the result |
| RowStore.CStr | editor.c:81 | what `strdup` copies is a slice of the buffer from `from` that ends in its only NUL |
| RowStore.CStrOfTerminated | editor.c:81 | for a loaded line, the C string at any position before the terminator is the rest of the buffer |
| RowStore.InsertChar | editor.c:14-22 | fails and changes nothing exactly when pos < 0 or pos > len; otherwise `len` grows by one, the bytes before `pos` are kept, `c` is at `pos` and the later bytes are shifted right by one |
| RowStore.DeleteChar | editor.c:26-32 | fails and changes nothing exactly when pos < 0 or pos >= len; otherwise `len` shrinks by one, the bytes before `pos` are kept and the later bytes are shifted left by one |
| RowStore.InsertDeleteRoundTrip | editor.c:14-32 | insertChar(p, c) then deleteChar(p) succeeds and restores the row's bytes and length for every 0 <= p <= len |
| RowStore.DeleteInsertRoundTrip | editor.c:14-32 | deleteChar(p) then inserting the deleted byte at p restores the row's bytes and length |
| RowStore.InsertKeepsTerminated | editor.c:14-22 | inserting a non-NUL byte before a loaded line's terminator keeps it a loaded line |
| RowStore.AppendedRowLosesNul | editor.c:17-21 | inserting a byte into a row `newRow` appended leaves a one-byte buffer without a NUL, so `splitRow`'s `strdup` has no C string to copy |
| RowStore.DeleteKeepsTerminated | editor.c:26-32 | deleting a byte other than the terminator keeps a loaded line a loaded line |
| RowStore.NewRow | editor.c:35-57 | past the end it appends `len 0` rows so that there are rownum + 1 rows, keeping the existing ones; inside it inserts one `len 1` terminator-only row at rownum and shifts the later rows down; in both branches dirty is set and nothing else changes |
| RowStore.DeleteRow | editor.c:60-69 | removes exactly row rownum, shifts the later rows up by one and leaves everything else, dirty included, unchanged |
| RowStore.NewRowDeleteRowRoundTrip | editor.c:35-69 | deleteRow undoes newRow at any position up to numrows, except that dirty stays set |
| RowStore.SplitRow | editor.c:72-85 | for an invalid row or pos nothing changes; otherwise there is one more row, the row becomes its first pos bytes plus NUL with len pos + 1, the new row below holds the C string at pos with len len - pos, the other rows are kept or shifted, and dirty is set |
| RowStore.SplitTerminated | editor.c:72-85 | splitting a loaded line before its terminator gives two loaded lines: the bytes before pos with a new NUL, and the bytes from pos |
| RowStore.DelCatRow | editor.c:88-98 | outside 1 <= rownum < numrows nothing changes; otherwise `strcat` works in place: the upper row keeps its bytes before its first NUL, then the lower row's C string, then whatever of its old buffer lies past that inside the new size; len becomes top.len + bot.len - 1; the lower row is removed and the other rows are kept or shifted up |
| RowStore.JoinedBuf | editor.c:91-93 | the buffer after `realloc` and `strcat`: its size is the kept size, or longer when the copied string needs it; it holds the upper C string's bytes, then the lower C string, then the upper row's old bytes past them |
| RowStore.JoinedBufAtEnd | editor.c:91-93 | when the upper row's only NUL is its last byte, the joined buffer is exactly the upper bytes without the NUL followed by the lower C string |
| RowStore.JoinEmbeddedNulExample | editor.c:88-98 | joining `a NUL b NUL` (len 4) with `c NUL` (len 2) gives `a c NUL NUL` with len 5: the bytes past the copied string are the old ones, and len now runs past the bytes the buffer defines |
| RowStore.JoinTerminated | editor.c:88-98 | joining two loaded lines gives a loaded line: the upper content without its terminator, followed by the lower content |
| RowStore.SplitHalves | editor.c:76-84 | the two rows splitRow leaves for a loaded line, in closed form |
| RowStore.JoinHalves | editor.c:94-96 | the two halves of a split loaded line can be joined, and joining them gives back the line |
| RowStore.SplitJoinRoundTrip | editor.c:72-98 | splitRow(i, p) followed by delCatRow(i + 1) restores the whole document for a loaded line; only dirty becomes set |
| RowStore.JoinedShape | editor.c:88-98 | the joined row of two loaded lines is the upper bytes before the join point followed by the lower line; splitting it at the join point recovers both lines |
| RowStore.JoinSplitRoundTrip | editor.c:72-98 | delCatRow(i) followed by splitRow(i - 1, q) at the join point restores the whole document; only dirty becomes set |
| Terminal.AbAppend | display.c:45-51 | on a successful realloc the first len bytes of s follow the old contents and the size grows by len; on failure the buffer is unchanged |
| Terminal.AbAppendTwice | display.c:45-51 | two successful appends equal one append of the concatenation |
| Search.FindFrom | display.c:72 | strnstr on a row's tail: the first offset at or after `from` where the needle occurs, or -1 when it occurs nowhere at or after `from` |
| Search.SearchRows | display.c:69-77 | the row loop finds the first occurrence in row-major order from (i, col), or reports that there is none from there on |
| Search.Search | display.c:66-89 | the first occurrence after start in row-major order; failing that, the first in the document; failing that, start itself |
| Search.SearchFindsOccurrence | display.c:66-89 | a needle that occurs anywhere is always found at one of its occurrences |
| Status.StatusPrintMode | display.c:221-250 | in COMMAND mode it appends exactly the command text; otherwise it appends the mode tag (VIEW or INSERT, none for QUIT), the file name, " <numrows>L", an erase to end of line, a move to (ws_row, ws_col - len) and the 1-based "row, col" text; the old status is kept as a prefix |
| Status.ModeTag | display.c:226-235 | exactly one text token in VIEW and INSERT mode, the VIEW tag exactly in VIEW mode and the INSERT tag exactly in INSERT mode, none in COMMAND and QUIT |
| Status.CoordsReadBack | display.c:246-249 | the coordinates text splits at ", " into two decimals whose values are cursor row + 1 and cursor column + 1 |
| Status.RowCountReadBack | display.c:241-243 | the row count text is a space, a decimal reading back as numrows, and `L` |
| Viewport.HeightIsCeiling | display.c:109 | the visual height charged to a row is 1 for an empty row and the ceiling of len / maxc otherwise |
| Viewport.Scan | display.c:103-110 | the scan from toprow stops at the end of the document or once the visual row reaches maxr; it advances at least one row when it can; the visual row equals 1 plus the heights of the scanned rows; every row scanned started on screen |
| Viewport.LargestDisplayedPointAsWritten | display.c:98-116 | the source formula with its truncation as written: the point is on the last row the scan reached, the same row as the intended version; without overflow it is that row's full length and equals the intended point |
| Viewport.AsWrittenOvershoots | display.c:111-115 | as written, an overflow of two or more visual rows yields a column past the end of the last row |
| Viewport.AsWrittenOneOver | display.c:111-115 | as written, an overflow of exactly one visual row yields the first byte of the hidden subline, one past the intended point, or the row's full length when the row ends on a subline boundary |
| Viewport.AsWrittenOneOverExample | display.c:106-125 | one 3-byte row on a 2-row screen with wrap width 2 and the cursor on byte 2, which sits on the hidden visual row 2: the as-written fold (0, 2) does not have the cursor past it, the intended fold (0, 1) does |
| Viewport.AsWrittenExample | display.c:111-115 | a 35-byte row on a 2-row screen with wrap width 10 gives (0, 50) as written and (0, 9), the last byte of the first visual row, as intended |
| Viewport.LargestDisplayedPoint | display.c:98-116 | the point is on the last row the scan reached, and that row starts on screen; the scan stopped at the end of the document or with the screen full; a row that fits gives its full length; an overflowing row gives the byte in the last column of the last content visual row (maxr - 1), the last byte the screen shows |
| Viewport.SumHeightsSplit | display.c:107-110 | the heights charged to a range of rows add up over any split of it |
| Viewport.LargestFacts | display.c:107-116 | the intended truncation `(Height - extra) * maxc - 1` meets the largest-point specification |
| Viewport.TruncatedColumn | display.c:113 | cutting `extra` sublines of a row, at least one left, leaves a whole number k of sublines strictly inside the row; byte k * maxc - 1 is in the last column of subline k - 1 |
| Viewport.GetBoundedCursor | display.c:92-96 | the cursor's row is unchanged; its column is min(cursor.c, len), that is, one of the two and at most both |
| Viewport.BoundedCursorStable | display.c:92-96 | bounding is idempotent and never moves the cursor forward in point order |
| Viewport.AdjustToprow | display.c:119-126 | the scroll loop as written, on the as-written fold of display.c:113, defined whenever some toprow before numrows stops it: a cursor above the screen sets toprow to exactly cursor.r; otherwise toprow only increases, by at most one past the cursor's row, and stays a valid row; on exit the bounded cursor is not past the point `getLargestDisplayedPoint` reports; every row skipped still had it past; nothing but toprow changes |
| Viewport.ScrollFrom | display.c:125 | the `while` loop from a given toprow: it ends at the first toprow, at or after the start and at or before any toprow known to stop it, where the bounded cursor is not past the as-written fold; every toprow it passes had the cursor past it |
| Viewport.StopsBelowCursorRow | display.c:107-125 | a toprow below the cursor's row always stops the loop, since the fold is then on a later row |
| Viewport.AdjustToprowIntended | display.c:119-126 | the same loop on the intended fold: on exit the bounded cursor is not past the largest displayed point, and every row skipped hid it |
| Viewport.ScrollExampleFolds | display.c:113-125 | on rows of 5, 35 and 0 bytes, a 3-row screen, wrap width 10 and the cursor at (1, 15), the as-written fold from toprow 0 is (1, 50); the intended folds are (1, 9) from toprow 0 and (1, 19) from toprow 1 |
| Viewport.ScrollExampleDefined | display.c:119-126 | both scroll loops are defined on that example: the loop as written stops at toprow 0 already |
| Viewport.AsWrittenScrollStays | display.c:119-126 | on that example the scroll loop as written leaves toprow at 0 |
| Viewport.IntendedScrollMoves | display.c:119-126 | on that example the intended scroll loop moves toprow to 1, the cursor's row |
| Viewport.ScrollStopsEarlyExample | display.c:106-125 | on rows of 5 and 25 bytes, a 3-row screen, wrap width 10 and the cursor at (1, 23): the as-written fold from toprow 0 is (1, 30), which stops the loop, while from toprow 1 it is (1, 20), which does not; the loop is defined on this input |
| Viewport.AsWrittenStopsEarly | display.c:119-126 | on that input the loop as written leaves toprow at 0, with byte 23 of the cursor's row on visual row 4, below the screen |
| Viewport.ScrollPastLastExample | display.c:106-125 | one 15-byte row on a 2-row screen with the cursor on byte 14: the as-written fold (0, 10) still has the cursor past it, so and so it has from every toprow: the loop would push toprow to numrows; the scroll precondition excludes this input |
| Render.Glyph | display.c:193-197 | a tab is written as exactly two spaces, any other byte as itself, and nothing written is a tab |
| Render.Expand | display.c:163-198 | the bytes written for a run contain no tab; a run without tabs is written unchanged; the output is between one and two times the run's length |
| Render.PlaceByte | display.c:165-178 | a tab takes 2 cells, other bytes 1; the visual column advances at least by the width; the visual row advances by one exactly on a wrap, and byte 0 never wraps |
| Render.ByteTokens | display.c:171-197 | the text a drawn byte contributes is exactly its glyph |
| Render.HeadBody | display.c:171-178 | a drawn byte's tokens move only on a wrap, and only to its own visual row |
| Render.Chars | display.c:163-198 | the character loop never goes back a visual row and stops inside the row |
| Render.CharsFacts | display.c:163-198 | the character loop stops before the row's end only with the screen full; every move it writes is to a visual row below the start, on screen; it saves the cursor only for the cursor's row, inside the text area |
| Render.CharsText | display.c:163-198 | the text the character loop writes is exactly the tab expansion of the bytes it drew |
| Render.FindCursor | display.c:180-189 | a cursor already found, or on another row, is kept; otherwise it is saved at the cursor's byte or at the row's last byte, on that byte's visual row and inside the text area |
| Render.Gutter | display.c:152-155 | the line-number field is exactly coloff bytes, without tabs: the padded number and a space, or the number cut to the field when it is too long |
| Render.RowHead | display.c:151-156 | a row opens with four tokens: a move to column 0 of its own visual row, then colour and line-number tokens only, the line number being r + 1 in a gutter of coloff cells |
| Render.RowsFrom | display.c:146-202 | the row loop never goes back a visual row or a document row |
| Render.RowsFacts | display.c:146-202 | the row loop stops before the last row only with the screen full; all its moves are to visual rows on screen; the cursor it saves is for a row at or after the start, at a legal cursor spot |
| Render.RowStepFacts | display.c:146-202 | one row turn keeps the on-screen and cursor-spot facts of the turns after it |
| Render.RowStepBody | display.c:151-201 | a row turn's tokens all stay on screen at or below its visual row |
| Render.RowStepSave | display.c:158-189 | a row turn saves the cursor only for the cursor's row; an empty row puts it right after the gutter |
| Render.Tildes | display.c:204-208 | each visual row from v up to maxr - 1 gets a move to its start, an erase to end of line and a `~`, three tokens per row |
| Render.PrintEditorContents | display.c:133-219 | the frame starts with hide-cursor and ends with show-cursor; every token between is on screen (no move to a visual row at or past maxr) and tab-free; in COMMAND mode the cursor goes to (maxr, mcol + 1); otherwise to the unset point or to a legal cursor spot |
| Render.FrameFinal | display.c:209-214 | the last move goes where the row loop left the cursor |
| Render.FrameBlank | display.c:203-208 | the blank `~` lines come just before the final move |
| Render.HeightOfNonEmpty | display.c:109 | a non-empty row is charged (len - 1) / maxc + 1 visual rows |
| Render.SumHeightsAtLeast | display.c:109 | every row is charged at least one visual row |
| Render.PlaceTabFree | display.c:165-174 | without tabs, byte c ends on visual column c and visual row v + c / maxc |
| Render.CharsTabFree | display.c:163-198 | a tab-free row drawn from byte c that fits ends after its last byte, on the visual row of that byte |
| Render.RowTabFree | display.c:146-202 | a tab-free row that fits takes exactly the viewport's Height visual rows: the renderer and getLargestDisplayedPoint agree |
| Render.RowsTabFree | display.c:146-202 | tab-free rows that fit are all drawn, ending at the visual row the viewport's SumHeights predicts |
| Render.FrameTildes | display.c:203-208 | a tab-free document that fits is followed by one `~` line for each visual row below it |
| Render.TabFreeStep | display.c:163-189 | one step of a tab-free row: byte c is drawn on visual row v + c / maxc |
| Render.TabFreeFound | display.c:181-184 | the cursor found at its byte of a tab-free row is at the closed-form position |
| Render.SavedKept | display.c:181-189 | once found, the cursor is not overwritten by the rest of the row |
| Render.SkipToCursor | display.c:180-189 | before the cursor's byte nothing is saved |
| Render.CharsCursorTabFree | display.c:180-189 | in a tab-free row the cursor is saved at its byte's visual row and column, or just past the last byte |
| Render.RowCursorTabFree | display.c:158-189 | the same from the row's first byte |
| Render.TopRowSave | display.c:146-189 | with the cursor's row at the top, the row loop saves its closed-form position: right after the gutter for an empty row |
| Render.CursorOnTopRow | display.c:180-214 | with a tab-free cursor row at the top, the frame's final move is to (1 + byte / maxc, byte % maxc + coloff + 1); for an empty row it is (1, coloff + 1) |
| Render.HiddenCursorSkipped | display.c:163-189 | in a tab-free row whose cursor byte lies on a visual row at or under the status bar, drawing from any earlier byte saves no cursor |
| Render.HiddenCursorRow | display.c:158-189 | a tab-free cursor row whose cursor byte lies at or under the status bar saves no cursor |
| Render.ExampleRowsSave | display.c:146-202 | on the scroll example from toprow 0 the row loop ends without a saved cursor |
| Render.AsWrittenFrameHidesCursor | display.c:146-214 | the scroll example drawn from toprow 0, where the loop as written leaves it, ends with the move to (-1, 0): the cursor is not on screen |
| Render.IntendedFrameShowsCursor | display.c:146-214 | the scroll example drawn from toprow 1, where the intended loop moves it, ends with the move to (2, 7), the cursor's byte 15 on the second visual row |

## Left out

- I/O is not modelled. This covers `write` to the terminal in `clearScreen`, `printEditorContents` and `printEditorStatus`, the loader `editorFromFile` (`fopen`/`fgetc`) and `saveToFile` (`fprintf`). The document and the terminal size are inputs. `printEditorStatus` only wraps the status buffer in escape tokens and writes it, so it is left out with the I/O.
- `resize` is left out as a signal handler: the `ioctl` and its asynchronous call are concurrency. Only its cursor clamp is modelled (`Points.ResizeClamp`). The calls it makes in turn are modelled separately.
- Allocation failure is left out everywhere except `abAppend`, whose documented no-op on failure is modelled (`Terminal.AbAppend`). Every other `realloc` and `strdup` is assumed to succeed. The frame and status builders (`Render`, `Status`) build their output by plain token concatenation, so they assume every `abAppend` succeeds.
- Escape sequences are tokens, not their bytes. `Move` stands for the `snprintf` of `ESC[r;cH`. The `LineNumber(n, coloff)` token stands for the bytes `Render.Gutter` defines. The trailing NUL that `szstr` copies with each literal is dropped for escape sequences. It is kept for the mode tags and the `~` text, where it shows in the output.
- Wide characters are not measured; only a tab has width 2. The source admits the same at display.c:98.
- The layout of `display.h` (the interface record) is not part of this model. `Screen.Display` has the fields that `display.c` reads. `display.c` indexes rows through pointers while `editor.h` declares an array of structs; both are an abstract `seq<Row>` here.
- `strnstr` (BSD libc) is modelled as a plain substring search over the row's `len` recorded bytes (`Search.FindFrom`). Its stop at a NUL inside the haystack is not modelled.
- RowStore.DeleteChar: the `memmove` at editor.c:29 moves `len - pos` bytes and so reads one byte past `len`. The model removes exactly the byte at `pos` and keeps the rest of the buffer.
- RowStore.DeleteRow: the `memmove` at editor.c:63-67 moves `numrows - rownum + 1` entries, two more than exist. The model shifts only the real rows. The bound check there is commented out, so `0 <= rownum < numrows` is a precondition.
- RowStore.SplitRow: the guard at editor.c:73 lets `rownum == numrows` through and then reads past the array. That case is excluded by the precondition `SplitDefined`.
- RowStore.SplitRow: `SplitDefined` also requires a NUL at or after `pos` inside the buffer, for the `strdup` at editor.c:81. The source does not always have one. A row appended by `newRow` has the buffer [NUL] with `len` 0. `insertChar` reallocates it to `len + 1` bytes at editor.c:17, which drops the NUL: `RowStore.AppendedRowLosesNul` shows the row `Row(['a'], 1)` this gives. Splitting such a row makes `strdup` read past the allocation, which the model does not describe.
- Viewport.AdjustToprow: `ScrollDefined` excludes exactly the inputs where no `toprow` before `numrows` stops the loop. There the loop as written pushes `toprow` to `numrows`, and display.c:106-115 then reads `len` without setting it. `Viewport.ScrollPastLastExample` gives such an input: one 15-byte row, `ws_row` 2, `maxc` 10 and the cursor at (0, 14).
- Search.Search: `SearchDefined` requires `start.c < len` on the start row. With a larger column, display.c:72 passes `strnstr` a pointer past the row and a negative length. The cursor column can exceed `len`, which is why `getBoundedCursor` exists. The needle and the file name (`Status.StatusPrintMode`) are required to be C strings without an inner NUL.
- RowStore.DelCatRow: the precondition `CanJoin` requires both rows to hold a C string that `strcat` keeps inside the reallocated buffer; the source does not check this.
- RowStore.DelCatRow: the bytes `realloc` adds past the old buffer are uninitialised and are not modelled. When the upper row has a NUL before its last byte, `strcat` copies to that NUL and the joined buffer is shorter than the new `len`, so the joined row is not `Valid`: `RowStore.JoinEmbeddedNulExample` shows one.
- RowStore.NewRow: requires `0 <= rownum`. With a negative `rownum` the `memmove` at editor.c:50-53 reads and writes before the row array.
- Render.Gutter: `char linenum[coloff]` at display.c:152 is one byte short for the NUL that `sprintf` writes. The model keeps the `coloff` bytes that `abAppend` copies and does not model the overflow.
- The uninitialised `save_cursor.c` at display.c:140 is modelled as column 0, so a frame that never finds the cursor ends with `Move(-1, 0)`.
- Render.PrintEditorContents requires `maxc >= 1` and `coloff >= 1`. With a zero width the `%` at display.c:172 divides by zero. With `ws_col < coloff + 1` the width is negative, where C's truncating `/` and `%` differ from Dafny's; that case is not modelled.
- Render.CursorOnTopRow: the closed-form cursor position is proved only for a tab-free cursor row that is the top row on screen. For every other frame, `Render.PrintEditorContents` states only that the cursor lands at a legal cursor spot in the text area.
- Render.FrameTildes: the count of `~` lines is proved only when the rows from `toprow` are tab-free and fit on screen. Otherwise `Render.Tildes` and `Render.FrameBlank` state the count from the visual row the row loop reached.
- The dirty flag is set only by `newRow`, and so by `splitRow`, which calls it. `insertChar`, `deleteChar`, `deleteRow` and `delCatRow` leave it alone, and the model follows the code. The comment at editor.h:34 describes `dirty` as "file modified?", which those edits also do.
- `editor.h` declares `status` as `char[80]` in the editor record. Display code appends to a separate growable status buffer, which the model keeps as a token sequence. The 80-byte field is not used by the modelled code.

## Findings

| source | as written | input that shows it | evidently intended | confidence | as-written member | corrected member |
|---|---|---|---|---|---|---|
| display.c:113 | `len -= len % maxc - (extra - 1) * maxc` subtracts the partial last subline and then adds `(extra - 1) * maxc` back, so the column grows with the overflow | one 35-byte row, `ws_row = 2`, `ws_col = 12`, `coloff = 1` (maxc = 10): the row needs 4 visual rows, extra = 3, and the result is column 50 of a 35-byte row | the last byte the visible sublines show, `(Height - extra) * maxc - 1`, here 9 | not executed | Viewport.AsWrittenOvershoots | Viewport.LargestDisplayedPoint |
| display.c:111-114 | with `extra == 1` the same formula gives `len - len % maxc`, the first byte of the hidden subline (or `len` when the row ends on a subline boundary), so a cursor on the hidden subline is not past the fold | one 3-byte row, `ws_row = 2`, `ws_col = 4`, `coloff = 1` (maxc = 2), cursor (0, 2), toprow 0: the fold is (0, 2), so the loop does not move, yet byte 2 is on visual row 2, the status bar row | the last byte shown, `(Height - 1) * maxc - 1`, here (0, 1) | not executed | Viewport.AsWrittenOneOverExample | Viewport.LargestDisplayedPoint |
| display.c:125 | the scroll loop compares the cursor with the as-written fold of display.c:113, which can lie past the end of the row, so it stops while the cursor's subline is still below the screen | rows of 5, 35 and 0 bytes, `ws_row = 3`, `ws_col = 12`, `coloff = 1` (maxc = 10), cursor (1, 15), toprow 0: the as-written fold is (1, 50), so toprow stays 0, byte 15 is on visual row 3, past the last content row 2, and the frame ends with the move to (-1, 0); also rows of 5 and 25 bytes with the cursor at (1, 23), where the as-written fold is (1, 30) and toprow stays 0 with byte 23 on visual row 4 (`Viewport.AsWrittenStopsEarly`) | scroll until the cursor's subline is shown, here to toprow 1, where the intended fold is (1, 19) and the frame ends with the move to (2, 7) | not executed | Render.AsWrittenFrameHidesCursor | Render.IntendedFrameShowsCursor |
