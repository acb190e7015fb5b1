# A verified model of the broadnic text buffer

broadnic is a small SDL text editor. Its core is a text buffer:

- A **Line** is a growable byte buffer with a `capacity`, a `size` and the bytes `es`. It supports insertion before a column, appending, backspace and delete. Each edit clamps the column it is given to the line's length and reports the new column.
- An **Editor** is a growable array of Lines plus a cursor `(cursor_row, cursor_col)`. Its operations are:
  - lazy creation of a first line;
  - insertion of a blank line below the cursor;
  - three edit entry points that delegate to the cursor's Line;
  - a query for the byte under the cursor;
  - saving (every line followed by a newline byte);
  - loading (a stream of chunks split at its newline bytes).
- The main loop reads keyboard and text-input events. It moves the cursor and calls the editor for each one.

The project models the current buffer (`src/editor.h`), the two older variants (`editor.h` and `line.h`) and the event dispatch of both programs (`src/main.c` and `main.c`).

Modules:

- `Text` (text.dfy) defines the edits of one line as functions on byte sequences: clamping, insert-before, backspace and delete. It proves that `|t|` backspaces, or `|t|` deletes, undo inserting `t`.
- `Growth` (growth.dfy) is the doubling capacity policy shared by `line_extend` and `editor_grow`:
  - `NewCapacity` is the loop as it should run, proved against the function `Grown`;
  - `IterateAsWritten` is the loop as written, together with the proof that from capacity 0 it can fail to exit;
  - `AllocatedAfterGrowth` is the allocation the older files obtain from `realloc`.
- `LineBuffer` (line.dfy) is the Line of `src/editor.h` as a class. Its buffer `es` is a sequence of length `capacity`, and its methods are proved against the `Text` functions. It runs the corrected growth loop and delete copy of Findings 1 and 4, not the code as written.
- `Document` (document.dfy) is the editor's value: rows, cursor row and cursor column. It gives a function per editor operation, and the as-written variants where the program misbehaves.
- `Serial` (serial.dfy) defines save (`Serialise`) and load (`Feed` and `Split`) as byte functions. `Feed` takes one byte at a time. The chop-at-newline steps of the loading loop are proved equal to it (`FeedChop`, `FeedRest`). It proves that load is independent of chunk boundaries and proves both round trips.
- `EditorCore` (editor.dfy) is the Editor of `src/editor.h` as a class. It holds a sequence of `LineBuffer.Line` objects. Every method is proved to take the editor to the `Document` function of its old state, and loading is proved to yield `Split` of the stream. It runs the corrected `CreateFirstLine` and `InsertNewLine` of Findings 2 and 3; the code as written is modelled beside them in `Document` (the `AsWritten` members).
- `OldLine` (old_line.dfy) is the Line of `line.h`: the column is unclamped and passed by value, and the allocation lags behind the capacity.
- `LegacyEditor` (legacy_editor.dfy) is the Line and the Editor of `editor.h`. Their allocation lags behind the capacity, and the first-line guard is inlined in each entry point.
- `Keys` (keys.dfy) covers the startup load and the event dispatch of `src/main.c`, over the corrected editor (so Return after Down to row `size` follows the corrected `Document.InsertNewLine`):
  - the function `Step`, with `Poll` and `Run` for the two loops;
  - methods written against `EditorCore.Editor` that are proved to follow those functions;
  - invariants over whole runs.
- `LegacyKeys` (legacy_keys.dfy) is the event dispatch of `main.c`, whose Down and Right keys have no upper bound.

Each older module, and each "AsWritten" member, models what the code does, including where it misbehaves. Memory the program would read or write outside an allocation is reported in an `ok` result, except when saving (see "## Left out"). Bytes that C would leave undefined are modelled as zeros, and undefined Lines as empty ones.

Two details of the code are worth stating, since the model follows them:

- **Delete moves the column.** `line_delete` writes the clamped column back through `*col` (`src/editor.h:114-116`), so a delete past the end of the line moves the cursor to the end.
- **Clamping does not keep `line_delete` in bounds.** The delete copy still reads one byte past the line (Finding 4).

## Model

| member | source | states |
|---|---|---|
| Text.Clamp | src/editor.h:81-83 | the column is kept when within the line and becomes the line's length when beyond it |
| Text.InsertBefore | src/editor.h:79-93 | the result is the bytes before the clamped column, then the text, then the rest; the new column is the clamped column plus the text's length |
| Text.Backspace | src/editor.h:100-110 | with a clamped column above 0 the byte before it is removed and the column moves back one; at column 0 the line is unchanged |
| Text.Delete | src/editor.h:112-121 | the column is clamped; the byte at it is removed when there is one, otherwise the line is unchanged |
| Text.BackspacesRemoveBefore | src/editor.h:100-110 | with the cursor just after `t`, `\|t\|` backspaces remove exactly `t` and leave the cursor where `t` began |
| Text.DeletesRemoveAfter | src/editor.h:112-121 | with the cursor just before `t`, `\|t\|` deletes remove exactly `t` and keep the cursor |
| Text.BackspacesUndoInsert | src/editor.h:79-110 | inserting `t` and then `\|t\|` backspaces restores the line and the clamped column |
| Text.DeletesUndoInsert | src/editor.h:79-121 | inserting `t`, resetting the column and issuing `\|t\|` deletes restores the line |
| Text.InsertReach | src/editor.h:85-90 | the shift and copy of an insertion touch bytes up to `size + n`, and touch none exactly when nothing moves and nothing is inserted |
| Text.BackspaceReach | src/editor.h:106 | the backspace copy touches bytes up to `size`, and none when the column is at the end |
| Text.DeleteReach | src/editor.h:118 | the delete copy reads up to index `size`, one byte past the line |
| Growth.Step | src/editor.h:24-30 | one turn of the doubling loop, testing the capacity computed so far: the capacity grows strictly, to the initial constant or to twice itself |
| Growth.Grown | src/editor.h:20-35 | the grown capacity never shrinks, leaves room for `n` more, and stays put when there is room already |
| Growth.GrownIsTight | src/editor.h:125-140 | growth overshoots by less than a factor of two, unless it stops at the initial constant |
| Growth.NewCapacity | src/editor.h:22-30 | the doubling loop, with its test corrected, ends at the `Grown` capacity |
| Growth.StepAsWritten | src/editor.h:24-30 | one turn of the loop as written: from capacity 0 every turn is the first turn of the corrected loop; from a positive capacity it is a corrected turn |
| Growth.IterateAsWritten | src/editor.h:24-30 | `k` turns of the loop as written: from capacity 0 the capacity is the initial constant after every turn; from a positive capacity it grows by at least one per turn |
| Growth.LoopNeverExitsAsWritten | src/editor.h:24-30 | from capacity 0 with `n` above the initial constant, every turn of the loop as written leaves the capacity at the constant, so the loop never exits |
| Growth.ExitAsWritten | src/editor.h:24-30 | the capacity the loop as written exits with from a positive capacity: at least the starting capacity and enough room for `n` more |
| Growth.ExitAsWrittenIsGrown | src/editor.h:24-30 | from a positive capacity, the loop as written exits with the capacity `Grown` prescribes |
| Growth.AsWrittenAgreesWhenItExits | src/editor.h:24-30 | from capacity 0 with `n` within the initial constant, one turn of the loop as written gives `Grown`; from a positive capacity, the capacity the loop as written exits with is `Grown` |
| Growth.AllocatedAfterGrowth | editor.h:29-32 | after growth the allocation is the capacity held before growth, and is unchanged when the capacity did not change |
| Growth.FreshGrowthAllocatesNothing | editor.h:18-33 | a fresh line grown for one byte gets capacity 1024 but an allocation of 0 bytes |
| LineBuffer.Line.constructor | src/editor.h:14-18 | a zero-initialised Line is empty with capacity 0 |
| LineBuffer.Line.Extend | src/editor.h:20-35 | room for `n` more bytes, the capacity by the doubling policy and never smaller, and the contents unchanged |
| LineBuffer.Line.InsertTextBefore | src/editor.h:79-98 | the new contents and column are those of `Text.InsertBefore`, and the capacity is grown by the policy |
| LineBuffer.Line.AppendText | src/editor.h:68-77 | the text is appended at the end of the contents |
| LineBuffer.Line.Backspace | src/editor.h:100-110 | the new contents and column are those of `Text.Backspace`, and the capacity is unchanged |
| LineBuffer.Line.Delete | src/editor.h:112-121 | the new contents and column are those of `Text.Delete`, and the capacity is unchanged |
| LineBuffer.DeleteOverreadsFullBuffer | src/editor.h:118 | in a line whose size equals its capacity, the delete copy as written reads byte `capacity` |
| Document.CreateFirstLineAsWritten | src/editor.h:142-153 | the guard as written: an empty editor gets one line and other rows are kept, the column is kept, and afterwards the row names a line exactly when the editor had lines or the row was 0 |
| Document.CreateFirstLine | src/editor.h:142-153 | the cursor row ends on a line; a row beyond a non-empty editor becomes the last row; an empty editor gets one empty line; nothing else changes |
| Document.CreateFirstLineAsWrittenMisses | src/editor.h:144-152 | on an empty editor with cursor row above 0, the guard as written leaves the row beyond the one line it creates |
| Document.CreateFirstLineAgrees | src/editor.h:142-153 | when the editor has lines or the row is 0, the guard as written and the corrected one agree |
| Document.InsertNewLine | src/editor.h:155-171 | one more row; the blank row goes below the clamped cursor row (at the end when the row is at or past the end); the cursor row becomes the clamped row plus one, at column 0; no text is split |
| Document.NewLineSlot | src/editor.h:157-166 | the slot of the blank row: just below the cursor row when that names a line, otherwise the end of the document |
| Document.InsertNewLineAsWritten | src/editor.h:155-171 | the slots after the memmove and memset as written: no result exactly when the zeroed slot would lie past the capacity; otherwise one more slot, the slots up to the clamped row kept, the zeroed slot just below it, the rest shifted up one, and slot `size` uninitialised when the row was at `size` |
| Document.Slots | src/editor.h:161-167 | the Line slots of the rows, one per row |
| Document.NewLineAtEndIsUninitialised | src/editor.h:157-170 | with the cursor row at `size`, the insertion as written leaves slot `size` uninitialised |
| Document.NewLineAtEndOverflows | src/editor.h:167 | with the cursor row at `size` and capacity `size + 1`, the insertion as written writes beyond the array |
| Document.NewLineAsWrittenAgrees | src/editor.h:155-171 | with the cursor row on a line, the insertion as written gives the slots and row of the corrected one |
| Document.NewLineKeepsRows | src/editor.h:155-171 | removing the new blank row gives back the old rows |
| Document.InsertText | src/editor.h:173-177 | after the guard, only the cursor row changes, and it gets the text spliced in at the clamped column |
| Document.Backspace | src/editor.h:179-183 | after the guard, only the cursor row and column change, as `Text.Backspace` says |
| Document.Delete | src/editor.h:185-189 | after the guard, only the cursor row and column change, as `Text.Delete` says |
| Document.CharUnderCursor | src/editor.h:191-199 | a byte exactly when the row and column lie within the document, and then the byte at that position |
| Document.BackspacesOnRow | src/editor.h:179-183 | with the cursor on a line, repeated backspaces act on that line alone |
| Document.DeletesOnRow | src/editor.h:185-189 | with the cursor on a line, repeated deletes act on that line alone |
| Document.BackspacesUndoInsertText | src/editor.h:173-183 | typing `t` and then `\|t\|` backspaces gives back the document the guard produced, with the clamped column |
| Document.DeletesUndoInsertText | src/editor.h:173-189 | typing `t`, resetting the column and `\|t\|` deletes gives back the document the guard produced |
| Document.InsertTextThenQuery | src/editor.h:173-199 | after typing `t`, the byte under each column of the typed span is the matching byte of `t` |
| Serial.Serialise | src/editor.h:201-213 | the bytes `editor_save_to_file` writes: empty exactly when there are no rows, and otherwise ending in a newline (the layout row by row is `SerialiseSnoc`) |
| Serial.SerialiseSnoc | src/editor.h:208-211 | saving one more row appends its bytes and a newline |
| Serial.SerialiseLength | src/editor.h:201-213 | the saved file holds every row's bytes plus one newline per row |
| Serial.FirstNewline | src/editor.h:229 | the index of the first newline byte, or the length when there is none |
| Serial.FirstNewlineConcat | src/editor.h:229 | the first newline of a concatenation lies in its first part when that has one |
| Serial.AppendLast | src/editor.h:228-233 | only the last row changes, and it gets `s` appended |
| Serial.AppendLastTwice | src/editor.h:230-233 | appending twice to the last row is appending both |
| Serial.Feed | src/editor.h:226-236 | byte-by-byte reference definition of loading: a newline starts a new row, any other byte goes to the end of the last row, and the result is never empty |
| Serial.AppendToEmptyLast | src/editor.h:230-233 | appending to a trailing empty row makes that row the appended bytes |
| Serial.FeedLine | src/editor.h:229-231 | loading a newline-free line and its newline into an empty last row leaves that row complete and a new empty row after it |
| Serial.FeedChop | src/editor.h:229-231 | a piece ending at a newline is appended to the last row and followed by a new empty row |
| Serial.FeedRest | src/editor.h:232-234 | a piece without a newline is appended to the last row |
| Serial.FeedNothing | src/editor.h:226 | an empty chunk changes no row |
| Serial.Split | src/editor.h:215-240 | loading a stream into the empty editor gives at least one row |
| Serial.FeedConcat | src/editor.h:220-237 | loading `a` and then `b` is loading `a + b`, so chunk boundaries do not matter |
| Serial.FeedCount | src/editor.h:215-240 | loading adds one row per newline byte |
| Serial.FeedRowsHaveNoNewline | src/editor.h:226-236 | loaded rows hold no newline byte |
| Serial.SerialiseFeed | src/editor.h:201-240 | saving the loaded rows gives the old rows, the loaded bytes and one newline |
| Serial.SaveAfterLoad | src/editor.h:201-240 | saving a loaded stream gives back the stream with one newline added |
| Serial.LoadAfterSave | src/editor.h:201-240 | loading a saved document of newline-free rows gives those rows plus one empty row |
| Serial.FeedSerialise | src/editor.h:201-240 | loading the saved bytes of newline-free rows after an empty row gives those rows and a trailing empty row |
| EditorCore.Editor.constructor | src/main.c:113 | the zero-initialised editor is the empty document with capacity 0 |
| EditorCore.Editor.Grow | src/editor.h:125-140 | room for `n` more lines, the capacity by the doubling policy and never smaller, and the document unchanged |
| EditorCore.Editor.CreateFirstLine | src/editor.h:142-153 | the editor becomes `Document.CreateFirstLine` of its old state, with the cursor row on a line |
| EditorCore.Editor.InsertNewLine | src/editor.h:155-171 | the editor becomes `Document.InsertNewLine` of its old state |
| EditorCore.Editor.MakeRoom | src/editor.h:157-160 | the cursor row is clamped to `size`, room for one more Line is made, the document is unchanged, and `k` is `Document.NewLineSlot` of the old state |
| EditorCore.Editor.PlaceNewLine | src/editor.h:161-167 | a new empty Line is spliced into the array at `k`, so the rows gain an empty row at `k`; capacity and cursor are unchanged |
| EditorCore.Editor.InsertTextBeforeCursor | src/editor.h:173-177 | the editor becomes `Document.InsertText` of its old state |
| EditorCore.Editor.Backspace | src/editor.h:179-183 | the editor becomes `Document.Backspace` of its old state |
| EditorCore.Editor.Delete | src/editor.h:185-189 | the editor becomes `Document.Delete` of its old state |
| EditorCore.Editor.CharUnderCursor | src/editor.h:191-199 | a byte exactly when the cursor lies on a byte of a line, and then that byte; nothing changes |
| EditorCore.Editor.SaveToFile | src/editor.h:201-213 | when the file opens, the bytes written are `Serial.Serialise` of the rows; otherwise an open failure |
| EditorCore.Editor.LoadFromFile | src/editor.h:215-240 | loading into the empty editor gives `Serial.Split` of the stream, with the cursor row reset to 0 |
| EditorCore.Editor.RewindCursor | src/editor.h:239 | the cursor row becomes 0 and nothing else changes |
| EditorCore.Editor.LoadChunks | src/editor.h:220-237 | the rows become `Serial.Feed` of the old rows and the whole stream |
| EditorCore.Editor.LoadChunk | src/editor.h:226-236 | the rows become `Serial.Feed` of the old rows and one chunk, with the cursor row kept on the last line |
| EditorCore.Editor.LoadPiece | src/editor.h:227-235 | one chop leaves the bytes still to be loaded, which are fewer, and loading them gives what loading the whole remainder would have given |
| EditorCore.Editor.AppendToLastLine | src/editor.h:228-233 | only the last row changes, as `Serial.AppendLast` says, and the cursor and size are unchanged |
| Keys.Motion | src/main.c:394-413 | Up and Left never go below 0; Down stops at one past the last row; Right stops at column 80; the rows are unchanged |
| Keys.Step | src/main.c:374-425 | the program quits exactly on a quit event or Escape; it saves exactly on F2 when a file is named and opens; a failed save exits; saved bytes are the serialised rows; no event removes a row |
| Keys.Poll | src/main.c:373-426 | the inner loop over a batch: after an exit nothing changes, the quit flag stays set, and saves only accumulate |
| Keys.Run | src/main.c:369-454 | the outer loop over batches: once quit or exited nothing changes, and saves only accumulate |
| Keys.Apply | src/main.c:373-426 | the quit flag is sticky; saves accumulate in order; the document follows `Step` |
| Keys.StartDoc | src/main.c:343-358 | a named file that opens is loaded as one row more than it has newline bytes, with the cursor at 0; otherwise the editor starts empty |
| Keys.Startup | src/main.c:343-358 | the editor after startup is `StartDoc` |
| Keys.MoveCursor | src/main.c:394-413 | the arrow keys change the cursor as `Motion` says |
| Keys.HandleEvent | src/main.c:374-425 | one event changes the editor, the outcome and the save as `Step` says |
| Keys.ApplyEvent | src/main.c:374-425 | one event changes the editor, the quit flag, the exit and the saves as `Apply` says |
| Keys.PollFirst | src/main.c:373-426 | a session that has not exited takes the first event of a batch and goes on with the rest |
| Keys.PollEvents | src/main.c:373-426 | the inner loop follows `Poll`: every event of the batch in order, stopping only on an exit |
| Keys.RunLoop | src/main.c:369-454 | the main loop follows `Run`: one batch per frame until a quit or an exit |
| Keys.StepKeepsRowInRange | src/main.c:394-403 | no event takes the cursor row beyond one past the last line |
| Keys.PollKeepsRowInRange | src/main.c:373-426 | over a batch, the cursor row stays at most one past the last line |
| Keys.RunKeepsRowInRange | src/main.c:369-454 | over a whole run, the cursor row stays at most one past the last line |
| Keys.DownThenReturnReachesEndSlot | src/main.c:399-416 | Down from the last line puts the row at `size`, where Return, as written, leaves slot `size` uninitialised |
| Keys.MotionKeepsColumnWithinLimit | src/main.c:404-413 | the arrow keys keep the column at most 80 whatever the line's length, and change no row |
| Keys.LeftThenRight | src/main.c:404-413 | Left then Right gives back the document when Left moved the cursor |
| Keys.UpThenDown | src/main.c:394-403 | Up then Down gives back the document when Up moved the cursor |
| Keys.TabThenTwoBackspaces | src/main.c:380-385 | Tab types two spaces, and two backspaces remove them |
| Keys.StepKeepsNoNewlines | src/main.c:374-425 | no event except typed text holding a newline byte puts one into a row |
| Keys.ReplaceRowKeepsNoNewlines | src/editor.h:173-189 | replacing one row of newline-free rows by newline-free bytes keeps them newline-free |
| Keys.InsertKeepsNoNewlines | src/editor.h:173-177 | typing newline-free text keeps the rows newline-free |
| Keys.BackspaceKeepsNoNewlines | src/editor.h:179-183 | a backspace keeps the rows newline-free |
| Keys.DeleteKeepsNoNewlines | src/editor.h:185-189 | a delete keeps the rows newline-free |
| Keys.NewLineKeepsNoNewlines | src/editor.h:155-171 | a new line brings no newline byte into the rows |
| Keys.PollKeepsNoNewlines | src/main.c:373-426 | over a batch of newline-free events, the rows stay newline-free |
| Keys.RunKeepsNoNewlines | src/main.c:369-454 | over a whole run of newline-free events, the rows stay newline-free |
| Keys.SaveThenReload | src/main.c:386-390 | F2 on newline-free rows writes a file that loads back as those rows plus one empty row |
| Keys.ReopenThenSave | src/main.c:352-390 | opening a file and pressing F2 writes the file back with one newline added |
| OldLine.Line.constructor | line.h:10-14 | a zero-initialised line is empty, with capacity 0 and nothing allocated |
| OldLine.Line.Extend | line.h:16-31 | the capacity field grows by the doubling policy and leaves room for `n`, but the allocation becomes the capacity held before growth; the bytes are unchanged |
| OldLine.Line.InsertTextBefore | line.h:39-51 | the text is spliced in at the unclamped column; `ok` exactly when the shift and copy stay within the allocation |
| OldLine.Line.Backspace | line.h:53-59 | with size and column above 0 the byte before the column is removed, with `ok` exactly when the copy stays in the allocation; otherwise nothing changes |
| OldLine.Line.Delete | line.h:61-67 | with the column inside the line the byte at it is removed, with `ok` exactly when the copy stays in the allocation; otherwise nothing changes |
| OldLine.AgreesWithClampedEdits | line.h:39-67 | within the line, the unclamped edits give the bytes the clamped edits of `src/editor.h` give |
| OldLine.FirstInsertOverflows | line.h:27-30 | the first insertion into a fresh line sets capacity 245 but has 0 bytes allocated, so it writes outside the allocation |
| OldLine.GrowthLeavesAllocationShort | line.h:27-30 | whenever growth is needed, the allocation after it is short of the bytes an insertion then writes |
| LegacyEditor.InsertTextAsWritten | editor.h:144-154 | when the inlined guard holds it is `Document.InsertText`; otherwise the editor gets one empty line, the row stays beyond it and the text is lost |
| LegacyEditor.BackspaceAsWritten | editor.h:156-166 | when the inlined guard holds it is `Document.Backspace`; otherwise the editor gets one empty line and the row stays beyond it |
| LegacyEditor.DeleteAsWritten | editor.h:168-178 | when the inlined guard holds it is `Document.Delete`; otherwise the editor gets one empty line and the row stays beyond it |
| LegacyEditor.Guarded | editor.h:144-152 | the edit entry points act when the guard holds; otherwise they only create an empty first line and keep the cursor row beyond it |
| LegacyEditor.GuardedAgrees | editor.h:144-178 | when the editor has lines or the row is 0, the entry points as written act as those of `src/editor.h` |
| LegacyEditor.TypingIntoEmptyEditorIsLost | editor.h:144-154 | typing into an empty editor with cursor row above 0 loses the text, whereas the corrected entry point keeps it |
| LegacyEditor.Line.constructor | editor.h:12-16 | a zero-initialised line is empty, with capacity 0 and nothing allocated |
| LegacyEditor.Line.Extend | editor.h:18-33 | the capacity field grows by the doubling policy, but the allocation becomes the capacity held before growth |
| LegacyEditor.Line.InsertTextBefore | editor.h:60-75 | the contents and new column are those of `Text.InsertBefore`; `ok` exactly when the shift and copy stay within the allocation |
| LegacyEditor.Line.Backspace | editor.h:77-87 | the contents and new column are those of `Text.Backspace`; `ok` exactly when the copy stays in the allocation |
| LegacyEditor.Line.Delete | editor.h:89-98 | the contents and column are those of `Text.Delete`; `ok` exactly when the copy stays in the allocation |
| LegacyEditor.Editor.constructor | editor.h:41-47 | the zero-initialised editor is empty, with capacity 0 and nothing allocated |
| LegacyEditor.Editor.Grow | editor.h:102-117 | the capacity field leaves room for `n` more lines, but the allocation becomes the capacity held before growth |
| LegacyEditor.Editor.PlaceNewLine | editor.h:132-138 | a new empty Line is spliced into the array at `k`, so the rows gain an empty row at `k`; capacity, allocation and cursor are unchanged |
| LegacyEditor.Editor.PushNewLine | editor.h:119-124 | one empty line is appended and the cursor kept; `ok` exactly when slot `size` was allocated |
| LegacyEditor.Editor.InsertNewLine | editor.h:126-142 | the rows and cursor become `Document.InsertNewLine` of the old state; `ok` exactly when the row was on a line and the new slot is allocated |
| LegacyEditor.Editor.Guard | editor.h:146-152 | the inlined guard acts as `Document.CreateFirstLineAsWritten`; afterwards the row is on a line exactly when the guard holds |
| LegacyEditor.Editor.InsertTextBeforeCursor | editor.h:144-154 | the editor becomes `InsertTextAsWritten` of its old state; a failed guard is reported, and `ok` implies the cursor row's Line slot lies within the allocated array |
| LegacyEditor.Editor.Backspace | editor.h:156-166 | the editor becomes `BackspaceAsWritten` of its old state; a failed guard is reported, and `ok` implies the cursor row's Line slot lies within the allocated array |
| LegacyEditor.Editor.Delete | editor.h:168-178 | the editor becomes `DeleteAsWritten` of its old state; a failed guard is reported, and `ok` implies the cursor row's Line slot lies within the allocated array |
| LegacyEditor.Editor.CharUnderCursor | editor.h:180-188 | as `Document.CharUnderCursor` of the editor's state; `ok` exactly when the Line slot read and the byte pointed to lie within their allocations |
| LegacyEditor.Editor.SaveToFile | editor.h:190-202 | when the file opens, the bytes written are `Serial.Serialise` of the rows; otherwise an open failure |
| LegacyKeys.Step | main.c:192-234 | quits exactly on a quit event or Escape; F2 saves the serialised rows or exits when the file does not open; Down and Right move without bound; no event removes a row |
| LegacyKeys.Steps | main.c:189-234 | the document after a sequence of events: it has at least as many rows as before, and F2 and ignored events leave it unchanged |
| LegacyKeys.Repeat | main.c:212-222 | `n` copies of one event |
| LegacyKeys.StepsConcat | main.c:191-235 | handling two event sequences in turn is handling their concatenation |
| LegacyKeys.DownsMoveRow | main.c:212-214 | `n` presses of Down add `n` to the row, whatever the document |
| LegacyKeys.RightsMoveCol | main.c:220-222 | `n` presses of Right add `n` to the column, whatever the line |
| LegacyKeys.AnyCursorIsReachable | main.c:207-222 | any cursor position can be reached from the start of the document |
| LegacyKeys.DownThenTypeInEmptyEditor | main.c:212-233 | in the empty editor, Down and then typing creates an empty line and loses the text |
| LegacyKeys.MoveCursor | main.c:207-222 | the arrow keys move the cursor as `LegacyKeys.Step` says: Up and Left stop at 0, Down and Right have no bound; the Lines are untouched |
| LegacyKeys.HandleKey | main.c:196-230 | one key press changes the older editor, the outcome and the save as `LegacyKeys.Step` says; `ok` holds for keys that touch no buffer, fails for a backspace or delete whose guard fails, for those two keys implies the cursor row's Line slot is allocated, and for Return implies the row was on a line |
| LegacyKeys.HandleEvent | main.c:192-234 | one event changes the older editor, the outcome and the save as `LegacyKeys.Step` says; `ok` holds for events that touch no buffer, fails for an edit whose guard fails, for an edit implies the cursor row's Line slot is allocated, and for Return implies the row was on a line |

## Left out

- Rendering, fonts, the camera, timing and SDL/OpenGL calls are not modelled. They are foreign calls and floating point.
- Files are not modelled as I/O:
  - whether `fopen` succeeds becomes a boolean parameter (`opens`, `canWrite`), fixed for a whole session: a run where one save succeeds and a later `fopen` fails is not expressed;
  - the bytes read by `fread` become a sequence of chunks;
  - `exit(1)` after a failed open becomes the `OpenFailed` and `ExitFailure` results;
  - the error message is not modelled.
- `sv.h` is not part of this model. `sv_try_chop_by_delim` is taken to split at the first newline byte and drop it.
- `size_t` wrap-around is not modelled: integers are unbounded. Where `size - col` would wrap in `line.h`, the model requires `col <= size` instead.
- Bytes that C leaves undefined are modelled as zeros in `LineBuffer`, and a Line slot left uninitialised as an empty Line, except in `Document.InsertNewLineAsWritten`, which marks it uninitialised. This covers the new tail after `realloc`, memory outside the allocation and uninitialised array slots. The program's actual garbage is not modelled.
- `memcpy` on overlapping ranges is undefined behaviour in C. It is modelled as the move it was meant to be.
- The text of an SDL text-input event is modelled as its bytes up to the terminating NUL, a `Text.CString` that holds no zero byte; the editor entry points take the same type, as `strlen` cuts their text there. The fixed size of the SDL event buffer is not modelled.
- The debug `printf` in `line.h`, `argv_shift`, and the message printed when a file is named are not modelled.
- The OpenGL build of `src/main.c`, whose loop only reacts to quit and Escape, is not modelled.
- The polling loop of `main.c` has the same shape as that of `src/main.c`. It is modelled only through `LegacyKeys.HandleEvent` and the function `LegacyKeys.Steps`, with no batches and no quit flag.
- The older editor reads lines beyond its allocation when saving, but the model does not flag this.
- LegacyEditor.Line.Extend, OldLine.Line.Extend, LegacyEditor.Editor.Grow, OldLine.Line.InsertTextBefore, LegacyEditor.Line.InsertTextBefore: these require `capacity > 0` or `n` (the text length) at most the initial constant. Otherwise the loop as written never exits (Finding 1). LegacyEditor.Editor.InsertTextBeforeCursor requires text of at most 1024 bytes for the same reason.
- LegacyEditor.Editor.InsertTextBeforeCursor, LegacyEditor.Editor.Backspace, LegacyEditor.Editor.Delete: `ok` is stated in the guard-failure direction (a failed guard gives `!ok`) and as implying that the cursor row's Line slot is allocated; it is not stated as an if-and-only-if. Overreads inside the Line are reported by the Line's own methods.
- EditorCore.Editor.LoadFromFile requires a zero-capacity editor, matching the assertion at the head of `editor_load_from_file`. Its cursor column is stated only for an editor that starts at column 0. It runs the corrected first-line guard, so any cursor row is accepted; with the guard as written, a non-zero row in the empty editor stays past the first line, so every newline of the file takes the end-slot path of Finding 2 and the bytes after it go to an uninitialised slot (the zeroed editor of `src/main.c` starts at row 0, where this does not arise).

## Findings

| source | as written | input that shows it | evidently intended | confidence | as-written member | corrected member |
|---|---|---|---|---|---|---|
| src/editor.h:25 | the doubling loop tests `line->capacity`, which never changes in the loop, so from capacity 0 it sets the capacity to 1024 again and again | an empty line and an insertion of 1025 bytes | test the capacity computed so far, so that it doubles past 1024 | high; not executed | Growth.LoopNeverExitsAsWritten | Growth.NewCapacity |
| src/editor.h:157-170 | with the cursor row at `size`, the shift moves nothing, the zeroed slot is `size + 1` and slot `size` is never initialised | an editor whose cursor row is moved one past the last line with Down, then Return | put the blank line at slot `size` | high; not executed | Document.NewLineAtEndIsUninitialised | Document.InsertNewLine |
| src/editor.h:144-152 | on an empty editor the first line is created but the cursor row is not reset, so the edit then addresses a Line that does not exist | an empty editor with cursor row 1, then typing | reset the cursor row to 0 | high; not executed | Document.CreateFirstLineAsWrittenMisses | Document.CreateFirstLine |
| src/editor.h:118 | the delete copy moves `size - col` bytes from `col + 1`, so it reads the byte at index `size` | a line whose size equals its capacity, deleting at column 0 | copy `size - col - 1` bytes | high; not executed | LineBuffer.DeleteOverreadsFullBuffer | LineBuffer.Line.Delete |
| editor.h:30 | growth reallocates to the old capacity, so the buffer is not enlarged while the capacity field is | a fresh line and an insertion of one byte | reallocate to the new capacity, as `src/editor.h:32` does | high; not executed | Growth.FreshGrowthAllocatesNothing | LineBuffer.Line.Extend |
