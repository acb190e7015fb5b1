/**
  The editor of src/editor.h as a value: the rows of the document and the
  cursor. Each function gives the state one editor operation produces;
  the Editor class is proved to follow them.
 */
module Document {
  import opened Text

  datatype Option<T> = None | Some(value: T)

  /** The rows of the document and the cursor (row, column). */
  datatype Doc = Doc(rows: seq<seq<byte>>, row: nat, col: nat)

  /** The zero-initialised editor. */
  const Empty: Doc := Doc([], 0, 0)

  /**
    editor_create_first_line, with the row reset to 0 when the first line
    is created, so that the cursor row always names a row afterwards.
   */
  function CreateFirstLine(d: Doc): (e: Doc)
    ensures e.row < |e.rows| && e.col == d.col
    ensures d.row < |d.rows| ==> e == d
    ensures |d.rows| > 0 ==> e.rows == d.rows
    ensures |d.rows| > 0 && d.row >= |d.rows| ==> e.row == |d.rows| - 1
    ensures |d.rows| == 0 ==> e.rows == [[]]
  {
    if d.row >= |d.rows| then
      if |d.rows| > 0 then d.(row := |d.rows| - 1) else Doc([[]], 0, d.col)
    else d
  }

  /** editor_create_first_line as written: creating the first line leaves the row where it was. */
  function CreateFirstLineAsWritten(d: Doc): (e: Doc)
    ensures e.col == d.col && |e.rows| > 0
    ensures |d.rows| > 0 ==> e.rows == d.rows
    ensures e.row < |e.rows| <==> |d.rows| > 0 || d.row == 0
  {
    if d.row >= |d.rows| then
      if |d.rows| > 0 then d.(row := |d.rows| - 1) else d.(rows := [[]])
    else d
  }

  /** As written, an empty editor whose cursor row is not 0 keeps a row that names no line. */
  lemma CreateFirstLineAsWrittenMisses(row: nat)
    requires row > 0
    ensures CreateFirstLineAsWritten(Doc([], row, 0)).row >= |CreateFirstLineAsWritten(Doc([], row, 0)).rows|
    ensures CreateFirstLine(Doc([], row, 0)).row == 0
  {
  }

  /** Where the cursor row is 0 or the editor has lines, both versions agree. */
  lemma CreateFirstLineAgrees(d: Doc)
    requires |d.rows| > 0 || d.row == 0
    ensures CreateFirstLineAsWritten(d) == CreateFirstLine(d)
  {
  }

  /**
    editor_insert_new_line: a blank row goes below the (clamped) cursor row,
    which holds on to all its text; the cursor moves to the start of the
    row below. With the cursor one past the last row, the blank row is the
    new last row.
   */
  function InsertNewLine(d: Doc): (e: Doc)
    ensures |e.rows| == |d.rows| + 1
    ensures e.row == Clamp(d.row, |d.rows|) + 1 && e.col == 0
    ensures e.row <= |e.rows|
    ensures forall i :: 0 <= i < e.row && i < |d.rows| ==> e.rows[i] == d.rows[i]
    ensures e.rows[if d.row < |d.rows| then d.row + 1 else |d.rows|] == []
    ensures forall i :: d.row + 1 < i < |e.rows| ==> e.rows[i] == d.rows[i - 1]
  {
    var r := Clamp(d.row, |d.rows|);
    var k := if r < |d.rows| then r + 1 else |d.rows|;
    Doc(d.rows[..k] + [[]] + d.rows[k..], r + 1, 0)
  }

  /** The slot that receives the blank row of InsertNewLine, as a function of the old cursor row. */
  function NewLineSlot(d: Doc): (k: nat)
    ensures k <= |d.rows|
    ensures d.row < |d.rows| ==> k == d.row + 1
    ensures d.row >= |d.rows| ==> k == |d.rows|
  {
    if d.row < |d.rows| then d.row + 1 else |d.rows|
  }

  /** A line slot of the editor's array: a line, or memory nothing has initialised. */
  datatype Slot = Line(bytes: seq<byte>) | Uninitialised

  function Slots(rows: seq<seq<byte>>): (s: seq<Slot>)
    ensures |s| == |rows|
    ensures forall i :: 0 <= i < |rows| ==> s[i] == Line(rows[i])
  {
    seq(|rows|, i requires 0 <= i < |rows| => Line(rows[i]))
  }

  /**
    editor_insert_new_line as written, on an array of `capacity` slots
    (after editor_grow(1)): the slots of the new document and the new cursor
    row, or None when the memset of slot `row + 1` falls beyond the array.
   */
  function InsertNewLineAsWritten(rows: seq<seq<byte>>, row: nat, capacity: nat): (o: Option<(seq<Slot>, nat)>)
    requires |rows| < capacity
    ensures o.None? <==> Clamp(row, |rows|) + 1 >= capacity
    ensures o.Some? ==> |o.value.0| == |rows| + 1 && o.value.1 == Clamp(row, |rows|) + 1
    ensures o.Some? ==> forall i :: 0 <= i < o.value.1 && i < |rows| ==> o.value.0[i] == Line(rows[i])
    ensures o.Some? && o.value.1 <= |rows| ==> o.value.0[o.value.1] == Line([])
    ensures o.Some? ==> forall i :: o.value.1 < i <= |rows| ==> o.value.0[i] == Line(rows[i - 1])
    ensures o.Some? && o.value.1 > |rows| ==> o.value.0[|rows|] == Uninitialised
  {
    var size := |rows|;
    var r := Clamp(row, size);
    var slots := Slots(rows) + seq(capacity - size, _ => Uninitialised);
    // memmove of slots [r, size) to r + 1
    var moved := slots[..r + 1] + slots[r..size] + slots[size + 1..];
    if r + 1 >= capacity then None
    else Some((moved[r + 1 := Line([])][..size + 1], r + 1))
  }

  /** As written, with the cursor one past the last row, the new last row is uninitialised memory. */
  lemma {:induction false} NewLineAtEndIsUninitialised(rows: seq<seq<byte>>, row: nat, capacity: nat)
    requires |rows| + 1 < capacity
    requires row >= |rows|
    ensures InsertNewLineAsWritten(rows, row, capacity).Some?
    ensures InsertNewLineAsWritten(rows, row, capacity).value.0[|rows|] == Uninitialised
  {
    var size := |rows|;
    var slots := Slots(rows) + seq(capacity - size, _ => Uninitialised);
    assert slots[size] == Uninitialised;
    var moved := slots[..size + 1] + slots[size..size] + slots[size + 1..];
    assert moved == slots;
  }

  /** As written, with the cursor one past the last row and no spare slot, the memset writes past the array. */
  lemma NewLineAtEndOverflows(rows: seq<seq<byte>>, row: nat)
    requires row >= |rows|
    ensures InsertNewLineAsWritten(rows, row, |rows| + 1) == None
  {
  }

  /** Whenever the cursor names a row, the code as written produces exactly InsertNewLine's rows and cursor row. */
  lemma {:induction false} NewLineAsWrittenAgrees(d: Doc, capacity: nat)
    requires d.row < |d.rows| < capacity
    ensures InsertNewLineAsWritten(d.rows, d.row, capacity) == Some((Slots(InsertNewLine(d).rows), InsertNewLine(d).row))
  {
    var size := |d.rows|;
    var r := d.row;
    var slots := Slots(d.rows) + seq(capacity - size, _ => Uninitialised);
    var moved := slots[..r + 1] + slots[r..size] + slots[size + 1..];
    var got := moved[r + 1 := Line([])][..size + 1];
    var e := InsertNewLine(d);
    assert |got| == |Slots(e.rows)|;
    forall i | 0 <= i < |got|
      ensures got[i] == Slots(e.rows)[i]
    {
      if i <= r {
        assert got[i] == slots[i];
      } else if i > r + 1 {
        assert got[i] == slots[i - 1];
      }
    }
    assert got == Slots(e.rows);
  }

  /** The Line at the cursor row after the first-line guard, replaced by the result of an edit. */
  function WithRow(d: Doc, e: Edit): (r: Doc)
    requires d.row < |d.rows|
  {
    Doc(d.rows[d.row := e.bytes], d.row, e.col)
  }

  /** editor_insert_text_before_cursor. */
  function InsertText(d: Doc, t: seq<byte>): (e: Doc)
    ensures var g := CreateFirstLine(d);
      && |e.rows| == |g.rows| && e.row == g.row
      && (forall i :: 0 <= i < |g.rows| && i != g.row ==> e.rows[i] == g.rows[i])
      && e.rows[e.row] == g.rows[g.row][..Clamp(g.col, |g.rows[g.row]|)] + t + g.rows[g.row][Clamp(g.col, |g.rows[g.row]|)..]
      && e.col == Clamp(g.col, |g.rows[g.row]|) + |t|
  {
    var g := CreateFirstLine(d);
    WithRow(g, Text.InsertBefore(g.rows[g.row], g.col, t))
  }

  /** editor_backspace. */
  function Backspace(d: Doc): (e: Doc)
    ensures var g := CreateFirstLine(d);
      && |e.rows| == |g.rows| && e.row == g.row
      && (forall i :: 0 <= i < |g.rows| && i != g.row ==> e.rows[i] == g.rows[i])
      && (e.rows[e.row], e.col) == (Text.Backspace(g.rows[g.row], g.col).bytes, Text.Backspace(g.rows[g.row], g.col).col)
  {
    var g := CreateFirstLine(d);
    WithRow(g, Text.Backspace(g.rows[g.row], g.col))
  }

  /** editor_delete. */
  function Delete(d: Doc): (e: Doc)
    ensures var g := CreateFirstLine(d);
      && |e.rows| == |g.rows| && e.row == g.row
      && (forall i :: 0 <= i < |g.rows| && i != g.row ==> e.rows[i] == g.rows[i])
      && (e.rows[e.row], e.col) == (Text.Delete(g.rows[g.row], g.col).bytes, Text.Delete(g.rows[g.row], g.col).col)
  {
    var g := CreateFirstLine(d);
    WithRow(g, Text.Delete(g.rows[g.row], g.col))
  }

  /** editor_char_under_cursor: the byte under the cursor, if the cursor is on one. */
  function CharUnderCursor(d: Doc): (c: Option<byte>)
    ensures c.Some? <==> d.row < |d.rows| && d.col < |d.rows[d.row]|
    ensures c.Some? ==> c.value == d.rows[d.row][d.col]
  {
    if d.row < |d.rows| && d.col < |d.rows[d.row]| then Some(d.rows[d.row][d.col]) else None
  }

  /** `k` editor_backspace calls in a row. */
  function Backspaces(d: Doc, k: nat): Doc
    decreases k
  {
    if k == 0 then d else Backspaces(Backspace(d), k - 1)
  }

  /** `k` editor_delete calls in a row. */
  function Deletes(d: Doc, k: nat): Doc
    decreases k
  {
    if k == 0 then d else Deletes(Delete(d), k - 1)
  }

  /** Backspaces on a document whose cursor already names a row act on that row's Line only. */
  lemma {:induction false} BackspacesOnRow(d: Doc, k: nat)
    requires d.row < |d.rows|
    ensures Backspaces(d, k) == WithRow(d, Text.Backspaces(Edit(d.rows[d.row], d.col), k))
    decreases k
  {
    if k > 0 {
      var d' := Backspace(d);
      assert d' == WithRow(d, Text.Backspace(d.rows[d.row], d.col));
      BackspacesOnRow(d', k - 1);
      assert d'.rows[d.row := Text.Backspaces(Edit(d'.rows[d.row], d'.col), k - 1).bytes]
          == d.rows[d.row := Text.Backspaces(Edit(d'.rows[d.row], d'.col), k - 1).bytes];
    }
  }

  /** Deletes on a document whose cursor already names a row act on that row's Line only. */
  lemma {:induction false} DeletesOnRow(d: Doc, k: nat)
    requires d.row < |d.rows|
    ensures Deletes(d, k) == WithRow(d, Text.Deletes(Edit(d.rows[d.row], d.col), k))
    decreases k
  {
    if k > 0 {
      var d' := Delete(d);
      assert d' == WithRow(d, Text.Delete(d.rows[d.row], d.col));
      DeletesOnRow(d', k - 1);
      assert d'.rows[d.row := Text.Deletes(Edit(d'.rows[d.row], d'.col), k - 1).bytes]
          == d.rows[d.row := Text.Deletes(Edit(d'.rows[d.row], d'.col), k - 1).bytes];
    }
  }

  /** Replacing the cursor row twice, the second time by the row the first replaced, gives back the document with the new column. */
  lemma RowRestored(g: Doc, x: Edit, c: nat)
    requires g.row < |g.rows|
    ensures WithRow(WithRow(g, x), Edit(g.rows[g.row], c)) == g.(col := c)
  {
    assert g.rows[g.row := x.bytes][g.row := g.rows[g.row]] == g.rows;
  }

  /**
    Typing `t` and then pressing backspace |t| times gives back the document
    as the first-line guard left it, cursor column included (clamped).
   */
  lemma BackspacesUndoInsertText(d: Doc, t: seq<byte>)
    ensures var g := CreateFirstLine(d);
      Backspaces(InsertText(d, t), |t|) == g.(col := Clamp(g.col, |g.rows[g.row]|))
  {
    var g := CreateFirstLine(d);
    var s := g.rows[g.row];
    var ins := Text.InsertBefore(s, g.col, t);
    var e := WithRow(g, ins);
    assert InsertText(d, t) == e;
    BackspacesOnRow(e, |t|);
    assert e.rows[e.row] == ins.bytes && e.col == ins.col;
    Text.BackspacesUndoInsert(s, g.col, t);
    RowRestored(g, ins, Clamp(g.col, |s|));
  }

  /**
    Typing `t`, moving the cursor back to where the text began and
    pressing delete |t| times gives back the document as the first-line
    guard left it.
   */
  lemma DeletesUndoInsertText(d: Doc, t: seq<byte>)
    ensures var g := CreateFirstLine(d);
      var c := Clamp(g.col, |g.rows[g.row]|);
      Deletes(InsertText(d, t).(col := c), |t|) == g.(col := c)
  {
    var g := CreateFirstLine(d);
    var s := g.rows[g.row];
    var c := Clamp(g.col, |s|);
    var ins := Text.InsertBefore(s, g.col, t);
    var e := Doc(g.rows[g.row := ins.bytes], g.row, c);
    assert InsertText(d, t).(col := c) == e;
    DeletesOnRow(e, |t|);
    assert e == WithRow(g, Edit(ins.bytes, c));
    Text.DeletesUndoInsert(s, g.col, t);
    RowRestored(g, Edit(ins.bytes, c), c);
  }

  /** After typing `t`, the bytes under the cursor positions it passed over spell `t`. */
  lemma InsertTextThenQuery(d: Doc, t: seq<byte>, i: nat)
    requires i < |t|
    ensures var g := CreateFirstLine(d);
      var e := InsertText(d, t);
      CharUnderCursor(e.(col := Clamp(g.col, |g.rows[g.row]|) + i)) == Some(t[i])
  {
    var g := CreateFirstLine(d);
    var s := g.rows[g.row];
    var c := Clamp(g.col, |s|);
    var x := s[..c] + t + s[c..];
    assert x[c + i] == t[i];
    var e := InsertText(d, t);
    assert e.row == g.row && e.rows[e.row] == x;
  }

  /** Inserting a new line never moves text: every row of the old document is still there, in order. */
  lemma NewLineKeepsRows(d: Doc)
    ensures var e := InsertNewLine(d);
      var k := if d.row < |d.rows| then d.row + 1 else |d.rows|;
      e.rows[..k] + e.rows[k + 1..] == d.rows
  {
    var e := InsertNewLine(d);
    var k := if d.row < |d.rows| then d.row + 1 else |d.rows|;
    assert e.rows == d.rows[..k] + [[]] + d.rows[k..];
    assert e.rows[..k] == d.rows[..k];
    assert e.rows[k + 1..] == d.rows[k..];
  }
}
