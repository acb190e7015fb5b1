/**
  The older editor of editor.h. Its Line clamps the column and reports the
  new one, like the Line of src/editor.h, but growth (of a Line and of the
  array of Lines alike) reallocates to the capacity held BEFORE growth, so
  the allocation (`held`) lags behind the capacity field. Every operation
  reports, in `ok`, whether the memory it touches lies within the
  allocations and names an initialised Line (saving is the exception: it
  is not flagged); the model keeps the bytes and rows the operation
  intends, and puts an empty Line where the program would leave a slot
  uninitialised.

  The edit entry points inline the first-line guard without resetting the
  cursor row when they create the first line, so on an empty editor with a
  nonzero cursor row they address a Line that does not exist.
 */
module LegacyEditor {
  import opened Text
  import Growth
  import Document
  import Serial

  const LINE_INIT_CAPACITY: nat := 1024
  const EDITOR_INIT_CAPACITY: nat := 128

  datatype SaveResult = Saved(bytes: seq<byte>) | OpenFailed

  /** Whether the inlined guard leaves the cursor row on a Line: the editor has lines, or the row is 0. */
  predicate GuardHolds(d: Document.Doc)
  {
    |d.rows| > 0 || d.row == 0
  }

  /** The document after an edit entry point whose edit is `edited` when the guard holds. */
  function Guarded(d: Document.Doc, edited: Document.Doc): (e: Document.Doc)
    ensures GuardHolds(d) ==> e == edited
    ensures !GuardHolds(d) ==> e == Document.CreateFirstLineAsWritten(d) && e.rows == [[]] && e.row == d.row
  {
    if GuardHolds(d) then edited else Document.CreateFirstLineAsWritten(d)
  }

  /** editor_insert_text_before_cursor as written. */
  function InsertTextAsWritten(d: Document.Doc, t: seq<byte>): (e: Document.Doc)
    ensures GuardHolds(d) ==> e == Document.InsertText(d, t)
    ensures !GuardHolds(d) ==> e.rows == [[]] && e.row >= |e.rows| && e.col == d.col
  {
    Guarded(d, Document.InsertText(d, t))
  }

  /** editor_backspace as written. */
  function BackspaceAsWritten(d: Document.Doc): (e: Document.Doc)
    ensures GuardHolds(d) ==> e == Document.Backspace(d)
    ensures !GuardHolds(d) ==> e.rows == [[]] && e.row >= |e.rows| && e.col == d.col
  {
    Guarded(d, Document.Backspace(d))
  }

  /** editor_delete as written. */
  function DeleteAsWritten(d: Document.Doc): (e: Document.Doc)
    ensures GuardHolds(d) ==> e == Document.Delete(d)
    ensures !GuardHolds(d) ==> e.rows == [[]] && e.row >= |e.rows| && e.col == d.col
  {
    Guarded(d, Document.Delete(d))
  }

  /** When the guard holds, the entry points as written act as the corrected ones of src/editor.h. */
  lemma GuardedAgrees(d: Document.Doc, t: seq<byte>)
    requires GuardHolds(d)
    ensures InsertTextAsWritten(d, t) == Document.InsertText(d, t)
    ensures BackspaceAsWritten(d) == Document.Backspace(d)
    ensures DeleteAsWritten(d) == Document.Delete(d)
  {
  }

  /**
    On an empty editor whose cursor row is not 0, typing `t` as written loses
    the text: the first line is created empty and the cursor row still names
    no line; the corrected entry point puts the text on the new line.
   */
  lemma TypingIntoEmptyEditorIsLost(row: nat, col: nat, t: seq<byte>)
    requires row > 0
    ensures InsertTextAsWritten(Document.Doc([], row, col), t) == Document.Doc([[]], row, col)
    ensures Document.InsertText(Document.Doc([], row, col), t).rows == [t]
  {
    var g := Document.CreateFirstLine(Document.Doc([], row, col));
    assert g.rows == [[]] && g.row == 0;
    assert Text.InsertBefore([], col, t).bytes == t;
  }

  class Line {
    var capacity: nat
    var size: nat
    /** The bytes the buffer really holds after the last reallocation. */
    var held: nat
    /** The bytes of the line, as the operations intend them. */
    var es: seq<byte>

    ghost predicate Valid()
      reads this
    {
      |es| == size && size <= capacity && held <= capacity
    }

    constructor ()
      ensures Valid() && capacity == 0 && held == 0 && es == []
    {
      capacity, size, held, es := 0, 0, 0, [];
    }

    /** line_extend as written: the loop tests the entry capacity, realloc is asked for the old capacity. */
    method Extend(n: nat)
      requires Valid()
      requires capacity > 0 || n <= LINE_INIT_CAPACITY
      modifies this
      ensures Valid() && es == old(es) && size == old(size)
      ensures capacity == Growth.Grown(old(capacity), size, n, LINE_INIT_CAPACITY)
      ensures capacity - size >= n && capacity >= old(capacity)
      ensures held == Growth.AllocatedAfterGrowth(old(capacity), old(held), capacity)
    {
      var newCapacity := capacity;
      while newCapacity - size < n
        invariant size <= newCapacity
        invariant capacity == 0 ==> newCapacity == 0 || newCapacity == LINE_INIT_CAPACITY
        invariant Growth.Grown(newCapacity, size, n, LINE_INIT_CAPACITY) == Growth.Grown(capacity, size, n, LINE_INIT_CAPACITY)
        decreases size + n - newCapacity
      {
        if capacity == 0 {
          newCapacity := LINE_INIT_CAPACITY;
        } else {
          newCapacity := newCapacity * 2;
        }
      }
      if newCapacity != capacity {
        held := capacity;
        capacity := newCapacity;
      }
    }

    /** line_insert_text_before: clamps the column, splices the text in and reports the column after it. */
    method InsertTextBefore(text: seq<byte>, col: nat) returns (newCol: nat, ok: bool)
      requires Valid()
      requires capacity > 0 || |text| <= LINE_INIT_CAPACITY
      modifies this
      ensures Valid()
      ensures Edit(es, newCol) == Text.InsertBefore(old(es), col, text)
      ensures capacity == Growth.Grown(old(capacity), old(size), |text|, LINE_INIT_CAPACITY)
      ensures held == Growth.AllocatedAfterGrowth(old(capacity), old(held), capacity)
      ensures ok <==> InsertReach(old(size), Clamp(col, old(size)), |text|) <= held
    {
      var c := if col > size then size else col;
      Extend(|text|);
      ok := InsertReach(size, c, |text|) <= held;
      es := es[..c] + text + es[c..];
      size := size + |text|;
      newCol := c + |text|;
    }

    /** line_backspace: clamps the column, removes the byte before it and moves the column back. */
    method Backspace(col: nat) returns (newCol: nat, ok: bool)
      requires Valid()
      modifies this
      ensures Valid() && capacity == old(capacity) && held == old(held)
      ensures Edit(es, newCol) == Text.Backspace(old(es), col)
      ensures ok <==> Clamp(col, old(size)) == 0 || BackspaceReach(old(size), Clamp(col, old(size))) <= held
    {
      var c := if col > size then size else col;
      ok := true;
      if size > 0 && c > 0 {
        ok := BackspaceReach(size, c) <= held;
        es := es[..c - 1] + es[c..];
        size := size - 1;
        c := c - 1;
      }
      newCol := c;
    }

    /** line_delete: clamps the column and removes the byte at it; the memcpy reads one byte past the line. */
    method Delete(col: nat) returns (newCol: nat, ok: bool)
      requires Valid()
      modifies this
      ensures Valid() && capacity == old(capacity) && held == old(held)
      ensures Edit(es, newCol) == Text.Delete(old(es), col)
      ensures ok <==> Clamp(col, old(size)) == old(size) || DeleteReach(old(size), Clamp(col, old(size))) <= held
    {
      var c := if col > size then size else col;
      ok := true;
      if c < size && size > 0 {
        ok := DeleteReach(size, c) <= held;
        es := es[..c] + es[c + 1..];
        size := size - 1;
      }
      newCol := c;
    }
  }

  class Editor {
    var capacity: nat
    var size: nat
    /** The Line slots the array really holds after the last reallocation. */
    var held: nat
    var lines: seq<Line>
    var cursorRow: nat
    var cursorCol: nat

    ghost var Rows: seq<seq<byte>>
    ghost var Repr: set<Line>

    ghost predicate Valid()
      reads this`size, this`capacity, this`held, this`lines, this`Rows, this`Repr, Repr
    {
      && size == |lines| == |Rows| && size <= capacity && held <= capacity
      && (forall i :: 0 <= i < |lines| ==> lines[i] in Repr && lines[i].Valid() && lines[i].es == Rows[i])
      && (forall i, j :: 0 <= i < j < |lines| ==> lines[i] != lines[j])
    }

    ghost function State(): Document.Doc
      reads this
    {
      Document.Doc(Rows, cursorRow, cursorCol)
    }

    constructor ()
      ensures Valid() && fresh(Repr)
      ensures State() == Document.Empty && capacity == 0 && held == 0
    {
      capacity, size, held, lines := 0, 0, 0, [];
      cursorRow, cursorCol := 0, 0;
      Rows, Repr := [], {};
    }

    /** editor_grow as written: the loop tests the entry capacity, realloc is asked for the old number of slots. */
    method Grow(n: nat)
      requires Valid()
      requires capacity > 0 || n <= EDITOR_INIT_CAPACITY
      modifies this
      ensures Valid()
      ensures lines == old(lines) && Rows == old(Rows) && Repr == old(Repr) && State() == old(State())
      ensures capacity == Growth.Grown(old(capacity), size, n, EDITOR_INIT_CAPACITY)
      ensures capacity - size >= n
      ensures held == Growth.AllocatedAfterGrowth(old(capacity), old(held), capacity)
    {
      var newCapacity := capacity;
      while newCapacity - size < n
        invariant size <= newCapacity
        invariant capacity == 0 ==> newCapacity == 0 || newCapacity == EDITOR_INIT_CAPACITY
        invariant Growth.Grown(newCapacity, size, n, EDITOR_INIT_CAPACITY) == Growth.Grown(capacity, size, n, EDITOR_INIT_CAPACITY)
        decreases size + n - newCapacity
      {
        if capacity == 0 {
          newCapacity := EDITOR_INIT_CAPACITY;
        } else {
          newCapacity := newCapacity * 2;
        }
      }
      if newCapacity != capacity {
        held := capacity;
        capacity := newCapacity;
      }
    }

    /** The memmove of the Lines from slot `k` on one slot up, and a zeroed Line stored in slot `k`. */
    method PlaceNewLine(k: nat)
      requires Valid() && k <= size < capacity
      modifies this
      ensures Valid() && fresh(Repr - old(Repr)) && size == old(size) + 1
      ensures Rows == old(Rows[..k] + [[]] + Rows[k..])
      ensures capacity == old(capacity) && held == old(held) && cursorRow == old(cursorRow) && cursorCol == old(cursorCol)
    {
      var line := new Line();
      ghost var oldLines, oldRows := lines, Rows;
      lines := lines[..k] + [line] + lines[k..];
      Rows := Rows[..k] + [[]] + Rows[k..];
      Repr := Repr + {line};
      size := size + 1;
      InsertedAt(oldLines, k, line);
      InsertedAt(oldRows, k, []);
      forall i | 0 <= i < |lines|
        ensures lines[i] in Repr && lines[i].Valid() && lines[i].es == Rows[i]
      {
        if i > k {
          assert lines[i] == oldLines[i - 1] && Rows[i] == oldRows[i - 1];
        } else if i < k {
          assert lines[i] == oldLines[i] && Rows[i] == oldRows[i];
        }
      }
      forall i, j | 0 <= i < j < |lines|
        ensures lines[i] != lines[j]
      {
        if i != k && j != k {
          var i', j' := if i < k then i else i - 1, if j < k then j else j - 1;
          assert lines[i] == oldLines[i'] && lines[j] == oldLines[j'];
        }
      }
    }

    /** editor_push_new_line: a zeroed Line in slot `size`; `ok` tells whether that slot is allocated. */
    method PushNewLine() returns (ok: bool)
      requires Valid()
      modifies this
      ensures Valid() && fresh(Repr - old(Repr))
      ensures Rows == old(Rows) + [[]] && cursorRow == old(cursorRow) && cursorCol == old(cursorCol)
      ensures capacity == Growth.Grown(old(capacity), old(size), 1, EDITOR_INIT_CAPACITY)
      ensures held == Growth.AllocatedAfterGrowth(old(capacity), old(held), capacity)
      ensures ok <==> old(size) < held
    {
      Grow(1);
      ok := size < held;
      PlaceNewLine(size);
      assert old(Rows)[..|old(Rows)|] == old(Rows);
    }

    /**
      editor_insert_new_line as written: with the clamped row below the last
      line, the Lines after it move up one slot and a zeroed Line goes below
      it; with the row one past the last line, nothing moves, slot `size`
      is left uninitialised (modelled as an empty Line, and `ok` is false)
      and the zeroed slot is `size + 1`.
     */
    method InsertNewLine() returns (ok: bool)
      requires Valid()
      modifies this
      ensures Valid() && fresh(Repr - old(Repr))
      ensures State() == Document.InsertNewLine(old(State()))
      ensures capacity == Growth.Grown(old(capacity), old(size), 1, EDITOR_INIT_CAPACITY)
      ensures held == Growth.AllocatedAfterGrowth(old(capacity), old(held), capacity)
      ensures ok <==> old(cursorRow) < old(size) && old(size) + 1 <= held
    {
      if cursorRow > size {
        cursorRow := size;
      }
      Grow(1);
      // the memmove writes slots [row + 1, size + 1) and the memset writes slot row + 1
      ok := cursorRow < size && size + 1 <= held;
      var k := if cursorRow < size then cursorRow + 1 else size;
      PlaceNewLine(k);
      cursorRow := cursorRow + 1;
      cursorCol := 0;
    }

    /** The guard the entry points inline: clamp the row to the last line, or push a first line without moving the row. */
    method Guard() returns (ok: bool)
      requires Valid()
      modifies this
      ensures Valid() && fresh(Repr - old(Repr))
      ensures State() == Document.CreateFirstLineAsWritten(old(State()))
      ensures GuardHolds(old(State())) <==> cursorRow < size
    {
      ok := true;
      if cursorRow >= size {
        if size > 0 {
          cursorRow := size - 1;
        } else {
          ok := PushNewLine();
        }
      }
    }

    /**
      editor_insert_text_before_cursor as written. The typed text of one
      event is short; a longer text on a fresh Line would never leave the
      doubling loop.
     */
    method InsertTextBeforeCursor(text: CString) returns (ok: bool)
      requires Valid() && |text| <= LINE_INIT_CAPACITY
      modifies this, Repr
      ensures Valid() && fresh(Repr - old(Repr))
      ensures State() == InsertTextAsWritten(old(State()), text)
      ensures !GuardHolds(old(State())) ==> !ok
      ensures ok ==> cursorRow < held
    {
      ok := Guard();
      if cursorRow < size {
        var line := lines[cursorRow];
        var lineOk;
        cursorCol, lineOk := line.InsertTextBefore(text, cursorCol);
        ok := ok && lineOk && cursorRow < held;
        Rows := Rows[cursorRow := line.es];
        assert forall i :: 0 <= i < |lines| && i != cursorRow ==> lines[i] != line;
        Document.CreateFirstLineAgrees(old(State()));
      } else {
        // lines[cursor_row] lies beyond the last line
        ok := false;
      }
    }

    /** editor_backspace as written. */
    method Backspace() returns (ok: bool)
      requires Valid()
      modifies this, Repr
      ensures Valid() && fresh(Repr - old(Repr))
      ensures State() == BackspaceAsWritten(old(State()))
      ensures !GuardHolds(old(State())) ==> !ok
      ensures ok ==> cursorRow < held
    {
      ok := Guard();
      if cursorRow < size {
        var line := lines[cursorRow];
        var lineOk;
        cursorCol, lineOk := line.Backspace(cursorCol);
        ok := ok && lineOk && cursorRow < held;
        Rows := Rows[cursorRow := line.es];
        assert forall i :: 0 <= i < |lines| && i != cursorRow ==> lines[i] != line;
        Document.CreateFirstLineAgrees(old(State()));
      } else {
        ok := false;
      }
    }

    /** editor_delete as written. */
    method Delete() returns (ok: bool)
      requires Valid()
      modifies this, Repr
      ensures Valid() && fresh(Repr - old(Repr))
      ensures State() == DeleteAsWritten(old(State()))
      ensures !GuardHolds(old(State())) ==> !ok
      ensures ok ==> cursorRow < held
    {
      ok := Guard();
      if cursorRow < size {
        var line := lines[cursorRow];
        var lineOk;
        cursorCol, lineOk := line.Delete(cursorCol);
        ok := ok && lineOk && cursorRow < held;
        Rows := Rows[cursorRow := line.es];
        assert forall i :: 0 <= i < |lines| && i != cursorRow ==> lines[i] != line;
        Document.CreateFirstLineAgrees(old(State()));
      } else {
        ok := false;
      }
    }

    /**
      editor_char_under_cursor: the byte under the cursor when the cursor is
      on one; nothing changes. `ok` says whether the Line slot and the byte
      the returned pointer names lie within their allocations.
     */
    method CharUnderCursor() returns (c: Document.Option<byte>, ok: bool)
      requires Valid()
      ensures c == Document.CharUnderCursor(State())
      ensures ok <==> cursorRow < size ==> cursorRow < held && (cursorCol < lines[cursorRow].size ==> cursorCol < lines[cursorRow].held)
    {
      ok := true;
      if cursorRow < size {
        ok := cursorRow < held;
        if cursorCol < lines[cursorRow].size {
          ok := ok && cursorCol < lines[cursorRow].held;
          return Document.Some(lines[cursorRow].es[cursorCol]), ok;
        }
      }
      return Document.None, ok;
    }

    /** editor_save_to_file: every row followed by a newline, in row order; a file that does not open ends the program. */
    method SaveToFile(opens: bool) returns (r: SaveResult)
      requires Valid()
      ensures opens ==> r == Saved(Serial.Serialise(Rows))
      ensures !opens ==> r == OpenFailed
    {
      if !opens {
        return OpenFailed;
      }
      var out: seq<byte> := [];
      var row := 0;
      while row < size
        invariant row <= size
        invariant out == Serial.Serialise(Rows[..row])
      {
        var line := lines[row];
        out := out + line.es + [NEWLINE];
        Serial.SerialiseSnoc(Rows[..row], Rows[row]);
        assert Rows[..row + 1] == Rows[..row] + [Rows[row]];
        row := row + 1;
      }
      assert Rows[..size] == Rows;
      return Saved(out);
    }
  }
}
