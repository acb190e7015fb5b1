/**
  The Editor of src/editor.h: a growable array of Lines and a cursor.
  Every edit entry point first makes sure the cursor row names a line,
  then delegates to that Line; save and load translate between the rows
  and the persisted byte stream.
 */
module EditorCore {
  import opened Text
  import Growth
  import opened LineBuffer
  import Document
  import Serial

  const EDITOR_INIT_CAPACITY: nat := 128

  /** What saving produces: the bytes written, or the failure to open the file (the program then exits). */
  datatype SaveResult = Saved(bytes: seq<byte>) | OpenFailed

  class Editor {
    var capacity: nat
    var size: nat
    var lines: seq<Line>
    var cursorRow: nat
    var cursorCol: nat

    /** The bytes of every row, in row order. */
    ghost var Rows: seq<seq<byte>>
    /** The Lines the editor owns. */
    ghost var Repr: set<Line>

    ghost predicate Valid()
      reads this`size, this`capacity, this`lines, this`Rows, this`Repr, Repr
    {
      && size == |lines| == |Rows| && size <= capacity
      && (forall i :: 0 <= i < |lines| ==> lines[i] in Repr && lines[i].Valid() && lines[i].Contents() == Rows[i])
      && (forall i, j :: 0 <= i < j < |lines| ==> lines[i] != lines[j])
    }

    /** The document and cursor the editor holds. */
    ghost function State(): Document.Doc
      reads this
    {
      Document.Doc(Rows, cursorRow, cursorCol)
    }

    /** The zero-initialised editor: no lines, cursor at (0, 0). */
    constructor ()
      ensures Valid() && fresh(Repr)
      ensures State() == Document.Empty && capacity == 0
    {
      capacity, size, lines := 0, 0, [];
      cursorRow, cursorCol := 0, 0;
      Rows, Repr := [], {};
    }

    /** editor_grow: room for `n` more Lines by the doubling policy; the Lines themselves move unchanged. */
    method Grow(n: nat)
      requires Valid()
      modifies this
      ensures Valid()
      ensures lines == old(lines) && Rows == old(Rows) && Repr == old(Repr) && State() == old(State())
      ensures capacity == Growth.Grown(old(capacity), size, n, EDITOR_INIT_CAPACITY)
      ensures capacity - size >= n && capacity >= old(capacity)
    {
      var newCapacity := Growth.NewCapacity(capacity, size, n, EDITOR_INIT_CAPACITY);
      if newCapacity != capacity {
        capacity := newCapacity;
      }
    }

    /**
      editor_create_first_line: clamps the cursor row to the last line, or
      creates a first, empty line in an empty editor (and puts the cursor
      row on it).
     */
    method CreateFirstLine()
      requires Valid()
      modifies this
      ensures Valid() && fresh(Repr - old(Repr))
      ensures State() == Document.CreateFirstLine(old(State()))
      ensures cursorRow < size
      ensures old(size) == 0 ==> Rows == [[]] && cursorRow == 0
    {
      if cursorRow >= size {
        if size > 0 {
          cursorRow := size - 1;
        } else {
          Grow(1);
          var line := new Line();
          lines := lines + [line];
          Rows := Rows + [[]];
          Repr := Repr + {line};
          size := size + 1;
          cursorRow := 0;
        }
      }
    }

    /**
      editor_insert_new_line: a zeroed Line goes in the slot below the
      (clamped) cursor row, the Lines after it move one slot up, and the
      cursor moves to the start of the new row.
     */
    method InsertNewLine()
      requires Valid()
      modifies this
      ensures Valid() && fresh(Repr - old(Repr))
      ensures State() == Document.InsertNewLine(old(State()))
    {
      var k := MakeRoom();
      PlaceNewLine(k);
      cursorRow := cursorRow + 1;
      cursorCol := 0;
    }

    /** The first half of editor_insert_new_line: the cursor row is clamped to `size` and the array grown by one slot. */
    method MakeRoom() returns (k: nat)
      requires Valid()
      modifies this
      ensures Valid() && Rows == old(Rows) && lines == old(lines) && Repr == old(Repr)
      ensures size == old(size) < capacity && cursorCol == old(cursorCol)
      ensures cursorRow == Clamp(old(cursorRow), size)
      ensures k == Document.NewLineSlot(old(State()))
    {
      if cursorRow > size {
        cursorRow := size;
      }
      Grow(1);
      k := if cursorRow < size then cursorRow + 1 else size;
    }

    /** The memmove of the Lines from slot `k` on one slot up, and a zeroed Line stored in slot `k`. */
    method PlaceNewLine(k: nat)
      requires Valid() && k <= size < capacity
      modifies this
      ensures Valid() && fresh(Repr - old(Repr)) && size == old(size) + 1
      ensures Rows == old(Rows[..k] + [[]] + Rows[k..])
      ensures capacity == old(capacity) && cursorRow == old(cursorRow) && cursorCol == old(cursorCol)
    {
      var line := new Line();
      ghost var oldLines, oldRows := lines, Rows;
      lines := lines[..k] + [line] + lines[k..];
      Rows := Rows[..k] + [[]] + Rows[k..];
      Repr := Repr + {line};
      size := size + 1;
      InsertedAt(oldLines, k, line);
      InsertedAt(oldRows, k, []);
      forall i | 0 <= i < |lines|
        ensures lines[i] in Repr && lines[i].Valid() && lines[i].Contents() == Rows[i]
      {
        if i > k {
          assert lines[i] == oldLines[i - 1] && Rows[i] == oldRows[i - 1];
        } else if i < k {
          assert lines[i] == oldLines[i] && Rows[i] == oldRows[i];
        }
      }
      forall i, j | 0 <= i < j < |lines|
        ensures lines[i] != lines[j]
      {
        if i != k && j != k {
          var i', j' := if i < k then i else i - 1, if j < k then j else j - 1;
          assert lines[i] == oldLines[i'] && lines[j] == oldLines[j'];
        }
      }
    }

    /** editor_insert_text_before_cursor: inserts `text` at the cursor column of the cursor row. */
    method InsertTextBeforeCursor(text: CString)
      requires Valid()
      modifies this, Repr
      ensures Valid() && fresh(Repr - old(Repr))
      ensures State() == Document.InsertText(old(State()), text)
    {
      CreateFirstLine();
      ghost var g := State();
      ghost var edited := Text.InsertBefore(g.rows[g.row], g.col, text);
      assert Document.InsertText(old(State()), text) == Document.WithRow(g, edited);
      var line := lines[cursorRow];
      cursorCol := line.InsertTextBefore(text, cursorCol);
      Rows := Rows[cursorRow := line.Contents()];
      assert forall i :: 0 <= i < |lines| && i != cursorRow ==> lines[i] != line;
      assert State() == Document.WithRow(g, edited);
    }

    /** editor_backspace: removes the byte before the cursor on the cursor row. */
    method Backspace()
      requires Valid()
      modifies this, Repr
      ensures Valid() && fresh(Repr - old(Repr))
      ensures State() == Document.Backspace(old(State()))
    {
      CreateFirstLine();
      ghost var g := State();
      ghost var edited := Text.Backspace(g.rows[g.row], g.col);
      assert Document.Backspace(old(State())) == Document.WithRow(g, edited);
      var line := lines[cursorRow];
      cursorCol := line.Backspace(cursorCol);
      Rows := Rows[cursorRow := line.Contents()];
      assert forall i :: 0 <= i < |lines| && i != cursorRow ==> lines[i] != line;
      assert State() == Document.WithRow(g, edited);
    }

    /** editor_delete: removes the byte under the cursor on the cursor row. */
    method Delete()
      requires Valid()
      modifies this, Repr
      ensures Valid() && fresh(Repr - old(Repr))
      ensures State() == Document.Delete(old(State()))
    {
      CreateFirstLine();
      ghost var g := State();
      ghost var edited := Text.Delete(g.rows[g.row], g.col);
      assert Document.Delete(old(State())) == Document.WithRow(g, edited);
      var line := lines[cursorRow];
      cursorCol := line.Delete(cursorCol);
      Rows := Rows[cursorRow := line.Contents()];
      assert forall i :: 0 <= i < |lines| && i != cursorRow ==> lines[i] != line;
      assert State() == Document.WithRow(g, edited);
    }

    /** editor_char_under_cursor: the byte under the cursor when the cursor is on one; nothing changes. */
    method CharUnderCursor() returns (c: Document.Option<byte>)
      requires Valid()
      ensures c == Document.CharUnderCursor(State())
      ensures c.Some? <==> cursorRow < size && cursorCol < |Rows[cursorRow]|
      ensures c.Some? ==> c.value == Rows[cursorRow][cursorCol]
    {
      if cursorRow < size {
        if cursorCol < lines[cursorRow].size {
          return Document.Some(lines[cursorRow].es[cursorCol]);
        }
      }
      return Document.None;
    }

    /**
      editor_save_to_file: the bytes written are every row followed by a
      newline, in row order. Whether the file opens is a parameter.
     */
    method SaveToFile(opens: bool) returns (r: SaveResult)
      requires Valid()
      ensures opens ==> r == Saved(Serial.Serialise(Rows))
      ensures !opens ==> r == OpenFailed
    {
      if !opens {
        return OpenFailed;
      }
      var out: seq<byte> := [];
      var row := 0;
      while row < size
        invariant row <= size
        invariant out == Serial.Serialise(Rows[..row])
      {
        var line := lines[row];
        // fwrite of the line's bytes, then fputc('\n')
        out := out + line.es[..line.size] + [NEWLINE];
        Serial.SerialiseSnoc(Rows[..row], Rows[row]);
        assert Rows[..row + 1] == Rows[..row] + [Rows[row]];
        row := row + 1;
      }
      assert Rows[..size] == Rows;
      return Saved(out);
    }

    /**
      editor_load_from_file: reads the chunks in turn into an empty editor;
      within a chunk, the bytes before each newline go to the last line and
      a new line follows; the bytes after the last newline go to the last
      line. Afterwards the rows are the whole stream split at every newline.
     */
    method LoadFromFile(chunks: seq<seq<byte>>)
      requires Valid() && capacity == 0
      modifies this, Repr
      ensures Valid() && fresh(Repr - old(Repr))
      ensures Rows == Serial.Split(Concat(chunks))
      ensures cursorRow == 0
      ensures old(cursorCol) == 0 ==> cursorCol == 0
    {
      CreateFirstLine();
      LoadChunks(chunks);
    }

    /** The cursor row returns to the first line; nothing else changes. */
    method RewindCursor()
      requires Valid()
      modifies this
      ensures Valid() && cursorRow == 0
      ensures Rows == old(Rows) && Repr == old(Repr) && cursorCol == old(cursorCol)
    {
      cursorRow := 0;
    }

    /**
      The outer load loop: each chunk in turn is split into the rows,
      starting on the last one; then the cursor row goes back to the first line.
     */
    method LoadChunks(chunks: seq<seq<byte>>)
      requires Valid() && size > 0 && cursorRow == size - 1
      modifies this, Repr
      ensures Valid() && fresh(Repr - old(Repr))
      ensures cursorRow == 0 && (cursorCol == 0 || cursorCol == old(cursorCol))
      ensures Rows == Serial.Feed(old(Rows), Concat(chunks))
    {
      ghost var target := Serial.Feed(Rows, Concat(chunks));
      var i := 0;
      while i < |chunks|
        invariant 0 <= i <= |chunks|
        invariant Valid() && fresh(Repr - old(Repr)) && size > 0 && cursorRow == size - 1
        invariant cursorCol == 0 || cursorCol == old(cursorCol)
        invariant Serial.Feed(Rows, Concat(chunks[i..])) == target
      {
        assert chunks[i..][1..] == chunks[i + 1..];
        Serial.FeedConcat(Rows, chunks[i], Concat(chunks[i + 1..]));
        LoadChunk(chunks[i]);
        i := i + 1;
      }
      Serial.FeedNothing(Rows);
      RewindCursor();
    }

    /** The inner load loop: the chunk is split into the rows, starting on the last one. */
    method LoadChunk(chunk: seq<byte>)
      requires Valid() && size > 0 && cursorRow == size - 1
      modifies this, Repr
      ensures Valid() && fresh(Repr - old(Repr)) && size > 0 && cursorRow == size - 1
      ensures cursorCol == 0 || cursorCol == old(cursorCol)
      ensures Rows == Serial.Feed(old(Rows), chunk)
    {
      ghost var target := Serial.Feed(Rows, chunk);
      var rest := chunk;
      while |rest| > 0
        invariant Valid() && fresh(Repr - old(Repr)) && size > 0 && cursorRow == size - 1
        invariant cursorCol == 0 || cursorCol == old(cursorCol)
        invariant Serial.Feed(Rows, rest) == target
      {
        rest := LoadPiece(rest);
      }
      Serial.FeedNothing(Rows);
    }

    /**
      One turn of the inner load loop: the bytes up to the first newline go
      to the last line and a new line follows it; with no newline left, the
      whole rest goes to the last line. Returns what is left of the chunk.
     */
    method LoadPiece(rest: seq<byte>) returns (left: seq<byte>)
      requires Valid() && size > 0 && cursorRow == size - 1
      modifies this, Repr
      ensures Valid() && fresh(Repr - old(Repr)) && size > 0 && cursorRow == size - 1
      ensures cursorCol == 0 || cursorCol == old(cursorCol)
      ensures Serial.Feed(Rows, left) == Serial.Feed(old(Rows), rest)
      ensures |rest| > 0 ==> |left| < |rest|
    {
      var k := Serial.FirstNewline(rest);
      if k < |rest| {
        var pre, post := rest[..k], rest[k + 1..];
        assert rest == pre + [NEWLINE] + post;
        Serial.FeedChop(Rows, rest, pre, post);
        AppendToLastLine(pre);
        ghost var appended := Rows;
        InsertNewLine();
        assert appended[..size - 1] == appended && appended[size - 1..] == [];
        assert Rows == appended + [[]];
        left := post;
      } else {
        Serial.FeedRest(Rows, rest);
        AppendToLastLine(rest);
        left := [];
        Serial.FeedNothing(Rows);
      }
    }

    /** line_append_text_sized on the last Line, as the load loop does it. */
    method AppendToLastLine(s: seq<byte>)
      requires Valid() && size > 0
      modifies this, Repr
      ensures Valid() && Repr == old(Repr) && lines == old(lines)
      ensures Rows == Serial.AppendLast(old(Rows), s)
      ensures unchanged(this`cursorRow) && unchanged(this`cursorCol) && unchanged(this`size)
    {
      var line := lines[size - 1];
      line.AppendText(s);
      Rows := Rows[size - 1 := line.Contents()];
      assert forall i :: 0 <= i < |lines| && i != size - 1 ==> lines[i] != line;
    }
  }
}
