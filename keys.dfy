/**
  The event handling of src/main.c: the main loop polls every pending
  event in a batch, dispatches each one to the editor, and leaves the loop
  once a quit has been requested, at the end of that batch. A save whose
  file cannot be opened ends the program at once. The file named on the
  command line, if any, is loaded into the empty editor at startup.
 */
module Keys {
  import opened Text
  import Document
  import Serial
  import EditorCore

  /** The right arrow moves the cursor column up to this column and no further. */
  const RIGHT_LIMIT: nat := 80

  /** The keys the loop reacts to; every other key is OtherKey. */
  datatype Key = Tab | BackspaceKey | F2 | DeleteKey | Up | Down | Left | Right | Return | Escape | OtherKey

  /** The events the loop reacts to; TextInput carries the typed bytes up to their terminating NUL. */
  datatype Event = QuitEvent | KeyDown(key: Key) | TextInput(text: CString) | OtherEvent

  /** After an event the program goes on, leaves the loop at the end of the batch, or exits at once with status 1. */
  datatype Outcome = Continue | Quit | ExitFailure

  /** The document after one event, what the event asks of the loop, and the bytes saved, if it saved. */
  datatype Reaction = Reaction(doc: Document.Doc, outcome: Outcome, saved: Document.Option<seq<byte>>)

  /** The program between events: the document, the quit flag, whether it has exited, and every save so far. */
  datatype Session = Session(doc: Document.Doc, quit: bool, exited: bool, saves: seq<seq<byte>>)

  predicate IsMotion(k: Key)
  {
    k == Up || k == Down || k == Left || k == Right
  }

  /** The arrow keys, which change the cursor fields of the editor directly. */
  function Motion(d: Document.Doc, k: Key): (e: Document.Doc)
    requires IsMotion(k)
    ensures e.rows == d.rows
    ensures k == Up ==> e.col == d.col && e.row == (if d.row > 0 then d.row - 1 else 0)
    ensures k == Down ==> e.col == d.col && (d.row < |d.rows| ==> e.row == d.row + 1) && (d.row >= |d.rows| ==> e.row == d.row)
    ensures k == Left ==> e.row == d.row && e.col == (if d.col > 0 then d.col - 1 else 0)
    ensures k == Right ==> e.row == d.row && (d.col < RIGHT_LIMIT ==> e.col == d.col + 1) && (d.col >= RIGHT_LIMIT ==> e.col == d.col)
  {
    match k
    case Up => if d.row > 0 then d.(row := d.row - 1) else d
    case Down => if d.row < |d.rows| then d.(row := d.row + 1) else d
    case Left => if d.col > 0 then d.(col := d.col - 1) else d
    case Right => if d.col < RIGHT_LIMIT then d.(col := d.col + 1) else d
  }

  /** The reaction of the program to one event, given whether a file was named and whether it opens for writing. */
  function Step(d: Document.Doc, ev: Event, hasPath: bool, canWrite: bool): (r: Reaction)
    ensures r.outcome == Quit <==> ev == QuitEvent || ev == KeyDown(Escape)
    ensures r.outcome == ExitFailure <==> ev == KeyDown(F2) && hasPath && !canWrite
    ensures r.saved.Some? <==> ev == KeyDown(F2) && hasPath && canWrite
    ensures r.saved.Some? ==> r.saved.value == Serial.Serialise(d.rows)
    ensures r.outcome != Continue || r.saved.Some? ==> r.doc == d
    ensures |r.doc.rows| >= |d.rows|
  {
    match ev
    case QuitEvent => Reaction(d, Quit, Document.None)
    case TextInput(text) => Reaction(Document.InsertText(d, text), Continue, Document.None)
    case OtherEvent => Reaction(d, Continue, Document.None)
    case KeyDown(k) =>
      match k
      case Tab => Reaction(Document.InsertText(d, [SPACE, SPACE]), Continue, Document.None)
      case BackspaceKey => Reaction(Document.Backspace(d), Continue, Document.None)
      case F2 =>
        if !hasPath then Reaction(d, Continue, Document.None)
        else if canWrite then Reaction(d, Continue, Document.Some(Serial.Serialise(d.rows)))
        else Reaction(d, ExitFailure, Document.None)
      case DeleteKey => Reaction(Document.Delete(d), Continue, Document.None)
      case Return => Reaction(Document.InsertNewLine(d), Continue, Document.None)
      case Escape => Reaction(d, Quit, Document.None)
      case OtherKey => Reaction(d, Continue, Document.None)
      case _ => Reaction(Motion(d, k), Continue, Document.None)
  }

  /** One event applied to the program between events. */
  function Apply(s: Session, ev: Event, hasPath: bool, canWrite: bool): (t: Session)
    ensures t.doc == Step(s.doc, ev, hasPath, canWrite).doc
    ensures t.quit <==> s.quit || ev == QuitEvent || ev == KeyDown(Escape)
    ensures t.exited <==> ev == KeyDown(F2) && hasPath && !canWrite
    ensures |t.saves| == |s.saves| + (if ev == KeyDown(F2) && hasPath && canWrite then 1 else 0)
    ensures t.saves[..|s.saves|] == s.saves
  {
    var r := Step(s.doc, ev, hasPath, canWrite);
    Session(r.doc, s.quit || r.outcome == Quit, r.outcome == ExitFailure,
      s.saves + (if r.saved.Some? then [r.saved.value] else []))
  }

  /** The inner loop: every event of a batch in order, whatever the quit flag says; an exit stops everything. */
  function Poll(s: Session, events: seq<Event>, hasPath: bool, canWrite: bool): (t: Session)
    ensures s.exited ==> t == s
    ensures s.quit ==> t.quit
    ensures |t.saves| >= |s.saves| && t.saves[..|s.saves|] == s.saves
    decreases |events|
  {
    if events == [] || s.exited then s else Poll(Apply(s, events[0], hasPath, canWrite), events[1..], hasPath, canWrite)
  }

  /** One turn of the inner loop: a session that has not exited takes the first event and goes on with the rest. */
  lemma PollFirst(s: Session, events: seq<Event>, hasPath: bool, canWrite: bool)
    requires events != [] && !s.exited
    ensures Poll(s, events, hasPath, canWrite) == Poll(Apply(s, events[0], hasPath, canWrite), events[1..], hasPath, canWrite)
  {
  }

  /** The outer loop: one batch per frame until the quit flag is set at the end of a batch, or the program exits. */
  function Run(s: Session, batches: seq<seq<Event>>, hasPath: bool, canWrite: bool): (t: Session)
    ensures s.quit || s.exited ==> t == s
    ensures |t.saves| >= |s.saves| && t.saves[..|s.saves|] == s.saves
    decreases |batches|
  {
    if batches == [] || s.quit || s.exited then s else Run(Poll(s, batches[0], hasPath, canWrite), batches[1..], hasPath, canWrite)
  }

  /** The document the program starts from: the named file split at its newlines if it opens, else the empty editor. */
  function StartDoc(hasPath: bool, opens: bool, chunks: seq<seq<byte>>): (d: Document.Doc)
    ensures d.row == 0 && d.col == 0
    ensures hasPath && opens ==> |d.rows| == 1 + Count(Concat(chunks), NEWLINE)
    ensures !(hasPath && opens) ==> d.rows == []
  {
    if hasPath && opens then
      Serial.FeedCount([[]], Concat(chunks));
      Document.Doc(Serial.Split(Concat(chunks)), 0, 0)
    else Document.Empty
  }

  /** Startup: a zeroed editor, into which the named file is loaded when it opens. */
  method Startup(hasPath: bool, opens: bool, chunks: seq<seq<byte>>) returns (ed: EditorCore.Editor)
    ensures ed.Valid() && fresh(ed) && fresh(ed.Repr)
    ensures ed.State() == StartDoc(hasPath, opens, chunks)
  {
    ed := new EditorCore.Editor();
    if hasPath && opens {
      ed.LoadFromFile(chunks);
    }
  }

  /** The arrow keys, written against the editor's cursor fields. */
  method MoveCursor(ed: EditorCore.Editor, k: Key)
    requires ed.Valid() && IsMotion(k)
    modifies ed
    ensures ed.Valid() && ed.Repr == old(ed.Repr)
    ensures ed.State() == Motion(old(ed.State()), k)
  {
    if k == Up {
      if ed.cursorRow > 0 {
        ed.cursorRow := ed.cursorRow - 1;
      }
    } else if k == Down {
      if ed.cursorRow < ed.size {
        ed.cursorRow := ed.cursorRow + 1;
      }
    } else if k == Left {
      if ed.cursorCol > 0 {
        ed.cursorCol := ed.cursorCol - 1;
      }
    } else {
      if ed.cursorCol < RIGHT_LIMIT {
        ed.cursorCol := ed.cursorCol + 1;
      }
    }
  }

  /** One event of the inner loop, written against the editor. */
  method HandleEvent(ed: EditorCore.Editor, ev: Event, hasPath: bool, canWrite: bool)
    returns (outcome: Outcome, saved: Document.Option<seq<byte>>)
    requires ed.Valid()
    modifies ed, ed.Repr
    ensures ed.Valid() && fresh(ed.Repr - old(ed.Repr))
    ensures Reaction(ed.State(), outcome, saved) == Step(old(ed.State()), ev, hasPath, canWrite)
  {
    outcome, saved := Continue, Document.None;
    match ev
    case QuitEvent =>
      outcome := Quit;
    case TextInput(text) =>
      ed.InsertTextBeforeCursor(text);
    case OtherEvent =>
    case KeyDown(k) =>
      if k == Tab {
        ed.InsertTextBeforeCursor([SPACE, SPACE]);
      } else if k == BackspaceKey {
        ed.Backspace();
      } else if k == F2 {
        if hasPath {
          var r := ed.SaveToFile(canWrite);
          if r.OpenFailed? {
            outcome := ExitFailure;
          } else {
            saved := Document.Some(r.bytes);
          }
        }
      } else if k == DeleteKey {
        ed.Delete();
      } else if k == Return {
        ed.InsertNewLine();
      } else if k == Escape {
        outcome := Quit;
      } else if IsMotion(k) {
        MoveCursor(ed, k);
      }
  }

  /** One event of a batch together with its effect on the quit flag, the exit and the saves. */
  method ApplyEvent(ed: EditorCore.Editor, ev: Event, hasPath: bool, canWrite: bool, quit0: bool, saves0: seq<seq<byte>>)
    returns (quit: bool, exited: bool, saves: seq<seq<byte>>)
    requires ed.Valid()
    modifies ed, ed.Repr
    ensures ed.Valid() && fresh(ed.Repr - old(ed.Repr))
    ensures Session(ed.State(), quit, exited, saves) == Apply(Session(old(ed.State()), quit0, false, saves0), ev, hasPath, canWrite)
  {
    var outcome, saved := HandleEvent(ed, ev, hasPath, canWrite);
    quit := quit0 || outcome == Quit;
    exited := outcome == ExitFailure;
    saves := saves0 + (if saved.Some? then [saved.value] else []);
  }

  /** The inner loop over one batch of events, written against the editor. */
  method PollEvents(ed: EditorCore.Editor, events: seq<Event>, hasPath: bool, canWrite: bool, quit0: bool, saves0: seq<seq<byte>>)
    returns (quit: bool, exited: bool, saves: seq<seq<byte>>)
    requires ed.Valid()
    modifies ed, ed.Repr
    ensures ed.Valid() && fresh(ed.Repr - old(ed.Repr))
    ensures Session(ed.State(), quit, exited, saves) == Poll(Session(old(ed.State()), quit0, false, saves0), events, hasPath, canWrite)
  {
    ghost var start := Session(ed.State(), quit0, false, saves0);
    quit, exited, saves := quit0, false, saves0;
    var i := 0;
    while i < |events| && !exited
      invariant 0 <= i <= |events|
      invariant ed.Valid() && fresh(ed.Repr - old(ed.Repr))
      invariant Poll(Session(ed.State(), quit, exited, saves), events[i..], hasPath, canWrite) == Poll(start, events, hasPath, canWrite)
      decreases |events| - i
    {
      PollFirst(Session(ed.State(), quit, exited, saves), events[i..], hasPath, canWrite);
      assert events[i..][1..] == events[i + 1..];
      quit, exited, saves := ApplyEvent(ed, events[i], hasPath, canWrite, quit, saves);
      i := i + 1;
    }
  }

  /** The main loop, written against the editor: a batch per frame while no quit was requested. */
  method RunLoop(ed: EditorCore.Editor, batches: seq<seq<Event>>, hasPath: bool, canWrite: bool)
    returns (quit: bool, exited: bool, saves: seq<seq<byte>>)
    requires ed.Valid()
    modifies ed, ed.Repr
    ensures ed.Valid() && fresh(ed.Repr - old(ed.Repr))
    ensures Session(ed.State(), quit, exited, saves) == Run(Session(old(ed.State()), false, false, []), batches, hasPath, canWrite)
  {
    ghost var start := Session(ed.State(), false, false, []);
    quit, exited, saves := false, false, [];
    var i := 0;
    while i < |batches| && !quit && !exited
      invariant 0 <= i <= |batches|
      invariant ed.Valid() && fresh(ed.Repr - old(ed.Repr))
      invariant Run(Session(ed.State(), quit, exited, saves), batches[i..], hasPath, canWrite) == Run(start, batches, hasPath, canWrite)
      decreases |batches| - i
    {
      assert batches[i..][1..] == batches[i + 1..];
      quit, exited, saves := PollEvents(ed, batches[i], hasPath, canWrite, quit, saves);
      i := i + 1;
    }
  }

  /** No row holds a newline byte: the form every loaded document has. */
  predicate NoNewlines(rows: seq<seq<byte>>)
  {
    forall i :: 0 <= i < |rows| ==> NEWLINE !in rows[i]
  }

  /** The events that cannot put a newline byte into a row: all but typed text holding one. */
  predicate NewlineFree(ev: Event)
  {
    ev.TextInput? ==> NEWLINE !in ev.text
  }

  /** The cursor row never passes one beyond the last line: no event moves it further. */
  lemma StepKeepsRowInRange(d: Document.Doc, ev: Event, hasPath: bool, canWrite: bool)
    requires d.row <= |d.rows|
    ensures Step(d, ev, hasPath, canWrite).doc.row <= |Step(d, ev, hasPath, canWrite).doc.rows|
  {
    var g := Document.CreateFirstLine(d);
    assert g.row < |g.rows|;
  }

  lemma {:induction false} PollKeepsRowInRange(s: Session, events: seq<Event>, hasPath: bool, canWrite: bool)
    requires s.doc.row <= |s.doc.rows|
    ensures Poll(s, events, hasPath, canWrite).doc.row <= |Poll(s, events, hasPath, canWrite).doc.rows|
    decreases |events|
  {
    if events != [] && !s.exited {
      StepKeepsRowInRange(s.doc, events[0], hasPath, canWrite);
      PollKeepsRowInRange(Apply(s, events[0], hasPath, canWrite), events[1..], hasPath, canWrite);
    }
  }

  /** Over a whole run from any document whose cursor row is in range, the cursor row stays in range. */
  lemma {:induction false} RunKeepsRowInRange(s: Session, batches: seq<seq<Event>>, hasPath: bool, canWrite: bool)
    requires s.doc.row <= |s.doc.rows|
    ensures Run(s, batches, hasPath, canWrite).doc.row <= |Run(s, batches, hasPath, canWrite).doc.rows|
    decreases |batches|
  {
    if batches != [] && !s.quit && !s.exited {
      PollKeepsRowInRange(s, batches[0], hasPath, canWrite);
      RunKeepsRowInRange(Poll(s, batches[0], hasPath, canWrite), batches[1..], hasPath, canWrite);
    }
  }

  /**
    Down can put the cursor row one past the last line, which is the row
    with which Return makes editor_insert_new_line, as written, leave slot
    `size` uninitialised.
   */
  lemma DownThenReturnReachesEndSlot(d: Document.Doc, capacity: nat, hasPath: bool, canWrite: bool)
    requires d.row + 1 == |d.rows| && |d.rows| + 1 < capacity
    ensures var e := Step(d, KeyDown(Down), hasPath, canWrite).doc;
      && e.row == |e.rows|
      && Document.InsertNewLineAsWritten(e.rows, e.row, capacity).Some?
      && Document.InsertNewLineAsWritten(e.rows, e.row, capacity).value.0[|e.rows|] == Document.Uninitialised
  {
    Document.NewLineAtEndIsUninitialised(d.rows, |d.rows|, capacity);
  }

  /** The arrow keys never take the cursor column beyond the right limit once it is within it, whatever the line's length. */
  lemma MotionKeepsColumnWithinLimit(d: Document.Doc, k: Key, hasPath: bool, canWrite: bool)
    requires IsMotion(k) && d.col <= RIGHT_LIMIT
    ensures Step(d, KeyDown(k), hasPath, canWrite).doc.col <= RIGHT_LIMIT
    ensures Step(d, KeyDown(k), hasPath, canWrite).doc.rows == d.rows
  {
  }

  /** Left then right gives back the cursor column, whenever left moved it and right may move it back. */
  lemma LeftThenRight(d: Document.Doc, hasPath: bool, canWrite: bool)
    requires 0 < d.col <= RIGHT_LIMIT
    ensures Step(Step(d, KeyDown(Left), hasPath, canWrite).doc, KeyDown(Right), hasPath, canWrite).doc == d
  {
  }

  /** Up then down gives back the cursor row, whenever up moved it. */
  lemma UpThenDown(d: Document.Doc, hasPath: bool, canWrite: bool)
    requires 0 < d.row <= |d.rows|
    ensures Step(Step(d, KeyDown(Up), hasPath, canWrite).doc, KeyDown(Down), hasPath, canWrite).doc == d
  {
  }

  /** Tab types two spaces; two backspaces then give back the document as the first-line guard left it. */
  lemma TabThenTwoBackspaces(d: Document.Doc, hasPath: bool, canWrite: bool)
    ensures var g := Document.CreateFirstLine(d);
      var t := Step(d, KeyDown(Tab), hasPath, canWrite).doc;
      Step(Step(t, KeyDown(BackspaceKey), hasPath, canWrite).doc, KeyDown(BackspaceKey), hasPath, canWrite).doc
        == g.(col := Clamp(g.col, |g.rows[g.row]|))
  {
    Document.BackspacesUndoInsertText(d, [SPACE, SPACE]);
    var t := Document.InsertText(d, [SPACE, SPACE]);
    assert Document.Backspaces(t, 2) == Document.Backspace(Document.Backspace(t));
  }

  /** No event except typed text holding a newline byte puts one into a row. */
  lemma StepKeepsNoNewlines(d: Document.Doc, ev: Event, hasPath: bool, canWrite: bool)
    requires NoNewlines(d.rows) && NewlineFree(ev)
    ensures NoNewlines(Step(d, ev, hasPath, canWrite).doc.rows)
  {
    match ev
    case TextInput(text) =>
      InsertKeepsNoNewlines(d, text);
    case KeyDown(k) =>
      if k == Tab {
        InsertKeepsNoNewlines(d, [SPACE, SPACE]);
      } else if k == BackspaceKey {
        BackspaceKeepsNoNewlines(d);
      } else if k == DeleteKey {
        DeleteKeepsNoNewlines(d);
      } else if k == Return {
        NewLineKeepsNoNewlines(d);
      }
    case _ =>
  }

  /** Replacing one row by a row without newline bytes keeps the rows newline-free. */
  lemma ReplaceRowKeepsNoNewlines(rows: seq<seq<byte>>, r: nat, x: seq<byte>)
    requires NoNewlines(rows) && r < |rows| && NEWLINE !in x
    ensures NoNewlines(rows[r := x])
  {
    var updated := rows[r := x];
    forall i | 0 <= i < |updated|
      ensures NEWLINE !in updated[i]
    {
      if i != r {
        assert updated[i] == rows[i];
      }
    }
  }

  /** Typing newline-free text keeps the rows newline-free. */
  lemma InsertKeepsNoNewlines(d: Document.Doc, text: seq<byte>)
    requires NoNewlines(d.rows) && NEWLINE !in text
    ensures NoNewlines(Document.InsertText(d, text).rows)
  {
    var g := Document.CreateFirstLine(d);
    var s := g.rows[g.row];
    var c := Clamp(g.col, |s|);
    var x := s[..c] + text + s[c..];
    assert NEWLINE !in x;
    ReplaceRowKeepsNoNewlines(g.rows, g.row, x);
    assert Document.InsertText(d, text).rows == g.rows[g.row := x];
  }

  /** A backspace keeps the rows newline-free. */
  lemma BackspaceKeepsNoNewlines(d: Document.Doc)
    requires NoNewlines(d.rows)
    ensures NoNewlines(Document.Backspace(d).rows)
  {
    var g := Document.CreateFirstLine(d);
    var s := g.rows[g.row];
    var x := Text.Backspace(s, g.col).bytes;
    var c := Clamp(g.col, |s|);
    if c > 0 {
      assert s == s[..c - 1] + [s[c - 1]] + s[c..];
      assert x == s[..c - 1] + s[c..];
    }
    assert NEWLINE !in x;
    ReplaceRowKeepsNoNewlines(g.rows, g.row, x);
    assert Document.Backspace(d).rows == g.rows[g.row := x];
  }

  /** A delete keeps the rows newline-free. */
  lemma DeleteKeepsNoNewlines(d: Document.Doc)
    requires NoNewlines(d.rows)
    ensures NoNewlines(Document.Delete(d).rows)
  {
    var g := Document.CreateFirstLine(d);
    var s := g.rows[g.row];
    var x := Text.Delete(s, g.col).bytes;
    var c := Clamp(g.col, |s|);
    if c < |s| {
      assert s == s[..c] + [s[c]] + s[c + 1..];
      assert x == s[..c] + s[c + 1..];
    }
    assert NEWLINE !in x;
    ReplaceRowKeepsNoNewlines(g.rows, g.row, x);
    assert Document.Delete(d).rows == g.rows[g.row := x];
  }

  /** A new line is empty and moves no text, so it brings no newline byte into the rows. */
  lemma NewLineKeepsNoNewlines(d: Document.Doc)
    requires NoNewlines(d.rows)
    ensures NoNewlines(Document.InsertNewLine(d).rows)
  {
    var e := Document.InsertNewLine(d);
    var j := if d.row < |d.rows| then d.row + 1 else |d.rows|;
    assert e.rows == d.rows[..j] + [[]] + d.rows[j..];
    forall i | 0 <= i < |e.rows|
      ensures NEWLINE !in e.rows[i]
    {
      if i < j {
        assert e.rows[i] == d.rows[i];
      } else if i > j {
        assert e.rows[i] == d.rows[i - 1];
      }
    }
  }

  lemma {:induction false} PollKeepsNoNewlines(s: Session, events: seq<Event>, hasPath: bool, canWrite: bool)
    requires NoNewlines(s.doc.rows)
    requires forall i :: 0 <= i < |events| ==> NewlineFree(events[i])
    ensures NoNewlines(Poll(s, events, hasPath, canWrite).doc.rows)
    decreases |events|
  {
    if events != [] && !s.exited {
      StepKeepsNoNewlines(s.doc, events[0], hasPath, canWrite);
      PollKeepsNoNewlines(Apply(s, events[0], hasPath, canWrite), events[1..], hasPath, canWrite);
    }
  }

  /**
    A run that starts from a document without newline bytes in its rows,
    and in which no typed text holds one, ends with such a document.
   */
  lemma {:induction false} RunKeepsNoNewlines(s: Session, batches: seq<seq<Event>>, hasPath: bool, canWrite: bool)
    requires NoNewlines(s.doc.rows)
    requires forall b, i :: 0 <= b < |batches| && 0 <= i < |batches[b]| ==> NewlineFree(batches[b][i])
    ensures NoNewlines(Run(s, batches, hasPath, canWrite).doc.rows)
    decreases |batches|
  {
    if batches != [] && !s.quit && !s.exited {
      PollKeepsNoNewlines(s, batches[0], hasPath, canWrite);
      RunKeepsNoNewlines(Poll(s, batches[0], hasPath, canWrite), batches[1..], hasPath, canWrite);
    }
  }

  /** Saving with F2 a document without newline bytes in its rows writes a file that loads back as those rows plus an empty one. */
  lemma SaveThenReload(d: Document.Doc)
    requires NoNewlines(d.rows)
    ensures var r := Step(d, KeyDown(F2), true, true);
      r.saved.Some? && StartDoc(true, true, [r.saved.value]).rows == d.rows + [[]]
  {
    var bytes := Serial.Serialise(d.rows);
    assert Concat([bytes]) == bytes;
    Serial.LoadAfterSave(d.rows);
  }

  /** Opening a file and saving it at once with F2 writes the file back with one newline added at its end. */
  lemma ReopenThenSave(chunks: seq<seq<byte>>)
    ensures Step(StartDoc(true, true, chunks), KeyDown(F2), true, true).saved
      == Document.Some(Concat(chunks) + [NEWLINE])
  {
    Serial.SaveAfterLoad(Concat(chunks));
  }
}
