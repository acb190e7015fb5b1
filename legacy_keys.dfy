/**
  The event handling of the older main.c. There is no Tab key and no file
  name: F2 always saves to the same file, and a file that does not open
  ends the program. Down and Right move the cursor with no upper bound, so
  any cursor position reaches the editor's entry points.
 */
module LegacyKeys {
  import opened Text
  import Document
  import Serial
  import LegacyEditor

  /** The keys the older loop reacts to; every other key is OtherKey. */
  datatype Key = BackspaceKey | F2 | DeleteKey | Up | Down | Left | Right | Return | Escape | OtherKey

  datatype Event = QuitEvent | KeyDown(key: Key) | TextInput(text: CString) | OtherEvent

  datatype Outcome = Continue | Quit | ExitFailure

  datatype Reaction = Reaction(doc: Document.Doc, outcome: Outcome, saved: Document.Option<seq<byte>>)

  /** The reaction of the older program to one event, given whether its fixed file opens for writing. */
  function Step(d: Document.Doc, ev: Event, canWrite: bool): (r: Reaction)
    ensures r.outcome == Quit <==> ev == QuitEvent || ev == KeyDown(Escape)
    ensures r.outcome == ExitFailure <==> ev == KeyDown(F2) && !canWrite
    ensures r.saved.Some? <==> ev == KeyDown(F2) && canWrite
    ensures r.saved.Some? ==> r.saved.value == Serial.Serialise(d.rows)
    ensures ev == KeyDown(Down) ==> r.doc == d.(row := d.row + 1)
    ensures ev == KeyDown(Right) ==> r.doc == d.(col := d.col + 1)
    ensures |r.doc.rows| >= |d.rows|
  {
    match ev
    case QuitEvent => Reaction(d, Quit, Document.None)
    case TextInput(text) => Reaction(LegacyEditor.InsertTextAsWritten(d, text), Continue, Document.None)
    case OtherEvent => Reaction(d, Continue, Document.None)
    case KeyDown(k) =>
      match k
      case BackspaceKey => Reaction(LegacyEditor.BackspaceAsWritten(d), Continue, Document.None)
      case F2 =>
        if canWrite then Reaction(d, Continue, Document.Some(Serial.Serialise(d.rows)))
        else Reaction(d, ExitFailure, Document.None)
      case DeleteKey => Reaction(LegacyEditor.DeleteAsWritten(d), Continue, Document.None)
      case Up => Reaction(if d.row > 0 then d.(row := d.row - 1) else d, Continue, Document.None)
      case Down => Reaction(d.(row := d.row + 1), Continue, Document.None)
      case Left => Reaction(if d.col > 0 then d.(col := d.col - 1) else d, Continue, Document.None)
      case Right => Reaction(d.(col := d.col + 1), Continue, Document.None)
      case Return => Reaction(Document.InsertNewLine(d), Continue, Document.None)
      case Escape => Reaction(d, Quit, Document.None)
      case OtherKey => Reaction(d, Continue, Document.None)
  }

  /** The document after a sequence of events, all of which let the program go on. */
  function Steps(d: Document.Doc, events: seq<Event>, canWrite: bool): (e: Document.Doc)
    ensures |e.rows| >= |d.rows|
    ensures (forall i :: 0 <= i < |events| ==> events[i] == KeyDown(F2) || events[i] == OtherEvent) ==> e == d
    decreases |events|
  {
    if events == [] then d else Steps(Step(d, events[0], canWrite).doc, events[1..], canWrite)
  }

  /** `n` copies of one event. */
  function Repeat(ev: Event, n: nat): (r: seq<Event>)
    ensures |r| == n && forall i :: 0 <= i < n ==> r[i] == ev
  {
    seq(n, _ => ev)
  }

  lemma {:induction false} StepsConcat(d: Document.Doc, a: seq<Event>, b: seq<Event>, canWrite: bool)
    ensures Steps(d, a + b, canWrite) == Steps(Steps(d, a, canWrite), b, canWrite)
    decreases |a|
  {
    if a == [] {
      assert a + b == b;
    } else {
      assert (a + b)[1..] == a[1..] + b;
      StepsConcat(Step(d, a[0], canWrite).doc, a[1..], b, canWrite);
    }
  }

  lemma {:induction false} DownsMoveRow(d: Document.Doc, n: nat, canWrite: bool)
    ensures Steps(d, Repeat(KeyDown(Down), n), canWrite) == d.(row := d.row + n)
    decreases n
  {
    if n > 0 {
      assert Repeat(KeyDown(Down), n)[1..] == Repeat(KeyDown(Down), n - 1);
      DownsMoveRow(d.(row := d.row + 1), n - 1, canWrite);
    }
  }

  lemma {:induction false} RightsMoveCol(d: Document.Doc, n: nat, canWrite: bool)
    ensures Steps(d, Repeat(KeyDown(Right), n), canWrite) == d.(col := d.col + n)
    decreases n
  {
    if n > 0 {
      assert Repeat(KeyDown(Right), n)[1..] == Repeat(KeyDown(Right), n - 1);
      RightsMoveCol(d.(col := d.col + 1), n - 1, canWrite);
    }
  }

  /**
    Any cursor position can be reached from the start of the document:
    `row` presses of Down and `col` presses of Right put the cursor at
    (row, col), however many lines there are and however long they are.
   */
  lemma AnyCursorIsReachable(rows: seq<seq<byte>>, row: nat, col: nat, canWrite: bool)
    ensures Steps(Document.Doc(rows, 0, 0), Repeat(KeyDown(Down), row) + Repeat(KeyDown(Right), col), canWrite)
      == Document.Doc(rows, row, col)
  {
    var d := Document.Doc(rows, 0, 0);
    StepsConcat(d, Repeat(KeyDown(Down), row), Repeat(KeyDown(Right), col), canWrite);
    DownsMoveRow(d, row, canWrite);
    RightsMoveCol(d.(row := row), col, canWrite);
  }

  /**
    In the empty editor the older program starts with, Down and then typing
    loses the typed text: the first line is created, but the cursor row
    still names no line.
   */
  lemma DownThenTypeInEmptyEditor(t: CString, canWrite: bool)
    ensures Steps(Document.Empty, [KeyDown(Down), TextInput(t)], canWrite) == Document.Doc([[]], 1, 0)
  {
    var d := Step(Document.Empty, KeyDown(Down), canWrite).doc;
    assert d == Document.Doc([], 1, 0);
    var e := Step(d, TextInput(t), canWrite).doc;
    assert !LegacyEditor.GuardHolds(d);
    assert e == Document.Doc([[]], 1, 0);
    assert [TextInput(t)][1..] == [];
    assert Steps(d, [TextInput(t)], canWrite) == Steps(e, [], canWrite);
    assert [KeyDown(Down), TextInput(t)][1..] == [TextInput(t)];
  }

  /** The arrow keys, written against the older editor: Up and Left stop at 0, Down and Right have no bound. */
  method MoveCursor(ed: LegacyEditor.Editor, k: Key)
    requires ed.Valid() && k in {Up, Down, Left, Right}
    modifies ed
    ensures ed.Valid() && ed.Repr == old(ed.Repr)
    ensures ed.State() == Step(old(ed.State()), KeyDown(k), false).doc
  {
    if k == Up {
      if ed.cursorRow > 0 {
        ed.cursorRow := ed.cursorRow - 1;
      }
    } else if k == Down {
      ed.cursorRow := ed.cursorRow + 1;
    } else if k == Left {
      if ed.cursorCol > 0 {
        ed.cursorCol := ed.cursorCol - 1;
      }
    } else {
      ed.cursorCol := ed.cursorCol + 1;
    }
  }

  /** One key press, written against the older editor. */
  method HandleKey(ed: LegacyEditor.Editor, k: Key, canWrite: bool)
    returns (outcome: Outcome, saved: Document.Option<seq<byte>>, ok: bool)
    requires ed.Valid()
    modifies ed, ed.Repr
    ensures ed.Valid() && fresh(ed.Repr - old(ed.Repr))
    ensures Reaction(ed.State(), outcome, saved) == Step(old(ed.State()), KeyDown(k), canWrite)
    ensures !(k == BackspaceKey || k == DeleteKey || k == Return) ==> ok
    ensures (k == BackspaceKey || k == DeleteKey) && !LegacyEditor.GuardHolds(old(ed.State())) ==> !ok
    ensures k == Return ==> (ok ==> old(ed.cursorRow) < old(ed.size))
    ensures (k == BackspaceKey || k == DeleteKey) && ok ==> ed.cursorRow < ed.held
  {
    outcome, saved, ok := Continue, Document.None, true;
    if k == BackspaceKey {
      ok := ed.Backspace();
    } else if k == F2 {
      var r := ed.SaveToFile(canWrite);
      if r.OpenFailed? {
        outcome := ExitFailure;
      } else {
        saved := Document.Some(r.bytes);
      }
    } else if k == DeleteKey {
      ok := ed.Delete();
    } else if k in {Up, Down, Left, Right} {
      MoveCursor(ed, k);
    } else if k == Return {
      ok := ed.InsertNewLine();
    } else if k == Escape {
      outcome := Quit;
    }
  }

  /** One event, written against the older editor. */
  method HandleEvent(ed: LegacyEditor.Editor, ev: Event, canWrite: bool)
    returns (outcome: Outcome, saved: Document.Option<seq<byte>>, ok: bool)
    requires ed.Valid()
    requires ev.TextInput? ==> |ev.text| <= LegacyEditor.LINE_INIT_CAPACITY
    modifies ed, ed.Repr
    ensures ed.Valid() && fresh(ed.Repr - old(ed.Repr))
    ensures Reaction(ed.State(), outcome, saved) == Step(old(ed.State()), ev, canWrite)
    ensures !(ev.TextInput? || ev == KeyDown(BackspaceKey) || ev == KeyDown(DeleteKey) || ev == KeyDown(Return)) ==> ok
    ensures (ev.TextInput? || ev == KeyDown(BackspaceKey) || ev == KeyDown(DeleteKey)) && !LegacyEditor.GuardHolds(old(ed.State())) ==> !ok
    ensures ev == KeyDown(Return) ==> (ok ==> old(ed.cursorRow) < old(ed.size))
    ensures (ev.TextInput? || ev == KeyDown(BackspaceKey) || ev == KeyDown(DeleteKey)) && ok ==> ed.cursorRow < ed.held
  {
    outcome, saved, ok := Continue, Document.None, true;
    match ev
    case QuitEvent =>
      outcome := Quit;
    case TextInput(text) =>
      ok := ed.InsertTextBeforeCursor(text);
    case OtherEvent =>
    case KeyDown(k) =>
      outcome, saved, ok := HandleKey(ed, k, canWrite);
  }
}
