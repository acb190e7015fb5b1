/**
  The persisted form of a document: every line followed by one newline
  byte. Loading splits a byte stream at every newline, appending to the
  current last line and starting a fresh one at each newline.
 */
module Serial {
  import opened Text

  /** What editor_save_to_file writes: each row, then '\n', in row order. */
  function Serialise(rows: seq<seq<byte>>): (r: seq<byte>)
    ensures r == [] <==> rows == []
    ensures rows != [] ==> r[|r| - 1] == NEWLINE
  {
    if rows == [] then [] else rows[0] + [NEWLINE] + Serialise(rows[1..])
  }

  /** Saving one more row appends that row and its newline. */
  lemma {:induction false} SerialiseSnoc(rows: seq<seq<byte>>, x: seq<byte>)
    ensures Serialise(rows + [x]) == Serialise(rows) + x + [NEWLINE]
  {
    if rows != [] {
      assert (rows + [x])[1..] == rows[1..] + [x];
      SerialiseSnoc(rows[1..], x);
    } else {
      assert rows + [x] == [x];
    }
  }

  /** The saved bytes hold one newline per row, plus those inside the rows. */
  lemma {:induction false} SerialiseLength(rows: seq<seq<byte>>)
    ensures |Serialise(rows)| == |rows| + SumOfLengths(rows)
  {
    if rows != [] {
      SerialiseLength(rows[1..]);
    }
  }

  function SumOfLengths(rows: seq<seq<byte>>): nat
  {
    if rows == [] then 0 else |rows[0]| + SumOfLengths(rows[1..])
  }

  /** The index of the first newline in `s`, or |s| when there is none (sv_try_chop_by_delim's search). */
  function FirstNewline(s: seq<byte>): (k: nat)
    ensures k <= |s|
    ensures k < |s| ==> s[k] == NEWLINE
    ensures forall i :: 0 <= i < k ==> s[i] != NEWLINE
  {
    if s == [] then 0 else if s[0] == NEWLINE then 0 else 1 + FirstNewline(s[1..])
  }

  /** The first newline of `a + b` is the first one of `a`, or else lies in `b`. */
  lemma {:induction false} FirstNewlineConcat(a: seq<byte>, b: seq<byte>)
    ensures FirstNewline(a + b) == if FirstNewline(a) < |a| then FirstNewline(a) else |a| + FirstNewline(b)
  {
    if a != [] {
      assert (a + b)[1..] == a[1..] + b;
      if a[0] != NEWLINE {
        FirstNewlineConcat(a[1..], b);
      }
    } else {
      assert a + b == b;
    }
  }

  /** line_append_text_sized on the last row. */
  function AppendLast(rows: seq<seq<byte>>, s: seq<byte>): (r: seq<seq<byte>>)
    requires |rows| > 0
    ensures |r| == |rows| && r[..|rows| - 1] == rows[..|rows| - 1] && r[|rows| - 1] == rows[|rows| - 1] + s
  {
    rows[..|rows| - 1] + [rows[|rows| - 1] + s]
  }

  /** Appending to an empty last row puts the appended bytes in its place. */
  lemma AppendToEmptyLast(done: seq<seq<byte>>, x: seq<byte>)
    ensures AppendLast(done + [[]], x) == done + [x]
  {
    var r := AppendLast(done + [[]], x);
    assert (done + [[]])[..|done|] == done;
    assert (done + [[]])[|done|] + x == x;
    assert r == done + [x];
  }

  /** Two appends to the last row are one append of both pieces. */
  lemma AppendLastTwice(rows: seq<seq<byte>>, a: seq<byte>, b: seq<byte>)
    requires |rows| > 0
    ensures AppendLast(AppendLast(rows, a), b) == AppendLast(rows, a + b)
  {
    var n := |rows|;
    var ra := AppendLast(rows, a);
    assert ra[..n - 1] == rows[..n - 1];
    assert ra[n - 1] + b == rows[n - 1] + (a + b);
  }

  /**
    Loading the bytes `s` after the rows `rows`, byte by byte: a newline
    starts a new, empty row; any other byte goes at the end of the last
    row. The load loop of editor_load_from_file chops whole lines at a
    time; LoadPiece is proved to agree with this definition.
   */
  function Feed(rows: seq<seq<byte>>, s: seq<byte>): (r: seq<seq<byte>>)
    requires |rows| > 0
    ensures |r| > 0
    decreases |s|
  {
    if s == [] then rows
    else if s[0] == NEWLINE then Feed(rows + [[]], s[1..])
    else Feed(AppendLast(rows, [s[0]]), s[1..])
  }

  /** Feeding nothing leaves the rows as they are. */
  lemma FeedNothing(rows: seq<seq<byte>>)
    requires |rows| > 0
    ensures Feed(rows, []) == rows
  {
  }

  /** Feeding two pieces one after the other is feeding their concatenation: chunk boundaries do not matter. */
  lemma {:induction false} FeedConcat(rows: seq<seq<byte>>, a: seq<byte>, b: seq<byte>)
    requires |rows| > 0
    ensures Feed(Feed(rows, a), b) == Feed(rows, a + b)
    decreases |a|
  {
    if a == [] {
      assert a + b == b;
    } else {
      assert (a + b)[0] == a[0] && (a + b)[1..] == a[1..] + b;
      var next := if a[0] == NEWLINE then rows + [[]] else AppendLast(rows, [a[0]]);
      FeedConcat(next, a[1..], b);
    }
  }

  /** The last turn of the inner load loop, which finds no newline: the rest goes to the last row. */
  lemma {:induction false} FeedRest(rows: seq<seq<byte>>, s: seq<byte>)
    requires |rows| > 0
    requires NEWLINE !in s
    ensures Feed(rows, s) == AppendLast(rows, s)
    decreases |s|
  {
    if s == [] {
      assert rows[|rows| - 1] + s == rows[|rows| - 1];
      assert rows[..|rows| - 1] + [rows[|rows| - 1]] == rows;
    } else {
      assert s == [s[0]] + s[1..];
      assert s[0] != NEWLINE && NEWLINE !in s[1..];
      FeedRest(AppendLast(rows, [s[0]]), s[1..]);
      AppendLastTwice(rows, [s[0]], s[1..]);
    }
  }

  /** One turn of the inner load loop that finds a newline: the line before it goes to the last row and a new row follows. */
  lemma FeedChop(rows: seq<seq<byte>>, s: seq<byte>, pre: seq<byte>, post: seq<byte>)
    requires |rows| > 0
    requires s == pre + [NEWLINE] + post && NEWLINE !in pre
    ensures Feed(rows, s) == Feed(AppendLast(rows, pre) + [[]], post)
  {
    assert s == pre + ([NEWLINE] + post);
    FeedConcat(rows, pre, [NEWLINE] + post);
    FeedRest(rows, pre);
    assert ([NEWLINE] + post)[1..] == post;
  }

  /** Loading a newline-free line and its newline after an empty last row makes it that row and starts a new one. */
  lemma FeedLine(done: seq<seq<byte>>, x: seq<byte>, rest: seq<byte>)
    requires NEWLINE !in x
    ensures Feed(done + [[]], x + [NEWLINE] + rest) == Feed(done + [x] + [[]], rest)
  {
    FeedChop(done + [[]], x + [NEWLINE] + rest, x, rest);
    AppendToEmptyLast(done, x);
  }

  /** The document read from the byte stream `s` into an empty editor: `s` split at every newline. */
  function Split(s: seq<byte>): (r: seq<seq<byte>>)
    ensures |r| > 0
  {
    Feed([[]], s)
  }

  /** Loading a stream gives one more row than the stream has newlines. */
  lemma {:induction false} FeedCount(rows: seq<seq<byte>>, s: seq<byte>)
    requires |rows| > 0
    ensures |Feed(rows, s)| == |rows| + Count(s, NEWLINE)
    decreases |s|
  {
    if s != [] {
      var next := if s[0] == NEWLINE then rows + [[]] else AppendLast(rows, [s[0]]);
      FeedCount(next, s[1..]);
    }
  }

  /** No row of a loaded document holds a newline byte. */
  lemma {:induction false} FeedRowsHaveNoNewline(rows: seq<seq<byte>>, s: seq<byte>)
    requires |rows| > 0
    requires forall i :: 0 <= i < |rows| ==> NEWLINE !in rows[i]
    ensures forall i :: 0 <= i < |Feed(rows, s)| ==> NEWLINE !in Feed(rows, s)[i]
    decreases |s|
  {
    if s != [] {
      var next := if s[0] == NEWLINE then rows + [[]] else AppendLast(rows, [s[0]]);
      forall i | 0 <= i < |next|
        ensures NEWLINE !in next[i]
      {
        if i < |rows| - 1 {
          assert next[i] == rows[i];
        }
      }
      FeedRowsHaveNoNewline(next, s[1..]);
    }
  }

  /** Saving the loaded document gives the old rows, then the loaded bytes, then one newline for the last row. */
  lemma {:induction false} SerialiseFeed(rows: seq<seq<byte>>, s: seq<byte>)
    requires |rows| > 0
    ensures Serialise(Feed(rows, s)) == Serialise(rows[..|rows| - 1]) + rows[|rows| - 1] + s + [NEWLINE]
    decreases |s|
  {
    var n := |rows|;
    var init, last := rows[..n - 1], rows[n - 1];
    assert rows == init + [last];
    if s == [] {
      SerialiseSnoc(init, last);
    } else if s[0] == NEWLINE {
      var next := rows + [[]];
      assert Feed(rows, s) == Feed(next, s[1..]);
      SerialiseFeed(next, s[1..]);
      assert next[..n] == rows && next[n] == [];
      SerialiseSnoc(init, last);
      assert Serialise(Feed(rows, s)) == Serialise(init) + last + [NEWLINE] + s[1..] + [NEWLINE];
      assert [NEWLINE] + s[1..] == s;
    } else {
      var next := AppendLast(rows, [s[0]]);
      assert Feed(rows, s) == Feed(next, s[1..]);
      SerialiseFeed(next, s[1..]);
      assert next[..n - 1] == init && next[n - 1] == last + [s[0]];
      assert [s[0]] + s[1..] == s;
    }
  }

  /** Saving what was loaded from `s` gives `s` followed by one newline. */
  lemma SaveAfterLoad(s: seq<byte>)
    ensures Serialise(Split(s)) == s + [NEWLINE]
  {
    SerialiseFeed([[]], s);
  }

  /** Loading what was saved gives back the rows plus one empty row, provided no row holds a newline byte. */
  lemma {:induction false} LoadAfterSave(rows: seq<seq<byte>>)
    requires forall i :: 0 <= i < |rows| ==> NEWLINE !in rows[i]
    ensures Split(Serialise(rows)) == rows + [[]]
  {
    FeedSerialise([], rows);
  }

  lemma {:induction false} FeedSerialise(done: seq<seq<byte>>, rows: seq<seq<byte>>)
    requires forall i :: 0 <= i < |rows| ==> NEWLINE !in rows[i]
    ensures Feed(done + [[]], Serialise(rows)) == done + rows + [[]]
    decreases |rows|
  {
    if rows == [] {
      FeedNothing(done + [[]]);
    } else {
      var x := rows[0];
      var rest := Serialise(rows[1..]);
      assert Serialise(rows) == x + [NEWLINE] + rest;
      FeedLine(done, x, rest);
      FeedSerialise(done + [x], rows[1..]);
      assert done + [x] + rows[1..] == done + rows;
    }
  }
}
