/**
  Bytes and the value-level meaning of the three intra-line edits.

  A line is a sequence of bytes; the column is a byte offset that the
  edits clamp to the line's length before use. Each edit yields the new
  bytes together with the column it reports back through `size_t *col`.
 */
module Text {

  newtype byte = x: int | 0 <= x < 256

  const NEWLINE: byte := 10
  const SPACE: byte := 32

  /** The bytes of a NUL-terminated C string before its terminator: `strlen` stops at the first 0. */
  type CString = s: seq<byte> | 0 !in s

  /** The bytes of a line together with the column an edit reports. */
  datatype Edit = Edit(bytes: seq<byte>, col: nat)

  /** Replaces an out-of-range column by the end of the line. */
  function Clamp(col: nat, size: nat): (c: nat)
    ensures c <= size
    ensures col <= size ==> c == col
    ensures col > size ==> c == size
  {
    if col > size then size else col
  }

  /** line_insert_text_sized_before on the line `s` with `*col == col`. */
  function InsertBefore(s: seq<byte>, col: nat, t: seq<byte>): (e: Edit)
    ensures |e.bytes| == |s| + |t|
    ensures e.col == Clamp(col, |s|) + |t|
    ensures e.bytes[..Clamp(col, |s|)] == s[..Clamp(col, |s|)]
    ensures e.bytes[Clamp(col, |s|)..e.col] == t
    ensures e.bytes[e.col..] == s[Clamp(col, |s|)..]
  {
    var c := Clamp(col, |s|);
    var r := s[..c] + t + s[c..];
    assert r[..c] == s[..c];
    assert r[c..c + |t|] == t;
    assert r[c + |t|..] == s[c..];
    Edit(r, c + |t|)
  }

  /** line_backspace on the line `s` with `*col == col`. */
  function Backspace(s: seq<byte>, col: nat): (e: Edit)
    ensures e.col == if Clamp(col, |s|) > 0 then Clamp(col, |s|) - 1 else 0
    ensures Clamp(col, |s|) > 0 ==> e.bytes == s[..e.col] + s[e.col + 1..]
    ensures Clamp(col, |s|) == 0 ==> e.bytes == s
  {
    var c := Clamp(col, |s|);
    if |s| > 0 && c > 0 then Edit(s[..c - 1] + s[c..], c - 1) else Edit(s, c)
  }

  /** line_delete on the line `s` with `*col == col`: the column is only clamped. */
  function Delete(s: seq<byte>, col: nat): (e: Edit)
    ensures e.col == Clamp(col, |s|)
    ensures e.col < |s| ==> e.bytes == s[..e.col] + s[e.col + 1..]
    ensures e.col == |s| ==> e.bytes == s
  {
    var c := Clamp(col, |s|);
    if c < |s| && |s| > 0 then Edit(s[..c] + s[c + 1..], c) else Edit(s, c)
  }

  /** `k` backspaces in a row, each starting from the column the previous one reported. */
  function Backspaces(e: Edit, k: nat): Edit
    decreases k
  {
    if k == 0 then e else Backspaces(Backspace(e.bytes, e.col), k - 1)
  }

  /** `k` deletes in a row, each starting from the column the previous one reported. */
  function Deletes(e: Edit, k: nat): Edit
    decreases k
  {
    if k == 0 then e else Deletes(Delete(e.bytes, e.col), k - 1)
  }

  /** Backspacing over the bytes just before the column removes exactly them. */
  lemma {:induction false} BackspacesRemoveBefore(a: seq<byte>, t: seq<byte>, b: seq<byte>)
    ensures Backspaces(Edit(a + t + b, |a| + |t|), |t|) == Edit(a + b, |a|)
  {
    if |t| > 0 {
      var t' := t[..|t| - 1];
      assert (a + t + b)[..|a| + |t| - 1] == a + t';
      assert (a + t + b)[|a| + |t|..] == b;
      assert Backspace(a + t + b, |a| + |t|) == Edit(a + t' + b, |a| + |t'|);
      BackspacesRemoveBefore(a, t', b);
    }
  }

  /** Deleting at the column removes the bytes just after it, one by one. */
  lemma {:induction false} DeletesRemoveAfter(a: seq<byte>, t: seq<byte>, b: seq<byte>)
    ensures Deletes(Edit(a + t + b, |a|), |t|) == Edit(a + b, |a|)
  {
    if |t| > 0 {
      assert (a + t + b)[..|a|] == a;
      assert (a + t + b)[|a| + 1..] == t[1..] + b;
      assert Delete(a + t + b, |a|) == Edit(a + t[1..] + b, |a|);
      DeletesRemoveAfter(a, t[1..], b);
    }
  }

  /** Inserting `t` and then issuing |t| backspaces restores the line and its (clamped) column. */
  lemma BackspacesUndoInsert(s: seq<byte>, col: nat, t: seq<byte>)
    ensures Backspaces(InsertBefore(s, col, t), |t|) == Edit(s, Clamp(col, |s|))
  {
    var c := Clamp(col, |s|);
    var a, b := s[..c], s[c..];
    assert s == a + b;
    assert |a| == c;
    var e := InsertBefore(s, col, t);
    assert e.bytes == a + t + b;
    assert e == Edit(a + t + b, |a| + |t|);
    BackspacesRemoveBefore(a, t, b);
  }

  /** Inserting `t`, putting the column back where the insertion began and issuing |t| deletes restores the line. */
  lemma DeletesUndoInsert(s: seq<byte>, col: nat, t: seq<byte>)
    ensures Deletes(Edit(InsertBefore(s, col, t).bytes, Clamp(col, |s|)), |t|) == Edit(s, Clamp(col, |s|))
  {
    var c := Clamp(col, |s|);
    var a, b := s[..c], s[c..];
    assert s == a + b;
    assert |a| == c;
    DeletesRemoveAfter(a, t, b);
  }

  /** Counts the occurrences of `b` in `s`. */
  function Count(s: seq<byte>, b: byte): nat
  {
    if s == [] then 0 else (if s[0] == b then 1 else 0) + Count(s[1..], b)
  }

  /** Flattens a sequence of byte chunks into one stream. */
  function Concat(chunks: seq<seq<byte>>): (r: seq<byte>)
  {
    if chunks == [] then [] else chunks[0] + Concat(chunks[1..])
  }

  /** The element positions of a sequence after inserting `x` at index `k`. */
  lemma InsertedAt<T>(s: seq<T>, k: nat, x: T)
    requires k <= |s|
    ensures var r := s[..k] + [x] + s[k..];
      && |r| == |s| + 1 && r[k] == x
      && (forall i :: 0 <= i < k ==> r[i] == s[i])
      && (forall i :: k < i < |r| ==> r[i] == s[i - 1])
  {
  }

  /**
    One past the highest byte index touched by an insertion of `n` bytes at
    `col`: the memmove of [col, size) to col + n and the memcpy into
    [col, col + n). Zero when neither touches a byte.
   */
  function InsertReach(size: nat, col: nat, n: nat): (top: nat)
    requires col <= size
    ensures top == 0 || top == size + n
    ensures top == 0 <==> col == size && n == 0
  {
    if size - col + n > 0 then size + n else 0
  }

  /** One past the highest byte index the backspace memcpy of [col, size) onto col - 1 touches; zero when it copies nothing. */
  function BackspaceReach(size: nat, col: nat): (top: nat)
    requires 0 < col <= size
    ensures top == 0 <==> col == size
    ensures top != 0 ==> top == size
  {
    if size - col > 0 then size else 0
  }

  /** One past the highest byte index the delete memcpy touches: it copies `size - col` bytes from col + 1, so it reads es[size]. */
  function DeleteReach(size: nat, col: nat): (top: nat)
    requires col < size
    ensures top == size + 1
  {
    col + 1 + (size - col)
  }
}
