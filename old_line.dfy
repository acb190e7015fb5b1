/**
  The older line buffer of line.h. The column is passed by value and is
  not clamped, so callers must keep it within the line; no new column is
  reported. Growth updates the capacity field by the doubling policy, but
  the buffer is reallocated to the capacity held BEFORE growth, so the
  bytes actually allocated (`held`) lag behind the capacity field. Every
  operation reports whether the bytes it reads and writes lie within the
  allocation; the line's bytes are modelled as the operation intends them.
 */
module OldLine {
  import opened Text
  import Growth

  const LINE_INIT_CAPACITY: nat := 245

  class Line {
    var capacity: nat
    var size: nat
    /** The bytes the buffer really holds after the last reallocation. */
    var held: nat
    /** The bytes of the line, as the operations intend them. */
    var es: seq<byte>

    ghost predicate Valid()
      reads this
    {
      |es| == size && size <= capacity && held <= capacity
    }

    /** A zero-initialised Line. */
    constructor ()
      ensures Valid() && capacity == 0 && held == 0 && es == []
    {
      capacity, size, held, es := 0, 0, 0, [];
    }

    /**
      line_extend as written: the doubling loop tests the capacity the line
      had on entry, so from capacity 0 it only exits when `n` fits in the
      initial constant (hence the precondition); realloc is asked for the
      old capacity.
     */
    method Extend(n: nat)
      requires Valid()
      requires capacity > 0 || n <= LINE_INIT_CAPACITY
      modifies this
      ensures Valid() && es == old(es) && size == old(size)
      ensures capacity == Growth.Grown(old(capacity), size, n, LINE_INIT_CAPACITY)
      ensures capacity - size >= n && capacity >= old(capacity)
      ensures held == Growth.AllocatedAfterGrowth(old(capacity), old(held), capacity)
    {
      var newCapacity := capacity;
      while newCapacity - size < n
        invariant size <= newCapacity
        invariant capacity == 0 ==> newCapacity == 0 || newCapacity == LINE_INIT_CAPACITY
        invariant Growth.Grown(newCapacity, size, n, LINE_INIT_CAPACITY) == Growth.Grown(capacity, size, n, LINE_INIT_CAPACITY)
        decreases size + n - newCapacity
      {
        if capacity == 0 {
          newCapacity := LINE_INIT_CAPACITY;
        } else {
          newCapacity := newCapacity * 2;
        }
      }
      if newCapacity != capacity {
        held := capacity;
        capacity := newCapacity;
      }
    }

    /**
      line_insert_text_before: splices `text` in at `col`, which must not
      lie beyond the line (the shift length `size - col` would wrap).
      `ok` tells whether every byte touched lies within the allocation.
     */
    method InsertTextBefore(text: seq<byte>, col: nat) returns (ok: bool)
      requires Valid() && col <= size
      requires capacity > 0 || |text| <= LINE_INIT_CAPACITY
      modifies this
      ensures Valid()
      ensures es == old(es)[..col] + text + old(es)[col..]
      ensures capacity == Growth.Grown(old(capacity), old(size), |text|, LINE_INIT_CAPACITY)
      ensures held == Growth.AllocatedAfterGrowth(old(capacity), old(held), capacity)
      ensures ok <==> InsertReach(old(size), col, |text|) <= held
    {
      Extend(|text|);
      ok := InsertReach(size, col, |text|) <= held;
      es := es[..col] + text + es[col..];
      size := size + |text|;
    }

    /**
      line_backspace: removes the byte before `col` when the line and the
      column are non-empty; the column must then not lie beyond the line.
      The caller's column is not updated.
     */
    method Backspace(col: nat) returns (ok: bool)
      requires Valid() && (size > 0 && col > 0 ==> col <= size)
      modifies this
      ensures Valid() && capacity == old(capacity) && held == old(held)
      ensures old(size) > 0 && col > 0 ==> es == old(es)[..col - 1] + old(es)[col..] && (ok <==> BackspaceReach(old(size), col) <= held)
      ensures !(old(size) > 0 && col > 0) ==> es == old(es) && ok
    {
      ok := true;
      if size > 0 && col > 0 {
        ok := BackspaceReach(size, col) <= held;
        es := es[..col - 1] + es[col..];
        size := size - 1;
      }
    }

    /** line_delete: removes the byte at `col` when there is one; otherwise nothing happens. */
    method Delete(col: nat) returns (ok: bool)
      requires Valid()
      modifies this
      ensures Valid() && capacity == old(capacity) && held == old(held)
      ensures col < old(size) ==> es == old(es)[..col] + old(es)[col + 1..] && (ok <==> DeleteReach(old(size), col) <= held)
      ensures col >= old(size) ==> es == old(es) && ok
    {
      ok := true;
      if col < size && size > 0 {
        ok := DeleteReach(size, col) <= held;
        es := es[..col] + es[col + 1..];
        size := size - 1;
      }
    }
  }

  /** Within the line, the unclamped edits of line.h give the bytes the clamped edits of src/editor.h give. */
  lemma AgreesWithClampedEdits(s: seq<byte>, col: nat, text: seq<byte>)
    requires col <= |s|
    ensures Text.InsertBefore(s, col, text).bytes == s[..col] + text + s[col..]
    ensures col > 0 ==> Text.Backspace(s, col).bytes == s[..col - 1] + s[col..]
    ensures col < |s| ==> Text.Delete(s, col).bytes == s[..col] + s[col + 1..]
  {
  }

  /**
    As written, the first insertion into a fresh line always writes outside
    the allocation: growth sets the capacity to 245 but reallocates to 0 bytes.
   */
  lemma FirstInsertOverflows(n: nat)
    requires 0 < n <= LINE_INIT_CAPACITY
    ensures var capacity := Growth.Grown(0, 0, n, LINE_INIT_CAPACITY);
      capacity == LINE_INIT_CAPACITY
      && Growth.AllocatedAfterGrowth(0, 0, capacity) == 0
      && InsertReach(0, 0, n) > Growth.AllocatedAfterGrowth(0, 0, capacity)
  {
    assert Growth.Grown(LINE_INIT_CAPACITY, 0, n, LINE_INIT_CAPACITY) == LINE_INIT_CAPACITY;
  }

  /**
    As written, growth always leaves the allocation short of the capacity
    field: whenever the capacity changes, the bytes held are fewer than the
    capacity now promises, so an insertion that fills the new room writes
    outside the allocation.
   */
  lemma GrowthLeavesAllocationShort(capacity: nat, held: nat, size: nat, n: nat)
    requires held <= capacity && size <= capacity < size + n
    ensures var grown := Growth.Grown(capacity, size, n, LINE_INIT_CAPACITY);
      Growth.AllocatedAfterGrowth(capacity, held, grown) < size + n <= grown
      && InsertReach(size, size, n) > Growth.AllocatedAfterGrowth(capacity, held, grown)
  {
  }

}
