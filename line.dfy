/**
  The growable line buffer of src/editor.h: `capacity` bytes allocated,
  the first `size` of them holding the line. Every edit clamps the
  column it is given to the line's length and reports the new column.
 */
module LineBuffer {
  import opened Text
  import Growth

  const LINE_INIT_CAPACITY: nat := 1024

  class Line {
    var capacity: nat
    var size: nat
    /** The allocated buffer; bytes at and beyond `size` carry no meaning. */
    var es: seq<byte>

    ghost predicate Valid()
      reads this
    {
      size <= capacity && |es| == capacity
    }

    /** The bytes of the line. */
    ghost function Contents(): seq<byte>
      reads this
      requires Valid()
    {
      es[..size]
    }

    /** A zero-initialised Line: no buffer, nothing in it. */
    constructor ()
      ensures Valid() && capacity == 0 && Contents() == []
    {
      capacity, size, es := 0, 0, [];
    }

    /** line_extend: makes room for `n` more bytes by the doubling policy, keeping the line. */
    method Extend(n: nat)
      requires Valid()
      modifies this
      ensures Valid()
      ensures size == old(size) && Contents() == old(Contents())
      ensures capacity == Growth.Grown(old(capacity), size, n, LINE_INIT_CAPACITY)
      ensures capacity - size >= n && capacity >= old(capacity)
    {
      var newCapacity := Growth.NewCapacity(capacity, size, n, LINE_INIT_CAPACITY);
      if newCapacity != capacity {
        // realloc keeps the old bytes; the new tail is not defined and is modelled as zeros
        es := es + seq(newCapacity - capacity, _ => 0);
        capacity := newCapacity;
      }
    }

    /** line_insert_text_sized_before (and line_insert_text_before, whose text length is strlen). */
    method InsertTextBefore(text: seq<byte>, col: nat) returns (newCol: nat)
      requires Valid()
      modifies this
      ensures Valid()
      ensures Edit(Contents(), newCol) == Text.InsertBefore(old(Contents()), col, text)
      ensures capacity == Growth.Grown(old(capacity), old(size), |text|, LINE_INIT_CAPACITY)
    {
      var c := if col > size then size else col;
      Extend(|text|);
      ghost var before := es[..size];
      // memmove of [c, size) to c + |text|, then memcpy of the text into the gap
      es := es[..c] + text + es[c..size] + es[size + |text|..];
      size := size + |text|;
      newCol := c + |text|;
      assert es[..size] == before[..c] + text + before[c..];
    }

    /** line_append_text_sized: insertion at the end of the line, through a local column. */
    method AppendText(text: seq<byte>)
      requires Valid()
      modifies this
      ensures Valid()
      ensures Contents() == old(Contents()) + text
      ensures capacity == Growth.Grown(old(capacity), old(size), |text|, LINE_INIT_CAPACITY)
    {
      var col := size;
      ghost var before := Contents();
      col := InsertTextBefore(text, col);
      assert before[..|before|] == before && before[|before|..] == [];
    }

    /** line_backspace: removes the byte before the clamped column, if there is one. */
    method Backspace(col: nat) returns (newCol: nat)
      requires Valid()
      modifies this
      ensures Valid() && capacity == old(capacity)
      ensures Edit(Contents(), newCol) == Text.Backspace(old(Contents()), col)
    {
      var c := if col > size then size else col;
      if size > 0 && c > 0 {
        ghost var before := es[..size];
        // memcpy of [c, size) onto c - 1
        es := es[..c - 1] + es[c..size] + es[size - 1..];
        size := size - 1;
        c := c - 1;
        assert es[..size] == before[..c] + before[c + 1..];
      }
      newCol := c;
    }

    /**
      line_delete: removes the byte at the clamped column, if there is one;
      the clamped column is written back. The shift copies the
      `size - col - 1` bytes that follow the removed one.
     */
    method Delete(col: nat) returns (newCol: nat)
      requires Valid()
      modifies this
      ensures Valid() && capacity == old(capacity)
      ensures Edit(Contents(), newCol) == Text.Delete(old(Contents()), col)
    {
      var c := if col > size then size else col;
      if c < size && size > 0 {
        ghost var before := es[..size];
        es := es[..c] + es[c + 1..size] + es[size - 1..];
        size := size - 1;
        assert es[..size] == before[..c] + before[c + 1..];
      }
      newCol := c;
    }
  }

  /** As written, deleting in a line whose buffer is full reads one byte past the allocation. */
  lemma DeleteOverreadsFullBuffer(capacity: nat, size: nat, col: nat)
    requires col < size == capacity
    ensures DeleteReach(size, col) == capacity + 1
  {
  }
}
