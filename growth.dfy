/**
  The capacity policy shared by line_extend and editor_grow: starting from
  the current capacity, double (or jump to an initial constant from zero)
  until at least `n` slots beyond `size` are free.
 */
module Growth {

  /** One turn of the doubling loop, testing the capacity computed so far. */
  function Step(c: nat, init: nat): (r: nat)
    ensures init > 0 ==> r > c
    ensures r == init || r == 2 * c
  {
    if c == 0 then init else c * 2
  }

  /** The capacity the doubling loop settles on. */
  function Grown(c: nat, size: nat, n: nat, init: nat): (r: nat)
    requires init > 0
    ensures r >= c
    ensures r >= size + n
    ensures c >= size + n ==> r == c
    decreases size + n + 1 - c
  {
    if c >= size + n then c else Grown(Step(c, init), size, n, init)
  }

  /** Growth is tight: from a capacity with too little room, the result is below twice the demand, or is the initial constant. */
  lemma {:induction false} GrownIsTight(c: nat, size: nat, n: nat, init: nat)
    requires init > 0
    requires c < size + n
    ensures Grown(c, size, n, init) < 2 * (size + n) || Grown(c, size, n, init) == init
    decreases size + n - c
  {
    var c' := Step(c, init);
    if c' < size + n {
      GrownIsTight(c', size, n, init);
    }
  }

  /**
    The doubling loop of line_extend and editor_grow, with the test of
    the loop body reading the capacity computed so far. The returned
    capacity is the one the doubling policy prescribes.
   */
  method NewCapacity(capacity: nat, size: nat, n: nat, init: nat) returns (newCapacity: nat)
    requires init > 0
    requires size <= capacity
    ensures newCapacity == Grown(capacity, size, n, init)
  {
    newCapacity := capacity;
    while newCapacity - size < n
      invariant size <= newCapacity
      invariant Grown(newCapacity, size, n, init) == Grown(capacity, size, n, init)
      decreases size + n - newCapacity
    {
      if newCapacity == 0 {
        newCapacity := init;
      } else {
        newCapacity := newCapacity * 2;
      }
    }
  }

  /** One turn of the doubling loop as written, testing the capacity the loop started from. */
  function StepAsWritten(original: nat, c: nat, init: nat): (r: nat)
    ensures original == 0 ==> r == Step(0, init)
    ensures original > 0 && c > 0 ==> r == Step(c, init)
  {
    if original == 0 then init else c * 2
  }

  /** The capacity after `k` turns of the loop as written. */
  function IterateAsWritten(original: nat, k: nat, init: nat): (r: nat)
    ensures original == 0 && k > 0 ==> r == init
    ensures original > 0 ==> r >= original + k
    decreases k
  {
    if k == 0 then original else StepAsWritten(original, IterateAsWritten(original, k - 1, init), init)
  }

  /**
    As written, a line or editor with capacity 0 that is asked for more
    than `init` free slots never leaves the loop: after every turn the
    capacity is `init` again and the loop test still holds.
   */
  lemma {:induction false} LoopNeverExitsAsWritten(n: nat, init: nat, k: nat)
    requires n > init
    ensures IterateAsWritten(0, k, init) - 0 < n
    ensures k > 0 ==> IterateAsWritten(0, k, init) == init
  {
    if k > 0 {
      LoopNeverExitsAsWritten(n, init, k - 1);
    }
  }

  /**
    The capacity the loop as written exits with, from a positive original
    capacity and the capacity `c` computed so far: it doubles until there
    is room, as its test then reads a non-zero capacity.
   */
  function ExitAsWritten(original: nat, c: nat, size: nat, n: nat, init: nat): (r: nat)
    requires original > 0 && c >= original
    ensures r >= c && r >= size + n
    decreases size + n + 1 - c
  {
    if c >= size + n then c else ExitAsWritten(original, StepAsWritten(original, c, init), size, n, init)
  }

  /** From a positive capacity, the loop as written exits with the capacity the doubling policy prescribes. */
  lemma {:induction false} ExitAsWrittenIsGrown(original: nat, c: nat, size: nat, n: nat, init: nat)
    requires init > 0 && original > 0 && c >= original
    ensures ExitAsWritten(original, c, size, n, init) == Grown(c, size, n, init)
    decreases size + n + 1 - c
  {
    if c < size + n {
      ExitAsWrittenIsGrown(original, StepAsWritten(original, c, init), size, n, init);
    }
  }

  /**
    Where the loop as written does exit, it exits with the capacity the
    doubling policy prescribes: after one turn from capacity 0 when `n`
    fits in `init`, and always from a positive capacity.
   */
  lemma {:induction false} AsWrittenAgreesWhenItExits(capacity: nat, size: nat, n: nat, init: nat)
    requires init > 0
    requires size <= capacity
    requires capacity > 0 || n <= init
    ensures capacity == 0 && n > 0 ==> IterateAsWritten(0, 1, init) == Grown(capacity, size, n, init)
    ensures capacity > 0 ==> ExitAsWritten(capacity, capacity, size, n, init) == Grown(capacity, size, n, init)
  {
    if capacity == 0 && n > 0 {
      assert size == 0;
      assert IterateAsWritten(0, 1, init) == init;
      assert Grown(0, 0, n, init) == Grown(init, 0, n, init);
    }
    if capacity > 0 {
      ExitAsWrittenIsGrown(capacity, capacity, size, n, init);
    }
  }

  /**
    The older headers call realloc with the capacity held BEFORE growth:
    the buffer actually allocated after growing is the old capacity,
    while the capacity field already holds the new one.
   */
  function AllocatedAfterGrowth(capacity: nat, held: nat, newCapacity: nat): (a: nat)
    ensures newCapacity != capacity ==> a == capacity
    ensures newCapacity == capacity ==> a == held
  {
    if newCapacity != capacity then capacity else held
  }

  /** A fresh line (capacity 0) that receives one byte ends up with capacity 1024 and nothing allocated. */
  lemma FreshGrowthAllocatesNothing()
    ensures Grown(0, 0, 1, 1024) == 1024
    ensures AllocatedAfterGrowth(0, 0, Grown(0, 0, 1, 1024)) == 0
  {
    assert Grown(1024, 0, 1, 1024) == 1024;
  }
}
