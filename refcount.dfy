/**
 * The shared reference counter of src/foundation/immutable/detail/refcounted.h.
 *
 * A Refcounted token points to a heap cell holding a 64-bit count. A new
 * token allocates a cell with count 1; copying a token shares the cell, so a
 * change made through one copy is seen through every other. The count is a
 * bv64 and wraps as std::uint64_t does. The memory orderings of the atomic
 * operations are not modelled: every operation is one sequential step.
 */
module Refcount {

  /** One increment, wrapping modulo 2^64. */
  function Succ(x: bv64): bv64 {
    x + 1
  }

  /** One decrement, wrapping modulo 2^64. */
  function Pred(x: bv64): bv64 {
    x - 1
  }

  /** A decrement undoes an increment, and the two commute. */
  lemma PredSucc(x: bv64)
    ensures Pred(Succ(x)) == x
    ensures Pred(Succ(x)) == Succ(Pred(x))
  {}

  /** The count after `n` increments of `x`. */
  function Bumped(x: bv64, n: nat): bv64 {
    if n == 0 then x else Succ(Bumped(x, n - 1))
  }

  /** The count after `n` decrements of `x`. */
  function Dropped(x: bv64, n: nat): bv64 {
    if n == 0 then x else Pred(Dropped(x, n - 1))
  }

  /** `n` decrements undo `n` increments, whatever wrapping happened between. */
  lemma {:induction false} DroppedBumped(x: bv64, n: nat)
    ensures Dropped(Bumped(x, n), n) == x
  {
    hide Succ, Pred;
    if n > 0 {
      var y := Bumped(x, n - 1);
      DroppedBumped(x, n - 1);
      DroppedSucc(y, n - 1);
      PredSucc(x);
    }
  }

  /** Decrements commute with one increment. */
  lemma {:induction false} DroppedSucc(y: bv64, n: nat)
    ensures Dropped(Succ(y), n) == Succ(Dropped(y, n))
  {
    hide Succ, Pred;
    if n > 0 {
      DroppedSucc(y, n - 1);
      PredSucc(Dropped(y, n - 1));
    }
  }

  /** The heap cell: std::atomic<std::uint64_t>. `live` turns false when the cell is deleted. */
  class Cell {
    var count: bv64
    var live: bool

    constructor(count: bv64)
      ensures this.count == count && live
    {
      this.count := count;
      live := true;
    }
  }

  /** refcounted: a token pointing to a shared count cell. */
  class Refcounted {
    const cell: Cell

    /** Refcounted(): a fresh cell holding 1. */
    constructor()
      ensures fresh(cell)
      ensures cell.count == 1 && cell.live
    {
      cell := new Cell(1);
    }

    /** Refcounted(const Refcounted&): the copy shares the other token's cell; no count changes. */
    constructor Copy(other: Refcounted)
      ensures cell == other.cell
    {
      cell := other.cell;
    }

    /** inc(): the shared count grows by one. */
    method Inc()
      requires cell.live
      modifies cell
      ensures cell.count == old(cell.count) + 1
      ensures cell.live
    {
      cell.count := cell.count + 1;
    }

    /** dec(): the shared count drops by one; true exactly when it was 1 before. */
    method Dec() returns (last: bool)
      requires cell.live
      modifies cell
      ensures last <==> old(cell.count) == 1
      ensures cell.count == old(cell.count) - 1
      ensures cell.live
    {
      var before := cell.count;
      cell.count := before - 1;
      last := before == 1;
    }

    /** is_unique(): the count is 1. */
    predicate IsUnique()
      reads cell
    {
      cell.count == 1
    }

    /** ~Refcounted(): the cell is deleted when this token is its only owner, and kept otherwise. */
    method Destroy()
      requires cell.live
      modifies cell
      ensures cell.live <==> old(cell.count) != 1
      ensures cell.count == old(cell.count)
    {
      if IsUnique() {
        cell.live := false;
      }
    }

    /**
     * The destructor as intended: the cell is deleted once no owner is left,
     * which after the last dec is a count of 0.
     */
    method Release()
      requires cell.live
      modifies cell
      ensures cell.live <==> old(cell.count) != 0
      ensures cell.count == old(cell.count)
    {
      if cell.count == 0 {
        cell.live := false;
      }
    }
  }

  /** A copy aliases the cell: an increment through the copy is the original's increment. */
  method IncThroughCopy(a: Refcounted) returns (b: Refcounted)
    requires a.cell.live
    modifies a.cell
    ensures b.cell == a.cell
    ensures a.cell.count == old(a.cell.count) + 1
  {
    b := new Refcounted.Copy(a);
    b.Inc();
  }

  /** Inc followed by Dec restores the count and never reports the last owner when the count was not 0. */
  method IncThenDec(a: Refcounted) returns (last: bool)
    requires a.cell.live
    modifies a.cell
    ensures a.cell.count == old(a.cell.count)
    ensures last <==> old(a.cell.count) == 0
  {
    a.Inc();
    last := a.Dec();
  }
}
