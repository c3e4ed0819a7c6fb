/** Where an unbounded stream position lives in the ring, and when the wrapping cursors agree.

    The code computes physical offsets as `cursor % capacity` on a cursor that itself wraps at 2^32.
    The stream position behind the cursor is unbounded; the two agree for every position exactly when
    the capacity divides 2^32, and for any capacity before the cursor first wraps. */
module Geometry {
  import opened Words

  /** The physical cell the code uses for stream position x. */
  function CellOf(capacity: u32, x: nat): (cell: nat)
    requires capacity > 0
    ensures cell < capacity
  {
    Wrap(x) % capacity
  }

  /** The cell of an unwrapped counter. */
  function Offset(capacity: nat, x: nat): (offset: nat)
    requires capacity > 0
    ensures offset < capacity
  {
    x % capacity
  }

  /** Positions up to x have the cells of an unwrapped counter. */
  predicate Seamless(capacity: u32, x: nat)
    requires capacity > 0
  {
    TWO32 % capacity == 0 || x < TWO32
  }

  lemma SeamlessBelow(capacity: u32, x: nat, y: nat)
    requires capacity > 0 && Seamless(capacity, y) && x <= y
    ensures Seamless(capacity, x)
  {
  }

  lemma MultiplesVanish(a: int, k: int, m: int)
    requires m > 0
    ensures (a + k * m) % m == a % m
  {
    var q, r := a / m, a % m;
    assert a == q * m + r;
    assert a + k * m == (q + k) * m + r by {
      assert (q + k) * m == q * m + k * m;
    }
    RemainderUnique(a + k * m, q + k, r, m);
  }

  lemma RemainderUnique(x: int, q: int, r: int, m: int)
    requires 0 <= r < m && x == q * m + r
    ensures x % m == r
  {
    var d := x / m - q;
    assert x == (x / m) * m + x % m;
    assert d * m == r - x % m by {
      assert (x / m - q) * m == (x / m) * m - q * m;
    }
    if d >= 1 {
      ProductAtLeast(d, m);
    } else if d <= -1 {
      ProductAtLeast(-d, m);
    }
  }

  lemma ProductAtLeast(d: int, m: int)
    requires d >= 1 && m > 0
    ensures d * m >= m
  {
  }

  lemma QuotientUnique(x: int, q: int, r: int, m: int)
    requires 0 <= r < m && x == q * m + r
    ensures x / m == q
  {
    RemainderUnique(x, q, r, m);
    ZeroProduct(x / m - q, m);
  }

  lemma ZeroProduct(d: int, m: int)
    requires m > 0 && d * m == 0
    ensures d == 0
  {
  }

  lemma CellIsOffset(capacity: u32, x: nat)
    requires capacity > 0 && Seamless(capacity, x)
    ensures CellOf(capacity, x) == Offset(capacity, x)
  {
    if x >= TWO32 {
      var q, k := x / TWO32, TWO32 / capacity;
      assert TWO32 == k * capacity;
      assert x == Wrap(x) + q * TWO32;
      assert q * TWO32 == (q * k) * capacity;
      MultiplesVanish(Wrap(x), q * k, capacity);
    }
  }

  /** Inside one lap, offsets advance one by one. */
  lemma OffsetWithinLap(capacity: nat, x: nat, k: nat)
    requires capacity > 0 && Offset(capacity, x) + k < capacity
    ensures Offset(capacity, x + k) == Offset(capacity, x) + k
  {
    RemainderUnique(x + k, x / capacity, Offset(capacity, x) + k, capacity);
  }

  /** Reaching the end of the lap leads to offset zero. */
  lemma OffsetAtLapEnd(capacity: nat, x: nat, k: nat)
    requires capacity > 0 && Offset(capacity, x) + k == capacity
    ensures Offset(capacity, x + k) == 0
  {
    RemainderUnique(x + k, x / capacity + 1, 0, capacity);
  }

  /** Two different positions less than one capacity apart have different offsets. */
  lemma OffsetsDiffer(capacity: nat, x: nat, y: nat)
    requires capacity > 0 && x < y < x + capacity
    ensures Offset(capacity, x) != Offset(capacity, y)
  {
    if Offset(capacity, x) + (y - x) < capacity {
      OffsetWithinLap(capacity, x, y - x);
    } else {
      var k := Offset(capacity, x) + (y - x) - capacity;
      RemainderUnique(y, x / capacity + 1, k, capacity);
    }
  }

  /** No two live positions share a cell, whatever the window, exactly when the capacity divides 2^32. */
  lemma CellsDistinctIffCapacityDivides(capacity: u32)
    requires capacity > 0
    ensures (forall x: nat, y: nat :: x < y < x + capacity ==> CellOf(capacity, x) != CellOf(capacity, y))
       <==> TWO32 % capacity == 0
  {
    if TWO32 % capacity == 0 {
      forall x: nat, y: nat | x < y < x + capacity
        ensures CellOf(capacity, x) != CellOf(capacity, y)
      {
        CellIsOffset(capacity, x);
        CellIsOffset(capacity, y);
        OffsetsDiffer(capacity, x, y);
      }
    } else {
      var r := TWO32 % capacity;
      var x: nat, y: nat := TWO32 - 1, TWO32 + r - 1;
      RemainderUnique(x, TWO32 / capacity, r - 1, capacity);
      RemainderUnique(r - 1, 0, r - 1, capacity);
      assert CellOf(capacity, x) == CellOf(capacity, y);
    }
  }
}
