/** Which capacities survive the wrap of the 32-bit cursors. */
module Wraparound {
  import opened Wrappers
  import opened Words
  import opened Record
  import opened RingCore
  import opened Geometry
  import opened RingMemory
  import opened BatchPlan

  /** No write that the memory check accepts, at whatever position, touches a byte in flight. */
  ghost predicate WritesAvoidCommitted(capacity: u32)
    requires capacity > 0
  {
    forall c: nat, p: nat, q: nat, n: nat, x: nat ::
      Ordered(capacity, c, p) && p <= q && q + n <= c + capacity && c <= x < p
      && WriteRange(capacity, Wrap(p), Wrap(c), Wrap(q), n).Ok? ==>
        var offset := WriteRange(capacity, Wrap(p), Wrap(c), Wrap(q), n).value;
        !(offset <= CellOf(capacity, x) < offset + n)
  }

  /** Every multiple of eight is accepted as a capacity, but exactly those that divide 2^32 keep
      writes off the bytes in flight at every position. */
  lemma WritesAvoidCommittedIff(capacity: u32)
    requires ValidCapacity(capacity)
    ensures WritesAvoidCommitted(capacity) <==> TWO32 % capacity == 0
  {
    hide WriteRange, CellOf, Offset, Wrap;
    if TWO32 % capacity == 0 {
      forall c: nat, p: nat, q: nat, n: nat, x: nat |
        Ordered(capacity, c, p) && p <= q && q + n <= c + capacity && c <= x < p
        && WriteRange(capacity, Wrap(p), Wrap(c), Wrap(q), n).Ok?
        ensures var offset := WriteRange(capacity, Wrap(p), Wrap(c), Wrap(q), n).value;
                !(offset <= CellOf(capacity, x) < offset + n)
      {
        AvoidsCommitted(capacity, c, p, q, n, x);
      }
    } else {
      OverwritesCommitted(capacity);
    }
  }

  lemma AvoidsCommitted(capacity: u32, c: nat, p: nat, q: nat, n: nat, x: nat)
    requires Ordered(capacity, c, p) && p <= q && q + n <= c + capacity && c <= x < p
    requires TWO32 % capacity == 0 && WriteRange(capacity, Wrap(p), Wrap(c), Wrap(q), n).Ok?
    ensures var offset := WriteRange(capacity, Wrap(p), Wrap(c), Wrap(q), n).value;
            !(offset <= CellOf(capacity, x) < offset + n)
  {
    hide Offset;
    CellIsOffset(capacity, q);
    CellIsOffset(capacity, x);
    var offset := WriteRange(capacity, Wrap(p), Wrap(c), Wrap(q), n).value;
    if offset <= CellOf(capacity, x) < offset + n {
      var j := CellOf(capacity, x) - offset;
      OffsetWithinLap(capacity, q, j);
      OffsetsDiffer(capacity, x, q + j);
    }
  }

  /** With eight bytes in flight just below 2^32, a write just above it lands on them. */
  lemma OverwritesCommitted(capacity: u32)
    requires ValidCapacity(capacity) && TWO32 % capacity != 0
    ensures !WritesAvoidCommitted(capacity)
  {
    var r := TWO32 % capacity;
    RemainderAligned(capacity);
    var c: nat, p: nat, q: nat := TWO32 - 8, TWO32, TWO32 + r - 8;
    WrapDistance(c, p);
    WrapDistance(p, q);
    assert Ordered(capacity, c, p);
    RemainderUnique(c, TWO32 / capacity, r - 8, capacity);
    RemainderUnique(r - 8, 0, r - 8, capacity);
    assert Wrap(q) == r - 8 && CellOf(capacity, c) == r - 8;
    assert WriteRange(capacity, Wrap(p), Wrap(c), Wrap(q), 8) == Ok(r - 8);
  }

  lemma RemainderAligned(capacity: u32)
    requires ValidCapacity(capacity)
    ensures (TWO32 % capacity) % 8 == 0 && (TWO32 % capacity) + 8 <= capacity
  {
    var k, j := capacity / 8, TWO32 / capacity;
    assert j * capacity == 8 * (j * k);
    AlignedRemainder(TWO32, j * k, TWO32 % capacity, capacity);
  }

  lemma AlignedRemainder(total: nat, m: nat, r: nat, capacity: nat)
    requires total % 8 == 0 && capacity % 8 == 0 && total == 8 * m + r && r < capacity
    ensures r % 8 == 0 && r + 8 <= capacity
  {
  }

  const EMPTY: Fragment := Fragment([], END_OF_MESSAGE)

  /** One empty message, planned by a writer that sees the ring of capacity 96 drained. */
  function PlanEmpty(at: u32, sequence: u32): Result<seq<Prepared>> {
    PlanBatch(96, at, at, [EMPTY], Data, 1, sequence, 64)
  }

  /** The producer cursor after n empty messages, each received before the next. */
  function AfterEmpties(n: nat): (cursor: u32) {
    if n == 0 then
      0
    else
      var at := AfterEmpties(n - 1);
      var planned := PlanEmpty(at, Wrap(n - 1));
      if planned.Ok? then EndCursor(planned.value, at) else at
  }

  /** At every multiple of 24 an empty message takes 24 bytes, without padding. */
  lemma EmptyPlan(n: nat)
    requires 24 * n + 24 < TWO32
    ensures var planned := PlanEmpty(24 * n, Wrap(n));
            && planned.Ok? && |planned.value| == 1
            && planned.value[0].plan.paddingLength == 0 && planned.value[0].plan.recordLength == 24
            && planned.value[0].plan.publishCursor == 24 * n + 24
            && EndCursor(planned.value, 24 * n) == 24 * n + 24
  {
    hide PlanOne, PlanBatch;
    var at := 24 * n;
    assert at % 96 == 24 * (n % 4);
    EmptyFits(at, at, n, 24 * (n % 4));
    PlanNothing(at + 24, at, n + 1);
    PlanFirst(at, at, [EMPTY], n);
    assert [EMPTY][1..] == [];
    assert PlanEmpty(at, n).value[1..] == [];
  }

  /** Below 2^32 the cursor counts 24 bytes for each of them. */
  lemma {:induction false} EmptiesAdvance(n: nat)
    requires 24 * n < TWO32
    ensures AfterEmpties(n) == 24 * n
  {
    hide PlanEmpty, EndCursor;
    if n > 0 {
      EmptiesAdvance(n - 1);
      EmptyPlan(n - 1);
    }
  }

  /** An accepted capacity that does not divide 2^32: n empty messages, each received before the next,
      bring the cursors 40 bytes before the wrap, and one batch of three more is then planned with its
      third record across the first. */
  lemma WrapOverlapsAt96(n: nat)
    requires 24 * n == TWO32 - 40
    ensures ValidCapacity(96) && TWO32 % 96 == 64
    ensures AfterEmpties(n) == 24 * n
    ensures var start := AfterEmpties(n);
            var plans := PlanBatch(96, start, start, [EMPTY, EMPTY, EMPTY], Data, 1, Wrap(n), 64);
            && plans.Ok? && |plans.value| == 3
            && plans.value[0].plan.recordOffset == 24 && plans.value[0].plan.recordLength == 24
            && plans.value[2].plan.recordOffset == 8 && plans.value[2].plan.recordLength == 24
  {
    hide PlanOne, AfterEmpties;
    EmptiesAdvance(n);
    var start := 24 * n;
    EmptyFits(start, start, n, 24);
    EmptyFits(TWO32 - 16, start, n + 1, 48);
    EmptyFits(8, start, n + 2, 8);
    hide PlanBatch;
    PlanFirst(start, start, [EMPTY, EMPTY, EMPTY], n);
    PlanFirst(TWO32 - 16, start, [EMPTY, EMPTY], n + 1);
    PlanFirst(8, start, [EMPTY], n + 2);
    PlanNothing(32, start, n + 3);
    assert [EMPTY, EMPTY, EMPTY][1..] == [EMPTY, EMPTY];
    assert [EMPTY, EMPTY][1..] == [EMPTY];
    assert [EMPTY][1..] == [];
  }

  lemma PlanNothing(producer: u32, consumer: u32, sequence: u32)
    ensures PlanBatch(96, producer, consumer, [], Data, 1, sequence, 64) == Ok([])
  {
  }

  lemma PlanFirst(producer: u32, consumer: u32, fragments: seq<Fragment>, sequence: u32)
    requires fragments != [] && sequence + 1 < TWO32
    requires PlanOne(96, producer, consumer, fragments[0], Data, 1, sequence, 64).Ok?
    ensures var first := PlanOne(96, producer, consumer, fragments[0], Data, 1, sequence, 64).value;
            var rest := PlanBatch(96, first.plan.publishCursor, consumer, fragments[1..], Data, 1, sequence + 1, 64);
            rest.Ok? ==> PlanBatch(96, producer, consumer, fragments, Data, 1, sequence, 64) == Ok([first] + rest.value)
  {
    hide PlanOne;
  }

  lemma EmptyFits(producer: u32, consumer: u32, sequence: u32, offset: u32)
    requires producer % 96 == offset && offset + 24 <= 96 && WrappingSub(producer, consumer) <= 72
    ensures var r := PlanOne(96, producer, consumer, EMPTY, Data, 1, sequence, 64);
            && r.Ok? && r.value.plan.recordOffset == offset && r.value.plan.recordLength == 24
            && r.value.plan.paddingLength == 0 && r.value.plan.publishCursor == WrappingAdd(producer, 24)
  {
  }
}
