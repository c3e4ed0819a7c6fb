/** Planning of one publication: the first loop of `RingWriter::send_fragments`, as a function of the
    cursors it loaded, and what the plan means on stream positions. */
module BatchPlan {
  import opened Wrappers
  import opened Words
  import opened Record
  import opened RingCore
  import opened Geometry
  import opened Layout
  import opened RingMemory

  /** One payload of a batch with its wire flags. */
  datatype Fragment = Fragment(payload: seq<u8>, flags: u16)

  datatype Prepared = Prepared(plan: WritePlan, header: Header, payload: seq<u8>) {
    predicate WellFormed() {
      PREFIX_SIZE + |payload| <= header.recordLength
    }
  }

  /** Validates and plans one fragment. */
  function PlanOne(
      capacity: u32, producer: u32, consumer: u32, fragment: Fragment,
      kind: RecordKind, id: MessageId, sequence: u32, maximumInline: u32): Result<Prepared>
  {
    if |fragment.payload| > maximumInline then
      Err(MessageTooLarge)
    else
      var header :- NewHeader(|fragment.payload|, id, sequence, kind, fragment.flags);
      var snapshot :- RingSnapshot.New(capacity, producer, consumer);
      var plan :- snapshot.PlanWrite(header.recordLength);
      Ok(Prepared(plan, header, fragment.payload))
  }

  /** Validates and plans every fragment before any byte is written. */
  function PlanBatch(
      capacity: u32, producer: u32, consumer: u32, fragments: seq<Fragment>,
      kind: RecordKind, id: MessageId, sequence: u32, maximumInline: u32): Result<seq<Prepared>>
    decreases |fragments|
  {
    if fragments == [] then
      Ok([])
    else
      var first :- PlanOne(capacity, producer, consumer, fragments[0], kind, id, sequence, maximumInline);
      var rest :- PlanBatch(capacity, first.plan.publishCursor, consumer, fragments[1..], kind, id,
                            WrappingAdd(sequence, 1), maximumInline);
      Ok([first] + rest)
  }

  /** The cursor published once every planned record is written. */
  function EndCursor(prepared: seq<Prepared>, producer: u32): u32 {
    if prepared == [] then producer else EndCursor(prepared[1..], prepared[0].plan.publishCursor)
  }

  /** The items one planned record puts on the stream. */
  function ItemsOfOne(e: Prepared): seq<Item> {
    PadsOf(e.plan.paddingLength, e.header.sequence) + [Rec(OwnedRecord(Seen(e.header), e.payload))]
  }

  function PadsOf(length: u32, sequence: u32): seq<Item> {
    if length > 0 then [Pad(length, sequence)] else []
  }

  function ItemsOf(prepared: seq<Prepared>): seq<Item> {
    if prepared == [] then [] else ItemsOfOne(prepared[0]) + ItemsOf(prepared[1..])
  }

  /** The aligned length of a record that carries `n` payload bytes. */
  function RecordLength(n: nat): nat {
    (PREFIX_SIZE + n + 7) / 8 * 8
  }

  /** The record that carries one fragment. */
  function RecordFor(f: Fragment, kind: RecordKind, id: MessageId, count: nat): OwnedRecord
    requires |f.payload| <= MAX_INLINE_MESSAGE_SIZE
  {
    OwnedRecord(
      Header(RecordLength(|f.payload|), |f.payload|, Some(id), Wrap(count), kind.Seen(), f.flags), f.payload)
  }

  predicate Inline(fragments: seq<Fragment>) {
    forall i :: 0 <= i < |fragments| ==> |fragments[i].payload| <= MAX_INLINE_MESSAGE_SIZE
  }

  /** The records of a batch: one identity, consecutive sequence numbers. */
  function BatchRecords(fragments: seq<Fragment>, kind: RecordKind, id: MessageId, count: nat): (r: seq<OwnedRecord>)
    requires Inline(fragments)
    ensures |r| == |fragments|
  {
    if fragments == [] then []
    else [RecordFor(fragments[0], kind, id, count)] + BatchRecords(fragments[1..], kind, id, count + 1)
  }

  lemma SingleRecord(fragment: Fragment, kind: RecordKind, id: MessageId, count: nat)
    requires |fragment.payload| <= MAX_INLINE_MESSAGE_SIZE
    ensures Inline([fragment])
    ensures BatchRecords([fragment], kind, id, count) == [RecordFor(fragment, kind, id, count)]
    ensures BatchRecords([fragment], kind, id, count)[1..] == []
  {
    assert [fragment][1..] == [];
  }

  /** Padding in front of a record of `length` bytes at position q. */
  function PaddingAt(capacity: u32, q: nat, length: nat): nat
    requires capacity > 0
  {
    var tail := capacity - Offset(capacity, q);
    if length > tail then tail else 0
  }

  /** What the planner decides for a record of `length` bytes at stream position q when it believes
      c bytes were consumed. */
  ghost predicate PlannedAt(plan: WritePlan, capacity: u32, q: nat, length: nat)
    requires capacity > 0
  {
    var pad := PaddingAt(capacity, q, length);
    && plan.startCursor == Wrap(q)
    && plan.paddingLength == pad
    && plan.recordLength == length
    && plan.publishCursor == Wrap(q + pad + length)
    && (pad > 0 ==> Offset(capacity, q) + pad == capacity)
    && Offset(capacity, q + pad) + length <= capacity
  }

  lemma PaddingGeometry(capacity: u32, q: nat, length: nat)
    requires 0 < length <= capacity
    ensures var pad := PaddingAt(capacity, q, length);
            && (pad > 0 ==> Offset(capacity, q) + pad == capacity && Offset(capacity, q + pad) == 0)
            && Offset(capacity, q + pad) + length <= capacity
  {
    var pad := PaddingAt(capacity, q, length);
    if pad > 0 {
      OffsetAtLapEnd(capacity, q, pad);
    }
  }

  lemma SnapshotAtPosition(capacity: u32, c: nat, q: nat)
    requires Ordered(capacity, c, q)
    ensures RingSnapshot.New(capacity, Wrap(q), Wrap(c)) == Ok(RingSnapshot(capacity, Wrap(q), Wrap(c), q - c))
  {
    WrapDistance(c, q);
  }

  /** The planner accepts exactly the aligned records that fit the space it believes free, with the
      padding the position calls for; otherwise a well-formed length is backpressured. */
  lemma PlanAtPosition(capacity: u32, c: nat, q: nat, length: u32)
    requires Ordered(capacity, c, q) && Seamless(capacity, q)
    requires PREFIX_SIZE <= length <= capacity && length % ALIGNMENT == 0
    ensures var s := RingSnapshot(capacity, Wrap(q), Wrap(c), q - c);
            && s.Valid()
            && var plan := s.PlanWrite(length);
               if q + PaddingAt(capacity, q, length) + length <= c + capacity
               then plan.Ok? && PlannedAt(plan.value, capacity, q, length) && plan.value.signalNonEmpty == (q == c)
               else plan == Err(Backpressured)
  {
    SnapshotAtPosition(capacity, c, q);
    CellIsOffset(capacity, q);
    var pad := PaddingAt(capacity, q, length);
    PaddingGeometry(capacity, q, length);
    WrapOfSum(q, pad + length);
  }

  /** The record offset a plan reports is the cell that the write at its cursor really uses. */
  lemma PlannedOffsetIsWritten(capacity: u32, c: nat, q: nat, length: u32)
    requires Ordered(capacity, c, q) && Seamless(capacity, c + capacity)
    requires PREFIX_SIZE <= length <= capacity && length % ALIGNMENT == 0
    requires q + PaddingAt(capacity, q, length) + length <= c + capacity
    ensures var s := RingSnapshot(capacity, Wrap(q), Wrap(c), q - c);
            && s.Valid()
            && var plan := s.PlanWrite(length);
            && plan.Ok?
            && WriteRange(capacity, Wrap(q), Wrap(c), WrappingAdd(plan.value.startCursor, plan.value.paddingLength), length)
               == Ok(plan.value.recordOffset)
            && plan.value.paddingOffset == CellOf(capacity, q)
  {
    PlanAtPosition(capacity, c, q, length);
    PaddingGeometry(capacity, q, length);
    var pad := PaddingAt(capacity, q, length);
    WrapOfSum(q, pad);
    WriteAccepted(capacity, q, c, q + pad, length);
    CellIsOffset(capacity, q);
  }

  /** The inline limit a writer works with. */
  function Clamped(inline: u32): u32 {
    if inline < MAX_INLINE_MESSAGE_SIZE then inline else MAX_INLINE_MESSAGE_SIZE
  }

  predicate Sendable(f: Fragment, capacity: u32, maximumInline: u32) {
    && |f.payload| <= maximumInline
    && |f.payload| <= MAX_INLINE_MESSAGE_SIZE
    && !UnknownRequiredBits(f.flags)
    && RecordLength(|f.payload|) <= capacity
  }

  predicate AllSendable(fragments: seq<Fragment>, capacity: u32, maximumInline: u32) {
    forall i :: 0 <= i < |fragments| ==> Sendable(fragments[i], capacity, maximumInline)
  }

  /** Ring bytes a batch takes from position q on: its records and the wrap tails in front of them. */
  function BatchSpan(capacity: u32, q: nat, fragments: seq<Fragment>): nat
    requires capacity > 0
    decreases |fragments|
  {
    if fragments == [] then 0
    else
      var length := RecordLength(|fragments[0].payload|);
      var step := PaddingAt(capacity, q, length) + length;
      step + BatchSpan(capacity, q + step, fragments[1..])
  }

  /** A planned batch, record by record, at its stream positions. */
  ghost predicate Ready(prepared: seq<Prepared>, q: nat, capacity: u32, count: nat, limit: u32)
    requires capacity > 0
    decreases |prepared|
  {
    prepared != [] ==>
    && ReadyOne(prepared[0], q, capacity, count, limit)
    && Ready(prepared[1..], q + prepared[0].plan.paddingLength + prepared[0].plan.recordLength, capacity, count + 1, limit)
  }

  ghost predicate ReadyOne(e: Prepared, q: nat, capacity: u32, count: nat, limit: u32)
    requires capacity > 0
  {
    && PlannedAt(e.plan, capacity, q, e.header.recordLength)
    && RecordOk(OwnedRecord(Seen(e.header), e.payload))
    && e.header.payloadLength <= limit
    && e.header.sequence == Wrap(count)
    && e.plan.paddingLength % ALIGNMENT == 0
    && e.plan.paddingLength <= capacity
  }

  lemma PlanOneExactly(
      capacity: u32, c: nat, q: nat, f: Fragment, kind: RecordKind, id: MessageId, count: nat,
      maximumInline: u32, limit: u32)
    requires Ordered(capacity, c, q) && Seamless(capacity, q) && q % ALIGNMENT == 0
    requires kind != Padding && maximumInline <= limit
    ensures var r := PlanOne(capacity, Wrap(q), Wrap(c), f, kind, id, Wrap(count), maximumInline);
            var length := RecordLength(|f.payload|);
            && (r.Ok? <==> Sendable(f, capacity, maximumInline)
                           && q + PaddingAt(capacity, q, length) + length <= c + capacity)
            && (r.Err? && Sendable(f, capacity, maximumInline) ==> r.error == Backpressured)
            && (r.Ok? ==>
                && OwnedRecord(Seen(r.value.header), r.value.payload) == RecordFor(f, kind, id, count)
                && |f.payload| <= MAX_INLINE_MESSAGE_SIZE
                && r.value.plan.recordLength == r.value.header.recordLength == length
                && r.value.plan.paddingLength == PaddingAt(capacity, q, length)
                && r.value.plan.publishCursor == Wrap(q + PaddingAt(capacity, q, length) + length)
                && r.value.plan.signalNonEmpty == (q == c)
                && ReadyOne(r.value, q, capacity, count, limit))
  {
    if |f.payload| <= maximumInline {
      hide NewHeader, RingSnapshot.New, RingSnapshot.PlanWrite, PaddingAt, RecordLength, UnknownRequiredBits, Encodable;
      NewHeaderExactly(|f.payload|, id, Wrap(count), kind, f.flags);
      if |f.payload| <= MAX_INLINE_MESSAGE_SIZE && !UnknownRequiredBits(f.flags) {
        SnapshotAtPosition(capacity, c, q);
        PlanLengthExactly(capacity, c, q, |f.payload|);
      }
    }
  }

  /** A first fragment over the inline limit is refused as too large, whatever the ring holds. */
  lemma FirstTooLarge(
      capacity: u32, producer: u32, consumer: u32, fragments: seq<Fragment>, kind: RecordKind, id: MessageId,
      sequence: u32, maximumInline: u32)
    ensures fragments != [] && |fragments[0].payload| > maximumInline ==>
      PlanBatch(capacity, producer, consumer, fragments, kind, id, sequence, maximumInline) == Err(MessageTooLarge)
  {
  }

  /** Flag bits that a reader would have to know are refused by name. */
  lemma UnknownFlagsRefused(
      capacity: u32, producer: u32, consumer: u32, f: Fragment, kind: RecordKind, id: MessageId, sequence: u32,
      maximumInline: u32)
    requires kind != Padding && |f.payload| <= maximumInline <= MAX_INLINE_MESSAGE_SIZE
    ensures UnknownRequiredBits(f.flags) ==>
      PlanOne(capacity, producer, consumer, f, kind, id, sequence, maximumInline) == Err(UnknownRequiredFlag)
  {
  }

  lemma NewHeaderExactly(n: u32, id: MessageId, sequence: u32, kind: RecordKind, flags: u16)
    requires kind != Padding
    ensures var r := NewHeader(n, id, sequence, kind, flags);
            && (r.Ok? <==> n <= MAX_INLINE_MESSAGE_SIZE && !UnknownRequiredBits(flags))
            && (r.Ok? ==> r.value == Header(RecordLength(n), n, Some(id), sequence, kind, flags)
                          && forall payload: seq<u8> :: |payload| == n ==> RecordOk(OwnedRecord(Seen(r.value), payload)))
  {
  }

  lemma PlanLengthExactly(capacity: u32, c: nat, q: nat, n: nat)
    requires Ordered(capacity, c, q) && Seamless(capacity, q) && q % ALIGNMENT == 0
    requires n <= MAX_INLINE_MESSAGE_SIZE
    ensures var s := RingSnapshot(capacity, Wrap(q), Wrap(c), q - c);
            var length := RecordLength(n);
            && s.Valid()
            && var plan := s.PlanWrite(length);
               && (plan.Ok? <==> length <= capacity && q + PaddingAt(capacity, q, length) + length <= c + capacity)
               && (plan.Err? && length <= capacity ==> plan.error == Backpressured)
               && (plan.Ok? ==> PlannedAt(plan.value, capacity, q, length) && plan.value.paddingLength % ALIGNMENT == 0
                                && plan.value.paddingLength <= capacity
                                && plan.value.signalNonEmpty == (q == c))
  {
    SnapshotAtPosition(capacity, c, q);
    hide RingSnapshot.PlanWrite, PaddingAt, RecordLength, Wrap;
    RecordLengthAligned(n);
    var length := RecordLength(n);
    if length <= capacity {
      PlanAtPosition(capacity, c, q, length);
      PaddingAligned(capacity, q, length);
    } else {
      PlanTooLong(RingSnapshot(capacity, Wrap(q), Wrap(c), q - c), length);
    }
  }

  lemma PlanTooLong(s: RingSnapshot, length: u32)
    requires s.Valid() && length > s.capacity
    ensures s.PlanWrite(length).Err?
  {
  }

  lemma PaddingAligned(capacity: u32, q: nat, length: nat)
    requires ValidCapacity(capacity) && q % ALIGNMENT == 0
    ensures PaddingAt(capacity, q, length) % ALIGNMENT == 0
    ensures PaddingAt(capacity, q, length) <= capacity
  {
    AlignedTail(capacity, q);
  }

  lemma AlignedTail(capacity: u32, q: nat)
    requires ValidCapacity(capacity) && q % ALIGNMENT == 0
    ensures (capacity - Offset(capacity, q)) % ALIGNMENT == 0
  {
    var k, j := capacity / 8, q / capacity;
    assert q == j * capacity + Offset(capacity, q);
    assert j * capacity == 8 * (j * k);
    AlignedDifference(capacity, q, j * k, Offset(capacity, q));
  }

  lemma AlignedDifference(a: nat, q: nat, m: nat, r: nat)
    requires a % 8 == 0 && q % 8 == 0 && q == 8 * m + r
    ensures (a - r) % 8 == 0
  {
  }

  lemma AlignedStep(capacity: u32, q: nat, n: nat)
    requires ValidCapacity(capacity) && q % ALIGNMENT == 0
    ensures (q + PaddingAt(capacity, q, RecordLength(n)) + RecordLength(n)) % ALIGNMENT == 0
  {
    hide RecordLength, PaddingAt;
    var length := RecordLength(n);
    PaddingAligned(capacity, q, length);
    RecordLengthAligned(n);
    SumAligned(q, PaddingAt(capacity, q, length), length);
  }

  lemma RecordLengthAligned(n: nat)
    ensures RecordLength(n) % ALIGNMENT == 0
    ensures PREFIX_SIZE + n <= RecordLength(n) < PREFIX_SIZE + n + ALIGNMENT
  {
  }

  lemma SumAligned(a: nat, b: nat, c: nat)
    requires a % ALIGNMENT == 0 && b % ALIGNMENT == 0 && c % ALIGNMENT == 0
    ensures (a + b + c) % ALIGNMENT == 0
  {
    var i, j, k := a / ALIGNMENT, b / ALIGNMENT, c / ALIGNMENT;
    assert a + b + c == ALIGNMENT * (i + j + k);
  }

  /** A batch is planned exactly when every fragment is sendable and the span fits the space the
      writer believes free; a batch of sendable fragments can only fail with backpressure. */
  lemma {:induction false} PlanBatchAccepts(
      capacity: u32, c: nat, q: nat, fragments: seq<Fragment>, kind: RecordKind, id: MessageId, count: nat,
      maximumInline: u32)
    requires Ordered(capacity, c, q) && Seamless(capacity, c + capacity) && q % ALIGNMENT == 0
    requires kind != Padding
    ensures var r := PlanBatch(capacity, Wrap(q), Wrap(c), fragments, kind, id, Wrap(count), maximumInline);
            && (r.Ok? <==> AllSendable(fragments, capacity, maximumInline)
                           && q + BatchSpan(capacity, q, fragments) <= c + capacity)
            && (r.Err? && AllSendable(fragments, capacity, maximumInline) ==> r.error == Backpressured)
    decreases |fragments|
  {
    hide PlanOne, Sendable, ReadyOne, RecordFor, PaddingAt, RecordLength, WrappingAdd;
    if fragments != [] {
      var f, rest := fragments[0], fragments[1..];
      PlanOneExactly(capacity, c, q, f, kind, id, count, maximumInline, maximumInline);
      var first := PlanOne(capacity, Wrap(q), Wrap(c), f, kind, id, Wrap(count), maximumInline);
      AllSendableSplit(fragments, capacity, maximumInline);
      if first.Ok? {
        var length := RecordLength(|f.payload|);
        var next := q + PaddingAt(capacity, q, length) + length;
        AlignedStep(capacity, q, |f.payload|);
        WrapOfSum(count, 1);
        PlanBatchAccepts(capacity, c, next, rest, kind, id, count + 1, maximumInline);
      }
    }
  }

  lemma AllSendableSplit(fragments: seq<Fragment>, capacity: u32, maximumInline: u32)
    requires fragments != []
    ensures AllSendable(fragments, capacity, maximumInline)
       <==> Sendable(fragments[0], capacity, maximumInline) && AllSendable(fragments[1..], capacity, maximumInline)
  {
    assert fragments == [fragments[0]] + fragments[1..];
  }

  /** The plans of an accepted batch stand at their stream positions and carry its records. */
  lemma {:induction false} PlanBatchReady(
      capacity: u32, c: nat, q: nat, fragments: seq<Fragment>, kind: RecordKind, id: MessageId, count: nat,
      maximumInline: u32, limit: u32)
    requires Ordered(capacity, c, q) && Seamless(capacity, c + capacity) && q % ALIGNMENT == 0
    requires kind != Padding && maximumInline <= limit
    requires PlanBatch(capacity, Wrap(q), Wrap(c), fragments, kind, id, Wrap(count), maximumInline).Ok?
    ensures var prepared := PlanBatch(capacity, Wrap(q), Wrap(c), fragments, kind, id, Wrap(count), maximumInline).value;
            && |prepared| == |fragments|
            && Ready(prepared, q, capacity, count, limit)
            && Inline(fragments)
            && Records(ItemsOf(prepared)) == BatchRecords(fragments, kind, id, count)
            && Length(ItemsOf(prepared)) == BatchSpan(capacity, q, fragments)
    decreases |fragments|
  {
    hide PlanOne, Sendable, ReadyOne, RecordFor, PaddingAt, RecordLength, WrappingAdd, ItemsOfOne;
    if fragments != [] {
      var f, rest := fragments[0], fragments[1..];
      PlanOneExactly(capacity, c, q, f, kind, id, count, maximumInline, limit);
      var first := PlanOne(capacity, Wrap(q), Wrap(c), f, kind, id, Wrap(count), maximumInline).value;
      var length := RecordLength(|f.payload|);
      var next := q + PaddingAt(capacity, q, length) + length;
      AlignedStep(capacity, q, |f.payload|);
      WrapOfSum(count, 1);
      PlanBatchReady(capacity, c, next, rest, kind, id, count + 1, maximumInline, limit);
      var tail := PlanBatch(capacity, Wrap(next), Wrap(c), rest, kind, id, Wrap(count + 1), maximumInline).value;
      InlineSplit(fragments);
      BatchUnfold(first, tail);
      ItemsOfOneMeasure(first);
    }
  }

  lemma InlineSplit(fragments: seq<Fragment>)
    requires fragments != []
    ensures Inline(fragments) <==> |fragments[0].payload| <= MAX_INLINE_MESSAGE_SIZE && Inline(fragments[1..])
  {
    assert fragments == [fragments[0]] + fragments[1..];
  }

  lemma BatchUnfold(e: Prepared, tail: seq<Prepared>)
    ensures ItemsOf([e] + tail) == ItemsOfOne(e) + ItemsOf(tail)
    ensures Length(ItemsOf([e] + tail)) == Length(ItemsOfOne(e)) + Length(ItemsOf(tail))
    ensures Records(ItemsOf([e] + tail)) == Records(ItemsOfOne(e)) + Records(ItemsOf(tail))
  {
    assert ([e] + tail)[1..] == tail;
    LengthAppend(ItemsOfOne(e), ItemsOf(tail));
    RecordsAppend(ItemsOfOne(e), ItemsOf(tail));
  }

  lemma ItemsOfOneMeasure(e: Prepared)
    requires e.plan.recordLength == e.header.recordLength
    ensures Length(ItemsOfOne(e)) == e.plan.paddingLength + e.plan.recordLength
    ensures Records(ItemsOfOne(e)) == [OwnedRecord(Seen(e.header), e.payload)]
  {
    var rec := [Rec(OwnedRecord(Seen(e.header), e.payload))];
    assert rec[1..] == [];
    assert Length(rec) == e.plan.recordLength && Records(rec) == [OwnedRecord(Seen(e.header), e.payload)];
    if e.plan.paddingLength > 0 {
      var pad := [Pad(e.plan.paddingLength, e.header.sequence)];
      LengthAppend(pad, rec);
      RecordsAppend(pad, rec);
    }
  }

  /** A planned batch is placed on the stream, and its last plan publishes its end. */
  lemma {:induction false} ReadyIsPlaced(prepared: seq<Prepared>, q: nat, capacity: u32, count: nat, limit: u32)
    requires ValidCapacity(capacity) && Ready(prepared, q, capacity, count, limit)
    ensures Placed(ItemsOf(prepared), q, capacity, count, limit)
    ensures AllOk(ItemsOf(prepared))
    ensures EndCursor(prepared, Wrap(q)) == Wrap(q + Length(ItemsOf(prepared)))
    decreases |prepared|
  {
    hide ReadyOne, ItemsOfOne, Placed, Length, Offset, Wrap, ItemOk;
    EmptyIsPlaced(q, capacity, count, limit);
    if prepared != [] {
      var e, rest := prepared[0], prepared[1..];
      var next := q + e.plan.paddingLength + e.plan.recordLength;
      assert PlannedAt(e.plan, capacity, q, e.header.recordLength) by { ReadyGeometry(e, q, capacity, count, limit); }
      ReadyIsPlaced(rest, next, capacity, count + 1, limit);
      PlacedOne(e, q, capacity, count, limit);
      ItemsOfOneMeasure(e);
      PlacedAppend(ItemsOfOne(e), ItemsOf(rest), q, capacity, count, limit);
      LengthAppend(ItemsOfOne(e), ItemsOf(rest));
      PlacedOk(ItemsOf(prepared), q, capacity, count, limit);
    }
  }

  lemma EmptyIsPlaced(q: nat, capacity: u32, count: nat, limit: u32)
    requires capacity > 0
    ensures Placed([], q, capacity, count, limit) && Length([]) == 0
  {
  }

  /** What the writer needs to know before it writes one planned record behind staged items. */
  lemma ReadyWrite(e: Prepared, q: nat, capacity: u32, count: nat, limit: u32, p: nat, staged: seq<Item>)
    requires capacity > 0 && ReadyOne(e, q, capacity, count, limit) && q == p + Length(staged)
    ensures var pads := PadsOf(e.plan.paddingLength, e.header.sequence);
            var rec := Rec(OwnedRecord(Seen(e.header), e.payload));
            && p + Length(staged + pads) == q + e.plan.paddingLength
            && WrappingAdd(e.plan.startCursor, e.plan.paddingLength) == Wrap(q + e.plan.paddingLength)
            && ItemOk(rec) && ItemLength(rec) == e.plan.recordLength
            && Offset(capacity, q + e.plan.paddingLength) + ItemLength(rec) <= capacity
            && staged + pads + [rec] == staged + ItemsOfOne(e)
            && e.WellFormed() && RecordBytes(e.header, e.payload) == ItemBytes(rec)
  {
    var pads := PadsOf(e.plan.paddingLength, e.header.sequence);
    if e.plan.paddingLength > 0 {
      assert pads[1..] == [];
    }
    SeenBytes(e.header, e.payload);
    LengthAppend(staged, pads);
    WrapOfSum(q, e.plan.paddingLength);
  }

  lemma ReadyGeometry(e: Prepared, q: nat, capacity: u32, count: nat, limit: u32)
    requires capacity > 0 && ReadyOne(e, q, capacity, count, limit)
    ensures PlannedAt(e.plan, capacity, q, e.header.recordLength)
  {
  }

  lemma PlacedOne(e: Prepared, q: nat, capacity: u32, count: nat, limit: u32)
    requires ValidCapacity(capacity) && ReadyOne(e, q, capacity, count, limit)
    ensures Placed(ItemsOfOne(e), q, capacity, count, limit)
  {
    var rec := Rec(OwnedRecord(Seen(e.header), e.payload));
    assert Placed([rec], q + e.plan.paddingLength, capacity, count, limit);
    if e.plan.paddingLength > 0 {
      assert ItemsOfOne(e)[1..] == [rec];
    }
  }
}
