/** Record construction and publication (crates/data-plane/nwipc-ring-writer). */
module RingWriter {
  import opened Wrappers
  import opened Words
  import opened Record
  import opened RingCore
  import opened Geometry
  import opened Layout
  import opened RingMemory
  import opened BatchPlan

  datatype SendOutcome = SendOutcome(bufferedAmount: u32, signalNonEmpty: bool)

  /** Message identities wrap around but skip zero. */
  function NextMessageId(id: u32): MessageId {
    var next := WrappingAdd(id, 1);
    if next == 0 then 1 else next
  }

  /** The identities go round through every u32 but zero. */
  lemma IdentityAdvances(id: MessageId)
    ensures NextMessageId(id) == 1 + id % (TWO32 - 1) != id
  {
  }

  class RingWriter {
    const ring: SharedRing
    const maximumInline: u32
    var nextMessageId: MessageId
    var nextSequence: u32

    /** Records published so far. */
    ghost function Count(): nat
      reads this, ring
    {
      ring.taken + |Records(ring.items)|
    }

    ghost predicate Valid()
      reads this, ring, ring.bytes
    {
      && ring.Valid()
      && maximumInline <= ring.limit && maximumInline <= MAX_INLINE_MESSAGE_SIZE
      && nextSequence == Wrap(Count())
    }

    /** Takes any ring. The writer counts from zero, so it continues the stream of the ring exactly when a
        multiple of 2^32 records stands in it already, as on a new ring. */
    constructor (ring: SharedRing, maximumInline: u32)
      ensures this.ring == ring && this.maximumInline == Clamped(maximumInline)
      ensures nextMessageId == 1 && nextSequence == 0
      ensures Valid() <==> ring.Valid() && Clamped(maximumInline) <= ring.limit && Wrap(Count()) == 0
    {
      this.ring := ring;
      this.maximumInline := Clamped(maximumInline);
      nextMessageId := 1;
      nextSequence := 0;
    }

    /** Committed bytes that have not been consumed. */
    method BufferedAmount() returns (r: Result<u32>)
      requires Valid()
      ensures r == Ok(ring.published - ring.consumed)
    {
      var snapshot := Snapshot();
      r := Ok(snapshot.value.used);
    }

    method Snapshot() returns (r: Result<RingSnapshot>)
      requires Valid()
      ensures r == Ok(RingSnapshot(ring.capacity, ring.producer, ring.consumer, ring.published - ring.consumed))
      ensures r.value.Valid()
    {
      SnapshotAtPosition(ring.capacity, ring.consumed, ring.published);
      r := RingSnapshot.New(ring.capacity, ring.producer, ring.consumer);
    }

    /** Writes the wrap tail of a plan behind the staged items. */
    method WritePadding(plan: WritePlan, sequence: u32, ghost staged: seq<Item>, ghost q: nat) returns (error: Option<ErrorCode>)
      requires Valid() && ring.Seamless()
      requires Staged(ring.bytes[..], ring.consumed, ring.items, staged)
      requires q == ring.published + Length(staged) && plan.startCursor == Wrap(q)
      requires q + plan.paddingLength <= ring.consumed + ring.capacity
      requires plan.paddingLength > 0 ==> Offset(ring.capacity, q) + plan.paddingLength == ring.capacity
      requires plan.paddingLength % ALIGNMENT == 0 && plan.paddingLength <= ring.capacity
      modifies ring.bytes
      ensures error == None && Valid()
      ensures Staged(ring.bytes[..], ring.consumed, ring.items, staged + PadsOf(plan.paddingLength, sequence))
    {
      hide Committed, Staged, Splice, WriteRange, Offset, ItemBytes, Records, Wrap, Length;
      if plan.paddingLength == 0 {
        assert staged + [] == staged;
        return None;
      }
      ghost var pad := Pad(plan.paddingLength, sequence);
      var padding := PaddingBytes(plan, sequence);
      NextWrite(ring.bytes[..], ring.capacity, ring.consumed, ring.published, ring.items, ring.taken, ring.limit, staged, pad, q);
      error := ring.Write(plan.startCursor, padding);
    }

    /** The bytes of a wrap tail: a padding record when a prefix fits, zeros otherwise. */
    method PaddingBytes(plan: WritePlan, sequence: u32) returns (padding: seq<u8>)
      requires 0 < plan.paddingLength <= MAX_RING_CAPACITY && plan.paddingLength % ALIGNMENT == 0
      ensures padding == ItemBytes(Pad(plan.paddingLength, sequence))
    {
      var buffer := new u8[plan.paddingLength](_ => 0);
      if plan.HasExplicitPadding() {
        var header := PaddingHeader(plan.paddingLength, sequence);
        var encoded := EncodeUnpublished(header.value, buffer);
        assert encoded == None;
      }
      padding := buffer[..];
    }

    /** Writes one planned record, with its wrap tail, behind the staged items. */
    method WriteRecord(e: Prepared, encoded: seq<u8>, ghost staged: seq<Item>, ghost q: nat, ghost count: nat)
        returns (error: Option<ErrorCode>)
      requires Valid() && ring.Seamless()
      requires Staged(ring.bytes[..], ring.consumed, ring.items, staged)
      requires q == ring.published + Length(staged)
      requires ReadyOne(e, q, ring.capacity, count, ring.limit)
      requires encoded == RecordBytes(e.header, e.payload)
      requires q + e.plan.paddingLength + e.plan.recordLength <= ring.consumed + ring.capacity
      modifies ring.bytes
      ensures error == None && Valid()
      ensures Staged(ring.bytes[..], ring.consumed, ring.items, staged + ItemsOfOne(e))
    {
      hide Committed, Staged, Splice, WriteRange, Offset, RecordBytes, Records, Wrap, Length, WrappingAdd, RecordOk, PlannedAt;
      ReadyGeometry(e, q, ring.capacity, count, ring.limit);
      error := WritePadding(e.plan, e.header.sequence, staged, q);
      ghost var pads := PadsOf(e.plan.paddingLength, e.header.sequence);
      ghost var rec := Rec(OwnedRecord(Seen(e.header), e.payload));
      ReadyWrite(e, q, ring.capacity, count, ring.limit, ring.published, staged);
      NextWrite(ring.bytes[..], ring.capacity, ring.consumed, ring.published, ring.items, ring.taken, ring.limit,
                staged + pads, rec, q + e.plan.paddingLength);
      error := ring.Write(WrappingAdd(e.plan.startCursor, e.plan.paddingLength), encoded);
    }

    /** First loop of a batch: plan and encode every fragment against one snapshot. */
    method PlanFragments(kind: RecordKind, fragments: seq<Fragment>, id: MessageId, initial: RingSnapshot)
        returns (r: Result<seq<Prepared>>, encoded: seq<seq<u8>>, cursor: u32, sequence: u32)
      ensures r == PlanBatch(initial.capacity, initial.producer, initial.consumer, fragments, kind, id, nextSequence, maximumInline)
      ensures r.Ok? ==>
        && |encoded| == |r.value| == |fragments|
        && cursor == EndCursor(r.value, initial.producer)
        && sequence == Wrap(nextSequence + |fragments|)
      ensures r.Ok? ==> forall i :: 0 <= i < |encoded| ==>
        r.value[i].WellFormed() && encoded[i] == RecordBytes(r.value[i].header, r.value[i].payload)
    {
      hide PlanOne, RecordBytes, RingSnapshot.New, RingSnapshot.PlanWrite, NewHeader;
      var prepared: seq<Prepared> := [];
      encoded, cursor, sequence := [], initial.producer, nextSequence;
      assert fragments[0..] == fragments;
      ContinueNothing(PlanBatch(initial.capacity, cursor, initial.consumer, fragments, kind, id, sequence, maximumInline));
      for i := 0 to |fragments|
        invariant |prepared| == |encoded| == i
        invariant sequence == Wrap(nextSequence + i)
        invariant cursor == EndCursor(prepared, initial.producer)
        invariant forall j :: 0 <= j < i ==>
          prepared[j].WellFormed() && encoded[j] == RecordBytes(prepared[j].header, prepared[j].payload)
        invariant PlanBatch(initial.capacity, initial.producer, initial.consumer, fragments, kind, id, nextSequence, maximumInline)
               == Continue(prepared, PlanBatch(initial.capacity, cursor, initial.consumer, fragments[i..], kind, id, sequence, maximumInline))
      {
        var one := PlanOne(initial.capacity, cursor, initial.consumer, fragments[i], kind, id, sequence, maximumInline);
        assert fragments[i..][1..] == fragments[i + 1..];
        if one.Err? {
          return Err(one.error), encoded, cursor, sequence;
        }
        PlanOneShape(initial.capacity, cursor, initial.consumer, fragments[i], kind, id, sequence, maximumInline);
        var bytes := EncodeRecord(one.value.header, one.value.payload);
        ghost var rest := PlanBatch(initial.capacity, one.value.plan.publishCursor, initial.consumer, fragments[i + 1..],
                                    kind, id, WrappingAdd(sequence, 1), maximumInline);
        ContinueStep(prepared, one.value, rest);
        WrapOfSum(nextSequence + i, 1);
        EndCursorAppend(prepared, one.value, initial.producer);
        prepared, encoded := prepared + [one.value], encoded + [bytes];
        cursor := one.value.plan.publishCursor;
        sequence := WrappingAdd(sequence, 1);
      }
      assert prepared + [] == prepared;
      r := Ok(prepared);
    }

    /** Second loop of a batch: no write can fail, and the committed bytes stay as they are. */
    method WriteBatch(prepared: seq<Prepared>, encoded: seq<seq<u8>>)
      requires Valid() && ring.Seamless()
      requires Ready(prepared, ring.published, ring.capacity, Count(), ring.limit)
      requires ring.published + Length(ItemsOf(prepared)) <= ring.consumed + ring.capacity
      requires |encoded| == |prepared|
      requires forall i :: 0 <= i < |encoded| ==>
        prepared[i].WellFormed() && encoded[i] == RecordBytes(prepared[i].header, prepared[i].payload)
      modifies ring.bytes
      ensures Valid()
      ensures Staged(ring.bytes[..], ring.consumed, ring.items, ItemsOf(prepared))
    {
      hide Committed, Staged, RecordBytes, Offset, ReadyOne, ItemsOfOne, Wrap, Length, Records, Ordered, Geometry.Seamless;
      ghost var q := ring.published;
      ghost var staged: seq<Item> := [];
      NothingStaged(ring.bytes[..], ring.capacity, ring.consumed, ring.published, ring.items, ring.taken, ring.limit);
      assert prepared[0..] == prepared && [] + ItemsOf(prepared) == ItemsOf(prepared);
      for i := 0 to |prepared|
        invariant Valid() && ring.Seamless()
        invariant q == ring.published + Length(staged)
        invariant Ready(prepared[i..], q, ring.capacity, Count() + i, ring.limit)
        invariant staged + ItemsOf(prepared[i..]) == ItemsOf(prepared)
        invariant Staged(ring.bytes[..], ring.consumed, ring.items, staged)
      {
        var e := prepared[i];
        BatchStep(prepared, i, staged, q, ring.capacity, Count() + i, ring.limit);
        var error := WriteRecord(e, encoded[i], staged, q, Count() + i);
        staged := staged + ItemsOfOne(e);
        q := q + e.plan.paddingLength + e.plan.recordLength;
      }
      assert staged + [] == staged;
    }

    /** Exactly the batches `SendFragments` publishes. */
    ghost predicate Accepts(kind: RecordKind, fragments: seq<Fragment>)
      requires Valid()
      reads this, ring, ring.bytes
    {
      Acceptable(ring.capacity, ring.published, ring.consumed, maximumInline, kind, fragments)
    }

    /** Writes all fragments of one message and publishes them with one cursor move.

        Either nothing changes, or the whole batch joins the committed records at once. */
    method SendFragments(kind: RecordKind, fragments: seq<Fragment>) returns (r: Result<SendOutcome>)
      requires Valid() && ring.Seamless()
      modifies this`nextMessageId, this`nextSequence, ring`producer, ring`published, ring`items, ring.bytes
      ensures Valid()
      ensures r.Ok? <==> old(Accepts(kind, fragments))
      ensures r.Err? ==> unchanged(this) && unchanged(ring) && ring.bytes[..] == old(ring.bytes[..])
      ensures r.Err? && kind != Padding && fragments != [] && AllSendable(fragments, ring.capacity, maximumInline)
          ==> r.error == Backpressured
      ensures kind == Padding || fragments == [] ==> r == Err(ProtocolViolation)
      ensures kind != Padding && fragments != [] && |fragments[0].payload| > maximumInline ==> r == Err(MessageTooLarge)
      ensures r.Ok? ==>
        && Inline(fragments)
        && Records(ring.items) == old(Records(ring.items)) + BatchRecords(fragments, kind, old(nextMessageId), old(Count()))
        && ring.published == old(ring.published + BatchSpan(ring.capacity, ring.published, fragments))
        && nextMessageId == NextMessageId(old(nextMessageId)) == 1 + old(nextMessageId) % (TWO32 - 1) != old(nextMessageId)
        && r.value == SendOutcome(ring.published - ring.consumed, old(ring.published) == ring.consumed)
      ensures r.Ok? ==>
        && Joined(ring.capacity, ring.limit, old(ring.View()), ring.View(), kind, fragments, old(nextMessageId), old(Count()))
        && nextSequence == Wrap(old(Count()) + |fragments|)
    {
      hide Committed, Staged, Ready, Placed, Length, Records, BatchRecords, BatchSpan, PlanBatch, ItemsOf, EndCursor;
      hide Wrap, WrappingSub, AllSendable, Inline, AllOk, NextMessageId, Geometry.Seamless;
      if kind == Padding || fragments == [] {
        return Err(ProtocolViolation);
      }
      ghost var c, count := ring.consumed, Count();
      var plans, encoded, cursor, sequence, initial := PlanMessage(kind, fragments);
      if plans.Err? {
        return Err(plans.error);
      }
      WriteBatch(plans.value, encoded);
      BatchCount(fragments, kind, nextMessageId, count);
      CommitBatch(cursor, sequence, ItemsOf(plans.value));
      WrapDistance(c, ring.published);
      r := Ok(SendOutcome(WrappingSub(cursor, initial.consumer), initial.IsEmpty()));
    }

    /** Snapshot, validation and planning of a message; nothing is written. */
    method PlanMessage(kind: RecordKind, fragments: seq<Fragment>)
        returns (r: Result<seq<Prepared>>, encoded: seq<seq<u8>>, cursor: u32, sequence: u32, initial: RingSnapshot)
      requires Valid() && ring.Seamless() && kind != Padding && fragments != []
      ensures r.Ok? <==> Accepts(kind, fragments)
      ensures r.Err? && AllSendable(fragments, ring.capacity, maximumInline) ==> r.error == Backpressured
      ensures |fragments[0].payload| > maximumInline ==> r == Err(MessageTooLarge)
      ensures initial.used == ring.published - ring.consumed && initial.consumer == ring.consumer
      ensures r.Ok? ==> |encoded| == |r.value| && forall i :: 0 <= i < |encoded| ==>
        r.value[i].WellFormed() && encoded[i] == RecordBytes(r.value[i].header, r.value[i].payload)
      ensures r.Ok? ==>
        var staged := ItemsOf(r.value);
        && Inline(fragments)
        && Ready(r.value, ring.published, ring.capacity, Count(), ring.limit)
        && Placed(staged, ring.published, ring.capacity, Count(), ring.limit) && AllOk(staged)
        && Records(staged) == BatchRecords(fragments, kind, nextMessageId, Count())
        && Length(staged) == BatchSpan(ring.capacity, ring.published, fragments)
        && ring.published + Length(staged) <= ring.consumed + ring.capacity <= ring.published + ring.capacity
        && cursor == Wrap(ring.published + Length(staged))
        && sequence == Wrap(Count() + |fragments|)
    {
      hide Committed, Ready, Placed, Length, Records, BatchRecords, BatchSpan, PlanBatch, ItemsOf, EndCursor;
      hide Wrap, WrappingSub, AllSendable, Inline, AllOk, RecordBytes;
      CommittedFacts(ring.bytes[..], ring.capacity, ring.consumed, ring.published, ring.items, ring.taken, ring.limit);
      var id := nextMessageId;
      var snapshot := Snapshot();
      initial := snapshot.value;
      ghost var c, p, count := ring.consumed, ring.published, Count();
      SeamlessBelow(ring.capacity, c + ring.capacity, p + ring.capacity);
      PlanBatchAccepts(ring.capacity, c, p, fragments, kind, id, count, maximumInline);
      FirstTooLarge(ring.capacity, Wrap(p), Wrap(c), fragments, kind, id, Wrap(count), maximumInline);
      r, encoded, cursor, sequence := PlanFragments(kind, fragments, id, initial);
      if r.Ok? {
        PlanBatchReady(ring.capacity, c, p, fragments, kind, id, count, maximumInline, ring.limit);
        ReadyIsPlaced(r.value, p, ring.capacity, count, ring.limit);
        WrapOfWrap(count, |fragments|);
      }
    }

    /** Moves the producer cursor over the staged items and advances the writer's counters. */
    method CommitBatch(cursor: u32, sequence: u32, ghost staged: seq<Item>)
      requires Valid() && Staged(ring.bytes[..], ring.consumed, ring.items, staged)
      requires Placed(staged, ring.published, ring.capacity, Count(), ring.limit) && AllOk(staged)
      requires cursor == Wrap(ring.published + Length(staged))
      requires sequence == Wrap(Count() + |Records(staged)|)
      requires ring.published + Length(staged) <= ring.consumed + ring.capacity
      modifies this`nextMessageId, this`nextSequence, ring`producer, ring`published, ring`items
      ensures Valid()
      ensures ring.items == old(ring.items) + staged
      ensures Records(ring.items) == old(Records(ring.items)) + Records(staged)
      ensures ring.published == old(ring.published) + Length(staged)
      ensures nextMessageId == NextMessageId(old(nextMessageId)) == 1 + old(nextMessageId) % (TWO32 - 1) != old(nextMessageId)
    {
      hide Committed, Staged, Length, Records, Wrap, PublishCheck, Placed, AllOk, NextMessageId;
      LengthAligned(staged);
      PublishStaged(ring.bytes[..], ring.capacity, ring.consumed, ring.published, ring.items, ring.taken, ring.limit, staged);
      RecordsAppend(ring.items, staged);
      var error := ring.Publish(cursor);
      ring.published := ring.published + Length(staged);
      ring.items := ring.items + staged;
      nextSequence := sequence;
      IdentityAdvances(nextMessageId);
      nextMessageId := NextMessageId(nextMessageId);
    }

    /** Writes one complete record without publishing it; dropping the result leaves only the ring's
        free bytes different. */
    method Prepare(kind: RecordKind, flags: u16, payload: seq<u8>) returns (r: Result<Prepared>)
      requires Valid() && ring.Seamless()
      modifies ring.bytes
      ensures Valid()
      ensures r.Ok? <==> old(Accepts(kind, [Fragment(payload, flags)]))
      ensures r.Err? ==> ring.bytes[..] == old(ring.bytes[..])
      ensures r.Err? && kind != Padding && Sendable(Fragment(payload, flags), ring.capacity, maximumInline)
          ==> r.error == Backpressured
      ensures |payload| > maximumInline ==> r == Err(MessageTooLarge)
      ensures |payload| <= maximumInline && kind == Padding ==> r == Err(ProtocolViolation)
      ensures |payload| <= maximumInline && kind != Padding && UnknownRequiredBits(flags) ==> r == Err(UnknownRequiredFlag)
      ensures r.Ok? ==>
        && Pending(r.value) && |payload| <= MAX_INLINE_MESSAGE_SIZE
        && OwnedRecord(Seen(r.value.header), r.value.payload) == RecordFor(Fragment(payload, flags), kind, nextMessageId, Count())
        && r.value.plan.signalNonEmpty == (ring.published == ring.consumed)
        && (r.value.plan.paddingLength + r.value.plan.recordLength
            == BatchSpan(ring.capacity, ring.published, [Fragment(payload, flags)]))
    {
      hide Committed, Staged, Placed, Length, Records, BatchSpan, PlanOne, Sendable, RecordFor, PaddingAt, RecordLength;
      hide Wrap, WrappingSub, AllSendable, AllOk, ReadyOne, ItemsOfOne, RecordBytes;
      ghost var f := Fragment(payload, flags);
      ghost var c, p, count := ring.consumed, ring.published, Count();
      SingleSpan(ring.capacity, p, f, maximumInline);
      if |payload| > maximumInline {
        TooLong(f, ring.capacity, maximumInline);
        return Err(MessageTooLarge);
      }
      if kind == Padding {
        return Err(ProtocolViolation);
      }
      CommittedFacts(ring.bytes[..], ring.capacity, c, p, ring.items, ring.taken, ring.limit);
      var id := nextMessageId;
      var snapshot := Snapshot();
      SeamlessBelow(ring.capacity, p, p + ring.capacity);
      PlanOneExactly(ring.capacity, c, p, f, kind, id, count, maximumInline, ring.limit);
      UnknownFlagsRefused(ring.capacity, Wrap(p), Wrap(c), f, kind, id, Wrap(count), maximumInline);
      var one := PlanOne(snapshot.value.capacity, snapshot.value.producer, snapshot.value.consumer,
                         Fragment(payload, flags), kind, id, nextSequence, maximumInline);
      if one.Err? {
        return Err(one.error);
      }
      var e := one.value;
      PlanOneShape(ring.capacity, Wrap(p), Wrap(c), f, kind, id, Wrap(count), maximumInline);
      var encoded := EncodeRecord(e.header, e.payload);
      NothingStaged(ring.bytes[..], ring.capacity, c, p, ring.items, ring.taken, ring.limit);
      var error := WriteRecord(e, encoded, [], p, count);
      assert [] + ItemsOfOne(e) == ItemsOfOne(e);
      r := Ok(e);
    }

    /** A prepared record stands fully written behind the committed ones. */
    ghost predicate Pending(e: Prepared)
      reads this, ring, ring.bytes
    {
      && ring.WellFormed()
      && ReadyOne(e, ring.published, ring.capacity, Count(), ring.limit)
      && ring.published + e.plan.paddingLength + e.plan.recordLength <= ring.consumed + ring.capacity
      && Staged(ring.bytes[..], ring.consumed, ring.items, ItemsOfOne(e))
    }

    /** Publishes a prepared record. */
    method Commit(e: Prepared) returns (r: Result<SendOutcome>)
      requires Valid() && Pending(e)
      modifies this`nextMessageId, this`nextSequence, ring`producer, ring`published, ring`items
      ensures Valid()
      ensures ring.items == old(ring.items) + ItemsOfOne(e)
      ensures Records(ring.items) == old(Records(ring.items)) + [OwnedRecord(Seen(e.header), e.payload)]
      ensures ring.published == old(ring.published) + e.plan.paddingLength + e.plan.recordLength
      ensures nextMessageId == NextMessageId(old(nextMessageId)) == 1 + old(nextMessageId) % (TWO32 - 1) != old(nextMessageId)
      ensures r == Ok(SendOutcome(ring.published - ring.consumed, e.plan.signalNonEmpty))
    {
      hide Committed, Staged, Placed, Length, Records, AllOk, Wrap, WrappingSub, ItemsOfOne, NextMessageId, Offset;
      ghost var p, count := ring.published, Count();
      CommittedFacts(ring.bytes[..], ring.capacity, ring.consumed, p, ring.items, ring.taken, ring.limit);
      ItemsOfOneMeasure(e);
      PlacedOne(e, p, ring.capacity, count, ring.limit);
      PlacedOk(ItemsOfOne(e), p, ring.capacity, count, ring.limit);
      WrapOfSum(count, 1);
      CommitBatch(e.plan.publishCursor, WrappingAdd(nextSequence, 1), ItemsOfOne(e));
      WrapDistance(ring.consumed, ring.published);
      r := Ok(SendOutcome(WrappingSub(e.plan.publishCursor, ring.consumer), e.plan.signalNonEmpty));
    }

    /** Prepares and immediately publishes one record. */
    method Send(kind: RecordKind, flags: u16, payload: seq<u8>) returns (r: Result<SendOutcome>)
      requires Valid() && ring.Seamless()
      modifies this`nextMessageId, this`nextSequence, ring`producer, ring`published, ring`items, ring.bytes
      ensures Valid()
      ensures r.Ok? <==> old(Accepts(kind, [Fragment(payload, flags)]))
      ensures r.Err? ==> unchanged(this) && unchanged(ring) && ring.bytes[..] == old(ring.bytes[..])
      ensures r.Ok? ==>
        && |payload| <= MAX_INLINE_MESSAGE_SIZE
        && Records(ring.items) == old(Records(ring.items)) + [RecordFor(Fragment(payload, flags), kind, old(nextMessageId), old(Count()))]
        && ring.published == old(ring.published + BatchSpan(ring.capacity, ring.published, [Fragment(payload, flags)]))
        && nextMessageId == NextMessageId(old(nextMessageId)) == 1 + old(nextMessageId) % (TWO32 - 1) != old(nextMessageId)
        && r.value == SendOutcome(ring.published - ring.consumed, old(ring.published) == ring.consumed)
      ensures r.Ok? ==>
        && Joined(ring.capacity, ring.limit, old(ring.View()), ring.View(), kind, [Fragment(payload, flags)],
                  old(nextMessageId), old(Count()))
        && nextSequence == Wrap(old(Count()) + 1)
    {
      hide Committed, BatchSpan, Records, AllSendable, Sendable, BatchRecords, RecordFor, NextMessageId, Wrap;
      var pending := Prepare(kind, flags, payload);
      if pending.Err? {
        return Err(pending.error);
      }
      SingleRecord(Fragment(payload, flags), kind, nextMessageId, Count());
      r := Commit(pending.value);
    }
  }

  /** When a batch is accepted. */
  predicate Acceptable(
      capacity: u32, published: nat, consumed: nat, maximumInline: u32, kind: RecordKind, fragments: seq<Fragment>)
    requires capacity > 0
  {
    && kind != Padding && fragments != []
    && AllSendable(fragments, capacity, maximumInline)
    && published + BatchSpan(capacity, published, fragments) <= consumed + capacity
  }

  /** A batch joined the ring at once: the memory holds its records behind everything committed before,
      and the producer cursor stands behind them. */
  ghost predicate Joined(
      capacity: u32, limit: u32, before: RingView, after: RingView, kind: RecordKind, fragments: seq<Fragment>,
      id: MessageId, count: nat)
    requires capacity > 0
  {
    && Inline(fragments) && before.items <= after.items
    && Records(after.items) == Records(before.items) + BatchRecords(fragments, kind, id, count)
    && after.published == before.published + BatchSpan(capacity, before.published, fragments)
    && after.producer == Wrap(after.published) && after.consumer == before.consumer
    && after.consumed == before.consumed && after.taken == before.taken
    && Committed(after.bytes, capacity, after.consumed, after.published, after.items, after.taken, limit)
  }

  lemma BatchCount(fragments: seq<Fragment>, kind: RecordKind, id: MessageId, count: nat)
    requires Inline(fragments)
    ensures |BatchRecords(fragments, kind, id, count)| == |fragments|
  {
  }

  lemma TooLong(f: Fragment, capacity: u32, maximumInline: u32)
    requires |f.payload| > maximumInline
    ensures !Sendable(f, capacity, maximumInline)
  {
  }

  lemma SingleSpan(capacity: u32, q: nat, f: Fragment, maximumInline: u32)
    requires capacity > 0
    ensures AllSendable([f], capacity, maximumInline) <==> Sendable(f, capacity, maximumInline)
    ensures var length := RecordLength(|f.payload|);
            BatchSpan(capacity, q, [f]) == PaddingAt(capacity, q, length) + length
  {
    assert [f][0] == f && [f][1..] == [];
  }

  lemma {:induction false} LengthAligned(items: seq<Item>)
    requires AllOk(items)
    ensures Length(items) % ALIGNMENT == 0
  {
    hide ItemOk, ItemLength;
    if items != [] {
      ItemAligned(items[0]);
      LengthAligned(items[1..]);
      SumAligned(ItemLength(items[0]), Length(items[1..]), 0);
    }
  }

  lemma ItemAligned(it: Item)
    requires ItemOk(it)
    ensures ItemLength(it) % ALIGNMENT == 0
  {
  }

  /** What one turn of the writing loop knows about the record it writes. */
  lemma BatchStep(
      prepared: seq<Prepared>, i: nat, staged: seq<Item>, q: nat, capacity: u32, count: nat, limit: u32)
    requires capacity > 0 && i < |prepared|
    requires Ready(prepared[i..], q, capacity, count, limit)
    requires staged + ItemsOf(prepared[i..]) == ItemsOf(prepared)
    ensures var e := prepared[i];
            && ReadyOne(e, q, capacity, count, limit)
            && Ready(prepared[i + 1..], q + e.plan.paddingLength + e.plan.recordLength, capacity, count + 1, limit)
            && staged + ItemsOfOne(e) + ItemsOf(prepared[i + 1..]) == ItemsOf(prepared)
            && Length(staged + ItemsOfOne(e)) == Length(staged) + e.plan.paddingLength + e.plan.recordLength
            && Length(staged) + e.plan.paddingLength + e.plan.recordLength <= Length(ItemsOf(prepared))
  {
    hide ItemsOfOne, Offset, ReadyOne, Length;
    var e := prepared[i];
    assert prepared[i..][1..] == prepared[i + 1..];
    ReadyGeometry(e, q, capacity, count, limit);
    ConcatAssociates(staged, ItemsOfOne(e), ItemsOf(prepared[i + 1..]));
    ItemsOfOneMeasure(e);
    LengthAppend(staged, ItemsOfOne(e));
    LengthAppend(staged + ItemsOfOne(e), ItemsOf(prepared[i + 1..]));
  }

  /** Prefixing the plans made so far to the outcome of planning the rest. */
  function Continue(prepared: seq<Prepared>, rest: Result<seq<Prepared>>): Result<seq<Prepared>> {
    match rest
    case Err(e) => Err(e)
    case Ok(more) => Ok(prepared + more)
  }

  lemma ContinueNothing(rest: Result<seq<Prepared>>)
    ensures Continue([], rest) == rest
  {
    if rest.Ok? {
      assert [] + rest.value == rest.value;
    }
  }

  lemma ContinueStep(prepared: seq<Prepared>, e: Prepared, rest: Result<seq<Prepared>>)
    ensures Continue(prepared, Continue([e], rest)) == Continue(prepared + [e], rest)
  {
    if rest.Ok? {
      ConcatAssociates(prepared, [e], rest.value);
    }
  }

  lemma {:induction false} EndCursorAppend(prepared: seq<Prepared>, e: Prepared, producer: u32)
    ensures EndCursor(prepared + [e], producer) == e.plan.publishCursor
    decreases |prepared|
  {
    if prepared != [] {
      assert (prepared + [e])[1..] == prepared[1..] + [e];
      EndCursorAppend(prepared[1..], e, prepared[0].plan.publishCursor);
    }
  }

  lemma PlanOneShape(
      capacity: u32, producer: u32, consumer: u32, f: Fragment, kind: RecordKind, id: MessageId, sequence: u32,
      maximumInline: u32)
    requires PlanOne(capacity, producer, consumer, f, kind, id, sequence, maximumInline).Ok?
    ensures var e := PlanOne(capacity, producer, consumer, f, kind, id, sequence, maximumInline).value;
            e.WellFormed() && |e.payload| == e.header.payloadLength
  {
    hide RingSnapshot.New, RingSnapshot.PlanWrite;
  }
}
