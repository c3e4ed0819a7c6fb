/** How much ring space a message needs, and when an empty ring always has it. */
module Progress {
  import opened Words
  import opened Record
  import opened RingCore
  import opened Geometry
  import opened BatchPlan
  import opened Fragmentation

  /** How many wrap tails a batch planned at position q consumes. */
  function PadCount(capacity: u32, q: nat, fragments: seq<Fragment>): nat
    requires capacity > 0
    decreases |fragments|
  {
    if fragments == [] then 0
    else
      var length := RecordLength(|fragments[0].payload|);
      var pad := PaddingAt(capacity, q, length);
      (if pad > 0 then 1 else 0) + PadCount(capacity, q + pad + length, fragments[1..])
  }

  /** A batch that fits what is left of the lap needs no padding. */
  lemma {:induction false} NoWrap(capacity: u32, q: nat, fragments: seq<Fragment>)
    requires ValidCapacity(capacity)
    requires Offset(capacity, q) + RecordBytesOf(fragments) <= capacity
    ensures BatchSpan(capacity, q, fragments) == RecordBytesOf(fragments)
    ensures PadCount(capacity, q, fragments) == 0
    decreases |fragments|
  {
    hide Offset, RecordLength;
    if fragments != [] {
      var length := RecordLength(|fragments[0].payload|);
      RecordLengthAligned(|fragments[0].payload|);
      NextOffset(capacity, q, length);
      RestIsShort(fragments);
      NoWrap(capacity, q + length, fragments[1..]);
    }
  }

  lemma NextOffset(capacity: u32, q: nat, length: nat)
    requires capacity > 0 && 0 < length && Offset(capacity, q) + length <= capacity
    ensures Offset(capacity, q + length) == if Offset(capacity, q) + length == capacity then 0 else Offset(capacity, q) + length
  {
    hide Offset;
    if Offset(capacity, q) + length == capacity {
      OffsetAtLapEnd(capacity, q, length);
    } else {
      OffsetWithinLap(capacity, q, length);
    }
  }

  lemma RestIsShort(fragments: seq<Fragment>)
    requires fragments != []
    ensures RecordBytesOf(fragments) == RecordLength(|fragments[0].payload|) + RecordBytesOf(fragments[1..])
    ensures RecordBytesOf(fragments[1..]) == 0 || RecordBytesOf(fragments[1..]) >= PREFIX_SIZE
  {
  }

  /** A batch whose records fit the ring wraps with padding at most once, and the padding is shorter
      than its longest record. */
  lemma {:induction false} SpanBound(capacity: u32, q: nat, fragments: seq<Fragment>, longest: nat)
    requires ValidCapacity(capacity) && q % ALIGNMENT == 0 && longest % ALIGNMENT == 0 && longest >= ALIGNMENT
    requires RecordBytesOf(fragments) <= capacity
    requires forall i :: 0 <= i < |fragments| ==> RecordLength(|fragments[i].payload|) <= longest
    ensures BatchSpan(capacity, q, fragments) <= RecordBytesOf(fragments) + longest - ALIGNMENT
    ensures PadCount(capacity, q, fragments) <= 1
    decreases |fragments|
  {
    hide Offset, RecordLength;
    if fragments != [] {
      var length := RecordLength(|fragments[0].payload|);
      RecordLengthAligned(|fragments[0].payload|);
      RestIsShort(fragments);
      AlignedTail(capacity, q);
      var tail := capacity - Offset(capacity, q);
      if length <= tail {
        AlignedStep(capacity, q, |fragments[0].payload|);
        SpanBound(capacity, q + length, fragments[1..], longest);
      } else {
        AlignedGap(tail, length);
        OffsetAtLapEnd(capacity, q, tail);
        NextOffset(capacity, q + tail, length);
        NoWrap(capacity, q + tail + length, fragments[1..]);
      }
    }
  }

  lemma AlignedGap(a: nat, b: nat)
    requires a % ALIGNMENT == 0 && b % ALIGNMENT == 0 && a < b
    ensures a <= b - ALIGNMENT
  {
  }

  /** Every message within the limits fits an empty ring of at least `maximum_batch_bytes`, wherever
      the producer stands; the writer takes its fragments exactly when the inline limit or the message is
      at most 1 MiB, because it clamps the inline limit and the fragmenter does not. */
  lemma EmptyRingFitsEveryMessage(f: Fragmenter, capacity: u32, q: nat, payload: seq<u8>)
    requires f.Valid() && ValidCapacity(capacity) && q % ALIGNMENT == 0
    requires f.MaximumBatchBytes().Ok? && f.MaximumBatchBytes().value <= capacity
    requires |payload| <= f.maximumMessage
    ensures f.Fragments(payload).Ok?
    ensures var fragments := f.Fragments(payload).value;
            && (AllSendable(fragments, capacity, Clamped(f.maximumInline))
                <==> f.maximumInline <= MAX_INLINE_MESSAGE_SIZE || |payload| <= MAX_INLINE_MESSAGE_SIZE)
            && BatchSpan(capacity, q, fragments) <= capacity
            && PadCount(capacity, q, fragments) <= 1
  {
    hide Fragmenter.MaximumBatchBytes, AllSendable, BatchSpan, PadCount, WireSum, RecordLength;
    var fragments := f.Fragments(payload).value;
    var longest := RecordLength(f.maximumInline);
    BatchBytesValue(f);
    FragmentsFit(f, payload);
    MessageWireBound(f, payload);
    RecordLengthAligned(f.maximumInline);
    FragmentsRecordLengths(fragments, f.maximumInline);
    SpanBound(capacity, q, fragments, longest);
    OneRecordAtLeast(f);
    SendableIffInline(f, capacity, payload);
  }

  lemma BatchBytesValue(f: Fragmenter)
    requires f.Valid() && f.MaximumBatchBytes().Ok?
    ensures f.MaximumBatchBytes().value == WireSum(f.maximumMessage, f.maximumInline) + RecordLength(f.maximumInline) - ALIGNMENT
  {
    hide RecordLength, WireSum;
    WireBytesIsWireSum(f.maximumInline, f.maximumMessage);
  }

  /** A largest message needs at least one largest record. */
  lemma OneRecordAtLeast(f: Fragmenter)
    requires f.Valid()
    ensures RecordLength(f.maximumInline) <= WireSum(f.maximumMessage, f.maximumInline)
  {
    hide RecordLength;
  }

  /** Which messages a writer with a clamped inline limit takes. */
  lemma SendableIffInline(f: Fragmenter, capacity: u32, payload: seq<u8>)
    requires f.Valid() && f.Fragments(payload).Ok? && RecordLength(f.maximumInline) <= capacity
    ensures AllSendable(f.Fragments(payload).value, capacity, Clamped(f.maximumInline))
       <==> f.maximumInline <= MAX_INLINE_MESSAGE_SIZE || |payload| <= MAX_INLINE_MESSAGE_SIZE
  {
    hide RecordLength;
    var fragments := f.Fragments(payload).value;
    FragmentsFit(f, payload);
    FragmentsRecordLengths(fragments, f.maximumInline);
    if f.maximumInline > MAX_INLINE_MESSAGE_SIZE && |payload| > MAX_INLINE_MESSAGE_SIZE {
      assert !Sendable(fragments[0], capacity, Clamped(f.maximumInline));
    }
  }

  lemma FragmentsFit(f: Fragmenter, payload: seq<u8>)
    requires f.Valid() && f.Fragments(payload).Ok?
    ensures Fits(f.Fragments(payload).value, f.maximumInline)
    ensures f.Fragments(payload).value != []
  {
    if |payload| > f.maximumInline {
      PiecesFit(payload, f.maximumInline);
    }
  }

  lemma FragmentsRecordLengths(fragments: seq<Fragment>, inline: nat)
    requires Fits(fragments, inline)
    ensures forall i :: 0 <= i < |fragments| ==> RecordLength(|fragments[i].payload|) <= RecordLength(inline)
  {
  }

  /** No message needs more record bytes than the largest one. */
  lemma MessageWireBound(f: Fragmenter, payload: seq<u8>)
    requires f.Valid() && |payload| <= f.maximumMessage
    ensures RecordBytesOf(f.Fragments(payload).value) <= WireSum(f.maximumMessage, f.maximumInline)
  {
    WireSumMonotone(1, f.maximumMessage, f.maximumInline);
    if payload == [] {
      assert RecordBytesOf([Fragment(payload, END_OF_MESSAGE)]) == RecordLength(0) + RecordBytesOf([]);
    } else {
      WireBytesIsBatchLength(f, payload);
      WireSumMonotone(|payload|, f.maximumMessage, f.maximumInline);
    }
  }

  /** A record of `length` bytes and its wrap tail fit an empty ring at every aligned position exactly when
      there is room for the record and the longest tail in front of it. */
  lemma InlineProgressIffBatchBytes(capacity: u32, length: nat)
    requires ValidCapacity(capacity) && PREFIX_SIZE <= length <= capacity && length % ALIGNMENT == 0
    ensures (forall q: nat :: q % ALIGNMENT == 0 ==> PaddingAt(capacity, q, length) + length <= capacity)
       <==> capacity >= length + length - ALIGNMENT
  {
    if capacity >= length + length - ALIGNMENT {
      forall q: nat | q % ALIGNMENT == 0
        ensures PaddingAt(capacity, q, length) + length <= capacity
      {
        AlignedTail(capacity, q);
        var tail := capacity - Offset(capacity, q);
        if length > tail {
          AlignedGap(tail, length);
        }
      }
    } else {
      LateStartWraps(capacity, length);
      assert (length - ALIGNMENT) % ALIGNMENT == 0;
    }
  }

  /** A record that starts just too late for its lap needs a tail almost as long as itself. */
  lemma LateStartWraps(capacity: u32, length: nat)
    requires ValidCapacity(capacity) && ALIGNMENT <= length <= capacity && capacity < length + length - ALIGNMENT
    ensures PaddingAt(capacity, length - ALIGNMENT, length) + length > capacity
    ensures Seamless(capacity, length - ALIGNMENT + capacity)
  {
    var q := length - ALIGNMENT;
    RemainderUnique(q, 0, q, capacity);
  }

  /** Planning a message on an empty ring with the producer at position q succeeds. */
  predicate Taken(f: Fragmenter, capacity: u32, q: nat, payload: seq<u8>, id: MessageId, count: nat)
    requires f.Valid()
  {
    && f.Fragments(payload).Ok?
    && PlanBatch(capacity, Wrap(q), Wrap(q), f.Fragments(payload).value, Data, id, Wrap(count), Clamped(f.maximumInline)).Ok?
  }

  /** An empty ring takes every message within the limits, wherever the producer stands. */
  ghost predicate TakesEveryMessage(f: Fragmenter, capacity: u32)
    requires f.Valid() && capacity > 0
  {
    forall q: nat, payload: seq<u8>, id: MessageId, count: nat ::
      q % ALIGNMENT == 0 && Seamless(capacity, q + capacity) && |payload| <= f.maximumMessage ==>
        Taken(f, capacity, q, payload, id, count)
  }

  /** What the planner answers for one message and an empty ring. */
  lemma EmptyRingPlans(f: Fragmenter, capacity: u32, q: nat, payload: seq<u8>, id: MessageId, count: nat)
    requires f.Valid() && ValidCapacity(capacity) && q % ALIGNMENT == 0 && Seamless(capacity, q + capacity)
    requires |payload| <= f.maximumMessage
    ensures f.Fragments(payload).Ok?
    ensures var fragments := f.Fragments(payload).value;
            Taken(f, capacity, q, payload, id, count)
            <==> AllSendable(fragments, capacity, Clamped(f.maximumInline)) && BatchSpan(capacity, q, fragments) <= capacity
  {
    hide PlanBatch, AllSendable, BatchSpan;
    PlanBatchAccepts(capacity, q, q, f.Fragments(payload).value, Data, id, count, Clamped(f.maximumInline));
  }
}
