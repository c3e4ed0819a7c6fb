/** Which channel configurations always make progress (crates/data-plane/nwipc-channel-core). */
module ChannelProgress {
  import opened Wrappers
  import opened Words
  import opened Record
  import opened RingCore
  import opened Geometry
  import opened BatchPlan
  import opened Fragmentation
  import opened Delivery
  import opened Progress
  import opened ChannelCore

  /** With `maximum_batch_bytes` of capacity an empty ring takes every message exactly when the inline
      limit is at most 1 MiB. */
  lemma BatchBytesSufficeIffInline(f: Fragmenter, capacity: u32)
    requires f.Valid() && ValidCapacity(capacity)
    requires f.MaximumBatchBytes().Ok? && f.MaximumBatchBytes().value <= capacity
    ensures TakesEveryMessage(f, capacity) <==> f.maximumInline <= MAX_INLINE_MESSAGE_SIZE
  {
    hide Taken, AllSendable, BatchSpan, PadCount, Fragmenter.MaximumBatchBytes, Fragmenter.Fragments;
    if f.maximumInline <= MAX_INLINE_MESSAGE_SIZE {
      forall q: nat, payload: seq<u8>, id: MessageId, count: nat |
        q % ALIGNMENT == 0 && Seamless(capacity, q + capacity) && |payload| <= f.maximumMessage
        ensures Taken(f, capacity, q, payload, id, count)
      {
        EmptyRingPlans(f, capacity, q, payload, id, count);
        EmptyRingFitsEveryMessage(f, capacity, q, payload);
      }
    } else {
      var payload := Zeros(f.maximumInline);
      EmptyRingPlans(f, capacity, 0, payload, 1, 0);
      EmptyRingFitsEveryMessage(f, capacity, 0, payload);
    }
  }

  /** Of the configurations that pass the capacity check exactly those make progress from every drained
      ring whose inline limit is at most 1 MiB and, where fragmentation is off, whose capacity holds the
      `maximum_batch_bytes` that the check then does not ask for. */
  lemma ProgressIff(config: ChannelConfig, f: Fragmenter)
    requires ValidCapacity(config.capacity)
    requires f == Fragmenter(config.maximumInline, config.maximumMessage) && f.Valid()
    requires config.ValidateCapacity(f) == None
    ensures TakesEveryMessage(f, config.capacity)
       <==> && f.maximumInline <= MAX_INLINE_MESSAGE_SIZE
            && (Enabled(f) || (f.MaximumBatchBytes().Ok? && f.MaximumBatchBytes().value <= config.capacity))
  {
    hide TakesEveryMessage, Fragmenter.MaximumBatchBytes, Fragmenter.MaximumWireBytes;
    if f.MaximumBatchBytes().Ok? && f.MaximumBatchBytes().value <= config.capacity {
      BatchBytesSufficeIffInline(f, config.capacity);
    } else if !Enabled(f) {
      LargestInlineRefused(f, config.capacity);
    }
  }

  /** An inline-only ring with less than `maximum_batch_bytes` refuses its largest message when empty at
      the right position, or at any position when the message is over 1 MiB. */
  lemma LargestInlineRefused(f: Fragmenter, capacity: u32)
    requires f.Valid() && ValidCapacity(capacity) && !Enabled(f)
    requires f.MaximumWireBytes().Ok? && f.MaximumWireBytes().value <= capacity
    requires !(f.MaximumBatchBytes().Ok? && f.MaximumBatchBytes().value <= capacity)
    ensures !TakesEveryMessage(f, capacity)
  {
    hide Taken, AllSendable, RecordLength, PaddingAt, Fragmenter.MaximumBatchBytes, Fragmenter.MaximumWireBytes;
    var length := RecordLength(f.maximumInline);
    var payload := Zeros(f.maximumInline);
    InlineOnlyBytes(f);
    RecordLengthAligned(f.maximumInline);
    var q := length - ALIGNMENT;
    EmptyRingPlans(f, capacity, q, payload, 1, 0);
    LargestSpan(capacity, q, payload);
    LateStartWraps(capacity, length);
  }

  /** With fragmentation off the two bounds are one record, and two records less the alignment. */
  lemma InlineOnlyBytes(f: Fragmenter)
    requires f.Valid() && !Enabled(f) && f.MaximumWireBytes().Ok?
    ensures f.MaximumWireBytes().value == RecordLength(f.maximumInline)
    ensures var batch := RecordLength(f.maximumInline) + RecordLength(f.maximumInline) - ALIGNMENT;
            f.MaximumBatchBytes() == if batch + ALIGNMENT >= TWO32 then Err(InvalidRange) else Ok(batch)
  {
    hide RecordLength;
    WireBytesIsWireSum(f.maximumInline, f.maximumMessage);
    RecordLengthAligned(f.maximumInline);
  }

  lemma LargestSpan(capacity: u32, q: nat, payload: seq<u8>)
    requires capacity > 0
    ensures BatchSpan(capacity, q, [Fragment(payload, END_OF_MESSAGE)])
         == PaddingAt(capacity, q, RecordLength(|payload|)) + RecordLength(|payload|)
  {
    hide RecordLength, PaddingAt;
    assert [Fragment(payload, END_OF_MESSAGE)][1..] == [];
  }

  /** A configuration that passes the capacity check of an inline-only channel (128 bytes, 64 inline)
      and an empty ring of it that refuses a message within the limit. */
  lemma InlineOnlyRefusal()
    ensures ChannelConfig(128, 64, 64, 0, 128).ValidateCapacity(Fragmenter(64, 64)) == None
    ensures var fragments := Fragmenter(64, 64).Fragments(Zeros(64));
            && fragments.Ok?
            && PlanBatch(128, 48, 48, fragments.value, Data, 1, 0, Clamped(64)) == Err(Backpressured)
  {
    var f := Fragmenter(64, 64);
    var fragments := f.Fragments(Zeros(64)).value;
    assert RecordLength(64) == 88;
    assert Times(88, 1) == 88;
    hide PlanBatch;
    PlanBatchAccepts(128, 48, 48, fragments, Data, 1, 0, Clamped(64));
    LargestSpan(128, 48, Zeros(64));
    assert Wrap(48) == 48 && Wrap(0) == 0;
  }
}
