/** Ring geometry and wrap planning on two wrapping cursors (crates/data-plane/nwipc-ring-core). */
module RingCore {
  import opened Wrappers
  import opened Words
  import opened Record

  const MAX_RING_CAPACITY: int := 2_147_483_640

  predicate ValidCapacity(capacity: u32) {
    0 < capacity <= MAX_RING_CAPACITY && capacity % ALIGNMENT == 0
  }

  /** A snapshot of the two cursors; the constructor below admits exactly the valid ones. */
  datatype RingSnapshot = RingSnapshot(capacity: u32, producer: u32, consumer: u32, used: u32) {

    predicate Valid() {
      ValidCapacity(capacity) && used == WrappingSub(producer, consumer) && used <= capacity
    }

    static function New(capacity: u32, producer: u32, consumer: u32): (r: Result<RingSnapshot>)
      ensures r.Ok? ==> r.value.Valid()
    {
      if !ValidCapacity(capacity) then
        Err(InvalidRange)
      else if WrappingSub(producer, consumer) > capacity then
        Err(InvalidCursor)
      else
        Ok(RingSnapshot(capacity, producer, consumer, WrappingSub(producer, consumer)))
    }

    function Free(): u32
      requires Valid()
    {
      capacity - used
    }

    predicate IsEmpty() {
      used == 0
    }

    function ProducerOffset(): u32
      requires Valid()
    {
      producer % capacity
    }

    function ConsumerOffset(): u32
      requires Valid()
    {
      consumer % capacity
    }

    function PlanWrite(recordLength: u32): Result<WritePlan>
      requires Valid()
    {
      if recordLength < PREFIX_SIZE || recordLength > capacity || recordLength % ALIGNMENT != 0 then
        Err(InvalidRange)
      else
        var tail := capacity - ProducerOffset();
        var paddingLength := if recordLength > tail then tail else 0;
        if paddingLength + recordLength >= TWO32 then
          Err(InvalidRange)
        else if paddingLength + recordLength > Free() then
          Err(Backpressured)
        else
          Ok(WritePlan(
               producer,
               if paddingLength == 0 then ProducerOffset() else 0,
               recordLength,
               ProducerOffset(),
               paddingLength,
               WrappingAdd(producer, paddingLength + recordLength),
               IsEmpty()))
    }

    function ImplicitReadPadding(): u32
      requires Valid()
    {
      var tail := capacity - ConsumerOffset();
      if tail < PREFIX_SIZE && tail <= used then tail else 0
    }
  }

  datatype WritePlan = WritePlan(
    startCursor: u32,
    recordOffset: u32,
    recordLength: u32,
    paddingOffset: u32,
    paddingLength: u32,
    publishCursor: u32,
    signalNonEmpty: bool)
  {
    predicate HasExplicitPadding() {
      paddingLength >= PREFIX_SIZE
    }
  }

  /** A snapshot is taken exactly when the producer cursor is at most one capacity ahead of the
      consumer cursor, counting around 2^32; the distance is then the number of used bytes. */
  lemma SnapshotExactly(capacity: u32, producer: u32, consumer: u32)
    ensures var r := RingSnapshot.New(capacity, producer, consumer);
            && (r.Ok? <==>
                ValidCapacity(capacity)
                && exists used: u32 :: used <= capacity && WrappingAdd(consumer, used) == producer)
            && (r.Ok? ==>
                && (r.value.capacity, r.value.producer, r.value.consumer) == (capacity, producer, consumer)
                && WrappingAdd(consumer, r.value.used) == producer && r.value.used <= capacity)
            && (r.Err? ==> r.error == if ValidCapacity(capacity) then InvalidCursor else InvalidRange)
  {
    var distance := WrappingSub(producer, consumer);
    assert WrappingAdd(consumer, distance) == producer;
    forall used: u32 | WrappingAdd(consumer, used) == producer
      ensures used == distance
    {
    }
  }
}
