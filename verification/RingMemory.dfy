/** Shared ring memory with its producer and consumer cursors (crates/data-plane/nwipc-atomic).

    The four checks are functions of the cursors a call loads, so that the concurrent model in
    RingSystem and the methods below use the same ones. */
module RingMemory {
  import opened Wrappers
  import opened Words
  import opened Record
  import opened RingCore
  import opened Geometry
  import opened Layout

  /** The physical offset a write may use. */
  function WriteRange(capacity: u32, producer: u32, consumer: u32, cursor: u32, length: nat): (r: Result<nat>)
    requires capacity > 0
    ensures r.Ok? ==> r.value + length <= capacity
  {
    if WrappingSub(producer, consumer) > capacity then
      Err(InvalidCursor)
    else
      var free := capacity - WrappingSub(producer, consumer);
      var distance := WrappingSub(cursor, producer);
      if length >= TWO32 || distance > free || length > free - distance then
        Err(InvalidRange)
      else
        CheckedRange(capacity, cursor % capacity, length)
  }

  function CheckedRange(capacity: u32, offset: u32, length: nat): (r: Result<nat>)
    ensures r.Ok? ==> r.value == offset && offset + length <= capacity
  {
    if offset + length > capacity then Err(InvalidRange) else Ok(offset)
  }

  /** Whether the producer may publish through `cursor`. */
  function PublishCheck(capacity: u32, producer: u32, consumer: u32, cursor: u32): Option<ErrorCode> {
    var used := WrappingSub(producer, consumer);
    if used > capacity || WrappingSub(cursor, producer) > capacity - used then Some(InvalidCursor) else None
  }

  /** The physical offset a read may use. */
  function ReadRange(capacity: u32, producer: u32, consumer: u32, cursor: u32, length: nat): (r: Result<nat>)
    requires capacity > 0
    ensures r.Ok? ==> r.value + length <= capacity
  {
    var used := WrappingSub(producer, consumer);
    var distance := WrappingSub(cursor, consumer);
    if length >= TWO32 || used > capacity || distance > used || length > used - distance then
      Err(InvalidRange)
    else
      CheckedRange(capacity, cursor % capacity, length)
  }

  /** Whether the consumer may consume through `cursor`. */
  function ConsumeCheck(capacity: u32, producer: u32, consumer: u32, cursor: u32): Option<ErrorCode> {
    var used := WrappingSub(producer, consumer);
    if used > capacity || WrappingSub(cursor, consumer) > used then Some(InvalidCursor) else None
  }

  /** Stream positions behind the cursors: c consumed, p published, at most one lap ahead. */
  predicate Ordered(capacity: u32, c: nat, p: nat) {
    ValidCapacity(capacity) && c <= p <= c + capacity
  }

  /** A range inside the producer's free space is accepted at the offset of its position. */
  lemma WriteAccepted(capacity: u32, p: nat, c: nat, q: nat, length: nat)
    requires Ordered(capacity, c, p) && p <= q && q + length <= c + capacity
    requires Seamless(capacity, q) && Offset(capacity, q) + length <= capacity
    ensures WriteRange(capacity, Wrap(p), Wrap(c), Wrap(q), length) == Ok(Offset(capacity, q))
  {
    WrapDistance(c, p);
    WrapDistance(p, q);
    CellIsOffset(capacity, q);
  }

  lemma PublishAccepted(capacity: u32, p: nat, c: nat, q: nat)
    requires Ordered(capacity, c, p) && p <= q <= c + capacity
    ensures PublishCheck(capacity, Wrap(p), Wrap(c), Wrap(q)) == None
  {
    WrapDistance(c, p);
    WrapDistance(p, q);
  }

  lemma ReadAccepted(capacity: u32, p: nat, c: nat, length: nat)
    requires Ordered(capacity, c, p) && c + length <= p
    requires Seamless(capacity, c) && Offset(capacity, c) + length <= capacity
    ensures ReadRange(capacity, Wrap(p), Wrap(c), Wrap(c), length) == Ok(Offset(capacity, c))
  {
    WrapDistance(c, p);
    CellIsOffset(capacity, c);
  }

  lemma ConsumeAccepted(capacity: u32, p: nat, c: nat, q: nat)
    requires Ordered(capacity, c, p) && c <= q <= p
    ensures ConsumeCheck(capacity, Wrap(p), Wrap(c), Wrap(q)) == None
  {
    WrapDistance(c, p);
    WrapDistance(c, q);
  }

  /** One more item written right behind what the ring holds. */
  lemma HoldsItem(bytes: seq<u8>, c: nat, items: seq<Item>, it: Item)
    requires |bytes| > 0 && AllOk(items) && ItemOk(it)
    requires Holds(bytes, c, Bytes(items))
    requires Length(items) + ItemLength(it) <= |bytes|
    requires Offset(|bytes|, c + Length(items)) + ItemLength(it) <= |bytes|
    ensures AllOk(items + [it])
    ensures Holds(Splice(bytes, Offset(|bytes|, c + Length(items)), ItemBytes(it)), c, Bytes(items + [it]))
  {
    hide ItemBytes, Holds, Splice, ItemOk, Bytes, Length;
    var q := c + Length(items);
    var after := Splice(bytes, Offset(|bytes|, q), ItemBytes(it));
    HoldsSplice(bytes, c, Bytes(items), q, ItemBytes(it));
    HoldsAppend(after, c, Bytes(items), ItemBytes(it));
    assert AllOk([it]);
    BytesAppend(items, [it]);
    SingleItem(it);
    assert Bytes(items + [it]) == Bytes(items) + ItemBytes(it);
  }

  lemma SingleItem(it: Item)
    requires ItemOk(it)
    ensures Bytes([it]) == ItemBytes(it) && Length([it]) == ItemLength(it)
  {
    hide ItemBytes;
    assert [it][1..] == [];
    assert Bytes([it]) == ItemBytes(it) + [];
  }

  /** Staged bytes do not disturb the committed ones in front of them. */
  lemma CommittedPart(bytes: seq<u8>, c: nat, items: seq<Item>, staged: seq<Item>)
    requires |bytes| > 0 && AllOk(items + staged) && AllOk(items)
    requires Holds(bytes, c, Bytes(items + staged))
    ensures AllOk(staged) && Holds(bytes, c, Bytes(items))
  {
    hide ItemOk, Holds, Bytes;
    assert AllOk(staged) by {
      forall i | 0 <= i < |staged|
        ensures ItemOk(staged[i])
      {
        assert (items + staged)[|items| + i] == staged[i];
      }
    }
    BytesAppend(items, staged);
    HoldsSuffix(bytes, c, Bytes(items), Bytes(staged));
  }

  /** The committed part of a ring: `items` lie between positions c and p, well placed, and the bytes
      hold them. Record number `taken` is the first among them. */
  ghost predicate Committed(
      bytes: seq<u8>, capacity: u32, c: nat, p: nat, items: seq<Item>, taken: nat, limit: u32)
  {
    && Ordered(capacity, c, p) && |bytes| == capacity
    && c % ALIGNMENT == 0 && p % ALIGNMENT == 0
    && Length(items) == p - c
    && Placed(items, c, capacity, taken, limit)
    && AllOk(items)
    && Holds(bytes, c, Bytes(items))
  }

  /** Items written behind the committed ones but not yet published. */
  ghost predicate Staged(bytes: seq<u8>, c: nat, items: seq<Item>, staged: seq<Item>) {
    |bytes| > 0 && AllOk(items + staged) && Holds(bytes, c, Bytes(items + staged))
  }

  lemma NothingStaged(bytes: seq<u8>, capacity: u32, c: nat, p: nat, items: seq<Item>, taken: nat, limit: u32)
    requires Committed(bytes, capacity, c, p, items, taken, limit)
    ensures Staged(bytes, c, items, []) && Length([]) == 0
  {
    assert items + [] == items;
  }

  lemma CommittedFacts(bytes: seq<u8>, capacity: u32, c: nat, p: nat, items: seq<Item>, taken: nat, limit: u32)
    requires Committed(bytes, capacity, c, p, items, taken, limit)
    ensures Ordered(capacity, c, p) && |bytes| == capacity
    ensures c % ALIGNMENT == 0 && p % ALIGNMENT == 0 && Length(items) == p - c
  {
  }

  /** The next write of a producer that has staged some items behind the committed ones: the memory
      accepts it where its position says, and keeps both the committed and the staged bytes. */
  lemma NextWrite(
      bytes: seq<u8>, capacity: u32, c: nat, p: nat, items: seq<Item>, taken: nat, limit: u32,
      staged: seq<Item>, it: Item, q: nat)
    requires Committed(bytes, capacity, c, p, items, taken, limit) && Staged(bytes, c, items, staged)
    requires Seamless(capacity, p + capacity) && ItemOk(it)
    requires q == p + Length(staged) && q + ItemLength(it) <= c + capacity
    requires Offset(capacity, q) + ItemLength(it) <= capacity
    ensures WriteRange(capacity, Wrap(p), Wrap(c), Wrap(q), ItemLength(it)) == Ok(Offset(capacity, q))
    ensures var after := Splice(bytes, Offset(capacity, q), ItemBytes(it));
            && Committed(after, capacity, c, p, items, taken, limit)
            && Staged(after, c, items, staged + [it])
  {
    hide ItemBytes, Holds, Splice, ItemOk, Bytes, WriteRange, Placed, Offset, Wrap;
    WriteAccepted(capacity, p, c, q, ItemLength(it));
    LengthAppend(items, staged);
    HoldsItem(bytes, c, items + staged, it);
    assert items + staged + [it] == items + (staged + [it]);
    CommittedPart(Splice(bytes, Offset(capacity, q), ItemBytes(it)), c, items, staged + [it]);
  }

  /** Publishing the staged items commits them. */
  lemma PublishStaged(
      bytes: seq<u8>, capacity: u32, c: nat, p: nat, items: seq<Item>, taken: nat, limit: u32, staged: seq<Item>)
    requires Committed(bytes, capacity, c, p, items, taken, limit) && Staged(bytes, c, items, staged)
    requires Placed(staged, p, capacity, taken + |Records(items)|, limit)
    requires p + Length(staged) <= c + capacity && Length(staged) % ALIGNMENT == 0
    ensures PublishCheck(capacity, Wrap(p), Wrap(c), Wrap(p + Length(staged))) == None
    ensures Committed(bytes, capacity, c, p + Length(staged), items + staged, taken, limit)
  {
    hide Holds, AllOk, Bytes, PublishCheck, Wrap, Placed, Length, Records;
    PublishAccepted(capacity, p, c, p + Length(staged));
    LengthAppend(items, staged);
    PlacedAppend(items, staged, c, capacity, taken, limit);
    assert c + Length(items) == p;
  }

  /** A ring as a value: its memory and the stream it stands for. */
  datatype RingView = RingView(
    bytes: seq<u8>, producer: u32, consumer: u32, published: nat, consumed: nat, items: seq<Item>, taken: nat)

  /** The in-process ring: shared bytes and two cursors, with the stream they stand for as ghost state. */
  class SharedRing {
    const capacity: u32
    const bytes: array<u8>
    var producer: u32
    var consumer: u32

    /** Stream positions of the cursors, the committed items between them, and how many records the
        stream held before them. Records in the stream fit `limit`. */
    ghost var published: nat
    ghost var consumed: nat
    ghost var items: seq<Item>
    ghost var taken: nat
    ghost const limit: u32

    predicate WellFormed() {
      ValidCapacity(capacity) && bytes.Length == capacity
    }

    ghost predicate Valid()
      reads this, bytes
    {
      && WellFormed()
      && producer == Wrap(published)
      && consumer == Wrap(consumed)
      && Committed(bytes[..], capacity, consumed, published, items, taken, limit)
    }

    ghost function View(): RingView
      reads this, bytes
    {
      RingView(bytes[..], producer, consumer, published, consumed, items, taken)
    }

    /** Offsets still agree with stream positions up to one lap past what is published. */
    ghost predicate Seamless()
      requires WellFormed()
      reads this
    {
      Geometry.Seamless(capacity, published + capacity)
    }

    /** Creates an empty ring of a valid capacity. */
    static method Create(capacity: u32, ghost limit: u32) returns (r: Result<SharedRing>)
      ensures r.Ok? <==> ValidCapacity(capacity)
      ensures r.Err? ==> r.error == InvalidRange
      ensures r.Ok? ==>
        && fresh(r.value) && fresh(r.value.bytes) && r.value.Valid()
        && r.value.capacity == capacity && r.value.limit == limit
        && r.value.items == [] && r.value.published == r.value.consumed == r.value.taken == 0
    {
      if !ValidCapacity(capacity) {
        return Err(InvalidRange);
      }
      var ring := new SharedRing(capacity, limit);
      r := Ok(ring);
    }

    constructor (capacity: u32, ghost limit: u32)
      requires ValidCapacity(capacity)
      ensures Valid() && fresh(bytes)
      ensures this.capacity == capacity && this.limit == limit
      ensures items == [] && published == consumed == taken == 0
    {
      this.capacity := capacity;
      this.limit := limit;
      bytes := new u8[capacity](_ => 0);
      producer, consumer := 0, 0;
      published, consumed, taken := 0, 0, 0;
      items := [];
    }

    /** Writes a contiguous unpublished range at an absolute cursor. */
    method Write(cursor: u32, source: seq<u8>) returns (error: Option<ErrorCode>)
      requires WellFormed()
      modifies bytes
      ensures var range := WriteRange(capacity, producer, consumer, cursor, |source|);
        match range
        case Err(e) => error == Some(e) && bytes[..] == old(bytes[..])
        case Ok(offset) => error == None && bytes[..] == Splice(old(bytes[..]), offset, source)
    {
      var range := WriteRange(capacity, producer, consumer, cursor, |source|);
      if range.Err? {
        return Some(range.error);
      }
      var offset := range.value;
      for i := 0 to |source|
        invariant bytes[..] == Splice(old(bytes[..]), offset, source[..i])
      {
        SpliceGrows(old(bytes[..]), offset, source, i);
        bytes[offset + i] := source[i];
      }
      assert source[..|source|] == source;
      error := None;
    }

    /** Publishes all writes through `cursor`. */
    method Publish(cursor: u32) returns (error: Option<ErrorCode>)
      modifies this`producer
      ensures error == PublishCheck(capacity, old(producer), consumer, cursor)
      ensures producer == if error == None then cursor else old(producer)
    {
      error := PublishCheck(capacity, producer, consumer, cursor);
      if error == None {
        producer := cursor;
      }
    }

    /** Copies one contiguous committed range. */
    method Read(cursor: u32, length: nat) returns (r: Result<seq<u8>>)
      requires WellFormed()
      ensures var range := ReadRange(capacity, producer, consumer, cursor, length);
        match range
        case Err(e) => r == Err(e)
        case Ok(offset) => r == Ok(bytes[offset..offset + length])
    {
      var range := ReadRange(capacity, producer, consumer, cursor, length);
      if range.Err? {
        return Err(range.error);
      }
      var offset := range.value;
      var output: seq<u8> := [];
      for i := 0 to length
        invariant output == bytes[offset..offset + i]
      {
        output := output + [bytes[offset + i]];
      }
      r := Ok(output);
    }

    /** Publishes consumption through `cursor`. */
    method Consume(cursor: u32) returns (error: Option<ErrorCode>)
      modifies this`consumer
      ensures error == ConsumeCheck(capacity, producer, old(consumer), cursor)
      ensures consumer == if error == None then cursor else old(consumer)
    {
      error := ConsumeCheck(capacity, producer, consumer, cursor);
      if error == None {
        consumer := cursor;
      }
    }
  }
}
