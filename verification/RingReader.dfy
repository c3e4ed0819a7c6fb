/** Committed record reading and consumption (crates/data-plane/nwipc-ring-reader). */
module RingReader {
  import opened Wrappers
  import opened Words
  import opened Record
  import opened RingCore
  import opened Geometry
  import opened Layout
  import opened RingMemory

  datatype ReadReceipt = ReadReceipt(current: u32, next: u32, sequence: Option<u32>)

  datatype ReadItem =
    | Empty
    | PaddingItem(receipt: ReadReceipt)
    | RecordItem(record: OwnedRecord, receipt: ReadReceipt)

  datatype ConsumeOutcome = ConsumeOutcome(remaining: u32, drained: bool)

  /** What the cursors alone tell a peek: nothing, a tail too short for a prefix, or how many
      contiguous bytes to fetch. */
  datatype Glance = NothingCommitted | SkipTail(receipt: ReadReceipt) | Fetch(contiguous: u32, used: u32)

  function GlanceAt(capacity: u32, producer: u32, consumer: u32): Result<Glance> {
    var snapshot :- RingSnapshot.New(capacity, producer, consumer);
    if snapshot.IsEmpty() then
      Ok(NothingCommitted)
    else if snapshot.ImplicitReadPadding() != 0 then
      Ok(SkipTail(ReadReceipt(consumer, WrappingAdd(consumer, snapshot.ImplicitReadPadding()), None)))
    else
      var tail := capacity - snapshot.ConsumerOffset();
      var contiguous := if tail < snapshot.used then tail else snapshot.used;
      if contiguous < PREFIX_SIZE then Err(Truncated) else Ok(Fetch(contiguous, snapshot.used))
  }

  /** Validates the fetched bytes and decides what stands at their front. */
  function Inspect(used: u32, consumer: u32, committed: seq<u8>, maximumInline: u32, expected: u32): Result<ReadItem> {
    var header :- DecodeCommitted(committed, maximumInline);
    if header.recordLength > used || header.recordLength > |committed| then
      Err(Truncated)
    else
      var next := WrappingAdd(consumer, header.recordLength);
      if header.kind == Padding then
        Ok(PaddingItem(ReadReceipt(consumer, next, None)))
      else if header.sequence != expected then
        Err(ProtocolViolation)
      else
        Decoded(committed, maximumInline, header);
        var payload := committed[PREFIX_SIZE..PREFIX_SIZE + header.payloadLength];
        Ok(RecordItem(OwnedRecord(header, payload), ReadReceipt(consumer, next, Some(header.sequence))))
  }

  /** Whatever bytes were fetched, a record is reported exactly if they start with one that lies in what is
      committed and carries the expected sequence number, with its own payload and receipt. */
  lemma InspectExactly(
      used: u32, consumer: u32, bytes: seq<u8>, maximumInline: u32, expected: u32, record: OwnedRecord, receipt: ReadReceipt)
    ensures Inspect(used, consumer, bytes, maximumInline, expected) == Ok(RecordItem(record, receipt)) <==>
      && DecodeCommitted(bytes, maximumInline) == Ok(record.header) && record.header.kind != Padding
      && record.header.recordLength <= used
      && record.header.sequence == expected
      && PREFIX_SIZE + record.header.payloadLength <= |bytes|
      && record.payload == bytes[PREFIX_SIZE..PREFIX_SIZE + record.header.payloadLength]
      && receipt == ReadReceipt(consumer, Wrap(consumer + record.header.recordLength), Some(expected))
  {
    var decoded := DecodeCommitted(bytes, maximumInline);
    if decoded.Ok? {
      Decoded(bytes, maximumInline, decoded.value);
    }
  }

  lemma Decoded(bytes: seq<u8>, maximumInline: u32, h: Header)
    requires DecodeCommitted(bytes, maximumInline) == Ok(h)
    ensures PREFIX_SIZE + h.payloadLength <= h.recordLength <= |bytes|
  {
  }

  /** What a peek reports when `items` are committed from position c on. */
  function HeadItem(items: seq<Item>, c: nat): ReadItem {
    if items == [] then Empty
    else
      var next := Wrap(c + ItemLength(items[0]));
      match items[0]
      case Pad(_, _) => PaddingItem(ReadReceipt(Wrap(c), next, None))
      case Rec(record) => RecordItem(record, ReadReceipt(Wrap(c), next, Some(record.header.sequence)))
  }

  /** What a peek answers: it refuses a poisoned head. */
  function Sight(items: seq<Item>, c: nat): Result<ReadItem> {
    if items != [] && items[0].Rec? && Poisoned(items[0].record) then Err(ProtocolViolation) else Ok(HeadItem(items, c))
  }

  /** A producer position the reader may have loaded: either none of the committed items, or at least
      the whole first one. */
  predicate SeesHead(items: seq<Item>, c: nat, p: nat) {
    p == c || (items != [] && c + ItemLength(items[0]) <= p)
  }

  predicate ShortTail(it: Item) {
    it.Pad? && it.length < PREFIX_SIZE
  }

  /** The first decision of a peek agrees with what the writer laid out, however stale the producer
      cursor it loaded. */
  lemma GlanceSees(capacity: u32, c: nat, p: nat, items: seq<Item>, taken: nat, limit: u32)
    requires Ordered(capacity, c, p) && Seamless(capacity, c)
    requires Placed(items, c, capacity, taken, limit) && SeesHead(items, c, p)
    ensures var g := GlanceAt(capacity, Wrap(p), Wrap(c));
            && g.Ok?
            && if p == c then g.value == NothingCommitted
               else if ShortTail(items[0]) then g.value == SkipTail(HeadItem(items, c).receipt)
               else
                 && g.value.Fetch?
                 && PREFIX_SIZE <= ItemLength(items[0]) <= g.value.contiguous <= g.value.used == p - c
                 && Offset(capacity, c) + g.value.contiguous <= capacity
  {
    WrapDistance(c, p);
    CellIsOffset(capacity, c);
    if p > c {
      WrapOfSum(c, ItemLength(items[0]));
    }
  }

  /** The second decision: the fetched bytes are read as exactly the item the writer placed, or refused
      if it is poisoned. */
  lemma InspectSees(
      capacity: u32, c: nat, items: seq<Item>, taken: nat, limit: u32, committed: seq<u8>, used: u32)
    requires capacity > 0 && Placed(items, c, capacity, taken, limit)
    requires items != [] && !ShortTail(items[0])
    requires ItemLength(items[0]) <= |committed| && |committed| <= used
    requires committed[..ItemLength(items[0])] == ItemBytes(items[0])
    ensures Inspect(used, Wrap(c), committed, limit, Wrap(taken)) == Sight(items, c)
  {
    hide DecodeCommitted, RecordBytes, Offset;
    var it := items[0];
    var length := ItemLength(it);
    assert committed == committed[..length] + committed[length..];
    WrapOfSum(c, length);
    match it
    case Pad(_, sequence) =>
      RecordRoundTrip(PaddingHeader(length, sequence).value, [], committed[length..], limit);
    case Rec(record) =>
      if Poisoned(record) {
        PoisonedPrefix(record.header, record.payload, committed[length..], limit);
      } else {
        RecordRoundTrip(record.header, record.payload, committed[length..], limit);
      }
  }

  /** The head of the committed items sees through any later producer cursor. */
  lemma CommittedSeesHead(bytes: seq<u8>, capacity: u32, c: nat, p: nat, items: seq<Item>, taken: nat, limit: u32)
    requires Committed(bytes, capacity, c, p, items, taken, limit)
    ensures SeesHead(items, c, p) && Placed(items, c, capacity, taken, limit)
    ensures items == [] <==> p == c
    ensures items != [] ==> ItemOk(items[0]) && 0 < ItemLength(items[0])
  {
  }

  /** A contiguous range fetched from the consumer's position starts with the first committed item. */
  lemma FetchedHead(
      bytes: seq<u8>, capacity: u32, c: nat, p: nat, items: seq<Item>, taken: nat, limit: u32, n: nat)
    requires Committed(bytes, capacity, c, p, items, taken, limit)
    requires items != [] && ItemLength(items[0]) <= n && c + n <= p && Offset(capacity, c) + n <= capacity
    ensures ItemOk(items[0])
    ensures bytes[Offset(capacity, c)..Offset(capacity, c) + n][..ItemLength(items[0])] == ItemBytes(items[0])
  {
    hide Offset, Holds, ItemBytes, ItemOk, Placed, Length;
    HoldsWindow(bytes, c, Bytes(items), n);
    assert Bytes(items)[..n][..ItemLength(items[0])] == ItemBytes(items[0]);
  }

  /** Consuming the first item leaves the rest committed. */
  lemma PopHead(bytes: seq<u8>, capacity: u32, c: nat, p: nat, items: seq<Item>, taken: nat, limit: u32)
    requires Committed(bytes, capacity, c, p, items, taken, limit) && items != []
    ensures c + ItemLength(items[0]) <= p
    ensures ConsumeCheck(capacity, Wrap(p), Wrap(c), Wrap(c + ItemLength(items[0]))) == None
    ensures Committed(bytes, capacity, c + ItemLength(items[0]), p, items[1..], NextCount(items[0], taken), limit)
  {
    hide Offset, Holds, ItemBytes, ItemFits, ConsumeCheck, Wrap, ItemOk;
    var it := items[0];
    assert AllOk(items[1..]);
    assert items == [it] + items[1..];
    HoldsSuffix(bytes, c, ItemBytes(it), Bytes(items[1..]));
    ConsumeAccepted(capacity, p, c, c + ItemLength(it));
    HeadAligned(it, c);
  }

  lemma HeadAligned(it: Item, c: nat)
    requires ItemOk(it) && c % ALIGNMENT == 0
    ensures (c + ItemLength(it)) % ALIGNMENT == 0
  {
  }

  /** Padding never comes last: where there is an item there is a record. */
  lemma ItemsHoldARecord(items: seq<Item>, pos: nat, capacity: u32, count: nat, limit: u32)
    requires capacity > 0 && Placed(items, pos, capacity, count, limit) && items != []
    ensures Records(items) != []
    ensures items[0].Pad? ==> Records(items) == Records(items[1..]) && |items| > 1 && items[1].Rec?
    ensures items[0].Rec? ==> Records(items) == [items[0].record] + Records(items[1..])
  {
    if items[0].Pad? {
      assert Records(items) == [] + Records(items[1..]);
      assert Records(items[1..])[0] == items[1].record;
    }
  }

  class RingReader {
    const ring: SharedRing
    const maximumInline: u32
    var expectedSequence: u32

    ghost predicate Valid()
      reads this, ring, ring.bytes
    {
      && ring.Valid()
      && maximumInline == ring.limit
      && expectedSequence == Wrap(ring.taken)
    }

    /** Takes any ring, and expects sequence number zero first. */
    constructor (ring: SharedRing, maximumInline: u32)
      ensures this.ring == ring && this.maximumInline == maximumInline && expectedSequence == 0
      ensures Valid() <==> ring.Valid() && maximumInline == ring.limit && Wrap(ring.taken) == 0
    {
      this.ring := ring;
      this.maximumInline := maximumInline;
      expectedSequence := 0;
    }

    /** Reports the next committed item without consuming it; on a ring that a writer of this protocol
        produced it refuses nothing but a poisoned record. */
    method Peek() returns (r: Result<ReadItem>)
      requires Valid() && ring.Seamless()
      ensures r == Sight(ring.items, ring.consumed)
    {
      hide Committed, Placed, Offset, Wrap, Inspect, GlanceAt, ItemBytes, ReadRange, Records;
      ghost var c, p := ring.consumed, ring.published;
      CommittedFacts(ring.bytes[..], ring.capacity, c, p, ring.items, ring.taken, ring.limit);
      CommittedSeesHead(ring.bytes[..], ring.capacity, c, p, ring.items, ring.taken, ring.limit);
      SeamlessBelow(ring.capacity, c, p + ring.capacity);
      GlanceSees(ring.capacity, c, p, ring.items, ring.taken, ring.limit);
      var glance := GlanceAt(ring.capacity, ring.producer, ring.consumer);
      match glance.value
      case NothingCommitted =>
        r := Ok(Empty);
      case SkipTail(receipt) =>
        r := Ok(PaddingItem(receipt));
      case Fetch(contiguous, used) =>
        ReadAccepted(ring.capacity, p, c, contiguous);
        var committed := ring.Read(ring.consumer, contiguous);
        FetchedHead(ring.bytes[..], ring.capacity, c, p, ring.items, ring.taken, ring.limit, contiguous);
        assert committed == Ok(ring.bytes[..][Offset(ring.capacity, c)..Offset(ring.capacity, c) + contiguous]);
        InspectSees(ring.capacity, c, ring.items, ring.taken, ring.limit, committed.value, used);
        r := Inspect(used, ring.consumer, committed.value, maximumInline, expectedSequence);
    }

    /** The receipt a peek gives now. */
    ghost predicate Current(receipt: ReadReceipt)
      requires Valid()
      reads this, ring, ring.bytes
    {
      ring.items != [] && receipt == HeadItem(ring.items, ring.consumed).receipt
    }

    /** Consumes the item named by a receipt. The current receipt removes the head; a receipt for another
        cursor is refused and changes nothing, and so is a record's receipt that comes round to the same
        cursor with another sequence number. */
    method Consume(receipt: ReadReceipt) returns (r: Result<ConsumeOutcome>)
      requires Valid()
      modifies this`expectedSequence, ring`consumer, ring`consumed, ring`items, ring`taken
      ensures var raw := ConsumeWith(ring.capacity, ring.producer, old(ring.consumer), old(expectedSequence), receipt);
        r == raw.answer && ring.consumer == raw.consumer && expectedSequence == raw.expected
      ensures receipt.current != old(ring.consumer) ==> r == Err(InvalidCursor) && unchanged(this) && unchanged(ring)
      ensures receipt.current == old(ring.consumer) && receipt.sequence.Some? && receipt.sequence.value != old(expectedSequence)
          ==> r == Err(ProtocolViolation) && unchanged(this) && unchanged(ring)
      ensures old(Current(receipt)) ==>
        && Valid() && ring.items == old(ring.items[1..])
        && ring.consumed == old(ring.consumed) + ItemLength(old(ring.items[0]))
        && ring.taken == NextCount(old(ring.items[0]), old(ring.taken))
        && r == Ok(ConsumeOutcome(ring.published - ring.consumed, ring.published == ring.consumed))
    {
      hide Committed, Placed, Offset, Wrap, ConsumeCheck, WrappingSub, WrappingAdd, Length, Bytes, Holds;
      ghost var current := Current(receipt);
      if current {
        CurrentConsumes(ring.bytes[..], ring.capacity, ring.consumed, ring.published, ring.items, ring.taken, ring.limit);
      }
      if ring.consumer != receipt.current {
        return Err(InvalidCursor);
      }
      if receipt.sequence.Some? {
        if receipt.sequence.value != expectedSequence {
          return Err(ProtocolViolation);
        }
        expectedSequence := WrappingAdd(expectedSequence, 1);
      }
      var error := ring.Consume(receipt.next);
      if error.Some? {
        return Err(error.value);
      }
      if current {
        ghost var head := ring.items[0];
        ring.consumed := ring.consumed + ItemLength(head);
        ring.taken := NextCount(head, ring.taken);
        ring.items := ring.items[1..];
      }
      var remaining := WrappingSub(ring.producer, receipt.next);
      if remaining > ring.capacity {
        return Err(InvalidCursor);
      }
      r := Ok(ConsumeOutcome(remaining, remaining == 0));
    }

    /** Copies and consumes the next record, skipping padding. A poisoned record stays where it is and
        keeps everything behind it. */
    method Receive() returns (r: Result<Option<OwnedRecord>>)
      requires Valid() && ring.Seamless()
      modifies this`expectedSequence, ring`consumer, ring`consumed, ring`items, ring`taken
      ensures Valid()
      ensures var before := old(Records(ring.items));
        if before == [] then
          r == Ok(None) && unchanged(this) && unchanged(ring)
        else if Poisoned(before[0]) then
          r == Err(ProtocolViolation) && Records(ring.items) == before && ring.taken == old(ring.taken)
        else
          r == Ok(Some(before[0])) && Records(ring.items) == before[1..] && ring.taken == old(ring.taken) + 1
      ensures ring.taken + |Records(ring.items)| == old(ring.taken + |Records(ring.items)|)
    {
      hide Committed, Placed, Offset, Wrap, Records, Geometry.Seamless;
      while true
        invariant Valid() && ring.Seamless()
        invariant Records(ring.items) == old(Records(ring.items)) && ring.taken == old(ring.taken)
        invariant Records(ring.items) == [] ==> unchanged(this) && unchanged(ring)
        decreases |ring.items|
      {
        CommittedSeesHead(ring.bytes[..], ring.capacity, ring.consumed, ring.published, ring.items, ring.taken, ring.limit);
        if ring.items != [] {
          ItemsHoldARecord(ring.items, ring.consumed, ring.capacity, ring.taken, ring.limit);
        } else {
          NothingHeld();
        }
        var item := Peek();
        if item.Err? {
          return Err(item.error);
        }
        match item.value
        case Empty =>
          return Ok(None);
        case PaddingItem(receipt) =>
          var consumed := Consume(receipt);
        case RecordItem(record, receipt) =>
          var consumed := Consume(receipt);
          return Ok(Some(record));
      }
    }
  }

  /** What `consume` does to the two words it changes. */
  datatype Consumed = Consumed(answer: Result<ConsumeOutcome>, consumer: u32, expected: u32)

  function ConsumeWith(capacity: u32, producer: u32, consumer: u32, expected: u32, receipt: ReadReceipt): Consumed {
    if consumer != receipt.current then Consumed(Err(InvalidCursor), consumer, expected)
    else if receipt.sequence.Some? && receipt.sequence.value != expected then
      Consumed(Err(ProtocolViolation), consumer, expected)
    else
      var next := if receipt.sequence.Some? then WrappingAdd(expected, 1) else expected;
      var refused := ConsumeCheck(capacity, producer, consumer, receipt.next);
      if refused.Some? then Consumed(Err(refused.value), consumer, next)
      else
        var remaining := WrappingSub(producer, receipt.next);
        if remaining > capacity then Consumed(Err(InvalidCursor), receipt.next, next)
        else Consumed(Ok(ConsumeOutcome(remaining, remaining == 0)), receipt.next, next)
  }

  /** The receipt of the head passes every check and removes exactly the head. */
  lemma CurrentConsumes(bytes: seq<u8>, capacity: u32, c: nat, p: nat, items: seq<Item>, taken: nat, limit: u32)
    requires Committed(bytes, capacity, c, p, items, taken, limit) && items != []
    ensures var next := c + ItemLength(items[0]);
            var count := NextCount(items[0], taken);
            && ConsumeWith(capacity, Wrap(p), Wrap(c), Wrap(taken), HeadItem(items, c).receipt)
               == Consumed(Ok(ConsumeOutcome(p - next, p == next)), Wrap(next), Wrap(count))
            && Committed(bytes, capacity, next, p, items[1..], count, limit)
  {
    hide Committed, Placed, Offset, Wrap, ConsumeCheck, WrappingSub, WrappingAdd, Length, Bytes, Holds;
    CommittedFacts(bytes, capacity, c, p, items, taken, limit);
    PopHead(bytes, capacity, c, p, items, taken, limit);
    if items[0].Rec? {
      HeadSequence(bytes, capacity, c, p, items, taken, limit);
    }
    WrapOfSum(taken, 1);
    WrapDistance(c + ItemLength(items[0]), p);
  }

  /** What `consume` makes of the receipt of the item that stood at position `at`, once c bytes are
      consumed: it is accepted exactly when a multiple of 2^32 bytes was consumed since, a record's
      sequence number is the expected one again, and the range lies in what is committed. It is then
      carried out from the present position. */
  lemma ReceiptAcceptedIff(capacity: u32, at: nat, c: nat, p: nat, items: seq<Item>, taken: nat)
    requires ValidCapacity(capacity) && at <= c && Ordered(capacity, c, p)
    requires items != [] && 0 < ItemLength(items[0]) <= capacity
    ensures var length := ItemLength(items[0]);
            var outcome := ConsumeWith(capacity, Wrap(p), Wrap(c), Wrap(taken), HeadItem(items, at).receipt);
            && (outcome.answer.Ok? <==>
                && (c - at) % TWO32 == 0
                && (items[0].Rec? ==> items[0].record.header.sequence == Wrap(taken))
                && c + length <= p)
            && (outcome.answer.Ok? ==>
                && outcome.answer == Ok(ConsumeOutcome(p - (c + length), p == c + length))
                && outcome.consumer == Wrap(c + length) && outcome.expected == Wrap(NextCount(items[0], taken)))
            && (outcome.answer.Err? ==> outcome.consumer == Wrap(c))
  {
    hide Wrap, WrappingSub, WrappingAdd, ConsumeCheck;
    WrapsTogetherIff(at, c);
    if (c - at) % TWO32 == 0 {
      SameNext(at, c, ItemLength(items[0]));
      ConsumeRange(capacity, c, p, ItemLength(items[0]));
      WrapOfSum(taken, 1);
    }
  }

  lemma SameNext(at: nat, c: nat, length: nat)
    requires at <= c && (c - at) % TWO32 == 0
    ensures Wrap(at + length) == Wrap(c + length)
  {
    WrapsTogetherIff(at + length, c + length);
  }

  /** The memory takes a consumption of `length` bytes exactly when they are committed. */
  lemma ConsumeRange(capacity: u32, c: nat, p: nat, length: nat)
    requires ValidCapacity(capacity) && Ordered(capacity, c, p) && 0 < length <= capacity
    ensures ConsumeCheck(capacity, Wrap(p), Wrap(c), Wrap(c + length)) == if c + length <= p then None else Some(InvalidCursor)
    ensures c + length <= p ==> WrappingSub(Wrap(p), Wrap(c + length)) == p - (c + length)
  {
    WrapDistance(c, p);
    WrapDistance(c, c + length);
    if c + length <= p {
      WrapDistance(c + length, p);
    }
  }

  /** An old receipt that is accepted and takes more than the head: exactly 2^32 bytes after the padding
      at the end of a lap was reported, a short record and its implicit tail stand in its place. */
  lemma OldReceiptSwallows(capacity: u32, count: nat, next: nat, pad: Item, long: Item, short: Item, tail: Item)
    requires capacity == 64
    requires pad == Pad(32, Wrap(count)) && long == Rec(OwnedRecord(
      Header(40, 16, Some(1), Wrap(count), Data, END_OF_MESSAGE), Zeros(16)))
    requires short == Rec(OwnedRecord(Header(24, 0, Some(1), Wrap(next), Data, END_OF_MESSAGE), []))
    requires tail == Pad(8, Wrap(next + 1))
    ensures var at, c := 32, 32 + TWO32;
            var behind := Rec(OwnedRecord(Header(24, 0, Some(1), Wrap(next + 1), Data, END_OF_MESSAGE), []));
            && TWO32 % capacity == 0 && Ordered(capacity, c, c + 56)
            && Placed([pad, long], at, capacity, count, 16)
            && Placed([short, tail, behind], c, capacity, next, 16) && Length([short, tail, behind]) == 56
            && ConsumeWith(capacity, Wrap(c + 56), Wrap(c), Wrap(next), HeadItem([pad, long], at).receipt)
               == Consumed(Ok(ConsumeOutcome(24, false)), Wrap(c + 32), Wrap(next))
  {
    hide ConsumeWith;
    var behind := Rec(OwnedRecord(Header(24, 0, Some(1), Wrap(next + 1), Data, END_OF_MESSAGE), []));
    var c := 32 + TWO32;
    assert [pad] + [long] == [pad, long] && [short] + [tail, behind] == [short, tail, behind];
    assert [tail] + [behind] == [tail, behind] && [long] + [] == [long] && [behind] + [] == [behind];
    PlacedBefore(long, [], 64, capacity, count, 16);
    PlacedBefore(pad, [long], 32, capacity, count, 16);
    PlacedBefore(behind, [], c + 32, capacity, next + 1, 16);
    PlacedBefore(tail, [behind], c + 24, capacity, next + 1, 16);
    PlacedBefore(short, [tail, behind], c, capacity, next, 16);
    ReceiptAcceptedIff(capacity, 32, c, c + 56, [pad, long], next);
  }

  lemma PlacedBefore(it: Item, rest: seq<Item>, pos: nat, capacity: u32, count: nat, limit: u32)
    requires capacity > 0 && ItemFits(it, pos, capacity, count, limit) && (it.Pad? ==> rest != [] && rest[0].Rec?)
    requires rest != [] ==> Placed(rest, pos + ItemLength(it), capacity, NextCount(it, count), limit)
    ensures Placed([it] + rest, pos, capacity, count, limit) && Length([it] + rest) == ItemLength(it) + Length(rest)
  {
    assert ([it] + rest)[1..] == rest;
  }

  lemma WrapsTogetherIff(x: nat, y: nat)
    requires x <= y
    ensures Wrap(x) == Wrap(y) <==> (y - x) % TWO32 == 0
    ensures y < x + TWO32 ==> (Wrap(x) == Wrap(y) <==> x == y)
  {
    var d := y - x;
    if d % TWO32 == 0 {
      MultiplesVanish(x, d / TWO32, TWO32);
    }
  }

  lemma NothingHeld()
    ensures Records([]) == []
  {
  }

  lemma HeadSequence(bytes: seq<u8>, capacity: u32, c: nat, p: nat, items: seq<Item>, taken: nat, limit: u32)
    requires Committed(bytes, capacity, c, p, items, taken, limit) && items != [] && items[0].Rec?
    ensures items[0].record.header.sequence == Wrap(taken)
  {
  }
}
