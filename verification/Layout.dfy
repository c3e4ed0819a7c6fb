/** The committed contents of a ring: items at stream positions, and the bytes that hold them. */
module Layout {
  import opened Wrappers
  import opened Words
  import opened Record
  import opened RingCore
  import opened Geometry

  /** A record as the reader returns it. */
  datatype OwnedRecord = OwnedRecord(header: Header, payload: seq<u8>)

  /** What one contiguous stretch of the stream holds: a wrap tail or a record. */
  datatype Item = Pad(length: u32, sequence: u32) | Rec(record: OwnedRecord)

  /** A record that can stand on the ring, under the kind its wire value names. */
  predicate RecordOk(r: OwnedRecord) {
    && r.header.recordLength % ALIGNMENT == 0
    && r.header.recordLength >= PREFIX_SIZE
    && !UnknownRequiredBits(r.header.flags)
    && r.header.kind.Canonical()
    && r.header.payloadLength <= MAX_INLINE_MESSAGE_SIZE
    && r.header.messageId.Some?
    && AlignUp(PREFIX_SIZE + r.header.payloadLength) == Some(r.header.recordLength)
    && |r.payload| == r.header.payloadLength
  }

  /** An unknown kind can carry the wire value of padding. Such a record takes its place on the ring,
      but no reader accepts it. */
  predicate Poisoned(r: OwnedRecord) {
    r.header.kind == Padding
  }

  predicate ItemOk(it: Item) {
    match it
    case Pad(length, _) => 0 < length <= MAX_RING_CAPACITY && length % ALIGNMENT == 0
    case Rec(r) => RecordOk(r)
  }

  function ItemLength(it: Item): u32 {
    match it
    case Pad(length, _) => length
    case Rec(r) => r.header.recordLength
  }

  /** A tail too short for a prefix is zeroed; a longer one carries a padding record. */
  function ItemBytes(it: Item): (b: seq<u8>)
    requires ItemOk(it)
    ensures |b| == ItemLength(it)
  {
    match it
    case Pad(length, sequence) =>
      if length >= PREFIX_SIZE then RecordBytes(PaddingHeader(length, sequence).value, []) else Zeros(length)
    case Rec(r) => RecordBytes(r.header, r.payload)
  }

  predicate AllOk(items: seq<Item>) {
    forall i :: 0 <= i < |items| ==> ItemOk(items[i])
  }

  function Length(items: seq<Item>): nat {
    if items == [] then 0 else ItemLength(items[0]) + Length(items[1..])
  }

  function Bytes(items: seq<Item>): (b: seq<u8>)
    requires AllOk(items)
    ensures |b| == Length(items)
  {
    if items == [] then [] else ItemBytes(items[0]) + Bytes(items[1..])
  }

  /** The records among the items, in order. */
  function Records(items: seq<Item>): seq<OwnedRecord> {
    if items == [] then [] else RecordOf(items[0]) + Records(items[1..])
  }

  function RecordOf(it: Item): seq<OwnedRecord> {
    if it.Rec? then [it.record] else []
  }

  /** Items laid out from stream position `pos`, the first record being number `count`.

      No item crosses the physical end; a pad fills its lap to the end and a record follows it;
      records carry consecutive sequence numbers and fit the reader's inline limit. */
  ghost predicate Placed(items: seq<Item>, pos: nat, capacity: u32, count: nat, maximumInline: u32)
    requires capacity > 0
    decreases |items|
  {
    items != [] ==>
    && ItemFits(items[0], pos, capacity, count, maximumInline)
    && (items[0].Pad? ==> |items| > 1 && items[1].Rec?)
    && Placed(items[1..], pos + ItemLength(items[0]), capacity, NextCount(items[0], count), maximumInline)
  }

  /** One item at its position. */
  predicate ItemFits(it: Item, pos: nat, capacity: u32, count: nat, maximumInline: u32)
    requires capacity > 0
  {
    && ItemOk(it)
    && Offset(capacity, pos) + ItemLength(it) <= capacity
    && match it
       case Pad(length, _) => Offset(capacity, pos) + length == capacity
       case Rec(r) => r.header.payloadLength <= maximumInline && r.header.sequence == Wrap(count)
  }

  function NextCount(it: Item, count: nat): nat {
    if it.Rec? then count + 1 else count
  }

  lemma {:induction false} PlacedOk(items: seq<Item>, pos: nat, capacity: u32, count: nat, maximumInline: u32)
    requires capacity > 0 && Placed(items, pos, capacity, count, maximumInline)
    ensures AllOk(items)
  {
    if items != [] {
      var it := items[0];
      PlacedOk(items[1..], pos + ItemLength(it), capacity, NextCount(it, count), maximumInline);
      assert items == [it] + items[1..];
    }
  }

  lemma {:induction false} LengthAppend(a: seq<Item>, b: seq<Item>)
    ensures Length(a + b) == Length(a) + Length(b)
  {
    if a == [] {
      assert a + b == b;
    } else {
      assert (a + b)[1..] == a[1..] + b;
      LengthAppend(a[1..], b);
    }
  }

  lemma {:induction false} RecordsAppend(a: seq<Item>, b: seq<Item>)
    ensures Records(a + b) == Records(a) + Records(b)
  {
    if a == [] {
      assert a + b == b;
    } else {
      assert (a + b)[1..] == a[1..] + b;
      RecordsAppend(a[1..], b);
      ConcatAssociates(RecordOf(a[0]), Records(a[1..]), Records(b));
    }
  }

  lemma {:induction false} BytesAppend(a: seq<Item>, b: seq<Item>)
    requires AllOk(a) && AllOk(b)
    ensures AllOk(a + b)
    ensures Bytes(a + b) == Bytes(a) + Bytes(b)
  {
    if a == [] {
      assert a + b == b;
    } else {
      assert (a + b)[1..] == a[1..] + b;
      BytesAppend(a[1..], b);
      ConcatAssociates(ItemBytes(a[0]), Bytes(a[1..]), Bytes(b));
    }
  }

  lemma ConcatAssociates<T>(x: seq<T>, y: seq<T>, z: seq<T>)
    ensures x + (y + z) == (x + y) + z
  {
  }

  /** Batches placed one after the other are placed together. */
  lemma {:induction false} PlacedAppend(
      a: seq<Item>, b: seq<Item>, pos: nat, capacity: u32, count: nat, maximumInline: u32)
    requires capacity > 0
    requires Placed(a, pos, capacity, count, maximumInline)
    requires Placed(b, pos + Length(a), capacity, count + |Records(a)|, maximumInline)
    ensures Placed(a + b, pos, capacity, count, maximumInline)
    decreases |a|
  {
    if a == [] {
      assert a + b == b;
    } else {
      hide ItemFits;
      var it := a[0];
      assert (a + b)[1..] == a[1..] + b;
      assert |Records(a)| == |Records(a[1..])| + NextCount(it, 0);
      PlacedAppend(a[1..], b, pos + ItemLength(it), capacity, NextCount(it, count), maximumInline);
      assert (a + b)[0] == it && (it.Pad? ==> (a + b)[1] == a[1]);
    }
  }

  /** Two paddings are never adjacent and a pad is never last: every pad is followed by a record
      that starts at physical offset zero. */
  lemma {:induction false} PadsAreFollowedByRecords(
      items: seq<Item>, pos: nat, capacity: u32, count: nat, maximumInline: u32, i: nat)
    requires capacity > 0 && Placed(items, pos, capacity, count, maximumInline)
    requires i < |items| && items[i].Pad?
    ensures i + 1 < |items| && items[i + 1].Rec?
    ensures Offset(capacity, pos + Length(items[..i + 1])) == 0
    decreases i
  {
    var it := items[0];
    if i == 0 {
      assert items[..1] == [it];
      OffsetAtLapEnd(capacity, pos, it.length);
    } else {
      PadsAreFollowedByRecords(items[1..], pos + ItemLength(it), capacity,
                               NextCount(it, count), maximumInline, i - 1);
      assert items[..i + 1][1..] == items[1..][..i];
    }
  }

  /** The physical bytes hold `image` from stream position `pos` on. */
  ghost predicate Holds(bytes: seq<u8>, pos: nat, image: seq<u8>) {
    |image| <= |bytes| && forall i :: 0 <= i < |image| ==> bytes[Offset(|bytes|, pos + i)] == image[i]
  }

  /** A contiguous physical window shows the image it holds. */
  lemma HoldsWindow(bytes: seq<u8>, pos: nat, image: seq<u8>, n: nat)
    requires |bytes| > 0 && Holds(bytes, pos, image) && n <= |image|
    requires Offset(|bytes|, pos) + n <= |bytes|
    ensures bytes[Offset(|bytes|, pos)..Offset(|bytes|, pos) + n] == image[..n]
  {
    forall k | 0 <= k < n
      ensures bytes[Offset(|bytes|, pos) + k] == image[k]
    {
      OffsetWithinLap(|bytes|, pos, k);
    }
  }

  lemma HoldsSuffix(bytes: seq<u8>, pos: nat, a: seq<u8>, b: seq<u8>)
    requires |bytes| > 0 && Holds(bytes, pos, a + b)
    ensures Holds(bytes, pos, a)
    ensures Holds(bytes, pos + |a|, b)
  {
    forall i | 0 <= i < |a|
      ensures bytes[Offset(|bytes|, pos + i)] == a[i]
    {
      assert (a + b)[i] == a[i];
    }
    forall i | 0 <= i < |b|
      ensures bytes[Offset(|bytes|, pos + |a| + i)] == b[i]
    {
      assert (a + b)[|a| + i] == b[i];
      assert pos + (|a| + i) == pos + |a| + i;
    }
  }

  lemma HoldsAppend(bytes: seq<u8>, pos: nat, a: seq<u8>, b: seq<u8>)
    requires |bytes| > 0 && Holds(bytes, pos, a) && Holds(bytes, pos + |a|, b)
    requires |a| + |b| <= |bytes|
    ensures Holds(bytes, pos, a + b)
  {
    forall i | 0 <= i < |a + b|
      ensures bytes[Offset(|bytes|, pos + i)] == (a + b)[i]
    {
      if i >= |a| {
        assert pos + i == pos + |a| + (i - |a|);
      }
    }
  }

  /** Writing the cell of a position outside the image, less than one lap away, leaves it held. */
  lemma HoldsElsewhere(bytes: seq<u8>, pos: nat, image: seq<u8>, q: nat, v: u8)
    requires |bytes| > 0 && Holds(bytes, pos, image)
    requires pos + |image| <= q < pos + |bytes|
    ensures Holds(bytes[Offset(|bytes|, q) := v], pos, image)
  {
    forall i | 0 <= i < |image|
      ensures bytes[Offset(|bytes|, q) := v][Offset(|bytes|, pos + i)] == image[i]
    {
      OffsetsDiffer(|bytes|, pos + i, q);
    }
  }

  /** Writing the next byte of an image extends what is held. */
  lemma HoldsNext(bytes: seq<u8>, pos: nat, image: seq<u8>, v: u8)
    requires |bytes| > 0 && Holds(bytes, pos, image) && |image| < |bytes|
    ensures Holds(bytes[Offset(|bytes|, pos + |image|) := v], pos, image + [v])
  {
    var after := bytes[Offset(|bytes|, pos + |image|) := v];
    HoldsElsewhere(bytes, pos, image, pos + |image|, v);
    forall i | 0 <= i < |image + [v]|
      ensures after[Offset(|bytes|, pos + i)] == (image + [v])[i]
    {
      if i < |image| {
        assert after[Offset(|bytes|, pos + i)] == image[i];
      }
    }
  }

  /** A whole contiguous write beyond the image keeps it and is itself held. */
  lemma HoldsSplice(bytes: seq<u8>, pos: nat, image: seq<u8>, q: nat, data: seq<u8>)
    requires |bytes| > 0 && Holds(bytes, pos, image)
    requires pos + |image| <= q && q + |data| <= pos + |bytes|
    requires Offset(|bytes|, q) + |data| <= |bytes|
    ensures Holds(Splice(bytes, Offset(|bytes|, q), data), pos, image)
    ensures Holds(Splice(bytes, Offset(|bytes|, q), data), q, data)
  {
    var off := Offset(|bytes|, q);
    var after := Splice(bytes, off, data);
    forall i | 0 <= i < |image|
      ensures after[Offset(|bytes|, pos + i)] == image[i]
    {
      var cell := Offset(|bytes|, pos + i);
      if off <= cell < off + |data| {
        OffsetWithinLap(|bytes|, q, cell - off);
        OffsetsDiffer(|bytes|, pos + i, q + (cell - off));
      }
    }
    forall i | 0 <= i < |data|
      ensures after[Offset(|bytes|, q + i)] == data[i]
    {
      OffsetWithinLap(|bytes|, q, i);
    }
  }
}
