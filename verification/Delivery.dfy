/** What a channel endpoint makes of the records it receives (the receiving half of
    crates/data-plane/nwipc-channel-core), as a function of the record stream. */
module Delivery {
  import opened Wrappers
  import opened Words
  import opened Record
  import opened Layout
  import opened BatchPlan
  import opened Fragmentation
  import opened Reassembly

  datatype ChannelEvent = Message(payload: seq<u8>) | Closed | Reset | Control(record: OwnedRecord)

  predicate Terminal(e: ChannelEvent) {
    e.Closed? || e.Reset?
  }

  /** What one received record does: it yields an event, needs more records, or is a fault. */
  datatype Reaction =
    | Emit(event: ChannelEvent, partial: Option<PartialMessage>)
    | More(partial: Option<PartialMessage>)
    | Fault(code: ErrorCode, partial: Option<PartialMessage>)

  /** The receiving policy: limits, and fragmentation on exactly when messages may exceed one record. */
  predicate Enabled(f: Fragmenter) {
    f.maximumMessage > f.maximumInline
  }

  function ChannelStep(f: Fragmenter, partial: Option<PartialMessage>, r: OwnedRecord): Reaction {
    if Poisoned(r) then
      Fault(ProtocolViolation, partial)
    else if r.header.kind == Data then
      if IsFragmented(r.header.flags) && !Enabled(f) then
        Fault(ProtocolViolation, partial)
      else
        var pushed := PushStep(f, partial, r.header, r.payload);
        match pushed.outcome
        case Err(code) => Fault(code, pushed.partial)
        case Ok(Pending) => More(pushed.partial)
        case Ok(Complete(payload)) => Emit(Message(payload), pushed.partial)
    else if IsFragmented(r.header.flags) then
      Fault(ProtocolViolation, partial)
    else if r.header.kind == RecordKind.Close then
      Emit(ChannelEvent.Closed, None)
    else if r.header.kind == RecordKind.Reset then
      Emit(ChannelEvent.Reset, None)
    else
      Emit(Control(r), partial)
  }

  /** One call of `receive` on the records in flight: the answer, the records left, the partial
      message left. The reader does not take a poisoned record off the ring. */
  datatype Received = Received(
    answer: Result<Option<ChannelEvent>>, rest: seq<OwnedRecord>, partial: Option<PartialMessage>)

  function ReceiveNext(f: Fragmenter, partial: Option<PartialMessage>, records: seq<OwnedRecord>): Received
    decreases |records|
  {
    if records == [] then
      Received(Ok(None), [], partial)
    else
      match ChannelStep(f, partial, records[0])
      case Emit(event, after) => Received(Ok(Some(event)), records[1..], after)
      case More(after) => ReceiveNext(f, after, records[1..])
      case Fault(code, after) => Received(Err(code), if Poisoned(records[0]) then records else records[1..], after)
  }

  /** What is left after n calls of `receive`. */
  function AfterCalls(f: Fragmenter, partial: Option<PartialMessage>, records: seq<OwnedRecord>, n: nat): seq<OwnedRecord>
    decreases n
  {
    if n == 0 then records
    else
      var got := ReceiveNext(f, partial, records);
      AfterCalls(f, got.partial, got.rest, n - 1)
  }

  /** A poisoned record blocks its ring: however often `receive` is called, neither it nor any record
      behind it is ever taken. */
  lemma {:induction false} PoisonBlocks(
      f: Fragmenter, partial: Option<PartialMessage>, before: seq<OwnedRecord>, poison: OwnedRecord,
      behind: seq<OwnedRecord>, n: nat)
    requires Poisoned(poison)
    ensures var left := AfterCalls(f, partial, before + [poison] + behind, n);
            |left| > |behind| && left[|left| - |behind| - 1..] == [poison] + behind
    decreases n
  {
    hide ReceiveNext;
    if n > 0 {
      var got := ReceiveNext(f, partial, before + [poison] + behind);
      var k := PoisonStops(f, partial, before, poison, behind);
      PoisonBlocks(f, got.partial, before[k..], poison, behind, n - 1);
    } else {
      assert before + [poison] + behind == before + ([poison] + behind);
    }
  }

  /** One call takes records in front of the poisoned one only. */
  lemma {:induction false} PoisonStops(
      f: Fragmenter, partial: Option<PartialMessage>, before: seq<OwnedRecord>, poison: OwnedRecord,
      behind: seq<OwnedRecord>) returns (k: nat)
    requires Poisoned(poison)
    ensures k <= |before|
    ensures ReceiveNext(f, partial, before + [poison] + behind).rest == before[k..] + [poison] + behind
    decreases |before|
  {
    hide PushStep;
    var records := before + [poison] + behind;
    if before == [] || Poisoned(before[0]) {
      k := 0;
    } else {
      assert records[0] == before[0] && records[1..] == before[1..] + [poison] + behind;
      k := 1;
      var step := ChannelStep(f, partial, before[0]);
      if step.More? {
        var rest := PoisonStops(f, step.partial, before[1..], poison, behind);
        k := rest + 1;
      }
    }
  }

  /** The events of a whole record stream, and the partial message at its end. */
  datatype Delivered = Delivered(events: seq<ChannelEvent>, partial: Option<PartialMessage>)

  function Deliver(f: Fragmenter, partial: Option<PartialMessage>, records: seq<OwnedRecord>): Result<Delivered>
    decreases |records|
  {
    if records == [] then
      Ok(Delivered([], partial))
    else
      match ChannelStep(f, partial, records[0])
      case Fault(code, _) => Err(code)
      case More(after) => Deliver(f, after, records[1..])
      case Emit(event, after) =>
        var rest :- Deliver(f, after, records[1..]);
        Ok(Delivered([event] + rest.events, rest.partial))
  }

  lemma DeliverOne(f: Fragmenter, partial: Option<PartialMessage>, record: OwnedRecord)
    ensures Deliver(f, partial, [record]) ==
      match ChannelStep(f, partial, record)
      case Fault(code, _) => Err(code)
      case More(after) => Ok(Delivered([], after))
      case Emit(event, after) => Ok(Delivered([event], after))
  {
    hide ChannelStep;
    assert [record][1..] == [];
    if ChannelStep(f, partial, record).Emit? {
      assert [ChannelStep(f, partial, record).event] + [] == [ChannelStep(f, partial, record).event];
    }
  }

  /** Delivering two stretches in turn is delivering them together. */
  lemma {:induction false} DeliverAppend(
      f: Fragmenter, partial: Option<PartialMessage>, a: seq<OwnedRecord>, b: seq<OwnedRecord>)
    requires Deliver(f, partial, a).Ok?
    ensures var first := Deliver(f, partial, a).value;
            var second := Deliver(f, first.partial, b);
            Deliver(f, partial, a + b) ==
              if second.Err? then second
              else Ok(Delivered(first.events + second.value.events, second.value.partial))
    decreases |a|
  {
    hide ChannelStep;
    if a == [] {
      assert a + b == b;
      var second := Deliver(f, partial, b);
      if second.Ok? {
        assert [] + second.value.events == second.value.events;
      }
    } else {
      assert (a + b)[1..] == a[1..] + b;
      var after := ChannelStep(f, partial, a[0]).partial;
      DeliverAppend(f, after, a[1..], b);
      var first := Deliver(f, after, a[1..]).value;
      var second := Deliver(f, first.partial, b);
      if second.Ok? && ChannelStep(f, partial, a[0]).Emit? {
        ConcatAssociates([ChannelStep(f, partial, a[0]).event], first.events, second.value.events);
      }
    }
  }

  /** A stretch of a stream that delivers without fault delivers without fault itself, and its events
      come first. */
  lemma {:induction false} DeliverPrefix(
      f: Fragmenter, partial: Option<PartialMessage>, a: seq<OwnedRecord>, b: seq<OwnedRecord>)
    requires Deliver(f, partial, a + b).Ok?
    ensures Deliver(f, partial, a).Ok?
    ensures Deliver(f, partial, a).value.events <= Deliver(f, partial, a + b).value.events
    ensures Deliver(f, Deliver(f, partial, a).value.partial, b).Ok?
    decreases |a|
  {
    hide ChannelStep;
    if a == [] {
      assert a + b == b;
    } else {
      assert (a + b)[1..] == a[1..] + b;
      DeliverPrefix(f, ChannelStep(f, partial, a[0]).partial, a[1..], b);
    }
  }

  lemma FirstIsClean(f: Fragmenter, partial: Option<PartialMessage>, records: seq<OwnedRecord>)
    requires records != [] && Deliver(f, partial, records).Ok?
    ensures !Poisoned(records[0])
  {
  }

  /** Repeating `receive` walks through the delivered events one by one. */
  lemma {:induction false} ReceiveIsDelivery(f: Fragmenter, partial: Option<PartialMessage>, records: seq<OwnedRecord>)
    requires Deliver(f, partial, records).Ok?
    ensures var all := Deliver(f, partial, records).value;
            var got := ReceiveNext(f, partial, records);
            if all.events == [] then
              got == Received(Ok(None), [], all.partial)
            else
              && got.answer == Ok(Some(all.events[0]))
              && Deliver(f, got.partial, got.rest) == Ok(Delivered(all.events[1..], all.partial))
    decreases |records|
  {
    hide ChannelStep;
    if records != [] && ChannelStep(f, partial, records[0]).More? {
      ReceiveIsDelivery(f, ChannelStep(f, partial, records[0]).partial, records[1..]);
    }
  }

  /** The pieces of one message, behind the bytes already delivered, yield exactly that message. */
  lemma {:induction false} DeliverPieces(f: Fragmenter, id: MessageId, count: nat, done: seq<u8>, rest: seq<u8>)
    requires f.Valid() && Enabled(f) && f.maximumInline <= MAX_INLINE_MESSAGE_SIZE
    requires |done| + |rest| <= f.maximumMessage && rest != []
    requires done == [] ==> |rest| > f.maximumInline
    ensures Inline(Pieces(rest, f.maximumInline))
    ensures Deliver(f, Begun(id, done), BatchRecords(Pieces(rest, f.maximumInline), Data, id, count))
            == Ok(Delivered([Message(done + rest)], None))
    decreases |rest|
  {
    hide PushStep, Begun, RecordLength;
    var inline := f.maximumInline;
    var pieces := Pieces(rest, inline);
    PiecesFit(rest, inline);
    PiecePush(f, id, count, done, pieces[0]);
    var records := BatchRecords(pieces, Data, id, count);
    assert records[0] == RecordFor(pieces[0], Data, id, count);
    if |rest| > inline {
      var head, tail := rest[..inline], rest[inline..];
      assert done + rest == done + head + tail && pieces[1..] == Pieces(tail, inline);
      DeliverPieces(f, id, count + 1, done + head, tail);
      assert records[1..] == BatchRecords(Pieces(tail, inline), Data, id, count + 1);
    } else {
      assert records[1..] == [];
      assert [Message(done + rest)] + [] == [Message(done + rest)];
    }
  }

  /** What a sender publishes for one event. */
  predicate Announces(f: Fragmenter, records: seq<OwnedRecord>, id: MessageId, count: nat, e: ChannelEvent)
    requires f.Valid()
  {
    match e
    case Message(payload) =>
      && f.Fragments(payload).Ok? && Inline(f.Fragments(payload).value)
      && records == BatchRecords(f.Fragments(payload).value, Data, id, count)
    case Closed =>
      records == [RecordFor(Fragment([], END_OF_MESSAGE), RecordKind.Close, id, count)]
    case Reset =>
      records == [RecordFor(Fragment([], END_OF_MESSAGE), RecordKind.Reset, id, count)]
    case Control(_) => false
  }

  /** However a message is fragmented, delivering its batch yields the message itself, and so do the
      closing records; the reassembler is clean afterwards. */
  lemma DeliverAnnounced(f: Fragmenter, records: seq<OwnedRecord>, id: MessageId, count: nat, e: ChannelEvent)
    requires f.Valid() && Announces(f, records, id, count, e)
    ensures Deliver(f, None, records) == Ok(Delivered([e], None))
  {
    match e {
      case Message(payload) =>
        if |payload| > f.maximumInline {
          PiecesInline(payload, f.maximumInline);
          DeliverPieces(f, id, count, [], payload);
          assert [] + payload == payload;
        } else {
          SingleRecord(Fragment(payload, END_OF_MESSAGE), Data, id, count);
          assert ChannelStep(f, None, records[0]) == Emit(e, None);
          assert [e] + [] == [e];
        }
      case Closed =>
        assert records[1..] == [];
      case Reset =>
        assert records[1..] == [];
    }
  }

  /** Inline pieces of a message longer than one piece bound the piece size. */
  lemma PiecesInline(payload: seq<u8>, inline: nat)
    requires inline > 0 && |payload| > inline && Inline(Pieces(payload, inline))
    ensures inline <= MAX_INLINE_MESSAGE_SIZE
  {
    assert Pieces(payload, inline)[0].payload == payload[..inline];
  }
}
