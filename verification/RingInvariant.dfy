/** The invariant of every reachable state of RingSystem, and its preservation step by step. */
module RingInvariant {
  import opened Wrappers
  import opened Words
  import opened Record
  import opened RingCore
  import opened Geometry
  import opened Layout
  import opened RingMemory
  import opened BatchPlan
  import opened Delivery
  import opened RingReader
  import opened RingWriter
  import opened RingSystem

  /** The items of the batch that are completely written. */
  function Front(h: History): seq<Item> {
    if h.written <= |h.batch| then h.batch[..h.written] else h.batch
  }

  /** The write that puts an item at stream position q. */
  function TaskFor(it: Item, q: nat): Task {
    match it
    case Pad(length, sequence) => PadTask(Wrap(q), length, sequence)
    case Rec(record) => RecordTask(Wrap(q), record.header, record.payload)
  }

  function TasksAt(items: seq<Item>, q: nat): seq<Task> {
    if items == [] then [] else [TaskFor(items[0], q)] + TasksAt(items[1..], q + ItemLength(items[0]))
  }

  /** Unpublished bytes already written right behind the published ones. */
  ghost function Image(w: WriterState, h: History): seq<u8>
    requires AllOk(h.batch)
  {
    FrontOk(h);
    match w.phase
    case Planned(_, _, _, _) => Bytes(Front(h))
    case Publishing(_, _, _) => Bytes(Front(h))
    case Copying(_, data, done, _, _, _, _) => Bytes(Front(h)) + (if done <= |data| then data[..done] else data)
    case _ => []
  }

  lemma FrontOk(h: History)
    requires AllOk(h.batch)
    ensures AllOk(Front(h))
  {
  }

  /** Cursors, positions, layout, and bytes: what is published and what is written behind it. */
  ghost predicate MemoryInv(cfg: Config, m: Memory, h: History, image: seq<u8>)
    requires cfg.Valid()
  {
    && |m.bytes| == cfg.capacity
    && m.producer == Wrap(h.published) && m.consumer == Wrap(h.consumed)
    && Ordered(cfg.capacity, h.consumed, h.published)
    && h.published % ALIGNMENT == 0 && h.consumed % ALIGNMENT == 0
    && Length(h.items) == h.published - h.consumed
    && Placed(h.items, h.consumed, cfg.capacity, h.taken, cfg.limits.maximumInline)
    && AllOk(h.items)
    && Holds(m.bytes, h.consumed, Bytes(h.items) + image)
  }

  /** A planned batch fits the free space whatever the reader did since, and announces one event. */
  ghost predicate BatchInv(cfg: Config, w: WriterState, h: History, end: u32, sequence: u32, event: ChannelEvent)
    requires cfg.Valid()
  {
    && !w.localClosed
    && h.written <= |h.batch|
    && Placed(h.batch, h.published, cfg.capacity, |h.log|, cfg.limits.maximumInline)
    && h.published + Length(h.batch) <= h.consumed + cfg.capacity
    && end == Wrap(h.published + Length(h.batch))
    && sequence == Wrap(|h.log| + |Records(h.batch)|)
    && Announces(cfg.limits, Records(h.batch), w.nextId, |h.log|, event)
  }

  ghost predicate WriterInv(cfg: Config, w: WriterState, h: History)
    requires cfg.Valid()
  {
    && AllOk(h.batch)
    && w.nextSequence == Wrap(|h.log|)
    && match w.phase
       case Idle => h.batch == [] && h.written == 0
       case Planned(todo, end, sequence, event) =>
         && BatchInv(cfg, w, h, end, sequence, event)
         && todo == TasksAt(h.batch[h.written..], h.published + Length(Front(h)))
       case Copying(offset, data, done, todo, end, sequence, event) =>
         && BatchInv(cfg, w, h, end, sequence, event)
         && h.written < |h.batch| && data == ItemBytes(h.batch[h.written])
         && done <= |data|
         && offset == Offset(cfg.capacity, h.published + Length(Front(h))) && offset + |data| <= cfg.capacity
         && todo == TasksAt(h.batch[h.written + 1..], h.published + Length(Front(h)) + |data|)
       case Publishing(end, sequence, event) =>
         BatchInv(cfg, w, h, end, sequence, event) && h.written == |h.batch|
       case WriterBroken(_) => false
  }

  predicate RecordFirst(items: seq<Item>) {
    items != [] && items[0].Rec?
  }

  /** The item in front of the reader, with what it already decided about it. */
  ghost predicate Aimed(cfg: Config, h: History, contiguous: u32, used: u32)
    requires cfg.Valid()
  {
    && h.items != [] && !ShortTail(h.items[0])
    && ItemLength(h.items[0]) <= contiguous <= used
    && h.consumed + contiguous <= h.published
    && Offset(cfg.capacity, h.consumed) + contiguous <= cfg.capacity
  }

  predicate Decided(h: History, receipt: ReadReceipt, record: Option<OwnedRecord>) {
    && h.items != []
    && receipt == HeadItem(h.items, h.consumed).receipt
    && record == if h.items[0].Rec? then Some(h.items[0].record) else None
  }

  ghost predicate ReaderInv(cfg: Config, r: ReaderState, h: History)
    requires cfg.Valid()
  {
    && AllOk(h.items)
    && match r.phase
       case Waiting => r.expected == Wrap(h.taken)
       case Fetching(contiguous, used) => r.expected == Wrap(h.taken) && Aimed(cfg, h, contiguous, used)
       case Loading(offset, contiguous, used, buffer) =>
         && r.expected == Wrap(h.taken) && Aimed(cfg, h, contiguous, used)
         && offset == Offset(cfg.capacity, h.consumed)
         && |buffer| <= contiguous && buffer <= Bytes(h.items)
       case Consuming(receipt, record) => r.expected == Wrap(h.taken) && Decided(h, receipt, record)
       case Storing(receipt, record) =>
         Decided(h, receipt, record) && r.expected == Wrap(NextCount(h.items[0], h.taken))
       case Finishing(next, record) =>
         && r.expected == Wrap(h.taken) && next == Wrap(h.consumed)
         && (record.None? ==> RecordFirst(h.items))
       case ReaderBroken(_) => false
  }

  /** The record a receive has consumed but not yet returned. */
  function Hand(r: ReaderState): seq<OwnedRecord> {
    if r.phase.Finishing? && r.phase.record.Some? then [r.phase.record.value] else []
  }

  /** Only the last event sent may be terminal, and it is exactly when the sender is closed. */
  ghost predicate SentInv(sent: seq<ChannelEvent>, closed: bool) {
    && (forall i :: 0 <= i < |sent| && Terminal(sent[i]) ==> closed && i == |sent| - 1)
    && (closed ==> sent != [] && Terminal(sent[|sent| - 1]))
  }

  /** The FIFO and the delivered events. */
  ghost predicate LogInv(cfg: Config, closed: bool, r: ReaderState, h: History) {
    && h.log == h.got + Hand(r) + Records(h.items)
    && h.taken == |h.got| + |Hand(r)|
    && Deliver(cfg.limits, None, h.log) == Ok(Delivered(h.sent, None))
    && Deliver(cfg.limits, None, h.got) == Ok(Delivered(h.events, r.partial))
    && SentInv(h.sent, closed)
  }

  ghost predicate Inv(cfg: Config, s: World)
    requires cfg.Valid()
  {
    && WriterInv(cfg, s.w, s.h)
    && MemoryInv(cfg, s.m, s.h, Image(s.w, s.h))
    && ReaderInv(cfg, s.r, s.h)
    && LogInv(cfg, s.w.localClosed, s.r, s.h)
  }

  lemma InitInv(cfg: Config)
    requires cfg.Valid()
    ensures Inv(cfg, Init(cfg))
  {
  }

  /** What a reader knows survives whatever the writer does: items may only join behind. */
  lemma ReaderKeeps(cfg: Config, r: ReaderState, before: History, after: History)
    requires cfg.Valid() && ReaderInv(cfg, r, before) && AllOk(after.items)
    requires after.consumed == before.consumed && after.taken == before.taken
    requires before.items <= after.items && before.published <= after.published
    ensures ReaderInv(cfg, r, after)
  {
    hide Bytes, ItemOk, Offset, Wrap;
    assert after.items == before.items + after.items[|before.items|..];
    BytesAppend(before.items, after.items[|before.items|..]);
  }

  // ---- Planning ------------------------------------------------------------------------------

  /** A planned batch is carried out as the writes of its items at their positions. */
  lemma {:induction false} TasksOfReady(prepared: seq<Prepared>, q: nat, capacity: u32, count: nat, limit: u32)
    requires capacity > 0 && Ready(prepared, q, capacity, count, limit)
    requires forall i :: 0 <= i < |prepared| ==> Seen(prepared[i].header) == prepared[i].header
    ensures TasksOf(prepared) == TasksAt(ItemsOf(prepared), q)
    decreases |prepared|
  {
    hide Offset, ReadyOne, TasksAt, ItemsOfOne, Seen;
    if prepared != [] {
      var e := prepared[0];
      ReadyGeometry(e, q, capacity, count, limit);
      TasksOfReady(prepared[1..], q + e.plan.paddingLength + e.plan.recordLength, capacity, count + 1, limit);
      TasksOfOne(e, ItemsOf(prepared[1..]), q, capacity);
    } else {
      NoTasks(q);
    }
  }

  lemma NoTasks(q: nat)
    ensures TasksAt([], q) == []
  {
  }

  lemma TasksOfOne(e: Prepared, tail: seq<Item>, q: nat, capacity: u32)
    requires capacity > 0 && PlannedAt(e.plan, capacity, q, e.header.recordLength) && Seen(e.header) == e.header
    ensures TasksAt(ItemsOfOne(e) + tail, q)
      == (if e.plan.paddingLength == 0 then [] else [PadTask(e.plan.startCursor, e.plan.paddingLength, e.header.sequence)])
         + [RecordTask(WrappingAdd(e.plan.startCursor, e.plan.paddingLength), e.header, e.payload)]
         + TasksAt(tail, q + e.plan.paddingLength + e.plan.recordLength)
  {
    hide Offset, TasksAt, Seen, Wrap;
    var pad := e.plan.paddingLength;
    var rec := Rec(OwnedRecord(Seen(e.header), e.payload));
    WrapOfSum(q, pad);
    TasksAtHead(rec, tail, q + pad);
    if pad > 0 {
      TasksAtHead(Pad(pad, e.header.sequence), [rec] + tail, q);
      assert ItemsOfOne(e) + tail == [Pad(pad, e.header.sequence)] + ([rec] + tail);
    } else {
      assert ItemsOfOne(e) + tail == [rec] + tail;
    }
  }

  /** Every record of a batch has the kind of the batch. */
  lemma {:induction false} PlannedKinds(
      capacity: u32, producer: u32, consumer: u32, fragments: seq<Fragment>, kind: RecordKind, id: MessageId,
      sequence: u32, maximumInline: u32)
    requires kind.Seen() == kind
    requires PlanBatch(capacity, producer, consumer, fragments, kind, id, sequence, maximumInline).Ok?
    ensures var prepared := PlanBatch(capacity, producer, consumer, fragments, kind, id, sequence, maximumInline).value;
            forall i :: 0 <= i < |prepared| ==> Seen(prepared[i].header) == prepared[i].header
    decreases |fragments|
  {
    hide PlanOne, Seen, WrappingAdd;
    if fragments != [] {
      var first := PlanOne(capacity, producer, consumer, fragments[0], kind, id, sequence, maximumInline).value;
      PlannedKind(capacity, producer, consumer, fragments[0], kind, id, sequence, maximumInline);
      PlannedKinds(capacity, first.plan.publishCursor, consumer, fragments[1..], kind, id, WrappingAdd(sequence, 1), maximumInline);
    }
  }

  lemma PlannedKind(
      capacity: u32, producer: u32, consumer: u32, f: Fragment, kind: RecordKind, id: MessageId, sequence: u32,
      maximumInline: u32)
    requires kind.Seen() == kind && PlanOne(capacity, producer, consumer, f, kind, id, sequence, maximumInline).Ok?
    ensures var h := PlanOne(capacity, producer, consumer, f, kind, id, sequence, maximumInline).value.header;
            Seen(h) == h
  {
    hide RingSnapshot.New, RingSnapshot.PlanWrite;
  }

  lemma TasksAtHead(it: Item, rest: seq<Item>, q: nat)
    ensures TasksAt([it] + rest, q) == [TaskFor(it, q)] + TasksAt(rest, q + ItemLength(it))
  {
    assert ([it] + rest)[1..] == rest;
  }

  lemma TaskWritesItem(it: Item, q: nat)
    requires ItemOk(it)
    ensures TaskData(TaskFor(it, q)) == Ok(ItemBytes(it)) && TaskFor(it, q).cursor == Wrap(q)
  {
  }

  /** Planning from any loaded consumer cursor: at most the free space is used, and nothing else
      changes. */
  lemma StartKeeps(cfg: Config, s: World, fragments: seq<Fragment>, kind: RecordKind, event: ChannelEvent)
    requires cfg.Valid() && Inv(cfg, s) && Seamless(cfg.capacity, s.h.published + cfg.capacity)
    requires s.w.phase.Idle? && !s.w.localClosed
    requires kind == Data || kind == RecordKind.Close || kind == RecordKind.Reset
    requires Inline(fragments) ==>
      Announces(cfg.limits, BatchRecords(fragments, kind, s.w.nextId, |s.h.log|), s.w.nextId, |s.h.log|, event)
    ensures Inv(cfg, Start(cfg, s, fragments, kind, event))
  {
    hide PlanBatch, TasksOf, ItemsOf, EndCursor, Ready, Placed, Length, Records, BatchRecords, BatchSpan, Announces, AllOk, AllSendable;
    hide Holds, ReaderInv, Inline, Wrap, Offset, Bytes;
    var h := s.h;
    var c, p, n := h.consumed, h.published, |h.log|;
    var plans := PlanBatch(cfg.capacity, s.m.producer, s.m.consumer, fragments, kind, s.w.nextId,
                           s.w.nextSequence, cfg.WriterInline());
    if plans.Ok? {
      SeamlessBelow(cfg.capacity, c + cfg.capacity, p + cfg.capacity);
      PlanBatchAccepts(cfg.capacity, c, p, fragments, kind, s.w.nextId, n, cfg.WriterInline());
      PlanBatchReady(cfg.capacity, c, p, fragments, kind, s.w.nextId, n, cfg.WriterInline(), cfg.limits.maximumInline);
      ReadyIsPlaced(plans.value, p, cfg.capacity, n, cfg.limits.maximumInline);
      PlannedKinds(cfg.capacity, s.m.producer, s.m.consumer, fragments, kind, s.w.nextId, s.w.nextSequence, cfg.WriterInline());
      TasksOfReady(plans.value, p, cfg.capacity, n, cfg.limits.maximumInline);
      WrapOfWrap(n, |fragments|);
      BatchCount(fragments, kind, s.w.nextId, n);
      FreshBatch(ItemsOf(plans.value), p);
      ReaderKeeps(cfg, s.r, h, Start(cfg, s, fragments, kind, event).h);
    }
  }

  lemma FreshBatch(batch: seq<Item>, p: nat)
    ensures batch[..0] == [] && batch[0..] == batch && Length(batch[..0]) == 0 && Bytes([]) == []
  {
  }
}
