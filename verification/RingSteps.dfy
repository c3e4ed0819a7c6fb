/** Every step of RingSystem keeps the invariant: no call ever fails once it has begun to touch memory,
    no read is torn, and the delivered stream stays the published one. */
module RingSteps {
  import opened Wrappers
  import opened Words
  import opened Geometry
  import opened Layout
  import opened RingMemory
  import opened Delivery
  import opened RingReader
  import opened RingWriter
  import opened RingSystem
  import opened RingInvariant

  /** The lap has room for the whole free space ahead of the producer. */
  predicate RunsSeamlessly(cfg: Config, s: World)
    requires cfg.Valid()
  {
    Seamless(cfg.capacity, s.h.published + cfg.capacity)
  }

  /** Item i of placed items stands where the lengths in front of it say. */
  lemma {:induction false} PlacedAt(items: seq<Item>, pos: nat, capacity: u32, count: nat, limit: u32, i: nat)
    requires capacity > 0 && Placed(items, pos, capacity, count, limit) && i < |items|
    ensures ItemOk(items[i])
    ensures Offset(capacity, pos + Length(items[..i])) + ItemLength(items[i]) <= capacity
    ensures Length(items[..i]) + ItemLength(items[i]) == Length(items[..i + 1]) <= Length(items)
    decreases i
  {
    hide Offset, ItemOk;
    var it := items[0];
    assert items[..i + 1][1..] == items[1..][..i];
    if i > 0 {
      assert items[..i][1..] == items[1..][..i - 1];
      PlacedAt(items[1..], pos + ItemLength(it), capacity, NextCount(it, count), limit, i - 1);
    }
  }

  /** The first unwritten item of a batch and where it goes. */
  lemma NextTask(cfg: Config, w: WriterState, h: History)
    requires cfg.Valid() && WriterInv(cfg, w, h) && w.phase.Planned? && w.phase.todo != []
    ensures h.written < |h.batch|
    ensures var it, q := h.batch[h.written], h.published + Length(Front(h));
            && ItemOk(it)
            && w.phase.todo[0] == TaskFor(it, q)
            && w.phase.todo[1..] == TasksAt(h.batch[h.written + 1..], q + ItemLength(it))
            && Offset(cfg.capacity, q) + ItemLength(it) <= cfg.capacity
            && q + ItemLength(it) <= h.consumed + cfg.capacity
  {
    hide Offset, ItemOk, Announces, Placed, Length, Wrap, Records;
    assert h.batch[h.written..] != [];
    assert h.batch[h.written..][1..] == h.batch[h.written + 1..];
    PlacedAt(h.batch, h.published, cfg.capacity, |h.log|, cfg.limits.maximumInline, h.written);
  }

  /** A planned write is always accepted: the reader can only have made more room. */
  lemma BeginWriteKeeps(cfg: Config, s: World)
    requires cfg.Valid() && Inv(cfg, s) && RunsSeamlessly(cfg, s)
    ensures Inv(cfg, ApplyWriter(cfg, s, BeginWrite))
  {
    hide Offset, ItemOk, Announces, Placed, Length, Wrap, Records, ItemBytes, Bytes, Holds, WriteRange, TasksAt, TaskData, TaskFor;
    hide ReaderInv, LogInv, AllOk;
    var w, h := s.w, s.h;
    if w.phase.Planned? && w.phase.todo != [] {
      NextTask(cfg, w, h);
      var it, q := h.batch[h.written], h.published + Length(Front(h));
      TaskWritesItem(it, q);
      SeamlessBelow(cfg.capacity, q, h.published + cfg.capacity);
      WriteAccepted(cfg.capacity, h.published, h.consumed, q, ItemLength(it));
      FrontOk(h);
      assert ItemBytes(it)[..0] == [] && Bytes(Front(h)) + [] == Bytes(Front(h));
    }
  }

  /** The front of the batch grows by the item just written. */
  lemma FrontGrows(h: History)
    requires AllOk(h.batch) && h.written < |h.batch|
    ensures var after := h.(written := h.written + 1);
            && AllOk(Front(h)) && AllOk(Front(after)) && ItemOk(h.batch[h.written])
            && Bytes(Front(after)) == Bytes(Front(h)) + ItemBytes(h.batch[h.written])
            && Length(Front(after)) == Length(Front(h)) + ItemLength(h.batch[h.written])
  {
    hide ItemBytes, Bytes, Length, ItemOk;
    var it := h.batch[h.written];
    assert h.batch[..h.written + 1] == h.batch[..h.written] + [it];
    SingleItem(it);
    BytesAppend(h.batch[..h.written], [it]);
    LengthAppend(h.batch[..h.written], [it]);
  }

  /** Copying one byte touches no published byte and completes the image of the batch in order. */
  lemma CopyByteKeeps(cfg: Config, s: World)
    requires cfg.Valid() && Inv(cfg, s) && RunsSeamlessly(cfg, s)
    ensures Inv(cfg, ApplyWriter(cfg, s, CopyByte))
  {
    hide Offset, ItemOk, Announces, Placed, Length, Wrap, Records, ItemBytes, Bytes, Holds, TasksAt;
    hide ReaderInv, AllOk, Ordered, Deliver, SentInv;
    if s.w.phase.Copying? {
      FrontGrows(s.h);
      if s.w.phase.done == |s.w.phase.data| {
        assert s.w.phase.data[..s.w.phase.done] == s.w.phase.data;
        ReaderKeeps(cfg, s.r, s.h, s.h.(written := s.h.written + 1));
      } else {
        CopyOne(cfg, s);
      }
    }
  }

  lemma CopyOne(cfg: Config, s: World)
    requires cfg.Valid() && Inv(cfg, s)
    requires s.w.phase.Copying? && s.w.phase.done < |s.w.phase.data|
    ensures var after := ApplyWriter(cfg, s, CopyByte);
            && after.w.phase.Copying? && after.w.phase.done == s.w.phase.done + 1
            && MemoryInv(cfg, after.m, s.h, Image(after.w, s.h))
  {
    hide Offset, ItemOk, Announces, Placed, Wrap, Records, ItemBytes, Holds, TasksAt, ReaderInv, LogInv, AllOk, Bytes, Length;
    var w, h := s.w.phase, s.h;
    var q := h.published + Length(Front(h));
    FrontGrows(h);
    PlacedAt(h.batch, h.published, cfg.capacity, |h.log|, cfg.limits.maximumInline, h.written);
    OffsetWithinLap(cfg.capacity, q, w.done);
    var front, v := Bytes(Front(h)), w.data[w.done];
    ConcatAssociates(Bytes(h.items), front, w.data[..w.done]);
    var image := Bytes(h.items) + (front + w.data[..w.done]);
    HoldsNext(s.m.bytes, h.consumed, image, v);
    assert image + [v] == Bytes(h.items) + (front + w.data[..w.done + 1]);
  }

  lemma CheckPublishKeeps(cfg: Config, s: World)
    requires cfg.Valid() && Inv(cfg, s)
    ensures Inv(cfg, ApplyWriter(cfg, s, CheckPublish))
  {
    hide Offset, ItemOk, Announces, Placed, Length, Wrap, Records, Bytes, Holds, PublishCheck, ReaderInv, LogInv, AllOk;
    var w, h := s.w, s.h;
    if w.phase.Planned? && w.phase.todo == [] {
      assert h.batch[h.written..] == [];
      PublishAccepted(cfg.capacity, h.published, h.consumed, h.published + Length(h.batch));
    }
  }

  /** One store of the cursor publishes the whole batch, and with it exactly one event. */
  lemma StorePublishKeeps(cfg: Config, s: World)
    requires cfg.Valid() && Inv(cfg, s)
    ensures Inv(cfg, ApplyWriter(cfg, s, StorePublish))
  {
    hide Offset, ItemOk, Announces, Placed, Length, Wrap, Records, Bytes, Holds, ReaderInv, AllOk, Deliver, SentInv;
    var h := s.h;
    if s.w.phase.Publishing? {
      var after := ApplyWriter(cfg, s, StorePublish);
      PublishedMemory(cfg, s);
      PublishedLog(cfg, s);
      NothingAhead();
      ReaderKeeps(cfg, s.r, h, after.h);
    }
  }

  lemma NothingAhead()
    ensures AllOk([])
  {
  }

  lemma PublishedMemory(cfg: Config, s: World)
    requires cfg.Valid() && Inv(cfg, s) && s.w.phase.Publishing?
    ensures var after := ApplyWriter(cfg, s, StorePublish);
            MemoryInv(cfg, after.m, after.h, [])
  {
    hide Offset, ItemOk, Announces, Placed, Length, Wrap, Bytes, Records, Holds, ReaderInv, AllOk;
    var h := s.h;
    assert h.batch[..h.written] == h.batch;
    BytesAppend(h.items, h.batch);
    LengthAppend(h.items, h.batch);
    LengthAligned(h.batch);
    assert h.consumed + Length(h.items) == h.published;
    LogCount(cfg, s);
    PlacedAppend(h.items, h.batch, h.consumed, cfg.capacity, h.taken, cfg.limits.maximumInline);
    assert Bytes(h.items + h.batch) + [] == Bytes(h.items) + Bytes(h.batch);
  }

  lemma LogCount(cfg: Config, s: World)
    requires cfg.Valid() && LogInv(cfg, s.w.localClosed, s.r, s.h)
    ensures |s.h.log| == s.h.taken + |Records(s.h.items)|
  {
    hide Records, Deliver, SentInv;
  }

  lemma PublishedLog(cfg: Config, s: World)
    requires cfg.Valid() && Inv(cfg, s) && s.w.phase.Publishing?
    ensures var after := ApplyWriter(cfg, s, StorePublish);
            LogInv(cfg, after.w.localClosed, after.r, after.h)
  {
    hide Offset, ItemOk, Announces, Placed, Length, Wrap, Bytes, Records, Holds, ReaderInv, AllOk, Deliver, MemoryInv;
    var h, event, batch := s.h, s.w.phase.event, Records(s.h.batch);
    RecordsAppend(h.items, h.batch);
    ConcatAssociates(h.got + Hand(s.r), Records(h.items), batch);
    DeliverAnnounced(cfg.limits, batch, s.w.nextId, |h.log|, event);
    DeliverAppend(cfg.limits, None, h.log, batch);
  }

  /** Dropping a batch in any stage of writing leaves what is published alone. */
  lemma AbandonKeeps(cfg: Config, s: World)
    requires cfg.Valid() && Inv(cfg, s)
    ensures Inv(cfg, ApplyWriter(cfg, s, Abandon))
  {
    hide Offset, ItemOk, Announces, Placed, Length, Wrap, Records, Bytes, Holds, TasksAt, AllOk;
    HoldsSuffix(s.m.bytes, s.h.consumed, Bytes(s.h.items), Image(s.w, s.h));
    assert Bytes(s.h.items) + [] == Bytes(s.h.items);
    NothingAhead();
    ReaderKeeps(cfg, s.r, s.h, ApplyWriter(cfg, s, Abandon).h);
  }

  /** What the positions say about the head: nothing is in flight, or the whole first item is. */
  lemma HeadInFlight(cfg: Config, m: Memory, h: History, image: seq<u8>)
    requires cfg.Valid() && MemoryInv(cfg, m, h, image)
    ensures SeesHead(h.items, h.consumed, h.published)
    ensures h.items == [] <==> h.published == h.consumed
    ensures h.items != [] ==> ItemOk(h.items[0]) && h.consumed + ItemLength(h.items[0]) <= h.published
    ensures h.items != [] && h.items[0].Rec? ==> h.items[0].record.header.sequence == Wrap(h.taken)
  {
    hide Bytes, Holds, Wrap;
  }

  /** A glance through whatever producer cursor was loaded sees the head as the writer laid it out. */
  lemma LookKeeps(cfg: Config, s: World)
    requires cfg.Valid() && Inv(cfg, s) && RunsSeamlessly(cfg, s)
    ensures Inv(cfg, ApplyReader(cfg, s, Look))
  {
    hide Offset, ItemOk, Placed, Length, Wrap, Records, Bytes, Holds, AllOk, GlanceAt, LogInv, Ordered, TasksAt, Announces;
    var h := s.h;
    if s.r.phase.Waiting? {
      HeadInFlight(cfg, s.m, h, Image(s.w, h));
      SeamlessBelow(cfg.capacity, h.consumed, h.published + cfg.capacity);
      GlanceSees(cfg.capacity, h.consumed, h.published, h.items, h.taken, cfg.limits.maximumInline);
      PhaseKeepsLog(cfg, s, ApplyReader(cfg, s, Look).r);
    }
  }

  /** A reader step that consumes nothing changes neither log nor hand. */
  lemma PhaseKeepsLog(cfg: Config, s: World, after: ReaderState)
    requires LogInv(cfg, s.w.localClosed, s.r, s.h)
    requires after.partial == s.r.partial && Hand(after) == Hand(s.r)
    ensures LogInv(cfg, s.w.localClosed, after, s.h)
  {
    hide Records, Deliver, SentInv;
  }

  lemma BeginReadKeeps(cfg: Config, s: World)
    requires cfg.Valid() && Inv(cfg, s) && RunsSeamlessly(cfg, s)
    ensures Inv(cfg, ApplyReader(cfg, s, BeginRead))
  {
    hide Offset, ItemOk, Placed, Length, Wrap, Records, Bytes, Holds, AllOk, ReadRange, WriterInv, LogInv;
    var h := s.h;
    if s.r.phase.Fetching? {
      SeamlessBelow(cfg.capacity, h.consumed, h.published + cfg.capacity);
      ReadAccepted(cfg.capacity, h.published, h.consumed, s.r.phase.contiguous);
      PhaseKeepsLog(cfg, s, ApplyReader(cfg, s, BeginRead).r);
    }
  }

  /** A byte the reader copies is the published one, whatever the writer is writing meanwhile. */
  lemma LoadByteKeeps(cfg: Config, s: World)
    requires cfg.Valid() && Inv(cfg, s)
    ensures Inv(cfg, ApplyReader(cfg, s, LoadByte))
  {
    hide Offset, ItemOk, Placed, Length, Wrap, Records, Bytes, AllOk, LogInv, Holds, Ordered, TasksAt, Announces;
    var h, phase := s.h, s.r.phase;
    if phase.Loading? && |phase.buffer| < phase.contiguous {
      PublishedByte(s.m.bytes, h.consumed, Bytes(h.items), Image(s.w, h), |phase.buffer|);
      PhaseKeepsLog(cfg, s, ApplyReader(cfg, s, LoadByte).r);
    }
  }

  lemma PublishedByte(bytes: seq<u8>, c: nat, published: seq<u8>, image: seq<u8>, k: nat)
    requires |bytes| > 0 && Holds(bytes, c, published + image)
    requires k < |published| && Offset(|bytes|, c) + k < |bytes|
    ensures bytes[Offset(|bytes|, c) + k] == published[k]
  {
    hide Offset;
    OffsetWithinLap(|bytes|, c, k);
    assert (published + image)[k] == published[k];
  }

  /** The copied bytes decode to the very item the writer published. */
  lemma DecideKeeps(cfg: Config, s: World)
    requires cfg.Valid() && Inv(cfg, s)
    ensures Inv(cfg, ApplyReader(cfg, s, Decide))
  {
    hide Offset, ItemOk, Placed, Length, Wrap, Records, ItemBytes, WriterInv, LogInv, Inspect, Holds, Ordered;
    var h, phase := s.h, s.r.phase;
    if phase.Loading? && |phase.buffer| >= phase.contiguous {
      assert Bytes(h.items) == ItemBytes(h.items[0]) + Bytes(h.items[1..]);
      assert phase.buffer[..ItemLength(h.items[0])] == ItemBytes(h.items[0]);
      InspectSees(cfg.capacity, h.consumed, h.items, h.taken, cfg.limits.maximumInline, phase.buffer, phase.used);
      HeadIsClean(cfg, s);
      PhaseKeepsLog(cfg, s, ApplyReader(cfg, s, Decide).r);
    }
  }

  /** No record a channel sends is poisoned. */
  lemma HeadIsClean(cfg: Config, s: World)
    requires cfg.Valid() && Inv(cfg, s) && s.h.items != [] && !s.r.phase.Finishing?
    ensures Sight(s.h.items, s.h.consumed) == Ok(HeadItem(s.h.items, s.h.consumed))
  {
    hide Wrap, Placed, Deliver, WriterInv, ReaderInv, MemoryInv, SentInv;
    var h := s.h;
    if h.items[0].Rec? {
      var first := h.items[0].record;
      assert h.log == h.got + Records(h.items) && Records(h.items)[0] == first;
      DeliverPrefix(cfg.limits, None, h.got, Records(h.items));
      FirstIsClean(cfg.limits, s.r.partial, Records(h.items));
    }
  }

  /** A decided item is always consumable: its sequence number is the expected one. */
  lemma CheckConsumeKeeps(cfg: Config, s: World)
    requires cfg.Valid() && Inv(cfg, s)
    ensures Inv(cfg, ApplyReader(cfg, s, CheckConsume))
  {
    hide Offset, ItemOk, Placed, Length, Wrap, Records, Bytes, AllOk, LogInv, ConsumeCheck, Holds, WrappingAdd, TasksAt, Announces;
    var h := s.h;
    if s.r.phase.Consuming? {
      HeadInFlight(cfg, s.m, h, Image(s.w, h));
      ConsumeAccepted(cfg.capacity, h.published, h.consumed, h.consumed + ItemLength(h.items[0]));
      WrapOfSum(h.taken, 1);
      PhaseKeepsLog(cfg, s, ApplyReader(cfg, s, CheckConsume).r);
    }
  }

  /** Consuming hands the head over and gives its bytes back to the writer. */
  lemma StoreConsumeKeeps(cfg: Config, s: World)
    requires cfg.Valid() && Inv(cfg, s)
    ensures Inv(cfg, ApplyReader(cfg, s, StoreConsume))
  {
    hide Offset, ItemOk, Placed, Length, Wrap, Records, Bytes, AllOk, Holds, Announces, TasksAt, Deliver, SentInv, Ordered, ItemBytes;
    var h := s.h;
    if s.r.phase.Storing? {
      PoppedMemory(cfg, s.m, h, Image(s.w, h));
      ItemsHoldARecord(h.items, h.consumed, cfg.capacity, h.taken, cfg.limits.maximumInline);
    }
  }

  lemma PoppedMemory(cfg: Config, m: Memory, h: History, image: seq<u8>)
    requires cfg.Valid() && MemoryInv(cfg, m, h, image) && h.items != []
    ensures MemoryInv(cfg, m.(consumer := Wrap(Popped(h).consumed)), Popped(h), image)
    ensures h.consumed <= Popped(h).consumed <= h.published
  {
    hide Offset, Holds, ItemBytes, ItemFits, Wrap, ItemOk;
    HeadInFlight(cfg, m, h, image);
    var it := h.items[0];
    assert h.items == [it] + h.items[1..];
    ConcatAssociates(ItemBytes(it), Bytes(h.items[1..]), image);
    HoldsSuffix(m.bytes, h.consumed, ItemBytes(it), Bytes(h.items[1..]) + image);
    HeadAligned(it, h.consumed);
  }

  /** Handing a record to the channel never faults, and delivers what the log says comes next. */
  lemma FinishConsumeKeeps(cfg: Config, s: World)
    requires cfg.Valid() && Inv(cfg, s)
    ensures Inv(cfg, ApplyReader(cfg, s, FinishConsume))
  {
    hide Offset, ItemOk, Placed, Length, Wrap, Records, Bytes, AllOk, Holds, ChannelStep, SentInv, WrappingSub, TasksAt, Announces, Deliver;
    var h, phase := s.h, s.r.phase;
    if phase.Finishing? {
      WrapDistance(h.consumed, h.published);
      if phase.record.Some? {
        Handed(cfg, s);
        assert h.got + [phase.record.value] + [] + Records(h.items) == h.log && h.events + [] == h.events;
      } else {
        assert Hand(s.r) == [];
      }
    }
  }

  lemma Handed(cfg: Config, s: World)
    requires LogInv(cfg, s.w.localClosed, s.r, s.h) && s.r.phase.Finishing? && s.r.phase.record.Some?
    ensures var record := s.r.phase.record.value;
            var step := ChannelStep(cfg.limits, s.r.partial, record);
            var events := s.h.events + if step.Emit? then [step.event] else [];
            && !step.Fault?
            && Deliver(cfg.limits, None, s.h.got + [record]) == Ok(Delivered(events, step.partial))
            && s.h.log == s.h.got + [record] + Records(s.h.items)
  {
    hide Records, ChannelStep, SentInv;
    var h, record := s.h, s.r.phase.record.value;
    DeliverPrefix(cfg.limits, None, h.got + [record], Records(h.items));
    DeliverPrefix(cfg.limits, None, h.got, [record]);
    DeliverAppend(cfg.limits, None, h.got, [record]);
    DeliverOne(cfg.limits, s.r.partial, record);
    assert h.events + [] == h.events;
  }
}
