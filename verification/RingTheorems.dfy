/** What holds in every state that some interleaving of the two sides reaches. */
module RingTheorems {
  import opened Wrappers
  import opened Words
  import opened Record
  import opened Geometry
  import opened Layout
  import opened RingMemory
  import opened BatchPlan
  import opened Delivery
  import opened RingReader
  import opened RingSystem
  import opened RingInvariant
  import opened RingSteps

  lemma StartMessageKeeps(cfg: Config, s: World, payload: seq<u8>)
    requires cfg.Valid() && Inv(cfg, s) && RunsSeamlessly(cfg, s)
    ensures Inv(cfg, ApplyWriter(cfg, s, StartMessage(payload)))
  {
    hide Inv, Start, BatchRecords, Seamless;
    var fragments := cfg.limits.Fragments(payload);
    if s.w.phase.Idle? && !s.w.localClosed && !s.w.remoteClosed && fragments.Ok? {
      StartKeeps(cfg, s, fragments.value, Data, Message(payload));
    }
  }

  lemma StartFinishKeeps(cfg: Config, s: World, kind: RecordKind)
    requires cfg.Valid() && Inv(cfg, s) && RunsSeamlessly(cfg, s)
    ensures Inv(cfg, ApplyWriter(cfg, s, StartFinish(kind)))
  {
    hide Inv, Start, BatchRecords, Seamless;
    if s.w.phase.Idle? && !s.w.localClosed && (kind == RecordKind.Close || kind == RecordKind.Reset) {
      SingleRecord(Fragment([], END_OF_MESSAGE), kind, s.w.nextId, |s.h.log|);
      StartKeeps(cfg, s, [Fragment([], END_OF_MESSAGE)], kind,
                 if kind == RecordKind.Close then ChannelEvent.Closed else ChannelEvent.Reset);
    }
  }

  lemma HearRemoteCloseKeeps(cfg: Config, s: World)
    requires cfg.Valid() && Inv(cfg, s)
    ensures Inv(cfg, ApplyWriter(cfg, s, HearRemoteClose))
  {
    hide TasksAt, Announces, Placed, Length, Wrap, Records, Bytes, Holds, ReaderInv, LogInv, AllOk;
  }

  /** One step of either side. */
  lemma StepKeeps(cfg: Config, s: World, step: Step)
    requires cfg.Valid() && Inv(cfg, s) && RunsSeamlessly(cfg, s)
    ensures Inv(cfg, Apply(cfg, s, step))
  {
    hide Inv, ApplyWriter, ApplyReader, RunsSeamlessly;
    match step {
      case WriterDoes(w) =>
        match w {
          case StartMessage(payload) => StartMessageKeeps(cfg, s, payload);
          case StartFinish(kind) => StartFinishKeeps(cfg, s, kind);
          case BeginWrite => BeginWriteKeeps(cfg, s);
          case CopyByte => CopyByteKeeps(cfg, s);
          case CheckPublish => CheckPublishKeeps(cfg, s);
          case StorePublish => StorePublishKeeps(cfg, s);
          case Abandon => AbandonKeeps(cfg, s);
          case HearRemoteClose => HearRemoteCloseKeeps(cfg, s);
        }
      case ReaderDoes(r) =>
        match r {
          case Look => LookKeeps(cfg, s);
          case BeginRead => BeginReadKeeps(cfg, s);
          case LoadByte => LoadByteKeeps(cfg, s);
          case Decide => DecideKeeps(cfg, s);
          case CheckConsume => CheckConsumeKeeps(cfg, s);
          case StoreConsume => StoreConsumeKeeps(cfg, s);
          case FinishConsume => FinishConsumeKeeps(cfg, s);
        }
    }
  }

  /** Nothing published is ever taken back. */
  lemma PublishedGrows(cfg: Config, s: World, step: Step)
    requires cfg.Valid()
    ensures s.h.published <= Apply(cfg, s, step).h.published
    ensures RunsSeamlessly(cfg, Apply(cfg, s, step)) ==> RunsSeamlessly(cfg, s)
  {
    hide PlanBatch, TasksOf, ItemsOf, EndCursor, Length, Records, WriteRange, PublishCheck, GlanceAt, ReadRange, Inspect;
    hide ConsumeCheck, ChannelStep, TaskData, Seamless;
    var after := Apply(cfg, s, step);
    if RunsSeamlessly(cfg, after) {
      SeamlessBelow(cfg.capacity, s.h.published + cfg.capacity, after.h.published + cfg.capacity);
    }
  }

  lemma {:induction false} RunGrows(cfg: Config, s: World, schedule: seq<Step>)
    requires cfg.Valid()
    ensures s.h.published <= Run(cfg, s, schedule).h.published
    ensures RunsSeamlessly(cfg, Run(cfg, s, schedule)) ==> RunsSeamlessly(cfg, s)
    decreases |schedule|
  {
    hide Apply;
    if schedule != [] {
      PublishedGrows(cfg, s, schedule[0]);
      RunGrows(cfg, Apply(cfg, s, schedule[0]), schedule[1..]);
    }
  }

  lemma {:induction false} RunKeeps(cfg: Config, s: World, schedule: seq<Step>)
    requires cfg.Valid() && Inv(cfg, s) && RunsSeamlessly(cfg, Run(cfg, s, schedule))
    ensures Inv(cfg, Run(cfg, s, schedule))
    decreases |schedule|
  {
    hide Apply, Inv, RunsSeamlessly;
    if schedule != [] {
      var next := Apply(cfg, s, schedule[0]);
      RunGrows(cfg, next, schedule[1..]);
      PublishedGrows(cfg, s, schedule[0]);
      StepKeeps(cfg, s, schedule[0]);
      RunKeeps(cfg, next, schedule[1..]);
    }
  }

  /** A schedule that stays seamless: the capacity divides 2^32, or fewer than 2^32 positions are
      reachable. */
  predicate Reaches(cfg: Config, schedule: seq<Step>, s: World) {
    cfg.Valid() && s == Run(cfg, Init(cfg), schedule) && RunsSeamlessly(cfg, s)
  }

  lemma ReachableInv(cfg: Config, schedule: seq<Step>, s: World)
    requires Reaches(cfg, schedule, s)
    ensures Inv(cfg, s)
  {
    hide Inv, Run, Init;
    InitInv(cfg);
    RunKeeps(cfg, Init(cfg), schedule);
  }

  /** Whether the reader has counted a record that is still in flight: between checking its receipt
      and storing the cursor. */
  function Counted(r: ReaderState): nat {
    if r.phase.Storing? && r.phase.record.Some? then 1 else 0
  }

  /** The expected sequence number is that of the first record not taken, in every reader phase. */
  lemma ExpectedCounts(cfg: Config, s: World)
    requires cfg.Valid() && Inv(cfg, s)
    ensures s.r.expected == Wrap(s.h.taken + Counted(s.r))
    ensures Counted(s.r) <= |Records(s.h.items)|
  {
    hide TasksAt, Announces, Placed, Length, Wrap, Bytes, Holds, AllOk, Deliver, SentInv;
  }

  /** The records taken off the ring are, in order and byte for byte, the first ones published; the
      rest are in the hand of a receive or in flight, and the two sequence counters count them. No
      call ever fails once it has begun: planned writes and publications are accepted, committed
      bytes decode, receipts are current. */
  lemma RingIsFifo(cfg: Config, schedule: seq<Step>, s: World)
    requires Reaches(cfg, schedule, s)
    ensures s.h.got <= s.h.log
    ensures s.h.log == s.h.got + Hand(s.r) + Records(s.h.items)
    ensures !s.w.phase.WriterBroken? && !s.r.phase.ReaderBroken?
    ensures WrappingSub(s.w.nextSequence, s.r.expected)
         == |s.h.log| - |s.h.got| - |Hand(s.r)| - Counted(s.r)
  {
    hide TasksAt, Announces, Placed, Length, Wrap, Records, Bytes, Holds, AllOk, Deliver, SentInv, Init, Run;
    ReachableInv(cfg, schedule, s);
    ExpectedCounts(cfg, s);
    assert s.h.got + Hand(s.r) + Records(s.h.items) == s.h.got + (Hand(s.r) + Records(s.h.items));
    RecordsFit(s.h.items);
    WrapDistance(s.h.taken + Counted(s.r), |s.h.log|);
  }

  /** The queue the ring stands for. */
  function Queue(s: World): seq<OwnedRecord> {
    Records(s.h.items)
  }

  /** Refinement of a queue: publishing a batch appends its records at once, consuming a record removes
      the oldest, and no other step of either side changes the queue. */
  lemma StepRefinesQueue(cfg: Config, s: World, step: Step)
    requires cfg.Valid() && Inv(cfg, s)
    ensures var t := Apply(cfg, s, step);
            if step == WriterDoes(StorePublish) && s.w.phase.Publishing? then
              && Queue(t) == Queue(s) + Records(s.h.batch)
              && Announces(cfg.limits, Records(s.h.batch), s.w.nextId, |s.h.log|, s.w.phase.event)
            else if step == ReaderDoes(StoreConsume) && s.r.phase.Storing? && s.r.phase.record.Some? then
              Queue(s) == [s.r.phase.record.value] + Queue(t)
            else
              Queue(t) == Queue(s)
  {
    hide TasksAt, Announces, Placed, Length, Wrap, Records, Bytes, Holds, AllOk, Deliver, SentInv, PlanBatch, TasksOf, ItemsOf;
    hide EndCursor, WriteRange, PublishCheck, GlanceAt, ReadRange, Inspect, ConsumeCheck, ChannelStep, TaskData, LogInv;
    if step == WriterDoes(StorePublish) && s.w.phase.Publishing? {
      RecordsAppend(s.h.items, s.h.batch);
    }
    if step == ReaderDoes(StoreConsume) && s.r.phase.Storing? {
      ItemsHoldARecord(s.h.items, s.h.consumed, cfg.capacity, s.h.taken, cfg.limits.maximumInline);
    }
  }

  lemma {:induction false} RecordsFit(items: seq<Item>)
    requires AllOk(items)
    ensures |Records(items)| <= Length(items)
  {
    if items != [] {
      assert ItemOk(items[0]);
      RecordsFit(items[1..]);
    }
  }

  /** The events delivered are a prefix of the events sent: every message whole and unchanged however
      it was fragmented and wrapped, and a closing event only as the very last. Once nothing is in
      flight, nothing is missing. */
  lemma EndToEnd(cfg: Config, schedule: seq<Step>, s: World)
    requires Reaches(cfg, schedule, s)
    ensures s.h.events <= s.h.sent
    ensures forall i :: 0 <= i < |s.h.events| && Terminal(s.h.events[i]) ==> i == |s.h.events| - 1 == |s.h.sent| - 1
    ensures s.h.items == [] && Hand(s.r) == [] ==> s.h.events == s.h.sent && s.r.partial == None
  {
    hide WriterInv, MemoryInv, ReaderInv, LogInv, Init, Run;
    ReachableInv(cfg, schedule, s);
    LogDelivers(cfg, s.w.localClosed, s.r, s.h);
  }

  lemma LogDelivers(cfg: Config, closed: bool, r: ReaderState, h: History)
    requires LogInv(cfg, closed, r, h)
    ensures h.events <= h.sent
    ensures forall i :: 0 <= i < |h.events| && Terminal(h.events[i]) ==> i == |h.events| - 1 == |h.sent| - 1
    ensures h.items == [] && Hand(r) == [] ==> h.events == h.sent && r.partial == None
  {
    hide Deliver, Hand;
    var rest := Hand(r) + Records(h.items);
    assert h.log == h.got + rest;
    DeliverPrefix(cfg.limits, None, h.got, rest);
    if h.items == [] && Hand(r) == [] {
      assert h.log == h.got;
    }
  }

  /** The bytes the writer is copying and the bytes the reader is copying never overlap. */
  lemma RaceFreedom(cfg: Config, schedule: seq<Step>, s: World)
    requires Reaches(cfg, schedule, s) && s.w.phase.Copying? && s.r.phase.Loading?
    ensures s.w.phase.offset + |s.w.phase.data| <= s.r.phase.offset
         || s.r.phase.offset + s.r.phase.contiguous <= s.w.phase.offset
  {
    hide TasksAt, Announces, Placed, Length, Wrap, Bytes, Holds, AllOk, Deliver, Init, Run, Records, Offset;
    ReachableInv(cfg, schedule, s);
    var w, r, h := s.w.phase, s.r.phase, s.h;
    var q := h.published + Length(Front(h));
    PlacedAt(h.batch, h.published, cfg.capacity, |h.log|, cfg.limits.maximumInline, h.written);
    HeadInFlight(cfg, s.m, h, Image(s.w, h));
    if w.offset < r.offset + r.contiguous && r.offset < w.offset + |w.data| {
      var cell := if w.offset < r.offset then r.offset else w.offset;
      OffsetWithinLap(cfg.capacity, q, cell - w.offset);
      OffsetWithinLap(cfg.capacity, h.consumed, cell - r.offset);
      OffsetsDiffer(cfg.capacity, h.consumed + (cell - r.offset), q + (cell - w.offset));
    }
  }

  /** The writer heard that the other side closed and has no message in progress. */
  predicate Silent(s: World) {
    s.w.remoteClosed
    && match s.w.phase
       case Planned(_, _, _, event) => Terminal(event)
       case Copying(_, _, _, _, _, _, event) => Terminal(event)
       case Publishing(_, _, event) => Terminal(event)
       case _ => true
  }

  lemma HearingSilences(cfg: Config, s: World)
    requires cfg.Valid() && s.w.phase.Idle?
    ensures Silent(Apply(cfg, s, WriterDoes(HearRemoteClose)))
  {
  }

  lemma SilentStep(cfg: Config, s: World, step: Step)
    requires cfg.Valid() && Silent(s)
    ensures var t := Apply(cfg, s, step);
            Silent(t) && (t.h.sent == s.h.sent || (|t.h.sent| == |s.h.sent| + 1 && t.h.sent == s.h.sent + [t.h.sent[|s.h.sent|]]
                                                   && Terminal(t.h.sent[|s.h.sent|])))
  {
    hide PlanBatch, TasksOf, ItemsOf, EndCursor, Length, Records, WriteRange, PublishCheck, GlanceAt, ReadRange, Inspect;
    hide ConsumeCheck, ChannelStep, TaskData;
  }

  /** A remote close stops messages: once an idle writer heard of it, nothing but a closing event is sent,
      whatever is tried. */
  lemma RemoteCloseStops(cfg: Config, s: World, schedule: seq<Step>)
    requires cfg.Valid() && s.w.phase.Idle?
    ensures var t := Run(cfg, Apply(cfg, s, WriterDoes(HearRemoteClose)), schedule);
            s.h.sent <= t.h.sent && forall k :: |s.h.sent| <= k < |t.h.sent| ==> Terminal(t.h.sent[k])
  {
    hide Run, Silent;
    HearingSilences(cfg, s);
    RemoteCloseSilences(cfg, Apply(cfg, s, WriterDoes(HearRemoteClose)), schedule);
  }

  lemma {:induction false} RemoteCloseSilences(cfg: Config, s: World, schedule: seq<Step>)
    requires cfg.Valid() && Silent(s)
    ensures var t := Run(cfg, s, schedule);
            s.h.sent <= t.h.sent && forall k :: |s.h.sent| <= k < |t.h.sent| ==> Terminal(t.h.sent[k])
    decreases |schedule|
  {
    hide Apply, Silent;
    if schedule != [] {
      SilentStep(cfg, s, schedule[0]);
      RemoteCloseSilences(cfg, Apply(cfg, s, schedule[0]), schedule[1..]);
    }
  }
}
