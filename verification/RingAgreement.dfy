/** The calls of the classes and the interleaved model agree: run alone, the steps of one side leave the
    memory, the counters and the stream as the contract of the call says. */
module RingAgreement {
  import opened Wrappers
  import opened Words
  import opened Record
  import opened Geometry
  import opened Layout
  import opened RingMemory
  import opened BatchPlan
  import opened Fragmentation
  import opened Delivery
  import opened RingReader
  import opened RingWriter
  import opened RingSystem
  import opened RingInvariant
  import opened RingSteps
  import opened RingTheorems
  import opened RingLiveness
  import opened RingBounds
  import ChannelProgress
  import RingCrash

  function ViewOf(s: World): RingView {
    RingView(s.m.bytes, s.m.producer, s.m.consumer, s.h.published, s.h.consumed, s.h.items, s.h.taken)
  }

  /** The decision of `SendFragments`, in a world where the writer is idle. */
  predicate AcceptsNow(cfg: Config, s: World, kind: RecordKind, fragments: seq<Fragment>)
    requires cfg.Valid()
  {
    Acceptable(cfg.capacity, s.h.published, s.h.consumed, cfg.WriterInline(), kind, fragments)
  }

  /** What `SendFragments` ensures of a batch it publishes. */
  ghost predicate SentNow(cfg: Config, s: World, t: World, kind: RecordKind, fragments: seq<Fragment>, event: ChannelEvent)
    requires cfg.Valid()
  {
    && Joined(cfg.capacity, cfg.limits.maximumInline, ViewOf(s), ViewOf(t), kind, fragments, s.w.nextId, |s.h.log|)
    && t.w.nextId == NextMessageId(s.w.nextId) && t.w.nextSequence == Wrap(|s.h.log| + |fragments|)
    && t.w.phase.Idle? && t.r == s.r && t.h.sent == s.h.sent + [event]
    && t.w.localClosed == (s.w.localClosed || Terminal(event)) && t.w.remoteClosed == s.w.remoteClosed
  }

  /** The count of the writer's class is the length of the log. */
  lemma LogCounts(cfg: Config, s: World)
    requires cfg.Valid() && Inv(cfg, s)
    ensures |s.h.log| == s.h.taken + |Records(s.h.items)|
    ensures s.w.nextSequence == Wrap(|s.h.log|)
  {
    hide WriterInv, ReaderInv, MemoryInv, Records, Deliver, SentInv;
    SequenceIsCount(cfg, s);
  }

  lemma SequenceIsCount(cfg: Config, s: World)
    requires cfg.Valid() && Inv(cfg, s)
    ensures s.w.nextSequence == Wrap(|s.h.log|)
  {
    hide ReaderInv, MemoryInv, LogInv, Wrap;
  }

  /** The first step plans exactly the batches that `SendFragments` accepts, and refuses the others without
      a change. */
  lemma StartDecides(cfg: Config, s: World, fragments: seq<Fragment>, kind: RecordKind, event: ChannelEvent)
    requires cfg.Valid() && Inv(cfg, s) && RunsSeamlessly(cfg, s) && s.w.phase.Idle?
    requires kind != Padding && fragments != []
    ensures var t := Start(cfg, s, fragments, kind, event);
            && (AcceptsNow(cfg, s, kind, fragments) ==>
              && t.w.phase.Planned? && t.w.phase.event == event && t.w == s.w.(phase := t.w.phase)
              && t.m == s.m && t.r == s.r && t.h == s.h.(batch := t.h.batch, written := 0)
              && Inline(fragments)
              && Records(t.h.batch) == BatchRecords(fragments, kind, s.w.nextId, |s.h.log|)
              && Length(t.h.batch) == BatchSpan(cfg.capacity, s.h.published, fragments))
            && (!AcceptsNow(cfg, s, kind, fragments) ==> t == s)
  {
    hide Inv, PlanBatch, TasksOf, ItemsOf, EndCursor, Ready, Placed, Length, Records, BatchRecords, BatchSpan;
    hide AllSendable, Wrap, Inline;
    SequenceIsCount(cfg, s);
    CursorsStand(cfg, s);
    SeamlessBelow(cfg.capacity, s.h.consumed + cfg.capacity, s.h.published + cfg.capacity);
    PlanBatchAccepts(cfg.capacity, s.h.consumed, s.h.published, fragments, kind, s.w.nextId, |s.h.log|, cfg.WriterInline());
    if AcceptsNow(cfg, s, kind, fragments) {
      PlanBatchReady(cfg.capacity, s.h.consumed, s.h.published, fragments, kind, s.w.nextId, |s.h.log|,
                     cfg.WriterInline(), cfg.limits.maximumInline);
    }
  }

  lemma CursorsStand(cfg: Config, s: World)
    requires cfg.Valid() && Inv(cfg, s)
    ensures s.m.producer == Wrap(s.h.published) && s.m.consumer == Wrap(s.h.consumed)
    ensures Ordered(cfg.capacity, s.h.consumed, s.h.published) && s.h.published % ALIGNMENT == 0
  {
    hide Wrap, Placed, Length, Bytes, Holds, WriterInv, ReaderInv, LogInv;
  }

  /** With no write in progress the memory is what the invariant of the ring's class says. */
  lemma IdleIsCommitted(cfg: Config, s: World)
    requires cfg.Valid() && Inv(cfg, s) && s.w.phase.Idle?
    ensures Committed(s.m.bytes, cfg.capacity, s.h.consumed, s.h.published, s.h.items, s.h.taken, cfg.limits.maximumInline)
  {
    hide Wrap, Placed, Length, Holds, ReaderInv, LogInv, Bytes;
    assert Bytes(s.h.items) + [] == Bytes(s.h.items);
  }

  /** From a planned batch on, the writer's own steps end where `SendFragments` ends. */
  lemma FinishSend(cfg: Config, s: World, planned: World, fragments: seq<Fragment>, kind: RecordKind, event: ChannelEvent)
      returns (schedule: seq<Step>)
    requires cfg.Valid() && Inv(cfg, s) && Inv(cfg, planned) && RunsSeamlessly(cfg, s)
    requires planned.w.phase.Planned? && planned.w.phase.event == event && planned.w == s.w.(phase := planned.w.phase)
    requires planned.m == s.m && planned.r == s.r && planned.h == s.h.(batch := planned.h.batch, written := 0)
    requires Inline(fragments) && Records(planned.h.batch) == BatchRecords(fragments, kind, s.w.nextId, |s.h.log|)
    requires Length(planned.h.batch) == BatchSpan(cfg.capacity, s.h.published, fragments)
    ensures OnlyWriter(schedule) && Inv(cfg, Run(cfg, planned, schedule))
    ensures SentNow(cfg, s, Run(cfg, planned, schedule), kind, fragments, event)
  {
    hide Inv, Run, Placed, Length, Records, BatchRecords, BatchSpan, Committed, Inline, NextMessageId, Wrap, OnlyWriter;
    schedule := WriterFinishes(cfg, planned);
    var t := Run(cfg, planned, schedule);
    RecordsAppend(s.h.items, planned.h.batch);
    CursorsStand(cfg, s);
    CursorsStand(cfg, t);
    IdleIsCommitted(cfg, t);
    SequenceIsCount(cfg, t);
    BatchCount(fragments, kind, s.w.nextId, |s.h.log|);
  }

  /** Run alone from an idle world, the writer's steps for one message do what `Send` of the channel and
      `SendFragments` of the ring do: the same decision, the same records at the same place of the same
      memory, the same counters. */
  lemma SendAgrees(cfg: Config, s: World, payload: seq<u8>) returns (schedule: seq<Step>)
    requires cfg.Valid() && Inv(cfg, s) && RunsSeamlessly(cfg, s)
    requires s.w.phase.Idle? && !s.w.localClosed && !s.w.remoteClosed
    ensures OnlyWriter(schedule)
    ensures var fragments, t := cfg.limits.Fragments(payload), Run(cfg, s, [WriterDoes(StartMessage(payload))] + schedule);
            if fragments.Ok? && AcceptsNow(cfg, s, Data, fragments.value) then
              Inv(cfg, t) && SentNow(cfg, s, t, Data, fragments.value, Message(payload))
            else
              schedule == [] && t == s
  {
    hide Inv, Start, AcceptsNow, SentNow, Records, BatchRecords, BatchSpan, Length, Inline, Fragmenter.Fragments;
    var fragments := cfg.limits.Fragments(payload);
    var step := WriterDoes(StartMessage(payload));
    var t := Apply(cfg, s, step);
    schedule := [];
    assert ([step] + schedule)[1..] == schedule;
    if fragments.Ok? {
      Progress.FragmentsFit(cfg.limits, payload);
      StartDecides(cfg, s, fragments.value, Data, Message(payload));
      if AcceptsNow(cfg, s, Data, fragments.value) {
        StepKeeps(cfg, s, step);
        schedule := FinishSend(cfg, s, t, fragments.value, Data, Message(payload));
        assert ([step] + schedule)[1..] == schedule;
      }
    }
  }

  /** The same for the closing records of `close` and `reset`. */
  lemma FinishAgrees(cfg: Config, s: World, kind: RecordKind) returns (schedule: seq<Step>)
    requires cfg.Valid() && Inv(cfg, s) && RunsSeamlessly(cfg, s)
    requires s.w.phase.Idle? && !s.w.localClosed && (kind == RecordKind.Close || kind == RecordKind.Reset)
    ensures OnlyWriter(schedule)
    ensures var fragments, t := [Fragment([], END_OF_MESSAGE)], Run(cfg, s, [WriterDoes(StartFinish(kind))] + schedule);
            if AcceptsNow(cfg, s, kind, fragments) then
              Inv(cfg, t)
              && SentNow(cfg, s, t, kind, fragments, if kind == RecordKind.Close then ChannelEvent.Closed else ChannelEvent.Reset)
            else
              schedule == [] && t == s
  {
    hide Inv, Start, AcceptsNow, SentNow, Records, BatchRecords, BatchSpan, Length, Inline;
    var fragments := [Fragment([], END_OF_MESSAGE)];
    var event := if kind == RecordKind.Close then ChannelEvent.Closed else ChannelEvent.Reset;
    var step := WriterDoes(StartFinish(kind));
    var t := Apply(cfg, s, step);
    schedule := [];
    assert ([step] + schedule)[1..] == schedule;
    StartDecides(cfg, s, fragments, kind, event);
    if AcceptsNow(cfg, s, kind, fragments) {
      StepKeeps(cfg, s, step);
      schedule := FinishSend(cfg, s, t, fragments, kind, event);
      assert ([step] + schedule)[1..] == schedule;
    }
  }

  // ---- Receiving -----------------------------------------------------------------------------

  /** The records a receive has not returned yet. */
  function Unreturned(s: World): seq<OwnedRecord> {
    Hand(s.r) + Records(s.h.items)
  }

  lemma LogSplits(cfg: Config, s: World)
    requires cfg.Valid() && Inv(cfg, s)
    ensures s.h.log == s.h.got + Unreturned(s) && s.h.taken == |s.h.got| + |Hand(s.r)|
  {
    hide WriterInv, MemoryInv, ReaderInv, Deliver, Records, SentInv;
    assert s.h.got + Unreturned(s) == s.h.got + Hand(s.r) + Records(s.h.items);
  }

  /** The reader's next step leaves the log alone, and returns a record exactly when it answers with one. */
  lemma ReturnsOne(cfg: Config, s: World)
    requires cfg.Valid() && Inv(cfg, s) && RunsSeamlessly(cfg, s)
    ensures var t := Apply(cfg, s, ReaderDoes(NextReaderStep(s.r.phase)));
            && Inv(cfg, t) && t.w == s.w && t.h.log == s.h.log && t.h.published == s.h.published && t.m.bytes == s.m.bytes
            && t.m.producer == s.m.producer
            && if s.r.phase.Finishing? && s.r.phase.record.Some? then
                 t.r.phase.Waiting? && t.h.got == s.h.got + [s.r.phase.record.value]
               else
                 t.h.got == s.h.got && (RingAnswers(cfg, s) ==> t == s && s.h.items == [])
  {
    hide Inv, ReadRange, ConsumeCheck, GlanceAt, Inspect, ChannelStep, RunsSeamlessly, WrappingSub, WrappingAdd;
    StepKeeps(cfg, s, ReaderDoes(NextReaderStep(s.r.phase)));
    ReaderShape(cfg, Apply(cfg, s, ReaderDoes(NextReaderStep(s.r.phase))));
    if s.h.items != [] {
      LookSees(cfg, s);
    }
  }

  /** There is nothing to return exactly when a waiting reader has nothing in front of it. */
  lemma NothingUnreturned(cfg: Config, s: World)
    requires cfg.Valid() && Inv(cfg, s)
    ensures Unreturned(s) == [] <==> s.r.phase.Waiting? && s.h.items == []
  {
    hide WriterInv, LogInv, Bytes, Holds, Wrap, Length, Placed, AllOk;
    if s.h.items != [] {
      ItemsHoldARecord(s.h.items, s.h.consumed, cfg.capacity, s.h.taken, cfg.limits.maximumInline);
    } else {
      NothingHeld();
    }
  }

  lemma SameRest<T>(a: seq<T>, x: seq<T>, y: seq<T>)
    requires a + x == a + y
    ensures x == y
  {
    assert x == (a + x)[|a|..];
    assert y == (a + y)[|a|..];
  }

  /** Run alone, the reader's steps return the oldest record in flight, or nothing if there is none, and
      leave everything behind it. */
  lemma {:induction false} ReaderReturns(cfg: Config, s: World) returns (schedule: seq<Step>)
    requires cfg.Valid() && Inv(cfg, s) && RunsSeamlessly(cfg, s)
    ensures OnlyReader(schedule)
    ensures var t := Run(cfg, s, schedule);
            && Inv(cfg, t) && t.r.phase.Waiting? && t.w == s.w && t.h.log == s.h.log && t.h.published == s.h.published
            && t.m.bytes == s.m.bytes && t.m.producer == s.m.producer
            && t.h.got == s.h.got + (if Unreturned(s) == [] then [] else [Unreturned(s)[0]])
            && (Unreturned(s) == [] ==> t == s)
    decreases ReaderBudget(cfg, s)
  {
    hide Inv, Apply, ReaderBudget, NextReaderStep, Seamless, Records, GlanceAt;
    var step := ReaderDoes(NextReaderStep(s.r.phase));
    var t := Apply(cfg, s, step);
    ReturnsOne(cfg, s);
    LogSplits(cfg, s);
    LogSplits(cfg, t);
    NothingUnreturned(cfg, s);
    ReaderMoveCosts(cfg, s);
    var rest: seq<Step> := [];
    if !RingAnswers(cfg, s) {
      SameRest(s.h.got, Unreturned(s), Unreturned(t));
      rest := ReaderReturns(cfg, t);
      if Unreturned(s) == [] {
        LookSeesNothing(cfg, s);
        assert false;
      }
    }
    schedule := [step] + rest;
    assert schedule[1..] == rest;
  }

  /** Run alone from a waiting reader, the steps of one receive do what `Receive` of the ring does: nothing
      without a record in flight, or exactly the oldest one leaves the same memory and the counters follow. */
  lemma ReceiveAgrees(cfg: Config, s: World) returns (schedule: seq<Step>)
    requires cfg.Valid() && Inv(cfg, s) && RunsSeamlessly(cfg, s) && s.r.phase.Waiting?
    ensures OnlyReader(schedule)
    ensures var t := Run(cfg, s, schedule);
            var before := Records(s.h.items);
            && Inv(cfg, t) && t.r.phase.Waiting?
            && (before == [] ==> t == s)
            && (before != [] ==>
              && t.h.got == s.h.got + [before[0]] && Records(t.h.items) == before[1..]
              && t.h.taken == s.h.taken + 1 && t.r.expected == Wrap(t.h.taken)
              && t.m.consumer == Wrap(t.h.consumed) && t.m.bytes == s.m.bytes && t.m.producer == s.m.producer)
  {
    hide Inv, Run, Records, RunsSeamlessly, OnlyReader;
    schedule := ReaderReturns(cfg, s);
    var t := Run(cfg, s, schedule);
    LogSplits(cfg, s);
    LogSplits(cfg, t);
    CursorsStand(cfg, t);
    WaitingExpects(cfg, t);
    var before := Records(s.h.items);
    assert Hand(s.r) == [] && Unreturned(s) == before && Hand(t.r) == [];
    if before != [] {
      assert s.h.got + before == s.h.got + [before[0]] + before[1..];
      SameRest(t.h.got, Records(t.h.items), before[1..]);
    }
  }

  lemma WaitingExpects(cfg: Config, s: World)
    requires cfg.Valid() && Inv(cfg, s) && s.r.phase.Waiting?
    ensures s.r.expected == Wrap(s.h.taken)
  {
    hide WriterInv, MemoryInv, LogInv, Wrap;
  }

  // ---- Reaching the refusal of an inline-only ring -------------------------------------------

  /** Some shorter message has a record that is shorter by exactly the alignment. */
  lemma NextShorter(inline: nat) returns (n: nat)
    requires inline > 0
    ensures n < inline && RecordLength(n) == RecordLength(inline) - ALIGNMENT
  {
    n := (inline - 1) / 8 * 8;
  }

  lemma OneFragment(f: Fragmenter, payload: seq<u8>)
    requires f.Valid() && |payload| <= f.maximumInline
    ensures f.Fragments(payload) == Ok([Fragment(payload, END_OF_MESSAGE)])
  {
  }

  /** An inline-only ring with less than `maximum_batch_bytes` really gets to where it refuses its largest
      message when empty: after one shorter message, sent and received. */
  lemma RefusalIsReached(cfg: Config) returns (schedule: seq<Step>, s: World)
    requires cfg.Valid() && !Enabled(cfg.limits) && cfg.limits.maximumInline <= MAX_INLINE_MESSAGE_SIZE
    requires cfg.limits.MaximumWireBytes().Ok? && cfg.limits.MaximumWireBytes().value <= cfg.capacity
    requires !(cfg.limits.MaximumBatchBytes().Ok? && cfg.limits.MaximumBatchBytes().value <= cfg.capacity)
    ensures Reaches(cfg, schedule, s) && Drained(s) && s.w.phase.Idle? && !s.w.localClosed && !s.w.remoteClosed
    ensures |s.h.sent| == 1 && s.h.events == s.h.sent
    ensures Apply(cfg, s, WriterDoes(StartMessage(Zeros(cfg.limits.maximumInline)))) == s
  {
    hide Inv, Run, Apply, Records, BatchRecords, AcceptsNow, Joined, NextMessageId, Wrap, RecordLength, Init;
    hide Fragmenter.MaximumBatchBytes, Fragmenter.MaximumWireBytes, Fragmenter.Fragments, Seamless;
    var f := cfg.limits;
    ShortCapacity(cfg);
    var n := NextShorter(f.maximumInline);
    var first := InitSends(cfg, n);
    var sent := Run(cfg, Init(cfg), first);
    Progress.LateStartWraps(cfg.capacity, RecordLength(f.maximumInline));
    var rest := ReaderDrains(cfg, sent);
    s := Run(cfg, sent, rest);
    schedule := first + rest;
    RingCrash.RunAppend(cfg, Init(cfg), first, rest);
    DrainedDelivers(cfg, s);
    LargestIsRefused(cfg, s);
  }

  lemma ShortCapacity(cfg: Config)
    requires cfg.Valid() && !Enabled(cfg.limits)
    requires cfg.limits.MaximumWireBytes().Ok? && cfg.limits.MaximumWireBytes().value <= cfg.capacity
    requires !(cfg.limits.MaximumBatchBytes().Ok? && cfg.limits.MaximumBatchBytes().value <= cfg.capacity)
    ensures var length := RecordLength(cfg.limits.maximumInline);
            && PREFIX_SIZE < length <= cfg.capacity < length + length - ALIGNMENT && length % ALIGNMENT == 0
  {
    hide Fragmenter.MaximumBatchBytes, Fragmenter.MaximumWireBytes, RecordLength;
    ChannelProgress.InlineOnlyBytes(cfg.limits);
    RecordLengthAligned(cfg.limits.maximumInline);
  }

  /** A new ring takes a message whose record fits, and stands behind that record afterwards. */
  lemma InitSends(cfg: Config, n: nat) returns (schedule: seq<Step>)
    requires cfg.Valid() && n <= cfg.limits.maximumInline <= MAX_INLINE_MESSAGE_SIZE && RecordLength(n) <= cfg.capacity
    ensures var t := Run(cfg, Init(cfg), schedule);
            && Inv(cfg, t) && t.w.phase.Idle? && !t.w.localClosed && !t.w.remoteClosed
            && t.h.sent == [Message(Zeros(n))] && t.h.published == RecordLength(n)
  {
    hide Inv, Run, Records, BatchRecords, Committed, NextMessageId, Wrap, RecordLength, Fragmenter.Fragments, PaddingAt;
    var s, payload := Init(cfg), Zeros(n);
    InitInv(cfg);
    StartsSeamless(cfg);
    OneFragment(cfg.limits, payload);
    SingleSpan(cfg.capacity, 0, Fragment(payload, END_OF_MESSAGE), cfg.WriterInline());
    RecordLengthAligned(n);
    NoTailAtZero(cfg.capacity, RecordLength(n));
    var rest := SendAgrees(cfg, s, payload);
    schedule := [WriterDoes(StartMessage(payload))] + rest;
  }

  lemma NoTailAtZero(capacity: u32, length: nat)
    requires 0 < length <= capacity
    ensures PaddingAt(capacity, 0, length) == 0
  {
  }

  lemma StartsSeamless(cfg: Config)
    requires cfg.Valid()
    ensures RunsSeamlessly(cfg, Init(cfg)) && Init(cfg).w.phase.Idle? && Init(cfg).h.sent == [] && Init(cfg).h.published == 0
    ensures !Init(cfg).w.localClosed && !Init(cfg).w.remoteClosed && Init(cfg).h.consumed == 0
  {
  }

  /** Behind a record that is shorter by the alignment, the largest message does not fit an empty ring. */
  lemma LargestIsRefused(cfg: Config, s: World)
    requires cfg.Valid() && Inv(cfg, s) && RunsSeamlessly(cfg, s) && Drained(s)
    requires s.w.phase.Idle? && !s.w.localClosed && !s.w.remoteClosed
    requires PREFIX_SIZE < RecordLength(cfg.limits.maximumInline) <= cfg.capacity
    requires cfg.capacity < RecordLength(cfg.limits.maximumInline) + RecordLength(cfg.limits.maximumInline) - ALIGNMENT
    requires s.h.published == RecordLength(cfg.limits.maximumInline) - ALIGNMENT
    ensures Apply(cfg, s, WriterDoes(StartMessage(Zeros(cfg.limits.maximumInline)))) == s
  {
    hide Inv, Start, Records, RecordLength, Fragmenter.Fragments, PaddingAt, RunsSeamlessly;
    var payload := Zeros(cfg.limits.maximumInline);
    OneFragment(cfg.limits, payload);
    SingleSpan(cfg.capacity, s.h.published, Fragment(payload, END_OF_MESSAGE), cfg.WriterInline());
    Progress.LateStartWraps(cfg.capacity, RecordLength(cfg.limits.maximumInline));
    DrainedMeets(cfg, s);
    StartDecides(cfg, s, [Fragment(payload, END_OF_MESSAGE)], Data, Message(payload));
  }

  lemma DrainedMeets(cfg: Config, s: World)
    requires cfg.Valid() && Inv(cfg, s) && Drained(s)
    ensures s.h.consumed == s.h.published
  {
    hide WriterInv, ReaderInv, LogInv, Placed, Bytes, Holds, Wrap;
  }
}
