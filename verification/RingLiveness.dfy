/** Neither side ever waits for the other in the middle of a call: from every reachable state the
    writer alone finishes its batch, and the reader alone delivers everything that was sent. */
module RingLiveness {
  import opened Words
  import opened Record
  import opened Geometry
  import opened Layout
  import opened RingMemory
  import opened BatchPlan
  import opened Fragmentation
  import opened Delivery
  import opened RingReader
  import opened RingWriter
  import opened RingSystem
  import opened RingInvariant
  import opened RingSteps
  import opened RingTheorems
  import Progress

  predicate OnlyWriter(schedule: seq<Step>) {
    forall i :: 0 <= i < |schedule| ==> schedule[i].WriterDoes?
  }

  predicate OnlyReader(schedule: seq<Step>) {
    forall i :: 0 <= i < |schedule| ==> schedule[i].ReaderDoes?
  }

  /** What the writer does next once it has planned a batch. */
  function NextWriterStep(phase: WriterPhase): WriterStep {
    match phase
    case Copying(_, _, _, _, _, _, _) => CopyByte
    case Publishing(_, _, _) => StorePublish
    case Planned(todo, _, _, _) => if todo != [] then BeginWrite else CheckPublish
    case _ => Abandon
  }

  predicate Busy(phase: WriterPhase) {
    phase.Planned? || phase.Copying? || phase.Publishing?
  }

  /** Items, stages and bytes left to write. */
  function ItemsLeft(h: History): nat {
    if h.written <= |h.batch| then |h.batch| - h.written else 0
  }

  function BytesLeft(phase: WriterPhase): nat {
    if phase.Copying? && phase.done <= |phase.data| then |phase.data| - phase.done else 0
  }

  function Stage(phase: WriterPhase): nat {
    if phase.Planned? then 1 else 0
  }

  /** The lexicographic order of what is left. */
  predicate Less(a: nat, b: nat, c: nat, x: nat, y: nat, z: nat) {
    a < x || (a == x && (b < y || (b == y && c < z)))
  }

  /** What the invariant says about the stage of a write. */
  lemma WriterShape(cfg: Config, s: World)
    requires cfg.Valid() && Inv(cfg, s)
    ensures !s.w.phase.WriterBroken? && s.h.written <= |s.h.batch|
    ensures s.w.phase.Copying? ==> s.h.written < |s.h.batch| && s.w.phase.done <= |s.w.phase.data|
  {
    hide TasksAt, Announces, Placed, Length, Wrap, Bytes, Holds, AllOk, Records, MemoryInv, ReaderInv, LogInv;
  }

  /** One turn of the writer publishes its event or comes closer to it. */
  lemma WriterTurn(cfg: Config, s: World)
    requires cfg.Valid() && Inv(cfg, s) && RunsSeamlessly(cfg, s) && Busy(s.w.phase)
    ensures var t := Apply(cfg, s, WriterDoes(NextWriterStep(s.w.phase)));
            && Inv(cfg, t) && t.r == s.r
            && t.h.consumed == s.h.consumed && t.h.taken == s.h.taken
            && t.w.nextId == (if s.w.phase.Publishing? then NextMessageId(s.w.nextId) else s.w.nextId)
            && t.w.localClosed == (s.w.localClosed || (s.w.phase.Publishing? && Terminal(s.w.phase.event)))
            && t.w.remoteClosed == s.w.remoteClosed
            && if s.w.phase.Publishing? then
                 && t.w.phase.Idle? && t.h.sent == s.h.sent + [s.w.phase.event]
                 && t.h.items == s.h.items + s.h.batch && t.h.log == s.h.log + Records(s.h.batch)
                 && t.h.published == s.h.published + Length(s.h.batch)
               else
                 && Busy(t.w.phase) && t.w.phase.event == s.w.phase.event
                 && t.h == s.h.(written := t.h.written)
                 && Less(ItemsLeft(t.h), Stage(t.w.phase), BytesLeft(t.w.phase),
                         ItemsLeft(s.h), Stage(s.w.phase), BytesLeft(s.w.phase))
  {
    hide Inv, WriteRange, PublishCheck, TaskData, RunsSeamlessly, Length, Records, NextMessageId;
    WriterShape(cfg, s);
    StepKeeps(cfg, s, WriterDoes(NextWriterStep(s.w.phase)));
    WriterShape(cfg, Apply(cfg, s, WriterDoes(NextWriterStep(s.w.phase))));
  }

  /** A planned batch is always published in the end, by the writer's own steps: the whole batch joins
      the published items at once, and one event the sent ones. */
  lemma {:induction false} WriterFinishes(cfg: Config, s: World) returns (schedule: seq<Step>)
    requires cfg.Valid() && Inv(cfg, s) && RunsSeamlessly(cfg, s) && Busy(s.w.phase)
    ensures OnlyWriter(schedule)
    ensures var t := Run(cfg, s, schedule);
            && Inv(cfg, t) && t.w.phase.Idle? && t.h.sent == s.h.sent + [s.w.phase.event]
            && t.h.items == s.h.items + s.h.batch && t.h.log == s.h.log + Records(s.h.batch)
            && t.h.published == s.h.published + Length(s.h.batch)
            && t.r == s.r && t.h.consumed == s.h.consumed && t.h.taken == s.h.taken
            && t.w.nextId == NextMessageId(s.w.nextId)
            && t.w.localClosed == (s.w.localClosed || Terminal(s.w.phase.event)) && t.w.remoteClosed == s.w.remoteClosed
    decreases ItemsLeft(s.h), Stage(s.w.phase), BytesLeft(s.w.phase)
  {
    hide Inv, Apply, ItemsLeft, BytesLeft, Stage, NextWriterStep, Records, Length, NextMessageId;
    var step := WriterDoes(NextWriterStep(s.w.phase));
    var t := Apply(cfg, s, step);
    WriterTurn(cfg, s);
    var rest: seq<Step> := [];
    if !s.w.phase.Publishing? {
      rest := WriterFinishes(cfg, t);
    }
    schedule := [step] + rest;
    assert schedule[1..] == rest;
  }

  /** What the reader does next. */
  function NextReaderStep(phase: ReaderPhase): ReaderStep {
    match phase
    case Fetching(_, _) => BeginRead
    case Loading(_, contiguous, _, buffer) => if |buffer| < contiguous then LoadByte else Decide
    case Consuming(_, _) => CheckConsume
    case Storing(_, _) => StoreConsume
    case Finishing(_, _) => FinishConsume
    case _ => Look
  }

  function ReaderStage(phase: ReaderPhase): nat {
    match phase
    case Finishing(_, _) => 6
    case Waiting => 5
    case Fetching(_, _) => 4
    case Loading(_, _, _, _) => 3
    case Consuming(_, _) => 2
    case Storing(_, _) => 1
    case ReaderBroken(_) => 0
  }

  function BytesWanted(phase: ReaderPhase): nat {
    if phase.Loading? && |phase.buffer| <= phase.contiguous then phase.contiguous - |phase.buffer| else 0
  }

  predicate Drained(s: World) {
    s.r.phase.Waiting? && s.h.items == []
  }

  lemma ReaderShape(cfg: Config, s: World)
    requires cfg.Valid() && Inv(cfg, s)
    ensures !s.r.phase.ReaderBroken?
    ensures s.r.phase.Loading? ==> |s.r.phase.buffer| <= s.r.phase.contiguous
    ensures s.r.phase.Storing? ==> s.h.items != []
  {
    hide WriterInv, MemoryInv, LogInv, Bytes, AllOk, Wrap;
  }

  lemma InspectDecides(used: u32, consumer: u32, committed: seq<u8>, maximumInline: u32, expected: u32)
    ensures var r := Inspect(used, consumer, committed, maximumInline, expected);
            r.Ok? ==> !r.value.Empty?
  {
    hide DecodeCommitted;
  }

  /** One turn of the reader comes closer to an empty ring. */
  lemma ReaderTurn(cfg: Config, s: World)
    requires cfg.Valid() && Inv(cfg, s) && RunsSeamlessly(cfg, s) && !Drained(s)
    ensures var t := Apply(cfg, s, ReaderDoes(NextReaderStep(s.r.phase)));
            && Inv(cfg, t) && t.w == s.w && t.h.sent == s.h.sent && t.h.published == s.h.published
            && Less(|t.h.items|, ReaderStage(t.r.phase), BytesWanted(t.r.phase),
                    |s.h.items|, ReaderStage(s.r.phase), BytesWanted(s.r.phase))
  {
    hide Inv, ReadRange, ConsumeCheck, GlanceAt, Inspect, ChannelStep, RunsSeamlessly, WrappingSub, WrappingAdd;
    ReaderShape(cfg, s);
    StepKeeps(cfg, s, ReaderDoes(NextReaderStep(s.r.phase)));
    ReaderShape(cfg, Apply(cfg, s, ReaderDoes(NextReaderStep(s.r.phase))));
    if s.r.phase.Waiting? {
      LookSees(cfg, s);
    } else if s.r.phase.Loading? {
      InspectDecides(s.r.phase.used, s.m.consumer, s.r.phase.buffer, cfg.limits.maximumInline, s.r.expected);
    }
  }

  /** With something in flight, a glance never comes back empty-handed. */
  lemma LookSees(cfg: Config, s: World)
    requires cfg.Valid() && Inv(cfg, s) && RunsSeamlessly(cfg, s) && s.h.items != []
    ensures var g := GlanceAt(cfg.capacity, s.m.producer, s.m.consumer);
            g.Ok? && !g.value.NothingCommitted?
  {
    hide Offset, ItemOk, Placed, Length, Wrap, Records, Bytes, Holds, AllOk, GlanceAt, LogInv, Ordered, TasksAt, Announces;
    HeadInFlight(cfg, s.m, s.h, Image(s.w, s.h));
    SeamlessBelow(cfg.capacity, s.h.consumed, s.h.published + cfg.capacity);
    GlanceSees(cfg.capacity, s.h.consumed, s.h.published, s.h.items, s.h.taken, cfg.limits.maximumInline);
  }

  /** Receiving terminates: the reader's own steps empty the ring from every reachable state. */
  lemma {:induction false} ReaderDrains(cfg: Config, s: World) returns (schedule: seq<Step>)
    requires cfg.Valid() && Inv(cfg, s) && RunsSeamlessly(cfg, s)
    ensures OnlyReader(schedule)
    ensures var t := Run(cfg, s, schedule);
            Inv(cfg, t) && Drained(t) && t.w == s.w && t.h.sent == s.h.sent && t.h.published == s.h.published
    decreases |s.h.items|, ReaderStage(s.r.phase), BytesWanted(s.r.phase)
  {
    hide Inv, Apply, ReaderStage, BytesWanted, NextReaderStep;
    if Drained(s) {
      return [];
    }
    var step := ReaderDoes(NextReaderStep(s.r.phase));
    ReaderTurn(cfg, s);
    var rest := ReaderDrains(cfg, Apply(cfg, s, step));
    schedule := [step] + rest;
    assert schedule[1..] == rest;
  }

  /** From every reachable state the reader alone delivers everything sent so far. */
  lemma EverythingArrives(cfg: Config, schedule: seq<Step>, s: World) returns (more: seq<Step>)
    requires Reaches(cfg, schedule, s)
    ensures OnlyReader(more)
    ensures Run(cfg, s, more).h.events == s.h.sent == Run(cfg, s, more).h.sent
    ensures Drained(Run(cfg, s, more))
  {
    hide Inv, Apply, Init, Run, OnlyReader, RunsSeamlessly;
    ReachableInv(cfg, schedule, s);
    more := ReaderDrains(cfg, s);
    DrainedDelivers(cfg, Run(cfg, s, more));
  }

  lemma DrainedDelivers(cfg: Config, s: World)
    requires cfg.Valid() && Inv(cfg, s) && Drained(s)
    ensures s.h.events == s.h.sent
  {
    hide WriterInv, MemoryInv, ReaderInv, Deliver, SentInv;
    assert s.h.log == s.h.got;
  }

  /** Once the ring is drained and the capacity is at least `maximum_batch_bytes`, an idle open writer
      plans a message within the limits, wherever the cursors stand, exactly when the inline limit or the
      message is at most 1 MiB. */
  lemma DrainedRingAccepts(cfg: Config, schedule: seq<Step>, s: World, payload: seq<u8>)
    requires Reaches(cfg, schedule, s) && s.h.items == []
    requires s.w.phase.Idle? && !s.w.localClosed && !s.w.remoteClosed
    requires cfg.limits.MaximumBatchBytes().Ok? && cfg.limits.MaximumBatchBytes().value <= cfg.capacity
    requires |payload| <= cfg.limits.maximumMessage
    ensures Apply(cfg, s, WriterDoes(StartMessage(payload))).w.phase.Planned?
       <==> cfg.limits.maximumInline <= MAX_INLINE_MESSAGE_SIZE || |payload| <= MAX_INLINE_MESSAGE_SIZE
  {
    hide Init, Run, Placed, Length, Wrap, Bytes, Holds, AllOk, Records, ReaderInv, LogInv, PlanBatch, BatchSpan, AllSendable;
    hide Fragmenter.MaximumBatchBytes;
    ReachableInv(cfg, schedule, s);
    HeadInFlight(cfg, s.m, s.h, Image(s.w, s.h));
    Progress.EmptyRingFitsEveryMessage(cfg.limits, cfg.capacity, s.h.published, payload);
    PlanBatchAccepts(cfg.capacity, s.h.consumed, s.h.published, cfg.limits.Fragments(payload).value, Data,
                     s.w.nextId, |s.h.log|, cfg.WriterInline());
  }
}
