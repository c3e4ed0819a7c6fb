/** No side can be kept waiting: in every interleaving, whatever the other side does, a receive answers
    and a planned batch is published after a bounded number of the own side's steps. */
module RingBounds {
  import opened Wrappers
  import opened Words
  import opened Geometry
  import opened Layout
  import opened RingMemory
  import opened BatchPlan
  import opened Fragmentation
  import opened Reassembly
  import opened Delivery
  import opened RingReader
  import opened RingWriter
  import opened RingSystem
  import opened RingInvariant
  import opened RingSteps
  import opened RingTheorems
  import opened RingLiveness

  // ---- The reader ----------------------------------------------------------------------------

  /** The step is the reader's next one. */
  predicate ReaderMoves(s: World, step: Step) {
    step == ReaderDoes(NextReaderStep(s.r.phase))
  }

  function ReaderMoveCount(cfg: Config, s: World, schedule: seq<Step>): nat
    requires cfg.Valid()
    decreases |schedule|
  {
    if schedule == [] then 0
    else
      (if ReaderMoves(s, schedule[0]) then 1 else 0) + ReaderMoveCount(cfg, Apply(cfg, s, schedule[0]), schedule[1..])
  }

  /** The next step of the reader answers the `receive` of the ring: nothing is committed, or a record
      is handed over. */
  predicate RingAnswers(cfg: Config, s: World)
    requires cfg.Valid()
  {
    || (s.r.phase.Waiting? && GlanceAt(cfg.capacity, s.m.producer, s.m.consumer) == Ok(NothingCommitted))
    || (s.r.phase.Finishing? && s.r.phase.record.Some?)
  }

  function RingAnswerCount(cfg: Config, s: World, schedule: seq<Step>): nat
    requires cfg.Valid()
    decreases |schedule|
  {
    if schedule == [] then 0
    else
      (if ReaderMoves(s, schedule[0]) && RingAnswers(cfg, s) then 1 else 0)
      + RingAnswerCount(cfg, Apply(cfg, s, schedule[0]), schedule[1..])
  }

  /** The most steps one item takes: three to reach it, a byte each, three to consume it. */
  function ItemSteps(cfg: Config): nat {
    cfg.capacity + 6
  }

  /** Items a receive that stands in front of these still has to take: a record, or padding and the
      record behind it. */
  function ItemsAhead(items: seq<Item>): nat {
    if RecordFirst(items) then 1 else 2
  }

  /** An upper bound on the reader's own steps until `receive` answers. */
  function ReaderBudget(cfg: Config, s: World): nat {
    var later := (ItemsAhead(s.h.items) - 1) * ItemSteps(cfg);
    match s.r.phase
    case Waiting => ItemSteps(cfg) + later
    case Fetching(_, _) => cfg.capacity + 5 + later
    case Loading(_, _, _, _) => BytesWanted(s.r.phase) + 4 + later
    case Consuming(_, _) => 3 + later
    case Storing(_, _) => 2 + later
    case Finishing(_, record) => 1 + if record.Some? then 0 else ItemSteps(cfg)
    case ReaderBroken(_) => 0
  }

  /** One receive of the ring never takes more than this. */
  function ReceiveBound(cfg: Config): nat {
    2 * ItemSteps(cfg)
  }

  lemma BudgetBounds(cfg: Config, s: World)
    requires cfg.Valid() && Inv(cfg, s)
    ensures 1 <= ReaderBudget(cfg, s) <= ReceiveBound(cfg)
  {
    hide WriterInv, MemoryInv, LogInv, Bytes, AllOk, Wrap, Offset;
  }

  /** With nothing in flight a glance says so. */
  lemma LookSeesNothing(cfg: Config, s: World)
    requires cfg.Valid() && Inv(cfg, s) && RunsSeamlessly(cfg, s) && s.h.items == []
    ensures GlanceAt(cfg.capacity, s.m.producer, s.m.consumer) == Ok(NothingCommitted)
  {
    hide Offset, ItemOk, Placed, Length, Wrap, Records, Bytes, Holds, AllOk, GlanceAt, LogInv, Ordered, TasksAt, Announces;
    HeadInFlight(cfg, s.m, s.h, Image(s.w, s.h));
    SeamlessBelow(cfg.capacity, s.h.consumed, s.h.published + cfg.capacity);
    GlanceSees(cfg.capacity, s.h.consumed, s.h.published, s.h.items, s.h.taken, cfg.limits.maximumInline);
  }

  /** What the invariant says of the item a receive decided about. */
  lemma DecidedShape(cfg: Config, s: World)
    requires cfg.Valid() && Inv(cfg, s)
    ensures s.r.phase.Consuming? || s.r.phase.Storing? ==> (s.r.phase.record.Some? <==> RecordFirst(s.h.items))
    ensures s.r.phase.Finishing? && s.r.phase.record.None? ==> RecordFirst(s.h.items)
    ensures s.r.phase.Fetching? ==> s.r.phase.contiguous <= cfg.capacity
  {
    hide WriterInv, MemoryInv, LogInv, Bytes, AllOk, Wrap, Offset;
  }

  /** One step of the reader answers or comes closer to the answer. */
  lemma ReaderMoveCosts(cfg: Config, s: World)
    requires cfg.Valid() && Inv(cfg, s) && RunsSeamlessly(cfg, s)
    ensures var t := Apply(cfg, s, ReaderDoes(NextReaderStep(s.r.phase)));
            RingAnswers(cfg, s) || ReaderBudget(cfg, t) < ReaderBudget(cfg, s)
  {
    hide Inv, ReadRange, ConsumeCheck, GlanceAt, Inspect, ChannelStep, RunsSeamlessly, WrappingSub, WrappingAdd;
    ReaderShape(cfg, s);
    DecidedShape(cfg, s);
    StepKeeps(cfg, s, ReaderDoes(NextReaderStep(s.r.phase)));
    var t := Apply(cfg, s, ReaderDoes(NextReaderStep(s.r.phase)));
    ReaderShape(cfg, t);
    DecidedShape(cfg, t);
    if s.r.phase.Waiting? {
      if s.h.items == [] {
        LookSeesNothing(cfg, s);
      } else {
        LookSees(cfg, s);
      }
    } else if s.r.phase.Loading? {
      InspectDecides(s.r.phase.used, s.m.consumer, s.r.phase.buffer, cfg.limits.maximumInline, s.r.expected);
    }
  }

  /** No other step takes a receive further away from its answer. */
  lemma OthersCostNothing(cfg: Config, s: World, step: Step)
    requires cfg.Valid() && !ReaderMoves(s, step)
    ensures var t := Apply(cfg, s, step);
            t.r == s.r && ReaderBudget(cfg, t) <= ReaderBudget(cfg, s)
  {
    hide PlanBatch, TasksOf, ItemsOf, EndCursor, Length, Records, WriteRange, PublishCheck, GlanceAt, ReadRange, Inspect;
    hide ConsumeCheck, ChannelStep, TaskData;
    if step.ReaderDoes? {
      OnlyNextReads(cfg, s, step.r);
    } else {
      WriterLeavesHead(cfg, s, step.w);
    }
  }

  /** A reader step that is not the next one does nothing. */
  lemma OnlyNextReads(cfg: Config, s: World, step: ReaderStep)
    requires cfg.Valid() && step != NextReaderStep(s.r.phase)
    ensures ApplyReader(cfg, s, step) == s
  {
    hide GlanceAt, ReadRange, Inspect, ConsumeCheck, ChannelStep;
  }

  lemma WriterLeavesHead(cfg: Config, s: World, step: WriterStep)
    requires cfg.Valid()
    ensures var t := ApplyWriter(cfg, s, step);
            t.r == s.r && ItemsAhead(t.h.items) <= ItemsAhead(s.h.items)
  {
    hide PlanBatch, TasksOf, ItemsOf, EndCursor, Length, Records, WriteRange, PublishCheck, TaskData;
  }

  /** In every interleaving, from every state of the invariant: the reader's own steps are bounded by the
      receives they answer. */
  lemma {:induction false} ReceivesAnswer(cfg: Config, s: World, schedule: seq<Step>)
    requires cfg.Valid() && Inv(cfg, s) && RunsSeamlessly(cfg, Run(cfg, s, schedule))
    ensures ReaderMoveCount(cfg, s, schedule)
          < ReaderBudget(cfg, s) + ReceiveBound(cfg) * RingAnswerCount(cfg, s, schedule)
    decreases |schedule|
  {
    hide Inv, Apply, ReaderBudget, ReceiveBound, RingAnswers, ReaderMoves, RunsSeamlessly;
    BudgetBounds(cfg, s);
    if schedule != [] {
      var step := schedule[0];
      var t := Apply(cfg, s, step);
      RunGrows(cfg, t, schedule[1..]);
      PublishedGrows(cfg, s, step);
      StepKeeps(cfg, s, step);
      ReceivesAnswer(cfg, t, schedule[1..]);
      BudgetBounds(cfg, t);
      if ReaderMoves(s, step) {
        ReaderStepIsNext(cfg, s, step);
      } else {
        OthersCostNothing(cfg, s, step);
      }
      OneMoreAnswer(ReceiveBound(cfg), RingAnswerCount(cfg, t, schedule[1..]));
    }
  }

  lemma ReaderStepIsNext(cfg: Config, s: World, step: Step)
    requires cfg.Valid() && Inv(cfg, s) && RunsSeamlessly(cfg, s) && ReaderMoves(s, step)
    ensures RingAnswers(cfg, s) || ReaderBudget(cfg, Apply(cfg, s, step)) < ReaderBudget(cfg, s)
  {
    hide Inv, Apply, ReaderBudget, RingAnswers;
    ReaderMoveCosts(cfg, s);
  }

  lemma OneMoreAnswer(bound: nat, answers: nat)
    ensures bound * (1 + answers) == bound + bound * answers
  {
  }

  // ---- The channel's receive -----------------------------------------------------------------

  /** The next step of the reader answers the `receive` of the channel: nothing is committed, or a record
      completes an event. */
  predicate ChannelAnswers(cfg: Config, s: World)
    requires cfg.Valid()
  {
    RingAnswers(cfg, s)
    && (s.r.phase.Finishing? && s.r.phase.record.Some? ==>
      !ChannelStep(cfg.limits, s.r.partial, s.r.phase.record.value).More?)
  }

  function ChannelAnswerCount(cfg: Config, s: World, schedule: seq<Step>): nat
    requires cfg.Valid()
    decreases |schedule|
  {
    if schedule == [] then 0
    else
      (if ReaderMoves(s, schedule[0]) && ChannelAnswers(cfg, s) then 1 else 0)
      + ChannelAnswerCount(cfg, Apply(cfg, s, schedule[0]), schedule[1..])
  }

  /** How many more bytes a pending message can gather. */
  function Room(limits: Fragmenter, partial: Option<PartialMessage>): nat {
    var gathered := if partial.Some? then |partial.value.payload| else 0;
    if gathered <= limits.maximumMessage then limits.maximumMessage - gathered else 0
  }

  function ChannelBudget(cfg: Config, s: World): nat {
    ReaderBudget(cfg, s) + ReceiveBound(cfg) * Room(cfg.limits, s.r.partial)
  }

  /** One receive of the channel never takes more than this: every fragment brings a byte at least. */
  function ChannelBound(cfg: Config): nat {
    ReceiveBound(cfg) * (1 + cfg.limits.maximumMessage)
  }

  lemma ChannelBudgetBounds(cfg: Config, s: World)
    requires cfg.Valid() && Inv(cfg, s)
    ensures 1 <= ChannelBudget(cfg, s) <= ChannelBound(cfg)
  {
    hide Inv, ReaderBudget, ReceiveBound;
    BudgetBounds(cfg, s);
    var room, most, bound := Room(cfg.limits, s.r.partial), cfg.limits.maximumMessage, ReceiveBound(cfg);
    assert bound * most == bound * room + bound * (most - room);
    OneMoreAnswer(bound, most);
  }

  /** A fragment that does not complete its message leaves less room. */
  lemma FragmentTakesRoom(limits: Fragmenter, partial: Option<PartialMessage>, r: OwnedRecord)
    requires ChannelStep(limits, partial, r).More?
    ensures Room(limits, ChannelStep(limits, partial, r).partial) < Room(limits, partial)
  {
  }

  lemma ChannelMoveCosts(cfg: Config, s: World, step: Step)
    requires cfg.Valid() && Inv(cfg, s) && RunsSeamlessly(cfg, s) && ReaderMoves(s, step)
    ensures ChannelAnswers(cfg, s) || ChannelBudget(cfg, Apply(cfg, s, step)) < ChannelBudget(cfg, s)
  {
    hide Inv, ReaderBudget, ReceiveBound, ChannelStep, Room, RunsSeamlessly, GlanceAt, ReadRange, Inspect, ConsumeCheck, WrappingSub;
    ReaderStepIsNext(cfg, s, step);
    StepKeeps(cfg, s, step);
    var t := Apply(cfg, s, step);
    BudgetBounds(cfg, s);
    BudgetBounds(cfg, t);
    if s.r.phase.Finishing? && s.r.phase.record.Some? {
      ReaderShape(cfg, t);
      if ChannelStep(cfg.limits, s.r.partial, s.r.phase.record.value).More? {
        FragmentTakesRoom(cfg.limits, s.r.partial, s.r.phase.record.value);
        LessRoom(ReceiveBound(cfg), Room(cfg.limits, t.r.partial), Room(cfg.limits, s.r.partial));
      }
    }
  }

  lemma LessRoom(bound: nat, less: nat, room: nat)
    requires less < room
    ensures bound + bound * less <= bound * room
  {
    assert bound * room == bound * (1 + less) + bound * (room - 1 - less);
  }

  /** The same for the receive of the channel, which takes fragments until an event is complete. */
  lemma {:induction false} ChannelReceivesAnswer(cfg: Config, s: World, schedule: seq<Step>)
    requires cfg.Valid() && Inv(cfg, s) && RunsSeamlessly(cfg, Run(cfg, s, schedule))
    ensures ReaderMoveCount(cfg, s, schedule)
          < ChannelBudget(cfg, s) + ChannelBound(cfg) * ChannelAnswerCount(cfg, s, schedule)
    decreases |schedule|
  {
    hide Inv, Apply, ChannelBudget, ChannelBound, ChannelAnswers, ReaderMoves, RunsSeamlessly;
    ChannelBudgetBounds(cfg, s);
    if schedule != [] {
      var step := schedule[0];
      var t := Apply(cfg, s, step);
      RunGrows(cfg, t, schedule[1..]);
      PublishedGrows(cfg, s, step);
      StepKeeps(cfg, s, step);
      ChannelReceivesAnswer(cfg, t, schedule[1..]);
      ChannelBudgetBounds(cfg, t);
      if ReaderMoves(s, step) {
        ChannelMoveCosts(cfg, s, step);
      } else {
        OthersCostChannelNothing(cfg, s, step);
      }
      OneMoreAnswer(ChannelBound(cfg), ChannelAnswerCount(cfg, t, schedule[1..]));
    }
  }

  lemma OthersCostChannelNothing(cfg: Config, s: World, step: Step)
    requires cfg.Valid() && !ReaderMoves(s, step)
    ensures ChannelBudget(cfg, Apply(cfg, s, step)) <= ChannelBudget(cfg, s)
  {
    hide Apply, ReaderBudget, ReceiveBound, Room;
    OthersCostNothing(cfg, s, step);
  }

  /** In every reachable state and whatever the writer does, k times 2 (capacity + 6) of the reader's own
      steps answer k receives of the ring at least, and as many times 1 + maximumMessage more answer k
      receives of the channel. */
  lemma ReceiveIsWaitFree(cfg: Config, before: seq<Step>, s: World, schedule: seq<Step>, k: nat)
    requires Reaches(cfg, before, s) && RunsSeamlessly(cfg, Run(cfg, s, schedule))
    ensures var moves, bound := ReaderMoveCount(cfg, s, schedule), 2 * (cfg.capacity + 6);
            && (moves >= bound * k ==> RingAnswerCount(cfg, s, schedule) >= k)
            && (moves >= bound * (1 + cfg.limits.maximumMessage) * k ==> ChannelAnswerCount(cfg, s, schedule) >= k)
  {
    hide Inv, Run, Init, ReaderBudget, ChannelBudget, RunsSeamlessly, Apply;
    ReachableInv(cfg, before, s);
    ReceivesAnswer(cfg, s, schedule);
    ChannelReceivesAnswer(cfg, s, schedule);
    BudgetBounds(cfg, s);
    ChannelBudgetBounds(cfg, s);
    BoundedBy(ReceiveBound(cfg), k, RingAnswerCount(cfg, s, schedule));
    BoundedBy(ChannelBound(cfg), k, ChannelAnswerCount(cfg, s, schedule));
  }

  lemma BoundedBy(bound: nat, k: nat, answers: nat)
    ensures k > answers ==> bound * k >= bound + bound * answers
  {
    if k > answers {
      assert bound * k == bound * (1 + answers) + bound * (k - 1 - answers);
      OneMoreAnswer(bound, answers);
    }
  }

  // ---- The writer ----------------------------------------------------------------------------

  /** The step is the next one of a writer that has planned a batch. */
  predicate WriterMoves(s: World, step: Step) {
    Busy(s.w.phase) && step == WriterDoes(NextWriterStep(s.w.phase))
  }

  function WriterMoveCount(cfg: Config, s: World, schedule: seq<Step>): nat
    requires cfg.Valid()
    decreases |schedule|
  {
    if schedule == [] then 0
    else
      (if WriterMoves(s, schedule[0]) then 1 else 0) + WriterMoveCount(cfg, Apply(cfg, s, schedule[0]), schedule[1..])
  }

  /** How many batches the schedule publishes. */
  function PublicationCount(cfg: Config, s: World, schedule: seq<Step>): nat
    requires cfg.Valid()
    decreases |schedule|
  {
    if schedule == [] then 0
    else
      (if WriterMoves(s, schedule[0]) && s.w.phase.Publishing? then 1 else 0)
      + PublicationCount(cfg, Apply(cfg, s, schedule[0]), schedule[1..])
  }

  /** The writer does not give up a batch. */
  predicate NeverAbandons(schedule: seq<Step>) {
    forall i :: 0 <= i < |schedule| ==> schedule[i] != WriterDoes(Abandon)
  }

  /** What it takes to write items: a byte each, and two steps around every item. */
  function ItemsCost(items: seq<Item>): nat {
    Length(items) + 2 * |items|
  }

  /** An upper bound on the writer's own steps until its batch is published. */
  function WriterBudget(cfg: Config, s: World): nat {
    match s.w.phase
    case Planned(_, _, _, _) =>
      2 + if s.h.written <= |s.h.batch| then ItemsCost(s.h.batch[s.h.written..]) else 0
    case Copying(_, _, _, _, _, _, _) =>
      3 + BytesLeft(s.w.phase) + if s.h.written < |s.h.batch| then ItemsCost(s.h.batch[s.h.written + 1..]) else 0
    case Publishing(_, _, _) => 1
    case _ => PublishBound(cfg)
  }

  /** One batch never takes more than this. */
  function PublishBound(cfg: Config): nat {
    cfg.capacity + cfg.capacity / 4 + 2
  }

  lemma {:induction false} ItemsAreLong(items: seq<Item>)
    requires AllOk(items)
    ensures 8 * |items| <= Length(items)
  {
    if items != [] {
      assert ItemOk(items[0]);
      ItemsAreLong(items[1..]);
    }
  }

  lemma {:induction false} ItemsCostSuffix(items: seq<Item>, k: nat)
    requires k <= |items|
    ensures ItemsCost(items[k..]) <= ItemsCost(items)
    ensures k < |items| ==> ItemsCost(items[k..]) == ItemLength(items[k]) + 2 + ItemsCost(items[k + 1..])
    decreases k
  {
    if k < |items| {
      assert items[k..][1..] == items[k + 1..] && items[k..][0] == items[k];
    }
    if k > 0 {
      assert items[1..][k - 1..] == items[k..];
      ItemsCostSuffix(items[1..], k - 1);
    } else {
      assert items[0..] == items;
    }
  }

  /** What the invariant says of a batch in progress. */
  lemma BatchShape(cfg: Config, s: World)
    requires cfg.Valid() && Inv(cfg, s) && Busy(s.w.phase)
    ensures AllOk(s.h.batch) && Length(s.h.batch) <= cfg.capacity && s.h.written <= |s.h.batch|
    ensures s.w.phase.Planned? ==> (s.w.phase.todo == [] <==> s.h.written == |s.h.batch|)
    ensures s.w.phase.Copying? ==> s.h.written < |s.h.batch| && |s.w.phase.data| == ItemLength(s.h.batch[s.h.written])
    ensures s.w.phase.Copying? ==> s.w.phase.done <= |s.w.phase.data|
  {
    hide Announces, Placed, Length, Wrap, Bytes, Holds, Records, ReaderInv, LogInv, Offset;
  }

  lemma WriterBudgetBounds(cfg: Config, s: World)
    requires cfg.Valid() && Inv(cfg, s)
    ensures 1 <= WriterBudget(cfg, s) <= PublishBound(cfg)
  {
    hide Inv, AllOk, Length;
    if Busy(s.w.phase) {
      BatchShape(cfg, s);
      ItemsAreLong(s.h.batch);
      ItemsCostSuffix(s.h.batch, s.h.written);
      if s.w.phase.Copying? {
        ItemsCostSuffix(s.h.batch, s.h.written + 1);
      }
    }
  }

  /** One step of a busy writer publishes the batch or comes closer to it. */
  lemma WriterMoveCosts(cfg: Config, s: World, step: Step)
    requires cfg.Valid() && Inv(cfg, s) && RunsSeamlessly(cfg, s) && WriterMoves(s, step)
    ensures var t := Apply(cfg, s, step);
            if s.w.phase.Publishing? then t.h.sent == s.h.sent + [s.w.phase.event]
            else WriterBudget(cfg, t) < WriterBudget(cfg, s)
  {
    hide Inv, ItemsCost, WriteRange, PublishCheck, TaskData, RunsSeamlessly, Length, Records, NextMessageId, AllOk, PublishBound;
    WriterTurn(cfg, s);
    BatchShape(cfg, s);
    ItemsCostSuffix(s.h.batch, s.h.written);
    if !s.w.phase.Publishing? {
      BatchShape(cfg, Apply(cfg, s, step));
    }
  }

  /** Steps of the reader and other steps of the writer never take a batch further from publication. */
  lemma OthersLeaveBatch(cfg: Config, s: World, step: Step)
    requires cfg.Valid() && Inv(cfg, s) && RunsSeamlessly(cfg, s)
    requires !WriterMoves(s, step) && step != WriterDoes(Abandon)
    ensures WriterBudget(cfg, Apply(cfg, s, step)) <= WriterBudget(cfg, s)
  {
    hide Inv, ItemsCost, RunsSeamlessly, PublishBound, ApplyReader, ApplyWriter;
    var t := Apply(cfg, s, step);
    if step.ReaderDoes? {
      ReaderLeavesBatch(cfg, s, step.r);
    } else if Busy(s.w.phase) {
      OnlyNextWrites(cfg, s, step.w);
    } else {
      WriterShape(cfg, s);
      StepKeeps(cfg, s, step);
      WriterBudgetBounds(cfg, t);
    }
  }

  lemma ReaderLeavesBatch(cfg: Config, s: World, step: ReaderStep)
    requires cfg.Valid()
    ensures var t := ApplyReader(cfg, s, step);
            t.w == s.w && t.h.batch == s.h.batch && t.h.written == s.h.written
  {
    hide GlanceAt, ReadRange, Inspect, ConsumeCheck, ChannelStep, WrappingSub, WrappingAdd;
  }

  lemma OnlyNextWrites(cfg: Config, s: World, step: WriterStep)
    requires cfg.Valid() && Busy(s.w.phase) && step != NextWriterStep(s.w.phase) && step != Abandon
    ensures var t := ApplyWriter(cfg, s, step);
            t.w.phase == s.w.phase && t.h == s.h
  {
    hide PlanBatch, TasksOf, ItemsOf, EndCursor, Length, Records, WriteRange, PublishCheck, TaskData;
  }

  /** In every interleaving, from every state of the invariant: the steps of a writer that never gives up a
      batch are bounded by the batches it publishes. */
  lemma {:induction false} BatchesAppear(cfg: Config, s: World, schedule: seq<Step>)
    requires cfg.Valid() && Inv(cfg, s) && RunsSeamlessly(cfg, Run(cfg, s, schedule)) && NeverAbandons(schedule)
    ensures WriterMoveCount(cfg, s, schedule)
          < WriterBudget(cfg, s) + PublishBound(cfg) * PublicationCount(cfg, s, schedule)
    decreases |schedule|
  {
    hide Inv, Apply, WriterBudget, PublishBound, WriterMoves, RunsSeamlessly;
    WriterBudgetBounds(cfg, s);
    if schedule != [] {
      var step := schedule[0];
      var t := Apply(cfg, s, step);
      RunGrows(cfg, t, schedule[1..]);
      PublishedGrows(cfg, s, step);
      StepKeeps(cfg, s, step);
      BatchesAppear(cfg, t, schedule[1..]);
      WriterBudgetBounds(cfg, t);
      if WriterMoves(s, step) {
        WriterMoveCosts(cfg, s, step);
      } else {
        OthersLeaveBatch(cfg, s, step);
      }
      OneMoreAnswer(PublishBound(cfg), PublicationCount(cfg, t, schedule[1..]));
    }
  }

  /** In every reachable state and whatever the reader does, k times 5/4 capacity + 2 steps of a writer
      that never gives up a batch publish k batches at least. */
  lemma PublishIsWaitFree(cfg: Config, before: seq<Step>, s: World, schedule: seq<Step>, k: nat)
    requires Reaches(cfg, before, s) && RunsSeamlessly(cfg, Run(cfg, s, schedule)) && NeverAbandons(schedule)
    ensures WriterMoveCount(cfg, s, schedule) >= (cfg.capacity + cfg.capacity / 4 + 2) * k ==>
      PublicationCount(cfg, s, schedule) >= k
  {
    hide Inv, Run, Init, WriterBudget, RunsSeamlessly, Apply;
    ReachableInv(cfg, before, s);
    BatchesAppear(cfg, s, schedule);
    WriterBudgetBounds(cfg, s);
    BoundedBy(PublishBound(cfg), k, PublicationCount(cfg, s, schedule));
  }
}
