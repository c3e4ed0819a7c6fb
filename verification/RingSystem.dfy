/** One direction of a channel as a state machine over every interleaving of its two sides.

    A step is one call's local work up to and including at most one access to memory the other side
    may touch: loading the opposite cursor, storing the own cursor, copying one byte. The cursors a
    side works with are therefore as stale as the schedule makes them. The history is never read by a
    step; it says what was published, received, sent and delivered. */
module RingSystem {
  import opened Wrappers
  import opened Words
  import opened Record
  import opened RingCore
  import opened Layout
  import opened RingMemory
  import opened BatchPlan
  import opened Fragmentation
  import opened Reassembly
  import opened Delivery
  import opened RingReader
  import opened RingWriter

  datatype Config = Config(capacity: u32, limits: Fragmenter) {
    predicate Valid() {
      ValidCapacity(capacity) && limits.Valid()
    }

    /** The inline limit the writer works with. */
    function WriterInline(): u32 {
      Clamped(limits.maximumInline)
    }
  }

  /** The memory both sides share. */
  datatype Memory = Memory(bytes: seq<u8>, producer: u32, consumer: u32)

  /** One `memory.write` a planned batch still has to make. */
  datatype Task =
    | PadTask(cursor: u32, length: u32, sequence: u32)
    | RecordTask(cursor: u32, header: Header, payload: seq<u8>)

  datatype WriterPhase =
    | Idle
    | Planned(todo: seq<Task>, end: u32, sequence: u32, event: ChannelEvent)
    | Copying(offset: nat, data: seq<u8>, done: nat, todo: seq<Task>, end: u32, sequence: u32, event: ChannelEvent)
    | Publishing(end: u32, sequence: u32, event: ChannelEvent)
    | WriterBroken(code: ErrorCode)

  datatype WriterState = WriterState(
    nextId: MessageId, nextSequence: u32, localClosed: bool, remoteClosed: bool, phase: WriterPhase)

  datatype ReaderPhase =
    | Waiting
    | Fetching(contiguous: u32, used: u32)
    | Loading(offset: nat, contiguous: u32, used: u32, buffer: seq<u8>)
    | Consuming(receipt: ReadReceipt, record: Option<OwnedRecord>)
    | Storing(receipt: ReadReceipt, record: Option<OwnedRecord>)
    | Finishing(next: u32, record: Option<OwnedRecord>)
    | ReaderBroken(code: ErrorCode)

  datatype ReaderState = ReaderState(expected: u32, partial: Option<PartialMessage>, phase: ReaderPhase)

  /** Stream positions behind the cursors, the items between them, the batch being written, and the
      logs of both sides. */
  datatype History = History(
    published: nat, consumed: nat, taken: nat, items: seq<Item>,
    batch: seq<Item>, written: nat,
    log: seq<OwnedRecord>, got: seq<OwnedRecord>,
    sent: seq<ChannelEvent>, events: seq<ChannelEvent>)

  datatype World = World(m: Memory, w: WriterState, r: ReaderState, h: History)

  function Init(cfg: Config): World {
    World(Memory(Zeros(cfg.capacity), 0, 0),
          WriterState(1, 0, false, false, Idle),
          ReaderState(0, None, Waiting),
          History(0, 0, 0, [], [], 0, [], [], [], []))
  }

  datatype WriterStep =
    | StartMessage(payload: seq<u8>)
    | StartFinish(kind: RecordKind)
    | BeginWrite
    | CopyByte
    | CheckPublish
    | StorePublish
    | Abandon
    | HearRemoteClose

  datatype ReaderStep =
    | Look
    | BeginRead
    | LoadByte
    | Decide
    | CheckConsume
    | StoreConsume
    | FinishConsume

  datatype Step = WriterDoes(w: WriterStep) | ReaderDoes(r: ReaderStep)

  /** The tasks of planned records: a wrap tail where one is needed, then the record. */
  function TasksOf(prepared: seq<Prepared>): seq<Task> {
    if prepared == [] then []
    else
      var e := prepared[0];
      (if e.plan.paddingLength == 0 then [] else [PadTask(e.plan.startCursor, e.plan.paddingLength, e.header.sequence)])
      + [RecordTask(WrappingAdd(e.plan.startCursor, e.plan.paddingLength), e.header, e.payload)]
      + TasksOf(prepared[1..])
  }

  /** The bytes a task writes. */
  function TaskData(t: Task): Result<seq<u8>> {
    match t
    case PadTask(_, length, sequence) =>
      if length < PREFIX_SIZE then Ok(Zeros(length))
      else
        var header :- PaddingHeader(length, sequence);
        Ok(RecordBytes(header, []))
    case RecordTask(_, header, payload) =>
      if PREFIX_SIZE + |payload| > header.recordLength then Err(Truncated) else Ok(RecordBytes(header, payload))
  }

  /** Plans a batch from one load of the consumer cursor; a refused call leaves everything as it was. */
  function Start(cfg: Config, s: World, fragments: seq<Fragment>, kind: RecordKind, event: ChannelEvent): World {
    var plans := PlanBatch(cfg.capacity, s.m.producer, s.m.consumer, fragments, kind, s.w.nextId,
                           s.w.nextSequence, cfg.WriterInline());
    if plans.Err? then s
    else
      s.(w := s.w.(phase := Planned(TasksOf(plans.value), EndCursor(plans.value, s.m.producer),
                                    Wrap(s.w.nextSequence + |fragments|), event)),
         h := s.h.(batch := ItemsOf(plans.value), written := 0))
  }

  function ApplyWriter(cfg: Config, s: World, step: WriterStep): World
    requires cfg.Valid()
  {
    var w, m, h := s.w, s.m, s.h;
    match step
    case StartMessage(payload) =>
      if !w.phase.Idle? || w.localClosed || w.remoteClosed then s
      else
        var fragments := cfg.limits.Fragments(payload);
        if fragments.Err? then s else Start(cfg, s, fragments.value, Data, Message(payload))
    case StartFinish(kind) =>
      if !w.phase.Idle? || w.localClosed || (kind != RecordKind.Close && kind != RecordKind.Reset) then s
      else
        Start(cfg, s, [Fragment([], END_OF_MESSAGE)], kind,
              if kind == RecordKind.Close then ChannelEvent.Closed else ChannelEvent.Reset)
    case BeginWrite =>
      if !w.phase.Planned? || w.phase.todo == [] then s
      else
        var task := w.phase.todo[0];
        var data := TaskData(task);
        if data.Err? then s.(w := w.(phase := WriterBroken(data.error)))
        else
          var range := WriteRange(cfg.capacity, m.producer, m.consumer, task.cursor, |data.value|);
          if range.Err? then s.(w := w.(phase := WriterBroken(range.error)))
          else
            s.(w := w.(phase := Copying(range.value, data.value, 0, w.phase.todo[1..],
                                        w.phase.end, w.phase.sequence, w.phase.event)))
    case CopyByte =>
      if !w.phase.Copying? then s
      else if w.phase.done == |w.phase.data| then
        s.(w := w.(phase := Planned(w.phase.todo, w.phase.end, w.phase.sequence, w.phase.event)),
           h := h.(written := h.written + 1))
      else if w.phase.done < |w.phase.data| && w.phase.offset + w.phase.done < |m.bytes| then
        s.(m := m.(bytes := m.bytes[w.phase.offset + w.phase.done := w.phase.data[w.phase.done]]),
           w := w.(phase := w.phase.(done := w.phase.done + 1)))
      else s.(w := w.(phase := WriterBroken(InvalidRange)))
    case CheckPublish =>
      if !w.phase.Planned? || w.phase.todo != [] then s
      else
        var refused := PublishCheck(cfg.capacity, m.producer, m.consumer, w.phase.end);
        if refused.Some? then s.(w := w.(phase := WriterBroken(refused.value)))
        else s.(w := w.(phase := Publishing(w.phase.end, w.phase.sequence, w.phase.event)))
    case StorePublish =>
      if !w.phase.Publishing? then s
      else
        s.(m := m.(producer := w.phase.end),
           w := WriterState(NextMessageId(w.nextId), w.phase.sequence, w.localClosed || Terminal(w.phase.event),
                            w.remoteClosed, Idle),
           h := h.(published := h.published + Length(h.batch), items := h.items + h.batch,
                   batch := [], written := 0,
                   log := h.log + Records(h.batch), sent := h.sent + [w.phase.event]))
    case Abandon =>
      if w.phase.WriterBroken? then s
      else s.(w := w.(phase := Idle), h := h.(batch := [], written := 0))
    case HearRemoteClose =>
      s.(w := w.(remoteClosed := true))
  }

  function ApplyReader(cfg: Config, s: World, step: ReaderStep): World
    requires cfg.Valid()
  {
    var r, m, h := s.r, s.m, s.h;
    match step
    case Look =>
      if !r.phase.Waiting? then s
      else
        var glance := GlanceAt(cfg.capacity, m.producer, m.consumer);
        (match glance
         case Err(code) => s.(r := r.(phase := ReaderBroken(code)))
         case Ok(NothingCommitted) => s
         case Ok(SkipTail(receipt)) => s.(r := r.(phase := Consuming(receipt, None)))
         case Ok(Fetch(contiguous, used)) => s.(r := r.(phase := Fetching(contiguous, used))))
    case BeginRead =>
      if !r.phase.Fetching? then s
      else
        var range := ReadRange(cfg.capacity, m.producer, m.consumer, m.consumer, r.phase.contiguous);
        if range.Err? then s.(r := r.(phase := ReaderBroken(range.error)))
        else s.(r := r.(phase := Loading(range.value, r.phase.contiguous, r.phase.used, [])))
    case LoadByte =>
      if !r.phase.Loading? || |r.phase.buffer| >= r.phase.contiguous then s
      else if r.phase.offset + |r.phase.buffer| >= |m.bytes| then s.(r := r.(phase := ReaderBroken(InvalidRange)))
      else
        s.(r := r.(phase := r.phase.(buffer := r.phase.buffer + [m.bytes[r.phase.offset + |r.phase.buffer|]])))
    case Decide =>
      if !r.phase.Loading? || |r.phase.buffer| < r.phase.contiguous then s
      else
        var item := Inspect(r.phase.used, m.consumer, r.phase.buffer, cfg.limits.maximumInline, r.expected);
        (match item
         case Err(code) => s.(r := r.(phase := ReaderBroken(code)))
         case Ok(Empty) => s
         case Ok(PaddingItem(receipt)) => s.(r := r.(phase := Consuming(receipt, None)))
         case Ok(RecordItem(record, receipt)) => s.(r := r.(phase := Consuming(receipt, Some(record)))))
    case CheckConsume =>
      if !r.phase.Consuming? then s
      else
        var receipt := r.phase.receipt;
        if m.consumer != receipt.current then s.(r := r.(phase := ReaderBroken(InvalidCursor)))
        else if receipt.sequence.Some? && receipt.sequence.value != r.expected then
          s.(r := r.(phase := ReaderBroken(ProtocolViolation)))
        else
          var expected := if receipt.sequence.Some? then WrappingAdd(r.expected, 1) else r.expected;
          var refused := ConsumeCheck(cfg.capacity, m.producer, m.consumer, receipt.next);
          if refused.Some? then s.(r := r.(phase := ReaderBroken(refused.value)))
          else s.(r := r.(expected := expected, phase := Storing(receipt, r.phase.record)))
    case StoreConsume =>
      if !r.phase.Storing? then s
      else
        s.(m := m.(consumer := r.phase.receipt.next),
           r := r.(phase := Finishing(r.phase.receipt.next, r.phase.record)),
           h := Popped(h))
    case FinishConsume =>
      if !r.phase.Finishing? then s
      else if WrappingSub(m.producer, r.phase.next) > cfg.capacity then
        s.(r := r.(phase := ReaderBroken(InvalidCursor)))
      else if r.phase.record.None? then s.(r := r.(phase := Waiting))
      else
        var record := r.phase.record.value;
        (match ChannelStep(cfg.limits, r.partial, record)
         case Fault(code, partial) => s.(r := r.(partial := partial, phase := ReaderBroken(code)))
         case More(partial) => s.(r := r.(partial := partial, phase := Waiting), h := h.(got := h.got + [record]))
         case Emit(event, partial) =>
           s.(r := r.(partial := partial, phase := Waiting),
              h := h.(got := h.got + [record], events := h.events + [event])))
  }

  /** The history after the first item in flight was consumed. */
  function Popped(h: History): History {
    if h.items == [] then h
    else
      h.(consumed := h.consumed + ItemLength(h.items[0]), taken := NextCount(h.items[0], h.taken), items := h.items[1..])
  }

  function Apply(cfg: Config, s: World, step: Step): World
    requires cfg.Valid()
  {
    match step
    case WriterDoes(w) => ApplyWriter(cfg, s, w)
    case ReaderDoes(r) => ApplyReader(cfg, s, r)
  }

  /** The world after a schedule: any sequence of steps is one, a step that is not enabled does
      nothing. */
  function Run(cfg: Config, s: World, schedule: seq<Step>): World
    requires cfg.Valid()
    decreases |schedule|
  {
    if schedule == [] then s else Run(cfg, Apply(cfg, s, schedule[0]), schedule[1..])
  }
}
