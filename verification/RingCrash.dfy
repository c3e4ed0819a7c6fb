/** Batches written but never published are invisible: dropping them changes nothing that any later
    send or receive can see. */
module RingCrash {
  import opened Words
  import opened Geometry
  import opened Layout
  import opened RingMemory
  import opened BatchPlan
  import opened Delivery
  import opened RingReader
  import opened RingSystem
  import opened RingInvariant
  import opened RingSteps
  import opened RingTheorems

  /** The steps of writers that die before they publish: everything but the publishing store. */
  predicate Unpublished(attempt: seq<Step>) {
    forall i :: 0 <= i < |attempt| ==> attempt[i] != WriterDoes(StorePublish)
  }

  /** What remains of a schedule when the writer never tries. */
  function Without(attempt: seq<Step>): seq<Step> {
    if attempt == [] then []
    else (if Survives(attempt[0]) then [attempt[0]] else []) + Without(attempt[1..])
  }

  predicate Survives(step: Step) {
    step.ReaderDoes? || step.w.HearRemoteClose?
  }

  /** The same world but for the bytes of the ring's free space. */
  predicate Same(s: World, t: World) {
    |s.m.bytes| == |t.m.bytes| && s.(m := s.m.(bytes := t.m.bytes)) == t
  }

  /** s is t with a writer in the middle of a batch. */
  predicate Attempting(s: World, t: World) {
    && |s.m.bytes| == |t.m.bytes|
    && s.m.(bytes := t.m.bytes) == t.m
    && s.w.(phase := Idle) == t.w
    && s.r == t.r
    && s.h.(batch := [], written := 0) == t.h
  }

  /** Both worlds stand at the same stream positions and satisfy the invariant. */
  ghost predicate Sound(cfg: Config, s: World, t: World) {
    && cfg.Valid() && Inv(cfg, s) && Inv(cfg, t)
    && s.h.published == t.h.published && RunsSeamlessly(cfg, t)
  }

  /** A loading reader gets the same byte in two worlds with the same published items. */
  lemma SameByte(cfg: Config, s: World, t: World)
    requires cfg.Valid() && Inv(cfg, s) && Inv(cfg, t)
    requires s.r == t.r && s.h.items == t.h.items && s.h.consumed == t.h.consumed
    requires s.r.phase.Loading? && |s.r.phase.buffer| < s.r.phase.contiguous
    ensures |s.m.bytes| == |t.m.bytes| && s.r.phase.offset + |s.r.phase.buffer| < |s.m.bytes|
    ensures s.m.bytes[s.r.phase.offset + |s.r.phase.buffer|] == t.m.bytes[s.r.phase.offset + |s.r.phase.buffer|]
  {
    hide Offset, ItemOk, Placed, Length, Wrap, Records, Bytes, AllOk, LogInv, Holds, Ordered, TasksAt, Announces;
    var h, k := s.h, |s.r.phase.buffer|;
    PublishedByte(s.m.bytes, h.consumed, Bytes(h.items), Image(s.w, h), k);
    PublishedByte(t.m.bytes, h.consumed, Bytes(h.items), Image(t.w, t.h), k);
  }

  lemma SameReader(cfg: Config, s: World, t: World, step: ReaderStep)
    requires Sound(cfg, s, t) && (Same(s, t) || Attempting(s, t))
    ensures var u, v := ApplyReader(cfg, s, step), ApplyReader(cfg, t, step);
            (Same(s, t) ==> Same(u, v)) && (Attempting(s, t) ==> Attempting(u, v))
  {
    hide Inv, ReadRange, ConsumeCheck, GlanceAt, Inspect, ChannelStep, WrappingSub, WrappingAdd, RunsSeamlessly, Popped;
    if step.LoadByte? && s.r.phase.Loading? && |s.r.phase.buffer| < s.r.phase.contiguous {
      SameByte(cfg, s, t);
    }
    PoppedApart(s.h);
  }

  lemma PoppedApart(h: History)
    ensures Popped(h.(batch := [], written := 0)) == Popped(h).(batch := [], written := 0)
  {
  }

  /** Equal but for free bytes stays equal but for free bytes, whatever happens next. */
  lemma SameStep(cfg: Config, s: World, t: World, step: Step)
    requires Sound(cfg, s, t) && Same(s, t)
    ensures Same(Apply(cfg, s, step), Apply(cfg, t, step))
  {
    hide Inv, RunsSeamlessly, PlanBatch, TasksOf, ItemsOf, EndCursor, Length, Records, WriteRange, PublishCheck, TaskData, ApplyReader;
    match step {
      case ReaderDoes(r) => SameReader(cfg, s, t, r);
      case WriterDoes(w) =>
    }
  }

  /** A writer in the middle of a batch stays in it, next to the world in which it never began. */
  lemma AttemptStep(cfg: Config, s: World, t: World, step: Step)
    requires Sound(cfg, s, t) && Attempting(s, t) && step != WriterDoes(StorePublish)
    ensures Attempting(Apply(cfg, s, step), if Survives(step) then Apply(cfg, t, step) else t)
  {
    hide Inv, RunsSeamlessly, PlanBatch, TasksOf, ItemsOf, EndCursor, Length, Records, WriteRange, PublishCheck, TaskData, ApplyReader;
    match step {
      case ReaderDoes(r) => SameReader(cfg, s, t, r);
      case WriterDoes(w) => IdleHasNoBatch(cfg, t);
    }
  }

  lemma IdleHasNoBatch(cfg: Config, s: World)
    requires cfg.Valid() && Inv(cfg, s)
    ensures s.w.phase.Idle? ==> s.h.batch == [] && s.h.written == 0
    ensures !s.w.phase.WriterBroken?
  {
    hide TasksAt, Announces, Placed, Length, Wrap, Bytes, Holds, AllOk, Records, MemoryInv, ReaderInv, LogInv;
  }

  lemma {:induction false} SameRun(cfg: Config, s: World, t: World, after: seq<Step>)
    requires cfg.Valid() && Inv(cfg, s) && Inv(cfg, t) && Same(s, t)
    requires RunsSeamlessly(cfg, Run(cfg, t, after))
    ensures Same(Run(cfg, s, after), Run(cfg, t, after))
    decreases |after|
  {
    hide Inv, Apply;
    if after != [] {
      RunGrows(cfg, t, after);
      SameStep(cfg, s, t, after[0]);
      StepKeeps(cfg, s, after[0]);
      StepKeeps(cfg, t, after[0]);
      SameRun(cfg, Apply(cfg, s, after[0]), Apply(cfg, t, after[0]), after[1..]);
    }
  }

  lemma {:induction false} AttemptRun(cfg: Config, s: World, t: World, attempt: seq<Step>)
    requires cfg.Valid() && Inv(cfg, s) && Inv(cfg, t) && Attempting(s, t) && Unpublished(attempt)
    requires RunsSeamlessly(cfg, Run(cfg, t, Without(attempt)))
    ensures var u, v := Run(cfg, s, attempt), Run(cfg, t, Without(attempt));
            Attempting(u, v) && Inv(cfg, u) && Inv(cfg, v)
    decreases |attempt|
  {
    hide Inv, Apply, Survives;
    if attempt != [] {
      var step, rest := attempt[0], attempt[1..];
      var next := if Survives(step) then Apply(cfg, t, step) else t;
      RunGrows(cfg, t, Without(attempt));
      AttemptStep(cfg, s, t, step);
      StepKeeps(cfg, s, step);
      StepKeeps(cfg, t, step);
      assert ([step] + Without(rest))[1..] == Without(rest) && [] + Without(rest) == Without(rest);
      AttemptRun(cfg, Apply(cfg, s, step), next, rest);
    }
  }

  lemma {:induction false} RunAppend(cfg: Config, s: World, a: seq<Step>, b: seq<Step>)
    requires cfg.Valid()
    ensures Run(cfg, s, a + b) == Run(cfg, Run(cfg, s, a), b)
    decreases |a|
  {
    hide Apply;
    if a == [] {
      assert a + b == b;
    } else {
      assert (a + b)[1..] == a[1..] + b;
      RunAppend(cfg, Apply(cfg, s, a[0]), a[1..], b);
    }
  }

  /** Any number of batches begun and dropped, in any stage and interleaved with the reader at will,
      leave the two cursors, both endpoints, the queue and every later send and receive exactly as if
      they had never been begun; only bytes of free space differ. */
  lemma CrashInvisible(cfg: Config, before: seq<Step>, s: World, attempt: seq<Step>, after: seq<Step>)
    requires Reaches(cfg, before, s) && s.w.phase.Idle? && Unpublished(attempt)
    requires RunsSeamlessly(cfg, Run(cfg, s, Without(attempt) + after))
    ensures Same(Run(cfg, s, attempt + [WriterDoes(Abandon)] + after), Run(cfg, s, Without(attempt) + after))
  {
    hide Inv, Init, Run, ApplyWriter, ApplyReader, RunsSeamlessly;
    ReachableInv(cfg, before, s);
    IdleHasNoBatch(cfg, s);
    var u, v := Run(cfg, s, attempt), Run(cfg, s, Without(attempt));
    RunAppend(cfg, s, attempt, [WriterDoes(Abandon)]);
    RunAppend(cfg, s, attempt + [WriterDoes(Abandon)], after);
    RunAppend(cfg, s, Without(attempt), after);
    RunGrows(cfg, v, after);
    AttemptRun(cfg, s, s, attempt);
    var dropped := Run(cfg, u, [WriterDoes(Abandon)]);
    Dropped(cfg, u, v);
    SameRun(cfg, dropped, v, after);
  }

  lemma Dropped(cfg: Config, u: World, v: World)
    requires cfg.Valid() && Inv(cfg, u) && Inv(cfg, v) && Attempting(u, v)
    ensures var dropped := Run(cfg, u, [WriterDoes(Abandon)]);
            Same(dropped, v) && Inv(cfg, dropped)
  {
    hide Inv;
    IdleHasNoBatch(cfg, u);
    AbandonKeeps(cfg, u);
    assert [WriterDoes(Abandon)][1..] == [];
  }
}
