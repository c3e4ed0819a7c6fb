/** Which records carry which message identity, over every interleaving. */
module RingIdentities {
  import opened Wrappers
  import opened Words
  import opened Record
  import opened Layout
  import opened RingMemory
  import opened BatchPlan
  import opened Fragmentation
  import opened Delivery
  import opened RingReader
  import opened RingWriter
  import opened RingSystem
  import opened RingInvariant
  import opened RingSteps
  import opened RingTheorems

  /** The message identities there are: every u32 but zero. */
  const IDENTITIES: int := TWO32 - 1

  /** The identity of batch number k. */
  function IdentityOf(k: nat): MessageId {
    1 + k % IDENTITIES
  }

  /** How many records announce an event. */
  function BatchSize(f: Fragmenter, e: ChannelEvent): nat
    requires f.Valid()
  {
    if e.Message? && f.Fragments(e.payload).Ok? then |f.Fragments(e.payload).value| else 1
  }

  /** The log is one batch after the other, batch k announcing event k under identity k, with sequence
      numbers that run on. */
  predicate Composed(f: Fragmenter, log: seq<OwnedRecord>, sent: seq<ChannelEvent>)
    requires f.Valid()
    decreases |sent|
  {
    if sent == [] then log == []
    else
      var n := |sent| - 1;
      var size := BatchSize(f, sent[n]);
      && size <= |log|
      && Announces(f, log[|log| - size..], IdentityOf(n), |log| - size, sent[n])
      && Composed(f, log[..|log| - size], sent[..n])
  }

  /** The batch that record i of the log belongs to. */
  function BatchOf(f: Fragmenter, log: seq<OwnedRecord>, sent: seq<ChannelEvent>, i: nat): (k: nat)
    requires f.Valid() && Composed(f, log, sent) && i < |log|
    ensures k < |sent|
    decreases |sent|
  {
    var n := |sent| - 1;
    var front := |log| - BatchSize(f, sent[n]);
    if i >= front then n else BatchOf(f, log[..front], sent[..n], i)
  }

  lemma SizeOfBatch(f: Fragmenter, records: seq<OwnedRecord>, id: MessageId, count: nat, e: ChannelEvent)
    requires f.Valid() && Announces(f, records, id, count, e)
    ensures |records| == BatchSize(f, e)
    ensures forall j :: 0 <= j < |records| ==> records[j].header.messageId == Some(id)
  {
    if e.Message? {
      BatchIdentity(f.Fragments(e.payload).value, Data, id, count);
    }
  }

  lemma {:induction false} BatchIdentity(fragments: seq<Fragment>, kind: RecordKind, id: MessageId, count: nat)
    requires Inline(fragments)
    ensures forall j :: 0 <= j < |fragments| ==> BatchRecords(fragments, kind, id, count)[j].header.messageId == Some(id)
    decreases |fragments|
  {
    if fragments != [] {
      BatchIdentity(fragments[1..], kind, id, count + 1);
    }
  }

  ghost predicate IdentityInv(cfg: Config, s: World)
    requires cfg.Valid()
  {
    s.w.nextId == IdentityOf(|s.h.sent|) && Composed(cfg.limits, s.h.log, s.h.sent)
  }

  /** Publishing is the only step that moves on to another identity. */
  lemma StepKeepsIdentities(cfg: Config, s: World, step: Step)
    requires cfg.Valid() && Inv(cfg, s) && IdentityInv(cfg, s)
    ensures IdentityInv(cfg, Apply(cfg, s, step))
  {
    hide Inv, Composed, IdentityOf, NextMessageId, ApplyReader, ApplyWriter;
    if step == WriterDoes(StorePublish) && s.w.phase.Publishing? {
      PublishKeepsIdentities(cfg, s);
    } else {
      OthersKeepLog(cfg, s, step);
    }
  }

  lemma OthersKeepLog(cfg: Config, s: World, step: Step)
    requires cfg.Valid() && !(step == WriterDoes(StorePublish) && s.w.phase.Publishing?)
    ensures var t := Apply(cfg, s, step);
            t.h.log == s.h.log && t.h.sent == s.h.sent && t.w.nextId == s.w.nextId
  {
    hide PlanBatch, TasksOf, ItemsOf, EndCursor, Length, Records, WriteRange, PublishCheck, GlanceAt, ReadRange, Inspect;
    hide ConsumeCheck, ChannelStep, TaskData;
  }

  lemma PublishKeepsIdentities(cfg: Config, s: World)
    requires cfg.Valid() && Inv(cfg, s) && IdentityInv(cfg, s) && s.w.phase.Publishing?
    ensures IdentityInv(cfg, ApplyWriter(cfg, s, StorePublish))
  {
    hide Inv, Records, Composed, IdentityOf, NextMessageId, ApplyWriter;
    BatchAnnounces(cfg, s);
    PublishEffects(cfg, s);
    NextIdentity(|s.h.sent|);
    ComposedGrows(cfg.limits, s.h.log, s.h.sent, Records(s.h.batch), s.w.phase.event);
  }

  lemma BatchAnnounces(cfg: Config, s: World)
    requires cfg.Valid() && Inv(cfg, s) && s.w.phase.Publishing?
    ensures Announces(cfg.limits, Records(s.h.batch), s.w.nextId, |s.h.log|, s.w.phase.event)
  {
    hide Placed, Length, Wrap, Bytes, Holds, AllOk, Records, MemoryInv, ReaderInv, LogInv, TasksAt, Announces;
  }

  lemma PublishEffects(cfg: Config, s: World)
    requires cfg.Valid() && s.w.phase.Publishing?
    ensures var t := ApplyWriter(cfg, s, StorePublish);
            && t.h.log == s.h.log + Records(s.h.batch) && t.h.sent == s.h.sent + [s.w.phase.event]
            && t.w.nextId == NextMessageId(s.w.nextId)
  {
    hide Records, Length, NextMessageId;
  }

  lemma ComposedGrows(f: Fragmenter, log: seq<OwnedRecord>, sent: seq<ChannelEvent>, batch: seq<OwnedRecord>, event: ChannelEvent)
    requires f.Valid() && Composed(f, log, sent) && Announces(f, batch, IdentityOf(|sent|), |log|, event)
    ensures Composed(f, log + batch, sent + [event])
  {
    hide Announces, IdentityOf, BatchSize;
    SizeOfBatch(f, batch, IdentityOf(|sent|), |log|, event);
    assert (log + batch)[|log|..] == batch && (log + batch)[..|log|] == log;
    assert (sent + [event])[..|sent|] == sent;
  }

  lemma NextIdentity(k: nat)
    ensures NextMessageId(IdentityOf(k)) == IdentityOf(k + 1)
  {
  }

  lemma {:induction false} RunKeepsIdentities(cfg: Config, s: World, schedule: seq<Step>)
    requires cfg.Valid() && Inv(cfg, s) && IdentityInv(cfg, s) && RunsSeamlessly(cfg, Run(cfg, s, schedule))
    ensures IdentityInv(cfg, Run(cfg, s, schedule))
    decreases |schedule|
  {
    hide Apply, Inv, IdentityInv, RunsSeamlessly;
    if schedule != [] {
      var next := Apply(cfg, s, schedule[0]);
      RunGrows(cfg, next, schedule[1..]);
      PublishedGrows(cfg, s, schedule[0]);
      StepKeeps(cfg, s, schedule[0]);
      StepKeepsIdentities(cfg, s, schedule[0]);
      RunKeepsIdentities(cfg, next, schedule[1..]);
    }
  }

  /** Over every schedule the identities of the batches are 1, 2, and so on up to 2^32 - 1, and then 1
      again; the records of the log are those batches and nothing else. */
  lemma IdentitiesCount(cfg: Config, schedule: seq<Step>, s: World)
    requires Reaches(cfg, schedule, s)
    ensures s.w.nextId == 1 + |s.h.sent| % (TWO32 - 1)
    ensures Composed(cfg.limits, s.h.log, s.h.sent)
  {
    hide Run, Inv, Composed;
    InitInv(cfg);
    StartsComposed(cfg);
    RunKeepsIdentities(cfg, Init(cfg), schedule);
  }

  lemma StartsComposed(cfg: Config)
    requires cfg.Valid()
    ensures IdentityInv(cfg, Init(cfg))
  {
  }

  lemma {:induction false} RecordIdentity(f: Fragmenter, log: seq<OwnedRecord>, sent: seq<ChannelEvent>, i: nat)
    requires f.Valid() && Composed(f, log, sent) && i < |log|
    ensures log[i].header.messageId == Some(IdentityOf(BatchOf(f, log, sent, i)))
    decreases |sent|
  {
    hide Announces, IdentityOf;
    var n := |sent| - 1;
    var front := |log| - BatchSize(f, sent[n]);
    SizeOfBatch(f, log[front..], IdentityOf(n), front, sent[n]);
    if i >= front {
      assert log[i] == log[front..][i - front];
    } else {
      RecordIdentity(f, log[..front], sent[..n], i);
    }
  }

  /** Records of batches fewer than 2^32 - 1 apart carry the same identity if and only if they belong to the
      same batch: no fragment of one message can be taken for one of another. */
  lemma SameIdentityIff(cfg: Config, schedule: seq<Step>, s: World, i: nat, j: nat)
    requires Reaches(cfg, schedule, s) && i < |s.h.log| && j < |s.h.log|
    ensures Composed(cfg.limits, s.h.log, s.h.sent)
    ensures var a := BatchOf(cfg.limits, s.h.log, s.h.sent, i);
            var b := BatchOf(cfg.limits, s.h.log, s.h.sent, j);
            && -(TWO32 - 1) < a - b < TWO32 - 1 ==>
              (s.h.log[i].header.messageId == s.h.log[j].header.messageId <==> a == b)
  {
    hide Composed, BatchOf, Run, Init, RunsSeamlessly;
    IdentitiesCount(cfg, schedule, s);
    RecordIdentity(cfg.limits, s.h.log, s.h.sent, i);
    RecordIdentity(cfg.limits, s.h.log, s.h.sent, j);
    var a, b := BatchOf(cfg.limits, s.h.log, s.h.sent, i), BatchOf(cfg.limits, s.h.log, s.h.sent, j);
    if -IDENTITIES < a - b < IDENTITIES && IdentityOf(a) == IdentityOf(b) {
      ResiduesDiffer(a, b);
    }
  }

  lemma ResiduesDiffer(a: nat, b: nat)
    requires -IDENTITIES < a - b < IDENTITIES && a % IDENTITIES == b % IDENTITIES
    ensures a == b
  {
  }
}
