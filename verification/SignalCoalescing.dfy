/** Suppression of notification hints, and why no wake-up is lost (crates/signal/nwipc-signal-coalescing). */
module SignalCoalescing {

  datatype NotifyDecision = Notify | Suppress

  class SignalCoalescer {
    var pending: bool

    constructor ()
      ensures !pending
    {
      pending := false;
    }

    /** Marks shared state changed and elects a posting caller, unless a hint is outstanding. */
    method MarkChanged() returns (decision: NotifyDecision)
      modifies this
      ensures pending && decision == Decision(old(pending))
    {
      var was := pending;
      pending := true;
      decision := if was then Suppress else Notify;
    }

    /** Re-arms after draining. */
    method Rearm()
      modifies this
      ensures !pending
    {
      pending := false;
    }
  }

  /** The outcome of the atomic exchange in `MarkChanged`. */
  function Decision(pending: bool): NotifyDecision {
    if pending then Suppress else Notify
  }

  /** Where a producer stands: idle, its change visible but not marked, or elected to post. */
  datatype Producer = Quiet | Changed | Elected

  /** Where the consumer stands: asleep, woken, drained, or re-armed and about to inspect again. */
  datatype Consumer = Asleep | Woken | Drained | Rearmed

  /** Any number of producers and one consumer around one coalescer; `published` and `seen` count the
      changes made and the changes the consumer looked at, `hints` the posts not yet taken. */
  datatype Scene = Scene(
    producers: seq<Producer>, consumer: Consumer, pending: bool, hints: nat, published: nat, seen: nat)

  datatype Turn =
    | Publish(i: nat) | Mark(i: nat) | Post(i: nat)
    | Wake | Drain | Rearm | Inspect

  predicate At(s: Scene, i: nat, p: Producer) {
    i < |s.producers| && s.producers[i] == p
  }

  /** One atomic action; a turn that is not possible does nothing. */
  function Take(s: Scene, t: Turn): Scene {
    match t
    case Publish(i) =>
      if !At(s, i, Quiet) then s else s.(producers := s.producers[i := Changed], published := s.published + 1)
    case Mark(i) =>
      if !At(s, i, Changed) then s
      else
        var next := if Decision(s.pending) == Notify then Elected else Quiet;
        s.(producers := s.producers[i := next], pending := true)
    case Post(i) =>
      if !At(s, i, Elected) then s else s.(producers := s.producers[i := Quiet], hints := s.hints + 1)
    case Wake =>
      if s.consumer != Asleep || s.hints == 0 then s else s.(consumer := Woken, hints := s.hints - 1)
    case Drain =>
      if s.consumer != Woken then s else s.(consumer := Drained, seen := s.published)
    case Rearm =>
      if s.consumer != Drained then s else s.(consumer := Rearmed, pending := false)
    case Inspect =>
      if s.consumer != Rearmed then s else s.(consumer := Asleep, seen := s.published)
  }

  function Play(s: Scene, turns: seq<Turn>): Scene
    decreases |turns|
  {
    if turns == [] then s else Play(Take(s, turns[0]), turns[1..])
  }

  function Opening(n: nat): Scene {
    Scene(seq(n, _ => Quiet), Asleep, false, 0, 0, 0)
  }

  function Count(producers: seq<Producer>, p: Producer): nat {
    if producers == [] then 0 else (if producers[0] == p then 1 else 0) + Count(producers[1..], p)
  }

  lemma {:induction false} CountUpdated(producers: seq<Producer>, i: nat, q: Producer, p: Producer)
    requires i < |producers|
    ensures Count(producers[i := q], p) + (if producers[i] == p then 1 else 0)
         == Count(producers, p) + (if q == p then 1 else 0)
  {
    if i > 0 {
      assert producers[i := q][1..] == producers[1..][i - 1 := q];
      CountUpdated(producers[1..], i - 1, q, p);
    } else {
      assert producers[0 := q][1..] == producers[1..];
    }
  }

  /** Who carries the outstanding change: an elected poster, a hint on its way, or the consumer between
      waking and re-arming. */
  function Carriers(s: Scene): nat {
    Count(s.producers, Elected) + s.hints + if s.consumer == Woken || s.consumer == Drained then 1 else 0
  }

  /** Pending means exactly one carrier; and a consumer asleep without one has missed nothing but
      changes whose producers have not marked them yet. */
  predicate Inv(s: Scene) {
    && Carriers(s) == (if s.pending then 1 else 0)
    && s.seen <= s.published
    && (s.consumer == Asleep && !s.pending ==> s.published - s.seen <= Count(s.producers, Changed))
  }

  lemma TakeKeeps(s: Scene, t: Turn)
    requires Inv(s)
    ensures Inv(Take(s, t))
  {
    match t {
      case Publish(i) =>
        if At(s, i, Quiet) {
          CountUpdated(s.producers, i, Changed, Elected);
          CountUpdated(s.producers, i, Changed, Changed);
        }
      case Mark(i) =>
        if At(s, i, Changed) {
          CountUpdated(s.producers, i, Elected, Elected);
          CountUpdated(s.producers, i, Quiet, Elected);
        }
      case Post(i) =>
        if At(s, i, Elected) {
          CountUpdated(s.producers, i, Quiet, Elected);
          CountUpdated(s.producers, i, Quiet, Changed);
        }
      case Wake => case Drain => case Rearm => case Inspect =>
    }
  }

  lemma {:induction false} PlayKeeps(s: Scene, turns: seq<Turn>)
    requires Inv(s)
    ensures Inv(Play(s, turns))
    decreases |turns|
  {
    if turns != [] {
      TakeKeeps(s, turns[0]);
      PlayKeeps(Take(s, turns[0]), turns[1..]);
    }
  }

  lemma {:induction false} NobodyCounts(n: nat, p: Producer)
    requires p != Quiet
    ensures Count(seq(n, _ => Quiet), p) == 0
  {
    if n > 0 {
      var all: seq<Producer> := seq(n, _ => Quiet);
      var fewer: seq<Producer> := seq(n - 1, _ => Quiet);
      assert all[1..] == fewer;
      NobodyCounts(n - 1, p);
    }
  }

  lemma PlayedInv(n: nat, turns: seq<Turn>)
    ensures Inv(Play(Opening(n), turns))
  {
    NobodyCounts(n, Elected);
    NobodyCounts(n, Changed);
    PlayKeeps(Opening(n), turns);
  }

  /** However producers and consumer interleave, at most one post is ever under way for a pending
      change, and none otherwise. */
  lemma PendingHasOneCarrier(n: nat, turns: seq<Turn>)
    ensures var s := Play(Opening(n), turns);
            Carriers(s) == if s.pending then 1 else 0
  {
    PlayedInv(n, turns);
  }

  /** No wake-up is lost: a consumer asleep on an unseen change is about to be woken, by a hint or by an
      elected poster, unless a producer has not marked its change yet. In particular, when every
      producer is done and no hint is left, a sleeping consumer has seen everything. */
  lemma NoLostWakeUp(n: nat, turns: seq<Turn>)
    ensures var s := Play(Opening(n), turns);
            && (s.consumer == Asleep && s.seen < s.published && Count(s.producers, Changed) == 0 ==>
              s.hints + Count(s.producers, Elected) == 1)
            && (s.consumer == Asleep && s.hints == 0 && Count(s.producers, Changed) == Count(s.producers, Elected) == 0 ==>
              s.seen == s.published)
  {
    PlayedInv(n, turns);
  }

  /** Inspecting again after re-arming is necessary: a consumer that went to sleep straight away could
      sleep forever on a change that was suppressed while it drained. */
  lemma InspectionIsNeeded()
    ensures var s := Play(Opening(2), [Publish(0), Mark(0), Post(0), Wake, Drain, Publish(1), Mark(1), Rearm]);
            && s.seen < s.published && s.hints == 0 && !s.pending
            && Count(s.producers, Changed) == Count(s.producers, Elected) == 0
  {
    hide Play, Count;
    var drained := Scene([Quiet, Quiet], Drained, true, 0, 1, 1);
    FirstChangeDrained(drained);
    assert [Quiet, Quiet][1 := Changed] == [Quiet, Changed] && [Quiet, Changed][1 := Quiet] == [Quiet, Quiet];
    NothingPlayed(Scene([Quiet, Quiet], Rearmed, false, 0, 2, 1));
    var last := [Publish(1)] + ([Mark(1)] + ([Rearm] + []));
    PlayOne(Scene([Quiet, Quiet], Drained, true, 0, 2, 1), Rearm, []);
    PlayOne(Scene([Quiet, Changed], Drained, true, 0, 2, 1), Mark(1), [Rearm] + []);
    PlayOne(drained, Publish(1), [Mark(1)] + ([Rearm] + []));
    PlayAppend(Opening(2), [Publish(0), Mark(0), Post(0), Wake, Drain], last);
    assert [Publish(0), Mark(0), Post(0), Wake, Drain] + last
        == [Publish(0), Mark(0), Post(0), Wake, Drain, Publish(1), Mark(1), Rearm];
    NobodyLeft();
  }

  lemma NobodyLeft()
    ensures Count([Quiet, Quiet], Changed) == Count([Quiet, Quiet], Elected) == 0
  {
    assert [Quiet, Quiet][1..] == [Quiet] && [Quiet][1..] == [];
  }

  lemma FirstChangeDrained(drained: Scene)
    requires drained == Scene([Quiet, Quiet], Drained, true, 0, 1, 1)
    ensures Play(Opening(2), [Publish(0), Mark(0), Post(0), Wake, Drain]) == drained
  {
    hide Play;
    var rest := [Publish(0)] + ([Mark(0)] + ([Post(0)] + ([Wake] + ([Drain] + []))));
    assert rest == [Publish(0), Mark(0), Post(0), Wake, Drain];
    assert Opening(2).producers == [Quiet, Quiet] && [Quiet, Quiet][0 := Changed] == [Changed, Quiet];
    assert [Changed, Quiet][0 := Elected] == [Elected, Quiet] && [Elected, Quiet][0 := Quiet] == [Quiet, Quiet];
    NothingPlayed(drained);
    PlayOne(Scene([Quiet, Quiet], Woken, true, 0, 1, 0), Drain, []);
    PlayOne(Scene([Quiet, Quiet], Asleep, true, 1, 1, 0), Wake, [Drain] + []);
    PlayOne(Scene([Elected, Quiet], Asleep, true, 0, 1, 0), Post(0), [Wake] + ([Drain] + []));
    PlayOne(Scene([Changed, Quiet], Asleep, false, 0, 1, 0), Mark(0), [Post(0)] + ([Wake] + ([Drain] + [])));
    PlayOne(Opening(2), Publish(0), [Mark(0)] + ([Post(0)] + ([Wake] + ([Drain] + []))));
  }

  lemma NothingPlayed(s: Scene)
    ensures Play(s, []) == s
  {
  }

  lemma PlayOne(s: Scene, t: Turn, rest: seq<Turn>)
    ensures Play(s, [t] + rest) == Play(Take(s, t), rest)
  {
    assert ([t] + rest)[1..] == rest;
  }

  lemma {:induction false} PlayAppend(s: Scene, a: seq<Turn>, b: seq<Turn>)
    ensures Play(s, a + b) == Play(Play(s, a), b)
    decreases |a|
  {
    if a == [] {
      assert a + b == b;
    } else {
      assert (a + b)[1..] == a[1..] + b;
      PlayAppend(Take(s, a[0]), a[1..], b);
    }
  }
}
