/** Whole lives of a renderer port: rounds of polling, sends and a close, in any order
    (crates/renderer/nwipc-renderer-core). */
module PortLives {
  import opened Wrappers
  import opened RendererPorts

  function Life(p: Port, turns: seq<Turn>): Polled
    decreases |turns|
  {
    if turns == [] then Polled([], p)
    else
      var first := Turned(p, turns[0]);
      var rest := Life(first.after, turns[1..]);
      Polled(first.queued + rest.queued, rest.after)
  }

  function RoundsIn(turns: seq<Turn>): nat {
    if turns == [] then 0 else (if turns[0].Round? then 1 else 0) + RoundsIn(turns[1..])
  }

  function BackpressuredIn(turns: seq<Turn>): nat {
    if turns == [] then 0 else (if turns[0] == Sent(true) then 1 else 0) + BackpressuredIn(turns[1..])
  }

  /** No request to close is refused by the transport. */
  predicate ClosesSucceed(turns: seq<Turn>) {
    forall i :: 0 <= i < |turns| && turns[i].CloseAsked? ==> turns[i].failure.None?
  }

  /** The event an answer that ends a port becomes. */
  function EndOf(a: Answer): Option<TransportEvent> {
    match a
    case Err(code) => Some(Failure(code))
    case Ok(None) => None
    case Ok(Some(e)) => if Terminal(e) then Some(e) else None
  }

  predicate EndsAtAll(incoming: seq<Answer>) {
    exists i :: 0 <= i < |incoming| && EndOf(incoming[i]).Some?
  }

  /** The pauses in front of the answer that ends the port. */
  function PausesBeforeEnd(incoming: seq<Answer>): nat {
    if incoming == [] || EndOf(incoming[0]).Some? then 0
    else (if incoming[0] == Ok(None) then 1 else 0) + PausesBeforeEnd(incoming[1..])
  }

  /** What a transport has to tell, up to its end: every event but the writable edges. */
  function Told(incoming: seq<Answer>): seq<TransportEvent> {
    if incoming == [] then []
    else if EndOf(incoming[0]).Some? then [EndOf(incoming[0]).value]
    else ToldBy(incoming[0]) + Told(incoming[1..])
  }

  function ToldBy(a: Answer): seq<TransportEvent> {
    if a.Ok? && a.value.Some? && a.value.value != Writable then [a.value.value] else []
  }

  function WithoutEdges(events: seq<TransportEvent>): seq<TransportEvent> {
    if events == [] then [] else (if events[0] == Writable then [] else [events[0]]) + WithoutEdges(events[1..])
  }

  function Edges(events: seq<TransportEvent>): nat {
    if events == [] then 0 else (if events[0] == Writable then 1 else 0) + Edges(events[1..])
  }

  lemma {:induction false} EdgesAppend(a: seq<TransportEvent>, b: seq<TransportEvent>)
    ensures WithoutEdges(a + b) == WithoutEdges(a) + WithoutEdges(b)
    ensures Edges(a + b) == Edges(a) + Edges(b)
  {
    if a == [] {
      assert a + b == b;
    } else {
      assert (a + b)[1..] == a[1..] + b;
      EdgesAppend(a[1..], b);
    }
  }

  function ToldLater(p: Port): seq<TransportEvent> {
    if p.state.IsTerminal() then [] else Told(p.incoming)
  }

  function Owed(p: Port): nat {
    if p.backpressured then 1 else 0
  }

  lemma EndsAtAllSplit(incoming: seq<Answer>)
    requires incoming != []
    ensures EndsAtAll(incoming) <==> EndOf(incoming[0]).Some? || EndsAtAll(incoming[1..])
  {
    if EndsAtAll(incoming[1..]) {
      var i :| 0 <= i < |incoming[1..]| && EndOf(incoming[1..][i]).Some?;
      assert EndOf(incoming[i + 1]).Some?;
    }
    if EndsAtAll(incoming) && EndOf(incoming[0]).None? {
      var i :| 0 <= i < |incoming| && EndOf(incoming[i]).Some?;
      assert EndOf(incoming[1..][i - 1]).Some?;
    }
  }

  /** One answer: what it queues and what is left of the story. */
  lemma HandleTells(p: Port)
    requires !p.state.IsTerminal() && p.incoming != []
    ensures var h := Handle(p);
            && WithoutEdges(h.queued) + ToldLater(h.after) == Told(p.incoming)
            && Edges(h.queued) + Owed(h.after) <= Owed(p)
            && (h.after.state.IsTerminal() <==> EndOf(p.incoming[0]).Some?)
            && (h.ready <==> p.incoming[0] != Ok(None))
            && h.after.incoming == p.incoming[1..]
  {
  }

  /** One round: it comes past one pause, or to the end. */
  lemma {:induction false} RoundTells(p: Port)
    ensures var r := Poll(p);
            && WithoutEdges(r.queued) + ToldLater(r.after) == ToldLater(p)
            && Edges(r.queued) + Owed(r.after) <= Owed(p)
            && (!p.state.IsTerminal() && EndsAtAll(p.incoming) ==>
              if PausesBeforeEnd(p.incoming) == 0 then r.after.state.IsTerminal()
              else !r.after.state.IsTerminal() && EndsAtAll(r.after.incoming)
                   && PausesBeforeEnd(r.after.incoming) == PausesBeforeEnd(p.incoming) - 1)
    decreases |p.incoming|
  {
    hide Handle, Told, EndsAtAll, EndOf, Owed, WithoutEdges, Edges;
    NoEdges();
    if !p.state.IsTerminal() && p.incoming != [] {
      HandleTells(p);
      EndsAtAllSplit(p.incoming);
      var h := Handle(p);
      if h.ready {
        RoundTells(h.after);
        EdgesAppend(h.queued, Poll(h.after).queued);
        Regroup(WithoutEdges(h.queued), WithoutEdges(Poll(h.after).queued), ToldLater(Poll(h.after).after));
      }
    } else if !p.state.IsTerminal() {
      NothingTold();
    }
  }

  lemma NoEdges()
    ensures WithoutEdges([]) == [] && Edges([]) == 0
  {
  }

  lemma NothingTold()
    ensures Told([]) == [] && !EndsAtAll([])
  {
  }

  lemma Regroup(a: seq<TransportEvent>, b: seq<TransportEvent>, c: seq<TransportEvent>)
    ensures (a + b) + c == a + (b + c)
  {
  }

  /** Over any life in which closes succeed nothing is lost, invented or reordered: what was queued,
      writable edges apart, and what the transport still has to tell are what it had to tell. */
  lemma {:induction false} LifeTells(p: Port, turns: seq<Turn>)
    requires ClosesSucceed(turns)
    ensures WithoutEdges(Life(p, turns).queued) + ToldLater(Life(p, turns).after) == ToldLater(p)
    decreases |turns|
  {
    hide Poll, ToldLater, WithoutEdges;
    NoEdges();
    if turns != [] {
      var first := Turned(p, turns[0]);
      TurnTells(p, turns[0]);
      LifeTells(first.after, turns[1..]);
      var rest := Life(first.after, turns[1..]);
      EdgesAppend(first.queued, rest.queued);
      Regroup(WithoutEdges(first.queued), WithoutEdges(rest.queued), ToldLater(rest.after));
    }
  }

  lemma TurnTells(p: Port, t: Turn)
    requires t.CloseAsked? ==> t.failure.None?
    ensures WithoutEdges(Turned(p, t).queued) + ToldLater(Turned(p, t).after) == ToldLater(p)
  {
    hide Poll, Told, WithoutEdges;
    NoEdges();
    RoundTells(p);
  }

  /** Over any life every writable edge answers a send of its own that was backpressured. */
  lemma {:induction false} EdgesAreOwed(p: Port, turns: seq<Turn>)
    ensures Edges(Life(p, turns).queued) + Owed(Life(p, turns).after) <= Owed(p) + BackpressuredIn(turns)
    decreases |turns|
  {
    hide Poll, Edges;
    NoEdges();
    if turns != [] {
      var first := Turned(p, turns[0]);
      TurnOwes(p, turns[0]);
      EdgesAreOwed(first.after, turns[1..]);
      EdgesAppend(first.queued, Life(first.after, turns[1..]).queued);
    }
  }

  lemma TurnOwes(p: Port, t: Turn)
    ensures Edges(Turned(p, t).queued) + Owed(Turned(p, t).after) <= Owed(p) + (if t == Sent(true) then 1 else 0)
  {
    hide Poll;
    RoundTells(p);
  }

  /** The sends of a life that find the port unthrottled and throttle it, and those that find it throttled
      and clear it. */
  function Raised(p: Port, turns: seq<Turn>): nat
    decreases |turns|
  {
    if turns == [] then 0
    else
      (if turns[0] == Sent(true) && p.state == Open && !p.backpressured then 1 else 0)
      + Raised(Turned(p, turns[0]).after, turns[1..])
  }

  function Cleared(p: Port, turns: seq<Turn>): nat
    decreases |turns|
  {
    if turns == [] then 0
    else
      (if turns[0] == Sent(false) && p.state == Open && p.backpressured then 1 else 0)
      + Cleared(Turned(p, turns[0]).after, turns[1..])
  }

  /** Every throttling of a port ends with exactly one writable edge, unless a later send ends it or it
      still lasts. */
  lemma {:induction false} ThrottlingsEnd(p: Port, turns: seq<Turn>)
    ensures Edges(Life(p, turns).queued) + Cleared(p, turns) + Owed(Life(p, turns).after) == Owed(p) + Raised(p, turns)
    decreases |turns|
  {
    hide Poll, Edges;
    NoEdges();
    if turns != [] {
      var first := Turned(p, turns[0]);
      TurnThrottles(p, turns[0]);
      ThrottlingsEnd(first.after, turns[1..]);
      EdgesAppend(first.queued, Life(first.after, turns[1..]).queued);
    }
  }

  lemma TurnThrottles(p: Port, t: Turn)
    ensures Edges(Turned(p, t).queued) + Owed(Turned(p, t).after) + (if t == Sent(false) && p.state == Open then Owed(p) else 0)
         == Owed(p) + (if t == Sent(true) && p.state == Open && !p.backpressured then 1 else 0)
  {
    hide Poll;
    RoundEdges(p);
  }

  lemma {:induction false} RoundEdges(p: Port)
    ensures Edges(Poll(p).queued) + Owed(Poll(p).after) == Owed(p)
    decreases |p.incoming|
  {
    hide Edges;
    NoEdges();
    if !p.state.IsTerminal() && p.incoming != [] {
      var h := Handle(p);
      AnswerEdges(p);
      if h.ready {
        RoundEdges(h.after);
        EdgesAppend(h.queued, Poll(h.after).queued);
      }
    }
  }

  lemma AnswerEdges(p: Port)
    requires !p.state.IsTerminal() && p.incoming != []
    ensures Edges(Handle(p).queued) + Owed(Handle(p).after) == Owed(p)
  {
  }

  /** A close that was asked for is final: the port never opens again and no send reaches it. */
  lemma {:induction false} ClosingIsFinal(p: Port, failure: Option<ErrorCode>, turns: seq<Turn>)
    ensures var closing := Turned(p, CloseAsked(failure)).after;
            closing.state != Open && Life(closing, turns).after.state != Open && Raised(closing, turns) == 0
  {
    NotOpenStays(Turned(p, CloseAsked(failure)).after, turns);
  }

  lemma {:induction false} NotOpenStays(p: Port, turns: seq<Turn>)
    requires p.state != Open
    ensures Life(p, turns).after.state != Open && Raised(p, turns) == 0
    decreases |turns|
  {
    hide Poll;
    if turns != [] {
      RoundStaysShut(p);
      NotOpenStays(Turned(p, turns[0]).after, turns[1..]);
    }
  }

  lemma {:induction false} RoundStaysShut(p: Port)
    requires p.state != Open
    ensures Poll(p).after.state != Open
    decreases |p.incoming|
  {
    if !p.state.IsTerminal() && p.incoming != [] && Handle(p).ready {
      RoundStaysShut(Handle(p).after);
    }
  }

  /** The next writable answer of a transport stands at i, in front of the end. */
  predicate WritableAt(incoming: seq<Answer>, i: nat) {
    && i < |incoming| && incoming[i] == Ok(Some(Writable))
    && forall j :: 0 <= j < i ==> EndOf(incoming[j]).None? && incoming[j] != Ok(Some(Writable))
  }

  /** An answer in front of the next writable one, that is neither the end nor writable. */
  lemma AnswerBefore(p: Port, i: nat)
    requires !p.state.IsTerminal() && WritableAt(p.incoming, i) && i > 0
    ensures var h := Handle(p);
            && h.after == p.(incoming := p.incoming[1..]) && WritableAt(h.after.incoming, i - 1)
            && p.incoming[..i][0] == p.incoming[0] && p.incoming[..i][1..] == h.after.incoming[..i - 1]
            && h.ready == (p.incoming[0] != Ok(None)) && h.queued == ToldBy(p.incoming[0])
  {
    assert forall j :: 0 <= j < i - 1 ==> p.incoming[1..][j] == p.incoming[j + 1];
  }

  lemma WritableAnswer(p: Port)
    requires !p.state.IsTerminal() && p.backpressured && WritableAt(p.incoming, 0)
    ensures var h := Handle(p);
            h.ready && h.queued == [Writable] && !h.after.backpressured
  {
  }

  lemma ToldStep(before: seq<Answer>)
    requires before != [] && EndOf(before[0]).None?
    ensures Told(before) == ToldBy(before[0]) + Told(before[1..])
    ensures Pauses(before) == (if before[0] == Ok(None) then 1 else 0) + Pauses(before[1..])
    ensures before[0] == Ok(None) ==> ToldBy(before[0]) == []
  {
  }

  /** A round of a throttled port either comes past its next writable answer, and then reports it behind
      everything told before it, or stops at a pause in front of it. */
  lemma {:induction false} RoundReportsWritable(p: Port, i: nat)
    requires !p.state.IsTerminal() && p.backpressured && WritableAt(p.incoming, i)
    ensures var r, before := Poll(p), p.incoming[..i];
            if Pauses(before) == 0 then
              Told(before) + [Writable] <= r.queued && !r.after.backpressured
            else
              StopsBefore(p, r, i)
    decreases |p.incoming|
  {
    hide Handle, Told, Pauses, ToldBy, EndOf;
    NothingTold();
    if i == 0 {
      WritableAnswer(p);
      StaysClear(Handle(p).after);
      NoPauses();
    } else {
      AnswerBefore(p, i);
      ToldStep(p.incoming[..i]);
      if Handle(p).ready {
        RoundReportsWritable(Handle(p).after, i - 1);
        Regroup(Handle(p).queued, Told(p.incoming[..i][1..]), [Writable]);
        if Pauses(p.incoming[..i]) > 0 {
          StopsLater(p, i);
        }
      } else {
        StopsHere(p, i);
      }
    }
  }

  lemma NoPauses()
    ensures Pauses([]) == 0
  {
  }

  /** A round stopped in front of the next writable answer, past one pause. */
  predicate StopsBefore(p: Port, r: Polled, i: nat)
    requires WritableAt(p.incoming, i)
  {
    var done := |p.incoming| - |r.after.incoming|;
    && 0 < done <= i && r.after == p.(incoming := p.incoming[done..]) && WritableAt(r.after.incoming, i - done)
    && Pauses(r.after.incoming[..i - done]) == Pauses(p.incoming[..i]) - 1
    && r.queued + Told(r.after.incoming[..i - done]) == Told(p.incoming[..i])
  }

  lemma StopsHere(p: Port, i: nat)
    requires !p.state.IsTerminal() && WritableAt(p.incoming, i) && i > 0 && p.incoming[0] == Ok(None)
    ensures StopsBefore(p, Poll(p), i)
  {
    hide Told, Pauses;
    AnswerBefore(p, i);
    ToldStep(p.incoming[..i]);
  }

  lemma StopsLater(p: Port, i: nat)
    requires !p.state.IsTerminal() && WritableAt(p.incoming, i) && i > 0 && Handle(p).ready
    requires WritableAt(Handle(p).after.incoming, i - 1)
    requires StopsBefore(Handle(p).after, Poll(Handle(p).after), i - 1)
    ensures StopsBefore(p, Poll(p), i)
  {
    hide Told, Pauses, Handle, WritableAt;
    AnswerBefore(p, i);
    WritableFacts(p.incoming, i);
    ToldStep(p.incoming[..i]);
    var later := Poll(Handle(p).after);
    var done := |p.incoming| - |later.after.incoming|;
    assert p.incoming[1..][done - 1..] == p.incoming[done..];
    Regroup(Handle(p).queued, later.queued, Told(later.after.incoming[..i - done]));
  }

  lemma WritableFacts(incoming: seq<Answer>, i: nat)
    requires WritableAt(incoming, i) && i > 0
    ensures i < |incoming| && EndOf(incoming[0]).None?
  {
  }

  lemma {:induction false} StaysClear(p: Port)
    requires !p.backpressured
    ensures !Poll(p).after.backpressured
    decreases |p.incoming|
  {
    if !p.state.IsTerminal() && p.incoming != [] && Handle(p).ready {
      StaysClear(Handle(p).after);
    }
  }

  predicate SendsNothing(turns: seq<Turn>) {
    forall i :: 0 <= i < |turns| ==> !turns[i].Sent?
  }

  /** A throttled port is told that it is writable, behind everything its transport told before and exactly
      when a round comes past the answer: until then it stays throttled, afterwards it is not. */
  lemma {:induction false} WritableIsReported(p: Port, i: nat, turns: seq<Turn>)
    requires !p.state.IsTerminal() && p.backpressured && WritableAt(p.incoming, i)
    requires ClosesSucceed(turns) && SendsNothing(turns)
    ensures var life, before := Life(p, turns), p.incoming[..i];
            if RoundsIn(turns) > Pauses(before) then
              Told(before) + [Writable] <= life.queued && !life.after.backpressured
            else
              life.queued <= Told(before) && life.after.backpressured && !life.after.state.IsTerminal()
    decreases |turns|
  {
    hide Poll, Told, Pauses;
    if turns != [] {
      var first := Turned(p, turns[0]);
      var rest := turns[1..];
      if turns[0].Round? {
        RoundReportsWritable(p, i);
        if Pauses(p.incoming[..i]) == 0 {
          LifeStaysClear(first.after, rest);
        } else {
          var done := |p.incoming| - |first.after.incoming|;
          WritableIsReported(first.after, i - done, rest);
          Regroup(first.queued, Told(first.after.incoming[..i - done]), [Writable]);
        }
      } else {
        assert first.queued == [] && first.after.incoming == p.incoming;
        WritableIsReported(first.after, i, rest);
        assert Life(p, turns).queued == Life(first.after, rest).queued;
      }
    }
  }

  lemma {:induction false} LifeStaysClear(p: Port, turns: seq<Turn>)
    requires !p.backpressured && SendsNothing(turns)
    ensures !Life(p, turns).after.backpressured
    decreases |turns|
  {
    hide Poll;
    if turns != [] {
      StaysClear(p);
      LifeStaysClear(Turned(p, turns[0]).after, turns[1..]);
    }
  }

  /** A port ends exactly in the round that comes past the last pause in front of the end its transport
      reports, whatever was sent in between and whether or not a close was asked for. */
  lemma {:induction false} EndsExactlyWhen(p: Port, turns: seq<Turn>)
    requires ClosesSucceed(turns) && !p.state.IsTerminal() && EndsAtAll(p.incoming)
    ensures Life(p, turns).after.state.IsTerminal() <==> RoundsIn(turns) > PausesBeforeEnd(p.incoming)
    decreases |turns|
  {
    hide Poll, EndsAtAll, PausesBeforeEnd;
    if turns != [] {
      var first := Turned(p, turns[0]);
      RoundTells(p);
      if first.after.state.IsTerminal() {
        EndedKeeps(first.after, turns[1..]);
      } else {
        EndsExactlyWhen(first.after, turns[1..]);
      }
    }
  }

  /** Over any life, failing closes included, at most one terminal event is queued, as the last one. */
  lemma {:induction false} LifeEndsOnce(p: Port, turns: seq<Turn>, i: nat)
    requires i < |Life(p, turns).queued| && Terminal(Life(p, turns).queued[i])
    ensures i == |Life(p, turns).queued| - 1
    decreases |turns|
  {
    hide Poll;
    if turns != [] {
      var first := Turned(p, turns[0]);
      PollEndsOnce(p);
      if i < |first.queued| {
        EndedKeeps(first.after, turns[1..]);
      } else {
        LifeEndsOnce(first.after, turns[1..], i - |first.queued|);
      }
    }
  }

  /** The state and the last event of an ended port agree. */
  predicate EndsWith(r: Polled) {
    r.after.state.IsTerminal() ==>
      && r.queued != [] && Terminal(r.queued[|r.queued| - 1])
      && r.after.state == (if r.queued[|r.queued| - 1].Failure? then Broken else Done) && r.after.callbacks == []
  }

  lemma {:induction false} RoundEnding(p: Port)
    requires !p.state.IsTerminal()
    ensures EndsWith(Poll(p))
    decreases |p.incoming|
  {
    if p.incoming != [] {
      var h := Handle(p);
      if h.ready && !h.after.state.IsTerminal() {
        RoundEnding(h.after);
      } else if h.ready {
        PollEndsOnce(h.after);
      }
    }
  }

  /** A port that ended in the course of a life is in the state its last event leads to, without
      callbacks. */
  lemma {:induction false} LifeEnding(p: Port, turns: seq<Turn>)
    requires !p.state.IsTerminal()
    ensures EndsWith(Life(p, turns))
    decreases |turns|
  {
    hide Poll;
    if turns != [] {
      var first := Turned(p, turns[0]);
      RoundEnding(p);
      if first.after.state.IsTerminal() {
        EndedKeeps(first.after, turns[1..]);
      } else {
        LifeEnding(first.after, turns[1..]);
      }
    }
  }

  lemma {:induction false} EndedKeeps(p: Port, turns: seq<Turn>)
    requires p.state.IsTerminal()
    ensures Life(p, turns) == Polled([], p)
    decreases |turns|
  {
    hide Poll;
    if turns != [] {
      PollEndsOnce(p);
      EndedKeeps(Turned(p, turns[0]).after, turns[1..]);
    }
  }

  lemma {:induction false} LastStays(events: seq<TransportEvent>)
    requires events != [] && events[|events| - 1] != Writable
    ensures WithoutEdges(events) != [] && WithoutEdges(events)[|WithoutEdges(events)| - 1] == events[|events| - 1]
  {
    if |events| > 1 {
      LastStays(events[1..]);
    }
  }

  /** The ordinary close: however many messages and pauses the transport has in front of reporting it,
      the port is done exactly after one round more than there are pauses, and everything told before
      was queued before it. */
  lemma CloseReportedLater(p: Port, before: seq<Answer>, rest: seq<Answer>, turns: seq<Turn>)
    requires !p.state.IsTerminal() && p.incoming == before + [Ok(Some(Finished))] + rest
    requires forall i :: 0 <= i < |before| ==> EndOf(before[i]).None?
    requires ClosesSucceed(turns)
    ensures var life := Life(p, turns);
            && (life.after.state.IsTerminal() <==> RoundsIn(turns) > Pauses(before))
            && (life.after.state.IsTerminal() ==>
              life.after.state == Done && WithoutEdges(life.queued) == Told(before) + [Finished])
  {
    hide Life, Told;
    assert EndOf(p.incoming[|before|]).Some?;
    BeforeTheEnd(before, rest);
    EndsExactlyWhen(p, turns);
    LifeTells(p, turns);
    var life := Life(p, turns);
    assert WithoutEdges(life.queued) + [] == WithoutEdges(life.queued);
    LifeEnding(p, turns);
    if life.after.state.IsTerminal() {
      LastStays(life.queued);
    }
  }

  lemma {:induction false} BeforeTheEnd(before: seq<Answer>, rest: seq<Answer>)
    requires forall i :: 0 <= i < |before| ==> EndOf(before[i]).None?
    ensures var all := before + [Ok(Some(Finished))] + rest;
            PausesBeforeEnd(all) == Pauses(before) && Told(all) == Told(before) + [Finished]
    decreases |before|
  {
    var all := before + [Ok(Some(Finished))] + rest;
    if before == [] {
      assert all[0] == Ok(Some(Finished));
    } else {
      assert all[0] == before[0] && all[1..] == before[1..] + [Ok(Some(Finished))] + rest;
      BeforeTheEnd(before[1..], rest);
      Regroup(ToldBy(before[0]), Told(before[1..]), [Finished]);
    }
  }
}
