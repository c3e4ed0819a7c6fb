/** Session states and the transition table (crates/domain/nwipc-state). */
module StateTable {
  import opened Wrappers

  datatype SessionState =
    | Created | Preparing | WaitingForRenderer | WaitingForPeer | Handshaking
    | Open | Draining | Disconnected | Failed | Closed
  {
    predicate IsTerminal() {
      Failed? || Closed?
    }

    predicate CanReplace() {
      Disconnected? || Failed? || Closed?
    }
  }

  datatype SessionEvent =
    | Prepare | ResourcesReady | RendererReady | PeerReady | HandshakeComplete
    | BeginDrain | Disconnect | Fail | Close

  function Transition(s: SessionState, e: SessionEvent): Result<SessionState> {
    match (s, e)
    case (Created, Prepare) => Ok(Preparing)
    case (Preparing, ResourcesReady) => Ok(WaitingForRenderer)
    case (WaitingForRenderer, RendererReady) => Ok(WaitingForPeer)
    case (WaitingForPeer, PeerReady) => Ok(Handshaking)
    case (Handshaking, HandshakeComplete) => Ok(Open)
    case (Open, BeginDrain) => Ok(Draining)
    case (Draining, Close) => Ok(SessionState.Closed)
    case (Disconnected, Close) => Ok(SessionState.Closed)
    case (WaitingForRenderer, Disconnect) => Ok(Disconnected)
    case (WaitingForPeer, Disconnect) => Ok(Disconnected)
    case (Handshaking, Disconnect) => Ok(Disconnected)
    case (Open, Disconnect) => Ok(Disconnected)
    case (Draining, Disconnect) => Ok(Disconnected)
    case (_, Fail) => if s.IsTerminal() then Err(InvalidStateTransition) else Ok(Failed)
    case _ => Err(InvalidStateTransition)
  }

  /** The state after a sequence of events, if every one of them is accepted. */
  function Reached(s: SessionState, events: seq<SessionEvent>): Result<SessionState>
    decreases |events|
  {
    if events == [] then Ok(s)
    else
      var next :- Transition(s, events[0]);
      Reached(next, events[1..])
  }

  /** How far along a life a state is. */
  function Age(s: SessionState): nat {
    match s
    case Created => 0
    case Preparing => 1
    case WaitingForRenderer => 2
    case WaitingForPeer => 3
    case Handshaking => 4
    case Open => 5
    case Draining => 6
    case Disconnected => 7
    case Failed => 8
    case Closed => 8
  }

  /** Lives are short and never come back to a state: each accepted event makes a session older, so
      at most eight are ever accepted. */
  lemma {:induction false} LivesAreShort(s: SessionState, events: seq<SessionEvent>)
    requires Reached(s, events).Ok?
    ensures Age(s) + |events| <= Age(Reached(s, events).value) <= 8
    decreases |events|
  {
    if events != [] {
      LivesAreShort(Transition(s, events[0]).value, events[1..]);
    }
  }

  /** The events that open a session of this state, oldest first. */
  function Opening(s: SessionState): seq<SessionEvent>
    decreases 8 - Age(s)
  {
    match s
    case Created => [Prepare] + Opening(Preparing)
    case Preparing => [ResourcesReady] + Opening(WaitingForRenderer)
    case WaitingForRenderer => [RendererReady] + Opening(WaitingForPeer)
    case WaitingForPeer => [PeerReady] + Opening(Handshaking)
    case Handshaking => [HandshakeComplete]
    case _ => []
  }

  /** A session opens exactly by attaching the renderer, then the peer, then completing the handshake;
      from the later states it never opens again. */
  lemma {:induction false} OpensOnlyInOrder(s: SessionState, events: seq<SessionEvent>)
    ensures Reached(s, events) == Ok(Open) <==> Age(s) <= Age(Open) && events == Opening(s)
    decreases |events|
  {
    hide Transition, Opening, Age;
    if events != [] {
      OpeningStep(s, events[0]);
      assert events == [events[0]] + events[1..];
      if Transition(s, events[0]).Ok? {
        OpensOnlyInOrder(Transition(s, events[0]).value, events[1..]);
      }
    } else {
      OpeningStep(s, Fail);
    }
  }

  /** The one event that leads a young session on towards opening. */
  lemma OpeningStep(s: SessionState, e: SessionEvent)
    ensures Age(s) == Age(Open) <==> s == Open
    ensures Opening(s) == [] <==> Age(s) >= Age(Open)
    ensures var next := Transition(s, e);
            if next.Ok? && Age(next.value) <= Age(Open) then Opening(s) == [e] + Opening(next.value) && Age(s) < Age(Open)
            else Opening(s) != [] ==> Opening(s)[0] != e
  {
  }

  /** Which states and events lead into the states in which a session goes down; every other event is refused
      with the same error. */
  lemma LeadsInto(s: SessionState, e: SessionEvent)
    ensures Transition(s, e) == Ok(Draining) <==> s.Open? && e.BeginDrain?
    ensures Transition(s, e) == Ok(Disconnected) <==> Age(WaitingForRenderer) <= Age(s) <= Age(Draining) && e.Disconnect?
    ensures Transition(s, e) == Ok(Failed) <==> !s.IsTerminal() && e.Fail?
    ensures Transition(s, e) == Ok(SessionState.Closed) <==> (s.Draining? || s.Disconnected?) && e.Close?
    ensures Transition(s, e).Err? ==> Transition(s, e).error == InvalidStateTransition
  {
  }

  /** A state accepts no event at all exactly when it is terminal. */
  lemma TerminalIffDeaf(s: SessionState)
    ensures s.IsTerminal() <==> forall e :: Transition(s, e).Err?
  {
    if !s.IsTerminal() {
      assert Transition(s, Fail).Ok?;
    }
  }
}
