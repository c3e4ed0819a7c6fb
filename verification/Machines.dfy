/** Lifecycle orchestration of one session generation (crates/runtime/nwipc-session-machine). */
module Machines {
  import opened Wrappers
  import opened StateTable
  import opened Sessions

  datatype LifecycleEvent =
    | RendererAttached | PeerAttached | HandshakeCompleted
    | DocumentReplaced | RendererExited | PeerExited | ProtocolFailed | LocalClose

  datatype MachineEffect = StateChanged | ReplaceGeneration | ClosedDown | NoEffect

  /** What handling one event does to a session: the session after it, the answer, the releases. */
  datatype Handled = Handled(after: SessionView, answer: Result<MachineEffect>, released: seq<ProviderEvent>)

  function Answer(error: Option<ErrorCode>, effect: MachineEffect): Result<MachineEffect> {
    if error.Some? then Err(error.value) else Ok(effect)
  }

  function Advance(v: SessionView, event: SessionEvent, attached: SessionView): Handled {
    match Transition(v.state, event)
    case Err(code) => Handled(v, Err(code), [])
    case Ok(next) => Handled(attached.(state := next), Ok(StateChanged), [])
  }

  /** Leaves the live states and releases everything. */
  function Retire(v: SessionView, event: SessionEvent, effect: MachineEffect): Handled {
    match Transition(v.state, event)
    case Err(code) => Handled(v, Err(code), [])
    case Ok(next) => Handled(v.Retired().(state := next), Answer(v.RetireFailure(), effect), v.RetireLog())
  }

  /** Closing: an open session drains first; a release failure leaves it there, to be closed again. */
  function CloseView(v: SessionView): Handled {
    match v.state
    case Closed => Handled(v, Ok(NoEffect), [])
    case Failed => Handled(v, Ok(NoEffect), [])
    case Open => Drain(v.(state := Draining))
    case Draining => Drain(v)
    case Disconnected => Drain(v)
    case _ => Retire(v, Fail, ClosedDown)
  }

  function Drain(v: SessionView): Handled {
    if v.RetireFailure().Some? then Handled(v.Retired(), Err(v.RetireFailure().value), v.RetireLog())
    else
      var closed := Transition(v.state, Close);
      if closed.Err? then Handled(v.Retired(), Err(closed.error), v.RetireLog())
      else Handled(v.Retired().(state := closed.value), Ok(ClosedDown), v.RetireLog())
  }

  function HandleView(v: SessionView, event: LifecycleEvent): Handled {
    if event == LocalClose then CloseView(v)
    else if v.state.IsTerminal() then Handled(v, Ok(NoEffect), [])
    else
      match event
      case RendererAttached => Advance(v, RendererReady, v.(renderer := Attached))
      case PeerAttached => Advance(v, PeerReady, v.(peer := Attached))
      case HandshakeCompleted => Advance(v, HandshakeComplete, v)
      case ProtocolFailed => Retire(v, Fail, ReplaceGeneration)
      case _ => Retire(v, Disconnect, ReplaceGeneration)
  }

  class SessionMachine {
    const session: Session

    ghost predicate Valid()
      reads this, session
    {
      session.Installed()
    }

    constructor (session: Session)
      requires session.Installed()
      ensures this.session == session && Valid()
    {
      this.session := session;
    }

    /** Creates a generation around its prepared resources. */
    static method Prepare(identity: SessionId, generation: Generation, resources: PreparedResources, provider: Provider)
        returns (r: Result<SessionMachine>)
      requires resources.generation == generation
      modifies resources`cleaned, provider
      ensures r.Ok? && fresh(r.value) && fresh(r.value.session) && r.value.Valid()
      ensures r.value.session.resources == resources
      ensures r.value.session.View() ==
        SessionView(identity, generation, WaitingForRenderer, Detached, Detached, resources.resources, old(resources.cleaned))
      ensures provider.log == old(provider.log)
    {
      var session := new Session(identity, generation);
      // Neither transition can be refused on a created session.
      var error := session.Apply(SessionEvent.Prepare);
      error := session.InstallResources(resources, provider);
      assert error == None;
      var machine := new SessionMachine(session);
      r := Ok(machine);
    }

    /** Applies an endpoint or host event with its cleanup. */
    method Handle(event: LifecycleEvent, provider: Provider) returns (r: Result<MachineEffect>)
      requires Valid()
      modifies session`state, session`renderer, session`peer, session.resources`cleaned, provider
      ensures Valid()
      ensures var handled := HandleView(old(session.View()), event);
        && session.View() == handled.after && r == handled.answer
        && provider.log == old(provider.log) + handled.released
    {
      assert provider.log + [] == provider.log;
      if event == LocalClose {
        r := CloseDown(provider);
        return;
      }
      if session.state.IsTerminal() {
        return Ok(NoEffect);
      }
      match event
      case RendererAttached =>
        var error := session.Apply(RendererReady);
        if error.None? {
          session.AttachEndpoint(Renderer);
        }
        r := Answer(error, StateChanged);
      case PeerAttached =>
        var error := session.Apply(PeerReady);
        if error.None? {
          session.AttachEndpoint(Peer);
        }
        r := Answer(error, StateChanged);
      case HandshakeCompleted =>
        var error := session.Apply(HandshakeComplete);
        r := Answer(error, StateChanged);
      case ProtocolFailed =>
        r := RetireWith(Fail, ReplaceGeneration, provider);
      case DocumentReplaced | RendererExited | PeerExited =>
        r := RetireWith(Disconnect, ReplaceGeneration, provider);
    }

    method RetireWith(event: SessionEvent, effect: MachineEffect, provider: Provider) returns (r: Result<MachineEffect>)
      requires Valid()
      modifies session`state, session`renderer, session`peer, session.resources`cleaned, provider
      ensures Valid()
      ensures var handled := Retire(old(session.View()), event, effect);
        && session.View() == handled.after && r == handled.answer
        && provider.log == old(provider.log) + handled.released
    {
      assert provider.log + [] == provider.log;
      var error := session.Apply(event);
      if error.None? {
        error := session.Cleanup(provider);
      }
      r := Answer(error, effect);
    }

    method CloseDown(provider: Provider) returns (r: Result<MachineEffect>)
      requires Valid()
      modifies session`state, session`renderer, session`peer, session.resources`cleaned, provider
      ensures Valid()
      ensures var handled := CloseView(old(session.View()));
        && session.View() == handled.after && r == handled.answer
        && provider.log == old(provider.log) + handled.released
    {
      assert provider.log + [] == provider.log;
      match session.state {
        case Closed | Failed =>
          return Ok(NoEffect);
        case Open =>
          var drained := session.Apply(BeginDrain);
        case Draining | Disconnected =>
        case _ =>
          r := RetireWith(Fail, ClosedDown, provider);
          return;
      }
      var error := session.Cleanup(provider);
      if error.Some? {
        return Err(error.value);
      }
      error := session.Apply(SessionEvent.Close);
      r := Answer(error, ClosedDown);
    }
  }

  /** What the state of a session says about its endpoints and resources between two calls. */
  predicate Settled(v: SessionView) {
    match v.state
    case WaitingForRenderer => v.renderer == Detached && v.peer == Detached && !v.cleaned
    case WaitingForPeer => v.renderer == Attached && v.peer == Detached && !v.cleaned
    case Handshaking => v.renderer == Attached && v.peer == Attached && !v.cleaned
    case Open => v.renderer == Attached && v.peer == Attached && !v.cleaned
    case Draining => v == v.Retired()
    case Disconnected => v == v.Retired()
    case Failed => v == v.Retired()
    case Closed => v == v.Retired()
    case _ => false
  }

  /** Every call keeps the state, the endpoints and the resources in step, also when a release fails;
      resources are released at most once, in reverse order, and never acquired again. */
  lemma HandleKeepsSettled(v: SessionView, event: LifecycleEvent)
    requires Settled(v)
    ensures var h := HandleView(v, event);
            && Settled(h.after)
            && h.after.(state := v.state, renderer := v.renderer, peer := v.peer, cleaned := v.cleaned) == v
            && h.released == (if !v.cleaned && h.after.cleaned then Releases(v.generation, |v.resources|) else [])
            && (v.cleaned ==> h.after.cleaned)
            && (h.answer == Ok(ReplaceGeneration) ==> h.after.state.CanReplace())
            && (h.answer == Ok(ClosedDown) ==> h.after.state.IsTerminal())
  {
    hide Releases, FirstFailure, SessionView.RetireFailure;
  }

  lemma RetiredIsClean(v: SessionView)
    ensures v.Retired().RetireFailure() == None && v.Retired().RetireLog() == []
    ensures v.Retired().Retired() == v.Retired() && v.Retired().state == v.state
  {
  }

  /** A close that failed on a release succeeds when repeated, without releasing anything again: a
      session that was draining, open or disconnected ends closed, any other live one ends failed. */
  lemma CloseTwice(v: SessionView)
    requires Settled(v)
    ensures var first := CloseView(v);
            var again := CloseView(first.after);
            && again.answer.Ok? && again.released == [] && again.after.state.IsTerminal()
            && (v.state.Open? || v.state.Draining? || v.state.Disconnected? ==> again.after.state.Closed?)
            && (first.answer.Ok? ==> again == Handled(first.after, Ok(NoEffect), []))
  {
    hide SessionView.RetireFailure, SessionView.RetireLog, SessionView.Retired;
    RetiredIsClean(v);
    RetiredIsClean(v.(state := Draining));
    RetiredIsClean(v.Retired());
  }

  /** The events that lead an unopened session on. */
  predicate Opener(e: LifecycleEvent) {
    e.RendererAttached? || e.PeerAttached? || e.HandshakeCompleted?
  }

  /** The openers a session of this state still waits for, in their order. */
  function Awaited(s: SessionState): seq<LifecycleEvent> {
    match s
    case WaitingForRenderer => [RendererAttached, PeerAttached, HandshakeCompleted]
    case WaitingForPeer => [PeerAttached, HandshakeCompleted]
    case Handshaking => [HandshakeCompleted]
    case _ => []
  }

  predicate Unopened(s: SessionState) {
    s.WaitingForRenderer? || s.WaitingForPeer? || s.Handshaking?
  }

  /** What an opener does: the awaited one leads on, any other changes nothing and is refused, or ignored by
      a session that is over. */
  lemma OpenerLeadsOn(v: SessionView, event: LifecycleEvent)
    requires Settled(v) && Opener(event)
    ensures var h := HandleView(v, event);
            && h.released == []
            && if Unopened(v.state) && event == Awaited(v.state)[0] then
                 && h.answer == Ok(StateChanged) && Awaited(h.after.state) == Awaited(v.state)[1..]
                 && (Unopened(h.after.state) || h.after.state.Open?)
               else
                 h.after == v && h.answer == if v.state.IsTerminal() then Ok(NoEffect) else Err(InvalidStateTransition)
  {
  }

  /** Events that invalidate a session in this state. */
  predicate Invalidates(s: SessionState, e: LifecycleEvent) {
    match e
    case ProtocolFailed => !s.IsTerminal()
    case DocumentReplaced => Unopened(s) || s.Open? || s.Draining?
    case RendererExited => Unopened(s) || s.Open? || s.Draining?
    case PeerExited => Unopened(s) || s.Open? || s.Draining?
    case _ => false
  }

  /** The state in which an invalidated session waits for its replacement. */
  function InvalidState(e: LifecycleEvent): SessionState {
    if e.ProtocolFailed? then Failed else Disconnected
  }

  /** An invalidated session is retired in any case, and asks for a replacement exactly when no release
      fails. An event that should invalidate and does not changes nothing. */
  lemma InvalidatesExactly(v: SessionView, event: LifecycleEvent)
    requires Settled(v) && !Opener(event) && !event.LocalClose?
    ensures var h := HandleView(v, event);
            if Invalidates(v.state, event) then
              && h.after == v.(state := InvalidState(event), renderer := Invalidated, peer := Invalidated, cleaned := true)
              && (h.answer == Ok(ReplaceGeneration) <==> v.cleaned || AllRelease(v.resources))
              && (h.answer == Ok(ReplaceGeneration) || (h.answer.Err? && FirstFailure(v.resources) == Some(h.answer.error)))
            else
              h.after == v && h.answer == if v.state.IsTerminal() then Ok(NoEffect) else Err(InvalidStateTransition)
  {
    hide FirstFailure, AllRelease;
    FirstFailureIff(v.resources, Internal);
  }

  /** Closing succeeds exactly when no release fails. A session that was open, draining or disconnected then
      ends closed and any other live one failed; one that is over stays as it is. */
  lemma ClosesExactly(v: SessionView)
    requires Settled(v)
    ensures var h := HandleView(v, LocalClose);
            if v.state.IsTerminal() then
              h == Handled(v, Ok(NoEffect), [])
            else
              && (h.answer == Ok(ClosedDown) <==> v.cleaned || AllRelease(v.resources))
              && (h.answer == Ok(ClosedDown) || (h.answer.Err? && FirstFailure(v.resources) == Some(h.answer.error)))
              && h.after.cleaned
              && h.after.state == if Unopened(v.state) then Failed
                                  else if h.answer.Ok? then SessionState.Closed
                                  else if v.state.Open? then Draining else v.state
  {
    hide FirstFailure, AllRelease;
    FirstFailureIff(v.resources, Internal);
  }

  /** The wanted events occur in this order, whatever stands between them. */
  predicate OccursIn(wanted: seq<LifecycleEvent>, events: seq<LifecycleEvent>)
    decreases |events|
  {
    wanted == []
    || (events != [] && OccursIn(if events[0] == wanted[0] then wanted[1..] else wanted, events[1..]))
  }

  /** A prepared session opens exactly when renderer, peer and handshake are reported in this order, however
      often and whatever other openers come in between, and nothing else happens. */
  lemma {:induction false} OpensExactly(v: SessionView, events: seq<LifecycleEvent>)
    requires Settled(v) && (Unopened(v.state) || v.state.Open?)
    ensures After(v, events).state.Open?
       <==> OccursIn(Awaited(v.state), events) && forall i :: 0 <= i < |events| ==> Opener(events[i])
    decreases |events|
  {
    hide HandleView, Awaited, OccursIn, Settled;
    OccursInBase(v.state, events);
    if events != [] {
      var next := HandleView(v, events[0]).after;
      HandleKeepsSettled(v, events[0]);
      assert events == [events[0]] + events[1..];
      if Opener(events[0]) {
        OpenerLeadsOn(v, events[0]);
        AwaitedFirst(v.state, events);
        OpensExactly(next, events[1..]);
      } else {
        if events[0].LocalClose? {
          ClosesExactly(v);
        } else {
          InvalidatesExactly(v, events[0]);
        }
        NeverOpens(next, events[1..]);
      }
    }
  }

  lemma OccursInBase(s: SessionState, events: seq<LifecycleEvent>)
    ensures Awaited(s) == [] <==> !Unopened(s)
    ensures OccursIn([], events)
    ensures Unopened(s) ==> !OccursIn(Awaited(s), [])
  {
  }

  lemma AwaitedFirst(s: SessionState, events: seq<LifecycleEvent>)
    requires events != []
    ensures Unopened(s) ==>
      Awaited(s) != [] && (OccursIn(Awaited(s), events) <==>
        OccursIn(if events[0] == Awaited(s)[0] then Awaited(s)[1..] else Awaited(s), events[1..]))
    ensures !Unopened(s) ==> OccursIn(Awaited(s), events[1..])
  {
  }

  /** A session that left its live states never opens. */
  lemma {:induction false} NeverOpens(v: SessionView, events: seq<LifecycleEvent>)
    requires Settled(v) && !Unopened(v.state) && !v.state.Open?
    ensures !After(v, events).state.Open?
    decreases |events|
  {
    hide HandleView, Settled, AllRelease, FirstFailure;
    if events != [] {
      HandleKeepsSettled(v, events[0]);
      if Opener(events[0]) {
        OpenerLeadsOn(v, events[0]);
      } else if events[0].LocalClose? {
        ClosesExactly(v);
      } else {
        InvalidatesExactly(v, events[0]);
      }
      NeverOpens(HandleView(v, events[0]).after, events[1..]);
    }
  }

  /** The session after a sequence of events. */
  function After(v: SessionView, events: seq<LifecycleEvent>): SessionView
    decreases |events|
  {
    if events == [] then v else After(HandleView(v, events[0]).after, events[1..])
  }

  /** All releases over a sequence of events. */
  function AllReleases(v: SessionView, events: seq<LifecycleEvent>): seq<ProviderEvent>
    decreases |events|
  {
    if events == [] then []
    else HandleView(v, events[0]).released + AllReleases(HandleView(v, events[0]).after, events[1..])
  }

  /** Over any life, the resources are released exactly once, in reverse order, and they are released
      exactly when the session has left its live states. */
  lemma {:induction false} ReleasedOnce(v: SessionView, events: seq<LifecycleEvent>)
    requires Settled(v)
    ensures var end := After(v, events);
            && Settled(end)
            && (end.cleaned <==> end.state.Draining? || end.state.CanReplace())
            && AllReleases(v, events) == (if !v.cleaned && end.cleaned then Releases(v.generation, |v.resources|) else [])
    decreases |events|
  {
    hide HandleView, Releases;
    if events != [] {
      HandleKeepsSettled(v, events[0]);
      ReleasedOnce(HandleView(v, events[0]).after, events[1..]);
      StaysCleaned(HandleView(v, events[0]).after, events[1..]);
      assert Releases(v.generation, |v.resources|) + [] == Releases(v.generation, |v.resources|);
    }
  }

  lemma {:induction false} StaysCleaned(v: SessionView, events: seq<LifecycleEvent>)
    requires Settled(v)
    ensures v.cleaned ==> After(v, events).cleaned
    decreases |events|
  {
    hide HandleView, Releases;
    if events != [] {
      HandleKeepsSettled(v, events[0]);
      StaysCleaned(HandleView(v, events[0]).after, events[1..]);
    }
  }
}
