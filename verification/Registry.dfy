/** The control-plane registry: identities, routing and generation replacement
    (crates/runtime/nwipc-runtime). */
module Registry {
  import opened Wrappers
  import opened StateTable
  import opened Sessions
  import opened Machines

  const LAST_SESSION: int := 0xFFFF_FFFF_FFFF_FFFF_FFFF_FFFF_FFFF_FFFF
  const LAST_GENERATION: int := 0xFFFF_FFFF_FFFF_FFFF

  datatype SessionHandle = SessionHandle(session: SessionId, generation: Generation)

  datatype RouteOutcome = RouteOutcome(active: SessionHandle, replaced: bool, effect: MachineEffect)

  /** What the provider will do when asked to prepare: the resources it acquires, and whether it then
      fails, which releases them again. */
  datatype Preparation = Preparation(resources: seq<Resource>, failure: Option<ErrorCode>)

  /** The registry as a value, with everything its provider observed. */
  datatype RegistryView = RegistryView(
    sessions: map<SessionId, SessionView>, nextSession: SessionId, nextGeneration: Generation, log: seq<ProviderEvent>)
  {
    predicate IsActive(h: SessionHandle) {
      h.session in sessions && sessions[h.session].generation == h.generation
    }
  }

  datatype Stepped<T> = Stepped(after: RegistryView, answer: Result<T>)

  function PrepareLog(s: SessionId, g: Generation, p: Preparation): seq<ProviderEvent> {
    [Prepared(s, g, |p.resources|)] + if p.failure.Some? then Releases(g, |p.resources|) else []
  }

  function Fresh(s: SessionId, g: Generation, p: Preparation): SessionView {
    SessionView(s, g, WaitingForRenderer, Detached, Detached, p.resources, false)
  }

  /** Prepares and installs a new generation; a machine it replaces is dropped, which retires it. */
  function Install(r: RegistryView, s: SessionId, p: Preparation): Stepped<SessionHandle> {
    if r.nextGeneration == LAST_GENERATION then
      Stepped(r, Err(Internal))
    else
      var g := r.nextGeneration;
      var issued := r.(nextGeneration := g + 1, log := r.log + PrepareLog(s, g, p));
      if p.failure.Some? then Stepped(issued, Err(p.failure.value))
      else
        var dropped := if s in r.sessions then r.sessions[s].RetireLog() else [];
        Stepped(issued.(sessions := r.sessions[s := Fresh(s, g, p)], log := issued.log + dropped), Ok(SessionHandle(s, g)))
  }

  function CreateStep(r: RegistryView, p: Preparation): Stepped<SessionHandle> {
    if r.nextSession == LAST_SESSION then Stepped(r, Err(Internal))
    else Install(r.(nextSession := r.nextSession + 1), r.nextSession, p)
  }

  function HandleStep(r: RegistryView, h: SessionHandle, event: LifecycleEvent): Stepped<MachineEffect> {
    if !r.IsActive(h) then Stepped(r, Err(StaleGeneration))
    else
      var handled := HandleView(r.sessions[h.session], event);
      Stepped(r.(sessions := r.sessions[h.session := handled.after], log := r.log + handled.released), handled.answer)
  }

  function RouteStep(r: RegistryView, h: SessionHandle, event: LifecycleEvent, p: Preparation): Stepped<RouteOutcome> {
    var handled := HandleStep(r, h, event);
    match handled.answer
    case Err(code) => Stepped(handled.after, Err(code))
    case Ok(ReplaceGeneration) =>
      var installed := Install(handled.after, h.session, p);
      if installed.answer.Err? then Stepped(installed.after, Err(installed.answer.error))
      else Stepped(installed.after, Ok(RouteOutcome(installed.answer.value, true, ReplaceGeneration)))
    case Ok(effect) => Stepped(handled.after, Ok(RouteOutcome(h, false, effect)))
  }

  function ReplaceStep(r: RegistryView, s: SessionId, p: Preparation): Stepped<SessionHandle> {
    if s !in r.sessions then Stepped(r, Err(StaleGeneration))
    else if !r.sessions[s].state.CanReplace() then Stepped(r, Err(InvalidStateTransition))
    else Install(r, s, p)
  }

  class Runtime {
    const provider: Provider
    var sessions: map<SessionId, SessionMachine>
    var nextSession: SessionId
    var nextGeneration: Generation
    ghost var Repr: set<object>

    /** Every entry owns its session and its resources alone. */
    ghost predicate Valid()
      reads this`sessions, this`Repr, Repr
    {
      && this !in Repr && provider !in Repr
      && (forall s :: s in sessions ==>
        && sessions[s] in Repr && sessions[s].session in Repr
        && sessions[s].session.resources in Repr
        && sessions[s].Valid() && sessions[s].session.identity == s)
      && (forall s, t :: s in sessions && t in sessions && s != t ==>
        && sessions[s].session != sessions[t].session
        && sessions[s].session.resources != sessions[t].session.resources)
    }

    ghost function Views(): map<SessionId, SessionView>
      requires Valid()
      reads this`sessions, this`Repr, Repr
    {
      map s | s in sessions :: sessions[s].session.View()
    }

    ghost function View(): RegistryView
      requires Valid()
      reads this, Repr, provider
    {
      RegistryView(Views(), nextSession, nextGeneration, provider.log)
    }

    lemma ViewAt(s: SessionId)
      requires Valid()
      ensures s in Views() <==> s in sessions
      ensures s in sessions ==> Views()[s] == sessions[s].session.View()
    {
    }

    /** Work on one session leaves the views of all others alone. */
    twostate lemma OthersKeep(s: SessionId, new machine: SessionMachine)
      requires old(Valid()) && Valid()
      requires sessions == old(sessions)[s := machine]
      requires forall t :: t in old(sessions) && t != s ==>
        unchanged(sessions[t].session) && unchanged(sessions[t].session.resources)
      ensures machine.Valid()
      ensures Views() == old(Views())[s := machine.session.View()]
    {
      assert sessions[s] == machine;
      forall t | t in sessions && t != s
        ensures sessions[t].session.View() == old(sessions[t].session.View())
      {
      }
    }

    constructor (provider: Provider)
      ensures Valid() && fresh(Repr) && this.provider == provider
      ensures View() == RegistryView(map[], 1, 1, provider.log)
    {
      this.provider := provider;
      sessions, nextSession, nextGeneration := map[], 1, 1;
      Repr := {};
    }

    /** Asks the provider for the resources of a generation; a failing one releases what it acquired. */
    method PrepareMachine(s: SessionId, g: Generation, p: Preparation) returns (r: Result<SessionMachine>)
      modifies provider
      ensures provider.log == old(provider.log) + PrepareLog(s, g, p)
      ensures r.Err? <==> p.failure.Some?
      ensures r.Err? ==> r.error == p.failure.value
      ensures r.Ok? ==>
        && fresh(r.value) && fresh(r.value.session) && fresh(r.value.session.resources)
        && r.value.Valid() && r.value.session.View() == Fresh(s, g, p) && r.value.session.identity == s
    {
      provider.Record(Prepared(s, g, |p.resources|));
      var resources := new PreparedResources(g);
      for i := 0 to |p.resources|
        invariant fresh(resources) && resources.generation == g && !resources.cleaned
        invariant resources.resources == p.resources[..i]
        invariant provider.log == old(provider.log) + [Prepared(s, g, |p.resources|)]
      {
        resources.Push(p.resources[i]);
      }
      assert p.resources[..|p.resources|] == p.resources;
      if p.failure.Some? {
        var dropped := resources.Cleanup(provider);
        return Err(p.failure.value);
      }
      r := SessionMachine.Prepare(s, g, resources, provider);
      assert [Prepared(s, g, |p.resources|)] + [] == [Prepared(s, g, |p.resources|)];
    }

    method IssueGeneration() returns (r: Result<Generation>)
      modifies this`nextGeneration
      ensures if old(nextGeneration) == LAST_GENERATION then
                r == Err(Internal) && nextGeneration == old(nextGeneration)
              else
                r == Ok(old(nextGeneration)) && nextGeneration == old(nextGeneration) + 1
    {
      if nextGeneration == LAST_GENERATION {
        return Err(Internal);
      }
      r := Ok(nextGeneration);
      nextGeneration := nextGeneration + 1;
    }

    /** Drops the machine of a session, if there is one, which retires it. */
    method DropMachine(s: SessionId)
      requires Valid()
      modifies Repr, provider
      ensures Valid() && Repr == old(Repr)
      ensures s in sessions ==> Views() == old(Views())[s := old(Views())[s].Retired()]
      ensures s !in sessions ==> Views() == old(Views())
      ensures provider.log == old(provider.log) + if s in sessions then old(Views())[s].RetireLog() else []
    {
      hide SessionView.RetireLog, SessionView.Retired, SessionView.RetireFailure, Views, Session.View;
      ViewAt(s);
      if s in sessions {
        var dropped := sessions[s].session.Cleanup(provider);
        OthersKeep(s, sessions[s]);
      }
      assert provider.log + [] == provider.log;
    }

    /** Puts a new machine in place. */
    method Insert(s: SessionId, machine: SessionMachine)
      requires Valid() && machine.Valid() && machine.session.identity == s
      requires machine !in Repr && machine.session !in Repr && machine.session.resources !in Repr
      modifies this`sessions, this`Repr
      ensures Valid() && Repr == old(Repr) + {machine, machine.session, machine.session.resources}
      ensures Views() == old(Views())[s := machine.session.View()]
    {
      hide Views, Session.View;
      sessions := sessions[s := machine];
      Repr := Repr + {machine, machine.session, machine.session.resources};
      OthersKeep(s, machine);
    }

    /** Issues, prepares and installs a generation of a session. */
    method InstallSession(s: SessionId, p: Preparation) returns (r: Result<SessionHandle>)
      requires Valid()
      modifies this`sessions, this`Repr, this`nextGeneration, Repr, provider
      ensures Valid() && fresh(Repr - old(Repr))
      ensures Stepped(View(), r) == Install(old(View()), s, p)
    {
      hide SessionView.RetireLog, Views, Session.View, PrepareLog;
      ViewAt(s);
      var g := IssueGeneration();
      if g.Err? {
        return Err(g.error);
      }
      var machine := PrepareMachine(s, g.value, p);
      if machine.Err? {
        return Err(machine.error);
      }
      DropMachine(s);
      Insert(s, machine.value);
      r := Ok(SessionHandle(s, g.value));
    }

    method CreateSession(p: Preparation) returns (r: Result<SessionHandle>)
      requires Valid()
      modifies this, Repr, provider
      ensures Valid() && fresh(Repr - old(Repr))
      ensures Stepped(View(), r) == CreateStep(old(View()), p)
    {
      hide Install, Session.View;
      if nextSession == LAST_SESSION {
        return Err(Internal);
      }
      var s := nextSession;
      nextSession := nextSession + 1;
      r := InstallSession(s, p);
    }

    /** Applies an event to the addressed generation, if it is still the active one. */
    method HandleActive(h: SessionHandle, event: LifecycleEvent) returns (r: Result<MachineEffect>)
      requires Valid()
      modifies Repr, provider
      ensures Valid() && Repr == old(Repr)
      ensures Stepped(View(), r) == HandleStep(old(View()), h, event)
    {
      hide HandleView, Releases, FirstFailure, Views;
      ViewAt(h.session);
      if h.session !in sessions || sessions[h.session].session.generation != h.generation {
        return Err(StaleGeneration);
      }
      r := sessions[h.session].Handle(event, provider);
      OthersKeep(h.session, sessions[h.session]);
    }

    /** Routes an event; an invalidated generation is replaced after its cleanup. */
    method Route(h: SessionHandle, event: LifecycleEvent, p: Preparation) returns (r: Result<RouteOutcome>)
      requires Valid()
      modifies this, Repr, provider
      ensures Valid() && fresh(Repr - old(Repr))
      ensures Stepped(View(), r) == RouteStep(old(View()), h, event, p)
    {
      var effect := HandleActive(h, event);
      if effect.Err? {
        return Err(effect.error);
      }
      if effect.value == ReplaceGeneration {
        var active := InstallSession(h.session, p);
        if active.Err? {
          return Err(active.error);
        }
        return Ok(RouteOutcome(active.value, true, effect.value));
      }
      r := Ok(RouteOutcome(h, false, effect.value));
    }

    /** Retries the replacement of an invalidated session. */
    method Replace(s: SessionId, p: Preparation) returns (r: Result<SessionHandle>)
      requires Valid()
      modifies this, Repr, provider
      ensures Valid() && fresh(Repr - old(Repr))
      ensures Stepped(View(), r) == ReplaceStep(old(View()), s, p)
    {
      if s !in sessions {
        return Err(StaleGeneration);
      }
      if !sessions[s].session.state.CanReplace() {
        return Err(InvalidStateTransition);
      }
      r := InstallSession(s, p);
    }

    method CloseSession(h: SessionHandle) returns (r: Result<MachineEffect>)
      requires Valid()
      modifies Repr, provider
      ensures Valid() && Repr == old(Repr)
      ensures Stepped(View(), r) == HandleStep(old(View()), h, LocalClose)
    {
      r := HandleActive(h, LocalClose);
    }
  }
}
