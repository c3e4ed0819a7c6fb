/** Session generations and the resources they own (crates/runtime/nwipc-session). */
module Sessions {
  import opened Wrappers
  import opened StateTable

  type Generation = x: int | 0 < x < 0x1_0000_0000_0000_0000 witness 1
  type SessionId = x: int | 0 < x < 0x1_0000_0000_0000_0000_0000_0000_0000_0000 witness 1

  /** A resource, by what its release reports. */
  datatype Resource = Resource(failure: Option<ErrorCode>)

  /** What the provider of resources observes. */
  datatype ProviderEvent =
    | Prepared(session: SessionId, generation: Generation, count: nat)
    | Released(generation: Generation, index: nat)

  class Provider {
    var log: seq<ProviderEvent>

    constructor ()
      ensures log == []
    {
      log := [];
    }

    method Record(e: ProviderEvent)
      modifies this
      ensures log == old(log) + [e]
    {
      log := log + [e];
    }
  }

  /** The releases of n resources, last acquired first. */
  function Releases(g: Generation, n: nat): (r: seq<ProviderEvent>)
    ensures |r| == n
  {
    if n == 0 then [] else [Released(g, n - 1)] + Releases(g, n - 1)
  }

  /** The failure that a reverse sweep meets first. */
  function FirstFailure(resources: seq<Resource>): Option<ErrorCode> {
    if resources == [] then None
    else
      var later := FirstFailure(resources[1..]);
      if later.Some? then later else resources[0].failure
  }

  /** A sweep reports a failure exactly when some release fails, and then that of the resource acquired
      last among the failing ones. */
  lemma {:induction false} FirstFailureIff(resources: seq<Resource>, code: ErrorCode)
    ensures FirstFailure(resources) == Some(code) <==>
      exists i :: 0 <= i < |resources| && resources[i].failure == Some(code)
                  && forall k :: i < k < |resources| ==> resources[k].failure.None?
    ensures FirstFailure(resources) == None <==> AllRelease(resources)
  {
    if resources != [] {
      var rest := resources[1..];
      FirstFailureIff(rest, code);
      assert resources == [resources[0]] + rest;
      if i :| 0 <= i < |rest| && rest[i].failure == Some(code) && forall k :: i < k < |rest| ==> rest[k].failure.None? {
        assert resources[i + 1].failure == Some(code);
        assert forall k :: i + 1 < k < |resources| ==> resources[k] == rest[k - 1];
      }
      if i :| 0 <= i < |resources| && resources[i].failure == Some(code)
              && forall k :: i < k < |resources| ==> resources[k].failure.None? {
        assert forall k :: 0 <= k < |rest| ==> rest[k] == resources[k + 1];
        if i > 0 {
          assert rest[i - 1].failure == Some(code);
        } else {
          assert AllRelease(rest);
        }
      }
    }
  }

  predicate AllRelease(resources: seq<Resource>) {
    forall i :: 0 <= i < |resources| ==> resources[i].failure.None?
  }

  class PreparedResources {
    const generation: Generation
    var resources: seq<Resource>
    var cleaned: bool

    constructor (generation: Generation)
      ensures this.generation == generation && resources == [] && !cleaned
    {
      this.generation := generation;
      resources, cleaned := [], false;
    }

    method Push(resource: Resource)
      modifies this`resources
      ensures resources == old(resources) + [resource]
    {
      resources := resources + [resource];
    }

    /** Releases every resource exactly once, in reverse order and whatever fails on the way. */
    method Cleanup(provider: Provider) returns (error: Option<ErrorCode>)
      modifies this`cleaned, provider
      ensures cleaned
      ensures if old(cleaned) then
                error == None && provider.log == old(provider.log)
              else
                error == FirstFailure(resources)
                && provider.log == old(provider.log) + Releases(generation, |resources|)
    {
      if cleaned {
        return None;
      }
      cleaned := true;
      error := None;
      assert old(provider.log) + Releases(generation, |resources|) == provider.log + Releases(generation, |resources|);
      for i := |resources| downto 0
        invariant cleaned && error == FirstFailure(resources[i..])
        invariant provider.log + Releases(generation, i) == old(provider.log) + Releases(generation, |resources|)
      {
        ghost var before := provider.log;
        provider.Record(Released(generation, i));
        assert before + Releases(generation, i + 1) == provider.log + Releases(generation, i);
        assert resources[i..][1..] == resources[i + 1..];
        if resources[i].failure.Some? && error.None? {
          error := resources[i].failure;
        }
      }
      assert resources[0..] == resources && provider.log + [] == provider.log;
    }
  }

  datatype EndpointKind = Renderer | Peer

  datatype EndpointStatus = Detached | Attached | Invalidated

  /** A session generation as a value. */
  datatype SessionView = SessionView(
    identity: SessionId, generation: Generation, state: SessionState,
    renderer: EndpointStatus, peer: EndpointStatus,
    resources: seq<Resource>, cleaned: bool)
  {
    /** Endpoints invalidated and resources released. */
    function Retired(): SessionView {
      this.(renderer := Invalidated, peer := Invalidated, cleaned := true)
    }

    function RetireFailure(): Option<ErrorCode> {
      if cleaned then None else FirstFailure(resources)
    }

    function RetireLog(): seq<ProviderEvent> {
      if cleaned then [] else Releases(generation, |resources|)
    }
  }

  class Session {
    const identity: SessionId
    const generation: Generation
    var state: SessionState
    var renderer: EndpointStatus
    var peer: EndpointStatus
    var resources: PreparedResources?

    constructor (identity: SessionId, generation: Generation)
      ensures this.identity == identity && this.generation == generation
      ensures state == Created && renderer == peer == Detached && resources == null
    {
      this.identity, this.generation := identity, generation;
      state, renderer, peer, resources := Created, Detached, Detached, null;
    }

    /** Resources installed, and those of this generation. */
    predicate Installed()
      reads this
    {
      resources != null && resources.generation == generation
    }

    ghost function View(): SessionView
      requires Installed()
      reads this, resources
    {
      SessionView(identity, generation, state, renderer, peer, resources.resources, resources.cleaned)
    }

    method Apply(event: SessionEvent) returns (error: Option<ErrorCode>)
      modifies this`state
      ensures match Transition(old(state), event)
              case Ok(next) => error == None && state == next
              case Err(code) => error == Some(code) && state == old(state)
    {
      var next := Transition(state, event);
      if next.Err? {
        return Some(next.error);
      }
      state := next.value;
      error := None;
    }

    /** Takes over prepared resources; when the session is not preparing they are released at once. */
    method InstallResources(prepared: PreparedResources, provider: Provider) returns (error: Option<ErrorCode>)
      requires prepared.generation == generation
      modifies this`state, this`resources, prepared`cleaned, provider
      ensures error == None <==> old(state) == Preparing
      ensures error == None ==>
        && state == WaitingForRenderer && resources == prepared
        && prepared.cleaned == old(prepared.cleaned) && provider.log == old(provider.log)
      ensures error != None ==>
        && state == old(state) && resources == old(resources) && prepared.cleaned
        && provider.log == old(provider.log)
           + if old(prepared.cleaned) then [] else Releases(generation, |prepared.resources|)
    {
      error := Apply(ResourcesReady);
      if error.Some? {
        var dropped := prepared.Cleanup(provider);
        return;
      }
      resources := prepared;
    }

    method AttachEndpoint(endpoint: EndpointKind)
      modifies this`renderer, this`peer
      ensures renderer == if endpoint == Renderer then Attached else old(renderer)
      ensures peer == if endpoint == Peer then Attached else old(peer)
    {
      match endpoint
      case Renderer => renderer := Attached;
      case Peer => peer := Attached;
    }

    /** Invalidates both endpoints and releases the resources, once. */
    method Cleanup(provider: Provider) returns (error: Option<ErrorCode>)
      requires Installed()
      modifies this`renderer, this`peer, resources`cleaned, provider
      ensures View() == old(View()).Retired()
      ensures error == old(View()).RetireFailure()
      ensures provider.log == old(provider.log) + old(View()).RetireLog()
    {
      renderer, peer := Invalidated, Invalidated;
      error := resources.Cleanup(provider);
    }
  }
}
