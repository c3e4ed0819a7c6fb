/** Document-scoped ports, callbacks and the event queue (crates/renderer/nwipc-renderer-core). */
module RendererPorts {
  import opened Wrappers
  import opened Words

  type Generation = x: u64 | x != 0 witness 1
  type PortId = x: u32 | x != 0 witness 1

  const LAST_PORT: int := TWO32 - 1
  const LAST_CALLBACK: int := TWO64 - 1

  datatype TransportEvent = Message(payload: seq<u8>) | Writable | Finished | Failure(code: ErrorCode)

  predicate Terminal(e: TransportEvent) {
    e.Finished? || e.Failure?
  }

  datatype PortState = Open | Closing | Done | Broken {
    predicate IsTerminal() {
      Done? || Broken?
    }
  }

  /** What one poll of a transport answers: an event, that nothing is ready, or a failure. */
  type Answer = Result<Option<TransportEvent>>

  /** A port with the answers of all later polls of its transport, in order; behind the last one nothing
      is ready. */
  datatype Port = Port(
    generation: Generation, state: PortState, incoming: seq<Answer>,
    callbacks: seq<u64>, backpressured: bool)

  datatype DocumentPort = DocumentPort(generation: Generation, id: PortId)

  datatype QueuedEvent = QueuedEvent(port: DocumentPort, callbacks: seq<u64>, event: TransportEvent)

  /** The state a terminal event leads to. */
  function Ending(e: TransportEvent): PortState {
    if e.Failure? then Broken else Done
  }

  function Ended(p: Port, e: TransportEvent): Port {
    p.(state := Ending(e), callbacks := [])
  }

  /** What one answer does to a live port: the events queued, the port afterwards, and whether to ask on. */
  datatype Handled = Handled(queued: seq<TransportEvent>, after: Port, ready: bool)

  function Handle(p: Port): (h: Handled)
    requires p.incoming != []
    ensures |h.after.incoming| == |p.incoming| - 1
  {
    var rest := p.(incoming := p.incoming[1..]);
    match p.incoming[0]
    case Err(code) => Handled([Failure(code)], Ended(rest, Failure(code)), true)
    case Ok(None) => Handled([], rest, false)
    case Ok(Some(event)) =>
      if Terminal(event) then Handled([event], Ended(rest, event), true)
      else if event == Writable then
        Handled(if p.backpressured then [Writable] else [], rest.(backpressured := false), true)
      else
        Handled([event], rest, true)
  }

  /** One round of polling, until the port is terminal or nothing is ready: the events queued and the
      port afterwards. */
  datatype Polled = Polled(queued: seq<TransportEvent>, after: Port)

  function Poll(p: Port): Polled
    decreases |p.incoming|
  {
    if p.state.IsTerminal() || p.incoming == [] then Polled([], p)
    else
      var handled := Handle(p);
      if !handled.ready then Polled(handled.queued, handled.after)
      else
        var next := Poll(handled.after);
        Polled(handled.queued + next.queued, next.after)
  }

  lemma HandleEndsOnce(p: Port)
    requires !p.state.IsTerminal() && p.incoming != []
    ensures var h := Handle(p);
            && |h.queued| <= 1
            && (h.after.state.IsTerminal() <==> h.queued != [] && Terminal(h.queued[0]))
            && (!h.ready ==> h.queued == [])
  {
  }

  /** A round queues at most one terminal event, as the last one, and exactly when it ends the port; a
      round of a live port with answers left uses some of them up. */
  lemma {:induction false} PollEndsOnce(p: Port)
    ensures var r := Poll(p);
            && (forall i :: 0 <= i < |r.queued| && Terminal(r.queued[i]) ==> i == |r.queued| - 1)
            && (!p.state.IsTerminal() ==>
              (r.after.state.IsTerminal() <==> r.queued != [] && Terminal(r.queued[|r.queued| - 1])))
            && (p.state.IsTerminal() ==> r == Polled([], p))
            && (!p.state.IsTerminal() && p.incoming != [] ==> |r.after.incoming| < |p.incoming|)
    decreases |p.incoming|
  {
    hide Handle;
    if !p.state.IsTerminal() && p.incoming != [] {
      HandleEndsOnce(p);
      PollEndsOnce(Handle(p).after);
    }
  }

  /** What can happen to a port of the active document: a round of polling, an accepted send, a request
      to close with what the transport answers to it. */
  datatype Turn = Round | Sent(backpressured: bool) | CloseAsked(failure: Option<ErrorCode>)

  function Turned(p: Port, t: Turn): Polled {
    match t
    case Round => Poll(p)
    case Sent(backpressured) => Polled([], if p.state == Open then p.(backpressured := backpressured) else p)
    case CloseAsked(failure) =>
      if p.state != Open then Polled([], p)
      else
        var closing := p.(state := Closing);
        if failure.None? then Polled([], closing)
        else Polled([Failure(failure.value)], Ended(closing, Failure(failure.value)))
  }

  /** Several rounds of polling, one after the other. */
  function Rounds(p: Port, n: nat): Polled
    decreases n
  {
    if n == 0 then Polled([], p)
    else
      var first := Poll(p);
      var rest := Rounds(first.after, n - 1);
      Polled(first.queued + rest.queued, rest.after)
  }

  function WithoutPauses(incoming: seq<Answer>): seq<Answer> {
    if incoming == [] then []
    else (if incoming[0] == Ok(None) then [] else [incoming[0]]) + WithoutPauses(incoming[1..])
  }

  function Pauses(incoming: seq<Answer>): nat {
    if incoming == [] then 0 else (if incoming[0] == Ok(None) then 1 else 0) + Pauses(incoming[1..])
  }

  /** The port of a transport that never pauses. */
  function Unpaused(p: Port): Port {
    p.(incoming := WithoutPauses(p.incoming))
  }

  lemma HandleUnpaused(p: Port)
    requires p.incoming != []
    ensures var h := Handle(p);
            if h.ready then
              && Unpaused(p).incoming != [] && Handle(Unpaused(p)) == Handled(h.queued, Unpaused(h.after), true)
              && Pauses(h.after.incoming) == Pauses(p.incoming)
            else
              h.queued == [] && Unpaused(h.after) == Unpaused(p) && Pauses(h.after.incoming) < Pauses(p.incoming)
  {
    var rest := WithoutPauses(p.incoming[1..]);
    assert [] + rest == rest && ([p.incoming[0]] + rest)[1..] == rest;
  }

  /** Polling without pauses goes through what one round queues and then through the rest. */
  lemma {:induction false} RoundThenRest(p: Port)
    ensures Poll(Unpaused(p)).queued == Poll(p).queued + Poll(Unpaused(Poll(p).after)).queued
    ensures !Poll(p).after.state.IsTerminal() && Poll(p).after.incoming != [] ==>
      Pauses(Poll(p).after.incoming) < Pauses(p.incoming)
    decreases |p.incoming|
  {
    hide Handle, Pauses, WithoutPauses, Ended;
    if p.state.IsTerminal() || p.incoming == [] {
      NothingLeft(p);
    } else {
      var h := Handle(p);
      HandleUnpaused(p);
      assert [] + Poll(Unpaused(p)).queued == Poll(Unpaused(p)).queued;
      if h.ready {
        RoundThenRest(h.after);
        Appended(h.queued, Poll(h.after).queued, Poll(Unpaused(Poll(h.after).after)).queued);
      }
    }
  }

  lemma Appended(a: seq<TransportEvent>, b: seq<TransportEvent>, c: seq<TransportEvent>)
    ensures a + (b + c) == (a + b) + c
  {
  }

  /** However a transport's answers are spread over rounds, what the rounds queue is the beginning of
      what polling without pauses queues, and all of it once every pause is passed. */
  lemma {:induction false} RoundsAreOnePoll(p: Port, n: nat)
    ensures Rounds(p, n).queued <= Poll(Unpaused(p)).queued
    ensures n > Pauses(p.incoming) ==> Rounds(p, n).queued == Poll(Unpaused(p)).queued
    decreases n
  {
    hide Poll, Pauses, WithoutPauses, Unpaused;
    if n > 0 {
      RoundThenRest(p);
      var first := Poll(p);
      RoundsAreOnePoll(first.after, n - 1);
      if n > Pauses(p.incoming) && (first.after.state.IsTerminal() || first.after.incoming == []) {
        NothingLeft(first.after);
      }
    }
  }

  lemma NothingLeft(p: Port)
    requires p.state.IsTerminal() || p.incoming == []
    ensures Poll(Unpaused(p)).queued == []
  {
  }

  /** Over any number of rounds at most one terminal event is queued for a port, and nothing after it. */
  lemma RoundsEndOnce(p: Port, n: nat, i: nat)
    requires i < |Rounds(p, n).queued| && Terminal(Rounds(p, n).queued[i])
    ensures i == |Rounds(p, n).queued| - 1
  {
    RoundsAreOnePoll(p, n);
    PollEndsOnce(Unpaused(p));
    assert Rounds(p, n).queued[i] == Poll(Unpaused(p)).queued[i];
  }

  /** The events of one port among all that were queued. */
  function EventsOf(history: seq<QueuedEvent>, id: PortId): seq<TransportEvent> {
    if history == [] then []
    else EventsOf(history[..|history| - 1], id)
         + if history[|history| - 1].port.id == id then [history[|history| - 1].event] else []
  }

  type Ports = map<PortId, Port>

  /** Ports and waiting events belong to the active document. */
  predicate Active(active: Option<Generation>, ports: Ports, events: seq<QueuedEvent>) {
    && (forall id :: id in ports ==> active == Some(ports[id].generation))
    && (forall i :: 0 <= i < |events| ==> active == Some(events[i].port.generation))
  }

  /** Nothing was ever queued behind a terminal event of the same port, and a port whose terminal event
      was queued is terminal; identities are issued once. */
  predicate Tidy(history: seq<QueuedEvent>, ports: Ports, next: PortId) {
    && (forall id :: id in ports ==> id < next)
    && (forall i :: 0 <= i < |history| ==> history[i].port.id < next)
    && (forall i, j :: 0 <= i < j < |history| && history[i].port.id == history[j].port.id ==> !Terminal(history[i].event))
    && (forall i :: 0 <= i < |history| && history[i].port.id in ports && Terminal(history[i].event) ==>
      ports[history[i].port.id].state.IsTerminal())
  }

  /** Every callback of a port was issued before. */
  predicate Registered(ports: Ports, next: u64) {
    forall id, c :: id in ports && c in ports[id].callbacks ==> c < next
  }

  /** The waiting events are the ones queued last, but for removed callbacks. */
  predicate Waiting(history: seq<QueuedEvent>, taken: nat, events: seq<QueuedEvent>) {
    && taken + |events| == |history|
    && forall i :: 0 <= i < |events| ==>
      events[i].port == history[taken + i].port && events[i].event == history[taken + i].event
  }

  function WithoutCallback(callbacks: seq<u64>, callback: u64): seq<u64> {
    if callbacks == [] then []
    else (if callbacks[0] == callback then [] else [callbacks[0]]) + WithoutCallback(callbacks[1..], callback)
  }

  /** Removing a callback removes every occurrence of it and nothing else. */
  lemma {:induction false} WithoutCallbackExactly(callbacks: seq<u64>, callback: u64, c: u64)
    ensures multiset(WithoutCallback(callbacks, callback))[c] == if c == callback then 0 else multiset(callbacks)[c]
    decreases |callbacks|
  {
    if callbacks != [] {
      assert callbacks == [callbacks[0]] + callbacks[1..];
      WithoutCallbackExactly(callbacks[1..], callback, c);
    }
  }

  lemma RemovedStaysRegistered(ports: Ports, callback: u64, next: u64)
    requires Registered(ports, next)
    ensures Registered(map id | id in ports :: ports[id].(callbacks := WithoutCallback(ports[id].callbacks, callback)), next)
  {
    forall id, c | id in ports && c in WithoutCallback(ports[id].callbacks, callback)
      ensures c < next
    {
      assert multiset(WithoutCallback(ports[id].callbacks, callback))[c] > 0;
      WithoutCallbackExactly(ports[id].callbacks, callback, c);
      assert multiset(ports[id].callbacks)[c] > 0;
      assert c in ports[id].callbacks;
    }
  }

  /** The others keep their order. */
  lemma {:induction false} WithoutCallbackKeepsOrder(a: seq<u64>, b: seq<u64>, callback: u64)
    ensures WithoutCallback(a + b, callback) == WithoutCallback(a, callback) + WithoutCallback(b, callback)
    ensures callback !in a ==> WithoutCallback(a, callback) == a
    decreases |a|
  {
    if a == [] {
      assert [] + b == b;
    } else {
      assert a == [a[0]] + a[1..] && (a + b)[1..] == a[1..] + b;
      WithoutCallbackKeepsOrder(a[1..], b, callback);
    }
  }

  /** Events of one port, each with the callbacks the port had. */
  function Stamped(port: DocumentPort, callbacks: seq<u64>, events: seq<TransportEvent>): (s: seq<QueuedEvent>)
    ensures |s| == |events|
    ensures forall i :: 0 <= i < |events| ==> s[i] == QueuedEvent(port, callbacks, events[i])
  {
    seq(|events|, i requires 0 <= i < |events| => QueuedEvent(port, callbacks, events[i]))
  }

  /** Every event names a port and carries the callbacks of that port. */
  predicate Attributed(ports: Ports, queued: seq<QueuedEvent>) {
    forall j :: 0 <= j < |queued| ==>
      && queued[j].port.id in ports
      && queued[j].port.generation == ports[queued[j].port.id].generation
      && queued[j].callbacks == ports[queued[j].port.id].callbacks
  }

  lemma Longer(a: seq<QueuedEvent>, b: seq<QueuedEvent>, c: seq<QueuedEvent>)
    ensures (a + b) + c == a + (b + c)
  {
  }

  lemma NothingAttributed(ports: Ports)
    ensures Attributed(ports, [])
  {
  }

  lemma AttributedMore(ports: Ports, queued: seq<QueuedEvent>, id: PortId, events: seq<TransportEvent>)
    requires id in ports && Attributed(ports, queued)
    ensures Attributed(ports, queued + Stamped(DocumentPort(ports[id].generation, id), ports[id].callbacks, events))
  {
  }

  lemma StampedAppend(port: DocumentPort, callbacks: seq<u64>, a: seq<TransportEvent>, b: seq<TransportEvent>)
    ensures Stamped(port, callbacks, a + b) == Stamped(port, callbacks, a) + Stamped(port, callbacks, b)
    ensures Stamped(port, callbacks, []) == []
  {
  }

  class RendererCore {
    var active: Option<Generation>
    var ports: Ports
    var events: seq<QueuedEvent>
    var nextPort: PortId
    var nextCallback: u64

    /** Everything ever queued, and how much of it is no longer waiting. */
    ghost var history: seq<QueuedEvent>
    ghost var taken: nat

    ghost predicate Valid()
      reads this
    {
      && Active(active, ports, events)
      && Registered(ports, nextCallback)
      && Tidy(history, ports, nextPort)
      && Waiting(history, taken, events)
    }

    constructor ()
      ensures Valid() && active == None && ports == map[] && events == [] && history == []
    {
      active, ports, events, nextPort, nextCallback := None, map[], [], 1, 1;
      history, taken := [], 0;
    }

    /** Whether a handle names a port of the active document. */
    predicate Addresses(port: DocumentPort)
      reads this
    {
      active == Some(port.generation) && port.id in ports && ports[port.id].generation == port.generation
    }

    /** A newer document replaces the active one; everything of the old one is gone. */
    method InstallBinding(generation: Generation) returns (error: Option<ErrorCode>)
      requires Valid()
      modifies this
      ensures Valid() && history == old(history) && nextPort == old(nextPort) && nextCallback == old(nextCallback)
      ensures error == if old(active).Some? && generation <= old(active).value then Some(StaleGeneration) else None
      ensures error != None ==> unchanged(this)
      ensures error == None ==> active == Some(generation) && ports == map[] && events == []
    {
      hide Tidy, Waiting;
      NothingInactive(ports, events);
      if active.Some? {
        if generation <= active.value {
          return Some(StaleGeneration);
        }
        InvalidateDocument(active.value);
      }
      active := Some(generation);
      error := None;
    }

    /** Drops the ports and the waiting events of a document. */
    method InvalidateDocument(generation: Generation)
      requires Valid()
      modifies this
      ensures Valid() && history == old(history) && nextPort == old(nextPort) && nextCallback == old(nextCallback)
      ensures if old(active) == Some(generation) then active == None && ports == map[] && events == []
              else active == old(active) && ports == old(ports) && events == old(events)
    {
      hide Active, Tidy, Waiting;
      Survivors(active, ports, events, generation);
      Cleared(history, taken, ports, events, nextPort);
      ports := map id | id in ports && ports[id].generation != generation :: ports[id];
      var kept: seq<QueuedEvent> := [];
      for i := 0 to |events|
        invariant events == old(events) && taken == old(taken) && active == old(active) && history == old(history)
        invariant nextPort == old(nextPort) && nextCallback == old(nextCallback)
        invariant ports == map id | id in old(ports) && old(ports)[id].generation != generation :: old(ports)[id]
        invariant kept == if old(active) == Some(generation) then [] else events[..i]
      {
        if events[i].port.generation != generation {
          kept := kept + [events[i]];
        }
      }
      assert events[..|events|] == events;
      taken := taken + |events| - |kept|;
      events := kept;
      if active == Some(generation) {
        active := None;
      }
    }

    /** Opens a port under a fresh identity in the active document. */
    method Connect(generation: Generation, incoming: seq<Answer>) returns (r: Result<DocumentPort>)
      requires Valid()
      modifies this`ports, this`nextPort
      ensures Valid()
      ensures r.Err? ==> unchanged(this)
      ensures r == if active != Some(generation) then Err(StaleGeneration)
                   else if old(nextPort) == LAST_PORT then Err(Internal)
                   else Ok(DocumentPort(generation, old(nextPort)))
      ensures r.Ok? ==>
        && r.value.id !in old(ports) && nextPort == old(nextPort) + 1
        && ports == old(ports)[r.value.id := Port(generation, Open, incoming, [], false)]
    {
      if active != Some(generation) {
        return Err(StaleGeneration);
      }
      if nextPort == LAST_PORT {
        return Err(Internal);
      }
      var id := nextPort;
      nextPort := nextPort + 1;
      ports := ports[id := Port(generation, Open, incoming, [], false)];
      r := Ok(DocumentPort(generation, id));
    }

    /** Callback identities are never used twice and keep their order of registration. */
    method RegisterCallback(port: DocumentPort) returns (r: Result<u64>)
      requires Valid()
      modifies this`ports, this`nextCallback
      ensures Valid()
      ensures r.Err? ==> unchanged(this)
      ensures r == if !old(Addresses(port)) then Err(StaleGeneration)
                   else if old(nextCallback) == LAST_CALLBACK then Err(Internal)
                   else Ok(old(nextCallback))
      ensures r.Ok? ==>
        && nextCallback == old(nextCallback) + 1
        && (forall id :: id in old(ports) ==> r.value !in old(ports)[id].callbacks)
        && ports == old(ports)[port.id := old(ports)[port.id].(callbacks := old(ports)[port.id].callbacks + [r.value])]
    {
      if !Addresses(port) {
        return Err(StaleGeneration);
      }
      if nextCallback == LAST_CALLBACK {
        return Err(Internal);
      }
      var callback := nextCallback;
      nextCallback := nextCallback + 1;
      ports := ports[port.id := ports[port.id].(callbacks := ports[port.id].callbacks + [callback])];
      r := Ok(callback);
    }

    /** Removes a callback from every port and every waiting event. */
    method RemoveCallback(callback: u64)
      requires Valid()
      modifies this`ports, this`events
      ensures Valid()
      ensures ports == map id | id in old(ports) :: old(ports)[id].(callbacks := WithoutCallback(old(ports)[id].callbacks, callback))
      ensures |events| == |old(events)|
      ensures forall i :: 0 <= i < |events| ==>
        events[i] == old(events)[i].(callbacks := WithoutCallback(old(events)[i].callbacks, callback))
    {
      RemovedStaysRegistered(ports, callback, nextCallback);
      hide Active, Tidy, Waiting;
      ports := map id | id in ports :: ports[id].(callbacks := WithoutCallback(ports[id].callbacks, callback));
      for i := 0 to |events|
        invariant ports == map id | id in old(ports) :: old(ports)[id].(callbacks := WithoutCallback(old(ports)[id].callbacks, callback))
        invariant |events| == |old(events)|
        invariant forall k :: 0 <= k < i ==>
          events[k] == old(events)[k].(callbacks := WithoutCallback(old(events)[k].callbacks, callback))
        invariant forall k :: i <= k < |events| ==> events[k] == old(events)[k]
      {
        events := events[i := events[i].(callbacks := WithoutCallback(events[i].callbacks, callback))];
      }
      OnlyCallbacks(active, old(ports), ports, old(events), events, history, taken, nextPort);
    }

    /** Sends through an open port; whether the transport took the payload, and whether that made it
        backpressured, is its answer. */
    method Send(port: DocumentPort, backpressured: Result<bool>) returns (r: Result<bool>)
      requires Valid()
      modifies this`ports
      ensures Valid()
      ensures r == if !old(Addresses(port)) then Err(StaleGeneration)
                   else if old(ports)[port.id].state != Open then Err(ErrorCode.Closed)
                   else backpressured
      ensures ports == if r.Err? then old(ports)
                       else old(ports)[port.id := old(ports)[port.id].(backpressured := r.value)]
      ensures r.Ok? ==> ports[port.id] == Turned(old(ports)[port.id], Sent(r.value)).after
    {
      if !Addresses(port) {
        return Err(StaleGeneration);
      }
      if ports[port.id].state != Open {
        return Err(ErrorCode.Closed);
      }
      if backpressured.Ok? {
        ports := ports[port.id := ports[port.id].(backpressured := backpressured.value)];
      }
      r := backpressured;
    }

    /** Appends an event of a port with the callbacks the port has now. */
    method Queue(id: PortId, event: TransportEvent)
      requires id in ports && Waiting(history, taken, events)
      modifies this`events, this`history
      ensures Waiting(history, taken, events)
      ensures var queued := QueuedEvent(DocumentPort(ports[id].generation, id), ports[id].callbacks, event);
              events == old(events) + [queued] && history == old(history) + [queued]
    {
      var queued := QueuedEvent(DocumentPort(ports[id].generation, id), ports[id].callbacks, event);
      events := events + [queued];
      history := history + [queued];
    }

    /** Ends a live port with its terminal event. */
    method Finish(id: PortId, event: TransportEvent)
      requires Valid() && id in ports && !ports[id].state.IsTerminal() && Terminal(event)
      modifies this`events, this`history, this`ports
      ensures Valid()
      ensures ports == old(ports)[id := Ended(old(ports)[id], event)]
      ensures history == old(history) + [QueuedEvent(DocumentPort(old(ports)[id].generation, id), old(ports)[id].callbacks, event)]
      ensures events == old(events) + [QueuedEvent(DocumentPort(old(ports)[id].generation, id), old(ports)[id].callbacks, event)]
    {
      Queue(id, event);
      ports := ports[id := ports[id].(state := if event.Failure? then Broken else Done, callbacks := [])];
    }

    /** Starts a graceful close; a transport that cannot close fails the port. */
    method Close(port: DocumentPort, outcome: Option<ErrorCode>) returns (error: Option<ErrorCode>)
      requires Valid()
      modifies this`ports, this`events, this`history
      ensures Valid()
      ensures error == if old(Addresses(port)) then None else Some(StaleGeneration)
      ensures !old(Addresses(port)) || old(ports)[port.id].state != Open ==> unchanged(this)
      ensures old(Addresses(port)) && old(ports)[port.id].state == Open ==>
        var closing := old(ports)[port.id].(state := Closing);
        && ports == old(ports)[port.id := if outcome.Some? then Ended(closing, Failure(outcome.value)) else closing]
        && EventsOf(history, port.id)
           == EventsOf(old(history), port.id) + if outcome.Some? then [Failure(outcome.value)] else []
      ensures old(Addresses(port)) ==>
        var turned := Turned(old(ports)[port.id], CloseAsked(outcome));
        ports[port.id] == turned.after && EventsOf(history, port.id) == EventsOf(old(history), port.id) + turned.queued
    {
      hide Active, Tidy, Waiting, EventsOf;
      if !Addresses(port) {
        return Some(StaleGeneration);
      }
      error := None;
      if ports[port.id].state == Open {
        Closes(active, ports, events, history, nextPort, port.id);
        ports := ports[port.id := ports[port.id].(state := Closing)];
        if outcome.Some? {
          OneMore(history, QueuedEvent(DocumentPort(ports[port.id].generation, port.id), ports[port.id].callbacks, Failure(outcome.value)));
          Finish(port.id, Failure(outcome.value));
        }
      }
    }

    /** Removes the oldest waiting event; none of another document is ever waiting. */
    method PopEvent() returns (event: Option<QueuedEvent>)
      requires Valid()
      modifies this`events, this`taken
      ensures Valid()
      ensures event.None? <==> old(events) == []
      ensures event.Some? ==>
        && event.value == old(events[0]) && events == old(events[1..])
        && active == Some(event.value.port.generation)
        && event.value.event == history[old(taken)].event && event.value.port == history[old(taken)].port
    {
      hide Active, Tidy;
      while events != []
        invariant taken - old(taken) + |events| == |old(events)| && taken >= old(taken)
        invariant events == old(events)[taken - old(taken)..] && Waiting(history, taken, events)
        invariant forall k :: 0 <= k < taken - old(taken) ==> active != Some(old(events)[k].port.generation)
        decreases |events|
      {
        var first := events[0];
        events := events[1..];
        taken := taken + 1;
        if active == Some(first.port.generation) {
          NothingSkipped(active, ports, old(events), taken - 1 - old(taken));
          FewerEvents(active, ports, old(events));
          return Some(first);
        }
      }
      NothingSkipped(active, ports, old(events), |old(events)|);
      event := None;
    }

    /** Polls one port until it is terminal or has nothing ready. */
    method PollPort(id: PortId)
      requires Valid() && id in ports
      modifies this`ports, this`events, this`history
      ensures Valid()
      ensures ports == old(ports)[id := Poll(old(ports)[id]).after] && old(history) <= history
      ensures EventsOf(history, id) == EventsOf(old(history), id) + Poll(old(ports)[id]).queued
      ensures forall k: PortId :: k != id ==> EventsOf(history, k) == EventsOf(old(history), k)
      ensures var queued := Stamped(DocumentPort(old(ports)[id].generation, id), old(ports)[id].callbacks, Poll(old(ports)[id]).queued);
              events == old(events) + queued && history == old(history) + queued
    {
      hide Active, Tidy, Waiting, Registered, EventsOf, Handle, Poll, Stamped;
      ghost var port, callbacks := DocumentPort(ports[id].generation, id), ports[id].callbacks;
      StampedAppend(port, callbacks, [], []);
      ghost var goal := Poll(ports[id]);
      ghost var done: seq<TransportEvent> := [];
      var ready := true;
      assert done + goal.queued == goal.queued && EventsOf(history, id) + [] == EventsOf(history, id);
      while ready && !ports[id].state.IsTerminal() && ports[id].incoming != []
        invariant Valid() && id in ports
        invariant ports == old(ports)[id := ports[id]] && old(history) <= history
        invariant ready ==> done + Poll(ports[id]).queued == goal.queued && Poll(ports[id]).after == goal.after
        invariant !ready ==> done == goal.queued && ports[id] == goal.after
        invariant EventsOf(history, id) == EventsOf(old(history), id) + done
        invariant forall k: PortId :: k != id ==> EventsOf(history, k) == EventsOf(old(history), k)
        invariant ports[id].generation == port.generation
        invariant !ports[id].state.IsTerminal() ==> ports[id].callbacks == callbacks
        invariant events == old(events) + Stamped(port, callbacks, done)
        invariant history == old(history) + Stamped(port, callbacks, done)
        decreases |ports[id].incoming|
      {
        ghost var queued;
        PollStep(ports[id], done);
        ready, queued := HandleAnswer(id);
        Appended(EventsOf(old(history), id), done, queued);
        StampedAppend(port, callbacks, done, queued);
        done := done + queued;
      }
      if ready {
        PollOver(ports[id], done);
      }
    }

    /** Takes one answer off the transport of a live port. */
    method HandleAnswer(id: PortId) returns (ready: bool, ghost queued: seq<TransportEvent>)
      requires Valid() && id in ports && !ports[id].state.IsTerminal() && ports[id].incoming != []
      modifies this`ports, this`events, this`history
      ensures Valid() && id in ports && ports == old(ports)[id := ports[id]] && old(history) <= history
      ensures Handled(queued, ports[id], ready) == Handle(old(ports)[id])
      ensures EventsOf(history, id) == EventsOf(old(history), id) + queued
      ensures forall k: PortId :: k != id ==> EventsOf(history, k) == EventsOf(old(history), k)
      ensures ports[id].generation == old(ports)[id].generation
      ensures !ports[id].state.IsTerminal() ==> ports[id].callbacks == old(ports)[id].callbacks
      ensures var stamped := Stamped(DocumentPort(old(ports)[id].generation, id), old(ports)[id].callbacks, queued);
              events == old(events) + stamped && history == old(history) + stamped
    {
      hide Active, Tidy, Waiting, EventsOf, Poll;
      var answer := ports[id].incoming[0];
      Unheard(active, ports, events, history, nextPort, id);
      ready, queued := true, [];
      assert EventsOf(history, id) + [] == EventsOf(history, id);
      ports := ports[id := ports[id].(incoming := ports[id].incoming[1..])];
      if answer == Ok(None) {
        return false, [];
      }
      if answer.Err? || Terminal(answer.value.value) {
        var event := if answer.Err? then Failure(answer.error) else answer.value.value;
        OneMore(history, QueuedEvent(DocumentPort(ports[id].generation, id), ports[id].callbacks, event));
        queued := [event];
        Finish(id, event);
      } else if answer.value.value == Writable {
        if ports[id].backpressured {
          Unthrottled(active, ports, events, history, nextPort, id);
          ports := ports[id := ports[id].(backpressured := false)];
          QueueLive(id, Writable);
          queued := [Writable];
        }
      } else {
        QueueLive(id, answer.value.value);
        queued := [answer.value.value];
      }
    }

    /** Queueing an event of a live port. */
    method QueueLive(id: PortId, event: TransportEvent)
      requires Valid() && id in ports && !ports[id].state.IsTerminal() && !Terminal(event)
      modifies this`events, this`history
      ensures Valid() && old(history) <= history
      ensures EventsOf(history, id) == EventsOf(old(history), id) + [event]
      ensures var queued := QueuedEvent(DocumentPort(ports[id].generation, id), ports[id].callbacks, event);
              events == old(events) + [queued] && history == old(history) + [queued]
      ensures forall k: PortId :: k != id ==> EventsOf(history, k) == EventsOf(old(history), k)
    {
      OneMore(history, QueuedEvent(DocumentPort(ports[id].generation, id), ports[id].callbacks, event));
      Queue(id, event);
    }

    /** Polls every port once, in any order: each port's events come in transport order. */
    method DispatchReadable()
      requires Valid()
      modifies this`ports, this`events, this`history
      ensures Valid() && ports.Keys == old(ports).Keys && old(history) <= history
      ensures forall id :: id in ports ==>
        && ports[id] == Poll(old(ports)[id]).after
        && EventsOf(history, id) == EventsOf(old(history), id) + Poll(old(ports)[id]).queued
      ensures Attributed(old(ports), history[|old(history)|..]) && events == old(events) + history[|old(history)|..]
    {
      hide Active, Tidy, Waiting, Registered, EventsOf, Poll, Stamped, Attributed;
      var ids := ports.Keys;
      ghost var queued: seq<QueuedEvent> := [];
      NothingAttributed(ports);
      while ids != {}
        invariant Valid() && ids <= ports.Keys == old(ports).Keys && old(history) <= history
        invariant forall id :: id in ids ==> ports[id] == old(ports)[id] && EventsOf(history, id) == EventsOf(old(history), id)
        invariant forall id :: id in ports && id !in ids ==>
          && ports[id] == Poll(old(ports)[id]).after
          && EventsOf(history, id) == EventsOf(old(history), id) + Poll(old(ports)[id]).queued
        invariant history == old(history) + queued && events == old(events) + queued && Attributed(old(ports), queued)
        decreases |ids|
      {
        var id :| id in ids;
        ghost var more := Stamped(DocumentPort(ports[id].generation, id), ports[id].callbacks, Poll(ports[id]).queued);
        AttributedMore(old(ports), queued, id, Poll(ports[id]).queued);
        ghost var events0, history0 := events, history;
        PollPort(id);
        Longer(old(events), queued, more);
        Longer(old(history), queued, more);
        assert events == events0 + more && history == history0 + more;
        queued := queued + more;
        ids := ids - {id};
      }
      assert history[|old(history)|..] == queued;
    }
  }

  /** What one answer contributes to a round. */
  lemma PollStep(p: Port, done: seq<TransportEvent>)
    requires !p.state.IsTerminal() && p.incoming != []
    ensures var h := Handle(p);
            if h.ready then
              && done + Poll(p).queued == (done + h.queued) + Poll(h.after).queued
              && Poll(p).after == Poll(h.after).after
            else
              done + Poll(p).queued == done + h.queued && Poll(p).after == h.after
  {
    hide Handle;
    if Handle(p).ready {
      Appended(done, Handle(p).queued, Poll(Handle(p).after).queued);
    }
  }

  lemma PollOver(p: Port, done: seq<TransportEvent>)
    requires p.state.IsTerminal() || p.incoming == []
    ensures Poll(p) == Polled([], p) && done + Poll(p).queued == done
  {
  }

  lemma OneMore(history: seq<QueuedEvent>, queued: QueuedEvent)
    ensures EventsOf(history + [queued], queued.port.id) == EventsOf(history, queued.port.id) + [queued.event]
    ensures forall k: PortId :: k != queued.port.id ==> EventsOf(history + [queued], k) == EventsOf(history, k)
  {
    assert (history + [queued])[..|history|] == history;
  }

  lemma NothingInactive(ports: Ports, events: seq<QueuedEvent>)
    ensures Active(None, ports, events) ==> ports == map[] && events == []
  {
    if Active(None, ports, events) {
      assert forall id :: id !in ports;
      if events != [] {
        FirstIsActive(None, ports, events);
        assert false;
      }
    }
  }

  /** What invalidating a document keeps. */
  lemma Survivors(active: Option<Generation>, ports: Ports, events: seq<QueuedEvent>, generation: Generation)
    requires Active(active, ports, events)
    ensures (map id | id in ports && ports[id].generation != generation :: ports[id])
         == if active == Some(generation) then map[] else ports
    ensures forall i :: 0 <= i < |events| ==> (events[i].port.generation == generation <==> active == Some(generation))
  {
  }

  lemma Cleared(history: seq<QueuedEvent>, taken: nat, ports: Ports, events: seq<QueuedEvent>, next: PortId)
    requires Tidy(history, ports, next) && Waiting(history, taken, events)
    ensures Tidy(history, map[], next) && Waiting(history, taken + |events|, []) && Active(None, map[], [])
  {
  }

  lemma OnlyCallbacks(active: Option<Generation>, before: Ports, ports: Ports, waiting: seq<QueuedEvent>, events: seq<QueuedEvent>,
                      history: seq<QueuedEvent>, taken: nat, next: PortId)
    requires Active(active, before, waiting) && Tidy(history, before, next) && Waiting(history, taken, waiting)
    requires ports.Keys == before.Keys && |events| == |waiting|
    requires forall id :: id in ports ==> ports[id].generation == before[id].generation && ports[id].state == before[id].state
    requires forall i :: 0 <= i < |events| ==> events[i].port == waiting[i].port && events[i].event == waiting[i].event
    ensures Active(active, ports, events) && Tidy(history, ports, next) && Waiting(history, taken, events)
  {
  }

  lemma NothingSkipped(active: Option<Generation>, ports: Ports, events: seq<QueuedEvent>, k: nat)
    requires Active(active, ports, events) && k <= |events|
    requires forall j :: 0 <= j < k ==> active != Some(events[j].port.generation)
    ensures k == 0
  {
    if k > 0 {
      FirstIsActive(active, ports, events);
      assert false;
    }
  }

  lemma FirstIsActive(active: Option<Generation>, ports: Ports, events: seq<QueuedEvent>)
    requires Active(active, ports, events) && events != []
    ensures active == Some(events[0].port.generation)
  {
  }

  lemma FewerEvents(active: Option<Generation>, ports: Ports, events: seq<QueuedEvent>)
    requires Active(active, ports, events) && events != []
    ensures Active(active, ports, events[1..])
  {
  }

  lemma Closes(active: Option<Generation>, ports: Ports, events: seq<QueuedEvent>, history: seq<QueuedEvent>, next: PortId, id: PortId)
    requires Active(active, ports, events) && Tidy(history, ports, next) && id in ports && ports[id].state == Open
    ensures var after := ports[id := ports[id].(state := Closing)];
            Active(active, after, events) && Tidy(history, after, next)
  {
  }

  /** Taking an answer off a transport, or clearing the backpressure of a port, keeps everything tidy. */
  lemma Unheard(active: Option<Generation>, ports: Ports, events: seq<QueuedEvent>, history: seq<QueuedEvent>, next: PortId, id: PortId)
    requires Active(active, ports, events) && Tidy(history, ports, next) && id in ports && ports[id].incoming != []
    ensures var after := ports[id := ports[id].(incoming := ports[id].incoming[1..])];
            Active(active, after, events) && Tidy(history, after, next)
  {
  }

  lemma Unthrottled(active: Option<Generation>, ports: Ports, events: seq<QueuedEvent>, history: seq<QueuedEvent>, next: PortId, id: PortId)
    requires Active(active, ports, events) && Tidy(history, ports, next) && id in ports
    ensures var after := ports[id := ports[id].(backpressured := false)];
            Active(active, after, events) && Tidy(history, after, next)
  {
  }

  /** Of everything ever queued for a port at most one event is terminal, and it is the last. */
  lemma {:induction false} TerminalIsLast(history: seq<QueuedEvent>, ports: Ports, next: PortId, id: PortId)
    requires Tidy(history, ports, next)
    ensures var events := EventsOf(history, id);
            forall i :: 0 <= i < |events| && Terminal(events[i]) ==> i == |events| - 1
    decreases |history|
  {
    if history != [] {
      var n := |history| - 1;
      TerminalIsLast(history[..n], ports, next, id);
      if history[n].port.id == id {
        forall i | 0 <= i < |EventsOf(history[..n], id)|
          ensures !Terminal(EventsOf(history[..n], id)[i])
        {
          var k := Listed(history[..n], id, i);
          assert !Terminal(history[k].event);
        }
      }
    }
  }

  lemma {:induction false} Listed(history: seq<QueuedEvent>, id: PortId, i: nat) returns (k: nat)
    requires i < |EventsOf(history, id)|
    ensures k < |history| && history[k].port.id == id && history[k].event == EventsOf(history, id)[i]
  {
    var n := |history| - 1;
    if i < |EventsOf(history[..n], id)| {
      k := Listed(history[..n], id, i);
    } else {
      k := n;
    }
  }
}
