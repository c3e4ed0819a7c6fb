/** What every run of the registry keeps: fresh generations, stale handles, exactly-once cleanup. */
module RegistryTheorems {
  import opened Wrappers
  import opened StateTable
  import opened Sessions
  import opened Machines
  import opened Registry

  /** One call, with what the provider will do if it is asked to prepare. */
  datatype Command =
    | CreateCall(p: Preparation)
    | RouteCall(h: SessionHandle, event: LifecycleEvent, p: Preparation)
    | ReplaceCall(s: SessionId, p: Preparation)
    | CloseCall(h: SessionHandle)

  function Next(r: RegistryView, c: Command): RegistryView {
    match c
    case CreateCall(p) => CreateStep(r, p).after
    case RouteCall(h, event, p) => RouteStep(r, h, event, p).after
    case ReplaceCall(s, p) => ReplaceStep(r, s, p).after
    case CloseCall(h) => HandleStep(r, h, LocalClose).after
  }

  function Run(r: RegistryView, calls: seq<Command>): RegistryView
    decreases |calls|
  {
    if calls == [] then r else Run(Next(r, calls[0]), calls[1..])
  }

  const NOTHING: RegistryView := RegistryView(map[], 1, 1, [])

  /** The resources of generation g in the order in which they were released. */
  function ReleasedOf(log: seq<ProviderEvent>, g: Generation): seq<nat> {
    if log == [] then []
    else (if log[0].Released? && log[0].generation == g then [log[0].index] else []) + ReleasedOf(log[1..], g)
  }

  function Countdown(n: nat): seq<nat> {
    if n == 0 then [] else [n - 1] + Countdown(n - 1)
  }

  lemma {:induction false} ReleasedAppend(a: seq<ProviderEvent>, b: seq<ProviderEvent>, g: Generation)
    ensures ReleasedOf(a + b, g) == ReleasedOf(a, g) + ReleasedOf(b, g)
  {
    if a == [] {
      assert a + b == b;
    } else {
      assert (a + b)[1..] == a[1..] + b;
      ReleasedAppend(a[1..], b, g);
    }
  }

  lemma {:induction false} ReleasedByReleases(g: Generation, n: nat, other: Generation)
    ensures ReleasedOf(Releases(g, n), other) == if g == other then Countdown(n) else []
    ensures forall i :: 0 <= i < n ==> Releases(g, n)[i].Released? && Releases(g, n)[i].generation == g
  {
    if n > 0 {
      ReleasedByReleases(g, n - 1, other);
      assert Releases(g, n)[1..] == Releases(g, n - 1);
    }
  }

  /** A generation whose resources are in use. */
  predicate Live(r: RegistryView, s: SessionId, g: Generation) {
    s in r.sessions && r.sessions[s].generation == g && !r.sessions[s].cleaned
  }

  /** The registry between two calls. */
  predicate SessionsInv(r: RegistryView) {
    forall s :: s in r.sessions ==>
      && Settled(r.sessions[s]) && r.sessions[s].identity == s
      && s < r.nextSession && r.sessions[s].generation < r.nextGeneration
  }

  /** Generations and sessions are issued in order. */
  predicate Issued(r: RegistryView) {
    && (forall i :: 0 <= i < |r.log| ==>
      r.log[i].generation < r.nextGeneration && (r.log[i].Prepared? ==> r.log[i].session < r.nextSession))
    && (forall i, j :: 0 <= i < j < |r.log| && r.log[i].Prepared? && r.log[j].Prepared? ==>
      r.log[i].generation < r.log[j].generation)
  }

  /** Every active generation was prepared by the provider, for that session. */
  predicate Backed(r: RegistryView) {
    forall s :: s in r.sessions ==> Prepared(s, r.sessions[s].generation, |r.sessions[s].resources|) in r.log
  }

  /** Resources in use are unreleased; all others are released, each once, last acquired first. */
  predicate CleanedOnce(r: RegistryView) {
    forall i :: 0 <= i < |r.log| && r.log[i].Prepared? ==>
      ReleasedOf(r.log, r.log[i].generation)
      == if Live(r, r.log[i].session, r.log[i].generation) then [] else Countdown(r.log[i].count)
  }

  /** When a generation of a session is prepared, every earlier one is already released completely. */
  predicate CleanedBefore(log: seq<ProviderEvent>) {
    forall i, j :: 0 <= i < j < |log| && log[i].Prepared? && log[j].Prepared? && log[i].session == log[j].session ==>
      ReleasedOf(log[..j], log[i].generation) == Countdown(log[i].count)
  }

  predicate Inv(r: RegistryView) {
    SessionsInv(r) && Issued(r) && Backed(r) && CleanedOnce(r) && CleanedBefore(r.log)
  }

  /** Releases leave the order of preparations alone. */
  lemma ReleasesKeep(log: seq<ProviderEvent>, g: Generation, n: nat)
    requires CleanedBefore(log)
    ensures CleanedBefore(log + Releases(g, n))
  {
    hide ReleasedOf, Countdown;
    ReleasedByReleases(g, n, g);
    var after := log + Releases(g, n);
    assert forall k :: |log| <= k < |after| ==> after[k] == Releases(g, n)[k - |log|];
    forall i, j | 0 <= i < j < |after| && after[i].Prepared? && after[j].Prepared? && after[i].session == after[j].session
      ensures ReleasedOf(after[..j], after[i].generation) == Countdown(after[i].count)
    {
      assert after[..j] == log[..j];
    }
  }

  /** Handling an event keeps the invariant: a generation that leaves its live states is released. */
  lemma HandleKeeps(r: RegistryView, h: SessionHandle, event: LifecycleEvent)
    requires Inv(r)
    ensures Inv(HandleStep(r, h, event).after)
    ensures HandleStep(r, h, event).answer == Ok(ReplaceGeneration) ==>
      var after := HandleStep(r, h, event).after;
      h.session in after.sessions && h.session < after.nextSession && after.sessions[h.session].state.CanReplace()
  {
    hide HandleView, ReleasedOf, Countdown, Releases, Settled, CleanedBefore;
    if r.IsActive(h) {
      var v := r.sessions[h.session];
      var after := HandleStep(r, h, event).after;
      HandleKeepsSettled(v, event);
      var released := HandleView(v, event).released;
      var n := if released == [] then 0 else |v.resources|;
      NoReleases(v.generation);
      assert released == Releases(v.generation, n);
      ReleasesKeep(r.log, v.generation, n);
      ReleasedByReleases(v.generation, n, v.generation);
      IssuedMore(r, after);
      forall i | 0 <= i < |after.log| && after.log[i].Prepared?
        ensures ReleasedOf(after.log, after.log[i].generation)
             == if Live(after, after.log[i].session, after.log[i].generation) then [] else Countdown(after.log[i].count)
      {
        HandledGeneration(r, h, event, i);
      }
    }
  }

  lemma NoReleases(g: Generation)
    ensures Releases(g, 0) == []
  {
  }

  /** Appending releases of an issued generation keeps the order of issue. */
  lemma IssuedMore(r: RegistryView, after: RegistryView)
    requires Issued(r) && r.log <= after.log && after.nextGeneration >= r.nextGeneration && after.nextSession >= r.nextSession
    requires forall i :: |r.log| <= i < |after.log| ==> after.log[i].Released? && after.log[i].generation < after.nextGeneration
    ensures Issued(after)
  {
  }

  lemma HandledGeneration(r: RegistryView, h: SessionHandle, event: LifecycleEvent, i: nat)
    requires Inv(r) && r.IsActive(h)
    requires i < |HandleStep(r, h, event).after.log| && HandleStep(r, h, event).after.log[i].Prepared?
    ensures var after := HandleStep(r, h, event).after;
            ReleasedOf(after.log, after.log[i].generation)
            == if Live(after, after.log[i].session, after.log[i].generation) then [] else Countdown(after.log[i].count)
  {
    hide HandleView, ReleasedOf, Releases, Countdown, Settled, SessionsInv, Issued, Backed, CleanedOnce, CleanedBefore;
    var v := r.sessions[h.session];
    var after := HandleStep(r, h, event).after;
    SettledAt(r, h.session);
    HandleKeepsSettled(v, event);
    var released := HandleView(v, event).released;
    var n := |v.resources|;
    ReleasedByReleases(v.generation, n, v.generation);
    assert forall k :: |r.log| <= k < |after.log| ==> after.log[k] == released[k - |r.log|];
    var entry := r.log[i];
    assert after.log[i] == entry;
    ReleasedAppend(r.log, released, entry.generation);
    ReleasedByReleases(v.generation, n, entry.generation);
    EntryOf(r, h.session, i);
    CleanedAt(r, i);
    NothingReleased(entry.generation);
  }

  lemma SettledAt(r: RegistryView, s: SessionId)
    requires SessionsInv(r) && s in r.sessions
    ensures Settled(r.sessions[s]) && r.sessions[s].identity == s
    ensures s < r.nextSession && r.sessions[s].generation < r.nextGeneration
  {
  }

  lemma CleanedAt(r: RegistryView, i: nat)
    requires CleanedOnce(r) && Issued(r) && i < |r.log|
    ensures r.log[i].generation < r.nextGeneration
    ensures r.log[i].Prepared? ==>
      ReleasedOf(r.log, r.log[i].generation)
      == if Live(r, r.log[i].session, r.log[i].generation) then [] else Countdown(r.log[i].count)
  {
  }

  lemma NothingReleased(g: Generation)
    ensures ReleasedOf([], g) == []
  {
  }

  /** The log entry of an active generation is the only one with that generation. */
  lemma EntryOf(r: RegistryView, s: SessionId, i: nat)
    requires Issued(r) && Backed(r) && s in r.sessions && i < |r.log| && r.log[i].Prepared?
    ensures r.log[i].generation == r.sessions[s].generation ==>
      r.log[i] == Prepared(s, r.sessions[s].generation, |r.sessions[s].resources|)
  {
  }

  /** Preparing a generation for a session whose earlier ones are all released. */
  lemma InstallKeeps(r: RegistryView, s: SessionId, p: Preparation)
    requires Inv(r) && s < r.nextSession
    requires s in r.sessions ==> r.sessions[s].state.CanReplace()
    ensures Inv(Install(r, s, p).after)
    ensures Install(r, s, p).answer.Ok? ==> Install(r, s, p).answer.value == SessionHandle(s, r.nextGeneration)
  {
    hide ReleasedOf, Countdown, Releases, CleanedBefore, PrepareLog;
    if r.nextGeneration != LAST_GENERATION {
      var g, n, after := r.nextGeneration, |p.resources|, Install(r, s, p).after;
      var released := if p.failure.Some? then n else 0;
      InstallLog(r, s, p);
      assert after.log == r.log + [Prepared(s, g, n)] + Releases(g, released);
      PreparedKeeps(r, s, g, n);
      ReleasesKeep(r.log + [Prepared(s, g, n)], g, released);
      ReleasedByReleases(g, released, g);
      IssuedNext(r, s, n, released);
      forall i | 0 <= i < |after.log| && after.log[i].Prepared?
        ensures ReleasedOf(after.log, after.log[i].generation)
             == if Live(after, after.log[i].session, after.log[i].generation) then [] else Countdown(after.log[i].count)
      {
        InstalledGeneration(r, s, p, i);
      }
    }
  }

  /** Everything a preparation writes to the log; the machine it replaces has nothing left to release. */
  lemma InstallLog(r: RegistryView, s: SessionId, p: Preparation)
    requires SessionsInv(r) && r.nextGeneration != LAST_GENERATION
    requires s in r.sessions ==> r.sessions[s].state.CanReplace()
    ensures Install(r, s, p).after.log
         == r.log + [Prepared(s, r.nextGeneration, |p.resources|)]
            + Releases(r.nextGeneration, if p.failure.Some? then |p.resources| else 0)
  {
  }

  /** A preparation comes after the complete release of every earlier generation of its session. */
  lemma PreparedKeeps(r: RegistryView, s: SessionId, g: Generation, n: nat)
    requires Inv(r) && (s in r.sessions ==> r.sessions[s].state.CanReplace())
    ensures CleanedBefore(r.log + [Prepared(s, g, n)])
  {
    hide ReleasedOf, Countdown;
    var log, after := r.log, r.log + [Prepared(s, g, n)];
    forall i, j | 0 <= i < j < |after| && after[i].Prepared? && after[j].Prepared? && after[i].session == after[j].session
      ensures ReleasedOf(after[..j], after[i].generation) == Countdown(after[i].count)
    {
      assert after[..j] == log[..j];
      if j == |log| {
        assert log[..j] == log && !Live(r, s, log[i].generation);
      }
    }
  }

  lemma IssuedNext(r: RegistryView, s: SessionId, n: nat, released: nat)
    requires Issued(r) && s < r.nextSession && r.nextGeneration != LAST_GENERATION
    ensures Issued(r.(nextGeneration := r.nextGeneration + 1,
                      log := r.log + [Prepared(s, r.nextGeneration, n)] + Releases(r.nextGeneration, released)))
  {
    hide Releases;
    var g := r.nextGeneration;
    ReleasedByReleases(g, released, g);
    var after := r.log + [Prepared(s, g, n)] + Releases(g, released);
    assert forall k :: |r.log| < k < |after| ==> after[k] == Releases(g, released)[k - |r.log| - 1];
  }

  lemma InstalledGeneration(r: RegistryView, s: SessionId, p: Preparation, i: nat)
    requires Inv(r) && r.nextGeneration != LAST_GENERATION
    requires s in r.sessions ==> r.sessions[s].state.CanReplace()
    requires i < |Install(r, s, p).after.log| && Install(r, s, p).after.log[i].Prepared?
    ensures var after := Install(r, s, p).after;
            ReleasedOf(after.log, after.log[i].generation)
            == if Live(after, after.log[i].session, after.log[i].generation) then [] else Countdown(after.log[i].count)
  {
    hide ReleasedOf, Countdown, Releases, PrepareLog, SessionsInv, Issued, Backed, CleanedOnce, CleanedBefore, Settled;
    var g, n, after := r.nextGeneration, |p.resources|, Install(r, s, p).after;
    var released := if p.failure.Some? then n else 0;
    InstallLog(r, s, p);
    if s in r.sessions {
      SettledAt(r, s);
      CleanedWhenReplaceable(r.sessions[s]);
    }
    ReleasedByReleases(g, released, g);
    assert forall k :: |r.log| < k < |after.log| ==> after.log[k] == Releases(g, released)[k - |r.log| - 1];
    var entry := after.log[i];
    ReleasedAppend(r.log + [Prepared(s, g, n)], Releases(g, released), entry.generation);
    ReleasedAppend(r.log, [Prepared(s, g, n)], entry.generation);
    ReleasedByReleases(g, released, entry.generation);
    OnePreparation(s, g, n, entry.generation);
    if i == |r.log| {
      IssuedBelow(r);
      NeverReleased(r.log, g, r.nextGeneration);
    } else {
      assert i < |r.log| && entry == r.log[i];
      CleanedAt(r, i);
    }
  }

  lemma CleanedWhenReplaceable(v: SessionView)
    requires Settled(v) && v.state.CanReplace()
    ensures v.cleaned
  {
  }

  lemma IssuedBelow(r: RegistryView)
    requires Issued(r)
    ensures forall i :: 0 <= i < |r.log| ==> r.log[i].generation < r.nextGeneration
  {
  }

  lemma OnePreparation(s: SessionId, g: Generation, n: nat, other: Generation)
    ensures ReleasedOf([Prepared(s, g, n)], other) == []
    ensures Countdown(0) == []
  {
    assert [Prepared(s, g, n)][1..] == [];
  }

  lemma {:induction false} NeverReleased(log: seq<ProviderEvent>, g: Generation, next: Generation)
    requires g >= next && forall i :: 0 <= i < |log| ==> log[i].generation < next
    ensures ReleasedOf(log, g) == []
  {
    if log != [] {
      NeverReleased(log[1..], g, next);
    }
  }

  /** Every call keeps the invariant. */
  lemma NextKeeps(r: RegistryView, c: Command)
    requires Inv(r)
    ensures Inv(Next(r, c))
  {
    hide Install, HandleStep, CleanedOnce, CleanedBefore;
    match c {
      case CreateCall(p) =>
        if r.nextSession != LAST_SESSION {
          var issued := r.(nextSession := r.nextSession + 1);
          AnotherSession(r);
          InstallKeeps(issued, r.nextSession, p);
        }
      case RouteCall(h, event, p) =>
        HandleKeeps(r, h, event);
        var handled := HandleStep(r, h, event);
        if handled.answer == Ok(ReplaceGeneration) {
          InstallKeeps(handled.after, h.session, p);
        }
      case ReplaceCall(s, p) =>
        if s in r.sessions && r.sessions[s].state.CanReplace() {
          InstallKeeps(r, s, p);
        }
      case CloseCall(h) =>
        HandleKeeps(r, h, LocalClose);
    }
  }

  lemma AnotherSession(r: RegistryView)
    requires Inv(r) && r.nextSession != LAST_SESSION
    ensures Inv(r.(nextSession := r.nextSession + 1))
  {
    hide ReleasedOf, Countdown, Settled;
  }

  lemma {:induction false} RunKeeps(r: RegistryView, calls: seq<Command>)
    requires Inv(r)
    ensures Inv(Run(r, calls))
    decreases |calls|
  {
    hide Inv, Next;
    if calls != [] {
      NextKeeps(r, calls[0]);
      RunKeeps(Next(r, calls[0]), calls[1..]);
    }
  }

  lemma RunInv(calls: seq<Command>)
    ensures Inv(Run(NOTHING, calls))
  {
    RunKeeps(NOTHING, calls);
  }

  /** Over every run, also with failing preparations and releases, generations come out strictly
      increasing, none is used twice, and no two sessions are ever active under the same one. */
  lemma GenerationsAreFresh(calls: seq<Command>)
    ensures var r := Run(NOTHING, calls);
            && (forall i, j :: 0 <= i < j < |r.log| && r.log[i].Prepared? && r.log[j].Prepared? ==>
              r.log[i].generation < r.log[j].generation)
            && (forall s, t :: s in r.sessions && t in r.sessions && s != t ==>
              r.sessions[s].generation != r.sessions[t].generation)
  {
    hide Run, ReleasedOf, Countdown, Settled, CleanedOnce, CleanedBefore;
    RunInv(calls);
    var r := Run(NOTHING, calls);
    forall s, t | s in r.sessions && t in r.sessions && s != t
      ensures r.sessions[s].generation != r.sessions[t].generation
    {
      var e, f := Prepared(s, r.sessions[s].generation, |r.sessions[s].resources|),
                  Prepared(t, r.sessions[t].generation, |r.sessions[t].resources|);
      assert e in r.log && f in r.log && e != f;
    }
  }

  /** Every prepared resource is released at most once; all of a generation are released together,
      last acquired first, whatever fails on the way; those in use are not released at all. */
  lemma CleanedExactlyOnce(calls: seq<Command>, i: nat)
    requires i < |Run(NOTHING, calls).log| && Run(NOTHING, calls).log[i].Prepared?
    ensures var r := Run(NOTHING, calls);
            var e := r.log[i];
            ReleasedOf(r.log, e.generation) == if Live(r, e.session, e.generation) then [] else Countdown(e.count)
  {
    RunInv(calls);
  }

  /** No session ever has two live sets of resources: when a generation of it is prepared, all earlier
      ones have been released completely. */
  lemma ReplacedOnlyAfterCleanup(calls: seq<Command>, i: nat, j: nat)
    requires i < j < |Run(NOTHING, calls).log|
    requires var log := Run(NOTHING, calls).log;
             log[i].Prepared? && log[j].Prepared? && log[i].session == log[j].session
    ensures var log := Run(NOTHING, calls).log;
            ReleasedOf(log[..j], log[i].generation) == Countdown(log[i].count)
  {
    RunInv(calls);
  }

  /** A handle that was issued and is not active. */
  predicate Stale(r: RegistryView, h: SessionHandle) {
    h.generation < r.nextGeneration && !r.IsActive(h)
  }

  lemma StaysStale(r: RegistryView, c: Command, h: SessionHandle)
    requires Inv(r) && Stale(r, h)
    ensures Stale(Next(r, c), h)
  {
    hide HandleView, Inv, PrepareLog;
    match c {
      case RouteCall(k, event, p) => HandledStays(r, k, event, h);
      case CloseCall(k) => HandledStays(r, k, LocalClose, h);
      case CreateCall(_) =>
      case ReplaceCall(_, _) =>
    }
  }

  lemma HandledStays(r: RegistryView, k: SessionHandle, event: LifecycleEvent, h: SessionHandle)
    requires Inv(r) && Stale(r, h)
    ensures Stale(HandleStep(r, k, event).after, h)
  {
    hide HandleView, Settled;
    if r.IsActive(k) {
      HandleKeepsSettled(r.sessions[k.session], event);
    }
  }

  lemma {:induction false} RunStaysStale(r: RegistryView, calls: seq<Command>, h: SessionHandle)
    requires Inv(r) && Stale(r, h)
    ensures Stale(Run(r, calls), h)
    decreases |calls|
  {
    hide Inv, Next, Stale;
    if calls != [] {
      StaysStale(r, calls[0], h);
      NextKeeps(r, calls[0]);
      RunStaysStale(Next(r, calls[0]), calls[1..], h);
    }
  }

  /** Once a handle is stale it is refused forever, and the refused call changes nothing. */
  lemma StaleForever(before: seq<Command>, h: SessionHandle, later: seq<Command>, event: LifecycleEvent, p: Preparation)
    requires Stale(Run(NOTHING, before), h)
    ensures var r := Run(Run(NOTHING, before), later);
            && RouteStep(r, h, event, p) == Stepped(r, Err(StaleGeneration))
            && HandleStep(r, h, LocalClose) == Stepped(r, Err(StaleGeneration))
  {
    RunInv(before);
    RunStaysStale(Run(NOTHING, before), later, h);
  }

  /** A replacement makes the old handle stale and its own the active one. */
  lemma ReplacementRetiresHandle(calls: seq<Command>, h: SessionHandle, event: LifecycleEvent, p: Preparation)
    requires var routed := RouteStep(Run(NOTHING, calls), h, event, p);
             routed.answer.Ok? && routed.answer.value.replaced
    ensures var routed := RouteStep(Run(NOTHING, calls), h, event, p);
            && Stale(routed.after, h)
            && routed.after.IsActive(routed.answer.value.active)
            && routed.answer.value.active.session == h.session
            && routed.answer.value.active.generation > h.generation
  {
    hide HandleView, PrepareLog, Run, SessionsInv, Issued, Backed, CleanedOnce, CleanedBefore, Settled;
    var r := Run(NOTHING, calls);
    RunInv(calls);
    SettledAt(r, h.session);
    HandleKeepsSettled(r.sessions[h.session], event);
  }

  /** A replacement asked for directly succeeds exactly when the session is replaceable, a generation
      is left and the preparation succeeds. The old handle is then stale in every later run and a newer
      one active; a refused replacement leaves the old handle active. */
  lemma ReplaceRetiresHandle(calls: seq<Command>, h: SessionHandle, p: Preparation, later: seq<Command>)
    requires Run(NOTHING, calls).IsActive(h)
    ensures var r := Run(NOTHING, calls);
            var replaced := ReplaceStep(r, h.session, p);
            && (replaced.answer.Ok? <==>
                r.sessions[h.session].state.CanReplace() && r.nextGeneration != LAST_GENERATION && p.failure.None?)
            && (replaced.answer.Ok? ==>
                && replaced.answer.value.session == h.session
                && replaced.answer.value.generation > h.generation
                && replaced.after.IsActive(replaced.answer.value)
                && Stale(Run(replaced.after, later), h))
            && (replaced.answer.Err? ==> replaced.after.IsActive(h))
            && (!r.sessions[h.session].state.CanReplace() ==> replaced == Stepped(r, Err(InvalidStateTransition)))
  {
    hide HandleView, PrepareLog, Run, Inv;
    var r := Run(NOTHING, calls);
    RunInv(calls);
    ActiveBelow(r, h);
    var replaced := ReplaceStep(r, h.session, p);
    if replaced.answer.Ok? {
      NextKeeps(r, ReplaceCall(h.session, p));
      RunStaysStale(replaced.after, later, h);
    }
  }

  lemma ActiveBelow(r: RegistryView, h: SessionHandle)
    requires Inv(r) && r.IsActive(h)
    ensures h.generation < r.nextGeneration
  {
    hide Issued, Backed, CleanedOnce, CleanedBefore, Settled;
  }

  /** Routing replaces a generation exactly when the event invalidates it, nothing fails to be released, a
      generation is left and the preparation succeeds. A generation that is invalidated and not replaced
      stays active, retired and replaceable. */
  lemma ReplacedIff(calls: seq<Command>, h: SessionHandle, event: LifecycleEvent, p: Preparation)
    requires Run(NOTHING, calls).IsActive(h)
    ensures var r := Run(NOTHING, calls);
            var v := r.sessions[h.session];
            var routed := RouteStep(r, h, event, p);
            && (routed.answer.Ok? && routed.answer.value.replaced <==>
                && Invalidates(v.state, event) && (v.cleaned || AllRelease(v.resources))
                && r.nextGeneration != LAST_GENERATION && p.failure.None?)
            && (routed.answer.Ok? && routed.answer.value.replaced ==>
                routed.answer.value.active == SessionHandle(h.session, r.nextGeneration)
                && routed.after.sessions[h.session].state == WaitingForRenderer)
            && (Invalidates(v.state, event) && routed.answer.Err? ==>
                && routed.after.IsActive(h) && routed.after.sessions[h.session].state == InvalidState(event)
                && routed.after.sessions[h.session].cleaned)
            && (routed.answer.Ok? && !routed.answer.value.replaced ==>
                routed.answer.value.active == h && routed.after.IsActive(h))
            && (routed.answer.Ok? ==>
                routed.answer.value.effect ==
                  if v.state.IsTerminal() then NoEffect
                  else if Opener(event) then StateChanged
                  else if event.LocalClose? then ClosedDown
                  else ReplaceGeneration)
  {
    hide HandleView, PrepareLog, Run, Issued, Backed, CleanedOnce, CleanedBefore, Settled, AllRelease, FirstFailure, Awaited;
    var r := Run(NOTHING, calls);
    RunInv(calls);
    SettledAt(r, h.session);
    var v := r.sessions[h.session];
    if Opener(event) {
      OpenerLeadsOn(v, event);
    } else if event.LocalClose? {
      ClosesExactly(v);
    } else {
      InvalidatesExactly(v, event);
    }
    HandleKeepsSettled(v, event);
  }

  /** A session is created exactly when an identity and a generation are left and the preparation succeeds.
      It is then active in its initial state with the prepared resources, and no other session changes. */
  lemma CreatedIff(calls: seq<Command>, p: Preparation)
    ensures var r := Run(NOTHING, calls);
            var created := CreateStep(r, p);
            && (created.answer.Ok? <==>
                r.nextSession != LAST_SESSION && r.nextGeneration != LAST_GENERATION && p.failure.None?)
            && (created.answer.Ok? ==>
                var h := created.answer.value;
                && h.session !in r.sessions && created.after.IsActive(h)
                && created.after.sessions[h.session]
                   == SessionView(h.session, h.generation, WaitingForRenderer, Detached, Detached, p.resources, false)
                && created.after.sessions == r.sessions[h.session := created.after.sessions[h.session]])
            && (created.answer.Err? ==> created.after.sessions == r.sessions)
            && (created.answer.Err? && p.failure.Some? && r.nextSession != LAST_SESSION && r.nextGeneration != LAST_GENERATION
                ==> created.answer.error == p.failure.value)
            && (r.nextSession == LAST_SESSION || r.nextGeneration == LAST_GENERATION ==> created.answer == Err(Internal))
  {
    hide PrepareLog, Run, Issued, Backed, CleanedOnce, CleanedBefore, Settled;
    RunInv(calls);
    FreshSession(Run(NOTHING, calls));
  }

  lemma FreshSession(r: RegistryView)
    requires SessionsInv(r)
    ensures r.nextSession !in r.sessions
  {
    hide Settled;
  }

  /** Dropping the runtime drops every session, in whatever order. */
  function DropAll(r: RegistryView, order: seq<SessionId>): RegistryView
    decreases |order|
  {
    if order == [] then r
    else if order[0] !in r.sessions then DropAll(r, order[1..])
    else
      var v := r.sessions[order[0]];
      DropAll(r.(sessions := r.sessions - {order[0]}, log := r.log + v.RetireLog()), order[1..])
  }

  lemma DropKeeps(r: RegistryView, s: SessionId)
    requires Issued(r) && Backed(r) && CleanedOnce(r) && s in r.sessions && r.sessions[s].generation < r.nextGeneration
    ensures var after := r.(sessions := r.sessions - {s}, log := r.log + r.sessions[s].RetireLog());
            Issued(after) && Backed(after) && CleanedOnce(after)
  {
    hide ReleasedOf, Releases, Countdown, Issued, Backed;
    var v := r.sessions[s];
    var after := r.(sessions := r.sessions - {s}, log := r.log + v.RetireLog());
    var n := if v.cleaned then 0 else |v.resources|;
    NoReleases(v.generation);
    assert v.RetireLog() == Releases(v.generation, n);
    ReleasedByReleases(v.generation, n, v.generation);
    assert forall k :: |r.log| <= k < |after.log| ==> after.log[k] == Releases(v.generation, n)[k - |r.log|];
    IssuedMore(r, after);
    BackedFewer(r, after);
    forall i | 0 <= i < |after.log| && after.log[i].Prepared?
      ensures ReleasedOf(after.log, after.log[i].generation)
           == if Live(after, after.log[i].session, after.log[i].generation) then [] else Countdown(after.log[i].count)
    {
      DroppedGeneration(r, s, n, i);
    }
  }

  lemma BackedFewer(r: RegistryView, after: RegistryView)
    requires Backed(r) && r.log <= after.log
    requires forall s :: s in after.sessions ==> s in r.sessions && after.sessions[s] == r.sessions[s]
    ensures Backed(after)
  {
  }

  lemma DroppedGeneration(r: RegistryView, s: SessionId, n: nat, i: nat)
    requires Issued(r) && Backed(r) && CleanedOnce(r) && s in r.sessions && i < |r.log| && r.log[i].Prepared?
    requires n == if r.sessions[s].cleaned then 0 else |r.sessions[s].resources|
    ensures var after := r.(sessions := r.sessions - {s}, log := r.log + Releases(r.sessions[s].generation, n));
            ReleasedOf(after.log, r.log[i].generation)
            == if Live(after, r.log[i].session, r.log[i].generation) then [] else Countdown(r.log[i].count)
  {
    hide ReleasedOf, Releases, Countdown, Issued, Backed, CleanedOnce;
    var v := r.sessions[s];
    ReleasedAppend(r.log, Releases(v.generation, n), r.log[i].generation);
    ReleasedByReleases(v.generation, n, r.log[i].generation);
    NothingCounted();
    EntryOf(r, s, i);
    CleanedAt(r, i);
  }

  lemma NothingCounted()
    ensures Countdown(0) == []
  {
  }

  /** Dropping the runtime after any run leaks nothing: every resource ever prepared has then been
      released exactly once. */
  lemma DropLeaksNothing(calls: seq<Command>, order: seq<SessionId>, i: nat)
    requires forall s :: s in Run(NOTHING, calls).sessions ==> s in order
    requires i < |DropAll(Run(NOTHING, calls), order).log| && DropAll(Run(NOTHING, calls), order).log[i].Prepared?
    ensures var log := DropAll(Run(NOTHING, calls), order).log;
            ReleasedOf(log, log[i].generation) == Countdown(log[i].count)
  {
    hide DropAll, Run, ReleasedOf, Settled;
    RunInv(calls);
    NothingLeaks(Run(NOTHING, calls), order, i);
  }

  lemma {:induction false} NothingLeaks(r: RegistryView, order: seq<SessionId>, i: nat)
    requires Issued(r) && Backed(r) && CleanedOnce(r)
    requires forall s :: s in r.sessions ==> s in order && r.sessions[s].generation < r.nextGeneration
    requires i < |DropAll(r, order).log| && DropAll(r, order).log[i].Prepared?
    ensures var log := DropAll(r, order).log;
            ReleasedOf(log, log[i].generation) == Countdown(log[i].count)
    decreases |order|
  {
    hide ReleasedOf, Countdown;
    if order != [] {
      assert forall s :: s in order && s != order[0] ==> s in order[1..];
      if order[0] in r.sessions {
        DropKeeps(r, order[0]);
        NothingLeaks(r.(sessions := r.sessions - {order[0]}, log := r.log + r.sessions[order[0]].RetireLog()), order[1..], i);
      } else {
        NothingLeaks(r, order[1..], i);
      }
    }
  }
}
