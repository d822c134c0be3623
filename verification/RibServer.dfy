/**
 * The RIB manager of sysrib/server.go: after every change it recomputes the
 * resolved routes and sends only the differences to the data plane.
 */
module RibServer {
  import opened Wrappers
  import opened Net
  import opened SysRib
  import opened Resolver
  import opened Resolution
  import opened RibObject
  import T = Termination

  /** RouteKey of the source: a prefix of a network instance. */
  type RouteKey = T.Node

  type Image = map<RouteKey, set<Egress>>

  /** The data-plane calls that fail during one recalculation. A failed call has no effect. */
  datatype Faults = Faults(program: set<RouteKey>, deprogram: set<RouteKey>)

  const NO_FAULTS := Faults({}, {})

  datatype State = State(
    rib: Rib,
    interfaces: map<Interface, bool>,
    programmed: Image,
    resolved: map<RouteKey, Route>,
    dataplane: Image)

  // ---------------------------------------------------------------------
  // What the data plane should hold
  // ---------------------------------------------------------------------

  ghost predicate Usable(rib: Rib, up: set<Interface>, k: RouteKey) {
    var o := T.EgressNexthops(rib, up, k.ni, k.prefix);
    o.Resolved? && o.nexthops != {}
  }

  /** The prefixes that resolve to something, with their next hops. */
  ghost function Desired(rib: Rib, up: set<Interface>): Image {
    map k | k in T.Nodes(rib) && Usable(rib, up, k) :: T.EgressNexthops(rib, up, k.ni, k.prefix).nexthops
  }

  lemma UsableHasRoute(rib: Rib, up: set<Interface>, k: RouteKey)
    requires Usable(rib, up, k)
    ensures T.EgressNexthops(rib, up, k.ni, k.prefix).route.Some?
  {
    var depth: nat :| !Resolve(rib, up, k.ni, k.prefix, depth).Diverges?;
    T.AnyDepthWillDo(rib, up, k.ni, k.prefix, depth);
    var routes := Matched(rib, k.ni, k.prefix);
    var c := ResolveRoutes(rib, up, Instance(rib, k.ni), k.prefix, routes, depth - 1);
    SelectReturnsRoute(routes, c.sets);
  }

  ghost function Original(rib: Rib, up: set<Interface>, k: RouteKey): Route
    requires Usable(rib, up, k)
  {
    UsableHasRoute(rib, up, k);
    T.EgressNexthops(rib, up, k.ni, k.prefix).route.value
  }

  /** The top-level route behind each resolved prefix. */
  ghost function Originals(rib: Rib, up: set<Interface>): map<RouteKey, Route> {
    map k | k in T.Nodes(rib) && Usable(rib, up, k) :: Original(rib, up, k)
  }

  // ---------------------------------------------------------------------
  // One recalculation
  // ---------------------------------------------------------------------

  predicate UpToDate(programmed: Image, k: RouteKey, es: set<Egress>) {
    k in programmed && programmed[k] == es
  }

  ghost function ProgramCalls(programmed: Image, desired: Image): set<RouteKey> {
    set k | k in desired && !UpToDate(programmed, k, desired[k])
  }

  ghost function Sent(programmed: Image, desired: Image, f: Faults): Image {
    map k | k in ProgramCalls(programmed, desired) - f.program :: desired[k]
  }

  ghost function DeprogramCalls(programmed: Image, desired: Image): set<RouteKey> {
    programmed.Keys - desired.Keys
  }

  datatype PassResult = Crash | Done(state: State)

  /**
   * ResolveAndProgramDiff. `Crash` is the nil route that distributeRoute dereferences when a
   * deprogrammed prefix has no entry among the previously resolved routes.
   */
  ghost function Pass(st: State, f: Faults): PassResult {
    var up := Up(st.interfaces);
    var desired := Desired(st.rib, up);
    var sent := Sent(st.programmed, desired, f);
    var gone := DeprogramCalls(st.programmed, desired) - f.deprogram;
    if !(gone <= st.resolved.Keys) then Crash
    else Done(State(st.rib, st.interfaces, st.programmed + sent - gone, Originals(st.rib, up), st.dataplane + sent - gone))
  }

  lemma DiffReachesTarget(programmed: Image, desired: Image)
    ensures programmed + Sent(programmed, desired, NO_FAULTS) - (DeprogramCalls(programmed, desired) - {}) == desired
  {
    var sent := Sent(programmed, desired, NO_FAULTS);
    var after := programmed + sent - (DeprogramCalls(programmed, desired) - {});
    forall k | k in desired ensures k in after && after[k] == desired[k] {
      if !UpToDate(programmed, k, desired[k]) {
        assert k in sent;
      }
    }
    assert after.Keys == desired.Keys;
  }

  lemma NothingToSend(image: Image, f: Faults)
    ensures ProgramCalls(image, image) == {} && DeprogramCalls(image, image) == {}
    ensures Sent(image, image, f) == map[]
  {
  }

  /** Without faults one recalculation makes the image exact, whatever state it starts from. */
  lemma FaultFreePassIsExact(st: State)
    requires Pass(st, NO_FAULTS).Done?
    ensures Pass(st, NO_FAULTS).state.programmed == Desired(st.rib, Up(st.interfaces))
  {
    DiffReachesTarget(st.programmed, Desired(st.rib, Up(st.interfaces)));
  }

  /** From an exact state nothing is sent, even if calls were to fail. */
  lemma ExactStateIsQuiet(st: State, f: Faults)
    requires st.programmed == Desired(st.rib, Up(st.interfaces))
    ensures ProgramCalls(st.programmed, Desired(st.rib, Up(st.interfaces))) == {}
    ensures DeprogramCalls(st.programmed, Desired(st.rib, Up(st.interfaces))) == {}
    ensures Pass(st, f) == Done(st.(resolved := Originals(st.rib, Up(st.interfaces))))
  {
    NothingToSend(st.programmed, f);
    assert st.programmed + map[] - ({} - f.deprogram) == st.programmed;
    assert st.dataplane + map[] - ({} - f.deprogram) == st.dataplane;
  }

  /** The bookkeeping never drifts from the data plane, whichever calls fail. */
  lemma PassKeepsImage(st: State, f: Faults)
    requires st.programmed == st.dataplane
    requires Pass(st, f).Done?
    ensures Pass(st, f).state.programmed == Pass(st, f).state.dataplane
  {
  }

  /** The programmed prefixes without an original route. */
  function Stale(st: State): set<RouteKey> {
    st.programmed.Keys - st.resolved.Keys
  }

  /** After a recalculation those are exactly the prefixes whose deprogramming has just failed. */
  lemma StaleAfterPass(st: State, f: Faults)
    requires Pass(st, f).Done?
    ensures Stale(Pass(st, f).state) == DeprogramCalls(st.programmed, Desired(st.rib, Up(st.interfaces))) * f.deprogram
  {
    var desired := Desired(st.rib, Up(st.interfaces));
    var after := Pass(st, f).state;
    assert after.resolved.Keys == desired.Keys;
    assert after.programmed.Keys == st.programmed.Keys + Sent(st.programmed, desired, f).Keys - (DeprogramCalls(st.programmed, desired) - f.deprogram);
  }

  /** A recalculation crashes exactly when it deprograms a stale prefix. */
  lemma CrashExactlyWhen(st: State, f: Faults)
    ensures Pass(st, f).Crash? <==>
            exists k :: k in Stale(st) && k !in Desired(st.rib, Up(st.interfaces)) && k !in f.deprogram
  {
    var gone := DeprogramCalls(st.programmed, Desired(st.rib, Up(st.interfaces))) - f.deprogram;
    if Pass(st, f).Crash? {
      var k :| k in gone && k !in st.resolved;
      assert k in Stale(st);
    }
  }

  /** So a deprogramming that fails once and then succeeds, the prefix staying unresolved, always ends in a crash. */
  lemma RetriedDeprogramCrashes(st: State, f: Faults, later: State, f': Faults, k: RouteKey)
    requires Pass(st, f).Done?
    requires k in st.programmed && k !in Desired(st.rib, Up(st.interfaces)) && k in f.deprogram
    requires later.programmed == Pass(st, f).state.programmed && later.resolved == Pass(st, f).state.resolved
    requires k !in Desired(later.rib, Up(later.interfaces)) && k !in f'.deprogram
    ensures Pass(later, f').Crash?
  {
    StaleAfterPass(st, f);
    CrashExactlyWhen(later, f');
    assert k in Stale(later);
  }

  // ---------------------------------------------------------------------
  // Runs
  // ---------------------------------------------------------------------

  datatype Op =
    | SetRoute(ni: string, route: Route, isDelete: bool)
    | SetInterface(port: Interface, enabled: bool)
    | SetGUEPolicy(prefix: PrefixText, policy: GUEPolicy)
    | DeleteGUEPolicy(prefix: PrefixText)

  /** The change an operation makes before the recalculation; None for an operation that is refused. */
  function Change(st: State, op: Op): Option<State> {
    match op
    case SetRoute(ni, r, isDelete) => WithRib(st, SysRib.SetRoute(st.rib, ni, r, isDelete))
    case SetInterface(port, enabled) => Some(st.(interfaces := st.interfaces[port := enabled]))
    case SetGUEPolicy(p, policy) => WithRib(st, SetPolicy(st.rib, p, policy))
    case DeleteGUEPolicy(p) => WithRib(st, DeletePolicy(st.rib, p))
  }

  function WithRib(st: State, rib: Option<Rib>): Option<State> {
    match rib
    case None => None
    case Some(r) => Some(st.(rib := r))
  }

  datatype StepResult = Hangs | Crashes | Next(state: State)

  /** A recalculation looks up every prefix of the RIB; it returns if each of the lookups does. */
  ghost predicate Recalculates(rib: Rib, up: set<Interface>) {
    forall k :: k in T.Nodes(rib) ==> T.Returns(rib, up, k.ni, k.prefix)
  }

  /** Without a cycle it always returns. */
  lemma AcyclicRecalculates(rib: Rib, up: set<Interface>)
    requires T.Acyclic(rib)
    ensures Recalculates(rib, up)
  {
    forall k | k in T.Nodes(rib) ensures T.Returns(rib, up, k.ni, k.prefix) {
      T.AcyclicReturns(rib, up, k.ni, k.prefix, |T.Nodes(rib)| + 1);
    }
  }

  /** One operation of the server. */
  ghost function Step(st: State, op: Op, f: Faults): StepResult {
    match Change(st, op)
    case None => Next(st)
    case Some(st') =>
      if !Recalculates(st'.rib, Up(st'.interfaces)) then Hangs
      else match Pass(st', f)
        case Crash => Crashes
        case Done(s) => Next(s)
  }

  datatype Event = Event(op: Op, faults: Faults)

  ghost function Run(st: State, events: seq<Event>): StepResult {
    if events == [] then Next(st)
    else
      match Run(st, events[..|events| - 1])
      case Next(mid) => Step(mid, events[|events| - 1].op, events[|events| - 1].faults)
      case bad => bad
  }

  /** New(nil): an empty RIB and nothing programmed. */
  function Initial(defaultInstance: string): State {
    State(Rib(map[defaultInstance := map[]], defaultInstance, map[]), map[], map[], map[], map[])
  }

  ghost predicate NoFaults(events: seq<Event>) {
    forall e :: e in events ==> e.faults == NO_FAULTS
  }

  ghost predicate NoDeprogramFaults(events: seq<Event>) {
    forall e :: e in events ==> e.faults.deprogram == {}
  }

  /** Over every run, whichever calls fail, the bookkeeping equals the data plane. */
  lemma {:induction false} RunKeepsImage(name: string, events: seq<Event>)
    ensures var r := Run(Initial(name), events);
            r.Next? ==> r.state.programmed == r.state.dataplane
  {
    if events != [] {
      var n := |events| - 1;
      RunKeepsImage(name, events[..n]);
      var before := Run(Initial(name), events[..n]);
      if before.Next? {
        StepKeepsImage(before.state, events[n].op, events[n].faults);
      }
    }
  }

  lemma StepKeepsImage(st: State, op: Op, f: Faults)
    requires st.programmed == st.dataplane
    ensures Step(st, op, f).Next? ==> Step(st, op, f).state.programmed == Step(st, op, f).state.dataplane
  {
    if Change(st, op).Some? && Pass(Change(st, op).value, f).Done? {
      PassKeepsImage(Change(st, op).value, f);
    }
  }

  /** The tagged trees stay well formed over every run. */
  lemma {:induction false} RunKeepsTrees(name: string, events: seq<Event>)
    ensures var r := Run(Initial(name), events);
            r.Next? ==> WellFormed(r.state.rib)
  {
    if events != [] {
      var n := |events| - 1;
      RunKeepsTrees(name, events[..n]);
      var before := Run(Initial(name), events[..n]);
      if before.Next? {
        ChangeWellFormed(before.state, events[n].op);
      }
    }
  }

  lemma ChangeWellFormed(st: State, op: Op)
    requires WellFormed(st.rib)
    ensures Change(st, op).Some? ==> WellFormed(Change(st, op).value.rib)
  {
    if op.SetRoute? {
      SetRouteWellFormed(st.rib, op.ni, op.route, op.isDelete);
    }
  }

  /** What the last setInterface for a port said. */
  function LastLink(events: seq<Event>, port: Interface): Option<bool> {
    if events == [] then None
    else
      var op := events[|events| - 1].op;
      if op.SetInterface? && op.port == port then Some(op.enabled) else LastLink(events[..|events| - 1], port)
  }

  /** A step changes the link it is about, and no other; the recalculation changes none. */
  lemma StepLinks(st: State, op: Op, f: Faults, port: Interface)
    requires Step(st, op, f).Next?
    ensures var after := Step(st, op, f).state.interfaces;
            if op.SetInterface? && op.port == port then port in after && after[port] == op.enabled
            else (port in after <==> port in st.interfaces) && (port in after ==> after[port] == st.interfaces[port])
  {
  }

  /** After every run a port has the state that the last setInterface for it said, and none if there was none. */
  lemma {:induction false} LinksAreLastWrites(name: string, events: seq<Event>, port: Interface)
    requires Run(Initial(name), events).Next?
    ensures var interfaces := Run(Initial(name), events).state.interfaces;
            && (port in interfaces <==> LastLink(events, port).Some?)
            && (port in interfaces ==> interfaces[port] == LastLink(events, port).value)
    decreases |events|
  {
    if events != [] {
      var n := |events| - 1;
      LinksAreLastWrites(name, events[..n], port);
      StepLinks(Run(Initial(name), events[..n]).state, events[n].op, events[n].faults, port);
    }
  }

  /** After any fault-free run the image is the resolved RIB, and every next hop leaves through an interface last said to be enabled. */
  lemma {:induction false} FaultFreeRunIsExact(name: string, events: seq<Event>)
    requires NoFaults(events)
    ensures var r := Run(Initial(name), events);
            r.Next? ==>
              && r.state.programmed == Desired(r.state.rib, Up(r.state.interfaces))
              && r.state.dataplane == r.state.programmed
              && forall k, e :: k in r.state.dataplane && e in r.state.dataplane[k] ==> LastLink(events, e.port) == Some(true)
  {
    RunKeepsImage(name, events);
    var r := Run(Initial(name), events);
    if events == [] {
      assert T.Nodes(Initial(name).rib) == {};
    } else {
      var n := |events| - 1;
      FaultFreeRunIsExact(name, events[..n]);
      var before := Run(Initial(name), events[..n]);
      assert events[n] in events;
      if before.Next? && Change(before.state, events[n].op).Some? {
        var mid := Change(before.state, events[n].op).value;
        if Pass(mid, NO_FAULTS).Done? {
          FaultFreePassIsExact(mid);
        }
      }
    }
    if r.Next? {
      DesiredPortsAreUp(r.state.rib, Up(r.state.interfaces));
      forall k, e | k in r.state.dataplane && e in r.state.dataplane[k] ensures LastLink(events, e.port) == Some(true) {
        LinksAreLastWrites(name, events, e.port);
      }
    }
  }

  lemma DesiredPortsAreUp(rib: Rib, up: set<Interface>)
    ensures forall k, e :: k in Desired(rib, up) && e in Desired(rib, up)[k] ==> e.port in up
  {
    forall k, e | k in Desired(rib, up) && e in Desired(rib, up)[k] ensures e.port in up {
      var depth: nat :| !Resolve(rib, up, k.ni, k.prefix, depth).Diverges?;
      T.AnyDepthWillDo(rib, up, k.ni, k.prefix, depth);
      EgressPortsAreUp(rib, up, k.ni, k.prefix, depth, e);
    }
  }

  /** As long as no deprogramming has failed, no run crashes. */
  lemma {:induction false} NoFailedDeprogramNoCrash(name: string, events: seq<Event>)
    requires NoDeprogramFaults(events)
    ensures !Run(Initial(name), events).Crashes?
    ensures Run(Initial(name), events).Next? ==> Stale(Run(Initial(name), events).state) == {}
  {
    if events != [] {
      var n := |events| - 1;
      NoFailedDeprogramNoCrash(name, events[..n]);
      var before := Run(Initial(name), events[..n]);
      assert events[n] in events;
      if before.Next? {
        NothingStaleNoCrash(before.state, events[n]);
      }
    }
  }

  lemma NothingStaleNoCrash(s: State, e: Event)
    requires Stale(s) == {} && e.faults.deprogram == {}
    ensures !Step(s, e.op, e.faults).Crashes?
    ensures Step(s, e.op, e.faults).Next? ==> Stale(Step(s, e.op, e.faults).state) == {}
  {
    if Change(s, e.op).Some? {
      var mid := Change(s, e.op).value;
      assert Stale(mid) == Stale(s);
      CrashExactlyWhen(mid, e.faults);
      StaleAfterPass(mid, e.faults);
    }
  }

  // ---------------------------------------------------------------------
  // When exactly a run crashes
  // ---------------------------------------------------------------------

  /** The state the i-th operation of a run finds. */
  ghost function Before(name: string, events: seq<Event>, i: nat): StepResult
    requires i <= |events|
  {
    Run(Initial(name), events[..i])
  }

  /** The i-th operation is refused, and nothing is recalculated. */
  ghost predicate Refused(name: string, events: seq<Event>, i: nat)
    requires i < |events|
  {
    Before(name, events, i).Next? && Change(Before(name, events, i).state, events[i].op).None?
  }

  /** The recalculation of the i-th operation deprograms k, which no longer resolves, and the call fails or not. */
  ghost predicate Deprograms(name: string, events: seq<Event>, i: nat, k: RouteKey, fails: bool)
    requires i < |events|
  {
    Before(name, events, i).Next? &&
    var changed := Change(Before(name, events, i).state, events[i].op);
    changed.Some? &&
    var st := changed.value;
    && Recalculates(st.rib, Up(st.interfaces))
    && k in DeprogramCalls(st.programmed, Desired(st.rib, Up(st.interfaces)))
    && (k in events[i].faults.deprogram <==> fails)
  }

  ghost predicate AllRefused(name: string, events: seq<Event>, from: nat, to: nat)
    requires to <= |events|
  {
    forall l :: from <= l < to ==> Refused(name, events, l)
  }

  /** The recalculation of the i-th operation is the last before the n-th, and in it the deprogramming of k failed. */
  ghost predicate FailedAt(name: string, events: seq<Event>, n: nat, k: RouteKey, i: nat)
    requires n <= |events|
  {
    i < n && Deprograms(name, events, i, k, true) && AllRefused(name, events, i + 1, n)
  }

  ghost predicate FailedLast(name: string, events: seq<Event>, n: nat, k: RouteKey)
    requires n <= |events|
  {
    exists i :: FailedAt(name, events, n, k, i)
  }

  /** The recalculation of the n-th operation successfully deprograms what failed to be deprogrammed in the one before. */
  ghost predicate RetriedAt(name: string, events: seq<Event>, n: nat, k: RouteKey) {
    n < |events| && FailedLast(name, events, n, k) && Deprograms(name, events, n, k, false)
  }

  lemma NextStep(name: string, events: seq<Event>, n: nat)
    requires n < |events|
    ensures Before(name, events, n).Next? ==>
              Before(name, events, n + 1) == Step(Before(name, events, n).state, events[n].op, events[n].faults)
    ensures !Before(name, events, n).Next? ==> Before(name, events, n + 1) == Before(name, events, n)
  {
    assert events[..n + 1][..n] == events[..n];
  }

  lemma StillFailed(name: string, events: seq<Event>, n: nat, m: nat, k: RouteKey, i: nat)
    requires n < m == n + 1 <= |events| && Refused(name, events, n)
    ensures FailedAt(name, events, m, k, i) <==> FailedAt(name, events, n, k, i)
  {
    if i == n {
      assert !Deprograms(name, events, n, k, true);
    } else if i < n {
      assert AllRefused(name, events, i + 1, m) <==> AllRefused(name, events, i + 1, n);
    }
  }

  lemma RefusedLeavesFailed(name: string, events: seq<Event>, n: nat, m: nat, k: RouteKey)
    requires n < m == n + 1 <= |events| && Refused(name, events, n)
    ensures FailedLast(name, events, m, k) <==> FailedLast(name, events, n, k)
  {
    if i :| FailedAt(name, events, n, k, i) {
      StillFailed(name, events, n, m, k, i);
    }
    if i :| FailedAt(name, events, m, k, i) {
      StillFailed(name, events, n, m, k, i);
    }
  }

  lemma RecalculatedFailed(name: string, events: seq<Event>, n: nat, m: nat, k: RouteKey)
    requires n < m == n + 1 <= |events| && !Refused(name, events, n)
    ensures FailedLast(name, events, m, k) <==> Deprograms(name, events, n, k, true)
  {
    if Deprograms(name, events, n, k, true) {
      assert FailedAt(name, events, m, k, n);
    }
  }

  /** At every point of a run the prefixes without an original route are those whose deprogramming failed last. */
  lemma {:induction false} StaleExactlyWhen(name: string, events: seq<Event>, n: nat, k: RouteKey)
    requires n <= |events| && Before(name, events, n).Next?
    ensures k in Stale(Before(name, events, n).state) <==> FailedLast(name, events, n, k)
    decreases n
  {
    if n > 0 {
      NextStep(name, events, n - 1);
      if Refused(name, events, n - 1) {
        StaleExactlyWhen(name, events, n - 1, k);
        RefusedLeavesFailed(name, events, n - 1, n, k);
      } else {
        StaleAfterStep(name, events, n - 1, k);
        RecalculatedFailed(name, events, n - 1, n, k);
      }
    }
  }

  lemma StaleAfterStep(name: string, events: seq<Event>, n: nat, k: RouteKey)
    requires n < |events| && Before(name, events, n).Next? && !Refused(name, events, n)
    requires Step(Before(name, events, n).state, events[n].op, events[n].faults).Next?
    ensures k in Stale(Step(Before(name, events, n).state, events[n].op, events[n].faults).state) <==> Deprograms(name, events, n, k, true)
  {
    StaleAfterPass(Change(Before(name, events, n).state, events[n].op).value, events[n].faults);
  }

  /** A prefix without an original route that a step deprograms. */
  ghost predicate Dereferenced(st: State, e: Event, k: RouteKey) {
    Change(st, e.op).Some? &&
    var mid := Change(st, e.op).value;
    && Recalculates(mid.rib, Up(mid.interfaces)) && k in Stale(st)
    && k !in Desired(mid.rib, Up(mid.interfaces)) && k !in e.faults.deprogram
  }

  lemma StepCrashesExactlyWhen(st: State, e: Event)
    ensures Step(st, e.op, e.faults).Crashes? <==> exists k :: Dereferenced(st, e, k)
  {
    if Change(st, e.op).Some? {
      var mid := Change(st, e.op).value;
      assert Stale(mid) == Stale(st);
      CrashExactlyWhen(mid, e.faults);
      if k :| k in Stale(mid) && k !in Desired(mid.rib, Up(mid.interfaces)) && k !in e.faults.deprogram {
        assert Recalculates(mid.rib, Up(mid.interfaces)) ==> Dereferenced(st, e, k);
      }
    }
  }

  lemma RetriedIsDereferenced(name: string, events: seq<Event>, n: nat, k: RouteKey)
    requires n < |events| && Before(name, events, n).Next?
    ensures RetriedAt(name, events, n, k) <==> Dereferenced(Before(name, events, n).state, events[n], k)
  {
    StaleExactlyWhen(name, events, n, k);
    var st := Before(name, events, n).state;
    if Change(st, events[n].op).Some? {
      assert Change(st, events[n].op).value.programmed == st.programmed;
    }
  }

  /** The run has come to its end before, or this step crashes. */
  lemma LastStepCrashes(name: string, events: seq<Event>, n: nat, m: nat)
    requires n < m == n + 1 <= |events|
    ensures Before(name, events, m).Crashes? <==> Before(name, events, n).Crashes? || exists k :: RetriedAt(name, events, n, k)
  {
    NextStep(name, events, n);
    if Before(name, events, n).Next? {
      var st := Before(name, events, n).state;
      StepCrashesExactlyWhen(st, events[n]);
      forall k ensures RetriedAt(name, events, n, k) <==> Dereferenced(st, events[n], k) {
        RetriedIsDereferenced(name, events, n, k);
      }
    }
  }

  ghost predicate RetriedBefore(name: string, events: seq<Event>, n: nat) {
    exists j: nat, k :: j < n && RetriedAt(name, events, j, k)
  }

  lemma RetriedSoFar(name: string, events: seq<Event>, n: nat, m: nat)
    requires m == n + 1
    ensures RetriedBefore(name, events, m) <==> RetriedBefore(name, events, n) || exists k :: RetriedAt(name, events, n, k)
  {
  }

  /** The first n operations crash exactly when something is retried among them. */
  ghost predicate CrashExplained(name: string, events: seq<Event>, n: nat)
    requires n <= |events|
  {
    Before(name, events, n).Crashes? <==> RetriedBefore(name, events, n)
  }

  lemma OneStepFurther(name: string, events: seq<Event>, n: nat, m: nat)
    requires n < m == n + 1 <= |events| && CrashExplained(name, events, n)
    ensures CrashExplained(name, events, m)
  {
    LastStepCrashes(name, events, n, m);
    RetriedSoFar(name, events, n, m);
  }

  lemma NothingRetriedYet(name: string, events: seq<Event>)
    ensures CrashExplained(name, events, 0)
  {
  }

  lemma {:induction false} AlwaysExplained(name: string, events: seq<Event>, n: nat)
    requires n <= |events|
    ensures CrashExplained(name, events, n)
    decreases n
  {
    if n == 0 {
      NothingRetriedYet(name, events);
    } else {
      AlwaysExplained(name, events, n - 1);
      OneStepFurther(name, events, n - 1, n);
    }
  }

  /**
   * A run crashes exactly when some recalculation successfully deprograms a prefix that does not resolve and whose
   * deprogramming failed in the recalculation before.
   */
  lemma RunCrashesExactlyWhen(name: string, events: seq<Event>)
    ensures Run(Initial(name), events).Crashes? <==> exists j: nat, k :: RetriedAt(name, events, j, k)
  {
    AlwaysExplained(name, events, |events|);
    assert events[..|events|] == events;
    if j: nat, k :| RetriedAt(name, events, j, k) {
      assert j < |events|;
    }
  }
}
