/** Consequences over whole runs of the RIB manager. */
module Convergence {
  import opened Wrappers
  import opened Net
  import opened SysRib
  import opened Resolver
  import opened Resolution
  import opened ArrivalOrder
  import opened RibObject
  import opened RibServer
  import T = Termination

  lemma SameEgress(a: Rib, b: Rib, up: set<Interface>, k: RouteKey)
    requires WellFormed(a) && WellFormed(b) && SameTable(a, b) && Usable(a, up, k)
    ensures Usable(b, up, k) && T.EgressNexthops(b, up, k.ni, k.prefix).nexthops == T.EgressNexthops(a, up, k.ni, k.prefix).nexthops
  {
    var depth: nat :| !Resolve(a, up, k.ni, k.prefix, depth).Diverges?;
    T.AnyDepthWillDo(a, up, k.ni, k.prefix, depth);
    ArrivalOrderIrrelevant(a, b, up, k.ni, k.prefix, depth);
    T.AnyDepthWillDo(b, up, k.ni, k.prefix, depth);
  }

  /** What the data plane should hold depends on the table of routes only. */
  lemma ImageFromTable(a: Rib, b: Rib, up: set<Interface>)
    requires WellFormed(a) && WellFormed(b) && SameTable(a, b)
    ensures Desired(a, up) == Desired(b, up)
  {
    forall k ensures k in T.Nodes(a) <==> k in T.Nodes(b) {
      if k.ni in a.instances {
        SameTree(a, b, k.ni);
      }
    }
    assert T.Nodes(a) == T.Nodes(b);
    forall k | k in T.Nodes(a)
      ensures Usable(a, up, k) <==> Usable(b, up, k)
      ensures Usable(a, up, k) ==> T.EgressNexthops(a, up, k.ni, k.prefix).nexthops == T.EgressNexthops(b, up, k.ni, k.prefix).nexthops
    {
      if Usable(a, up, k) {
        SameEgress(a, b, up, k);
      } else if Usable(b, up, k) {
        SameEgress(b, a, up, k);
      }
    }
  }

  /** Two fault-free histories that end with the same table and link states end with the same data plane. */
  lemma HistoryIrrelevant(name: string, xs: seq<Event>, ys: seq<Event>)
    requires NoFaults(xs) && NoFaults(ys)
    requires Run(Initial(name), xs).Next? && Run(Initial(name), ys).Next?
    requires SameTable(Run(Initial(name), xs).state.rib, Run(Initial(name), ys).state.rib)
    requires Run(Initial(name), xs).state.interfaces == Run(Initial(name), ys).state.interfaces
    ensures Run(Initial(name), xs).state.dataplane == Run(Initial(name), ys).state.dataplane
  {
    FaultFreeRunIsExact(name, xs);
    FaultFreeRunIsExact(name, ys);
    RunKeepsTrees(name, xs);
    RunKeepsTrees(name, ys);
    var a, b := Run(Initial(name), xs).state, Run(Initial(name), ys).state;
    ImageFromTable(a.rib, b.rib, Up(a.interfaces));
  }

  // ---------------------------------------------------------------------
  // A run that crashes
  // ---------------------------------------------------------------------

  const PORT := Interface("eth0", 1, 0)
  const TEXT := PrefixText(V4, Zeros(32), 8)
  const SUBNET := Prefix(V4, Zeros(32)[..8])
  const ROUTE := Route(TEXT, Some(PORT), [], Preference(0, 0))
  const KEY := T.Node("DEFAULT", SUBNET)
  const WITH_ROUTE := Rib(map["DEFAULT" := map[SUBNET := [ROUTE]]], "DEFAULT", map[])
  const WITHOUT_ROUTE := Rib(map["DEFAULT" := map[]], "DEFAULT", map[])

  lemma NoHopsNoCycle(rib: Rib)
    requires forall ni, p, r :: ni in rib.instances && p in rib.instances[ni] && r in rib.instances[ni][p] ==> r.connected.Some?
    ensures T.Acyclic(rib) && forall up :: Recalculates(rib, up)
  {
    forall path ensures !T.IsCycle(rib, path) {
      assert |path| >= 2 ==> !T.Edge(rib, path[0], path[1]);
    }
    forall up ensures Recalculates(rib, up) {
      AcyclicRecalculates(rib, up);
    }
  }

  lemma SubnetResolves(up: set<Interface>)
    requires up == {PORT}
    ensures Desired(WITH_ROUTE, up) == map[KEY := {ConnectedHop("DEFAULT", SUBNET, PORT)}]
  {
    assert T.Nodes(WITH_ROUTE) == {KEY};
    SubnetOutcome(up, 1);
    T.AnyDepthWillDo(WITH_ROUTE, up, "DEFAULT", SUBNET, 2);
  }

  lemma SubnetOutcome(up: set<Interface>, depth: nat)
    requires up == {PORT}
    ensures Resolve(WITH_ROUTE, up, "DEFAULT", SUBNET, depth + 1) == Resolved({ConnectedHop("DEFAULT", SUBNET, PORT)}, Some(ROUTE))
  {
    DeepestUnique(WITH_ROUTE.instances["DEFAULT"], SUBNET, SUBNET);
    var es := {ConnectedHop("DEFAULT", SUBNET, PORT)};
    assert ResolveRoute(WITH_ROUTE, up, "DEFAULT", SUBNET, ROUTE, depth) == Contributed([es]);
    assert [ROUTE][..0] == [];
    assert ResolveRoutes(WITH_ROUTE, up, "DEFAULT", SUBNET, [ROUTE], depth) == Contributed([es]);
    assert [es][..0] == [];
    assert Best([ROUTE], [es]) == Some(ROUTE.pref);
    assert Merged([ROUTE], [es], ROUTE.pref) == es;
  }

  lemma AddingSubnet()
    ensures SysRib.SetRoute(WITHOUT_ROUTE, "DEFAULT", ROUTE, false) == Some(WITH_ROUTE)
  {
    assert Canonical(TEXT) == Some(SUBNET);
    var empty: Tree := map[];
    assert TreeDelete(empty, SUBNET, ROUTE) == empty;
    assert Tags(empty, SUBNET) + [ROUTE] == [ROUTE];
    assert TreeAdd(empty, SUBNET, ROUTE) == map[SUBNET := [ROUTE]];
    assert WITHOUT_ROUTE.instances["DEFAULT" := map[SUBNET := [ROUTE]]] == WITH_ROUTE.instances;
  }

  lemma DeletingSubnet()
    ensures SysRib.SetRoute(WITH_ROUTE, "DEFAULT", ROUTE, true) == Some(WITHOUT_ROUTE)
  {
    assert Canonical(TEXT) == Some(SUBNET);
    assert RouteKeyMatches(ROUTE, ROUTE);
    assert [ROUTE][1..] == [];
    assert Without([ROUTE], ROUTE) == [];
    var tree: Tree := map[SUBNET := [ROUTE]];
    assert TreeDelete(tree, SUBNET, ROUTE) == map[];
    assert WITH_ROUTE.instances["DEFAULT" := map[]] == WITHOUT_ROUTE.instances;
  }

  const UP := map[PORT := true]

  lemma LinkComesUp() returns (s: State)
    ensures Step(Initial("DEFAULT"), SetInterface(PORT, true), NO_FAULTS) == Next(s)
    ensures s.rib == WITHOUT_ROUTE && s.interfaces == UP && s.programmed == map[] && s.resolved == map[]
  {
    s := Initial("DEFAULT").(interfaces := UP);
    assert Initial("DEFAULT").interfaces[PORT := true] == UP;
    NoHopsNoCycle(WITHOUT_ROUTE);
    NothingDesired();
    ExactStateIsQuiet(s, NO_FAULTS);
  }

  lemma NothingDesired()
    ensures Desired(WITHOUT_ROUTE, Up(UP)) == map[] && Originals(WITHOUT_ROUTE, Up(UP)) == map[]
  {
    assert T.Nodes(WITHOUT_ROUTE) == {};
  }

  lemma SubnetIsProgrammed(s: State) returns (s': State)
    requires s.rib == WITHOUT_ROUTE && s.interfaces == UP && s.programmed == map[] && s.resolved == map[]
    ensures Step(s, RibServer.SetRoute("DEFAULT", ROUTE, false), NO_FAULTS) == Next(s')
    ensures s'.rib == WITH_ROUTE && s'.interfaces == UP && s'.programmed.Keys == {KEY} && s'.resolved.Keys == {KEY}
  {
    AddingSubnet();
    NoHopsNoCycle(WITH_ROUTE);
    var mid := s.(rib := WITH_ROUTE);
    assert Stale(mid) == {};
    CrashExactlyWhen(mid, NO_FAULTS);
    FaultFreePassIsExact(mid);
    assert Up(UP) == {PORT};
    SubnetResolves({PORT});
    s' := Pass(mid, NO_FAULTS).state;
    assert s'.resolved.Keys == Desired(WITH_ROUTE, {PORT}).Keys;
  }

  lemma DeletionIsRefused(s: State) returns (mid: State, s': State)
    requires s.rib == WITH_ROUTE && s.interfaces == UP && s.programmed.Keys == {KEY} && s.resolved.Keys == {KEY}
    ensures mid == s.(rib := WITHOUT_ROUTE)
    ensures Pass(mid, Faults({}, {KEY})) == Done(s')
    ensures Step(s, RibServer.SetRoute("DEFAULT", ROUTE, true), Faults({}, {KEY})) == Next(s')
  {
    DeletingSubnet();
    NoHopsNoCycle(WITHOUT_ROUTE);
    mid := s.(rib := WITHOUT_ROUTE);
    assert Stale(mid) == {};
    CrashExactlyWhen(mid, Faults({}, {KEY}));
    s' := Pass(mid, Faults({}, {KEY})).state;
  }

  lemma DeletionIsRetried(mid: State, s: State)
    requires mid.rib == WITHOUT_ROUTE && mid.interfaces == UP && mid.programmed.Keys == {KEY}
    requires Pass(mid, Faults({}, {KEY})) == Done(s)
    ensures Step(s, SetInterface(PORT, true), NO_FAULTS).Crashes?
  {
    NothingDesired();
    NoHopsNoCycle(WITHOUT_ROUTE);
    var last := s.(interfaces := s.interfaces[PORT := true]);
    assert last.interfaces == UP;
    RetriedDeprogramCrashes(mid, Faults({}, {KEY}), last, NO_FAULTS, KEY);
  }

  /**
   * A crash is reachable: a link comes up, a connected route is added and deleted while the
   * data plane refuses the deletion, and the next recalculation dereferences nil.
   */
  lemma CrashIsReachable()
    ensures var add := Event(RibServer.SetRoute("DEFAULT", ROUTE, false), NO_FAULTS);
            var del := Event(RibServer.SetRoute("DEFAULT", ROUTE, true), Faults({}, {KEY}));
            var link := Event(SetInterface(PORT, true), NO_FAULTS);
            Run(Initial("DEFAULT"), [link, add, del, link]).Crashes?
  {
    var add := Event(RibServer.SetRoute("DEFAULT", ROUTE, false), NO_FAULTS);
    var del := Event(RibServer.SetRoute("DEFAULT", ROUTE, true), Faults({}, {KEY}));
    var link := Event(SetInterface(PORT, true), NO_FAULTS);
    var s1 := LinkComesUp();
    var s2 := SubnetIsProgrammed(s1);
    var mid, s3 := DeletionIsRefused(s2);
    DeletionIsRetried(mid, s3);
    FourSteps(Initial("DEFAULT"), link, add, del, link, s1, s2, s3);
  }

  lemma FourSteps(s0: State, a: Event, b: Event, c: Event, d: Event, s1: State, s2: State, s3: State)
    requires Step(s0, a.op, a.faults) == Next(s1)
    requires Step(s1, b.op, b.faults) == Next(s2)
    requires Step(s2, c.op, c.faults) == Next(s3)
    ensures Run(s0, [a, b, c, d]) == Step(s3, d.op, d.faults)
  {
    assert [a][..0] == [];
    OneMoreStep(s0, [], a, s0);
    assert [] + [a] == [a];
    OneMoreStep(s0, [a], b, s1);
    assert [a] + [b] == [a, b];
    OneMoreStep(s0, [a, b], c, s2);
    assert [a, b] + [c] == [a, b, c];
    OneMoreStep(s0, [a, b, c], d, s3);
    assert [a, b, c] + [d] == [a, b, c, d];
  }

  lemma OneMoreStep(s0: State, events: seq<Event>, e: Event, st: State)
    requires Run(s0, events) == Next(st)
    ensures Run(s0, events + [e]) == Step(st, e.op, e.faults)
  {
    assert (events + [e])[..|events|] == events;
  }
}
