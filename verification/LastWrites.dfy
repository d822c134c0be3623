/** What a run of the RIB manager ends with, in terms of the operations it was given. */
module LastWrites {
  import opened Wrappers
  import opened Net
  import opened SysRib
  import opened Resolver
  import opened Resolution
  import opened RibObject
  import opened RibServer
  import opened Convergence
  import T = Termination

  // ---------------------------------------------------------------------
  // Routes
  // ---------------------------------------------------------------------

  /** The route additions and deletions among the operations. */
  function RouteOps(events: seq<Event>): seq<RouteOp> {
    if events == [] then []
    else
      var op := events[|events| - 1].op;
      RouteOps(events[..|events| - 1]) + (if op.SetRoute? then [RouteOp(op.ni, op.route, op.isDelete)] else [])
  }

  lemma StepRoutes(st: State, op: Op, f: Faults)
    requires Step(st, op, f).Next?
    ensures op.SetRoute? ==> Step(st, op, f).state.rib == ApplyOp(st.rib, RouteOp(op.ni, op.route, op.isDelete))
    ensures !op.SetRoute? ==> Step(st, op, f).state.rib.(policies := st.rib.policies) == st.rib
  {
  }

  lemma {:induction false} RunAppliesRoutes(name: string, events: seq<Event>)
    requires Run(Initial(name), events).Next?
    ensures var rib := Run(Initial(name), events).state.rib;
            rib.(policies := map[]) == ApplyOps(Initial(name).rib, RouteOps(events))
    decreases |events|
  {
    if events != [] {
      var n := |events| - 1;
      var before, op := Run(Initial(name), events[..n]).state, events[n].op;
      RunAppliesRoutes(name, events[..n]);
      StepRoutes(before, op, events[n].faults);
      SetRouteKeepsRest(Initial(name).rib, RouteOps(events[..n]));
      if op.SetRoute? {
        var r := RouteOp(op.ni, op.route, op.isDelete);
        OneMoreOp(Initial(name).rib, RouteOps(events[..n]), r);
        PoliciesApart(before.rib, map[], r);
      } else {
        assert RouteOps(events) == RouteOps(events[..n]);
        var rib := Run(Initial(name), events).state.rib;
        assert rib.(policies := before.rib.policies).(policies := map[]) == rib.(policies := map[]);
      }
    }
  }

  lemma OneMoreOp(rib: Rib, ops: seq<RouteOp>, op: RouteOp)
    ensures ApplyOps(rib, ops + [op]) == ApplyOp(ApplyOps(rib, ops), op)
  {
    assert (ops + [op])[..|ops|] == ops;
  }

  lemma PoliciesApart(rib: Rib, policies: map<Prefix, GUEPolicy>, op: RouteOp)
    ensures ApplyOp(rib, op).(policies := policies) == ApplyOp(rib.(policies := policies), op)
  {
  }

  /** After every run the RIB has one instance, and at every key the route that was last added there, unless it was deleted since. */
  lemma RoutesAreLastWrites(name: string, events: seq<Event>, k: Key)
    requires Run(Initial(name), events).Next?
    ensures var rib := Run(Initial(name), events).state.rib;
            && rib.defaultInstance == name && rib.instances.Keys == {name}
            && Lookup(rib, k) == LastWrite({name}, RouteOps(events), k, None)
  {
    var rib := Run(Initial(name), events).state.rib;
    RunAppliesRoutes(name, events);
    TreeRefinesTable(Initial(name).rib, RouteOps(events), k);
    SetRouteKeepsRest(Initial(name).rib, RouteOps(events));
    assert Initial(name).rib.instances.Keys == {name};
    assert Lookup(Initial(name).rib, k) == None;
  }

  // ---------------------------------------------------------------------
  // GUE policies
  // ---------------------------------------------------------------------

  /** The policy last set for a prefix, unless it was deleted since. */
  function LastPolicy(events: seq<Event>, p: Prefix): Option<GUEPolicy> {
    if events == [] then None
    else
      match events[|events| - 1].op
      case SetGUEPolicy(prefix, policy) =>
        if Canonical(prefix) == Some(p) then Some(policy) else LastPolicy(events[..|events| - 1], p)
      case DeleteGUEPolicy(prefix) =>
        if Canonical(prefix) == Some(p) then None else LastPolicy(events[..|events| - 1], p)
      case _ => LastPolicy(events[..|events| - 1], p)
  }

  function At(policies: map<Prefix, GUEPolicy>, p: Prefix): Option<GUEPolicy> {
    if p in policies then Some(policies[p]) else None
  }

  lemma StepPolicies(st: State, op: Op, f: Faults, p: Prefix)
    requires Step(st, op, f).Next?
    ensures At(Step(st, op, f).state.rib.policies, p) ==
            match op
            case SetGUEPolicy(prefix, policy) => if Canonical(prefix) == Some(p) then Some(policy) else At(st.rib.policies, p)
            case DeleteGUEPolicy(prefix) => if Canonical(prefix) == Some(p) then None else At(st.rib.policies, p)
            case _ => At(st.rib.policies, p)
  {
  }

  lemma {:induction false} PoliciesAreLastWrites(name: string, events: seq<Event>, p: Prefix)
    requires Run(Initial(name), events).Next?
    ensures At(Run(Initial(name), events).state.rib.policies, p) == LastPolicy(events, p)
    decreases |events|
  {
    if events != [] {
      var n := |events| - 1;
      PoliciesAreLastWrites(name, events[..n], p);
      StepPolicies(Run(Initial(name), events[..n]).state, events[n].op, events[n].faults, p);
    }
  }

  // ---------------------------------------------------------------------
  // The routes that are redistributed
  // ---------------------------------------------------------------------

  lemma StepRecords(st: State, op: Op, f: Faults)
    requires Step(st, op, f).Next? && st.resolved == Originals(st.rib, Up(st.interfaces))
    ensures var after := Step(st, op, f).state;
            after.resolved == Originals(after.rib, Up(after.interfaces))
  {
  }

  lemma {:induction false} RunRecords(name: string, events: seq<Event>)
    requires Run(Initial(name), events).Next?
    ensures var st := Run(Initial(name), events).state;
            st.resolved == Originals(st.rib, Up(st.interfaces))
    decreases |events|
  {
    if events == [] {
      assert T.Nodes(Initial(name).rib) == {};
    } else {
      var n := |events| - 1;
      RunRecords(name, events[..n]);
      StepRecords(Run(Initial(name), events[..n]).state, events[n].op, events[n].faults);
    }
  }

  /** No matched route that leads anywhere has a lower admin distance than r, or the same and a lower metric. */
  ghost predicate Best(rib: Rib, up: set<Interface>, k: RouteKey, depth: nat, r: Route) {
    forall r', e' :: r' in Matched(rib, k.ni, k.prefix) && LeavesBy(rib, up, Instance(rib, k.ni), k.prefix, r', depth, e') ==> NoWorse(r.pref, r'.pref)
  }

  lemma ReturnedIsBest(rib: Rib, up: set<Interface>, k: RouteKey, depth: nat)
    requires Resolve(rib, up, k.ni, k.prefix, depth + 1).Resolved? && Resolve(rib, up, k.ni, k.prefix, depth + 1).route.Some?
    ensures Best(rib, up, k, depth, Resolve(rib, up, k.ni, k.prefix, depth + 1).route.value)
  {
    var r := Resolve(rib, up, k.ni, k.prefix, depth + 1).route.value;
    forall r', e' | r' in Matched(rib, k.ni, k.prefix) && LeavesBy(rib, up, Instance(rib, k.ni), k.prefix, r', depth, e')
      ensures NoWorse(r.pref, r'.pref)
    {
      var i := LowestDistanceFirst(rib, up, k.ni, k.prefix, depth, r', e');
    }
  }

  lemma OriginalIsBest(rib: Rib, up: set<Interface>, k: RouteKey) returns (depth: nat)
    requires Usable(rib, up, k)
    ensures Original(rib, up, k) in Matched(rib, k.ni, k.prefix) && Best(rib, up, k, depth, Original(rib, up, k))
  {
    var d: nat :| !Resolve(rib, up, k.ni, k.prefix, d).Diverges?;
    T.AnyDepthWillDo(rib, up, k.ni, k.prefix, d);
    UsableHasRoute(rib, up, k);
    depth := d - 1;
    var e :| e in Resolve(rib, up, k.ni, k.prefix, d).nexthops;
    var source := SourceRoute(rib, up, k.ni, k.prefix, depth, e);
    ReturnedIsBest(rib, up, k, depth);
  }

  /**
   * Over every run the route recorded for a prefix, which is what is redistributed, is one of the routes matched there,
   * and the best of those that lead anywhere.
   */
  lemma RecordedRouteIsBest(name: string, events: seq<Event>, k: RouteKey) returns (depth: nat)
    requires Run(Initial(name), events).Next? && k in Run(Initial(name), events).state.resolved
    ensures var st := Run(Initial(name), events).state;
            st.resolved[k] in Matched(st.rib, k.ni, k.prefix) && Best(st.rib, Up(st.interfaces), k, depth, st.resolved[k])
  {
    RunRecords(name, events);
    var st := Run(Initial(name), events).state;
    depth := OriginalIsBest(st.rib, Up(st.interfaces), k);
  }

  // ---------------------------------------------------------------------
  // The data plane
  // ---------------------------------------------------------------------

  /** The two histories wrote the same last at every route key, link and policy prefix. */
  ghost predicate SameLastWrites(name: string, xs: seq<Event>, ys: seq<Event>) {
    && (forall k :: LastWrite({name}, RouteOps(xs), k, None) == LastWrite({name}, RouteOps(ys), k, None))
    && (forall port :: LastLink(xs, port) == LastLink(ys, port))
    && (forall p :: LastPolicy(xs, p) == LastPolicy(ys, p))
  }

  lemma SameRibs(name: string, xs: seq<Event>, ys: seq<Event>)
    requires Run(Initial(name), xs).Next? && Run(Initial(name), ys).Next? && SameLastWrites(name, xs, ys)
    ensures SameTable(Run(Initial(name), xs).state.rib, Run(Initial(name), ys).state.rib)
  {
    var a, b := Run(Initial(name), xs).state.rib, Run(Initial(name), ys).state.rib;
    forall k ensures a.defaultInstance == b.defaultInstance && a.instances.Keys == b.instances.Keys && Lookup(a, k) == Lookup(b, k) {
      RoutesAreLastWrites(name, xs, k);
      RoutesAreLastWrites(name, ys, k);
    }
    RoutesAreLastWrites(name, xs, Key("", Prefix(V4, []), 0, None));
    RoutesAreLastWrites(name, ys, Key("", Prefix(V4, []), 0, None));
    forall p ensures At(a.policies, p) == At(b.policies, p) {
      PoliciesAreLastWrites(name, xs, p);
      PoliciesAreLastWrites(name, ys, p);
    }
    SamePolicies(a.policies, b.policies);
  }

  lemma SamePolicies(a: map<Prefix, GUEPolicy>, b: map<Prefix, GUEPolicy>)
    requires forall p :: At(a, p) == At(b, p)
    ensures a == b
  {
    forall p ensures p in a <==> p in b {
      assert At(a, p) == At(b, p);
    }
    forall p | p in a ensures a[p] == b[p] {
      assert At(a, p) == At(b, p);
    }
  }

  lemma SameLinks(name: string, xs: seq<Event>, ys: seq<Event>)
    requires Run(Initial(name), xs).Next? && Run(Initial(name), ys).Next? && SameLastWrites(name, xs, ys)
    ensures Run(Initial(name), xs).state.interfaces == Run(Initial(name), ys).state.interfaces
  {
    var a, b := Run(Initial(name), xs).state.interfaces, Run(Initial(name), ys).state.interfaces;
    forall port ensures (port in a <==> port in b) && (port in a ==> a[port] == b[port]) {
      LinksAreLastWrites(name, xs, port);
      LinksAreLastWrites(name, ys, port);
    }
  }

  /** After fault-free histories that end with the same writes the data plane is the same, whatever came before. */
  lemma OnlyLastWritesMatter(name: string, xs: seq<Event>, ys: seq<Event>)
    requires NoFaults(xs) && NoFaults(ys) && SameLastWrites(name, xs, ys)
    requires Run(Initial(name), xs).Next? && Run(Initial(name), ys).Next?
    ensures Run(Initial(name), xs).state.dataplane == Run(Initial(name), ys).state.dataplane
  {
    SameRibs(name, xs, ys);
    SameLinks(name, xs, ys);
    HistoryIrrelevant(name, xs, ys);
  }
}
