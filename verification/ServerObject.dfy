/** The Server object of sysrib/server.go, with its loops, proved against the recalculation of RibServer. */
module ServerObject {
  import opened Wrappers
  import opened Net
  import opened SysRib
  import opened Resolver
  import opened RibObject
  import opened RibServer
  import T = Termination

  /** The forwarding plane behind gNMI: a call either takes effect or fails without one. */
  class DataPlane {
    var routes: Image

    constructor ()
      ensures routes == map[]
    {
      routes := map[];
    }

    method ProgramRoute(k: RouteKey, es: set<Egress>, fails: bool) returns (ok: bool)
      modifies this
      ensures ok == !fails
      ensures routes == if ok then old(routes)[k := es] else old(routes)
    {
      if !fails {
        routes := routes[k := es];
      }
      return !fails;
    }

    method DeprogramRoute(k: RouteKey, fails: bool) returns (ok: bool)
      modifies this
      ensures ok == !fails
      ensures routes == if ok then old(routes) - {k} else old(routes)
    {
      if !fails {
        routes := routes - {k};
      }
      return !fails;
    }
  }

  /** The part of the calls, and of the original routes, that concerns the prefixes visited so far. */
  ghost function SentFor(programmed: Image, desired: Image, f: Faults, seen: set<RouteKey>): Image {
    map k | k in ProgramCalls(programmed, desired) * seen - f.program :: desired[k]
  }

  ghost function OriginalsFor(rib: Rib, up: set<Interface>, seen: set<RouteKey>): map<RouteKey, Route> {
    map k | k in T.Nodes(rib) * seen && Usable(rib, up, k) :: Original(rib, up, k)
  }

  /** The invariant of the programming loop. */
  ghost predicate Visited(start: State, f: Faults, seen: set<RouteKey>, programmed: Image, dataplane: Image, origins: map<RouteKey, Route>) {
    var up := Up(start.interfaces);
    var sent := SentFor(start.programmed, Desired(start.rib, up), f, seen);
    && programmed == start.programmed + sent
    && dataplane == start.dataplane + sent
    && origins == OriginalsFor(start.rib, up, seen)
  }

  lemma SentUnchanged(programmed: Image, desired: Image, f: Faults, seen: set<RouteKey>, k: RouteKey)
    requires k in desired ==> UpToDate(programmed, k, desired[k]) || k in f.program
    ensures SentFor(programmed, desired, f, seen + {k}) == SentFor(programmed, desired, f, seen)
  {
    assert ProgramCalls(programmed, desired) * (seen + {k}) - f.program == ProgramCalls(programmed, desired) * seen - f.program;
  }

  lemma SentGrows(programmed: Image, desired: Image, f: Faults, seen: set<RouteKey>, k: RouteKey)
    requires k in desired && !UpToDate(programmed, k, desired[k]) && k !in f.program
    ensures SentFor(programmed, desired, f, seen + {k}) == SentFor(programmed, desired, f, seen)[k := desired[k]]
  {
    assert ProgramCalls(programmed, desired) * (seen + {k}) - f.program == ProgramCalls(programmed, desired) * seen - f.program + {k};
  }

  lemma OriginalsGrow(rib: Rib, up: set<Interface>, seen: set<RouteKey>, k: RouteKey)
    requires k in T.Nodes(rib)
    ensures OriginalsFor(rib, up, seen + {k}) ==
            if Usable(rib, up, k) then OriginalsFor(rib, up, seen)[k := Original(rib, up, k)] else OriginalsFor(rib, up, seen)
  {
  }

  lemma VisitUnresolved(start: State, f: Faults, seen: set<RouteKey>, programmed: Image, dataplane: Image, origins: map<RouteKey, Route>, k: RouteKey)
    requires Visited(start, f, seen, programmed, dataplane, origins)
    requires k in T.Nodes(start.rib) && !Usable(start.rib, Up(start.interfaces), k)
    ensures Visited(start, f, seen + {k}, programmed, dataplane, origins)
  {
    var up := Up(start.interfaces);
    SentUnchanged(start.programmed, Desired(start.rib, up), f, seen, k);
    OriginalsGrow(start.rib, up, seen, k);
  }

  lemma VisitKept(start: State, f: Faults, seen: set<RouteKey>, programmed: Image, dataplane: Image, origins: map<RouteKey, Route>, k: RouteKey)
    requires Visited(start, f, seen, programmed, dataplane, origins)
    requires k in T.Nodes(start.rib) && Usable(start.rib, Up(start.interfaces), k)
    requires UpToDate(start.programmed, k, Desired(start.rib, Up(start.interfaces))[k]) || k in f.program
    ensures Visited(start, f, seen + {k}, programmed, dataplane, origins[k := Original(start.rib, Up(start.interfaces), k)])
  {
    var up := Up(start.interfaces);
    SentUnchanged(start.programmed, Desired(start.rib, up), f, seen, k);
    OriginalsGrow(start.rib, up, seen, k);
  }

  lemma VisitProgrammed(start: State, f: Faults, seen: set<RouteKey>, programmed: Image, dataplane: Image, origins: map<RouteKey, Route>, k: RouteKey)
    requires Visited(start, f, seen, programmed, dataplane, origins)
    requires k in T.Nodes(start.rib) && Usable(start.rib, Up(start.interfaces), k)
    requires !UpToDate(start.programmed, k, Desired(start.rib, Up(start.interfaces))[k]) && k !in f.program
    ensures var es := Desired(start.rib, Up(start.interfaces))[k];
            Visited(start, f, seen + {k}, programmed[k := es], dataplane[k := es], origins[k := Original(start.rib, Up(start.interfaces), k)])
  {
    var up := Up(start.interfaces);
    var desired := Desired(start.rib, up);
    var sent := SentFor(start.programmed, desired, f, seen);
    SentGrows(start.programmed, desired, f, seen, k);
    OriginalsGrow(start.rib, up, seen, k);
    UpdateLast(start.programmed, sent, k, desired[k]);
    UpdateLast(start.dataplane, sent, k, desired[k]);
  }

  lemma UpdateLast(a: Image, b: Image, k: RouteKey, es: set<Egress>)
    ensures (a + b)[k := es] == a + b[k := es]
  {
  }

  /** A prefix that is not visited yet still has its old entry. */
  lemma NotVisitedYet(start: State, f: Faults, seen: set<RouteKey>, programmed: Image, dataplane: Image, origins: map<RouteKey, Route>, k: RouteKey, es: set<Egress>)
    requires Visited(start, f, seen, programmed, dataplane, origins)
    requires k !in seen
    ensures UpToDate(programmed, k, es) == UpToDate(start.programmed, k, es)
  {
  }

  /** A prefix that resolves: kept, refused or programmed. */
  lemma VisitResolved(start: State, f: Faults, seen: set<RouteKey>, programmed: Image, dataplane: Image, origins: map<RouteKey, Route>, k: RouteKey, sent: bool)
    requires Visited(start, f, seen, programmed, dataplane, origins) && k !in seen
    requires k in T.Nodes(start.rib) && Usable(start.rib, Up(start.interfaces), k)
    requires sent <==> !UpToDate(programmed, k, Desired(start.rib, Up(start.interfaces))[k]) && k !in f.program
    ensures var es := Desired(start.rib, Up(start.interfaces))[k];
            Visited(start, f, seen + {k}, if sent then programmed[k := es] else programmed, if sent then dataplane[k := es] else dataplane,
                    origins[k := Original(start.rib, Up(start.interfaces), k)])
  {
    NotVisitedYet(start, f, seen, programmed, dataplane, origins, k, Desired(start.rib, Up(start.interfaces))[k]);
    if sent {
      VisitProgrammed(start, f, seen, programmed, dataplane, origins, k);
    } else {
      VisitKept(start, f, seen, programmed, dataplane, origins, k);
    }
  }

  /** The same in terms of what a lookup returns. */
  lemma VisitOutcome(start: State, f: Faults, seen: set<RouteKey>, programmed: Image, dataplane: Image, origins: map<RouteKey, Route>, k: RouteKey, o: Outcome)
    requires Visited(start, f, seen, programmed, dataplane, origins) && k !in seen && k in T.Nodes(start.rib)
    requires o == T.EgressNexthops(start.rib, Up(start.interfaces), k.ni, k.prefix) && o.Resolved? && o.nexthops != {}
    ensures o.route.Some?
    ensures var sent := !UpToDate(programmed, k, o.nexthops) && k !in f.program;
            Visited(start, f, seen + {k}, if sent then programmed[k := o.nexthops] else programmed,
                    if sent then dataplane[k := o.nexthops] else dataplane, origins[k := o.route.value])
  {
    UsableHasRoute(start.rib, Up(start.interfaces), k);
    VisitResolved(start, f, seen, programmed, dataplane, origins, k, !UpToDate(programmed, k, o.nexthops) && k !in f.program);
  }

  lemma AllVisited(start: State, f: Faults, programmed: Image, dataplane: Image, origins: map<RouteKey, Route>)
    requires Visited(start, f, T.Nodes(start.rib), programmed, dataplane, origins)
    ensures var desired := Desired(start.rib, Up(start.interfaces));
            && programmed == start.programmed + Sent(start.programmed, desired, f)
            && dataplane == start.dataplane + Sent(start.programmed, desired, f)
            && origins == Originals(start.rib, Up(start.interfaces))
            && origins.Keys == desired.Keys
            && programmed.Keys - origins.Keys == DeprogramCalls(start.programmed, desired)
  {
    var up := Up(start.interfaces);
    var desired := Desired(start.rib, up);
    assert ProgramCalls(start.programmed, desired) * T.Nodes(start.rib) == ProgramCalls(start.programmed, desired);
    assert SentFor(start.programmed, desired, f, T.Nodes(start.rib)) == Sent(start.programmed, desired, f);
    assert OriginalsFor(start.rib, up, T.Nodes(start.rib)) == Originals(start.rib, up);
  }

  class Server {
    const rib: SysRIB
    const dataplane: DataPlane
    var interfaces: map<Interface, bool>
    var programmed: Image
    var resolved: map<RouteKey, Route>

    ghost function View(): State
      reads this, rib, dataplane
    {
      State(rib.Value(), interfaces, programmed, resolved, dataplane.routes)
    }

    constructor (defaultInstance: string)
      ensures View() == Initial(defaultInstance)
      ensures fresh(rib) && fresh(dataplane)
    {
      rib := new SysRIB(defaultInstance);
      dataplane := new DataPlane();
      interfaces, programmed, resolved := map[], map[], map[];
    }

    /** ResolveAndProgramDiff. `crashed` reports the nil dereference in distributeRoute. */
    method ResolveAndProgramDiff(f: Faults) returns (crashed: bool)
      requires Recalculates(rib.Value(), Up(interfaces))
      modifies this, dataplane
      ensures rib.Value() == old(rib.Value()) && interfaces == old(interfaces)
      ensures crashed <==> Pass(old(View()), f).Crash?
      ensures !crashed ==> View() == Pass(old(View()), f).state
    {
      ghost var start := View();
      var newResolved := ProgramChanged(f);
      AllVisited(start, f, programmed, dataplane.routes, newResolved);
      crashed := DeprogramUnresolved(f, newResolved);
      if !crashed {
        resolved := newResolved;
      }
    }

    /** The loops over the prefixes of the RIB: resolve each one, and program it if it has changed. */
    method ProgramChanged(f: Faults) returns (newResolved: map<RouteKey, Route>)
      requires Recalculates(rib.Value(), Up(interfaces))
      modifies this`programmed, dataplane
      ensures Visited(old(View()), f, T.Nodes(old(rib.Value())), programmed, dataplane.routes, newResolved)
    {
      ghost var start := View();
      newResolved := map[];
      var todo := set ni, p | ni in rib.instances && p in rib.instances[ni] :: T.Node(ni, p);
      assert todo == T.Nodes(start.rib);
      assert Visited(start, f, {}, programmed, dataplane.routes, newResolved) by {
        assert SentFor(start.programmed, Desired(start.rib, Up(start.interfaces)), f, {}) == map[];
        assert OriginalsFor(start.rib, Up(start.interfaces), {}) == map[];
        assert start.programmed + map[] == start.programmed;
        assert start.dataplane + map[] == start.dataplane;
      }
      while todo != {}
        invariant todo <= T.Nodes(start.rib)
        invariant rib.Value() == start.rib && interfaces == start.interfaces
        invariant Visited(start, f, T.Nodes(start.rib) - todo, programmed, dataplane.routes, newResolved)
        decreases todo
      {
        var k :| k in todo;
        ghost var seen := T.Nodes(start.rib) - todo;
        newResolved := ResolveOne(f, k, newResolved, start, seen);
        assert T.Nodes(start.rib) - (todo - {k}) == seen + {k};
        todo := todo - {k};
      }
      assert T.Nodes(start.rib) - todo == T.Nodes(start.rib);
    }

    /** resolveAndProgramDiffAux. */
    method ResolveOne(f: Faults, k: RouteKey, known: map<RouteKey, Route>, ghost start: State, ghost seen: set<RouteKey>)
      returns (newResolved: map<RouteKey, Route>)
      requires rib.Value() == start.rib && interfaces == start.interfaces && Recalculates(start.rib, Up(start.interfaces))
      requires k in T.Nodes(start.rib) && k !in seen
      requires Visited(start, f, seen, programmed, dataplane.routes, known)
      modifies this`programmed, dataplane
      ensures rib.Value() == start.rib && interfaces == start.interfaces
      ensures Visited(start, f, seen + {k}, programmed, dataplane.routes, newResolved)
    {
      newResolved := known;
      var o := LookUp(k);
      if !o.Resolved? || o.nexthops == {} {
        VisitUnresolved(start, f, seen, programmed, dataplane.routes, known, k);
        return;
      }
      VisitOutcome(start, f, seen, programmed, dataplane.routes, known, k, o);
      newResolved := newResolved[k := o.route.value];
      if k !in programmed || programmed[k] != o.nexthops {
        ProgramOne(k, o.nexthops, k in f.program);
      }
    }

    /** The next hops of one prefix. */
    method LookUp(k: RouteKey) returns (o: Outcome)
      requires k in T.Nodes(rib.Value()) && Recalculates(rib.Value(), Up(interfaces))
      ensures o == T.EgressNexthops(rib.Value(), Up(interfaces), k.ni, k.prefix) && !o.Diverges?
    {
      ghost var depth: nat :| !Resolve(rib.Value(), Up(interfaces), k.ni, k.prefix, depth).Diverges?;
      T.AnyDepthWillDo(rib.Value(), Up(interfaces), k.ni, k.prefix, depth);
      o := rib.EgressNexthops(k.ni, k.prefix, interfaces, depth);
    }

    method ProgramOne(k: RouteKey, es: set<Egress>, fails: bool)
      modifies this`programmed, dataplane
      ensures programmed == if fails then old(programmed) else old(programmed)[k := es]
      ensures dataplane.routes == if fails then old(dataplane.routes) else old(dataplane.routes)[k := es]
    {
      var ok := dataplane.ProgramRoute(k, es, fails);
      if ok {
        programmed := programmed[k := es];
      }
    }

    /** The loop over the programmed prefixes that no longer resolve. */
    method DeprogramUnresolved(f: Faults, newResolved: map<RouteKey, Route>) returns (crashed: bool)
      modifies this`programmed, dataplane
      ensures var gone := old(programmed).Keys - newResolved.Keys - f.deprogram;
              && (crashed <==> !(gone <= resolved.Keys))
              && (!crashed ==> programmed == old(programmed) - gone && dataplane.routes == old(dataplane.routes) - gone)
    {
      ghost var calls := programmed.Keys - newResolved.Keys;
      var todo := programmed.Keys - newResolved.Keys;
      while todo != {}
        invariant todo <= calls
        invariant programmed == old(programmed) - (calls - todo - f.deprogram)
        invariant dataplane.routes == old(dataplane.routes) - (calls - todo - f.deprogram)
        invariant calls - todo - f.deprogram <= resolved.Keys
        decreases todo
      {
        var k :| k in todo;
        var ok := dataplane.DeprogramRoute(k, k in f.deprogram);
        if ok {
          assert calls - (todo - {k}) - f.deprogram == (calls - todo - f.deprogram) + {k};
          programmed := programmed - {k};
          if k !in resolved {
            assert k in calls - f.deprogram;
            return true;
          }
        } else {
          assert calls - (todo - {k}) - f.deprogram == calls - todo - f.deprogram;
        }
        todo := todo - {k};
      }
      assert calls - todo - f.deprogram == calls - f.deprogram;
      return false;
    }

    /** setRoute, the entry point of every routing client. */
    method SetRoute(ni: string, r: Route, isDelete: bool, f: Faults) returns (ok: bool, crashed: bool)
      requires !Step(View(), RibServer.SetRoute(ni, r, isDelete), f).Hangs?
      modifies this, rib, dataplane
      ensures ok <==> Change(old(View()), RibServer.SetRoute(ni, r, isDelete)).Some?
      ensures crashed <==> Step(old(View()), RibServer.SetRoute(ni, r, isDelete), f).Crashes?
      ensures !crashed ==> Step(old(View()), RibServer.SetRoute(ni, r, isDelete), f) == Next(View())
    {
      ok := rib.SetRoute(ni, r, isDelete);
      crashed := false;
      if ok {
        crashed := ResolveAndProgramDiff(f);
      }
    }

    /** setInterface, driven by link state. */
    method SetInterface(port: Interface, enabled: bool, f: Faults) returns (crashed: bool)
      requires !Step(View(), RibServer.SetInterface(port, enabled), f).Hangs?
      modifies this, dataplane
      ensures crashed <==> Step(old(View()), RibServer.SetInterface(port, enabled), f).Crashes?
      ensures !crashed ==> Step(old(View()), RibServer.SetInterface(port, enabled), f) == Next(View())
    {
      interfaces := interfaces[port := enabled];
      crashed := ResolveAndProgramDiff(f);
    }

    /** setGUEPolicy. */
    method SetGUEPolicy(prefix: PrefixText, policy: GUEPolicy, f: Faults) returns (ok: bool, crashed: bool)
      requires !Step(View(), RibServer.SetGUEPolicy(prefix, policy), f).Hangs?
      modifies this, rib, dataplane
      ensures ok <==> Change(old(View()), RibServer.SetGUEPolicy(prefix, policy)).Some?
      ensures crashed <==> Step(old(View()), RibServer.SetGUEPolicy(prefix, policy), f).Crashes?
      ensures !crashed ==> Step(old(View()), RibServer.SetGUEPolicy(prefix, policy), f) == Next(View())
    {
      ok := rib.SetGUEPolicy(prefix, policy);
      crashed := false;
      if ok {
        crashed := ResolveAndProgramDiff(f);
      }
    }

    /** deleteGUEPolicy. */
    method DeleteGUEPolicy(prefix: PrefixText, f: Faults) returns (ok: bool, crashed: bool)
      requires !Step(View(), RibServer.DeleteGUEPolicy(prefix), f).Hangs?
      modifies this, rib, dataplane
      ensures ok <==> Change(old(View()), RibServer.DeleteGUEPolicy(prefix)).Some?
      ensures crashed <==> Step(old(View()), RibServer.DeleteGUEPolicy(prefix), f).Crashes?
      ensures !crashed ==> Step(old(View()), RibServer.DeleteGUEPolicy(prefix), f) == Next(View())
    {
      var deleted;
      ok, deleted := rib.DeleteGUEPolicy(prefix);
      crashed := false;
      if ok {
        crashed := ResolveAndProgramDiff(f);
      }
    }
  }
}
