/**
 * What resolution means: a system of equations between queries, independent of
 * loops, depth and evaluation order, and the proof that egressNexthops computes
 * its solution.
 */
module Resolution {
  import opened Wrappers
  import opened Net
  import opened SysRib
  import opened Resolver

  // ---------------------------------------------------------------------
  // Reading the loops
  // ---------------------------------------------------------------------

  /** The nested lookup for one next hop; an unparsable address is an error. */
  function HopOutcome(rib: Rib, up: set<Interface>, hop: NextHop, depth: nat): Outcome {
    match HostPrefix(hop.address)
    case None => Fails
    case Some(host) => Resolve(rib, up, hop.networkInstance, host, depth)
  }

  predicate HopUsable(rib: Rib, up: set<Interface>, hop: NextHop, depth: nat) {
    var o := HopOutcome(rib, up, hop, depth);
    o.Resolved? && forall e :: e in o.nexthops ==> !HasGUE(e)
  }

  ghost predicate ViaHop(rib: Rib, up: set<Interface>, ip: Prefix, r: Route, hop: NextHop, depth: nat, e: Egress) {
    var o := HopOutcome(rib, up, hop, depth);
    && o.Resolved?
    && exists x :: x in o.nexthops && e == x.(gue := Encap(rib, r, HostPrefix(hop.address).value, ip))
  }

  lemma {:induction false} HopsMeaning(rib: Rib, up: set<Interface>, ip: Prefix, r: Route, hops: seq<NextHop>, depth: nat)
    ensures var c := ResolveHops(rib, up, ip, r, hops, depth);
            && (c.Contributed? <==> forall h :: h in hops ==> HopUsable(rib, up, h, depth))
            && (c.Contributed? ==> forall e :: e in c.sets[0] <==>
                  exists h :: h in hops && ViaHop(rib, up, ip, r, h, depth, e))
            && (c.Diverging? ==> exists h :: h in hops && HopOutcome(rib, up, h, depth).Diverges?)
            && (c.Failing? ==> exists h :: h in hops && !HopUsable(rib, up, h, depth) && !HopOutcome(rib, up, h, depth).Diverges?)
  {
    if hops != [] {
      var n := |hops| - 1;
      HopsMeaning(rib, up, ip, r, hops[..n], depth);
      assert hops[n] in hops;
      assert forall h :: h in hops <==> h in hops[..n] || h == hops[n];
      var c := ResolveHops(rib, up, ip, r, hops, depth);
      if c.Contributed? {
        var o := HopOutcome(rib, up, hops[n], depth);
        var gue := Encap(rib, r, HostPrefix(hops[n].address).value, ip);
        var before := ResolveHops(rib, up, ip, r, hops[..n], depth).sets[0];
        forall e ensures e in c.sets[0] <==> exists h :: h in hops && ViaHop(rib, up, ip, r, h, depth, e) {
          assert e in c.sets[0] <==> e in before || e in WithGUE(o.nexthops, gue);
          assert e in WithGUE(o.nexthops, gue) <==> ViaHop(rib, up, ip, r, hops[n], depth, e);
        }
      }
    }
  }

  lemma {:induction false} RoutesMeaning(rib: Rib, up: set<Interface>, inst: string, ip: Prefix, routes: seq<Route>, depth: nat)
    ensures var c := ResolveRoutes(rib, up, inst, ip, routes, depth);
            && (c.Contributed? <==> forall r :: r in routes ==> ResolveRoute(rib, up, inst, ip, r, depth).Contributed?)
            && (c.Contributed? ==> forall i :: 0 <= i < |routes| ==>
                  ResolveRoute(rib, up, inst, ip, routes[i], depth) == Contributed([c.sets[i]]))
            && (c.Diverging? ==> exists r :: r in routes && ResolveRoute(rib, up, inst, ip, r, depth).Diverging?)
            && (c.Failing? ==> exists r :: r in routes && ResolveRoute(rib, up, inst, ip, r, depth).Failing?)
  {
    if routes != [] {
      var n := |routes| - 1;
      RoutesMeaning(rib, up, inst, ip, routes[..n], depth);
      assert forall r :: r in routes <==> r in routes[..n] || r == routes[n];
      assert routes[n] in routes;
      var last := ResolveRoute(rib, up, inst, ip, routes[n], depth);
      if last.Contributed? {
        assert last.sets == [last.sets[0]];
      }
    }
  }

  // ---------------------------------------------------------------------
  // The equations
  // ---------------------------------------------------------------------

  /** The routes of the longest match for a query. */
  function Matched(rib: Rib, ni: string, ip: Prefix): seq<Route> {
    var inst := if ni == "" then rib.defaultInstance else ni;
    if inst in rib.instances && Deepest(rib.instances[inst], ip).Some?
    then rib.instances[inst][Deepest(rib.instances[inst], ip).value]
    else []
  }

  /** An assignment of egress next hops to every query. */
  type Assignment = (string, Prefix) -> set<Egress>

  ghost predicate Offers(rib: Rib, sol: Assignment, r: Route, hop: NextHop, ip: Prefix, e: Egress) {
    HostPrefix(hop.address).Some? &&
    var host := HostPrefix(hop.address).value;
    exists x :: x in sol(hop.networkInstance, host) && e == x.(gue := Encap(rib, r, host, ip))
  }

  /** The next hop on a connected subnet: the address asked for if that is a host's, and else none. */
  predicate OnLink(e: Egress, inst: string, ip: Prefix, port: Interface) {
    && e.networkInstance == inst && e.port == port && e.gue == NO_GUE
    && e.address == if |ip.bits| == (if ip.family.V4? then 32 else 128) then Some(ip) else None
  }

  lemma ConnectedIsOnLink(e: Egress, inst: string, ip: Prefix, port: Interface)
    ensures OnLink(e, inst, ip, port) <==> e == ConnectedHop(inst, ip, port)
  {
  }

  /** `r` leads to `e`: through its own enabled interface, or through what one of its next hops leads to. */
  ghost predicate Contributes(rib: Rib, up: set<Interface>, sol: Assignment, inst: string, ip: Prefix, r: Route, e: Egress) {
    match r.connected
    case Some(port) => port in up && OnLink(e, inst, ip, port)
    case None => exists hop :: hop in r.nextHops && Offers(rib, sol, r, hop, ip, e)
  }

  /** `r` is at least as preferred as every matched route that leads anywhere. */
  ghost predicate Winning(rib: Rib, up: set<Interface>, sol: Assignment, ni: string, ip: Prefix, r: Route) {
    forall r', e' :: r' in Matched(rib, ni, ip) && Contributes(rib, up, sol, Instance(rib, ni), ip, r', e') ==>
      NoWorse(r.pref, r'.pref)
  }

  /** A lower admin distance, or the same and a metric that is no higher. */
  predicate NoWorse(a: Preference, b: Preference) {
    a.adminDistance <= b.adminDistance && (a.adminDistance == b.adminDistance ==> a.metric <= b.metric)
  }

  ghost predicate Leads(rib: Rib, up: set<Interface>, sol: Assignment, ni: string, ip: Prefix, e: Egress) {
    exists r :: r in Matched(rib, ni, ip) && Contributes(rib, up, sol, Instance(rib, ni), ip, r, e) && Winning(rib, up, sol, ni, ip, r)
  }

  /** Every query is assigned exactly what its most preferred usable routes lead to. */
  ghost predicate IsSolution(rib: Rib, up: set<Interface>, sol: Assignment) {
    forall ni, ip, e :: e in sol(ni, ip) <==> Leads(rib, up, sol, ni, ip, e)
  }

  /** `sol` agrees with the nested lookups of the matched routes. */
  ghost predicate AgreesBelow(rib: Rib, up: set<Interface>, sol: Assignment, ni: string, ip: Prefix, depth: nat) {
    forall r, hop :: r in Matched(rib, ni, ip) && r.connected.None? && hop in r.nextHops ==>
      && HostPrefix(hop.address).Some?
      && HopOutcome(rib, up, hop, depth).Resolved?
      && sol(hop.networkInstance, HostPrefix(hop.address).value) == HopOutcome(rib, up, hop, depth).nexthops
  }

  lemma RouteContribution(rib: Rib, up: set<Interface>, sol: Assignment, ni: string, ip: Prefix, r: Route, depth: nat, e: Egress)
    requires r in Matched(rib, ni, ip)
    requires AgreesBelow(rib, up, sol, ni, ip, depth)
    requires ResolveRoute(rib, up, Instance(rib, ni), ip, r, depth).Contributed?
    ensures e in ResolveRoute(rib, up, Instance(rib, ni), ip, r, depth).sets[0] <==>
            Contributes(rib, up, sol, Instance(rib, ni), ip, r, e)
  {
    if r.connected.Some? {
      ConnectedIsOnLink(e, Instance(rib, ni), ip, r.connected.value);
    } else {
      HopsMeaning(rib, up, ip, r, r.nextHops, depth);
      forall hop | hop in r.nextHops
        ensures ViaHop(rib, up, ip, r, hop, depth, e) <==> Offers(rib, sol, r, hop, ip, e)
      {
      }
    }
  }

  /** `sets[i]` holds what the i-th matched route leads to. */
  ghost predicate SetsMean(rib: Rib, up: set<Interface>, sol: Assignment, ni: string, ip: Prefix, sets: seq<set<Egress>>) {
    && |sets| == |Matched(rib, ni, ip)|
    && forall i, x :: 0 <= i < |sets| ==>
         (x in sets[i] <==> Contributes(rib, up, sol, Instance(rib, ni), ip, Matched(rib, ni, ip)[i], x))
  }

  lemma SelectedLeads(rib: Rib, up: set<Interface>, sol: Assignment, ni: string, ip: Prefix, sets: seq<set<Egress>>, e: Egress)
    requires SetsMean(rib, up, sol, ni, ip, sets)
    requires e in Select(Matched(rib, ni, ip), sets).nexthops
    ensures Leads(rib, up, sol, ni, ip, e)
  {
    var routes := Matched(rib, ni, ip);
    BestMeaning(routes, sets);
    var best := Best(routes, sets).value;
    MergedMeaning(routes, sets, best, e);
    var i :| 0 <= i < |routes| && routes[i].pref == best && e in sets[i];
    assert Contributes(rib, up, sol, Instance(rib, ni), ip, routes[i], e);
    forall r', e' | r' in routes && Contributes(rib, up, sol, Instance(rib, ni), ip, r', e')
      ensures NoWorse(routes[i].pref, r'.pref)
    {
      var j :| 0 <= j < |routes| && routes[j] == r';
      assert e' in sets[j];
    }
    assert Winning(rib, up, sol, ni, ip, routes[i]);
  }

  lemma LeadingIsSelected(rib: Rib, up: set<Interface>, sol: Assignment, ni: string, ip: Prefix, sets: seq<set<Egress>>, e: Egress)
    requires SetsMean(rib, up, sol, ni, ip, sets)
    requires Leads(rib, up, sol, ni, ip, e)
    ensures e in Select(Matched(rib, ni, ip), sets).nexthops
  {
    var routes := Matched(rib, ni, ip);
    var inst := Instance(rib, ni);
    var r :| r in routes && Contributes(rib, up, sol, inst, ip, r, e) && Winning(rib, up, sol, ni, ip, r);
    var i :| 0 <= i < |routes| && routes[i] == r;
    assert e in sets[i];
    BestMeaning(routes, sets);
    var best := Best(routes, sets).value;
    MergedMeaning(routes, sets, best, e);
    var j :| 0 <= j < |routes| && routes[j].pref == best && sets[j] != {};
    var e' :| e' in sets[j];
    assert Contributes(rib, up, sol, inst, ip, routes[j], e');
    assert NoWorse(r.pref, routes[j].pref);
  }

  /** A successful lookup returns what its equation asks for, given the nested lookups. */
  lemma ResolvedMeetsEquation(rib: Rib, up: set<Interface>, sol: Assignment, ni: string, ip: Prefix, depth: nat)
    requires Resolve(rib, up, ni, ip, depth + 1).Resolved?
    requires AgreesBelow(rib, up, sol, ni, ip, depth)
    ensures forall e :: e in Resolve(rib, up, ni, ip, depth + 1).nexthops <==> Leads(rib, up, sol, ni, ip, e)
  {
    var inst := Instance(rib, ni);
    var routes := Matched(rib, ni, ip);
    if Deepest(rib.instances[inst], ip).Some? {
      var c := ResolveRoutes(rib, up, inst, ip, routes, depth);
      RoutesMeaning(rib, up, inst, ip, routes, depth);
      forall i, x | 0 <= i < |routes|
        ensures x in c.sets[i] <==> Contributes(rib, up, sol, inst, ip, routes[i], x)
      {
        assert routes[i] in routes;
        RouteContribution(rib, up, sol, ni, ip, routes[i], depth, x);
      }
      assert SetsMean(rib, up, sol, ni, ip, c.sets);
      forall e ensures e in Select(routes, c.sets).nexthops <==> Leads(rib, up, sol, ni, ip, e) {
        if e in Select(routes, c.sets).nexthops {
          SelectedLeads(rib, up, sol, ni, ip, c.sets, e);
        } else if Leads(rib, up, sol, ni, ip, e) {
          LeadingIsSelected(rib, up, sol, ni, ip, c.sets, e);
        }
      }
    }
  }

  lemma ResolvedBelow(rib: Rib, up: set<Interface>, ni: string, ip: Prefix, depth: nat, r: Route, hop: NextHop)
    requires Resolve(rib, up, ni, ip, depth + 1).Resolved?
    requires r in Matched(rib, ni, ip) && r.connected.None? && hop in r.nextHops
    ensures HopUsable(rib, up, hop, depth)
  {
    RoutesMeaning(rib, up, Instance(rib, ni), ip, Matched(rib, ni, ip), depth);
    HopsMeaning(rib, up, ip, r, r.nextHops, depth);
  }

  /** Every solution of the equations agrees with every successful resolution. */
  lemma {:induction false} SolutionUnique(rib: Rib, up: set<Interface>, sol: Assignment, ni: string, ip: Prefix, depth: nat)
    requires IsSolution(rib, up, sol)
    requires Resolve(rib, up, ni, ip, depth).Resolved?
    ensures sol(ni, ip) == Resolve(rib, up, ni, ip, depth).nexthops
    decreases depth
  {
    var d := depth - 1;
    forall r, hop | r in Matched(rib, ni, ip) && r.connected.None? && hop in r.nextHops
      ensures && HostPrefix(hop.address).Some?
              && HopOutcome(rib, up, hop, d).Resolved?
              && sol(hop.networkInstance, HostPrefix(hop.address).value) == HopOutcome(rib, up, hop, d).nexthops
    {
      ResolvedBelow(rib, up, ni, ip, d, r, hop);
      SolutionUnique(rib, up, sol, hop.networkInstance, HostPrefix(hop.address).value, d);
    }
    ResolvedMeetsEquation(rib, up, sol, ni, ip, d);
  }

  /** Where an egress next hop comes from: a matched route of the returned preference. */
  lemma SourceRoute(rib: Rib, up: set<Interface>, ni: string, ip: Prefix, depth: nat, e: Egress) returns (r: Route)
    requires Resolve(rib, up, ni, ip, depth + 1).Resolved?
    requires e in Resolve(rib, up, ni, ip, depth + 1).nexthops
    ensures r in Matched(rib, ni, ip)
    ensures var o := Resolve(rib, up, ni, ip, depth + 1);
            o.route.Some? && o.route.value in Matched(rib, ni, ip) && o.route.value.pref == r.pref
    ensures var c := ResolveRoute(rib, up, Instance(rib, ni), ip, r, depth);
            c.Contributed? && e in c.sets[0]
  {
    var routes := Matched(rib, ni, ip);
    var inst := Instance(rib, ni);
    var c := ResolveRoutes(rib, up, inst, ip, routes, depth);
    RoutesMeaning(rib, up, inst, ip, routes, depth);
    var i := SourceIndex(routes, c.sets, e);
    r := routes[i];
  }

  lemma SourceIndex(routes: seq<Route>, sets: seq<set<Egress>>, e: Egress) returns (i: nat)
    requires |routes| == |sets|
    requires e in Select(routes, sets).nexthops
    ensures i < |routes| && e in sets[i]
    ensures var o := Select(routes, sets);
            o.route.Some? && o.route.value in routes && o.route.value.pref == routes[i].pref
  {
    var pref := Best(routes, sets).value;
    MergedMeaning(routes, sets, pref, e);
    FirstWithMeaning(routes, pref);
    i :| 0 <= i < |routes| && routes[i].pref == pref && e in sets[i];
  }

  lemma SelectReturnsRoute(routes: seq<Route>, sets: seq<set<Egress>>)
    requires |routes| == |sets|
    ensures var o := Select(routes, sets);
            && (o.route.Some? <==> o.nexthops != {})
            && (o.route.Some? ==> o.route.value in routes)
            && forall j :: 0 <= j < |routes| && sets[j] != {} ==> o.route.Some? && NoWorse(o.route.value.pref, routes[j].pref)
  {
    BestMeaning(routes, sets);
    if Best(routes, sets).Some? {
      var pref := Best(routes, sets).value;
      FirstWithMeaning(routes, pref);
      var i :| 0 <= i < |routes| && routes[i].pref == pref && sets[i] != {};
      var e :| e in sets[i];
      MergedMeaning(routes, sets, pref, e);
    }
  }

  /** The route handed back is there exactly when something resolved; it is matched, and it wins. */
  lemma ReturnedRoute(rib: Rib, up: set<Interface>, sol: Assignment, ni: string, ip: Prefix, depth: nat)
    requires Resolve(rib, up, ni, ip, depth + 1).Resolved?
    requires AgreesBelow(rib, up, sol, ni, ip, depth)
    ensures var o := Resolve(rib, up, ni, ip, depth + 1);
            && (o.route.Some? <==> o.nexthops != {})
            && (o.route.Some? ==> o.route.value in Matched(rib, ni, ip))
            && (o.route.Some? ==> Winning(rib, up, sol, ni, ip, o.route.value))
  {
    var routes := Matched(rib, ni, ip);
    var inst := Instance(rib, ni);
    var o := Resolve(rib, up, ni, ip, depth + 1);
    if MatchFound(rib, ni, ip) {
      var c := ResolveRoutes(rib, up, inst, ip, routes, depth);
      RoutesMeaning(rib, up, inst, ip, routes, depth);
      SelectReturnsRoute(routes, c.sets);
      forall r', e' | o.route.Some? && r' in routes && Contributes(rib, up, sol, inst, ip, r', e')
        ensures NoWorse(o.route.value.pref, r'.pref)
      {
        RouteContribution(rib, up, sol, ni, ip, r', depth, e');
        var j :| 0 <= j < |routes| && routes[j] == r';
        assert e' in c.sets[j];
      }
    }
  }

  predicate MatchFound(rib: Rib, ni: string, ip: Prefix) {
    var inst := Instance(rib, ni);
    inst in rib.instances && Deepest(rib.instances[inst], ip).Some?
  }

  // ---------------------------------------------------------------------
  // Encapsulation
  // ---------------------------------------------------------------------

  /** The policy that applies to a next hop: the deepest that covers it. */
  ghost predicate Applies(rib: Rib, host: Prefix, p: Prefix) {
    p in rib.policies && Covers(p, host) && forall p' :: p' in rib.policies && Covers(p', host) ==> |p'.bits| <= |p.bits|
  }

  /** The header is addressed to the hop and takes source and port from the policy, by the families of hop and payload. */
  predicate HeaderFrom(h: GUEHeaders, policy: GUEPolicy, host: Prefix, ip: Prefix) {
    && h.isV6 == host.family.V6?
    && h.dstIP4 == (if h.isV6 then Zeros(32) else host.bits)
    && h.dstIP6 == (if h.isV6 then host.bits else Zeros(128))
    && h.policy.srcIP4 == (if h.isV6 then Zeros(32) else policy.srcIP4)
    && h.policy.srcIP6 == (if h.isV6 then policy.srcIP6 else Zeros(128))
    && h.policy.dstPortV4 == (if h.isV6 || ip.family.V6? then 0 else policy.dstPortV4)
    && h.policy.dstPortV6 == (if h.isV6 || ip.family.V6? then policy.dstPortV6 else 0)
  }

  /** The header a first-level next hop puts on: that of the policy that applies, if the route is EBGP and there is one, and else none. */
  ghost predicate RightHeader(rib: Rib, r: Route, host: Prefix, ip: Prefix, h: GUEHeaders) {
    if r.pref.adminDistance == 20 && exists p :: Applies(rib, host, p)
    then exists p :: Applies(rib, host, p) && HeaderFrom(h, rib.policies[p], host, ip)
    else h == NO_GUE
  }

  lemma EncapIsRightHeader(rib: Rib, r: Route, host: Prefix, ip: Prefix, h: GUEHeaders)
    ensures RightHeader(rib, r, host, ip, h) <==> h == Encap(rib, r, host, ip)
  {
    var d := Deepest(rib.policies, host);
    if d.Some? {
      assert Applies(rib, host, d.value);
      forall p | Applies(rib, host, p) ensures p == d.value {
        DeepestUnique(rib.policies, host, p);
      }
    }
  }

  /** A matched route of the returned preference. */
  ghost predicate Chosen(rib: Rib, up: set<Interface>, ni: string, ip: Prefix, depth: nat, r: Route) {
    var o := Resolve(rib, up, ni, ip, depth);
    o.Resolved? && o.route.Some? && r in Matched(rib, ni, ip) && r.pref == o.route.value.pref
  }

  /** `e` is something a next hop leads to, found without a header, with the right header for this hop put on. */
  ghost predicate ThroughHop(rib: Rib, up: set<Interface>, ip: Prefix, r: Route, hop: NextHop, depth: nat, e: Egress) {
    && hop in r.nextHops && HopUsable(rib, up, hop, depth) && HostPrefix(hop.address).Some?
    && e.(gue := NO_GUE) in HopOutcome(rib, up, hop, depth).nexthops
    && RightHeader(rib, r, HostPrefix(hop.address).value, ip, e.gue)
  }

  ghost predicate LeavesBy(rib: Rib, up: set<Interface>, inst: string, ip: Prefix, r: Route, depth: nat, e: Egress) {
    match r.connected
    case Some(port) => port in up && OnLink(e, inst, ip, port)
    case None => exists hop :: ThroughHop(rib, up, ip, r, hop, depth, e)
  }

  lemma ViaHopIsThroughHop(rib: Rib, up: set<Interface>, ip: Prefix, r: Route, hop: NextHop, depth: nat, e: Egress)
    requires hop in r.nextHops && HopUsable(rib, up, hop, depth)
    ensures ViaHop(rib, up, ip, r, hop, depth, e) <==> ThroughHop(rib, up, ip, r, hop, depth, e)
  {
    var host := HostPrefix(hop.address).value;
    EncapIsRightHeader(rib, r, host, ip, e.gue);
    var found := HopOutcome(rib, up, hop, depth).nexthops;
    if ViaHop(rib, up, ip, r, hop, depth, e) {
      var x :| x in found && e == x.(gue := Encap(rib, r, host, ip));
      assert !HasGUE(x) && e.(gue := NO_GUE) == x;
    }
    if ThroughHop(rib, up, ip, r, hop, depth, e) {
      assert e == e.(gue := NO_GUE).(gue := Encap(rib, r, host, ip));
    }
  }

  lemma RouteLeavesBy(rib: Rib, up: set<Interface>, inst: string, ip: Prefix, r: Route, depth: nat, e: Egress)
    requires ResolveRoute(rib, up, inst, ip, r, depth).Contributed?
    ensures e in ResolveRoute(rib, up, inst, ip, r, depth).sets[0] <==> LeavesBy(rib, up, inst, ip, r, depth, e)
  {
    if r.connected.Some? {
      ConnectedIsOnLink(e, inst, ip, r.connected.value);
    } else {
      HopsMeaning(rib, up, ip, r, r.nextHops, depth);
      forall hop | hop in r.nextHops ensures ViaHop(rib, up, ip, r, hop, depth, e) <==> ThroughHop(rib, up, ip, r, hop, depth, e) {
        ViaHopIsThroughHop(rib, up, ip, r, hop, depth, e);
      }
    }
  }

  lemma SelectExactly(routes: seq<Route>, sets: seq<set<Egress>>, e: Egress)
    requires |routes| == |sets|
    ensures var o := Select(routes, sets);
            e in o.nexthops <==> o.route.Some? && exists i :: 0 <= i < |routes| && routes[i].pref == o.route.value.pref && e in sets[i]
  {
    BestMeaning(routes, sets);
    SelectReturnsRoute(routes, sets);
    if Best(routes, sets).Some? {
      var pref := Best(routes, sets).value;
      FirstWithMeaning(routes, pref);
      MergedMeaning(routes, sets, pref, e);
    }
  }

  /**
   * What a successful resolution returns, headers included: exactly what the matched routes of the
   * returned preference lead to, through their own enabled interface and without a header, or through
   * one first-level next hop, with the header of the deepest policy that covers this hop.
   */
  lemma EgressExactlyWhen(rib: Rib, up: set<Interface>, ni: string, ip: Prefix, depth: nat, e: Egress)
    requires Resolve(rib, up, ni, ip, depth + 1).Resolved?
    ensures e in Resolve(rib, up, ni, ip, depth + 1).nexthops <==>
            exists r :: Chosen(rib, up, ni, ip, depth + 1, r) && LeavesBy(rib, up, Instance(rib, ni), ip, r, depth, e)
  {
    if MatchFound(rib, ni, ip) {
      var routes, inst := Matched(rib, ni, ip), Instance(rib, ni);
      var c := ResolveRoutes(rib, up, inst, ip, routes, depth);
      RoutesMeaning(rib, up, inst, ip, routes, depth);
      SelectExactly(routes, c.sets, e);
      forall i | 0 <= i < |routes| ensures e in c.sets[i] <==> LeavesBy(rib, up, inst, ip, routes[i], depth, e) {
        RouteLeavesBy(rib, up, inst, ip, routes[i], depth, e);
      }
      if r :| Chosen(rib, up, ni, ip, depth + 1, r) && LeavesBy(rib, up, inst, ip, r, depth, e) {
        var i :| 0 <= i < |routes| && routes[i] == r;
      }
      if e in Resolve(rib, up, ni, ip, depth + 1).nexthops {
        var o := Select(routes, c.sets);
        var i :| 0 <= i < |routes| && routes[i].pref == o.route.value.pref && e in c.sets[i];
        assert Chosen(rib, up, ni, ip, depth + 1, routes[i]);
      }
    }
  }

  /** `r` is the first of the matched routes that has its preference. */
  ghost predicate FirstOfItsPreference(routes: seq<Route>, r: Route, i: nat) {
    i < |routes| && routes[i] == r && forall j :: 0 <= j < i ==> routes[j].pref != r.pref
  }

  lemma {:induction false} FirstWithIsFirst(routes: seq<Route>, pref: Preference) returns (i: nat)
    requires FirstWith(routes, pref).Some?
    ensures FirstOfItsPreference(routes, FirstWith(routes, pref).value, i) && routes[i].pref == pref
    decreases |routes|
  {
    if routes[0].pref == pref {
      i := 0;
    } else {
      var k := FirstWithIsFirst(routes[1..], pref);
      i := k + 1;
      assert forall j :: 0 < j < |routes| ==> routes[j] == routes[1..][j - 1];
    }
  }

  /**
   * The route that is handed back has the lowest admin distance, and among those of this distance the lowest
   * metric, of all the matched routes that lead anywhere; it is the first matched route of its preference, and
   * a route of its preference leads somewhere.
   */
  lemma LowestDistanceFirst(rib: Rib, up: set<Interface>, ni: string, ip: Prefix, depth: nat, r': Route, e': Egress) returns (i: nat)
    requires Resolve(rib, up, ni, ip, depth + 1).Resolved?
    requires r' in Matched(rib, ni, ip) && LeavesBy(rib, up, Instance(rib, ni), ip, r', depth, e')
    ensures Resolve(rib, up, ni, ip, depth + 1).route.Some?
    ensures var r := Resolve(rib, up, ni, ip, depth + 1).route.value;
            && r.pref.adminDistance <= r'.pref.adminDistance
            && (r.pref.adminDistance == r'.pref.adminDistance ==> r.pref.metric <= r'.pref.metric)
            && FirstOfItsPreference(Matched(rib, ni, ip), r, i)
            && exists e, r'' :: e in Resolve(rib, up, ni, ip, depth + 1).nexthops && Chosen(rib, up, ni, ip, depth + 1, r'') &&
                                LeavesBy(rib, up, Instance(rib, ni), ip, r'', depth, e)
  {
    var routes, inst := Matched(rib, ni, ip), Instance(rib, ni);
    var c := ResolveRoutes(rib, up, inst, ip, routes, depth);
    RoutesMeaning(rib, up, inst, ip, routes, depth);
    RouteLeavesBy(rib, up, inst, ip, r', depth, e');
    var j :| 0 <= j < |routes| && routes[j] == r';
    SelectReturnsRoute(routes, c.sets);
    i := FirstWithIsFirst(routes, Best(routes, c.sets).value);
    var e :| e in Resolve(rib, up, ni, ip, depth + 1).nexthops;
    EgressExactlyWhen(rib, up, ni, ip, depth, e);
  }

  /** A header for 0.0.0.0 whose fields are all zero; the source cannot tell it from no header. */
  predicate Blank(policy: GUEPolicy, host: Prefix, ip: Prefix) {
    && host.family.V4? && host.bits == Zeros(32) && policy.srcIP4 == Zeros(32)
    && (if ip.family.V6? then policy.dstPortV6 else policy.dstPortV4) == 0
  }

  /** The deepest policy that covers the hop gives `e` its header, and not a blank one. */
  ghost predicate EncapsulatedVia(rib: Rib, ip: Prefix, hop: NextHop, p: Prefix, e: Egress) {
    HostPrefix(hop.address).Some? &&
    var host := HostPrefix(hop.address).value;
    Applies(rib, host, p) && HeaderFrom(e.gue, rib.policies[p], host, ip) && !Blank(rib.policies[p], host, ip)
  }

  /** An egress next hop carries a header exactly when the returned route is EBGP and the next hop it comes through is covered by a policy. */
  lemma EncapsulatedExactlyWhen(rib: Rib, up: set<Interface>, ni: string, ip: Prefix, depth: nat, e: Egress)
    requires Resolve(rib, up, ni, ip, depth + 1).Resolved?
    requires e in Resolve(rib, up, ni, ip, depth + 1).nexthops
    ensures Resolve(rib, up, ni, ip, depth + 1).route.Some?
    ensures e.gue != NO_GUE <==>
            Resolve(rib, up, ni, ip, depth + 1).route.value.pref.adminDistance == 20 &&
            exists r, hop, p :: Chosen(rib, up, ni, ip, depth + 1, r) && r.connected.None? && ThroughHop(rib, up, ip, r, hop, depth, e) &&
                                EncapsulatedVia(rib, ip, hop, p, e)
  {
    EgressExactlyWhen(rib, up, ni, ip, depth, e);
    var r :| Chosen(rib, up, ni, ip, depth + 1, r) && LeavesBy(rib, up, Instance(rib, ni), ip, r, depth, e);
    if e.gue != NO_GUE {
      var hop :| ThroughHop(rib, up, ip, r, hop, depth, e);
      var host := HostPrefix(hop.address).value;
      var p :| Applies(rib, host, p) && HeaderFrom(e.gue, rib.policies[p], host, ip);
      assert EncapsulatedVia(rib, ip, hop, p, e);
    }
  }

  /** Every egress next hop of a successful resolution leaves through an enabled interface. */
  lemma {:induction false} EgressPortsAreUp(rib: Rib, up: set<Interface>, ni: string, ip: Prefix, depth: nat, e: Egress)
    requires Resolve(rib, up, ni, ip, depth).Resolved?
    requires e in Resolve(rib, up, ni, ip, depth).nexthops
    ensures e.port in up
    decreases depth
  {
    var d := depth - 1;
    var r := SourceRoute(rib, up, ni, ip, d, e);
    if r.connected.None? {
      HopsMeaning(rib, up, ip, r, r.nextHops, d);
      var hop :| hop in r.nextHops && ViaHop(rib, up, ip, r, hop, d, e);
      var host := HostPrefix(hop.address).value;
      var x :| x in HopOutcome(rib, up, hop, d).nexthops && e == x.(gue := Encap(rib, r, host, ip));
      EgressPortsAreUp(rib, up, hop.networkInstance, host, d, x);
    }
  }

  // ---------------------------------------------------------------------
  // Errors
  // ---------------------------------------------------------------------

  /** A lookup errors exactly when its instance is unknown or one of its next hops cannot be used. */
  lemma FailsExactlyWhen(rib: Rib, up: set<Interface>, ni: string, ip: Prefix, depth: nat)
    requires !Resolve(rib, up, ni, ip, depth + 1).Diverges?
    ensures Resolve(rib, up, ni, ip, depth + 1).Fails? <==>
            || Instance(rib, ni) !in rib.instances
            || exists r, hop :: r in Matched(rib, ni, ip) && r.connected.None? && hop in r.nextHops && !HopUsable(rib, up, hop, depth)
  {
    var inst := Instance(rib, ni);
    var routes := Matched(rib, ni, ip);
    RoutesMeaning(rib, up, inst, ip, routes, depth);
    forall r | r in routes && r.connected.None?
      ensures ResolveRoute(rib, up, inst, ip, r, depth).Contributed? <==>
              forall hop :: hop in r.nextHops ==> HopUsable(rib, up, hop, depth)
    {
      HopsMeaning(rib, up, ip, r, r.nextHops, depth);
    }
  }
}
