/** The SysRIB object of sysrib/sysrib.go: fields updated in place, and the recursive lookup with its loops. */
module RibObject {
  import opened Wrappers
  import opened Net
  import opened SysRib
  import opened Resolver
  import opened Resolution

  /** The interfaces that the map of interface states reports as enabled. */
  function Up(interfaces: map<Interface, bool>): (s: set<Interface>)
    ensures forall i :: i in s <==> i in interfaces && interfaces[i]
  {
    set i | i in interfaces && interfaces[i]
  }

  /** Adds the encapsulation of a first-level next hop to what it resolved to; `bad` if one is encapsulated already. */
  method Encapsulate(found: set<Egress>, gue: GUEHeaders) returns (bad: bool, out: set<Egress>)
    ensures bad <==> exists e :: e in found && HasGUE(e)
    ensures !bad ==> out == WithGUE(found, gue)
  {
    bad, out := false, {};
    var todo := found;
    while todo != {}
      invariant todo <= found
      invariant forall e :: e in found - todo ==> !HasGUE(e)
      invariant forall e :: e in out <==> exists x :: x in found - todo && e == x.(gue := gue)
      decreases todo
    {
      var rnh :| rnh in todo;
      if HasGUE(rnh) {
        bad := true;
        return;
      }
      out := out + {rnh.(gue := gue)};
      todo := todo - {rnh};
    }
    assert found - todo == found;
  }

  /** Preferences in ascending order of admin distance and then metric. */
  method SortPreferences(prefs: set<Preference>) returns (sorted: seq<Preference>)
    ensures forall p :: p in sorted <==> p in prefs
    ensures forall i, j :: 0 <= i < j < |sorted| ==> Preferred(sorted[i], sorted[j])
    ensures forall i, j :: 0 <= i < j < |sorted| ==>
              && sorted[i].adminDistance <= sorted[j].adminDistance
              && (sorted[i].adminDistance == sorted[j].adminDistance ==> sorted[i].metric <= sorted[j].metric)
  {
    sorted := [];
    var todo := prefs;
    while todo != {}
      invariant todo <= prefs
      invariant forall p :: p in sorted <==> p in prefs - todo
      invariant forall i, j :: 0 <= i < j < |sorted| ==> Preferred(sorted[i], sorted[j])
      decreases todo
    {
      var p :| p in todo;
      var k := 0;
      while k < |sorted| && Preferred(sorted[k], p)
        invariant 0 <= k <= |sorted|
        invariant forall i :: 0 <= i < k ==> Preferred(sorted[i], p)
      {
        k := k + 1;
      }
      ghost var before := sorted;
      sorted := sorted[..k] + [p] + sorted[k..];
      assert forall q :: q in sorted <==> q in before || q == p by {
        assert before == before[..k] + before[k..];
      }
      todo := todo - {p};
    }
  }

  lemma {:induction false} FirstWithAppend(routes: seq<Route>, r: Route, pref: Preference)
    ensures FirstWith(routes + [r], pref) ==
            if FirstWith(routes, pref).Some? then FirstWith(routes, pref)
            else if r.pref == pref then Some(r) else None
  {
    if routes == [] {
      assert (routes + [r])[1..] == [];
    } else {
      FirstWithAppend(routes[1..], r, pref);
      assert (routes + [r])[1..] == routes[1..] + [r];
    }
  }

  /** What the loop over the matched routes has gathered: merged next hops and first route, by preference. */
  ghost predicate Gathered(routes: seq<Route>, sets: seq<set<Egress>>, all: map<Preference, set<Egress>>, first: map<Preference, Route>) {
    && |routes| == |sets|
    && all.Keys == first.Keys
    && (forall p :: p in all <==> FirstWith(routes, p).Some?)
    && (forall p :: p in all ==> all[p] == Merged(routes, sets, p) && FirstWith(routes, p) == Some(first[p]))
  }

  lemma GatheredStep(routes: seq<Route>, sets: seq<set<Egress>>, all: map<Preference, set<Egress>>, first: map<Preference, Route>,
                     r: Route, es: set<Egress>, all': map<Preference, set<Egress>>, first': map<Preference, Route>)
    requires Gathered(routes, sets, all, first)
    requires all' == all[r.pref := (if r.pref in all then all[r.pref] else {}) + es]
    requires first' == if r.pref in all then first else first[r.pref := r]
    ensures Gathered(routes + [r], sets + [es], all', first')
  {
    forall p
      ensures FirstWith(routes + [r], p) == if FirstWith(routes, p).Some? then FirstWith(routes, p) else if r.pref == p then Some(r) else None
      ensures Merged(routes + [r], sets + [es], p) == Merged(routes, sets, p) + (if r.pref == p then es else {})
    {
      FirstWithAppend(routes, r, p);
      assert (routes + [r])[..|routes|] == routes && (sets + [es])[..|sets|] == sets;
    }
    if r.pref !in all {
      NoneMerged(routes, sets, r.pref);
    }
  }

  lemma NoneMerged(routes: seq<Route>, sets: seq<set<Egress>>, p: Preference)
    requires |routes| == |sets|
    requires FirstWith(routes, p).None?
    ensures Merged(routes, sets, p) == {}
  {
    FirstWithMeaning(routes, p);
    if Merged(routes, sets, p) != {} {
      var e :| e in Merged(routes, sets, p);
      MergedMeaning(routes, sets, p, e);
    }
  }

  /** The first non-empty entry in ascending order of preference is the selection. */
  lemma SelectedByOrder(routes: seq<Route>, sets: seq<set<Egress>>, all: map<Preference, set<Egress>>, first: map<Preference, Route>,
                        sorted: seq<Preference>, k: nat)
    requires Gathered(routes, sets, all, first)
    requires forall p :: p in sorted <==> p in all
    requires forall i, j :: 0 <= i < j < |sorted| ==> Preferred(sorted[i], sorted[j])
    requires k <= |sorted|
    requires forall i :: 0 <= i < k ==> all[sorted[i]] == {}
    requires k < |sorted| ==> all[sorted[k]] != {}
    ensures Select(routes, sets) == if k < |sorted| then Resolved(all[sorted[k]], Some(first[sorted[k]])) else Resolved({}, None)
  {
    BestMeaning(routes, sets);
    var best := Best(routes, sets);
    if k < |sorted| {
      var e :| e in all[sorted[k]];
      MergedMeaning(routes, sets, sorted[k], e);
    }
    if best.Some? {
      var i :| 0 <= i < |routes| && routes[i].pref == best.value && sets[i] != {};
      FirstWithMeaning(routes, best.value);
      var e :| e in sets[i];
      MergedMeaning(routes, sets, best.value, e);
      var j :| 0 <= j < |sorted| && sorted[j] == best.value;
      assert k <= j;
      assert Preferred(best.value, sorted[k]);
      assert j > k ==> Preferred(sorted[k], sorted[j]);
      assert sorted[k] == best.value;
    }
  }

  class SysRIB {
    var instances: map<string, Tree>
    var defaultInstance: string
    var policies: map<Prefix, GUEPolicy>

    function Value(): Rib
      reads this
    {
      Rib(instances, defaultInstance, policies)
    }

    /** NewSysRIB without an initial configuration: one empty default instance. */
    constructor (defaultName: string)
      ensures Value() == Rib(map[defaultName := map[]], defaultName, map[])
      ensures WellFormed(Value())
    {
      instances := map[defaultName := map[]];
      defaultInstance := defaultName;
      policies := map[];
    }

    method SetRoute(ni: string, r: Route, isDelete: bool) returns (ok: bool)
      modifies this`instances
      ensures ok == SysRib.SetRoute(old(Value()), ni, r, isDelete).Some?
      ensures Value() == if ok then SysRib.SetRoute(old(Value()), ni, r, isDelete).value else old(Value())
    {
      if ni !in instances {
        return false;
      }
      var prefix := Canonical(r.prefix);
      if prefix.None? {
        return false;
      }
      instances := instances[ni := TreeDelete(instances[ni], prefix.value, r)];
      if !isDelete {
        instances := instances[ni := TreeAdd(instances[ni], prefix.value, r)];
      }
      return true;
    }

    method SetGUEPolicy(prefix: PrefixText, policy: GUEPolicy) returns (ok: bool)
      modifies this`policies
      ensures ok == SetPolicy(old(Value()), prefix, policy).Some?
      ensures Value() == if ok then SetPolicy(old(Value()), prefix, policy).value else old(Value())
    {
      var p := Canonical(prefix);
      ok := p.Some?;
      if ok {
        policies := policies[p.value := policy];
      }
    }

    method DeleteGUEPolicy(prefix: PrefixText) returns (ok: bool, deleted: bool)
      modifies this`policies
      ensures ok == DeletePolicy(old(Value()), prefix).Some?
      ensures Value() == if ok then DeletePolicy(old(Value()), prefix).value else old(Value())
      ensures deleted == (Canonical(prefix).Some? && Canonical(prefix).value in old(policies))
    {
      var p := Canonical(prefix);
      ok := p.Some?;
      deleted := ok && p.value in policies;
      if ok {
        policies := policies - {p.value};
      }
    }

    /** entryForCIDR: `ok` is false when the network instance is unknown. */
    method EntryForCIDR(ni: string, ip: Prefix) returns (ok: bool, found: bool, routes: seq<Route>)
      ensures ok <==> ni in instances
      ensures ok ==> (found <==> Deepest(instances[ni], ip).Some?)
      ensures ok && found ==> routes == instances[ni][Deepest(instances[ni], ip).value]
    {
      if ni !in instances {
        return false, false, [];
      }
      var d := Deepest(instances[ni], ip);
      if d.None? {
        return true, false, [];
      }
      return true, true, instances[ni][d.value];
    }

    /** egressNexthops, for a query whose recursion ends within `depth` nested lookups. */
    method EgressNexthops(inputNI: string, ip: Prefix, interfaces: map<Interface, bool>, ghost depth: nat) returns (o: Outcome)
      requires !Resolve(Value(), Up(interfaces), inputNI, ip, depth).Diverges?
      ensures o == Resolve(Value(), Up(interfaces), inputNI, ip, depth)
      decreases depth, 0
    {
      ghost var rib, up := Value(), Up(interfaces);
      var ni := if inputNI == "" then defaultInstance else inputNI;
      var ok, found, routes := EntryForCIDR(ni, ip);
      if !ok || !found {
        return if ok then Resolved({}, None) else Fails;
      }
      var bad, all, first := GatherRoutes(ni, ip, interfaces, routes, depth - 1);
      if bad {
        return Fails;
      }
      o := SelectFirst(all, first, routes, ResolveRoutes(rib, up, ni, ip, routes, depth - 1).sets);
    }

    /** The loop over the matched routes. */
    method GatherRoutes(ni: string, ip: Prefix, interfaces: map<Interface, bool>, routes: seq<Route>, ghost depth: nat)
      returns (bad: bool, all: map<Preference, set<Egress>>, first: map<Preference, Route>)
      requires !ResolveRoutes(Value(), Up(interfaces), ni, ip, routes, depth).Diverging?
      ensures RoutesResult(Value(), Up(interfaces), ni, ip, routes, depth, bad, all, first)
      decreases depth, 3
    {
      ghost var rib, up := Value(), Up(interfaces);
      bad, all, first := false, map[], map[];
      NoRoutesYet(rib, up, ni, ip, routes, depth);
      var i := 0;
      while i < |routes|
        invariant 0 <= i <= |routes|
        invariant RoutesSoFar(rib, up, ni, ip, routes, depth, i, all, first)
      {
        var cr := routes[i];
        var es := {};
        if cr.connected.Some? {
          if cr.connected.value in interfaces && interfaces[cr.connected.value] {
            es := {ConnectedHop(ni, ip, cr.connected.value)};
          }
          ConnectedResult(rib, up, ni, ip, cr, depth, es);
        } else {
          RouteReturns(rib, up, ni, ip, routes, depth, i, all, first);
          bad, es := ResolveNextHops(ip, interfaces, cr, depth);
          if bad {
            BadRoute(rib, up, ni, ip, routes, depth, i, all, first);
            return;
          }
          IndirectResult(rib, up, ni, ip, cr, depth, es);
        }
        ghost var all0, first0 := all, first;
        if cr.pref !in all {
          all := all[cr.pref := {}];
          first := first[cr.pref := cr];
        }
        all := all[cr.pref := all[cr.pref] + es];
        assert all == all0[cr.pref := (if cr.pref in all0 then all0[cr.pref] else {}) + es];
        GoodRoute(rib, up, ni, ip, routes, depth, i, all0, first0, es, all, first);
        i := i + 1;
      }
      AllRoutes(rib, up, ni, ip, routes, depth, all, first);
    }

    /** The loop over the next hops of a route that is not connected. */
    method ResolveNextHops(ip: Prefix, interfaces: map<Interface, bool>, r: Route, ghost depth: nat) returns (bad: bool, es: set<Egress>)
      requires !ResolveHops(Value(), Up(interfaces), ip, r, r.nextHops, depth).Diverging?
      ensures HopsResult(Value(), Up(interfaces), ip, r, depth, bad, es)
      decreases depth, 2
    {
      ghost var rib, up := Value(), Up(interfaces);
      bad, es := false, {};
      NoHopsYet(rib, up, ip, r, depth);
      var i := 0;
      while i < |r.nextHops|
        invariant 0 <= i <= |r.nextHops|
        invariant HopsSoFar(rib, up, ip, r, depth, i, es)
      {
        HopReturns(rib, up, ip, r, depth, i, es);
        var nested, out := ResolveHop(ip, interfaces, r, r.nextHops[i], depth);
        if nested {
          BadHop(rib, up, ip, r, depth, i, es);
          bad := true;
          return;
        }
        GoodHop(rib, up, ip, r, depth, i, es, HostPrefix(r.nextHops[i].address).value);
        es := es + out;
        i := i + 1;
      }
      AllHops(rib, up, ip, r, depth, es);
    }

    /** One next hop: the nested lookup and the encapsulation of what it finds. */
    method ResolveHop(ip: Prefix, interfaces: map<Interface, bool>, r: Route, nh: NextHop, ghost depth: nat) returns (bad: bool, out: set<Egress>)
      requires !HopOutcome(Value(), Up(interfaces), nh, depth).Diverges?
      ensures HopResult(Value(), Up(interfaces), ip, r, nh, depth, bad, out)
      decreases depth, 1
    {
      var nhop := HostPrefix(nh.address);
      if nhop.None? {
        return true, {};
      }
      var o := EgressNexthops(nh.networkInstance, nhop.value, interfaces, depth);
      if o.Fails? {
        return true, {};
      }
      var encap := EncapFor(r, nhop.value, ip);
      bad, out := Encapsulate(o.nexthops, encap);
    }

    /** The GUE header put on what an eBGP next hop resolves to. */
    method EncapFor(r: Route, nhop: Prefix, ip: Prefix) returns (encap: GUEHeaders)
      ensures encap == Encap(Value(), r, nhop, ip)
    {
      encap := NO_GUE;
      if r.pref.adminDistance == 20 {
        var h := GUEHeader(policies, nhop, ip.family.V6?);
        if h.Some? {
          encap := h.value;
        }
      }
    }
  }

  /** The scan of the gathered preferences in ascending order. */
  method SelectFirst(all: map<Preference, set<Egress>>, first: map<Preference, Route>, ghost routes: seq<Route>, ghost sets: seq<set<Egress>>)
    returns (o: Outcome)
    requires Gathered(routes, sets, all, first)
    ensures o == Select(routes, sets)
  {
    var sorted := SortPreferences(all.Keys);
    var k := 0;
    while k < |sorted| && all[sorted[k]] == {}
      invariant 0 <= k <= |sorted|
      invariant forall i :: 0 <= i < k ==> all[sorted[i]] == {}
    {
      k := k + 1;
    }
    SelectedByOrder(routes, sets, all, first, sorted, k);
    o := if k < |sorted| then Resolved(all[sorted[k]], Some(first[sorted[k]])) else Resolved({}, None);
  }

  // ---------------------------------------------------------------------
  // The loops, step by step
  // ---------------------------------------------------------------------

  ghost predicate HopsSoFar(rib: Rib, up: set<Interface>, ip: Prefix, r: Route, depth: nat, i: nat, es: set<Egress>) {
    i <= |r.nextHops| && ResolveHops(rib, up, ip, r, r.nextHops[..i], depth) == Contributed([es])
  }

  ghost predicate HopsResult(rib: Rib, up: set<Interface>, ip: Prefix, r: Route, depth: nat, bad: bool, es: set<Egress>) {
    var c := ResolveHops(rib, up, ip, r, r.nextHops, depth);
    if bad then c.Failing? else c == Contributed([es])
  }

  ghost predicate HopResult(rib: Rib, up: set<Interface>, ip: Prefix, r: Route, nh: NextHop, depth: nat, bad: bool, out: set<Egress>) {
    var host := HostPrefix(nh.address);
    && !HopOutcome(rib, up, nh, depth).Diverges?
    && (bad <==> !HopUsable(rib, up, nh, depth))
    && (!bad ==> host.Some?)
    && (!bad ==> out == WithGUE(HopOutcome(rib, up, nh, depth).nexthops, Encap(rib, r, host.value, ip)))
  }

  lemma NoHopsYet(rib: Rib, up: set<Interface>, ip: Prefix, r: Route, depth: nat)
    ensures HopsSoFar(rib, up, ip, r, depth, 0, {})
  {
  }

  lemma GoodHop(rib: Rib, up: set<Interface>, ip: Prefix, r: Route, depth: nat, i: nat, es: set<Egress>, host: Prefix)
    requires HopsSoFar(rib, up, ip, r, depth, i, es) && i < |r.nextHops|
    requires HostPrefix(r.nextHops[i].address) == Some(host)
    requires HopUsable(rib, up, r.nextHops[i], depth)
    ensures HopsSoFar(rib, up, ip, r, depth, i + 1,
                      es + WithGUE(HopOutcome(rib, up, r.nextHops[i], depth).nexthops, Encap(rib, r, host, ip)))
  {
    assert r.nextHops[..i + 1][..i] == r.nextHops[..i];
  }

  /** The first unusable next hop makes the whole route fail. */
  lemma BadHop(rib: Rib, up: set<Interface>, ip: Prefix, r: Route, depth: nat, i: nat, es: set<Egress>)
    requires HopsSoFar(rib, up, ip, r, depth, i, es) && i < |r.nextHops|
    requires !HopUsable(rib, up, r.nextHops[i], depth) && !HopOutcome(rib, up, r.nextHops[i], depth).Diverges?
    ensures HopsResult(rib, up, ip, r, depth, true, es)
  {
    assert r.nextHops[..i + 1][..i] == r.nextHops[..i];
    assert ResolveHops(rib, up, ip, r, r.nextHops[..i + 1], depth).Failing?;
    BadHopsStay(rib, up, ip, r, r.nextHops, i + 1, depth);
  }

  /** What stops the loop is what the whole list amounts to. */
  lemma {:induction false} BadHopsStay(rib: Rib, up: set<Interface>, ip: Prefix, r: Route, hops: seq<NextHop>, i: nat, n: nat)
    requires i <= |hops|
    requires !ResolveHops(rib, up, ip, r, hops[..i], n).Contributed?
    ensures ResolveHops(rib, up, ip, r, hops, n) == ResolveHops(rib, up, ip, r, hops[..i], n)
    decreases |hops|
  {
    if i == |hops| {
      assert hops[..i] == hops;
    } else {
      var m := |hops| - 1;
      assert hops[..m][..i] == hops[..i];
      BadHopsStay(rib, up, ip, r, hops[..m], i, n);
    }
  }

  /** A next hop that is reached returns, since the whole route does. */
  lemma HopReturns(rib: Rib, up: set<Interface>, ip: Prefix, r: Route, depth: nat, i: nat, es: set<Egress>)
    requires HopsSoFar(rib, up, ip, r, depth, i, es) && i < |r.nextHops|
    requires !ResolveHops(rib, up, ip, r, r.nextHops, depth).Diverging?
    ensures !HopOutcome(rib, up, r.nextHops[i], depth).Diverges?
  {
    assert r.nextHops[..i + 1][..i] == r.nextHops[..i];
    if HopOutcome(rib, up, r.nextHops[i], depth).Diverges? {
      assert ResolveHops(rib, up, ip, r, r.nextHops[..i + 1], depth).Diverging?;
      BadHopsStay(rib, up, ip, r, r.nextHops, i + 1, depth);
    }
  }

  lemma AllHops(rib: Rib, up: set<Interface>, ip: Prefix, r: Route, depth: nat, es: set<Egress>)
    requires HopsSoFar(rib, up, ip, r, depth, |r.nextHops|, es)
    ensures HopsResult(rib, up, ip, r, depth, false, es)
  {
    assert r.nextHops[..|r.nextHops|] == r.nextHops;
  }

  ghost predicate RoutesSoFar(rib: Rib, up: set<Interface>, ni: string, ip: Prefix, routes: seq<Route>, depth: nat, i: nat,
                              all: map<Preference, set<Egress>>, first: map<Preference, Route>) {
    i <= |routes| &&
    var c := ResolveRoutes(rib, up, ni, ip, routes[..i], depth);
    c.Contributed? && Gathered(routes[..i], c.sets, all, first)
  }

  ghost predicate RoutesResult(rib: Rib, up: set<Interface>, ni: string, ip: Prefix, routes: seq<Route>, depth: nat, bad: bool,
                               all: map<Preference, set<Egress>>, first: map<Preference, Route>) {
    var c := ResolveRoutes(rib, up, ni, ip, routes, depth);
    if bad then c.Failing? else c.Contributed? && Gathered(routes, c.sets, all, first)
  }

  lemma NoRoutesYet(rib: Rib, up: set<Interface>, ni: string, ip: Prefix, routes: seq<Route>, depth: nat)
    ensures RoutesSoFar(rib, up, ni, ip, routes, depth, 0, map[], map[])
  {
    assert routes[..0] == [];
  }

  lemma ConnectedResult(rib: Rib, up: set<Interface>, ni: string, ip: Prefix, r: Route, depth: nat, es: set<Egress>)
    requires r.connected.Some?
    requires es == if r.connected.value in up then {ConnectedHop(ni, ip, r.connected.value)} else {}
    ensures ResolveRoute(rib, up, ni, ip, r, depth) == Contributed([es])
  {
  }

  lemma IndirectResult(rib: Rib, up: set<Interface>, ni: string, ip: Prefix, r: Route, depth: nat, es: set<Egress>)
    requires r.connected.None?
    requires HopsResult(rib, up, ip, r, depth, false, es)
    ensures ResolveRoute(rib, up, ni, ip, r, depth) == Contributed([es])
  {
  }

  lemma GoodRoute(rib: Rib, up: set<Interface>, ni: string, ip: Prefix, routes: seq<Route>, depth: nat, i: nat,
                  all: map<Preference, set<Egress>>, first: map<Preference, Route>, es: set<Egress>,
                  all': map<Preference, set<Egress>>, first': map<Preference, Route>)
    requires RoutesSoFar(rib, up, ni, ip, routes, depth, i, all, first) && i < |routes|
    requires ResolveRoute(rib, up, ni, ip, routes[i], depth) == Contributed([es])
    requires all' == all[routes[i].pref := (if routes[i].pref in all then all[routes[i].pref] else {}) + es]
    requires first' == if routes[i].pref in all then first else first[routes[i].pref := routes[i]]
    ensures RoutesSoFar(rib, up, ni, ip, routes, depth, i + 1, all', first')
  {
    var sets := ResolveRoutes(rib, up, ni, ip, routes[..i], depth).sets;
    OneMoreRoute(rib, up, ni, ip, routes, i, depth, es);
    GatheredStep(routes[..i], sets, all, first, routes[i], es, all', first');
  }

  lemma OneMoreRoute(rib: Rib, up: set<Interface>, ni: string, ip: Prefix, routes: seq<Route>, i: nat, n: nat, es: set<Egress>)
    requires i < |routes|
    requires ResolveRoutes(rib, up, ni, ip, routes[..i], n).Contributed?
    requires ResolveRoute(rib, up, ni, ip, routes[i], n) == Contributed([es])
    ensures routes[..i + 1] == routes[..i] + [routes[i]]
    ensures ResolveRoutes(rib, up, ni, ip, routes[..i + 1], n) == Contributed(ResolveRoutes(rib, up, ni, ip, routes[..i], n).sets + [es])
  {
    assert routes[..i + 1][..i] == routes[..i];
  }

  /** The first failing route makes the whole lookup fail. */
  lemma BadRoute(rib: Rib, up: set<Interface>, ni: string, ip: Prefix, routes: seq<Route>, depth: nat, i: nat,
                 all: map<Preference, set<Egress>>, first: map<Preference, Route>)
    requires RoutesSoFar(rib, up, ni, ip, routes, depth, i, all, first) && i < |routes|
    requires routes[i].connected.None? && ResolveHops(rib, up, ip, routes[i], routes[i].nextHops, depth).Failing?
    ensures RoutesResult(rib, up, ni, ip, routes, depth, true, all, first)
  {
    assert routes[..i + 1][..i] == routes[..i];
    assert ResolveRoutes(rib, up, ni, ip, routes[..i + 1], depth).Failing?;
    BadRoutesStay(rib, up, ni, ip, routes, i + 1, depth);
  }

  lemma {:induction false} BadRoutesStay(rib: Rib, up: set<Interface>, ni: string, ip: Prefix, routes: seq<Route>, i: nat, n: nat)
    requires i <= |routes|
    requires !ResolveRoutes(rib, up, ni, ip, routes[..i], n).Contributed?
    ensures ResolveRoutes(rib, up, ni, ip, routes, n) == ResolveRoutes(rib, up, ni, ip, routes[..i], n)
    decreases |routes|
  {
    if i == |routes| {
      assert routes[..i] == routes;
    } else {
      var m := |routes| - 1;
      assert routes[..m][..i] == routes[..i];
      BadRoutesStay(rib, up, ni, ip, routes[..m], i, n);
    }
  }

  /** A route that is reached returns, since the whole lookup does. */
  lemma RouteReturns(rib: Rib, up: set<Interface>, ni: string, ip: Prefix, routes: seq<Route>, depth: nat, i: nat,
                     all: map<Preference, set<Egress>>, first: map<Preference, Route>)
    requires RoutesSoFar(rib, up, ni, ip, routes, depth, i, all, first) && i < |routes|
    requires !ResolveRoutes(rib, up, ni, ip, routes, depth).Diverging?
    ensures !ResolveRoute(rib, up, ni, ip, routes[i], depth).Diverging?
  {
    assert routes[..i + 1][..i] == routes[..i];
    if ResolveRoute(rib, up, ni, ip, routes[i], depth).Diverging? {
      assert ResolveRoutes(rib, up, ni, ip, routes[..i + 1], depth).Diverging?;
      BadRoutesStay(rib, up, ni, ip, routes, i + 1, depth);
    }
  }

  lemma AllRoutes(rib: Rib, up: set<Interface>, ni: string, ip: Prefix, routes: seq<Route>, depth: nat,
                  all: map<Preference, set<Egress>>, first: map<Preference, Route>)
    requires RoutesSoFar(rib, up, ni, ip, routes, depth, |routes|, all, first)
    ensures RoutesResult(rib, up, ni, ip, routes, depth, false, all, first)
  {
    assert routes[..|routes|] == routes;
  }
}
