/**
 * Recursive resolution of a prefix to its egress next hops
 * (egressNexthops in sysrib/sysrib.go; RFC 4271, section 9.1.2.1).
 *
 * The code recurses without a cycle check, so the reference definition carries
 * a depth bound and says `Diverges` when the bound is reached.
 */
module Resolver {
  import opened Wrappers
  import opened Net
  import opened SysRib

  /** A next hop ready for the forwarding plane. The address is absent on a connected prefix. */
  datatype Egress = Egress(address: Option<Prefix>, networkInstance: string, port: Interface, gue: GUEHeaders)

  predicate HasGUE(e: Egress) {
    e.gue != NO_GUE
  }

  datatype Outcome =
    | Diverges
    | Fails
    | Resolved(nexthops: set<Egress>, route: Option<Route>)

  /** The contributions of each route of a node, or the reason why there are none. */
  datatype Contribution =
    | Diverging
    | Failing
    | Contributed(sets: seq<set<Egress>>)

  const EBGP_DISTANCE := 20

  // ---------------------------------------------------------------------
  // Preferences
  // ---------------------------------------------------------------------

  predicate Preferred(a: Preference, b: Preference) {
    a.adminDistance < b.adminDistance || (a.adminDistance == b.adminDistance && a.metric <= b.metric)
  }

  /** The egress next hops contributed by the routes of one preference. */
  function Merged(routes: seq<Route>, sets: seq<set<Egress>>, pref: Preference): set<Egress>
    requires |routes| == |sets|
  {
    if routes == [] then {}
    else
      var n := |routes| - 1;
      Merged(routes[..n], sets[..n], pref) + (if routes[n].pref == pref then sets[n] else {})
  }

  lemma {:induction false} MergedMeaning(routes: seq<Route>, sets: seq<set<Egress>>, pref: Preference, e: Egress)
    requires |routes| == |sets|
    ensures e in Merged(routes, sets, pref) <==> exists i :: 0 <= i < |routes| && routes[i].pref == pref && e in sets[i]
  {
    if routes != [] {
      var n := |routes| - 1;
      MergedMeaning(routes[..n], sets[..n], pref, e);
    }
  }

  /** The most preferred preference that has a contribution. */
  function Best(routes: seq<Route>, sets: seq<set<Egress>>): Option<Preference>
    requires |routes| == |sets|
  {
    if routes == [] then None
    else
      var n := |routes| - 1;
      var rest := Best(routes[..n], sets[..n]);
      if sets[n] == {} then rest
      else if rest.Some? && Preferred(rest.value, routes[n].pref) then rest
      else Some(routes[n].pref)
  }

  lemma {:induction false} BestMeaning(routes: seq<Route>, sets: seq<set<Egress>>)
    requires |routes| == |sets|
    ensures var b := Best(routes, sets);
            && (b.None? <==> forall i :: 0 <= i < |routes| ==> sets[i] == {})
            && (b.Some? ==> exists i :: 0 <= i < |routes| && routes[i].pref == b.value && sets[i] != {})
            && (b.Some? ==> forall i :: 0 <= i < |routes| && sets[i] != {} ==> Preferred(b.value, routes[i].pref))
  {
    if routes != [] {
      var n := |routes| - 1;
      BestMeaning(routes[..n], sets[..n]);
      if Best(routes[..n], sets[..n]).Some? {
        var i :| 0 <= i < n && routes[..n][i].pref == Best(routes[..n], sets[..n]).value && sets[..n][i] != {};
        assert routes[i].pref == Best(routes[..n], sets[..n]).value && sets[i] != {};
      }
    }
  }

  function FirstWith(routes: seq<Route>, pref: Preference): Option<Route> {
    if routes == [] then None
    else if routes[0].pref == pref then Some(routes[0])
    else FirstWith(routes[1..], pref)
  }

  lemma {:induction false} FirstWithMeaning(routes: seq<Route>, pref: Preference)
    ensures var r := FirstWith(routes, pref);
            && (r.None? <==> forall i :: 0 <= i < |routes| ==> routes[i].pref != pref)
            && (r.Some? ==> r.value in routes && r.value.pref == pref)
  {
    if routes != [] {
      FirstWithMeaning(routes[1..], pref);
      if FirstWith(routes, pref).None? {
        forall i | 0 <= i < |routes| ensures routes[i].pref != pref {
          if i > 0 { assert routes[i] == routes[1..][i - 1]; }
        }
      }
    }
  }

  function Select(routes: seq<Route>, sets: seq<set<Egress>>): Outcome
    requires |routes| == |sets|
  {
    match Best(routes, sets)
    case None => Resolved({}, None)
    case Some(pref) => Resolved(Merged(routes, sets, pref), FirstWith(routes, pref))
  }

  // ---------------------------------------------------------------------
  // Resolution with a depth bound
  // ---------------------------------------------------------------------

  function Instance(rib: Rib, ni: string): string {
    if ni == "" then rib.defaultInstance else ni
  }

  function Encap(rib: Rib, r: Route, hop: Prefix, ip: Prefix): GUEHeaders {
    if r.pref.adminDistance == EBGP_DISTANCE then
      match GUEHeader(rib.policies, hop, ip.family.V6?)
      case Some(h) => h
      case None => NO_GUE
    else NO_GUE
  }

  function ConnectedHop(ni: string, ip: Prefix, port: Interface): Egress {
    Egress(if IsHost(ip) then Some(ip) else None, ni, port, NO_GUE)
  }

  function WithGUE(es: set<Egress>, gue: GUEHeaders): (s: set<Egress>)
    ensures forall e :: e in s <==> exists x :: x in es && e == x.(gue := gue)
  {
    set x | x in es :: x.(gue := gue)
  }

  /** egressNexthops, with at most `depth` nested lookups. */
  function Resolve(rib: Rib, up: set<Interface>, ni: string, ip: Prefix, depth: nat): Outcome
    decreases depth, 2, 0
  {
    if depth == 0 then Diverges
    else
      var inst := Instance(rib, ni);
      if inst !in rib.instances then Fails
      else match Deepest(rib.instances[inst], ip)
        case None => Resolved({}, None)
        case Some(p) =>
          var routes := rib.instances[inst][p];
          match ResolveRoutes(rib, up, inst, ip, routes, depth - 1)
          case Diverging => Diverges
          case Failing => Fails
          case Contributed(sets) => Select(routes, sets)
  }

  /** The loop over the routes of the matched node; the first error ends it. */
  function ResolveRoutes(rib: Rib, up: set<Interface>, inst: string, ip: Prefix, routes: seq<Route>, depth: nat): (c: Contribution)
    ensures c.Contributed? ==> |c.sets| == |routes|
    decreases depth, 4, |routes|
  {
    if routes == [] then Contributed([])
    else
      var n := |routes| - 1;
      match ResolveRoutes(rib, up, inst, ip, routes[..n], depth)
      case Contributed(sets) => (
        match ResolveRoute(rib, up, inst, ip, routes[n], depth)
        case Contributed(s) => Contributed(sets + s)
        case bad => bad)
      case bad => bad
  }

  /** One route: its connected interface if that is enabled, or else its next hops. */
  function ResolveRoute(rib: Rib, up: set<Interface>, inst: string, ip: Prefix, r: Route, depth: nat): (c: Contribution)
    ensures c.Contributed? ==> |c.sets| == 1
    decreases depth, 3, 0
  {
    match r.connected
    case Some(port) => Contributed([if port in up then {ConnectedHop(inst, ip, port)} else {}])
    case None => ResolveHops(rib, up, ip, r, r.nextHops, depth)
  }

  /** The loop over the next hops of a route that is not connected. */
  function ResolveHops(rib: Rib, up: set<Interface>, ip: Prefix, r: Route, hops: seq<NextHop>, depth: nat): (c: Contribution)
    ensures c.Contributed? ==> |c.sets| == 1
    decreases depth, 2, |hops| + 1
  {
    if hops == [] then Contributed([{}])
    else
      var n := |hops| - 1;
      match ResolveHops(rib, up, ip, r, hops[..n], depth)
      case Contributed(sets) => (
        match HostPrefix(hops[n].address)
        case None => Failing
        case Some(host) =>
          match Resolve(rib, up, hops[n].networkInstance, host, depth)
          case Diverges => Diverging
          case Fails => Failing
          case Resolved(es, _) =>
            if exists e :: e in es && HasGUE(e) then Failing
            else Contributed([sets[0] + WithGUE(es, Encap(rib, r, host, ip))]))
      case bad => bad
  }
}
