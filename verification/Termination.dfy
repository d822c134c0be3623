/**
 * When resolution terminates. The code has no cycle check; here the graph it
 * walks is made explicit, and termination is tied to the absence of cycles.
 */
module Termination {
  import opened Wrappers
  import opened Net
  import opened SysRib
  import opened Resolver
  import opened Resolution

  /** A prefix of a network instance that holds routes. */
  datatype Node = Node(ni: string, prefix: Prefix)

  function Nodes(rib: Rib): (s: set<Node>)
    ensures forall n :: n in s <==> n.ni in rib.instances && n.prefix in rib.instances[n.ni]
  {
    set ni, p | ni in rib.instances && p in rib.instances[ni] :: Node(ni, p)
  }

  /** The node a query lands on. */
  function MatchNode(rib: Rib, ni: string, ip: Prefix): (r: Option<Node>)
    ensures r.Some? ==> r.value in Nodes(rib)
  {
    var inst := Instance(rib, ni);
    if inst in rib.instances && Deepest(rib.instances[inst], ip).Some?
    then Some(Node(inst, Deepest(rib.instances[inst], ip).value))
    else None
  }

  /** `a` has a route whose next hop lands on `b`. */
  ghost predicate Edge(rib: Rib, a: Node, b: Node) {
    a in Nodes(rib) &&
    exists r, hop :: r in rib.instances[a.ni][a.prefix] && r.connected.None? && hop in r.nextHops && LandsOn(rib, hop, b)
  }

  ghost predicate LandsOn(rib: Rib, hop: NextHop, b: Node) {
    HostPrefix(hop.address).Some? && MatchNode(rib, hop.networkInstance, HostPrefix(hop.address).value) == Some(b)
  }

  ghost predicate IsPath(rib: Rib, path: seq<Node>) {
    && (forall n :: n in path ==> n in Nodes(rib))
    && forall i :: 0 <= i < |path| - 1 ==> Edge(rib, path[i], path[i + 1])
  }

  ghost predicate IsCycle(rib: Rib, path: seq<Node>) {
    |path| >= 2 && IsPath(rib, path) && path[0] == path[|path| - 1]
  }

  ghost predicate Acyclic(rib: Rib) {
    forall path :: !IsCycle(rib, path)
  }

  // ---------------------------------------------------------------------
  // Depth
  // ---------------------------------------------------------------------

  /** A depth that is not reached does not matter. */
  lemma {:induction false} DeeperIsSame(rib: Rib, up: set<Interface>, ni: string, ip: Prefix, d: nat, d': nat)
    requires d <= d'
    requires !Resolve(rib, up, ni, ip, d).Diverges?
    ensures Resolve(rib, up, ni, ip, d') == Resolve(rib, up, ni, ip, d)
    decreases d, 2, 0
  {
    var inst := Instance(rib, ni);
    if inst in rib.instances && Deepest(rib.instances[inst], ip).Some? {
      DeeperRoutes(rib, up, inst, ip, Matched(rib, ni, ip), d - 1, d' - 1);
    }
  }

  lemma {:induction false} DeeperRoutes(rib: Rib, up: set<Interface>, inst: string, ip: Prefix, routes: seq<Route>, d: nat, d': nat)
    requires d <= d'
    requires !ResolveRoutes(rib, up, inst, ip, routes, d).Diverging?
    ensures ResolveRoutes(rib, up, inst, ip, routes, d') == ResolveRoutes(rib, up, inst, ip, routes, d)
    decreases d, 4, |routes|
  {
    if routes != [] {
      var n := |routes| - 1;
      DeeperRoutes(rib, up, inst, ip, routes[..n], d, d');
      if ResolveRoutes(rib, up, inst, ip, routes[..n], d).Contributed? && routes[n].connected.None? {
        DeeperHops(rib, up, ip, routes[n], routes[n].nextHops, d, d');
      }
    }
  }

  lemma {:induction false} DeeperHops(rib: Rib, up: set<Interface>, ip: Prefix, r: Route, hops: seq<NextHop>, d: nat, d': nat)
    requires d <= d'
    requires !ResolveHops(rib, up, ip, r, hops, d).Diverging?
    ensures ResolveHops(rib, up, ip, r, hops, d') == ResolveHops(rib, up, ip, r, hops, d)
    decreases d, 2, |hops| + 1
  {
    if hops != [] {
      var n := |hops| - 1;
      DeeperHops(rib, up, ip, r, hops[..n], d, d');
      if ResolveHops(rib, up, ip, r, hops[..n], d).Contributed? && HostPrefix(hops[n].address).Some? {
        DeeperIsSame(rib, up, hops[n].networkInstance, HostPrefix(hops[n].address).value, d, d');
      }
    }
  }

  /** A lookup that runs out of depth has a route with a next hop that does. */
  lemma DivergingHop(rib: Rib, up: set<Interface>, ni: string, ip: Prefix, depth: nat) returns (r: Route, hop: NextHop)
    requires Resolve(rib, up, ni, ip, depth + 1).Diverges?
    ensures MatchNode(rib, ni, ip).Some? && r in Matched(rib, ni, ip) && r.connected.None?
    ensures hop in r.nextHops && HopOutcome(rib, up, hop, depth).Diverges?
  {
    var inst := Instance(rib, ni);
    var routes := Matched(rib, ni, ip);
    RoutesMeaning(rib, up, inst, ip, routes, depth);
    r :| r in routes && ResolveRoute(rib, up, inst, ip, r, depth).Diverging?;
    HopsMeaning(rib, up, ip, r, r.nextHops, depth);
    hop :| hop in r.nextHops && HopOutcome(rib, up, hop, depth).Diverges?;
  }

  lemma PathGrows(rib: Rib, here: Node, rest: seq<Node>)
    requires IsPath(rib, rest) && rest != [] && Edge(rib, here, rest[0])
    ensures IsPath(rib, [here] + rest)
  {
    var path := [here] + rest;
    assert forall i :: 0 < i < |path| ==> path[i] == rest[i - 1];
  }

  /** Running out of depth leaves a walk of that many nodes behind. */
  lemma {:induction false} DivergenceLeavesPath(rib: Rib, up: set<Interface>, ni: string, ip: Prefix, depth: nat) returns (path: seq<Node>)
    requires depth > 0
    requires Resolve(rib, up, ni, ip, depth).Diverges?
    ensures IsPath(rib, path) && |path| == depth && MatchNode(rib, ni, ip) == Some(path[0])
    decreases depth
  {
    var r, hop := DivergingHop(rib, up, ni, ip, depth - 1);
    var here := MatchNode(rib, ni, ip).value;
    if depth == 1 {
      path := [here];
    } else {
      var rest := DivergenceLeavesPath(rib, up, hop.networkInstance, HostPrefix(hop.address).value, depth - 1);
      assert LandsOn(rib, hop, rest[0]);
      assert Edge(rib, here, rest[0]);
      PathGrows(rib, here, rest);
      path := [here] + rest;
    }
  }

  lemma {:induction false} Pigeonhole(path: seq<Node>, s: set<Node>) returns (i: nat, j: nat)
    requires |path| > |s|
    requires forall n :: n in path ==> n in s
    ensures i < j < |path| && path[i] == path[j]
    decreases |path|
  {
    var last := |path| - 1;
    var n := path[last];
    if k :| 0 <= k < last && path[k] == n {
      return k, last;
    }
    assert n in s;
    forall m | m in path[..last] ensures m in s - {n} {
      var k :| 0 <= k < last && path[k] == m;
    }
    i, j := Pigeonhole(path[..last], s - {n});
  }

  /** On an acyclic RIB resolution needs at most one nested lookup per prefix, and then one more. */
  lemma AcyclicTerminates(rib: Rib, up: set<Interface>, ni: string, ip: Prefix, depth: nat)
    requires Acyclic(rib)
    requires depth > |Nodes(rib)|
    ensures !Resolve(rib, up, ni, ip, depth).Diverges?
    ensures Resolve(rib, up, ni, ip, depth) == Resolve(rib, up, ni, ip, |Nodes(rib)| + 1)
  {
    var n := |Nodes(rib)| + 1;
    if Resolve(rib, up, ni, ip, n).Diverges? {
      var path := DivergenceLeavesPath(rib, up, ni, ip, n);
      var i, j := Pigeonhole(path, Nodes(rib));
      var cycle := path[i..j + 1];
      assert forall k :: 0 <= k < |cycle| ==> cycle[k] == path[i + k];
      assert IsCycle(rib, cycle);
      assert false;
    }
    DeeperIsSame(rib, up, ni, ip, n, depth);
  }

  /** The route and next hop by which a walk leaves its first node. */
  lemma FirstStep(rib: Rib, ni: string, ip: Prefix, path: seq<Node>) returns (r: Route, hop: NextHop, rest: seq<Node>)
    requires IsPath(rib, path) && |path| > 1 && MatchNode(rib, ni, ip) == Some(path[0])
    ensures r in Matched(rib, ni, ip) && r.connected.None? && hop in r.nextHops
    ensures rest == path[1..] && IsPath(rib, rest) && HostPrefix(hop.address).Some?
    ensures MatchNode(rib, hop.networkInstance, HostPrefix(hop.address).value) == Some(rest[0])
  {
    assert Edge(rib, path[0], path[1]);
    r, hop :| r in Matched(rib, ni, ip) && r.connected.None? && hop in r.nextHops && LandsOn(rib, hop, path[1]);
    rest := path[1..];
    assert forall i :: 0 <= i < |rest| ==> rest[i] == path[i + 1];
  }

  /** Conversely, a lookup from which a walk of more than `depth` nodes starts cannot succeed within that depth. */
  lemma {:induction false} LongWalkNeverResolves(rib: Rib, up: set<Interface>, ni: string, ip: Prefix, depth: nat, path: seq<Node>)
    requires IsPath(rib, path) && |path| > depth
    requires MatchNode(rib, ni, ip) == Some(path[0])
    ensures !Resolve(rib, up, ni, ip, depth).Resolved?
    decreases depth
  {
    if depth > 0 && Resolve(rib, up, ni, ip, depth).Resolved? {
      var r, hop, rest := FirstStep(rib, ni, ip, path);
      ResolvedBelow(rib, up, ni, ip, depth - 1, r, hop);
      LongWalkNeverResolves(rib, up, hop.networkInstance, HostPrefix(hop.address).value, depth - 1, rest);
    }
  }

  /** Going round a cycle `k` times. */
  lemma {:induction false} Wind(rib: Rib, cycle: seq<Node>, length: nat) returns (path: seq<Node>)
    requires IsCycle(rib, cycle)
    ensures IsPath(rib, path) && |path| >= length && |path| > 0 && path[0] == cycle[0] && path[|path| - 1] == cycle[0]
    decreases length
  {
    if length <= 1 {
      path := [cycle[0]];
      assert cycle[0] in cycle;
    } else {
      var rest := Wind(rib, cycle, length - 1);
      var lap := cycle[..|cycle| - 1];
      path := lap + rest;
      forall i | 0 <= i < |path| - 1 ensures Edge(rib, path[i], path[i + 1]) {
        if i + 1 < |lap| {
          assert path[i] == cycle[i] && path[i + 1] == cycle[i + 1];
        } else if i + 1 == |lap| {
          assert path[i] == cycle[i] && path[i + 1] == rest[0] == cycle[i + 1];
        } else {
          assert path[i] == rest[i - |lap|] && path[i + 1] == rest[i + 1 - |lap|];
        }
      }
      forall n | n in path ensures n in Nodes(rib) {
        if n in lap {
          assert n in cycle;
        } else {
          assert n in rest;
        }
      }
    }
  }

  /** A lookup that lands on a cycle never succeeds, however deep it goes. */
  lemma CycleNeverResolves(rib: Rib, up: set<Interface>, ni: string, ip: Prefix, cycle: seq<Node>, depth: nat)
    requires IsCycle(rib, cycle)
    requires MatchNode(rib, ni, ip) == Some(cycle[0])
    ensures !Resolve(rib, up, ni, ip, depth).Resolved?
  {
    var path := Wind(rib, cycle, depth + 1);
    LongWalkNeverResolves(rib, up, ni, ip, depth, path);
  }

  // ---------------------------------------------------------------------
  // Without a depth
  // ---------------------------------------------------------------------

  /** The recursion of the source, which has no bound, ends. */
  ghost predicate Returns(rib: Rib, up: set<Interface>, ni: string, ip: Prefix) {
    exists depth: nat :: !Resolve(rib, up, ni, ip, depth).Diverges?
  }

  /** egressNexthops; a recursion that never ends is Diverges. */
  ghost function EgressNexthops(rib: Rib, up: set<Interface>, ni: string, ip: Prefix): Outcome {
    if Returns(rib, up, ni, ip) then
      var depth: nat :| !Resolve(rib, up, ni, ip, depth).Diverges?;
      Resolve(rib, up, ni, ip, depth)
    else Diverges
  }

  /** Whatever depth is enough gives the answer. */
  lemma AnyDepthWillDo(rib: Rib, up: set<Interface>, ni: string, ip: Prefix, depth: nat)
    requires !Resolve(rib, up, ni, ip, depth).Diverges?
    ensures Returns(rib, up, ni, ip) && EgressNexthops(rib, up, ni, ip) == Resolve(rib, up, ni, ip, depth)
  {
    var d: nat :| !Resolve(rib, up, ni, ip, d).Diverges? && EgressNexthops(rib, up, ni, ip) == Resolve(rib, up, ni, ip, d);
    if d <= depth {
      DeeperIsSame(rib, up, ni, ip, d, depth);
    } else {
      DeeperIsSame(rib, up, ni, ip, depth, d);
    }
  }

  /** On an acyclic RIB every lookup returns. */
  lemma AcyclicReturns(rib: Rib, up: set<Interface>, ni: string, ip: Prefix, depth: nat)
    requires Acyclic(rib) && depth > |Nodes(rib)|
    ensures Returns(rib, up, ni, ip) && EgressNexthops(rib, up, ni, ip) == Resolve(rib, up, ni, ip, depth)
  {
    AcyclicTerminates(rib, up, ni, ip, depth);
    AnyDepthWillDo(rib, up, ni, ip, depth);
  }

  /** A lookup that never returns has walks of every length below it, and so runs into a cycle. */
  lemma EndlessMeetsCycle(rib: Rib, up: set<Interface>, ni: string, ip: Prefix) returns (path: seq<Node>, cycle: seq<Node>)
    requires !Returns(rib, up, ni, ip)
    ensures IsPath(rib, path) && path != [] && MatchNode(rib, ni, ip) == Some(path[0])
    ensures IsCycle(rib, cycle) && cycle[0] in path
  {
    var n := |Nodes(rib)| + 1;
    assert Resolve(rib, up, ni, ip, n).Diverges?;
    path := DivergenceLeavesPath(rib, up, ni, ip, n);
    var i, j := Pigeonhole(path, Nodes(rib));
    cycle := path[i..j + 1];
    assert forall k :: 0 <= k < |cycle| ==> cycle[k] == path[i + k];
  }

  // ---------------------------------------------------------------------
  // The solution
  // ---------------------------------------------------------------------

  ghost function Computed(rib: Rib, up: set<Interface>): Assignment {
    (ni, ip) => match EgressNexthops(rib, up, ni, ip) case Resolved(s, _) => s case _ => {}
  }

  /** No lookup in an instance that exists ends in an error. */
  ghost predicate NoErrors(rib: Rib, up: set<Interface>) {
    forall ni, ip :: Instance(rib, ni) in rib.instances ==> !EgressNexthops(rib, up, ni, ip).Fails?
  }

  /** The equation of one query holds for the computed next hops. */
  lemma ComputedMeetsEquation(rib: Rib, up: set<Interface>, ni: string, ip: Prefix, e: Egress)
    requires Acyclic(rib) && NoErrors(rib, up)
    ensures e in Computed(rib, up)(ni, ip) <==> Leads(rib, up, Computed(rib, up), ni, ip, e)
  {
    var n := |Nodes(rib)| + 1;
    AcyclicReturns(rib, up, ni, ip, n + 1);
    if Instance(rib, ni) in rib.instances {
      AgreesWithComputed(rib, up, ni, ip);
      ResolvedMeetsEquation(rib, up, Computed(rib, up), ni, ip, n);
    }
  }

  /** On an acyclic RIB without lookup errors in its instances the computed next hops solve the equations, and nothing else does. */
  lemma ComputedIsTheSolution(rib: Rib, up: set<Interface>)
    requires Acyclic(rib) && NoErrors(rib, up)
    ensures IsSolution(rib, up, Computed(rib, up))
    ensures forall sol: Assignment, ni, ip :: IsSolution(rib, up, sol) ==> sol(ni, ip) == Computed(rib, up)(ni, ip)
  {
    var n := |Nodes(rib)| + 1;
    forall ni, ip, e ensures e in Computed(rib, up)(ni, ip) <==> Leads(rib, up, Computed(rib, up), ni, ip, e) {
      ComputedMeetsEquation(rib, up, ni, ip, e);
    }
    forall sol: Assignment, ni, ip | IsSolution(rib, up, sol) ensures sol(ni, ip) == Computed(rib, up)(ni, ip) {
      AcyclicReturns(rib, up, ni, ip, n);
      if Instance(rib, ni) in rib.instances {
        SolutionUnique(rib, up, sol, ni, ip, n);
      } else {
        assert forall e :: e !in sol(ni, ip);
      }
    }
  }

  lemma AgreesWithComputed(rib: Rib, up: set<Interface>, ni: string, ip: Prefix)
    requires Acyclic(rib)
    requires EgressNexthops(rib, up, ni, ip).Resolved?
    ensures AgreesBelow(rib, up, Computed(rib, up), ni, ip, |Nodes(rib)| + 1)
  {
    var n := |Nodes(rib)| + 1;
    AcyclicReturns(rib, up, ni, ip, n + 1);
    forall r, hop | r in Matched(rib, ni, ip) && r.connected.None? && hop in r.nextHops
      ensures && HostPrefix(hop.address).Some?
              && HopOutcome(rib, up, hop, n).Resolved?
              && Computed(rib, up)(hop.networkInstance, HostPrefix(hop.address).value) == HopOutcome(rib, up, hop, n).nexthops
    {
      ResolvedBelow(rib, up, ni, ip, n, r, hop);
      AnyDepthWillDo(rib, up, hop.networkInstance, HostPrefix(hop.address).value, n);
    }
  }

  // ---------------------------------------------------------------------
  // A RIB that meets all this, with a recursive next hop
  // ---------------------------------------------------------------------

  /** A connected subnet, and a remote prefix reached through an address of the subnet. */
  ghost predicate TwoLevels(rib: Rib, local: Prefix, connected: Route, remote: Prefix, via: Route, hop: NextHop) {
    && rib.defaultInstance != "" && local != remote
    && rib.instances == map[rib.defaultInstance := map[local := [connected], remote := [via]]]
    && connected.connected.Some? && via.connected.None? && via.nextHops == [hop]
    && HostPrefix(hop.address).Some? && Instance(rib, hop.networkInstance) == rib.defaultInstance
    && Covers(local, HostPrefix(hop.address).value) && !Covers(remote, HostPrefix(hop.address).value)
  }

  lemma HopLandsLocally(rib: Rib, local: Prefix, connected: Route, remote: Prefix, via: Route, hop: NextHop)
    requires TwoLevels(rib, local, connected, remote, via, hop)
    ensures MatchNode(rib, hop.networkInstance, HostPrefix(hop.address).value) == Some(Node(rib.defaultInstance, local))
    ensures Matched(rib, hop.networkInstance, HostPrefix(hop.address).value) == [connected]
  {
    var tree := rib.instances[rib.defaultInstance];
    DeepestUnique(tree, HostPrefix(hop.address).value, local);
    assert tree[local] == [connected];
  }

  lemma TwoLevelsAcyclic(rib: Rib, local: Prefix, connected: Route, remote: Prefix, via: Route, hop: NextHop)
    requires TwoLevels(rib, local, connected, remote, via, hop)
    ensures Acyclic(rib)
  {
    HopLandsLocally(rib, local, connected, remote, via, hop);
    var name := rib.defaultInstance;
    assert rib.instances[name][local] == [connected] && rib.instances[name][remote] == [via];
    forall a, b | Edge(rib, a, b) ensures a == Node(name, remote) && b == Node(name, local) {
      assert a.ni == name && (a.prefix == local || a.prefix == remote);
    }
    forall path ensures !IsCycle(rib, path) {
      assert |path| >= 2 && Edge(rib, path[0], path[1]) ==> path[0] != path[1];
      assert |path| > 2 ==> !(Edge(rib, path[0], path[1]) && Edge(rib, path[1], path[2]));
    }
  }

  lemma HopWorks(rib: Rib, up: set<Interface>, local: Prefix, connected: Route, remote: Prefix, via: Route, hop: NextHop, depth: nat)
    requires TwoLevels(rib, local, connected, remote, via, hop) && depth > |Nodes(rib)|
    ensures HopUsable(rib, up, hop, depth)
  {
    var host := HostPrefix(hop.address).value;
    HopLandsLocally(rib, local, connected, remote, via, hop);
    TwoLevelsAcyclic(rib, local, connected, remote, via, hop);
    AcyclicTerminates(rib, up, hop.networkInstance, host, depth);
    FailsExactlyWhen(rib, up, hop.networkInstance, host, depth - 1);
    forall e | e in Resolve(rib, up, hop.networkInstance, host, depth).nexthops ensures !HasGUE(e) {
      EgressExactlyWhen(rib, up, hop.networkInstance, host, depth - 1, e);
    }
  }

  lemma TwoLevelsNoErrors(rib: Rib, up: set<Interface>, local: Prefix, connected: Route, remote: Prefix, via: Route, hop: NextHop)
    requires TwoLevels(rib, local, connected, remote, via, hop)
    ensures NoErrors(rib, up)
  {
    var n := |Nodes(rib)| + 1;
    TwoLevelsAcyclic(rib, local, connected, remote, via, hop);
    HopWorks(rib, up, local, connected, remote, via, hop, n);
    forall ni, ip | Instance(rib, ni) in rib.instances ensures !EgressNexthops(rib, up, ni, ip).Fails? {
      AcyclicReturns(rib, up, ni, ip, n + 1);
      AcyclicTerminates(rib, up, ni, ip, n + 1);
      FailsExactlyWhen(rib, up, ni, ip, n);
      forall r, h | r in Matched(rib, ni, ip) && r.connected.None? && h in r.nextHops ensures h == hop {
        assert r == connected || r == via;
      }
    }
  }

  /** In such a RIB the remote prefix leaves through the subnet's interface: the solution is there, and it is not empty. */
  lemma RemoteIsReached(rib: Rib, up: set<Interface>, local: Prefix, connected: Route, remote: Prefix, via: Route, hop: NextHop) returns (e: Egress)
    requires TwoLevels(rib, local, connected, remote, via, hop) && connected.connected.value in up
    ensures Acyclic(rib) && NoErrors(rib, up) && IsSolution(rib, up, Computed(rib, up))
    ensures e in Computed(rib, up)(rib.defaultInstance, remote) && e.port == connected.connected.value
  {
    TwoLevelsAcyclic(rib, local, connected, remote, via, hop);
    TwoLevelsNoErrors(rib, up, local, connected, remote, via, hop);
    ComputedIsTheSolution(rib, up);
    var sol, name, host := Computed(rib, up), rib.defaultInstance, HostPrefix(hop.address).value;
    HopLandsLocally(rib, local, connected, remote, via, hop);
    var x := ConnectedHop(name, host, connected.connected.value);
    assert Contributes(rib, up, sol, name, host, connected, x);
    assert Leads(rib, up, sol, hop.networkInstance, host, x);
    e := x.(gue := Encap(rib, via, host, remote));
    DeepestUnique(rib.instances[name], remote, remote);
    assert Matched(rib, name, remote) == [via];
    assert Offers(rib, sol, via, hop, remote, e);
    assert Contributes(rib, up, sol, name, remote, via, e);
    assert Leads(rib, up, sol, name, remote, e);
  }

  /** 10.0.0.0/8 on an interface, and 255.0.0.0/8 behind 10.0.0.1. */
  lemma TwoLevelsExist() returns (rib: Rib, local: Prefix, connected: Route, remote: Prefix, via: Route, hop: NextHop)
    ensures TwoLevels(rib, local, connected, remote, via, hop)
  {
    var ones := seq(32, i => true);
    var address := [false, false, false, false, true, false, true, false] + Zeros(23) + [true];
    local, remote := Prefix(V4, address[..8]), Prefix(V4, ones[..8]);
    hop := NextHop(AddrText(V4, address), "");
    connected := Route(PrefixText(V4, address, 8), Some(Interface("eth0", 1, 0)), [], Preference(0, 0));
    via := Route(PrefixText(V4, ones, 8), None, [hop], Preference(5, 0));
    rib := Rib(map["DEFAULT" := map[local := [connected], remote := [via]]], "DEFAULT", map[]);
    assert local.bits[0] != remote.bits[0];
    assert address[0] != remote.bits[0];
  }
}
