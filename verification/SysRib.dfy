/**
 * The route table of sysrib/sysrib.go: raw routes per network instance, kept as
 * tags of a longest-match tree, and the GUE encapsulation policies.
 */
module SysRib {
  import opened Wrappers
  import opened Net

  datatype Interface = Interface(name: string, index: int, subinterface: nat)

  datatype Preference = Preference(adminDistance: nat, metric: nat)

  datatype NextHop = NextHop(address: AddrText, networkInstance: string)

  datatype Route = Route(prefix: PrefixText, connected: Option<Interface>, nextHops: seq<NextHop>, pref: Preference)

  datatype GUEPolicy = GUEPolicy(dstPortV4: nat, dstPortV6: nat, srcIP4: seq<bool>, srcIP6: seq<bool>)

  type Tree = map<Prefix, seq<Route>>

  datatype Rib = Rib(instances: map<string, Tree>, defaultInstance: string, policies: map<Prefix, GUEPolicy>)

  // ---------------------------------------------------------------------
  // Adding and deleting routes
  // ---------------------------------------------------------------------

  /** routeKeyMatches: canonical prefix, admin distance and connected interface agree. */
  predicate RouteKeyMatches(a: Route, b: Route) {
    && Canonical(a.prefix).Some?
    && Canonical(a.prefix) == Canonical(b.prefix)
    && a.pref.adminDistance == b.pref.adminDistance
    && a.connected == b.connected
  }

  function Without(tags: seq<Route>, r: Route): (rest: seq<Route>)
    ensures forall x :: x in rest <==> x in tags && !RouteKeyMatches(x, r)
  {
    if tags == [] then []
    else
      var rest := Without(tags[1..], r);
      assert forall x :: x in tags <==> x == tags[0] || x in tags[1..];
      if RouteKeyMatches(tags[0], r) then rest else [tags[0]] + rest
  }

  function Tags(tree: Tree, p: Prefix): seq<Route> {
    if p in tree then tree[p] else []
  }

  function WithTags(tree: Tree, p: Prefix, tags: seq<Route>): Tree {
    if tags == [] then tree - {p} else tree[p := tags]
  }

  /** Tree.Delete: drops every tag of the node that matches; an empty node disappears. */
  function TreeDelete(tree: Tree, p: Prefix, r: Route): Tree {
    if p in tree then WithTags(tree, p, Without(tree[p], r)) else tree
  }

  /** Tree.Add: appends the tag unless a matching one is present. */
  function TreeAdd(tree: Tree, p: Prefix, r: Route): Tree {
    if exists x :: x in Tags(tree, p) && RouteKeyMatches(x, r) then tree
    else tree[p := Tags(tree, p) + [r]]
  }

  /** setRoute; None stands for a returned error. */
  function SetRoute(rib: Rib, ni: string, r: Route, isDelete: bool): Option<Rib> {
    if ni !in rib.instances then None
    else match Canonical(r.prefix)
      case None => None
      case Some(p) =>
        var tree := TreeDelete(rib.instances[ni], p, r);
        Some(rib.(instances := rib.instances[ni := if isDelete then tree else TreeAdd(tree, p, r)]))
  }

  // ---------------------------------------------------------------------
  // The table the tagged tree stands for
  // ---------------------------------------------------------------------

  /** The unique identifier of a raw route. */
  datatype Key = Key(ni: string, prefix: Prefix, adminDistance: nat, connected: Option<Interface>)

  function KeyOf(ni: string, r: Route): Option<Key> {
    match Canonical(r.prefix)
    case None => None
    case Some(p) => Some(Key(ni, p, r.pref.adminDistance, r.connected))
  }

  function FindTag(tags: seq<Route>, adminDistance: nat, connected: Option<Interface>): Option<Route> {
    if tags == [] then None
    else if tags[0].pref.adminDistance == adminDistance && tags[0].connected == connected then Some(tags[0])
    else FindTag(tags[1..], adminDistance, connected)
  }

  function Lookup(rib: Rib, k: Key): Option<Route> {
    if k.ni in rib.instances then FindTag(Tags(rib.instances[k.ni], k.prefix), k.adminDistance, k.connected) else None
  }

  predicate DistinctKeys(tags: seq<Route>) {
    forall i, j :: 0 <= i < j < |tags| ==> !RouteKeyMatches(tags[i], tags[j])
  }

  /** Every node has tags, every tag sits at its own canonical prefix, and no two tags of a node share a key. */
  ghost predicate NodeOk(p: Prefix, tags: seq<Route>) {
    && tags != []
    && (forall r :: r in tags ==> Canonical(r.prefix) == Some(p))
    && DistinctKeys(tags)
  }

  ghost predicate WellFormed(rib: Rib) {
    forall ni, p :: ni in rib.instances && p in rib.instances[ni] ==> NodeOk(p, rib.instances[ni][p])
  }

  lemma {:induction false} FindTagAfterWithout(tags: seq<Route>, r: Route, ad: nat, c: Option<Interface>, p: Prefix)
    requires Canonical(r.prefix) == Some(p)
    requires forall x :: x in tags ==> Canonical(x.prefix) == Some(p)
    ensures FindTag(Without(tags, r), ad, c) ==
            if ad == r.pref.adminDistance && c == r.connected then None else FindTag(tags, ad, c)
  {
    if tags != [] {
      assert forall x :: x in tags[1..] ==> x in tags;
      FindTagAfterWithout(tags[1..], r, ad, c, p);
      assert tags[0] in tags;
      var rest := Without(tags[1..], r);
      if !RouteKeyMatches(tags[0], r) {
        assert ([tags[0]] + rest)[1..] == rest;
      }
    }
  }

  lemma {:induction false} FindTagAppend(tags: seq<Route>, r: Route, ad: nat, c: Option<Interface>)
    ensures FindTag(tags + [r], ad, c) ==
            if FindTag(tags, ad, c).Some? then FindTag(tags, ad, c)
            else if ad == r.pref.adminDistance && c == r.connected then Some(r) else None
  {
    if tags == [] {
      assert (tags + [r])[1..] == [];
    } else {
      FindTagAppend(tags[1..], r, ad, c);
      assert (tags + [r])[1..] == tags[1..] + [r];
    }
  }

  lemma {:induction false} WithoutDistinct(tags: seq<Route>, r: Route)
    requires DistinctKeys(tags)
    ensures DistinctKeys(Without(tags, r))
  {
    if tags != [] {
      WithoutDistinct(tags[1..], r);
      var rest := Without(tags[1..], r);
      if !RouteKeyMatches(tags[0], r) {
        forall j | 0 < j < |[tags[0]] + rest| ensures !RouteKeyMatches(tags[0], ([tags[0]] + rest)[j]) {
          assert ([tags[0]] + rest)[j] == rest[j - 1];
          assert rest[j - 1] in rest;
          assert rest[j - 1] in tags[1..];
        }
      }
    }
  }

  /** One operation on the tree is one write to the table; a failed operation writes nothing. */
  lemma SetRouteWritesTable(rib: Rib, ni: string, r: Route, isDelete: bool, k: Key)
    requires WellFormed(rib)
    ensures SetRoute(rib, ni, r, isDelete).None? <==> ni !in rib.instances || Canonical(r.prefix).None?
    ensures SetRoute(rib, ni, r, isDelete).Some? ==>
              Lookup(SetRoute(rib, ni, r, isDelete).value, k) ==
              if KeyOf(ni, r) == Some(k) then (if isDelete then None else Some(r)) else Lookup(rib, k)
  {
    if ni in rib.instances && Canonical(r.prefix).Some? && k.ni == ni && k.prefix == Canonical(r.prefix).value {
      var p := k.prefix;
      var tags := Tags(rib.instances[ni], p);
      assert p in rib.instances[ni] ==> NodeOk(p, tags);
      FindTagAfterWithout(tags, r, k.adminDistance, k.connected, p);
      FindTagAppend(Without(tags, r), r, k.adminDistance, k.connected);
      var tree := TreeDelete(rib.instances[ni], p, r);
      assert Tags(tree, p) == Without(tags, r);
    }
  }

  lemma SetRouteWellFormed(rib: Rib, ni: string, r: Route, isDelete: bool)
    requires WellFormed(rib)
    ensures SetRoute(rib, ni, r, isDelete).Some? ==> WellFormed(SetRoute(rib, ni, r, isDelete).value)
    ensures SetRoute(rib, ni, r, isDelete).Some? ==>
              SetRoute(rib, ni, r, isDelete).value.instances.Keys == rib.instances.Keys
  {
    if ni in rib.instances && Canonical(r.prefix).Some? {
      var p := Canonical(r.prefix).value;
      var tags := Tags(rib.instances[ni], p);
      assert p in rib.instances[ni] ==> NodeOk(p, tags);
      var kept := Without(tags, r);
      WithoutDistinct(tags, r);
      assert kept != [] ==> NodeOk(p, kept);
      assert NodeOk(p, kept + [r]) by {
        forall i | 0 <= i < |kept| ensures !RouteKeyMatches(kept[i], r) {
          assert kept[i] in kept;
        }
      }
      assert Tags(TreeDelete(rib.instances[ni], p, r), p) == kept;
    }
  }

  datatype RouteOp = RouteOp(ni: string, route: Route, isDelete: bool)

  function ApplyOp(rib: Rib, op: RouteOp): Rib {
    match SetRoute(rib, op.ni, op.route, op.isDelete)
    case None => rib
    case Some(rib') => rib'
  }

  function ApplyOps(rib: Rib, ops: seq<RouteOp>): Rib {
    if ops == [] then rib else ApplyOp(ApplyOps(rib, ops[..|ops| - 1]), ops[|ops| - 1])
  }

  /** What a plain table holds at `k` after `ops`: the effect of the last operation on that key. */
  function LastWrite(instances: set<string>, ops: seq<RouteOp>, k: Key, start: Option<Route>): Option<Route> {
    if ops == [] then start
    else
      var op := ops[|ops| - 1];
      if op.ni in instances && KeyOf(op.ni, op.route) == Some(k)
      then (if op.isDelete then None else Some(op.route))
      else LastWrite(instances, ops[..|ops| - 1], k, start)
  }

  /** After any sequence of adds and deletes the tagged tree is the table of last writes. */
  lemma {:induction false} TreeRefinesTable(rib: Rib, ops: seq<RouteOp>, k: Key)
    requires WellFormed(rib)
    ensures WellFormed(ApplyOps(rib, ops))
    ensures ApplyOps(rib, ops).instances.Keys == rib.instances.Keys
    ensures Lookup(ApplyOps(rib, ops), k) == LastWrite(rib.instances.Keys, ops, k, Lookup(rib, k))
  {
    if ops != [] {
      var n := |ops| - 1;
      TreeRefinesTable(rib, ops[..n], k);
      var mid := ApplyOps(rib, ops[..n]);
      SetRouteWritesTable(mid, ops[n].ni, ops[n].route, ops[n].isDelete, k);
      SetRouteWellFormed(mid, ops[n].ni, ops[n].route, ops[n].isDelete);
    }
  }

  /** Two RIBs that hold the same table. */
  ghost predicate SameTable(a: Rib, b: Rib) {
    && a.instances.Keys == b.instances.Keys
    && a.defaultInstance == b.defaultInstance
    && a.policies == b.policies
    && forall k :: Lookup(a, k) == Lookup(b, k)
  }

  /** Operations on different keys commute. */
  lemma DifferentKeysCommute(rib: Rib, a: RouteOp, b: RouteOp)
    requires WellFormed(rib)
    requires KeyOf(a.ni, a.route) != KeyOf(b.ni, b.route)
    ensures SameTable(ApplyOps(rib, [a, b]), ApplyOps(rib, [b, a]))
  {
    forall k ensures Lookup(ApplyOps(rib, [a, b]), k) == Lookup(ApplyOps(rib, [b, a]), k) {
      TwoOps(rib, a, b, k);
      TwoOps(rib, b, a, k);
    }
    var k0 := Key("", Prefix(V4, []), 0, None);
    TreeRefinesTable(rib, [a, b], k0);
    TreeRefinesTable(rib, [b, a], k0);
    SetRouteKeepsRest(rib, [a, b]);
    SetRouteKeepsRest(rib, [b, a]);
  }

  lemma TwoOps(rib: Rib, a: RouteOp, b: RouteOp, k: Key)
    requires WellFormed(rib)
    ensures Lookup(ApplyOps(rib, [a, b]), k) ==
            LastWrite(rib.instances.Keys, [b], k, LastWrite(rib.instances.Keys, [a], k, Lookup(rib, k)))
  {
    TreeRefinesTable(rib, [a, b], k);
    assert [a, b][..1] == [a];
    assert [b][..0] == [] && [a][..0] == [];
  }

  lemma {:induction false} SetRouteKeepsRest(rib: Rib, ops: seq<RouteOp>)
    ensures ApplyOps(rib, ops).defaultInstance == rib.defaultInstance
    ensures ApplyOps(rib, ops).policies == rib.policies
  {
    if ops != [] {
      SetRouteKeepsRest(rib, ops[..|ops| - 1]);
    }
  }

  // ---------------------------------------------------------------------
  // GUE policies
  // ---------------------------------------------------------------------

  function SetPolicy(rib: Rib, prefix: PrefixText, policy: GUEPolicy): Option<Rib> {
    match Canonical(prefix)
    case None => None
    case Some(p) => Some(rib.(policies := rib.policies[p := policy]))
  }

  function DeletePolicy(rib: Rib, prefix: PrefixText): Option<Rib> {
    match Canonical(prefix)
    case None => None
    case Some(p) => Some(rib.(policies := rib.policies - {p}))
  }

  function Zeros(n: nat): (z: seq<bool>)
    ensures |z| == n && forall i :: 0 <= i < n ==> !z[i]
  {
    seq(n, _ => false)
  }

  datatype GUEHeaders = GUEHeaders(policy: GUEPolicy, dstIP4: seq<bool>, dstIP6: seq<bool>, isV6: bool)

  const NO_POLICY_FIELDS := GUEPolicy(0, 0, Zeros(32), Zeros(128))

  /** The zero value of the header struct: no encapsulation. */
  const NO_GUE := GUEHeaders(NO_POLICY_FIELDS, Zeros(32), Zeros(128), false)

  /** getGUEHeader for a parsed address: the headers of the deepest covering policy, if any. */
  function GUEHeader(policies: map<Prefix, GUEPolicy>, address: Prefix, payloadIsV6: bool): Option<GUEHeaders> {
    match Deepest(policies, address)
    case None => None
    case Some(p) =>
      var policy := policies[p];
      Some(if address.family.V6? then
        GUEHeaders(NO_POLICY_FIELDS.(dstPortV6 := policy.dstPortV6, srcIP6 := policy.srcIP6), Zeros(32), address.bits, true)
      else if payloadIsV6 then
        GUEHeaders(NO_POLICY_FIELDS.(dstPortV6 := policy.dstPortV6, srcIP4 := policy.srcIP4), address.bits, Zeros(128), false)
      else
        GUEHeaders(NO_POLICY_FIELDS.(dstPortV4 := policy.dstPortV4, srcIP4 := policy.srcIP4), address.bits, Zeros(128), false))
  }
}
