/** Resolution depends on the table of routes only, not on the order in which they arrived. */
module ArrivalOrder {
  import opened Wrappers
  import opened Net
  import opened SysRib
  import opened Resolver
  import opened Resolution

  lemma {:induction false} FindTagFinds(tags: seq<Route>, i: nat, p: Prefix)
    requires i < |tags|
    requires forall x :: x in tags ==> Canonical(x.prefix) == Some(p)
    requires DistinctKeys(tags)
    ensures FindTag(tags, tags[i].pref.adminDistance, tags[i].connected) == Some(tags[i])
  {
    assert tags[0] in tags && tags[i] in tags;
    if i > 0 {
      assert !RouteKeyMatches(tags[0], tags[i]);
      forall a, b | 0 <= a < b < |tags[1..]| ensures !RouteKeyMatches(tags[1..][a], tags[1..][b]) {
        assert tags[1..][a] == tags[a + 1] && tags[1..][b] == tags[b + 1];
      }
      forall x | x in tags[1..] ensures Canonical(x.prefix) == Some(p) {
        assert x in tags;
      }
      FindTagFinds(tags[1..], i - 1, p);
    }
  }

  lemma {:induction false} FindTagSound(tags: seq<Route>, ad: nat, c: Option<Interface>)
    ensures FindTag(tags, ad, c).Some? ==> FindTag(tags, ad, c).value in tags
  {
    if tags != [] {
      FindTagSound(tags[1..], ad, c);
    }
  }

  /** The routes of a node can be read off the table. */
  lemma TagsFromTable(a: Rib, b: Rib, ni: string, p: Prefix, r: Route)
    requires WellFormed(a) && WellFormed(b) && SameTable(a, b)
    requires ni in a.instances && r in Tags(a.instances[ni], p)
    ensures r in Tags(b.instances[ni], p)
  {
    var tags := a.instances[ni][p];
    assert NodeOk(p, tags);
    var i :| 0 <= i < |tags| && tags[i] == r;
    FindTagFinds(tags, i, p);
    var k := Key(ni, p, r.pref.adminDistance, r.connected);
    assert Lookup(a, k) == Some(r);
    assert Lookup(b, k) == Some(r);
    FindTagSound(Tags(b.instances[ni], p), k.adminDistance, k.connected);
  }

  lemma SameTree(a: Rib, b: Rib, ni: string)
    requires WellFormed(a) && WellFormed(b) && SameTable(a, b)
    requires ni in a.instances
    ensures a.instances[ni].Keys == b.instances[ni].Keys
    ensures forall p :: p in a.instances[ni] ==> forall r :: r in a.instances[ni][p] <==> r in b.instances[ni][p]
  {
    forall p, r ensures r in Tags(a.instances[ni], p) <==> r in Tags(b.instances[ni], p) {
      if r in Tags(a.instances[ni], p) { TagsFromTable(a, b, ni, p, r); }
      if r in Tags(b.instances[ni], p) { TagsFromTable(b, a, ni, p, r); }
    }
    forall p ensures p in a.instances[ni] <==> p in b.instances[ni] {
      if p in a.instances[ni] {
        assert NodeOk(p, a.instances[ni][p]);
        assert a.instances[ni][p][0] in Tags(a.instances[ni], p);
        assert a.instances[ni][p][0] in Tags(b.instances[ni], p);
      }
      if p in b.instances[ni] {
        assert NodeOk(p, b.instances[ni][p]);
        assert b.instances[ni][p][0] in Tags(b.instances[ni], p);
        assert b.instances[ni][p][0] in Tags(a.instances[ni], p);
      }
    }
    forall p, r | p in a.instances[ni] ensures r in a.instances[ni][p] <==> r in b.instances[ni][p] {
      assert r in Tags(a.instances[ni], p) <==> r in Tags(b.instances[ni], p);
    }
  }

  lemma SameMatch(a: Rib, b: Rib, ni: string, ip: Prefix)
    requires WellFormed(a) && WellFormed(b) && SameTable(a, b)
    ensures MatchFound(a, ni, ip) <==> MatchFound(b, ni, ip)
    ensures forall r :: r in Matched(a, ni, ip) <==> r in Matched(b, ni, ip)
  {
    var inst := Instance(a, ni);
    if inst in a.instances {
      SameTree(a, b, inst);
      var d := Deepest(a.instances[inst], ip);
      if d.Some? {
        DeepestUnique(b.instances[inst], ip, d.value);
      }
    }
  }

  function Below(rib: Rib, up: set<Interface>, depth: nat): Assignment {
    (ni, ip) => match Resolve(rib, up, ni, ip, depth) case Resolved(s, _) => s case _ => {}
  }

  /** The nested lookups of both RIBs give the same answers. */
  ghost predicate HopsAgree(a: Rib, b: Rib, up: set<Interface>, ni: string, ip: Prefix, d: nat) {
    forall r, hop :: r in Matched(a, ni, ip) && r.connected.None? && hop in r.nextHops ==>
      && HopUsable(a, up, hop, d)
      && HopUsable(b, up, hop, d)
      && HopOutcome(b, up, hop, d).nexthops == HopOutcome(a, up, hop, d).nexthops
  }

  /** Same table, same answer: whenever one RIB resolves a query, so does the other, to the same next hops. */
  lemma {:induction false} ArrivalOrderIrrelevant(a: Rib, b: Rib, up: set<Interface>, ni: string, ip: Prefix, depth: nat)
    requires WellFormed(a) && WellFormed(b) && SameTable(a, b)
    requires Resolve(a, up, ni, ip, depth).Resolved?
    ensures Resolve(b, up, ni, ip, depth).Resolved?
    ensures Resolve(b, up, ni, ip, depth).nexthops == Resolve(a, up, ni, ip, depth).nexthops
    decreases depth
  {
    var d := depth - 1;
    forall r, hop | r in Matched(a, ni, ip) && r.connected.None? && hop in r.nextHops
      ensures HopUsable(a, up, hop, d) && HopUsable(b, up, hop, d)
      ensures HopOutcome(b, up, hop, d).nexthops == HopOutcome(a, up, hop, d).nexthops
    {
      ResolvedBelow(a, up, ni, ip, d, r, hop);
      ArrivalOrderIrrelevant(a, b, up, hop.networkInstance, HostPrefix(hop.address).value, d);
    }
    SameMatch(a, b, ni, ip);
    StillResolves(b, up, ni, ip, d);
    SameAnswer(a, b, up, ni, ip, d);
  }

  lemma SameAnswer(a: Rib, b: Rib, up: set<Interface>, ni: string, ip: Prefix, d: nat)
    requires a.defaultInstance == b.defaultInstance && a.policies == b.policies
    requires forall r :: r in Matched(a, ni, ip) <==> r in Matched(b, ni, ip)
    requires HopsAgree(a, b, up, ni, ip, d)
    requires Resolve(a, up, ni, ip, d + 1).Resolved? && Resolve(b, up, ni, ip, d + 1).Resolved?
    ensures Resolve(b, up, ni, ip, d + 1).nexthops == Resolve(a, up, ni, ip, d + 1).nexthops
  {
    var sol := Below(a, up, d);
    forall r, hop | r in Matched(a, ni, ip) && r.connected.None? && hop in r.nextHops
      ensures HostPrefix(hop.address).Some?
      ensures HopOutcome(a, up, hop, d).Resolved? && HopOutcome(b, up, hop, d).Resolved?
      ensures sol(hop.networkInstance, HostPrefix(hop.address).value) == HopOutcome(a, up, hop, d).nexthops
      ensures sol(hop.networkInstance, HostPrefix(hop.address).value) == HopOutcome(b, up, hop, d).nexthops
    {
      assert HopUsable(a, up, hop, d) && HopUsable(b, up, hop, d);
    }
    ResolvedMeetsEquation(a, up, sol, ni, ip, d);
    ResolvedMeetsEquation(b, up, sol, ni, ip, d);
    var left, right := Resolve(a, up, ni, ip, d + 1).nexthops, Resolve(b, up, ni, ip, d + 1).nexthops;
    forall e ensures e in left <==> e in right {
      if Leads(a, up, sol, ni, ip, e) { SameLeads(a, b, up, sol, ni, ip, e); }
      if Leads(b, up, sol, ni, ip, e) { SameLeads(b, a, up, sol, ni, ip, e); }
    }
  }

  lemma StillResolves(rib: Rib, up: set<Interface>, ni: string, ip: Prefix, d: nat)
    requires Instance(rib, ni) in rib.instances
    requires forall r, hop :: r in Matched(rib, ni, ip) && r.connected.None? && hop in r.nextHops ==> HopUsable(rib, up, hop, d)
    ensures Resolve(rib, up, ni, ip, d + 1).Resolved?
  {
    var routes := Matched(rib, ni, ip);
    RoutesMeaning(rib, up, Instance(rib, ni), ip, routes, d);
    forall r | r in routes ensures ResolveRoute(rib, up, Instance(rib, ni), ip, r, d).Contributed? {
      HopsMeaning(rib, up, ip, r, r.nextHops, d);
    }
  }

  lemma SameLeads(a: Rib, b: Rib, up: set<Interface>, sol: Assignment, ni: string, ip: Prefix, e: Egress)
    requires a.defaultInstance == b.defaultInstance && a.policies == b.policies
    requires forall r :: r in Matched(a, ni, ip) <==> r in Matched(b, ni, ip)
    requires Leads(a, up, sol, ni, ip, e)
    ensures Leads(b, up, sol, ni, ip, e)
  {
    var inst := Instance(a, ni);
    assert forall r, x :: Contributes(a, up, sol, inst, ip, r, x) <==> Contributes(b, up, sol, inst, ip, r, x) by {
      forall r, x ensures Contributes(a, up, sol, inst, ip, r, x) <==> Contributes(b, up, sol, inst, ip, r, x) {
        forall hop ensures Offers(a, sol, r, hop, ip, x) <==> Offers(b, sol, r, hop, ip, x) {
          assert forall host :: Encap(a, r, host, ip) == Encap(b, r, host, ip);
        }
      }
    }
    var r :| r in Matched(a, ni, ip) && Contributes(a, up, sol, inst, ip, r, e) && Winning(a, up, sol, ni, ip, r);
    assert Winning(b, up, sol, ni, ip, r);
  }
}
