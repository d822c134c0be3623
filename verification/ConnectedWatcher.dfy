/**
 * The interface watcher of sysrib/connected.go: on every callback it adds a
 * connected route for each current address, and then deletes the routes of the
 * addresses that are gone.
 */
module ConnectedWatcher {
  import opened Wrappers
  import opened Net
  import opened SysRib
  import opened Resolver
  import opened Resolution
  import opened RibObject

  datatype Connected = Connected(name: string, ifindex: int, prefix: PrefixText, ni: string)

  /** setConnectedRoute: admin distance 0, no next hops. */
  function RouteOf(c: Connected): Route {
    Route(c.prefix, Some(Interface(c.name, c.ifindex, 0)), [], Preference(0, 0))
  }

  predicate Accepted(rib: Rib, c: Connected) {
    c.ni in rib.instances && Canonical(c.prefix).Some?
  }

  function ConnectedKey(c: Connected): Key
    requires Canonical(c.prefix).Some?
  {
    Key(c.ni, Canonical(c.prefix).value, 0, Some(Interface(c.name, c.ifindex, 0)))
  }

  /** The canonical images of a set of addresses. */
  ghost predicate InImage(cs: set<Connected>, k: Key) {
    exists c :: c in cs && Canonical(c.prefix).Some? && ConnectedKey(c) == k
  }

  function Current(rib: Rib, addresses: seq<Connected>): (s: set<Connected>)
    ensures forall c :: c in s <==> c in addresses && Accepted(rib, c)
  {
    set c | c in addresses && Accepted(rib, c)
  }

  datatype Watch = Watch(rib: Rib, prev: set<Connected>)

  /** A route for the key was added on behalf of one of `cs`. */
  ghost predicate AddedFor(rib: Rib, cs: set<Connected>, k: Key) {
    exists c :: c in cs && Canonical(c.prefix).Some? && ConnectedKey(c) == k && Lookup(rib, k) == Some(RouteOf(c))
  }

  /** What one callback does to the table, key by key. */
  ghost predicate Callback(before: Watch, addresses: seq<Connected>, after: Watch) {
    && after.prev == Current(before.rib, addresses)
    && after.rib.instances.Keys == before.rib.instances.Keys
    && forall k ::
         if InImage(before.prev - after.prev, k) then Lookup(after.rib, k) == None
         else if InImage(after.prev, k) then AddedFor(after.rib, after.prev, k)
         else Lookup(after.rib, k) == Lookup(before.rib, k)
  }

  ghost predicate Installed(rib: Rib, k: Key) {
    k.connected.Some? && Lookup(rib, k).Some?
  }

  /** No connected route outlives the address it was added for. */
  ghost predicate Settled(w: Watch) {
    forall k :: Installed(w.rib, k) ==> InImage(w.prev, k)
  }

  /** A removed address has the interface and canonical prefix of a current one. */
  ghost predicate Clash(before: Watch, after: Watch) {
    exists k :: InImage(before.prev - after.prev, k) && InImage(after.prev, k)
  }

  /** What is installed after a callback: the current addresses, less those that clash with a removed one. */
  lemma CallbackInstalls(before: Watch, addresses: seq<Connected>, after: Watch)
    requires Settled(before)
    requires Callback(before, addresses, after)
    ensures Settled(after)
    ensures forall k :: Installed(after.rib, k) <==> InImage(after.prev, k) && !InImage(before.prev - after.prev, k)
  {
    forall k
      ensures Installed(after.rib, k) <==> InImage(after.prev, k) && !InImage(before.prev - after.prev, k)
    {
      assert InImage(before.prev, k) ==> InImage(after.prev, k) || InImage(before.prev - after.prev, k);
    }
  }

  /** Other clients of the RIB write between two callbacks, but no connected route: only the watcher has those. */
  ghost predicate Meanwhile(before: Watch, after: Watch) {
    after.prev == before.prev && forall k :: Installed(before.rib, k) <==> Installed(after.rib, k)
  }

  /** A route without an interface, whoever adds or deletes it, leaves the connected routes alone. */
  lemma OthersWriteMeanwhile(w: Watch, ni: string, r: Route, isDelete: bool)
    requires WellFormed(w.rib) && r.connected == None
    ensures var rib := SetRoute(w.rib, ni, r, isDelete);
            rib.Some? ==> Meanwhile(w, Watch(rib.value, w.prev))
  {
    forall k {
      SetRouteWritesTable(w.rib, ni, r, isDelete, k);
    }
  }

  /** A run of callbacks from a RIB without connected routes; begins[i] is what the i-th callback finds. */
  ghost predicate IsRun(states: seq<Watch>, begins: seq<Watch>, inputs: seq<seq<Connected>>) {
    && |states| == |inputs| + 1
    && |begins| == |inputs|
    && states[0].prev == {}
    && (forall k :: !Installed(states[0].rib, k))
    && (forall i :: 0 <= i < |inputs| ==> Meanwhile(states[i], begins[i]))
    && forall i :: 0 <= i < |inputs| ==> Callback(begins[i], inputs[i], states[i + 1])
  }

  lemma {:induction false} RunSettled(states: seq<Watch>, begins: seq<Watch>, inputs: seq<seq<Connected>>, i: nat)
    requires IsRun(states, begins, inputs) && i < |states|
    ensures Settled(states[i])
    ensures i < |inputs| ==> Settled(begins[i])
  {
    if i > 0 {
      RunSettled(states, begins, inputs, i - 1);
      CallbackInstalls(begins[i - 1], inputs[i - 1], states[i]);
    }
    assert i < |inputs| ==> Meanwhile(states[i], begins[i]);
  }

  /**
   * After every callback of every run the connected routes are exactly the canonical images of
   * the current addresses, if and only if no removed address clashes with a current one.
   */
  lemma WatcherExactlyWhen(states: seq<Watch>, begins: seq<Watch>, inputs: seq<seq<Connected>>, i: nat)
    requires IsRun(states, begins, inputs) && i < |inputs|
    ensures (forall k :: Installed(states[i + 1].rib, k) <==> InImage(Current(begins[i].rib, inputs[i]), k)) <==>
            !Clash(begins[i], states[i + 1])
  {
    RunSettled(states, begins, inputs, i);
    CallbackInstalls(begins[i], inputs[i], states[i + 1]);
  }

  /** Giving an interface a new host address in the same subnet makes the subnet's route disappear. */
  lemma ReaddressingLosesSubnet(before: Watch, c: Connected, d: Connected, after: Watch)
    requires Settled(before) && before.prev == {c}
    requires Callback(before, [d], after)
    requires Accepted(before.rib, c) && Accepted(before.rib, d)
    requires c != d && ConnectedKey(c) == ConnectedKey(d)
    ensures after.prev == {d} && InImage(after.prev, ConnectedKey(d))
    ensures !Installed(after.rib, ConnectedKey(d))
  {
    assert after.prev == {d};
    assert c in before.prev - after.prev;
    CallbackInstalls(before, [d], after);
  }

  /** A RIB with one instance and at most one route. */
  function OneRoute(ni: string, prefix: Prefix, routes: seq<Route>): Rib {
    Rib(map[ni := if routes == [] then map[] else map[prefix := routes]], ni, map[])
  }

  lemma OnlyImage(c: Connected, k: Key)
    requires Canonical(c.prefix).Some?
    ensures InImage({c}, k) <==> k == ConnectedKey(c)
  {
    assert k == ConnectedKey(c) ==> c in {c};
  }

  lemma OnlyRoute(c: Connected, k: Key)
    requires Canonical(c.prefix).Some?
    ensures Lookup(OneRoute(c.ni, Canonical(c.prefix).value, []), k) == None
    ensures Lookup(OneRoute(c.ni, Canonical(c.prefix).value, [RouteOf(c)]), k) == if k == ConnectedKey(c) then Some(RouteOf(c)) else None
  {
    assert [RouteOf(c)][1..] == [];
    assert FindTag([], k.adminDistance, k.connected) == None;
  }

  /** An interface gets its first address. */
  lemma FirstAddress(c: Connected, before: Watch, after: Watch)
    requires Canonical(c.prefix).Some?
    requires before == Watch(OneRoute(c.ni, Canonical(c.prefix).value, []), {})
    requires after == Watch(OneRoute(c.ni, Canonical(c.prefix).value, [RouteOf(c)]), {c})
    ensures Callback(before, [c], after)
  {
    assert Current(before.rib, [c]) == {c} && before.prev - after.prev == {};
    forall k
      ensures if InImage(after.prev, k) then AddedFor(after.rib, after.prev, k) else Lookup(after.rib, k) == Lookup(before.rib, k)
    {
      OnlyImage(c, k);
      OnlyRoute(c, k);
    }
  }

  /** It gets another one in the same subnet instead. */
  lemma SecondAddress(c: Connected, d: Connected, before: Watch, after: Watch)
    requires Canonical(c.prefix).Some? && Canonical(d.prefix).Some? && c != d && ConnectedKey(c) == ConnectedKey(d)
    requires before == Watch(OneRoute(c.ni, Canonical(c.prefix).value, [RouteOf(c)]), {c})
    requires after == Watch(OneRoute(c.ni, Canonical(c.prefix).value, []), {d})
    ensures Callback(before, [d], after)
  {
    assert Current(before.rib, [d]) == {d} && before.prev - after.prev == {c};
    forall k
      ensures if InImage({c}, k) then Lookup(after.rib, k) == None else !InImage(after.prev, k) && Lookup(after.rib, k) == Lookup(before.rib, k)
    {
      OnlyImage(c, k);
      OnlyImage(d, k);
      OnlyRoute(c, k);
    }
  }

  /** For every two addresses of one interface in one subnet there is a run at whose end the subnet has no route. */
  lemma ReaddressingRun(c: Connected, d: Connected) returns (states: seq<Watch>, begins: seq<Watch>)
    requires Canonical(c.prefix).Some? && Canonical(d.prefix).Some? && c != d && ConnectedKey(c) == ConnectedKey(d)
    ensures IsRun(states, begins, [[c], [d]]) && states[2].prev == {d} && forall k :: !Installed(states[2].rib, k)
  {
    var p := Canonical(c.prefix).value;
    var s0 := Watch(OneRoute(c.ni, p, []), {});
    var s1 := Watch(OneRoute(c.ni, p, [RouteOf(c)]), {c});
    var s2 := Watch(OneRoute(c.ni, p, []), {d});
    FirstAddress(c, s0, s1);
    SecondAddress(c, d, s1, s2);
    forall k ensures !Installed(s0.rib, k) && !Installed(s2.rib, k) {
      OnlyRoute(c, k);
    }
    states, begins := [s0, s1, s2], [s0, s1];
  }

  /** 10.0.0.1/8 is replaced by 10.0.0.2/8. */
  lemma ReaddressingExists() returns (c: Connected, d: Connected, states: seq<Watch>, begins: seq<Watch>)
    ensures IsRun(states, begins, [[c], [d]]) && states[2].prev == {d} && forall k :: !Installed(states[2].rib, k)
  {
    var net := [false, false, false, false, true, false, true, false];
    var first, second := net + seq(24, i => i == 23), net + seq(24, i => i == 22);
    c := Connected("eth0", 1, PrefixText(V4, first, 8), "DEFAULT");
    d := Connected("eth0", 1, PrefixText(V4, second, 8), "DEFAULT");
    assert first[31] != second[31];
    assert first[..8] == net == second[..8];
    states, begins := ReaddressingRun(c, d);
  }

  /** Where the subnet of an enabled interface is matched, a lookup uses connected routes, this one among them, whatever else is known. */
  lemma ConnectedIsUsed(rib: Rib, up: set<Interface>, ni: string, ip: Prefix, depth: nat, c: Connected) returns (e: Egress)
    requires Resolve(rib, up, ni, ip, depth + 1).Resolved? && RouteOf(c) in Matched(rib, ni, ip) && Interface(c.name, c.ifindex, 0) in up
    ensures var o := Resolve(rib, up, ni, ip, depth + 1);
            && o.route.Some? && o.route.value.pref.adminDistance == 0 && o.route.value.pref.metric == 0
            && e in o.nexthops && e.port == Interface(c.name, c.ifindex, 0)
  {
    e := ConnectedHop(Instance(rib, ni), ip, Interface(c.name, c.ifindex, 0));
    ConnectedIsOnLink(e, Instance(rib, ni), ip, e.port);
    assert LeavesBy(rib, up, Instance(rib, ni), ip, RouteOf(c), depth, e);
    var i := LowestDistanceFirst(rib, up, ni, ip, depth, RouteOf(c), e);
    assert Chosen(rib, up, ni, ip, depth + 1, RouteOf(c));
    EgressExactlyWhen(rib, up, ni, ip, depth, e);
  }

  // ---------------------------------------------------------------------
  // The callback as it runs
  // ---------------------------------------------------------------------

  lemma SetConnected(rib: Rib, c: Connected, isDelete: bool, k: Key)
    requires WellFormed(rib)
    ensures SetRoute(rib, c.ni, RouteOf(c), isDelete).Some? <==> Accepted(rib, c)
    ensures Accepted(rib, c) ==>
              Lookup(SetRoute(rib, c.ni, RouteOf(c), isDelete).value, k) ==
              if ConnectedKey(c) == k then (if isDelete then None else Some(RouteOf(c))) else Lookup(rib, k)
  {
    SetRouteWritesTable(rib, c.ni, RouteOf(c), isDelete, k);
  }

  class Watcher {
    const rib: SysRIB
    var prevIntfs: set<Connected>

    ghost function View(): Watch
      reads this, rib
    {
      Watch(rib.Value(), prevIntfs)
    }

    constructor (r: SysRIB)
      ensures rib == r && prevIntfs == {}
    {
      rib := r;
      prevIntfs := {};
    }

    method OnUpdate(addresses: seq<Connected>)
      requires WellFormed(rib.Value())
      modifies this, rib
      ensures WellFormed(rib.Value())
      ensures Callback(old(View()), addresses, View())
    {
      ghost var before := View();
      var currentIntfs := AddCurrent(addresses);
      ghost var mid := rib.Value();
      DeleteGone(currentIntfs);
      prevIntfs := currentIntfs;
      forall k
        ensures if InImage(before.prev - prevIntfs, k) then Lookup(rib.Value(), k) == None
                else if InImage(prevIntfs, k) then AddedFor(rib.Value(), prevIntfs, k)
                else Lookup(rib.Value(), k) == Lookup(before.rib, k)
      {
        if !InImage(before.prev - prevIntfs, k) && InImage(prevIntfs, k) {
          assert AddedFor(mid, prevIntfs, k);
        }
      }
    }

    method AddCurrent(addresses: seq<Connected>) returns (currentIntfs: set<Connected>)
      requires WellFormed(rib.Value())
      modifies rib
      ensures WellFormed(rib.Value())
      ensures rib.Value().instances.Keys == old(rib.Value()).instances.Keys
      ensures currentIntfs == Current(old(rib.Value()), addresses)
      ensures forall k :: if InImage(currentIntfs, k) then AddedFor(rib.Value(), currentIntfs, k)
                          else Lookup(rib.Value(), k) == Lookup(old(rib.Value()), k)
    {
      currentIntfs := {};
      for i := 0 to |addresses|
        invariant WellFormed(rib.Value())
        invariant rib.Value().instances.Keys == old(rib.Value()).instances.Keys
        invariant currentIntfs == Current(old(rib.Value()), addresses[..i])
        invariant forall k :: if InImage(currentIntfs, k) then AddedFor(rib.Value(), currentIntfs, k)
                              else Lookup(rib.Value(), k) == Lookup(old(rib.Value()), k)
      {
        var c := addresses[i];
        ghost var was, had := rib.Value(), currentIntfs;
        SetRouteWellFormed(was, c.ni, RouteOf(c), false);
        var ok := rib.SetRoute(c.ni, RouteOf(c), false);
        forall k { SetConnected(was, c, false, k); }
        assert addresses[..i + 1] == addresses[..i] + [c];
        if ok {
          currentIntfs := currentIntfs + {c};
          AddStep(was, rib.Value(), had, c, old(rib.Value()));
        }
      }
      assert addresses[..|addresses|] == addresses;
    }

    method DeleteGone(currentIntfs: set<Connected>)
      requires WellFormed(rib.Value())
      modifies rib
      ensures WellFormed(rib.Value())
      ensures rib.Value().instances.Keys == old(rib.Value()).instances.Keys
      ensures forall k :: Lookup(rib.Value(), k) == if InImage(prevIntfs - currentIntfs, k) && k.ni in rib.instances then None
                                                    else Lookup(old(rib.Value()), k)
    {
      var todo := prevIntfs;
      while todo != {}
        invariant todo <= prevIntfs
        invariant WellFormed(rib.Value())
        invariant rib.Value().instances.Keys == old(rib.Value()).instances.Keys
        invariant forall k :: Lookup(rib.Value(), k) == if InImage(prevIntfs - todo - currentIntfs, k) && k.ni in rib.instances then None
                                                        else Lookup(old(rib.Value()), k)
        decreases todo
      {
        var c :| c in todo;
        ghost var was, doneBefore := rib.Value(), prevIntfs - todo - currentIntfs;
        todo := todo - {c};
        if c !in currentIntfs {
          SetRouteWellFormed(was, c.ni, RouteOf(c), true);
          var ok := rib.SetRoute(c.ni, RouteOf(c), true);
          forall k { SetConnected(was, c, true, k); }
          assert prevIntfs - todo - currentIntfs == doneBefore + {c};
          DeleteStep(was, rib.Value(), doneBefore, c, old(rib.Value()));
        } else {
          assert prevIntfs - todo - currentIntfs == doneBefore;
        }
      }
      assert prevIntfs - todo - currentIntfs == prevIntfs - currentIntfs;
    }
  }

  lemma AddStep(was: Rib, now: Rib, had: set<Connected>, c: Connected, start: Rib)
    requires Canonical(c.prefix).Some?
    requires forall k :: if InImage(had, k) then AddedFor(was, had, k) else Lookup(was, k) == Lookup(start, k)
    requires forall k :: Lookup(now, k) == if ConnectedKey(c) == k then Some(RouteOf(c)) else Lookup(was, k)
    ensures forall k :: if InImage(had + {c}, k) then AddedFor(now, had + {c}, k) else Lookup(now, k) == Lookup(start, k)
  {
    forall k ensures if InImage(had + {c}, k) then AddedFor(now, had + {c}, k) else Lookup(now, k) == Lookup(start, k) {
      if ConnectedKey(c) == k {
        assert c in had + {c};
        assert AddedFor(now, had + {c}, k);
      } else if InImage(had + {c}, k) {
        var d :| d in had + {c} && Canonical(d.prefix).Some? && ConnectedKey(d) == k;
        assert InImage(had, k);
        var e :| e in had && Canonical(e.prefix).Some? && ConnectedKey(e) == k && Lookup(was, k) == Some(RouteOf(e));
        assert e in had + {c};
      }
    }
  }

  lemma DeleteStep(was: Rib, now: Rib, done: set<Connected>, c: Connected, start: Rib)
    requires was.instances.Keys == now.instances.Keys
    requires forall k :: Lookup(was, k) == if InImage(done, k) && k.ni in was.instances then None else Lookup(start, k)
    requires Accepted(was, c) ==> forall k :: Lookup(now, k) == if ConnectedKey(c) == k then None else Lookup(was, k)
    requires !Accepted(was, c) ==> now == was
    ensures forall k :: Lookup(now, k) == if InImage(done + {c}, k) && k.ni in now.instances then None else Lookup(start, k)
  {
    forall k ensures Lookup(now, k) == if InImage(done + {c}, k) && k.ni in now.instances then None else Lookup(start, k) {
      assert InImage(done + {c}, k) <==> InImage(done, k) || (Canonical(c.prefix).Some? && ConnectedKey(c) == k) by {
        if InImage(done, k) {
          var d :| d in done && Canonical(d.prefix).Some? && ConnectedKey(d) == k;
          assert d in done + {c};
        }
        assert c in done + {c};
      }
    }
  }
}
