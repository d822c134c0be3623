/**
 * Population of the community attributes of the BGP RIB (populateRIBAttrs in
 * bgp/gobgp.go, communitiesToOC in bgp/ocgobgp.go; RFC 1997).
 */
module Communities {
  import opened Wrappers
  import opened Decimal
  import opened AttrIndex

  type U32 = n: int | 0 <= n < 0x1_0000_0000

  // ---------------------------------------------------------------------
  // The key of a community sequence
  // ---------------------------------------------------------------------

  /** commsToString: decimal values with a blank between them. */
  function Join(comms: seq<U32>): string {
    if comms == [] then ""
    else
      var n := |comms| - 1;
      Join(comms[..n]) + (if n == 0 then "" else " ") + Digits(comms[n])
  }

  method CommsToString(comms: seq<U32>) returns (b: string)
    ensures b == Join(comms)
  {
    b := "";
    for i := 0 to |comms|
      invariant b == Join(comms[..i])
    {
      if i != 0 {
        b := b + " ";
      }
      b := b + Digits(comms[i]);
      assert comms[..i + 1][..i] == comms[..i];
    }
    assert comms[..|comms|] == comms;
  }

  lemma NoBlank(n: nat)
    ensures ' ' !in Digits(n)
  {
    assert !IsDigit(' ');
  }

  lemma JoinOne(comms: seq<U32>)
    requires |comms| == 1
    ensures Join(comms) == Digits(comms[0]) && ' ' !in Join(comms)
  {
    assert comms[..0] == [];
    assert Join(comms[..0]) == "";
    NoBlank(comms[0]);
  }

  lemma JoinMore(comms: seq<U32>)
    requires |comms| > 1
    ensures var n := |comms| - 1;
            Join(comms) == Join(comms[..n]) + [' '] + Digits(comms[n])
    ensures ' ' in Join(comms)
  {
    var n := |comms| - 1;
    var front := Join(comms[..n]);
    assert Join(comms) == front + " " + Digits(comms[n]);
    assert (front + " " + Digits(comms[n]))[|front|] == ' ';
  }

  /** Two community sequences have the same key only if they are the same sequence. */
  lemma {:induction false} JoinInjective(a: seq<U32>, b: seq<U32>)
    requires Join(a) == Join(b)
    ensures a == b
    decreases |a|
  {
    if |a| > 1 { JoinMore(a); } else if |a| == 1 { JoinOne(a); }
    if |b| > 1 { JoinMore(b); } else if |b| == 1 { JoinOne(b); }
    if |a| > 1 {
      var m, n := |a| - 1, |b| - 1;
      NoBlank(a[m]);
      NoBlank(b[n]);
      SplitUnique(Join(a[..m]), Join(b[..n]), Digits(a[m]), Digits(b[n]), ' ');
      JoinInjective(a[..m], b[..n]);
      DigitsInjective(a[m], b[n]);
      assert a == a[..m] + [a[m]] && b == b[..n] + [b[n]];
    } else if |a| == 1 {
      DigitsInjective(a[0], b[0]);
    }
  }

  // ---------------------------------------------------------------------
  // The OpenConfig form of a community
  // ---------------------------------------------------------------------

  /** convertCommunityOC: the two 16-bit halves in decimal. */
  function ToOC(y: U32): string {
    Digits(y / 0x1_0000) + ":" + Digits(y % 0x1_0000)
  }

  function MapOC(comms: seq<U32>): (s: seq<string>)
    ensures |s| == |comms| && forall i :: 0 <= i < |s| ==> s[i] == ToOC(comms[i])
  {
    seq(|comms|, i requires 0 <= i < |comms| => ToOC(comms[i]))
  }

  predicate IsHalf(s: string) {
    s != [] && (forall c :: c in s ==> IsDigit(c)) && Parse(s) < 0x1_0000
  }

  /** Reading a community written as two 16-bit halves. */
  ghost predicate Reads(s: string, y: U32) {
    exists hi, lo :: s == hi + ":" + lo && IsHalf(hi) && IsHalf(lo) && y == Parse(hi) * 0x1_0000 + Parse(lo)
  }

  /** The text of a community reads back as that community, and as no other. */
  lemma CommunityRoundTrip(y: U32, z: U32)
    ensures Reads(ToOC(y), z) <==> y == z
  {
    var hi, lo := Digits(y / 0x1_0000), Digits(y % 0x1_0000);
    ParseDigits(y / 0x1_0000);
    ParseDigits(y % 0x1_0000);
    assert ToOC(y) == hi + ":" + lo && IsHalf(hi) && IsHalf(lo);
    assert Reads(ToOC(y), y);
    if Reads(ToOC(y), z) {
      var h, l :| ToOC(y) == h + ":" + l && IsHalf(h) && IsHalf(l) && z == Parse(h) * 0x1_0000 + Parse(l);
      assert !IsDigit(':');
      SplitUnique(hi, h, lo, l, ':');
    }
  }

  // ---------------------------------------------------------------------
  // Population
  // ---------------------------------------------------------------------

  datatype Attr = CommunitiesAttr(values: seq<U32>) | OtherAttr | UndecodableAttr

  /** The communities that the last community attribute of a path carries. */
  function LastCommunities(path: seq<Attr>): Option<seq<U32>> {
    if path == [] then None
    else
      var a := path[|path| - 1];
      if a.CommunitiesAttr? && a.values != [] then Some(a.values)
      else LastCommunities(path[..|path| - 1])
  }

  datatype Population =
    | Populated(tracker: Tracker<string>, rib: map<nat, seq<string>>, index: Option<nat>)
    | Halted   // the tracker did not return

  /** The attribute loop of populateRIBAttrs; `index` is what the route's community index is set to. */
  function PopulateAttrs(tracker: Tracker<string>, rib: map<nat, seq<string>>, path: seq<Attr>): Population {
    if path == [] then Populated(tracker, rib, None)
    else
      match PopulateAttrs(tracker, rib, path[..|path| - 1])
      case Halted => Halted
      case Populated(st, r, index) =>
        var a := path[|path| - 1];
        if a.CommunitiesAttr? && a.values != [] then
          match Get(st, Join(a.values))
          case Index(i, st') => Populated(st', r[i := MapOC(a.values)], Some(i))
          case _ => Halted
        else Populated(st, r, index)
  }

  /** Within a round: the entry at an index shows the community sequence that owns the index. */
  ghost predicate Faithful(tracker: Tracker<string>, rib: map<nat, seq<string>>) {
    && Valid(tracker)
    && rib.Keys == tracker.inUseNext.Keys
    && forall comms: seq<U32> :: Join(comms) in tracker.allocs && tracker.allocs[Join(comms)] in rib ==>
         rib[tracker.allocs[Join(comms)]] == MapOC(comms)
  }

  /** The index of a community sequence in use. */
  ghost predicate HasIndex(tracker: Tracker<string>, rib: map<nat, seq<string>>, comms: seq<U32>, i: nat) {
    Join(comms) in tracker.allocs && tracker.allocs[Join(comms)] == i && i in rib
  }

  ghost predicate Extends(tracker: Tracker<string>, rib: map<nat, seq<string>>, tracker': Tracker<string>, rib': map<nat, seq<string>>) {
    && (forall k :: k in tracker.allocs ==> k in tracker'.allocs && tracker'.allocs[k] == tracker.allocs[k])
    && (forall i :: i in rib ==> i in rib')
  }

  lemma GetStaysFaithful(tracker: Tracker<string>, rib: map<nat, seq<string>>, comms: seq<U32>)
    requires Faithful(tracker, rib) && tracker.lastIndex < TWO_64 - 1
    requires Get(tracker, Join(comms)).Index?
    ensures var a := Get(tracker, Join(comms));
            var rib' := rib[a.i := MapOC(comms)];
            && Faithful(a.tracker, rib') && Extends(tracker, rib, a.tracker, rib')
            && HasIndex(a.tracker, rib', comms, a.i) && a.tracker.lastIndex <= tracker.lastIndex + 1
  {
    var a := Get(tracker, Join(comms));
    var rib' := rib[a.i := MapOC(comms)];
    GetKeepsValid(tracker, Join(comms));
    assert rib'.Keys == a.tracker.inUseNext.Keys;
    forall other: seq<U32> | Join(other) in a.tracker.allocs && a.tracker.allocs[Join(other)] in rib'
      ensures rib'[a.tracker.allocs[Join(other)]] == MapOC(other)
    {
      if a.tracker.allocs[Join(other)] == a.i {
        assert a.tracker.inUse[a.i] == Join(other) == Join(comms);
        JoinInjective(other, comms);
      }
    }
  }

  /** Below the limit the tracker always returns. */
  lemma {:induction false} PathIsPopulated(tracker: Tracker<string>, rib: map<nat, seq<string>>, path: seq<Attr>)
    requires Faithful(tracker, rib) && tracker.lastIndex + |path| <= 0x7fff_ffff_ffff_ffff
    ensures PopulateAttrs(tracker, rib, path).Populated?
    decreases |path|
  {
    if path != [] {
      var n := |path| - 1;
      PathIsPopulated(tracker, rib, path[..n]);
      PathStaysFaithful(tracker, rib, path[..n]);
      var before := PopulateAttrs(tracker, rib, path[..n]);
      if path[n].CommunitiesAttr? && path[n].values != [] {
        NeverTooMany(before.tracker, Join(path[n].values));
      }
    }
  }

  lemma {:induction false} PathStaysFaithful(tracker: Tracker<string>, rib: map<nat, seq<string>>, path: seq<Attr>)
    requires Faithful(tracker, rib) && tracker.lastIndex + |path| < TWO_64
    requires PopulateAttrs(tracker, rib, path).Populated?
    ensures var p := PopulateAttrs(tracker, rib, path);
            && Faithful(p.tracker, p.rib) && Extends(tracker, rib, p.tracker, p.rib)
            && p.tracker.lastIndex <= tracker.lastIndex + |path|
            && (p.index.Some? <==> LastCommunities(path).Some?)
            && (p.index.Some? ==> HasIndex(p.tracker, p.rib, LastCommunities(path).value, p.index.value))
  {
    if path != [] {
      var n := |path| - 1;
      PathStaysFaithful(tracker, rib, path[..n]);
      var before := PopulateAttrs(tracker, rib, path[..n]);
      if path[n].CommunitiesAttr? && path[n].values != [] {
        GetStaysFaithful(before.tracker, before.rib, path[n].values);
      }
    }
  }

  datatype Table =
    | Filled(tracker: Tracker<string>, rib: map<nat, seq<string>>, indices: seq<Option<nat>>)
    | Interrupted

  /** All routes of one round, in the order in which they are visited. */
  function PopulateAll(tracker: Tracker<string>, paths: seq<seq<Attr>>): Table {
    if paths == [] then Filled(Begin(tracker), map[], [])
    else
      var n := |paths| - 1;
      match PopulateAll(tracker, paths[..n])
      case Interrupted => Interrupted
      case Filled(st, rib, indices) =>
        match PopulateAttrs(st, rib, paths[n])
        case Halted => Interrupted
        case Populated(st', rib', index) => Filled(st', rib', indices + [index])
  }

  function Total(paths: seq<seq<Attr>>): nat {
    if paths == [] then 0 else Total(paths[..|paths| - 1]) + |paths[|paths| - 1]|
  }

  ghost predicate IndexOk(tracker: Tracker<string>, rib: map<nat, seq<string>>, path: seq<Attr>, index: Option<nat>) {
    && (index.Some? <==> LastCommunities(path).Some?)
    && (index.Some? ==> HasIndex(tracker, rib, LastCommunities(path).value, index.value))
  }

  /** A round in which fewer than 2^63 indices have been allocated is always completed. */
  lemma {:induction false} RoundIsFilled(tracker: Tracker<string>, paths: seq<seq<Attr>>)
    requires Valid(tracker) && tracker.lastIndex + Total(paths) <= 0x7fff_ffff_ffff_ffff
    ensures PopulateAll(tracker, paths).Filled?
    decreases |paths|
  {
    if paths != [] {
      var n := |paths| - 1;
      RoundIsFilled(tracker, paths[..n]);
      RoundIsFaithful(tracker, paths[..n]);
      var before := PopulateAll(tracker, paths[..n]);
      PathIsPopulated(before.tracker, before.rib, paths[n]);
    }
  }

  lemma {:induction false} RoundIsFaithful(tracker: Tracker<string>, paths: seq<seq<Attr>>)
    requires Valid(tracker) && tracker.lastIndex + Total(paths) < TWO_64
    requires PopulateAll(tracker, paths).Filled?
    ensures var t := PopulateAll(tracker, paths);
            && Faithful(t.tracker, t.rib) && |t.indices| == |paths|
            && t.tracker.lastIndex <= tracker.lastIndex + Total(paths)
            && forall r :: 0 <= r < |paths| ==> IndexOk(t.tracker, t.rib, paths[r], t.indices[r])
  {
    if paths != [] {
      var n := |paths| - 1;
      RoundIsFaithful(tracker, paths[..n]);
      var before := PopulateAll(tracker, paths[..n]);
      PathStaysFaithful(before.tracker, before.rib, paths[n]);
      var t := PopulateAll(tracker, paths);
      forall r | 0 <= r < n ensures IndexOk(t.tracker, t.rib, paths[r], t.indices[r]) {
        assert paths[..n][r] == paths[r];
        IndexStays(before.tracker, before.rib, t.tracker, t.rib, paths[r], before.indices[r]);
      }
    }
  }

  lemma IndexStays(tracker: Tracker<string>, rib: map<nat, seq<string>>, tracker': Tracker<string>, rib': map<nat, seq<string>>, path: seq<Attr>, index: Option<nat>)
    requires IndexOk(tracker, rib, path, index) && Extends(tracker, rib, tracker', rib')
    ensures IndexOk(tracker', rib', path, index)
  {
  }

  /** The entry of a route's index reads back as the communities of the route. */
  ghost predicate ReadsBack(t: Table, index: Option<nat>, comms: seq<U32>)
    requires t.Filled?
  {
    && index.Some? && index.value in t.rib && |t.rib[index.value]| == |comms|
    && forall i, y :: 0 <= i < |comms| ==> (Reads(t.rib[index.value][i], y) <==> y == comms[i])
  }

  /**
   * A round is completed if fewer than 2^63 indices have been allocated. After it two routes have the same community
   * index exactly when they carry the same communities, the entry at the index reads back as those communities, and
   * the RIB has no other entries than those the tracker keeps for the next round.
   */
  lemma PopulationTheorem(tracker: Tracker<string>, paths: seq<seq<Attr>>, a: nat, b: nat)
    requires Valid(tracker) && tracker.lastIndex + Total(paths) < 0x1_0000_0000_0000_0000
    requires a < |paths| && b < |paths|
    requires LastCommunities(paths[a]).Some? && LastCommunities(paths[b]).Some?
    ensures tracker.lastIndex + Total(paths) <= 0x7fff_ffff_ffff_ffff ==> PopulateAll(tracker, paths).Filled?
    ensures var t := PopulateAll(tracker, paths);
            t.Filled? ==>
              && |t.indices| == |paths|
              && (t.indices[a] == t.indices[b] <==> LastCommunities(paths[a]) == LastCommunities(paths[b]))
              && ReadsBack(t, t.indices[a], LastCommunities(paths[a]).value)
              && t.rib.Keys == Complete(t.tracker).inUse.Keys
  {
    if tracker.lastIndex + Total(paths) <= 0x7fff_ffff_ffff_ffff {
      RoundIsFilled(tracker, paths);
    }
    if PopulateAll(tracker, paths).Filled? {
      FilledPopulation(tracker, paths, a, b);
    }
  }

  lemma FilledPopulation(tracker: Tracker<string>, paths: seq<seq<Attr>>, a: nat, b: nat)
    requires Valid(tracker) && tracker.lastIndex + Total(paths) < TWO_64
    requires PopulateAll(tracker, paths).Filled?
    requires a < |paths| && b < |paths|
    requires LastCommunities(paths[a]).Some? && LastCommunities(paths[b]).Some?
    ensures var t := PopulateAll(tracker, paths);
            && |t.indices| == |paths|
            && (t.indices[a] == t.indices[b] <==> LastCommunities(paths[a]) == LastCommunities(paths[b]))
            && ReadsBack(t, t.indices[a], LastCommunities(paths[a]).value)
            && t.rib.Keys == Complete(t.tracker).inUse.Keys
  {
    RoundIsFaithful(tracker, paths);
    var t := PopulateAll(tracker, paths);
    var ca, cb := LastCommunities(paths[a]).value, LastCommunities(paths[b]).value;
    assert IndexOk(t.tracker, t.rib, paths[a], t.indices[a]);
    assert IndexOk(t.tracker, t.rib, paths[b], t.indices[b]);
    if t.indices[a] == t.indices[b] {
      assert t.tracker.inUse[t.indices[a].value] == Join(ca) == Join(cb);
      JoinInjective(ca, cb);
    }
    forall i, y | 0 <= i < |ca| ensures Reads(MapOC(ca)[i], y) <==> y == ca[i] {
      CommunityRoundTrip(ca[i], y);
    }
  }

  // ---------------------------------------------------------------------
  // The object
  // ---------------------------------------------------------------------

  class Populator {
    const tracker: IndexTracker<string>
    var community: map<nat, seq<string>>

    constructor ()
      ensures tracker.Value() == Empty() && community == map[] && fresh(tracker)
    {
      tracker := new IndexTracker();
      community := map[];
    }

    /** beginAttrPopulation. */
    method BeginAttrPopulation()
      modifies this, tracker
      ensures tracker.Value() == Begin(old(tracker.Value())) && community == map[]
    {
      community := map[];
      tracker.BeginAllocation();
    }

    /** completeAttrPopulation. */
    method CompleteAttrPopulation()
      modifies tracker
      ensures tracker.Value() == Complete(old(tracker.Value()))
    {
      tracker.CompleteAllocation();
    }

    /** populateRIBAttrs, as far as communities go. */
    method PopulateRIBAttrs(path: seq<Attr>) returns (halted: bool, communityIndex: Option<nat>)
      modifies this, tracker
      ensures var p := PopulateAttrs(old(tracker.Value()), old(community), path);
              if halted then p.Halted?
              else p == Populated(tracker.Value(), community, communityIndex)
    {
      halted, communityIndex := false, None;
      ghost var st, rib := tracker.Value(), community;
      for k := 0 to |path|
        invariant !halted
        invariant PopulateAttrs(st, rib, path[..k]) == Populated(tracker.Value(), community, communityIndex)
      {
        assert path[..k + 1][..k] == path[..k];
        var m := path[k];
        if m.CommunitiesAttr? && m.values != [] {
          var key := CommsToString(m.values);
          var a := tracker.GetOrAllocIndex(key);
          if !a.Index? {
            HaltedStays(st, rib, path, k + 1);
            halted := true;
            return;
          }
          communityIndex := Some(a.i);
          community := community[a.i := MapOC(m.values)];
        }
      }
      assert path[..|path|] == path;
    }
  }

  lemma {:induction false} HaltedStays(tracker: Tracker<string>, rib: map<nat, seq<string>>, path: seq<Attr>, k: nat)
    requires k <= |path| && PopulateAttrs(tracker, rib, path[..k]).Halted?
    ensures PopulateAttrs(tracker, rib, path).Halted?
    decreases |path|
  {
    if k == |path| {
      assert path[..k] == path;
    } else {
      var n := |path| - 1;
      assert path[..n][..k] == path[..k];
      HaltedStays(tracker, rib, path[..n], k);
    }
  }
}
