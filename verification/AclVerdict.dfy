/** When exactly the verdict of Probe depends on the order maps are read in. */
module AclVerdict {
  import opened Wrappers
  import opened PathElem
  import opened AclTrie
  import opened AclWalk
  import opened AclSteer
  import opened AclNodes
  import opened AclProbe
  import opened AclTheorem

  ghost predicate UniqueDeepest(nodes: Nodes, q: Query, d: Id)
    requires PrefixClosed(nodes)
  {
    Candidate(nodes, q, d) && forall x :: Candidate(nodes, q, x) && x != d ==> |x| < |d|
  }

  /** A match that does not lie above d and fixes no fewer keys: some order consults it besides d. */
  ghost predicate Rival(nodes: Nodes, q: Query, d: Id, y: Id)
    requires PrefixClosed(nodes)
  {
    Candidate(nodes, q, y) && !(y <= d) && Total(nodes, y) >= Total(nodes, d)
  }

  ghost predicate Overrules(nodes: Nodes, q: Query, d: Id, y: Id)
    requires PrefixClosed(nodes)
  {
    Rival(nodes, q, d, y) && Says(nodes, q, y).0 == ActionDeny
  }

  /** A denial by name decides: d's own, or one that overrules d. */
  ghost predicate NameDenies(nodes: Nodes, q: Query, d: Id)
    requires PrefixClosed(nodes)
  {
    || Says(nodes, q, d) == (ActionDeny, true)
    || (Says(nodes, q, d).0 == ActionPermit && exists y :: Overrules(nodes, q, d, y) && Says(nodes, q, y).1)
  }

  /** A denial by group and a rival's permission by name are both at issue, and no denial by name decides. */
  ghost predicate Standoff(nodes: Nodes, q: Query, d: Id)
    requires PrefixClosed(nodes)
  {
    && !NameDenies(nodes, q, d)
    && (exists x :: (x == d || Rival(nodes, q, d, x)) && Says(nodes, q, x) == (ActionDeny, false))
    && exists z :: Rival(nodes, q, d, z) && Says(nodes, q, z) == (ActionPermit, true)
  }

  // ---------------------------------------------------------------------
  // What is consulted
  // ---------------------------------------------------------------------

  lemma {:induction false} SpecificAtLeast(nodes: Nodes, d: Id, rest: seq<Id>, z: Id)
    ensures Specific(nodes, [d] + rest).1 >= Total(nodes, d)
    ensures z in Specific(nodes, [d] + rest).0 ==> Total(nodes, z) >= Total(nodes, d)
    decreases |rest|
  {
    var ids := [d] + rest;
    if rest == [] {
      assert ids[..0] == [];
    } else {
      var n := |rest| - 1;
      assert ids[..|ids| - 1] == [d] + rest[..n];
      SpecificAtLeast(nodes, d, rest[..n], z);
    }
  }

  lemma {:induction false} SpecificMost(nodes: Nodes, ids: seq<Id>, y: Id)
    requires forall x :: x in ids ==> Total(nodes, x) <= Total(nodes, y)
    ensures Specific(nodes, ids).1 <= Total(nodes, y)
    decreases |ids|
  {
    if ids != [] {
      SpecificMost(nodes, ids[..|ids| - 1], y);
    }
  }

  /** A node that fixes as many keys as everything kept before it is consulted. */
  lemma {:induction false} SpecificReaches(nodes: Nodes, ids: seq<Id>, y: Id, rest: seq<Id>)
    requires forall x :: x in ids ==> Total(nodes, x) <= Total(nodes, y)
    ensures y in Specific(nodes, ids + [y] + rest).0
    decreases |rest|
  {
    var all := ids + [y] + rest;
    if rest == [] {
      assert all[..|all| - 1] == ids;
      SpecificMost(nodes, ids, y);
    } else {
      assert all[..|all| - 1] == ids + [y] + rest[..|rest| - 1];
      SpecificReaches(nodes, ids, y, rest[..|rest| - 1]);
    }
  }

  lemma DeepestAt(nodes: Nodes, q: Query, d: Id, visits: seq<Id>, i: nat)
    requires PrefixClosed(nodes) && UniqueDeepest(nodes, q, d) && NoRepeats(visits) && i < |visits| && visits[i] == d
    ensures IsFirstDeepest(nodes, q, visits, i)
  {
    assert forall x :: x in visits[..i] ==> x != d;
  }

  lemma {:induction false} SpecificHead(nodes: Nodes, d: Id, rest: seq<Id>) returns (others: seq<Id>)
    ensures Specific(nodes, [d] + rest).0 == [d] + others && forall z :: z in others ==> z in rest
    decreases |rest|
  {
    var ids := [d] + rest;
    if rest == [] {
      assert ids[..0] == [];
      others := [];
    } else {
      var n := |rest| - 1;
      assert ids[..|ids| - 1] == [d] + rest[..n];
      var before := SpecificHead(nodes, d, rest[..n]);
      others := if Total(nodes, rest[n]) >= Specific(nodes, [d] + rest[..n]).1 then before + [rest[n]] else before;
      Regroup([d], before, [rest[n]]);
    }
  }

  /** In every walk the deepest node is consulted first, and after it only rivals. */
  lemma AlwaysConsults(nodes: Nodes, q: Query, d: Id, visits: seq<Id>) returns (others: seq<Id>)
    requires PrefixClosed(nodes) && UniqueDeepest(nodes, q, d) && Walks(nodes, q.path, [[]], visits)
    ensures Consulted(nodes, q, visits) == [d] + others && Matching(nodes, q, visits).0 != []
    ensures forall z :: z in others ==> Rival(nodes, q, d, z)
  {
    WalkMeaning(nodes, q.path, visits);
    CoveringVisited(nodes, q.path, visits, d);
    var i :| 0 <= i < |visits| && visits[i] == d;
    DeepestAt(nodes, q, d, visits, i);
    FirstKept(nodes, q, visits, i);
    var after := visits[i + 1..];
    others := SpecificHead(nodes, d, Candidates(nodes, q, after));
    forall z | z in others ensures Rival(nodes, q, d, z) {
      CandidatesMeaning(nodes, q, after, z);
      NotAgain(visits, i, z);
      assert z in [d] + others;
      ConsultedLater(nodes, q, visits, i, z);
    }
  }

  lemma NotAgain(visits: seq<Id>, i: nat, z: Id)
    requires NoRepeats(visits) && i < |visits| && z in visits[i + 1..]
    ensures z != visits[i]
  {
    var j :| 0 <= j < |visits[i + 1..]| && visits[i + 1..][j] == z;
    assert visits[i + 1 + j] == z;
  }

  lemma ConsultedLater(nodes: Nodes, q: Query, visits: seq<Id>, i: nat, z: Id)
    requires PrefixClosed(nodes) && IsWalk(nodes, q.path, visits) && IsFirstDeepest(nodes, q, visits, i)
    requires z in Consulted(nodes, q, visits) && z != visits[i]
    ensures !(z <= visits[i]) && Total(nodes, z) >= Total(nodes, visits[i])
  {
    var after := visits[i + 1..];
    FirstKept(nodes, q, visits, i);
    SpecificAtLeast(nodes, visits[i], Candidates(nodes, q, after), z);
    SpecificMeaning(nodes, Matching(nodes, q, visits).0);
    assert z in Candidates(nodes, q, after);
    CandidatesMeaning(nodes, q, after, z);
    var j :| 0 <= j < |after| && after[j] == z;
    assert visits[i + 1 + j] == z;
  }

  // ---------------------------------------------------------------------
  // The two walks
  // ---------------------------------------------------------------------

  lemma {:induction false} NoCandidates(nodes: Nodes, q: Query, ids: seq<Id>)
    requires PrefixClosed(nodes) && forall id :: id in ids ==> !Candidate(nodes, q, id)
    ensures Candidates(nodes, q, ids) == []
    decreases |ids|
  {
    if ids != [] {
      NoCandidates(nodes, q, ids[..|ids| - 1]);
    }
  }

  lemma {:induction false} CandidatesConcat(nodes: Nodes, q: Query, a: seq<Id>, b: seq<Id>)
    requires PrefixClosed(nodes)
    ensures Candidates(nodes, q, a + b) == Candidates(nodes, q, a) + Candidates(nodes, q, b)
    decreases |b|
  {
    if b == [] {
      assert a + b == a && Candidates(nodes, q, a) + [] == Candidates(nodes, q, a);
    } else {
      var n := |b| - 1;
      var last := if Candidate(nodes, q, b[n]) then [b[n]] else [];
      TopApart(b);
      Regroup(a, b[..n], [b[n]]);
      CandidatesConcat(nodes, q, a, b[..n]);
      MatchingAppend(nodes, q, a + b[..n], b[n]);
      MatchingAppend(nodes, q, b[..n], b[n]);
      Regroup(Candidates(nodes, q, a), Candidates(nodes, q, b[..n]), last);
    }
  }

  lemma PlaceOf(pre: seq<Id>, d: Id, after: seq<Id>)
    ensures (pre + [d] + after)[|pre|] == d && (pre + [d] + after)[|pre| + 1..] == after
  {
  }

  lemma KeptShape(d: Id, a: seq<Id>, y: Id, b: seq<Id>)
    ensures [d] + (a + [y] + b) == ([d] + a) + [y] + b
  {
  }

  /** Nothing that lies below the deepest node matches. */
  lemma BelowDeepest(nodes: Nodes, q: Query, d: Id, before: seq<Id>, post: seq<Id>)
    requires PrefixClosed(nodes) && UniqueDeepest(nodes, q, d)
    requires NoRepeats(before + [d] + post) && forall id :: id in post ==> d <= id
    ensures Candidates(nodes, q, post) == []
  {
    var all := before + [d] + post;
    forall id | id in post ensures !Candidate(nodes, q, id) {
      var j :| 0 <= j < |post| && post[j] == id;
      assert all[|before|] == d && all[|before| + 1 + j] == id;
      assert |d| <= |id|;
    }
    NoCandidates(nodes, q, post);
  }

  lemma NoRepeatsStart(a: seq<Id>, b: seq<Id>)
    requires NoRepeats(a + b)
    ensures NoRepeats(a)
  {
    forall i, j | 0 <= i < j < |a| ensures a[i] != a[j] {
      assert (a + b)[i] == a[i] && (a + b)[j] == a[j];
    }
  }

  /** The deepest node comes last: it alone is consulted. */
  lemma ConsultAlone(nodes: Nodes, q: Query, d: Id) returns (visits: seq<Id>)
    requires PrefixClosed(nodes) && UniqueDeepest(nodes, q, d)
    ensures Walks(nodes, q.path, [[]], visits) && Consulted(nodes, q, visits) == [d]
  {
    var pre, post := WalkToLast(nodes, q.path, d);
    visits := pre + [d] + post;
    WalkMeaning(nodes, q.path, visits);
    BelowDeepest(nodes, q, d, pre, post);
    AloneAt(nodes, q, d, pre, post);
  }

  lemma AloneAt(nodes: Nodes, q: Query, d: Id, pre: seq<Id>, post: seq<Id>)
    requires PrefixClosed(nodes) && UniqueDeepest(nodes, q, d) && NoRepeats(pre + [d] + post) && Candidates(nodes, q, post) == []
    ensures Consulted(nodes, q, pre + [d] + post) == [d]
  {
    var visits := pre + [d] + post;
    PlaceOf(pre, d, post);
    DeepestAt(nodes, q, d, visits, |pre|);
    FirstKept(nodes, q, visits, |pre|);
    SpecificSingle(nodes, d, []);
  }

  lemma ParentFixesNoMore(nodes: Nodes, y: Id)
    requires WellFiled(nodes) && y in nodes && y != []
    ensures ParentOf(y) in nodes && Total(nodes, ParentOf(y)) <= Total(nodes, y)
  {
    assert Filed(nodes, y);
  }

  lemma {:induction false} TotalMonotone(nodes: Nodes, y: Id, k: nat)
    requires WellFiled(nodes) && y in nodes && k <= |y|
    ensures Total(nodes, y[..k]) <= Total(nodes, y)
    decreases |y|
  {
    if k == |y| {
      assert y[..k] == y;
    } else {
      ParentFixesNoMore(nodes, y);
      TotalMonotone(nodes, ParentOf(y), k);
      assert ParentOf(y)[..k] == y[..k];
    }
  }

  lemma StraightSplits(ys: seq<Id>, y: Id, n: nat) returns (up: seq<Id>, on: seq<Id>)
    requires n <= |y| && Straight(ys, y, n)
    ensures ys == up + [y] + on && forall x :: x in up ==> exists k :: n <= k < |y| && x == y[..k]
  {
    var m := |y| - n;
    up, on := ys[..m], ys[m + 1..];
    assert ys[|y| - n] == y[..|y|] == y;
    forall x | x in up ensures exists k :: n <= k < |y| && x == y[..k] {
      var j :| 0 <= j < m && up[j] == x;
      assert ys[(j + n) - n] == y[..j + n];
    }
  }

  /** The deepest node comes first and then the walk goes straight to y: both are consulted. */
  lemma ConsultBoth(nodes: Nodes, q: Query, d: Id, y: Id) returns (visits: seq<Id>)
    requires WellFiled(nodes) && UniqueDeepest(nodes, q, d)
    requires Candidate(nodes, q, y) && !(y <= d) && Total(nodes, y) >= Total(nodes, d)
    ensures Walks(nodes, q.path, [[]], visits) && y in Consulted(nodes, q, visits)
  {
    assert !(d <= y);
    var pre, post, ys, rest, n := WalkToBoth(nodes, q.path, d, y);
    visits := pre + [d] + post + ys + rest;
    WalkMeaning(nodes, q.path, visits);
    var up, on := StraightSplits(ys, y, n);
    forall x | x in up ensures Total(nodes, x) <= Total(nodes, y) {
      var k :| n <= k < |y| && x == y[..k];
      TotalMonotone(nodes, y, k);
    }
    BothShape(pre, d, post, up, y, on, rest);
    NoRepeatsStart(pre + [d] + post, up + [y] + (on + rest));
    BelowDeepest(nodes, q, d, pre, post);
    BothAt(nodes, q, d, y, pre, post, up, on + rest);
  }

  lemma BothShape(pre: seq<Id>, d: Id, post: seq<Id>, up: seq<Id>, y: Id, on: seq<Id>, rest: seq<Id>)
    ensures pre + [d] + post + (up + [y] + on) + rest == (pre + [d] + post) + (up + [y] + (on + rest))
    ensures (pre + [d] + post) + (up + [y] + (on + rest)) == pre + [d] + (post + (up + [y] + (on + rest)))
  {
  }

  lemma BothAt(nodes: Nodes, q: Query, d: Id, y: Id, pre: seq<Id>, post: seq<Id>, up: seq<Id>, on: seq<Id>)
    requires PrefixClosed(nodes) && UniqueDeepest(nodes, q, d) && Candidate(nodes, q, y) && Total(nodes, y) >= Total(nodes, d)
    requires NoRepeats(pre + [d] + (post + (up + [y] + on))) && Candidates(nodes, q, post) == []
    requires forall x :: x in up ==> Total(nodes, x) <= Total(nodes, y)
    ensures y in Consulted(nodes, q, pre + [d] + (post + (up + [y] + on)))
  {
    var after := post + (up + [y] + on);
    var visits := pre + [d] + after;
    PlaceOf(pre, d, after);
    DeepestAt(nodes, q, d, visits, |pre|);
    FirstKept(nodes, q, visits, |pre|);
    CandidatesAfter(nodes, q, y, post, up, on);
    var kept := [d] + Candidates(nodes, q, up);
    forall x | x in kept ensures Total(nodes, x) <= Total(nodes, y) {
      if x != d {
        CandidatesMeaning(nodes, q, up, x);
      }
    }
    SpecificReaches(nodes, kept, y, Candidates(nodes, q, on));
    KeptShape(d, Candidates(nodes, q, up), y, Candidates(nodes, q, on));
  }

  lemma CandidatesAfter(nodes: Nodes, q: Query, y: Id, post: seq<Id>, up: seq<Id>, on: seq<Id>)
    requires PrefixClosed(nodes) && Candidate(nodes, q, y) && Candidates(nodes, q, post) == []
    ensures Candidates(nodes, q, post + (up + [y] + on)) == Candidates(nodes, q, up) + [y] + Candidates(nodes, q, on)
  {
    CandidatesConcat(nodes, q, post, up + [y] + on);
    CandidatesConcat(nodes, q, up + [y], on);
    MatchingAppend(nodes, q, up, y);
    assert [] + Candidates(nodes, q, up + [y] + on) == Candidates(nodes, q, up + [y] + on);
  }

  // ---------------------------------------------------------------------
  // The verdict
  // ---------------------------------------------------------------------

  ghost predicate AlwaysAnswers(nodes: Nodes, q: Query, action: Action)
    requires PrefixClosed(nodes)
  {
    forall visits :: Walks(nodes, q.path, [[]], visits) ==> Verdict(nodes, q, visits) == action
  }

  /** What is answered where the deepest node is consulted first, and after it the others. */
  lemma VerdictOf(nodes: Nodes, q: Query, d: Id, visits: seq<Id>) returns (others: seq<Id>)
    requires PrefixClosed(nodes) && AllDecided(nodes) && UniqueDeepest(nodes, q, d) && Walks(nodes, q.path, [[]], visits)
    ensures Consulted(nodes, q, visits) == [d] + others && forall z :: z in others ==> Rival(nodes, q, d, z)
    ensures Decisive(Verdict(nodes, q, visits)) && forall z :: z in [d] + others ==> Decisive(Says(nodes, q, z).0)
    ensures Verdict(nodes, q, visits) == ActionDeny <==> exists i :: StandingDenial(nodes, q, [d] + others, i)
  {
    others := AlwaysConsults(nodes, q, d, visits);
    forall z | z in [d] + others ensures Decisive(Says(nodes, q, z).0) {
      SaysDecisive(nodes, q, z);
    }
    ProbeDecides(nodes, q, visits);
    DeniesExactlyWhen(nodes, q, [d] + others);
  }

  lemma NoDenialNoneStands(nodes: Nodes, q: Query, ids: seq<Id>)
    requires forall z :: z in ids ==> Says(nodes, q, z).0 != ActionDeny
    ensures !exists i :: StandingDenial(nodes, q, ids, i)
  {
    if i :| StandingDenial(nodes, q, ids, i) {
      assert ids[i] in ids;
    }
  }

  lemma NameDenialStands(nodes: Nodes, q: Query, ids: seq<Id>, y: Id)
    requires y in ids && Says(nodes, q, y) == (ActionDeny, true)
    ensures exists i :: StandingDenial(nodes, q, ids, i)
  {
    var i :| 0 <= i < |ids| && ids[i] == y;
    assert StandingDenial(nodes, q, ids, i);
  }

  /** A denial stands if nobody after d permits by name. */
  lemma DenialStands(nodes: Nodes, q: Query, d: Id, others: seq<Id>, x: Id)
    requires x in [d] + others && Says(nodes, q, x).0 == ActionDeny
    requires forall z :: z in others ==> Decisive(Says(nodes, q, z).0) && Says(nodes, q, z) != (ActionPermit, true)
    ensures exists i :: StandingDenial(nodes, q, [d] + others, i)
  {
    var ids := [d] + others;
    if y :| y in ids && Says(nodes, q, y) == (ActionDeny, true) {
      NameDenialStands(nodes, q, ids, y);
    } else {
      var i :| 0 <= i < |ids| && ids[i] == x;
      forall j | i < j < |ids| ensures !Says(nodes, q, ids[j]).1 {
        assert ids[j] == others[j - 1] && ids[j] in ids;
      }
      assert StandingDenial(nodes, q, ids, i);
    }
  }

  /** The deepest node permits and nobody overrules it. */
  lemma PermissionStands(nodes: Nodes, q: Query, d: Id, visits: seq<Id>)
    requires PrefixClosed(nodes) && AllDecided(nodes) && UniqueDeepest(nodes, q, d) && Walks(nodes, q.path, [[]], visits)
    requires Says(nodes, q, d).0 == ActionPermit && forall y :: !Overrules(nodes, q, d, y)
    ensures Verdict(nodes, q, visits) == ActionPermit
  {
    var others := VerdictOf(nodes, q, d, visits);
    forall z | z in [d] + others ensures Says(nodes, q, z).0 != ActionDeny {
      assert z == d || !Overrules(nodes, q, d, z);
    }
    NoDenialNoneStands(nodes, q, [d] + others);
  }

  /** The deepest node denies, by name or without a rival that permits by name. */
  lemma OwnDenialStands(nodes: Nodes, q: Query, d: Id, visits: seq<Id>)
    requires PrefixClosed(nodes) && AllDecided(nodes) && UniqueDeepest(nodes, q, d) && Walks(nodes, q.path, [[]], visits)
    requires Says(nodes, q, d).0 == ActionDeny && !Standoff(nodes, q, d)
    ensures Verdict(nodes, q, visits) == ActionDeny
  {
    var others := VerdictOf(nodes, q, d, visits);
    assert d in [d] + others;
    if Says(nodes, q, d).1 {
      NameDenialStands(nodes, q, [d] + others, d);
    } else {
      DenialStands(nodes, q, d, others, d);
    }
  }

  lemma AloneAnswers(nodes: Nodes, q: Query, d: Id) returns (alone: seq<Id>)
    requires PrefixClosed(nodes) && AllDecided(nodes) && UniqueDeepest(nodes, q, d)
    ensures Walks(nodes, q.path, [[]], alone) && Verdict(nodes, q, alone) == Says(nodes, q, d).0
  {
    alone := ConsultAlone(nodes, q, d);
    var others := VerdictOf(nodes, q, d, alone);
    CombinedMeaning(nodes, q, [d]);
  }

  /** The deepest node permits, and a denial by name overrules it, whoever else speaks. */
  lemma NameOverrules(nodes: Nodes, q: Query, d: Id, y: Id) returns (alone: seq<Id>, both: seq<Id>)
    requires WellFiled(nodes) && AllDecided(nodes) && UniqueDeepest(nodes, q, d)
    requires Says(nodes, q, d).0 == ActionPermit && Overrules(nodes, q, d, y) && Says(nodes, q, y).1
    ensures Walks(nodes, q.path, [[]], alone) && Verdict(nodes, q, alone) == ActionPermit
    ensures Walks(nodes, q.path, [[]], both) && Verdict(nodes, q, both) == ActionDeny
  {
    alone := AloneAnswers(nodes, q, d);
    both := ConsultBoth(nodes, q, d, y);
    var others := VerdictOf(nodes, q, d, both);
    NameDenialStands(nodes, q, [d] + others, y);
  }

  /** The same for any denial, if no rival permits by name. */
  lemma GroupOverrules(nodes: Nodes, q: Query, d: Id, y: Id) returns (alone: seq<Id>, both: seq<Id>)
    requires WellFiled(nodes) && AllDecided(nodes) && UniqueDeepest(nodes, q, d)
    requires Says(nodes, q, d).0 == ActionPermit && Overrules(nodes, q, d, y)
    requires forall z :: Rival(nodes, q, d, z) ==> Says(nodes, q, z) != (ActionPermit, true)
    ensures Walks(nodes, q.path, [[]], alone) && Verdict(nodes, q, alone) == ActionPermit
    ensures Walks(nodes, q.path, [[]], both) && Verdict(nodes, q, both) == ActionDeny
  {
    alone := AloneAnswers(nodes, q, d);
    both := ConsultBoth(nodes, q, d, y);
    var others := VerdictOf(nodes, q, d, both);
    forall z | z in others ensures Decisive(Says(nodes, q, z).0) && Says(nodes, q, z) != (ActionPermit, true) {
      assert z in [d] + others;
    }
    DenialStands(nodes, q, d, others, y);
  }

  /** Where the deepest node permits and a denial overrules it, one map order permits and another denies. */
  lemma BothVerdicts(nodes: Nodes, q: Query, d: Id, y: Id) returns (alone: seq<Id>, both: seq<Id>)
    requires WellFiled(nodes) && AllDecided(nodes) && UniqueDeepest(nodes, q, d) && !Standoff(nodes, q, d)
    requires Says(nodes, q, d).0 == ActionPermit && Overrules(nodes, q, d, y)
    ensures Walks(nodes, q.path, [[]], alone) && Verdict(nodes, q, alone) == ActionPermit
    ensures Walks(nodes, q.path, [[]], both) && Verdict(nodes, q, both) == ActionDeny
  {
    if y' :| Overrules(nodes, q, d, y') && Says(nodes, q, y').1 {
      alone, both := NameOverrules(nodes, q, d, y');
    } else {
      assert Says(nodes, q, y) == (ActionDeny, false);
      alone, both := GroupOverrules(nodes, q, d, y);
    }
  }

  /**
   * With one deepest match, and no standoff between a group's denial and a rival's permission by name: the
   * verdict is the same in every map order exactly when the deepest match denies, or no denial that is no less
   * specific lies off its path. It then is what the deepest match says.
   */
  lemma VerdictFixedExactlyWhen(nodes: Nodes, q: Query, d: Id)
    requires WellFiled(nodes) && AllDecided(nodes) && UniqueDeepest(nodes, q, d) && !Standoff(nodes, q, d)
    ensures (exists action :: AlwaysAnswers(nodes, q, action)) <==>
            Says(nodes, q, d).0 == ActionDeny || forall y :: !Overrules(nodes, q, d, y)
    ensures forall action :: AlwaysAnswers(nodes, q, action) ==> action == Says(nodes, q, d).0
  {
    SaysDecisive(nodes, q, d);
    var alone := AloneAnswers(nodes, q, d);
    if Says(nodes, q, d).0 == ActionDeny || forall y :: !Overrules(nodes, q, d, y) {
      forall visits | Walks(nodes, q.path, [[]], visits) ensures Verdict(nodes, q, visits) == Says(nodes, q, d).0 {
        if Says(nodes, q, d).0 == ActionDeny {
          OwnDenialStands(nodes, q, d, visits);
        } else {
          PermissionStands(nodes, q, d, visits);
        }
      }
      assert AlwaysAnswers(nodes, q, Says(nodes, q, d).0);
    } else {
      var y :| Overrules(nodes, q, d, y);
      var permitted, denied := BothVerdicts(nodes, q, d, y);
    }
  }
}
