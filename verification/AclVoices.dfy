/** When exactly a user's permission and a group's denial, the only two matches, give the same verdict in every order. */
module AclVoices {
  import opened Wrappers
  import opened PathElem
  import opened AclTrie
  import opened AclWalk
  import opened AclNodes
  import opened AclProbe
  import opened AclTheorem
  import opened AclVerdict

  // ---------------------------------------------------------------------
  // Two matches
  // ---------------------------------------------------------------------

  /** d and x are all there is. */
  ghost predicate OnlyTwo(nodes: Nodes, q: Query, d: Id, x: Id)
    requires PrefixClosed(nodes)
  {
    d != x && Candidate(nodes, q, d) && Candidate(nodes, q, x) && forall id :: Candidate(nodes, q, id) ==> id == d || id == x
  }

  /** a lies below b, or is no shallower and fixes more keys. */
  ghost predicate Outranks(nodes: Nodes, a: Id, b: Id) {
    b <= a || (|b| <= |a| && Total(nodes, b) < Total(nodes, a))
  }

  lemma {:induction false} OneCandidate(nodes: Nodes, q: Query, ids: seq<Id>, x: Id)
    requires PrefixClosed(nodes) && NoRepeats(ids) && Candidate(nodes, q, x)
    requires forall id :: id in ids && Candidate(nodes, q, id) ==> id == x
    ensures Candidates(nodes, q, ids) == if x in ids then [x] else []
    decreases |ids|
  {
    if ids != [] {
      var n := |ids| - 1;
      LastIsNew(ids);
      OneCandidate(nodes, q, ids[..n], x);
      OneMore(ids[..n], ids[n], x, Candidate(nodes, q, ids[n]));
      MatchingAppend(nodes, q, ids[..n], ids[n]);
    }
  }

  lemma LastIsNew(ids: seq<Id>)
    requires NoRepeats(ids) && ids != []
    ensures var n := |ids| - 1;
            ids == ids[..n] + [ids[n]] && NoRepeats(ids[..n]) && ids[n] !in ids[..n] && ids[n] in ids && forall id :: id in ids[..n] ==> id in ids
  {
    assert forall i :: 0 <= i < |ids| - 1 ==> ids[i] != ids[|ids| - 1];
  }

  lemma OneMore(ids: seq<Id>, id: Id, x: Id, isCandidate: bool)
    requires isCandidate ==> id == x && x !in ids
    requires !isCandidate ==> id != x
    ensures (if x in ids then [x] else []) + (if isCandidate then [id] else []) == if x in ids + [id] then [x] else []
  {
  }

  lemma NoRepeatsAfter(visits: seq<Id>, n: nat)
    requires NoRepeats(visits) && n <= |visits|
    ensures NoRepeats(visits[n..])
    ensures forall id :: id in visits[n..] ==> id !in visits[..n]
  {
    var after := visits[n..];
    forall j, k | 0 <= j < k < |after| ensures after[j] != after[k] {
      assert after[j] == visits[n + j] && after[k] == visits[n + k];
    }
    forall id | id in after ensures id !in visits[..n] {
      var k :| 0 <= k < |after| && after[k] == id;
      assert visits[n + k] == id;
    }
  }

  lemma ConsultedBoth(nodes: Nodes, d: Id, x: Id)
    requires Total(nodes, x) >= Total(nodes, d)
    ensures Specific(nodes, [d] + [x]).0 == [d, x]
  {
    assert [d][..0] == [] && [] + [d] == [d];
    assert Specific(nodes, [d]) == ([d], Total(nodes, d));
    assert ([d] + [x])[..1] == [d];
  }

  /** Where the deeper or equally deep d is met first, x is consulted after it unless it fixes fewer keys or came before. */
  lemma MetFirst(nodes: Nodes, q: Query, d: Id, x: Id, visits: seq<Id>, i: nat)
    requires PrefixClosed(nodes) && OnlyTwo(nodes, q, d, x) && NoRepeats(visits)
    requires IsFirstDeepest(nodes, q, visits, i) && visits[i] == d
    ensures Consulted(nodes, q, visits) == if x in visits[i + 1..] && Total(nodes, x) >= Total(nodes, d) then [d, x] else [d]
  {
    FirstKept(nodes, q, visits, i);
    NoRepeatsAfter(visits, i + 1);
    assert visits[..i + 1][i] == d;
    OneCandidate(nodes, q, visits[i + 1..], x);
    if x in visits[i + 1..] && Total(nodes, x) >= Total(nodes, d) {
      ConsultedBoth(nodes, d, x);
    } else {
      SpecificSingle(nodes, d, Candidates(nodes, q, visits[i + 1..]));
    }
  }

  /** Reaching d first, Probe consults both. */
  lemma DeepFirst(nodes: Nodes, q: Query, d: Id, x: Id) returns (visits: seq<Id>)
    requires PrefixClosed(nodes) && OnlyTwo(nodes, q, d, x) && |x| <= |d| && !Outranks(nodes, d, x)
    ensures Walks(nodes, q.path, [[]], visits) && Consulted(nodes, q, visits) == [d, x]
  {
    visits := WalkToFirst(nodes, q.path, d);
    WalkMeaning(nodes, q.path, visits);
    CoveringVisited(nodes, q.path, visits, x);
    SteeredFirst(nodes, q, d, visits);
    VisitedLater(visits, d, x);
    MetFirst(nodes, q, d, x, visits, |d|);
  }

  /** Whatever the order, what outranks is consulted alone or last. */
  lemma OutrankingConsulted(nodes: Nodes, q: Query, d: Id, x: Id, visits: seq<Id>)
    requires PrefixClosed(nodes) && OnlyTwo(nodes, q, d, x) && Outranks(nodes, d, x) && Walks(nodes, q.path, [[]], visits)
    ensures Consulted(nodes, q, visits) == [d] || Consulted(nodes, q, visits) == [x, d]
    ensures Matching(nodes, q, visits).0 != []
  {
    WalkMeaning(nodes, q.path, visits);
    CoveringVisited(nodes, q.path, visits, d);
    CoveringVisited(nodes, q.path, visits, x);
    var i := FirstDeepest(nodes, q, visits);
    MatchingMeaning(nodes, q, visits);
    SpecificMeaning(nodes, Matching(nodes, q, visits).0);
    if visits[i] == d {
      MetFirst(nodes, q, d, x, visits, i);
      if x <= d {
        AboveIsEarlier(nodes, q.path, visits, i, x);
      }
    } else {
      MetFirst(nodes, q, x, d, visits, i);
      EquallyDeepFollows(nodes, q, d, x, visits, i);
    }
  }

  lemma AboveIsEarlier(nodes: Nodes, asked: seq<Elem>, visits: seq<Id>, i: nat, x: Id)
    requires PrefixClosed(nodes) && IsWalk(nodes, asked, visits) && i < |visits| && x <= visits[i]
    ensures x !in visits[i + 1..]
  {
    assert forall j :: i < j < |visits| ==> visits[j] != x;
  }

  /** An equally deep match that was not met first comes later. */
  lemma EquallyDeepFollows(nodes: Nodes, q: Query, d: Id, x: Id, visits: seq<Id>, i: nat)
    requires PrefixClosed(nodes) && OnlyTwo(nodes, q, d, x) && Outranks(nodes, d, x)
    requires IsFirstDeepest(nodes, q, visits, i) && visits[i] == x && d in visits
    ensures d in visits[i + 1..] && Total(nodes, d) >= Total(nodes, x)
  {
    var j :| 0 <= j < |visits| && visits[j] == d;
    assert |d| == |x|;
    assert x <= d ==> x == d;
    assert forall k :: 0 <= k < i ==> visits[k] in visits[..i];
    assert visits[i + 1..][j - i - 1] == d;
  }

  // ---------------------------------------------------------------------
  // A name against a group
  // ---------------------------------------------------------------------

  lemma CombineNameAndGroup(nodes: Nodes, q: Query, d: Id, x: Id)
    requires Says(nodes, q, d) == (ActionPermit, true) && Says(nodes, q, x) == (ActionDeny, false)
    ensures Combined(nodes, q, [d, x]).0 == ActionDeny && Combined(nodes, q, [x, d]).0 == ActionPermit
    ensures Combined(nodes, q, [d]).0 == ActionPermit && Combined(nodes, q, [x]).0 == ActionDeny
  {
    assert [d, x][..1] == [d] && [x, d][..1] == [x] && [d][..0] == [] && [x][..0] == [];
    assert Combined(nodes, q, [d]) == (ActionPermit, false) && Combined(nodes, q, [x]) == (ActionDeny, false);
  }

  /** Between a user's permission and a group's denial, what outranks decides in every order. */
  lemma OutrankingDecides(nodes: Nodes, q: Query, d: Id, x: Id, visits: seq<Id>)
    requires PrefixClosed(nodes) && OnlyTwo(nodes, q, d, x) && Walks(nodes, q.path, [[]], visits)
    requires Says(nodes, q, d) == (ActionPermit, true) && Says(nodes, q, x) == (ActionDeny, false)
    ensures Outranks(nodes, d, x) ==> Verdict(nodes, q, visits) == ActionPermit
    ensures Outranks(nodes, x, d) ==> Verdict(nodes, q, visits) == ActionDeny
  {
    CombineNameAndGroup(nodes, q, d, x);
    if Outranks(nodes, d, x) {
      OutrankingConsulted(nodes, q, d, x, visits);
    }
    if Outranks(nodes, x, d) {
      OutrankingConsulted(nodes, q, x, d, visits);
    }
  }

  lemma ConsultedAnswers(nodes: Nodes, q: Query, visits: seq<Id>, ids: seq<Id>)
    requires PrefixClosed(nodes) && Consulted(nodes, q, visits) == ids && ids != []
    ensures Verdict(nodes, q, visits) == Combined(nodes, q, ids).0
  {
    SpecificMeaning(nodes, Matching(nodes, q, visits).0);
  }

  /** Where neither outranks the other, one map order permits, and another denies. */
  lemma NameOrGroup(nodes: Nodes, q: Query, d: Id, x: Id) returns (denied: seq<Id>, permitted: seq<Id>)
    requires PrefixClosed(nodes) && OnlyTwo(nodes, q, d, x) && !Outranks(nodes, d, x) && !Outranks(nodes, x, d)
    requires Says(nodes, q, d) == (ActionPermit, true) && Says(nodes, q, x) == (ActionDeny, false)
    ensures Walks(nodes, q.path, [[]], denied) && Verdict(nodes, q, denied) == ActionDeny
    ensures Walks(nodes, q.path, [[]], permitted) && Verdict(nodes, q, permitted) == ActionPermit
  {
    CombineNameAndGroup(nodes, q, d, x);
    if |x| <= |d| {
      denied := DeepFirst(nodes, q, d, x);
      ConsultedAnswers(nodes, q, denied, [d, x]);
    } else {
      denied := ConsultAlone(nodes, q, x);
      ConsultedAnswers(nodes, q, denied, [x]);
    }
    if |d| <= |x| {
      permitted := DeepFirst(nodes, q, x, d);
      ConsultedAnswers(nodes, q, permitted, [x, d]);
    } else {
      permitted := ConsultAlone(nodes, q, d);
      ConsultedAnswers(nodes, q, permitted, [d]);
    }
  }

  /**
   * Where a user's permission and a group's denial are the only matches, the verdict is the same in every order
   * exactly when one outranks the other, and then it is that one's. The user is not preferred.
   */
  lemma NameAndGroupExactlyWhen(nodes: Nodes, q: Query, d: Id, x: Id)
    requires PrefixClosed(nodes) && OnlyTwo(nodes, q, d, x)
    requires Says(nodes, q, d) == (ActionPermit, true) && Says(nodes, q, x) == (ActionDeny, false)
    ensures (exists action :: AlwaysAnswers(nodes, q, action)) <==> Outranks(nodes, d, x) || Outranks(nodes, x, d)
    ensures forall action :: AlwaysAnswers(nodes, q, action) ==> action == if Outranks(nodes, d, x) then ActionPermit else ActionDeny
  {
    if Outranks(nodes, d, x) || Outranks(nodes, x, d) {
      var action := if Outranks(nodes, d, x) then ActionPermit else ActionDeny;
      forall visits | Walks(nodes, q.path, [[]], visits) ensures Verdict(nodes, q, visits) == action {
        OutrankingDecides(nodes, q, d, x, visits);
      }
      assert AlwaysAnswers(nodes, q, action);
      var visits := AnyWalk(nodes, q.path);
    } else {
      var denied, permitted := NameOrGroup(nodes, q, d, x);
    }
  }
}
