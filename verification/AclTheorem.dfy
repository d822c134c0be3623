/** What Probe guarantees for every order maps may be read in, and what it does not. */
module AclTheorem {
  import opened Wrappers
  import opened PathElem
  import opened AclTrie
  import opened AclWalk
  import opened AclNodes
  import opened AclProbe

  // ---------------------------------------------------------------------
  // The answer is always a decision, and one that a visited node makes
  // ---------------------------------------------------------------------

  lemma {:induction false} SpecificMeaning(nodes: Nodes, ids: seq<Id>)
    ensures forall id :: id in Specific(nodes, ids).0 ==> id in ids
    ensures ids != [] ==> Specific(nodes, ids).0 != [] && Specific(nodes, ids).0[0] == ids[0]
    ensures ids == [] ==> Specific(nodes, ids).1 == -1
    decreases |ids|
  {
    if ids != [] {
      SpecificMeaning(nodes, ids[..|ids| - 1]);
    }
  }

  lemma {:induction false} CombinedMeaning(nodes: Nodes, q: Query, ids: seq<Id>)
    requires ids != []
    ensures exists id :: id in ids && Says(nodes, q, id).0 == Combined(nodes, q, ids).0
    decreases |ids|
  {
    var n := |ids| - 1;
    if n == 0 {
      assert Combined(nodes, q, ids[..n]) == (ActionUnspecified, false);
      assert Says(nodes, q, ids[n]).0 == Combined(nodes, q, ids).0;
      assert ids[n] in ids;
    } else {
      CombinedMeaning(nodes, q, ids[..n]);
      var id :| id in ids[..n] && Says(nodes, q, id).0 == Combined(nodes, q, ids[..n]).0;
      assert id in ids && ids[n] in ids;
    }
  }

  /** The i-th node consulted denies, and no later one overrules it. */
  ghost predicate StandingDenial(nodes: Nodes, q: Query, ids: seq<Id>, i: int) {
    && 0 <= i < |ids| && Says(nodes, q, ids[i]).0 == ActionDeny
    && (Says(nodes, q, ids[i]).1 || forall j :: i < j < |ids| ==> !Says(nodes, q, ids[j]).1)
  }

  /** One more node: its own denial stands, an earlier one stands if it is by name or the new node speaks by group only. */
  lemma StandingAppend(nodes: Nodes, q: Query, ids: seq<Id>, id: Id)
    ensures (exists i :: StandingDenial(nodes, q, ids + [id], i)) <==>
            || Says(nodes, q, id).0 == ActionDeny
            || (exists i :: StandingDenial(nodes, q, ids, i) && (Says(nodes, q, ids[i]).1 || !Says(nodes, q, id).1))
  {
    var more := ids + [id];
    assert more[|ids|] == id;
    assert forall i :: 0 <= i < |ids| ==> more[i] == ids[i];
    if Says(nodes, q, id).0 == ActionDeny {
      assert StandingDenial(nodes, q, more, |ids|);
    }
    if i :| StandingDenial(nodes, q, ids, i) && (Says(nodes, q, ids[i]).1 || !Says(nodes, q, id).1) {
      assert StandingDenial(nodes, q, more, i);
    }
    if i :| StandingDenial(nodes, q, more, i) {
      assert i < |ids| ==> StandingDenial(nodes, q, ids, i);
    }
  }

  /** Among the nodes consulted a denial by name always wins; one by group wins exactly until a node after it permits by name. */
  lemma {:induction false} DeniesExactlyWhen(nodes: Nodes, q: Query, ids: seq<Id>)
    requires ids != [] && forall id :: id in ids ==> Decisive(Says(nodes, q, id).0)
    ensures Combined(nodes, q, ids).0 == ActionDeny <==> exists i :: StandingDenial(nodes, q, ids, i)
    ensures Combined(nodes, q, ids).1 <==> exists i :: 0 <= i < |ids| && Says(nodes, q, ids[i]) == (ActionDeny, true)
    decreases |ids|
  {
    var n := |ids| - 1;
    TopApart(ids);
    assert ids[n] in ids;
    StandingAppend(nodes, q, ids[..n], ids[n]);
    if n == 0 {
      assert Combined(nodes, q, ids[..n]) == (ActionUnspecified, false);
    } else {
      var init := ids[..n];
      DeniesExactlyWhen(nodes, q, init);
      assert forall i :: 0 <= i < n ==> ids[i] == init[i];
      if Combined(nodes, q, init).1 {
        var i :| 0 <= i < n && Says(nodes, q, init[i]) == (ActionDeny, true);
        assert StandingDenial(nodes, q, init, i);
      }
    }
  }

  /** Without a candidate Probe denies; otherwise its answer is what some candidate says. */
  lemma VerdictFromCandidate(nodes: Nodes, q: Query, visits: seq<Id>)
    requires PrefixClosed(nodes)
    ensures (forall id :: id in visits ==> !Candidate(nodes, q, id)) ==> Verdict(nodes, q, visits) == ActionDeny
    ensures (exists id :: id in visits && Candidate(nodes, q, id)) ==>
              exists id :: id in visits && Candidate(nodes, q, id) && Says(nodes, q, id).0 == Verdict(nodes, q, visits)
  {
    MatchingMeaning(nodes, q, visits);
    var kept := Matching(nodes, q, visits).0;
    if kept != [] {
      SpecificMeaning(nodes, kept);
      CombinedMeaning(nodes, q, Consulted(nodes, q, visits));
    }
  }

  lemma SaysDecisive(nodes: Nodes, q: Query, id: Id)
    requires PrefixClosed(nodes) && AllDecided(nodes) && Candidate(nodes, q, id)
    ensures Decisive(Says(nodes, q, id).0)
  {
    var own := Held(nodes[id], User(q.user), q.mode);
    assert own.Some? ==> Held(nodes[id], User(q.user), q.mode) == Some(own.value);
  }

  /** Probe never answers "unspecified". */
  lemma ProbeDecides(nodes: Nodes, q: Query, visits: seq<Id>)
    requires PrefixClosed(nodes) && AllDecided(nodes)
    ensures Decisive(Verdict(nodes, q, visits))
  {
    VerdictFromCandidate(nodes, q, visits);
    if id :| id in visits && Candidate(nodes, q, id) && Says(nodes, q, id).0 == Verdict(nodes, q, visits) {
      SaysDecisive(nodes, q, id);
    }
  }

  // ---------------------------------------------------------------------
  // In terms of the rules
  // ---------------------------------------------------------------------

  predicate AppliesTo(p: Principal, q: Query) {
    p == User(q.user) || (p.Group? && q.user in Members(q.memberships, p.group))
  }

  /** The rule speaks about this user, at this path, for this mode. */
  predicate Concerns(r: Rule, q: Query) {
    r.mode == q.mode && AppliesTo(r.principal, q) && Covers(r.path, q.path)
  }

  ghost predicate PlainRules(rules: seq<Rule>) {
    forall i :: 0 <= i < |rules| ==> PlainPath(rules[i].path)
  }

  lemma RepresentsDecided(nodes: Nodes, rules: seq<Rule>)
    requires Represents(nodes, rules) && [] in nodes
    ensures PrefixClosed(nodes) && AllDecided(nodes)
  {
    assert Rooted(nodes) == nodes;
    forall id, principal, mode, action | id in nodes && Held(nodes[id], principal, mode) == Some(action)
      ensures Decisive(action)
    {
      assert HoldsExactly(nodes[id], id, rules);
      var r :| r in rules && Fills(r, id, principal, mode) && r.action == action;
      var i :| 0 <= i < |rules| && rules[i] == r;
      assert Sound(rules[i]);
    }
  }

  /** What a node says was said by one of its rules. */
  lemma SaidByRule(nodes: Nodes, rules: seq<Rule>, q: Query, id: Id) returns (r: Rule)
    requires Represents(nodes, rules) && [] in nodes && id in nodes
    requires Says(nodes, q, id).0 != ActionUnspecified
    ensures r in rules && KeyPath(r.path) == Some(id) && r.action == Says(nodes, q, id).0
    ensures r.mode == q.mode && AppliesTo(r.principal, q) && r.principal.User? == Says(nodes, q, id).1
  {
    assert Rooted(nodes) == nodes;
    var n, said := nodes[id], Says(nodes, q, id).0;
    assert HoldsExactly(n, id, rules);
    if Held(n, User(q.user), q.mode).Some? {
      r :| r in rules && Fills(r, id, User(q.user), q.mode) && r.action == said;
    } else {
      var g :| ViaGroup(n, q, g, said);
      r :| r in rules && Fills(r, id, Group(g), q.mode) && r.action == said;
    }
  }

  /** Probe permits only where an accepted rule permits it to the user or to a group of the user. */
  lemma PermitIsGranted(nodes: Nodes, rules: seq<Rule>, q: Query, visits: seq<Id>) returns (r: Rule)
    requires Represents(nodes, rules) && [] in nodes && PlainNodes(nodes) && PlainRules(rules)
    requires PrefixClosed(nodes) && Verdict(nodes, q, visits) == ActionPermit
    ensures r in rules && r.action == ActionPermit && Concerns(r, q)
  {
    assert Rooted(nodes) == nodes;
    VerdictFromCandidate(nodes, q, visits);
    var id :| id in visits && Candidate(nodes, q, id) && Says(nodes, q, id).0 == ActionPermit;
    r := SaidByRule(nodes, rules, q, id);
    var i :| 0 <= i < |rules| && rules[i] == r;
    NodeCoversExactlyWhen(nodes, id, r.path, q.path);
  }

  lemma NodeSpeaks(n: Node, q: Query, p: Principal, a: Action)
    requires Decided(n) && AppliesTo(p, q) && Held(n, p, q.mode) == Some(a)
    ensures GetAction(n, q).0 != ActionUnspecified
  {
    var own := Held(n, User(q.user), q.mode);
    assert own.Some? ==> Held(n, User(q.user), q.mode) == Some(own.value);
    assert p.Group? ==> ViaGroup(n, q, p.group, a);
  }

  /** A rule that concerns the query makes its node a candidate. */
  lemma ConcernedIsCandidate(nodes: Nodes, rules: seq<Rule>, q: Query, r: Rule)
    requires Represents(nodes, rules) && [] in nodes && PlainNodes(nodes) && PlainRules(rules)
    requires r in rules && Concerns(r, q) && PrefixClosed(nodes)
    ensures KeyPath(r.path).Some? && Candidate(nodes, q, KeyPath(r.path).value)
  {
    assert Rooted(nodes) == nodes;
    var i :| 0 <= i < |rules| && rules[i] == r;
    assert Sound(rules[i]);
    var id := KeyPath(r.path).value;
    NodeCoversExactlyWhen(nodes, id, r.path, q.path);
    HeldThere(nodes[id], rules, r, id);
    RepresentsDecided(nodes, rules);
    NodeSpeaks(nodes[id], q, r.principal, r.action);
  }

  lemma HeldThere(n: Node, rules: seq<Rule>, r: Rule, id: Id)
    requires HoldsExactly(n, id, rules) && r in rules && KeyPath(r.path) == Some(id)
    ensures Held(n, r.principal, r.mode) == Some(r.action) && n.hasPolicy
  {
    assert Fills(r, id, r.principal, r.mode);
  }

  /** Where all rules that concern the query agree, Probe answers as they do, in every order; where there is none it denies. */
  lemma UnanimousRules(nodes: Nodes, rules: seq<Rule>, q: Query, visits: seq<Id>, action: Action)
    requires Represents(nodes, rules) && [] in nodes && PlainNodes(nodes) && PlainRules(rules)
    requires PrefixClosed(nodes) && Walks(nodes, q.path, [[]], visits)
    requires forall r :: r in rules && Concerns(r, q) ==> r.action == action
    ensures Verdict(nodes, q, visits) == if exists r :: r in rules && Concerns(r, q) then action else ActionDeny
  {
    WalkMeaning(nodes, q.path, visits);
    VerdictFromCandidate(nodes, q, visits);
    if r :| r in rules && Concerns(r, q) {
      ConcernedIsCandidate(nodes, rules, q, r);
      CoveringVisited(nodes, q.path, visits, KeyPath(r.path).value);
      var id :| id in visits && Candidate(nodes, q, id) && Says(nodes, q, id).0 == Verdict(nodes, q, visits);
      var s := CandidateHasRule(nodes, rules, q, id);
    } else {
      forall id | id in visits ensures !Candidate(nodes, q, id) {
        if Candidate(nodes, q, id) {
          var s := CandidateHasRule(nodes, rules, q, id);
        }
      }
    }
  }

  lemma CandidateHasRule(nodes: Nodes, rules: seq<Rule>, q: Query, id: Id) returns (r: Rule)
    requires Represents(nodes, rules) && [] in nodes && PlainNodes(nodes) && PlainRules(rules)
    requires PrefixClosed(nodes) && Candidate(nodes, q, id)
    ensures r in rules && (r.action, r.principal.User?) == Says(nodes, q, id) && Concerns(r, q) && KeyPath(r.path) == Some(id)
  {
    assert Rooted(nodes) == nodes;
    r := SaidByRule(nodes, rules, q, id);
    var i :| 0 <= i < |rules| && rules[i] == r;
    NodeCoversExactlyWhen(nodes, id, r.path, q.path);
  }

  // ---------------------------------------------------------------------
  // Which nodes are consulted
  // ---------------------------------------------------------------------

  ghost function Candidates(nodes: Nodes, q: Query, ids: seq<Id>): seq<Id>
    requires PrefixClosed(nodes)
  {
    if ids == [] then []
    else
      var n := |ids| - 1;
      Candidates(nodes, q, ids[..n]) + (if Candidate(nodes, q, ids[n]) then [ids[n]] else [])
  }

  lemma {:induction false} CandidatesMeaning(nodes: Nodes, q: Query, ids: seq<Id>, id: Id)
    requires PrefixClosed(nodes)
    ensures id in Candidates(nodes, q, ids) <==> id in ids && Candidate(nodes, q, id)
    decreases |ids|
  {
    if ids != [] {
      var n := |ids| - 1;
      assert ids == ids[..n] + [ids[n]];
      CandidatesMeaning(nodes, q, ids[..n], id);
    }
  }

  /** The callback's step on one node. */
  ghost function Keep(nodes: Nodes, q: Query, kept: (seq<Id>, nat), id: Id): (seq<Id>, nat)
    requires PrefixClosed(nodes)
  {
    if !Candidate(nodes, q, id) then kept
    else if |id| > kept.1 then ([id], |id|)
    else (kept.0 + [id], kept.1)
  }

  lemma MatchingAppend(nodes: Nodes, q: Query, ids: seq<Id>, id: Id)
    requires PrefixClosed(nodes)
    ensures Matching(nodes, q, ids + [id]) == Keep(nodes, q, Matching(nodes, q, ids), id)
    ensures Candidates(nodes, q, ids + [id]) == Candidates(nodes, q, ids) + (if Candidate(nodes, q, id) then [id] else [])
  {
    assert (ids + [id])[..|ids|] == ids;
  }

  lemma {:induction false} MatchingShort(nodes: Nodes, q: Query, ids: seq<Id>, n: nat)
    requires PrefixClosed(nodes) && forall id :: id in ids && Candidate(nodes, q, id) ==> |id| < n
    ensures Matching(nodes, q, ids).1 < n || Matching(nodes, q, ids) == ([], 0)
    decreases |ids|
  {
    if ids != [] {
      var m := |ids| - 1;
      assert ids == ids[..m] + [ids[m]];
      MatchingShort(nodes, q, ids[..m], n);
      MatchingAppend(nodes, q, ids[..m], ids[m]);
    }
  }

  lemma KeepAfter(nodes: Nodes, q: Query, d: Id, kept: seq<Id>, id: Id)
    requires PrefixClosed(nodes) && (Candidate(nodes, q, id) ==> |id| <= |d|)
    ensures Keep(nodes, q, ([d] + kept, |d|), id) == ([d] + (kept + (if Candidate(nodes, q, id) then [id] else [])), |d|)
  {
    assert ([d] + kept) + [id] == [d] + (kept + [id]);
    assert kept + [] == kept;
  }

  /** From the first candidate of the greatest depth on, every candidate visited is kept, however shallow. */
  lemma {:induction false} MatchingSplit(nodes: Nodes, q: Query, before: seq<Id>, d: Id, after: seq<Id>)
    requires PrefixClosed(nodes) && Candidate(nodes, q, d)
    requires forall id :: id in before && Candidate(nodes, q, id) ==> |id| < |d|
    requires forall id :: id in after && Candidate(nodes, q, id) ==> |id| <= |d|
    ensures Matching(nodes, q, before + [d] + after) == ([d] + Candidates(nodes, q, after), |d|)
    decreases |after|
  {
    if after == [] {
      MatchingShort(nodes, q, before, |d|);
      MatchingAppend(nodes, q, before, d);
      assert before + [d] + after == before + [d];
      assert [d] + [] == [d] && [] + [d] == [d];
    } else {
      var n := |after| - 1;
      TopApart(after);
      assert after[n] in after;
      MatchingSplit(nodes, q, before, d, after[..n]);
      Regroup(before + [d], after[..n], [after[n]]);
      MatchingAppend(nodes, q, before + [d] + after[..n], after[n]);
      MatchingAppend(nodes, q, after[..n], after[n]);
      KeepAfter(nodes, q, d, Candidates(nodes, q, after[..n]), after[n]);
    }
  }

  /** The i-th node visited is the first candidate of the greatest depth. */
  ghost predicate IsFirstDeepest(nodes: Nodes, q: Query, visits: seq<Id>, i: nat)
    requires PrefixClosed(nodes)
  {
    && i < |visits| && Candidate(nodes, q, visits[i])
    && (forall id :: id in visits && Candidate(nodes, q, id) ==> |id| <= |visits[i]|)
    && (forall id :: id in visits[..i] && Candidate(nodes, q, id) ==> |id| < |visits[i]|)
  }

  lemma FirstDeepestAppend(nodes: Nodes, q: Query, visits: seq<Id>, i: nat, id: Id) returns (j: nat)
    requires PrefixClosed(nodes) && IsFirstDeepest(nodes, q, visits, i)
    ensures IsFirstDeepest(nodes, q, visits + [id], j)
  {
    var more := visits + [id];
    if Candidate(nodes, q, id) && |id| > |visits[i]| {
      j := |visits|;
      assert more[..j] == visits;
    } else {
      j := i;
      assert more[..j] == visits[..i];
    }
  }

  lemma {:induction false} FirstDeepest(nodes: Nodes, q: Query, visits: seq<Id>) returns (i: nat)
    requires PrefixClosed(nodes) && exists id :: id in visits && Candidate(nodes, q, id)
    ensures IsFirstDeepest(nodes, q, visits, i)
    decreases |visits|
  {
    var n := |visits| - 1;
    var init := visits[..n];
    TopApart(visits);
    if exists id :: id in init && Candidate(nodes, q, id) {
      i := FirstDeepest(nodes, q, init);
      i := FirstDeepestAppend(nodes, q, init, i, visits[n]);
    } else {
      i := n;
    }
  }

  lemma SplitAt(visits: seq<Id>, i: nat)
    requires i < |visits|
    ensures visits == visits[..i] + [visits[i]] + visits[i + 1..]
  {
  }

  /** The first node kept is the first visited of the greatest depth. */
  lemma FirstKept(nodes: Nodes, q: Query, visits: seq<Id>, i: nat)
    requires PrefixClosed(nodes) && IsFirstDeepest(nodes, q, visits, i)
    ensures Matching(nodes, q, visits).0 == [visits[i]] + Candidates(nodes, q, visits[i + 1..])
    ensures Consulted(nodes, q, visits) != [] && Consulted(nodes, q, visits)[0] == visits[i]
  {
    SplitAt(visits, i);
    MatchingSplit(nodes, q, visits[..i], visits[i], visits[i + 1..]);
    SpecificMeaning(nodes, Matching(nodes, q, visits).0);
  }

  /** Only the first is consulted exactly when every other one fixes fewer keys. */
  lemma {:induction false} SpecificSingle(nodes: Nodes, d: Id, rest: seq<Id>)
    ensures Specific(nodes, [d] + rest).0 == [d] <==> forall id :: id in rest ==> Total(nodes, id) < Total(nodes, d)
    ensures Specific(nodes, [d] + rest).0 == [d] ==> Specific(nodes, [d] + rest).1 == Total(nodes, d)
    decreases |rest|
  {
    var ids := [d] + rest;
    if rest == [] {
      assert ids == [d] && ids[..0] == [];
      assert [] + [d] == [d];
    } else {
      var n := |rest| - 1;
      assert ids[..|ids| - 1] == [d] + rest[..n];
      assert rest == rest[..n] + [rest[n]];
      SpecificSingle(nodes, d, rest[..n]);
      SpecificMeaning(nodes, [d] + rest[..n]);
    }
  }

  // ---------------------------------------------------------------------
  // When the order does not matter
  // ---------------------------------------------------------------------

  /** Every other candidate is shallower, and fixes fewer keys or lies above. */
  ghost predicate Dominates(nodes: Nodes, q: Query, d: Id)
    requires PrefixClosed(nodes)
  {
    Candidate(nodes, q, d) &&
    forall x :: Candidate(nodes, q, x) && x != d ==> |x| < |d| && (x <= d || Total(nodes, x) < Total(nodes, d))
  }

  lemma DominantConsulted(nodes: Nodes, q: Query, d: Id, visits: seq<Id>)
    requires PrefixClosed(nodes) && Dominates(nodes, q, d) && Walks(nodes, q.path, [[]], visits)
    ensures Consulted(nodes, q, visits) == [d] && Matching(nodes, q, visits).0 != []
  {
    WalkMeaning(nodes, q.path, visits);
    CoveringVisited(nodes, q.path, visits, d);
    var i :| 0 <= i < |visits| && visits[i] == d;
    DominantFirst(nodes, q, d, visits, i);
    FirstKept(nodes, q, visits, i);
    var after := visits[i + 1..];
    forall x | x in Candidates(nodes, q, after) ensures Total(nodes, x) < Total(nodes, d) {
      CandidatesMeaning(nodes, q, after, x);
      LaterIsLess(nodes, q, d, visits, i, x);
    }
    SpecificSingle(nodes, d, Candidates(nodes, q, after));
  }

  lemma DominantFirst(nodes: Nodes, q: Query, d: Id, visits: seq<Id>, i: nat)
    requires PrefixClosed(nodes) && Dominates(nodes, q, d) && NoRepeats(visits) && i < |visits| && visits[i] == d
    ensures IsFirstDeepest(nodes, q, visits, i)
  {
    assert forall x :: x in visits[..i] ==> x != d;
  }

  lemma LaterIsLess(nodes: Nodes, q: Query, d: Id, visits: seq<Id>, i: nat, x: Id)
    requires PrefixClosed(nodes) && Dominates(nodes, q, d) && IsWalk(nodes, q.path, visits) && i < |visits| && visits[i] == d
    requires x in visits[i + 1..] && Candidate(nodes, q, x)
    ensures Total(nodes, x) < Total(nodes, d)
  {
    var j :| 0 <= j < |visits[i + 1..]| && visits[i + 1..][j] == x;
    assert visits[i + 1 + j] == x;
  }

  /** Where a candidate dominates, Probe answers as it does, in every order. */
  lemma DominantDecides(nodes: Nodes, q: Query, d: Id, visits: seq<Id>)
    requires PrefixClosed(nodes) && Dominates(nodes, q, d) && Walks(nodes, q.path, [[]], visits)
    ensures Verdict(nodes, q, visits) == Says(nodes, q, d).0
  {
    DominantConsulted(nodes, q, d, visits);
    CombinedMeaning(nodes, q, [d]);
  }

  /** When the candidates lie on one path down the trie, the deepest decides. */
  lemma DeepestOnPathDecides(nodes: Nodes, q: Query, d: Id, visits: seq<Id>)
    requires PrefixClosed(nodes) && Walks(nodes, q.path, [[]], visits)
    requires Candidate(nodes, q, d) && forall x :: Candidate(nodes, q, x) ==> x <= d
    ensures Verdict(nodes, q, visits) == Says(nodes, q, d).0
  {
    assert forall x :: Candidate(nodes, q, x) && x != d ==> |x| < |d|;
    DominantDecides(nodes, q, d, visits);
  }

  ghost predicate AlwaysConsulted(nodes: Nodes, q: Query, d: Id)
    requires PrefixClosed(nodes)
  {
    forall visits :: Walks(nodes, q.path, [[]], visits) ==> Consulted(nodes, q, visits) == [d]
  }

  lemma AnyWalk(nodes: Nodes, asked: seq<Elem>) returns (visits: seq<Id>)
    requires PrefixClosed(nodes)
    ensures Walks(nodes, asked, [[]], visits)
  {
    StartInv(nodes, asked);
    visits := WalkEnds(nodes, asked, [[]], []);
  }

  /** What is always consulted is a candidate, and none is deeper. */
  lemma ConsultedIsDeepest(nodes: Nodes, q: Query, d: Id, visits: seq<Id>, x: Id)
    requires PrefixClosed(nodes) && Walks(nodes, q.path, [[]], visits) && Consulted(nodes, q, visits) == [d]
    ensures Candidate(nodes, q, d) && (Candidate(nodes, q, x) ==> |x| <= |d|)
  {
    WalkMeaning(nodes, q.path, visits);
    MatchingMeaning(nodes, q, visits);
    SpecificMeaning(nodes, Matching(nodes, q, visits).0);
    assert d in Consulted(nodes, q, visits);
    if Candidate(nodes, q, x) {
      CoveringVisited(nodes, q.path, visits, x);
      var i := FirstDeepest(nodes, q, visits);
      FirstKept(nodes, q, visits, i);
    }
  }

  /** Steered to a candidate of the greatest depth, the walk consults it first. */
  lemma SteeredFirst(nodes: Nodes, q: Query, x: Id, visits: seq<Id>)
    requires PrefixClosed(nodes) && Candidate(nodes, q, x) && Straight(visits, x, 0)
    requires forall y :: Candidate(nodes, q, y) ==> |y| <= |x|
    ensures IsFirstDeepest(nodes, q, visits, |x|) && visits[|x|] == x
  {
    assert x[..|x|] == x;
    forall y | y in visits[..|x|] ensures |y| < |x| {
      var k :| 0 <= k < |x| && visits[..|x|][k] == y;
      assert visits[k] == x[..k];
    }
  }

  lemma NoRival(nodes: Nodes, q: Query, d: Id, x: Id)
    requires PrefixClosed(nodes) && AlwaysConsulted(nodes, q, d)
    requires Candidate(nodes, q, x) && x != d
    requires forall y :: Candidate(nodes, q, y) ==> |y| <= |d|
    ensures |x| < |d|
  {
    if |x| == |d| {
      var visits := WalkToFirst(nodes, q.path, x);
      SteeredFirst(nodes, q, x, visits);
      FirstKept(nodes, q, visits, |x|);
    }
  }

  lemma VisitedLater(visits: seq<Id>, d: Id, x: Id)
    requires Straight(visits, d, 0) && x in visits && !(x <= d)
    ensures x in visits[|d| + 1..]
  {
    var j :| 0 <= j < |visits| && visits[j] == x;
    forall k | 0 <= k <= |d| ensures visits[k] != x {
      assert visits[k - 0] == d[..k] && d[..k] <= d;
    }
    assert visits[|d| + 1..][j - |d| - 1] == x;
  }

  lemma LaterFixesFewer(nodes: Nodes, q: Query, visits: seq<Id>, i: nat, x: Id)
    requires PrefixClosed(nodes) && IsFirstDeepest(nodes, q, visits, i) && Consulted(nodes, q, visits) == [visits[i]]
    requires x in visits[i + 1..] && Candidate(nodes, q, x)
    ensures Total(nodes, x) < Total(nodes, visits[i])
  {
    var after := visits[i + 1..];
    FirstKept(nodes, q, visits, i);
    CandidatesMeaning(nodes, q, after, x);
    SpecificSingle(nodes, visits[i], Candidates(nodes, q, after));
  }

  lemma NoSpecificRival(nodes: Nodes, q: Query, d: Id, x: Id)
    requires PrefixClosed(nodes) && AlwaysConsulted(nodes, q, d) && Candidate(nodes, q, d)
    requires Candidate(nodes, q, x) && x != d && !(x <= d)
    requires forall y :: Candidate(nodes, q, y) ==> |y| <= |d|
    ensures Total(nodes, x) < Total(nodes, d)
  {
    var visits := WalkToFirst(nodes, q.path, d);
    WalkMeaning(nodes, q.path, visits);
    CoveringVisited(nodes, q.path, visits, x);
    SteeredFirst(nodes, q, d, visits);
    VisitedLater(visits, d, x);
    LaterFixesFewer(nodes, q, visits, |d|, x);
  }

  /** One and the same node is consulted in every order exactly when it dominates the other candidates. */
  lemma OrderIrrelevantExactlyWhen(nodes: Nodes, q: Query, d: Id)
    requires PrefixClosed(nodes)
    ensures AlwaysConsulted(nodes, q, d) <==> Dominates(nodes, q, d)
  {
    if Dominates(nodes, q, d) {
      forall visits | Walks(nodes, q.path, [[]], visits) ensures Consulted(nodes, q, visits) == [d] {
        DominantConsulted(nodes, q, d, visits);
      }
    }
    if AlwaysConsulted(nodes, q, d) {
      var visits := AnyWalk(nodes, q.path);
      forall y ensures Candidate(nodes, q, d) && (Candidate(nodes, q, y) ==> |y| <= |d|) {
        ConsultedIsDeepest(nodes, q, d, visits, y);
      }
      forall x | Candidate(nodes, q, x) && x != d
        ensures |x| < |d| && (x <= d || Total(nodes, x) < Total(nodes, d))
      {
        NoRival(nodes, q, d, x);
        if !(x <= d) {
          NoSpecificRival(nodes, q, d, x);
        }
      }
    }
  }
}
