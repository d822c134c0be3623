/** The dependence of verdicts on map order, in terms of accepted policies. */
module AclOrder {
  import opened Wrappers
  import opened PathElem
  import opened AclTrie
  import opened AclWalk
  import opened AclNodes
  import opened AclProbe
  import opened AclTheorem
  import opened AclVerdict
  import opened AclVoices

  // ---------------------------------------------------------------------
  // Nodes and rules
  // ---------------------------------------------------------------------

  /** A trie that stands for a policy with plain names and keys. */
  ghost predicate Accepted(nodes: Nodes, rules: seq<Rule>) {
    [] in nodes && Represents(nodes, rules) && WellFiled(nodes) && PlainNodes(nodes) && PlainRules(rules)
  }

  /** What loading a consistent plain policy gives. */
  lemma LoadedIsAccepted(rules: seq<Rule>)
    requires rules != [] && Consistent(rules) && PlainRules(rules)
    ensures InsertedAll(map[], rules).1 && Accepted(InsertedAll(map[], rules).0, rules)
  {
    NoRules();
    FromPolicyExactlyWhen(rules);
    InsertAllKeepsPlain(map[], rules);
    InsertedAllHasRoot(map[], [], rules);
    var nodes := InsertedAll(map[], rules).0;
    assert Rooted(nodes) == nodes;
  }

  /** The first path leads to the second, wildcard keys aside. */
  ghost predicate LeadsTo(p: seq<Elem>, q: seq<Elem>) {
    |p| <= |q| && forall i :: 0 <= i < |p| ==> Pruned(p[i]) == Pruned(q[i])
  }

  lemma LeadsToExactlyWhen(p: seq<Elem>, q: seq<Elem>)
    requires PlainPath(p) && PlainPath(q) && KeyPath(p).Some? && KeyPath(q).Some?
    ensures KeyPath(p).value <= KeyPath(q).value <==> LeadsTo(p, q)
  {
    var x, d := KeyPath(p).value, KeyPath(q).value;
    KeyPathAt(p, 0);
    KeyPathAt(q, 0);
    if |p| <= |q| {
      forall i | 0 <= i < |p| ensures x[i] == d[i] <==> Pruned(p[i]) == Pruned(q[i]) {
        KeyPathAt(p, i);
        KeyPathAt(q, i);
        ElemKeyExactlyWhen(p[i], q[i]);
      }
      assert x <= d <==> forall i :: 0 <= i < |x| ==> x[i] == d[i];
    }
  }

  lemma RuleFacts(nodes: Nodes, rules: seq<Rule>, r: Rule)
    requires Accepted(nodes, rules) && r in rules
    ensures PrefixClosed(nodes) && AllDecided(nodes) && Sound(r) && PlainPath(r.path) && KeyPath(r.path).value in nodes
    ensures |KeyPath(r.path).value| == |r.path| && Total(nodes, KeyPath(r.path).value) == KeyCount(r.path)
  {
    assert Rooted(nodes) == nodes;
    RepresentsDecided(nodes, rules);
    var i :| 0 <= i < |rules| && rules[i] == r;
    assert Sound(rules[i]);
    KeyPathAt(r.path, 0);
    NodeCountsKeys(nodes, KeyPath(r.path).value, r.path);
  }

  lemma ByName(nodes: Nodes, rules: seq<Rule>, q: Query, r: Rule)
    requires Accepted(nodes, rules) && r in rules && r.principal == User(q.user) && r.mode == q.mode
    ensures KeyPath(r.path).Some? && Says(nodes, q, KeyPath(r.path).value) == (r.action, true)
  {
    RuleFacts(nodes, rules, r);
    assert Rooted(nodes) == nodes;
    HeldThere(nodes[KeyPath(r.path).value], rules, r, KeyPath(r.path).value);
  }

  // ---------------------------------------------------------------------
  // When the verdict on a query is the same in every order
  // ---------------------------------------------------------------------

  /** Of the rules that concern the query this one has the longest path. */
  ghost predicate DeepestRule(rules: seq<Rule>, q: Query, deep: Rule) {
    deep in rules && Concerns(deep, q) && forall r :: r in rules && Concerns(r, q) && r != deep ==> |r.path| < |deep.path|
  }

  /** A denial on a path that does not lead to the deepest rule's and fixes no fewer keys. */
  ghost predicate OverruledBy(rules: seq<Rule>, q: Query, deep: Rule, s: Rule) {
    && s in rules && Concerns(s, q) && s.action == ActionDeny
    && !LeadsTo(s.path, deep.path) && KeyCount(s.path) >= KeyCount(deep.path)
  }

  /** No rule denies by group, or none but the deepest permits by name. */
  ghost predicate OneVoice(rules: seq<Rule>, q: Query, deep: Rule) {
    || (forall r :: r in rules && Concerns(r, q) && r.principal.Group? ==> r.action == ActionPermit)
    || (forall r :: r in rules && Concerns(r, q) && r.principal.User? && r != deep ==> r.action == ActionDeny)
  }

  /** A denial by name decides: the deepest rule, or one that overrules it. */
  ghost predicate NameRules(rules: seq<Rule>, q: Query, deep: Rule) {
    || (deep.principal.User? && deep.action == ActionDeny)
    || (deep.action == ActionPermit && exists s :: OverruledBy(rules, q, deep, s) && s.principal.User?)
  }

  /** What a covering node holds for the user by name was put there by a rule that concerns the query. */
  lemma NameConcerns(nodes: Nodes, rules: seq<Rule>, q: Query, x: Id) returns (r: Rule)
    requires Accepted(nodes, rules) && x in nodes && Open(nodes, q.path, x)
    requires Held(nodes[x], User(q.user), q.mode).Some?
    ensures r in rules && Concerns(r, q) && KeyPath(r.path) == Some(x) && r.principal == User(q.user)
  {
    assert Rooted(nodes) == nodes;
    assert HoldsExactly(nodes[x], x, rules);
    var action := Held(nodes[x], User(q.user), q.mode).value;
    r :| r in rules && Fills(r, x, User(q.user), q.mode) && r.action == action;
    RuleFacts(nodes, rules, r);
    NodeCoversExactlyWhen(nodes, x, r.path, q.path);
  }

  lemma GroupDenies(n: Node, q: Query, g: string)
    requires Held(n, User(q.user), q.mode).None? && ViaGroup(n, q, g, ActionDeny)
    ensures GetAction(n, q) == (ActionDeny, false)
  {
  }

  /** A node that holds a group's denial denies unless it holds a permission by name. */
  lemma DenialSpeaks(nodes: Nodes, rules: seq<Rule>, q: Query, s: Rule, y: Id)
    requires Accepted(nodes, rules) && s in rules && Concerns(s, q) && s.action == ActionDeny && KeyPath(s.path) == Some(y)
    requires y in nodes && Open(nodes, q.path, y)
    requires s.principal.User? || forall r :: r in rules && Concerns(r, q) && KeyPath(r.path) == Some(y) && r.principal.User? ==> r.action == ActionDeny
    ensures Says(nodes, q, y).0 == ActionDeny
  {
    if s.principal.User? {
      ByName(nodes, rules, q, s);
    } else if Held(nodes[y], User(q.user), q.mode).Some? {
      var r := NameConcerns(nodes, rules, q, y);
      ByName(nodes, rules, q, r);
    } else {
      assert Rooted(nodes) == nodes;
      HeldThere(nodes[y], rules, s, y);
      GroupDenies(nodes[y], q, s.principal.group);
    }
  }

  lemma DeepestNode(nodes: Nodes, rules: seq<Rule>, q: Query, deep: Rule, d: Id)
    requires Accepted(nodes, rules) && DeepestRule(rules, q, deep) && KeyPath(deep.path) == Some(d)
    ensures PrefixClosed(nodes) && UniqueDeepest(nodes, q, d) && Says(nodes, q, d) == (deep.action, deep.principal.User?)
  {
    RuleFacts(nodes, rules, deep);
    ConcernedIsCandidate(nodes, rules, q, deep);
    forall x | Candidate(nodes, q, x) ensures x != d ==> |x| < |d| {
      var r := CandidateHasRule(nodes, rules, q, x);
      RuleFacts(nodes, rules, r);
    }
    var r := CandidateHasRule(nodes, rules, q, d);
    RuleFacts(nodes, rules, r);
  }

  /** A rule that overrules by name, or among rules of one voice, is heard at its node. */
  lemma OverrulingNode(nodes: Nodes, rules: seq<Rule>, q: Query, deep: Rule, d: Id, s: Rule)
    requires Accepted(nodes, rules) && DeepestRule(rules, q, deep) && KeyPath(deep.path) == Some(d)
    requires OverruledBy(rules, q, deep, s) && (s.principal.User? || OneVoice(rules, q, deep))
    ensures PrefixClosed(nodes) && KeyPath(s.path).Some? && Overrules(nodes, q, d, KeyPath(s.path).value)
    ensures s.principal.User? ==> Says(nodes, q, KeyPath(s.path).value).1
  {
    RuleFacts(nodes, rules, deep);
    RuleFacts(nodes, rules, s);
    ConcernedIsCandidate(nodes, rules, q, s);
    LeadsToExactlyWhen(s.path, deep.path);
    DenialSpeaks(nodes, rules, q, s, KeyPath(s.path).value);
    if s.principal.User? {
      ByName(nodes, rules, q, s);
    }
  }

  lemma OverrulingRule(nodes: Nodes, rules: seq<Rule>, q: Query, deep: Rule, d: Id, y: Id) returns (s: Rule)
    requires Accepted(nodes, rules) && DeepestRule(rules, q, deep) && KeyPath(deep.path) == Some(d)
    requires PrefixClosed(nodes) && Overrules(nodes, q, d, y)
    ensures OverruledBy(rules, q, deep, s)
  {
    s := CandidateHasRule(nodes, rules, q, y);
    RuleFacts(nodes, rules, deep);
    RuleFacts(nodes, rules, s);
    LeadsToExactlyWhen(s.path, deep.path);
  }

  /** The rules behind a standoff. */
  lemma StandoffRules(nodes: Nodes, rules: seq<Rule>, q: Query, d: Id) returns (denial: Rule, own: Rule)
    requires Accepted(nodes, rules) && PrefixClosed(nodes) && Candidate(nodes, q, d) && Standoff(nodes, q, d)
    ensures denial in rules && Concerns(denial, q) && denial.principal.Group? && denial.action == ActionDeny
    ensures own in rules && Concerns(own, q) && own.principal.User? && own.action == ActionPermit && KeyPath(own.path) != Some(d)
  {
    var x :| (x == d || Rival(nodes, q, d, x)) && Says(nodes, q, x) == (ActionDeny, false);
    var z :| Rival(nodes, q, d, z) && Says(nodes, q, z) == (ActionPermit, true);
    denial := CandidateHasRule(nodes, rules, q, x);
    own := CandidateHasRule(nodes, rules, q, z);
  }

  lemma OneVoiceNoStandoff(nodes: Nodes, rules: seq<Rule>, q: Query, deep: Rule, d: Id)
    requires Accepted(nodes, rules) && DeepestRule(rules, q, deep) && KeyPath(deep.path) == Some(d) && OneVoice(rules, q, deep)
    ensures PrefixClosed(nodes) && !Standoff(nodes, q, d)
  {
    DeepestNode(nodes, rules, q, deep, d);
    if Standoff(nodes, q, d) {
      var denial, own := StandoffRules(nodes, rules, q, d);
    }
  }

  lemma RulesLeaveNoStandoff(nodes: Nodes, rules: seq<Rule>, q: Query, deep: Rule, d: Id)
    requires Accepted(nodes, rules) && DeepestRule(rules, q, deep) && KeyPath(deep.path) == Some(d)
    requires OneVoice(rules, q, deep) || NameRules(rules, q, deep)
    ensures PrefixClosed(nodes) && !Standoff(nodes, q, d)
  {
    DeepestNode(nodes, rules, q, deep, d);
    if OneVoice(rules, q, deep) {
      OneVoiceNoStandoff(nodes, rules, q, deep, d);
    } else if deep.action == ActionPermit {
      var s :| OverruledBy(rules, q, deep, s) && s.principal.User?;
      OverrulingNode(nodes, rules, q, deep, d, s);
    }
  }

  /**
   * For every accepted policy and every query that one deepest rule concerns, if the rules have one voice or a
   * denial by name decides: the verdict is the same in every map order exactly when the deepest rule denies or no
   * denial overrules it, and it then is the deepest rule's action.
   */
  lemma PolicyVerdictFixedExactlyWhen(nodes: Nodes, rules: seq<Rule>, q: Query, deep: Rule)
    requires Accepted(nodes, rules) && DeepestRule(rules, q, deep) && (OneVoice(rules, q, deep) || NameRules(rules, q, deep))
    ensures PrefixClosed(nodes)
    ensures (exists action :: AlwaysAnswers(nodes, q, action)) <==> deep.action == ActionDeny || forall s :: !OverruledBy(rules, q, deep, s)
    ensures forall action :: AlwaysAnswers(nodes, q, action) ==> action == deep.action
  {
    RuleFacts(nodes, rules, deep);
    var d := KeyPath(deep.path).value;
    DeepestNode(nodes, rules, q, deep, d);
    RulesLeaveNoStandoff(nodes, rules, q, deep, d);
    VerdictFixedExactlyWhen(nodes, q, d);
    OverruledAlike(nodes, rules, q, deep, d);
  }

  lemma OverruledAlike(nodes: Nodes, rules: seq<Rule>, q: Query, deep: Rule, d: Id)
    requires Accepted(nodes, rules) && DeepestRule(rules, q, deep) && KeyPath(deep.path) == Some(d) && PrefixClosed(nodes)
    requires OneVoice(rules, q, deep) || NameRules(rules, q, deep)
    ensures deep.action == ActionDeny || ((exists y :: Overrules(nodes, q, d, y)) <==> exists s :: OverruledBy(rules, q, deep, s))
  {
    if y :| Overrules(nodes, q, d, y) {
      var s := OverrulingRule(nodes, rules, q, deep, d, y);
    }
    if deep.action != ActionDeny && exists s :: OverruledBy(rules, q, deep, s) {
      var s :| OverruledBy(rules, q, deep, s) && (s.principal.User? || OneVoice(rules, q, deep));
      OverrulingNode(nodes, rules, q, deep, d, s);
    }
  }

  /** In the other case both verdicts occur: the deepest rule permits, yet the user may be denied. */
  lemma OrderMatters(nodes: Nodes, rules: seq<Rule>, q: Query, deep: Rule, s: Rule) returns (permitted: seq<Id>, denied: seq<Id>)
    requires Accepted(nodes, rules) && DeepestRule(rules, q, deep) && deep.action == ActionPermit
    requires OverruledBy(rules, q, deep, s) && (OneVoice(rules, q, deep) || s.principal.User?)
    ensures PrefixClosed(nodes)
    ensures Walks(nodes, q.path, [[]], permitted) && Verdict(nodes, q, permitted) == ActionPermit
    ensures Walks(nodes, q.path, [[]], denied) && Verdict(nodes, q, denied) == ActionDeny
  {
    RuleFacts(nodes, rules, deep);
    var d := KeyPath(deep.path).value;
    DeepestNode(nodes, rules, q, deep, d);
    RulesLeaveNoStandoff(nodes, rules, q, deep, d);
    OverrulingNode(nodes, rules, q, deep, d, s);
    permitted, denied := BothVerdicts(nodes, q, d, KeyPath(s.path).value);
  }

  // ---------------------------------------------------------------------
  // A name against a group
  // ---------------------------------------------------------------------

  /** The only rules that concern the query are the user's permission and a group's denial. */
  ghost predicate NameAgainstGroup(rules: seq<Rule>, q: Query, own: Rule, denial: Rule) {
    && own in rules && denial in rules && Concerns(own, q) && Concerns(denial, q)
    && (forall r :: r in rules && Concerns(r, q) ==> r == own || r == denial)
    && own.principal.User? && own.action == ActionPermit && denial.principal.Group? && denial.action == ActionDeny
  }

  /** The other path leads to a's, or is no longer and fixes fewer keys. */
  ghost predicate RuleOutranks(a: Rule, b: Rule) {
    LeadsTo(b.path, a.path) || (|b.path| <= |a.path| && KeyCount(b.path) < KeyCount(a.path))
  }

  lemma OutranksAlike(nodes: Nodes, rules: seq<Rule>, a: Rule, b: Rule, d: Id, x: Id)
    requires Accepted(nodes, rules) && a in rules && b in rules && KeyPath(a.path) == Some(d) && KeyPath(b.path) == Some(x)
    ensures Outranks(nodes, d, x) <==> RuleOutranks(a, b)
  {
    RuleFacts(nodes, rules, a);
    RuleFacts(nodes, rules, b);
    LeadsToExactlyWhen(b.path, a.path);
  }

  /** Alone at its node a rule is heard. */
  lemma RuleIsHeard(nodes: Nodes, rules: seq<Rule>, q: Query, own: Rule, denial: Rule, r: Rule, id: Id)
    requires Accepted(nodes, rules) && PrefixClosed(nodes) && NameAgainstGroup(rules, q, own, denial) && KeyPath(own.path) != KeyPath(denial.path)
    requires (r == own || r == denial) && KeyPath(r.path) == Some(id)
    ensures Candidate(nodes, q, id) && Says(nodes, q, id) == (r.action, r.principal.User?)
  {
    ConcernedIsCandidate(nodes, rules, q, r);
    var r' := CandidateHasRule(nodes, rules, q, id);
  }

  /** The two rules lie at different nodes, which are all the matches. */
  lemma TwoNodes(nodes: Nodes, rules: seq<Rule>, q: Query, own: Rule, denial: Rule, d: Id, x: Id)
    requires Accepted(nodes, rules) && NameAgainstGroup(rules, q, own, denial) && KeyPath(own.path) == Some(d) && KeyPath(denial.path) == Some(x)
    requires d != x
    ensures PrefixClosed(nodes) && OnlyTwo(nodes, q, d, x)
    ensures Says(nodes, q, d) == (ActionPermit, true) && Says(nodes, q, x) == (ActionDeny, false)
  {
    RuleFacts(nodes, rules, own);
    RuleIsHeard(nodes, rules, q, own, denial, own, d);
    RuleIsHeard(nodes, rules, q, own, denial, denial, x);
    forall id | Candidate(nodes, q, id) ensures id == d || id == x {
      var r := CandidateHasRule(nodes, rules, q, id);
    }
  }

  /** Both at one node, where the name is heard. */
  lemma OneNode(nodes: Nodes, rules: seq<Rule>, q: Query, own: Rule, denial: Rule, d: Id, visits: seq<Id>)
    requires Accepted(nodes, rules) && NameAgainstGroup(rules, q, own, denial) && KeyPath(own.path) == Some(d) && KeyPath(denial.path) == Some(d)
    requires PrefixClosed(nodes) && Walks(nodes, q.path, [[]], visits)
    ensures Verdict(nodes, q, visits) == ActionPermit
  {
    ConcernedIsCandidate(nodes, rules, q, own);
    ByName(nodes, rules, q, own);
    forall id | Candidate(nodes, q, id) ensures id <= d {
      var r := CandidateHasRule(nodes, rules, q, id);
    }
    DeepestOnPathDecides(nodes, q, d, visits);
  }

  /**
   * For every accepted policy in which a user's permission and a group's denial are all that concerns the query: the
   * verdict is the same in every map order exactly when one rule outranks the other, and it then is that rule's action;
   * the name is preferred only at one and the same path.
   */
  lemma NameAgainstGroupExactlyWhen(nodes: Nodes, rules: seq<Rule>, q: Query, own: Rule, denial: Rule)
    requires Accepted(nodes, rules) && NameAgainstGroup(rules, q, own, denial)
    ensures PrefixClosed(nodes)
    ensures (exists action :: AlwaysAnswers(nodes, q, action)) <==> RuleOutranks(own, denial) || RuleOutranks(denial, own)
    ensures forall action :: AlwaysAnswers(nodes, q, action) ==> action == if RuleOutranks(own, denial) then ActionPermit else ActionDeny
  {
    RuleFacts(nodes, rules, own);
    RuleFacts(nodes, rules, denial);
    var d, x := KeyPath(own.path).value, KeyPath(denial.path).value;
    OutranksAlike(nodes, rules, own, denial, d, x);
    OutranksAlike(nodes, rules, denial, own, x, d);
    if d == x {
      forall visits | Walks(nodes, q.path, [[]], visits) ensures Verdict(nodes, q, visits) == ActionPermit {
        OneNode(nodes, rules, q, own, denial, d, visits);
      }
      assert AlwaysAnswers(nodes, q, ActionPermit);
      var visits := AnyWalk(nodes, q.path);
    } else {
      TwoNodes(nodes, rules, q, own, denial, d, x);
      NameAndGroupExactlyWhen(nodes, q, d, x);
    }
  }

  /** A user is meant to be preferred over groups; where neither rule outranks the other one map order permits, and another denies. */
  lemma NameLosesToLaterGroup(nodes: Nodes, rules: seq<Rule>, q: Query, own: Rule, denial: Rule) returns (denied: seq<Id>, permitted: seq<Id>)
    requires Accepted(nodes, rules) && NameAgainstGroup(rules, q, own, denial)
    requires !RuleOutranks(own, denial) && !RuleOutranks(denial, own)
    ensures PrefixClosed(nodes)
    ensures Walks(nodes, q.path, [[]], denied) && Verdict(nodes, q, denied) == ActionDeny
    ensures Walks(nodes, q.path, [[]], permitted) && Verdict(nodes, q, permitted) == ActionPermit
  {
    RuleFacts(nodes, rules, own);
    RuleFacts(nodes, rules, denial);
    var d, x := KeyPath(own.path).value, KeyPath(denial.path).value;
    OutranksAlike(nodes, rules, own, denial, d, x);
    OutranksAlike(nodes, rules, denial, own, x, d);
    TwoNodes(nodes, rules, q, own, denial, d, x);
    denied, permitted := NameOrGroup(nodes, q, d, x);
  }

  // ---------------------------------------------------------------------
  // Such policies exist
  // ---------------------------------------------------------------------

  lemma {:induction false} KeyPathExists(path: seq<Elem>)
    requires forall i :: 0 <= i < |path| ==> Valid(path[i]) && path[i].name != WILDCARD
    ensures KeyPath(path).Some?
    decreases |path|
  {
    if path != [] {
      KeyPathExists(path[1..]);
    }
  }

  lemma CountOne(e: Elem, k: string)
    requires SetKeys(e.keys) == {k}
    ensures KeyCount([e]) == 1
  {
    assert [e][..0] == [];
  }

  lemma CountTwo(e: Elem, f: Elem, k: string)
    requires SetKeys(e.keys) == {k} && SetKeys(f.keys) == {}
    ensures KeyCount([e, f]) == 1
  {
    CountOne(e, k);
    assert [e, f][..1] == [e];
  }

  lemma OneKey(name: string, k: string, v: string)
    requires name != "" && '=' !in name && name != WILDCARD && PlainKey(k) && v != WILDCARD
    ensures Usable(Elem(name, map[k := v])) && SetKeys(Elem(name, map[k := v]).keys) == {k}
  {
  }

  lemma SoundWhen(r: Rule)
    requires Checked(r) && forall i :: 0 <= i < |r.path| ==> Usable(r.path[i])
    ensures Sound(r) && PlainPath(r.path)
  {
    KeyPathExists(r.path);
  }

  ghost predicate Usable(e: Elem) {
    Valid(e) && Plain(e) && e.name != WILDCARD
  }

  lemma TwoRules(a: Rule, b: Rule)
    requires Sound(a) && Sound(b) && PlainPath(a.path) && PlainPath(b.path) && !SameSlot(a, b)
    ensures Consistent([a, b]) && PlainRules([a, b])
  {
  }

  /** Two rules by different principals or on paths of different lengths can be loaded together. */
  lemma PairLoads(a: Rule, b: Rule)
    requires Checked(a) && Checked(b) && (a.principal != b.principal || |a.path| != |b.path|)
    requires (forall i :: 0 <= i < |a.path| ==> Usable(a.path[i])) && forall i :: 0 <= i < |b.path| ==> Usable(b.path[i])
    ensures Consistent([a, b]) && PlainRules([a, b])
  {
    SoundWhen(a);
    SoundWhen(b);
    KeyPathAt(a.path, 0);
    KeyPathAt(b.path, 0);
    TwoRules(a, b);
  }

  /** Two elements of one name that fix one key each, a leaf below, and an element that has both keys. */
  ghost predicate Crossing(e: Elem, f: Elem, leaf: Elem, asked: Elem, k: string, l: string) {
    && Usable(e) && Usable(f) && Usable(leaf)
    && SetKeys(e.keys) == {k} && SetKeys(f.keys) == {l} && SetKeys(leaf.keys) == {} && Pruned(e) != Pruned(f)
    && CoversElem(e, asked) && CoversElem(f, asked) && CoversElem(leaf, leaf)
  }

  lemma ClashOf(e: Elem, f: Elem, leaf: Elem, asked: Elem, user: string, k: string, l: string)
    requires Crossing(e, f, leaf, asked, k, l) && user != ""
    ensures var deep, shallow := Rule([e, leaf], User(user), ModeRead, ActionPermit), Rule([f], User(user), ModeRead, ActionDeny);
            var q := Query([asked, leaf], user, ModeRead, map[]);
            && Consistent([deep, shallow]) && PlainRules([deep, shallow])
            && DeepestRule([deep, shallow], q, deep) && OverruledBy([deep, shallow], q, deep, shallow)
  {
    var deep, shallow := Rule([e, leaf], User(user), ModeRead, ActionPermit), Rule([f], User(user), ModeRead, ActionDeny);
    PairLoads(deep, shallow);
    CountTwo(e, leaf, k);
    CountOne(f, l);
    assert Pruned(shallow.path[0]) != Pruned(deep.path[0]);
    assert deep in [deep, shallow] && shallow in [deep, shallow];
  }

  lemma StandoffOf(e: Elem, f: Elem, leaf: Elem, asked: Elem, user: string, group: string, k: string, l: string)
    requires Crossing(e, f, leaf, asked, k, l) && user != "" && group != ""
    ensures var own, denial := Rule([e], User(user), ModeRead, ActionPermit), Rule([f], Group(group), ModeRead, ActionDeny);
            var q := Query([asked], user, ModeRead, map[group := {user}]);
            && Consistent([own, denial]) && PlainRules([own, denial]) && NameAgainstGroup([own, denial], q, own, denial)
            && !RuleOutranks(own, denial) && !RuleOutranks(denial, own)
  {
    var own, denial := Rule([e], User(user), ModeRead, ActionPermit), Rule([f], Group(group), ModeRead, ActionDeny);
    PairLoads(own, denial);
    CountOne(e, k);
    CountOne(f, l);
    assert Pruned(own.path[0]) != Pruned(denial.path[0]);
    assert own in [own, denial] && denial in [own, denial];
  }

  lemma CrossingExists() returns (e: Elem, f: Elem, leaf: Elem, asked: Elem)
    ensures Crossing(e, f, leaf, asked, "a", "b")
  {
    e, f, leaf := Elem("foo", map["a" := "1"]), Elem("foo", map["b" := "2"]), Elem("bar", map[]);
    asked := Elem("foo", map["a" := "1", "b" := "2"]);
    OneKey("foo", "a", "1");
    OneKey("foo", "b", "2");
    assert SetKeys(leaf.keys) == {} && Usable(leaf);
    assert "a" in Pruned(e).keys && "a" !in Pruned(f).keys;
  }

  /** /foo[a=1]/bar may be read, /foo[b=2] may not, and /foo[a=1][b=2]/bar is asked for: a loaded policy with both verdicts. */
  lemma ClashExists() returns (rules: seq<Rule>, nodes: Nodes, q: Query, permitted: seq<Id>, denied: seq<Id>)
    ensures InsertedAll(map[], rules) == (nodes, true) && PrefixClosed(nodes)
    ensures Walks(nodes, q.path, [[]], permitted) && Verdict(nodes, q, permitted) == ActionPermit
    ensures Walks(nodes, q.path, [[]], denied) && Verdict(nodes, q, denied) == ActionDeny
  {
    var e, f, leaf, asked := CrossingExists();
    ClashOf(e, f, leaf, asked, "bob", "a", "b");
    var deep, shallow := Rule([e, leaf], User("bob"), ModeRead, ActionPermit), Rule([f], User("bob"), ModeRead, ActionDeny);
    rules, q := [deep, shallow], Query([asked, leaf], "bob", ModeRead, map[]);
    LoadedIsAccepted(rules);
    nodes := InsertedAll(map[], rules).0;
    permitted, denied := OrderMatters(nodes, rules, q, deep, shallow);
  }

  /** bob may read /foo[a=1], bob's group may not read /foo[b=2], and /foo[a=1][b=2] is asked for. */
  lemma StandoffExists() returns (rules: seq<Rule>, nodes: Nodes, q: Query, permitted: seq<Id>, denied: seq<Id>)
    ensures InsertedAll(map[], rules) == (nodes, true) && PrefixClosed(nodes)
    ensures Walks(nodes, q.path, [[]], permitted) && Verdict(nodes, q, permitted) == ActionPermit
    ensures Walks(nodes, q.path, [[]], denied) && Verdict(nodes, q, denied) == ActionDeny
  {
    var e, f, leaf, asked := CrossingExists();
    StandoffOf(e, f, leaf, asked, "bob", "guests", "a", "b");
    var own, denial := Rule([e], User("bob"), ModeRead, ActionPermit), Rule([f], Group("guests"), ModeRead, ActionDeny);
    rules, q := [own, denial], Query([asked], "bob", ModeRead, map["guests" := {"bob"}]);
    LoadedIsAccepted(rules);
    nodes := InsertedAll(map[], rules).0;
    denied, permitted := NameLosesToLaterGroup(nodes, rules, q, own, denial);
  }
}
