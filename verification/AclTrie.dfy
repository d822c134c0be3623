/**
 * The ACL trie and the insertion of rules (gnsi/acltrie/trie.go).
 *
 * A node is named by the element keys on its way from the root, and the trie
 * is the map from these names to the nodes: the child of `at` under key k is
 * the entry at + [k], and an absent root is an absent entry [].
 */
module AclTrie {
  import opened Wrappers
  import opened PathElem

  datatype Mode = ModeUnspecified | ModeRead | ModeWrite | ModeOther(number: int)
  datatype Action = ActionUnspecified | ActionDeny | ActionPermit | ActionOther(number: int)
  datatype Principal = NoPrincipal | User(user: string) | Group(group: string)
  datatype Rule = Rule(path: seq<Elem>, principal: Principal, mode: Mode, action: Action)

  type Policies = map<Mode, map<string, Action>>
  type Id = seq<string>
  type Nodes = map<Id, Node>

  datatype Node = Node(elem: Elem, hasPolicy: bool, users: Policies, groups: Policies, totalSetKeys: nat)

  const ROOT := Node(Elem("", map[]), false, map[], map[], 0)

  // ---------------------------------------------------------------------
  // Inserting one rule
  // ---------------------------------------------------------------------

  /** The checks made before the trie is touched. */
  predicate Checked(r: Rule) {
    && (r.action == ActionDeny || r.action == ActionPermit)
    && r.mode != ModeUnspecified
    && r.principal != NoPrincipal && r.principal != User("") && r.principal != Group("")
  }

  function Child(parent: Node, e: Elem): Node {
    Node(e, false, map[], map[], parent.totalSetKeys + |SetKeys(e.keys)|)
  }

  /** One element of a path, from `at` to the node filed under its key. */
  ghost function Step(nodes: Nodes, at: Id, e: Elem): Nodes
    requires at in nodes && ElemKey(e).Some?
  {
    var next := at + [ElemKey(e).value];
    if next in nodes then nodes else nodes[next := Child(nodes[at], e)]
  }

  /** Follow a path from `at`, making the nodes that are missing; what was made stays when an element is refused. */
  ghost function Descend(nodes: Nodes, at: Id, path: seq<Elem>): (Nodes, Option<Id>)
    requires at in nodes
    decreases |path|
  {
    if path == [] then (nodes, Some(at))
    else if path[0].name == WILDCARD || ElemKey(path[0]).None? then (nodes, None)
    else
      Descend(Step(nodes, at, path[0]), at + [ElemKey(path[0]).value], path[1..])
  }

  lemma {:induction false} DescendArrives(nodes: Nodes, at: Id, path: seq<Elem>)
    requires at in nodes
    ensures Descend(nodes, at, path).1.Some? ==> Descend(nodes, at, path).1.value in Descend(nodes, at, path).0
    decreases |path|
  {
    if path != [] && path[0].name != WILDCARD && ElemKey(path[0]).Some? {
      DescendArrives(Step(nodes, at, path[0]), at + [ElemKey(path[0]).value], path[1..]);
    }
  }

  function Lookup(p: Policies, mode: Mode, name: string): Option<Action> {
    if mode in p && name in p[mode] then Some(p[mode][name]) else None
  }

  function Stored(p: Policies, mode: Mode, name: string, action: Action): Policies {
    p[mode := (if mode in p then p[mode] else map[])[name := action]]
  }

  /** The action a node holds for a principal. */
  function Held(n: Node, principal: Principal, mode: Mode): Option<Action> {
    match principal
    case NoPrincipal => None
    case User(u) => Lookup(n.users, mode, u)
    case Group(g) => Lookup(n.groups, mode, g)
  }

  function Hold(n: Node, principal: Principal, mode: Mode, action: Action): Node {
    match principal
    case NoPrincipal => n
    case User(u) => n.(users := Stored(n.users, mode, u, action), hasPolicy := true)
    case Group(g) => n.(groups := Stored(n.groups, mode, g, action), hasPolicy := true)
  }

  function Rooted(nodes: Nodes): (rooted: Nodes)
    ensures [] in rooted
  {
    if [] in nodes then nodes else nodes[[] := ROOT]
  }

  ghost function Inserted(nodes: Nodes, r: Rule): (Nodes, bool) {
    var rooted := Rooted(nodes);
    if !Checked(r) then (rooted, false)
    else
      var (grown, at) := Descend(rooted, [], r.path);
      DescendArrives(rooted, [], r.path);
      if at.None? then (grown, false)
      else if Held(grown[at.value], r.principal, r.mode).Some? then (grown, false)
      else (grown[at.value := Hold(grown[at.value], r.principal, r.mode, r.action)], true)
  }

  /** FromPolicy: the rules in order, up to the first that is refused. */
  ghost function InsertedAll(nodes: Nodes, rules: seq<Rule>): (Nodes, bool)
    decreases |rules|
  {
    if rules == [] then (nodes, true)
    else
      var (grown, ok) := Inserted(nodes, rules[0]);
      if ok then InsertedAll(grown, rules[1..]) else (grown, false)
  }

  // ---------------------------------------------------------------------
  // What a trie stands for
  // ---------------------------------------------------------------------

  /** The normalised form of a path, if it may be used in a rule. */
  ghost function KeyPath(path: seq<Elem>): Option<Id>
    decreases |path|
  {
    if path == [] then Some([])
    else if path[0].name == WILDCARD || ElemKey(path[0]).None? || KeyPath(path[1..]).None? then None
    else Some([ElemKey(path[0]).value] + KeyPath(path[1..]).value)
  }

  ghost predicate Sound(r: Rule) {
    Checked(r) && KeyPath(r.path).Some?
  }

  /** The rule fills the slot of a principal and a mode at a normalised path. */
  ghost predicate Fills(r: Rule, id: Id, principal: Principal, mode: Mode) {
    KeyPath(r.path) == Some(id) && r.principal == principal && r.mode == mode
  }

  ghost predicate SameSlot(r: Rule, s: Rule) {
    KeyPath(r.path) == KeyPath(s.path) && r.principal == s.principal && r.mode == s.mode
  }

  /** A policy without contradictions: every rule is sound and no two fill one slot. */
  ghost predicate Consistent(rules: seq<Rule>) {
    && (forall i :: 0 <= i < |rules| ==> Sound(rules[i]))
    && (forall i, j :: 0 <= i < j < |rules| ==> !SameSlot(rules[i], rules[j]))
  }

  predicate PrefixClosed(nodes: Nodes) {
    [] in nodes && forall id :: id in nodes && id != [] ==> id[..|id| - 1] in nodes
  }

  /** Every node carries the element it is filed under and counts the fixed keys of its path. */
  ghost predicate Filed(nodes: Nodes, id: Id)
    requires PrefixClosed(nodes) && id in nodes
  {
    if id == [] then nodes[id].totalSetKeys == 0
    else
      && nodes[id].elem.name != WILDCARD
      && ElemKey(nodes[id].elem) == Some(id[|id| - 1])
      && nodes[id].totalSetKeys == nodes[id[..|id| - 1]].totalSetKeys + |SetKeys(nodes[id].elem.keys)|
  }

  ghost predicate WellFiled(nodes: Nodes) {
    PrefixClosed(nodes) && forall id :: id in nodes ==> Filed(nodes, id)
  }

  /** The node holds an action for a principal exactly when one of the rules put it there. */
  ghost predicate HoldsExactly(n: Node, id: Id, rules: seq<Rule>) {
    && (forall principal, mode, action :: Held(n, principal, mode) == Some(action) <==>
          exists r :: r in rules && Fills(r, id, principal, mode) && r.action == action)
    && (n.hasPolicy <==> exists r :: r in rules && KeyPath(r.path) == Some(id))
  }

  ghost predicate Represents(nodes: Nodes, rules: seq<Rule>) {
    && Consistent(rules)
    && WellFiled(Rooted(nodes))
    && (forall id :: id in Rooted(nodes) ==> HoldsExactly(Rooted(nodes)[id], id, rules))
    && (forall r :: r in rules ==> KeyPath(r.path).value in Rooted(nodes))
  }

  // ---------------------------------------------------------------------
  // Descending
  // ---------------------------------------------------------------------

  /** Only empty nodes are added. */
  ghost predicate Grows(nodes: Nodes, grown: Nodes) {
    && (forall id :: id in nodes ==> id in grown && grown[id] == nodes[id])
    && (forall id :: id in grown && id !in nodes ==>
          !grown[id].hasPolicy && grown[id].users == map[] && grown[id].groups == map[])
  }

  lemma GrowsTransitive(a: Nodes, b: Nodes, c: Nodes)
    requires Grows(a, b) && Grows(b, c)
    ensures Grows(a, c)
  {
    forall id | id in c && id !in a
      ensures !c[id].hasPolicy && c[id].users == map[] && c[id].groups == map[]
    {
      if id in b {
        assert c[id] == b[id];
      }
    }
  }

  lemma ParentOfChild(at: Id, key: string)
    ensures (at + [key])[..|at + [key]| - 1] == at && (at + [key])[|at + [key]| - 1] == key
  {
  }

  lemma ChildKeepsClosed(nodes: Nodes, at: Id, key: string, n: Node)
    requires PrefixClosed(nodes) && at in nodes
    ensures PrefixClosed(nodes[at + [key] := n])
  {
    ParentOfChild(at, key);
  }

  lemma OthersStayFiled(nodes: Nodes, next: Id, n: Node, id: Id)
    requires PrefixClosed(nodes) && next !in nodes && PrefixClosed(nodes[next := n])
    requires id in nodes && Filed(nodes, id)
    ensures Filed(nodes[next := n], id)
  {
  }

  lemma ChildFiled(nodes: Nodes, at: Id, e: Elem, key: string)
    requires WellFiled(nodes) && at in nodes && at + [key] !in nodes
    requires e.name != WILDCARD && ElemKey(e) == Some(key)
    ensures WellFiled(nodes[at + [key] := Child(nodes[at], e)])
  {
    var next, n := at + [key], Child(nodes[at], e);
    ParentOfChild(at, key);
    ChildKeepsClosed(nodes, at, key, n);
    forall id | id in nodes ensures Filed(nodes[next := n], id) {
      OthersStayFiled(nodes, next, n, id);
    }
  }

  lemma StepGrows(nodes: Nodes, at: Id, e: Elem)
    requires WellFiled(nodes) && at in nodes && ElemKey(e).Some? && e.name != WILDCARD
    ensures WellFiled(Step(nodes, at, e)) && Grows(nodes, Step(nodes, at, e))
  {
    var key := ElemKey(e).value;
    if at + [key] !in nodes {
      ChildFiled(nodes, at, e, key);
    }
  }

  ghost predicate Ends(at: Id, path: seq<Elem>, end: Option<Id>) {
    && (end.Some? <==> KeyPath(path).Some?)
    && (end.Some? ==> end.value == at + KeyPath(path).value)
  }

  lemma EndsOneMore(at: Id, path: seq<Elem>, end: Option<Id>)
    requires path != [] && path[0].name != WILDCARD && ElemKey(path[0]).Some?
    requires Ends(at + [ElemKey(path[0]).value], path[1..], end)
    ensures Ends(at, path, end)
  {
    var key := ElemKey(path[0]).value;
    if end.Some? {
      var rest := KeyPath(path[1..]).value;
      assert (at + [key]) + rest == at + ([key] + rest);
      assert KeyPath(path) == Some([key] + rest);
    }
  }

  /** Descending adds empty nodes only, and ends at the normalised path. */
  lemma {:induction false} DescendMeaning(nodes: Nodes, at: Id, path: seq<Elem>)
    requires WellFiled(nodes) && at in nodes
    ensures WellFiled(Descend(nodes, at, path).0) && Grows(nodes, Descend(nodes, at, path).0)
    ensures Ends(at, path, Descend(nodes, at, path).1)
    decreases |path|
  {
    if path == [] {
      assert at + [] == at;
    } else if path[0].name != WILDCARD && ElemKey(path[0]).Some? {
      StepGrows(nodes, at, path[0]);
      var next := at + [ElemKey(path[0]).value];
      var grown := Step(nodes, at, path[0]);
      DescendMeaning(grown, next, path[1..]);
      GrowsTransitive(nodes, grown, Descend(grown, next, path[1..]).0);
      EndsOneMore(at, path, Descend(grown, next, path[1..]).1);
    }
  }

  // ---------------------------------------------------------------------
  // Inserting keeps the meaning
  // ---------------------------------------------------------------------

  lemma EmptyHoldsNothing(n: Node, principal: Principal, mode: Mode)
    requires n.users == map[] && n.groups == map[]
    ensures Held(n, principal, mode) == None
  {
  }

  lemma HoldMeaning(n: Node, p: Principal, m: Mode, a: Action, q: Principal, k: Mode)
    requires p != NoPrincipal
    ensures Held(Hold(n, p, m, a), q, k) == if q == p && k == m then Some(a) else Held(n, q, k)
  {
  }

  /** Growing the trie changes nothing it stands for. */
  lemma GrowthRepresents(nodes: Nodes, grown: Nodes, rules: seq<Rule>)
    requires Represents(nodes, rules) && WellFiled(grown) && Grows(Rooted(nodes), grown)
    ensures Represents(grown, rules)
  {
    assert Rooted(grown) == grown;
    forall id | id in grown ensures HoldsExactly(grown[id], id, rules) {
      if id in Rooted(nodes) {
        assert HoldsExactly(Rooted(nodes)[id], id, rules);
      } else {
        forall r | r in rules ensures KeyPath(r.path) != Some(id) {
          assert KeyPath(r.path).value in Rooted(nodes);
        }
        forall principal, mode ensures Held(grown[id], principal, mode) == None {
          EmptyHoldsNothing(grown[id], principal, mode);
        }
      }
    }
  }

  lemma HoldWellFiled(nodes: Nodes, at: Id, p: Principal, m: Mode, a: Action)
    requires WellFiled(nodes) && at in nodes
    ensures WellFiled(nodes[at := Hold(nodes[at], p, m, a)])
  {
    var grown := nodes[at := Hold(nodes[at], p, m, a)];
    forall id | id in grown ensures Filed(grown, id) {
      assert Filed(nodes, id);
    }
  }

  lemma HoldAt(nodes: Nodes, rules: seq<Rule>, r: Rule, at: Id, id: Id)
    requires id in nodes && at in nodes && HoldsExactly(nodes[id], id, rules)
    requires Sound(r) && KeyPath(r.path) == Some(at)
    requires Held(nodes[at], r.principal, r.mode).None?
    ensures HoldsExactly(nodes[at := Hold(nodes[at], r.principal, r.mode, r.action)][id], id, rules + [r])
  {
    if id == at {
      OneMoreRule(nodes[at], rules, r, at);
    } else {
      OtherNode(nodes[id], rules, r, id);
    }
  }

  /** Filing a rule in a free slot of its node. */
  lemma HoldRepresents(nodes: Nodes, rules: seq<Rule>, r: Rule, at: Id)
    requires Represents(nodes, rules) && [] in nodes && at in nodes
    requires Sound(r) && KeyPath(r.path) == Some(at)
    requires Held(nodes[at], r.principal, r.mode).None?
    ensures Represents(nodes[at := Hold(nodes[at], r.principal, r.mode, r.action)], rules + [r])
  {
    var grown := nodes[at := Hold(nodes[at], r.principal, r.mode, r.action)];
    FreeSlot(nodes[at], rules, r, at);
    HoldWellFiled(nodes, at, r.principal, r.mode, r.action);
    assert Rooted(grown) == grown && Rooted(nodes) == nodes;
    HoldsEverywhere(nodes, rules, r, at);
  }

  lemma HoldsEverywhere(nodes: Nodes, rules: seq<Rule>, r: Rule, at: Id)
    requires Represents(nodes, rules) && [] in nodes && at in nodes
    requires Sound(r) && KeyPath(r.path) == Some(at) && Held(nodes[at], r.principal, r.mode).None?
    ensures var grown := nodes[at := Hold(nodes[at], r.principal, r.mode, r.action)];
            forall id :: id in grown ==> HoldsExactly(grown[id], id, rules + [r])
  {
    var grown := nodes[at := Hold(nodes[at], r.principal, r.mode, r.action)];
    assert Rooted(nodes) == nodes;
    forall id | id in grown ensures HoldsExactly(grown[id], id, rules + [r]) {
      HoldAt(nodes, rules, r, at, id);
    }
  }

  lemma FreeSlot(n: Node, rules: seq<Rule>, r: Rule, at: Id)
    requires Consistent(rules) && Sound(r) && KeyPath(r.path) == Some(at)
    requires HoldsExactly(n, at, rules) && Held(n, r.principal, r.mode).None?
    ensures Consistent(rules + [r])
  {
    forall i | 0 <= i < |rules| ensures !SameSlot(rules[i], r) {
      assert rules[i] in rules;
      assert SameSlot(rules[i], r) ==> Held(n, r.principal, r.mode) == Some(rules[i].action);
    }
  }

  lemma OneMoreRule(n: Node, rules: seq<Rule>, r: Rule, at: Id)
    requires Sound(r) && KeyPath(r.path) == Some(at)
    requires HoldsExactly(n, at, rules) && Held(n, r.principal, r.mode).None?
    ensures HoldsExactly(Hold(n, r.principal, r.mode, r.action), at, rules + [r])
  {
    var node := Hold(n, r.principal, r.mode, r.action);
    assert r in rules + [r];
    forall principal, mode, action
      ensures Held(node, principal, mode) == Some(action) <==>
              exists s :: s in rules + [r] && Fills(s, at, principal, mode) && s.action == action
    {
      HoldMeaning(n, r.principal, r.mode, r.action, principal, mode);
      assert Held(n, principal, mode) == Some(action) <==>
             exists s :: s in rules && Fills(s, at, principal, mode) && s.action == action;
    }
  }

  lemma OtherNode(n: Node, rules: seq<Rule>, r: Rule, id: Id)
    requires HoldsExactly(n, id, rules) && KeyPath(r.path) != Some(id)
    ensures HoldsExactly(n, id, rules + [r])
  {
    forall principal, mode, action
      ensures Held(n, principal, mode) == Some(action) <==>
              exists s :: s in rules + [r] && Fills(s, id, principal, mode) && s.action == action
    {
      assert Held(n, principal, mode) == Some(action) <==>
             exists s :: s in rules && Fills(s, id, principal, mode) && s.action == action;
    }
  }

  /** A rule is taken exactly when it is sound and its slot is free, and then the trie stands for one rule more; a refused rule changes nothing the trie stands for. */
  lemma InsertMeaning(nodes: Nodes, rules: seq<Rule>, r: Rule)
    requires Represents(nodes, rules)
    ensures Inserted(nodes, r).1 <==> Consistent(rules + [r])
    ensures Represents(Inserted(nodes, r).0, if Inserted(nodes, r).1 then rules + [r] else rules)
  {
    var rooted := Rooted(nodes);
    assert (rules + [r])[|rules|] == r;
    if Checked(r) {
      DescendArrives(rooted, [], r.path);
      DescendMeaning(rooted, [], r.path);
      var (grown, at) := Descend(rooted, [], r.path);
      GrowthRepresents(nodes, grown, rules);
      if at.Some? {
        assert at.value == KeyPath(r.path).value;
        if Held(grown[at.value], r.principal, r.mode).Some? {
          SlotTaken(grown[at.value], rules, r, at.value);
        } else {
          HoldRepresents(grown, rules, r, at.value);
        }
      }
    } else {
      assert !Sound((rules + [r])[|rules|]);
    }
  }

  lemma SlotTaken(n: Node, rules: seq<Rule>, r: Rule, at: Id)
    requires HoldsExactly(n, at, rules) && KeyPath(r.path) == Some(at)
    requires Held(n, r.principal, r.mode).Some?
    ensures !Consistent(rules + [r])
  {
    var action := Held(n, r.principal, r.mode).value;
    var s :| s in rules && Fills(s, at, r.principal, r.mode) && s.action == action;
    var i :| 0 <= i < |rules| && rules[i] == s;
    assert SameSlot((rules + [r])[i], (rules + [r])[|rules|]);
  }

  lemma NoRules()
    ensures Represents(map[], [])
  {
    var rooted := Rooted(map[]);
    forall principal, mode ensures Held(rooted[[]], principal, mode) == None {
      EmptyHoldsNothing(rooted[[]], principal, mode);
    }
  }

  /** What contradicts itself still does when more is added. */
  lemma Inconsistent(rules: seq<Rule>, more: seq<Rule>)
    requires !Consistent(rules)
    ensures !Consistent(rules + more)
  {
    if Consistent(rules + more) {
      forall i | 0 <= i < |rules| ensures Sound(rules[i]) {
        assert (rules + more)[i] == rules[i];
      }
      forall i, j | 0 <= i < j < |rules| ensures !SameSlot(rules[i], rules[j]) {
        assert (rules + more)[i] == rules[i] && (rules + more)[j] == rules[j];
      }
    }
  }

  lemma RegroupRules(before: seq<Rule>, rules: seq<Rule>)
    requires rules != []
    ensures before + rules == (before + [rules[0]]) + rules[1..]
  {
  }

  lemma {:induction false} InsertAllMeaning(nodes: Nodes, before: seq<Rule>, rules: seq<Rule>)
    requires Represents(nodes, before)
    ensures InsertedAll(nodes, rules).1 <==> Consistent(before + rules)
    ensures InsertedAll(nodes, rules).1 ==> Represents(InsertedAll(nodes, rules).0, before + rules)
    decreases |rules|
  {
    if rules == [] {
      assert before + rules == before;
    } else {
      var grown := Inserted(nodes, rules[0]).0;
      InsertMeaning(nodes, before, rules[0]);
      RegroupRules(before, rules);
      if Inserted(nodes, rules[0]).1 {
        InsertAllMeaning(grown, before + [rules[0]], rules[1..]);
        assert InsertedAll(nodes, rules) == InsertedAll(grown, rules[1..]);
      } else {
        Inconsistent(before + [rules[0]], rules[1..]);
      }
    }
  }

  /** A policy is accepted exactly when it is consistent, in whatever order its rules come, and the trie then stands for it. */
  lemma FromPolicyExactlyWhen(rules: seq<Rule>)
    ensures InsertedAll(map[], rules).1 <==> Consistent(rules)
    ensures InsertedAll(map[], rules).1 ==> Represents(InsertedAll(map[], rules).0, rules)
  {
    NoRules();
    InsertAllMeaning(map[], [], rules);
    assert [] + rules == rules;
  }

  /** What Insert asks of a rule: a decision, a mode, a named principal, and elements with a name, not the wildcard, and named keys. */
  ghost predicate Proper(r: Rule) {
    && (r.action == ActionDeny || r.action == ActionPermit) && r.mode != ModeUnspecified
    && ((r.principal.User? && r.principal.user != "") || (r.principal.Group? && r.principal.group != ""))
    && forall i :: 0 <= i < |r.path| ==> r.path[i].name != "" && r.path[i].name != "*" && "" !in r.path[i].keys
  }

  lemma {:induction false} KeyPathExactlyWhen(path: seq<Elem>)
    ensures KeyPath(path).Some? <==> forall i :: 0 <= i < |path| ==> path[i].name != "" && path[i].name != "*" && "" !in path[i].keys
    decreases |path|
  {
    if path != [] {
      KeyPathExactlyWhen(path[1..]);
      assert forall i :: 0 < i < |path| ==> path[i] == path[1..][i - 1];
    }
  }

  /** A policy is accepted exactly when every rule is proper and no two rules with one principal and mode have the same normalised path. */
  lemma AcceptedExactlyWhen(rules: seq<Rule>)
    ensures InsertedAll(map[], rules).1 <==>
            && (forall i :: 0 <= i < |rules| ==> Proper(rules[i]))
            && forall i, j :: 0 <= i < j < |rules| && rules[i].principal == rules[j].principal && rules[i].mode == rules[j].mode ==>
                 KeyPath(rules[i].path) != KeyPath(rules[j].path)
  {
    FromPolicyExactlyWhen(rules);
    forall i | 0 <= i < |rules| ensures Sound(rules[i]) <==> Proper(rules[i]) {
      KeyPathExactlyWhen(rules[i].path);
    }
    if forall i, j :: 0 <= i < j < |rules| && rules[i].principal == rules[j].principal && rules[i].mode == rules[j].mode ==>
         KeyPath(rules[i].path) != KeyPath(rules[j].path) {
      assert forall i, j :: 0 <= i < j < |rules| ==> !SameSlot(rules[i], rules[j]);
    }
    if Consistent(rules) {
      forall i, j | 0 <= i < j < |rules| && rules[i].principal == rules[j].principal && rules[i].mode == rules[j].mode
        ensures KeyPath(rules[i].path) != KeyPath(rules[j].path)
      {
        assert !SameSlot(rules[i], rules[j]);
      }
    }
  }

  /** Once a rule has been offered there is a root. */
  lemma InsertedHasRoot(nodes: Nodes, before: seq<Rule>, r: Rule)
    requires Represents(nodes, before)
    ensures [] in Inserted(nodes, r).0
  {
    DescendMeaning(Rooted(nodes), [], r.path);
  }

  lemma {:induction false} InsertedAllHasRoot(nodes: Nodes, before: seq<Rule>, rules: seq<Rule>)
    requires Represents(nodes, before) && ([] in nodes || rules != [])
    ensures [] in InsertedAll(nodes, rules).0
    decreases |rules|
  {
    if rules != [] {
      InsertedHasRoot(nodes, before, rules[0]);
      InsertMeaning(nodes, before, rules[0]);
      if Inserted(nodes, rules[0]).1 {
        InsertedAllHasRoot(Inserted(nodes, rules[0]).0, before + [rules[0]], rules[1..]);
      }
    }
  }

  // ---------------------------------------------------------------------
  // The trie object
  // ---------------------------------------------------------------------

  /** Some entry of the policy's groups lists the user under the group. */
  ghost predicate Belongs(groups: seq<(string, seq<string>)>, g: string, u: string) {
    exists i :: 0 <= i < |groups| && groups[i].0 == g && u in groups[i].1
  }

  function Members(memberships: map<string, set<string>>, g: string): set<string> {
    if g in memberships then memberships[g] else {}
  }

  /** The memberships are those the policy lists. */
  ghost predicate Lists(groups: seq<(string, seq<string>)>, memberships: map<string, set<string>>) {
    forall g, u :: u in Members(memberships, g) <==> Belongs(groups, g, u)
  }

  /** The users have been added to one group and to no other. */
  ghost predicate Joins(before: map<string, set<string>>, after: map<string, set<string>>, name: string, users: seq<string>) {
    forall g :: Members(after, g) == Members(before, g) + (if g == name then set u | u in users else {})
  }

  class Trie {
    var nodes: Nodes
    var memberships: map<string, set<string>>

    constructor ()
      ensures nodes == map[] && memberships == map[]
    {
      nodes, memberships := map[], map[];
    }

    method AddGroup(name: string, users: seq<string>)
      modifies this`memberships
      ensures Joins(old(memberships), memberships, name, users)
    {
      if name !in memberships {
        memberships := memberships[name := {}];
      }
      var i := 0;
      while i < |users|
        invariant 0 <= i <= |users| && name in memberships
        invariant Joins(old(memberships), memberships, name, users[..i])
      {
        assert users[..i + 1] == users[..i] + [users[i]];
        memberships := memberships[name := memberships[name] + {users[i]}];
        i := i + 1;
      }
      assert users[..|users|] == users;
    }

    method Insert(r: Rule) returns (ok: bool)
      modifies this`nodes
      ensures (nodes, ok) == Inserted(old(nodes), r)
    {
      if [] !in nodes {
        nodes := nodes[[] := ROOT];
      }
      if r.action != ActionDeny && r.action != ActionPermit {
        return false;
      }
      if r.mode == ModeUnspecified {
        return false;
      }
      if r.principal == NoPrincipal || r.principal == User("") || r.principal == Group("") {
        return false;
      }
      ghost var rooted := nodes;
      var at: Id := [];
      var i := 0;
      while i < |r.path|
        invariant 0 <= i <= |r.path| && at in nodes && [] in nodes
        invariant Descend(rooted, [], r.path) == Descend(nodes, at, r.path[i..])
      {
        var e := r.path[i];
        assert r.path[i..][0] == e && r.path[i..][1..] == r.path[i + 1..];
        if e.name == WILDCARD {
          return false;
        }
        var text, count := ElemToString(e);
        if text == None {
          return false;
        }
        var next := at + [text.value];
        ghost var grown := Step(nodes, at, e);
        if next !in nodes {
          nodes := nodes[next := Node(e, false, map[], map[], nodes[at].totalSetKeys + count)];
        }
        assert nodes == grown;
        at := next;
        i := i + 1;
      }
      if Held(nodes[at], r.principal, r.mode).Some? {
        return false;
      }
      nodes := nodes[at := Hold(nodes[at], r.principal, r.mode, r.action)];
      return true;
    }

    /** FromPolicy, on a trie just made. */
    method Load(groups: seq<(string, seq<string>)>, rules: seq<Rule>) returns (ok: bool)
      requires nodes == map[] && memberships == map[]
      modifies this
      ensures ok <==> Consistent(rules)
      ensures ok ==> Represents(nodes, rules)
      ensures Lists(groups, memberships)
    {
      var i := 0;
      while i < |groups|
        invariant 0 <= i <= |groups| && nodes == map[]
        invariant Lists(groups[..i], memberships)
      {
        ghost var before := memberships;
        AddGroup(groups[i].0, groups[i].1);
        OneMoreGroup(groups, i, before, memberships);
        i := i + 1;
      }
      assert groups[..|groups|] == groups;
      i := 0;
      while i < |rules|
        invariant 0 <= i <= |rules|
        invariant InsertedAll(map[], rules) == InsertedAll(nodes, rules[i..])
        invariant Lists(groups, memberships)
      {
        assert rules[i..][0] == rules[i] && rules[i..][1..] == rules[i + 1..];
        ok := Insert(rules[i]);
        if !ok {
          FromPolicyExactlyWhen(rules);
          return false;
        }
        i := i + 1;
      }
      FromPolicyExactlyWhen(rules);
      return true;
    }
  }

  lemma OneMoreGroup(groups: seq<(string, seq<string>)>, i: nat, before: map<string, set<string>>, after: map<string, set<string>>)
    requires i < |groups|
    requires Lists(groups[..i], before) && Joins(before, after, groups[i].0, groups[i].1)
    ensures Lists(groups[..i + 1], after)
  {
    var more := groups[..i + 1];
    assert more == groups[..i] + [groups[i]];
    forall g, u ensures u in Members(after, g) <==> Belongs(more, g, u) {
      assert Belongs(groups[..i], g, u) <==> u in Members(before, g);
      BelongsOneMore(groups[..i], groups[i], g, u);
    }
  }

  lemma BelongsOneMore(groups: seq<(string, seq<string>)>, group: (string, seq<string>), g: string, u: string)
    ensures Belongs(groups + [group], g, u) <==> Belongs(groups, g, u) || (g == group.0 && u in group.1)
  {
    var more := groups + [group];
    if Belongs(groups, g, u) {
      var j :| 0 <= j < |groups| && groups[j].0 == g && u in groups[j].1;
      assert more[j] == groups[j];
    }
    if g == group.0 && u in group.1 {
      assert more[|groups|] == group;
    }
  }
}
