/**
 * Probe (gnsi/acltrie/trie.go): among the nodes that cover a path, the rules
 * that decide what a user may do there. Everything is stated for an arbitrary
 * walk, that is, for every order maps may be read in.
 */
module AclProbe {
  import opened Wrappers
  import opened PathElem
  import opened AclTrie
  import opened AclWalk
  import opened AclNodes

  datatype Query = Query(path: seq<Elem>, user: string, mode: Mode, memberships: map<string, set<string>>)

  predicate Decisive(a: Action) {
    a == ActionDeny || a == ActionPermit
  }

  /** Only decisions are stored: what Insert checks. */
  ghost predicate Decided(n: Node) {
    forall principal, mode, action :: Held(n, principal, mode) == Some(action) ==> Decisive(action)
  }

  // ---------------------------------------------------------------------
  // One node
  // ---------------------------------------------------------------------

  predicate ViaGroup(n: Node, q: Query, g: string, a: Action) {
    q.user in Members(q.memberships, g) && Held(n, Group(g), q.mode) == Some(a)
  }

  /** What a node says about a user, and whether it says so by name. */
  ghost function GetAction(n: Node, q: Query): (Action, bool) {
    var own := Held(n, User(q.user), q.mode);
    if own.Some? then (own.value, true)
    else if exists g :: ViaGroup(n, q, g, ActionDeny) then (ActionDeny, false)
    else if exists g :: ViaGroup(n, q, g, ActionPermit) then (ActionPermit, false)
    else (ActionUnspecified, false)
  }

  /** getAction: the groups are read in an arbitrary order. */
  method ActionOf(n: Node, q: Query) returns (action: Action, isUser: bool)
    requires Decided(n)
    ensures (action, isUser) == GetAction(n, q)
  {
    var own := Held(n, User(q.user), q.mode);
    if own.Some? {
      return own.value, true;
    }
    action, isUser := ActionUnspecified, false;
    var rest := if q.mode in n.groups then n.groups[q.mode].Keys else {};
    ghost var seen: set<string> := {};
    while rest != {}
      invariant forall g :: g in rest ==> Held(n, Group(g), q.mode).Some?
      invariant forall g, a :: ViaGroup(n, q, g, a) && g !in rest ==> g in seen
      invariant forall g :: g in seen ==> !ViaGroup(n, q, g, ActionDeny)
      invariant action == ActionUnspecified ==> forall g :: g in seen ==> !ViaGroup(n, q, g, ActionPermit)
      invariant action != ActionUnspecified ==> action == ActionPermit && exists g :: ViaGroup(n, q, g, ActionPermit)
      decreases rest
    {
      var g :| g in rest;
      var held := Held(n, Group(g), q.mode).value;
      if q.user in Members(q.memberships, g) {
        assert ViaGroup(n, q, g, held);
        if held == ActionDeny {
          return held, false;
        }
        action := held;
      }
      seen := seen + {g};
      rest := rest - {g};
    }
  }

  // ---------------------------------------------------------------------
  // All nodes
  // ---------------------------------------------------------------------

  /** The node covers the queried path and has a policy for the user. */
  ghost predicate Candidate(nodes: Nodes, q: Query, id: Id)
    requires PrefixClosed(nodes)
  {
    id in nodes && Open(nodes, q.path, id) && nodes[id].hasPolicy && GetAction(nodes[id], q).0 != ActionUnspecified
  }

  /** The callback's matchingPolicies and longestPolicyLen after some visits. */
  ghost function Matching(nodes: Nodes, q: Query, visits: seq<Id>): (seq<Id>, nat)
    requires PrefixClosed(nodes)
  {
    if visits == [] then ([], 0)
    else
      var (kept, longest) := Matching(nodes, q, visits[..|visits| - 1]);
      var id := visits[|visits| - 1];
      if !Candidate(nodes, q, id) then (kept, longest)
      else if |id| > longest then ([id], |id|)
      else (kept + [id], longest)
  }

  function Total(nodes: Nodes, id: Id): nat {
    if id in nodes then nodes[id].totalSetKeys else 0
  }

  /** mostSpecificPolicies and maxSetKeys after some of the matching nodes. */
  function Specific(nodes: Nodes, ids: seq<Id>): (seq<Id>, int) {
    if ids == [] then ([], -1)
    else
      var (kept, most) := Specific(nodes, ids[..|ids| - 1]);
      var id := ids[|ids| - 1];
      if Total(nodes, id) >= most then (kept + [id], Total(nodes, id)) else (kept, most)
  }

  ghost function Says(nodes: Nodes, q: Query, id: Id): (Action, bool) {
    if id in nodes then GetAction(nodes[id], q) else (ActionUnspecified, false)
  }

  /** The last loop: a denial by name ends it, a name beats groups seen before, a denial is kept against groups. */
  ghost function Combined(nodes: Nodes, q: Query, ids: seq<Id>): (Action, bool) {
    if ids == [] then (ActionUnspecified, false)
    else
      var (final, stopped) := Combined(nodes, q, ids[..|ids| - 1]);
      var (action, isUser) := Says(nodes, q, ids[|ids| - 1]);
      if stopped then (final, true)
      else if isUser && action == ActionDeny then (ActionDeny, true)
      else if isUser || final != ActionDeny then (action, false)
      else (final, false)
  }

  ghost function Consulted(nodes: Nodes, q: Query, visits: seq<Id>): seq<Id>
    requires PrefixClosed(nodes)
  {
    Specific(nodes, Matching(nodes, q, visits).0).0
  }

  ghost function Verdict(nodes: Nodes, q: Query, visits: seq<Id>): Action
    requires PrefixClosed(nodes)
  {
    if Matching(nodes, q, visits).0 == [] then ActionDeny else Combined(nodes, q, Consulted(nodes, q, visits)).0
  }

  // ---------------------------------------------------------------------
  // The method
  // ---------------------------------------------------------------------

  datatype TraversalNode = TraversalNode(node: Id, depth: nat)

  ghost function Ids(stack: seq<TraversalNode>): seq<Id> {
    seq(|stack|, i requires 0 <= i < |stack| => stack[i].node)
  }

  /** Cut to the node's depth, the shared path is that of the node's parent. */
  ghost predicate EntryReady(nodes: Nodes, e: TraversalNode, path: seq<Elem>)
    requires PrefixClosed(nodes)
  {
    && e.node in nodes && e.depth == |e.node|
    && (e.depth > 0 ==> e.depth - 1 <= |path| && path[..e.depth - 1] == PathTo(nodes, ParentOf(e.node)))
  }

  ghost predicate PathReady(nodes: Nodes, stack: seq<TraversalNode>, path: seq<Elem>)
    requires PrefixClosed(nodes)
  {
    && (forall i :: 0 <= i < |stack| ==> EntryReady(nodes, stack[i], path))
    && (forall i, j :: 0 <= i < j < |stack| ==> stack[i].depth <= stack[j].depth)
  }

  function Cut(nodes: Nodes, e: TraversalNode, path: seq<Elem>): seq<Elem>
    requires e.node in nodes && e.depth <= |path| + 1
  {
    if e.depth == 0 then [] else path[..e.depth - 1] + [nodes[e.node].elem]
  }

  lemma EntryReadyAfterCut(nodes: Nodes, e: TraversalNode, top: TraversalNode, path: seq<Elem>)
    requires PrefixClosed(nodes) && EntryReady(nodes, e, path) && EntryReady(nodes, top, path) && e.depth <= top.depth
    ensures EntryReady(nodes, e, Cut(nodes, top, path))
  {
    if e.depth > 0 {
      assert Cut(nodes, top, path)[..e.depth - 1] == path[..e.depth - 1];
    }
  }

  /** Whenever the walk calls back, the path is the one from the root, and it still serves everything below on the stack. */
  lemma PathAtTop(nodes: Nodes, below: seq<TraversalNode>, top: TraversalNode, path: seq<Elem>)
    requires PrefixClosed(nodes) && PathReady(nodes, below + [top], path) && EntryReady(nodes, top, path)
    ensures Cut(nodes, top, path) == PathTo(nodes, top.node)
    ensures PathReady(nodes, below, Cut(nodes, top, path))
    ensures forall i :: 0 <= i < |below| ==> below[i].depth <= top.depth
  {
    var stack := below + [top];
    assert stack[|below|] == top;
    forall i | 0 <= i < |below| ensures EntryReady(nodes, below[i], Cut(nodes, top, path)) && below[i].depth <= top.depth {
      assert stack[i] == below[i];
      EntryReadyAfterCut(nodes, below[i], top, path);
    }
    forall i, j | 0 <= i < j < |below| ensures below[i].depth <= below[j].depth {
      assert stack[i] == below[i] && stack[j] == below[j];
    }
  }

  lemma ChildReady(nodes: Nodes, at: Id, c: Id)
    requires PrefixClosed(nodes) && at in nodes && IsChild(nodes, at, c)
    ensures EntryReady(nodes, TraversalNode(c, |at| + 1), PathTo(nodes, at))
  {
    assert PathTo(nodes, at)[..|at|] == PathTo(nodes, at);
  }

  lemma IdsAppend(stack: seq<TraversalNode>, e: TraversalNode, below: seq<Id>, order: seq<Id>)
    requires Ids(stack) == below + order
    ensures Ids(stack + [e]) == below + (order + [e.node])
  {
    assert Ids(stack + [e]) == Ids(stack) + [e.node];
  }

  /** The children pushed so far. */
  ghost predicate PushedSome(nodes: Nodes, at: Id, rest: set<Id>, order: seq<Id>) {
    && NoRepeats(order)
    && (forall id :: IsChild(nodes, at, id) <==> id in rest || id in order)
    && forall id :: id in rest ==> id !in order
  }

  lemma PushedMore(nodes: Nodes, at: Id, rest: set<Id>, order: seq<Id>, c: Id)
    requires PushedSome(nodes, at, rest, order) && c in rest
    ensures PushedSome(nodes, at, rest - {c}, order + [c])
  {
    forall id ensures id in rest - {c} || id in order + [c] <==> id in rest || id in order {
    }
  }

  lemma ReadyMore(nodes: Nodes, stack: seq<TraversalNode>, path: seq<Elem>, e: TraversalNode)
    requires PrefixClosed(nodes) && PathReady(nodes, stack, path) && EntryReady(nodes, e, path)
    requires forall i :: 0 <= i < |stack| ==> stack[i].depth <= e.depth
    ensures PathReady(nodes, stack + [e], path)
    ensures forall i :: 0 <= i < |stack + [e]| ==> (stack + [e])[i].depth <= e.depth
  {
  }

  /** Push the children in an arbitrary order. */
  method PushChildren(nodes: Nodes, at: Id, below: seq<TraversalNode>, ghost path: seq<Elem>)
    returns (stack: seq<TraversalNode>, ghost order: seq<Id>)
    requires PrefixClosed(nodes) && at in nodes && path == PathTo(nodes, at)
    requires PathReady(nodes, below, path) && forall i :: 0 <= i < |below| ==> below[i].depth <= |at|
    ensures PathReady(nodes, stack, path) && Ids(stack) == Ids(below) + order
    ensures NoRepeats(order) && forall id :: id in order <==> IsChild(nodes, at, id)
  {
    stack, order := below, [];
    var rest := set id | id in nodes && IsChild(nodes, at, id);
    while rest != {}
      invariant PushedSome(nodes, at, rest, order)
      invariant PathReady(nodes, stack, path) && forall i :: 0 <= i < |stack| ==> stack[i].depth <= |at| + 1
      invariant Ids(stack) == Ids(below) + order
      decreases rest
    {
      var c :| c in rest;
      ChildReady(nodes, at, c);
      PushedMore(nodes, at, rest, order, c);
      ReadyMore(nodes, stack, path, TraversalNode(c, |at| + 1));
      IdsAppend(stack, TraversalNode(c, |at| + 1), Ids(below), order);
      stack := stack + [TraversalNode(c, |at| + 1)];
      order := order + [c];
      rest := rest - {c};
    }
  }

  /** What the walk has done so far can be completed by whatever the stack leads to. */
  ghost predicate Continues(nodes: Nodes, asked: seq<Elem>, stack: seq<Id>, visits: seq<Id>)
    requires PrefixClosed(nodes)
  {
    forall rest :: Walks(nodes, asked, stack, rest) ==> Walks(nodes, asked, [[]], visits + rest)
  }

  lemma ContinuesStep(nodes: Nodes, asked: seq<Elem>, below: seq<Id>, at: Id, order: seq<Id>, visits: seq<Id>)
    requires PrefixClosed(nodes) && at in nodes && Pushed(nodes, asked, at, order)
    requires Continues(nodes, asked, below + [at], visits)
    ensures Continues(nodes, asked, below + order, visits + [at])
  {
    forall rest | Walks(nodes, asked, below + order, rest) ensures Walks(nodes, asked, [[]], (visits + [at]) + rest) {
      Prepend(nodes, asked, below, at, order, rest);
      Regroup(visits, [at], rest);
    }
  }

  ghost predicate AllDecided(nodes: Nodes) {
    forall id :: id in nodes ==> Decided(nodes[id])
  }

  /** One call of Probe's callback: whether to go on, and the nodes kept. */
  method Visit(nodes: Nodes, q: Query, id: Id, path: seq<Elem>, kept: seq<Id>, longest: nat, ghost visits: seq<Id>)
    returns (go: bool, kept': seq<Id>, longest': nat)
    requires PrefixClosed(nodes) && AllDecided(nodes) && id in nodes && path == PathTo(nodes, id)
    requires (kept, longest) == Matching(nodes, q, visits)
    ensures go == Open(nodes, q.path, id)
    ensures (kept', longest') == Matching(nodes, q, visits + [id])
  {
    assert (visits + [id])[..|visits|] == visits;
    kept', longest' := kept, longest;
    if !Covers(path, q.path) {
      return false, kept', longest';
    }
    if nodes[id].hasPolicy {
      var action, isUser := ActionOf(nodes[id], q);
      if action != ActionUnspecified {
        if |path| > longest {
          kept', longest' := [], |path|;
        }
        kept' := kept' + [id];
        assert [] + [id] == [id];
      }
    }
    return true, kept', longest';
  }

  lemma PopIds(stack: seq<TraversalNode>)
    requires stack != []
    ensures stack == stack[..|stack| - 1] + [stack[|stack| - 1]]
    ensures Ids(stack) == Ids(stack[..|stack| - 1]) + [stack[|stack| - 1].node]
  {
  }

  /** One turn of the loop: cut the path, call back, push. */
  method WalkStep(nodes: Nodes, q: Query, below: seq<TraversalNode>, last: TraversalNode, path: seq<Elem>, kept: seq<Id>, longest: nat, ghost visits: seq<Id>)
    returns (stack: seq<TraversalNode>, path': seq<Elem>, kept': seq<Id>, longest': nat, ghost order: seq<Id>)
    requires PrefixClosed(nodes) && AllDecided(nodes)
    requires PathReady(nodes, below + [last], path) && EntryReady(nodes, last, path)
    requires (kept, longest) == Matching(nodes, q, visits)
    ensures PathReady(nodes, stack, path')
    ensures (kept', longest') == Matching(nodes, q, visits + [last.node])
    ensures Pushed(nodes, q.path, last.node, order) && Ids(stack) == Ids(below) + order
  {
    PathAtTop(nodes, below, last, path);
    path' := if last.depth == 0 then [] else path[..last.depth - 1] + [nodes[last.node].elem];
    stack, order := below, [];
    var go;
    go, kept', longest' := Visit(nodes, q, last.node, path', kept, longest, visits);
    if go {
      stack, order := PushChildren(nodes, last.node, below, path');
    }
  }

  /** walk with Probe's callback. */
  method WalkMatching(nodes: Nodes, q: Query) returns (kept: seq<Id>, ghost visits: seq<Id>)
    requires PrefixClosed(nodes) && AllDecided(nodes)
    ensures Walks(nodes, q.path, [[]], visits)
    ensures kept == Matching(nodes, q, visits).0
  {
    var path: seq<Elem> := [];
    var stack := [TraversalNode([], 0)];
    var longest := 0;
    kept, visits := [], [];
    WalkBegins(nodes, q.path);
    while stack != []
      invariant PathReady(nodes, stack, path)
      invariant UnderWay(nodes, q.path, Ids(stack), visits)
      invariant (kept, longest) == Matching(nodes, q, visits)
      decreases Pending(nodes, visits)
    {
      var last, below := stack[|stack| - 1], stack[..|stack| - 1];
      PopIds(stack);
      ghost var order;
      stack, path, kept, longest, order := WalkStep(nodes, q, below, last, path, kept, longest, visits);
      Advance(nodes, q.path, Ids(below), last.node, order, visits);
      visits := visits + [last.node];
    }
    WalkOver(nodes, q.path, visits);
  }

  ghost predicate UnderWay(nodes: Nodes, asked: seq<Elem>, stack: seq<Id>, visits: seq<Id>)
    requires PrefixClosed(nodes)
  {
    WalkInv(nodes, asked, stack, visits) && Continues(nodes, asked, stack, visits)
  }

  lemma WalkBegins(nodes: Nodes, asked: seq<Elem>)
    requires PrefixClosed(nodes)
    ensures UnderWay(nodes, asked, Ids([TraversalNode([], 0)]), [])
  {
    StartInv(nodes, asked);
    assert Ids([TraversalNode([], 0)]) == [[]];
    assert forall rest: seq<Id> :: [] + rest == rest;
  }

  lemma WalkOver(nodes: Nodes, asked: seq<Elem>, visits: seq<Id>)
    requires PrefixClosed(nodes) && UnderWay(nodes, asked, Ids([]), visits)
    ensures Walks(nodes, asked, [[]], visits)
  {
    assert Walks(nodes, asked, Ids([]), []);
    assert visits + [] == visits;
  }

  lemma Advance(nodes: Nodes, asked: seq<Elem>, below: seq<Id>, at: Id, order: seq<Id>, visits: seq<Id>)
    requires PrefixClosed(nodes) && at in nodes && Pushed(nodes, asked, at, order)
    requires UnderWay(nodes, asked, below + [at], visits)
    ensures UnderWay(nodes, asked, below + order, visits + [at])
    ensures Pending(nodes, visits + [at]) < Pending(nodes, visits)
  {
    StepKeepsInv(nodes, asked, below, at, order, visits);
    ContinuesStep(nodes, asked, below, at, order, visits);
    assert at in below + [at];
    PendingShrinks(nodes, visits, at);
  }

  /** Probe. A trie without a root has never had a rule inserted. */
  method Probe(nodes: Nodes, q: Query) returns (action: Action)
    requires PrefixClosed(nodes) && AllDecided(nodes)
    ensures exists visits :: Walks(nodes, q.path, [[]], visits) && action == Verdict(nodes, q, visits)
  {
    var matching;
    ghost var visits;
    matching, visits := WalkMatching(nodes, q);
    if matching == [] {
      return ActionDeny;
    }
    MatchingMeaning(nodes, q, visits);
    var specific: seq<Id> := [];
    var most: int := -1;
    for i := 0 to |matching|
      invariant (specific, most) == Specific(nodes, matching[..i])
      invariant forall id :: id in specific ==> id in nodes
    {
      assert matching[..i + 1][..i] == matching[..i];
      assert matching[i] in matching;
      if nodes[matching[i]].totalSetKeys >= most {
        most := nodes[matching[i]].totalSetKeys;
        specific := specific + [matching[i]];
      }
    }
    assert matching[..|matching|] == matching;
    action := Combine(nodes, q, specific);
  }

  method Combine(nodes: Nodes, q: Query, specific: seq<Id>) returns (action: Action)
    requires AllDecided(nodes) && forall id :: id in specific ==> id in nodes
    ensures action == Combined(nodes, q, specific).0
  {
    action := ActionUnspecified;
    for i := 0 to |specific|
      invariant Combined(nodes, q, specific[..i]) == (action, false)
    {
      assert specific[..i + 1][..i] == specific[..i];
      var said, isUser := ActionOf(nodes[specific[i]], q);
      if isUser && said == ActionDeny {
        Stopped(nodes, q, specific, i + 1);
        return said;
      } else if isUser {
        action := said;
      } else if action != ActionDeny {
        action := said;
      }
    }
    assert specific[..|specific|] == specific;
  }

  lemma {:induction false} Stopped(nodes: Nodes, q: Query, ids: seq<Id>, n: nat)
    requires n <= |ids| && Combined(nodes, q, ids[..n]) == (ActionDeny, true)
    ensures Combined(nodes, q, ids) == (ActionDeny, true)
    decreases |ids|
  {
    if n < |ids| {
      assert ids[..|ids| - 1][..n] == ids[..n];
      Stopped(nodes, q, ids[..|ids| - 1], n);
    } else {
      assert ids[..n] == ids;
    }
  }

  /** Only candidates that were visited are kept, and one is kept if there was any. */
  lemma {:induction false} MatchingMeaning(nodes: Nodes, q: Query, visits: seq<Id>)
    requires PrefixClosed(nodes)
    ensures forall id :: id in Matching(nodes, q, visits).0 ==> id in visits && Candidate(nodes, q, id)
    ensures Matching(nodes, q, visits).0 == [] <==> forall id :: id in visits ==> !Candidate(nodes, q, id)
    decreases |visits|
  {
    if visits != [] {
      var n := |visits| - 1;
      MatchingMeaning(nodes, q, visits[..n]);
      assert visits == visits[..n] + [visits[n]];
    }
  }
}
