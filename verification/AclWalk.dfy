/**
 * The pruned depth-first walk over the ACL trie (walk and the pruning half of
 * Probe's callback in gnsi/acltrie/trie.go). The children of a node are
 * pushed in the order a map is read in, which may be any.
 */
module AclWalk {
  import opened Wrappers
  import opened PathElem
  import opened AclTrie

  // ---------------------------------------------------------------------
  // Covering
  // ---------------------------------------------------------------------

  /** The rule's element allows the queried one: a key left out or given as a wildcard allows any value. */
  predicate CoversElem(rule: Elem, asked: Elem) {
    rule.name == asked.name &&
    forall k :: k in rule.keys && rule.keys[k] != WILDCARD ==> k in asked.keys && asked.keys[k] == rule.keys[k]
  }

  /** The queried path is the rule's path or lies below it. */
  predicate Covers(rule: seq<Elem>, asked: seq<Elem>) {
    |rule| <= |asked| && forall i :: 0 <= i < |rule| ==> CoversElem(rule[i], asked[i])
  }

  /**
   * A path covers another one exactly when it is no longer, has the same names along it, and asks for no key and value
   * that the other does not have; the wildcard asks for nothing.
   */
  lemma CoversExactlyWhen(rule: seq<Elem>, asked: seq<Elem>)
    ensures Covers(rule, asked) <==>
            && |rule| <= |asked|
            && (forall i :: 0 <= i < |rule| ==> rule[i].name == asked[i].name)
            && forall i, k, v :: 0 <= i < |rule| && (k, v) in rule[i].keys.Items && v != "*" ==> (k, v) in asked[i].keys.Items
  {
    if |rule| <= |asked| {
      forall i | 0 <= i < |rule|
        ensures CoversElem(rule[i], asked[i]) <==>
                rule[i].name == asked[i].name && forall k, v :: (k, v) in rule[i].keys.Items && v != "*" ==> (k, v) in asked[i].keys.Items
      {
        ElemCoversExactlyWhen(rule[i], asked[i]);
      }
    }
  }

  lemma ElemCoversExactlyWhen(rule: Elem, asked: Elem)
    ensures CoversElem(rule, asked) <==>
            rule.name == asked.name && forall k, v :: (k, v) in rule.keys.Items && v != "*" ==> (k, v) in asked.keys.Items
  {
    if forall k, v :: (k, v) in rule.keys.Items && v != "*" ==> (k, v) in asked.keys.Items {
      forall k | k in rule.keys && rule.keys[k] != WILDCARD ensures k in asked.keys && asked.keys[k] == rule.keys[k] {
        assert (k, rule.keys[k]) in rule.keys.Items;
      }
    }
  }

  function ParentOf(id: Id): Id
    requires id != []
  {
    id[..|id| - 1]
  }

  /** The elements on the way from the root to a node. */
  function PathTo(nodes: Nodes, id: Id): (path: seq<Elem>)
    requires PrefixClosed(nodes) && id in nodes
    ensures |path| == |id|
    decreases |id|
  {
    if id == [] then [] else PathTo(nodes, ParentOf(id)) + [nodes[id].elem]
  }

  predicate Open(nodes: Nodes, asked: seq<Elem>, id: Id)
    requires PrefixClosed(nodes) && id in nodes
  {
    Covers(PathTo(nodes, id), asked)
  }

  lemma {:induction false} PrefixInNodes(nodes: Nodes, id: Id, n: nat)
    requires PrefixClosed(nodes) && id in nodes && n <= |id|
    ensures id[..n] in nodes
    decreases |id|
  {
    if n < |id| {
      PrefixInNodes(nodes, ParentOf(id), n);
      assert ParentOf(id)[..n] == id[..n];
    } else {
      assert id[..n] == id;
    }
  }

  lemma {:induction false} PathToPrefix(nodes: Nodes, id: Id, n: nat)
    requires PrefixClosed(nodes) && id in nodes && n <= |id|
    ensures id[..n] in nodes && PathTo(nodes, id[..n]) == PathTo(nodes, id)[..n]
    decreases |id|
  {
    PrefixInNodes(nodes, id, n);
    if n < |id| {
      PathToPrefix(nodes, ParentOf(id), n);
      assert ParentOf(id)[..n] == id[..n];
    } else {
      assert id[..n] == id;
    }
  }

  /** A node above a node that covers the query covers it too. */
  lemma OpenAbove(nodes: Nodes, asked: seq<Elem>, id: Id, n: nat)
    requires PrefixClosed(nodes) && id in nodes && n <= |id| && Open(nodes, asked, id)
    ensures id[..n] in nodes && Open(nodes, asked, id[..n])
  {
    PathToPrefix(nodes, id, n);
    assert forall i :: 0 <= i < n ==> PathTo(nodes, id)[..n][i] == PathTo(nodes, id)[i];
  }

  // ---------------------------------------------------------------------
  // The walk as a relation
  // ---------------------------------------------------------------------

  predicate IsChild(nodes: Nodes, at: Id, id: Id) {
    id in nodes && id != [] && ParentOf(id) == at
  }

  ghost predicate NoRepeats(ids: seq<Id>) {
    forall i, j :: 0 <= i < j < |ids| ==> ids[i] != ids[j]
  }

  /** What is pushed after the callback on a node: its children in some order, or nothing. */
  ghost predicate Pushed(nodes: Nodes, asked: seq<Elem>, at: Id, order: seq<Id>)
    requires PrefixClosed(nodes) && at in nodes
  {
    NoRepeats(order) && forall id :: id in order <==> IsChild(nodes, at, id) && Open(nodes, asked, at)
  }

  /** Started on a stack, the walk may call back on these nodes in this order. */
  ghost predicate Walks(nodes: Nodes, asked: seq<Elem>, stack: seq<Id>, visits: seq<Id>)
    requires PrefixClosed(nodes)
    decreases |visits|
  {
    if stack == [] then visits == []
    else
      && visits != [] && visits[0] == stack[|stack| - 1] && visits[0] in nodes
      && exists order :: Pushed(nodes, asked, visits[0], order) &&
           Walks(nodes, asked, stack[..|stack| - 1] + order, visits[1..])
  }

  // ---------------------------------------------------------------------
  // Every covering node once, ancestors first
  // ---------------------------------------------------------------------

  /** The node is the root or the child of a node that covers the query. */
  predicate Reached(nodes: Nodes, asked: seq<Elem>, id: Id)
    requires PrefixClosed(nodes)
  {
    id in nodes && (id == [] || Open(nodes, asked, ParentOf(id)))
  }

  ghost predicate Accounted(nodes: Nodes, asked: seq<Elem>, stack: seq<Id>, done: seq<Id>)
    requires PrefixClosed(nodes)
  {
    && ([] in done || [] in stack)
    && (forall id :: id in stack || id in done ==> Reached(nodes, asked, id) && (id != [] ==> ParentOf(id) in done))
    && (forall id, c :: id in done && Open(nodes, asked, id) && IsChild(nodes, id, c) ==> c in done || c in stack)
  }

  ghost predicate Fresh(stack: seq<Id>, done: seq<Id>) {
    NoRepeats(stack) && NoRepeats(done) && forall id :: id in stack ==> id !in done
  }

  ghost predicate ParentsFirst(done: seq<Id>) {
    forall i :: 0 <= i < |done| && done[i] != [] ==> ParentOf(done[i]) in done[..i]
  }

  ghost predicate WalkInv(nodes: Nodes, asked: seq<Elem>, stack: seq<Id>, done: seq<Id>)
    requires PrefixClosed(nodes)
  {
    Accounted(nodes, asked, stack, done) && Fresh(stack, done) && ParentsFirst(done)
  }

  lemma StepAccounted(nodes: Nodes, asked: seq<Elem>, below: seq<Id>, at: Id, order: seq<Id>, done: seq<Id>)
    requires PrefixClosed(nodes) && Accounted(nodes, asked, below + [at], done)
    requires at in nodes && Pushed(nodes, asked, at, order)
    ensures Accounted(nodes, asked, below + order, done + [at])
  {
    forall id | id in below + order || id in done + [at]
      ensures Reached(nodes, asked, id) && (id != [] ==> ParentOf(id) in done + [at])
    {
      assert id in order || id in below + [at] || id in done;
    }
    forall id, c | id in done + [at] && Open(nodes, asked, id) && IsChild(nodes, id, c)
      ensures c in done + [at] || c in below + order
    {
      if id == at {
        assert c in order;
      } else {
        assert c in done || c in below + [at];
      }
    }
    assert [] in done || [] in below + [at];
  }

  lemma StepFresh(nodes: Nodes, asked: seq<Elem>, below: seq<Id>, at: Id, order: seq<Id>, done: seq<Id>)
    requires PrefixClosed(nodes) && Accounted(nodes, asked, below + [at], done) && Fresh(below + [at], done)
    requires at in nodes && Pushed(nodes, asked, at, order)
    ensures Fresh(below + order, done + [at])
  {
    assert (below + [at])[|below|] == at;
    assert at in below + [at];
    forall i | 0 <= i < |below| ensures below[i] != at && below[i] !in done {
      assert (below + [at])[i] == below[i] && below[i] in below + [at];
    }
    forall id | id in order ensures id != at && id !in below && id !in done {
      assert ParentOf(id) == at && at !in done;
      assert |at| < |id|;
      assert id in below ==> id in below + [at];
    }
    var stack := below + order;
    forall i, j | 0 <= i < j < |stack| ensures stack[i] != stack[j] {
      if j < |below| {
        assert (below + [at])[i] == below[i] && (below + [at])[j] == below[j];
      } else if i < |below| {
        assert stack[j] in order && stack[i] in below;
      } else {
        assert stack[i] == order[i - |below|] && stack[j] == order[j - |below|];
      }
    }
  }

  lemma StepParentsFirst(nodes: Nodes, asked: seq<Elem>, below: seq<Id>, at: Id, done: seq<Id>)
    requires PrefixClosed(nodes) && Accounted(nodes, asked, below + [at], done) && ParentsFirst(done)
    ensures ParentsFirst(done + [at])
  {
    assert at in below + [at];
    var more := done + [at];
    forall i | 0 <= i < |more| && more[i] != [] ensures ParentOf(more[i]) in more[..i] {
      assert more[..i] == done[..i];
    }
  }

  lemma StepKeepsInv(nodes: Nodes, asked: seq<Elem>, below: seq<Id>, at: Id, order: seq<Id>, done: seq<Id>)
    requires PrefixClosed(nodes) && WalkInv(nodes, asked, below + [at], done)
    requires at in nodes && Pushed(nodes, asked, at, order)
    ensures WalkInv(nodes, asked, below + order, done + [at])
  {
    StepAccounted(nodes, asked, below, at, order, done);
    StepFresh(nodes, asked, below, at, order, done);
    StepParentsFirst(nodes, asked, below, at, done);
  }

  lemma StartInv(nodes: Nodes, asked: seq<Elem>)
    requires PrefixClosed(nodes)
    ensures WalkInv(nodes, asked, [[]], [])
  {
  }

  lemma Regroup(a: seq<Id>, b: seq<Id>, c: seq<Id>)
    ensures a + (b + c) == (a + b) + c
  {
  }

  lemma TopApart(stack: seq<Id>)
    requires stack != []
    ensures stack == stack[..|stack| - 1] + [stack[|stack| - 1]]
  {
  }

  lemma HeadApart(visits: seq<Id>)
    requires visits != []
    ensures visits == [visits[0]] + visits[1..]
  {
  }

  lemma {:induction false} WalkKeepsInv(nodes: Nodes, asked: seq<Elem>, stack: seq<Id>, done: seq<Id>, visits: seq<Id>)
    requires PrefixClosed(nodes) && WalkInv(nodes, asked, stack, done)
    requires Walks(nodes, asked, stack, visits)
    ensures WalkInv(nodes, asked, [], done + visits)
    decreases |visits|
  {
    if stack == [] {
      assert done + visits == done;
    } else {
      var below, at := stack[..|stack| - 1], visits[0];
      TopApart(stack);
      HeadApart(visits);
      var order :| Pushed(nodes, asked, at, order) && Walks(nodes, asked, below + order, visits[1..]);
      StepKeepsInv(nodes, asked, below, at, order, done);
      Regroup(done, [at], visits[1..]);
      WalkKeepsInv(nodes, asked, below + order, done + [at], visits[1..]);
    }
  }

  /** What every walk does: each reached node once, and no node before one above it. */
  ghost predicate IsWalk(nodes: Nodes, asked: seq<Elem>, visits: seq<Id>)
    requires PrefixClosed(nodes)
  {
    && NoRepeats(visits)
    && (forall id :: id in visits <==> Reached(nodes, asked, id))
    && (forall i, j :: 0 <= i < j < |visits| ==> !(visits[j] <= visits[i]))
  }

  lemma {:induction false} AllReached(nodes: Nodes, asked: seq<Elem>, done: seq<Id>, id: Id)
    requires PrefixClosed(nodes) && Accounted(nodes, asked, [], done) && Reached(nodes, asked, id)
    ensures id in done
    decreases |id|
  {
    if id != [] {
      var up := ParentOf(id);
      if up != [] {
        OpenAbove(nodes, asked, up, |up| - 1);
        assert up[..|up| - 1] == ParentOf(up);
      }
      AllReached(nodes, asked, done, up);
      assert IsChild(nodes, up, id);
    }
  }

  lemma {:induction false} AboveIsEarlier(done: seq<Id>, i: nat, n: nat)
    requires ParentsFirst(done) && i < |done| && n < |done[i]|
    ensures done[i][..n] in done[..i]
    decreases |done[i]|
  {
    var up := ParentOf(done[i]);
    var j :| 0 <= j < i && done[..i][j] == up;
    if n < |up| {
      AboveIsEarlier(done, j, n);
      assert up[..n] == done[i][..n];
      assert forall x :: x in done[..j] ==> x in done[..i];
    } else {
      assert done[i][..n] == up;
    }
  }

  lemma NotAbove(visits: seq<Id>, i: nat, j: nat)
    requires NoRepeats(visits) && ParentsFirst(visits) && i < j < |visits|
    ensures !(visits[j] <= visits[i])
  {
    if |visits[j]| < |visits[i]| {
      AboveIsEarlier(visits, i, |visits[j]|);
      var k :| 0 <= k < i && visits[..i][k] == visits[i][..|visits[j]|];
      assert visits[k] != visits[j];
    } else if |visits[j]| == |visits[i]| {
      assert visits[i] != visits[j];
    }
  }

  lemma InvGivesWalk(nodes: Nodes, asked: seq<Elem>, visits: seq<Id>)
    requires PrefixClosed(nodes) && WalkInv(nodes, asked, [], visits)
    ensures IsWalk(nodes, asked, visits)
  {
    forall id ensures id in visits <==> Reached(nodes, asked, id) {
      if Reached(nodes, asked, id) {
        AllReached(nodes, asked, visits, id);
      }
    }
    forall i, j | 0 <= i < j < |visits| ensures !(visits[j] <= visits[i]) {
      NotAbove(visits, i, j);
    }
  }

  /** Whatever order maps are read in, the walk calls back once on every node it should, ancestors first. */
  lemma WalkMeaning(nodes: Nodes, asked: seq<Elem>, visits: seq<Id>)
    requires PrefixClosed(nodes) && Walks(nodes, asked, [[]], visits)
    ensures IsWalk(nodes, asked, visits)
  {
    StartInv(nodes, asked);
    WalkKeepsInv(nodes, asked, [[]], [], visits);
    assert [] + visits == visits;
    InvGivesWalk(nodes, asked, visits);
  }

  /** In particular every covering node is visited. */
  lemma CoveringVisited(nodes: Nodes, asked: seq<Elem>, visits: seq<Id>, id: Id)
    requires PrefixClosed(nodes) && IsWalk(nodes, asked, visits)
    requires id in nodes && Open(nodes, asked, id)
    ensures id in visits
  {
    if id != [] {
      OpenAbove(nodes, asked, id, |id| - 1);
    }
    assert Reached(nodes, asked, id);
  }

  // ---------------------------------------------------------------------
  // Walks can be steered
  // ---------------------------------------------------------------------

  lemma {:induction false} ListingExists(s: set<Id>)
    ensures exists order :: NoRepeats(order) && forall id :: id in order <==> id in s
    decreases s
  {
    if s == {} {
      assert NoRepeats([]) && forall id :: id in [] <==> id in s;
    } else {
      var x :| x in s;
      ListingExists(s - {x});
      var order :| NoRepeats(order) && forall id :: id in order <==> id in s - {x};
      assert x !in order;
      var more := order + [x];
      assert NoRepeats(more) && forall id :: id in more <==> id in s;
    }
  }

  ghost function ChildSet(nodes: Nodes, asked: seq<Elem>, at: Id): (s: set<Id>)
    requires PrefixClosed(nodes) && at in nodes
    ensures forall id :: id in s <==> IsChild(nodes, at, id) && Open(nodes, asked, at)
  {
    set id | id in nodes && IsChild(nodes, at, id) && Open(nodes, asked, at)
  }

  /** The children of a node can be pushed, and any one of them last. */
  lemma PushWithLast(nodes: Nodes, asked: seq<Elem>, at: Id, last: Id)
    requires PrefixClosed(nodes) && at in nodes && Open(nodes, asked, at) && IsChild(nodes, at, last)
    ensures exists order :: Pushed(nodes, asked, at, order + [last])
  {
    var s := ChildSet(nodes, asked, at) - {last};
    ListingExists(s);
    var order :| NoRepeats(order) && forall id :: id in order <==> id in s;
    var all := order + [last];
    assert last !in order;
    assert forall id :: id in all <==> id in order || id == last;
    assert NoRepeats(all);
    assert Pushed(nodes, asked, at, order + [last]);
  }

  lemma PushExists(nodes: Nodes, asked: seq<Elem>, at: Id)
    requires PrefixClosed(nodes) && at in nodes
    ensures exists order :: Pushed(nodes, asked, at, order)
  {
    ListingExists(ChildSet(nodes, asked, at));
    var order :| NoRepeats(order) && forall id :: id in order <==> id in ChildSet(nodes, asked, at);
    assert Pushed(nodes, asked, at, order);
  }

  /** The nodes not yet called back on: what bounds the walk. */
  function Pending(nodes: Nodes, done: seq<Id>): set<Id> {
    set id | id in nodes && id !in done
  }

  lemma PendingShrinks(nodes: Nodes, done: seq<Id>, at: Id)
    requires at in nodes && at !in done
    ensures Pending(nodes, done + [at]) < Pending(nodes, done)
  {
    assert at in Pending(nodes, done) && at !in Pending(nodes, done + [at]);
  }

  lemma Prepend(nodes: Nodes, asked: seq<Elem>, below: seq<Id>, at: Id, order: seq<Id>, rest: seq<Id>)
    requires PrefixClosed(nodes) && at in nodes && Pushed(nodes, asked, at, order)
    requires Walks(nodes, asked, below + order, rest)
    ensures Walks(nodes, asked, below + [at], [at] + rest)
  {
    var stack, visits := below + [at], [at] + rest;
    assert stack[..|stack| - 1] == below && visits[1..] == rest;
  }

  /** The walk always ends: it can be continued from wherever it stands to an end. */
  lemma {:induction false} WalkEnds(nodes: Nodes, asked: seq<Elem>, stack: seq<Id>, done: seq<Id>) returns (visits: seq<Id>)
    requires PrefixClosed(nodes) && WalkInv(nodes, asked, stack, done)
    ensures Walks(nodes, asked, stack, visits)
    decreases Pending(nodes, done)
  {
    if stack == [] {
      visits := [];
    } else {
      var below, at := stack[..|stack| - 1], stack[|stack| - 1];
      TopApart(stack);
      assert at in stack;
      PushExists(nodes, asked, at);
      var order :| Pushed(nodes, asked, at, order);
      StepKeepsInv(nodes, asked, below, at, order, done);
      PendingShrinks(nodes, done, at);
      var rest := WalkEnds(nodes, asked, below + order, done + [at]);
      Prepend(nodes, asked, below, at, order, rest);
      visits := [at] + rest;
    }
  }

  /** The walk goes straight down to a node. */
  ghost predicate Straight(visits: seq<Id>, x: Id, n: nat)
    requires n <= |x|
  {
    |x| - n < |visits| && forall k :: n <= k <= |x| ==> visits[k - n] == x[..k]
  }

  lemma StraightPrepend(x: Id, n: nat, rest: seq<Id>)
    requires n < |x| && Straight(rest, x, n + 1)
    ensures Straight([x[..n]] + rest, x, n)
  {
    var visits := [x[..n]] + rest;
    forall k | n <= k <= |x| ensures visits[k - n] == x[..k] {
      assert k > n ==> visits[k - n] == rest[k - (n + 1)];
    }
  }

  /** One level down towards x: its branch is pushed last, so it is popped next. */
  lemma SteerStep(nodes: Nodes, asked: seq<Elem>, below: seq<Id>, done: seq<Id>, x: Id, n: nat) returns (order: seq<Id>)
    requires PrefixClosed(nodes) && x in nodes && Open(nodes, asked, x) && n < |x|
    requires WalkInv(nodes, asked, below + [x[..n]], done)
    ensures x[..n] in nodes && Pushed(nodes, asked, x[..n], order + [x[..n + 1]])
    ensures WalkInv(nodes, asked, (below + order) + [x[..n + 1]], done + [x[..n]])
  {
    var at, next := x[..n], x[..n + 1];
    OpenAbove(nodes, asked, x, n);
    PrefixInNodes(nodes, x, n + 1);
    assert ParentOf(next) == at;
    PushWithLast(nodes, asked, at, next);
    order :| Pushed(nodes, asked, at, order + [next]);
    StepKeepsInv(nodes, asked, below, at, order + [next], done);
    Regroup(below, order, [next]);
  }

  lemma {:induction false} SteerFrom(nodes: Nodes, asked: seq<Elem>, below: seq<Id>, done: seq<Id>, x: Id, n: nat) returns (visits: seq<Id>)
    requires PrefixClosed(nodes) && x in nodes && Open(nodes, asked, x) && n <= |x|
    requires WalkInv(nodes, asked, below + [x[..n]], done)
    ensures Walks(nodes, asked, below + [x[..n]], visits) && Straight(visits, x, n)
    decreases |x| - n
  {
    if n == |x| {
      visits := WalkEnds(nodes, asked, below + [x[..n]], done);
      assert visits[0] == x[..n];
    } else {
      var order := SteerStep(nodes, asked, below, done, x, n);
      var rest := SteerFrom(nodes, asked, below + order, done + [x[..n]], x, n + 1);
      Regroup(below, order, [x[..n + 1]]);
      Prepend(nodes, asked, below, x[..n], order + [x[..n + 1]], rest);
      StraightPrepend(x, n, rest);
      visits := [x[..n]] + rest;
    }
  }

  /** For some order of the maps, a covering node is visited before everything that is not above it. */
  lemma WalkToFirst(nodes: Nodes, asked: seq<Elem>, x: Id) returns (visits: seq<Id>)
    requires PrefixClosed(nodes) && x in nodes && Open(nodes, asked, x)
    ensures Walks(nodes, asked, [[]], visits) && Straight(visits, x, 0)
  {
    StartInv(nodes, asked);
    assert [] + [x[..0]] == [[]];
    visits := SteerFrom(nodes, asked, [], [], x, 0);
  }
}
