/**
 * Walks that a map order can be chosen for: what is on a stack is walked part
 * by part, so a branch can be put first or last at every node.
 */
module AclSteer {
  import opened Wrappers
  import opened PathElem
  import opened AclTrie
  import opened AclWalk

  /** The top part of a stack is walked before the rest. */
  lemma {:induction false} Compose(nodes: Nodes, asked: seq<Elem>, below: seq<Id>, top: seq<Id>, v: seq<Id>, w: seq<Id>)
    requires PrefixClosed(nodes) && Walks(nodes, asked, top, v) && Walks(nodes, asked, below, w)
    ensures Walks(nodes, asked, below + top, v + w)
    decreases |v|
  {
    if top == [] {
      assert below + top == below && v + w == w;
    } else {
      var rest, at := top[..|top| - 1], v[0];
      var order :| Pushed(nodes, asked, at, order) && Walks(nodes, asked, rest + order, v[1..]);
      Compose(nodes, asked, below, rest + order, v[1..], w);
      Regroup(below, rest, order);
      Prepend(nodes, asked, below + rest, at, order, v[1..] + w);
      TopApart(top);
      Regroup(below, rest, [at]);
      HeadApart(v);
      Regroup([at], v[1..], w);
    }
  }

  ghost predicate NoLonger(nodes: Nodes, m: nat) {
    forall id :: id in nodes ==> |id| <= m
  }

  lemma {:induction false} LongestId(ids: set<Id>) returns (m: nat)
    ensures forall id :: id in ids ==> |id| <= m
    decreases ids
  {
    m := 0;
    if ids != {} {
      var x :| x in ids;
      var rest := LongestId(ids - {x});
      m := if rest < |x| then |x| else rest;
    }
  }

  /** Some walk over the subtree of a node. */
  lemma {:induction false} NodeWalk(nodes: Nodes, asked: seq<Elem>, id: Id, m: nat) returns (visits: seq<Id>)
    requires PrefixClosed(nodes) && id in nodes && NoLonger(nodes, m)
    ensures Walks(nodes, asked, [id], visits) && visits != [] && visits[0] == id
    decreases m + 1 - |id|, 0, 0
  {
    PushExists(nodes, asked, id);
    var order :| Pushed(nodes, asked, id, order);
    visits := WalkFrom(nodes, asked, id, order, m);
  }

  /** Some walk over the subtree of a node whose children are pushed in a given order. */
  lemma {:induction false} WalkFrom(nodes: Nodes, asked: seq<Elem>, id: Id, order: seq<Id>, m: nat) returns (visits: seq<Id>)
    requires PrefixClosed(nodes) && id in nodes && NoLonger(nodes, m) && Pushed(nodes, asked, id, order)
    ensures Walks(nodes, asked, [id], visits) && visits != [] && visits[0] == id
    decreases m - |id|, 2, 0
  {
    var rest := ListWalk(nodes, asked, order, |id| + 1, m);
    assert [] + order == order && [] + [id] == [id];
    Prepend(nodes, asked, [], id, order, rest);
    visits := [id] + rest;
  }

  lemma {:induction false} ListWalk(nodes: Nodes, asked: seq<Elem>, list: seq<Id>, k: nat, m: nat) returns (visits: seq<Id>)
    requires PrefixClosed(nodes) && NoLonger(nodes, m) && k <= m + 1
    requires forall id :: id in list ==> id in nodes && |id| == k
    ensures Walks(nodes, asked, list, visits)
    decreases m + 1 - k, 1, |list|
  {
    if list == [] {
      visits := [];
    } else {
      var n := |list| - 1;
      TopApart(list);
      assert list[n] in list;
      var v := NodeWalk(nodes, asked, list[n], m);
      var w := ListWalk(nodes, asked, list[..n], k, m);
      Compose(nodes, asked, list[..n], [list[n]], v, w);
      visits := v + w;
    }
  }

  lemma ChildrenWalk(nodes: Nodes, asked: seq<Elem>, at: Id, list: seq<Id>, m: nat) returns (visits: seq<Id>)
    requires PrefixClosed(nodes) && at in nodes && NoLonger(nodes, m)
    requires forall id :: id in list ==> IsChild(nodes, at, id)
    ensures Walks(nodes, asked, list, visits)
  {
    visits := ListWalk(nodes, asked, list, |at| + 1, m);
  }

  /** What is visited from a subtree lies in the subtree. */
  lemma {:induction false} StaysBelow(nodes: Nodes, asked: seq<Elem>, stack: seq<Id>, visits: seq<Id>, root: Id)
    requires PrefixClosed(nodes) && Walks(nodes, asked, stack, visits)
    requires forall id :: id in stack ==> root <= id
    ensures forall id :: id in visits ==> root <= id
    decreases |visits|
  {
    if stack != [] {
      var rest, at := stack[..|stack| - 1], visits[0];
      var order :| Pushed(nodes, asked, at, order) && Walks(nodes, asked, rest + order, visits[1..]);
      assert at in stack;
      forall id | id in rest + order ensures root <= id {
        if id in order {
          assert at <= id by {
            assert ParentOf(id) == at;
          }
        } else {
          assert id in stack;
        }
      }
      StaysBelow(nodes, asked, rest + order, visits[1..], root);
      HeadApart(visits);
    }
  }

  // ---------------------------------------------------------------------
  // A branch last, a branch first, two branches first
  // ---------------------------------------------------------------------

  lemma ShapeLast(at: Id, v: seq<Id>, inner: seq<Id>, x: Id, post: seq<Id>)
    ensures [at] + (v + (inner + [x] + post)) == ([at] + v + inner) + [x] + post
  {
  }

  lemma ShapeReach(at: Id, u: seq<Id>, inner: seq<Id>, z: seq<Id>, w: seq<Id>)
    ensures [at] + ((u + inner + z) + w) == ([at] + u) + inner + (z + w)
  {
  }

  lemma ShapeParent(at: Id, inner: seq<Id>, d: Id, post: seq<Id>, ys: seq<Id>, rest: seq<Id>)
    ensures [at] + ((inner + [d] + post) + (ys + rest)) == ([at] + inner) + [d] + post + ys + rest
  {
  }

  lemma ShapeBoth(u: seq<Id>, inner: seq<Id>, d: Id, post: seq<Id>, ys: seq<Id>, tail: seq<Id>, z: seq<Id>)
    ensures u + (inner + [d] + post + ys + tail) + z == (u + inner) + [d] + post + ys + (tail + z)
  {
  }

  lemma PrependAlone(nodes: Nodes, asked: seq<Elem>, at: Id, order: seq<Id>, rest: seq<Id>)
    requires PrefixClosed(nodes) && at in nodes && Pushed(nodes, asked, at, order) && Walks(nodes, asked, order, rest)
    ensures Walks(nodes, asked, [at], [at] + rest)
  {
    assert [] + order == order && [] + [at] == [at];
    Prepend(nodes, asked, [], at, order, rest);
  }

  /** A node, then the children pushed last, then the others. */
  lemma WalkParts(nodes: Nodes, asked: seq<Elem>, at: Id, below: seq<Id>, top: seq<Id>, v: seq<Id>, w: seq<Id>)
    requires PrefixClosed(nodes) && at in nodes && Pushed(nodes, asked, at, below + top)
    requires Walks(nodes, asked, top, v) && Walks(nodes, asked, below, w)
    ensures Walks(nodes, asked, [at], [at] + (v + w))
  {
    Compose(nodes, asked, below, top, v, w);
    PrependAlone(nodes, asked, at, below + top, v + w);
  }

  /** The children of a node can be pushed with any of them first, so that it is walked last. */
  lemma PushWithFirst(nodes: Nodes, asked: seq<Elem>, at: Id, first: Id) returns (others: seq<Id>)
    requires PrefixClosed(nodes) && at in nodes && Open(nodes, asked, at) && IsChild(nodes, at, first)
    ensures Pushed(nodes, asked, at, [first] + others)
  {
    var s := ChildSet(nodes, asked, at) - {first};
    ListingExists(s);
    others :| NoRepeats(others) && forall id :: id in others <==> id in s;
    var all := [first] + others;
    assert first !in others;
    assert forall id :: id in all <==> id == first || id in others;
    assert forall i :: 0 < i < |all| ==> all[i] == others[i - 1];
    assert NoRepeats(all);
  }

  lemma PushWithLastTwo(nodes: Nodes, asked: seq<Elem>, at: Id, second: Id, last: Id) returns (others: seq<Id>)
    requires PrefixClosed(nodes) && at in nodes && Open(nodes, asked, at)
    requires IsChild(nodes, at, second) && IsChild(nodes, at, last) && second != last
    ensures Pushed(nodes, asked, at, (others + [second]) + [last])
  {
    var s := ChildSet(nodes, asked, at) - {second, last};
    ListingExists(s);
    others :| NoRepeats(others) && forall id :: id in others <==> id in s;
    var all := (others + [second]) + [last];
    assert second !in others && last !in others;
    assert forall id :: id in all <==> id in others || id == second || id == last;
    assert NoRepeats(all);
  }

  lemma PrefixStep(nodes: Nodes, asked: seq<Elem>, x: Id, k: nat)
    requires PrefixClosed(nodes) && x in nodes && Open(nodes, asked, x) && k < |x|
    ensures x[..k] in nodes && Open(nodes, asked, x[..k]) && IsChild(nodes, x[..k], x[..k + 1])
  {
    OpenAbove(nodes, asked, x, k);
    PrefixInNodes(nodes, x, k + 1);
    assert ParentOf(x[..k + 1]) == x[..k];
  }

  lemma ShapeHead(v: seq<Id>)
    requires v != []
    ensures v == [] + [v[0]] + v[1..] && forall id :: id in v[1..] ==> id in v
  {
  }

  lemma WalkBelow(nodes: Nodes, asked: seq<Elem>, x: Id, m: nat) returns (post: seq<Id>)
    requires PrefixClosed(nodes) && x in nodes && NoLonger(nodes, m)
    ensures Walks(nodes, asked, [x], [] + [x] + post) && forall id :: id in post ==> x <= id
  {
    var v := NodeWalk(nodes, asked, x, m);
    StaysBelow(nodes, asked, [x], v, x);
    ShapeHead(v);
    post := v[1..];
  }

  /** Everything else in the subtree first, then x and what lies below it. */
  lemma {:induction false} LastWalk(nodes: Nodes, asked: seq<Elem>, x: Id, k: nat, m: nat) returns (pre: seq<Id>, post: seq<Id>)
    requires PrefixClosed(nodes) && x in nodes && Open(nodes, asked, x) && k <= |x| && NoLonger(nodes, m)
    ensures Walks(nodes, asked, [x[..k]], pre + [x] + post)
    ensures forall id :: id in post ==> x <= id
    decreases |x| - k
  {
    if k == |x| {
      assert x[..k] == x;
      pre := [];
      post := WalkBelow(nodes, asked, x, m);
    } else {
      PrefixStep(nodes, asked, x, k);
      var at, next := x[..k], x[..k + 1];
      var others := PushWithFirst(nodes, asked, at, next);
      var v := ChildrenWalk(nodes, asked, at, others, m);
      var inner;
      inner, post := LastWalk(nodes, asked, x, k + 1, m);
      WalkParts(nodes, asked, at, [next], others, v, inner + [x] + post);
      ShapeLast(at, v, inner, x, post);
      pre := [at] + v + inner;
    }
  }

  /** Straight down to y. */
  lemma {:induction false} StraightWalk(nodes: Nodes, asked: seq<Elem>, y: Id, k: nat, m: nat) returns (visits: seq<Id>)
    requires PrefixClosed(nodes) && y in nodes && Open(nodes, asked, y) && k <= |y| && NoLonger(nodes, m)
    ensures Walks(nodes, asked, [y[..k]], visits) && Straight(visits, y, k)
    decreases |y| - k
  {
    if k == |y| {
      assert y[..k] == y;
      visits := NodeWalk(nodes, asked, y, m);
    } else {
      PrefixStep(nodes, asked, y, k);
      var at, next := y[..k], y[..k + 1];
      PushWithLast(nodes, asked, at, next);
      var others :| Pushed(nodes, asked, at, others + [next]);
      assert forall id :: id in others ==> id in others + [next];
      var w := ChildrenWalk(nodes, asked, at, others, m);
      var v := StraightWalk(nodes, asked, y, k + 1, m);
      WalkParts(nodes, asked, at, others, [next], v, w);
      StraightLonger(y, k + 1, v, w);
      StraightPrepend(y, k, v + w);
      visits := [at] + (v + w);
    }
  }

  lemma StraightLonger(y: Id, k: nat, v: seq<Id>, w: seq<Id>)
    requires k <= |y| && Straight(v, y, k)
    ensures Straight(v + w, y, k)
  {
    forall i | k <= i <= |y| ensures (v + w)[i - k] == y[..i] {
      assert (v + w)[i - k] == v[i - k];
    }
  }

  /** A walk over the subtree at x[..n] can be reached straight down from x[..k]. */
  lemma {:induction false} ReachDown(nodes: Nodes, asked: seq<Elem>, x: Id, k: nat, n: nat, inner: seq<Id>, m: nat) returns (u: seq<Id>, z: seq<Id>)
    requires PrefixClosed(nodes) && x in nodes && Open(nodes, asked, x) && k <= n <= |x| && NoLonger(nodes, m)
    requires Walks(nodes, asked, [x[..n]], inner)
    ensures Walks(nodes, asked, [x[..k]], u + inner + z)
    decreases n - k
  {
    if k == n {
      u, z := [], [];
      assert [] + inner + [] == inner;
    } else {
      PrefixStep(nodes, asked, x, k);
      var at, next := x[..k], x[..k + 1];
      PushWithLast(nodes, asked, at, next);
      var others :| Pushed(nodes, asked, at, others + [next]);
      assert forall id :: id in others ==> id in others + [next];
      var w := ChildrenWalk(nodes, asked, at, others, m);
      var u', z' := ReachDown(nodes, asked, x, k + 1, n, inner, m);
      WalkParts(nodes, asked, at, others, [next], u' + inner + z', w);
      ShapeReach(at, u', inner, z', w);
      u, z := [at] + u', z' + w;
    }
  }

  /** Where two nodes part. */
  lemma SplitPoint(d: Id, y: Id) returns (n: nat)
    requires !(y <= d) && !(d <= y)
    ensures n < |d| && n < |y| && d[..n] == y[..n] && d[n] != y[n]
  {
    n := 0;
    while n < |d| && n < |y| && d[n] == y[n]
      invariant 0 <= n <= |d| && n <= |y| && d[..n] == y[..n]
    {
      n := n + 1;
    }
    assert d[..|d|] == d && y[..|y|] == y;
  }

  /** At the node where they part, d's branch first, with d at its end, and then straight to y. */
  lemma ParentWalk(nodes: Nodes, asked: seq<Elem>, d: Id, y: Id, n: nat, m: nat)
    returns (pre: seq<Id>, post: seq<Id>, ys: seq<Id>, rest: seq<Id>)
    requires PrefixClosed(nodes) && NoLonger(nodes, m)
    requires d in nodes && Open(nodes, asked, d) && y in nodes && Open(nodes, asked, y)
    requires n < |d| && n < |y| && d[..n] == y[..n] && d[n] != y[n]
    ensures Walks(nodes, asked, [d[..n]], pre + [d] + post + ys + rest)
    ensures Straight(ys, y, n + 1) && forall id :: id in post ==> d <= id
  {
    PrefixStep(nodes, asked, d, n);
    PrefixStep(nodes, asked, y, n);
    var at, dn, yn := d[..n], d[..n + 1], y[..n + 1];
    assert dn[n] != yn[n];
    var others := PushWithLastTwo(nodes, asked, at, yn, dn);
    assert forall id :: id in others ==> id in (others + [yn]) + [dn];
    rest := ChildrenWalk(nodes, asked, at, others, m);
    ys := StraightWalk(nodes, asked, y, n + 1, m);
    Compose(nodes, asked, others, [yn], ys, rest);
    var inner;
    inner, post := LastWalk(nodes, asked, d, n + 1, m);
    WalkParts(nodes, asked, at, others + [yn], [dn], inner + [d] + post, ys + rest);
    ShapeParent(at, inner, d, post, ys, rest);
    pre := [at] + inner;
  }

  // ---------------------------------------------------------------------
  // From the root
  // ---------------------------------------------------------------------

  /** For some map order d comes after everything that does not lie below it. */
  lemma WalkToLast(nodes: Nodes, asked: seq<Elem>, d: Id) returns (pre: seq<Id>, post: seq<Id>)
    requires PrefixClosed(nodes) && d in nodes && Open(nodes, asked, d)
    ensures Walks(nodes, asked, [[]], pre + [d] + post)
    ensures forall id :: id in post ==> d <= id
  {
    var m := LongestId(nodes.Keys);
    assert [d[..0]] == [[]];
    pre, post := LastWalk(nodes, asked, d, 0, m);
  }

  /** For some map order d is followed by nothing but what lies below it until the walk goes straight to y. */
  lemma WalkToBoth(nodes: Nodes, asked: seq<Elem>, d: Id, y: Id) returns (pre: seq<Id>, post: seq<Id>, ys: seq<Id>, rest: seq<Id>, n: nat)
    requires PrefixClosed(nodes) && d in nodes && Open(nodes, asked, d) && y in nodes && Open(nodes, asked, y)
    requires !(y <= d) && !(d <= y)
    ensures Walks(nodes, asked, [[]], pre + [d] + post + ys + rest)
    ensures forall id :: id in post ==> d <= id
    ensures n <= |y| && Straight(ys, y, n)
  {
    var m := LongestId(nodes.Keys);
    var k := SplitPoint(d, y);
    var inner, tail;
    inner, post, ys, tail := ParentWalk(nodes, asked, d, y, k, m);
    var whole := inner + [d] + post + ys + tail;
    assert [d[..0]] == [[]];
    var u, z := ReachDown(nodes, asked, d, 0, k, whole, m);
    pre, rest, n := u + inner, tail + z, k + 1;
    ShapeBoth(u, inner, d, post, ys, tail, z);
  }
}
