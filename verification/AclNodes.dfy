/** A trie node in terms of the rules filed at it, for rules whose names and keys are plain. */
module AclNodes {
  import opened Wrappers
  import opened PathElem
  import opened AclTrie
  import opened AclWalk

  ghost predicate PlainPath(path: seq<Elem>) {
    forall i :: 0 <= i < |path| ==> Plain(path[i])
  }

  ghost predicate PlainNodes(nodes: Nodes) {
    forall id :: id in nodes ==> Plain(nodes[id].elem)
  }

  // ---------------------------------------------------------------------
  // Inserting plain rules keeps the nodes plain
  // ---------------------------------------------------------------------

  lemma {:induction false} DescendKeepsPlain(nodes: Nodes, at: Id, path: seq<Elem>)
    requires at in nodes && PlainNodes(nodes) && PlainPath(path)
    ensures PlainNodes(Descend(nodes, at, path).0)
    decreases |path|
  {
    if path != [] && path[0].name != WILDCARD && ElemKey(path[0]).Some? {
      DescendKeepsPlain(Step(nodes, at, path[0]), at + [ElemKey(path[0]).value], path[1..]);
    }
  }

  lemma InsertKeepsPlain(nodes: Nodes, r: Rule)
    requires PlainNodes(nodes) && PlainPath(r.path)
    ensures PlainNodes(Inserted(nodes, r).0)
  {
    DescendArrives(Rooted(nodes), [], r.path);
    DescendKeepsPlain(Rooted(nodes), [], r.path);
  }

  lemma {:induction false} InsertAllKeepsPlain(nodes: Nodes, rules: seq<Rule>)
    requires PlainNodes(nodes) && forall i :: 0 <= i < |rules| ==> PlainPath(rules[i].path)
    ensures PlainNodes(InsertedAll(nodes, rules).0)
    decreases |rules|
  {
    if rules != [] {
      InsertKeepsPlain(nodes, rules[0]);
      if Inserted(nodes, rules[0]).1 {
        InsertAllKeepsPlain(Inserted(nodes, rules[0]).0, rules[1..]);
      }
    }
  }

  // ---------------------------------------------------------------------
  // The path of a node is the path of its rules
  // ---------------------------------------------------------------------

  lemma {:induction false} KeyPathAt(path: seq<Elem>, i: nat)
    requires KeyPath(path).Some?
    ensures |KeyPath(path).value| == |path|
    ensures i < |path| ==> ElemKey(path[i]) == Some(KeyPath(path).value[i])
    decreases |path|
  {
    if path != [] {
      KeyPathAt(path[1..], if i > 0 then i - 1 else 0);
    }
  }

  lemma {:induction false} PathToAt(nodes: Nodes, id: Id, i: nat)
    requires PrefixClosed(nodes) && id in nodes && i < |id|
    ensures id[..i + 1] in nodes && PathTo(nodes, id)[i] == nodes[id[..i + 1]].elem
    decreases |id|
  {
    if i == |id| - 1 {
      assert id[..i + 1] == id;
    } else {
      PathToAt(nodes, ParentOf(id), i);
      assert ParentOf(id)[..i + 1] == id[..i + 1];
    }
  }

  lemma SameElement(nodes: Nodes, id: Id, path: seq<Elem>, i: nat)
    requires WellFiled(nodes) && PlainNodes(nodes) && id in nodes
    requires PlainPath(path) && KeyPath(path) == Some(id) && i < |id|
    ensures i < |path| && Pruned(PathTo(nodes, id)[i]) == Pruned(path[i])
  {
    KeyPathAt(path, i);
    PathToAt(nodes, id, i);
    var up := id[..i + 1];
    assert Filed(nodes, up) && up[|up| - 1] == id[i];
    ElemKeyExactlyWhen(nodes[up].elem, path[i]);
  }

  lemma PrunedCovers(e: Elem, f: Elem, asked: Elem)
    requires Pruned(e) == Pruned(f)
    ensures CoversElem(e, asked) <==> CoversElem(f, asked)
  {
    assert forall k :: k in e.keys && e.keys[k] != WILDCARD <==> k in Pruned(e).keys;
    assert forall k :: k in f.keys && f.keys[k] != WILDCARD <==> k in Pruned(f).keys;
  }

  /** A node covers a query exactly when the path of a rule filed there does. */
  lemma NodeCoversExactlyWhen(nodes: Nodes, id: Id, path: seq<Elem>, asked: seq<Elem>)
    requires WellFiled(nodes) && PlainNodes(nodes) && id in nodes
    requires PlainPath(path) && KeyPath(path) == Some(id)
    ensures Open(nodes, asked, id) <==> Covers(path, asked)
  {
    KeyPathAt(path, 0);
    if |path| <= |asked| {
      forall i | 0 <= i < |id| ensures CoversElem(PathTo(nodes, id)[i], asked[i]) <==> CoversElem(path[i], asked[i]) {
        SameElement(nodes, id, path, i);
        PrunedCovers(PathTo(nodes, id)[i], path[i], asked[i]);
      }
    }
  }

  /** The keys a path fixes. */
  function KeyCount(path: seq<Elem>): nat {
    if path == [] then 0 else KeyCount(path[..|path| - 1]) + |SetKeys(path[|path| - 1].keys)|
  }

  lemma {:induction false} TotalIsKeyCount(nodes: Nodes, id: Id)
    requires WellFiled(nodes) && id in nodes
    ensures nodes[id].totalSetKeys == KeyCount(PathTo(nodes, id))
    decreases |id|
  {
    assert Filed(nodes, id);
    if id != [] {
      TotalIsKeyCount(nodes, ParentOf(id));
      var path := PathTo(nodes, id);
      assert path[..|path| - 1] == PathTo(nodes, ParentOf(id));
    }
  }

  lemma {:induction false} PrunedKeyCount(p: seq<Elem>, q: seq<Elem>)
    requires |p| == |q| && forall i :: 0 <= i < |p| ==> Pruned(p[i]) == Pruned(q[i])
    ensures KeyCount(p) == KeyCount(q)
    decreases |p|
  {
    if p != [] {
      var n := |p| - 1;
      PrunedKeyCount(p[..n], q[..n]);
      SetKeysOfPruned(p[n]);
      SetKeysOfPruned(q[n]);
    }
  }

  /** The specificity a node is compared by is the number of keys its rules fix. */
  lemma NodeCountsKeys(nodes: Nodes, id: Id, path: seq<Elem>)
    requires WellFiled(nodes) && PlainNodes(nodes) && id in nodes
    requires PlainPath(path) && KeyPath(path) == Some(id)
    ensures nodes[id].totalSetKeys == KeyCount(path)
  {
    TotalIsKeyCount(nodes, id);
    KeyPathAt(path, 0);
    forall i | 0 <= i < |id| ensures Pruned(PathTo(nodes, id)[i]) == Pruned(path[i]) {
      SameElement(nodes, id, path, i);
    }
    PrunedKeyCount(PathTo(nodes, id), path);
  }
}
