/** The global list: its names, its definitions, and what it does for each neighbor. */
module PolicyTheorem {
  import opened Wrappers
  import opened Decimal
  import opened Communities
  import opened PolicyModel
  import opened PolicyTranslation
  import opened PolicyPreservation

  // ---------------------------------------------------------------------
  // Names
  // ---------------------------------------------------------------------

  lemma BarSplit(n: string, p: string, n': string, p': string)
    requires '|' !in n && '|' !in n'
    requires n + "|" + p == n' + "|" + p'
    ensures n == n' && p == p'
  {
    var s := n + "|" + p;
    assert s[|n|] == '|' && (n' + "|" + p')[|n'|] == '|';
    assert forall j :: 0 <= j < |n| ==> s[j] == n[j];
    assert forall j :: 0 <= j < |n'| ==> (n' + "|" + p')[j] == n'[j];
    assert |n| == |n'|;
    assert n == s[..|n|] && n' == s[..|n|];
    assert p == s[|n| + 1..] && p' == s[|n| + 1..];
  }

  lemma AddressHasNoBar(n: string)
    requires IsAddress(n)
    ensures '|' !in n && n != "default-import" && n != "default-export"
  {
    assert !AddressChar('|') && !AddressChar('u');
    assert "default-import"[4] == 'u' && "default-export"[4] == 'u';
    assert |n| > 4 ==> n[4] in n;
  }

  lemma PolicyNameInjective(n: string, p: string, n': string, p': string)
    requires IsAddress(n) && IsAddress(n')
    requires ConvertPolicyName(n, p) == ConvertPolicyName(n', p')
    ensures n == n' && p == p'
  {
    AddressHasNoBar(n);
    AddressHasNoBar(n');
    BarSplit(n, p, n', p');
  }

  lemma DefaultNameShape(d: Direction, n: string)
    ensures DefaultName(d, n) == (if d.Import? then "default-import" else "default-export") + "|" + n
  {
    assert "default-import|" == "default-import" + "|";
    assert "default-export|" == "default-export" + "|";
  }

  lemma DefaultNameIsNoPolicyName(d: Direction, n: string, n': string, p: string)
    requires IsAddress(n')
    ensures DefaultName(d, n) != ConvertPolicyName(n', p)
  {
    AddressHasNoBar(n');
    DefaultNameShape(d, n);
    var first := if d.Import? then "default-import" else "default-export";
    assert '|' !in first;
    if first + "|" + n == n' + "|" + p {
      BarSplit(first, n, n', p);
    }
  }

  lemma DefaultNameInjective(d: Direction, n: string, d': Direction, n': string)
    requires DefaultName(d, n) == DefaultName(d', n')
    ensures d == d' && n == n'
  {
    DefaultNameShape(d, n);
    DefaultNameShape(d', n');
    var a, b := if d.Import? then "default-import" else "default-export", if d'.Import? then "default-import" else "default-export";
    assert '|' !in a && '|' !in b;
    BarSplit(a, n, b, n');
    assert "default-import"[8] == 'i' && "default-export"[8] == 'e';
  }

  // ---------------------------------------------------------------------
  // Definitions
  // ---------------------------------------------------------------------

  ghost predicate Ready(cfg: Config, o: Orders) {
    Sound(cfg) && OrdersOf(o, cfg) && IndexesInto(IndexMap(o.communitySets), CommunitySets(cfg, o))
  }

  function ConvertedPolicy(cfg: Config, o: Orders, n: string, p: string): GoPolicy
    requires p in cfg.policies
  {
    IndexMapIndexes(cfg, o);
    ConvertPolicy(cfg, CommunitySets(cfg, o), IndexMap(o.communitySets), n, p)
  }

  /** A definition made for neighbor `n`. */
  ghost predicate MadeFor(cfg: Config, o: Orders, n: string, d: GoPolicy) {
    || (exists p :: p in cfg.policies && d == ConvertedPolicy(cfg, o, n, p))
    || (n in cfg.neighbors && (d == DefaultPolicy(cfg, Import, n) || d == DefaultPolicy(cfg, Export, n)))
  }

  function Populated(cfg: Config, o: Orders, n: string, names: seq<string>, start: Progressed): Progressed {
    IndexMapIndexes(cfg, o);
    Populate(cfg, CommunitySets(cfg, o), IndexMap(o.communitySets), n, names, start)
  }

  lemma {:induction false} PopulateMakes(cfg: Config, o: Orders, n: string, names: seq<string>, start: Progressed)
    ensures var c := Populated(cfg, o, n, names, start);
            && (forall p :: p in c.seen <==> p in start.seen || p in names)
            && (forall d :: d in start.policies ==> d in c.policies)
            && (forall d :: d in c.policies && d !in start.policies ==> MadeFor(cfg, o, n, d))
            && (forall p :: p in names && p in cfg.policies && p !in start.seen ==> ConvertedPolicy(cfg, o, n, p) in c.policies)
  {
    if names != [] {
      var k := |names| - 1;
      PopulateMakes(cfg, o, n, names[..k], start);
      assert forall p :: p in names <==> p in names[..k] || p == names[k];
    }
  }

  function Part(cfg: Config, o: Orders, n: string, d: Direction): Progressed
    requires n in cfg.neighbors
  {
    var i := Populated(cfg, o, n, cfg.neighbors[n].importPolicy, Progressed([], [], {}));
    if d.Import? then i else Populated(cfg, o, n, cfg.neighbors[n].exportPolicy, Progressed([], [], i.seen))
  }

  function PieceFor(cfg: Config, o: Orders, n: string): Piece
    requires n in cfg.neighbors
  {
    IndexMapIndexes(cfg, o);
    NeighborPiece(cfg, CommunitySets(cfg, o), IndexMap(o.communitySets), n)
  }

  lemma PieceMakes(cfg: Config, o: Orders, n: string)
    requires n in cfg.neighbors
    ensures forall d :: d in PieceFor(cfg, o, n).policies ==> MadeFor(cfg, o, n, d)
    ensures DefaultPolicy(cfg, Import, n) in PieceFor(cfg, o, n).policies && DefaultPolicy(cfg, Export, n) in PieceFor(cfg, o, n).policies
    ensures forall p :: (p in cfg.neighbors[n].importPolicy || p in cfg.neighbors[n].exportPolicy) && p in cfg.policies ==>
              ConvertedPolicy(cfg, o, n, p) in PieceFor(cfg, o, n).policies
  {
    var i, e := Part(cfg, o, n, Import), Part(cfg, o, n, Export);
    PopulateMakes(cfg, o, n, cfg.neighbors[n].importPolicy, Progressed([], [], {}));
    PopulateMakes(cfg, o, n, cfg.neighbors[n].exportPolicy, Progressed([], [], i.seen));
    assert PieceFor(cfg, o, n).policies == i.policies + e.policies + [DefaultPolicy(cfg, Import, n), DefaultPolicy(cfg, Export, n)];
  }

  function PiecesFor(cfg: Config, o: Orders, neighbors: seq<string>): Piece
    requires forall n :: n in neighbors ==> n in cfg.neighbors
  {
    IndexMapIndexes(cfg, o);
    Pieces(cfg, CommunitySets(cfg, o), IndexMap(o.communitySets), neighbors)
  }

  /** Every definition is made for one of the neighbors, and everything made for a neighbor is there. */
  lemma {:induction false} PiecesMake(cfg: Config, o: Orders, neighbors: seq<string>)
    requires forall n :: n in neighbors ==> n in cfg.neighbors
    ensures forall d :: d in PiecesFor(cfg, o, neighbors).policies ==> exists n :: n in neighbors && MadeFor(cfg, o, n, d)
    ensures forall n, d :: n in neighbors && d in PieceFor(cfg, o, n).policies ==> d in PiecesFor(cfg, o, neighbors).policies
  {
    if neighbors != [] {
      var k := |neighbors| - 1;
      PiecesMake(cfg, o, neighbors[..k]);
      PieceMakes(cfg, o, neighbors[k]);
      assert forall n :: n in neighbors <==> n in neighbors[..k] || n == neighbors[k];
      assert PiecesFor(cfg, o, neighbors).policies == PiecesFor(cfg, o, neighbors[..k]).policies + PieceFor(cfg, o, neighbors[k]).policies;
    }
  }

  lemma {:induction false} FindPolicyMeaning(ps: seq<GoPolicy>, name: string)
    ensures var f := FindPolicy(ps, name);
            && (f.Some? ==> exists d :: d in ps && d.name == name && d.statements == f.value)
            && (f.None? ==> forall d :: d in ps ==> d.name != name)
  {
    if ps != [] {
      FindPolicyMeaning(ps[1..], name);
      assert forall d :: d in ps <==> d == ps[0] || d in ps[1..];
    }
  }

  /** All definitions of the translated configuration. */
  function AllPolicies(cfg: Config, o: Orders): seq<GoPolicy>
    requires forall n :: n in o.neighbors ==> n in cfg.neighbors
  {
    PiecesFor(cfg, o, o.neighbors).policies
  }

  lemma SomeoneMade(cfg: Config, o: Orders, d: GoPolicy) returns (n: string)
    requires Ready(cfg, o) && d in AllPolicies(cfg, o)
    ensures n in cfg.neighbors && MadeFor(cfg, o, n, d) && IsAddress(n)
  {
    PiecesMake(cfg, o, o.neighbors);
    n :| n in o.neighbors && MadeFor(cfg, o, n, d);
  }

  /** A policy name leads to the conversion of that policy for that neighbor, if there is such a policy. */
  lemma LookupPolicy(cfg: Config, o: Orders, n: string, p: string)
    requires Ready(cfg, o) && n in cfg.neighbors
    requires p in cfg.neighbors[n].importPolicy || p in cfg.neighbors[n].exportPolicy
    ensures FindPolicy(Translate(cfg, o).policies, ConvertPolicyName(n, p)) ==
            if p in cfg.policies then Some(ConvertedPolicy(cfg, o, n, p).statements) else None
  {
    var ps := AllPolicies(cfg, o);
    assert Translate(cfg, o).policies == ps;
    var name := ConvertPolicyName(n, p);
    FindPolicyMeaning(ps, name);
    if p in cfg.policies {
      PieceMakes(cfg, o, n);
      PiecesMake(cfg, o, o.neighbors);
      assert ConvertedPolicy(cfg, o, n, p) in ps;
    }
    var f := FindPolicy(ps, name);
    if f.Some? {
      var d :| d in ps && d.name == name && d.statements == f.value;
      var n' := SomeoneMade(cfg, o, d);
      NamedForPolicy(cfg, o, n', d, n, p);
    }
  }

  lemma NamedForPolicy(cfg: Config, o: Orders, n': string, d: GoPolicy, n: string, p: string)
    requires MadeFor(cfg, o, n', d) && d.name == ConvertPolicyName(n, p)
    requires IsAddress(n') && IsAddress(n)
    ensures p in cfg.policies && d == ConvertedPolicy(cfg, o, n, p)
  {
    if p' :| p' in cfg.policies && d == ConvertedPolicy(cfg, o, n', p') {
      PolicyNameInjective(n', p', n, p);
    } else {
      DefaultNameIsNoPolicyName(Import, n', n, p);
      DefaultNameIsNoPolicyName(Export, n', n, p);
    }
  }

  lemma LookupDefault(cfg: Config, o: Orders, n: string, dir: Direction)
    requires Ready(cfg, o) && n in cfg.neighbors
    ensures FindPolicy(Translate(cfg, o).policies, DefaultName(dir, n)) == Some(DefaultPolicy(cfg, dir, n).statements)
  {
    var ps := AllPolicies(cfg, o);
    assert Translate(cfg, o).policies == ps;
    DefaultIsThere(cfg, o, n, dir);
    FindPolicyMeaning(ps, DefaultName(dir, n));
    var f := FindPolicy(ps, DefaultName(dir, n));
    var d :| d in ps && d.name == DefaultName(dir, n) && d.statements == f.value;
    var n' := SomeoneMade(cfg, o, d);
    NamedForDefault(cfg, o, n', d, n, dir);
  }

  lemma DefaultIsThere(cfg: Config, o: Orders, n: string, dir: Direction)
    requires Ready(cfg, o) && n in cfg.neighbors
    ensures DefaultPolicy(cfg, dir, n) in AllPolicies(cfg, o)
  {
    PieceMakes(cfg, o, n);
    PiecesMake(cfg, o, o.neighbors);
    assert DefaultPolicy(cfg, dir, n) in PieceFor(cfg, o, n).policies;
  }

  lemma NamedForDefault(cfg: Config, o: Orders, n': string, d: GoPolicy, n: string, dir: Direction)
    requires MadeFor(cfg, o, n', d) && d.name == DefaultName(dir, n)
    requires IsAddress(n') && n in cfg.neighbors
    ensures d == DefaultPolicy(cfg, dir, n)
  {
    if p' :| p' in cfg.policies && d == ConvertedPolicy(cfg, o, n', p') {
      DefaultNameIsNoPolicyName(dir, n, n', p');
    } else if d == DefaultPolicy(cfg, Import, n') {
      DefaultNameInjective(Import, n', dir, n);
    } else {
      DefaultNameInjective(Export, n', dir, n);
    }
  }

  // ---------------------------------------------------------------------
  // Evaluation
  // ---------------------------------------------------------------------

  lemma {:induction false} GoEvalConcat(m: Matchers, g: GoConfig, a: seq<string>, b: seq<string>, neighbor: string, route: BgpRoute)
    ensures GoEvalList(m, g, a + b, neighbor, route) ==
            match GoEvalList(m, g, a, neighbor, route)
            case Continue(r) => GoEvalList(m, g, b, neighbor, r)
            case final => final
    decreases |a|
  {
    if a == [] {
      assert a + b == b;
    } else {
      assert (a + b)[1..] == a[1..] + b;
      match FindPolicy(g.policies, a[0]) {
        case None => GoEvalConcat(m, g, a[1..], b, neighbor, route);
        case Some(ss) =>
          match GoEvalStatements(m, g, ss, neighbor, route) {
            case Continue(r) => GoEvalConcat(m, g, a[1..], b, neighbor, r);
            case Final(_, _) =>
          }
      }
    }
  }

  lemma {:induction false} EvalConcat(m: Matchers, cfg: Config, a: seq<string>, b: seq<string>, route: BgpRoute)
    ensures EvalPolicies(m, cfg, a + b, route) ==
            match EvalPolicies(m, cfg, a, route)
            case Continue(r) => EvalPolicies(m, cfg, b, r)
            case final => final
    decreases |a|
  {
    if a == [] {
      assert a + b == b;
    } else {
      assert (a + b)[1..] == a[1..] + b;
      if a[0] !in cfg.policies {
        EvalConcat(m, cfg, a[1..], b, route);
      } else {
        match EvalStatements(m, cfg, cfg.policies[a[0]], route) {
          case Continue(r) => EvalConcat(m, cfg, a[1..], b, r);
          case Final(_, _) =>
        }
      }
    }
  }

  /** The names of `owner` lead to what they should. */
  ghost predicate LooksUp(cfg: Config, o: Orders, g: GoConfig, owner: string, names: seq<string>) {
    forall p :: p in names ==>
      FindPolicy(g.policies, ConvertPolicyName(owner, p)) == if p in cfg.policies then Some(ConvertedPolicy(cfg, o, owner, p).statements) else None
  }

  lemma OnePolicy(m: Matchers, cfg: Config, o: Orders, g: GoConfig, owner: string, p: string, neighbor: string, route: BgpRoute)
    requires Ready(cfg, o) && SetsOf(g, cfg, o) && owner in cfg.neighbors
    requires LooksUp(cfg, o, g, owner, [p])
    ensures GoEvalList(m, g, [ConvertPolicyName(owner, p)], neighbor, route) ==
            if neighbor == owner then EvalPolicies(m, cfg, [p], route) else Continue(route)
  {
    assert p in [p];
    assert [ConvertPolicyName(owner, p)][1..] == [] && [p][1..] == [];
    if p in cfg.policies {
      StatementsPreserved(m, cfg, o, g, owner, p, cfg.policies[p], neighbor, route);
    }
  }

  /** One more name, or none if the policy is missing and was seen before. */
  lemma OneMorePolicy(m: Matchers, cfg: Config, o: Orders, g: GoConfig, owner: string, front: seq<string>, p: string, applied: seq<string>,
                      neighbor: string, route: BgpRoute)
    requires Ready(cfg, o) && SetsOf(g, cfg, o) && owner in cfg.neighbors && LooksUp(cfg, o, g, owner, [p])
    requires GoEvalList(m, g, applied, neighbor, route) == if neighbor == owner then EvalPolicies(m, cfg, front, route) else Continue(route)
    ensures var after := if neighbor == owner then EvalPolicies(m, cfg, front + [p], route) else Continue(route);
            && GoEvalList(m, g, applied + [ConvertPolicyName(owner, p)], neighbor, route) == after
            && (p !in cfg.policies ==> GoEvalList(m, g, applied, neighbor, route) == after)
  {
    EvalConcat(m, cfg, front, [p], route);
    GoEvalConcat(m, g, applied, [ConvertPolicyName(owner, p)], neighbor, route);
    var r := GoEvalList(m, g, applied, neighbor, route);
    if r.Continue? {
      OnePolicy(m, cfg, o, g, owner, p, neighbor, r.route);
      assert p !in cfg.policies ==> EvalPolicies(m, cfg, [p], r.route) == Continue(r.route) by {
        assert [p][1..] == [];
      }
    }
  }

  lemma LooksUpParts(cfg: Config, o: Orders, g: GoConfig, owner: string, names: seq<string>)
    requires LooksUp(cfg, o, g, owner, names) && names != []
    ensures var k := |names| - 1;
            names == names[..k] + [names[k]] && LooksUp(cfg, o, g, owner, names[..k]) && LooksUp(cfg, o, g, owner, [names[k]])
  {
  }

  lemma PopulatedLast(cfg: Config, o: Orders, owner: string, names: seq<string>, start: Progressed)
    requires names != []
    ensures var k := |names| - 1;
            var before, after := Populated(cfg, o, owner, names[..k], start).applied, Populated(cfg, o, owner, names, start).applied;
            after == before + [ConvertPolicyName(owner, names[k])] || (names[k] !in cfg.policies && after == before)
  {
  }

  /** The applied names of `owner` do for `owner` what the list says, and for anyone else nothing. */
  lemma {:induction false} AppliedPreserved(m: Matchers, cfg: Config, o: Orders, g: GoConfig, owner: string, names: seq<string>, start: Progressed,
                                            neighbor: string, route: BgpRoute)
    requires Ready(cfg, o) && SetsOf(g, cfg, o) && owner in cfg.neighbors
    requires LooksUp(cfg, o, g, owner, names) && start.applied == []
    ensures GoEvalList(m, g, Populated(cfg, o, owner, names, start).applied, neighbor, route) ==
            if neighbor == owner then EvalPolicies(m, cfg, names, route) else Continue(route)
  {
    if names != [] {
      var k := |names| - 1;
      var front, p := names[..k], names[k];
      LooksUpParts(cfg, o, g, owner, names);
      PopulatedLast(cfg, o, owner, names, start);
      AppliedPreserved(m, cfg, o, g, owner, front, start, neighbor, route);
      OneMorePolicy(m, cfg, o, g, owner, front, p, Populated(cfg, o, owner, front, start).applied, neighbor, route);
    }
  }

  function ListOf(p: Piece, d: Direction): seq<string> {
    if d.Import? then p.imports else p.exports
  }

  /** One neighbor's part of the global list decides for that neighbor, and for nobody else. */
  lemma PiecePreserved(m: Matchers, cfg: Config, o: Orders, owner: string, d: Direction, neighbor: string, route: BgpRoute)
    requires Ready(cfg, o) && owner in cfg.neighbors
    ensures GoEvalList(m, Translate(cfg, o), ListOf(PieceFor(cfg, o, owner), d), neighbor, route) ==
            if neighbor == owner then EvalNeighbor(m, cfg, owner, d, route) else Continue(route)
  {
    var g := Translate(cfg, o);
    var names := PolicyNames(cfg.neighbors[owner], d);
    forall p | p in names
      ensures FindPolicy(g.policies, ConvertPolicyName(owner, p)) == if p in cfg.policies then Some(ConvertedPolicy(cfg, o, owner, p).statements) else None
    {
      LookupPolicy(cfg, o, owner, p);
    }
    var start := Progressed([], [], if d.Import? then {} else Part(cfg, o, owner, Import).seen);
    AppliedPreserved(m, cfg, o, g, owner, names, start, neighbor, route);
    var applied := Populated(cfg, o, owner, names, start).applied;
    assert ListOf(PieceFor(cfg, o, owner), d) == applied + [DefaultName(d, owner)];
    LookupDefault(cfg, o, owner, d);
    DefaultComesLast(m, cfg, o, g, owner, d, applied, neighbor, route);
  }

  lemma DefaultComesLast(m: Matchers, cfg: Config, o: Orders, g: GoConfig, owner: string, d: Direction, applied: seq<string>, neighbor: string, route: BgpRoute)
    requires Ready(cfg, o) && SetsOf(g, cfg, o) && owner in cfg.neighbors
    requires FindPolicy(g.policies, DefaultName(d, owner)) == Some(DefaultPolicy(cfg, d, owner).statements)
    requires GoEvalList(m, g, applied, neighbor, route) ==
             if neighbor == owner then EvalPolicies(m, cfg, PolicyNames(cfg.neighbors[owner], d), route) else Continue(route)
    ensures GoEvalList(m, g, applied + [DefaultName(d, owner)], neighbor, route) ==
            if neighbor == owner then EvalNeighbor(m, cfg, owner, d, route) else Continue(route)
  {
    GoEvalConcat(m, g, applied, [DefaultName(d, owner)], neighbor, route);
    assert [DefaultName(d, owner)][1..] == [];
    var r := GoEvalList(m, g, applied, neighbor, route);
    if r.Continue? {
      DefaultDecides(m, cfg, o, g, d, owner, neighbor, r.route);
    }
  }

  lemma ListsAppend(cfg: Config, o: Orders, ns: seq<string>, d: Direction)
    requires ns != [] && forall n :: n in ns ==> n in cfg.neighbors
    ensures ListOf(PiecesFor(cfg, o, ns), d) ==
            ListOf(PiecesFor(cfg, o, ns[..|ns| - 1]), d) + ListOf(PieceFor(cfg, o, ns[|ns| - 1]), d)
  {
  }

  lemma NextList(m: Matchers, g: GoConfig, before: seq<string>, here: seq<string>, neighbor: string, route: BgpRoute, final: Progress, earlier: bool, now: bool)
    requires final.Final?
    requires GoEvalList(m, g, before, neighbor, route) == if earlier then final else Continue(route)
    requires GoEvalList(m, g, here, neighbor, route) == if now then final else Continue(route)
    ensures GoEvalList(m, g, before + here, neighbor, route) == if earlier || now then final else Continue(route)
  {
    GoEvalConcat(m, g, before, here, neighbor, route);
  }

  lemma LastOrEarlier(ns: seq<string>, x: string)
    requires ns != []
    ensures x in ns <==> x in ns[..|ns| - 1] || x == ns[|ns| - 1]
  {
    assert ns == ns[..|ns| - 1] + [ns[|ns| - 1]];
  }

  lemma {:induction false} ListPreservedUpTo(m: Matchers, cfg: Config, o: Orders, g: GoConfig, ns: seq<string>, d: Direction, neighbor: string, route: BgpRoute)
    requires Ready(cfg, o) && neighbor in cfg.neighbors && g == Translate(cfg, o)
    requires forall n :: n in ns ==> n in cfg.neighbors
    ensures GoEvalList(m, g, ListOf(PiecesFor(cfg, o, ns), d), neighbor, route) ==
            if neighbor in ns then EvalNeighbor(m, cfg, neighbor, d, route) else Continue(route)
    decreases |ns|
  {
    if ns != [] {
      var earlier, owner := ns[..|ns| - 1], ns[|ns| - 1];
      ListPreservedUpTo(m, cfg, o, g, earlier, d, neighbor, route);
      OneMorePiece(m, cfg, o, g, ns, d, neighbor, route);
    }
  }

  lemma OneMorePiece(m: Matchers, cfg: Config, o: Orders, g: GoConfig, ns: seq<string>, d: Direction, neighbor: string, route: BgpRoute)
    requires Ready(cfg, o) && neighbor in cfg.neighbors && g == Translate(cfg, o) && ns != []
    requires forall n :: n in ns ==> n in cfg.neighbors
    requires GoEvalList(m, g, ListOf(PiecesFor(cfg, o, ns[..|ns| - 1]), d), neighbor, route) ==
             if neighbor in ns[..|ns| - 1] then EvalNeighbor(m, cfg, neighbor, d, route) else Continue(route)
    ensures GoEvalList(m, g, ListOf(PiecesFor(cfg, o, ns), d), neighbor, route) ==
            if neighbor in ns then EvalNeighbor(m, cfg, neighbor, d, route) else Continue(route)
  {
    var earlier, owner := ns[..|ns| - 1], ns[|ns| - 1];
    ListsAppend(cfg, o, ns, d);
    LastOrEarlier(ns, neighbor);
    PiecePreserved(m, cfg, o, owner, d, neighbor, route);
    NextList(m, g, ListOf(PiecesFor(cfg, o, earlier), d), ListOf(PieceFor(cfg, o, owner), d), neighbor, route,
             EvalNeighbor(m, cfg, neighbor, d, route), neighbor in earlier, neighbor == owner);
  }

  // ---------------------------------------------------------------------
  // Dangling names
  // ---------------------------------------------------------------------

  /** Both lists of a neighbor, in the order in which they are visited. */
  function BothLists(a: ApplyPolicy): seq<string> {
    a.importPolicy + a.exportPolicy
  }

  /** A neighbor refers twice to a policy that does not exist. */
  ghost predicate MissingTwice(cfg: Config, n: string) {
    n in cfg.neighbors &&
    exists i, j :: 0 <= i < j < |BothLists(cfg.neighbors[n])| && Twice(cfg, BothLists(cfg.neighbors[n]), i, j)
  }

  ghost predicate Twice(cfg: Config, names: seq<string>, i: nat, j: nat)
    requires i < |names| && j < |names|
  {
    names[i] == names[j] && names[i] !in cfg.policies
  }

  /** The policy at `j` was seen before it, in this list or an earlier one. */
  ghost predicate SeenBefore(names: seq<string>, start: Progressed, j: nat)
    requires j < |names|
  {
    names[j] in start.seen || exists i :: 0 <= i < j && names[i] == names[j]
  }

  /** A name is applied exactly where its policy exists or has been seen before. */
  lemma {:induction false} AppliedExactly(cfg: Config, o: Orders, n: string, names: seq<string>, start: Progressed)
    requires start.applied == []
    ensures forall name :: name in Populated(cfg, o, n, names, start).applied <==>
              exists j :: 0 <= j < |names| && name == ConvertPolicyName(n, names[j]) && (names[j] in cfg.policies || SeenBefore(names, start, j))
  {
    if names != [] {
      var k := |names| - 1;
      var front, p := names[..k], names[k];
      AppliedExactly(cfg, o, n, front, start);
      PopulateMakes(cfg, o, n, front, start);
      var c := Populated(cfg, o, n, front, start);
      assert p in c.seen <==> SeenBefore(names, start, k) by {
        assert p in front <==> exists i :: 0 <= i < k && names[i] == p;
      }
      assert forall j :: 0 <= j < k ==> (SeenBefore(front, start, j) <==> SeenBefore(names, start, j));
      forall name ensures name in Populated(cfg, o, n, names, start).applied <==>
                exists j :: 0 <= j < |names| && name == ConvertPolicyName(n, names[j]) && (names[j] in cfg.policies || SeenBefore(names, start, j)) {
        if name in c.applied {
          var j :| 0 <= j < |front| && name == ConvertPolicyName(n, front[j]) && (front[j] in cfg.policies || SeenBefore(front, start, j));
          assert names[j] == front[j];
        }
      }
    }
  }

  lemma AppliedName(cfg: Config, o: Orders, n: string, d: Direction, j: nat)
    requires n in cfg.neighbors && j < |PolicyNames(cfg.neighbors[n], d)|
    requires var names := PolicyNames(cfg.neighbors[n], d);
             names[j] in cfg.policies || SeenBefore(names, PartStart(cfg, o, n, d), j)
    ensures ConvertPolicyName(n, PolicyNames(cfg.neighbors[n], d)[j]) in ListOf(PieceFor(cfg, o, n), d)
  {
    var names := PolicyNames(cfg.neighbors[n], d);
    AppliedExactly(cfg, o, n, names, PartStart(cfg, o, n, d));
    var applied := Populated(cfg, o, n, names, PartStart(cfg, o, n, d)).applied;
    assert ConvertPolicyName(n, names[j]) in applied;
    assert ListOf(PieceFor(cfg, o, n), d) == applied + [DefaultName(d, n)];
  }

  function PartStart(cfg: Config, o: Orders, n: string, d: Direction): Progressed
    requires n in cfg.neighbors
  {
    Progressed([], [], if d.Import? then {} else Part(cfg, o, n, Import).seen)
  }

  lemma {:induction false} ListsContainPieces(cfg: Config, o: Orders, neighbors: seq<string>, d: Direction, name: string)
    requires forall n :: n in neighbors ==> n in cfg.neighbors
    ensures name in ListOf(PiecesFor(cfg, o, neighbors), d) <==> exists n :: n in neighbors && name in ListOf(PieceFor(cfg, o, n), d)
  {
    if neighbors != [] {
      var k := |neighbors| - 1;
      ListsContainPieces(cfg, o, neighbors[..k], d, name);
      ListsAppend(cfg, o, neighbors, d);
      OneOfThePieces(cfg, o, neighbors, d, name);
    }
  }

  lemma OneOfThePieces(cfg: Config, o: Orders, neighbors: seq<string>, d: Direction, name: string)
    requires neighbors != [] && forall n :: n in neighbors ==> n in cfg.neighbors
    ensures (exists n :: n in neighbors && name in ListOf(PieceFor(cfg, o, n), d)) <==>
            || name in ListOf(PieceFor(cfg, o, neighbors[|neighbors| - 1]), d)
            || exists n :: n in neighbors[..|neighbors| - 1] && name in ListOf(PieceFor(cfg, o, n), d)
  {
    assert forall n :: n in neighbors <==> n in neighbors[..|neighbors| - 1] || n == neighbors[|neighbors| - 1];
  }

  lemma ImportSeen(cfg: Config, o: Orders, n: string, p: string)
    requires n in cfg.neighbors
    ensures p in Part(cfg, o, n, Import).seen <==> p in cfg.neighbors[n].importPolicy
  {
    PopulateMakes(cfg, o, n, cfg.neighbors[n].importPolicy, Progressed([], [], {}));
  }

  /** Where the second of two references comes, the first has been seen. */
  lemma SecondIsSeen(cfg: Config, o: Orders, n: string, i: nat, j: nat) returns (d: Direction, jj: nat)
    requires Ready(cfg, o) && n in cfg.neighbors && i < j < |BothLists(cfg.neighbors[n])|
    requires BothLists(cfg.neighbors[n])[i] == BothLists(cfg.neighbors[n])[j]
    ensures var names := PolicyNames(cfg.neighbors[n], d);
            jj < |names| && names[jj] == BothLists(cfg.neighbors[n])[j] && SeenBefore(names, PartStart(cfg, o, n, d), jj)
  {
    var a := cfg.neighbors[n];
    var p := BothLists(a)[j];
    ImportSeen(cfg, o, n, p);
    if j < |a.importPolicy| {
      d, jj := Import, j;
      assert PolicyNames(a, d)[i] == p;
    } else {
      d, jj := Export, j - |a.importPolicy|;
      if i < |a.importPolicy| {
        assert a.importPolicy[i] == p;
      } else {
        assert PolicyNames(a, d)[i - |a.importPolicy|] == p;
      }
    }
  }

  /** A policy missing twice leaves a name without a definition. */
  lemma MissingTwiceDangles(cfg: Config, o: Orders, n: string)
    requires Ready(cfg, o) && MissingTwice(cfg, n)
    ensures !AllDefined(Translate(cfg, o))
  {
    var i: nat, j: nat :| 0 <= i < j < |BothLists(cfg.neighbors[n])| && Twice(cfg, BothLists(cfg.neighbors[n]), i, j);
    var p := BothLists(cfg.neighbors[n])[j];
    var d, jj := SecondIsSeen(cfg, o, n, i, j);
    AppliedName(cfg, o, n, d, jj);
    var name := ConvertPolicyName(n, p);
    ListsContainPieces(cfg, o, o.neighbors, d, name);
    assert name in GoList(Translate(cfg, o), d);
    LookupPolicy(cfg, o, n, p);
  }

  /** Otherwise every name of the lists is defined. */
  lemma NothingDangles(cfg: Config, o: Orders, d: Direction, name: string)
    requires Ready(cfg, o) && forall n :: !MissingTwice(cfg, n)
    requires name in ListOf(PiecesFor(cfg, o, o.neighbors), d)
    ensures FindPolicy(Translate(cfg, o).policies, name).Some?
  {
    ListsContainPieces(cfg, o, o.neighbors, d, name);
    var n :| n in o.neighbors && name in ListOf(PieceFor(cfg, o, n), d);
    if name == DefaultName(d, n) {
      LookupDefault(cfg, o, n, d);
    } else {
      var p := AppliedPolicy(cfg, o, n, d, name);
      LookupPolicy(cfg, o, n, p);
    }
  }

  lemma AppliedPolicy(cfg: Config, o: Orders, n: string, d: Direction, name: string) returns (p: string)
    requires n in cfg.neighbors && !MissingTwice(cfg, n)
    requires name in ListOf(PieceFor(cfg, o, n), d) && name != DefaultName(d, n)
    ensures name == ConvertPolicyName(n, p) && p in cfg.policies && p in PolicyNames(cfg.neighbors[n], d)
  {
    var names, start := PolicyNames(cfg.neighbors[n], d), PartStart(cfg, o, n, d);
    var applied := Populated(cfg, o, n, names, start).applied;
    assert ListOf(PieceFor(cfg, o, n), d) == applied + [DefaultName(d, n)];
    AppliedExactly(cfg, o, n, names, start);
    var j :| 0 <= j < |names| && name == ConvertPolicyName(n, names[j]) && (names[j] in cfg.policies || SeenBefore(names, start, j));
    p := names[j];
    if p !in cfg.policies {
      SeenMeansTwice(cfg, o, n, d, j);
    }
  }

  lemma SeenMeansTwice(cfg: Config, o: Orders, n: string, d: Direction, j: nat)
    requires n in cfg.neighbors && j < |PolicyNames(cfg.neighbors[n], d)|
    requires PolicyNames(cfg.neighbors[n], d)[j] !in cfg.policies
    requires SeenBefore(PolicyNames(cfg.neighbors[n], d), PartStart(cfg, o, n, d), j)
    ensures MissingTwice(cfg, n)
  {
    var a := cfg.neighbors[n];
    var names := PolicyNames(a, d);
    var both, shift := BothLists(a), if d.Import? then 0 else |a.importPolicy|;
    assert both[shift + j] == names[j];
    ImportSeen(cfg, o, n, names[j]);
    if i :| 0 <= i < j && names[i] == names[j] {
      assert both[shift + i] == names[i];
      assert Twice(cfg, both, shift + i, shift + j);
    } else {
      var i :| 0 <= i < |a.importPolicy| && a.importPolicy[i] == names[j];
      assert both[i] == names[j];
      assert Twice(cfg, both, i, shift + j);
    }
  }

  /** Every applied name of the translation is defined exactly when no neighbor refers twice to a missing policy. */
  lemma DefinedExactlyWhen(cfg: Config, o: Orders)
    requires Sound(cfg) && OrdersOf(o, cfg)
    ensures AllDefined(Translate(cfg, o)) <==> forall n :: !MissingTwice(cfg, n)
  {
    IndexMapIndexes(cfg, o);
    if n :| MissingTwice(cfg, n) {
      MissingTwiceDangles(cfg, o, n);
    } else {
      var g := Translate(cfg, o);
      forall name | name in g.importPolicy || name in g.exportPolicy ensures FindPolicy(g.policies, name).Some? {
        NothingDangles(cfg, o, if name in g.importPolicy then Import else Export, name);
      }
    }
  }

  /** For every neighbor, direction and route the global list decides as the neighbor's own policies and default do. */
  lemma WholeListPreserved(m: Matchers, cfg: Config, o: Orders, neighbor: string, d: Direction, route: BgpRoute)
    requires Sound(cfg) && OrdersOf(o, cfg) && neighbor in cfg.neighbors
    ensures var g := Translate(cfg, o);
            GoEvalList(m, g, GoList(g, d), neighbor, route) == EvalNeighbor(m, cfg, neighbor, d, route)
  {
    IndexMapIndexes(cfg, o);
    ListPreservedUpTo(m, cfg, o, Translate(cfg, o), o.neighbors, d, neighbor, route);
  }
}
