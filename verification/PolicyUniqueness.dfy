/** GoBGP asks for globally unique names of policies and statements. */
module PolicyUniqueness {
  import opened Wrappers
  import opened PolicyModel
  import opened PolicyTranslation
  import opened PolicyPreservation
  import opened PolicyTheorem

  ghost predicate Apart(a: seq<GoPolicy>, b: seq<GoPolicy>) {
    forall x, y :: x in a && y in b ==> x.name != y.name
  }

  lemma DistinctConcat(a: seq<GoPolicy>, b: seq<GoPolicy>)
    requires DistinctNames(a) && DistinctNames(b) && Apart(a, b)
    ensures DistinctNames(a + b)
  {
    var ps := a + b;
    forall i, j | 0 <= i < j < |ps| ensures ps[i].name != ps[j].name {
      if i < |a| && j >= |a| {
        assert ps[i] in a && ps[j] in b;
      }
    }
  }

  /** A definition made from a policy that was new to this list. */
  ghost predicate NewIn(cfg: Config, o: Orders, n: string, start: Progressed, names: seq<string>, d: GoPolicy) {
    exists p :: p in cfg.policies && p in names && p !in start.seen && d == ConvertedPolicy(cfg, o, n, p)
  }

  lemma {:induction false} PopulateDistinct(cfg: Config, o: Orders, n: string, names: seq<string>, start: Progressed)
    requires start.policies == [] && IsAddress(n)
    ensures var c := Populated(cfg, o, n, names, start);
            && DistinctNames(c.policies)
            && forall d :: d in c.policies ==> NewIn(cfg, o, n, start, names, d)
  {
    if names != [] {
      var k := |names| - 1;
      PopulateDistinct(cfg, o, n, names[..k], start);
      PopulateMakes(cfg, o, n, names[..k], start);
      var c := Populated(cfg, o, n, names[..k], start);
      var p := names[k];
      assert forall x :: x in names <==> x in names[..k] || x == p;
      forall d | d in c.policies ensures NewIn(cfg, o, n, start, names, d) {
        assert NewIn(cfg, o, n, start, names[..k], d);
      }
      if p !in c.seen && p in cfg.policies {
        var last := ConvertedPolicy(cfg, o, n, p);
        forall x, y | x in c.policies && y in [last] ensures x.name != y.name {
          var p' :| p' in cfg.policies && p' in names[..k] && p' !in start.seen && x == ConvertedPolicy(cfg, o, n, p');
          if x.name == y.name {
            PolicyNameInjective(n, p', n, p);
          }
        }
        DistinctConcat(c.policies, [last]);
      }
    }
  }

  /** The neighbor applies the policy, and it exists. */
  ghost predicate AppliedBy(cfg: Config, n: string, p: string) {
    && n in cfg.neighbors && p in cfg.policies
    && (p in cfg.neighbors[n].importPolicy || p in cfg.neighbors[n].exportPolicy)
  }

  lemma PartsApart(cfg: Config, o: Orders, n: string)
    requires n in cfg.neighbors && IsAddress(n)
    ensures DistinctNames(Part(cfg, o, n, Import).policies + Part(cfg, o, n, Export).policies)
    ensures forall d :: d in Part(cfg, o, n, Import).policies + Part(cfg, o, n, Export).policies ==>
              exists p :: AppliedBy(cfg, n, p) && d == ConvertedPolicy(cfg, o, n, p)
  {
    var i, e := Part(cfg, o, n, Import), Part(cfg, o, n, Export);
    var a := cfg.neighbors[n];
    PopulateDistinct(cfg, o, n, a.importPolicy, Progressed([], [], {}));
    PopulateDistinct(cfg, o, n, a.exportPolicy, Progressed([], [], i.seen));
    PopulateMakes(cfg, o, n, a.importPolicy, Progressed([], [], {}));
    forall x, y | x in i.policies && y in e.policies ensures x.name != y.name {
      assert NewIn(cfg, o, n, Progressed([], [], {}), a.importPolicy, x);
      assert NewIn(cfg, o, n, Progressed([], [], i.seen), a.exportPolicy, y);
      var p :| p in cfg.policies && p in a.importPolicy && x == ConvertedPolicy(cfg, o, n, p);
      var q :| q in cfg.policies && q !in i.seen && y == ConvertedPolicy(cfg, o, n, q);
      if x.name == y.name {
        PolicyNameInjective(n, p, n, q);
      }
    }
    DistinctConcat(i.policies, e.policies);
    forall d | d in i.policies + e.policies ensures exists p :: AppliedBy(cfg, n, p) && d == ConvertedPolicy(cfg, o, n, p) {
      if d in i.policies {
        assert NewIn(cfg, o, n, Progressed([], [], {}), a.importPolicy, d);
        var p :| p in cfg.policies && p in a.importPolicy && d == ConvertedPolicy(cfg, o, n, p);
        assert AppliedBy(cfg, n, p);
      } else {
        assert NewIn(cfg, o, n, Progressed([], [], i.seen), a.exportPolicy, d);
        var p :| p in cfg.policies && p in a.exportPolicy && d == ConvertedPolicy(cfg, o, n, p);
        assert AppliedBy(cfg, n, p);
      }
    }
  }

  lemma PieceDistinct(cfg: Config, o: Orders, n: string)
    requires n in cfg.neighbors && IsAddress(n)
    ensures DistinctNames(PieceFor(cfg, o, n).policies)
  {
    PartsApart(cfg, o, n);
    var parts := Part(cfg, o, n, Import).policies + Part(cfg, o, n, Export).policies;
    var defaults := [DefaultPolicy(cfg, Import, n), DefaultPolicy(cfg, Export, n)];
    assert DefaultName(Import, n) != DefaultName(Export, n) by {
      if DefaultName(Import, n) == DefaultName(Export, n) {
        DefaultNameInjective(Import, n, Export, n);
      }
    }
    forall x, y | x in parts && y in defaults ensures x.name != y.name {
      var p :| AppliedBy(cfg, n, p) && x == ConvertedPolicy(cfg, o, n, p);
      DefaultNameIsNoPolicyName(Import, n, n, p);
      DefaultNameIsNoPolicyName(Export, n, n, p);
    }
    DistinctConcat(parts, defaults);
    assert PieceFor(cfg, o, n).policies == parts + defaults;
  }

  /** Definitions made for different neighbors have different names. */
  lemma OwnersApart(cfg: Config, o: Orders, n: string, d: GoPolicy, n': string, d': GoPolicy)
    requires MadeFor(cfg, o, n, d) && MadeFor(cfg, o, n', d') && IsAddress(n) && IsAddress(n')
    requires d.name == d'.name
    ensures n == n'
  {
    if p :| p in cfg.policies && d == ConvertedPolicy(cfg, o, n, p) {
      if p' :| p' in cfg.policies && d' == ConvertedPolicy(cfg, o, n', p') {
        PolicyNameInjective(n, p, n', p');
      } else {
        DefaultNameIsNoPolicyName(Import, n', n, p);
        DefaultNameIsNoPolicyName(Export, n', n, p);
      }
    } else if p' :| p' in cfg.policies && d' == ConvertedPolicy(cfg, o, n', p') {
      DefaultNameIsNoPolicyName(Import, n, n', p');
      DefaultNameIsNoPolicyName(Export, n, n', p');
    } else {
      var a := if d == DefaultPolicy(cfg, Import, n) then Import else Export;
      var b := if d' == DefaultPolicy(cfg, Import, n') then Import else Export;
      DefaultNameInjective(a, n, b, n');
    }
  }

  /** One more neighbor brings only new names. */
  lemma NextPieceApart(cfg: Config, o: Orders, earlier: seq<string>, n: string)
    requires Ready(cfg, o) && n in cfg.neighbors && IsAddress(n) && n !in earlier
    requires forall x :: x in earlier ==> x in cfg.neighbors && IsAddress(x)
    ensures Apart(PiecesFor(cfg, o, earlier).policies, PieceFor(cfg, o, n).policies)
  {
    PieceMakes(cfg, o, n);
    PiecesMake(cfg, o, earlier);
    forall x, y | x in PiecesFor(cfg, o, earlier).policies && y in PieceFor(cfg, o, n).policies ensures x.name != y.name {
      var n' :| n' in earlier && MadeFor(cfg, o, n', x);
      if x.name == y.name {
        OwnersApart(cfg, o, n', x, n, y);
      }
    }
  }

  lemma PiecesStep(cfg: Config, o: Orders, k: nat)
    requires Ready(cfg, o) && 0 < k <= |o.neighbors|
    ensures forall n :: n in o.neighbors[..k] ==> n in cfg.neighbors && IsAddress(n)
    ensures o.neighbors[k - 1] in cfg.neighbors && IsAddress(o.neighbors[k - 1]) && o.neighbors[k - 1] !in o.neighbors[..k - 1]
    ensures PiecesFor(cfg, o, o.neighbors[..k]).policies == PiecesFor(cfg, o, o.neighbors[..k - 1]).policies + PieceFor(cfg, o, o.neighbors[k - 1]).policies
  {
    assert o.neighbors[..k][..k - 1] == o.neighbors[..k - 1];
    assert o.neighbors[k - 1] in o.neighbors;
  }

  lemma {:induction false} PiecesDistinct(cfg: Config, o: Orders, k: nat)
    requires Ready(cfg, o) && k <= |o.neighbors|
    ensures DistinctNames(PiecesFor(cfg, o, o.neighbors[..k]).policies)
  {
    if k > 0 {
      PiecesDistinct(cfg, o, k - 1);
      PiecesStep(cfg, o, k);
      NextDistinct(cfg, o, k);
    }
  }

  lemma NextDistinct(cfg: Config, o: Orders, k: nat)
    requires Ready(cfg, o) && 0 < k <= |o.neighbors| && forall n :: n in o.neighbors[..k] ==> n in cfg.neighbors && IsAddress(n)
    requires DistinctNames(PiecesFor(cfg, o, o.neighbors[..k - 1]).policies)
    requires o.neighbors[k - 1] in cfg.neighbors && IsAddress(o.neighbors[k - 1]) && o.neighbors[k - 1] !in o.neighbors[..k - 1]
    ensures DistinctNames(PiecesFor(cfg, o, o.neighbors[..k - 1]).policies + PieceFor(cfg, o, o.neighbors[k - 1]).policies)
  {
    var n, earlier := o.neighbors[k - 1], o.neighbors[..k - 1];
    PieceDistinct(cfg, o, n);
    NextPieceApart(cfg, o, earlier, n);
    DistinctConcat(PiecesFor(cfg, o, earlier).policies, PieceFor(cfg, o, n).policies);
  }

  /** No two policy definitions of the translated configuration share a name. */
  lemma PolicyNamesUnique(cfg: Config, o: Orders)
    requires Sound(cfg) && OrdersOf(o, cfg)
    ensures DistinctNames(Translate(cfg, o).policies)
  {
    IndexMapIndexes(cfg, o);
    PiecesDistinct(cfg, o, |o.neighbors|);
    assert o.neighbors[..|o.neighbors|] == o.neighbors;
  }

  // ---------------------------------------------------------------------
  // Statements
  // ---------------------------------------------------------------------

  function StatementName(n: string, p: string, s: string): string {
    ConvertPolicyName(n, p) + ":" + s
  }

  /** Two statements of one policy share their name. */
  ghost predicate Repeats(ss: seq<Statement>) {
    exists i, j :: 0 <= i < j < |ss| && ss[i].name == ss[j].name
  }

  /** The longer policy name takes over the beginning of the other's statement name, up to and including its colon. */
  ghost predicate Overlaps(p: string, ss: seq<Statement>, p': string, ss': seq<Statement>) {
    exists t, i, j :: p' == p + ":" + t && 0 <= i < |ss| && 0 <= j < |ss'| && ss[i].name == t + ":" + ss'[j].name
  }

  /** A neighbor applies a policy that repeats a statement name, or two policies whose names overlap. */
  ghost predicate Ambiguous(cfg: Config, n: string) {
    || (exists p :: AppliedBy(cfg, n, p) && Repeats(cfg.policies[p]))
    || (exists p, p' :: AppliedBy(cfg, n, p) && AppliedBy(cfg, n, p') && Overlaps(p, cfg.policies[p], p', cfg.policies[p']))
  }

  lemma StatementNameSplits(n: string, p: string, s: string, n': string, p': string, s': string)
    requires IsAddress(n) && IsAddress(n')
    requires StatementName(n, p, s) == StatementName(n', p', s')
    ensures n == n' && p + ":" + s == p' + ":" + s'
  {
    AddressHasNoBar(n);
    AddressHasNoBar(n');
    assert StatementName(n, p, s) == n + "|" + (p + ":" + s);
    assert StatementName(n', p', s') == n' + "|" + (p' + ":" + s');
    BarSplit(n, p + ":" + s, n', p' + ":" + s');
  }

  /** Two ways to read one text as policy, colon and statement: the longer policy continues the shorter one after its colon. */
  lemma ColonSplits(p: string, s: string, p': string, s': string) returns (t: string)
    requires p + ":" + s == p' + ":" + s' && |p| < |p'|
    ensures p' == p + ":" + t && s == t + ":" + s'
  {
    var x := p + ":" + s;
    assert x == p' + ":" + s';
    t := p'[|p| + 1..];
    assert p' == x[..|p'|];
    assert x[|p|] == ':' && x[..|p|] == p;
    assert p' == p'[..|p|] + [p'[|p|]] + t;
    assert p'[..|p|] == p && p'[|p|] == ':';
    assert s == x[|p| + 1..] && s' == x[|p'| + 1..] && x[|p'|] == ':';
    assert x[|p| + 1..] == x[|p| + 1..|p'|] + [x[|p'|]] + x[|p'| + 1..];
    assert x[|p| + 1..|p'|] == t;
  }

  lemma SameLengthSplits(p: string, s: string, p': string, s': string)
    requires p + ":" + s == p' + ":" + s' && |p| == |p'|
    ensures p == p' && s == s'
  {
    var x := p + ":" + s;
    assert p == x[..|p|] && p' == x[..|p|] && s == x[|p| + 1..] && s' == x[|p| + 1..];
  }

  /** Equal statement names of one neighbor come from one policy or from two that overlap. */
  lemma EqualNames(cfg: Config, n: string, p: string, i: nat, p': string, j: nat)
    requires AppliedBy(cfg, n, p) && AppliedBy(cfg, n, p') && i < |cfg.policies[p]| && j < |cfg.policies[p']|
    requires p + ":" + cfg.policies[p][i].name == p' + ":" + cfg.policies[p'][j].name
    requires !Ambiguous(cfg, n)
    ensures p == p' && i == j
  {
    var s, s' := cfg.policies[p][i].name, cfg.policies[p'][j].name;
    if |p| < |p'| {
      var t := ColonSplits(p, s, p', s');
      assert Overlaps(p, cfg.policies[p], p', cfg.policies[p']);
    } else if |p'| < |p| {
      var t := ColonSplits(p', s', p, s);
      assert Overlaps(p', cfg.policies[p'], p, cfg.policies[p]);
    } else {
      SameLengthSplits(p, s, p', s');
      assert !Repeats(cfg.policies[p]);
    }
  }

  // ---------------------------------------------------------------------
  // Where the statements of a translation come from
  // ---------------------------------------------------------------------

  ghost predicate Source(cfg: Config, o: Orders, n: string, d: GoPolicy) {
    || (exists p :: AppliedBy(cfg, n, p) && d == ConvertedPolicy(cfg, o, n, p))
    || (n in cfg.neighbors && exists dir :: d == DefaultPolicy(cfg, dir, n))
  }

  lemma PieceSources(cfg: Config, o: Orders, n: string, d: GoPolicy)
    requires n in cfg.neighbors && IsAddress(n) && d in PieceFor(cfg, o, n).policies
    ensures Source(cfg, o, n, d)
  {
    PartsApart(cfg, o, n);
    var parts := Part(cfg, o, n, Import).policies + Part(cfg, o, n, Export).policies;
    assert PieceFor(cfg, o, n).policies == parts + [DefaultPolicy(cfg, Import, n), DefaultPolicy(cfg, Export, n)];
    assert d in parts || d == DefaultPolicy(cfg, Import, n) || d == DefaultPolicy(cfg, Export, n);
  }

  lemma {:induction false} PiecesSources(cfg: Config, o: Orders, ns: seq<string>, d: GoPolicy) returns (n: string)
    requires forall x :: x in ns ==> x in cfg.neighbors && IsAddress(x)
    requires d in PiecesFor(cfg, o, ns).policies
    ensures n in ns && Source(cfg, o, n, d)
    decreases |ns|
  {
    var k := |ns| - 1;
    assert PiecesFor(cfg, o, ns).policies == PiecesFor(cfg, o, ns[..k]).policies + PieceFor(cfg, o, ns[k]).policies;
    if d in PieceFor(cfg, o, ns[k]).policies {
      n := ns[k];
      PieceSources(cfg, o, n, d);
    } else {
      n := PiecesSources(cfg, o, ns[..k], d);
    }
  }

  /** A statement's name says whether it is a default's, and else for which neighbor, policy and statement it was made. */
  ghost predicate Named(cfg: Config, n: string, d: GoPolicy, j: nat, name: string) {
    || (exists p :: AppliedBy(cfg, n, p) && j < |cfg.policies[p]| && d.name == ConvertPolicyName(n, p) && name == StatementName(n, p, cfg.policies[p][j].name))
    || (j == 0 && name == d.name && exists dir :: d.name == DefaultName(dir, n))
  }

  lemma StatementIsNamed(cfg: Config, o: Orders, d: GoPolicy, j: nat) returns (n: string)
    requires Ready(cfg, o) && d in Translate(cfg, o).policies && j < |d.statements|
    ensures IsAddress(n) && Named(cfg, n, d, j, d.statements[j].name)
  {
    n := PiecesSources(cfg, o, o.neighbors, d);
    if p :| AppliedBy(cfg, n, p) && d == ConvertedPolicy(cfg, o, n, p) {
      assert d.statements[j].name == StatementName(n, p, cfg.policies[p][j].name);
    } else {
      var dir :| d == DefaultPolicy(cfg, dir, n);
      assert d.name == DefaultName(dir, n);
    }
  }

  lemma DefaultIsNoStatementName(dir: Direction, n': string, n: string, p: string, s: string)
    requires IsAddress(n) && IsAddress(n')
    ensures DefaultName(dir, n') != StatementName(n, p, s)
  {
    assert StatementName(n, p, s) == ConvertPolicyName(n, p + ":" + s) by {
      assert (n + "|" + p) + ":" + s == n + "|" + (p + ":" + s);
    }
    DefaultNameIsNoPolicyName(dir, n', n, p + ":" + s);
  }

  /** Without ambiguity a name determines the policy and the statement. */
  lemma NameDetermines(cfg: Config, n: string, d: GoPolicy, j: nat, n': string, d': GoPolicy, l: nat, name: string)
    requires IsAddress(n) && IsAddress(n') && forall x :: !Ambiguous(cfg, x)
    requires Named(cfg, n, d, j, name) && Named(cfg, n', d', l, name)
    ensures d.name == d'.name && j == l
  {
    if p :| AppliedBy(cfg, n, p) && j < |cfg.policies[p]| && d.name == ConvertPolicyName(n, p) && name == StatementName(n, p, cfg.policies[p][j].name) {
      if p' :| AppliedBy(cfg, n', p') && l < |cfg.policies[p']| && d'.name == ConvertPolicyName(n', p') && name == StatementName(n', p', cfg.policies[p'][l].name) {
        StatementNameSplits(n, p, cfg.policies[p][j].name, n', p', cfg.policies[p'][l].name);
        EqualNames(cfg, n, p, j, p', l);
      } else {
        var dir :| d'.name == DefaultName(dir, n');
        DefaultIsNoStatementName(dir, n', n, p, cfg.policies[p][j].name);
      }
    } else {
      var dir :| d.name == DefaultName(dir, n);
      if p' :| AppliedBy(cfg, n', p') && l < |cfg.policies[p']| && d'.name == ConvertPolicyName(n', p') && name == StatementName(n', p', cfg.policies[p'][l].name) {
        DefaultIsNoStatementName(dir, n, n', p', cfg.policies[p'][l].name);
      }
    }
  }

  lemma UnambiguousIsDistinct(cfg: Config, o: Orders)
    requires Ready(cfg, o) && forall n :: !Ambiguous(cfg, n)
    ensures DistinctStatementNames(Translate(cfg, o).policies)
  {
    var ps := Translate(cfg, o).policies;
    PolicyNamesUnique(cfg, o);
    forall i, j, k, l | 0 <= i < |ps| && 0 <= j < |ps[i].statements| && 0 <= k < |ps| && 0 <= l < |ps[k].statements| &&
                        ps[i].statements[j].name == ps[k].statements[l].name
      ensures i == k && j == l
    {
      SameNameSamePolicy(cfg, o, ps[i], j, ps[k], l);
    }
  }

  lemma SameNameSamePolicy(cfg: Config, o: Orders, d: GoPolicy, j: nat, d': GoPolicy, l: nat)
    requires Ready(cfg, o) && forall n :: !Ambiguous(cfg, n)
    requires d in Translate(cfg, o).policies && j < |d.statements| && d' in Translate(cfg, o).policies && l < |d'.statements|
    requires d.statements[j].name == d'.statements[l].name
    ensures d.name == d'.name && j == l
  {
    var n := StatementIsNamed(cfg, o, d, j);
    var n' := StatementIsNamed(cfg, o, d', l);
    NameDetermines(cfg, n, d, j, n', d', l, d.statements[j].name);
  }

  lemma PolicyIsThere(cfg: Config, o: Orders, n: string, p: string) returns (i: nat)
    requires Ready(cfg, o) && AppliedBy(cfg, n, p)
    ensures i < |AllPolicies(cfg, o)| && AllPolicies(cfg, o)[i] == ConvertedPolicy(cfg, o, n, p)
  {
    PieceMakes(cfg, o, n);
    PiecesMake(cfg, o, o.neighbors);
    assert n in o.neighbors;
    assert ConvertedPolicy(cfg, o, n, p) in PieceFor(cfg, o, n).policies;
    i := IndexIn(AllPolicies(cfg, o), ConvertedPolicy(cfg, o, n, p));
  }

  lemma IndexIn(ps: seq<GoPolicy>, d: GoPolicy) returns (i: nat)
    requires d in ps
    ensures i < |ps| && ps[i] == d
  {
    i :| 0 <= i < |ps| && ps[i] == d;
  }

  lemma ConvertedName(cfg: Config, o: Orders, n: string, p: string, j: nat)
    requires p in cfg.policies && j < |cfg.policies[p]|
    ensures var d := ConvertedPolicy(cfg, o, n, p);
            d.name == ConvertPolicyName(n, p) && j < |d.statements| && d.statements[j].name == StatementName(n, p, cfg.policies[p][j].name)
  {
  }

  lemma OverlapText(n: string, p: string, t: string, s: string)
    ensures StatementName(n, p, t + ":" + s) == StatementName(n, p + ":" + t, s)
    ensures ConvertPolicyName(n, p) != ConvertPolicyName(n, p + ":" + t)
  {
    assert n + "|" + p + ":" + (t + ":" + s) == n + "|" + (p + ":" + t) + ":" + s;
    assert |ConvertPolicyName(n, p)| < |ConvertPolicyName(n, p + ":" + t)|;
  }

  lemma Collide(ps: seq<GoPolicy>, i: nat, j: nat, k: nat, l: nat)
    requires i < |ps| && j < |ps[i].statements| && k < |ps| && l < |ps[k].statements| && (i != k || j != l)
    requires ps[i].statements[j].name == ps[k].statements[l].name
    ensures !DistinctStatementNames(ps)
  {
  }

  /** Policies whose names overlap collide in the translation. */
  lemma OverlapCollides(cfg: Config, o: Orders, n: string, p: string, p': string)
    requires Ready(cfg, o) && AppliedBy(cfg, n, p) && AppliedBy(cfg, n, p')
    requires Overlaps(p, cfg.policies[p], p', cfg.policies[p'])
    ensures !DistinctStatementNames(AllPolicies(cfg, o))
  {
    var t, j, l :| p' == p + ":" + t && 0 <= j < |cfg.policies[p]| && 0 <= l < |cfg.policies[p']| && cfg.policies[p][j].name == t + ":" + cfg.policies[p'][l].name;
    var i := PolicyIsThere(cfg, o, n, p);
    var k := PolicyIsThere(cfg, o, n, p');
    ConvertedName(cfg, o, n, p, j);
    ConvertedName(cfg, o, n, p', l);
    OverlapText(n, p, t, cfg.policies[p'][l].name);
    Collide(AllPolicies(cfg, o), i, j, k, l);
  }

  lemma RepetitionCollides(cfg: Config, o: Orders, n: string, p: string)
    requires Ready(cfg, o) && AppliedBy(cfg, n, p) && Repeats(cfg.policies[p])
    ensures !DistinctStatementNames(AllPolicies(cfg, o))
  {
    var i := PolicyIsThere(cfg, o, n, p);
    var j, l :| 0 <= j < l < |cfg.policies[p]| && cfg.policies[p][j].name == cfg.policies[p][l].name;
    ConvertedName(cfg, o, n, p, j);
    ConvertedName(cfg, o, n, p, l);
    Collide(AllPolicies(cfg, o), i, j, i, l);
  }

  /** The statements of a translation have globally unique names exactly when no neighbor's applied policies repeat or overlap. */
  lemma StatementNamesUniqueExactlyWhen(cfg: Config, o: Orders)
    requires Sound(cfg) && OrdersOf(o, cfg)
    ensures DistinctStatementNames(Translate(cfg, o).policies) <==> forall n :: !Ambiguous(cfg, n)
  {
    IndexMapIndexes(cfg, o);
    assert Translate(cfg, o).policies == AllPolicies(cfg, o);
    if forall n :: !Ambiguous(cfg, n) {
      UnambiguousIsDistinct(cfg, o);
    } else {
      var n :| Ambiguous(cfg, n);
      AmbiguousCollides(cfg, o, n);
    }
  }

  lemma AmbiguousCollides(cfg: Config, o: Orders, n: string)
    requires Ready(cfg, o) && Ambiguous(cfg, n)
    ensures !DistinctStatementNames(AllPolicies(cfg, o))
  {
    if p :| AppliedBy(cfg, n, p) && Repeats(cfg.policies[p]) {
      RepetitionCollides(cfg, o, n, p);
    } else {
      var p, p' :| AppliedBy(cfg, n, p) && AppliedBy(cfg, n, p') && Overlaps(p, cfg.policies[p], p', cfg.policies[p']);
      OverlapCollides(cfg, o, n, p, p');
    }
  }

  /** In particular when no applied policy has a colon in its name. */
  lemma NoColonNoAmbiguity(cfg: Config, n: string)
    requires forall p :: AppliedBy(cfg, n, p) ==> ':' !in p && !Repeats(cfg.policies[p])
    ensures !Ambiguous(cfg, n)
  {
    forall p, p', t: string | AppliedBy(cfg, n, p') ensures p' != p + ":" + t {
      assert (p + ":" + t)[|p|] == ':';
    }
  }
}
