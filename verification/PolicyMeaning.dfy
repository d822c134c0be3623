/** What the translation of any configuration means, whether or not all its communities are handled. */
module PolicyMeaning {
  import opened Wrappers
  import opened PolicyModel
  import opened PolicyTranslation
  import opened PolicyPreservation
  import opened PolicyTheorem
  import opened PolicyUniqueness

  // ---------------------------------------------------------------------
  // The configuration as the translation reads it
  // ---------------------------------------------------------------------

  /** Every community is read as the text it is converted to, which is empty for a number and for GRACEFUL_SHUTDOWN. */
  function ReadCommunities(cs: seq<Community>): (r: seq<Community>)
    ensures |r| == |cs| && forall i :: 0 <= i < |r| ==> r[i] == CommunityText(ConvertCommunity(cs[i]))
  {
    seq(|cs|, i requires 0 <= i < |cs| => CommunityText(ConvertCommunity(cs[i])))
  }

  /** A prefix without a mask-length range is read as exact. */
  function ReadEntries(es: seq<PrefixEntry>): (r: seq<PrefixEntry>)
    ensures |r| == |es| && forall i :: 0 <= i < |r| ==> r[i] == if es[i].range == "" then es[i].(range := "exact") else es[i]
  {
    seq(|es|, i requires 0 <= i < |es| => if es[i].range == "" then es[i].(range := "exact") else es[i])
  }

  function ReadMethod(sc: SetCommunity): SetCommunity {
    match sc
    case Inline(cs) => Inline(ReadCommunities(cs))
    case Reference(_, _) => sc
    case NoMethod => sc
  }

  function ReadStatements(ss: seq<Statement>): (r: seq<Statement>)
    ensures |r| == |ss| && forall i :: 0 <= i < |r| ==> r[i] == ss[i].(setCommunity := ReadMethod(ss[i].setCommunity))
  {
    seq(|ss|, i requires 0 <= i < |ss| => ss[i].(setCommunity := ReadMethod(ss[i].setCommunity)))
  }

  function Read(cfg: Config): Config {
    Config(
      cfg.neighbors,
      map p | p in cfg.policies :: ReadStatements(cfg.policies[p]),
      map x | x in cfg.communitySets :: CommunitySet(ReadCommunities(cfg.communitySets[x].members), cfg.communitySets[x].option),
      map x | x in cfg.prefixSets :: ReadEntries(cfg.prefixSets[x]),
      cfg.asPathSets)
  }

  ghost predicate Addressed(cfg: Config) {
    forall n :: n in cfg.neighbors ==> IsAddress(n)
  }

  lemma ReadIsSound(cfg: Config)
    requires Addressed(cfg)
    ensures Sound(Read(cfg))
  {
    var r := Read(cfg);
    forall p, s | p in r.policies && s in r.policies[p] ensures StatementHandled(s) {
      var i :| 0 <= i < |r.policies[p]| && r.policies[p][i] == s;
    }
  }

  // ---------------------------------------------------------------------
  // It has the same translation
  // ---------------------------------------------------------------------

  lemma ConvertRead(cs: seq<Community>)
    ensures ConvertAll(ReadCommunities(cs)) == ConvertAll(cs)
  {
  }

  lemma CollectSame<T>(order: seq<string>, f: string -> seq<T>, g: string -> seq<T>)
    requires forall x :: f(x) == g(x)
    ensures Collect(order, f) == Collect(order, g)
  {
  }

  lemma SetsSame(cfg: Config, o: Orders)
    ensures CommunitySets(Read(cfg), o) == CommunitySets(cfg, o)
    ensures Collect(o.prefixSets, PrefixItems(Read(cfg))) == Collect(o.prefixSets, PrefixItems(cfg))
    ensures Collect(o.asPathSets, AsPathItems(Read(cfg))) == Collect(o.asPathSets, AsPathItems(cfg))
  {
    var r := Read(cfg);
    forall x ensures CommunityItems(r)(x) == CommunityItems(cfg)(x) {
      if x in cfg.communitySets {
        ConvertRead(cfg.communitySets[x].members);
      }
    }
    forall x ensures PrefixItems(r)(x) == PrefixItems(cfg)(x) {
      if x in cfg.prefixSets {
        assert ConvertEntries(r.prefixSets[x]) == ConvertEntries(cfg.prefixSets[x]);
      }
    }
    CollectSame(o.communitySets, CommunityItems(r), CommunityItems(cfg));
    CollectSame(o.prefixSets, PrefixItems(r), PrefixItems(cfg));
    CollectSame(o.asPathSets, AsPathItems(r), AsPathItems(cfg));
  }

  lemma StatementSame(cfg: Config, sets: seq<Named<string>>, index: map<string, nat>, n: string, p: string, s: Statement)
    requires IndexesInto(index, sets)
    ensures ConvertStatement(Read(cfg), sets, index, n, p, s.(setCommunity := ReadMethod(s.setCommunity))) == ConvertStatement(cfg, sets, index, n, p, s)
  {
    if s.setCommunity.Inline? {
      ConvertRead(s.setCommunity.communities);
    }
  }

  lemma PolicySame(cfg: Config, sets: seq<Named<string>>, index: map<string, nat>, n: string, p: string)
    requires IndexesInto(index, sets) && p in cfg.policies
    ensures ConvertPolicy(Read(cfg), sets, index, n, p) == ConvertPolicy(cfg, sets, index, n, p)
  {
    var ss := cfg.policies[p];
    var a, b := ConvertStatements(Read(cfg), sets, index, n, p, ReadStatements(ss)), ConvertStatements(cfg, sets, index, n, p, ss);
    forall i | 0 <= i < |ss| ensures a[i] == b[i] {
      StatementSame(cfg, sets, index, n, p, ss[i]);
    }
    assert a == b;
  }

  lemma {:induction false} PopulateSame(cfg: Config, sets: seq<Named<string>>, index: map<string, nat>, n: string, names: seq<string>, start: Progressed)
    requires IndexesInto(index, sets)
    ensures Populate(Read(cfg), sets, index, n, names, start) == Populate(cfg, sets, index, n, names, start)
    decreases |names|
  {
    if names != [] {
      var k := |names| - 1;
      PopulateSame(cfg, sets, index, n, names[..k], start);
      if names[k] in cfg.policies {
        PolicySame(cfg, sets, index, n, names[k]);
      }
    }
  }

  lemma PieceSame(cfg: Config, sets: seq<Named<string>>, index: map<string, nat>, n: string)
    requires IndexesInto(index, sets) && n in cfg.neighbors
    ensures NeighborPiece(Read(cfg), sets, index, n) == NeighborPiece(cfg, sets, index, n)
  {
    var a := cfg.neighbors[n];
    PopulateSame(cfg, sets, index, n, a.importPolicy, Progressed([], [], {}));
    PopulateSame(cfg, sets, index, n, a.exportPolicy, Progressed([], [], ImportPart(cfg, sets, index, n).seen));
  }

  lemma {:induction false} PiecesSame(cfg: Config, sets: seq<Named<string>>, index: map<string, nat>, ns: seq<string>)
    requires IndexesInto(index, sets) && forall n :: n in ns ==> n in cfg.neighbors
    ensures Pieces(Read(cfg), sets, index, ns) == Pieces(cfg, sets, index, ns)
    decreases |ns|
  {
    if ns != [] {
      var k := |ns| - 1;
      PiecesSame(cfg, sets, index, ns[..k]);
      PieceSame(cfg, sets, index, ns[k]);
    }
  }

  lemma TranslationSame(cfg: Config, o: Orders)
    requires OrdersOf(o, cfg)
    ensures OrdersOf(o, Read(cfg)) && Translate(Read(cfg), o) == Translate(cfg, o)
  {
    assert Read(cfg).policies.Keys == cfg.policies.Keys && Read(cfg).communitySets.Keys == cfg.communitySets.Keys;
    assert Read(cfg).prefixSets.Keys == cfg.prefixSets.Keys;
    IndexMapIndexes(cfg, o);
    SetsSame(cfg, o);
    PiecesSame(cfg, CommunitySets(cfg, o), IndexMap(o.communitySets), o.neighbors);
  }

  // ---------------------------------------------------------------------
  // Theorems for every configuration
  // ---------------------------------------------------------------------

  /** The two reasons for which GoBGP may refuse what is made of a neighbor. */
  ghost predicate Refused(cfg: Config, n: string) {
    MissingTwice(cfg, n) || Ambiguous(cfg, n)
  }

  lemma ReadMissing(cfg: Config, n: string)
    ensures MissingTwice(Read(cfg), n) <==> MissingTwice(cfg, n)
  {
    if n in cfg.neighbors {
      var names := BothLists(cfg.neighbors[n]);
      assert forall i, j :: 0 <= i < j < |names| ==> (Twice(Read(cfg), names, i, j) <==> Twice(cfg, names, i, j));
    }
  }

  lemma ReadAmbiguous(cfg: Config, n: string)
    ensures Ambiguous(Read(cfg), n) <==> Ambiguous(cfg, n)
  {
    var r := Read(cfg);
    forall p ensures AppliedBy(r, n, p) <==> AppliedBy(cfg, n, p) {
    }
    forall p | AppliedBy(cfg, n, p) ensures Repeats(r.policies[p]) <==> Repeats(cfg.policies[p]) {
      ReadRepeats(cfg.policies[p]);
    }
    forall p, p' | AppliedBy(cfg, n, p) && AppliedBy(cfg, n, p')
      ensures Overlaps(p, r.policies[p], p', r.policies[p']) <==> Overlaps(p, cfg.policies[p], p', cfg.policies[p'])
    {
      ReadOverlaps(p, cfg.policies[p], p', cfg.policies[p']);
    }
  }

  lemma ReadRepeats(ss: seq<Statement>)
    ensures Repeats(ReadStatements(ss)) <==> Repeats(ss)
  {
    var r := ReadStatements(ss);
    assert forall i :: 0 <= i < |ss| ==> r[i].name == ss[i].name;
  }

  lemma ReadOverlaps(p: string, ss: seq<Statement>, p': string, ss': seq<Statement>)
    ensures Overlaps(p, ReadStatements(ss), p', ReadStatements(ss')) <==> Overlaps(p, ss, p', ss')
  {
    var r, r' := ReadStatements(ss), ReadStatements(ss');
    assert forall i :: 0 <= i < |ss| ==> r[i].name == ss[i].name;
    assert forall i :: 0 <= i < |ss'| ==> r'[i].name == ss'[i].name;
  }

  /** GoBGP takes the translation exactly when no neighbor refers twice to a missing policy or applies policies whose statement names coincide. */
  lemma LoadableExactlyWhen(cfg: Config, o: Orders)
    requires Addressed(cfg) && OrdersOf(o, cfg)
    ensures Loadable(Translate(cfg, o)) <==> forall n :: !Refused(cfg, n)
  {
    var r := Read(cfg);
    ReadIsSound(cfg);
    TranslationSame(cfg, o);
    DefinedExactlyWhen(r, o);
    PolicyNamesUnique(r, o);
    StatementNamesUniqueExactlyWhen(r, o);
    SameReasons(cfg);
  }

  lemma SameReasons(cfg: Config)
    ensures (forall n :: !Refused(cfg, n)) <==> (forall n :: !MissingTwice(Read(cfg), n)) && (forall n :: !Ambiguous(Read(cfg), n))
  {
    forall n ensures Refused(cfg, n) <==> MissingTwice(Read(cfg), n) || Ambiguous(Read(cfg), n) {
      ReadMissing(cfg, n);
      ReadAmbiguous(cfg, n);
    }
    if forall n :: !Refused(cfg, n) {
      forall n ensures !MissingTwice(Read(cfg), n) && !Ambiguous(Read(cfg), n) {
        assert !Refused(cfg, n);
      }
    }
  }

  /**
   * What the translation of any configuration means: for every neighbor, direction and route, the
   * global list decides as the neighbor's own policies and default do, with every community read as
   * the text it is converted to; or else GoBGP refuses the whole, for one of the two reasons.
   */
  lemma TranslationMeans(m: Matchers, cfg: Config, o: Orders, neighbor: string, d: Direction, route: BgpRoute)
    requires Addressed(cfg) && OrdersOf(o, cfg) && neighbor in cfg.neighbors
    ensures GoEval(m, Translate(cfg, o), neighbor, d, route) ==
            if forall n :: !Refused(cfg, n) then Some(EvalNeighbor(m, Read(cfg), neighbor, d, route)) else None
  {
    ReadIsSound(cfg);
    TranslationSame(cfg, o);
    LoadableExactlyWhen(cfg, o);
    WholeListPreserved(m, Read(cfg), o, neighbor, d, route);
  }

  /** So meaning is preserved where all communities are handled and all prefixes have a range. */
  lemma TranslationPreservesMeaning(m: Matchers, cfg: Config, o: Orders, neighbor: string, d: Direction, route: BgpRoute)
    requires Sound(cfg) && OrdersOf(o, cfg) && neighbor in cfg.neighbors
    ensures GoEval(m, Translate(cfg, o), neighbor, d, route) ==
            if forall n :: !Refused(cfg, n) then Some(EvalNeighbor(m, cfg, neighbor, d, route)) else None
  {
    LoadableExactlyWhen(cfg, o);
    WholeListPreserved(m, cfg, o, neighbor, d, route);
  }

  // ---------------------------------------------------------------------
  // What becomes of the communities a statement names
  // ---------------------------------------------------------------------

  /** Where none of the policies a neighbor imports decides, GoBGP accepts the route exactly if the neighbor's default import policy does. */
  lemma ImportDefaultDecides(m: Matchers, cfg: Config, o: Orders, neighbor: string, route: BgpRoute)
    requires Addressed(cfg) && OrdersOf(o, cfg) && neighbor in cfg.neighbors && forall n :: !Refused(cfg, n)
    requires EvalPolicies(m, Read(cfg), cfg.neighbors[neighbor].importPolicy, route).Continue?
    ensures GoEval(m, Translate(cfg, o), neighbor, Import, route) ==
            Some(Final(if cfg.neighbors[neighbor].defaultImport == Some(AcceptRoute) then AcceptRoute else RejectRoute,
                       EvalPolicies(m, Read(cfg), cfg.neighbors[neighbor].importPolicy, route).route))
  {
    TranslationMeans(m, cfg, o, neighbor, Import, route);
  }

  /** The same for what is exported. */
  lemma ExportDefaultDecides(m: Matchers, cfg: Config, o: Orders, neighbor: string, route: BgpRoute)
    requires Addressed(cfg) && OrdersOf(o, cfg) && neighbor in cfg.neighbors && forall n :: !Refused(cfg, n)
    requires EvalPolicies(m, Read(cfg), cfg.neighbors[neighbor].exportPolicy, route).Continue?
    ensures GoEval(m, Translate(cfg, o), neighbor, Export, route) ==
            Some(Final(if cfg.neighbors[neighbor].defaultExport == Some(AcceptRoute) then AcceptRoute else RejectRoute,
                       EvalPolicies(m, Read(cfg), cfg.neighbors[neighbor].exportPolicy, route).route))
  {
    TranslationMeans(m, cfg, o, neighbor, Export, route);
  }

  /** The communities a statement names, in line or by reference to sets. */
  function NamedCommunities(cfg: Config, sc: SetCommunity): seq<Community> {
    match sc
    case NoMethod => []
    case Inline(cs) => cs
    case Reference(refs, ref) =>
      if refs != [] then (if forall r :: r in refs ==> r in cfg.communitySets then Members(cfg, refs) else [])
      else if ref != "" && ref in cfg.communitySets then cfg.communitySets[ref].members
      else []
  }

  function Members(cfg: Config, refs: seq<string>): seq<Community>
    requires forall r :: r in refs ==> r in cfg.communitySets
  {
    if refs == [] then [] else Members(cfg, refs[..|refs| - 1]) + cfg.communitySets[refs[|refs| - 1]].members
  }

  lemma ListsAppend(a: seq<Community>, b: seq<Community>)
    ensures Meanings(a + b) == Meanings(a) + Meanings(b) && ConvertAll(a + b) == ConvertAll(a) + ConvertAll(b)
  {
  }

  lemma {:induction false} ConcatIsMembers(cfg: Config, refs: seq<string>)
    requires forall r :: r in refs ==> r in cfg.communitySets
    ensures Concat(cfg, refs) == Meanings(Members(cfg, refs))
    ensures Concat(Read(cfg), refs) == ConvertAll(Members(cfg, refs))
    decreases |refs|
  {
    if refs != [] {
      var n := |refs| - 1;
      ConcatIsMembers(cfg, refs[..n]);
      var last := cfg.communitySets[refs[n]].members;
      ListsAppend(Members(cfg, refs[..n]), last);
      MeaningsOfRead(last);
      assert Read(cfg).communitySets[refs[n]].members == ReadCommunities(last);
    }
  }

  lemma MeaningsOfRead(cs: seq<Community>)
    ensures Meanings(ReadCommunities(cs)) == ConvertAll(cs)
  {
  }

  lemma ListedBoth(cfg: Config, sc: SetCommunity)
    ensures Listed(cfg, sc) == Meanings(NamedCommunities(cfg, sc))
    ensures Listed(Read(cfg), ReadMethod(sc)) == ConvertAll(NamedCommunities(cfg, sc))
  {
    match sc {
      case NoMethod =>
      case Inline(cs) => MeaningsOfRead(cs);
      case Reference(refs, ref) =>
        if refs != [] {
          if forall r :: r in refs ==> r in cfg.communitySets {
            ConcatIsMembers(cfg, refs);
          }
        } else if ref != "" && ref in cfg.communitySets {
          MeaningsOfRead(cfg.communitySets[ref].members);
        }
    }
  }

  /** Adding or replacing: the effect on the communities of a route is preserved exactly when every community named is handled. */
  lemma SettingPreservedExactlyWhen(m: Matchers, cfg: Config, sc: SetCommunity, option: SetOption, route: BgpRoute)
    requires option != RemoveCommunities
    ensures WithCommunities(m, route, Some(option), Listed(Read(cfg), ReadMethod(sc))) == WithCommunities(m, route, Some(option), Listed(cfg, sc)) <==>
            AllHandled(NamedCommunities(cfg, sc))
  {
    var cs := NamedCommunities(cfg, sc);
    ListedBoth(cfg, sc);
    ListPreservedExactlyWhen(cs);
    if option == AddCommunities {
      var x, y := route.communities + ConvertAll(cs), route.communities + Meanings(cs);
      assert x[|route.communities|..] == ConvertAll(cs) && y[|route.communities|..] == Meanings(cs);
    }
  }

  lemma ConvertedModifies(m: Matchers, cfg: Config, o: Orders, owner: string, policy: string, s: Statement, route: BgpRoute)
    requires Addressed(cfg) && OrdersOf(o, cfg)
    ensures GoModified(m, Converted(cfg, o, owner, policy, s), route) == Modified(m, Read(cfg), s.(setCommunity := ReadMethod(s.setCommunity)), route)
  {
    ReadIsSound(cfg);
    TranslationSame(cfg, o);
    SetsSame(cfg, o);
    IndexMapIndexes(cfg, o);
    StatementSame(cfg, CommunitySets(cfg, o), IndexMap(o.communitySets), owner, policy, s);
    StatementModifies(m, Read(cfg), o, owner, policy, s.(setCommunity := ReadMethod(s.setCommunity)), route);
  }

  /** So a converted statement that adds or replaces communities, in line or by reference, does to them what the original does exactly then. */
  lemma StatementPreservedExactlyWhen(m: Matchers, cfg: Config, o: Orders, owner: string, policy: string, s: Statement, route: BgpRoute)
    requires Addressed(cfg) && OrdersOf(o, cfg) && s.setOption.Some? && s.setOption != Some(RemoveCommunities)
    ensures GoModified(m, Converted(cfg, o, owner, policy, s), route).communities == Modified(m, cfg, s, route).communities <==>
            AllHandled(NamedCommunities(cfg, s.setCommunity))
  {
    ConvertedModifies(m, cfg, o, owner, policy, s, route);
    SettingPreservedExactlyWhen(m, cfg, s.setCommunity, s.setOption.value, route);
  }

  predicate SamePatterns(a: seq<string>, b: seq<string>) {
    (forall p :: p in a ==> p in b) && (forall p :: p in b ==> p in a)
  }

  lemma {:induction false} KeepSame(m: Matchers, cs: seq<string>, a: seq<string>, b: seq<string>)
    requires SamePatterns(a, b)
    ensures Keep(m, cs, a) == Keep(m, cs, b)
    decreases |cs|
  {
    if cs != [] {
      KeepSame(m, cs[1..], a, b);
    }
  }

  /** Only the one pattern matches, and only itself. */
  function Literal(pattern: string): Matchers {
    Matchers((p, r) => false, (p, l, r) => false, (p, c) => p == pattern && c == pattern, (p, a) => false)
  }

  lemma LiteralTells(p: string, a: seq<string>)
    ensures Keep(Literal(p), [p], a) == if p in a then [] else [p]
  {
    assert [p][1..] == [];
    assert Literal(p).community(p, p);
    assert p in a ==> exists q :: q in a && Literal(p).community(q, p);
  }

  ghost predicate RemoveAlike(a: seq<string>, b: seq<string>) {
    forall m: Matchers, cs: seq<string> :: Keep(m, cs, a) == Keep(m, cs, b)
  }

  lemma RemoveAlikeExactlyWhen(a: seq<string>, b: seq<string>)
    ensures RemoveAlike(a, b) <==> SamePatterns(a, b)
  {
    if SamePatterns(a, b) {
      forall m: Matchers, cs: seq<string> ensures Keep(m, cs, a) == Keep(m, cs, b) {
        KeepSame(m, cs, a, b);
      }
    }
    if RemoveAlike(a, b) {
      forall p ensures p in a <==> p in b {
        LiteralTells(p, a);
        LiteralTells(p, b);
      }
    }
  }

  predicate NamedHandled(cs: seq<Community>, meaning: string) {
    exists c :: c in cs && Handled(c) && CommunityMeaning(c) == meaning
  }

  /**
   * All are handled; or the empty text, which the others are converted to, is among the meanings, and each of the others
   * is also named by its text.
   */
  predicate Redundant(cs: seq<Community>) {
    AllHandled(cs) || (NamedHandled(cs, "") && forall c :: c in cs && !Handled(c) ==> NamedHandled(cs, CommunityMeaning(c)))
  }

  lemma ConvertedIn(cs: seq<Community>, p: string)
    ensures p in ConvertAll(cs) <==> exists c :: c in cs && ConvertCommunity(c) == p
  {
    if p in ConvertAll(cs) {
      var i :| 0 <= i < |cs| && ConvertAll(cs)[i] == p;
      assert cs[i] in cs;
    }
    if c :| c in cs && ConvertCommunity(c) == p {
      var i :| 0 <= i < |cs| && cs[i] == c;
      assert ConvertAll(cs)[i] == p;
    }
  }

  lemma MeantIn(cs: seq<Community>, p: string)
    ensures p in Meanings(cs) <==> exists c :: c in cs && CommunityMeaning(c) == p
  {
    if p in Meanings(cs) {
      var i :| 0 <= i < |cs| && Meanings(cs)[i] == p;
      assert cs[i] in cs;
    }
    if c :| c in cs && CommunityMeaning(c) == p {
      var i :| 0 <= i < |cs| && cs[i] == c;
      assert Meanings(cs)[i] == p;
    }
  }

  /** A handled community is converted to its meaning, the others, which mean something, to nothing. */
  lemma HandledOrEmpty(c: Community)
    ensures Handled(c) ==> ConvertCommunity(c) == CommunityMeaning(c)
    ensures !Handled(c) ==> ConvertCommunity(c) == "" != CommunityMeaning(c)
  {
    CommunityPreservedExactlyWhen(c);
  }

  lemma RedundantIsSame(cs: seq<Community>, p: string)
    requires Redundant(cs)
    ensures p in ConvertAll(cs) <==> p in Meanings(cs)
  {
    ConvertedIn(cs, p);
    MeantIn(cs, p);
    if c :| c in cs && ConvertCommunity(c) == p {
      HandledOrEmpty(c);
    }
    if c :| c in cs && CommunityMeaning(c) == p {
      HandledOrEmpty(c);
      if !Handled(c) {
        var c' :| c' in cs && Handled(c') && CommunityMeaning(c') == p;
        HandledOrEmpty(c');
      }
    }
  }

  lemma SameIsRedundant(cs: seq<Community>, c: Community)
    requires SamePatterns(ConvertAll(cs), Meanings(cs)) && c in cs && !Handled(c)
    ensures NamedHandled(cs, "") && NamedHandled(cs, CommunityMeaning(c))
  {
    HandledOrEmpty(c);
    ConvertedIn(cs, "");
    MeantIn(cs, "");
    var e :| e in cs && CommunityMeaning(e) == "";
    HandledOrEmpty(e);
    ConvertedIn(cs, CommunityMeaning(c));
    MeantIn(cs, CommunityMeaning(c));
    var c' :| c' in cs && ConvertCommunity(c') == CommunityMeaning(c);
    HandledOrEmpty(c');
  }

  lemma SamePatternsExactlyWhen(cs: seq<Community>)
    ensures SamePatterns(ConvertAll(cs), Meanings(cs)) <==> Redundant(cs)
  {
    if Redundant(cs) {
      forall p ensures p in ConvertAll(cs) <==> p in Meanings(cs) {
        RedundantIsSame(cs, p);
      }
    }
    if SamePatterns(ConvertAll(cs), Meanings(cs)) {
      forall c | c in cs && !Handled(c) ensures NamedHandled(cs, "") && NamedHandled(cs, CommunityMeaning(c)) {
        SameIsRedundant(cs, c);
      }
    }
  }

  /** Removing: preserved on all routes, however patterns match, exactly when unhandled communities are redundant. */
  lemma RemovingPreservedExactlyWhen(cfg: Config, sc: SetCommunity)
    ensures RemoveAlike(Listed(Read(cfg), ReadMethod(sc)), Listed(cfg, sc)) <==> Redundant(NamedCommunities(cfg, sc))
  {
    ListedBoth(cfg, sc);
    SamePatternsExactlyWhen(NamedCommunities(cfg, sc));
    RemoveAlikeExactlyWhen(Listed(Read(cfg), ReadMethod(sc)), Listed(cfg, sc));
  }

  /** Every pattern but one matches, and it matches everything. */
  function AllBut(pattern: string): Matchers {
    Matchers((p, r) => false, (p, l, r) => false, (p, c) => p != pattern, (p, a) => false)
  }

  function Carrying(cs: seq<string>): BgpRoute {
    BgpRoute("", cs, [], false, 0, 0)
  }

  /** The pattern matches one of the communities of the route. */
  predicate Hits(m: Matchers, p: string, route: BgpRoute) {
    exists c :: c in route.communities && m.community(p, c)
  }

  lemma MatchIsHits(m: Matchers, a: seq<string>, option: Option<MatchOption>, route: BgpRoute)
    ensures CommunitiesMatch(m, a, option, route) <==>
            if option == Some(MatchAll) then a != [] && forall q :: q in a ==> Hits(m, q, route)
            else if option == Some(MatchInvert) then !exists q :: q in a && Hits(m, q, route)
            else exists q :: q in a && Hits(m, q, route)
  {
    assert (exists q :: q in a && Hits(m, q, route)) <==> exists i :: 0 <= i < |a| && Hits(m, a[i], route);
    assert (forall q :: q in a ==> Hits(m, q, route)) <==> forall i :: 0 <= i < |a| ==> Hits(m, a[i], route);
  }

  lemma LiteralHits(p: string, q: string)
    ensures Hits(Literal(p), q, Carrying([p])) <==> q == p
    ensures Hits(AllBut(p), q, Carrying([p])) <==> q != p
  {
    assert p in Carrying([p]).communities;
    assert q != p ==> AllBut(p).community(q, p);
    assert Literal(p).community(p, p);
  }

  /** A matcher and a route by which it shows whether a pattern is among those matched. */
  lemma MatchingTells(p: string, a: seq<string>, option: Option<MatchOption>)
    requires a != []
    ensures CommunitiesMatch(if option == Some(MatchAll) then AllBut(p) else Literal(p), a, option, Carrying([p])) <==>
            (p in a <==> option != Some(MatchAll) && option != Some(MatchInvert))
  {
    var m := if option == Some(MatchAll) then AllBut(p) else Literal(p);
    MatchIsHits(m, a, option, Carrying([p]));
    forall q ensures Hits(m, q, Carrying([p])) <==> (q == p <==> option != Some(MatchAll)) {
      LiteralHits(p, q);
    }
  }

  lemma MatchSame(m: Matchers, a: seq<string>, b: seq<string>, option: Option<MatchOption>, route: BgpRoute)
    requires SamePatterns(a, b) && |a| == |b|
    ensures CommunitiesMatch(m, a, option, route) == CommunitiesMatch(m, b, option, route)
  {
    MatchIsHits(m, a, option, route);
    MatchIsHits(m, b, option, route);
  }

  ghost predicate MatchAlike(a: seq<string>, b: seq<string>, option: Option<MatchOption>) {
    forall m: Matchers, route: BgpRoute :: GoCommunitiesMatch(m, a, ConvertMatch(option), route) == CommunitiesMatch(m, b, option, route)
  }

  lemma GoMatchesAlike(m: Matchers, a: seq<string>, option: Option<MatchOption>, route: BgpRoute)
    ensures GoCommunitiesMatch(m, a, ConvertMatch(option), route) == CommunitiesMatch(m, a, option, route)
  {
    OptionPreserved(a, option, (p: string) => exists c :: c in route.communities && m.community(p, c));
  }

  lemma MatchAlikeExactlyWhen(a: seq<string>, b: seq<string>, option: Option<MatchOption>)
    requires |a| == |b|
    ensures MatchAlike(a, b, option) <==> SamePatterns(a, b)
  {
    if SamePatterns(a, b) {
      forall m: Matchers, route: BgpRoute ensures GoCommunitiesMatch(m, a, ConvertMatch(option), route) == CommunitiesMatch(m, b, option, route) {
        GoMatchesAlike(m, a, option, route);
        MatchSame(m, a, b, option, route);
      }
    }
    if MatchAlike(a, b, option) && a != [] {
      var all := option == Some(MatchAll);
      forall p ensures p in a <==> p in b {
        GoMatchesAlike(if all then AllBut(p) else Literal(p), a, option, Carrying([p]));
        MatchingTells(p, a, option);
        MatchingTells(p, b, option);
      }
    }
  }

  /** Matching a set, with any of the options: preserved on all routes exactly when unhandled communities are redundant. */
  lemma MatchingPreservedExactlyWhen(cs: seq<Community>, option: Option<MatchOption>)
    ensures MatchAlike(ConvertAll(cs), Meanings(cs), option) <==> Redundant(cs)
  {
    SamePatternsExactlyWhen(cs);
    MatchAlikeExactlyWhen(ConvertAll(cs), Meanings(cs), option);
  }

  // ---------------------------------------------------------------------
  // A configuration whose statements collide
  // ---------------------------------------------------------------------

  function Plain(name: string): Statement {
    Statement(name, "", None, "", None, 0, "", None, None, Some(AcceptRoute), NoMethod, None, 0, NoMed, 0, 0)
  }

  /** A neighbor applies policy p with a statement t:s, and policy p:t with a statement s. */
  function Colliding(n: string, p: string, t: string, s: string): Config {
    Config(map[n := ApplyPolicy([p, p + ":" + t], [], None, None)],
           map[p := [Plain(t + ":" + s)], p + ":" + t := [Plain(s)]],
           map[], map[], map[])
  }

  lemma CollidingIsRefused(n: string, p: string, t: string, s: string)
    requires IsAddress(n)
    ensures Sound(Colliding(n, p, t, s)) && OrdersOf(Orders([n], [], [], []), Colliding(n, p, t, s))
    ensures !Loadable(Translate(Colliding(n, p, t, s), Orders([n], [], [], [])))
    ensures !DistinctStatementNames(Translate(Colliding(n, p, t, s), Orders([n], [], [], [])).policies)
  {
    var cfg, o := Colliding(n, p, t, s), Orders([n], [], [], []);
    var p' := p + ":" + t;
    assert |p| < |p'|;
    assert p in cfg.neighbors[n].importPolicy && p' in cfg.neighbors[n].importPolicy;
    assert cfg.policies[p] == [Plain(t + ":" + s)] && cfg.policies[p'] == [Plain(s)];
    assert cfg.policies[p][0].name == t + ":" + cfg.policies[p'][0].name;
    assert Overlaps(p, cfg.policies[p], p', cfg.policies[p']);
    assert Ambiguous(cfg, n) by {
      assert AppliedBy(cfg, n, p) && AppliedBy(cfg, n, p');
    }
    StatementNamesUniqueExactlyWhen(cfg, o);
  }

  /** A neighbor that imports a policy which does not exist, twice. */
  function Dangling(n: string, p: string): Config {
    Config(map[n := ApplyPolicy([p, p], [], None, None)], map[], map[], map[], map[])
  }

  lemma DanglingIsRefused(n: string, p: string)
    requires IsAddress(n)
    ensures Sound(Dangling(n, p)) && OrdersOf(Orders([n], [], [], []), Dangling(n, p))
    ensures !AllDefined(Translate(Dangling(n, p), Orders([n], [], [], []))) && !Loadable(Translate(Dangling(n, p), Orders([n], [], [], [])))
  {
    var cfg, o := Dangling(n, p), Orders([n], [], [], []);
    assert BothLists(cfg.neighbors[n])[0] == p == BothLists(cfg.neighbors[n])[1];
    assert Twice(cfg, BothLists(cfg.neighbors[n]), 0, 1);
    MissingTwiceDangles(cfg, o, n);
  }

  /** For example at 192.0.2.1: applied names are undefined. */
  lemma DanglingExists() returns (cfg: Config, o: Orders)
    ensures Sound(cfg) && OrdersOf(o, cfg) && !AllDefined(Translate(cfg, o))
  {
    cfg, o := Dangling("192.0.2.1", "a"), Orders(["192.0.2.1"], [], [], []);
    DanglingIsRefused("192.0.2.1", "a");
  }

  /** For example policies "a" and "a:b" at 192.0.2.1: both make a statement named "192.0.2.1|a:b:c". */
  lemma CollisionExists() returns (cfg: Config, o: Orders)
    ensures Sound(cfg) && OrdersOf(o, cfg) && !Loadable(Translate(cfg, o))
  {
    cfg, o := Colliding("192.0.2.1", "a", "b", "c"), Orders(["192.0.2.1"], [], [], []);
    CollidingIsRefused("192.0.2.1", "a", "b", "c");
  }
}
