/** The translation preserves what every neighbor's policy means, and when exactly it does. */
module PolicyPreservation {
  import opened Wrappers
  import opened Decimal
  import opened Communities
  import opened PolicyModel
  import opened PolicyTranslation

  // ---------------------------------------------------------------------
  // Hypotheses
  // ---------------------------------------------------------------------

  /** The alphabet of IP addresses. */
  predicate AddressChar(c: char) {
    IsDigit(c) || 'a' <= c <= 'f' || 'A' <= c <= 'F' || c == ':' || c == '.'
  }

  predicate IsAddress(s: string) {
    s != "" && forall c :: c in s ==> AddressChar(c)
  }

  /** Communities whose conversion is implemented. */
  predicate Handled(c: Community) {
    !c.CommunityNumber? && c != CommunityName(GracefulShutdown)
  }

  predicate AllHandled(cs: seq<Community>) {
    forall c :: c in cs ==> Handled(c)
  }

  ghost predicate StatementHandled(s: Statement) {
    s.setCommunity.Inline? ==> AllHandled(s.setCommunity.communities)
  }

  /** What the OpenConfig schema asks for, and only handled communities. */
  ghost predicate Sound(cfg: Config) {
    && (forall n :: n in cfg.neighbors ==> IsAddress(n))
    && (forall x :: x in cfg.communitySets ==> AllHandled(cfg.communitySets[x].members))
    && (forall x, e :: x in cfg.prefixSets && e in cfg.prefixSets[x] ==> e.range != "")
    && (forall p, s :: p in cfg.policies && s in cfg.policies[p] ==> StatementHandled(s))
  }

  // ---------------------------------------------------------------------
  // Communities
  // ---------------------------------------------------------------------

  lemma OneMoreDigit(n: nat, d: nat, s: string)
    requires n >= 1 && d < 10 && Digits(n) == s
    ensures Digits(n * 10 + d) == s + [DigitChar(d)]
  {
  }

  lemma HighHalf()
    ensures Digits(65535) == "65535"
  {
    assert Digits(6) == "6";
    OneMoreDigit(6, 5, "6");
    OneMoreDigit(65, 5, "65");
    OneMoreDigit(655, 3, "655");
    OneMoreDigit(6553, 5, "6553");
  }

  lemma LowHalfStart(n: nat)
    requires n == 6528
    ensures Digits(n) == "6528"
  {
    assert Digits(6) == "6";
    OneMoreDigit(6, 5, "6");
    OneMoreDigit(65, 2, "65");
    OneMoreDigit(652, 8, "652");
  }

  lemma LowHalf(d: nat)
    requires 1 <= d <= 4
    ensures Digits(65280 + d) == "6528" + [DigitChar(d)]
  {
    var n :| n == 6528;
    LowHalfStart(n);
    OneMoreDigit(n, d, "6528");
  }

  lemma WellKnownText(d: nat)
    requires 1 <= d <= 4
    ensures ToOC(0xFFFF_FF00 + d) == "65535:6528" + [DigitChar(d)]
  {
    HighHalf();
    LowHalf(d);
    assert (0xFFFF_FF00 + d) / 0x1_0000 == 65535 && (0xFFFF_FF00 + d) % 0x1_0000 == 65280 + d;
    assert "65535" + ":" + ("6528" + [DigitChar(d)]) == "65535:6528" + [DigitChar(d)];
  }

  lemma NamePreserved(w: WellKnown)
    requires w.NoExport? || w.NoAdvertise? || w.NoExportSubconfed? || w.NoPeer?
    ensures ConvertCommunity(CommunityName(w)) == CommunityMeaning(CommunityName(w))
  {
    match w {
      case NoExport =>
        WellKnownText(1);
        assert "65535:6528" + [DigitChar(1)] == "65535:65281";
      case NoAdvertise =>
        WellKnownText(2);
        assert "65535:6528" + [DigitChar(2)] == "65535:65282";
      case NoExportSubconfed =>
        WellKnownText(3);
        assert "65535:6528" + [DigitChar(3)] == "65535:65283";
      case NoPeer =>
        WellKnownText(4);
        assert "65535:6528" + [DigitChar(4)] == "65535:65284";
    }
  }

  lemma TextIsNotEmpty(n: U32)
    ensures ToOC(n) != ""
  {
  }

  /** A community keeps its meaning exactly when it is neither a number nor GRACEFUL_SHUTDOWN. */
  lemma CommunityPreservedExactlyWhen(c: Community)
    ensures ConvertCommunity(c) == CommunityMeaning(c) <==> Handled(c)
  {
    match c {
      case CommunityText(_) =>
      case CommunityNumber(n) => TextIsNotEmpty(n);
      case CommunityName(GracefulShutdown) => TextIsNotEmpty(0xFFFF_0000);
      case CommunityName(UnsetWellKnown) =>
      case CommunityName(NoExport) => NamePreserved(NoExport);
      case CommunityName(NoAdvertise) => NamePreserved(NoAdvertise);
      case CommunityName(NoExportSubconfed) => NamePreserved(NoExportSubconfed);
      case CommunityName(NoPeer) => NamePreserved(NoPeer);
    }
  }

  lemma ListPreserved(cs: seq<Community>)
    requires AllHandled(cs)
    ensures ConvertAll(cs) == Meanings(cs)
  {
    forall i | 0 <= i < |cs| ensures ConvertAll(cs)[i] == Meanings(cs)[i] {
      CommunityPreservedExactlyWhen(cs[i]);
    }
  }

  /** A list of communities keeps its meaning exactly when every member does. */
  lemma ListPreservedExactlyWhen(cs: seq<Community>)
    ensures ConvertAll(cs) == Meanings(cs) <==> AllHandled(cs)
  {
    if AllHandled(cs) {
      ListPreserved(cs);
    } else {
      var c :| c in cs && !Handled(c);
      var i :| 0 <= i < |cs| && cs[i] == c;
      CommunityPreservedExactlyWhen(c);
      assert ConvertAll(cs)[i] != Meanings(cs)[i];
    }
  }

  // ---------------------------------------------------------------------
  // Named sets
  // ---------------------------------------------------------------------

  lemma {:induction false} FindCollected<T>(order: seq<string>, items: string -> seq<T>, name: string)
    ensures Find(Collect(order, items), name) == if name in order then Some(items(name)) else None
  {
    if order != [] {
      FindCollected(order[1..], items, name);
      assert Collect(order, items)[1..] == Collect(order[1..], items);
      assert name in order <==> name == order[0] || name in order[1..];
    }
  }

  /** The index map leads to the converted list of the named set. */
  lemma SetAtIndex(cfg: Config, o: Orders, name: string)
    requires Sound(cfg) && OrdersOf(o, cfg)
    ensures IndexesInto(IndexMap(o.communitySets), CommunitySets(cfg, o))
    ensures name in IndexMap(o.communitySets) <==> name in cfg.communitySets
    ensures name in cfg.communitySets ==>
              CommunitySets(cfg, o)[IndexMap(o.communitySets)[name]].items == Meanings(cfg.communitySets[name].members)
  {
    IndexMapIndexes(cfg, o);
    IndexMapMeaning(o.communitySets, name);
    if name in cfg.communitySets {
      ListPreserved(cfg.communitySets[name].members);
    }
  }

  lemma {:induction false} ListsAtIsConcat(cfg: Config, o: Orders, refs: seq<string>)
    requires Sound(cfg) && OrdersOf(o, cfg)
    requires IndexesInto(IndexMap(o.communitySets), CommunitySets(cfg, o))
    requires forall r :: r in refs ==> r in cfg.communitySets && r in IndexMap(o.communitySets)
    ensures ListsAt(CommunitySets(cfg, o), IndexMap(o.communitySets), refs) == Concat(cfg, refs)
  {
    if refs != [] {
      var n := |refs| - 1;
      ListsAtIsConcat(cfg, o, refs[..n]);
      SetAtIndex(cfg, o, refs[n]);
    }
  }

  lemma ReferencePreserved(cfg: Config, o: Orders, refs: seq<string>, ref: string)
    requires Sound(cfg) && OrdersOf(o, cfg)
    ensures IndexesInto(IndexMap(o.communitySets), CommunitySets(cfg, o))
    ensures ConvertSetCommunities(Reference(refs, ref), CommunitySets(cfg, o), IndexMap(o.communitySets)) == Listed(cfg, Reference(refs, ref))
  {
    SetAtIndex(cfg, o, ref);
    forall r | r in refs ensures r in IndexMap(o.communitySets) <==> r in cfg.communitySets {
      SetAtIndex(cfg, o, r);
    }
    if forall r :: r in refs ==> r in cfg.communitySets {
      ListsAtIsConcat(cfg, o, refs);
    }
  }

  lemma SetCommunitiesPreserved(cfg: Config, o: Orders, s: Statement)
    requires Sound(cfg) && OrdersOf(o, cfg) && StatementHandled(s)
    ensures IndexesInto(IndexMap(o.communitySets), CommunitySets(cfg, o))
    ensures ConvertSetCommunities(s.setCommunity, CommunitySets(cfg, o), IndexMap(o.communitySets)) == Listed(cfg, s.setCommunity)
  {
    IndexMapIndexes(cfg, o);
    match s.setCommunity {
      case NoMethod =>
      case Inline(cs) => ListPreserved(cs);
      case Reference(refs, ref) => ReferencePreserved(cfg, o, refs, ref);
    }
  }

  // ---------------------------------------------------------------------
  // Statements
  // ---------------------------------------------------------------------

  function Converted(cfg: Config, o: Orders, neighbor: string, policy: string, s: Statement): GoStatement {
    IndexMapIndexes(cfg, o);
    ConvertStatement(cfg, CommunitySets(cfg, o), IndexMap(o.communitySets), neighbor, policy, s)
  }

  /** The sets of the translated configuration, whatever its policies. */
  ghost predicate SetsOf(g: GoConfig, cfg: Config, o: Orders) {
    && g.communitySets == CommunitySets(cfg, o)
    && g.prefixSets == Collect(o.prefixSets, PrefixItems(cfg))
    && g.asPathSets == Collect(o.asPathSets, AsPathItems(cfg))
    && g.neighborSets == Collect(o.neighbors, Singletons())
  }

  /** The converted option means what the original one does. */
  lemma OptionPreserved<P>(ps: seq<P>, option: Option<MatchOption>, f: P -> bool)
    ensures Combined(ps, ConvertMatch(option), f) == Satisfied(ps, option, f)
  {
  }

  lemma PrefixPreserved(m: Matchers, cfg: Config, o: Orders, name: string, option: Option<MatchOption>, route: BgpRoute)
    requires Sound(cfg) && OrdersOf(o, cfg)
    ensures var f := Find(Collect(o.prefixSets, PrefixItems(cfg)), name);
            (f.Some? && Combined(f.value, ConvertRestricted(option), e => GoEntryMatches(m, e, route))) <==>
            (name in cfg.prefixSets && PrefixSetMatches(m, cfg.prefixSets[name], option, route))
  {
    FindCollected(o.prefixSets, PrefixItems(cfg), name);
    if name in cfg.prefixSets {
      EntriesPreserved(m, cfg.prefixSets[name], option, route);
    }
  }

  lemma EntriesPreserved(m: Matchers, es: seq<PrefixEntry>, option: Option<MatchOption>, route: BgpRoute)
    requires forall e :: e in es ==> e.range != ""
    ensures Combined(ConvertEntries(es), ConvertRestricted(option), e => GoEntryMatches(m, e, route)) <==> PrefixSetMatches(m, es, option, route)
  {
    var go := ConvertEntries(es);
    forall i | 0 <= i < |es| ensures EntryMatches(m, es[i], route) == GoEntryMatches(m, go[i], route) {
      assert es[i] in es;
    }
    assert (exists i :: 0 <= i < |es| && EntryMatches(m, es[i], route)) <==> exists i :: 0 <= i < |go| && GoEntryMatches(m, go[i], route);
  }

  lemma CountPreserved(op: Option<Comparison>, value: nat, route: BgpRoute)
    ensures GoCountMatches(ConvertComparison(op), value, route) == CountMatches(op, value, route)
  {
  }

  lemma KindPreserved(kind: Option<RouteKind>, route: BgpRoute)
    ensures GoTypeMatches(ConvertRouteType(kind), route) == KindMatches(kind, route)
  {
  }

  lemma CommunityConditionPreserved(m: Matchers, cfg: Config, o: Orders, name: string, route: BgpRoute)
    requires Sound(cfg) && OrdersOf(o, cfg)
    ensures var f := Find(CommunitySets(cfg, o), name);
            (f.Some? && GoCommunitiesMatch(m, f.value, CommunityOption(cfg, name), route)) <==>
            (name in cfg.communitySets && CommunitiesMatch(m, Meanings(cfg.communitySets[name].members), cfg.communitySets[name].option, route))
  {
    FindCollected(o.communitySets, CommunityItems(cfg), name);
    if name in cfg.communitySets {
      var set_ := cfg.communitySets[name];
      ListPreserved(set_.members);
      OptionPreserved(Meanings(set_.members), set_.option, (p: string) => exists c :: c in route.communities && m.community(p, c));
    }
  }

  lemma AsPathPreserved(m: Matchers, cfg: Config, o: Orders, name: string, option: Option<MatchOption>, route: BgpRoute)
    requires Sound(cfg) && OrdersOf(o, cfg)
    ensures var f := Find(Collect(o.asPathSets, AsPathItems(cfg)), name);
            (f.Some? && Combined(f.value, ConvertMatch(option), p => m.asPath(p, route.asPath))) <==>
            (name in cfg.asPathSets && Satisfied(cfg.asPathSets[name], option, p => m.asPath(p, route.asPath)))
  {
    FindCollected(o.asPathSets, AsPathItems(cfg), name);
    if name in cfg.asPathSets {
      OptionPreserved(cfg.asPathSets[name], option, (p: string) => m.asPath(p, route.asPath));
    }
  }

  lemma GuardIsNeighbor(o: Orders, cfg: Config, g: GoConfig, owner: string, neighbor: string)
    requires SetsOf(g, cfg, o) && owner in o.neighbors
    ensures Find(g.neighborSets, owner) == Some([owner])
    ensures neighbor in Find(g.neighborSets, owner).value <==> neighbor == owner
  {
    FindCollected(o.neighbors, Singletons(), owner);
  }

  lemma StatementApplies(m: Matchers, cfg: Config, o: Orders, g: GoConfig, owner: string, policy: string, s: Statement, neighbor: string, route: BgpRoute)
    requires Sound(cfg) && OrdersOf(o, cfg) && SetsOf(g, cfg, o) && owner in cfg.neighbors
    ensures GoApplies(m, g, Converted(cfg, o, owner, policy, s), neighbor, route) <==>
            neighbor == owner && Applies(m, cfg, s, route)
  {
    GuardIsNeighbor(o, cfg, g, owner, neighbor);
    assert IsAddress(owner);
    ConditionsPreserved(m, cfg, o, g, owner, policy, s, route);
  }

  /** The conditions of a converted statement other than the neighbor. */
  ghost predicate GoConditions(m: Matchers, g: GoConfig, s: GoStatement, route: BgpRoute) {
    GoApplies(m, g, s.(neighborSet := ""), "", route)
  }

  lemma ConditionsPreserved(m: Matchers, cfg: Config, o: Orders, g: GoConfig, owner: string, policy: string, s: Statement, route: BgpRoute)
    requires Sound(cfg) && OrdersOf(o, cfg) && SetsOf(g, cfg, o)
    ensures GoConditions(m, g, Converted(cfg, o, owner, policy, s), route) <==> Applies(m, cfg, s, route)
  {
    PrefixPreserved(m, cfg, o, s.prefixSet, s.prefixOption, route);
    CommunityConditionPreserved(m, cfg, o, s.communitySet, route);
    AsPathPreserved(m, cfg, o, s.asPathSet, s.asPathOption, route);
    CountPreserved(s.countOperator, s.countValue, route);
    KindPreserved(s.routeType, route);
  }

  lemma MedPreserved(med: Med, value: nat)
    ensures MedFromText(ConvertMed(med), value) == ChangedMed(value, MedChangeOf(med))
  {
    if med.MedNumber? {
      ParseDigits(med.number);
      assert AllDigits(Digits(med.number));
    }
  }

  lemma StatementModifies(m: Matchers, cfg: Config, o: Orders, owner: string, policy: string, s: Statement, route: BgpRoute)
    requires Sound(cfg) && OrdersOf(o, cfg) && StatementHandled(s)
    ensures GoModified(m, Converted(cfg, o, owner, policy, s), route) == Modified(m, cfg, s, route)
  {
    SetCommunitiesPreserved(cfg, o, s);
    ActionsPreserved(m, cfg, s, Converted(cfg, o, owner, policy, s), route);
  }

  /** The converted actions of a statement. */
  predicate ActionsOf(cfg: Config, s: Statement, g: GoStatement) {
    && g.communities == Listed(cfg, s.setCommunity) && g.setOption == ConvertSetOption(s.setOption)
    && g.localPref == s.localPref && g.med == ConvertMed(s.med) && g.prependCount == s.prependCount && g.prependAs == Digits(s.prependAs)
  }

  lemma ActionsPreserved(m: Matchers, cfg: Config, s: Statement, g: GoStatement, route: BgpRoute)
    requires ActionsOf(cfg, s, g)
    ensures GoModified(m, g, route) == Modified(m, cfg, s, route)
  {
    SetOptionPreserved(m, route, s.setOption, g.communities);
    MedPreserved(s.med, route.med);
    PrependPreserved(s.prependAs, s.prependCount, route.asPath);
  }

  lemma SetOptionPreserved(m: Matchers, route: BgpRoute, option: Option<SetOption>, list: seq<string>)
    ensures GoWithCommunities(m, route, ConvertSetOption(option), list) == WithCommunities(m, route, option, list)
  {
  }

  lemma PrependPreserved(asn: nat, n: nat, path: seq<nat>)
    ensures AllDigits(Digits(asn)) && Parse(Digits(asn)) == asn
    ensures Prepended(asn, n, path) == seq(n, i => asn) + path
  {
    ParseDigits(asn);
    PrependedIsRepeated(asn, n, path);
  }

  lemma {:induction false} PrependedIsRepeated(asn: nat, n: nat, path: seq<nat>)
    ensures Prepended(asn, n, path) == seq(n, i => asn) + path
    decreases n
  {
    if n > 0 {
      PrependedIsRepeated(asn, n - 1, path);
      assert seq(n, i => asn) == [asn] + seq(n - 1, i => asn);
    }
  }

  /** A statement converted for `owner` does for `owner` what the original does, and for anyone else nothing. */
  lemma StatementPreserved(m: Matchers, cfg: Config, o: Orders, g: GoConfig, owner: string, policy: string, s: Statement, neighbor: string, route: BgpRoute)
    requires Sound(cfg) && OrdersOf(o, cfg) && SetsOf(g, cfg, o) && owner in cfg.neighbors && StatementHandled(s)
    ensures GoEvalStatement(m, g, Converted(cfg, o, owner, policy, s), neighbor, route) ==
            if neighbor == owner then EvalStatement(m, cfg, s, route) else Continue(route)
  {
    StatementApplies(m, cfg, o, g, owner, policy, s, neighbor, route);
    StatementModifies(m, cfg, o, owner, policy, s, route);
    ResultPreserved(m, cfg, s, g, Converted(cfg, o, owner, policy, s), neighbor, route, neighbor == owner);
  }

  lemma ResultPreserved(m: Matchers, cfg: Config, s: Statement, g: GoConfig, go: GoStatement, neighbor: string, route: BgpRoute, mine: bool)
    requires go.disposition == ConvertDisposition(s.result) && GoModified(m, go, route) == Modified(m, cfg, s, route)
    requires GoApplies(m, g, go, neighbor, route) <==> mine && Applies(m, cfg, s, route)
    ensures GoEvalStatement(m, g, go, neighbor, route) == if mine then EvalStatement(m, cfg, s, route) else Continue(route)
  {
  }

  /** A policy converted for `owner` does for `owner` what the original does, and for anyone else nothing. */
  lemma {:induction false} StatementsPreserved(m: Matchers, cfg: Config, o: Orders, g: GoConfig, owner: string, policy: string,
                                               ss: seq<Statement>, neighbor: string, route: BgpRoute)
    requires Sound(cfg) && OrdersOf(o, cfg) && SetsOf(g, cfg, o) && owner in cfg.neighbors
    requires forall s :: s in ss ==> StatementHandled(s)
    ensures IndexesInto(IndexMap(o.communitySets), CommunitySets(cfg, o))
    ensures GoEvalStatements(m, g, ConvertStatements(cfg, CommunitySets(cfg, o), IndexMap(o.communitySets), owner, policy, ss), neighbor, route) ==
            if neighbor == owner then EvalStatements(m, cfg, ss, route) else Continue(route)
    decreases |ss|
  {
    IndexMapIndexes(cfg, o);
    if ss != [] {
      var sets, index := CommunitySets(cfg, o), IndexMap(o.communitySets);
      assert ConvertStatements(cfg, sets, index, owner, policy, ss)[1..] == ConvertStatements(cfg, sets, index, owner, policy, ss[1..]);
      StatementPreserved(m, cfg, o, g, owner, policy, ss[0], neighbor, route);
      var first := if neighbor == owner then EvalStatement(m, cfg, ss[0], route) else Continue(route);
      if first.Continue? {
        StatementsPreserved(m, cfg, o, g, owner, policy, ss[1..], neighbor, first.route);
      }
    }
  }

  lemma DefaultDecides(m: Matchers, cfg: Config, o: Orders, g: GoConfig, d: Direction, owner: string, neighbor: string, route: BgpRoute)
    requires Sound(cfg) && OrdersOf(o, cfg) && SetsOf(g, cfg, o) && owner in cfg.neighbors
    ensures GoEvalStatements(m, g, DefaultPolicy(cfg, d, owner).statements, neighbor, route) ==
            if neighbor == owner then Final(Default(cfg.neighbors[owner], d), route) else Continue(route)
  {
    GuardIsNeighbor(o, cfg, g, owner, neighbor);
    assert IsAddress(owner);
    var ss := DefaultPolicy(cfg, d, owner).statements;
    assert ss[1..] == [];
    assert MedFromText("", route.med) == route.med;
  }
}
