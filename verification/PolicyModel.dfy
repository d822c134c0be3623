/** What a routing policy means: the OpenConfig side, per neighbor, and the GoBGP side, one global list. */
module PolicyModel {
  import opened Wrappers
  import opened Decimal
  import opened Communities

  // ---------------------------------------------------------------------
  // Routes
  // ---------------------------------------------------------------------

  datatype BgpRoute = BgpRoute(
    prefix: string, communities: seq<string>, asPath: seq<nat>, external: bool, localPref: nat, med: nat)

  /** Pattern matching inside GoBGP, which the translation does not touch. */
  datatype Matchers = Matchers(
    exact: (string, BgpRoute) -> bool,            // the route's prefix is this prefix
    ranged: (string, string, BgpRoute) -> bool,   // the route's prefix lies in this prefix and length range
    community: (string, string) -> bool,          // community pattern against community
    asPath: (string, seq<nat>) -> bool)           // AS-path pattern against AS path

  // ---------------------------------------------------------------------
  // What both sides do to a route
  // ---------------------------------------------------------------------

  function Keep(m: Matchers, communities: seq<string>, patterns: seq<string>): seq<string> {
    if communities == [] then []
    else
      var rest := Keep(m, communities[1..], patterns);
      if exists p :: p in patterns && m.community(p, communities[0]) then rest else [communities[0]] + rest
  }

  predicate AllDigits(s: string) {
    s != [] && forall c :: c in s ==> IsDigit(c)
  }

  datatype Disposition = AcceptRoute | RejectRoute

  /** How far evaluation has got. */
  datatype Progress = Continue(route: BgpRoute) | Final(disposition: Disposition, route: BgpRoute)

  // ---------------------------------------------------------------------
  // OpenConfig
  // ---------------------------------------------------------------------

  datatype MatchOption = MatchAny | MatchAll | MatchInvert

  datatype Comparison = CountEq | CountGe | CountLe

  datatype RouteKind = ExternalRoutes | InternalRoutes

  datatype SetOption = AddCommunities | RemoveCommunities | ReplaceCommunities

  /** How a set of patterns is matched: ANY unless said otherwise, INVERT negates ANY, and ALL of nothing does not match. */
  predicate Satisfied<P>(patterns: seq<P>, option: Option<MatchOption>, hit: P -> bool) {
    if option == Some(MatchAll) then |patterns| > 0 && forall i :: 0 <= i < |patterns| ==> hit(patterns[i])
    else if option == Some(MatchInvert) then forall i :: 0 <= i < |patterns| ==> !hit(patterns[i])
    else exists i :: 0 <= i < |patterns| && hit(patterns[i])
  }

  predicate CommunitiesMatch(m: Matchers, patterns: seq<string>, option: Option<MatchOption>, route: BgpRoute) {
    Satisfied(patterns, option, p => exists c :: c in route.communities && m.community(p, c))
  }

  predicate CountMatches(op: Option<Comparison>, value: nat, route: BgpRoute) {
    && (op == Some(CountEq) ==> |route.communities| == value)
    && (op == Some(CountGe) ==> |route.communities| >= value)
    && (op == Some(CountLe) ==> |route.communities| <= value)
  }

  predicate KindMatches(kind: Option<RouteKind>, route: BgpRoute) {
    && (kind == Some(ExternalRoutes) ==> route.external)
    && (kind == Some(InternalRoutes) ==> !route.external)
  }

  function WithCommunities(m: Matchers, route: BgpRoute, option: Option<SetOption>, list: seq<string>): BgpRoute {
    if option == Some(AddCommunities) then route.(communities := route.communities + list)
    else if option == Some(ReplaceCommunities) then route.(communities := list)
    else if option == Some(RemoveCommunities) then route.(communities := Keep(m, route.communities, list))
    else route
  }

  datatype WellKnown = NoExport | NoAdvertise | NoExportSubconfed | NoPeer | GracefulShutdown | UnsetWellKnown

  datatype Community = CommunityText(text: string) | CommunityNumber(number: U32) | CommunityName(name: WellKnown)

  datatype CommunitySet = CommunitySet(members: seq<Community>, option: Option<MatchOption>)

  datatype PrefixEntry = PrefixEntry(ipPrefix: string, range: string)

  datatype SetCommunity =
    | Inline(communities: seq<Community>)
    | Reference(refs: seq<string>, ref: string)
    | NoMethod

  datatype Med = NoMed | MedText(text: string) | MedNumber(number: U32) | MedIgp

  datatype Statement = Statement(
    name: string,
    prefixSet: string, prefixOption: Option<MatchOption>,
    communitySet: string,
    countOperator: Option<Comparison>, countValue: nat,
    asPathSet: string, asPathOption: Option<MatchOption>,
    routeType: Option<RouteKind>,
    result: Option<Disposition>,
    setCommunity: SetCommunity, setOption: Option<SetOption>,
    localPref: nat, med: Med, prependCount: nat, prependAs: nat)

  datatype ApplyPolicy = ApplyPolicy(
    importPolicy: seq<string>, exportPolicy: seq<string>,
    defaultImport: Option<Disposition>, defaultExport: Option<Disposition>)

  datatype Config = Config(
    neighbors: map<string, ApplyPolicy>,
    policies: map<string, seq<Statement>>,
    communitySets: map<string, CommunitySet>,
    prefixSets: map<string, seq<PrefixEntry>>,
    asPathSets: map<string, seq<string>>)

  datatype Direction = Import | Export

  /** The number a well-known community stands for (RFC 1997, RFC 3765, RFC 8326). */
  function WellKnownNumber(w: WellKnown): Option<U32> {
    match w
    case NoExport => Some(0xFFFF_FF01)
    case NoAdvertise => Some(0xFFFF_FF02)
    case NoExportSubconfed => Some(0xFFFF_FF03)
    case NoPeer => Some(0xFFFF_FF04)
    case GracefulShutdown => Some(0xFFFF_0000)
    case UnsetWellKnown => None
  }

  /** The pattern an OpenConfig community stands for. */
  function CommunityMeaning(c: Community): string {
    match c
    case CommunityText(s) => s
    case CommunityNumber(n) => ToOC(n)
    case CommunityName(w) => match WellKnownNumber(w) case Some(n) => ToOC(n) case None => ""
  }

  function Meanings(cs: seq<Community>): (s: seq<string>)
    ensures |s| == |cs| && forall i :: 0 <= i < |s| ==> s[i] == CommunityMeaning(cs[i])
  {
    seq(|cs|, i requires 0 <= i < |cs| => CommunityMeaning(cs[i]))
  }

  predicate EntryMatches(m: Matchers, e: PrefixEntry, route: BgpRoute) {
    if e.range == "exact" then m.exact(e.ipPrefix, route) else m.ranged(e.ipPrefix, e.range, route)
  }

  /** A prefix set only knows ANY and INVERT. */
  predicate PrefixSetMatches(m: Matchers, es: seq<PrefixEntry>, option: Option<MatchOption>, route: BgpRoute) {
    if option == Some(MatchInvert) then forall i :: 0 <= i < |es| ==> !EntryMatches(m, es[i], route)
    else exists i :: 0 <= i < |es| && EntryMatches(m, es[i], route)
  }

  predicate PrefixCondition(m: Matchers, cfg: Config, s: Statement, route: BgpRoute) {
    s.prefixSet == "" ||
    (s.prefixSet in cfg.prefixSets && PrefixSetMatches(m, cfg.prefixSets[s.prefixSet], s.prefixOption, route))
  }

  predicate CommunityCondition(m: Matchers, cfg: Config, s: Statement, route: BgpRoute) {
    s.communitySet == "" ||
    (s.communitySet in cfg.communitySets &&
     var set_ := cfg.communitySets[s.communitySet];
     CommunitiesMatch(m, Meanings(set_.members), set_.option, route))
  }

  predicate AsPathCondition(m: Matchers, cfg: Config, s: Statement, route: BgpRoute) {
    s.asPathSet == "" ||
    (s.asPathSet in cfg.asPathSets && Satisfied(cfg.asPathSets[s.asPathSet], s.asPathOption, p => m.asPath(p, route.asPath)))
  }

  predicate Applies(m: Matchers, cfg: Config, s: Statement, route: BgpRoute) {
    && PrefixCondition(m, cfg, s, route)
    && CommunityCondition(m, cfg, s, route)
    && CountMatches(s.countOperator, s.countValue, route)
    && AsPathCondition(m, cfg, s, route)
    && KindMatches(s.routeType, route)
  }

  function Concat(cfg: Config, refs: seq<string>): seq<string>
    requires forall r :: r in refs ==> r in cfg.communitySets
  {
    if refs == [] then []
    else
      var n := |refs| - 1;
      Concat(cfg, refs[..n]) + Meanings(cfg.communitySets[refs[n]].members)
  }

  /** The communities a statement sets. A reference to a set that does not exist sets none. */
  function Listed(cfg: Config, sc: SetCommunity): seq<string> {
    match sc
    case NoMethod => []
    case Inline(cs) => Meanings(cs)
    case Reference(refs, ref) =>
      if refs != [] then (if forall r :: r in refs ==> r in cfg.communitySets then Concat(cfg, refs) else [])
      else if ref != "" && ref in cfg.communitySets then Meanings(cfg.communitySets[ref].members)
      else []
  }

  /** A MED is set, or changed by a signed amount. */
  datatype MedChange = Unchanged | SetTo(value: nat) | RaiseBy(amount: nat) | LowerBy(amount: nat)

  function MedChangeOf(med: Med): MedChange {
    match med
    case NoMed => Unchanged
    case MedNumber(n) => SetTo(n)
    case MedIgp => Unchanged
    case MedText(s) =>
      if s == [] then Unchanged
      else if AllDigits(s) then SetTo(Parse(s))
      else if s[0] == '+' && AllDigits(s[1..]) then RaiseBy(Parse(s[1..]))
      else if s[0] == '-' && AllDigits(s[1..]) then LowerBy(Parse(s[1..]))
      else Unchanged
  }

  function ChangedMed(med: nat, change: MedChange): nat {
    match change
    case Unchanged => med
    case SetTo(n) => n
    case RaiseBy(n) => med + n
    case LowerBy(n) => if n < med then med - n else 0
  }

  /** A local preference of zero is not set. */
  function Modified(m: Matchers, cfg: Config, s: Statement, route: BgpRoute): BgpRoute {
    WithCommunities(m, route, s.setOption, Listed(cfg, s.setCommunity)).(
      localPref := if s.localPref > 0 then s.localPref else route.localPref,
      med := ChangedMed(route.med, MedChangeOf(s.med)),
      asPath := seq(s.prependCount, i => s.prependAs) + route.asPath)
  }

  function EvalStatement(m: Matchers, cfg: Config, s: Statement, route: BgpRoute): Progress {
    if !Applies(m, cfg, s, route) then Continue(route)
    else if s.result == None then Continue(Modified(m, cfg, s, route))
    else Final(s.result.value, Modified(m, cfg, s, route))
  }

  function EvalStatements(m: Matchers, cfg: Config, ss: seq<Statement>, route: BgpRoute): Progress {
    if ss == [] then Continue(route)
    else
      match EvalStatement(m, cfg, ss[0], route)
      case Continue(r) => EvalStatements(m, cfg, ss[1..], r)
      case final => final
  }

  /** The policies a neighbor refers to, in order; a policy that does not exist is skipped. */
  function EvalPolicies(m: Matchers, cfg: Config, names: seq<string>, route: BgpRoute): Progress {
    if names == [] then Continue(route)
    else if names[0] !in cfg.policies then EvalPolicies(m, cfg, names[1..], route)
    else
      match EvalStatements(m, cfg, cfg.policies[names[0]], route)
      case Continue(r) => EvalPolicies(m, cfg, names[1..], r)
      case final => final
  }

  function PolicyNames(a: ApplyPolicy, d: Direction): seq<string> {
    if d.Import? then a.importPolicy else a.exportPolicy
  }

  /** Where the policies decide nothing, the route is accepted exactly if the default of the direction says so. */
  function Default(a: ApplyPolicy, d: Direction): Disposition {
    if (d.Import? && a.defaultImport == Some(AcceptRoute)) || (d.Export? && a.defaultExport == Some(AcceptRoute))
    then AcceptRoute
    else RejectRoute
  }

  /** What OpenConfig says about a route from or to a neighbor. */
  function EvalNeighbor(m: Matchers, cfg: Config, neighbor: string, d: Direction, route: BgpRoute): Progress
    requires neighbor in cfg.neighbors
  {
    var a := cfg.neighbors[neighbor];
    match EvalPolicies(m, cfg, PolicyNames(a, d), route)
    case Continue(r) => Final(Default(a, d), r)
    case final => final
  }

  // ---------------------------------------------------------------------
  // GoBGP
  // ---------------------------------------------------------------------

  /** The values of GoBGP's own configuration model; the first of each is the zero value. */
  datatype GoMatch = GoUnsetMatch | GoAny | GoAll | GoInvert

  datatype GoComparison = GoNoComparison | GoEq | GoGe | GoLe

  datatype GoRouteType = GoEveryType | GoExternal | GoInternal

  datatype GoOption = GoNoOption | GoAdd | GoRemove | GoReplace

  datatype GoDisposition = GoNone | GoAccept | GoReject

  datatype GoStatement = GoStatement(
    name: string,
    prefixSet: string, prefixOption: GoMatch,
    neighborSet: string,
    communitySet: string, communityOption: GoMatch,
    countOperator: GoComparison, countValue: nat,
    asPathSet: string, asPathOption: GoMatch,
    routeType: GoRouteType,
    disposition: GoDisposition,
    communities: seq<string>, setOption: GoOption,
    localPref: nat, med: string, prependCount: nat, prependAs: string)

  datatype GoPolicy = GoPolicy(name: string, statements: seq<GoStatement>)

  datatype Named<T> = Named(name: string, items: seq<T>)

  datatype GoConfig = GoConfig(
    policies: seq<GoPolicy>,
    importPolicy: seq<string>,
    exportPolicy: seq<string>,
    communitySets: seq<Named<string>>,
    prefixSets: seq<Named<PrefixEntry>>,
    asPathSets: seq<Named<string>>,
    neighborSets: seq<Named<string>>)

  function Find<T>(sets: seq<Named<T>>, name: string): Option<seq<T>> {
    if sets == [] then None
    else if sets[0].name == name then Some(sets[0].items)
    else Find(sets[1..], name)
  }

  function FindPolicy(policies: seq<GoPolicy>, name: string): Option<seq<GoStatement>> {
    if policies == [] then None
    else if policies[0].name == name then Some(policies[0].statements)
    else FindPolicy(policies[1..], name)
  }

  /** GoBGP writes an exact match as an empty range. */
  predicate GoEntryMatches(m: Matchers, e: PrefixEntry, route: BgpRoute) {
    if e.range == "" then m.exact(e.ipPrefix, route) else m.ranged(e.ipPrefix, e.range, route)
  }

  predicate Combined<P>(patterns: seq<P>, option: GoMatch, hit: P -> bool) {
    match option
    case GoUnsetMatch => exists i :: 0 <= i < |patterns| && hit(patterns[i])
    case GoAny => exists i :: 0 <= i < |patterns| && hit(patterns[i])
    case GoAll => |patterns| > 0 && forall i :: 0 <= i < |patterns| ==> hit(patterns[i])
    case GoInvert => !exists i :: 0 <= i < |patterns| && hit(patterns[i])
  }

  predicate GoCommunitiesMatch(m: Matchers, patterns: seq<string>, option: GoMatch, route: BgpRoute) {
    Combined(patterns, option, p => exists c :: c in route.communities && m.community(p, c))
  }

  predicate GoCountMatches(op: GoComparison, value: nat, route: BgpRoute) {
    match op
    case GoNoComparison => true
    case GoEq => |route.communities| == value
    case GoGe => |route.communities| >= value
    case GoLe => |route.communities| <= value
  }

  predicate GoTypeMatches(kind: GoRouteType, route: BgpRoute) {
    match kind
    case GoEveryType => true
    case GoExternal => route.external
    case GoInternal => !route.external
  }

  predicate GoApplies(m: Matchers, g: GoConfig, s: GoStatement, neighbor: string, route: BgpRoute) {
    && (s.neighborSet == "" || (Find(g.neighborSets, s.neighborSet).Some? && neighbor in Find(g.neighborSets, s.neighborSet).value))
    && (s.prefixSet == "" || (Find(g.prefixSets, s.prefixSet).Some? &&
          Combined(Find(g.prefixSets, s.prefixSet).value, s.prefixOption, e => GoEntryMatches(m, e, route))))
    && (s.communitySet == "" || (Find(g.communitySets, s.communitySet).Some? &&
          GoCommunitiesMatch(m, Find(g.communitySets, s.communitySet).value, s.communityOption, route)))
    && GoCountMatches(s.countOperator, s.countValue, route)
    && (s.asPathSet == "" || (Find(g.asPathSets, s.asPathSet).Some? &&
          Combined(Find(g.asPathSets, s.asPathSet).value, s.asPathOption, p => m.asPath(p, route.asPath))))
    && GoTypeMatches(s.routeType, route)
  }

  function GoWithCommunities(m: Matchers, route: BgpRoute, option: GoOption, list: seq<string>): BgpRoute {
    match option
    case GoNoOption => route
    case GoAdd => route.(communities := route.communities + list)
    case GoReplace => route.(communities := list)
    case GoRemove => route.(communities := Keep(m, route.communities, list))
  }

  function WithLocalPref(route: BgpRoute, value: nat): BgpRoute {
    if value == 0 then route else route.(localPref := value)
  }

  function Prepended(asn: nat, n: nat, path: seq<nat>): seq<nat> {
    if n == 0 then path else [asn] + Prepended(asn, n - 1, path)
  }

  /** A MED given as text: a value, or a change by a signed amount. */
  function MedFromText(s: string, med: nat): nat {
    if AllDigits(s) then Parse(s)
    else if s != [] && s[0] == '+' && AllDigits(s[1..]) then med + Parse(s[1..])
    else if s != [] && s[0] == '-' && AllDigits(s[1..]) then (if Parse(s[1..]) <= med then med - Parse(s[1..]) else 0)
    else med
  }

  function GoModified(m: Matchers, s: GoStatement, route: BgpRoute): BgpRoute {
    var r1 := GoWithCommunities(m, route, s.setOption, s.communities);
    var r2 := WithLocalPref(r1, s.localPref);
    var r3 := r2.(med := MedFromText(s.med, r2.med));
    r3.(asPath := if AllDigits(s.prependAs) then Prepended(Parse(s.prependAs), s.prependCount, r3.asPath) else r3.asPath)
  }

  function GoEvalStatement(m: Matchers, g: GoConfig, s: GoStatement, neighbor: string, route: BgpRoute): Progress {
    if !GoApplies(m, g, s, neighbor, route) then Continue(route)
    else
      match s.disposition
      case GoNone => Continue(GoModified(m, s, route))
      case GoAccept => Final(AcceptRoute, GoModified(m, s, route))
      case GoReject => Final(RejectRoute, GoModified(m, s, route))
  }

  function GoEvalStatements(m: Matchers, g: GoConfig, ss: seq<GoStatement>, neighbor: string, route: BgpRoute): Progress {
    if ss == [] then Continue(route)
    else
      match GoEvalStatement(m, g, ss[0], neighbor, route)
      case Continue(r) => GoEvalStatements(m, g, ss[1..], neighbor, r)
      case final => final
  }

  /** The global list, policy by policy, until one decides. A name without a definition decides nothing. */
  function GoEvalList(m: Matchers, g: GoConfig, names: seq<string>, neighbor: string, route: BgpRoute): Progress {
    if names == [] then Continue(route)
    else
      match FindPolicy(g.policies, names[0])
      case None => GoEvalList(m, g, names[1..], neighbor, route)
      case Some(ss) =>
        match GoEvalStatements(m, g, ss, neighbor, route)
        case Continue(r) => GoEvalList(m, g, names[1..], neighbor, r)
        case final => final
  }

  function GoList(g: GoConfig, d: Direction): seq<string> {
    if d.Import? then g.importPolicy else g.exportPolicy
  }

  /** Every name that is applied is defined. */
  ghost predicate AllDefined(g: GoConfig) {
    forall name :: name in g.importPolicy || name in g.exportPolicy ==> FindPolicy(g.policies, name).Some?
  }

  ghost predicate DistinctNames(ps: seq<GoPolicy>) {
    forall i, j :: 0 <= i < j < |ps| ==> ps[i].name != ps[j].name
  }

  /** No two statements of the configuration, in one policy or in two, share a name. */
  ghost predicate DistinctStatementNames(ps: seq<GoPolicy>) {
    forall i, j, k, l ::
      0 <= i < |ps| && 0 <= j < |ps[i].statements| && 0 <= k < |ps| && 0 <= l < |ps[k].statements| ==>
      ps[i].statements[j].name == ps[k].statements[l].name ==> i == k && j == l
  }

  /** GoBGP refuses a configuration that applies an undefined policy or uses a name of a policy or a statement twice. */
  ghost predicate Loadable(g: GoConfig) {
    AllDefined(g) && DistinctNames(g.policies) && DistinctStatementNames(g.policies)
  }

  /** What GoBGP does with a route from or to a neighbor; None when it refuses the configuration. */
  ghost function GoEval(m: Matchers, g: GoConfig, neighbor: string, d: Direction, route: BgpRoute): Option<Progress> {
    if Loadable(g) then Some(GoEvalList(m, g, GoList(g, d), neighbor, route)) else None
  }
}
