/**
 * The translation of per-neighbor OpenConfig policies into one global GoBGP
 * configuration (intendedToGoBGPPolicies in bgp/config.go and the conversions of
 * bgp/ocgobgp.go).
 */
module PolicyTranslation {
  import opened Wrappers
  import opened Decimal
  import opened Communities
  import opened PolicyModel

  // ---------------------------------------------------------------------
  // Conversions
  // ---------------------------------------------------------------------

  /** ConvertCommunity: the result for a number is computed and dropped, and one well-known name is not handled. */
  function ConvertCommunity(c: Community): string {
    match c
    case CommunityText(s) => s
    case CommunityNumber(_) => ""
    case CommunityName(NoExport) => "65535:65281"
    case CommunityName(NoAdvertise) => "65535:65282"
    case CommunityName(NoExportSubconfed) => "65535:65283"
    case CommunityName(NoPeer) => "65535:65284"
    case CommunityName(_) => ""
  }

  function ConvertAll(cs: seq<Community>): (s: seq<string>)
    ensures |s| == |cs| && forall i :: 0 <= i < |s| ==> s[i] == ConvertCommunity(cs[i])
  {
    seq(|cs|, i requires 0 <= i < |cs| => ConvertCommunity(cs[i]))
  }

  method ConvertCommunities(cs: seq<Community>) returns (list: seq<string>)
    ensures list == ConvertAll(cs)
  {
    list := [];
    for i := 0 to |cs|
      invariant list == ConvertAll(cs)[..i]
    {
      list := list + [ConvertCommunity(cs[i])];
    }
  }

  /** One named set per name, in the given order. */
  function Collect<T>(order: seq<string>, items: string -> seq<T>): (s: seq<Named<T>>)
    ensures |s| == |order| && forall i :: 0 <= i < |s| ==> s[i] == Named(order[i], items(order[i]))
  {
    seq(|order|, i requires 0 <= i < |order| => Named(order[i], items(order[i])))
  }

  function CommunityItems(cfg: Config): string -> seq<string> {
    name => if name in cfg.communitySets then ConvertAll(cfg.communitySets[name].members) else []
  }

  function ConvertEntry(e: PrefixEntry): PrefixEntry {
    if e.range == "exact" then e.(range := "") else e
  }

  function ConvertEntries(es: seq<PrefixEntry>): (s: seq<PrefixEntry>)
    ensures |s| == |es| && forall i :: 0 <= i < |s| ==> s[i] == ConvertEntry(es[i])
  {
    seq(|es|, i requires 0 <= i < |es| => ConvertEntry(es[i]))
  }

  function PrefixItems(cfg: Config): string -> seq<PrefixEntry> {
    name => if name in cfg.prefixSets then ConvertEntries(cfg.prefixSets[name]) else []
  }

  function AsPathItems(cfg: Config): string -> seq<string> {
    name => if name in cfg.asPathSets then cfg.asPathSets[name] else []
  }

  /** Where each name of the order was put. */
  function IndexMap(order: seq<string>): map<string, nat> {
    if order == [] then map[] else IndexMap(order[..|order| - 1])[order[|order| - 1] := |order| - 1]
  }

  lemma {:induction false} IndexMapMeaning(order: seq<string>, x: string)
    ensures x in IndexMap(order) <==> x in order
    ensures x in IndexMap(order) ==> IndexMap(order)[x] < |order| && order[IndexMap(order)[x]] == x
  {
    if order != [] {
      var n := |order| - 1;
      IndexMapMeaning(order[..n], x);
      assert x in order <==> x in order[..n] || x == order[n];
    }
  }

  lemma IndexMapStep(order: seq<string>, i: nat)
    requires i < |order|
    ensures IndexMap(order[..i + 1]) == IndexMap(order[..i])[order[i] := i]
  {
    assert order[..i + 1][..i] == order[..i];
  }

  lemma CollectStep<T>(order: seq<string>, items: string -> seq<T>, i: nat)
    requires i < |order|
    ensures Collect(order, items)[..i + 1] == Collect(order, items)[..i] + [Named(order[i], items(order[i]))]
  {
  }

  /** convertCommunitySet. */
  method ConvertCommunitySet(cfg: Config, order: seq<string>) returns (sets: seq<Named<string>>, index: map<string, nat>)
    requires forall name :: name in order ==> name in cfg.communitySets
    ensures sets == Collect(order, CommunityItems(cfg)) && index == IndexMap(order)
  {
    sets, index := [], map[];
    for i := 0 to |order|
      invariant |sets| == i && sets == Collect(order, CommunityItems(cfg))[..i]
      invariant index == IndexMap(order[..i])
    {
      var name := order[i];
      CollectStep(order, CommunityItems(cfg), i);
      var list := ConvertCommunities(cfg.communitySets[name].members);
      index := index[name := |sets|];
      sets := sets + [Named(name, list)];
      IndexMapStep(order, i);
    }
    assert order[..|order|] == order;
  }

  /** The lists of the referenced sets, one after the other. */
  function ListsAt(sets: seq<Named<string>>, index: map<string, nat>, refs: seq<string>): seq<string>
    requires forall r :: r in refs ==> r in index && index[r] < |sets|
  {
    if refs == [] then []
    else
      var n := |refs| - 1;
      ListsAt(sets, index, refs[..n]) + sets[index[refs[n]]].items
  }

  ghost predicate IndexesInto(index: map<string, nat>, sets: seq<Named<string>>) {
    forall x :: x in index ==> index[x] < |sets|
  }

  /** convertSetCommunities; a reference that is not in the index map yields an empty list. */
  function ConvertSetCommunities(sc: SetCommunity, sets: seq<Named<string>>, index: map<string, nat>): seq<string>
    requires IndexesInto(index, sets)
  {
    match sc
    case NoMethod => []
    case Inline(cs) => ConvertAll(cs)
    case Reference(refs, ref) =>
      if |refs| > 0 then (if forall r :: r in refs ==> r in index then ListsAt(sets, index, refs) else [])
      else if ref != "" && ref in index then sets[index[ref]].items
      else []
  }

  method SetCommunitiesList(sc: SetCommunity, sets: seq<Named<string>>, index: map<string, nat>) returns (list: seq<string>)
    requires IndexesInto(index, sets)
    ensures list == ConvertSetCommunities(sc, sets, index)
  {
    match sc {
      case NoMethod => list := [];
      case Inline(cs) => list := ConvertCommunities(cs);
      case Reference(refs, ref) =>
        list := [];
        if |refs| > 0 {
          for i := 0 to |refs|
            invariant forall r :: r in refs[..i] ==> r in index
            invariant list == ListsAt(sets, index, refs[..i])
          {
            assert refs[i] in refs;
            if refs[i] !in index {
              return [];
            }
            list := list + sets[index[refs[i]]].items;
            assert refs[..i + 1][..i] == refs[..i];
          }
          assert refs[..|refs|] == refs;
        } else if ref != "" && ref in index {
          list := sets[index[ref]].items;
        }
    }
  }

  function ConvertMed(med: Med): string {
    match med
    case NoMed => ""
    case MedText(s) => s
    case MedNumber(n) => Digits(n)
    case MedIgp => ""
  }

  function ConvertPolicyName(neighbor: string, policy: string): string {
    neighbor + "|" + policy
  }

  /** convertMatchSetOptionsType. */
  function ConvertMatch(option: Option<MatchOption>): GoMatch {
    match option
    case Some(MatchInvert) => GoInvert
    case Some(MatchAny) => GoAny
    case Some(MatchAll) => GoAll
    case None => GoAny
  }

  /** convertMatchSetOptionsRestrictedType. */
  function ConvertRestricted(option: Option<MatchOption>): GoMatch {
    if option == Some(MatchInvert) then GoInvert else GoAny
  }

  /** convertAttributeComparison. */
  function ConvertComparison(op: Option<Comparison>): GoComparison {
    match op
    case Some(CountEq) => GoEq
    case Some(CountGe) => GoGe
    case Some(CountLe) => GoLe
    case None => GoNoComparison
  }

  /** convertRouteType. */
  function ConvertRouteType(kind: Option<RouteKind>): GoRouteType {
    match kind
    case Some(ExternalRoutes) => GoExternal
    case Some(InternalRoutes) => GoInternal
    case None => GoEveryType
  }

  /** convertRouteDisposition. */
  function ConvertDisposition(result: Option<Disposition>): GoDisposition {
    match result
    case Some(RejectRoute) => GoReject
    case Some(AcceptRoute) => GoAccept
    case None => GoNone
  }

  function ConvertSetOption(option: Option<SetOption>): GoOption {
    match option
    case Some(AddCommunities) => GoAdd
    case Some(RemoveCommunities) => GoRemove
    case Some(ReplaceCommunities) => GoReplace
    case None => GoNoOption
  }

  /** convertDefaultPolicy followed by defaultPolicyToRouteDisp: an unset default rejects. */
  function ConvertDefault(default: Option<Disposition>): GoDisposition {
    match default
    case Some(RejectRoute) => GoReject
    case Some(AcceptRoute) => GoAccept
    case None => GoReject
  }

  function CommunityOption(cfg: Config, name: string): GoMatch {
    if name in cfg.communitySets then ConvertMatch(cfg.communitySets[name].option) else GoAny
  }

  function ConvertStatement(cfg: Config, sets: seq<Named<string>>, index: map<string, nat>, neighbor: string, policy: string, s: Statement): GoStatement
    requires IndexesInto(index, sets)
  {
    GoStatement(
      ConvertPolicyName(neighbor, policy) + ":" + s.name,
      s.prefixSet, ConvertRestricted(s.prefixOption),
      neighbor,
      s.communitySet, CommunityOption(cfg, s.communitySet),
      ConvertComparison(s.countOperator), s.countValue,
      s.asPathSet, ConvertMatch(s.asPathOption),
      ConvertRouteType(s.routeType),
      ConvertDisposition(s.result),
      ConvertSetCommunities(s.setCommunity, sets, index), ConvertSetOption(s.setOption),
      s.localPref, ConvertMed(s.med), s.prependCount, Digits(s.prependAs))
  }

  function ConvertStatements(cfg: Config, sets: seq<Named<string>>, index: map<string, nat>, neighbor: string, policy: string, ss: seq<Statement>): (r: seq<GoStatement>)
    requires IndexesInto(index, sets)
    ensures |r| == |ss| && forall i :: 0 <= i < |r| ==> r[i] == ConvertStatement(cfg, sets, index, neighbor, policy, ss[i])
  {
    seq(|ss|, i requires 0 <= i < |ss| => ConvertStatement(cfg, sets, index, neighbor, policy, ss[i]))
  }

  function ConvertPolicy(cfg: Config, sets: seq<Named<string>>, index: map<string, nat>, neighbor: string, policy: string): GoPolicy
    requires IndexesInto(index, sets) && policy in cfg.policies
  {
    GoPolicy(ConvertPolicyName(neighbor, policy), ConvertStatements(cfg, sets, index, neighbor, policy, cfg.policies[policy]))
  }

  /** convertPolicyDefinition. */
  method ConvertPolicyDefinition(cfg: Config, sets: seq<Named<string>>, index: map<string, nat>, neighbor: string, policy: string)
    returns (p: GoPolicy)
    requires IndexesInto(index, sets) && policy in cfg.policies
    ensures p == ConvertPolicy(cfg, sets, index, neighbor, policy)
  {
    var ss := cfg.policies[policy];
    var statements := [];
    for i := 0 to |ss|
      invariant statements == ConvertStatements(cfg, sets, index, neighbor, policy, ss)[..i]
    {
      var list := SetCommunitiesList(ss[i].setCommunity, sets, index);
      statements := statements + [
        GoStatement(
          ConvertPolicyName(neighbor, policy) + ":" + ss[i].name,
          ss[i].prefixSet, ConvertRestricted(ss[i].prefixOption),
          neighbor,
          ss[i].communitySet, CommunityOption(cfg, ss[i].communitySet),
          ConvertComparison(ss[i].countOperator), ss[i].countValue,
          ss[i].asPathSet, ConvertMatch(ss[i].asPathOption),
          ConvertRouteType(ss[i].routeType),
          ConvertDisposition(ss[i].result),
          list, ConvertSetOption(ss[i].setOption),
          ss[i].localPref, ConvertMed(ss[i].med), ss[i].prependCount, Digits(ss[i].prependAs))];
    }
    return GoPolicy(ConvertPolicyName(neighbor, policy), statements);
  }

  // ---------------------------------------------------------------------
  // Per-neighbor defaults
  // ---------------------------------------------------------------------

  function DefaultName(d: Direction, neighbor: string): string {
    (if d.Import? then "default-import|" else "default-export|") + neighbor
  }

  /** A policy whose only statement is the neighbor's default. */
  function DefaultPolicy(cfg: Config, d: Direction, neighbor: string): GoPolicy
    requires neighbor in cfg.neighbors
  {
    GoPolicy(DefaultName(d, neighbor), [
      GoStatement(DefaultName(d, neighbor), "", GoUnsetMatch, neighbor, "", GoUnsetMatch, GoNoComparison, 0, "", GoUnsetMatch, GoEveryType,
                  ConvertDefault(if d.Import? then cfg.neighbors[neighbor].defaultImport else cfg.neighbors[neighbor].defaultExport),
                  [], GoNoOption, 0, "", 0, "")])
  }

  // ---------------------------------------------------------------------
  // The lists
  // ---------------------------------------------------------------------

  /** What populatePolicies has built: definitions, names to apply, and the policies already seen. */
  datatype Progressed = Progressed(policies: seq<GoPolicy>, applied: seq<string>, seen: set<string>)

  function Populate(cfg: Config, sets: seq<Named<string>>, index: map<string, nat>, neighbor: string, names: seq<string>, start: Progressed): Progressed
    requires IndexesInto(index, sets)
  {
    if names == [] then start
    else
      var n := |names| - 1;
      var c := Populate(cfg, sets, index, neighbor, names[..n], start);
      var p := names[n];
      if p in c.seen then c.(applied := c.applied + [ConvertPolicyName(neighbor, p)])
      else if p !in cfg.policies then c.(seen := c.seen + {p})
      else Progressed(c.policies + [ConvertPolicy(cfg, sets, index, neighbor, p)], c.applied + [ConvertPolicyName(neighbor, p)], c.seen + {p})
  }

  /** The populatePolicies closure. */
  method PopulatePolicies(cfg: Config, sets: seq<Named<string>>, index: map<string, nat>, neighbor: string, names: seq<string>,
                          definitions: seq<GoPolicy>, already: set<string>)
    returns (policies: seq<GoPolicy>, applied: seq<string>, seen: set<string>)
    requires IndexesInto(index, sets)
    ensures Progressed(policies, applied, seen) == Populate(cfg, sets, index, neighbor, names, Progressed(definitions, [], already))
  {
    policies, applied, seen := definitions, [], already;
    for i := 0 to |names|
      invariant Progressed(policies, applied, seen) == Populate(cfg, sets, index, neighbor, names[..i], Progressed(definitions, [], already))
    {
      assert names[..i + 1][..i] == names[..i];
      var name := ConvertPolicyName(neighbor, names[i]);
      if names[i] in seen {
        applied := applied + [name];
      } else {
        seen := seen + {names[i]};
        if names[i] in cfg.policies {
          var p := ConvertPolicyDefinition(cfg, sets, index, neighbor, names[i]);
          policies := policies + [p];
          applied := applied + [name];
        }
      }
    }
    assert names[..|names|] == names;
  }

  function ImportPart(cfg: Config, sets: seq<Named<string>>, index: map<string, nat>, neighbor: string): Progressed
    requires IndexesInto(index, sets) && neighbor in cfg.neighbors
  {
    Populate(cfg, sets, index, neighbor, cfg.neighbors[neighbor].importPolicy, Progressed([], [], {}))
  }

  function ExportPart(cfg: Config, sets: seq<Named<string>>, index: map<string, nat>, neighbor: string): Progressed
    requires IndexesInto(index, sets) && neighbor in cfg.neighbors
  {
    var c := ImportPart(cfg, sets, index, neighbor);
    Populate(cfg, sets, index, neighbor, cfg.neighbors[neighbor].exportPolicy, Progressed([], [], c.seen))
  }

  /** What one neighbor adds to the global configuration. */
  datatype Piece = Piece(policies: seq<GoPolicy>, imports: seq<string>, exports: seq<string>)

  function NeighborPiece(cfg: Config, sets: seq<Named<string>>, index: map<string, nat>, neighbor: string): Piece
    requires IndexesInto(index, sets) && neighbor in cfg.neighbors
  {
    var i := ImportPart(cfg, sets, index, neighbor);
    var e := ExportPart(cfg, sets, index, neighbor);
    Piece(i.policies + e.policies + [DefaultPolicy(cfg, Import, neighbor), DefaultPolicy(cfg, Export, neighbor)],
          i.applied + [DefaultName(Import, neighbor)],
          e.applied + [DefaultName(Export, neighbor)])
  }

  function Pieces(cfg: Config, sets: seq<Named<string>>, index: map<string, nat>, neighbors: seq<string>): Piece
    requires IndexesInto(index, sets)
    requires forall n :: n in neighbors ==> n in cfg.neighbors
  {
    if neighbors == [] then Piece([], [], [])
    else
      var k := |neighbors| - 1;
      var before := Pieces(cfg, sets, index, neighbors[..k]);
      var last := NeighborPiece(cfg, sets, index, neighbors[k]);
      Piece(before.policies + last.policies, before.imports + last.imports, before.exports + last.exports)
  }

  /** The orders in which the maps of the configuration are visited. The source sorts most of them. */
  datatype Orders = Orders(neighbors: seq<string>, communitySets: seq<string>, prefixSets: seq<string>, asPathSets: seq<string>)

  ghost predicate Enumerates(order: seq<string>, keys: set<string>) {
    && (forall x :: x in order <==> x in keys)
    && forall i, j :: 0 <= i < j < |order| ==> order[i] != order[j]
  }

  ghost predicate OrdersOf(o: Orders, cfg: Config) {
    && Enumerates(o.neighbors, cfg.neighbors.Keys)
    && Enumerates(o.communitySets, cfg.communitySets.Keys)
    && Enumerates(o.prefixSets, cfg.prefixSets.Keys)
    && Enumerates(o.asPathSets, cfg.asPathSets.Keys)
  }

  function CommunitySets(cfg: Config, o: Orders): seq<Named<string>> {
    Collect(o.communitySets, CommunityItems(cfg))
  }

  lemma IndexMapIndexes(cfg: Config, o: Orders)
    ensures IndexesInto(IndexMap(o.communitySets), CommunitySets(cfg, o))
  {
    forall x | x in IndexMap(o.communitySets) ensures IndexMap(o.communitySets)[x] < |CommunitySets(cfg, o)| {
      IndexMapMeaning(o.communitySets, x);
    }
  }

  function Singletons(): string -> seq<string> {
    n => [n]
  }

  /** intendedToGoBGPPolicies. */
  function Translate(cfg: Config, o: Orders): GoConfig
    requires forall n :: n in o.neighbors ==> n in cfg.neighbors
  {
    IndexMapIndexes(cfg, o);
    var p := Pieces(cfg, CommunitySets(cfg, o), IndexMap(o.communitySets), o.neighbors);
    GoConfig(p.policies, p.imports, p.exports,
             CommunitySets(cfg, o),
             Collect(o.prefixSets, PrefixItems(cfg)),
             Collect(o.asPathSets, AsPathItems(cfg)),
             Collect(o.neighbors, Singletons()))
  }

  /** The body of the loop over the neighbors. */
  method AddNeighbor(cfg: Config, sets: seq<Named<string>>, index: map<string, nat>, n: string)
    returns (policies: seq<GoPolicy>, imports: seq<string>, exports: seq<string>)
    requires IndexesInto(index, sets) && n in cfg.neighbors
    ensures Piece(policies, imports, exports) == NeighborPiece(cfg, sets, index, n)
  {
    var a := cfg.neighbors[n];
    var newI, appliedI, seenI := PopulatePolicies(cfg, sets, index, n, a.importPolicy, [], {});
    var newE, appliedE, seenE := PopulatePolicies(cfg, sets, index, n, a.exportPolicy, [], seenI);
    policies := newI + newE + [DefaultPolicy(cfg, Import, n), DefaultPolicy(cfg, Export, n)];
    imports := appliedI + [DefaultName(Import, n)];
    exports := appliedE + [DefaultName(Export, n)];
  }

  method IntendedToGoBGPPolicies(cfg: Config, o: Orders) returns (g: GoConfig)
    requires OrdersOf(o, cfg)
    ensures g == Translate(cfg, o)
  {
    var sets, index := ConvertCommunitySet(cfg, o.communitySets);
    IndexMapIndexes(cfg, o);
    var acc := Piece([], [], []);
    var neighborSets := [];
    for k := 0 to |o.neighbors|
      invariant neighborSets == Collect(o.neighbors[..k], Singletons())
      invariant acc == Pieces(cfg, sets, index, o.neighbors[..k])
    {
      var n := o.neighbors[k];
      CollectAppend(o.neighbors, k, Singletons());
      PiecesAppend(cfg, sets, index, o.neighbors, k);
      neighborSets := neighborSets + [Named(n, [n])];
      var policies, imports, exports := AddNeighbor(cfg, sets, index, n);
      acc := Piece(acc.policies + policies, acc.imports + imports, acc.exports + exports);
    }
    assert o.neighbors[..|o.neighbors|] == o.neighbors;
    g := GoConfig(acc.policies, acc.imports, acc.exports, sets,
                  Collect(o.prefixSets, PrefixItems(cfg)), Collect(o.asPathSets, AsPathItems(cfg)), neighborSets);
  }

  lemma CollectAppend<T>(order: seq<string>, k: nat, items: string -> seq<T>)
    requires k < |order|
    ensures Collect(order[..k + 1], items) == Collect(order[..k], items) + [Named(order[k], items(order[k]))]
  {
  }

  lemma PiecesAppend(cfg: Config, sets: seq<Named<string>>, index: map<string, nat>, neighbors: seq<string>, k: nat)
    requires IndexesInto(index, sets) && k < |neighbors|
    requires forall n :: n in neighbors ==> n in cfg.neighbors
    ensures forall n :: n in neighbors[..k] || n in neighbors[..k + 1] ==> n in cfg.neighbors
    ensures var before := Pieces(cfg, sets, index, neighbors[..k]);
            var last := NeighborPiece(cfg, sets, index, neighbors[k]);
            Pieces(cfg, sets, index, neighbors[..k + 1]) ==
            Piece(before.policies + last.policies, before.imports + last.imports, before.exports + last.exports)
  {
    assert neighbors[..k + 1][..k] == neighbors[..k];
  }
}
