/** What a gNMI Set guarantees, one at a time and over every run. */
module Transactions {
  import opened Wrappers
  import opened Datastore

  // ---------------------------------------------------------------------
  // Config and state leaves stay apart
  // ---------------------------------------------------------------------

  lemma {:induction false} UnmarshalOwn(env: Env, t: Tree, edits: seq<Edit>, k: Kind)
    requires OfKind(env, t, k) && OwnEdits(env, k, edits)
    ensures OfKind(env, Unmarshal(env, t, edits).0, k)
    decreases |edits|
  {
    if edits != [] && env.accepts(t, edits[0]) {
      var next := Edited(t, edits[0]);
      forall p | p in next ensures env.kind(p) == k {
        assert (edits[0].Merge? && p in edits[0].leaves) || p in t;
      }
      UnmarshalOwn(env, next, edits[1..], k);
    }
  }

  lemma KindsApart(env: Env, k: Kind, l: Kind, other: Tree, root: Tree, dirty: Tree)
    requires k != l && OfKind(env, other, k) && OfKind(env, root, l) && OfKind(env, dirty, l)
    ensures Apart(other, root, dirty) && root + other == other + root && dirty + other == other + dirty
  {
    assert forall p :: p in other ==> p !in root && p !in dirty;
  }

  // ---------------------------------------------------------------------
  // The cache after a transaction
  // ---------------------------------------------------------------------

  /** One root goes from root to dirty by way of parts of the diff that are taken. */
  lemma SentExactlyWhen(root: Tree, dirty: Tree, other: Tree, nos: seq<Notification>, fate: nat -> Fate)
    requires PartOfDiff(root, dirty, nos) && Apart(other, root, dirty)
    ensures var c := root + other;
            && (Send(c, nos, fate, |nos|).0 == dirty + other <==> WholeDiff(root, dirty, TakenOf(nos, fate, |nos|)))
            && (Send(c, nos, fate, |nos|).0 == c <==>
                forall i :: 0 <= i < |TakenOf(nos, fate, |nos|)| ==> !Effective(c, TakenOf(nos, fate, |nos|)[i]))
  {
    var c, taken := root + other, TakenOf(nos, fate, |nos|);
    SendMeaning(c, nos, fate, |nos|);
    TakenPartOfDiff(root, dirty, nos, fate, |nos|);
    UpToDateExactlyWhen(root, dirty, other, c, taken);
    UntouchedExactlyWhen(root, dirty, c, taken);
  }

  /** The leaves a notification list carries when it is taken whole are the whole diff. */
  lemma AllSent(root: Tree, dirty: Tree, other: Tree, nos: seq<Notification>, fate: nat -> Fate)
    requires PartOfDiff(root, dirty, nos) && WholeDiff(root, dirty, nos) && Apart(other, root, dirty)
    requires forall i :: fate(i) == Taken
    ensures Send(root + other, nos, fate, |nos|) == (dirty + other, true)
  {
    SentExactlyWhen(root, dirty, other, nos, fate);
    SendMeaning(root + other, nos, fate, |nos|);
    TakenIsAll(nos, fate, |nos|);
    assert nos[..|nos|] == nos;
  }

  // ---------------------------------------------------------------------
  // Config requests
  // ---------------------------------------------------------------------

  lemma IntendedOwn(env: Env, root: Tree, op: Op)
    requires WellBehaved(env) && Own(env, op) && op.kind == Config && OfKind(env, root, Config)
    ensures Intended(env, root, op.req).Some? ==> OfKind(env, Intended(env, root, op.req).value, Config)
  {
    UnmarshalOwn(env, root, Edits(op.req), Config);
  }

  /** The schema and every validator pass the root. */
  ghost predicate PassesAll(env: Env, t: Tree) {
    env.valid(t) && forall validator :: validator in env.validators ==> validator(t)
  }

  lemma PassesExactlyWhen(env: Env, t: Tree)
    ensures PassesAll(env, t) <==> AllValid(env, t)
  {
    if AllValid(env, t) {
      forall validator | validator in env.validators ensures validator(t) {
        var i :| 0 <= i < |env.validators| && env.validators[i] == validator;
      }
    }
    if PassesAll(env, t) {
      assert forall i :: 0 <= i < |env.validators| ==> env.validators[i] in env.validators;
    }
  }

  /** A config request succeeds or leaves both roots as they were; what it leaves behind passes the schema and every validator. */
  lemma ConfigSetMeaning(env: Env, s: Store, op: Op)
    ensures var (after, ok) := SetConfig(env, s, op);
            && after.state == s.state
            && (ok ==> Intended(env, s.config, op.req) == Some(after.config) && PassesAll(env, after.config))
            && (!ok ==> after.config == s.config)
  {
    PassesExactlyWhen(env, SetConfig(env, s, op).0.config);
  }

  /** After a successful config request the cache is right exactly when what it took is the whole diff: a stale notification is lost. */
  lemma ConfigImageExactlyWhen(env: Env, s: Store, op: Op)
    requires WellBehaved(env) && Image(env, s) && Own(env, op) && op.kind == Config
    requires SetConfig(env, s, op).1
    ensures var after := SetConfig(env, s, op).0; var nos := env.diff(s.config, after.config);
            Image(env, after) <==> WholeDiff(s.config, after.config, TakenOf(nos, op.fate, |nos|))
  {
    var dirty := Intended(env, s.config, op.req).value;
    IntendedOwn(env, s.config, op);
    KindsApart(env, State, Config, s.state, s.config, dirty);
    SentExactlyWhen(s.config, dirty, s.state, env.diff(s.config, dirty), op.fate);
  }

  /** After a failed one it is right exactly when no notification taken before the rejected one had anything to change. */
  lemma FailedConfigExactlyWhen(env: Env, s: Store, op: Op, dirty: Tree)
    requires WellBehaved(env) && Image(env, s) && Own(env, op) && op.kind == Config
    requires Intended(env, s.config, op.req) == Some(dirty) && !SetConfig(env, s, op).1
    requires env.authorizes ==> AllPermitted(env, op.user, env.diff(s.config, dirty))
    ensures var after := SetConfig(env, s, op).0; var nos := env.diff(s.config, dirty); var taken := TakenOf(nos, op.fate, |nos|);
            && (Image(env, after) <==> after == s)
            && (after == s <==> forall i :: 0 <= i < |taken| ==> !Effective(s.cache, taken[i]))
  {
    IntendedOwn(env, s.config, op);
    KindsApart(env, State, Config, s.state, s.config, dirty);
    SentExactlyWhen(s.config, dirty, s.state, env.diff(s.config, dirty), op.fate);
  }

  // ---------------------------------------------------------------------
  // State requests
  // ---------------------------------------------------------------------

  lemma StateImageExactlyWhen(env: Env, s: Store, op: Op)
    requires WellBehaved(env) && Image(env, s) && Own(env, op) && op.kind == State
    requires SetStateByDiff(env, s, op).1
    ensures var after := SetStateByDiff(env, s, op).0; var nos := env.diff(s.state, after.state);
            Image(env, after) <==> WholeDiff(s.state, after.state, TakenOf(nos, op.fate, |nos|))
  {
    var dirty := Unmarshal(env, s.state, Edits(op.req)).0;
    UnmarshalOwn(env, s.state, Edits(op.req), State);
    KindsApart(env, Config, State, s.config, s.state, dirty);
    SentExactlyWhen(s.state, dirty, s.config, env.diff(s.state, dirty), op.fate);
  }

  ghost predicate MergesOnly(edits: seq<Edit>) {
    forall i :: 0 <= i < |edits| ==> edits[i].Merge?
  }

  lemma UpdatesMerge(req: SetRequest)
    requires UpdateOnly(req)
    ensures MergesOnly(Edits(req))
  {
    assert Replacing(req.replacements) == [];
  }

  lemma AdditionRegroups(t: Tree, u: Tree, v: Tree)
    ensures (t + u) + v == t + (u + v)
  {
  }

  /** Merging into a root is adding what merging into an empty one gives. */
  lemma {:induction false} MergeIsAddition(env: Env, t: Tree, u: Tree, edits: seq<Edit>)
    requires MergesOnly(edits)
    requires Unmarshal(env, t + u, edits).1 && Unmarshal(env, u, edits).1
    ensures Unmarshal(env, t + u, edits).0 == t + Unmarshal(env, u, edits).0
    decreases |edits|
  {
    if edits != [] {
      var leaves := edits[0].leaves;
      AdditionRegroups(t, u, leaves);
      MergeIsAddition(env, t, u + leaves, edits[1..]);
    }
  }

  lemma FragmentAdds(env: Env, s: Store, op: Op)
    requires UpdateOnly(op.req)
    requires Unmarshal(env, map[], Edits(op.req)).1 && Unmarshal(env, s.state, Edits(op.req)).1
    ensures Unmarshal(env, s.state, Edits(op.req)).0 == s.state + Unmarshal(env, map[], Edits(op.req)).0
  {
    UpdatesMerge(op.req);
    assert s.state + map[] == s.state;
    MergeIsAddition(env, s.state, map[], Edits(op.req));
  }

  /** A fragment's own diff from nothing is also part of the diff it makes to a root, and all of it. */
  lemma FragmentDiff(state: Tree, fragment: Tree, nos: seq<Notification>)
    requires PartOfDiff(map[], fragment, nos)
    ensures PartOfDiff(state, state + fragment, nos)
    ensures WholeDiff(map[], fragment, nos) ==> WholeDiff(state, state + fragment, nos)
  {
    var empty: Tree, after := map[], state + fragment;
    forall i | 0 <= i < |nos| ensures nos[i].deletes == {} {
      assert forall p :: p in nos[i].deletes ==> p in empty;
    }
    forall i, p | 0 <= i < |nos| && p in nos[i].updates ensures p in after && after[p] == nos[i].updates[p] {
      assert p in fragment;
    }
    if WholeDiff(empty, fragment, nos) {
      forall p | p in after && (p !in state || state[p] != after[p]) ensures Updates(nos, p) {
        assert p in fragment && p !in empty;
      }
    }
  }

  /** The fast path, too, leaves the cache right exactly when what was taken is the whole diff. */
  lemma FastImageExactlyWhen(env: Env, s: Store, op: Op)
    requires WellBehaved(env) && Image(env, s) && Own(env, op) && op.kind == State && UpdateOnly(op.req)
    requires SetStateFast(env, s, op).1
    ensures var after := SetStateFast(env, s, op).0; var nos := env.diff(map[], Unmarshal(env, map[], Edits(op.req)).0);
            Image(env, after) <==> WholeDiff(s.state, after.state, TakenOf(nos, op.fate, |nos|))
  {
    var fragment := Unmarshal(env, map[], Edits(op.req)).0;
    var nos := env.diff(map[], fragment);
    FragmentAdds(env, s, op);
    UnmarshalOwn(env, s.state, Edits(op.req), State);
    KindsApart(env, Config, State, s.config, s.state, s.state + fragment);
    FragmentDiff(s.state, fragment, nos);
    SentExactlyWhen(s.state, s.state + fragment, s.config, nos, op.fate);
  }

  /** On requests that only update, the fast path gives the roots and the cache the diff would have given. */
  lemma FastPathIsDiffPath(env: Env, s: Store, op: Op)
    requires WellBehaved(env) && Image(env, s) && Own(env, op) && op.kind == State && UpdateOnly(op.req) && AllTaken(op)
    requires Unmarshal(env, map[], Edits(op.req)).1 == Unmarshal(env, s.state, Edits(op.req)).1
    ensures SetStateFast(env, s, op) == SetStateByDiff(env, s, op)
  {
    if Unmarshal(env, map[], Edits(op.req)).1 {
      var fragment, dirty := Unmarshal(env, map[], Edits(op.req)).0, Unmarshal(env, s.state, Edits(op.req)).0;
      FragmentAdds(env, s, op);
      UnmarshalOwn(env, s.state, Edits(op.req), State);
      KindsApart(env, Config, State, s.config, s.state, dirty);
      FragmentDiff(s.state, fragment, env.diff(map[], fragment));
      AllSent(s.state, dirty, s.config, env.diff(map[], fragment), op.fate);
      AllSent(s.state, dirty, s.config, env.diff(s.state, dirty), op.fate);
    }
  }

  // ---------------------------------------------------------------------
  // Runs
  // ---------------------------------------------------------------------

  /** A request the schema accepted once it accepts again. */
  ghost predicate Repeatable(env: Env) {
    forall t, edits :: Unmarshal(env, map[], edits).1 ==> Unmarshal(env, t, edits).1
  }

  /** A failed request leaves no trace when the cache takes everything. */
  lemma FailedSetLeavesNoTrace(env: Env, s: Store, op: Op)
    requires Repeatable(env) && AllTaken(op) && !Set(env, s, op).1
    ensures Set(env, s, op).0 == s
  {
    var dirty := Intended(env, s.config, op.req);
    if op.kind == Config {
      if dirty.Some? {
        NeverStopped(s.cache, env.diff(s.config, dirty.value), op.fate);
      }
    } else if UpdateOnly(op.req) {
      var fragment := Unmarshal(env, map[], Edits(op.req)).0;
      NeverStopped(s.cache, env.diff(map[], fragment), op.fate);
    } else {
      NeverStopped(s.cache, env.diff(s.state, Unmarshal(env, s.state, Edits(op.req)).0), op.fate);
    }
  }

  lemma NeverStopped(c: Tree, nos: seq<Notification>, fate: nat -> Fate)
    requires forall i :: fate(i) == Taken
    ensures Send(c, nos, fate, |nos|).1
  {
    SendMeaning(c, nos, fate, |nos|);
    TakenIsAll(nos, fate, |nos|);
  }

  lemma ConfigKeepsImage(env: Env, s: Store, op: Op)
    requires WellBehaved(env) && Image(env, s) && Own(env, op) && op.kind == Config && AllTaken(op) && SetConfig(env, s, op).1
    ensures Image(env, SetConfig(env, s, op).0)
  {
    ConfigImageExactlyWhen(env, s, op);
    var nos := env.diff(s.config, SetConfig(env, s, op).0.config);
    TakenIsAll(nos, op.fate, |nos|);
    assert nos[..|nos|] == nos;
  }

  lemma StateKeepsImage(env: Env, s: Store, op: Op)
    requires WellBehaved(env) && Image(env, s) && Own(env, op) && op.kind == State && AllTaken(op) && SetStateByDiff(env, s, op).1
    ensures Image(env, SetStateByDiff(env, s, op).0)
  {
    StateImageExactlyWhen(env, s, op);
    var nos := env.diff(s.state, SetStateByDiff(env, s, op).0.state);
    TakenIsAll(nos, op.fate, |nos|);
    assert nos[..|nos|] == nos;
  }

  lemma SetKeepsImage(env: Env, s: Store, op: Op)
    requires WellBehaved(env) && Repeatable(env) && Image(env, s) && Own(env, op) && AllTaken(op)
    ensures Image(env, Set(env, s, op).0)
  {
    if !Set(env, s, op).1 {
      FailedSetLeavesNoTrace(env, s, op);
    } else if op.kind == Config {
      ConfigKeepsImage(env, s, op);
    } else {
      if UpdateOnly(op.req) {
        FastPathIsDiffPath(env, s, op);
      }
      StateKeepsImage(env, s, op);
    }
  }

  /** Over every run the cache is the leaves of both roots. */
  lemma {:induction false} RunKeepsImage(env: Env, s: Store, ops: seq<Op>)
    requires WellBehaved(env) && Repeatable(env) && Image(env, s)
    requires forall i :: 0 <= i < |ops| ==> Own(env, ops[i]) && AllTaken(ops[i])
    ensures Image(env, Run(env, s, ops))
    decreases |ops|
  {
    if ops != [] {
      var n := |ops| - 1;
      RunKeepsImage(env, s, ops[..n]);
      SetKeepsImage(env, Run(env, s, ops[..n]), ops[n]);
    }
  }

  /** Over every run, whatever the cache does, the config root is the one the server started with or one that passes the schema and every validator. */
  lemma {:induction false} RunKeepsValid(env: Env, s: Store, ops: seq<Op>)
    ensures Run(env, s, ops).config == s.config || PassesAll(env, Run(env, s, ops).config)
    decreases |ops|
  {
    if ops != [] {
      var n := |ops| - 1;
      RunKeepsValid(env, s, ops[..n]);
      ConfigSetMeaning(env, Run(env, s, ops[..n]), ops[n]);
    }
  }

  /** A config request reads and writes the config root only, a state request the state root only. */
  lemma ConfigIsLocal(env: Env, s: Store, t: Store, op: Op)
    requires s.config == t.config && op.kind == Config && AllTaken(op)
    ensures Set(env, s, op).0.config == Set(env, t, op).0.config && Set(env, s, op).0.state == s.state
  {
    var dirty := Intended(env, s.config, op.req);
    if dirty.Some? {
      NeverStopped(s.cache, env.diff(s.config, dirty.value), op.fate);
      NeverStopped(t.cache, env.diff(s.config, dirty.value), op.fate);
    }
  }

  lemma FastIsLocal(env: Env, s: Store, t: Store, op: Op)
    requires s.state == t.state && AllTaken(op)
    ensures SetStateFast(env, s, op).0.state == SetStateFast(env, t, op).0.state && SetStateFast(env, s, op).0.config == s.config
  {
    var fragment := Unmarshal(env, map[], Edits(op.req)).0;
    NeverStopped(s.cache, env.diff(map[], fragment), op.fate);
    NeverStopped(t.cache, env.diff(map[], fragment), op.fate);
  }

  lemma DiffIsLocal(env: Env, s: Store, t: Store, op: Op)
    requires s.state == t.state && AllTaken(op)
    ensures SetStateByDiff(env, s, op).0.state == SetStateByDiff(env, t, op).0.state && SetStateByDiff(env, s, op).0.config == s.config
  {
    var dirty := Unmarshal(env, s.state, Edits(op.req)).0;
    NeverStopped(s.cache, env.diff(s.state, dirty), op.fate);
    NeverStopped(t.cache, env.diff(s.state, dirty), op.fate);
  }

  lemma StateIsLocal(env: Env, s: Store, t: Store, op: Op)
    requires s.state == t.state && op.kind == State && AllTaken(op)
    ensures Set(env, s, op).0.state == Set(env, t, op).0.state && Set(env, s, op).0.config == s.config
  {
    if UpdateOnly(op.req) {
      FastIsLocal(env, s, t, op);
    } else {
      DiffIsLocal(env, s, t, op);
    }
  }

  /** So the two locks may let them by in either order: roots and cache come out the same. */
  lemma ModesCommute(env: Env, s: Store, a: Op, b: Op)
    requires WellBehaved(env) && Repeatable(env) && Image(env, s)
    requires a.kind == Config && b.kind == State && Own(env, a) && Own(env, b) && AllTaken(a) && AllTaken(b)
    ensures Set(env, Set(env, s, a).0, b).0 == Set(env, Set(env, s, b).0, a).0
  {
    SetKeepsImage(env, s, a);
    SetKeepsImage(env, s, b);
    SetKeepsImage(env, Set(env, s, a).0, b);
    SetKeepsImage(env, Set(env, s, b).0, a);
    ConfigCommutes(env, s, a, b);
    StateCommutes(env, s, a, b);
  }

  lemma ConfigCommutes(env: Env, s: Store, a: Op, b: Op)
    requires a.kind == Config && b.kind == State && AllTaken(a) && AllTaken(b)
    ensures Set(env, Set(env, s, a).0, b).0.config == Set(env, Set(env, s, b).0, a).0.config
  {
    var sa, sb := Set(env, s, a).0, Set(env, s, b).0;
    StateIsLocal(env, s, s, b);
    StateIsLocal(env, sa, sa, b);
    ConfigIsLocal(env, s, sb, a);
  }

  lemma StateCommutes(env: Env, s: Store, a: Op, b: Op)
    requires a.kind == Config && b.kind == State && AllTaken(a) && AllTaken(b)
    ensures Set(env, Set(env, s, a).0, b).0.state == Set(env, Set(env, s, b).0, a).0.state
  {
    var sa, sb := Set(env, s, a).0, Set(env, s, b).0;
    ConfigIsLocal(env, s, s, a);
    ConfigIsLocal(env, sb, sb, a);
    StateIsLocal(env, s, sa, b);
  }

  /** newServer: the defaults of an empty root, checked against the schema, are sent to the empty cache. */
  function Started(env: Env, fate: nat -> Fate): Option<Store> {
    var config := env.defaults(map[]);
    var nos := env.diff(map[], config);
    var (cache, ok) := Send(map[], nos, fate, |nos|);
    if env.valid(config) && ok then Some(Store(config, map[], cache)) else None
  }

  /** The server starts with the cache right when it takes everything. */
  lemma StartedImage(env: Env, fate: nat -> Fate)
    requires WellBehaved(env) && forall i :: fate(i) == Taken
    ensures Started(env, fate).Some? <==> env.valid(env.defaults(map[]))
    ensures Started(env, fate).Some? ==> Image(env, Started(env, fate).value)
  {
    var config := env.defaults(map[]);
    var nos := env.diff(map[], config);
    assert OfKind(env, map[], Config);
    var empty: Tree := map[];
    assert empty + empty == empty;
    AllSent(empty, config, empty, nos, fate);
  }

  /** There are such environments: every edit accepted, no defaults, and the diff in one notification. */
  lemma WellBehavedExists() returns (env: Env)
    ensures WellBehaved(env) && Repeatable(env)
  {
    var kind: Path -> Kind := p => if p == [] then Config else State;
    env := Env(kind, (t: Tree, e: Edit) => true, (t: Tree) => t, (t: Tree) => true, [], false,
               (u: string, p: Path) => true, (r: Tree, d: Tree) => [Difference(r, d)]);
    forall root: Tree, dirty: Tree
      ensures PartOfDiff(root, dirty, env.diff(root, dirty)) && WholeDiff(root, dirty, env.diff(root, dirty))
    {
      assert env.diff(root, dirty) == [Difference(root, dirty)];
      assert [Difference(root, dirty)][0] == Difference(root, dirty);
    }
    forall t, edits ensures Unmarshal(env, t, edits).1 {
      NothingRefused(env, t, edits);
    }
  }

  function Difference(root: Tree, dirty: Tree): Notification {
    Notification((set p | p in root && p !in dirty), dirty)
  }

  lemma {:induction false} NothingRefused(env: Env, t: Tree, edits: seq<Edit>)
    requires forall u, e :: env.accepts(u, e)
    ensures Unmarshal(env, t, edits).1
    decreases |edits|
  {
    if edits != [] {
      NothingRefused(env, Edited(t, edits[0]), edits[1..]);
    }
  }
}
