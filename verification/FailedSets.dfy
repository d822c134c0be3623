/** What a gNMI Set that reports an error may leave behind. */
module FailedSets {
  import opened Wrappers
  import opened Datastore
  import opened Transactions

  // ---------------------------------------------------------------------
  // State requests by diff
  // ---------------------------------------------------------------------

  /** No notification the cache took had anything to change. */
  ghost predicate Unfelt(c: Tree, nos: seq<Notification>, fate: nat -> Fate) {
    forall i :: 0 <= i < |TakenOf(nos, fate, |nos|)| ==> !Effective(c, TakenOf(nos, fate, |nos|)[i])
  }

  /** A failed state request by diff restores its root, and leaves everything as it was exactly when it was refused or no notification it took had anything to change. */
  lemma FailedDiffExactlyWhen(env: Env, s: Store, op: Op)
    requires WellBehaved(env) && Image(env, s) && Own(env, op) && op.kind == State && !SetStateByDiff(env, s, op).1
    ensures var (dirty, edited) := Unmarshal(env, s.state, Edits(op.req));
            && SetStateByDiff(env, s, op).0.state == s.state
            && (SetStateByDiff(env, s, op).0 == s <==> !edited || Unfelt(s.cache, env.diff(s.state, dirty), op.fate))
  {
    var (dirty, edited) := Unmarshal(env, s.state, Edits(op.req));
    if edited {
      UnmarshalOwn(env, s.state, Edits(op.req), State);
      KindsApart(env, Config, State, s.config, s.state, dirty);
      SentExactlyWhen(s.state, dirty, s.config, env.diff(s.state, dirty), op.fate);
    }
  }

  // ---------------------------------------------------------------------
  // State requests on the fast path
  // ---------------------------------------------------------------------

  /** How many edits are accepted before one is refused. */
  function AcceptedCount(env: Env, t: Tree, edits: seq<Edit>): (n: nat)
    ensures n <= |edits|
    decreases |edits|
  {
    if edits == [] || !env.accepts(t, edits[0]) then 0 else 1 + AcceptedCount(env, Edited(t, edits[0]), edits[1..])
  }

  /** The leaves that updates write, later ones over earlier ones. */
  function Written(edits: seq<Edit>): Tree {
    if edits == [] then map[]
    else (match edits[0] case Merge(_, leaves) => leaves case Delete(_) => map[]) + Written(edits[1..])
  }

  /** Updates that are cut short have written the leaves of the edits accepted so far. */
  lemma {:induction false} CutShort(env: Env, t: Tree, edits: seq<Edit>)
    requires MergesOnly(edits)
    ensures Unmarshal(env, t, edits).0 == t + Written(edits[..AcceptedCount(env, t, edits)])
    ensures Unmarshal(env, t, edits).1 <==> AcceptedCount(env, t, edits) == |edits|
    decreases |edits|
  {
    if edits == [] || !env.accepts(t, edits[0]) {
      assert edits[..0] == [] && t + map[] == t;
    } else {
      var n := AcceptedCount(env, Edited(t, edits[0]), edits[1..]);
      CutShort(env, Edited(t, edits[0]), edits[1..]);
      assert edits[..n + 1][1..] == edits[1..][..n] && edits[..n + 1][0] == edits[0];
      AdditionRegroups(t, edits[0].leaves, Written(edits[1..][..n]));
    }
  }

  /** The leaves are there already. */
  predicate Holds(t: Tree, leaves: Tree) {
    forall p :: p in leaves ==> p in t && t[p] == leaves[p]
  }

  lemma HoldsExactlyWhen(t: Tree, leaves: Tree)
    ensures t + leaves == t <==> Holds(t, leaves)
  {
    if t + leaves == t {
      forall p | p in leaves ensures p in t && t[p] == leaves[p] {
        assert p in t + leaves && (t + leaves)[p] == leaves[p];
      }
    }
  }

  /**
   * The fast path has no rollback. A failed request leaves everything as it was exactly when the fragment was
   * refused, or the notifications taken had nothing to change and, if all were sent, the root already held
   * the leaves written before the second unmarshalling was refused.
   */
  lemma FailedFastExactlyWhen(env: Env, s: Store, op: Op)
    requires WellBehaved(env) && Image(env, s) && Own(env, op) && op.kind == State && UpdateOnly(op.req) && !SetStateFast(env, s, op).1
    ensures var edits := Edits(op.req);
            var (fragment, edited) := Unmarshal(env, map[], edits);
            var nos := env.diff(map[], fragment);
            SetStateFast(env, s, op).0 == s <==>
              || !edited
              || (Unfelt(s.cache, nos, op.fate) &&
                  (Going(op.fate, |nos|) ==> Holds(s.state, Written(edits[..AcceptedCount(env, s.state, edits)]))))
  {
    var edits := Edits(op.req);
    var (fragment, edited) := Unmarshal(env, map[], edits);
    UpdatesMerge(op.req);
    if edited {
      var nos := env.diff(map[], fragment);
      FastCacheUntouched(env, s, op, fragment);
      SendMeaning(s.cache, nos, op.fate, |nos|);
      CutShort(env, s.state, edits);
      HoldsExactlyWhen(s.state, Written(edits[..AcceptedCount(env, s.state, edits)]));
    }
  }

  lemma FastCacheUntouched(env: Env, s: Store, op: Op, fragment: Tree)
    requires WellBehaved(env) && Image(env, s) && Own(env, op) && op.kind == State
    requires fragment == Unmarshal(env, map[], Edits(op.req)).0
    ensures var nos := env.diff(map[], fragment);
            Send(s.cache, nos, op.fate, |nos|).0 == s.cache <==> Unfelt(s.cache, nos, op.fate)
  {
    var nos := env.diff(map[], fragment);
    UnmarshalOwn(env, map[], Edits(op.req), State);
    FragmentDiff(s.state, fragment, nos);
    KindsApart(env, Config, State, s.config, s.state, s.state + fragment);
    SentExactlyWhen(s.state, s.state + fragment, s.config, nos, op.fate);
  }

  // ---------------------------------------------------------------------
  // Failures that leave traces
  // ---------------------------------------------------------------------

  /** The deletions in one notification, the updates in a second. */
  function InTwo(root: Tree, dirty: Tree): seq<Notification> {
    [Notification((set p | p in root && p !in dirty), map[]), Notification({}, dirty)]
  }

  lemma InTwoIsDiff(root: Tree, dirty: Tree)
    ensures PartOfDiff(root, dirty, InTwo(root, dirty)) && WholeDiff(root, dirty, InTwo(root, dirty))
  {
    var nos := InTwo(root, dirty);
    forall p | p in root && p !in dirty ensures Deletes(nos, p) {
      assert p in nos[0].deletes;
    }
    forall p | p in dirty ensures Updates(nos, p) {
      assert p in nos[1].updates;
    }
  }

  /** The schema refuses what `refuses` says; leaves under "state" are state. */
  function Plain(refuses: (Tree, Edit) -> bool): Env {
    Env(p => if p != [] && p[0] == "state" then State else Config,
        (t, e) => !refuses(t, e), t => t, t => true, [], false, (u, p) => true, (r, d) => InTwo(r, d))
  }

  lemma PlainIsWellBehaved(refuses: (Tree, Edit) -> bool)
    ensures WellBehaved(Plain(refuses))
  {
    var env := Plain(refuses);
    forall root: Tree, dirty: Tree
      ensures PartOfDiff(root, dirty, env.diff(root, dirty)) && WholeDiff(root, dirty, env.diff(root, dirty))
    {
      InTwoIsDiff(root, dirty);
    }
  }

  /** A config request that replaces one leaf by another: the deletion is taken, the update rejected. The root is restored, the cache is not. */
  lemma RejectedSetLeavesTrace(x: Path, y: Path, v: Value) returns (env: Env, s: Store, op: Op)
    requires x != y && !(x <= y) && !(y <= x) && x != [] && y != [] && x[0] != "state" && y[0] != "state"
    ensures WellBehaved(env) && Repeatable(env) && Image(env, s) && Own(env, op) && op.kind == Config
    ensures !Set(env, s, op).1 && Set(env, s, op).0 == s.(cache := map[]) && s.cache != map[] && !Image(env, Set(env, s, op).0)
  {
    env := Plain((t, e) => false);
    PlainIsWellBehaved((t, e) => false);
    forall t, edits ensures Unmarshal(env, t, edits).1 {
      NothingRefused(env, t, edits);
    }
    var root: Tree := map[x := v];
    s := Store(root, map[], root);
    assert root + map[] == root;
    op := Op(Config, SetRequest([x], [], [(y, map[y := v])]), "", i => if i == 0 then Taken else Rejected);
    ReplaceEdits(x, y, v);
    ReplaceUnmarshals(env, x, y, v);
    ReplaceFails(env, s, op, x, y, v);
    assert s.cache[x] == v;
  }

  lemma ReplaceEdits(x: Path, y: Path, v: Value)
    ensures Edits(SetRequest([x], [], [(y, map[y := v])])) == [Delete(x), Merge(y, map[y := v])]
  {
  }

  lemma ReplaceUnmarshals(env: Env, x: Path, y: Path, v: Value)
    requires forall t, e :: env.accepts(t, e)
    ensures Unmarshal(env, map[x := v], [Delete(x), Merge(y, map[y := v])]) == (map[y := v], true)
  {
    var edits := [Delete(x), Merge(y, map[y := v])];
    assert edits[1..] == [Merge(y, map[y := v])] && edits[1..][1..] == [];
    assert Without(map[x := v], x) == map[];
    var empty, full: Tree := map[], map[x := v];
    assert empty + map[y := v] == map[y := v];
    assert Unmarshal(env, map[y := v], []) == (map[y := v], true);
    assert Unmarshal(env, empty, edits[1..]) == Unmarshal(env, map[y := v], []);
    assert Unmarshal(env, full, edits) == Unmarshal(env, empty, edits[1..]);
  }

  lemma ReplaceFails(env: Env, s: Store, op: Op, x: Path, y: Path, v: Value)
    requires env == Plain((t, e) => false) && x != y && s == Store(map[x := v], map[], map[x := v])
    requires op.kind == Config && op.fate(0) == Taken && op.fate(1) == Rejected
    requires Unmarshal(env, s.config, Edits(op.req)) == (map[y := v], true)
    ensures Set(env, s, op) == (s.(cache := map[]), false)
  {
    var root, dirty: Tree := map[x := v], map[y := v];
    var nos := InTwo(root, dirty);
    assert env.diff(root, dirty) == nos && |nos| == 2;
    assert nos[0] == Notification((set p | p in root && p !in dirty), map[]);
    assert x in root && x !in dirty && forall p :: p in root ==> p == x;
    assert nos[0].deletes == {x};
    assert Apply(root, nos[0]) == map[];
    assert Send(root, nos, op.fate, 0) == (root, true);
    assert Send(root, nos, op.fate, 1) == (map[], true);
    assert Send(root, nos, op.fate, 2) == (map[], false);
    assert Intended(env, s.config, op.req) == Some(dirty);
  }

  /** The fast path with everything taken: a request the schema accepts on an empty root is refused half-way on the real one. */
  lemma RefusedLate(env: Env, s: Store, op: Op)
    requires WellBehaved(env) && Image(env, s) && Own(env, op) && op.kind == State && UpdateOnly(op.req) && AllTaken(op)
    requires Unmarshal(env, map[], Edits(op.req)).1 && !Unmarshal(env, s.state, Edits(op.req)).1
    ensures var edits := Edits(op.req);
            Set(env, s, op) == (Store(s.config, s.state + Written(edits[..AcceptedCount(env, s.state, edits)]), s.cache + Written(edits)), false)
  {
    var edits := Edits(op.req);
    UpdatesMerge(op.req);
    CutShort(env, s.state, edits);
    WholeFragment(env, edits);
    FastSends(env, s, op, Written(edits));
  }

  lemma WholeFragment(env: Env, edits: seq<Edit>)
    requires MergesOnly(edits) && Unmarshal(env, map[], edits).1
    ensures Unmarshal(env, map[], edits).0 == Written(edits)
  {
    CutShort(env, map[], edits);
    assert edits[..|edits|] == edits;
    var empty: Tree := map[];
    assert empty + Written(edits) == Written(edits);
  }

  lemma FastSends(env: Env, s: Store, op: Op, fragment: Tree)
    requires WellBehaved(env) && Image(env, s) && Own(env, op) && op.kind == State && AllTaken(op)
    requires fragment == Unmarshal(env, map[], Edits(op.req)).0
    ensures var nos := env.diff(map[], fragment);
            Send(s.cache, nos, op.fate, |nos|) == (s.cache + fragment, true)
  {
    var nos := env.diff(map[], fragment);
    UnmarshalOwn(env, map[], Edits(op.req), State);
    FragmentDiff(s.state, fragment, nos);
    KindsApart(env, Config, State, s.config, s.state, s.state + fragment);
    AllSent(s.state, s.state + fragment, s.config, nos, op.fate);
    AdditionRegroups(s.config, s.state, fragment);
  }

  /** Two updates of which the second is refused once the first has been written to a root that is not empty. */
  lemma HalfEditedExists() returns (env: Env, s: Store, op: Op)
    ensures WellBehaved(env) && Image(env, s) && Own(env, op) && op.kind == State && AllTaken(op)
    ensures !Set(env, s, op).1 && Set(env, s, op).0.state != s.state && !Image(env, Set(env, s, op).0)
  {
    var x, y, z: Path := ["state", "x"], ["state", "y"], ["state", "z"];
    assert x[1] != y[1] && y[1] != z[1] && x[1] != z[1];
    var refuses := (t: Tree, e: Edit) => x in t && y in t;
    env := Plain(refuses);
    PlainIsWellBehaved(refuses);
    s := Store(map[], map[x := "1"], map[x := "1"]);
    op := Op(State, SetRequest([], [], [(y, map[y := "2"]), (z, map[z := "3"])]), "", i => Taken);
    LateRequest(env, s, op, x, y, z);
    var state: Tree, cache: Tree := map[x := "1"] + map[y := "2"], map[x := "1"] + map[y := "2", z := "3"];
    assert y in state && z !in state && z in cache;
  }

  lemma LateRequest(env: Env, s: Store, op: Op, x: Path, y: Path, z: Path)
    requires x != y && y != z && x != z && WellBehaved(env) && forall t, e :: env.accepts(t, e) <==> !(x in t && y in t)
    requires s == Store(map[], map[x := "1"], map[x := "1"]) && Image(env, s) && Own(env, op) && op.kind == State && AllTaken(op)
    requires op.req == SetRequest([], [], [(y, map[y := "2"]), (z, map[z := "3"])])
    ensures Set(env, s, op) == (Store(map[], map[x := "1"] + map[y := "2"], map[x := "1"] + map[y := "2", z := "3"]), false)
  {
    var edits := [Merge(y, map[y := "2"]), Merge(z, map[z := "3"])];
    assert Edits(op.req) == edits;
    LateEdits(env, x, y, z, edits);
    RefusedLate(env, s, op);
  }

  lemma LateEdits(env: Env, x: Path, y: Path, z: Path, edits: seq<Edit>)
    requires x != y && y != z && x != z && edits == [Merge(y, map[y := "2"]), Merge(z, map[z := "3"])]
    requires forall t, e :: env.accepts(t, e) <==> !(x in t && y in t)
    ensures Unmarshal(env, map[], edits).1 && !Unmarshal(env, map[x := "1"], edits).1
    ensures AcceptedCount(env, map[x := "1"], edits) == 1
    ensures Written(edits[..1]) == map[y := "2"] && Written(edits) == map[y := "2", z := "3"]
  {
    assert edits[1..] == [Merge(z, map[z := "3"])] && edits[1..][1..] == [] && edits[..1][1..] == [];
    var empty, full: Tree := map[], map[x := "1"];
    assert Edited(empty, edits[0]) == map[y := "2"];
    assert Edited(full, edits[0]) == map[x := "1", y := "2"];
    assert Written(edits[1..]) == map[z := "3"] && Written(edits[..1]) == map[y := "2"];
    assert Unmarshal(env, map[y := "2"], edits[1..]).1;
    assert !Unmarshal(env, map[x := "1", y := "2"], edits[1..]).1;
    assert AcceptedCount(env, map[x := "1", y := "2"], edits[1..]) == 0;
  }
}
