/** What a gNMI Set request asks for, leaf by leaf, and who may have it. */
module Requests {
  import opened Wrappers
  import opened Datastore
  import opened Transactions

  function At(t: Tree, p: Path): Option<Value> {
    if p in t then Some(t[p]) else None
  }

  // ---------------------------------------------------------------------
  // What is asked for
  // ---------------------------------------------------------------------

  /** What the updates say about a leaf: the last one that writes it counts. */
  function LastUpdate(updates: seq<(Path, Tree)>, p: Path): Option<Value> {
    if updates == [] then None
    else
      var (_, leaves) := updates[|updates| - 1];
      if p in leaves then Some(leaves[p]) else LastUpdate(updates[..|updates| - 1], p)
  }

  datatype Said = Nothing | Gone | Written(value: Value)

  /** What the replacements say: the last one that writes the leaf or lies above it counts, and what it lies above but does not write is gone. */
  function LastReplacement(replacements: seq<(Path, Tree)>, p: Path): Said {
    if replacements == [] then Nothing
    else
      var (path, leaves) := replacements[|replacements| - 1];
      if p in leaves then Written(leaves[p])
      else if path <= p then Gone
      else LastReplacement(replacements[..|replacements| - 1], p)
  }

  /** Updates override replacements, and both override deletions. */
  function Asked(req: SetRequest, t: Tree, p: Path): Option<Value> {
    if LastUpdate(req.updates, p).Some? then LastUpdate(req.updates, p)
    else
      match LastReplacement(req.replacements, p)
      case Written(v) => Some(v)
      case Gone => None
      case Nothing => if exists i :: 0 <= i < |req.deletes| && req.deletes[i] <= p then None else At(t, p)
  }

  function EditAll(t: Tree, edits: seq<Edit>): Tree {
    if edits == [] then t else Edited(EditAll(t, edits[..|edits| - 1]), edits[|edits| - 1])
  }

  lemma {:induction false} EditFirst(t: Tree, edits: seq<Edit>)
    requires edits != []
    ensures EditAll(t, edits) == EditAll(Edited(t, edits[0]), edits[1..])
    decreases |edits|
  {
    var n := |edits| - 1;
    if n == 0 {
      assert edits[..0] == [] && edits[1..] == [];
    } else {
      EditFirst(t, edits[..n]);
      assert edits[..n][1..] == edits[1..][..n - 1];
    }
  }

  /** A request that is accepted has all its edits made. */
  lemma {:induction false} AcceptedIsEdited(env: Env, t: Tree, edits: seq<Edit>)
    requires Unmarshal(env, t, edits).1
    ensures Unmarshal(env, t, edits).0 == EditAll(t, edits)
    decreases |edits|
  {
    if edits != [] {
      AcceptedIsEdited(env, Edited(t, edits[0]), edits[1..]);
      EditFirst(t, edits);
    }
  }

  lemma {:induction false} EditConcat(t: Tree, a: seq<Edit>, b: seq<Edit>)
    ensures EditAll(t, a + b) == EditAll(EditAll(t, a), b)
    decreases |b|
  {
    if b == [] {
      assert a + b == a;
    } else {
      var n := |b| - 1;
      EditConcat(t, a, b[..n]);
      assert (a + b)[..|a + b| - 1] == a + b[..n];
    }
  }

  lemma WithoutAt(t: Tree, path: Path, p: Path)
    ensures At(Edited(t, Delete(path)), p) == if path <= p then None else At(t, p)
  {
  }

  lemma MergeAt(t: Tree, path: Path, leaves: Tree, p: Path)
    ensures At(Edited(t, Merge(path, leaves)), p) == if p in leaves then Some(leaves[p]) else At(t, p)
  {
  }

  function Deletions(deletes: seq<Path>): (s: seq<Edit>)
    ensures |s| == |deletes| && forall i :: 0 <= i < |s| ==> s[i] == Delete(deletes[i])
  {
    seq(|deletes|, i requires 0 <= i < |deletes| => Delete(deletes[i]))
  }

  function Merges(updates: seq<(Path, Tree)>): (s: seq<Edit>)
    ensures |s| == |updates| && forall i :: 0 <= i < |s| ==> s[i] == Merge(updates[i].0, updates[i].1)
  {
    seq(|updates|, i requires 0 <= i < |updates| => Merge(updates[i].0, updates[i].1))
  }

  lemma {:induction false} DeletedAt(t: Tree, deletes: seq<Path>, p: Path)
    ensures At(EditAll(t, Deletions(deletes)), p) == if exists i :: 0 <= i < |deletes| && deletes[i] <= p then None else At(t, p)
    decreases |deletes|
  {
    if deletes != [] {
      var n := |deletes| - 1;
      DeletedAt(t, deletes[..n], p);
      assert Deletions(deletes)[..n] == Deletions(deletes[..n]);
      WithoutAt(EditAll(t, Deletions(deletes[..n])), deletes[n], p);
      assert (exists i :: 0 <= i < |deletes| && deletes[i] <= p) <==> deletes[n] <= p || exists i :: 0 <= i < n && deletes[..n][i] <= p;
    }
  }

  lemma {:induction false} UpdatedAt(t: Tree, updates: seq<(Path, Tree)>, p: Path)
    ensures At(EditAll(t, Merges(updates)), p) == if LastUpdate(updates, p).Some? then LastUpdate(updates, p) else At(t, p)
    decreases |updates|
  {
    if updates != [] {
      var n := |updates| - 1;
      UpdatedAt(t, updates[..n], p);
      assert Merges(updates)[..n] == Merges(updates[..n]);
      MergeAt(EditAll(t, Merges(updates[..n])), updates[n].0, updates[n].1, p);
    }
  }

  lemma {:induction false} ReplacingLast(replacements: seq<(Path, Tree)>)
    requires replacements != []
    ensures var n := |replacements| - 1;
            Replacing(replacements) ==
            Replacing(replacements[..n]) + [Delete(replacements[n].0), Merge(replacements[n].0, replacements[n].1)]
    decreases |replacements|
  {
    var n := |replacements| - 1;
    if n == 0 {
      assert replacements[..0] == [] && replacements[1..] == [];
    } else {
      ReplacingLast(replacements[1..]);
      assert replacements[1..][..n - 1] == replacements[..n][1..];
    }
  }

  lemma {:induction false} ReplacedAt(t: Tree, replacements: seq<(Path, Tree)>, p: Path)
    ensures At(EditAll(t, Replacing(replacements)), p) ==
            match LastReplacement(replacements, p) case Written(v) => Some(v) case Gone => None case Nothing => At(t, p)
    decreases |replacements|
  {
    if replacements != [] {
      var n := |replacements| - 1;
      ReplacedAt(t, replacements[..n], p);
      ReplacingLast(replacements);
      var mid := EditAll(t, Replacing(replacements[..n]));
      EditConcat(t, Replacing(replacements[..n]), [Delete(replacements[n].0), Merge(replacements[n].0, replacements[n].1)]);
      OneReplacement(mid, replacements[n].0, replacements[n].1, p);
    }
  }

  lemma OneReplacement(t: Tree, path: Path, leaves: Tree, p: Path)
    ensures At(EditAll(t, [Delete(path), Merge(path, leaves)]), p) ==
            if p in leaves then Some(leaves[p]) else if path <= p then None else At(t, p)
  {
    var edits := [Delete(path), Merge(path, leaves)];
    assert edits[..1] == [Delete(path)] && edits[..1][..0] == [];
    assert EditAll(t, edits[..1]) == Edited(t, Delete(path));
    WithoutAt(t, path, p);
    MergeAt(Edited(t, Delete(path)), path, leaves, p);
  }

  /** A request the schema accepts leaves every leaf as its updates, replacements and deletions ask, in this order of precedence. */
  lemma RequestMeans(env: Env, t: Tree, req: SetRequest, p: Path)
    requires Unmarshal(env, t, Edits(req)).1
    ensures At(Unmarshal(env, t, Edits(req)).0, p) == Asked(req, t, p)
  {
    AcceptedIsEdited(env, t, Edits(req));
    var deletions, replacing, merges := Deletions(req.deletes), Replacing(req.replacements), Merges(req.updates);
    assert Edits(req) == deletions + replacing + merges;
    EditConcat(t, deletions + replacing, merges);
    EditConcat(t, deletions, replacing);
    var deleted := EditAll(t, deletions);
    DeletedAt(t, req.deletes, p);
    ReplacedAt(deleted, req.replacements, p);
    UpdatedAt(EditAll(deleted, replacing), req.updates, p);
  }

  /** A successful state Set, on either path, leaves the state root as asked and the config root alone. */
  lemma StateSetMeans(env: Env, s: Store, op: Op, p: Path)
    requires op.kind == State && Set(env, s, op).1
    ensures At(Set(env, s, op).0.state, p) == Asked(op.req, s.state, p) && Set(env, s, op).0.config == s.config
  {
    RequestMeans(env, s.state, op.req, p);
  }

  /** A successful config Set leaves the config root as asked, with the defaults filled in, and the state root alone. */
  lemma ConfigSetMeans(env: Env, s: Store, op: Op) returns (asked: Tree)
    requires op.kind == Config && Set(env, s, op).1
    ensures forall p :: At(asked, p) == Asked(op.req, s.config, p)
    ensures Set(env, s, op).0.config == env.defaults(asked) && Set(env, s, op).0.state == s.state
  {
    asked := Unmarshal(env, s.config, Edits(op.req)).0;
    forall p ensures At(asked, p) == Asked(op.req, s.config, p) {
      RequestMeans(env, s.config, op.req, p);
    }
  }

  // ---------------------------------------------------------------------
  // Who may have it
  // ---------------------------------------------------------------------

  /** Where an environment diffs rightly, a leaf that differs is in the notifications. */
  lemma DifferenceIsNotified(env: Env, root: Tree, dirty: Tree, p: Path) returns (i: nat)
    requires DiffsRightly(env) && At(root, p) != At(dirty, p)
    ensures i < |env.diff(root, dirty)| && (p in env.diff(root, dirty)[i].deletes || p in env.diff(root, dirty)[i].updates)
  {
    var nos := env.diff(root, dirty);
    assert WholeDiff(root, dirty, nos);
    if p in dirty {
      assert Updates(nos, p);
      i :| 0 <= i < |nos| && p in nos[i].updates;
    } else {
      assert Deletes(nos, p);
      i :| 0 <= i < |nos| && p in nos[i].deletes;
    }
  }

  /** With authorization on, a config Set that would change a leaf the user may not write is refused and changes nothing. */
  lemma UnauthorizedIsRefused(env: Env, s: Store, op: Op, p: Path)
    requires DiffsRightly(env) && env.authorizes && Intended(env, s.config, op.req).Some?
    requires At(s.config, p) != At(Intended(env, s.config, op.req).value, p) && !env.permits(op.user, p)
    ensures SetConfig(env, s, op) == (s, false)
  {
    var dirty := Intended(env, s.config, op.req).value;
    var i := DifferenceIsNotified(env, s.config, dirty, p);
    assert !Permitted(env, op.user, env.diff(s.config, dirty)[i]);
  }

  /** So every leaf that a successful config Set changes is one the user may write. */
  lemma SuccessIsAuthorized(env: Env, s: Store, op: Op, p: Path)
    requires DiffsRightly(env) && env.authorizes && SetConfig(env, s, op).1
    requires At(s.config, p) != At(SetConfig(env, s, op).0.config, p)
    ensures env.permits(op.user, p)
  {
    if !env.permits(op.user, p) {
      UnauthorizedIsRefused(env, s, op, p);
    }
  }

  /** And a user who may write everything is not hindered. */
  lemma PermittedIsUnhindered(env: Env, s: Store, op: Op)
    requires forall p :: env.permits(op.user, p)
    ensures SetConfig(env, s, op) == SetConfig(env.(authorizes := false), s, op)
  {
    forall t, edits ensures Unmarshal(env, t, edits) == Unmarshal(env.(authorizes := false), t, edits) {
      AuthorizationApart(env, t, edits);
    }
  }

  lemma {:induction false} AuthorizationApart(env: Env, t: Tree, edits: seq<Edit>)
    ensures Unmarshal(env, t, edits) == Unmarshal(env.(authorizes := false), t, edits)
    decreases |edits|
  {
    if edits != [] {
      AuthorizationApart(env, Edited(t, edits[0]), edits[1..]);
    }
  }

  /** Over every run, whatever the cache does: each change of a config leaf was made by a config Set of a user who may write it. */
  lemma RunIsAuthorized(env: Env, s: Store, ops: seq<Op>, i: nat, p: Path)
    requires DiffsRightly(env) && env.authorizes && i < |ops|
    requires At(Run(env, s, ops[..i]).config, p) != At(Run(env, s, ops[..i + 1]).config, p)
    ensures ops[i].kind == Config && env.permits(ops[i].user, p)
  {
    assert ops[..i + 1][..i] == ops[..i];
    var before := Run(env, s, ops[..i]);
    assert Run(env, s, ops[..i + 1]) == Set(env, before, ops[i]).0;
    if ops[i].kind == Config && SetConfig(env, before, ops[i]).1 {
      SuccessIsAuthorized(env, before, ops[i], p);
    }
  }

  // ---------------------------------------------------------------------
  // When a Set succeeds
  // ---------------------------------------------------------------------

  lemma {:induction false} GoingExactlyWhen(fate: nat -> Fate, n: nat)
    ensures Going(fate, n) <==> forall i :: 0 <= i < n ==> fate(i) != Rejected
    decreases n
  {
    if n > 0 {
      GoingExactlyWhen(fate, n - 1);
    }
  }

  /** The user may write every leaf the notifications carry. */
  ghost predicate MayWrite(env: Env, user: string, nos: seq<Notification>) {
    forall i, p :: 0 <= i < |nos| && (p in nos[i].deletes || p in nos[i].updates) ==> env.permits(user, p)
  }

  lemma MayWriteExactlyWhen(env: Env, user: string, nos: seq<Notification>)
    ensures MayWrite(env, user, nos) <==> AllPermitted(env, user, nos)
  {
    if MayWrite(env, user, nos) {
      forall i | 0 <= i < |nos| ensures Permitted(env, user, nos[i]) {
      }
    }
    if AllPermitted(env, user, nos) {
      forall i, p | 0 <= i < |nos| && (p in nos[i].deletes || p in nos[i].updates) ensures env.permits(user, p) {
        assert Permitted(env, user, nos[i]);
      }
    }
  }

  /**
   * A config Set succeeds exactly when the schema accepts every edit, the result with its defaults passes the schema
   * and every validator, the user may write what changes if authorization is on, and the cache rejects no notification.
   */
  lemma ConfigSucceedsExactlyWhen(env: Env, s: Store, op: Op)
    requires op.kind == Config
    ensures var (dirty, edited) := Unmarshal(env, s.config, Edits(op.req));
            var nos := env.diff(s.config, env.defaults(dirty));
            Set(env, s, op).1 <==>
              && edited && PassesAll(env, env.defaults(dirty))
              && (env.authorizes ==> MayWrite(env, op.user, nos))
              && forall i :: 0 <= i < |nos| ==> op.fate(i) != Rejected
  {
    var next := env.defaults(Unmarshal(env, s.config, Edits(op.req)).0);
    var nos := env.diff(s.config, next);
    PassesExactlyWhen(env, next);
    MayWriteExactlyWhen(env, op.user, nos);
    SendMeaning(s.cache, nos, op.fate, |nos|);
    GoingExactlyWhen(op.fate, |nos|);
  }

  /** A state Set succeeds exactly when the schema accepts every edit, on the fast path on both roots, and the cache rejects nothing. */
  lemma StateSucceedsExactlyWhen(env: Env, s: Store, op: Op)
    requires op.kind == State
    ensures var fast := |op.req.deletes| + |op.req.replacements| == 0;
            var root := if fast then map[] else s.state;
            var (dirty, edited) := Unmarshal(env, root, Edits(op.req));
            var nos := env.diff(root, dirty);
            Set(env, s, op).1 <==>
              && edited && Unmarshal(env, s.state, Edits(op.req)).1
              && forall i :: 0 <= i < |nos| ==> op.fate(i) != Rejected
  {
    var root := if UpdateOnly(op.req) then map[] else s.state;
    var nos := env.diff(root, Unmarshal(env, root, Edits(op.req)).0);
    SendMeaning(s.cache, nos, op.fate, |nos|);
    GoingExactlyWhen(op.fate, |nos|);
  }
}
