/**
 * The gNMI datastore (gnmi/gnmi.go): a config root and a state root, one cache
 * that subscribers read, and Set as a transaction on a root followed by the
 * notifications that bring the cache up to date.
 *
 * A root is the map from its leaf paths to their values.
 */
module Datastore {
  import opened Wrappers

  type Path = seq<string>
  type Value = string
  type Tree = map<Path, Value>

  datatype Kind = Config | State
  datatype Notification = Notification(deletes: set<Path>, updates: Tree)
  datatype Edit = Delete(path: Path) | Merge(path: Path, leaves: Tree)
  datatype SetRequest = SetRequest(deletes: seq<Path>, replacements: seq<(Path, Tree)>, updates: seq<(Path, Tree)>)

  /** What the cache does with a notification. A stale one is logged and reported as taken. */
  datatype Fate = Taken | Stale | Rejected

  /** The code around the datastore: the schema, the validators of the reconcilers, path authorization and the diff. */
  datatype Env = Env(
    kind: Path -> Kind,
    accepts: (Tree, Edit) -> bool,
    defaults: Tree -> Tree,
    valid: Tree -> bool,
    validators: seq<Tree -> bool>,
    authorizes: bool,
    permits: (string, Path) -> bool,
    diff: (Tree, Tree) -> seq<Notification>)

  datatype Store = Store(config: Tree, state: Tree, cache: Tree)

  datatype Op = Op(kind: Kind, req: SetRequest, user: string, fate: nat -> Fate)

  // ---------------------------------------------------------------------
  // Requests
  // ---------------------------------------------------------------------

  function Without(t: Tree, path: Path): Tree {
    map p | p in t && !(path <= p) :: t[p]
  }

  function Edited(t: Tree, e: Edit): Tree {
    match e
    case Delete(path) => Without(t, path)
    case Merge(_, leaves) => t + leaves
  }

  function Replacing(replacements: seq<(Path, Tree)>): seq<Edit> {
    if replacements == [] then []
    else [Delete(replacements[0].0), Merge(replacements[0].0, replacements[0].1)] + Replacing(replacements[1..])
  }

  /** Deletes come first, then replaces, each a delete and a merge, then updates. */
  function Edits(req: SetRequest): seq<Edit> {
    seq(|req.deletes|, i requires 0 <= i < |req.deletes| => Delete(req.deletes[i]))
    + Replacing(req.replacements)
    + seq(|req.updates|, i requires 0 <= i < |req.updates| => Merge(req.updates[i].0, req.updates[i].1))
  }

  /** Edit in place up to the first edit the schema refuses. */
  function Unmarshal(env: Env, t: Tree, edits: seq<Edit>): (Tree, bool)
    decreases |edits|
  {
    if edits == [] then (t, true)
    else if !env.accepts(t, edits[0]) then (t, false)
    else Unmarshal(env, Edited(t, edits[0]), edits[1..])
  }

  predicate UpdateOnly(req: SetRequest) {
    |req.deletes| + |req.replacements| == 0
  }

  // ---------------------------------------------------------------------
  // Notifications
  // ---------------------------------------------------------------------

  function Apply(c: Tree, n: Notification): Tree {
    (c - n.deletes) + n.updates
  }

  /** The cache after the first n notifications, and whether to go on: the first rejected one ends it. */
  function Send(c: Tree, nos: seq<Notification>, fate: nat -> Fate, n: nat): (Tree, bool)
    requires n <= |nos|
  {
    if n == 0 then (c, true)
    else
      var (c', go) := Send(c, nos, fate, n - 1);
      if !go then (c', false)
      else
        match fate(n - 1)
        case Taken => (Apply(c', nos[n - 1]), true)
        case Stale => (c', true)
        case Rejected => (c', false)
  }

  predicate Permitted(env: Env, user: string, n: Notification) {
    (forall p :: p in n.deletes ==> env.permits(user, p)) && (forall p :: p in n.updates ==> env.permits(user, p))
  }

  predicate AllPermitted(env: Env, user: string, nos: seq<Notification>) {
    forall i :: 0 <= i < |nos| ==> Permitted(env, user, nos[i])
  }

  // ---------------------------------------------------------------------
  // Set
  // ---------------------------------------------------------------------

  predicate AllValid(env: Env, t: Tree) {
    env.valid(t) && forall i :: 0 <= i < |env.validators| ==> env.validators[i](t)
  }

  /** The config root a request asks for, unless it is refused. */
  function Intended(env: Env, root: Tree, req: SetRequest): Option<Tree> {
    var (dirty, ok) := Unmarshal(env, root, Edits(req));
    if ok && AllValid(env, env.defaults(dirty)) then Some(env.defaults(dirty)) else None
  }

  function SetConfig(env: Env, s: Store, op: Op): (Store, bool) {
    var dirty := Intended(env, s.config, op.req);
    if dirty == None then (s, false)
    else
      var nos := env.diff(s.config, dirty.value);
      if env.authorizes && !AllPermitted(env, op.user, nos) then (s, false)
      else
        var (cache, ok) := Send(s.cache, nos, op.fate, |nos|);
        (Store(if ok then dirty.value else s.config, s.state, cache), ok)
  }

  /** A state request by copy, diff and rollback. */
  function SetStateByDiff(env: Env, s: Store, op: Op): (Store, bool) {
    var (dirty, edited) := Unmarshal(env, s.state, Edits(op.req));
    if !edited then (s, false)
    else
      var nos := env.diff(s.state, dirty);
      var (cache, ok) := Send(s.cache, nos, op.fate, |nos|);
      (Store(s.config, if ok then dirty else s.state, cache), ok)
  }

  /** A state request without deletes: its leaves go to the cache as they are, then into the root. */
  function SetStateFast(env: Env, s: Store, op: Op): (Store, bool) {
    var (fragment, edited) := Unmarshal(env, map[], Edits(op.req));
    if !edited then (s, false)
    else
      var nos := env.diff(map[], fragment);
      var (cache, sent) := Send(s.cache, nos, op.fate, |nos|);
      if !sent then (s.(cache := cache), false)
      else
        var (state, again) := Unmarshal(env, s.state, Edits(op.req));
        (Store(s.config, state, cache), again)
  }

  function Set(env: Env, s: Store, op: Op): (Store, bool) {
    if op.kind == Config then SetConfig(env, s, op)
    else if UpdateOnly(op.req) then SetStateFast(env, s, op)
    else SetStateByDiff(env, s, op)
  }

  function Run(env: Env, s: Store, ops: seq<Op>): Store {
    if ops == [] then s else Set(env, Run(env, s, ops[..|ops| - 1]), ops[|ops| - 1]).0
  }

  // ---------------------------------------------------------------------
  // What is expected of the environment and of requests
  // ---------------------------------------------------------------------

  ghost predicate OfKind(env: Env, t: Tree, k: Kind) {
    forall p :: p in t ==> env.kind(p) == k
  }

  /** The notifications carry nothing but parts of the difference, or leaves that are already right. */
  ghost predicate PartOfDiff(root: Tree, dirty: Tree, nos: seq<Notification>) {
    && (forall i, p :: 0 <= i < |nos| && p in nos[i].deletes ==> p in root && p !in dirty)
    && (forall i, p :: 0 <= i < |nos| && p in nos[i].updates ==> p in dirty && dirty[p] == nos[i].updates[p])
  }

  ghost predicate Deletes(nos: seq<Notification>, p: Path) {
    exists i :: 0 <= i < |nos| && p in nos[i].deletes
  }

  ghost predicate Updates(nos: seq<Notification>, p: Path) {
    exists i :: 0 <= i < |nos| && p in nos[i].updates
  }

  /** Every leaf that goes is deleted, every leaf that comes or changes is updated. */
  ghost predicate WholeDiff(root: Tree, dirty: Tree, nos: seq<Notification>) {
    && (forall p :: p in root && p !in dirty ==> Deletes(nos, p))
    && (forall p :: p in dirty && (p !in root || root[p] != dirty[p]) ==> Updates(nos, p))
  }

  ghost predicate DiffsRightly(env: Env) {
    forall root, dirty :: PartOfDiff(root, dirty, env.diff(root, dirty)) && WholeDiff(root, dirty, env.diff(root, dirty))
  }

  /** Defaults fill in config leaves. */
  ghost predicate DefaultsRightly(env: Env) {
    forall t :: OfKind(env, t, Config) ==> OfKind(env, env.defaults(t), Config)
  }

  ghost predicate WellBehaved(env: Env) {
    DiffsRightly(env) && DefaultsRightly(env)
  }

  ghost predicate OwnEdits(env: Env, k: Kind, edits: seq<Edit>) {
    forall i :: 0 <= i < |edits| && edits[i].Merge? ==> OfKind(env, edits[i].leaves, k)
  }

  /** A config request writes config leaves, a state request state leaves. */
  ghost predicate Own(env: Env, op: Op) {
    OwnEdits(env, op.kind, Edits(op.req))
  }

  /** The cache is what subscribers should see: the leaves of both roots. */
  ghost predicate Image(env: Env, s: Store) {
    OfKind(env, s.config, Config) && OfKind(env, s.state, State) && s.cache == s.config + s.state
  }

  // ---------------------------------------------------------------------
  // Applying a diff
  // ---------------------------------------------------------------------

  function ApplyAll(c: Tree, nos: seq<Notification>): Tree {
    if nos == [] then c else Apply(ApplyAll(c, nos[..|nos| - 1]), nos[|nos| - 1])
  }

  lemma DeletesAppend(nos: seq<Notification>, n: Notification, p: Path)
    ensures Deletes(nos + [n], p) <==> Deletes(nos, p) || p in n.deletes
    ensures Updates(nos + [n], p) <==> Updates(nos, p) || p in n.updates
  {
    var more := nos + [n];
    assert forall i :: 0 <= i < |nos| ==> more[i] == nos[i];
    assert more[|nos|] == n;
  }

  lemma PartsOfDiff(root: Tree, dirty: Tree, nos: seq<Notification>, n: Notification)
    requires PartOfDiff(root, dirty, nos + [n])
    ensures PartOfDiff(root, dirty, nos)
    ensures forall p :: p in n.deletes ==> p in root && p !in dirty
    ensures forall p :: p in n.updates ==> p in dirty && dirty[p] == n.updates[p]
  {
    var more := nos + [n];
    assert more[|nos|] == n;
    forall i | 0 <= i < |nos| ensures nos[i] == more[i] {
    }
  }

  /** Of what a part of the diff changes, deletions and updates are in the same direction as before. */
  lemma DeletedOrUpdated(root: Tree, dirty: Tree, nos: seq<Notification>, p: Path)
    requires PartOfDiff(root, dirty, nos)
    ensures Deletes(nos, p) ==> p !in dirty
    ensures Updates(nos, p) ==> p in dirty
  {
  }

  lemma {:induction false} ApplyAllAt(root: Tree, dirty: Tree, c: Tree, nos: seq<Notification>, p: Path)
    requires PartOfDiff(root, dirty, nos)
    ensures Deletes(nos, p) ==> p !in ApplyAll(c, nos)
    ensures Updates(nos, p) ==> p in dirty && p in ApplyAll(c, nos) && ApplyAll(c, nos)[p] == dirty[p]
    ensures !Deletes(nos, p) && !Updates(nos, p) ==>
              (p in ApplyAll(c, nos) <==> p in c) && (p in c ==> ApplyAll(c, nos)[p] == c[p])
    decreases |nos|
  {
    if nos != [] {
      var init, last := nos[..|nos| - 1], nos[|nos| - 1];
      assert nos == init + [last];
      PartsOfDiff(root, dirty, init, last);
      ApplyAllAt(root, dirty, c, init, p);
      DeletesAppend(init, last, p);
      DeletedOrUpdated(root, dirty, init, p);
      DeletedOrUpdated(root, dirty, nos, p);
    }
  }

  /** The other root's leaves lie elsewhere. */
  ghost predicate Apart(other: Tree, root: Tree, dirty: Tree) {
    forall p :: p in other ==> p !in root && p !in dirty
  }

  /** Where a root and the other one make up the cache, parts of a diff bring the cache up to date exactly when they are the whole diff. */
  lemma UpToDateExactlyWhen(root: Tree, dirty: Tree, other: Tree, c: Tree, nos: seq<Notification>)
    requires PartOfDiff(root, dirty, nos) && Apart(other, root, dirty) && c == root + other
    ensures ApplyAll(c, nos) == dirty + other <==> WholeDiff(root, dirty, nos)
  {
    var after := ApplyAll(c, nos);
    if WholeDiff(root, dirty, nos) {
      forall p ensures (p in after <==> p in dirty + other) && (p in after ==> after[p] == (dirty + other)[p]) {
        ApplyAllAt(root, dirty, c, nos, p);
      }
    }
    if after == dirty + other {
      forall p | p in root && p !in dirty ensures Deletes(nos, p) {
        ApplyAllAt(root, dirty, c, nos, p);
      }
      forall p | p in dirty && (p !in root || root[p] != dirty[p]) ensures Updates(nos, p) {
        ApplyAllAt(root, dirty, c, nos, p);
      }
    }
  }

  /** The notification would change the cache. */
  ghost predicate Effective(c: Tree, n: Notification) {
    (exists p :: p in n.deletes && p in c) || (exists p :: p in n.updates && (p !in c || c[p] != n.updates[p]))
  }

  /** Parts of a diff never undo one another, so they leave a cache as it was exactly when each of them does. */
  lemma UntouchedExactlyWhen(root: Tree, dirty: Tree, c: Tree, nos: seq<Notification>)
    requires PartOfDiff(root, dirty, nos)
    ensures ApplyAll(c, nos) == c <==> forall i :: 0 <= i < |nos| ==> !Effective(c, nos[i])
  {
    var after := ApplyAll(c, nos);
    if forall i :: 0 <= i < |nos| ==> !Effective(c, nos[i]) {
      forall p ensures (p in after <==> p in c) && (p in c ==> after[p] == c[p]) {
        ApplyAllAt(root, dirty, c, nos, p);
      }
    }
    if after == c {
      forall i | 0 <= i < |nos| ensures !Effective(c, nos[i]) {
        forall p | p in nos[i].deletes ensures p !in c {
          ApplyAllAt(root, dirty, c, nos, p);
        }
        forall p | p in nos[i].updates ensures p in c && c[p] == nos[i].updates[p] {
          ApplyAllAt(root, dirty, c, nos, p);
        }
      }
    }
  }

  // ---------------------------------------------------------------------
  // Sending
  // ---------------------------------------------------------------------

  /** None of the first n notifications is rejected. */
  predicate Going(fate: nat -> Fate, n: nat) {
    n == 0 || (Going(fate, n - 1) && fate(n - 1) != Rejected)
  }

  /** The notifications taken among the first n, up to the first rejected one. */
  function TakenOf(nos: seq<Notification>, fate: nat -> Fate, n: nat): seq<Notification>
    requires n <= |nos|
  {
    if n == 0 then []
    else TakenOf(nos, fate, n - 1) + (if Going(fate, n) && fate(n - 1) == Taken then [nos[n - 1]] else [])
  }

  lemma ApplyAllAppend(c: Tree, nos: seq<Notification>, n: Notification)
    ensures ApplyAll(c, nos + [n]) == Apply(ApplyAll(c, nos), n)
  {
    assert (nos + [n])[..|nos|] == nos;
  }

  lemma {:induction false} SendMeaning(c: Tree, nos: seq<Notification>, fate: nat -> Fate, n: nat)
    requires n <= |nos|
    ensures Send(c, nos, fate, n) == (ApplyAll(c, TakenOf(nos, fate, n)), Going(fate, n))
  {
    if n > 0 {
      SendMeaning(c, nos, fate, n - 1);
      ApplyAllAppend(c, TakenOf(nos, fate, n - 1), nos[n - 1]);
      assert TakenOf(nos, fate, n - 1) + [] == TakenOf(nos, fate, n - 1);
    }
  }

  lemma {:induction false} TakenPartOfDiff(root: Tree, dirty: Tree, nos: seq<Notification>, fate: nat -> Fate, n: nat)
    requires n <= |nos| && PartOfDiff(root, dirty, nos)
    ensures PartOfDiff(root, dirty, TakenOf(nos, fate, n))
  {
    if n > 0 {
      TakenPartOfDiff(root, dirty, nos, fate, n - 1);
    }
  }

  ghost predicate AllTaken(op: Op) {
    forall i :: op.fate(i) == Taken
  }

  lemma {:induction false} TakenIsAll(nos: seq<Notification>, fate: nat -> Fate, n: nat)
    requires n <= |nos| && forall i :: fate(i) == Taken
    ensures Going(fate, n) && TakenOf(nos, fate, n) == nos[..n]
  {
    if n > 0 {
      TakenIsAll(nos, fate, n - 1);
      assert nos[..n] == nos[..n - 1] + [nos[n - 1]];
    }
  }
}
