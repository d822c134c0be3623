/** The gNMI server object: Set works in place, with a deferred rollback, and updates the cache notification by notification. */
module DatastoreObject {
  import opened Wrappers
  import opened Datastore

  lemma {:induction false} SendStopped(c: Tree, nos: seq<Notification>, fate: nat -> Fate, k: nat, n: nat)
    requires k <= n <= |nos| && !Send(c, nos, fate, k).1
    ensures Send(c, nos, fate, n) == Send(c, nos, fate, k)
    decreases n
  {
    if k < n {
      SendStopped(c, nos, fate, k, n - 1);
    }
  }

  method PermittedAll(env: Env, user: string, paths: set<Path>) returns (ok: bool)
    ensures ok <==> forall p :: p in paths ==> env.permits(user, p)
  {
    var rest := paths;
    while rest != {}
      invariant rest <= paths
      invariant forall p :: p in paths && p !in rest ==> env.permits(user, p)
      decreases rest
    {
      var p :| p in rest;
      if !env.permits(user, p) {
        return false;
      }
      rest := rest - {p};
    }
    return true;
  }

  /** checkWritePermission. */
  method CheckWritePermission(env: Env, user: string, nos: seq<Notification>) returns (ok: bool)
    ensures ok <==> AllPermitted(env, user, nos)
  {
    for i := 0 to |nos|
      invariant AllPermitted(env, user, nos[..i])
    {
      assert nos[..i + 1] == nos[..i] + [nos[i]];
      var deletes := PermittedAll(env, user, nos[i].deletes);
      if !deletes {
        return false;
      }
      var updates := PermittedAll(env, user, nos[i].updates.Keys);
      if !updates {
        return false;
      }
      assert Permitted(env, user, nos[i]);
    }
    assert nos[..|nos|] == nos;
    return true;
  }

  /** The schema, then every validator in turn. */
  method Validate(env: Env, t: Tree) returns (ok: bool)
    ensures ok == AllValid(env, t)
  {
    if !env.valid(t) {
      return false;
    }
    for i := 0 to |env.validators|
      invariant forall j :: 0 <= j < i ==> env.validators[j](t)
    {
      if !env.validators[i](t) {
        return false;
      }
    }
    return true;
  }

  class Server {
    const env: Env
    var config: Tree
    var state: Tree
    var cache: Tree

    constructor (env: Env, s: Store)
      ensures this.env == env && Contents() == s
    {
      this.env, config, state, cache := env, s.config, s.state, s.cache;
    }

    ghost function Contents(): Store
      reads this
    {
      Store(config, state, cache)
    }

    /** updateCacheNotifs. */
    method UpdateCacheNotifs(nos: seq<Notification>, fate: nat -> Fate) returns (ok: bool)
      modifies this`cache
      ensures (cache, ok) == Send(old(cache), nos, fate, |nos|)
    {
      for i := 0 to |nos|
        invariant Send(old(cache), nos, fate, i) == (cache, true)
      {
        match fate(i)
        case Taken =>
          cache := (cache - nos[i].deletes) + nos[i].updates;
        case Stale =>
        case Rejected =>
          SendStopped(old(cache), nos, fate, i + 1, |nos|);
          return false;
      }
      return true;
    }

    /** set with preferShadowPath. */
    method SetConfig(op: Op) returns (ok: bool)
      modifies this
      ensures (Contents(), ok) == Datastore.SetConfig(env, old(Contents()), op)
    {
      var prevRoot := config;
      ok := ChangeConfig(prevRoot, op);
      if !ok {
        config := prevRoot;
      }
    }

    /** The part of set that the rollback surrounds. The config root may be left half edited. */
    method ChangeConfig(prevRoot: Tree, op: Op) returns (ok: bool)
      requires prevRoot == config
      modifies this`config, this`cache
      ensures (Store(if ok then config else prevRoot, state, cache), ok) == Datastore.SetConfig(env, old(Contents()), op)
    {
      var (dirty, edited) := Unmarshal(env, config, Edits(op.req));
      config := dirty;
      if !edited {
        return false;
      }
      config := env.defaults(config);
      var valid := Validate(env, config);
      if !valid {
        return false;
      }
      var nos := env.diff(prevRoot, config);
      if env.authorizes {
        var allowed := CheckWritePermission(env, op.user, nos);
        if !allowed {
          return false;
        }
      }
      ok := UpdateCacheNotifs(nos, op.fate);
    }

    /** set on the state root. */
    method SetState(op: Op) returns (ok: bool)
      modifies this
      ensures (Contents(), ok) ==
              if UpdateOnly(op.req) then SetStateFast(env, old(Contents()), op) else SetStateByDiff(env, old(Contents()), op)
    {
      if |op.req.deletes| + |op.req.replacements| == 0 {
        var (fragment, edited) := Unmarshal(env, map[], Edits(op.req));
        if !edited {
          return false;
        }
        var sent := UpdateCacheNotifs(env.diff(map[], fragment), op.fate);
        if !sent {
          return false;
        }
        var (dirty, again) := Unmarshal(env, state, Edits(op.req));
        state := dirty;
        return again;
      }
      var prevRoot := state;
      var (dirty, edited) := Unmarshal(env, state, Edits(op.req));
      state := dirty;
      ok := edited;
      if ok {
        ok := UpdateCacheNotifs(env.diff(prevRoot, state), op.fate);
      }
      if !ok {
        state := prevRoot;
      }
    }

    method Set(op: Op) returns (ok: bool)
      modifies this
      ensures (Contents(), ok) == Datastore.Set(env, old(Contents()), op)
    {
      match op.kind
      case Config => ok := SetConfig(op);
      case State => ok := SetState(op);
    }
  }
}
