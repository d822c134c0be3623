/**
 * ocRIBAttrIndicesTracker of bgp/gobgp.go: indices for attribute values, kept
 * from one population round to the next as long as the value stays in use.
 */
module AttrIndex {

  const TWO_64 := 0x1_0000_0000_0000_0000
  const MAX_INT := 0x7fff_ffff_ffff_ffff

  datatype Tracker<T> = Tracker(lastIndex: nat, allocs: map<T, nat>, inUse: map<nat, T>, inUseNext: map<nat, T>)

  function Empty<T>(): Tracker<T> {
    Tracker(0, map[], map[], map[])
  }

  function Begin<T>(st: Tracker<T>): Tracker<T> {
    st.(inUseNext := map[])
  }

  /** `i` is in use for `key` and has not been asked for in this round. */
  predicate Unused<T(==)>(st: Tracker<T>, i: nat, key: T) {
    i in st.inUse && st.inUse[i] == key && i !in st.inUseNext
  }

  /** One of the indices `seen` is an unused index of `key`. */
  predicate Dropped<T(==)>(st: Tracker<T>, seen: set<nat>, key: T) {
    exists i :: i in seen && Unused(st, i, key)
  }

  function Complete<T(==)>(st: Tracker<T>): Tracker<T> {
    var kept := map k | k in st.allocs && !Dropped(st, st.inUse.Keys, k) :: st.allocs[k];
    Tracker(st.lastIndex, kept, st.inUseNext, map[])
  }

  datatype Answer<T> =
    | Index(i: nat, tracker: Tracker<T>)
    | TooMany   // log.Fatal
    | Spins     // the search loop never re-reads `ok`, so entering it once means staying in it

  /** getOrAllocIndex. The counter is 64 bits wide and wraps around. */
  function Get<T(==)>(st: Tracker<T>, key: T): Answer<T> {
    if key in st.allocs then
      Index(st.allocs[key], st.(inUseNext := st.inUseNext[st.allocs[key] := key]))
    else if |st.inUse| == MAX_INT then TooMany
    else
      var i := (st.lastIndex + 1) % TWO_64;
      if i in st.inUse then Spins
      else Index(i, Tracker(i, st.allocs[key := i], st.inUse[i := key], st.inUseNext[i := key]))
  }

  // ---------------------------------------------------------------------
  // The invariant
  // ---------------------------------------------------------------------

  ghost predicate Inverse<T>(allocs: map<T, nat>, inUse: map<nat, T>) {
    && (forall k :: k in allocs ==> allocs[k] in inUse && inUse[allocs[k]] == k)
    && (forall i :: i in inUse ==> inUse[i] in allocs && allocs[inUse[i]] == i)
  }

  ghost predicate Valid<T>(st: Tracker<T>) {
    && Inverse(st.allocs, st.inUse)
    && (forall i :: i in st.inUse ==> 1 <= i <= st.lastIndex)
    && (forall i :: i in st.inUseNext ==> i in st.inUse && st.inUse[i] == st.inUseNext[i])
  }

  /** Below 2^64 allocations the search never spins, and what it returns is new. */
  lemma GetKeepsValid<T>(st: Tracker<T>, key: T)
    requires Valid(st) && st.lastIndex < 0xffff_ffff_ffff_ffff
    ensures !Get(st, key).Spins?
    ensures Get(st, key).TooMany? <==> key !in st.allocs && |st.inUse| == 0x7fff_ffff_ffff_ffff
    ensures Get(st, key).Index? ==>
              var a := Get(st, key);
              && Valid(a.tracker)
              && st.lastIndex <= a.tracker.lastIndex <= st.lastIndex + 1
              && key in a.tracker.allocs && a.tracker.allocs[key] == a.i
              && a.i in a.tracker.inUseNext
              && (key in st.allocs ==> a.i == st.allocs[key])
              && (key !in st.allocs ==> a.i == a.tracker.lastIndex > st.lastIndex)
              && (forall k :: k in st.allocs ==> k in a.tracker.allocs && a.tracker.allocs[k] == st.allocs[k])
  {
  }

  lemma {:induction false} AtMost(s: set<nat>, n: nat)
    requires forall i :: i in s ==> 1 <= i <= n
    ensures |s| <= n
    decreases n
  {
    if n == 0 {
      assert s == {};
    } else {
      AtMost(s - {n}, n - 1);
      assert n in s ==> s == (s - {n}) + {n};
      assert n !in s ==> s == s - {n};
    }
  }

  /** There are never more indices in use than have been allocated, so the limit is out of reach for as many calls. */
  lemma NeverTooMany<T>(st: Tracker<T>, key: T)
    requires Valid(st) && st.lastIndex < 0x7fff_ffff_ffff_ffff
    ensures Get(st, key).Index?
  {
    AtMost(st.inUse.Keys, st.lastIndex);
    assert |st.inUse| == |st.inUse.Keys|;
    GetKeepsValid(st, key);
  }

  lemma CompleteKeepsValid<T>(st: Tracker<T>)
    requires Valid(st)
    ensures Valid(Complete(st)) && Complete(st).lastIndex == st.lastIndex
    ensures forall k :: k in Complete(st).allocs <==> k in st.allocs && st.allocs[k] in st.inUseNext
    ensures forall k :: k in Complete(st).allocs ==> Complete(st).allocs[k] == st.allocs[k]
  {
    forall k ensures k in Complete(st).allocs <==> k in st.allocs && st.allocs[k] in st.inUseNext {
      if k in st.allocs && st.allocs[k] !in st.inUseNext {
        assert Unused(st, st.allocs[k], k);
      }
    }
  }

  // ---------------------------------------------------------------------
  // Runs
  // ---------------------------------------------------------------------

  datatype Op<T> = BeginRound | GetIndex(key: T) | CompleteRound

  datatype Grant<T> = Grant(key: T, index: nat)

  datatype Outcome<T> =
    | Running(tracker: Tracker<T>, grants: seq<Grant<T>>)
    | Stopped      // log.Fatal
    | SpinsForever

  /** Any sequence of calls, with a record of every index handed out. */
  function Run<T(==)>(ops: seq<Op<T>>): Outcome<T> {
    if ops == [] then Running(Empty(), [])
    else
      match Run(ops[..|ops| - 1])
      case Running(st, grants) => (
        match ops[|ops| - 1]
        case BeginRound => Running(Begin(st), grants)
        case CompleteRound => Running(Complete(st), grants)
        case GetIndex(key) =>
          match Get(st, key)
          case TooMany => Stopped
          case Spins => SpinsForever
          case Index(i, st') => Running(st', grants + [Grant(key, i)]))
      case bad => bad
  }

  /** Every index handed out so far has one owner for good. */
  ghost predicate Owned<T>(grants: seq<Grant<T>>, st: Tracker<T>) {
    && (forall g :: g in grants ==> 1 <= g.index <= st.lastIndex)
    && (forall g, h :: g in grants && h in grants && g.index == h.index ==> g.key == h.key)
    && (forall i :: i in st.inUse ==> Grant(st.inUse[i], i) in grants)
  }

  lemma GetKeepsOwned<T>(st: Tracker<T>, grants: seq<Grant<T>>, key: T)
    requires Valid(st) && st.lastIndex < TWO_64 - 1 && Owned(grants, st)
    requires Get(st, key).Index?
    ensures Owned(grants + [Grant(key, Get(st, key).i)], Get(st, key).tracker)
  {
    var a := Get(st, key);
    GetKeepsValid(st, key);
    var more := grants + [Grant(key, a.i)];
    assert forall g :: g in more <==> g in grants || g == Grant(key, a.i);
    if key in st.allocs {
      assert Grant(st.inUse[a.i], a.i) in grants;
    }
  }

  /**
   * Over every run of fewer than 2^64 calls: the search never spins, the maps stay inverse, and no index ever serves
   * two keys. A run of fewer than 2^63 calls is not stopped either.
   */
  lemma {:induction false} RunIsSound<T>(ops: seq<Op<T>>)
    requires |ops| < 0x1_0000_0000_0000_0000
    ensures !Run(ops).SpinsForever?
    ensures |ops| <= 0x7fff_ffff_ffff_ffff ==> Run(ops).Running?
    ensures Run(ops).Running? ==>
              var r := Run(ops);
              Valid(r.tracker) && Owned(r.grants, r.tracker) && r.tracker.lastIndex <= |ops|
  {
    if ops != [] {
      var n := |ops| - 1;
      RunIsSound(ops[..n]);
      var before := Run(ops[..n]);
      if before.Running? {
        match ops[n] {
          case BeginRound =>
          case CompleteRound => CompleteKeepsValid(before.tracker);
          case GetIndex(key) =>
            GetKeepsValid(before.tracker, key);
            if |ops| <= 0x7fff_ffff_ffff_ffff {
              NeverTooMany(before.tracker, key);
            }
            if Get(before.tracker, key).Index? {
              GetKeepsOwned(before.tracker, before.grants, key);
            }
        }
      }
    }
  }

  // ---------------------------------------------------------------------
  // Rounds
  // ---------------------------------------------------------------------

  /** The calls of one round after Begin. */
  function GetAll<T(==)>(st: Tracker<T>, keys: seq<T>): Answer<T> {
    if keys == [] then Index(0, st)
    else
      match GetAll(st, keys[..|keys| - 1])
      case Index(_, mid) => Get(mid, keys[|keys| - 1])
      case bad => bad
  }

  function Round<T(==)>(st: Tracker<T>, keys: seq<T>): Answer<T> {
    match GetAll(Begin(st), keys)
    case Index(i, mid) => Index(i, Complete(mid))
    case bad => bad
  }

  lemma {:induction false} GetAllMarks<T>(st: Tracker<T>, keys: seq<T>)
    requires Valid(st) && st.inUseNext == map[]
    requires st.lastIndex + |keys| < TWO_64
    ensures !GetAll(st, keys).Spins?
    ensures st.lastIndex + |keys| <= 0x7fff_ffff_ffff_ffff ==> GetAll(st, keys).Index?
    ensures GetAll(st, keys).Index? ==>
              var mid := GetAll(st, keys).tracker;
              && Valid(mid) && mid.lastIndex <= st.lastIndex + |keys|
              && (forall k :: k in st.allocs ==> k in mid.allocs && mid.allocs[k] == st.allocs[k])
              && (forall k :: k in mid.allocs ==> (mid.allocs[k] in mid.inUseNext <==> k in keys))
              && (forall k :: k in keys ==> k in mid.allocs)
  {
    if keys != [] {
      var n := |keys| - 1;
      GetAllMarks(st, keys[..n]);
      assert forall k :: k in keys <==> k in keys[..n] || k == keys[n];
      if GetAll(st, keys[..n]).Index? {
        GetKeepsValid(GetAll(st, keys[..n]).tracker, keys[n]);
        if st.lastIndex + |keys| <= 0x7fff_ffff_ffff_ffff {
          NeverTooMany(GetAll(st, keys[..n]).tracker, keys[n]);
        }
      }
    }
  }

  /** A round leaves indices for exactly the keys it used, and those that had one before keep it. */
  lemma RoundKeepsIndices<T>(st: Tracker<T>, keys: seq<T>)
    requires Valid(st) && st.lastIndex + |keys| < 0x1_0000_0000_0000_0000
    ensures !Round(st, keys).Spins?
    ensures st.lastIndex + |keys| <= 0x7fff_ffff_ffff_ffff ==> Round(st, keys).Index?
    ensures Round(st, keys).Index? ==>
              var after := Round(st, keys).tracker;
              && Valid(after)
              && (forall k :: k in after.allocs <==> k in keys)
              && (forall k :: k in keys && k in st.allocs ==> after.allocs[k] == st.allocs[k])
              && after.lastIndex <= st.lastIndex + |keys|
  {
    GetAllMarks(Begin(st), keys);
    if GetAll(Begin(st), keys).Index? {
      CompleteKeepsValid(GetAll(Begin(st), keys).tracker);
    }
  }

  // ---------------------------------------------------------------------
  // The object
  // ---------------------------------------------------------------------

  lemma OneMoreSeen<T>(st: Tracker<T>, seen: set<nat>, i: nat, k: T)
    requires i in st.inUse
    ensures Dropped(st, seen + {i}, k) <==> Dropped(st, seen, k) || (i !in st.inUseNext && k == st.inUse[i])
  {
    if Dropped(st, seen, k) {
      var j :| j in seen && Unused(st, j, k);
      assert j in seen + {i};
    }
    if i !in st.inUseNext && k == st.inUse[i] {
      assert i in seen + {i} && Unused(st, i, k);
    }
  }

  class IndexTracker<T(==)> {
    var lastIndex: nat
    var allocs: map<T, nat>
    var inUse: map<nat, T>
    var inUseNext: map<nat, T>

    function Value(): Tracker<T>
      reads this
    {
      Tracker(lastIndex, allocs, inUse, inUseNext)
    }

    constructor ()
      ensures Value() == Empty()
    {
      lastIndex, allocs, inUse, inUseNext := 0, map[], map[], map[];
    }

    method BeginAllocation()
      modifies this
      ensures Value() == Begin(old(Value()))
    {
      inUseNext := map[];
    }

    method CompleteAllocation()
      modifies this
      ensures Value() == Complete(old(Value()))
    {
      ghost var start := Value();
      var todo := inUse.Keys;
      while todo != {}
        invariant todo <= inUse.Keys
        invariant lastIndex == start.lastIndex && inUse == start.inUse && inUseNext == start.inUseNext
        invariant allocs == map k | k in start.allocs && !Dropped(start, start.inUse.Keys - todo, k) :: start.allocs[k]
        decreases todo
      {
        var i :| i in todo;
        ghost var seen := start.inUse.Keys - todo;
        assert start.inUse.Keys - (todo - {i}) == seen + {i};
        if i !in inUseNext {
          allocs := allocs - {inUse[i]};
        }
        forall k ensures Dropped(start, seen + {i}, k) <==> Dropped(start, seen, k) || (i !in start.inUseNext && k == start.inUse[i]) {
          OneMoreSeen(start, seen, i, k);
        }
        todo := todo - {i};
      }
      assert start.inUse.Keys - todo == start.inUse.Keys;
      inUse := inUseNext;
      inUseNext := map[];
    }

    /** getOrAllocIndex. On log.Fatal and on an endless search it does not return; the answer says so. */
    method GetOrAllocIndex(key: T) returns (a: Answer<T>)
      modifies this
      ensures a == Get(old(Value()), key)
      ensures a.Index? ==> Value() == a.tracker
    {
      if key in allocs {
        inUseNext := inUseNext[allocs[key] := key];
        return Index(allocs[key], Tracker(lastIndex, allocs, inUse, inUseNext));
      }
      if |inUse| == MAX_INT {
        return TooMany;
      }
      lastIndex := (lastIndex + 1) % TWO_64;
      var ok := lastIndex in inUse;
      if ok {
        return Spins;
      }
      var i := lastIndex;
      allocs := allocs[key := i];
      inUse := inUse[i := key];
      inUseNext := inUseNext[i := key];
      return Index(i, Tracker(lastIndex, allocs, inUse, inUseNext));
    }
  }
}
