/** When exactly a delayed reboot that is accepted can deadlock with the calls already there. */
module RebootDeadlock {
  import opened Reboot

  /** Accept(t, timer) and then only what the calls and reboots already there do, to the last of `states`. */
  ghost predicate GoesOn(s: State, t: Tid, timer: Tid, states: seq<State>, actions: seq<Action>) {
    && IsPath(states, actions) && actions != [] && states[0] == s && actions[0] == Accept(t, timer)
    && OwnSteps(actions[1..])
  }

  /** No new call, and no other delayed reboot accepted. */
  ghost predicate OwnSteps(actions: seq<Action>) {
    forall a :: a in actions ==> !a.CallReboot? && !a.CallCancel? && !a.Accept?
  }

  ghost predicate CanDeadlock(s: State, t: Tid, timer: Tid) {
    exists states, actions :: GoesOn(s, t, timer, states, actions) && Deadlocked(states[|actions|])
  }

  /** One CancelReboot call is taking its signal back, and there is no other. */
  ghost predicate LoneDrain(s: State, c: Tid) {
    Is(s, c, CancelDrain) && forall u :: u in s.threads && u != c ==> !CancelInFlight(s.threads[u])
  }

  // ---------------------------------------------------------------------
  // It can if a lone call is taking its signal back
  // ---------------------------------------------------------------------

  /** Everybody else has finished or is waiting for the mutex to call for a reboot. */
  ghost predicate Crowd(s: State, c: Tid, r: Tid, waiting: set<Tid>) {
    && Is(s, c, CancelDrain) && Is(s, r, Offering) && c !in waiting && r !in waiting
    && (forall u :: u in waiting ==> u in s.threads && s.threads[u].RebootLock?)
    && forall u :: u in s.threads && u != c && u != r && u !in waiting ==> Finished(s.threads[u])
  }

  /** Those that wait for the mutex are refused one by one. */
  lemma {:induction false} CrowdIsRefused(s: State, c: Tid, r: Tid, waiting: set<Tid>) returns (states: seq<State>, actions: seq<Action>)
    requires Crowd(s, c, r, waiting) && s.owner == {} && s.buffered == 0 && s.pending
    ensures IsPath(states, actions) && states[0] == s && OwnSteps(actions) && Deadlocked(states[|actions|])
    decreases waiting
  {
    if waiting == {} {
      states, actions := [s], [];
    } else {
      var u :| u in waiting;
      var first := OneIsRefused(s, u);
      var more, acts := CrowdIsRefused(first[2], c, r, waiting - {u});
      PathAppend(first, [Lock(u), Refuse(u)], more, acts);
      states, actions := first + more[1..], [Lock(u), Refuse(u)] + acts;
    }
  }

  lemma OneIsRefused(s: State, u: Tid) returns (states: seq<State>)
    requires s.owner == {} && s.pending && u in s.threads && s.threads[u].RebootLock?
    ensures IsPath(states, [Lock(u), Refuse(u)]) && states[0] == s
    ensures states[2] == s.(threads := s.threads[u := Returned])
  {
    var held := s.(threads := s.threads[u := RebootHeld(s.threads[u].delayed)], owner := {u});
    var last := s.(threads := s.threads[u := Returned]);
    assert held.threads[u := Returned] == last.threads && held.owner - {u} == {};
    Three(s, Lock(u), held, Refuse(u), last);
    states := [s, held, last];
  }

  /** What the invariant leaves to a state in which a delayed reboot is about to be accepted. */
  lemma BeforeAccept(s: State, t: Tid, timer: Tid, c: Tid)
    requires Inv(s) && Enabled(s, Accept(t, timer)) && Is(s, c, CancelDrain)
    ensures s.owner == {t} && s.buffered == 1 && c != t
    ensures forall u :: u in s.threads && u != t ==> !In(s.threads[u], Holding)
    ensures forall u :: u in s.threads && u != c ==> !In(s.threads[u], Unserved)
    ensures forall u :: u in s.threads ==> !In(s.threads[u], Live)
  {
    Present(s.threads, t, Holding);
    Present(s.threads, c, Unserved);
    assert At(s.threads, Live) == {};
    assert At(s.threads, Offers) <= At(s.threads, Live);
    assert At(s.threads, Offers) == {};
    forall u | u in s.threads ensures u != t ==> !In(s.threads[u], Holding) {
      assert u in At(s.threads, Holding) ==> u == t;
    }
    forall u | u in s.threads ensures u != c ==> !In(s.threads[u], Unserved) {
      assert u in At(s.threads, Unserved) ==> u == c;
    }
    forall u | u in s.threads ensures !In(s.threads[u], Live) {
      assert u !in At(s.threads, Live);
    }
  }

  lemma AloneIsCrowd(s: State, t: Tid, timer: Tid, c: Tid) returns (waiting: set<Tid>)
    requires Inv(s) && Enabled(s, Accept(t, timer)) && LoneDrain(s, c)
    ensures Crowd(s.(threads := s.threads[t := Returned][timer := Offering]), c, timer, waiting)
  {
    BeforeAccept(s, t, timer, c);
    waiting := set u | u in s.threads && s.threads[u].RebootLock?;
    forall u | u in s.threads && u != c && u != t && u !in waiting ensures Finished(s.threads[u]) {
      assert !CancelInFlight(s.threads[u]) && !In(s.threads[u], Holding) && !In(s.threads[u], Live);
    }
  }

  lemma AcceptedAndUnlocked(s: State, t: Tid, timer: Tid, s1: State, s2: State)
    requires Enabled(s, Accept(t, timer)) && s.owner == {t} && s.buffered == 1
    requires s1 == State(s.threads[timer := Waiting][t := RebootExit], {t}, true, 1)
    requires s2 == State(s.threads[timer := Waiting][t := Returned], {}, true, 1)
    ensures IsPath([s, s1, s2], [Accept(t, timer), Unlock(t)])
  {
    assert s1.threads[t := Returned] == s2.threads && s1.owner - {t} == {};
    Three(s, Accept(t, timer), s1, Unlock(t), s2);
  }

  lemma TakenFromSlot(s: State, timer: Tid, s': State)
    requires Is(s, timer, Waiting) && s.buffered == 1 && s'.threads == s.threads[timer := Offering]
    requires s' == s.(threads := s'.threads, buffered := 0)
    ensures IsPath([s, s'], [TakeCancel(timer)])
  {
  }

  /** The new reboot takes the signal. */
  lemma SignalIsStolen(s: State, t: Tid, timer: Tid) returns (states: seq<State>)
    requires Enabled(s, Accept(t, timer)) && s.owner == {t} && s.buffered == 1
    ensures IsPath(states, [Accept(t, timer), Unlock(t)] + [TakeCancel(timer)]) && states[0] == s
    ensures states[3] == State(s.threads[t := Returned][timer := Offering], {}, true, 0)
  {
    var s1 := State(s.threads[timer := Waiting][t := RebootExit], {t}, true, 1);
    var s2 := State(s.threads[timer := Waiting][t := Returned], {}, true, 1);
    var s3 := State(s.threads[t := Returned][timer := Offering], {}, true, 0);
    AcceptedAndUnlocked(s, t, timer, s1, s2);
    TakenFromSlot(s2, timer, s3);
    PathAppend([s, s1, s2], [Accept(t, timer), Unlock(t)], [s2, s3], [TakeCancel(timer)]);
    states := [s, s1, s2] + [s2, s3][1..];
  }

  lemma LoneDrainDeadlocks(s: State, t: Tid, timer: Tid, c: Tid)
    requires Inv(s) && Enabled(s, Accept(t, timer)) && LoneDrain(s, c)
    ensures CanDeadlock(s, t, timer)
  {
    BeforeAccept(s, t, timer, c);
    var waiting := AloneIsCrowd(s, t, timer, c);
    var first := SignalIsStolen(s, t, timer);
    var acts := [Accept(t, timer), Unlock(t)] + [TakeCancel(timer)];
    var more, rest := CrowdIsRefused(first[3], c, timer, waiting);
    PathAppend(first, acts, more, rest);
    var states, actions := first + more[1..], acts + rest;
    assert actions[1..] == [Unlock(t), TakeCancel(timer)] + rest;
    assert GoesOn(s, t, timer, states, actions);
  }

  // ---------------------------------------------------------------------
  // And only then
  // ---------------------------------------------------------------------

  lemma {:induction false} ClearedStaysClear(states: seq<State>, actions: seq<Action>, i: nat, j: nat)
    requires IsPath(states, actions) && 1 <= i <= j < |states| && OwnSteps(actions[1..]) && !states[i].pending
    ensures !states[j].pending
    decreases j
  {
    if i < j {
      ClearedStaysClear(states, actions, i, j - 1);
      assert actions[1..][j - 2] == actions[j - 1];
      assert Steps(states[j - 1], actions[j - 1], states[j]);
    }
  }

  /** With the flag set all the time, nobody newly comes to take a signal back. */
  lemma {:induction false} DrainedBefore(states: seq<State>, actions: seq<Action>, i: nat, j: nat, c: Tid)
    requires IsPath(states, actions) && 1 <= i <= j < |states| && (forall k :: 1 <= k <= j ==> states[k].pending)
    requires Is(states[j], c, CancelDrain)
    ensures Is(states[i], c, CancelDrain)
    decreases j
  {
    if i < j {
      assert Steps(states[j - 1], actions[j - 1], states[j]);
      DrainedBefore(states, actions, i, j - 1, c);
    }
  }

  /** Program points a CancelReboot call does not get past while the flag is set, other than by taking a signal back. */
  predicate Held(pc: PC) {
    CancelInFlight(pc) && !pc.CancelDrain? && !pc.CancelExit?
  }

  lemma StepHolds(s: State, a: Action, s': State, u: Tid)
    requires Steps(s, a, s') && s.pending && s'.pending && u in s.threads && Held(s.threads[u])
    ensures u in s'.threads && Held(s'.threads[u])
  {
    if OfReboot(a) {
      RebootStepHolds(s, a, s', u);
    } else if OfCancel(a) {
      CancelStepHolds(s, a, s', u);
    }
  }

  lemma RebootStepHolds(s: State, a: Action, s': State, u: Tid)
    requires Steps(s, a, s') && u in s.threads && Held(s.threads[u]) && OfReboot(a)
    ensures u in s'.threads && Held(s'.threads[u])
  {
  }

  lemma CancelStepHolds(s: State, a: Action, s': State, u: Tid)
    requires Steps(s, a, s') && s.pending && s'.pending && u in s.threads && Held(s.threads[u]) && OfCancel(a)
    ensures u in s'.threads && Held(s'.threads[u])
  {
  }

  lemma {:induction false} StaysHeld(states: seq<State>, actions: seq<Action>, j: nat, u: Tid)
    requires IsPath(states, actions) && 1 <= j < |states| && (forall k :: 1 <= k <= j ==> states[k].pending)
    requires u in states[1].threads && Held(states[1].threads[u])
    ensures u in states[j].threads && Held(states[j].threads[u])
    decreases j
  {
    if j > 1 {
      StaysHeld(states, actions, j - 1, u);
      StepHolds(states[j - 1], actions[j - 1], states[j], u);
    }
  }

  lemma PendingThroughout(s: State, t: Tid, timer: Tid, states: seq<State>, actions: seq<Action>)
    requires GoesOn(s, t, timer, states, actions) && states[|actions|].pending
    ensures forall k :: 1 <= k <= |actions| ==> states[k].pending
  {
    forall k | 1 <= k <= |actions| ensures states[k].pending {
      if !states[k].pending {
        ClearedStaysClear(states, actions, k, |actions|);
      }
    }
  }

  /** The call that is stuck at the end was taking its signal back at the beginning. */
  lemma StuckFromTheStart(s: State, t: Tid, timer: Tid, states: seq<State>, actions: seq<Action>, c: Tid)
    requires GoesOn(s, t, timer, states, actions) && (forall k :: 1 <= k <= |actions| ==> states[k].pending)
    requires Is(states[|actions|], c, CancelDrain)
    ensures Is(s, c, CancelDrain)
  {
    DrainedBefore(states, actions, 1, |actions|, c);
    assert Steps(s, Accept(t, timer), states[1]);
  }

  /** Another call could not have come to its end. */
  lemma NoOtherCall(s: State, t: Tid, timer: Tid, states: seq<State>, actions: seq<Action>, c: Tid, u: Tid)
    requires Inv(s) && GoesOn(s, t, timer, states, actions) && (forall k :: 1 <= k <= |actions| ==> states[k].pending)
    requires Is(s, c, CancelDrain) && u in s.threads && u != c && CancelInFlight(s.threads[u])
    ensures u in states[|actions|].threads && Held(states[|actions|].threads[u])
  {
    assert Steps(s, Accept(t, timer), states[1]);
    BeforeAccept(s, t, timer, c);
    assert Held(s.threads[u]) && u != t && u != timer;
    assert states[1].threads[u] == s.threads[u];
    StaysHeld(states, actions, |actions|, u);
  }

  /** Nobody but c and r is still under way. */
  ghost predicate Stuck(s: State, c: Tid, r: Tid) {
    && s.pending && Is(s, c, CancelDrain) && Is(s, r, Offering)
    && forall u :: u in s.threads && u != c && u != r ==> Finished(s.threads[u])
  }

  lemma NobodyHeld(s: State, c: Tid, r: Tid, u: Tid)
    requires Stuck(s, c, r) && u in s.threads
    ensures !Held(s.threads[u])
  {
  }

  lemma NotInFlight(s: State, t: Tid, timer: Tid, states: seq<State>, actions: seq<Action>, c: Tid, r: Tid, u: Tid)
    requires Inv(s) && GoesOn(s, t, timer, states, actions) && (forall k :: 1 <= k <= |actions| ==> states[k].pending)
    requires Stuck(states[|actions|], c, r) && Is(s, c, CancelDrain) && u in s.threads && u != c
    ensures !CancelInFlight(s.threads[u])
  {
    if CancelInFlight(s.threads[u]) {
      NoOtherCall(s, t, timer, states, actions, c, u);
      NobodyHeld(states[|actions|], c, r, u);
    }
  }

  lemma StuckNeedsLoneDrain(s: State, t: Tid, timer: Tid, states: seq<State>, actions: seq<Action>, c: Tid, r: Tid)
    requires Inv(s) && GoesOn(s, t, timer, states, actions) && Stuck(states[|actions|], c, r)
    ensures LoneDrain(s, c)
  {
    PendingThroughout(s, t, timer, states, actions);
    StuckFromTheStart(s, t, timer, states, actions, c);
    forall u | u in s.threads && u != c ensures !CancelInFlight(s.threads[u]) {
      NotInFlight(s, t, timer, states, actions, c, r, u);
    }
  }

  lemma DeadlockIsStuck(s: State) returns (c: Tid, r: Tid)
    requires Deadlocked(s)
    ensures Stuck(s, c, r)
  {
    c, r :| && Is(s, c, CancelDrain) && Is(s, r, Offering)
            && forall u :: u in s.threads && u != c && u != r ==> Finished(s.threads[u]);
  }

  /**
   * In every reachable state: a delayed reboot that is accepted now can deadlock with the calls already there
   * exactly when one CancelReboot call is taking its signal back and no other one is in flight.
   */
  lemma AcceptDeadlocksExactlyWhen(states: seq<State>, actions: seq<Action>, i: nat, t: Tid, timer: Tid)
    requires IsRun(states, actions) && i < |states| && Enabled(states[i], Accept(t, timer))
    ensures CanDeadlock(states[i], t, timer) <==> exists c :: LoneDrain(states[i], c)
  {
    RunKeepsInv(states, actions, i);
    var s := states[i];
    if c :| LoneDrain(s, c) {
      LoneDrainDeadlocks(s, t, timer, c);
    }
    if CanDeadlock(s, t, timer) {
      var ss, aa :| GoesOn(s, t, timer, ss, aa) && Deadlocked(ss[|aa|]);
      var c, r := DeadlockIsStuck(ss[|aa|]);
      StuckNeedsLoneDrain(s, t, timer, ss, aa, c, r);
    }
  }
}
