/**
 * The delayed-reboot and cancel protocol of gnoi/gnoi.go as a transition system:
 * any number of Reboot and CancelReboot calls and reboot goroutines share one
 * mutex, one flag, a channel with one slot and a rendezvous channel.
 */
module Reboot {

  /** Where a call or a reboot goroutine stands. */
  datatype PC =
    // Reboot
    | RebootLock(delayed: bool)   // before rebootMu.Lock
    | RebootHeld(delayed: bool)   // holds the mutex, about to read the flag
    | RebootBooting               // holds the mutex, immediate device reboot in progress
    | RebootExit                  // holds the mutex, about to unlock and return
    // CancelReboot
    | CancelLock                  // before the first Lock
    | CancelHeld                  // holds the mutex, about to read the flag
    | CancelSend                  // about to send on cancelReboot
    | CancelPoll                  // in the select
    | CancelPollLock              // the second has passed, before Lock
    | CancelPollHeld              // holds the mutex, about to read the flag
    | CancelDrain                 // the reboot has happened: taking the signal back
    | CancelClearLock             // got the finish signal, before Lock
    | CancelClearHeld             // holds the mutex, about to clear the flag
    | CancelExit                  // holds the mutex, about to unlock and return
    | Returned
    // the reboot goroutine
    | Waiting                     // in the select
    | Offering                    // cancelled, offering the finish signal
    | Firing                      // device reboot in progress
    | FiredLock                   // device reboot over, before Lock
    | FiredHeld                   // holds the mutex, about to clear the flag
    | FiredExit                   // holds the mutex, about to unlock and end
    | Cancelled
    | Fired

  type Tid = nat

  datatype State = State(
    threads: map<Tid, PC>,
    owner: set<Tid>,      // who holds rebootMu
    pending: bool,        // hasPendingReboot
    buffered: nat)        // signals in cancelReboot

  const INITIAL := State(map[], {}, false, 0)

  datatype Action =
    | CallReboot(t: Tid, delayed: bool)
    | CallCancel(t: Tid)
    | Lock(t: Tid)
    | Unlock(t: Tid)
    | Refuse(t: Tid)               // Reboot finds the flag set
    | BootNow(t: Tid)              // immediate reboot starts
    | BootDone(t: Tid)
    | Accept(t: Tid, timer: Tid)   // flag set, goroutine started
    | NothingPending(t: Tid)       // CancelReboot finds the flag clear
    | SomethingPending(t: Tid)
    | Send(t: Tid)
    | Tick(t: Tid)
    | StillPending(t: Tid)
    | NoLongerPending(t: Tid)
    | Drain(t: Tid)
    | Clear(t: Tid)                // the served canceller clears the flag
    | TakeCancel(t: Tid)           // goroutine receives from cancelReboot
    | Handover(t: Tid, canceller: Tid)
    | Fire(t: Tid)                 // the delay has passed
    | FireDone(t: Tid)
    | ClearFired(t: Tid)

  predicate Locking(pc: PC) {
    pc.RebootLock? || pc.CancelLock? || pc.CancelPollLock? || pc.CancelClearLock? || pc.FiredLock?
  }

  function AfterLock(pc: PC): PC
    requires Locking(pc)
  {
    match pc
    case RebootLock(d) => RebootHeld(d)
    case CancelLock => CancelHeld
    case CancelPollLock => CancelPollHeld
    case CancelClearLock => CancelClearHeld
    case FiredLock => FiredHeld
  }

  predicate Is(s: State, t: Tid, pc: PC) {
    t in s.threads && s.threads[t] == pc
  }

  predicate Enabled(s: State, a: Action) {
    match a
    case CallReboot(t, _) => t !in s.threads
    case CallCancel(t) => t !in s.threads
    case Lock(t) => t in s.threads && Locking(s.threads[t]) && s.owner == {}
    case Unlock(t) => Is(s, t, RebootExit) || Is(s, t, CancelExit) || Is(s, t, FiredExit)
    case Refuse(t) => (Is(s, t, RebootHeld(false)) || Is(s, t, RebootHeld(true))) && s.pending
    case BootNow(t) => Is(s, t, RebootHeld(false)) && !s.pending
    case BootDone(t) => Is(s, t, RebootBooting)
    case Accept(t, timer) => Is(s, t, RebootHeld(true)) && !s.pending && timer !in s.threads
    case NothingPending(t) => Is(s, t, CancelHeld) && !s.pending
    case SomethingPending(t) => Is(s, t, CancelHeld) && s.pending
    case Send(t) => Is(s, t, CancelSend) && s.buffered < 1
    case Tick(t) => Is(s, t, CancelPoll)
    case StillPending(t) => Is(s, t, CancelPollHeld) && s.pending
    case NoLongerPending(t) => Is(s, t, CancelPollHeld) && !s.pending
    case Drain(t) => Is(s, t, CancelDrain) && s.buffered > 0
    case Clear(t) => Is(s, t, CancelClearHeld)
    case TakeCancel(t) => Is(s, t, Waiting) && s.buffered > 0
    case Handover(t, c) => Is(s, t, Offering) && Is(s, c, CancelPoll)
    case Fire(t) => Is(s, t, Waiting)
    case FireDone(t) => Is(s, t, Firing)
    case ClearFired(t) => Is(s, t, FiredHeld)
  }

  function Go(s: State, t: Tid, pc: PC): State {
    s.(threads := s.threads[t := pc])
  }

  function Release(s: State, t: Tid, pc: PC): State {
    Go(s, t, pc).(owner := s.owner - {t})
  }

  function Apply(s: State, a: Action): State
    requires Enabled(s, a)
  {
    match a
    case CallReboot(t, d) => Go(s, t, RebootLock(d))
    case CallCancel(t) => Go(s, t, CancelLock)
    case Lock(t) => Go(s, t, AfterLock(s.threads[t])).(owner := {t})
    case Unlock(t) => Release(s, t, if s.threads[t] == FiredExit then Fired else Returned)
    case Refuse(t) => Release(s, t, Returned)
    case BootNow(t) => Go(s, t, RebootBooting)
    case BootDone(t) => Release(s, t, Returned)
    case Accept(t, timer) => Go(Go(s, timer, Waiting), t, RebootExit).(pending := true)
    case NothingPending(t) => Release(s, t, Returned)
    case SomethingPending(t) => Release(s, t, CancelSend)
    case Send(t) => Go(s, t, CancelPoll).(buffered := s.buffered + 1)
    case Tick(t) => Go(s, t, CancelPollLock)
    case StillPending(t) => Release(s, t, CancelPoll)
    case NoLongerPending(t) => Release(s, t, CancelDrain)
    case Drain(t) => Go(s, t, Returned).(buffered := s.buffered - 1)
    case Clear(t) => Go(s, t, CancelExit).(pending := false)
    case TakeCancel(t) => Go(s, t, Offering).(buffered := s.buffered - 1)
    case Handover(t, c) => Go(Go(s, t, Cancelled), c, CancelClearLock)
    case Fire(t) => Go(s, t, Firing)
    case FireDone(t) => Go(s, t, FiredLock)
    case ClearFired(t) => Go(s, t, FiredExit).(pending := false)
  }

  predicate Steps(s: State, a: Action, s': State) {
    Enabled(s, a) && s' == Apply(s, a)
  }

  // ---------------------------------------------------------------------
  // Runs
  // ---------------------------------------------------------------------

  /** `states` are what `actions` lead through, one by one, from the initial state. */
  ghost predicate IsRun(states: seq<State>, actions: seq<Action>) {
    && |states| == |actions| + 1
    && states[0] == INITIAL
    && forall i :: 0 <= i < |actions| ==> Steps(states[i], actions[i], states[i + 1])
  }

  // ---------------------------------------------------------------------
  // The invariant
  // ---------------------------------------------------------------------

  /** The groups of program points that the invariant counts. */
  datatype Group =
    | Holding    // holds rebootMu
    | Live       // a delayed reboot is waiting, firing, or being handed over to its canceller
    | Unserved   // a canceller past its send that nobody has served yet
    | Offers     // a cancelled reboot offering the finish signal
    | BootsNow   // an immediate device reboot
    | BootsLate  // a delayed device reboot

  predicate In(pc: PC, g: Group) {
    match g
    case Holding =>
      pc.RebootHeld? || pc.RebootBooting? || pc.RebootExit? || pc.CancelHeld? || pc.CancelPollHeld? ||
      pc.CancelClearHeld? || pc.CancelExit? || pc.FiredHeld? || pc.FiredExit?
    case Live =>
      pc.Waiting? || pc.Offering? || pc.Firing? || pc.FiredLock? || pc.FiredHeld? || pc.CancelClearLock? || pc.CancelClearHeld?
    case Unserved => pc.CancelPoll? || pc.CancelPollLock? || pc.CancelPollHeld? || pc.CancelDrain?
    case Offers => pc.Offering?
    case BootsNow => pc.RebootBooting?
    case BootsLate => pc.Firing?
  }

  function At(m: map<Tid, PC>, g: Group): set<Tid> {
    set t | t in m && In(m[t], g)
  }

  function Count(s: State, g: Group): nat {
    |At(s.threads, g)|
  }

  ghost predicate Inv(s: State) {
    && s.owner == At(s.threads, Holding)
    && Count(s, Holding) <= 1
    && s.buffered <= 1
    && Count(s, Unserved) == s.buffered + Count(s, Offers)
    && Count(s, Live) == (if s.pending then 1 else 0)
    && (s.pending ==> At(s.threads, BootsNow) == {})
  }

  function Weight(m: map<Tid, PC>, t: Tid, g: Group): nat {
    if t in m && In(m[t], g) then 1 else 0
  }

  lemma Moved(m: map<Tid, PC>, t: Tid, pc: PC, g: Group)
    ensures At(m[t := pc], g) == if In(pc, g) then At(m, g) + {t} else At(m, g) - {t}
    ensures |At(m[t := pc], g)| == |At(m, g)| - Weight(m, t, g) + (if In(pc, g) then 1 else 0)
  {
    assert At(m[t := pc], g) == if In(pc, g) then At(m, g) + {t} else At(m, g) - {t};
    OneInOrOut(At(m, g), t);
  }

  lemma OneInOrOut(was: set<Tid>, t: Tid)
    ensures |was + {t}| == |was| - Bit(t in was) + 1
    ensures |was - {t}| == |was| - Bit(t in was)
  {
    if t in was {
      assert was == (was - {t}) + {t};
      assert |was| == |was - {t}| + 1;
      assert was + {t} == was;
    } else {
      assert was - {t} == was;
    }
  }

  lemma Present(m: map<Tid, PC>, t: Tid, g: Group)
    requires t in m && In(m[t], g)
    ensures |At(m, g)| >= 1
    ensures |At(m, g)| == 1 ==> At(m, g) == {t}
  {
    var s := At(m, g);
    assert t in s;
    assert s == (s - {t}) + {t};
    assert |s| == |s - {t}| + 1;
  }

  /** By how much a move of thread `t` to `pc` changes a count. */
  function Shift(m: map<Tid, PC>, t: Tid, pc: PC, g: Group): int {
    (if In(pc, g) then 1 else 0) - Weight(m, t, g)
  }

  function Bit(b: bool): nat {
    if b then 1 else 0
  }

  /** The counts of the invariant after a move, from the shifts of the move. */
  lemma BalancedMove(s: State, t: Tid, pc: PC, s': State)
    requires Count(s, Unserved) == s.buffered + Count(s, Offers)
    requires Count(s, Live) == Bit(s.pending)
    requires s'.threads == s.threads[t := pc]
    requires Shift(s.threads, t, pc, Unserved) == s'.buffered - s.buffered + Shift(s.threads, t, pc, Offers)
    requires Shift(s.threads, t, pc, Live) == Bit(s'.pending) - Bit(s.pending)
    ensures Count(s', Unserved) == s'.buffered + Count(s', Offers)
    ensures Count(s', Live) == Bit(s'.pending)
    ensures Count(s', Holding) == Count(s, Holding) + Shift(s.threads, t, pc, Holding)
  {
    Moved(s.threads, t, pc, Holding);
    Moved(s.threads, t, pc, Unserved);
    Moved(s.threads, t, pc, Offers);
    Moved(s.threads, t, pc, Live);
  }

  /** A move that neither takes nor leaves the mutex. */
  lemma FreeMove(s: State, t: Tid, pc: PC, s': State)
    requires Inv(s)
    requires s'.threads == s.threads[t := pc] && s'.owner == s.owner
    requires s'.buffered <= 1
    requires Shift(s.threads, t, pc, Unserved) == s'.buffered - s.buffered + Shift(s.threads, t, pc, Offers)
    requires Shift(s.threads, t, pc, Live) == Bit(s'.pending) - Bit(s.pending)
    requires s'.pending ==> At(s.threads, BootsNow) == {}
    requires Weight(s.threads, t, Holding) == 0 && !In(pc, Holding) && !In(pc, BootsNow)
    ensures Inv(s')
  {
    BalancedMove(s, t, pc, s');
    StaysOut(s.threads, t, pc, Holding);
    StaysOut(s.threads, t, pc, BootsNow);
  }

  /** A thread that is not in a group and does not enter it leaves it as it is. */
  lemma StaysOut(m: map<Tid, PC>, t: Tid, pc: PC, g: Group)
    requires !In(pc, g)
    ensures At(m[t := pc], g) <= At(m, g)
    ensures Weight(m, t, g) == 0 ==> At(m[t := pc], g) == At(m, g)
  {
  }

  lemma LockShifts(m: map<Tid, PC>, t: Tid)
    requires t in m && Locking(m[t])
    ensures var pc := AfterLock(m[t]);
            && Shift(m, t, pc, Unserved) == 0 && Shift(m, t, pc, Offers) == 0 && Shift(m, t, pc, Live) == 0
            && Shift(m, t, pc, Holding) == 1 && In(pc, Holding) && !In(pc, BootsNow) && !In(m[t], BootsNow)
  {
  }

  /** Lock: the mutex was free, so its new owner is alone. */
  lemma LockKeepsInv(s: State, t: Tid)
    requires Inv(s) && t in s.threads && Locking(s.threads[t]) && s.owner == {}
    ensures Inv(Go(s, t, AfterLock(s.threads[t])).(owner := {t}))
  {
    var pc := AfterLock(s.threads[t]);
    LockShifts(s.threads, t);
    BalancedMove(s, t, pc, Go(s, t, pc).(owner := {t}));
    Moved(s.threads, t, pc, Holding);
    Moved(s.threads, t, pc, BootsNow);
  }

  /** A thread that holds the mutex unlocks it. */
  lemma ReleaseKeepsInv(s: State, t: Tid, pc: PC)
    requires Inv(s) && t in s.threads && In(s.threads[t], Holding)
    requires !In(s.threads[t], Live) && !In(pc, Holding) && !In(pc, Live) && !In(pc, Offers)
    requires In(pc, Unserved) == In(s.threads[t], Unserved)
    ensures Inv(Release(s, t, pc))
  {
    BalancedMove(s, t, pc, Release(s, t, pc));
    Moved(s.threads, t, pc, Holding);
    Moved(s.threads, t, pc, BootsNow);
  }

  /** The holder of the mutex clears the flag of the reboot it has served. */
  lemma ClearKeepsInv(s: State, t: Tid, pc: PC)
    requires Inv(s) && t in s.threads && In(s.threads[t], Holding) && In(s.threads[t], Live)
    requires pc == CancelExit || pc == FiredExit
    ensures Inv(Go(s, t, pc).(pending := false))
  {
    Present(s.threads, t, Live);
    var s' := Go(s, t, pc).(pending := false);
    BalancedMove(s, t, pc, s');
    Moved(s.threads, t, pc, Holding);
    assert At(s'.threads, Holding) == At(s.threads, Holding);
  }

  lemma BootNowKeepsInv(s: State, t: Tid)
    requires Inv(s) && Is(s, t, RebootHeld(false)) && !s.pending
    ensures Inv(Go(s, t, RebootBooting))
  {
    BalancedMove(s, t, RebootBooting, Go(s, t, RebootBooting));
    Moved(s.threads, t, RebootBooting, Holding);
    assert At(Go(s, t, RebootBooting).threads, Holding) == At(s.threads, Holding);
  }

  /** Accept: the caller holds the mutex and nothing is live, so no immediate reboot is under way. */
  lemma AcceptKeepsInv(s: State, t: Tid, timer: Tid)
    requires Inv(s) && Is(s, t, RebootHeld(true)) && !s.pending && timer !in s.threads
    ensures Inv(Go(Go(s, timer, Waiting), t, RebootExit).(pending := true))
  {
    NobodyElseBoots(s, t);
    var mid := Go(s, timer, Waiting).(pending := true);
    FreeMove(s, timer, Waiting, mid);
    BalancedMove(mid, t, RebootExit, Go(mid, t, RebootExit));
    Moved(mid.threads, t, RebootExit, Holding);
    Moved(mid.threads, t, RebootExit, BootsNow);
    assert At(Go(mid, t, RebootExit).threads, Holding) == At(mid.threads, Holding);
  }

  lemma NobodyElseBoots(s: State, t: Tid)
    requires |At(s.threads, Holding)| <= 1
    requires Is(s, t, RebootHeld(true))
    ensures At(s.threads, BootsNow) == {}
  {
    Present(s.threads, t, Holding);
    assert At(s.threads, BootsNow) <= At(s.threads, Holding);
  }

  lemma TwoMoves(m: map<Tid, PC>, t: Tid, pc: PC, u: Tid, pc': PC, g: Group)
    requires t != u
    ensures |At(m[t := pc][u := pc'], g)| == |At(m, g)| + Shift(m, t, pc, g) + Shift(m, u, pc', g)
  {
    Moved(m, t, pc, g);
    Moved(m[t := pc], u, pc', g);
  }

  /** Handover: the reboot stops being live as its canceller starts to be. */
  lemma HandoverKeepsInv(s: State, t: Tid, c: Tid)
    requires Inv(s) && Is(s, t, Offering) && Is(s, c, CancelPoll)
    ensures Inv(Go(Go(s, t, Cancelled), c, CancelClearLock))
  {
    var s' := Go(Go(s, t, Cancelled), c, CancelClearLock);
    TwoMoves(s.threads, t, Cancelled, c, CancelClearLock, Unserved);
    TwoMoves(s.threads, t, Cancelled, c, CancelClearLock, Offers);
    TwoMoves(s.threads, t, Cancelled, c, CancelClearLock, Live);
    OthersStay(s.threads, t, Cancelled, c, CancelClearLock, Holding);
    OthersStay(s.threads, t, Cancelled, c, CancelClearLock, BootsNow);
    assert s'.threads == s.threads[t := Cancelled][c := CancelClearLock];
  }

  lemma OthersStay(m: map<Tid, PC>, t: Tid, pc: PC, u: Tid, pc': PC, g: Group)
    requires Weight(m, t, g) == 0 && Weight(m, u, g) == 0 && !In(pc, g) && !In(pc', g)
    ensures At(m[t := pc][u := pc'], g) == At(m, g)
  {
  }

  predicate OfReboot(a: Action) {
    a.CallReboot? || a.Refuse? || a.BootNow? || a.BootDone? || a.Accept? || a.Lock? || a.Unlock?
  }

  predicate OfCancel(a: Action) {
    a.CallCancel? || a.NothingPending? || a.SomethingPending? || a.Send? || a.Tick? || a.StillPending? ||
    a.NoLongerPending? || a.Drain? || a.Clear?
  }

  lemma RebootStepKeepsInv(s: State, a: Action, s': State)
    requires Inv(s) && Steps(s, a, s') && OfReboot(a)
    ensures Inv(s')
  {
    match a {
      case CallReboot(t, d) => FreeMove(s, t, RebootLock(d), s');
      case Lock(t) => LockKeepsInv(s, t);
      case Unlock(t) => ReleaseKeepsInv(s, t, if s.threads[t] == FiredExit then Fired else Returned);
      case Refuse(t) => ReleaseKeepsInv(s, t, Returned);
      case BootNow(t) => BootNowKeepsInv(s, t);
      case BootDone(t) => ReleaseKeepsInv(s, t, Returned);
      case Accept(t, timer) => AcceptKeepsInv(s, t, timer);
    }
  }

  lemma CancelStepKeepsInv(s: State, a: Action, s': State)
    requires Inv(s) && Steps(s, a, s') && OfCancel(a)
    ensures Inv(s')
  {
    match a {
      case CallCancel(_) => SignalStepKeepsInv(s, a, s');
      case NothingPending(t) => ReleaseKeepsInv(s, t, Returned);
      case SomethingPending(t) => ReleaseKeepsInv(s, t, CancelSend);
      case Send(_) => SignalStepKeepsInv(s, a, s');
      case Tick(_) => SignalStepKeepsInv(s, a, s');
      case StillPending(t) => ReleaseKeepsInv(s, t, CancelPoll);
      case NoLongerPending(t) => ReleaseKeepsInv(s, t, CancelDrain);
      case Drain(_) => SignalStepKeepsInv(s, a, s');
      case Clear(t) => ClearKeepsInv(s, t, CancelExit);
    }
  }

  lemma SignalStepKeepsInv(s: State, a: Action, s': State)
    requires Inv(s) && Steps(s, a, s')
    requires a.CallCancel? || a.Send? || a.Tick? || a.Drain?
    ensures Inv(s')
  {
    match a {
      case CallCancel(t) => FreeMove(s, t, CancelLock, s');
      case Send(t) => SendKeepsInv(s, t, s');
      case Tick(t) => FreeMove(s, t, CancelPollLock, s');
      case Drain(t) => DrainKeepsInv(s, t, s');
    }
  }

  lemma SendKeepsInv(s: State, t: Tid, s': State)
    requires Inv(s) && Steps(s, Send(t), s')
    ensures Inv(s')
  {
    FreeMove(s, t, CancelPoll, s');
  }

  lemma DrainKeepsInv(s: State, t: Tid, s': State)
    requires Inv(s) && Steps(s, Drain(t), s')
    ensures Inv(s')
  {
    FreeMove(s, t, Returned, s');
  }

  lemma TimerStepKeepsInv(s: State, a: Action, s': State)
    requires Inv(s) && Steps(s, a, s') && !OfReboot(a) && !OfCancel(a)
    ensures Inv(s')
  {
    match a {
      case TakeCancel(t) => FreeMove(s, t, Offering, s');
      case Handover(t, c) => HandoverKeepsInv(s, t, c);
      case Fire(t) => FreeMove(s, t, Firing, s');
      case FireDone(t) => FreeMove(s, t, FiredLock, s');
      case ClearFired(t) => ClearKeepsInv(s, t, FiredExit);
    }
  }

  /** Every step keeps the invariant. */
  lemma StepKeepsInv(s: State, a: Action, s': State)
    requires Inv(s) && Steps(s, a, s')
    ensures Inv(s')
  {
    if OfReboot(a) {
      RebootStepKeepsInv(s, a, s');
    } else if OfCancel(a) {
      CancelStepKeepsInv(s, a, s');
    } else {
      TimerStepKeepsInv(s, a, s');
    }
  }

  lemma {:induction false} RunKeepsInv(states: seq<State>, actions: seq<Action>, i: nat)
    requires IsRun(states, actions) && i < |states|
    ensures Inv(states[i])
  {
    if i == 0 {
      assert forall g :: At(INITIAL.threads, g) == {};
    } else {
      RunKeepsInv(states, actions, i - 1);
      StepKeepsInv(states[i - 1], actions[i - 1], states[i]);
    }
  }

  // ---------------------------------------------------------------------
  // What every interleaving guarantees
  // ---------------------------------------------------------------------

  /** Between its call and its return. */
  predicate CancelInFlight(pc: PC) {
    pc.CancelLock? || pc.CancelHeld? || pc.CancelSend? || pc.CancelPoll? || pc.CancelPollLock? || pc.CancelPollHeld? ||
    pc.CancelDrain? || pc.CancelClearLock? || pc.CancelClearHeld? || pc.CancelExit?
  }

  ghost predicate NoCancelInFlight(s: State) {
    forall t :: t in s.threads ==> !CancelInFlight(s.threads[t])
  }

  /** Unserved cancellers are accounted for; with no CancelReboot in flight no signal is left to cancel a later reboot. */
  lemma SignalsAccountedFor(states: seq<State>, actions: seq<Action>, i: nat)
    requires IsRun(states, actions) && i < |states|
    ensures Count(states[i], Unserved) == states[i].buffered + Count(states[i], Offers)
    ensures NoCancelInFlight(states[i]) ==> states[i].buffered == 0 && At(states[i].threads, Offers) == {}
  {
    RunKeepsInv(states, actions, i);
    if NoCancelInFlight(states[i]) {
      assert At(states[i].threads, Unserved) == {};
      var offers := At(states[i].threads, Offers);
      assert |offers| == 0;
    }
  }

  /** hasPendingReboot holds exactly when one delayed reboot is live; there is never a second one. */
  lemma PendingExactlyWhenLive(states: seq<State>, actions: seq<Action>, i: nat)
    requires IsRun(states, actions) && i < |states|
    ensures states[i].pending <==> Count(states[i], Live) == 1
    ensures Count(states[i], Live) <= 1
  {
    RunKeepsInv(states, actions, i);
  }

  ghost predicate SomethingLives(s: State) {
    exists u :: u in s.threads && In(s.threads[u], Live)
  }

  lemma LivesExactlyWhen(s: State)
    requires Inv(s)
    ensures SomethingLives(s) <==> s.pending
  {
    if SomethingLives(s) {
      var u :| u in s.threads && In(s.threads[u], Live);
      Present(s.threads, u, Live);
    }
    if s.pending {
      assert At(s.threads, Live) != {};
      var u :| u in At(s.threads, Live);
    }
  }

  /** A Reboot call is refused exactly while a delayed reboot is live, and goes ahead exactly while none is. */
  lemma RefusedExactlyWhenLive(states: seq<State>, actions: seq<Action>, i: nat, t: Tid)
    requires IsRun(states, actions) && i < |states| && t in states[i].threads && states[i].threads[t].RebootHeld?
    ensures Enabled(states[i], Refuse(t)) <==> SomethingLives(states[i])
    ensures Enabled(states[i], BootNow(t)) <==> !SomethingLives(states[i]) && !states[i].threads[t].delayed
    ensures (exists timer :: Enabled(states[i], Accept(t, timer))) <==> !SomethingLives(states[i]) && states[i].threads[t].delayed
  {
    RunKeepsInv(states, actions, i);
    LivesExactlyWhen(states[i]);
    var timer := Fresh(states[i].threads.Keys);
    assert states[i].threads[t].delayed && !states[i].pending ==> Enabled(states[i], Accept(t, timer));
  }

  /** A CancelReboot call that holds the mutex returns without a signal, or takes its signal back, exactly if no delayed reboot is live then. */
  lemma CancelLooksForLive(states: seq<State>, actions: seq<Action>, i: nat, t: Tid)
    requires IsRun(states, actions) && i < |actions| && actions[i].t == t && t in states[i].threads
    ensures states[i].threads[t] == CancelHeld ==>
              && states[i + 1].threads[t] == (if SomethingLives(states[i]) then CancelSend else Returned)
              && states[i + 1].buffered == states[i].buffered
    ensures states[i].threads[t] == CancelPollHeld ==>
              states[i + 1].threads[t] == if SomethingLives(states[i]) then CancelPoll else CancelDrain
  {
    RunKeepsInv(states, actions, i);
    LivesExactlyWhen(states[i]);
    assert Steps(states[i], actions[i], states[i + 1]);
  }

  lemma AtMostOne(m: map<Tid, PC>, g: Group, t: Tid, u: Tid)
    requires |At(m, g)| <= 1
    requires t in m && In(m[t], g) && u in m && In(m[u], g)
    ensures t == u
  {
    Present(m, t, g);
    assert u in At(m, g);
  }

  /** Two device reboots, immediate or delayed, never overlap. */
  lemma RebootsNeverOverlap(states: seq<State>, actions: seq<Action>, i: nat, t: Tid, u: Tid)
    requires IsRun(states, actions) && i < |states|
    requires t in states[i].threads && (In(states[i].threads[t], BootsNow) || In(states[i].threads[t], BootsLate))
    requires u in states[i].threads && (In(states[i].threads[u], BootsNow) || In(states[i].threads[u], BootsLate))
    ensures t == u
  {
    RunKeepsInv(states, actions, i);
    var m := states[i].threads;
    if In(m[t], BootsLate) {
      LateExcludesNow(states[i], t);
      AtMostOne(m, Live, t, u);
    } else if In(m[u], BootsLate) {
      LateExcludesNow(states[i], u);
    } else {
      AtMostOne(m, Holding, t, u);
    }
  }

  lemma LateExcludesNow(s: State, t: Tid)
    requires Inv(s) && t in s.threads && In(s.threads[t], BootsLate)
    ensures forall u :: u in s.threads ==> !In(s.threads[u], BootsNow)
  {
    Present(s.threads, t, Live);
    forall u | u in s.threads ensures !In(s.threads[u], BootsNow) {
      assert u !in At(s.threads, BootsNow);
    }
  }

  /** The two fates of an accepted delayed reboot. */
  predicate OnCancelSide(pc: PC) { pc.Offering? || pc.Cancelled? }
  predicate OnFireSide(pc: PC) { pc.Firing? || pc.FiredLock? || pc.FiredHeld? || pc.FiredExit? || pc.Fired? }

  lemma {:induction false} FateIsFinal(states: seq<State>, actions: seq<Action>, i: nat, j: nat, t: Tid)
    requires IsRun(states, actions) && i <= j < |states|
    requires t in states[i].threads
    ensures t in states[j].threads
    ensures OnCancelSide(states[i].threads[t]) ==> OnCancelSide(states[j].threads[t])
    ensures OnFireSide(states[i].threads[t]) ==> OnFireSide(states[j].threads[t])
    decreases j
  {
    if i < j {
      FateIsFinal(states, actions, i, j - 1, t);
      StepKeepsFate(states[j - 1], actions[j - 1], states[j], t);
    }
  }

  ghost predicate FateKept(s: State, s': State, t: Tid) {
    && t in s.threads && t in s'.threads
    && (OnCancelSide(s.threads[t]) ==> OnCancelSide(s'.threads[t]))
    && (OnFireSide(s.threads[t]) ==> OnFireSide(s'.threads[t]))
  }

  lemma StepKeepsFate(s: State, a: Action, s': State, t: Tid)
    requires Steps(s, a, s') && t in s.threads
    ensures FateKept(s, s', t)
  {
    if OfReboot(a) {
      RebootStepKeepsFate(s, a, s', t);
    } else if OfCancel(a) {
      CancelStepKeepsFate(s, a, s', t);
    }
  }

  lemma RebootStepKeepsFate(s: State, a: Action, s': State, t: Tid)
    requires Steps(s, a, s') && t in s.threads && OfReboot(a)
    ensures FateKept(s, s', t)
  {
  }

  lemma CancelStepKeepsFate(s: State, a: Action, s': State, t: Tid)
    requires Steps(s, a, s') && t in s.threads && OfCancel(a)
    ensures FateKept(s, s', t)
  {
  }

  /** No delayed reboot is both cancelled and fired, at whatever points of a run one looks. */
  lemma NeverBothFates(states: seq<State>, actions: seq<Action>, i: nat, j: nat, t: Tid)
    requires IsRun(states, actions) && i < |states| && j < |states|
    requires t in states[i].threads && OnCancelSide(states[i].threads[t])
    ensures t in states[j].threads ==> !OnFireSide(states[j].threads[t])
  {
    if t in states[j].threads {
      if i <= j {
        FateIsFinal(states, actions, i, j, t);
      } else {
        FateIsFinal(states, actions, j, i, t);
      }
    }
  }

  // ---------------------------------------------------------------------
  // Deadlock
  // ---------------------------------------------------------------------

  predicate Finished(pc: PC) {
    pc.Returned? || pc.Cancelled? || pc.Fired?
  }

  /** Nothing can happen any more unless a new call arrives. */
  ghost predicate Quiescent(s: State) {
    forall a :: Enabled(s, a) ==> a.CallReboot? || a.CallCancel?
  }

  ghost predicate AllFinished(s: State) {
    forall t :: t in s.threads ==> Finished(s.threads[t])
  }

  /** One canceller waits to take back a signal that one reboot has already consumed. */
  ghost predicate Deadlocked(s: State) {
    && s.owner == {} && s.buffered == 0 && s.pending
    && exists c, r ::
         && Is(s, c, CancelDrain) && Is(s, r, Offering)
         && forall t :: t in s.threads && t != c && t != r ==> Finished(s.threads[t])
  }

  /** An unfinished thread can move, unless it waits on a channel. */
  lemma CanMove(s: State, t: Tid)
    requires t in s.threads && !Finished(s.threads[t])
    requires !Is(s, t, CancelSend) && !Is(s, t, CancelDrain) && !Is(s, t, Offering)
    requires Locking(s.threads[t]) ==> s.owner == {}
    ensures !Quiescent(s)
  {
    match s.threads[t] {
      case RebootHeld(true) =>
        if s.pending { assert Enabled(s, Refuse(t)); } else { FreshTid(s, t); }
      case RebootHeld(false) => assert s.pending || Enabled(s, BootNow(t)); assert s.pending ==> Enabled(s, Refuse(t));
      case RebootBooting => assert Enabled(s, BootDone(t));
      case RebootExit => assert Enabled(s, Unlock(t));
      case CancelHeld => assert if s.pending then Enabled(s, SomethingPending(t)) else Enabled(s, NothingPending(t));
      case CancelPoll => assert Enabled(s, Tick(t));
      case CancelPollHeld => assert if s.pending then Enabled(s, StillPending(t)) else Enabled(s, NoLongerPending(t));
      case CancelClearHeld => assert Enabled(s, Clear(t));
      case CancelExit => assert Enabled(s, Unlock(t));
      case Waiting => assert Enabled(s, Fire(t));
      case Firing => assert Enabled(s, FireDone(t));
      case FiredHeld => assert Enabled(s, ClearFired(t));
      case FiredExit => assert Enabled(s, Unlock(t));
      case RebootLock(_) => assert Enabled(s, Lock(t));
      case CancelLock => assert Enabled(s, Lock(t));
      case CancelPollLock => assert Enabled(s, Lock(t));
      case CancelClearLock => assert Enabled(s, Lock(t));
      case FiredLock => assert Enabled(s, Lock(t));
    }
  }

  lemma FreshTid(s: State, t: Tid)
    requires Is(s, t, RebootHeld(true)) && !s.pending
    ensures !Quiescent(s)
  {
    var timer := Fresh(s.threads.Keys);
    assert Enabled(s, Accept(t, timer));
  }

  lemma {:induction false} Fresh(used: set<Tid>) returns (t: Tid)
    ensures t !in used && forall u :: u in used ==> u < t
    decreases used
  {
    if used == {} {
      t := 0;
    } else {
      var u :| u in used;
      var rest := Fresh(used - {u});
      t := if u < rest then rest else u + 1;
      forall x | x in used ensures x < t {
        assert x == u || x in used - {u};
      }
    }
  }

  /** In every reachable state: nothing can happen any more exactly when every call is over, or two of them block each other. */
  lemma QuiescentExactlyWhen(states: seq<State>, actions: seq<Action>, i: nat)
    requires IsRun(states, actions) && i < |states|
    ensures Quiescent(states[i]) <==> AllFinished(states[i]) || Deadlocked(states[i])
  {
    RunKeepsInv(states, actions, i);
    var s := states[i];
    if Quiescent(s) {
      QuiescentShape(s);
    } else if AllFinished(s) {
      FinishedIsQuiescent(s);
    } else if Deadlocked(s) {
      DeadlockIsQuiescent(s);
    }
  }

  lemma FinishedIsQuiescent(s: State)
    requires AllFinished(s)
    ensures Quiescent(s)
  {
    forall a | Enabled(s, a) ensures a.CallReboot? || a.CallCancel? {
      assert a.t in s.threads ==> Finished(s.threads[a.t]);
    }
  }

  lemma DeadlockIsQuiescent(s: State)
    requires Deadlocked(s)
    ensures Quiescent(s)
  {
    forall a | Enabled(s, a) ensures a.CallReboot? || a.CallCancel? {
      assert a.t in s.threads ==> Finished(s.threads[a.t]) || Is(s, a.t, CancelDrain) || Is(s, a.t, Offering);
    }
  }

  lemma QuiescentShape(s: State)
    requires Inv(s) && Quiescent(s)
    ensures AllFinished(s) || Deadlocked(s)
  {
    OwnerMoves(s);
    forall t | t in s.threads ensures Finished(s.threads[t]) || Is(s, t, CancelSend) || Is(s, t, CancelDrain) || Is(s, t, Offering) {
      if !(Finished(s.threads[t]) || Is(s, t, CancelSend) || Is(s, t, CancelDrain) || Is(s, t, Offering)) {
        CanMove(s, t);
      }
    }
    assert s.buffered == 0 by {
      if s.buffered > 0 {
        assert At(s.threads, Unserved) != {};
        var t :| t in At(s.threads, Unserved);
        assert Enabled(s, Drain(t));
      }
    }
    forall t | t in s.threads ensures !Is(s, t, CancelSend) {
      assert !Enabled(s, Send(t));
    }
    if c :| c in s.threads && !Finished(s.threads[c]) {
      BlockedPair(s, c);
    }
  }

  lemma OwnerMoves(s: State)
    requires Inv(s) && Quiescent(s)
    ensures s.owner == {}
  {
    if s.owner != {} {
      var t :| t in s.owner;
      assert t in At(s.threads, Holding);
      CanMove(s, t);
    }
  }

  lemma BlockedPair(s: State, t: Tid)
    requires Inv(s) && s.owner == {} && s.buffered == 0
    requires forall u :: u in s.threads ==> Finished(s.threads[u]) || Is(s, u, CancelDrain) || Is(s, u, Offering)
    requires t in s.threads && !Finished(s.threads[t])
    ensures Deadlocked(s)
  {
    var drains, offers := At(s.threads, Unserved), At(s.threads, Offers);
    assert t in drains || t in offers;
    if t in drains {
      Present(s.threads, t, Unserved);
    } else {
      Present(s.threads, t, Offers);
    }
    assert |drains| == |offers| >= 1;
    var c :| c in drains;
    var r :| r in offers;
    Present(s.threads, r, Live);
    assert offers <= At(s.threads, Live) == {r};
    assert offers == {r};
    Present(s.threads, c, Unserved);
    assert drains == {c};
    forall u | u in s.threads && u != c && u != r ensures Finished(s.threads[u]) {
      assert u !in drains && u !in offers;
    }
  }

  ghost predicate NobodyDrains(s: State) {
    forall t :: !Is(s, t, CancelDrain)
  }

  /** No delayed reboot is accepted while a CancelReboot call is taking its signal back. */
  ghost predicate Serialised(states: seq<State>, actions: seq<Action>) {
    IsRun(states, actions) && forall i :: 0 <= i < |actions| && actions[i].Accept? ==> NobodyDrains(states[i])
  }

  /** Whoever takes its signal back does so while nothing is pending. */
  ghost predicate DrainsSafely(s: State) {
    forall t :: Is(s, t, CancelDrain) ==> !s.pending
  }

  lemma DrainedAlready(s: State, a: Action, s': State, t: Tid)
    requires Steps(s, a, s') && !a.NoLongerPending? && Is(s', t, CancelDrain)
    ensures Is(s, t, CancelDrain)
  {
  }

  lemma StepDrainsSafely(s: State, a: Action, s': State)
    requires DrainsSafely(s) && Steps(s, a, s')
    requires a.Accept? ==> NobodyDrains(s)
    ensures DrainsSafely(s')
  {
    forall t | Is(s', t, CancelDrain) ensures !s'.pending {
      if !a.NoLongerPending? {
        DrainedAlready(s, a, s', t);
      }
    }
  }

  lemma {:induction false} SerialisedDrainsSafely(states: seq<State>, actions: seq<Action>, i: nat)
    requires Serialised(states, actions) && i < |states|
    ensures DrainsSafely(states[i])
  {
    if i > 0 {
      SerialisedDrainsSafely(states, actions, i - 1);
      StepDrainsSafely(states[i - 1], actions[i - 1], states[i]);
    }
  }

  /** Then no run ever deadlocks: it comes to rest only when every call is over. */
  lemma SerialisedNeverDeadlocks(states: seq<State>, actions: seq<Action>, i: nat)
    requires Serialised(states, actions) && i < |states|
    ensures !Deadlocked(states[i])
    ensures Quiescent(states[i]) ==> AllFinished(states[i])
  {
    SerialisedDrainsSafely(states, actions, i);
    QuiescentExactlyWhen(states, actions, i);
  }

  // ---------------------------------------------------------------------
  // A run that deadlocks
  // ---------------------------------------------------------------------

  lemma Extend(states: seq<State>, actions: seq<Action>, a: Action, s': State)
    requires IsRun(states, actions) && Steps(states[|actions|], a, s')
    ensures IsRun(states + [s'], actions + [a])
  {
    var ss, aa := states + [s'], actions + [a];
    forall i | 0 <= i < |aa| ensures Steps(ss[i], aa[i], ss[i + 1]) {
      if i < |actions| {
        assert ss[i] == states[i] && ss[i + 1] == states[i + 1] && aa[i] == actions[i];
      }
    }
  }

  /** The end of a run. */
  ghost predicate Reachable(s: State) {
    exists states, actions :: IsRun(states, actions) && states[|actions|] == s
  }

  lemma Reaches(s: State, a: Action, s': State)
    requires Reachable(s) && Steps(s, a, s')
    ensures Reachable(s')
  {
    var states, actions :| IsRun(states, actions) && states[|actions|] == s;
    Extend(states, actions, a, s');
    assert (states + [s'])[|actions + [a]|] == s';
  }

  /** A delayed reboot (timer 1) is accepted for caller 0. */
  lemma FirstReboot() returns (s: State)
    ensures Reachable(s)
    ensures s == State(map[0 := Returned, 1 := Waiting], {}, true, 0)
  {
    assert IsRun([INITIAL], []);
    s := INITIAL;
    var s1 := State(map[0 := RebootLock(true)], {}, false, 0);
    Reaches(s, CallReboot(0, true), s1);
    var s2 := State(map[0 := RebootHeld(true)], {0}, false, 0);
    Reaches(s1, Lock(0), s2);
    var s3 := State(map[0 := RebootExit, 1 := Waiting], {0}, true, 0);
    Reaches(s2, Accept(0, 1), s3);
    s := State(map[0 := Returned, 1 := Waiting], {}, true, 0);
    Reaches(s3, Unlock(0), s);
  }

  /** Canceller 2 sends its signal. */
  lemma SignalIsSent(s: State) returns (s': State)
    requires Reachable(s) && s == State(map[0 := Returned, 1 := Waiting], {}, true, 0)
    ensures Reachable(s')
    ensures s' == State(map[0 := Returned, 1 := Waiting, 2 := CancelPoll], {}, true, 1)
  {
    var s1 := State(map[0 := Returned, 1 := Waiting, 2 := CancelLock], {}, true, 0);
    Reaches(s, CallCancel(2), s1);
    var s2 := State(map[0 := Returned, 1 := Waiting, 2 := CancelHeld], {2}, true, 0);
    Reaches(s1, Lock(2), s2);
    var s3 := State(map[0 := Returned, 1 := Waiting, 2 := CancelSend], {}, true, 0);
    Reaches(s2, SomethingPending(2), s3);
    s' := State(map[0 := Returned, 1 := Waiting, 2 := CancelPoll], {}, true, 1);
    Reaches(s3, Send(2), s');
  }

  /** The reboot fires all the same. */
  lemma SignalComesTooLate(s4: State) returns (s': State)
    requires Reachable(s4) && s4 == State(map[0 := Returned, 1 := Waiting, 2 := CancelPoll], {}, true, 1)
    ensures Reachable(s')
    ensures s' == State(map[0 := Returned, 1 := Fired, 2 := CancelPoll], {}, false, 1)
  {
    var s6 := FiresTooLate(s4);
    var s7 := State(map[0 := Returned, 1 := FiredHeld, 2 := CancelPoll], {1}, true, 1);
    Reaches(s6, Lock(1), s7);
    var s8 := State(map[0 := Returned, 1 := FiredExit, 2 := CancelPoll], {1}, false, 1);
    Reaches(s7, ClearFired(1), s8);
    s' := State(map[0 := Returned, 1 := Fired, 2 := CancelPoll], {}, false, 1);
    Reaches(s8, Unlock(1), s');
  }

  lemma FiresTooLate(s4: State) returns (s6: State)
    requires Reachable(s4) && s4 == State(map[0 := Returned, 1 := Waiting, 2 := CancelPoll], {}, true, 1)
    ensures Reachable(s6)
    ensures s6 == State(map[0 := Returned, 1 := FiredLock, 2 := CancelPoll], {}, true, 1)
  {
    var s5 := State(map[0 := Returned, 1 := Firing, 2 := CancelPoll], {}, true, 1);
    Reaches(s4, Fire(1), s5);
    s6 := State(map[0 := Returned, 1 := FiredLock, 2 := CancelPoll], {}, true, 1);
    Reaches(s5, FireDone(1), s6);
  }

  /** Canceller 2 notices, and is about to take its signal back. */
  lemma CancellerNotices(s: State) returns (s': State)
    requires Reachable(s) && s == State(map[0 := Returned, 1 := Fired, 2 := CancelPoll], {}, false, 1)
    ensures Reachable(s')
    ensures s' == State(map[0 := Returned, 1 := Fired, 2 := CancelDrain], {}, false, 1)
  {
    var s1 := State(map[0 := Returned, 1 := Fired, 2 := CancelPollLock], {}, false, 1);
    Reaches(s, Tick(2), s1);
    var s2 := State(map[0 := Returned, 1 := Fired, 2 := CancelPollHeld], {2}, false, 1);
    Reaches(s1, Lock(2), s2);
    s' := State(map[0 := Returned, 1 := Fired, 2 := CancelDrain], {}, false, 1);
    Reaches(s2, NoLongerPending(2), s');
  }

  /** Before it does, a second delayed reboot is called for. */
  lemma SecondReboot(s3: State) returns (s': State)
    requires Reachable(s3) && s3 == State(map[0 := Returned, 1 := Fired, 2 := CancelDrain], {}, false, 1)
    ensures Reachable(s')
    ensures s' == State(map[0 := Returned, 1 := Fired, 2 := CancelDrain, 3 := RebootHeld(true)], {3}, false, 1)
  {
    var s4 := State(map[0 := Returned, 1 := Fired, 2 := CancelDrain, 3 := RebootLock(true)], {}, false, 1);
    Reaches(s3, CallReboot(3, true), s4);
    s' := State(map[0 := Returned, 1 := Fired, 2 := CancelDrain, 3 := RebootHeld(true)], {3}, false, 1);
    Reaches(s4, Lock(3), s');
  }

  /** It is accepted (timer 4) and takes the signal instead. */
  lemma SignalIsTaken(s5: State) returns (s': State)
    requires Reachable(s5) && s5 == State(map[0 := Returned, 1 := Fired, 2 := CancelDrain, 3 := RebootHeld(true)], {3}, false, 1)
    ensures Reachable(s')
    ensures s' == State(map[0 := Returned, 1 := Fired, 2 := CancelDrain, 3 := Returned, 4 := Offering], {}, true, 0)
  {
    var s6 := State(map[0 := Returned, 1 := Fired, 2 := CancelDrain, 3 := RebootExit, 4 := Waiting], {3}, true, 1);
    Reaches(s5, Accept(3, 4), s6);
    var s7 := State(map[0 := Returned, 1 := Fired, 2 := CancelDrain, 3 := Returned, 4 := Waiting], {}, true, 1);
    Reaches(s6, Unlock(3), s7);
    s' := State(map[0 := Returned, 1 := Fired, 2 := CancelDrain, 3 := Returned, 4 := Offering], {}, true, 0);
    Reaches(s7, TakeCancel(4), s');
  }

  /** A deadlock is reachable with two delayed reboots and one CancelReboot. */
  lemma DeadlockIsReachable()
    ensures exists s :: Reachable(s) && Deadlocked(s)
  {
    var s1 := FirstReboot();
    var s2 := SignalIsSent(s1);
    var s3 := SignalComesTooLate(s2);
    var s4 := CancellerNotices(s3);
    var s5 := SecondReboot(s4);
    var s6 := SignalIsTaken(s5);
    assert Is(s6, 2, CancelDrain) && Is(s6, 4, Offering);
    assert Deadlocked(s6);
  }

  // ---------------------------------------------------------------------
  // What releases it
  // ---------------------------------------------------------------------

  /** `actions` lead from the first of `states` to the last. */
  ghost predicate IsPath(states: seq<State>, actions: seq<Action>) {
    |states| == |actions| + 1 && forall i :: 0 <= i < |actions| ==> Steps(states[i], actions[i], states[i + 1])
  }

  lemma PathAppend(states: seq<State>, actions: seq<Action>, more: seq<State>, acts: seq<Action>)
    requires IsPath(states, actions) && IsPath(more, acts) && states[|actions|] == more[0]
    ensures IsPath(states + more[1..], actions + acts)
    ensures (states + more[1..])[0] == states[0] && (states + more[1..])[|actions + acts|] == more[|acts|]
  {
    var ss, aa := states + more[1..], actions + acts;
    forall i | 0 <= i < |aa| ensures Steps(ss[i], aa[i], ss[i + 1]) {
      if i < |actions| {
        assert ss[i] == states[i] && ss[i + 1] == states[i + 1] && aa[i] == actions[i];
      } else {
        assert ss[i] == more[i - |actions|] && ss[i + 1] == more[i - |actions| + 1] && aa[i] == acts[i - |actions|];
      }
    }
  }

  lemma Three(a: State, x: Action, b: State, y: Action, c: State)
    requires Steps(a, x, b) && Steps(b, y, c)
    ensures IsPath([a, b, c], [x, y])
  {
  }

  /** A second CancelReboot call t takes the mutex. */
  lemma SecondCall(s: State, t: Tid) returns (states: seq<State>, actions: seq<Action>)
    requires s.owner == {} && t !in s.threads
    ensures IsPath(states, actions) && states[0] == s && actions == [CallCancel(t), Lock(t)]
    ensures states[|actions|] == s.(threads := s.threads[t := CancelHeld], owner := {t})
  {
    var s1 := s.(threads := s.threads[t := CancelLock]);
    var s2 := s.(threads := s.threads[t := CancelHeld], owner := {t});
    assert s1.threads[t := CancelHeld] == s2.threads;
    Three(s, CallCancel(t), s1, Lock(t), s2);
    states, actions := [s, s1, s2], [CallCancel(t), Lock(t)];
  }

  /** It finds the reboot pending and sends its signal. */
  lemma SecondSend(s: State, t: Tid) returns (states: seq<State>, actions: seq<Action>)
    requires s.owner == {t} && s.buffered == 0 && s.pending && Is(s, t, CancelHeld)
    ensures IsPath(states, actions) && states[0] == s && actions == [SomethingPending(t), Send(t)]
    ensures states[|actions|] == State(s.threads[t := CancelPoll], {}, true, 1)
  {
    var s1 := State(s.threads[t := CancelSend], {}, true, 0);
    var s2 := State(s.threads[t := CancelPoll], {}, true, 1);
    assert s1.threads[t := CancelPoll] == s2.threads && s.owner - {t} == {};
    Three(s, SomethingPending(t), s1, Send(t), s2);
    states, actions := [s, s1, s2], [SomethingPending(t), Send(t)];
  }

  /** The first call takes this signal back, and the blocked reboot hands over to the second. */
  lemma SecondServes(s: State, t: Tid, c: Tid, r: Tid) returns (states: seq<State>, actions: seq<Action>)
    requires s.buffered == 1 && c != t && c != r && t != r && Is(s, c, CancelDrain) && Is(s, r, Offering) && Is(s, t, CancelPoll)
    ensures IsPath(states, actions) && states[0] == s && actions == [Drain(c), Handover(r, t)]
    ensures states[|actions|] == s.(threads := s.threads[c := Returned][r := Cancelled][t := CancelClearLock], buffered := 0)
  {
    var s1 := s.(threads := s.threads[c := Returned], buffered := 0);
    var s2 := s.(threads := s.threads[c := Returned][r := Cancelled][t := CancelClearLock], buffered := 0);
    Three(s, Drain(c), s1, Handover(r, t), s2);
    states, actions := [s, s1, s2], [Drain(c), Handover(r, t)];
  }

  /** The second call clears the flag and returns. */
  lemma SecondClears(s: State, t: Tid) returns (states: seq<State>, actions: seq<Action>)
    requires s.owner == {} && Is(s, t, CancelClearLock)
    ensures IsPath(states, actions) && states[0] == s && actions == [Lock(t), Clear(t)] + [Unlock(t)]
    ensures states[|actions|] == s.(threads := s.threads[t := Returned], pending := false)
  {
    var s1 := s.(threads := s.threads[t := CancelClearHeld], owner := {t});
    var s2 := s.(threads := s.threads[t := CancelExit], owner := {t}, pending := false);
    var s3 := s.(threads := s.threads[t := Returned], pending := false);
    assert s1.threads[t := CancelExit] == s2.threads && s2.threads[t := Returned] == s3.threads && s2.owner - {t} == {};
    Three(s, Lock(t), s1, Clear(t), s2);
    assert Steps(s2, Unlock(t), s3);
    assert IsPath([s2, s3], [Unlock(t)]);
    PathAppend([s, s1, s2], [Lock(t), Clear(t)], [s2, s3], [Unlock(t)]);
    states, actions := [s, s1, s2] + [s2, s3][1..], [Lock(t), Clear(t)] + [Unlock(t)];
  }

  lemma FourPaths(s1: seq<State>, a1: seq<Action>, s2: seq<State>, a2: seq<Action>, s3: seq<State>, a3: seq<Action>, s4: seq<State>, a4: seq<Action>)
    returns (states: seq<State>)
    requires IsPath(s1, a1) && IsPath(s2, a2) && IsPath(s3, a3) && IsPath(s4, a4)
    requires s1[|a1|] == s2[0] && s2[|a2|] == s3[0] && s3[|a3|] == s4[0]
    ensures IsPath(states, a1 + a2 + a3 + a4) && states[0] == s1[0] && states[|a1 + a2 + a3 + a4|] == s4[|a4|]
  {
    PathAppend(s1, a1, s2, a2);
    PathAppend(s1 + s2[1..], a1 + a2, s3, a3);
    PathAppend(s1 + s2[1..] + s3[1..], a1 + a2 + a3, s4, a4);
    states := s1 + s2[1..] + s3[1..] + s4[1..];
  }

  lemma AllOver(s: State, t: Tid, c: Tid, r: Tid, last: State)
    requires forall u :: u in s.threads && u != c && u != r ==> Finished(s.threads[u])
    requires last.threads == s.threads[t := CancelHeld][t := CancelPoll][c := Returned][r := Cancelled][t := CancelClearLock][t := Returned]
    ensures AllFinished(last)
  {
    forall u | u in last.threads ensures Finished(last.threads[u]) {
      assert u == t || u == c || u == r || u in s.threads;
    }
  }

  /** One more CancelReboot call is enough to release a deadlock: from every deadlocked state it can bring all calls to their end. */
  lemma DeadlockIsReleased(s: State, t: Tid) returns (states: seq<State>, actions: seq<Action>)
    requires Deadlocked(s) && t !in s.threads
    ensures IsPath(states, actions) && states[0] == s && AllFinished(states[|actions|])
    ensures forall i :: 0 <= i < |actions| && (actions[i].CallReboot? || actions[i].CallCancel?) ==> actions[i] == CallCancel(t)
  {
    var c: Tid, r: Tid :| && Is(s, c, CancelDrain) && Is(s, r, Offering)
                          && forall u :: u in s.threads && u != c && u != r ==> Finished(s.threads[u]);
    var s1, a1 := SecondCall(s, t);
    var s2, a2 := SecondSend(s1[|a1|], t);
    var s3, a3 := SecondServes(s2[|a2|], t, c, r);
    var s4, a4 := SecondClears(s3[|a3|], t);
    states := FourPaths(s1, a1, s2, a2, s3, a3, s4, a4);
    actions := a1 + a2 + a3 + a4;
    AllOver(s, t, c, r, s4[|a4|]);
  }
}
