/**
 FastMutexImpl: the first thread only sets a flag; a second one takes an inner mutex
 and spins on the flag; all others block on the inner mutex. Every access to the flag,
 the inner mutex and the marker _mx_locked_by_me is a step of its own.
 */
module FastMutex {
  import opened Wrappers

  /** lock says whether the call is lock() or try_lock(); UnlockN are the four actions of unlock(). */
  datatype Pc =
    | Idle
    | TryFlag(lock: bool)
    | WantMutex
    | Spinning
    | Marking
    | Asserting
    | Critical
    | Unlock1
    | Unlock2
    | Unlock3
    | Unlock4
    | AssertFailed

  /** The three members, the threads, and as history the thread whose test_and_set won the flag. */
  datatype State = State(flag: bool, mx: Option<nat>, byMe: bool, pc: map<nat, Pc>, owner: Option<nat>)

  datatype Action = CallLock | CallTryLock | CallUnlock | Go

  predicate Init(s: State) {
    !s.flag && s.mx == None && !s.byMe && s.owner == None && forall t | t in s.pc :: s.pc[t] == Idle
  }

  predicate Enabled(s: State, t: nat, a: Action) {
    && t in s.pc
    && match a
       case CallLock => s.pc[t] == Idle
       case CallTryLock => s.pc[t] == Idle
       case CallUnlock => s.pc[t] == Critical
       case Go =>
         s.pc[t] != Idle && s.pc[t] != Critical && s.pc[t] != AssertFailed && (s.pc[t] == WantMutex ==> s.mx == None)
  }

  function Move(s: State, t: nat, p: Pc): State { s.(pc := s.pc[t := p]) }

  /** test_and_set, continuing at won if the flag was clear and at lost otherwise. */
  function TestAndSet(s: State, t: nat, won: Pc, lost: Pc): State {
    if s.flag then Move(s, t, lost) else Move(s.(flag := true, owner := Some(t)), t, won)
  }

  /** The next action of a thread that is inside a call. */
  function GoOn(s: State, t: nat): State
    requires Enabled(s, t, Go)
  {
    match s.pc[t]
    case TryFlag(lock) =>
      TestAndSet(s, t, if lock then Asserting else Critical, if lock then WantMutex else Idle)
    case WantMutex => Move(s.(mx := Some(t)), t, Spinning)
    case Spinning => TestAndSet(s, t, Marking, Spinning)
    case Marking => Move(s.(byMe := true), t, Asserting)
    case Asserting => if s.flag then Move(s, t, Critical) else Move(s, t, AssertFailed)
    case Unlock1 => Move(s, t, if s.byMe then Unlock2 else Unlock4)
    case Unlock2 => Move(s.(byMe := false), t, Unlock3)
    case Unlock3 => Move(s.(mx := None), t, Unlock4)
    case Unlock4 => Move(s.(flag := false, owner := None), t, Idle)
  }

  function Step(s: State, t: nat, a: Action): State
    requires Enabled(s, t, a)
  {
    match a
    case CallLock => Move(s, t, TryFlag(true))
    case CallTryLock => Move(s, t, TryFlag(false))
    case CallUnlock => Move(s, t, Unlock1)
    case Go => GoOn(s, t)
  }

  ghost predicate Next(s: State, s': State) {
    exists t, a :: Enabled(s, t, a) && s' == Step(s, t, a)
  }

  /** Consecutive states are one step apart. */
  ghost predicate IsPath(path: seq<State>) {
    |path| > 0 && forall i | 0 < i < |path| :: Next(path[i - 1], path[i])
  }

  ghost predicate IsRun(run: seq<State>) { IsPath(run) && Init(run[0]) }

  // ----- the invariant -----

  predicate OwnsFlag(p: Pc) {
    p == Marking || p == Asserting || p == Critical || p == Unlock1 || p == Unlock2 || p == Unlock3 || p == Unlock4
  }

  /** Who must hold the inner mutex: inside the critical section that is what byMe remembers. */
  predicate HoldsMutex(p: Pc, byMe: bool) {
    || p == Spinning || p == Marking || p == Unlock3
    || (byMe && (p == Asserting || p == Critical || p == Unlock1 || p == Unlock2))
  }

  ghost predicate Inv(s: State) {
    && (s.flag <==> s.owner.Some?)
    && (forall t | t in s.pc :: s.pc[t] != AssertFailed)
    && (forall t | t in s.pc :: OwnsFlag(s.pc[t]) <==> s.owner == Some(t))
    && (s.owner.Some? ==> s.owner.value in s.pc)
    && (forall t | t in s.pc :: HoldsMutex(s.pc[t], s.byMe) <==> s.mx == Some(t))
    && (s.mx.Some? ==> s.mx.value in s.pc)
    && (s.byMe ==> s.owner.Some? && s.mx == s.owner)
    && (forall t | t in s.pc && (s.pc[t] == Marking || s.pc[t] == Unlock3 || s.pc[t] == Unlock4) :: !s.byMe)
    && (forall t | t in s.pc && s.pc[t] == Unlock2 :: s.byMe)
  }

  lemma EntryStepInv(s: State, t: nat)
    requires Inv(s) && Enabled(s, t, Go) && (s.pc[t].TryFlag? || s.pc[t].WantMutex? || s.pc[t].Spinning?)
    ensures Inv(Step(s, t, Go))
  {
  }

  predicate InUnlock(p: Pc) { p == Unlock1 || p == Unlock2 || p == Unlock3 || p == Unlock4 }

  lemma UnlockStepInv(s: State, t: nat)
    requires Inv(s) && Enabled(s, t, Go) && InUnlock(s.pc[t])
    ensures Inv(Step(s, t, Go))
  {
  }

  lemma LockedStepInv(s: State, t: nat)
    requires Inv(s) && Enabled(s, t, Go) && (s.pc[t] == Marking || s.pc[t] == Asserting)
    ensures Inv(Step(s, t, Go))
  {
  }

  lemma CallStepInv(s: State, t: nat, a: Action)
    requires Inv(s) && Enabled(s, t, a) && a != Go
    ensures Inv(Step(s, t, a))
  {
    hide GoOn, TestAndSet;
  }

  lemma StepInv(s: State, t: nat, a: Action)
    requires Inv(s) && Enabled(s, t, a)
    ensures Inv(Step(s, t, a))
  {
    hide Inv, Step;
    if a != Go {
      CallStepInv(s, t, a);
    } else if s.pc[t].TryFlag? || s.pc[t].WantMutex? || s.pc[t].Spinning? {
      EntryStepInv(s, t);
    } else if InUnlock(s.pc[t]) {
      UnlockStepInv(s, t);
    } else {
      LockedStepInv(s, t);
    }
  }

  lemma {:induction false} PathInv(path: seq<State>, i: nat)
    requires IsPath(path) && Inv(path[0]) && i < |path|
    ensures Inv(path[i])
  {
    hide Step, Inv;
    if i > 0 {
      PathInv(path, i - 1);
      assert Next(path[i - 1], path[i]);
      var t, a :| Enabled(path[i - 1], t, a) && path[i] == Step(path[i - 1], t, a);
      StepInv(path[i - 1], t, a);
    }
  }

  lemma RunInv(run: seq<State>, i: nat)
    requires IsRun(run) && i < |run|
    ensures Inv(run[i])
  {
    PathInv(run, i);
  }

  // ----- safety, over whole runs -----

  /** At most one thread is in the critical section, or anywhere between winning and clearing the flag. */
  lemma MutualExclusion(run: seq<State>, i: nat, t: nat, u: nat)
    requires IsRun(run) && i < |run| && t in run[i].pc && u in run[i].pc
    requires OwnsFlag(run[i].pc[t]) && OwnsFlag(run[i].pc[u])
    ensures t == u && run[i].flag
  {
    RunInv(run, i);
  }

  lemma OneSpinner(run: seq<State>, i: nat, t: nat, u: nat)
    requires IsRun(run) && i < |run| && t in run[i].pc && u in run[i].pc
    requires run[i].pc[t] == Spinning && run[i].pc[u] == Spinning
    ensures t == u
  {
    RunInv(run, i);
  }

  /** _mx.unlock() is only called by the thread that locked _mx. */
  lemma UnlockedByItsHolder(run: seq<State>, i: nat, t: nat)
    requires IsRun(run) && i < |run| && t in run[i].pc && run[i].pc[t] == Unlock3
    ensures run[i].mx == Some(t)
  {
    RunInv(run, i);
  }

  /** The unsynchronised marker is only touched by the owner of the flag, so never by two threads at once. */
  lemma MarkerIsRaceFree(run: seq<State>, i: nat, t: nat)
    requires IsRun(run) && i < |run| && t in run[i].pc
    requires run[i].pc[t] == Marking || run[i].pc[t] == Unlock1 || run[i].pc[t] == Unlock2
    ensures run[i].owner == Some(t) && forall u | u in run[i].pc && OwnsFlag(run[i].pc[u]) :: u == t
  {
    RunInv(run, i);
  }

  /** The assertion at the end of lock() never fails, and its test_and_set changes nothing. */
  lemma AssertionHolds(run: seq<State>, i: nat, t: nat)
    requires IsRun(run) && i < |run| && t in run[i].pc
    ensures run[i].pc[t] != AssertFailed
    ensures run[i].pc[t] == Asserting ==> run[i].flag && Step(run[i], t, Go) == Move(run[i], t, Critical)
  {
    RunInv(run, i);
  }

  // ----- what a call comes to, over whole runs -----

  predicate InLock(p: Pc) {
    p == TryFlag(true) || p == WantMutex || p == Spinning || p == Marking || p == Asserting
  }

  /** How thread t may move on from state s to its place p in state s'; s' differs by one step of any thread. */
  ghost predicate MovesOn(s: State, s': State, t: nat)
    requires t in s.pc && t in s'.pc
  {
    // lock() only ends in the critical section, and only waits for the inner mutex if the flag was taken
    && (InLock(s.pc[t]) ==> InLock(s'.pc[t]) || (s'.pc[t] == Critical && s'.owner == Some(t)))
    && (s'.pc[t] == WantMutex && s.pc[t] != WantMutex ==> s.pc[t] == TryFlag(true) && s.flag)
    && (s'.pc[t] == Spinning && s.pc[t] != Spinning ==> s.pc[t] == WantMutex && s.mx == None && s'.mx == Some(t))
    // try_lock() ends in the critical section if the flag was clear, and else between calls
    && (s.pc[t] == TryFlag(false) ==>
          || s'.pc[t] == TryFlag(false)
          || (s'.pc[t] == Critical && s.owner == None && s'.owner == Some(t))
          || (s'.pc[t] == Idle && s.owner.Some? && s' == Move(s, t, Idle)))
    // the critical section is only left by unlock(), which ends when the flag and the inner mutex are given up
    && (s.pc[t] == Critical ==> s'.pc[t] == Critical || s'.pc[t] == Unlock1)
    && (InUnlock(s.pc[t]) ==> InUnlock(s'.pc[t]) || (s'.pc[t] == Idle && !s'.flag && s'.mx != Some(t)))
    // a thread between calls only starts one
    && (s.pc[t] == Idle ==> s'.pc[t] == Idle || s'.pc[t].TryFlag?)
  }

  lemma StepMovesOn(s: State, u: nat, a: Action, t: nat)
    requires Inv(s) && Enabled(s, u, a) && t in s.pc
    ensures t in Step(s, u, a).pc && MovesOn(s, Step(s, u, a), t)
    ensures Step(s, u, a).pc[t] != s.pc[t] <==> u == t && !(s.pc[t] == Spinning && s.flag)
  {
    if u == t && a == Go { OwnStepMovesOn(s, t); }
  }

  lemma OwnStepMovesOn(s: State, t: nat)
    requires Inv(s) && Enabled(s, t, Go)
    ensures t in GoOn(s, t).pc && MovesOn(s, GoOn(s, t), t)
    ensures GoOn(s, t).pc[t] != s.pc[t] <==> !(s.pc[t] == Spinning && s.flag)
  {
    StepInv(s, t, Go);
  }

  /** In every run: lock() ends in the critical section, try_lock() as the flag was, unlock() with all given up. */
  lemma CallsEnd(run: seq<State>, i: nat, t: nat)
    requires IsRun(run) && 0 < i < |run| && t in run[i - 1].pc
    ensures t in run[i].pc && MovesOn(run[i - 1], run[i], t)
  {
    hide Step, Inv, MovesOn;
    RunInv(run, i - 1);
    assert Next(run[i - 1], run[i]);
    var u, a :| Enabled(run[i - 1], u, a) && run[i] == Step(run[i - 1], u, a);
    StepMovesOn(run[i - 1], u, a, t);
  }

  lemma LockEnds(run: seq<State>, i: nat, t: nat)
    requires IsRun(run) && 0 < i < |run| && t in run[i - 1].pc && InLock(run[i - 1].pc[t])
    ensures t in run[i].pc && (InLock(run[i].pc[t]) || (run[i].pc[t] == Critical && run[i].owner == Some(t)))
  {
    hide IsRun, InLock;
    CallsEnd(run, i, t);
  }

  /** A thread that was inside lock() and is not any more has been in the critical section, as the owner of the flag. */
  lemma {:induction false} LockedWhenDone(run: seq<State>, i: nat, j: nat, t: nat) returns (k: nat)
    requires IsRun(run) && i < j < |run| && t in run[i].pc && InLock(run[i].pc[t])
    requires t !in run[j].pc || !InLock(run[j].pc[t])
    ensures i < k <= j && t in run[k].pc && run[k].pc[t] == Critical && run[k].owner == Some(t)
    ensures forall m | i <= m < k :: t in run[m].pc && InLock(run[m].pc[t])
    decreases j - i
  {
    hide IsRun, InLock;
    LockEnds(run, i + 1, t);
    if InLock(run[i + 1].pc[t]) {
      k := LockedWhenDone(run, i + 1, j, t);
    } else {
      k := i + 1;
    }
  }

  // ----- no deadlock: whoever waits can still get in -----

  /** How many steps the owner of the flag is away from clearing it. */
  function Distance(p: Pc): nat {
    match p
    case Marking => 7
    case Asserting => 6
    case Critical => 5
    case Unlock1 => 4
    case Unlock2 => 3
    case Unlock3 => 2
    case Unlock4 => 1
    case _ => 0
  }

  lemma Append(path: seq<State>, t: nat, a: Action) returns (longer: seq<State>)
    requires IsPath(path) && Enabled(path[|path| - 1], t, a)
    ensures IsPath(longer) && longer == path + [Step(path[|path| - 1], t, a)]
  {
    longer := path + [Step(path[|path| - 1], t, a)];
    assert Next(path[|path| - 1], longer[|path|]);
    forall i | 0 < i < |longer| ensures Next(longer[i - 1], longer[i]) {
      if i < |path| { assert Next(path[i - 1], path[i]); }
    }
  }

  function Last(path: seq<State>): State
    requires |path| > 0
  {
    path[|path| - 1]
  }

  /** Steps left until the flag is cleared, if its owner alone moves. */
  function Remaining(s: State): nat {
    if s.owner.Some? && s.owner.value in s.pc then Distance(s.pc[s.owner.value]) else 0
  }

  /** e is s after the owner of the flag, if any, has left. */
  ghost predicate OwnerLeft(s: State, e: State) {
    && Inv(e) && !e.flag && e.pc.Keys == s.pc.Keys
    && forall u | u in s.pc :: e.pc[u] == if s.owner == Some(u) then Idle else s.pc[u]
  }

  /** One step of the owner towards clearing the flag. */
  lemma OwnerStep(s: State, t: nat, a: Action)
    requires Inv(s) && s.owner == Some(t) && a == (if s.pc[t] == Critical then CallUnlock else Go)
    ensures Enabled(s, t, a) && Remaining(Step(s, t, a)) < Remaining(s)
    ensures Step(s, t, a).pc.Keys == s.pc.Keys
    ensures Step(s, t, a).owner == s.owner || (Step(s, t, a).owner == None && Step(s, t, a).pc[t] == Idle)
    ensures forall u | u in s.pc && u != t :: Step(s, t, a).pc[u] == s.pc[u]
  {
  }

  /** From path's last state the owner alone can leave; nobody else moves. */
  lemma {:induction false} OwnerLeaves(path: seq<State>) returns (longer: seq<State>)
    requires IsPath(path) && Inv(Last(path))
    ensures IsPath(longer) && path <= longer && OwnerLeft(Last(path), Last(longer))
    decreases Remaining(Last(path))
  {
    longer := path;
    if Last(path).owner.Some? {
      var t := Last(path).owner.value;
      var a := if Last(path).pc[t] == Critical then CallUnlock else Go;
      OwnerStep(Last(path), t, a);
      StepInv(Last(path), t, a);
      longer := Append(path, t, a);
      hide Inv, Step;
      longer := OwnerLeaves(longer);
    }
  }

  lemma WinFlag(s: State, t: nat)
    requires Inv(s) && !s.flag && t in s.pc && (s.pc[t] == TryFlag(true) || s.pc[t] == Spinning)
    ensures Enabled(s, t, Go) && Inv(Step(s, t, Go)) && Step(s, t, Go).mx == s.mx
    ensures Step(s, t, Go).pc == s.pc[t := if s.pc[t] == Spinning then Marking else Asserting]
  {
    StepInv(s, t, Go);
  }

  lemma Mark(s: State, t: nat)
    requires Inv(s) && t in s.pc && s.pc[t] == Marking
    ensures Enabled(s, t, Go) && Inv(Step(s, t, Go)) && Step(s, t, Go).mx == s.mx
    ensures Step(s, t, Go).pc == s.pc[t := Asserting]
  {
    StepInv(s, t, Go);
  }

  lemma PassAssertion(s: State, t: nat)
    requires Inv(s) && t in s.pc && s.pc[t] == Asserting
    ensures Enabled(s, t, Go) && Inv(Step(s, t, Go)) && Step(s, t, Go).mx == s.mx
    ensures Step(s, t, Go).pc == s.pc[t := Critical]
  {
    StepInv(s, t, Go);
  }

  /** With the flag clear, a thread at its test_and_set gets through to the critical section. */
  lemma EnterFromClearFlag(path: seq<State>, t: nat) returns (longer: seq<State>)
    requires IsPath(path) && Inv(Last(path)) && !Last(path).flag && t in Last(path).pc
    requires Last(path).pc[t] == TryFlag(true) || Last(path).pc[t] == Spinning
    ensures IsPath(longer) && path <= longer && Inv(Last(longer))
    ensures Last(longer).pc == Last(path).pc[t := Critical] && Last(longer).mx == Last(path).mx
  {
    hide Inv, Step;
    WinFlag(Last(path), t);
    longer := Append(path, t, Go);
    if Last(path).pc[t] == Spinning {
      Mark(Last(longer), t);
      longer := Append(longer, t, Go);
    }
    PassAssertion(Last(longer), t);
    longer := Append(longer, t, Go);
  }

  /** With flag and inner mutex both free, a thread waiting for the mutex gets in. */
  lemma EnterFromFreeMutex(path: seq<State>, t: nat) returns (longer: seq<State>)
    requires IsPath(path) && Inv(Last(path)) && !Last(path).flag && Last(path).mx == None
    requires t in Last(path).pc && Last(path).pc[t] == WantMutex
    ensures IsPath(longer) && path <= longer && t in Last(longer).pc && Last(longer).pc[t] == Critical
  {
    StepInv(Last(path), t, Go);
    longer := Append(path, t, Go);
    longer := EnterFromClearFlag(longer, t);
  }

  /** While the flag is clear, the holder of the inner mutex spins. */
  lemma HolderSpins(s: State)
    requires Inv(s) && !s.flag && s.mx.Some?
    ensures s.mx.value in s.pc && s.pc[s.mx.value] == Spinning
  {
  }

  /** After a spinner went in and out again, the inner mutex is free. */
  lemma SpinnerReleases(s: State, e: State, u: nat)
    requires Inv(s) && u in s.pc && s.pc[u] == Critical && s.mx == Some(u)
    requires OwnerLeft(s, e)
    ensures e.mx == None
  {
    if e.mx.Some? { HolderSpins(e); }
  }

  /** With the flag clear but the inner mutex taken, first its holder and then t goes through. */
  lemma EnterAfterHolder(path: seq<State>, t: nat) returns (longer: seq<State>)
    requires IsPath(path) && Inv(Last(path)) && !Last(path).flag && Last(path).mx.Some?
    requires t in Last(path).pc && Last(path).pc[t] == WantMutex
    ensures IsPath(longer) && path <= longer && t in Last(longer).pc && Last(longer).pc[t] == Critical
  {
    var u := Last(path).mx.value;
    HolderSpins(Last(path));
    hide Inv;
    longer := EnterFromClearFlag(path, u);
    var s := Last(longer);
    NotTheOwner(s, t);
    longer := OwnerLeaves(longer);
    SpinnerReleases(s, Last(longer), u);
    longer := EnterFromFreeMutex(longer, t);
  }

  /**
   No deadlock: from every reachable state, every thread inside lock() can still be
   scheduled into the critical section.
   */
  lemma CanAlwaysEnter(run: seq<State>, t: nat) returns (longer: seq<State>)
    requires IsRun(run) && t in Last(run).pc
    requires Last(run).pc[t] == TryFlag(true) || Last(run).pc[t] == WantMutex || Last(run).pc[t] == Spinning
    ensures IsRun(longer) && run <= longer
    ensures t in Last(longer).pc && Last(longer).pc[t] == Critical
  {
    RunInv(run, |run| - 1);
    longer := OwnerLeaves(run);
    assert Last(longer).pc[t] == Last(run).pc[t];
    hide Inv;
    if Last(run).pc[t] != WantMutex {
      longer := EnterFromClearFlag(longer, t);
    } else if Last(longer).mx.Some? {
      longer := EnterAfterHolder(longer, t);
    } else {
      longer := EnterFromFreeMutex(longer, t);
    }
  }

  lemma NotTheOwner(s: State, t: nat)
    requires Inv(s) && t in s.pc && s.pc[t] == WantMutex
    ensures s.owner != Some(t)
  {
  }

  // ----- whole calls of one thread, while no other thread moves -----

  /** The state after thread t took the given actions, or None if one of them was not possible. */
  ghost function After(s: State, t: nat, actions: seq<Action>): Option<State>
    decreases |actions|
  {
    if actions == [] then Some(s) else
      var n := |actions| - 1;
      var r := After(s, t, actions[..n]);
      if r == None || !Enabled(r.value, t, actions[n]) then None else Some(Step(r.value, t, actions[n]))
  }

  /** more is actions and then a. */
  lemma OneMore(s: State, t: nat, actions: seq<Action>, e: State, a: Action, more: seq<Action>)
    requires After(s, t, actions) == Some(e) && Enabled(e, t, a) && Inv(e) && more == actions + [a]
    ensures After(s, t, more) == Some(Step(e, t, a)) && Inv(Step(e, t, a))
  {
    hide Inv, Enabled, Step;
    assert more[..|actions|] == actions;
    StepInv(e, t, a);
  }

  lemma OwnerFacts(s: State)
    requires Inv(s)
    ensures s.flag <==> s.owner.Some?
    ensures forall t | t in s.pc :: OwnsFlag(s.pc[t]) <==> s.owner == Some(t)
    ensures s.owner.Some? ==> s.owner.value in s.pc
    ensures s.byMe ==> s.mx == s.owner
  {
  }

  lemma TryLockCall(s: State, t: nat) returns (e: State)
    requires Inv(s) && t in s.pc && s.pc[t] == Idle
    ensures After(s, t, [CallTryLock, Go]) == Some(e) && Inv(e)
    ensures e.flag && e.mx == s.mx && e.byMe == s.byMe
    ensures e.owner == if s.owner == None then Some(t) else s.owner
    ensures e.pc == s.pc[t := if s.owner == None then Critical else Idle]
  {
    hide Inv;
    OwnerFacts(s);
    var s1 := Move(s, t, TryFlag(false));
    OneMore(s, t, [], s, CallTryLock, [CallTryLock]);
    OneMore(s, t, [CallTryLock], s1, Go, [CallTryLock, Go]);
    e := Step(s1, t, Go);
  }

  lemma LockCall(s: State, t: nat) returns (e: State)
    requires Inv(s) && t in s.pc && s.pc[t] == Idle && s.owner == None
    ensures After(s, t, [CallLock, Go, Go]) == Some(e) && Inv(e)
    ensures e.flag && e.mx == s.mx && e.byMe == s.byMe && e.owner == Some(t) && e.pc == s.pc[t := Critical]
  {
    hide Inv;
    OwnerFacts(s);
    var s1 := Move(s, t, TryFlag(true));
    OneMore(s, t, [], s, CallLock, [CallLock]);
    WinFlag(s1, t);
    OneMore(s, t, [CallLock], s1, Go, [CallLock, Go]);
    var s2 := Step(s1, t, Go);
    PassAssertion(s2, t);
    OneMore(s, t, [CallLock, Go], s2, Go, [CallLock, Go, Go]);
    e := Step(s2, t, Go);
    assert e.pc == s.pc[t := Critical];
  }

  /** With the inner mutex there are two more actions. */
  function UnlockActions(byMe: bool): seq<Action> {
    if byMe then [CallUnlock, Go, Go, Go, Go] else [CallUnlock, Go, Go]
  }

  lemma UnlockCall(s: State, t: nat) returns (e: State)
    requires Inv(s) && t in s.pc && s.pc[t] == Critical
    ensures After(s, t, UnlockActions(s.byMe)) == Some(e) && Inv(e)
    ensures !e.flag && !e.byMe && e.owner == None && e.mx == (if s.byMe then None else s.mx) && e.pc == s.pc[t := Idle]
    ensures s.byMe ==> s.mx == Some(t)
  {
    hide Inv;
    OwnerFacts(s);
    var s1 := Move(s, t, Unlock1);
    OneMore(s, t, [], s, CallUnlock, [CallUnlock]);
    OneMore(s, t, [CallUnlock], s1, Go, [CallUnlock, Go]);
    e := Step(s1, t, Go);
    OneMore(s, t, [CallUnlock, Go], e, Go, [CallUnlock, Go, Go]);
    e := Step(e, t, Go);
    if s.byMe {
      OneMore(s, t, [CallUnlock, Go, Go], e, Go, [CallUnlock, Go, Go, Go]);
      e := Step(e, t, Go);
      OneMore(s, t, [CallUnlock, Go, Go, Go], e, Go, [CallUnlock, Go, Go, Go, Go]);
      e := Step(e, t, Go);
    }
    assert e.pc == s.pc[t := Idle];
  }

  // ----- the members in place -----

  /** Calls of threads that do not interfere with each other; history is the state of the protocol. */
  class Members {
    var flag: bool
    var mx: Option<nat>
    var byMe: bool
    ghost var history: State

    ghost predicate Valid()
      reads this
    {
      flag == history.flag && mx == history.mx && byMe == history.byMe && Inv(history)
    }

    constructor (ghost threads: set<nat>)
      ensures Valid() && Init(history) && history.pc.Keys == threads
    {
      flag, mx, byMe := false, None, false;
      history := State(false, None, false, map t | t in threads :: Idle, None);
    }

    /** Succeeds exactly if nobody is in the critical section, and then t is the only one that is. */
    method TryLock(ghost t: nat) returns (res: bool)
      requires Valid() && t in history.pc && history.pc[t] == Idle
      modifies this
      ensures Valid() && After(old(history), t, [CallTryLock, Go]) == Some(history)
      ensures res <==> forall u | u in old(history.pc) :: !OwnsFlag(old(history.pc[u]))
      ensures history.pc == old(history.pc)[t := if res then Critical else Idle]
      ensures res ==> forall u | u in history.pc && OwnsFlag(history.pc[u]) :: u == t
    {
      history := TryLockCall(history, t);
      res := !flag;
      flag := true;
    }

    /** The call that need not wait: t is in the critical section afterwards, and its assertion holds. */
    method Lock(ghost t: nat)
      requires Valid() && t in history.pc && history.pc[t] == Idle
      requires forall u | u in history.pc :: !OwnsFlag(history.pc[u])
      modifies this
      ensures Valid() && After(old(history), t, [CallLock, Go, Go]) == Some(history)
      ensures history.pc == old(history.pc)[t := Critical]
      ensures forall u | u in history.pc && OwnsFlag(history.pc[u]) :: u == t
    {
      history := LockCall(history, t);
      var won := !flag;
      flag := true;
      assert won;
      var wasSet := flag;
      flag := true;
      assert wasSet;
    }

    /** Whoever is in the critical section leaves it, and only gives up an inner mutex that it holds itself. */
    method Unlock(ghost t: nat)
      requires Valid() && t in history.pc && history.pc[t] == Critical
      modifies this
      ensures Valid() && After(old(history), t, UnlockActions(old(byMe))) == Some(history)
      ensures history.pc == old(history.pc)[t := Idle]
      ensures forall u | u in history.pc :: !OwnsFlag(history.pc[u])
    {
      history := UnlockCall(history, t);
      if byMe {
        byMe := false;
        assert mx == Some(t);
        mx := None;
      }
      flag := false;
    }
  }
}
