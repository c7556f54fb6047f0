/**
 A FIFO guarded by a mutex, with a condition variable and a cancel flag. Any number of
 threads run its member functions; each action on the mutex, on the condition variable
 or on the guarded members is one step. Wakeups may be spurious, as section 33.5 of
 ISO/IEC 14882:2017 allows.
 */
module Channel {
  import opened Wrappers

  // ----- the guarded members, and what each critical section does to them -----

  datatype Guarded<T> = Guarded(fifo: seq<T>, cancel: bool)

  /** How a receiving critical section ended. */
  datatype Outcome<T> = Got(value: T) | Nothing | Canceled

  predicate Ready<T>(g: Guarded<T>) { |g.fifo| > 0 || g.cancel }

  function Push<T>(g: Guarded<T>, v: T): Guarded<T> { g.(fifo := g.fifo + [v]) }

  /** The end of try_receive: take an item if there is one. */
  function Take<T>(g: Guarded<T>): (Guarded<T>, Outcome<T>) {
    if |g.fifo| > 0 then (g.(fifo := g.fifo[1..]), Got(g.fifo[0])) else (g, Nothing)
  }

  /** The end of receive: a pending cancellation goes first and is used up. */
  function TakeOrCancel<T>(g: Guarded<T>): (Guarded<T>, Outcome<T>)
    requires Ready(g)
  {
    if g.cancel then (g.(cancel := false), Canceled) else Take(g)
  }

  // ----- threads -----

  datatype Call<T> = Send(v: T) | TryReceive | TimedReceive | Receive | CancelRead | Clear | Reset

  /**
   Where a thread is. Waiting is blocked and not notified; Waking (notified, or woken spuriously) and
   TimedOut (not notified) want the mutex back; late says that the time of wait_for is over.
   */
  datatype Pc<T> =
    | Idle
    | Locking(call: Call<T>)
    | Locked(call: Call<T>)
    | Pushed
    | Checking(call: Call<T>, late: bool)
    | Waiting(call: Call<T>)
    | Waking(call: Call<T>, late: bool)
    | TimedOut
    | Taking(call: Call<T>)
    | CancelSet
    | Notifying
    | Emptied
    | Unlocking

  /** An item that left the queue: received by a thread, or dropped by clear or reset. */
  datatype Removal<T> = Received(thread: nat, value: T) | Dropped(value: T)

  /** The members, the mutex and the threads; then the history of sends, removals, cancels and throwing threads. */
  datatype State<T> = State(
    g: Guarded<T>, holder: Option<nat>, pc: map<nat, Pc<T>>,
    sent: seq<T>, removed: seq<Removal<T>>, cancels: nat, throws: seq<nat>)

  datatype Action<T> =
    | Start(call: Call<T>)
    | Lock
    | TryLock(success: bool)
    | Body
    | NotifyOne(woken: Option<nat>)
    | NotifyAll
    | Unlock
    | SpuriousWake
    | Timeout

  function Move<T>(s: State<T>, t: nat, p: Pc<T>): State<T> { s.(pc := s.pc[t := p]) }

  function Drops<T>(items: seq<T>): (r: seq<Removal<T>>)
    ensures |r| == |items| && forall i | 0 <= i < |r| :: r[i] == Dropped(items[i])
  {
    seq(|items|, i requires 0 <= i < |items| => Dropped(items[i]))
  }

  function Values<T>(removed: seq<Removal<T>>): (r: seq<T>)
    ensures |r| == |removed| && forall i | 0 <= i < |r| :: r[i] == removed[i].value
  {
    seq(|removed|, i requires 0 <= i < |removed| => removed[i].value)
  }

  predicate Init<T(==)>(s: State<T>) {
    && s.g == Guarded([], false) && s.holder == None && (forall t | t in s.pc :: s.pc[t] == Idle)
    && s.sent == [] && s.removed == [] && s.cancels == 0 && s.throws == []
  }

  predicate Enabled<T>(s: State<T>, t: nat, a: Action<T>) {
    && t in s.pc
    && match a
       case Start(call) => s.pc[t].Idle?
       case Lock =>
         && s.holder.None?
         && (s.pc[t].Waking? || s.pc[t].TimedOut? || (s.pc[t].Locking? && !s.pc[t].call.TryReceive?))
       case TryLock(success) => s.pc[t].Locking? && s.pc[t].call.TryReceive? && (success ==> s.holder.None?)
       case Body =>
         || s.pc[t].Checking? || s.pc[t].Emptied?
         || (s.pc[t].Locked? &&
             (s.pc[t].call.Send? || s.pc[t].call.CancelRead? || s.pc[t].call.Clear? || s.pc[t].call.Reset?))
         || (s.pc[t].Taking? && (s.pc[t].call.Receive? ==> Ready(s.g)))
       case NotifyOne(woken) =>
         && s.pc[t].Pushed?
         && (woken.Some? ==> woken.value in s.pc && s.pc[woken.value].Waiting?)
         && (woken.None? ==> forall u | u in s.pc :: !s.pc[u].Waiting?)
       case NotifyAll => s.pc[t].Notifying?
       case Unlock => s.pc[t].Unlocking? || s.pc[t].CancelSet?
       case SpuriousWake => s.pc[t].Waiting?
       case Timeout => (s.pc[t].Waiting? || s.pc[t].Waking?) && s.pc[t].call.TimedReceive?
  }

  /** After the mutex has been acquired. */
  function AfterLock<T>(p: Pc<T>): Pc<T> {
    match p
    case Locking(call) => if call.Receive? || call.TimedReceive? then Checking(call, false) else Locked(call)
    case Waking(call, late) => Checking(call, late)
    case _ => Checking(TimedReceive, true)
  }

  /** The end of a receiving call: what was taken is logged. */
  function Finish<T>(s: State<T>, t: nat, r: (Guarded<T>, Outcome<T>)): State<T> {
    match r.1
    case Got(v) => Move(s.(g := r.0, removed := s.removed + [Received(t, v)]), t, Unlocking)
    case Nothing => Move(s.(g := r.0), t, Unlocking)
    case Canceled => Move(s.(g := r.0, throws := s.throws + [t]), t, Unlocking)
  }

  function Empty<T>(s: State<T>): State<T> {
    s.(g := s.g.(fifo := []), removed := s.removed + Drops(s.g.fifo))
  }

  /** One action on the guarded members, by the thread that holds the mutex. */
  function DoBody<T>(s: State<T>, t: nat): State<T>
    requires Enabled(s, t, Body)
  {
    match s.pc[t]
    case Locked(call) =>
      if call.Send? then Move(s.(g := Push(s.g, call.v), sent := s.sent + [call.v]), t, Pushed)
      else if call.CancelRead? then Move(s.(g := s.g.(cancel := true), cancels := s.cancels + 1), t, CancelSet)
      else if call.Clear? then Move(Empty(s), t, Unlocking)
      else Move(Empty(s), t, Emptied)
    case Emptied => Move(s.(g := s.g.(cancel := false)), t, Unlocking)
    case Checking(call, late) =>
      if Ready(s.g) || late then Move(s, t, Taking(call)) else Move(s.(holder := None), t, Waiting(call))
    case Taking(call) => Finish(s, t, if call.Receive? then TakeOrCancel(s.g) else Take(s.g))
  }

  function WakeAll<T>(pc: map<nat, Pc<T>>): map<nat, Pc<T>> {
    map u | u in pc :: if pc[u].Waiting? then Waking(pc[u].call, false) else pc[u]
  }

  function Step<T>(s: State<T>, t: nat, a: Action<T>): State<T>
    requires Enabled(s, t, a)
  {
    match a
    case Start(call) => Move(s, t, Locking(call))
    case Lock => Move(s.(holder := Some(t)), t, AfterLock(s.pc[t]))
    case TryLock(success) => if success then Move(s.(holder := Some(t)), t, Taking(TryReceive)) else Move(s, t, Idle)
    case Body => DoBody(s, t)
    case NotifyOne(woken) =>
      var s' := Move(s, t, Unlocking);
      if woken.Some? then Move(s', woken.value, Waking(s.pc[woken.value].call, false)) else s'
    case NotifyAll => s.(pc := WakeAll(s.pc)[t := Idle])
    case Unlock => Move(s.(holder := None), t, if s.pc[t].CancelSet? then Notifying else Idle)
    case SpuriousWake => Move(s, t, Waking(s.pc[t].call, false))
    case Timeout => Move(s, t, if s.pc[t].Waiting? then TimedOut else Waking(TimedReceive, true))
  }

  ghost predicate Next<T(!new)>(s: State<T>, s': State<T>) {
    exists t, a :: Enabled(s, t, a) && s' == Step(s, t, a)
  }

  ghost predicate IsRun<T(!new)>(run: seq<State<T>>) {
    |run| > 0 && Init(run[0]) && forall i | 0 < i < |run| :: Next(run[i - 1], run[i])
  }

  // ----- the invariant -----

  predicate HoldsLock<T>(p: Pc<T>) {
    p.Locked? || p.Pushed? || p.Checking? || p.Taking? || p.CancelSet? || p.Emptied? || p.Unlocking?
  }

  /** Threads that will still look at the queue: woken receivers, and the one that holds the mutex to receive. */
  predicate WillLook<T>(p: Pc<T>) {
    p.Waking? || p.Checking? || p.Taking?
  }

  predicate OwesNotifyAll<T>(p: Pc<T>) {
    p.CancelSet? || p.Notifying?
  }

  function Lookers<T>(pc: map<nat, Pc<T>>): set<nat> { set u | u in pc && WillLook(pc[u]) }

  ghost predicate SomeWaiting<T>(s: State<T>) { exists u :: u in s.pc && s.pc[u].Waiting? }

  ghost predicate SomeOwes<T>(s: State<T>) { exists u :: u in s.pc && OwesNotifyAll(s.pc[u]) }

  /** 1 while a sender has pushed but not yet notified. */
  function Unannounced<T>(s: State<T>): nat {
    if s.holder.Some? && s.holder.value in s.pc && s.pc[s.holder.value].Pushed? then 1 else 0
  }

  /** The mutex is held by exactly the thread that is inside a critical section. */
  ghost predicate MutexInv<T>(s: State<T>) {
    && (forall u | u in s.pc && HoldsLock(s.pc[u]) :: s.holder == Some(u))
    && (s.holder.Some? ==> s.holder.value in s.pc && HoldsLock(s.pc[s.holder.value]))
  }

  predicate Receives<T>(call: Call<T>) { call.Receive? || call.TimedReceive? || call.TryReceive? }

  /** Only receiving calls wait, and a receiver only goes on if there is something for it. */
  ghost predicate CallInv<T>(s: State<T>) {
    forall u | u in s.pc ::
      match s.pc[u]
      case Locked(call) => call.Send? || call.CancelRead? || call.Clear? || call.Reset?
      case Checking(call, late) => (call.Receive? || call.TimedReceive?) && (late ==> call.TimedReceive?)
      case Waiting(call) => call.Receive? || call.TimedReceive?
      case Waking(call, late) => (call.Receive? || call.TimedReceive?) && (late ==> call.TimedReceive?)
      case Taking(call) => Receives(call) && (call.Receive? ==> Ready(s.g))
      case _ => true
  }

  /**
   While somebody is blocked: either a notify_all is still to come, or enough threads are on
   their way to the queue to take every item; and a set cancel flag means the former.
   */
  ghost predicate WakeupInv<T>(s: State<T>) {
    SomeWaiting(s) && !SomeOwes(s) ==> !s.g.cancel && |s.g.fifo| <= |Lookers(s.pc)| + Unannounced(s)
  }

  ghost predicate HistoryInv<T>(s: State<T>) {
    && s.sent == Values(s.removed) + s.g.fifo
    && |s.throws| + (if s.g.cancel then 1 else 0) <= s.cancels
  }

  ghost predicate Inv<T>(s: State<T>) {
    MutexInv(s) && CallInv(s) && WakeupInv(s) && HistoryInv(s)
  }

  lemma InitInv<T>(s: State<T>)
    requires Init(s)
    ensures Inv(s)
  {
    assert s.sent == Values(s.removed) + s.g.fifo;
  }

  // ----- every step keeps it -----

  lemma MutexStep<T>(s: State<T>, t: nat, a: Action<T>)
    requires MutexInv(s) && Enabled(s, t, a)
    ensures MutexInv(Step(s, t, a))
  {
  }

  lemma CallStep<T>(s: State<T>, t: nat, a: Action<T>)
    requires MutexInv(s) && CallInv(s) && Enabled(s, t, a)
    ensures CallInv(Step(s, t, a))
  {
  }

  lemma HistoryStep<T>(s: State<T>, t: nat, a: Action<T>)
    requires HistoryInv(s) && Enabled(s, t, a)
    ensures HistoryInv(Step(s, t, a))
  {
    var s' := Step(s, t, a);
    assert s'.sent == Values(s'.removed) + s'.g.fifo;
  }

  /** Moving one thread changes the set of lookers by at most that thread. */
  lemma LookersMove<T>(pc: map<nat, Pc<T>>, t: nat, p: Pc<T>)
    requires t in pc
    ensures |Lookers(pc[t := p])| == |Lookers(pc)| + (if WillLook(p) then 1 else 0) - (if WillLook(pc[t]) then 1 else 0)
  {
    var old_, new_ := Lookers(pc), Lookers(pc[t := p]);
    assert new_ - {t} == old_ - {t};
    assert |new_| == |new_ - {t}| + (if t in new_ then 1 else 0);
    assert |old_| == |old_ - {t}| + (if t in old_ then 1 else 0);
  }

  /** Who waits and who owes a notify_all, before and after one thread moves. */
  lemma OthersMove<T>(s: State<T>, s': State<T>, t: nat, p: Pc<T>)
    requires t in s.pc && s'.pc == s.pc[t := p]
    ensures SomeWaiting(s') && !p.Waiting? ==> SomeWaiting(s)
    ensures SomeOwes(s) && (OwesNotifyAll(s.pc[t]) ==> OwesNotifyAll(p)) ==> SomeOwes(s')
    ensures OwesNotifyAll(p) ==> SomeOwes(s')
    ensures OwesNotifyAll(s.pc[t]) ==> SomeOwes(s)
  {
    assert s'.pc[t] == p;
    if SomeWaiting(s') && !p.Waiting? {
      var u :| u in s'.pc && s'.pc[u].Waiting?;
      assert s.pc[u].Waiting?;
    }
    if SomeOwes(s) && (OwesNotifyAll(s.pc[t]) ==> OwesNotifyAll(p)) {
      var u :| u in s.pc && OwesNotifyAll(s.pc[u]);
      assert OwesNotifyAll(s'.pc[u]);
    }
  }

  lemma WakeupStep<T>(s: State<T>, t: nat, a: Action<T>)
    requires MutexInv(s) && CallInv(s) && WakeupInv(s) && Enabled(s, t, a)
    ensures WakeupInv(Step(s, t, a))
  {
    if a.Body? {
      WakeupBody(s, t);
    } else if a.NotifyOne? && a.woken.Some? {
      var mid, u := Move(s, t, Unlocking), a.woken.value;
      LookersMove(s.pc, t, Unlocking);
      LookersMove(mid.pc, u, Waking(s.pc[u].call, false));
      OthersMove(s, mid, t, Unlocking);
      OthersMove(mid, Step(s, t, a), u, Waking(s.pc[u].call, false));
    } else if !a.NotifyAll? {
      var p := Step(s, t, a).pc[t];
      LookersMove(s.pc, t, p);
      OthersMove(s, Step(s, t, a), t, p);
    }
  }

  lemma WakeupBody<T>(s: State<T>, t: nat)
    requires MutexInv(s) && CallInv(s) && WakeupInv(s) && Enabled(s, t, Body)
    ensures WakeupInv(Step(s, t, Body))
  {
    var s' := Step(s, t, Body);
    LookersMove(s.pc, t, s'.pc[t]);
    OthersMove(s, s', t, s'.pc[t]);
    hide SomeWaiting, SomeOwes, Lookers;
    if s.pc[t].Checking? && s'.pc[t].Waiting? { assert |s'.g.fifo| == 0; }
  }

  lemma StepInv<T>(s: State<T>, t: nat, a: Action<T>)
    requires Inv(s) && Enabled(s, t, a)
    ensures Inv(Step(s, t, a))
  {
    MutexStep(s, t, a);
    CallStep(s, t, a);
    WakeupStep(s, t, a);
    HistoryStep(s, t, a);
  }

  lemma {:induction false} RunInv<T(!new)>(run: seq<State<T>>, i: nat)
    requires IsRun(run) && i < |run|
    ensures Inv(run[i])
  {
    hide Inv, Step, Enabled;
    if i == 0 {
      InitInv(run[0]);
    } else {
      RunInv(run, i - 1);
      assert Next(run[i - 1], run[i]);
      var t, a :| Enabled(run[i - 1], t, a) && run[i] == Step(run[i - 1], t, a);
      StepInv(run[i - 1], t, a);
    }
  }

  // ----- what the clients may rely on, over whole runs -----

  /** Nobody holds the mutex, is on the way back from a wakeup, or still has to call notify_all. */
  ghost predicate Quiescent<T>(s: State<T>) {
    s.holder.None? && !SomeOwes(s) && forall u | u in s.pc :: !s.pc[u].Waking?
  }

  /** No lost wakeup: in a quiescent state a receiver is only blocked while there is nothing to wake it for. */
  lemma NoLostWakeup<T(!new)>(run: seq<State<T>>, i: nat, t: nat)
    requires IsRun(run) && i < |run| && Quiescent(run[i])
    requires t in run[i].pc && run[i].pc[t].Waiting?
    ensures run[i].g.fifo == [] && !run[i].g.cancel
  {
    RunInv(run, i);
    assert Lookers(run[i].pc) == {};
  }

  /** The guarded members are only accessed by the thread that holds the mutex, and only one does. */
  lemma MutualExclusion<T(!new)>(run: seq<State<T>>, i: nat, t: nat, u: nat)
    requires IsRun(run) && i < |run| && t in run[i].pc && u in run[i].pc
    requires HoldsLock(run[i].pc[t]) && HoldsLock(run[i].pc[u])
    ensures t == u && run[i].holder == Some(t)
  {
    RunInv(run, i);
  }

  /** receive() never reads the front of an empty queue: there it finds an item or a cancellation. */
  lemma ReceiveNeverPopsEmpty<T(!new)>(run: seq<State<T>>, i: nat, t: nat)
    requires IsRun(run) && i < |run| && t in run[i].pc && run[i].pc[t] == Taking(Receive)
    ensures Enabled(run[i], t, Body) && Ready(run[i].g)
  {
    RunInv(run, i);
  }

  /** First in, first out, nothing lost or duplicated: sent is removed followed by the queue. */
  lemma Conservation<T(!new)>(run: seq<State<T>>, i: nat)
    requires IsRun(run) && i < |run|
    ensures run[i].sent == Values(run[i].removed) + run[i].g.fifo
  {
    RunInv(run, i);
  }

  /** A throw takes the cancellation and nothing else, even when there are items to receive. */
  lemma ThrowRemovesNothing<T>(s: State<T>, t: nat, a: Action<T>)
    requires Enabled(s, t, a) && Step(s, t, a).throws != s.throws
    ensures s.pc[t] == Taking(Receive) && s.g.cancel && Step(s, t, a).g == s.g.(cancel := false)
    ensures Step(s, t, a).removed == s.removed && Step(s, t, a).throws == s.throws + [t]
  {
  }

  /** There are never more Canceled exceptions than calls of cancel_read, and a throw removes no item. */
  lemma ThrowsBounded<T(!new)>(run: seq<State<T>>, i: nat)
    requires IsRun(run) && i < |run|
    ensures |run[i].throws| <= run[i].cancels
    ensures run[i].g.cancel ==> |run[i].throws| < run[i].cancels
    ensures i > 0 && run[i].throws != run[i - 1].throws ==>
      run[i].removed == run[i - 1].removed && run[i].g == run[i - 1].g.(cancel := false) && run[i - 1].g.cancel
  {
    RunInv(run, i);
    if i > 0 && run[i].throws != run[i - 1].throws {
      hide Step, Enabled;
      assert Next(run[i - 1], run[i]);
      var t, a :| Enabled(run[i - 1], t, a) && run[i] == Step(run[i - 1], t, a);
      ThrowRemovesNothing(run[i - 1], t, a);
    }
  }

  /** How many steps the thread that holds the mutex still takes at most until it gives it back. */
  function UntilUnlocked<T>(p: Pc<T>): nat {
    match p
    case Locked(_) => 3
    case Checking(_, _) => 3
    case Pushed => 2
    case Emptied => 2
    case Taking(_) => 2
    case CancelSet => 1
    case Unlocking => 1
    case _ => 0
  }

  /** Thread t has given the mutex back, or is closer to doing so. */
  ghost predicate GetsOn<T>(s: State<T>, s': State<T>, t: nat) {
    && t in s.pc && t in s'.pc
    && if s'.holder == Some(t) then UntilUnlocked(s'.pc[t]) < UntilUnlocked(s.pc[t]) else s'.holder.None?
  }

  /** Whoever holds the mutex can always go on, and each of its steps brings it closer to giving it back. */
  lemma HolderGetsOn<T(!new)>(run: seq<State<T>>, i: nat, t: nat) returns (a: Action<T>)
    requires IsRun(run) && i < |run| && run[i].holder == Some(t)
    ensures Enabled(run[i], t, a)
    ensures forall b | Enabled(run[i], t, b) :: GetsOn(run[i], Step(run[i], t, b), t)
  {
    RunInv(run, i);
    a := HoldersAction(run[i], t);
    forall b | Enabled(run[i], t, b) ensures GetsOn(run[i], Step(run[i], t, b), t) {
      HoldersStep(run[i], t, b);
    }
  }

  lemma HoldersStep<T>(s: State<T>, t: nat, b: Action<T>)
    requires MutexInv(s) && CallInv(s) && s.holder == Some(t) && Enabled(s, t, b)
    ensures GetsOn(s, Step(s, t, b), t)
  {
  }

  lemma HoldersAction<T>(s: State<T>, t: nat) returns (a: Action<T>)
    requires MutexInv(s) && CallInv(s) && s.holder == Some(t)
    ensures Enabled(s, t, a)
  {
    var p := s.pc[t];
    if p.Unlocking? || p.CancelSet? {
      a := Unlock;
    } else if p.Pushed? {
      if u :| u in s.pc && s.pc[u].Waiting? { a := NotifyOne(Some(u)); } else { a := NotifyOne(None); }
    } else {
      a := Body;
    }
  }

  /** No deadlock: while nobody holds the mutex, every thread inside a call can go on, except those that wait. */
  lemma FreeMeansAllCanGoOn<T(!new)>(run: seq<State<T>>, i: nat, t: nat) returns (a: Action<T>)
    requires IsRun(run) && i < |run| && run[i].holder.None?
    requires t in run[i].pc && !run[i].pc[t].Idle? && !run[i].pc[t].Waiting?
    ensures Enabled(run[i], t, a) && !a.Start? && !a.Timeout? && Step(run[i], t, a).pc[t] != run[i].pc[t]
  {
    RunInv(run, i);
    var p := run[i].pc[t];
    a := if p.Notifying? then NotifyAll else if p.Locking? && p.call.TryReceive? then TryLock(true) else Lock;
  }

  // ----- what a call comes to, over whole runs and however the threads interleave -----

  /** What the end of a receiving call by thread t takes, and leaves. */
  ghost predicate TakesOnce<T>(s: State<T>, s': State<T>, t: nat, call: Call<T>) {
    if call.Receive? && s.g.cancel then
      s'.g == Guarded(s.g.fifo, false) && s'.removed == s.removed && s'.throws == s.throws + [t]
    else if |s.g.fifo| > 0 then
      && s'.g == Guarded(s.g.fifo[1..], s.g.cancel)
      && s'.removed == s.removed + [Received(t, s.g.fifo[0])] && s'.throws == s.throws
    else
      !call.Receive? && s'.g == s.g && s'.removed == s.removed && s'.throws == s.throws
  }

  /** How thread t moves from its place in state s to another one in state s'; s' differs by one step of any thread. */
  ghost predicate MovesOn<T>(s: State<T>, s': State<T>, t: nat)
    requires t in s.pc && t in s'.pc
  {
    var q := s'.pc[t];
    match s.pc[t]
    case Idle => q.Locking?
    case Locking(call) =>
      if call.TryReceive? then (q == Taking(call) && s'.holder == Some(t)) || (q.Idle? && s' == Move(s, t, Idle))
      else
        && s'.holder == Some(t)
        && q == if call.Receive? || call.TimedReceive? then Checking(call, false) else Locked(call)
    case Locked(call) => LockedMovesOn(s, s', call, q)
    case Pushed =>
      && q.Unlocking?
      && (SomeWaiting(s) ==> exists u ::
            u in s.pc && u in s'.pc && s.pc[u].Waiting? && s'.pc[u] == Waking(s.pc[u].call, false))
    case Checking(call, late) =>
      || (q == Taking(call) && (late || Ready(s.g)))
      || (q == Waiting(call) && !late && !Ready(s.g) && s'.holder == None)
    case Waiting(call) => q == Waking(call, false) || (call.TimedReceive? && q.TimedOut?)
    case Waking(call, late) =>
      (q == Checking(call, late) && s'.holder == Some(t)) || (call.TimedReceive? && q == Waking(call, true))
    case TimedOut => q == Checking(TimedReceive, true) && s'.holder == Some(t)
    case Taking(call) => q.Unlocking? && TakesOnce(s, s', t, call)
    case CancelSet => q.Notifying? && s'.holder == None
    case Notifying => q.Idle? && !SomeWaiting(s')
    case Emptied => q.Unlocking? && s'.g == Guarded(s.g.fifo, false)
    case Unlocking => q.Idle? && s'.holder == None
  }

  ghost predicate LockedMovesOn<T>(s: State<T>, s': State<T>, call: Call<T>, q: Pc<T>) {
    match call
    case Send(v) => q.Pushed? && s'.g == Guarded(s.g.fifo + [v], s.g.cancel) && s'.sent == s.sent + [v]
    case CancelRead => q.CancelSet? && s'.g == Guarded(s.g.fifo, true) && s'.cancels == s.cancels + 1
    case Clear => q.Unlocking? && s'.g == Guarded([], s.g.cancel)
    case Reset => q.Emptied? && s'.g == Guarded([], s.g.cancel)
    case _ => false
  }

  /** Whoever takes a step gets on, except for a second timeout of a woken thread; nobody else is moved but woken. */
  lemma StepMovesOn<T>(s: State<T>, u: nat, a: Action<T>, t: nat)
    requires Inv(s) && Enabled(s, u, a) && t in s.pc
    ensures t in Step(s, u, a).pc
    ensures u == t && !a.Timeout? ==> MovesOn(s, Step(s, u, a), t)
    ensures u == t && a.Timeout? ==>
      Step(s, u, a).pc[t] == if s.pc[t].Waiting? then TimedOut else Waking(TimedReceive, true)
    ensures u != t ==>
      Step(s, u, a).pc[t] == s.pc[t] || (s.pc[t].Waiting? && Step(s, u, a).pc[t] == Waking(s.pc[t].call, false))
  {
    if u == t {
      if a.Body? { BodyMovesOn(s, t); } else if !a.Timeout? { OwnStepMovesOn(s, t, a); }
    }
  }

  lemma BodyMovesOn<T>(s: State<T>, t: nat)
    requires CallInv(s) && Enabled(s, t, Body)
    ensures t in DoBody(s, t).pc && MovesOn(s, DoBody(s, t), t)
  {
  }

  lemma OwnStepMovesOn<T>(s: State<T>, t: nat, a: Action<T>)
    requires Inv(s) && Enabled(s, t, a) && !a.Body? && !a.Timeout?
    ensures t in Step(s, t, a).pc && MovesOn(s, Step(s, t, a), t)
  {
  }

  /** In every run a thread stays where it is or moves on like this. */
  lemma CallsMoveOn<T(!new)>(run: seq<State<T>>, i: nat, t: nat)
    requires IsRun(run) && 0 < i < |run| && t in run[i - 1].pc
    ensures t in run[i].pc && (run[i].pc[t] == run[i - 1].pc[t] || MovesOn(run[i - 1], run[i], t))
  {
    hide Step, Enabled, Inv;
    RunInv(run, i - 1);
    assert Next(run[i - 1], run[i]);
    var u, a :| Enabled(run[i - 1], u, a) && run[i] == Step(run[i - 1], u, a);
    StepMovesOn(run[i - 1], u, a, t);
    TimeoutIsTimed(run[i - 1], u, a);
  }

  lemma TimeoutIsTimed<T>(s: State<T>, u: nat, a: Action<T>)
    requires Enabled(s, u, a)
    ensures u in s.pc && (a.Timeout? ==> (s.pc[u].Waiting? || s.pc[u].Waking?) && s.pc[u].call.TimedReceive?)
  {
  }

  /** The places of a call, between its start and its end. */
  predicate Serves<T(==)>(p: Pc<T>, call: Call<T>) {
    match p
    case Idle => false
    case Locking(c) => c == call
    case Locked(c) => c == call
    case Checking(c, _) => c == call
    case Waiting(c) => c == call
    case Waking(c, _) => c == call
    case Taking(c) => c == call
    case Pushed => call.Send?
    case TimedOut => call.TimedReceive?
    case CancelSet => call.CancelRead?
    case Notifying => call.CancelRead?
    case Emptied => call.Reset?
    case Unlocking => !call.CancelRead?
  }

  lemma MovingServes<T>(s: State<T>, s': State<T>, t: nat, call: Call<T>)
    requires t in s.pc && t in s'.pc && Serves(s.pc[t], call) && MovesOn(s, s', t)
    requires CallInv(s)
    ensures s'.pc[t].Idle? || Serves(s'.pc[t], call)
  {
  }

  lemma CallIsKeptOnce<T(!new)>(run: seq<State<T>>, i: nat, t: nat, call: Call<T>)
    requires IsRun(run) && 0 < i < |run| && t in run[i - 1].pc && Serves(run[i - 1].pc[t], call)
    ensures t in run[i].pc && (run[i].pc[t].Idle? || Serves(run[i].pc[t], call))
  {
    hide Serves, MovesOn, MutexInv, WakeupInv, HistoryInv, CallInv, IsRun;
    RunInv(run, i - 1);
    CallsMoveOn(run, i, t);
    if run[i].pc[t] != run[i - 1].pc[t] { MovingServes(run[i - 1], run[i], t, call); }
  }

  /** Whatever the other threads do, a thread keeps its call from the start to the end, through every kind of wakeup. */
  lemma {:induction false} CallIsKept<T(!new)>(run: seq<State<T>>, i: nat, j: nat, t: nat, call: Call<T>)
    requires IsRun(run) && i <= j < |run| && t in run[i].pc && run[i].pc[t] == Locking(call)
    requires forall k | i <= k < j && t in run[k].pc :: !run[k].pc[t].Idle?
    ensures t in run[j].pc && (run[j].pc[t].Idle? || Serves(run[j].pc[t], call))
    decreases j
  {
    hide Serves, IsRun;
    if i == j {
      StartServes(call);
    } else {
      CallIsKept(run, i, j - 1, t, call);
      CallIsKeptOnce(run, j, t, call);
    }
  }

  lemma StartServes<T>(call: Call<T>)
    ensures Serves(Locking(call), call)
  {
  }

  // what a receiving call has received or thrown

  function ReceivedBy<T>(removed: seq<Removal<T>>, t: nat): nat {
    if removed == [] then 0 else
      var n := |removed| - 1;
      ReceivedBy(removed[..n], t) + If(removed[n].Received? && removed[n].thread == t)
  }

  function ThrownBy(throws: seq<nat>, t: nat): nat {
    if throws == [] then 0 else ThrownBy(throws[..|throws| - 1], t) + If(throws[|throws| - 1] == t)
  }

  /** How many items thread t has received, and how often it has thrown. */
  function Outcomes<T>(s: State<T>, t: nat): nat { ReceivedBy(s.removed, t) + ThrownBy(s.throws, t) }

  lemma ReceivedByOneMore<T>(removed: seq<Removal<T>>, r: Removal<T>, t: nat)
    ensures ReceivedBy(removed + [r], t) == ReceivedBy(removed, t) + If(r.Received? && r.thread == t)
  {
    assert (removed + [r])[..|removed|] == removed;
  }

  lemma {:induction false} ReceivedByDrops<T>(removed: seq<Removal<T>>, drops: seq<Removal<T>>, t: nat)
    requires forall k | 0 <= k < |drops| :: drops[k].Dropped?
    ensures ReceivedBy(removed + drops, t) == ReceivedBy(removed, t)
  {
    if drops == [] {
      assert removed + drops == removed;
    } else {
      var n := |drops| - 1;
      ReceivedByDrops(removed, drops[..n], t);
      ReceivedByOneMore(removed + drops[..n], drops[n], t);
      assert removed + drops == removed + drops[..n] + [drops[n]];
    }
  }

  lemma ThrownByOneMore(throws: seq<nat>, u: nat, t: nat)
    ensures ThrownBy(throws + [u], t) == ThrownBy(throws, t) + If(u == t)
  {
    assert (throws + [u])[..|throws|] == throws;
  }

  /** Where there is something to take, or to throw. */
  predicate TakesSomething<T>(g: Guarded<T>, call: Call<T>) { |g.fifo| > 0 || (call.Receive? && g.cancel) }

  /** Only the end of a receiving call of t counts for t, and once. */
  lemma OutcomesStep<T>(s: State<T>, u: nat, a: Action<T>, t: nat)
    requires CallInv(s) && Enabled(s, u, a)
    ensures Outcomes(Step(s, u, a), t) ==
      Outcomes(s, t) + If(u == t && a.Body? && s.pc[u].Taking? && TakesSomething(s.g, s.pc[u].call))
  {
    hide ReceivedBy, ThrownBy;
    var s' := Step(s, u, a);
    ReceivedByDrops(s.removed, Drops(s.g.fifo), t);
    ThrownByOneMore(s.throws, u, t);
    if |s.g.fifo| > 0 { ReceivedByOneMore(s.removed, Received(u, s.g.fifo[0]), t); }
  }

  lemma RunOutcomes<T(!new)>(run: seq<State<T>>, i: nat, t: nat)
    requires IsRun(run) && 0 < i < |run| && t in run[i - 1].pc
    ensures t in run[i].pc
    ensures var s, s' := run[i - 1], run[i];
      Outcomes(s', t) == Outcomes(s, t) +
        If(s.pc[t].Taking? && s'.pc[t] != s.pc[t] && TakesSomething(s.g, s.pc[t].call))
  {
    hide Step, Enabled, Outcomes;
    RunInv(run, i - 1);
    assert Next(run[i - 1], run[i]);
    var u, a :| Enabled(run[i - 1], u, a) && run[i] == Step(run[i - 1], u, a);
    OutcomesStep(run[i - 1], u, a, t);
    StepMovesOn(run[i - 1], u, a, t);
    TimeoutIsTimed(run[i - 1], u, a);
    TakingGoesOn(run[i - 1], u, a);
  }

  lemma TakingGoesOn<T>(s: State<T>, u: nat, a: Action<T>)
    requires Enabled(s, u, a) && CallInv(s)
    ensures u in s.pc && u in Step(s, u, a).pc && (s.pc[u].Taking? ==> a.Body? && Step(s, u, a).pc[u] != s.pc[u])
  {
  }

  /**
   Between its start and its end a receiving call receives one item or throws once, at the one moment when it takes
   something; only try_receive, with and without a timeout, may do neither.
   */
  lemma {:induction false} ReceivesOnce<T(!new)>(run: seq<State<T>>, i: nat, j: nat, t: nat, call: Call<T>)
    requires IsRun(run) && i <= j < |run| && t in run[i].pc && run[i].pc[t] == Locking(call)
    requires forall k | i <= k < j && t in run[k].pc :: !run[k].pc[t].Idle?
    ensures t in run[j].pc
    ensures var ended, n := run[j].pc[t].Idle? || run[j].pc[t].Unlocking?, Outcomes(run[j], t) - Outcomes(run[i], t);
      && (!ended || !Receives(call) ==> n == 0)
      && (ended && call.Receive? ==> n == 1)
      && 0 <= n <= 1
    decreases j
  {
    hide IsRun, Serves, Outcomes;
    if i < j {
      ReceivesOnce(run, i, j - 1, t, call);
      CallIsKept(run, i, j - 1, t, call);
      ReceivesStep(run, j, t, call);
    }
  }

  lemma ReceivesStep<T(!new)>(run: seq<State<T>>, i: nat, t: nat, call: Call<T>)
    requires IsRun(run) && 0 < i < |run| && t in run[i - 1].pc && Serves(run[i - 1].pc[t], call)
    ensures t in run[i].pc
    ensures var p, q, n := run[i - 1].pc[t], run[i].pc[t], Outcomes(run[i], t) - Outcomes(run[i - 1], t);
      && 0 <= n <= 1 && (n == 1 ==> p.Taking? && q.Unlocking? && Receives(call))
      && (p.Unlocking? ==> q.Unlocking? || q.Idle?)
      && (!p.Unlocking? && (q.Unlocking? || q.Idle?) && call.Receive? ==> n == 1)
  {
    hide IsRun, MovesOn, Serves, Outcomes, TakesSomething, MutexInv, WakeupInv, HistoryInv, CallInv;
    RunOutcomes(run, i, t);
    CallsMoveOn(run, i, t);
    RunInv(run, i - 1);
    if run[i].pc[t] != run[i - 1].pc[t] {
      EndsByTaking(run[i - 1], run[i], t, call);
    } else {
      NotIdle(run[i].pc[t], call);
    }
  }

  lemma NotIdle<T>(p: Pc<T>, call: Call<T>)
    requires Serves(p, call)
    ensures !p.Idle?
  {
  }

  /** A receiving call only gets to its end by taking, and nothing is taken elsewhere. */
  lemma EndsByTaking<T>(s: State<T>, s': State<T>, t: nat, call: Call<T>)
    requires CallInv(s) && t in s.pc && t in s'.pc && Serves(s.pc[t], call) && MovesOn(s, s', t)
    ensures s.pc[t].Taking? ==> s'.pc[t].Unlocking? && s.pc[t].call == call && Receives(call)
    ensures s.pc[t].Taking? && call.Receive? ==> TakesSomething(s.g, call)
    ensures !s.pc[t].Taking? && s'.pc[t].Unlocking? ==> !Receives(call)
    ensures s'.pc[t].Idle? && !s.pc[t].Unlocking? ==> !call.Receive?
    ensures s.pc[t].Unlocking? ==> s'.pc[t].Idle?
  {
  }

  // ----- whole calls of one thread, while no other thread moves -----

  /** The state after thread t took the given actions, or None if one of them was not possible. */
  ghost function After<T>(s: State<T>, t: nat, actions: seq<Action<T>>): Option<State<T>>
    decreases |actions|
  {
    if actions == [] then Some(s) else
      var n := |actions| - 1;
      var r := After(s, t, actions[..n]);
      if r == None || !Enabled(r.value, t, actions[n]) then None else Some(Step(r.value, t, actions[n]))
  }

  /** more is actions and then a. */
  lemma OneMore<T>(s: State<T>, t: nat, actions: seq<Action<T>>, e: State<T>, a: Action<T>, more: seq<Action<T>>)
    requires After(s, t, actions) == Some(e) && Enabled(e, t, a) && Inv(e) && more == actions + [a]
    ensures After(s, t, more) == Some(Step(e, t, a)) && Inv(Step(e, t, a))
  {
    hide Inv, Enabled, Step;
    assert more[..|actions|] == actions;
    StepInv(e, t, a);
  }

  /** Thread t may start a call, and nobody is in its way. */
  ghost predicate Free<T>(s: State<T>, t: nat) {
    Inv(s) && t in s.pc && s.pc[t].Idle? && s.holder.None?
  }

  /** Starting a call and acquiring the mutex. */
  lemma Entered<T>(s: State<T>, t: nat, call: Call<T>) returns (e: State<T>)
    requires Free(s, t) && !call.TryReceive?
    ensures After(s, t, [Start(call), Lock]) == Some(e) && Inv(e)
    ensures e == s.(holder := Some(t), pc := s.pc[t := AfterLock(Locking(call))])
  {
    hide Inv;
    var s1 := Move(s, t, Locking(call));
    OneMore(s, t, [], s, Start(call), [Start(call)]);
    OneMore(s, t, [Start(call)], s1, Lock, [Start(call), Lock]);
    e := Step(s1, t, Lock);
    assert s.pc[t := Locking(call)][t := AfterLock(Locking(call))] == s.pc[t := AfterLock(Locking(call))];
  }

  /** Leaving the critical section, after which the thread is between calls again. */
  lemma Left<T>(s: State<T>, t: nat, actions: seq<Action<T>>, e: State<T>, more: seq<Action<T>>) returns (e': State<T>)
    requires After(s, t, actions) == Some(e) && Inv(e) && t in e.pc && e.pc[t].Unlocking?
    requires more == actions + [Unlock]
    ensures After(s, t, more) == Some(e') && Inv(e')
    ensures e' == e.(holder := None, pc := e.pc[t := Idle])
  {
    hide Inv;
    OneMore(s, t, actions, e, Unlock, more);
    e' := Step(e, t, Unlock);
  }

  /** The oldest waiting item is the first one that was sent and not removed. */
  lemma OldestFirst<T>(s: State<T>)
    requires Inv(s)
    ensures |s.sent| - |s.removed| == |s.g.fifo|
    ensures s.g.fifo != [] ==> s.sent[|s.removed|] == s.g.fifo[0]
    ensures s.g.fifo == [] ==> Values(s.removed) == s.sent
  {
    hide MutexInv, CallInv, WakeupInv;
  }

  // Each lemma gives the actions of a call, and what has changed after them. All other threads stay where they are,
  // except for those that are woken.

  lemma SendCall<T>(s: State<T>, t: nat, v: T) returns (woken: Option<nat>, e: State<T>)
    requires Free(s, t)
    ensures After(s, t, [Start(Send(v)), Lock, Body, NotifyOne(woken), Unlock]) == Some(e) && Free(e, t)
    ensures e.g == Push(s.g, v) && e.sent == s.sent + [v] && e.removed == s.removed
    ensures woken.Some? <==> SomeWaiting(s)
    ensures woken.Some? ==> woken.value in s.pc && s.pc[woken.value].Waiting?
    ensures e.pc == if woken.Some? then s.pc[woken.value := Waking(s.pc[woken.value].call, false)] else s.pc
  {
    hide Inv;
    woken := None;
    if SomeWaiting(s) {
      var u :| u in s.pc && s.pc[u].Waiting?;
      woken := Some(u);
    }
    e := Entered(s, t, Send(v));
    OneMore(s, t, [Start(Send(v)), Lock], e, Body, [Start(Send(v)), Lock, Body]);
    e := Step(e, t, Body);
    OneMore(s, t, [Start(Send(v)), Lock, Body], e, NotifyOne(woken), [Start(Send(v)), Lock, Body, NotifyOne(woken)]);
    e := Step(e, t, NotifyOne(woken));
    e := Left(s, t, [Start(Send(v)), Lock, Body, NotifyOne(woken)], e,
              [Start(Send(v)), Lock, Body, NotifyOne(woken), Unlock]);
  }

  /** The history after t received r. */
  predicate ReceivedAs<T(==)>(s: State<T>, e: State<T>, t: nat, r: Outcome<T>) {
    && e.sent == s.sent && e.cancels == s.cancels && e.pc == s.pc
    && e.removed == (if r.Got? then s.removed + [Received(t, r.value)] else s.removed)
    && e.throws == if r.Canceled? then s.throws + [t] else s.throws
  }

  lemma TryReceiveCall<T>(s: State<T>, t: nat) returns (e: State<T>)
    requires Free(s, t)
    ensures After(s, t, [Start(TryReceive), TryLock(true), Body, Unlock]) == Some(e) && Free(e, t)
    ensures e.g == Take(s.g).0 && ReceivedAs(s, e, t, Take(s.g).1)
  {
    hide Inv;
    OneMore(s, t, [], s, Start(TryReceive), [Start(TryReceive)]);
    e := Step(s, t, Start(TryReceive));
    OneMore(s, t, [Start(TryReceive)], e, TryLock(true), [Start(TryReceive), TryLock(true)]);
    e := Step(e, t, TryLock(true));
    OneMore(s, t, [Start(TryReceive), TryLock(true)], e, Body, [Start(TryReceive), TryLock(true), Body]);
    e := Step(e, t, Body);
    e := Left(s, t, [Start(TryReceive), TryLock(true), Body], e, [Start(TryReceive), TryLock(true), Body, Unlock]);
    assert e.pc == s.pc;
  }

  /** From the check that finds something, or that it is late, to the end of a waiting call. */
  lemma TakenAfterCheck<T>(s: State<T>, t: nat, call: Call<T>, late: bool, actions: seq<Action<T>>, e0: State<T>)
      returns (e: State<T>)
    requires (call.Receive? && !late) || call.TimedReceive?
    requires After(s, t, actions) == Some(e0) && Inv(e0) && t in e0.pc && e0.pc[t] == Checking(call, late)
    requires e0 == s.(holder := Some(t), pc := e0.pc) && e0.pc[t := Idle] == s.pc && (late || Ready(s.g))
    ensures After(s, t, actions + [Body, Body, Unlock]) == Some(e) && Inv(e) && e.holder.None?
    ensures var r := if call.Receive? then TakeOrCancel(s.g) else Take(s.g);
      e.g == r.0 && ReceivedAs(s, e, t, r.1)
  {
    hide Inv;
    OneMore(s, t, actions, e0, Body, actions + [Body]);
    e := Step(e0, t, Body);
    OneMore(s, t, actions + [Body], e, Body, actions + [Body, Body]);
    e := Step(e, t, Body);
    e := Left(s, t, actions + [Body, Body], e, actions + [Body, Body, Unlock]);
    assert e.pc == e0.pc[t := Idle];
  }

  lemma ReceiveCall<T>(s: State<T>, t: nat) returns (e: State<T>)
    requires Free(s, t) && Ready(s.g)
    ensures After(s, t, [Start(Receive), Lock, Body, Body, Unlock]) == Some(e) && Free(e, t)
    ensures e.g == TakeOrCancel(s.g).0 && ReceivedAs(s, e, t, TakeOrCancel(s.g).1)
  {
    hide Inv;
    e := Entered(s, t, Receive);
    assert e.pc[t := Idle] == s.pc;
    var actions: seq<Action<T>> := [Start(Receive), Lock];
    e := TakenAfterCheck(s, t, Receive, false, actions, e);
    assert actions + [Body, Body, Unlock] == [Start(Receive), Lock, Body, Body, Unlock];
  }

  /** The actions of try_receive with a timeout: without anything to receive it waits until the time is over. */
  function TimedActions<T>(ready: bool): seq<Action<T>> {
    [Start(TimedReceive), Lock] + (if ready then [] else [Body, Timeout, Lock]) + [Body, Body, Unlock]
  }

  lemma TimedReceiveCall<T>(s: State<T>, t: nat) returns (e: State<T>)
    requires Free(s, t)
    ensures After(s, t, TimedActions(Ready(s.g))) == Some(e) && Free(e, t)
    ensures e.g == Take(s.g).0 && ReceivedAs(s, e, t, Take(s.g).1)
  {
    hide Inv;
    e := Entered(s, t, TimedReceive);
    var actions: seq<Action<T>> := [Start(TimedReceive), Lock];
    if Ready(s.g) {
      assert e.pc[t := Idle] == s.pc;
      e := TakenAfterCheck(s, t, TimedReceive, false, actions, e);
      assert actions + [Body, Body, Unlock] == TimedActions(true);
    } else {
      OneMore(s, t, actions, e, Body, actions + [Body]);
      e := Step(e, t, Body);
      OneMore(s, t, actions + [Body], e, Timeout, actions + [Body, Timeout]);
      e := Step(e, t, Timeout);
      OneMore(s, t, actions + [Body, Timeout], e, Lock, actions + [Body, Timeout, Lock]);
      e := Step(e, t, Lock);
      assert e.pc[t := Idle] == s.pc;
      e := TakenAfterCheck(s, t, TimedReceive, true, actions + [Body, Timeout, Lock], e);
      assert actions + [Body, Timeout, Lock] + [Body, Body, Unlock] == TimedActions(false);
    }
  }

  lemma CancelReadCall<T>(s: State<T>, t: nat) returns (e: State<T>)
    requires Free(s, t)
    ensures After(s, t, [Start(CancelRead), Lock, Body, Unlock, NotifyAll]) == Some(e) && Free(e, t)
    ensures e.g == s.g.(cancel := true) && e.sent == s.sent && e.removed == s.removed && e.cancels == s.cancels + 1
    ensures e.pc.Keys == s.pc.Keys
    ensures forall u | u in s.pc :: e.pc[u] == if s.pc[u].Waiting? then Waking(s.pc[u].call, false) else s.pc[u]
  {
    hide Inv;
    var c: Call<T> := CancelRead;
    e := Entered(s, t, c);
    OneMore(s, t, [Start(c), Lock], e, Body, [Start(c), Lock, Body]);
    e := Step(e, t, Body);
    OneMore(s, t, [Start(c), Lock, Body], e, Unlock, [Start(c), Lock, Body, Unlock]);
    e := Step(e, t, Unlock);
    OneMore(s, t, [Start(c), Lock, Body, Unlock], e, NotifyAll, [Start(c), Lock, Body, Unlock, NotifyAll]);
    e := Step(e, t, NotifyAll);
  }

  lemma ClearCall<T>(s: State<T>, t: nat) returns (e: State<T>)
    requires Free(s, t)
    ensures After(s, t, [Start(Clear), Lock, Body, Unlock]) == Some(e) && Free(e, t)
    ensures e.g == s.g.(fifo := []) && e.sent == s.sent && e.pc == s.pc
  {
    hide Inv;
    e := Entered(s, t, Clear);
    OneMore(s, t, [Start(Clear), Lock], e, Body, [Start(Clear), Lock, Body]);
    e := Step(e, t, Body);
    e := Left(s, t, [Start(Clear), Lock, Body], e, [Start(Clear), Lock, Body, Unlock]);
    assert e.pc == s.pc;
  }

  lemma ResetCall<T>(s: State<T>, t: nat) returns (e: State<T>)
    requires Free(s, t)
    ensures After(s, t, [Start(Reset), Lock, Body, Body, Unlock]) == Some(e) && Free(e, t)
    ensures e.g == Guarded([], false) && e.sent == s.sent && e.pc == s.pc
  {
    hide Inv;
    e := Entered(s, t, Reset);
    OneMore(s, t, [Start(Reset), Lock], e, Body, [Start(Reset), Lock, Body]);
    e := Step(e, t, Body);
    OneMore(s, t, [Start(Reset), Lock, Body], e, Body, [Start(Reset), Lock, Body, Body]);
    e := Step(e, t, Body);
    e := Left(s, t, [Start(Reset), Lock, Body, Body], e, [Start(Reset), Lock, Body, Body, Unlock]);
    assert e.pc == s.pc;
  }

  // ----- the members in place -----

  /** Calls of threads that do not interfere with each other; history is the state of the protocol. */
  class Members<T> {
    var fifo: seq<T>
    var cancel: bool
    ghost var history: State<T>

    ghost predicate Valid()
      reads this
    {
      Guarded(fifo, cancel) == history.g && Inv(history)
    }

    constructor (ghost threads: set<nat>)
      ensures Valid() && Init(history) && history.pc.Keys == threads
    {
      fifo, cancel := [], false;
      history := State(Guarded([], false), None, map t | t in threads :: Idle, [], [], 0, []);
      new;
      InitInv(history);
    }

    /** Sends the item and wakes one of the blocked receivers, if there is any. */
    method Send(v: T, ghost t: nat) returns (ghost woken: Option<nat>)
      requires Valid() && Free(history, t)
      modifies this
      ensures Valid() && Free(history, t)
      ensures After(old(history), t, [Start(Call.Send(v)), Lock, Body, NotifyOne(woken), Unlock]) == Some(history)
      ensures history.sent == old(history.sent) + [v] && history.removed == old(history.removed)
      ensures woken.Some? <==> old(SomeWaiting(history))
    {
      hide Inv;
      ghost var e;
      woken, e := SendCall(history, t, v);
      fifo := fifo + [v];
      history := e;
    }

    /** Returns the oldest item that was sent and not removed, if there is one; a cancellation is left alone. */
    method TryReceive(ghost t: nat) returns (r: Outcome<T>)
      requires Valid() && Free(history, t)
      modifies this
      ensures Valid() && Free(history, t)
      ensures After(old(history), t, [Start(Call.TryReceive), TryLock(true), Body, Unlock]) == Some(history)
      ensures ReceivedAs(old(history), history, t, r) && cancel == old(cancel) && !r.Canceled?
      ensures r.Got? <==> old(|history.removed| < |history.sent|)
      ensures r.Got? ==> old(|history.removed| < |history.sent|) && r.value == old(history.sent[|history.removed|])
    {
      hide Inv;
      OldestFirst(history);
      history := TryReceiveCall(history, t);
      r := Nothing;
      if |fifo| > 0 {
        r := Got(fifo[0]);
        fifo := fifo[1..];
      }
    }

    /** The same, after waiting for an item or a cancellation until the time is over. */
    method TryReceiveFor(ghost t: nat) returns (r: Outcome<T>)
      requires Valid() && Free(history, t)
      modifies this
      ensures Valid() && Free(history, t)
      ensures After(old(history), t, TimedActions(old(Ready(history.g)))) == Some(history)
      ensures ReceivedAs(old(history), history, t, r) && cancel == old(cancel) && !r.Canceled?
      ensures r.Got? <==> old(|history.removed| < |history.sent|)
      ensures r.Got? ==> old(|history.removed| < |history.sent|) && r.value == old(history.sent[|history.removed|])
    {
      hide Inv;
      OldestFirst(history);
      history := TimedReceiveCall(history, t);
      r := Nothing;
      if |fifo| > 0 {
        r := Got(fifo[0]);
        fifo := fifo[1..];
      }
    }

    /** Throws exactly if a cancellation is pending, which is used up, and else returns the oldest item. */
    method Receive(ghost t: nat) returns (r: Outcome<T>)
      requires Valid() && Free(history, t) && Ready(history.g)
      modifies this
      ensures Valid() && Free(history, t)
      ensures After(old(history), t, [Start(Call.Receive), Lock, Body, Body, Unlock]) == Some(history)
      ensures ReceivedAs(old(history), history, t, r) && !r.Nothing? && !cancel
      ensures r.Canceled? <==> old(cancel)
      ensures r.Got? ==> old(|history.removed| < |history.sent|) && r.value == old(history.sent[|history.removed|])
    {
      hide Inv;
      OldestFirst(history);
      history := ReceiveCall(history, t);
      if cancel {
        cancel := false;
        return Canceled;
      }
      r := Got(fifo[0]);
      fifo := fifo[1..];
    }

    /** Afterwards everybody who was blocked is on the way back into the same call, and no item has been touched. */
    method CancelRead(ghost t: nat)
      requires Valid() && Free(history, t)
      modifies this
      ensures Valid() && Free(history, t)
      ensures After(old(history), t, [Start(Call.CancelRead), Lock, Body, Unlock, NotifyAll]) == Some(history)
      ensures history.cancels == old(history.cancels) + 1 && Ready(history.g) && !SomeWaiting(history)
      ensures forall u | u in old(history.pc) && old(history.pc[u]).Waiting? ::
        u in history.pc && history.pc[u] == Waking(old(history.pc[u]).call, false)
      ensures history.sent == old(history.sent) && history.removed == old(history.removed)
    {
      hide Inv;
      history := CancelReadCall(history, t);
      cancel := true;
    }

    /** Afterwards everything that was ever sent has been removed. */
    method Clear(ghost t: nat)
      requires Valid() && Free(history, t)
      modifies this
      ensures Valid() && Free(history, t)
      ensures After(old(history), t, [Start(Call.Clear), Lock, Body, Unlock]) == Some(history)
      ensures history.sent == old(history.sent) == Values(history.removed) && cancel == old(cancel)
    {
      hide Inv;
      history := ClearCall(history, t);
      OldestFirst(history);
      fifo := [];
    }

    /** The same, and a pending cancellation is gone. */
    method Reset(ghost t: nat)
      requires Valid() && Free(history, t)
      modifies this
      ensures Valid() && Free(history, t)
      ensures After(old(history), t, [Start(Call.Reset), Lock, Body, Body, Unlock]) == Some(history)
      ensures history.sent == old(history.sent) == Values(history.removed) && !Ready(history.g)
    {
      hide Inv;
      history := ResetCall(history, t);
      OldestFirst(history);
      fifo := [];
      cancel := false;
    }
  }
}
