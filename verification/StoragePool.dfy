/**
 The slot allocator of ObjectStore_Base. A slot's counter is -1 while it is free, 0 while
 somebody constructs or destroys its object, and otherwise the number of references. Any
 number of threads allocate, copy and drop references; every atomic action is one step.

 References are taken here as shares in a slot that are duplicated, handed on and dropped;
 how the pointers of RcPtr carry the shares is the subject of the module RcPtr.
 */
module StoragePool {
  import opened Counting
  import opened Wrappers

  /** cnt, and whether the memory holds a constructed object. */
  datatype Slot = Slot(cnt: int, alive: bool)

  datatype Pc =
    | Idle
    | Scanning(i: nat)
    | Claiming(i: nat)
    | Constructing(i: nat)
    | Wrapping(i: nat)
    | Destroying(i: nat)
    | Releasing(i: nat)

  /**
   The slots, the references (by name) and the threads. As history: bad is set by constructing
   over an object, destroying or using something that is not there; made and ended count the
   constructor and destructor calls for each slot.
   */
  datatype State = State(
    slots: seq<Slot>, owns: map<Ref, nat>, pc: map<nat, Pc>, bad: bool, made: seq<nat>, ended: seq<nat>)

  datatype Action =
    | CallAlloc
    | Look
    | CompareExchange
    | Construct
    | WrapRef(h: nat)
    | Copy(h: nat, from: nat)
    | HandOn(h: nat, from: nat)
    | Drop(h: nat)
    | Use(h: nat)
    | Destroy
    | Release

  predicate Init(s: State) {
    && (forall i | 0 <= i < |s.slots| :: s.slots[i] == Slot(-1, false))
    && s.owns == map[] && (forall t | t in s.pc :: s.pc[t] == Idle) && !s.bad
    && |s.made| == |s.slots| == |s.ended| && forall i | 0 <= i < |s.slots| :: s.made[i] == s.ended[i]
  }

  predicate Enabled(s: State, t: nat, a: Action) {
    && t in s.pc && |s.made| == |s.slots| == |s.ended|
    && match a
       case CallAlloc => s.pc[t].Idle?
       case Look => s.pc[t].Scanning?
       case CompareExchange => s.pc[t].Claiming? && s.pc[t].i < |s.slots|
       case Construct => s.pc[t].Constructing? && s.pc[t].i < |s.slots|
       case WrapRef(h) => s.pc[t].Wrapping? && s.pc[t].i < |s.slots| && Handle(h) !in s.owns
       case Copy(h, from) =>
         s.pc[t].Idle? && Handle(from) in s.owns && Handle(h) !in s.owns && s.owns[Handle(from)] < |s.slots|
       case HandOn(h, from) => s.pc[t].Idle? && Handle(from) in s.owns && Handle(h) !in s.owns
       case Drop(h) => s.pc[t].Idle? && Handle(h) in s.owns && s.owns[Handle(h)] < |s.slots|
       case Use(h) => s.pc[t].Idle? && Handle(h) in s.owns && s.owns[Handle(h)] < |s.slots|
       case Destroy => s.pc[t].Destroying? && s.pc[t].i < |s.slots|
       case Release => s.pc[t].Releasing? && s.pc[t].i < |s.slots|
  }

  function Move(s: State, t: nat, p: Pc): State { s.(pc := s.pc[t := p]) }

  function SetCnt(s: State, i: nat, c: int): State
    requires i < |s.slots|
  {
    s.(slots := s.slots[i := s.slots[i].(cnt := c)])
  }

  /** find_if with one load for each slot; at the end of the area alloc returns null. */
  function DoLook(s: State, t: nat, i: nat): State {
    if i >= |s.slots| then Move(s, t, Idle)
    else if s.slots[i].cnt == -1 then Move(s, t, Claiming(i))
    else Move(s, t, Scanning(i + 1))
  }

  /** compare_exchange_strong( -1, 0 ); after a failure the search starts over. */
  function DoClaim(s: State, t: nat, i: nat): State
    requires i < |s.slots|
  {
    if s.slots[i].cnt == -1 then Move(SetCnt(s, i, 0), t, Constructing(i)) else Move(s, t, Scanning(0))
  }

  function DoConstruct(s: State, t: nat, i: nat): State
    requires i < |s.slots| == |s.made|
  {
    Move(s.(slots := s.slots[i := s.slots[i].(alive := true)], bad := s.bad || s.slots[i].alive,
            made := s.made[i := s.made[i] + 1]), t, Wrapping(i))
  }

  /** rcInc: fetch_add( 1 ), for a reference that then exists under the name h. */
  function AddRef(s: State, h: nat, i: nat): State
    requires i < |s.slots|
  {
    SetCnt(s.(owns := s.owns[Handle(h) := i], bad := s.bad || !s.slots[i].alive), i, s.slots[i].cnt + 1)
  }

  /** rcDec: fetch_sub( 1 ), and whoever took the last reference destroys the object. */
  function DoDrop(s: State, t: nat, h: nat): State
    requires Handle(h) in s.owns && s.owns[Handle(h)] < |s.slots|
  {
    var i := s.owns[Handle(h)];
    Move(SetCnt(s.(owns := s.owns - {Handle(h)}), i, s.slots[i].cnt - 1), t,
         if s.slots[i].cnt == 1 then Destroying(i) else Idle)
  }

  function DoDestroy(s: State, t: nat, i: nat): State
    requires i < |s.slots| == |s.ended|
  {
    Move(s.(slots := s.slots[i := s.slots[i].(alive := false)], bad := s.bad || !s.slots[i].alive,
            ended := s.ended[i := s.ended[i] + 1]), t, Releasing(i))
  }

  function Step(s: State, t: nat, a: Action): State
    requires Enabled(s, t, a)
  {
    match a
    case CallAlloc => Move(s, t, Scanning(0))
    case Look => DoLook(s, t, s.pc[t].i)
    case CompareExchange => DoClaim(s, t, s.pc[t].i)
    case Construct => DoConstruct(s, t, s.pc[t].i)
    case WrapRef(h) => Move(AddRef(s, h, s.pc[t].i), t, Idle)
    case Copy(h, from) => AddRef(s, h, s.owns[Handle(from)])
    case HandOn(h, from) => s.(owns := (s.owns - {Handle(from)})[Handle(h) := s.owns[Handle(from)]])
    case Drop(h) => DoDrop(s, t, h)
    case Use(h) => s.(bad := s.bad || !s.slots[s.owns[Handle(h)]].alive)
    case Destroy => DoDestroy(s, t, s.pc[t].i)
    case Release => Move(SetCnt(s, s.pc[t].i, -1), t, Idle)
  }

  ghost predicate Next(s: State, s': State) {
    exists t, a :: Enabled(s, t, a) && s' == Step(s, t, a)
  }

  ghost predicate IsRun(run: seq<State>) {
    |run| > 0 && Init(run[0]) && forall i | 0 < i < |run| :: Next(run[i - 1], run[i])
  }

  // ----- the invariant -----

  /** Constructing or destroying in slot i. */
  predicate Busy(p: Pc, i: nat) {
    (p.Constructing? || p.Wrapping? || p.Destroying? || p.Releasing?) && p.i == i
  }

  /** While a slot's counter is 0, the thread that is busy with it knows whether there is an object. */
  predicate HasObject(p: Pc) { p.Wrapping? || p.Destroying? }

  ghost predicate SomeBusy(pc: map<nat, Pc>, i: nat) { exists t :: t in pc && Busy(pc[t], i) }

  ghost predicate SlotInv(x: Slot, owners: nat, pc: map<nat, Pc>, i: nat) {
    && -1 <= x.cnt
    && (x.cnt == -1 ==> !x.alive && owners == 0)
    && (x.cnt == 0 ==> owners == 0 && SomeBusy(pc, i))
    && (x.cnt > 0 ==> x.alive && owners == x.cnt)
    && (forall t | t in pc && Busy(pc[t], i) :: x.cnt == 0 && x.alive == HasObject(pc[t]))
  }

  ghost predicate Inv(s: State) {
    && !s.bad && |s.made| == |s.slots| == |s.ended|
    && (forall r | r in s.owns :: s.owns[r] < |s.slots|)
    && (forall i | 0 <= i < |s.slots| :: SlotInv(s.slots[i], |Owners(s.owns, i)|, s.pc, i))
    && (forall t, u, i | t in s.pc && u in s.pc && Busy(s.pc[t], i) && Busy(s.pc[u], i) :: t == u)
    && (forall i | 0 <= i < |s.slots| :: s.made[i] == s.ended[i] + If(s.slots[i].alive))
    && (forall t | t in s.pc && s.pc[t].Claiming? :: s.pc[t].i < |s.slots|)
    && (forall t, i: nat | t in s.pc && Busy(s.pc[t], i) :: i < |s.slots|)
  }

  lemma InitInv(s: State)
    requires Init(s)
    ensures Inv(s)
  {
  }

  /** Slots that thread t is not busy with, before or after, do not notice its move. */
  lemma OtherSlots(x: Slot, n: nat, pc: map<nat, Pc>, t: nat, p: Pc, i: nat)
    requires SlotInv(x, n, pc, i) && t in pc && !Busy(pc[t], i) && !Busy(p, i)
    ensures SlotInv(x, n, pc[t := p], i)
  {
    if x.cnt == 0 {
      var u :| u in pc && Busy(pc[u], i);
      assert u in pc[t := p] && Busy(pc[t := p][u], i);
    }
  }

  /** A slot in which somebody has a share is live. */
  lemma OwnedIsLive(s: State, r: Ref)
    requires Inv(s) && r in s.owns
    ensures s.slots[s.owns[r]].cnt > 0 && s.slots[s.owns[r]].alive
    ensures forall t | t in s.pc :: !Busy(s.pc[t], s.owns[r])
  {
    assert r in Owners(s.owns, s.owns[r]);
    assert SlotInv(s.slots[s.owns[r]], |Owners(s.owns, s.owns[r])|, s.pc, s.owns[r]);
  }

  /** The frame of every step: it concerns thread t and the slot j, and all other slots keep what they had. */
  lemma Framed(s: State, s': State, t: nat, j: nat)
    requires Inv(s) && t in s.pc && t in s'.pc && s'.pc == s.pc[t := s'.pc[t]]
    requires !s'.bad && |s'.slots| == |s.slots| == |s'.made| == |s'.ended| && j < |s.slots|
    requires forall i | 0 <= i < |s.slots| && i != j ::
      && s'.slots[i] == s.slots[i] && s'.made[i] == s.made[i] && s'.ended[i] == s.ended[i]
      && |Owners(s'.owns, i)| == |Owners(s.owns, i)| && !Busy(s.pc[t], i) && !Busy(s'.pc[t], i)
    requires forall r | r in s'.owns :: s'.owns[r] < |s.slots|
    requires SlotInv(s'.slots[j], |Owners(s'.owns, j)|, s'.pc, j)
    requires s'.made[j] == s'.ended[j] + If(s'.slots[j].alive)
    requires Busy(s'.pc[t], j) ==> forall u | u in s.pc && u != t :: !Busy(s.pc[u], j)
    requires !s'.pc[t].Claiming? || s'.pc[t].i == j
    requires forall i | Busy(s'.pc[t], i) :: i == j
    ensures Inv(s')
  {
    forall i | 0 <= i < |s.slots| ensures SlotInv(s'.slots[i], |Owners(s'.owns, i)|, s'.pc, i) {
      if i != j { OtherSlots(s.slots[i], |Owners(s.owns, i)|, s.pc, t, s'.pc[t], i); }
    }
  }

  /** Steps that only look around. */
  lemma QuietStep(s: State, t: nat, p: Pc)
    requires Inv(s) && t in s.pc && (s.pc[t].Idle? || s.pc[t].Scanning? || s.pc[t].Claiming?)
    requires p.Idle? || p.Scanning? || (p.Claiming? && p.i < |s.slots|)
    ensures Inv(Move(s, t, p))
  {
    var s' := Move(s, t, p);
    forall i | 0 <= i < |s.slots| ensures SlotInv(s'.slots[i], |Owners(s'.owns, i)|, s'.pc, i) {
      OtherSlots(s.slots[i], |Owners(s.owns, i)|, s.pc, t, p, i);
    }
  }

  lemma ClaimStep(s: State, t: nat, i: nat)
    requires Inv(s) && Enabled(s, t, CompareExchange) && s.pc[t] == Claiming(i)
    ensures Inv(DoClaim(s, t, i))
  {
    if s.slots[i].cnt == -1 {
      var s' := DoClaim(s, t, i);
      assert t in s'.pc && Busy(s'.pc[t], i);
      assert SlotInv(s.slots[i], |Owners(s.owns, i)|, s.pc, i);
      Framed(s, s', t, i);
    } else {
      QuietStep(s, t, Scanning(0));
    }
  }

  /** Constructing and destroying the object of a slot that the thread is busy with. */
  lemma ObjectStep(s: State, t: nat, i: nat, a: Action)
    requires Inv(s) && Enabled(s, t, a) && (a == Construct || a == Destroy) && s.pc[t].i == i
    ensures Inv(Step(s, t, a))
  {
    var s' := Step(s, t, a);
    assert SlotInv(s.slots[i], |Owners(s.owns, i)|, s.pc, i);
    assert Busy(s.pc[t], i);
    assert t in s'.pc && Busy(s'.pc[t], i);
    Framed(s, s', t, i);
  }

  lemma ReleaseStep(s: State, t: nat, i: nat)
    requires Inv(s) && Enabled(s, t, Release) && s.pc[t] == Releasing(i)
    ensures Inv(Step(s, t, Release))
  {
    assert SlotInv(s.slots[i], |Owners(s.owns, i)|, s.pc, i);
    assert Busy(s.pc[t], i);
    Framed(s, Step(s, t, Release), t, i);
  }

  lemma WrapStep(s: State, t: nat, h: nat, i: nat)
    requires Inv(s) && Enabled(s, t, WrapRef(h)) && s.pc[t] == Wrapping(i)
    ensures Inv(Step(s, t, WrapRef(h)))
  {
    OwnersAdd(s.owns, Handle(h), i);
    assert SlotInv(s.slots[i], |Owners(s.owns, i)|, s.pc, i);
    assert Busy(s.pc[t], i);
    Framed(s, Step(s, t, WrapRef(h)), t, i);
  }

  lemma CopyStep(s: State, t: nat, h: nat, from: nat)
    requires Inv(s) && Enabled(s, t, Copy(h, from))
    ensures Inv(Step(s, t, Copy(h, from)))
  {
    var i := s.owns[Handle(from)];
    OwnedIsLive(s, Handle(from));
    OwnersAdd(s.owns, Handle(h), i);
    assert SlotInv(s.slots[i], |Owners(s.owns, i)|, s.pc, i);
    Framed(s, Step(s, t, Copy(h, from)), t, i);
  }

  lemma HandOnStep(s: State, t: nat, h: nat, from: nat)
    requires Inv(s) && Enabled(s, t, HandOn(h, from))
    ensures Inv(Step(s, t, HandOn(h, from)))
  {
    var i := s.owns[Handle(from)];
    OwnersTransfer(s.owns, Handle(from), Handle(h));
    assert SlotInv(s.slots[i], |Owners(s.owns, i)|, s.pc, i);
    Framed(s, Step(s, t, HandOn(h, from)), t, i);
  }

  lemma DropStep(s: State, t: nat, h: nat)
    requires Inv(s) && Enabled(s, t, Drop(h))
    ensures Inv(Step(s, t, Drop(h)))
  {
    var s', i := DoDrop(s, t, h), s.owns[Handle(h)];
    OwnedIsLive(s, Handle(h));
    OwnersRemove(s.owns, Handle(h));
    assert SlotInv(s.slots[i], |Owners(s.owns, i)|, s.pc, i);
    if s.slots[i].cnt == 1 { assert t in s'.pc && Busy(s'.pc[t], i); }
    Framed(s, s', t, i);
  }

  lemma StepInv(s: State, t: nat, a: Action)
    requires Inv(s) && Enabled(s, t, a)
    ensures Inv(Step(s, t, a))
  {
    hide Inv, DoClaim, DoConstruct, DoDestroy, DoDrop, AddRef;
    match a
    case CallAlloc => QuietStep(s, t, Scanning(0));
    case Look => QuietStep(s, t, DoLook(s, t, s.pc[t].i).pc[t]);
    case CompareExchange => ClaimStep(s, t, s.pc[t].i);
    case Construct => ObjectStep(s, t, s.pc[t].i, a);
    case Destroy => ObjectStep(s, t, s.pc[t].i, a);
    case Release => ReleaseStep(s, t, s.pc[t].i);
    case WrapRef(h) => WrapStep(s, t, h, s.pc[t].i);
    case Copy(h, from) => CopyStep(s, t, h, from);
    case HandOn(h, from) => HandOnStep(s, t, h, from);
    case Drop(h) => DropStep(s, t, h);
    case Use(h) => UseStep(s, t, h);
  }

  lemma UseStep(s: State, t: nat, h: nat)
    requires Inv(s) && Enabled(s, t, Use(h))
    ensures Inv(Step(s, t, Use(h)))
  {
    OwnedIsLive(s, Handle(h));
  }

  lemma {:induction false} RunInv(run: seq<State>, i: nat)
    requires IsRun(run) && i < |run|
    ensures Inv(run[i])
  {
    hide Inv, Step, Enabled;
    if i == 0 {
      InitInv(run[0]);
    } else {
      RunInv(run, i - 1);
      assert Next(run[i - 1], run[i]);
      var t, a :| Enabled(run[i - 1], t, a) && run[i] == Step(run[i - 1], t, a);
      StepInv(run[i - 1], t, a);
    }
  }

  // ----- what the clients may rely on, over whole runs -----

  /** What each value of a slot's counter means, in every reachable state. */
  lemma CounterMeaning(run: seq<State>, k: nat, i: nat)
    requires IsRun(run) && k < |run| && i < |run[k].slots|
    ensures var s := run[k];
      && (s.slots[i].cnt == -1 ==> !s.slots[i].alive && Owners(s.owns, i) == {})
      && (s.slots[i].cnt == 0 <==> SomeBusy(s.pc, i))
      && (s.slots[i].cnt > 0 ==> s.slots[i].alive && |Owners(s.owns, i)| == s.slots[i].cnt)
      && (s.slots[i].cnt <= 0 ==> Owners(s.owns, i) == {})
      && s.slots[i].cnt >= -1
  {
    RunInv(run, k);
    assert SlotInv(run[k].slots[i], |Owners(run[k].owns, i)|, run[k].pc, i);
  }

  /** At most one thread constructs or destroys in a slot, and then nobody has a reference to it. */
  lemma ExclusiveAccess(run: seq<State>, k: nat, i: nat, t: nat, u: nat)
    requires IsRun(run) && k < |run| && i < |run[k].slots| && t in run[k].pc && Busy(run[k].pc[t], i)
    ensures u in run[k].pc && Busy(run[k].pc[u], i) ==> u == t
    ensures forall r | r in run[k].owns :: run[k].owns[r] != i
  {
    RunInv(run, k);
    assert SlotInv(run[k].slots[i], |Owners(run[k].owns, i)|, run[k].pc, i);
    NoOwners(run[k].owns, i);
  }

  /** Every object is constructed once and destroyed once: the calls alternate, and no dead object is used. */
  lemma OnePairPerObject(run: seq<State>, k: nat, i: nat)
    requires IsRun(run) && k < |run| && i < |run[k].slots|
    ensures !run[k].bad && |run[k].made| == |run[k].slots| == |run[k].ended|
    ensures run[k].made[i] == run[k].ended[i] + if run[k].slots[i].alive then 1 else 0
  {
    RunInv(run, k);
  }

  /** A slot is only ever handed out while it is free: no object, no reference, nobody at work on it. */
  lemma ClaimsOnlyFreeSlots(run: seq<State>, k: nat, t: nat, i: nat)
    requires IsRun(run) && k < |run| && Enabled(run[k], t, CompareExchange) && run[k].pc[t] == Claiming(i)
    requires Step(run[k], t, CompareExchange).pc[t] == Constructing(i)
    ensures !run[k].slots[i].alive && !SomeBusy(run[k].pc, i) && forall r | r in run[k].owns :: run[k].owns[r] != i
  {
    RunInv(run, k);
    assert SlotInv(run[k].slots[i], |Owners(run[k].owns, i)|, run[k].pc, i);
    NoOwners(run[k].owns, i);
  }

  // ----- what a call comes to, over whole runs -----

  /** How thread t moves from its place in s to another one in s'; s' differs by one step of any thread. */
  ghost predicate MovesOn(s: State, s': State, t: nat)
    requires t in s.pc && t in s'.pc && |s'.slots| == |s.slots| == |s.ended| == |s'.ended|
  {
    var q := s'.pc[t];
    match s.pc[t]
    case Idle =>
      q == Scanning(0) || (q.Destroying? && q.i < |s.slots| && s.slots[q.i].cnt == 1 && s'.slots[q.i].cnt == 0)
    case Scanning(i) =>
      if i >= |s.slots| then q == Idle else q == if s.slots[i].cnt == -1 then Claiming(i) else Scanning(i + 1)
    case Claiming(i) =>
      i < |s.slots| && if s.slots[i].cnt == -1 then q == Constructing(i) && s'.slots[i].cnt == 0 else q == Scanning(0)
    case Constructing(i) => q == Wrapping(i) && i < |s.slots| && s'.slots[i] == Slot(0, true)
    case Wrapping(i) => q == Idle && i < |s.slots| && s'.slots[i] == Slot(1, true) && NewReference(s, s', i)
    case Destroying(i) =>
      q == Releasing(i) && i < |s.slots| && s'.slots[i] == Slot(0, false) && s'.ended[i] == s.ended[i] + 1
    case Releasing(i) => q == Idle && i < |s.slots| && s'.slots[i] == Slot(-1, false) && s'.ended == s.ended
  }

  /** One reference more, and it refers to slot i. */
  ghost predicate NewReference(s: State, s': State, i: nat) {
    exists h :: Handle(h) !in s.owns && s'.owns == s.owns[Handle(h) := i]
  }

  lemma StepMovesOn(s: State, u: nat, a: Action, t: nat)
    requires Inv(s) && Enabled(s, u, a) && t in s.pc
    ensures var s' := Step(s, u, a);
      t in s'.pc && |s'.slots| == |s.slots| == |s.ended| == |s'.ended|
    ensures u == t ==> Step(s, u, a).pc[t] == s.pc[t] || MovesOn(s, Step(s, u, a), t)
    ensures u == t && !s.pc[t].Idle? ==> Step(s, u, a).pc[t] != s.pc[t]
    ensures u != t ==> Step(s, u, a).pc[t] == s.pc[t]
  {
    if u == t {
      BusyWith(s, t);
      if a.WrapRef? { assert NewReference(s, Step(s, u, a), s.pc[t].i); }
    }
  }

  /** Whether there is an object is known to the thread that is busy with a slot. */
  lemma BusyWith(s: State, t: nat)
    requires Inv(s) && t in s.pc
    ensures forall i: nat | Busy(s.pc[t], i) ::
      i < |s.slots| && s.slots[i].cnt == 0 && s.slots[i].alive == HasObject(s.pc[t])
  {
    forall i: nat | Busy(s.pc[t], i)
      ensures i < |s.slots| && s.slots[i].cnt == 0 && s.slots[i].alive == HasObject(s.pc[t])
    {
      assert SlotInv(s.slots[i], |Owners(s.owns, i)|, s.pc, i);
    }
  }

  lemma CallsMoveOn(run: seq<State>, i: nat, t: nat)
    requires IsRun(run) && 0 < i < |run| && t in run[i - 1].pc
    ensures var s, s' := run[i - 1], run[i];
      && t in s'.pc && |s'.slots| == |s.slots| == |s.ended| == |s'.ended|
      && (s'.pc[t] == s.pc[t] || MovesOn(s, s', t))
  {
    hide Step, Enabled, Inv, MovesOn;
    RunInv(run, i - 1);
    assert Next(run[i - 1], run[i]);
    var u, a :| Enabled(run[i - 1], u, a) && run[i] == Step(run[i - 1], u, a);
    StepMovesOn(run[i - 1], u, a, t);
  }

  /** At step m thread t looked at slot k and found it taken, and up to step j it did nothing but go on looking. */
  ghost predicate FoundTaken(run: seq<State>, t: nat, k: nat, m: nat, j: nat) {
    && m < j < |run| && k < |run[m].slots| && run[m].slots[k].cnt != -1
    && (forall l | m <= l < j :: t in run[l].pc && run[l].pc[t].Scanning?)
    && run[m].pc[t] == Scanning(k) && t in run[m + 1].pc && run[m + 1].pc[t] == Scanning(k + 1)
  }

  ghost predicate WasFoundTaken(run: seq<State>, t: nat, k: nat, j: nat) { exists m :: FoundTaken(run, t, k, m, j) }

  lemma {:induction false} PassedSlotsWereTaken(run: seq<State>, t: nat, k: nat, j: nat) returns (m: nat)
    requires IsRun(run) && 0 < j < |run| && t in run[j].pc && run[j].pc[t].Scanning? && k < run[j].pc[t].i
    ensures FoundTaken(run, t, k, m, j)
    decreases j
  {
    hide IsRun, MovesOn;
    SearchStep(run, j, t);
    if run[j - 1].pc[t] == Scanning(k) && run[j].pc[t] == Scanning(k + 1) {
      m := j - 1;
    } else {
      m := PassedSlotsWereTaken(run, t, k, j - 1);
    }
  }

  lemma SearchStep(run: seq<State>, j: nat, t: nat)
    requires IsRun(run) && 0 < j < |run| && t in run[j].pc && run[j].pc[t].Scanning?
    ensures t in run[j - 1].pc
    ensures var n := run[j].pc[t].i;
      || n == 0
      || (1 < j && run[j - 1].pc[t] == run[j].pc[t])
      || (run[j - 1].pc[t] == Scanning(n - 1) && n - 1 < |run[j - 1].slots| && run[j - 1].slots[n - 1].cnt != -1
          && (n - 1 > 0 ==> 1 < j))
  {
    SameThreads(run, j, t);
    CallsMoveOn(run, j, t);
  }

  lemma SameThreads(run: seq<State>, j: nat, t: nat)
    requires IsRun(run) && 0 < j < |run| && t in run[j].pc
    ensures t in run[j - 1].pc
  {
    assert Next(run[j - 1], run[j]);
    hide IsRun;
    var u, a :| Enabled(run[j - 1], u, a) && run[j] == Step(run[j - 1], u, a);
    if t !in run[j - 1].pc { NoNewThreads(run[j - 1], u, a); }
  }

  lemma NoNewThreads(s: State, u: nat, a: Action)
    requires Enabled(s, u, a)
    ensures Step(s, u, a).pc.Keys == s.pc.Keys
  {
  }

  predicate InConstruct(p: Pc) { p.Scanning? || p.Claiming? || p.Constructing? || p.Wrapping? }

  lemma ConstructMoves(s: State, s': State, t: nat)
    requires t in s.pc && t in s'.pc && |s'.slots| == |s.slots| == |s.ended| == |s'.ended|
    requires InConstruct(s.pc[t]) && MovesOn(s, s', t)
    ensures s'.pc[t].Idle? || InConstruct(s'.pc[t])
    ensures s'.pc[t].Idle? ==>
      || (s.pc[t].Scanning? && s.pc[t].i >= |s.slots|)
      || (s.pc[t].Wrapping? && s.pc[t].i < |s.slots| && s'.slots[s.pc[t].i] == Slot(1, true) &&
          NewReference(s, s', s.pc[t].i))
  {
    hide NewReference;
  }

  lemma {:induction false} ConstructGoesOn(run: seq<State>, i: nat, j: nat, t: nat)
    requires IsRun(run) && i <= j < |run| && t in run[i].pc && InConstruct(run[i].pc[t])
    requires forall m | i <= m <= j && t in run[m].pc :: !run[m].pc[t].Idle?
    ensures t in run[j].pc && InConstruct(run[j].pc[t])
    decreases j
  {
    hide IsRun, MovesOn, InConstruct;
    if i < j {
      ConstructGoesOn(run, i, j - 1, t);
      CallsMoveOn(run, j, t);
      if run[j].pc[t] != run[j - 1].pc[t] { ConstructMoves(run[j - 1], run[j], t); }
    }
  }

  /** Slot k is taken by nobody but the one reference that has just been made. */
  ghost predicate JustMade(s: State, s': State, k: nat) {
    k < |s'.slots| && s'.slots[k] == Slot(1, true) && NewReference(s, s', k)
  }

  ghost predicate MadeReference(s: State, s': State) { exists k: nat :: JustMade(s, s', k) }

  /**
   construct ends either with a new reference to an object of its own, or, if it returns nothing, after its last
   search has found every single slot taken when it looked at it.
   */
  lemma ConstructEnds(run: seq<State>, i: nat, j: nat, t: nat)
    requires IsRun(run) && i < j < |run| && Enabled(run[i], t, CallAlloc) && run[i + 1] == Step(run[i], t, CallAlloc)
    requires forall m | i < m < j && t in run[m].pc :: !run[m].pc[t].Idle?
    requires t in run[j].pc && run[j].pc[t].Idle?
    ensures
      || MadeReference(run[j - 1], run[j])
      || (forall k: nat | k < |run[j].slots| :: WasFoundTaken(run, t, k, j))
  {
    CallStarts(run[i], t);
    hide IsRun, Enabled, Step, MovesOn, NewReference, FoundTaken;
    ConstructGoesOn(run, i + 1, j - 1, t);
    CallsMoveOn(run, j, t);
    ConstructMoves(run[j - 1], run[j], t);
    if run[j - 1].pc[t].Scanning? {
      forall k: nat | k < |run[j].slots| ensures WasFoundTaken(run, t, k, j) {
        FoundTakenUntilEnd(run, t, k, j);
      }
    } else {
      assert JustMade(run[j - 1], run[j], run[j - 1].pc[t].i);
    }
  }

  lemma CallStarts(s: State, t: nat)
    requires Enabled(s, t, CallAlloc)
    ensures t in Step(s, t, CallAlloc).pc && Step(s, t, CallAlloc).pc[t] == Scanning(0)
  {
  }

  lemma FoundTakenUntilEnd(run: seq<State>, t: nat, k: nat, j: nat)
    requires IsRun(run) && 1 < j < |run| && t in run[j - 1].pc && run[j - 1].pc[t].Scanning? && k < run[j - 1].pc[t].i
    ensures WasFoundTaken(run, t, k, j)
  {
    hide IsRun;
    var m := PassedSlotsWereTaken(run, t, k, j - 1);
    assert FoundTaken(run, t, k, m, j);
  }

  /** References are copied, handed on and dropped as such: what they refer to does not change on the way. */
  lemma ReferencesFollow(run: seq<State>, i: nat, t: nat, h: nat, from: nat)
    requires IsRun(run) && i < |run|
    ensures Enabled(run[i], t, Copy(h, from)) ==>
      var s, s' := run[i], Step(run[i], t, Copy(h, from)); var x := s.owns[Handle(from)];
      s'.owns == s.owns[Handle(h) := x] && s'.slots[x].alive && s'.slots[x].cnt == s.slots[x].cnt + 1
    ensures Enabled(run[i], t, HandOn(h, from)) ==>
      var s, s' := run[i], Step(run[i], t, HandOn(h, from));
      s'.slots == s.slots && Handle(from) !in s'.owns && s'.owns - {Handle(h)} == s.owns - {Handle(from)}
      && Handle(h) in s'.owns && s'.owns[Handle(h)] == s.owns[Handle(from)]
    ensures Enabled(run[i], t, Drop(h)) ==>
      var s, s' := run[i], Step(run[i], t, Drop(h)); var x := s.owns[Handle(h)];
      && s'.owns == s.owns - {Handle(h)} && s'.slots[x].cnt == s.slots[x].cnt - 1
      && s'.pc[t] == if Owners(s.owns, x) == {Handle(h)} then Destroying(x) else Idle
  {
    var s := run[i];
    RunInv(run, i);
    if Enabled(s, t, Copy(h, from)) { OwnedIsLive(s, Handle(from)); }
    if Enabled(s, t, Drop(h)) {
      var x := s.owns[Handle(h)];
      OwnedIsLive(s, Handle(h));
      assert SlotInv(s.slots[x], |Owners(s.owns, x)|, s.pc, x);
      OnlyOwner(s.owns, h, x);
    }
  }

  lemma OnlyOwner(owns: map<Ref, nat>, h: nat, x: nat)
    requires Handle(h) in owns && owns[Handle(h)] == x
    ensures |Owners(owns, x)| == 1 <==> Owners(owns, x) == {Handle(h)}
  {
    assert Owners(owns, x) == {Handle(h)} + (Owners(owns, x) - {Handle(h)});
  }

  /** Whether an action starts a call, instead of going on with one. */
  predicate IsStart(a: Action) { a.CallAlloc? || a.Copy? || a.HandOn? || a.Drop? || a.Use? }

  /** A running call is never stuck: in every reachable state its next step is possible. */
  lemma CallCanGoOn(run: seq<State>, i: nat, t: nat) returns (a: Action)
    requires IsRun(run) && i < |run| && t in run[i].pc && !run[i].pc[t].Idle?
    ensures Enabled(run[i], t, a) && !IsStart(a)
  {
    var s := run[i];
    RunInv(run, i);
    match s.pc[t] {
      case Scanning(_) => a := Look;
      case Claiming(_) => a := CompareExchange;
      case Constructing(k) => a := Construct; assert Busy(s.pc[t], k);
      case Wrapping(k) =>
        var used := set r | r in s.owns && r.Handle? :: r.v;
        var h := FreshNumber(used);
        assert forall r | r in s.owns && r.Handle? :: r.v in used && r.v < h;
        a := WrapRef(h);
        assert Busy(s.pc[t], k);
      case Destroying(k) => a := Destroy; assert Busy(s.pc[t], k);
      case Releasing(k) => a := Release; assert Busy(s.pc[t], k);
    }
  }
}
