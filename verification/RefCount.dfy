/**
 The reference counted character buffers behind im_str. Any number of threads copy,
 move, assign, swap and destroy handles, and split strings; every access to a counter
 and every store to a handle is a step of its own.

 A call may only be started if no other running call uses the same handles in a
 conflicting way, which is what the language demands of unsynchronised objects.
 */
module RefCount {
  import opened Counting
  import opened Wrappers

  datatype Buffer = Live(cnt: int) | Freed

  /** Where a thread is. dst, src and v name handle variables; p is a buffer or null. */
  datatype Pc =
    | Idle
    | CopyInc(v: nat, src: nat)
    | AssignInc(dst: nat, src: nat)
    | AssignDec(dst: nat, src: nat, p: Option<nat>)
    | AssignFree(dst: nat, src: nat, p: Option<nat>, old_: nat)
    | AssignSet(dst: nat, src: nat, p: Option<nat>)
    | MoveDec(dst: nat, src: nat)
    | MoveFree(dst: nat, src: nat, old_: nat)
    | MoveSet(dst: nat, src: nat)
    | DestroyDec(v: nat)
    | DestroyFree(old_: nat)
    | Splitting(src: nat, cnt: nat, built: set<nat>)

  /**
   The buffers, the handles (null or a buffer) and the threads. As history: bad is set when a
   freed buffer is touched, uncounted names the handles whose pointer carries no share at the
   moment and the thread that is at work on them, and owns lists all shares.
   */
  datatype State = State(
    bufs: map<nat, Buffer>, handles: map<nat, Option<nat>>, pc: map<nat, Pc>,
    bad: bool, uncounted: map<nat, nat>, owns: map<Ref, nat>)

  datatype Action =
    | Create(v: nat)
    | Allocate(v: nat, b: nat)
    | CopyConstruct(v: nat, src: nat)
    | MoveConstruct(v: nat, src: nat)
    | CopyAssign(dst: nat, src: nat)
    | MoveAssign(dst: nat, src: nat)
    | Swap(l: nat, r: nat)
    | Destroy(v: nat)
    | SplitFull(src: nat, cnt: nat)
    | BuildSlice(v: nat)
    | Go

  // ----- which handles a running call uses -----

  predicate Reads(p: Pc, h: nat) {
    match p
    case CopyInc(v, src) => h == src
    case AssignInc(dst, src) => h == src
    case AssignDec(dst, src, _) => h == src
    case AssignFree(dst, src, _, _) => h == src
    case AssignSet(dst, src, _) => h == src
    case Splitting(src, _, built) => h == src
    case _ => false
  }

  predicate Writes(p: Pc, h: nat) {
    match p
    case CopyInc(v, src) => h == v
    case AssignInc(dst, src) => h == dst
    case AssignDec(dst, src, _) => h == dst
    case AssignFree(dst, src, _, _) => h == dst
    case AssignSet(dst, src, _) => h == dst
    case MoveDec(dst, src) => h == dst || h == src
    case MoveFree(dst, src, _) => h == dst || h == src
    case MoveSet(dst, src) => h == dst || h == src
    case DestroyDec(v) => h == v
    case Splitting(src, _, built) => h in built
    case _ => false
  }

  /** Handles that hold a pointer without a share: not yet counted, or given up but not yet overwritten. */
  predicate Stale(p: Pc, h: nat) {
    match p
    case CopyInc(v, src) => h == v
    case AssignFree(dst, src, _, _) => h == dst
    case AssignSet(dst, src, _) => h == dst
    case MoveFree(dst, src, _) => h == dst
    case MoveSet(dst, src) => h == dst
    case Splitting(src, _, built) => h in built
    case _ => false
  }

  /** The share that an assignment took for the new value before it let go of the old one. */
  function Pending(p: Pc): Option<nat> {
    match p
    case AssignDec(_, _, q) => q
    case AssignFree(_, _, q, _) => q
    case AssignSet(_, _, q) => q
    case _ => None
  }

  /** The buffer a thread is about to free. */
  function Freeing(p: Pc): Option<nat> {
    match p
    case AssignFree(_, _, _, b) => Some(b)
    case MoveFree(_, _, b) => Some(b)
    case DestroyFree(b) => Some(b)
    case _ => None
  }

  /** No other running call writes what p uses, or reads what p writes. */
  ghost predicate NoConflict(s: State, t: nat, p: Pc) {
    forall u, h {:trigger Writes(s.pc[u], h)} {:trigger Reads(s.pc[u], h)} | u in s.pc && u != t ::
      && (Writes(s.pc[u], h) ==> !Reads(p, h) && !Writes(p, h))
      && (Reads(s.pc[u], h) ==> !Writes(p, h))
  }

  // ----- the steps -----

  ghost predicate Enabled(s: State, t: nat, a: Action) {
    && t in s.pc
    && match a
       case Create(v) => s.pc[t].Idle? && v !in s.handles
       case Allocate(v, b) => s.pc[t].Idle? && v !in s.handles && b !in s.bufs
       case CopyConstruct(v, src) =>
         s.pc[t].Idle? && v !in s.handles && src in s.handles && NoConflict(s, t, CopyInc(v, src))
       case MoveConstruct(v, src) =>
         s.pc[t].Idle? && v !in s.handles && src in s.handles && NoConflict(s, t, MoveDec(v, src))
       case CopyAssign(dst, src) =>
         s.pc[t].Idle? && dst in s.handles && src in s.handles && NoConflict(s, t, AssignInc(dst, src))
       case MoveAssign(dst, src) =>
         && s.pc[t].Idle? && dst in s.handles && src in s.handles && NoConflict(s, t, MoveDec(dst, src))
         && (s.handles[dst].None? || dst != src)
       case Swap(l, r) => s.pc[t].Idle? && l in s.handles && r in s.handles && NoConflict(s, t, MoveDec(l, r))
       case Destroy(v) => s.pc[t].Idle? && v in s.handles && NoConflict(s, t, DestroyDec(v))
       case SplitFull(src, cnt) =>
         s.pc[t].Idle? && src in s.handles && cnt > 0 && NoConflict(s, t, Splitting(src, cnt, {}))
       case BuildSlice(v) =>
         s.pc[t].Splitting? && |s.pc[t].built| < s.pc[t].cnt && s.pc[t].src in s.handles && v !in s.handles
       case Go =>
         && !s.pc[t].Idle? && (s.pc[t].Splitting? ==> |s.pc[t].built| == s.pc[t].cnt)
         && forall h | Reads(s.pc[t], h) || Writes(s.pc[t], h) :: h in s.handles
  }

  function Move(s: State, t: nat, p: Pc): State { s.(pc := s.pc[t := p]) }

  /** fetch_add on the counter of b. */
  function Add(s: State, b: nat, n: nat): State {
    if b in s.bufs && s.bufs[b].Live? then s.(bufs := s.bufs[b := Live(s.bufs[b].cnt + n)]) else s.(bad := true)
  }

  /** _incref and add_ref_cnt: nothing happens for null. */
  function AddCond(s: State, p: Option<nat>, n: nat): State {
    if p.Some? then Add(s, p.value, n) else s
  }

  /** fetch_sub( 1 ) on the counter of b. */
  function Sub(s: State, b: nat): State {
    if b in s.bufs && s.bufs[b].Live? then s.(bufs := s.bufs[b := Live(s.bufs[b].cnt - 1)]) else s.(bad := true)
  }

  predicate WasLast(s: State, b: nat) { b in s.bufs && s.bufs[b] == Live(1) }

  /** dealloc_buffer. */
  function Free(s: State, b: nat): State {
    if b in s.bufs && s.bufs[b].Live? then s.(bufs := s.bufs[b := Freed]) else s.(bad := true)
  }

  function Gain(s: State, r: Ref, p: Option<nat>): State {
    if p.Some? then s.(owns := s.owns[r := p.value]) else s
  }

  function Lose(s: State, r: Ref): State { s.(owns := s.owns - {r}) }

  function Pass(s: State, from: Ref, to: Ref): State {
    if from in s.owns then s.(owns := (s.owns - {from})[to := s.owns[from]]) else s
  }

  function SetHandle(s: State, v: nat, p: Option<nat>): State { s.(handles := s.handles[v := p]) }

  function Mark(s: State, v: nat, t: nat): State { s.(uncounted := s.uncounted[v := t]) }

  function Unmark(s: State, vs: set<nat>): State { s.(uncounted := s.uncounted - vs) }

  /** After the old share of an assignment's target is gone: free its buffer first, if it was the last. */
  function AfterDec(p: Pc, last: Option<nat>): Pc {
    match p
    case AssignDec(dst, src, q) => if last.Some? then AssignFree(dst, src, q, last.value) else AssignSet(dst, src, q)
    case MoveDec(dst, src) => if last.Some? then MoveFree(dst, src, last.value) else MoveSet(dst, src)
    case _ => p
  }

  /** _decref in an assignment to dst: null is skipped. */
  function LetGo(s: State, t: nat, dst: nat): State
    requires t in s.pc && dst in s.handles
  {
    match s.handles[dst]
    case None => Move(Mark(s, dst, t), t, AfterDec(s.pc[t], None))
    case Some(b) =>
      Move(Lose(Mark(Sub(s, b), dst, t), Handle(dst)), t, AfterDec(s.pc[t], if WasLast(s, b) then Some(b) else None))
  }

  function DoCopyInc(s: State, t: nat, v: nat): State
    requires v in s.handles
  {
    Move(Unmark(Gain(AddCond(s, s.handles[v], 1), Handle(v), s.handles[v]), {v}), t, Idle)
  }

  function DoAssignInc(s: State, t: nat, dst: nat, src: nat): State
    requires src in s.handles
  {
    Move(Gain(AddCond(s, s.handles[src], 1), Thread(t), s.handles[src]), t, AssignDec(dst, src, s.handles[src]))
  }

  function DoAssignSet(s: State, t: nat, dst: nat, src: nat): State
    requires src in s.handles
  {
    Move(Unmark(Pass(SetHandle(s, dst, s.handles[src]), Thread(t), Handle(dst)), {dst}), t, Idle)
  }

  /** dst takes over the pointer and the share of src, which becomes null. */
  function TakeOver(s: State, dst: nat, src: nat): State
    requires src in s.handles
  {
    Pass(SetHandle(SetHandle(s, src, None), dst, s.handles[src]), Handle(src), Handle(dst))
  }

  function DoMoveSet(s: State, t: nat, dst: nat, src: nat): State
    requires src in s.handles
  {
    Move(Unmark(TakeOver(s, dst, src), {dst}), t, Idle)
  }

  function DoDestroy(s: State, t: nat, v: nat): State
    requires v in s.handles
  {
    var s' := s.(handles := s.handles - {v});
    match s.handles[v]
    case None => Move(s', t, Idle)
    case Some(b) => Move(Lose(Sub(s', b), Handle(v)), t, if WasLast(s, b) then DestroyFree(b) else Idle)
  }

  /** add_ref_cnt( split_cnt ), the number that was computed before the first slice was made. */
  function DoSplit(s: State, t: nat, src: nat, cnt: nat, built: set<nat>): State
    requires src in s.handles
  {
    match s.handles[src]
    case None => Move(Unmark(s, built), t, Idle)
    case Some(b) => Move(Unmark(Add(s, b, cnt).(owns := AddAll(s.owns, built, b)), built), t, Idle)
  }

  function AfterFree(p: Pc): Pc {
    match p
    case AssignFree(dst, src, q, _) => AssignSet(dst, src, q)
    case MoveFree(dst, src, _) => MoveSet(dst, src)
    case _ => Idle
  }

  /** The next action of a running call. */
  ghost function GoOn(s: State, t: nat): State
    requires Enabled(s, t, Go)
  {
    match s.pc[t]
    case CopyInc(v, _) => DoCopyInc(s, t, v)
    case AssignInc(dst, src) => DoAssignInc(s, t, dst, src)
    case AssignDec(dst, _, _) => LetGo(s, t, dst)
    case AssignSet(dst, src, _) => DoAssignSet(s, t, dst, src)
    case MoveDec(dst, _) => LetGo(s, t, dst)
    case MoveSet(dst, src) => DoMoveSet(s, t, dst, src)
    case DestroyDec(v) => DoDestroy(s, t, v)
    case Splitting(src, cnt, built) => DoSplit(s, t, src, cnt, built)
    case AssignFree(_, _, _, b) => Move(Free(s, b), t, AfterFree(s.pc[t]))
    case MoveFree(_, _, b) => Move(Free(s, b), t, AfterFree(s.pc[t]))
    case DestroyFree(b) => Move(Free(s, b), t, AfterFree(s.pc[t]))
  }

  /** Two handles exchange pointers and shares. */
  function DoSwap(s: State, l: nat, r: nat): State
    requires l in s.handles && r in s.handles
  {
    Exchange(SetHandle(SetHandle(s, l, s.handles[r]), r, s.handles[l]), Handle(l), Handle(r))
  }

  /** A new handle with the pointer of src, to be counted later. */
  function NewCopy(s: State, t: nat, v: nat, src: nat, p: Pc): State
    requires src in s.handles
  {
    Move(Mark(SetHandle(s, v, s.handles[src]), v, t), t, p)
  }

  ghost function Step(s: State, t: nat, a: Action): State
    requires Enabled(s, t, a)
  {
    match a
    case Create(v) => SetHandle(s, v, None)
    case Allocate(v, b) => Gain(SetHandle(s.(bufs := s.bufs[b := Live(1)]), v, Some(b)), Handle(v), Some(b))
    case CopyConstruct(v, src) => NewCopy(s, t, v, src, CopyInc(v, src))
    case MoveConstruct(v, src) => TakeOver(s, v, src)
    case CopyAssign(dst, src) => Move(s, t, AssignInc(dst, src))
    case MoveAssign(dst, src) => Move(s, t, MoveDec(dst, src))
    case Swap(l, r) => DoSwap(s, l, r)
    case Destroy(v) => Move(s, t, DestroyDec(v))
    case SplitFull(src, cnt) => Move(s, t, Splitting(src, cnt, {}))
    case BuildSlice(v) => NewCopy(s, t, v, s.pc[t].src, s.pc[t].(built := s.pc[t].built + {v}))
    case Go => GoOn(s, t)
  }

  function Exchange(s: State, x: Ref, y: Ref): State {
    if x in s.owns && y in s.owns then s.(owns := s.owns[x := s.owns[y]][y := s.owns[x]])
    else if x in s.owns then Pass(s, x, y)
    else Pass(s, y, x)
  }

  ghost predicate Next(s: State, s': State) {
    exists t, a :: Enabled(s, t, a) && s' == Step(s, t, a)
  }

  predicate Init(s: State) {
    s == State(map[], map[], s.pc, false, map[], map[]) && forall t | t in s.pc :: s.pc[t].Idle?
  }

  ghost predicate IsRun(run: seq<State>) {
    |run| > 0 && Init(run[0]) && forall i | 0 < i < |run| :: Next(run[i - 1], run[i])
  }

  // ----- the invariant -----

  /** No two running calls conflict, and what they rely on still holds. */
  ghost predicate CallInv(s: State) {
    && (forall t | t in s.pc :: NoConflict(s, t, s.pc[t]))
    && (forall t, h | t in s.pc && (Reads(s.pc[t], h) || Writes(s.pc[t], h)) :: h in s.handles)
    && (forall t | t in s.pc :: PcInv(s, s.pc[t]))
  }

  ghost predicate PcInv(s: State, p: Pc) {
    match p
    case CopyInc(v, src) => v != src && v in s.handles && src in s.handles && s.handles[v] == s.handles[src]
    case AssignDec(dst, src, q) => src in s.handles && s.handles[src] == q
    case AssignFree(dst, src, q, b) => src in s.handles && s.handles[src] == q
    case AssignSet(dst, src, q) => src in s.handles && s.handles[src] == q
    case MoveDec(dst, src) => dst != src || (dst in s.handles && s.handles[dst].None?)
    case MoveFree(dst, src, b) => dst != src
    case MoveSet(dst, src) => dst != src || (dst in s.handles && s.handles[dst].None?)
    case Splitting(src, cnt, built) =>
      && |built| <= cnt && src !in built && src in s.handles
      && forall v | v in built :: v in s.handles && s.handles[v] == s.handles[src]
    case _ => true
  }

  /** uncounted is exactly what the running calls account for. */
  ghost predicate StaleInv(s: State) {
    && (forall v | v in s.uncounted :: v in s.handles && s.uncounted[v] in s.pc && Stale(s.pc[s.uncounted[v]], v))
    && (forall t, v | t in s.pc && Stale(s.pc[t], v) :: v in s.uncounted && s.uncounted[v] == t)
  }

  /** owns lists the counted handles and the pending shares of assignments, and nothing else. */
  ghost predicate OwnsInv(s: State) {
    && (forall v | v in s.handles && v !in s.uncounted && s.handles[v].Some? ::
          Handle(v) in s.owns && s.owns[Handle(v)] == s.handles[v].value)
    && (forall v | Handle(v) in s.owns :: v in s.handles && v !in s.uncounted && s.handles[v].Some?)
    && (forall t | t in s.pc && Pending(s.pc[t]).Some? ::
          Thread(t) in s.owns && s.owns[Thread(t)] == Pending(s.pc[t]).value)
    && (forall t | Thread(t) in s.owns :: t in s.pc && Pending(s.pc[t]).Some?)
  }

  ghost predicate SomeFrees(pc: map<nat, Pc>, b: nat) { exists t :: t in pc && Freeing(pc[t]) == Some(b) }

  /** Counters are exact; a counter is 0 exactly while one thread is about to free the buffer. */
  ghost predicate CountInv(bufs: map<nat, Buffer>, owns: map<Ref, nat>, pc: map<nat, Pc>) {
    && (forall r | r in owns :: owns[r] in bufs)
    && (forall b | b in bufs && bufs[b].Live? :: bufs[b].cnt == |Owners(owns, b)|)
    && (forall b | b in bufs && bufs[b].Freed? :: |Owners(owns, b)| == 0)
    && (forall t | t in pc && Freeing(pc[t]).Some? ::
          Freeing(pc[t]).value in bufs && bufs[Freeing(pc[t]).value] == Live(0))
    && (forall t, u | t in pc && u in pc && Freeing(pc[t]).Some? && Freeing(pc[t]) == Freeing(pc[u]) :: t == u)
    && (forall b | b in bufs && bufs[b] == Live(0) :: SomeFrees(pc, b))
  }

  ghost predicate Inv(s: State) {
    CallInv(s) && StaleInv(s) && OwnsInv(s) && CountInv(s.bufs, s.owns, s.pc) && !s.bad
  }

  lemma InitInv(s: State)
    requires Init(s)
    ensures Inv(s)
  {
  }

  // ----- steps only disturb their own thread and handles -----

  predicate SameAt<K(==), V(==)>(m: map<K, V>, m': map<K, V>, k: K) {
    (k in m <==> k in m') && (k in m ==> m[k] == m'[k])
  }

  /** From s to s' only thread t moved, and only the handles in ws changed. */
  ghost predicate SameOutside(s: State, s': State, t: nat, ws: set<nat>) {
    && t in s.pc && t in s'.pc && s'.pc == s.pc[t := s'.pc[t]]
    && (forall v | v !in ws :: SameAt(s.handles, s'.handles, v) && SameAt(s.uncounted, s'.uncounted, v))
    && (forall v | v !in ws :: SameAt(s.owns, s'.owns, Handle(v)))
    && (forall u | u != t :: SameAt(s.owns, s'.owns, Thread(u)))
  }

  /** The part of the invariants that concerns thread t, which is at p, and the handles in ws. */
  ghost predicate LocalAt(s: State, t: nat, p: Pc, ws: set<nat>) {
    && (forall h | Reads(p, h) || Writes(p, h) :: h in s.handles)
    && PcInv(s, p)
    && (forall v | v in ws :: v in s.uncounted <==> Stale(p, v))
    && (forall v | v in ws && v in s.uncounted :: v in s.handles && s.uncounted[v] == t)
    && (forall v | v in ws :: Handle(v) in s.owns <==> v in s.handles && v !in s.uncounted && s.handles[v].Some?)
    && (forall v | v in ws && Handle(v) in s.owns :: s.owns[Handle(v)] == s.handles[v].value)
    && (Thread(t) in s.owns <==> Pending(p).Some?)
    && (Thread(t) in s.owns ==> s.owns[Thread(t)] == Pending(p).value)
  }

  ghost predicate Local(s: State, t: nat, ws: set<nat>)
    requires t in s.pc
  {
    LocalAt(s, t, s.pc[t], ws)
  }

  /** Nobody else uses the handles in ws. */
  ghost predicate OnlyMine(s: State, t: nat, ws: set<nat>) {
    forall u, h | u in s.pc && u != t && h in ws :: !Reads(s.pc[u], h) && !Writes(s.pc[u], h)
  }

  /** What a step by t from s to s' has to establish for the handles in ws. */
  ghost predicate StepsLocally(s: State, s': State, t: nat, ws: set<nat>) {
    && SameOutside(s, s', t, ws) && Local(s', t, ws)
    && OnlyMine(s, t, ws) && NoConflict(s, t, s'.pc[t])
    && (forall v | v !in ws :: Stale(s'.pc[t], v) <==> Stale(s.pc[t], v))
  }

  lemma CallFrame(s: State, s': State, t: nat, ws: set<nat>)
    requires CallInv(s) && StepsLocally(s, s', t, ws)
    ensures CallInv(s')
  {
    forall u | u in s'.pc && u != t ensures PcInv(s', s'.pc[u]) {
      forall h | Reads(s.pc[u], h) || Writes(s.pc[u], h) ensures h in s.handles && SameAt(s.handles, s'.handles, h) {}
      SamePcInv(s, s', s.pc[u]);
    }
    forall u, h | u in s'.pc && (Reads(s'.pc[u], h) || Writes(s'.pc[u], h)) ensures h in s'.handles {
      if u != t { assert SameAt(s.handles, s'.handles, h); }
    }
  }

  /** What a call relies on is decided by the handles it uses. */
  lemma SamePcInv(s: State, s': State, p: Pc)
    requires PcInv(s, p)
    requires forall h | Reads(p, h) || Writes(p, h) :: h in s.handles && SameAt(s.handles, s'.handles, h)
    ensures PcInv(s', p)
  {
  }

  lemma StaleFrame(s: State, s': State, t: nat, ws: set<nat>)
    requires CallInv(s) && StaleInv(s) && StepsLocally(s, s', t, ws)
    ensures StaleInv(s')
  {
    hide CallInv, StepsLocally, Stale;
    forall v | v in s'.uncounted
      ensures v in s'.handles && s'.uncounted[v] in s'.pc && Stale(s'.pc[s'.uncounted[v]], v)
    {
      StaleExplained(s, s', t, ws, v);
    }
    forall u, v | u in s'.pc && Stale(s'.pc[u], v) ensures v in s'.uncounted && s'.uncounted[v] == u {
      StaleListed(s, s', t, ws, u, v);
    }
  }

  lemma StaleExplained(s: State, s': State, t: nat, ws: set<nat>, v: nat)
    requires StaleInv(s) && StepsLocally(s, s', t, ws) && v in s'.uncounted
    ensures v in s'.handles && s'.uncounted[v] in s'.pc && Stale(s'.pc[s'.uncounted[v]], v)
  {
    hide Reads, Writes;
    if v !in ws { assert SameAt(s.uncounted, s'.uncounted, v) && SameAt(s.handles, s'.handles, v); }
  }

  lemma StaleListed(s: State, s': State, t: nat, ws: set<nat>, u: nat, v: nat)
    requires CallInv(s) && StaleInv(s) && StepsLocally(s, s', t, ws) && u in s'.pc && Stale(s'.pc[u], v)
    ensures v in s'.uncounted && s'.uncounted[v] == u
  {
    hide Reads, Writes, Stale;
    StaleIsWritten(s.pc[u], v);
    if v !in ws { assert SameAt(s.uncounted, s'.uncounted, v); }
  }

  lemma StaleIsWritten(p: Pc, v: nat)
    ensures Stale(p, v) ==> Writes(p, v)
  {
  }

  lemma OwnsFrame(s: State, s': State, t: nat, ws: set<nat>)
    requires OwnsInv(s) && StepsLocally(s, s', t, ws)
    ensures OwnsInv(s')
  {
    forall v | v !in ws
      ensures SameAt(s.handles, s'.handles, v) && SameAt(s.uncounted, s'.uncounted, v)
      ensures SameAt(s.owns, s'.owns, Handle(v)) {}
    forall u | u != t ensures SameAt(s.owns, s'.owns, Thread(u)) {}
  }

  // ----- the counters -----

  /** The free that b still waits for is not affected by a thread that frees something else, or nothing. */
  lemma StillFrees(pc: map<nat, Pc>, t: nat, p: Pc, b: nat)
    requires t in pc && SomeFrees(pc, b) && (Freeing(pc[t]) == Some(b) ==> Freeing(p) == Some(b))
    ensures SomeFrees(pc[t := p], b)
  {
    var u :| u in pc && Freeing(pc[u]) == Some(b);
    assert u in pc[t := p] && Freeing(pc[t := p][u]) == Some(b);
  }

  lemma CountKeep(bufs: map<nat, Buffer>, owns: map<Ref, nat>, owns': map<Ref, nat>, pc: map<nat, Pc>, t: nat, p: Pc)
    requires CountInv(bufs, owns, pc) && t in pc && Freeing(pc[t]) == Freeing(p) == None
    requires forall b :: |Owners(owns', b)| == |Owners(owns, b)|
    requires forall r | r in owns' :: owns'[r] in bufs
    ensures CountInv(bufs, owns', pc[t := p])
  {
    forall b | b in bufs && bufs[b] == Live(0) { StillFrees(pc, t, p, b); }
  }

  /** A buffer in which somebody holds a share is live, and its counter is not 0. */
  lemma OwnedIsLive(bufs: map<nat, Buffer>, owns: map<Ref, nat>, pc: map<nat, Pc>, r: Ref)
    requires CountInv(bufs, owns, pc) && r in owns
    ensures owns[r] in bufs && bufs[owns[r]].Live? && bufs[owns[r]].cnt > 0
  {
    assert r in Owners(owns, owns[r]);
  }

  /** n new shares in a buffer that has an owner. */
  lemma CountGain(bufs: map<nat, Buffer>, owns: map<Ref, nat>, owns': map<Ref, nat>,
                  pc: map<nat, Pc>, t: nat, p: Pc, b: nat, n: nat)
    requires CountInv(bufs, owns, pc) && t in pc && Freeing(pc[t]) == Freeing(p) == None
    requires b in bufs && bufs[b].Live? && bufs[b].cnt > 0
    requires forall c :: |Owners(owns', c)| == |Owners(owns, c)| + if c == b then n else 0
    requires forall r | r in owns' :: owns'[r] in bufs
    ensures CountInv(bufs[b := Live(bufs[b].cnt + n)], owns', pc[t := p])
  {
    forall c | c in bufs && bufs[c] == Live(0) { StillFrees(pc, t, p, c); }
  }

  /** Giving up a share; whoever gives up the last one is going to free the buffer. */
  lemma CountLose(bufs: map<nat, Buffer>, owns: map<Ref, nat>, pc: map<nat, Pc>, t: nat, p: Pc, r: Ref)
    requires CountInv(bufs, owns, pc) && t in pc && Freeing(pc[t]) == None && r in owns
    requires owns[r] in bufs && bufs[owns[r]].Live?
    requires Freeing(p) == if bufs[owns[r]].cnt == 1 then Some(owns[r]) else None
    ensures CountInv(bufs[owns[r] := Live(bufs[owns[r]].cnt - 1)], owns - {r}, pc[t := p])
  {
    OwnedIsLive(bufs, owns, pc, r);
    OwnersRemove(owns, r);
    forall c | c in bufs && bufs[c] == Live(0) { StillFrees(pc, t, p, c); }
    if bufs[owns[r]].cnt == 1 { assert t in pc[t := p] && Freeing(pc[t := p][t]) == Some(owns[r]); }
  }

  lemma CountFree(bufs: map<nat, Buffer>, owns: map<Ref, nat>, pc: map<nat, Pc>, t: nat, p: Pc, b: nat)
    requires CountInv(bufs, owns, pc) && t in pc && Freeing(pc[t]) == Some(b) && Freeing(p) == None
    ensures b in bufs && bufs[b].Live? && CountInv(bufs[b := Freed], owns, pc[t := p])
  {
    forall c | c in bufs && bufs[c] == Live(0) && c != b { StillFrees(pc, t, p, c); }
  }

  lemma CountNew(bufs: map<nat, Buffer>, owns: map<Ref, nat>, pc: map<nat, Pc>, b: nat, r: Ref)
    requires CountInv(bufs, owns, pc) && b !in bufs && r !in owns
    ensures CountInv(bufs[b := Live(1)], owns[r := b], pc)
  {
    OwnersAdd(owns, r, b);
    assert Owners(owns, b) == {};
  }

  // ----- every step keeps the invariant -----

  lemma Framed(s: State, s': State, t: nat, ws: set<nat>)
    requires Inv(s) && StepsLocally(s, s', t, ws)
    requires CountInv(s'.bufs, s'.owns, s'.pc) && !s'.bad
    ensures Inv(s')
  {
    hide StepsLocally, CallInv, StaleInv, OwnsInv, CountInv;
    CallFrame(s, s', t, ws);
    StaleFrame(s, s', t, ws);
    OwnsFrame(s, s', t, ws);
  }

  /** A handle that no other thread writes, and that t has not left uncounted, is counted unless it is null. */
  lemma IsCounted(s: State, t: nat, v: nat)
    requires CallInv(s) && StaleInv(s) && OwnsInv(s) && t in s.pc && v in s.handles && !Stale(s.pc[t], v)
    requires forall u | u in s.pc && u != t :: !Writes(s.pc[u], v)
    ensures v !in s.uncounted
    ensures s.handles[v].Some? ==> Handle(v) in s.owns && s.owns[Handle(v)] == s.handles[v].value
    ensures s.handles[v].None? ==> Handle(v) !in s.owns
  {
    if v in s.uncounted { StaleIsWritten(s.pc[s.uncounted[v]], v); }
  }

  /** The same for a handle that t itself is using. */
  lemma UsedIsCounted(s: State, t: nat, v: nat)
    requires CallInv(s) && StaleInv(s) && OwnsInv(s) && t in s.pc && !Stale(s.pc[t], v)
    requires Reads(s.pc[t], v) || Writes(s.pc[t], v)
    ensures v in s.handles && v !in s.uncounted
    ensures s.handles[v].Some? ==> Handle(v) in s.owns && s.owns[Handle(v)] == s.handles[v].value
    ensures s.handles[v].None? ==> Handle(v) !in s.owns
  {
    OwnPart(s, t);
    IsCounted(s, t, v);
  }

  /** A handle that t itself has left uncounted owns nothing. */
  lemma IsUncounted(s: State, t: nat, v: nat)
    requires StaleInv(s) && OwnsInv(s) && t in s.pc && Stale(s.pc[t], v)
    ensures v in s.uncounted && s.uncounted[v] == t && v in s.handles && Handle(v) !in s.owns
  {
  }

  /** Nobody has anything to do with a handle that does not exist yet. */
  lemma FreshHandle(s: State, v: nat)
    requires CallInv(s) && StaleInv(s) && OwnsInv(s) && v !in s.handles
    ensures v !in s.uncounted && Handle(v) !in s.owns
    ensures forall u | u in s.pc :: !Reads(s.pc[u], v) && !Writes(s.pc[u], v)
  {
  }

  /** What the invariants say about a single thread. */
  lemma OwnPart(s: State, t: nat)
    requires CallInv(s) && OwnsInv(s) && t in s.pc
    ensures Local(s, t, {}) && NoConflict(s, t, s.pc[t])
  {
  }

  lemma CountSame(s: State, t: nat, p: Pc)
    requires CountInv(s.bufs, s.owns, s.pc) && t in s.pc && Freeing(s.pc[t]) == Freeing(p) == None
    ensures CountInv(s.bufs, s.owns, s.pc[t := p])
  {
    CountKeep(s.bufs, s.owns, s.owns, s.pc, t, p);
  }

  lemma SharesAreValid(s: State)
    requires CountInv(s.bufs, s.owns, s.pc)
    ensures forall r | r in s.owns :: s.owns[r] in s.bufs
  {
  }

  // starting a call

  lemma StartLocal(s: State, t: nat, p: Pc)
    requires CallInv(s) && StaleInv(s) && OwnsInv(s) && t in s.pc && s.pc[t].Idle?
    requires p.AssignInc? || p.MoveDec? || p.DestroyDec? || (p.Splitting? && p.built == {})
    requires PcInv(s, p) && (forall h | Reads(p, h) || Writes(p, h) :: h in s.handles) && NoConflict(s, t, p)
    ensures StepsLocally(s, Move(s, t, p), t, {})
  {
    hide CallInv, StaleInv, OwnsInv;
    OwnPart(s, t);
  }

  lemma StartStep(s: State, t: nat, a: Action)
    requires Inv(s) && Enabled(s, t, a) && (a.CopyAssign? || a.MoveAssign? || a.Destroy? || a.SplitFull?)
    ensures Inv(Step(s, t, a))
  {
    hide GoOn, CallInv, StaleInv, OwnsInv, CountInv, StepsLocally;
    var s' := Step(s, t, a);
    StartLocal(s, t, s'.pc[t]);
    CountSame(s, t, s'.pc[t]);
    Framed(s, s', t, {});
  }

  // handles that appear

  /** A new handle with the pointer of src, to be counted later. */
  lemma NewCopyLocal(s: State, s': State, t: nat, v: nat, src: nat)
    requires CallInv(s) && StaleInv(s) && OwnsInv(s) && t in s.pc && s.pc[t].Idle?
    requires v !in s.handles && src in s.handles && NoConflict(s, t, CopyInc(v, src))
    requires s'.handles == s.handles[v := s.handles[src]] && s'.uncounted == s.uncounted[v := t]
    requires s'.owns == s.owns && s'.pc == s.pc[t := CopyInc(v, src)]
    ensures StepsLocally(s, s', t, {v})
  {
    hide CallInv, StaleInv, OwnsInv, NoConflict, SameOutside;
    FreshHandle(s, v);
    OwnPart(s, t);
    OneHandleOutside(s, s', t, v);
  }

  lemma OneHandleOutside(s: State, s': State, t: nat, v: nat)
    requires t in s.pc && t in s'.pc && s'.pc == s.pc[t := s'.pc[t]] && s'.uncounted == s.uncounted[v := t]
    requires s'.handles == s.handles || (v in s'.handles && s'.handles == s.handles[v := s'.handles[v]])
    requires s'.owns == s.owns || s'.owns == s.owns - {Handle(v)}
    ensures SameOutside(s, s', t, {v})
  {
  }

  /** One more slice that nobody else knows does not bring split_full into conflict. */
  lemma SliceNoConflict(s: State, t: nat, v: nat, src: nat, cnt: nat, built: set<nat>)
    requires NoConflict(s, t, Splitting(src, cnt, built))
    requires forall u | u in s.pc :: !Reads(s.pc[u], v) && !Writes(s.pc[u], v)
    ensures NoConflict(s, t, Splitting(src, cnt, built + {v}))
  {
  }

  lemma SliceLocal(s: State, s': State, t: nat, v: nat, src: nat, cnt: nat, built: set<nat>)
    requires CallInv(s) && StaleInv(s) && OwnsInv(s) && t in s.pc && s.pc[t] == Splitting(src, cnt, built)
    requires |built| < cnt && v !in s.handles && src in s.handles
    requires s'.handles == s.handles[v := s.handles[src]] && s'.uncounted == s.uncounted[v := t]
    requires s'.owns == s.owns && s'.pc == s.pc[t := Splitting(src, cnt, built + {v})]
    ensures StepsLocally(s, s', t, {v})
  {
    hide CallInv, StaleInv, OwnsInv, NoConflict, SameOutside, LocalAt;
    FreshHandle(s, v);
    OwnPart(s, t);
    OneHandleOutside(s, s', t, v);
    SliceNoConflict(s, t, v, src, cnt, built);
    SliceLocalAt(s, s', t, v, src, cnt, built);
  }

  lemma SliceLocalAt(s: State, s': State, t: nat, v: nat, src: nat, cnt: nat, built: set<nat>)
    requires |built| < cnt && v !in s.handles && src in s.handles && Handle(v) !in s.owns
    requires LocalAt(s, t, Splitting(src, cnt, built), {})
    requires s'.handles == s.handles[v := s.handles[src]] && s'.uncounted == s.uncounted[v := t] && s'.owns == s.owns
    ensures LocalAt(s', t, Splitting(src, cnt, built + {v}), {v})
  {
  }

  lemma NewCopyStep(s: State, t: nat, a: Action)
    requires Inv(s) && Enabled(s, t, a) && (a.CopyConstruct? || a.BuildSlice?)
    ensures Inv(Step(s, t, a))
  {
    hide GoOn, CallInv, StaleInv, OwnsInv, CountInv, StepsLocally, NoConflict;
    var s' := Step(s, t, a);
    if a.CopyConstruct? {
      NewCopyLocal(s, s', t, a.v, a.src);
    } else {
      SliceLocal(s, s', t, a.v, s.pc[t].src, s.pc[t].cnt, s.pc[t].built);
    }
    CountSame(s, t, s'.pc[t]);
    Framed(s, s', t, {a.v});
  }

  /** A new handle with its share, if any, already counted. */
  lemma NewHandleLocal(s: State, s': State, t: nat, v: nat, p: Option<nat>)
    requires CallInv(s) && StaleInv(s) && OwnsInv(s) && t in s.pc && s.pc[t].Idle? && v !in s.handles
    requires s'.handles == s.handles[v := p] && s'.pc == s.pc && s'.uncounted == s.uncounted
    requires s'.owns == if p.Some? then s.owns[Handle(v) := p.value] else s.owns
    ensures StepsLocally(s, s', t, {v})
  {
    hide CallInv, StaleInv, OwnsInv;
    FreshHandle(s, v);
    OwnPart(s, t);
  }

  lemma CreateStep(s: State, t: nat, v: nat)
    requires Inv(s) && Enabled(s, t, Create(v))
    ensures Inv(Step(s, t, Create(v)))
  {
    hide GoOn, CountInv, CallInv, StaleInv, OwnsInv, StepsLocally;
    NewHandleLocal(s, Step(s, t, Create(v)), t, v, None);
    Framed(s, Step(s, t, Create(v)), t, {v});
  }

  lemma AllocateStep(s: State, t: nat, v: nat, b: nat)
    requires Inv(s) && Enabled(s, t, Allocate(v, b))
    ensures Inv(Step(s, t, Allocate(v, b)))
  {
    hide GoOn, CountInv, CallInv, StaleInv, OwnsInv, StepsLocally;
    FreshHandle(s, v);
    NewHandleLocal(s, Step(s, t, Allocate(v, b)), t, v, Some(b));
    CountNew(s.bufs, s.owns, s.pc, b, Handle(v));
    Framed(s, Step(s, t, Allocate(v, b)), t, {v});
  }

  // shares that change hands without the counter

  lemma MoveConstructLocal(s: State, s': State, t: nat, v: nat, src: nat)
    requires CallInv(s) && StaleInv(s) && OwnsInv(s) && t in s.pc
    requires s.pc[t].Idle? && v !in s.handles && src in s.handles && NoConflict(s, t, MoveDec(v, src))
    requires s'.handles == s.handles[src := None][v := s.handles[src]] && s'.uncounted == s.uncounted && s'.pc == s.pc
    requires s'.owns ==
      if Handle(src) in s.owns then (s.owns - {Handle(src)})[Handle(v) := s.owns[Handle(src)]] else s.owns
    ensures StepsLocally(s, s', t, {v, src})
  {
    hide CallInv, StaleInv, OwnsInv;
    FreshHandle(s, v);
    IsCounted(s, t, src);
    OwnPart(s, t);
  }

  lemma MoveConstructStep(s: State, t: nat, v: nat, src: nat)
    requires Inv(s) && Enabled(s, t, MoveConstruct(v, src))
    ensures Inv(TakeOver(s, v, src))
  {
    hide GoOn, CallInv, StaleInv, OwnsInv, StepsLocally, CountInv;
    FreshHandle(s, v);
    var s' := TakeOver(s, v, src);
    MoveConstructLocal(s, s', t, v, src);
    SharesAreValid(s);
    if Handle(src) in s.owns { OwnersTransfer(s.owns, Handle(src), Handle(v)); }
    CountKeep(s.bufs, s.owns, s'.owns, s.pc, t, s.pc[t]);
    assert s.pc[t := s.pc[t]] == s.pc;
    Framed(s, s', t, {v, src});
  }

  lemma SwapLocal(s: State, s': State, t: nat, l: nat, r: nat)
    requires CallInv(s) && StaleInv(s) && OwnsInv(s) && t in s.pc
    requires s.pc[t].Idle? && l in s.handles && r in s.handles && NoConflict(s, t, MoveDec(l, r))
    requires s'.handles == s.handles[l := s.handles[r]][r := s.handles[l]]
    requires s'.uncounted == s.uncounted && s'.pc == s.pc
    requires forall q | q != Handle(l) && q != Handle(r) :: SameAt(s.owns, s'.owns, q)
    requires Handle(l) in s.owns <==> Handle(r) in s'.owns
    requires Handle(r) in s.owns <==> Handle(l) in s'.owns
    requires Handle(l) in s.owns ==> s'.owns[Handle(r)] == s.owns[Handle(l)]
    requires Handle(r) in s.owns ==> s'.owns[Handle(l)] == s.owns[Handle(r)]
    ensures StepsLocally(s, s', t, {l, r})
  {
    hide CallInv, StaleInv, OwnsInv;
    IsCounted(s, t, l);
    IsCounted(s, t, r);
    OwnPart(s, t);
    assert SameAt(s.owns, s'.owns, Thread(t));
  }

  lemma ExchangeKeepsCounts(s: State, x: Ref, y: Ref)
    requires CountInv(s.bufs, s.owns, s.pc)
    ensures var o := Exchange(s, x, y).owns;
      && Exchange(s, x, y) == s.(owns := o)
      && (forall c :: |Owners(o, c)| == |Owners(s.owns, c)|)
      && (forall r | r in o :: o[r] in s.bufs)
      && (forall q | q != x && q != y :: SameAt(s.owns, o, q))
      && (x in s.owns <==> y in o) && (y in s.owns <==> x in o)
      && (x in s.owns ==> o[y] == s.owns[x]) && (y in s.owns ==> o[x] == s.owns[y])
  {
    hide CountInv, Owners;
    SharesAreValid(s);
    if x in s.owns && y in s.owns {
      OwnersExchange(s.owns, x, y);
    } else if x in s.owns {
      OwnersTransfer(s.owns, x, y);
    } else if y in s.owns {
      OwnersTransfer(s.owns, y, x);
    }
  }

  lemma SwapStep(s: State, t: nat, l: nat, r: nat)
    requires Inv(s) && Enabled(s, t, Swap(l, r))
    ensures Inv(DoSwap(s, l, r))
  {
    hide GoOn, CallInv, StaleInv, OwnsInv, StepsLocally, CountInv, Exchange;
    var s', m := DoSwap(s, l, r), SetHandle(SetHandle(s, l, s.handles[r]), r, s.handles[l]);
    ExchangeKeepsCounts(m, Handle(l), Handle(r));
    SwapLocal(s, s', t, l, r);
    CountKeep(s.bufs, s.owns, s'.owns, s.pc, t, s.pc[t]);
    assert s.pc[t := s.pc[t]] == s.pc;
    Framed(s, s', t, {l, r});
  }

  // counting a share

  lemma CopyIncLocal(s: State, s': State, t: nat, v: nat, src: nat)
    requires CallInv(s) && StaleInv(s) && OwnsInv(s) && t in s.pc && v in s.handles && s.pc[t] == CopyInc(v, src)
    requires s'.handles == s.handles && s'.uncounted == s.uncounted - {v} && s'.pc == s.pc[t := Idle]
    requires s'.owns == if s.handles[v].Some? then s.owns[Handle(v) := s.handles[v].value] else s.owns
    ensures StepsLocally(s, s', t, {v})
  {
    hide CallInv, StaleInv, OwnsInv;
    IsUncounted(s, t, v);
    OwnPart(s, t);
  }

  lemma CopyIncStep(s: State, t: nat, v: nat, src: nat)
    requires Inv(s) && t in s.pc && v in s.handles && s.pc[t] == CopyInc(v, src)
    ensures Inv(DoCopyInc(s, t, v))
  {
    hide CallInv, StaleInv, OwnsInv, CountInv, StepsLocally;
    IsUncounted(s, t, v);
    OwnPart(s, t);
    UsedIsCounted(s, t, src);
    var s', h := DoCopyInc(s, t, v), s.handles[v];
    CopyIncLocal(s, s', t, v, src);
    if h.Some? {
      OwnedIsLive(s.bufs, s.owns, s.pc, Handle(src));
      OwnersAdd(s.owns, Handle(v), h.value);
      SharesAreValid(s);
      CountGain(s.bufs, s.owns, s'.owns, s.pc, t, Idle, h.value, 1);
    } else {
      CountSame(s, t, Idle);
    }
    Framed(s, s', t, {v});
  }

  lemma AssignIncLocal(s: State, s': State, t: nat, dst: nat, src: nat)
    requires CallInv(s) && StaleInv(s) && OwnsInv(s) && t in s.pc && src in s.handles && s.pc[t] == AssignInc(dst, src)
    requires s'.handles == s.handles && s'.uncounted == s.uncounted
    requires s'.pc == s.pc[t := AssignDec(dst, src, s.handles[src])]
    requires s'.owns == if s.handles[src].Some? then s.owns[Thread(t) := s.handles[src].value] else s.owns
    ensures StepsLocally(s, s', t, {})
  {
    hide CallInv, StaleInv, OwnsInv;
    OwnPart(s, t);
  }

  lemma AssignIncStep(s: State, t: nat, dst: nat, src: nat)
    requires Inv(s) && t in s.pc && src in s.handles && s.pc[t] == AssignInc(dst, src)
    ensures Inv(DoAssignInc(s, t, dst, src))
  {
    hide CallInv, StaleInv, OwnsInv, CountInv, StepsLocally;
    UsedIsCounted(s, t, src);
    OwnPart(s, t);
    var s', h := DoAssignInc(s, t, dst, src), s.handles[src];
    AssignIncLocal(s, s', t, dst, src);
    if h.Some? {
      OwnedIsLive(s.bufs, s.owns, s.pc, Handle(src));
      OwnersAdd(s.owns, Thread(t), h.value);
      SharesAreValid(s);
      CountGain(s.bufs, s.owns, s'.owns, s.pc, t, AssignDec(dst, src, h), h.value, 1);
    } else {
      CountSame(s, t, AssignDec(dst, src, h));
    }
    Framed(s, s', t, {});
  }

  lemma SplitLocal(s: State, s': State, t: nat, src: nat, cnt: nat, built: set<nat>)
    requires CallInv(s) && StaleInv(s) && OwnsInv(s)
    requires t in s.pc && src in s.handles && s.pc[t] == Splitting(src, cnt, built)
    requires s'.handles == s.handles && s'.uncounted == s.uncounted - built && s'.pc == s.pc[t := Idle]
    requires forall q | q !in (set v | v in built :: Handle(v)) :: SameAt(s.owns, s'.owns, q)
    requires forall v | v in built :: Handle(v) in s'.owns <==> s.handles[src].Some?
    requires forall v | v in built && Handle(v) in s'.owns :: s'.owns[Handle(v)] == s.handles[src].value
    ensures StepsLocally(s, s', t, built)
  {
    hide CallInv, StaleInv, OwnsInv;
    forall v | v in built { IsUncounted(s, t, v); }
    OwnPart(s, t);
    assert SameAt(s.owns, s'.owns, Thread(t));
  }

  lemma SplitCounts(s: State, t: nat, src: nat, cnt: nat, built: set<nat>)
    requires Inv(s) && t in s.pc && src in s.handles && s.pc[t] == Splitting(src, cnt, built) && |built| == cnt
    ensures var s' := DoSplit(s, t, src, cnt, built); CountInv(s'.bufs, s'.owns, s'.pc) && !s'.bad
  {
    hide CallInv, StaleInv, OwnsInv, CountInv;
    var s', h := DoSplit(s, t, src, cnt, built), s.handles[src];
    OwnPart(s, t);
    UsedIsCounted(s, t, src);
    if h.Some? {
      forall v | v in built ensures Handle(v) !in s.owns { IsUncounted(s, t, v); }
      OwnedIsLive(s.bufs, s.owns, s.pc, Handle(src));
      OwnersAddAll(s.owns, built, h.value);
      SharesAreValid(s);
      CountGain(s.bufs, s.owns, s'.owns, s.pc, t, Idle, h.value, cnt);
    } else {
      CountSame(s, t, Idle);
    }
  }

  /** The single add_ref_cnt at the end of split_full repairs the whole deficit. */
  lemma SplitStep(s: State, t: nat, src: nat, cnt: nat, built: set<nat>)
    requires Inv(s) && t in s.pc && src in s.handles && s.pc[t] == Splitting(src, cnt, built) && |built| == cnt
    ensures Inv(DoSplit(s, t, src, cnt, built))
  {
    hide CallInv, StaleInv, OwnsInv, CountInv, StepsLocally;
    SplitCounts(s, t, src, cnt, built);
    forall v | v in built { IsUncounted(s, t, v); }
    OwnPart(s, t);
    UsedIsCounted(s, t, src);
    if s.handles[src].Some? { OwnedIsLive(s.bufs, s.owns, s.pc, Handle(src)); }
    SplitLocal(s, DoSplit(s, t, src, cnt, built), t, src, cnt, built);
    Framed(s, DoSplit(s, t, src, cnt, built), t, built);
  }

  // giving up a share

  lemma LetGoLocal(s: State, s': State, t: nat, dst: nat, last: Option<nat>)
    requires CallInv(s) && StaleInv(s) && OwnsInv(s) && t in s.pc
    requires (s.pc[t].AssignDec? || s.pc[t].MoveDec?) && s.pc[t].dst == dst
    requires last.Some? ==> dst in s.handles && s.handles[dst].Some?
    requires s'.handles == s.handles && s'.uncounted == s.uncounted[dst := t]
    requires s'.owns == s.owns - {Handle(dst)} && s'.pc == s.pc[t := AfterDec(s.pc[t], last)]
    ensures StepsLocally(s, s', t, {dst})
  {
    hide CallInv, StaleInv, OwnsInv, NoConflict, SameOutside, LocalAt;
    UsedIsCounted(s, t, dst);
    OwnPart(s, t);
    OneHandleOutside(s, s', t, dst);
    LetGoNoConflict(s, t, dst, last);
    LetGoLocalAt(s, s', t, s.pc[t], last);
  }

  lemma LetGoLocalAt(s: State, s': State, t: nat, p: Pc, last: Option<nat>)
    requires LocalAt(s, t, p, {}) && (p.AssignDec? || p.MoveDec?) && p.dst in s.handles && p.dst !in s.uncounted
    requires last.Some? ==> s.handles[p.dst].Some?
    requires s'.handles == s.handles && s'.uncounted == s.uncounted[p.dst := t] && s'.owns == s.owns - {Handle(p.dst)}
    ensures LocalAt(s', t, AfterDec(p, last), {p.dst})
  {
  }

  /** What an assignment reads and writes does not change while it lets go of the old value. */
  lemma LetGoNoConflict(s: State, t: nat, dst: nat, last: Option<nat>)
    requires t in s.pc && (s.pc[t].AssignDec? || s.pc[t].MoveDec?) && s.pc[t].dst == dst
    requires NoConflict(s, t, s.pc[t])
    ensures NoConflict(s, t, AfterDec(s.pc[t], last)) && OnlyMine(s, t, {dst})
  {
  }

  lemma LetGoStep(s: State, t: nat, dst: nat)
    requires Inv(s) && t in s.pc && dst in s.handles
    requires (s.pc[t].AssignDec? || s.pc[t].MoveDec?) && s.pc[t].dst == dst
    ensures Inv(LetGo(s, t, dst))
  {
    hide CallInv, StaleInv, OwnsInv, CountInv, StepsLocally;
    UsedIsCounted(s, t, dst);
    var s', h := LetGo(s, t, dst), s.handles[dst];
    LetGoLocal(s, s', t, dst, if h.Some? && WasLast(s, h.value) then h else None);
    if h.Some? {
      OwnedIsLive(s.bufs, s.owns, s.pc, Handle(dst));
      CountLose(s.bufs, s.owns, s.pc, t, s'.pc[t], Handle(dst));
    } else {
      CountSame(s, t, s'.pc[t]);
    }
    Framed(s, s', t, {dst});
  }

  lemma DestroyLocal(s: State, s': State, t: nat, v: nat, p: Pc)
    requires CallInv(s) && StaleInv(s) && OwnsInv(s) && t in s.pc && s.pc[t] == DestroyDec(v)
    requires p == Idle || p.DestroyFree?
    requires s'.handles == s.handles - {v} && s'.uncounted == s.uncounted
    requires s'.owns == s.owns - {Handle(v)} && s'.pc == s.pc[t := p]
    ensures StepsLocally(s, s', t, {v})
  {
    hide CallInv, StaleInv, OwnsInv;
    UsedIsCounted(s, t, v);
    OwnPart(s, t);
  }

  lemma DestroyStep(s: State, t: nat, v: nat)
    requires Inv(s) && t in s.pc && v in s.handles && s.pc[t] == DestroyDec(v)
    ensures Inv(DoDestroy(s, t, v))
  {
    hide CallInv, StaleInv, OwnsInv, CountInv, StepsLocally;
    UsedIsCounted(s, t, v);
    var s', h := DoDestroy(s, t, v), s.handles[v];
    DestroyLocal(s, s', t, v, s'.pc[t]);
    if h.Some? {
      OwnedIsLive(s.bufs, s.owns, s.pc, Handle(v));
      CountLose(s.bufs, s.owns, s.pc, t, s'.pc[t], Handle(v));
    } else {
      CountSame(s, t, Idle);
    }
    Framed(s, s', t, {v});
  }

  lemma FreeLocal(s: State, t: nat)
    requires CallInv(s) && StaleInv(s) && OwnsInv(s) && t in s.pc && Freeing(s.pc[t]).Some?
    ensures StepsLocally(s, Move(Free(s, Freeing(s.pc[t]).value), t, AfterFree(s.pc[t])), t, {})
  {
    hide CallInv, StaleInv, OwnsInv;
    OwnPart(s, t);
  }

  lemma FreeStep(s: State, t: nat)
    requires Inv(s) && t in s.pc && Freeing(s.pc[t]).Some?
    ensures Inv(Move(Free(s, Freeing(s.pc[t]).value), t, AfterFree(s.pc[t])))
  {
    hide CallInv, StaleInv, OwnsInv, CountInv, StepsLocally;
    FreeLocal(s, t);
    CountFree(s.bufs, s.owns, s.pc, t, AfterFree(s.pc[t]), Freeing(s.pc[t]).value);
    Framed(s, Move(Free(s, Freeing(s.pc[t]).value), t, AfterFree(s.pc[t])), t, {});
  }

  // storing the pointer at the end of an assignment

  lemma AssignSetLocal(s: State, s': State, t: nat, dst: nat, src: nat, p: Option<nat>)
    requires CallInv(s) && StaleInv(s) && OwnsInv(s)
    requires t in s.pc && src in s.handles && s.pc[t] == AssignSet(dst, src, p)
    requires s'.handles == s.handles[dst := s.handles[src]]
    requires s'.uncounted == s.uncounted - {dst} && s'.pc == s.pc[t := Idle]
    requires s'.owns ==
      if Thread(t) in s.owns then (s.owns - {Thread(t)})[Handle(dst) := s.owns[Thread(t)]] else s.owns
    ensures StepsLocally(s, s', t, {dst})
  {
    hide CallInv, StaleInv, OwnsInv;
    IsUncounted(s, t, dst);
    OwnPart(s, t);
  }

  lemma AssignSetStep(s: State, t: nat, dst: nat, src: nat, p: Option<nat>)
    requires Inv(s) && t in s.pc && src in s.handles && s.pc[t] == AssignSet(dst, src, p)
    ensures Inv(DoAssignSet(s, t, dst, src))
  {
    hide CallInv, StaleInv, OwnsInv, CountInv, StepsLocally;
    IsUncounted(s, t, dst);
    var s' := DoAssignSet(s, t, dst, src);
    AssignSetLocal(s, s', t, dst, src, p);
    SharesAreValid(s);
    if Thread(t) in s.owns { OwnersTransfer(s.owns, Thread(t), Handle(dst)); }
    CountKeep(s.bufs, s.owns, s'.owns, s.pc, t, Idle);
    Framed(s, s', t, {dst});
  }

  lemma MoveSetLocal(s: State, s': State, t: nat, dst: nat, src: nat)
    requires CallInv(s) && StaleInv(s) && OwnsInv(s) && t in s.pc && src in s.handles && s.pc[t] == MoveSet(dst, src)
    requires s'.handles == s.handles[src := None][dst := s.handles[src]]
    requires s'.uncounted == s.uncounted - {dst} && s'.pc == s.pc[t := Idle]
    requires s'.owns ==
      if Handle(src) in s.owns then (s.owns - {Handle(src)})[Handle(dst) := s.owns[Handle(src)]] else s.owns
    ensures StepsLocally(s, s', t, {dst, src})
  {
    hide CallInv, StaleInv, OwnsInv;
    IsUncounted(s, t, dst);
    OwnPart(s, t);
    if dst != src { UsedIsCounted(s, t, src); }
  }

  lemma MoveSetStep(s: State, t: nat, dst: nat, src: nat)
    requires Inv(s) && t in s.pc && src in s.handles && s.pc[t] == MoveSet(dst, src)
    ensures Inv(DoMoveSet(s, t, dst, src))
  {
    hide CallInv, StaleInv, OwnsInv, CountInv, StepsLocally;
    IsUncounted(s, t, dst);
    var s' := DoMoveSet(s, t, dst, src);
    MoveSetLocal(s, s', t, dst, src);
    SharesAreValid(s);
    if Handle(src) in s.owns { OwnersTransfer(s.owns, Handle(src), Handle(dst)); }
    CountKeep(s.bufs, s.owns, s'.owns, s.pc, t, Idle);
    Framed(s, s', t, {dst, src});
  }

  lemma GoStep(s: State, t: nat)
    requires Inv(s) && Enabled(s, t, Go)
    ensures Inv(GoOn(s, t))
  {
    hide Inv, DoCopyInc, DoAssignInc, DoAssignSet, DoMoveSet, DoDestroy, DoSplit, LetGo, Free;
    match s.pc[t]
    case CopyInc(v, src) => CopyIncStep(s, t, v, src);
    case AssignInc(dst, src) => AssignIncStep(s, t, dst, src);
    case AssignDec(dst, _, _) => LetGoStep(s, t, dst);
    case MoveDec(dst, _) => LetGoStep(s, t, dst);
    case AssignSet(dst, src, p) => AssignSetStep(s, t, dst, src, p);
    case MoveSet(dst, src) => MoveSetStep(s, t, dst, src);
    case DestroyDec(v) => DestroyStep(s, t, v);
    case Splitting(src, cnt, built) => SplitStep(s, t, src, cnt, built);
    case _ => FreeStep(s, t);
  }

  lemma StepInv(s: State, t: nat, a: Action)
    requires Inv(s) && Enabled(s, t, a)
    ensures Inv(Step(s, t, a))
  {
    hide Inv, GoOn;
    match a
    case Create(v) => CreateStep(s, t, v);
    case Allocate(v, b) => AllocateStep(s, t, v, b);
    case MoveConstruct(v, src) => MoveConstructStep(s, t, v, src);
    case Swap(l, r) => SwapStep(s, t, l, r);
    case CopyConstruct(_, _) => NewCopyStep(s, t, a);
    case BuildSlice(_) => NewCopyStep(s, t, a);
    case Go => GoStep(s, t);
    case _ => StartStep(s, t, a);
  }

  lemma {:induction false} RunInv(run: seq<State>, i: nat)
    requires IsRun(run) && i < |run|
    ensures Inv(run[i])
  {
    hide Inv, Step, Enabled;
    if i == 0 {
      InitInv(run[0]);
    } else {
      RunInv(run, i - 1);
      assert Next(run[i - 1], run[i]);
      var t, a :| Enabled(run[i - 1], t, a) && run[i] == Step(run[i - 1], t, a);
      StepInv(run[i - 1], t, a);
    }
  }

  // ----- what the clients may rely on, over whole runs -----

  /** No freed buffer is ever touched or freed again. */
  lemma NeverTouchesFreed(run: seq<State>, i: nat)
    requires IsRun(run) && i < |run|
    ensures !run[i].bad
  {
    RunInv(run, i);
  }

  function HandlesTo(s: State, b: nat): set<nat> { set v | v in s.handles && s.handles[v] == Some(b) }

  /** The handles to b that carry no share: slices and copies still to be counted, targets still to be overwritten. */
  function Deferred(s: State, b: nat): set<nat> {
    set v | v in s.uncounted && v in s.handles && s.handles[v] == Some(b)
  }

  /** The threads in the middle of an assignment that already took a share in b for its target. */
  function Assigning(s: State, b: nat): set<nat> { set t | t in s.pc && Pending(s.pc[t]) == Some(b) }

  lemma {:induction false} ImageSize(vs: set<nat>, rs: set<Ref>, f: nat -> Ref)
    requires (forall u, v :: f(u) == f(v) ==> u == v) && rs == set v | v in vs :: f(v)
    ensures |rs| == |vs|
    decreases |vs|
  {
    if vs != {} {
      var v :| v in vs;
      ImageSize(vs - {v}, rs - {f(v)}, f);
    }
  }

  lemma HandleShares(s: State, b: nat) returns (rs: set<Ref>)
    requires OwnsInv(s)
    ensures rs == set r | r in Owners(s.owns, b) && r.Handle?
    ensures |rs| == |HandlesTo(s, b)| - |Deferred(s, b)|
  {
    rs := set r | r in Owners(s.owns, b) && r.Handle?;
    var counted := HandlesTo(s, b) - Deferred(s, b);
    assert HandlesTo(s, b) == counted + Deferred(s, b);
    assert rs == set v | v in counted :: Handle(v);
    ImageSize(counted, rs, (v: nat) => Handle(v));
  }

  lemma ThreadShares(s: State, b: nat) returns (rs: set<Ref>)
    requires OwnsInv(s)
    ensures rs == set r | r in Owners(s.owns, b) && r.Thread?
    ensures |rs| == |Assigning(s, b)|
  {
    rs := set r | r in Owners(s.owns, b) && r.Thread?;
    assert rs == set t | t in Assigning(s, b) :: Thread(t);
    ImageSize(Assigning(s, b), rs, (t: nat) => Thread(t));
  }

  /** Every share belongs to a handle that is not deferred, or to an assignment. */
  lemma OwnersAreHandles(s: State, b: nat)
    requires OwnsInv(s)
    ensures Deferred(s, b) <= HandlesTo(s, b)
    ensures |Owners(s.owns, b)| == |HandlesTo(s, b)| - |Deferred(s, b)| + |Assigning(s, b)|
  {
    hide OwnsInv, Owners, Assigning;
    var hs := HandleShares(s, b);
    var ts := ThreadShares(s, b);
    assert Owners(s.owns, b) == hs + ts;
  }

  /**
   Counters are exact at every step of every run: the counter of a live buffer is the number of handles
   to it, less those that are deferred, and plus the shares that running assignments took in advance.
   */
  lemma CountIsExact(run: seq<State>, i: nat, b: nat)
    requires IsRun(run) && i < |run| && b in run[i].bufs && run[i].bufs[b].Live?
    ensures run[i].bufs[b].cnt == |HandlesTo(run[i], b)| - |Deferred(run[i], b)| + |Assigning(run[i], b)|
  {
    RunInv(run, i);
    OwnersAreHandles(run[i], b);
  }

  lemma FreedIffNoOwners(bufs: map<nat, Buffer>, owns: map<Ref, nat>, pc: map<nat, Pc>, b: nat)
    requires CountInv(bufs, owns, pc) && b in bufs
    ensures bufs[b].Freed? || SomeFrees(pc, b) <==> |Owners(owns, b)| == 0
  {
  }

  lemma SubsetSize(a: set<nat>, b: set<nat>)
    requires a <= b
    ensures |a| <= |b| && (|a| == |b| <==> a == b)
  {
    assert b == a + (b - a);
  }

  /**
   At every step a buffer is freed, or some thread is right about to free it, if and only if all handles
   that still point to it are deferred and no running assignment has taken a share in it.
   */
  lemma FreedExactlyWhenNoShareIsLeft(run: seq<State>, i: nat, b: nat)
    requires IsRun(run) && i < |run| && b in run[i].bufs
    ensures run[i].bufs[b].Freed? || SomeFrees(run[i].pc, b) <==>
            HandlesTo(run[i], b) == Deferred(run[i], b) && Assigning(run[i], b) == {}
  {
    hide CallInv, StaleInv, OwnsInv, CountInv, SomeFrees, Owners, HandlesTo, Deferred, Assigning;
    var s := run[i];
    RunInv(run, i);
    OwnersAreHandles(s, b);
    FreedIffNoOwners(s.bufs, s.owns, s.pc, b);
    SubsetSize(Deferred(s, b), HandlesTo(s, b));
  }

  lemma BuiltIsUncounted(s: State, t: nat)
    requires StaleInv(s) && t in s.pc && s.pc[t].Splitting?
    ensures forall v :: v in s.pc[t].built <==> v in s.uncounted && s.uncounted[v] == t
  {
    forall v ensures v in s.pc[t].built <==> v in s.uncounted && s.uncounted[v] == t {
      assert v in s.pc[t].built <==> Stale(s.pc[t], v);
    }
  }

  lemma SplitSource(s: State, t: nat)
    requires Inv(s) && t in s.pc && s.pc[t].Splitting?
    ensures var p := s.pc[t];
      && p.src in s.handles && (forall v | v in p.built :: v in s.handles && s.handles[v] == s.handles[p.src])
      && (s.handles[p.src].Some? ==> Handle(p.src) in s.owns && s.owns[Handle(p.src)] == s.handles[p.src].value)
  {
    hide CallInv, StaleInv, OwnsInv, CountInv;
    OwnPart(s, t);
    UsedIsCounted(s, t, s.pc[t].src);
  }

  lemma SplitUncounts(s: State, s': State, built: set<nat>, b: nat)
    requires forall v | v in built :: v in s.uncounted && v in s.handles && s.handles[v] == Some(b)
    requires s'.handles == s.handles && s'.uncounted == s.uncounted - built
    ensures HandlesTo(s', b) == HandlesTo(s, b)
    ensures Deferred(s', b) <= Deferred(s, b) && |Deferred(s, b)| - |Deferred(s', b)| == |built|
  {
    assert Deferred(s, b) == Deferred(s', b) + built;
    assert Deferred(s', b) !! built;
  }

  lemma StepOfSplit(s: State, t: nat)
    requires Enabled(s, t, Go) && s.pc[t].Splitting?
    ensures t in s.pc && |s.pc[t].built| == s.pc[t].cnt && s.pc[t].src in s.handles
    ensures Step(s, t, Go) == DoSplit(s, t, s.pc[t].src, s.pc[t].cnt, s.pc[t].built)
  {
    assert Reads(s.pc[t], s.pc[t].src);
  }

  lemma SplitDeficit(s: State, t: nat, b: nat)
    requires Inv(s) && t in s.pc && s.pc[t].Splitting? && |s.pc[t].built| == s.pc[t].cnt
    requires s.pc[t].src in s.handles && s.handles[s.pc[t].src] == Some(b)
    ensures var s' := DoSplit(s, t, s.pc[t].src, s.pc[t].cnt, s.pc[t].built);
      && b in s.bufs && s.bufs[b].Live? && s'.bufs == s.bufs[b := Live(s.bufs[b].cnt + s.pc[t].cnt)]
      && Deferred(s', b) <= Deferred(s, b) && |Deferred(s, b)| - |Deferred(s', b)| == s.pc[t].cnt
      && HandlesTo(s', b) == HandlesTo(s, b)
      && forall v | v in s'.uncounted :: s'.uncounted[v] != t
  {
    hide CallInv, StaleInv, OwnsInv, CountInv, Deferred, HandlesTo, Stale, Reads, Writes, Local, NoConflict;
    SplitSource(s, t);
    BuiltIsUncounted(s, t);
    OwnedIsLive(s.bufs, s.owns, s.pc, Handle(s.pc[t].src));
    SplitUncounts(s, DoSplit(s, t, s.pc[t].src, s.pc[t].cnt, s.pc[t].built), s.pc[t].built, b);
  }

  /** When split_full counts its slices, as many are uncounted as it computed beforehand, and none is afterwards. */
  lemma DeficitIsSplitCount(run: seq<State>, i: nat, t: nat, b: nat)
    requires IsRun(run) && i < |run| && Enabled(run[i], t, Go) && run[i].pc[t].Splitting?
    requires run[i].handles[run[i].pc[t].src] == Some(b)
    ensures var s, s' := run[i], Step(run[i], t, Go);
      && b in s.bufs && s.bufs[b].Live? && s'.bufs == s.bufs[b := Live(s.bufs[b].cnt + s.pc[t].cnt)]
      && Deferred(s', b) <= Deferred(s, b) && |Deferred(s, b)| - |Deferred(s', b)| == s.pc[t].cnt
      && HandlesTo(s', b) == HandlesTo(s, b)
      && forall v | v in s'.uncounted :: s'.uncounted[v] != t
  {
    hide Inv, Enabled, Step, DoSplit, Deferred, HandlesTo;
    RunInv(run, i);
    StepOfSplit(run[i], t);
    SplitDeficit(run[i], t, b);
  }

  /** A thread that is between calls or inside split_full. */
  predicate IdleOrSplitting(p: Pc) { p.Idle? || p.Splitting? }

  /** While no thread is inside any other call, the counter only lacks the slices that split_full still has to count. */
  lemma CountIsHandlesLessDeferred(run: seq<State>, i: nat, b: nat)
    requires IsRun(run) && i < |run| && b in run[i].bufs && run[i].bufs[b].Live?
    requires forall t | t in run[i].pc :: IdleOrSplitting(run[i].pc[t])
    ensures run[i].bufs[b].cnt == |HandlesTo(run[i], b)| - |Deferred(run[i], b)|
  {
    CountIsExact(run, i, b);
    assert Assigning(run[i], b) == {};
  }

  /** While no call is running, a buffer is freed if and only if no handle refers to it. */
  lemma FreedExactlyWhenUnused(run: seq<State>, i: nat, b: nat)
    requires IsRun(run) && i < |run| && b in run[i].bufs
    requires forall t | t in run[i].pc :: run[i].pc[t].Idle?
    ensures run[i].bufs[b].Freed? <==> HandlesTo(run[i], b) == {}
  {
    RunInv(run, i);
    FreedExactlyWhenNoShareIsLeft(run, i, b);
    assert Deferred(run[i], b) == {} && Assigning(run[i], b) == {};
  }

  /** At every step, a counted handle and a handle that is being read point to a live buffer. */
  lemma HandlesPointToLive(run: seq<State>, i: nat, v: nat)
    requires IsRun(run) && i < |run| && v in run[i].handles && v !in run[i].uncounted && run[i].handles[v].Some?
    ensures run[i].handles[v].value in run[i].bufs && run[i].bufs[run[i].handles[v].value].Live?
    ensures run[i].bufs[run[i].handles[v].value].cnt >= 1
  {
    RunInv(run, i);
    OwnedIsLive(run[i].bufs, run[i].owns, run[i].pc, Handle(v));
  }

  // ----- where the handles point after a call, over whole runs -----

  /** The handles whose pointers action b of thread u may change. */
  predicate Changes(p: Pc, b: Action, h: nat) {
    match b
    case Create(v) => h == v
    case Allocate(v, _) => h == v
    case CopyConstruct(v, _) => h == v
    case MoveConstruct(v, src) => h == v || h == src
    case Swap(l, r) => h == l || h == r
    case BuildSlice(v) => h == v
    case Go => Writes(p, h)
    case _ => false
  }

  /** Counters and shares have nothing to do with handles and threads. */
  predicate SameHandles(s: State, s': State) { s'.handles == s.handles && s'.pc == s.pc }

  lemma CountersKeepHandles(s: State, b: nat, n: nat)
    ensures SameHandles(s, Add(s, b, n)) && SameHandles(s, Sub(s, b)) && SameHandles(s, Free(s, b))
    ensures SameHandles(s, AddCond(s, Some(b), n)) && SameHandles(s, AddCond(s, None, n))
  {
  }

  lemma SharesKeepHandles(s: State, r: Ref, q: Ref, p: Option<nat>)
    ensures SameHandles(s, Gain(s, r, p)) && SameHandles(s, Lose(s, r))
    ensures SameHandles(s, Pass(s, r, q)) && SameHandles(s, Exchange(s, r, q))
  {
  }

  /** What the next action of a running call does to the handles, and to the places of the threads. */
  lemma GoHandles(s: State, u: nat)
    requires Enabled(s, u, Go)
    ensures u in GoOn(s, u).pc && GoOn(s, u).pc == s.pc[u := GoOn(s, u).pc[u]]
    ensures GoOn(s, u).handles == match s.pc[u]
      case AssignSet(dst, src, _) => s.handles[dst := s.handles[src]]
      case MoveSet(dst, src) => s.handles[src := None][dst := s.handles[src]]
      case DestroyDec(v) => s.handles - {v}
      case _ => s.handles
  {
    hide Add, Sub, Free, AddCond, Gain, Lose, Pass;
    match s.pc[u]
    case CopyInc(v, _) =>
      var p := s.handles[v];
      CountersKeepHandles(s, if p.Some? then p.value else 0, 1);
      SharesKeepHandles(AddCond(s, p, 1), Handle(v), Handle(v), p);
    case AssignInc(dst, src) =>
      var p := s.handles[src];
      CountersKeepHandles(s, if p.Some? then p.value else 0, 1);
      SharesKeepHandles(AddCond(s, p, 1), Thread(u), Handle(dst), p);
    case AssignDec(dst, _, _) => LetGoHandles(s, u, dst);
    case MoveDec(dst, _) => LetGoHandles(s, u, dst);
    case AssignSet(dst, src, _) =>
      SharesKeepHandles(SetHandle(s, dst, s.handles[src]), Thread(u), Handle(dst), None);
    case MoveSet(dst, src) =>
      SharesKeepHandles(SetHandle(SetHandle(s, src, None), dst, s.handles[src]), Handle(src), Handle(dst), None);
    case DestroyDec(v) =>
      if s.handles[v].Some? {
        var s' := s.(handles := s.handles - {v});
        CountersKeepHandles(s', s.handles[v].value, 0);
        SharesKeepHandles(Sub(s', s.handles[v].value), Handle(v), Handle(v), None);
      }
    case Splitting(src, cnt, built) =>
      if s.handles[src].Some? { CountersKeepHandles(s, s.handles[src].value, cnt); }
    case AssignFree(_, _, _, b) => CountersKeepHandles(s, b, 0);
    case MoveFree(_, _, b) => CountersKeepHandles(s, b, 0);
    case DestroyFree(b) => CountersKeepHandles(s, b, 0);
  }

  lemma LetGoHandles(s: State, u: nat, dst: nat)
    requires u in s.pc && dst in s.handles
    ensures u in LetGo(s, u, dst).pc && LetGo(s, u, dst).pc == s.pc[u := LetGo(s, u, dst).pc[u]]
    ensures LetGo(s, u, dst).handles == s.handles
  {
    hide Sub, Lose;
    if s.handles[dst].Some? {
      var b := s.handles[dst].value;
      CountersKeepHandles(s, b, 0);
      SharesKeepHandles(Mark(Sub(s, b), dst, u), Handle(dst), Handle(dst), None);
    }
  }

  /** All other handles keep their pointers. */
  lemma OthersUnchanged(s: State, u: nat, b: Action, h: nat)
    requires Enabled(s, u, b) && !Changes(s.pc[u], b, h)
    ensures SameAt(s.handles, Step(s, u, b).handles, h)
  {
    hide GoOn, Exchange, Pass, Gain;
    if b == Go { GoHandles(s, u); } else { StartHandles(s, u, b, h); }
  }

  lemma StartHandles(s: State, u: nat, b: Action, h: nat)
    requires Enabled(s, u, b) && b != Go && !Changes(s.pc[u], b, h)
    ensures SameAt(s.handles, Step(s, u, b).handles, h)
  {
    hide GoOn;
  }

  /** No thread changes a handle that another one is using. */
  lemma UsedStays(s: State, u: nat, b: Action, t: nat, h: nat)
    requires CallInv(s) && Enabled(s, u, b) && t in s.pc && t != u && (Reads(s.pc[t], h) || Writes(s.pc[t], h))
    ensures h in s.handles && SameAt(s.handles, Step(s, u, b).handles, h)
  {
    assert NoConflict(s, u, s.pc[u]);
    if !Changes(s.pc[u], b, h) { OthersUnchanged(s, u, b, h); }
  }

  /** The places of a call that takes several steps. */
  predicate Runs(p: Pc, a: Action) {
    match a
    case CopyConstruct(v, src) => p == CopyInc(v, src)
    case CopyAssign(dst, src) =>
      (p.AssignInc? || p.AssignDec? || p.AssignFree? || p.AssignSet?) && p.dst == dst && p.src == src
    case MoveAssign(dst, src) => (p.MoveDec? || p.MoveFree? || p.MoveSet?) && p.dst == dst && p.src == src
    case SplitFull(src, cnt) => p.Splitting? && p.src == src && p.cnt == cnt
    case Destroy(v) => p == DestroyDec(v) || p.DestroyFree?
    case _ => false
  }

  predicate PointsTo(s: State, h: nat, p: Option<nat>) { h in s.handles && s.handles[h] == p }

  /** cnt handles besides src that point where src pointed. */
  ghost predicate SlicesOf(s: State, src: nat, p: Option<nat>, cnt: nat, built: set<nat>) {
    |built| == cnt && src !in built && forall v | v in built :: PointsTo(s, v, p)
  }

  /** Thread t is inside the call a, which it started in s0, and nobody has interfered so far. */
  ghost predicate Under(s0: State, s: State, t: nat, a: Action) {
    && t in s.pc && Runs(s.pc[t], a)
    && match a
       case CopyConstruct(v, src) =>
         src in s0.handles && PointsTo(s, src, s0.handles[src]) && PointsTo(s, v, s0.handles[src])
       case CopyAssign(dst, src) => src in s0.handles && PointsTo(s, src, s0.handles[src]) && dst in s.handles
       case MoveAssign(dst, src) => src in s0.handles && PointsTo(s, src, s0.handles[src]) && dst in s.handles
       case SplitFull(src, cnt) =>
         && src in s0.handles && PointsTo(s, src, s0.handles[src])
         && SlicesOf(s, src, s0.handles[src], |s.pc[t].built|, s.pc[t].built)
       case _ => true
  }

  /** What the call a, started in s0, has achieved in s. */
  ghost predicate Achieved(s0: State, s: State, a: Action) {
    match a
    case Create(v) => PointsTo(s, v, None)
    case Allocate(v, b) => PointsTo(s, v, Some(b)) && b in s.bufs && s.bufs[b] == Live(1)
    case CopyConstruct(v, src) =>
      src in s0.handles && PointsTo(s, v, s0.handles[src]) && PointsTo(s, src, s0.handles[src])
    case MoveConstruct(v, src) => src in s0.handles && PointsTo(s, v, s0.handles[src]) && PointsTo(s, src, None)
    case CopyAssign(dst, src) =>
      src in s0.handles && PointsTo(s, dst, s0.handles[src]) && PointsTo(s, src, s0.handles[src])
    case MoveAssign(dst, src) =>
      src in s0.handles && PointsTo(s, dst, s0.handles[src]) && (dst != src ==> PointsTo(s, src, None))
    case Swap(l, r) =>
      l in s0.handles && r in s0.handles && PointsTo(s, l, s0.handles[r]) && PointsTo(s, r, s0.handles[l])
    case SplitFull(src, cnt) =>
      && src in s0.handles && PointsTo(s, src, s0.handles[src])
      && exists built :: SlicesOf(s, src, s0.handles[src], cnt, built)
    case _ => true
  }

  predicate IsCall(a: Action) { !a.BuildSlice? && !a.Go? }

  lemma Started(s: State, t: nat, a: Action)
    requires Enabled(s, t, a) && IsCall(a)
    ensures var s' := Step(s, t, a); Under(s, s', t, a) || (t in s'.pc && s'.pc[t].Idle? && Achieved(s, s', a))
  {
  }

  lemma OthersProgress(s0: State, s: State, u: nat, b: Action, t: nat, a: Action)
    requires CallInv(s) && Enabled(s, u, b) && Under(s0, s, t, a) && u != t
    ensures Under(s0, Step(s, u, b), t, a)
  {
    forall h | Reads(s.pc[t], h) || Writes(s.pc[t], h)
      ensures h in s.handles && SameAt(s.handles, Step(s, u, b).handles, h)
    {
      UsedStays(s, u, b, t, h);
    }
    OtherThreadsStay(s, u, b, t);
  }

  lemma OtherThreadsStay(s: State, u: nat, b: Action, t: nat)
    requires Enabled(s, u, b) && t in s.pc && t != u
    ensures t in Step(s, u, b).pc && Step(s, u, b).pc[t] == s.pc[t]
  {
    hide GoOn;
    if b == Go { GoHandles(s, u); }
  }

  lemma OwnProgress(s0: State, s: State, b: Action, t: nat, a: Action)
    requires CallInv(s) && Enabled(s, t, b) && Under(s0, s, t, a)
    ensures var s' := Step(s, t, b); Under(s0, s', t, a) || (t in s'.pc && s'.pc[t].Idle? && Achieved(s0, s', a))
  {
    hide GoOn, CallInv;
    if b == Go {
      GoHandles(s, t);
      GoPlaces(s, t, a);
      if a.SplitFull? { assert SlicesOf(GoOn(s, t), a.src, s0.handles[a.src], a.cnt, s.pc[t].built); }
    }
  }

  /** Which place follows which. */
  lemma GoPlaces(s: State, t: nat, a: Action)
    requires CallInv(s) && Enabled(s, t, Go) && Runs(s.pc[t], a)
    ensures t in GoOn(s, t).pc
    ensures match s.pc[t]
      case CopyInc(_, _) => GoOn(s, t).pc[t].Idle?
      case AssignSet(_, _, _) => GoOn(s, t).pc[t].Idle?
      case MoveSet(_, _) => GoOn(s, t).pc[t].Idle?
      case Splitting(_, _, _) => GoOn(s, t).pc[t].Idle?
      case DestroyDec(_) => GoOn(s, t).pc[t].Idle? || GoOn(s, t).pc[t].DestroyFree?
      case DestroyFree(_) => GoOn(s, t).pc[t].Idle?
      case _ => !GoOn(s, t).pc[t].Idle? && Runs(GoOn(s, t).pc[t], a)
  {
    hide CallInv;
  }

  lemma RunProgress(run: seq<State>, i: nat, t: nat, s0: State, a: Action)
    requires IsRun(run) && 0 < i < |run| && Under(s0, run[i - 1], t, a)
    ensures t in run[i].pc
    ensures Under(s0, run[i], t, a) || (run[i].pc[t].Idle? && Achieved(s0, run[i], a))
  {
    hide Step, Enabled, StaleInv, OwnsInv, CountInv, CallInv;
    RunInv(run, i - 1);
    assert Next(run[i - 1], run[i]);
    hide Under, Achieved;
    var u, b :| Enabled(run[i - 1], u, b) && run[i] == Step(run[i - 1], u, b);
    if u == t {
      OwnProgress(s0, run[i - 1], b, t, a);
    } else {
      OthersProgress(s0, run[i - 1], u, b, t, a);
    }
    UnderKnows(s0, run[i], t, a);
  }

  lemma UnderKnows(s0: State, s: State, t: nat, a: Action)
    ensures Under(s0, s, t, a) ==> t in s.pc && !s.pc[t].Idle?
  {
  }

  lemma {:induction false} CallProgresses(run: seq<State>, i: nat, j: nat, t: nat, a: Action)
    requires IsRun(run) && i < j < |run| && Enabled(run[i], t, a) && IsCall(a) && run[i + 1] == Step(run[i], t, a)
    requires forall m | i < m < j && t in run[m].pc :: !run[m].pc[t].Idle?
    ensures t in run[j].pc
    ensures Under(run[i], run[j], t, a) || (run[j].pc[t].Idle? && Achieved(run[i], run[j], a))
    decreases j
  {
    hide IsRun, Step, Enabled, Under, Achieved;
    if j == i + 1 {
      Started(run[i], t, a);
    } else {
      CallProgresses(run, i, j - 1, t, a);
      RunProgress(run, j, t, run[i], a);
    }
    UnderKnows(run[i], run[j], t, a);
  }

  /**
   A call takes effect however the other threads interleave with it: when the thread is between calls again for the
   first time, the handles of the call point where they should.
   */
  lemma CallTakesEffect(run: seq<State>, i: nat, j: nat, t: nat, a: Action)
    requires IsRun(run) && i < j < |run| && Enabled(run[i], t, a) && IsCall(a) && run[i + 1] == Step(run[i], t, a)
    requires forall m | i < m < j && t in run[m].pc :: !run[m].pc[t].Idle?
    requires t in run[j].pc && run[j].pc[t].Idle?
    ensures Achieved(run[i], run[j], a)
  {
    hide IsRun, Step, Enabled, Under, Achieved;
    CallProgresses(run, i, j, t, a);
    UnderKnows(run[i], run[j], t, a);
  }

  /** A destroyed handle is there until its share has been given up, and gone at once afterwards. */
  lemma DestroyRemoves(run: seq<State>, i: nat, j: nat, t: nat, v: nat)
    requires IsRun(run) && i < j < |run| && Enabled(run[i], t, Destroy(v)) && run[i + 1] == Step(run[i], t, Destroy(v))
    requires forall m | i < m < j :: t in run[m].pc && run[m].pc[t] == DestroyDec(v)
    requires t in run[j].pc && run[j].pc[t] != DestroyDec(v)
    ensures v in run[j - 1].handles && v !in run[j].handles
  {
    hide StaleInv, OwnsInv, CountInv;
    DestroyStarts(run[i], t, v);
    assert run[j - 1].pc[t] == DestroyDec(v);
    RunInv(run, j - 1);
    assert Next(run[j - 1], run[j]);
    hide Step, Enabled;
    var u, b :| Enabled(run[j - 1], u, b) && run[j] == Step(run[j - 1], u, b);
    if u == t { DestroyLetsGo(run[j - 1], t, v, b); } else { OtherThreadsStay(run[j - 1], u, b, t); }
  }

  lemma DestroyStarts(s: State, t: nat, v: nat)
    requires Enabled(s, t, Destroy(v))
    ensures t in Step(s, t, Destroy(v)).pc && Step(s, t, Destroy(v)).pc[t] == DestroyDec(v)
  {
  }

  lemma DestroyLetsGo(s: State, t: nat, v: nat, b: Action)
    requires Enabled(s, t, b) && s.pc[t] == DestroyDec(v)
    ensures v in s.handles && v !in Step(s, t, b).handles
  {
    hide GoOn;
    assert b == Go && Writes(s.pc[t], v);
    GoHandles(s, t);
  }

  /** How many steps of its own a call still takes at most. */
  function Remaining(p: Pc): int {
    match p
    case Idle => 0
    case CopyInc(_, _) => 1
    case AssignInc(_, _) => 4
    case AssignDec(_, _, _) => 3
    case AssignFree(_, _, _, _) => 2
    case AssignSet(_, _, _) => 1
    case MoveDec(_, _) => 3
    case MoveFree(_, _, _) => 2
    case MoveSet(_, _) => 1
    case DestroyDec(_) => 2
    case DestroyFree(_) => 1
    case Splitting(_, cnt, built) => 1 + cnt - |built|
  }

  /** Every step of a running call brings it closer to its end, and whoever is about to free a buffer does so. */
  lemma StepGetsOn(s: State, t: nat, b: Action)
    requires Inv(s) && Enabled(s, t, b) && !s.pc[t].Idle?
    ensures t in Step(s, t, b).pc && 0 <= Remaining(Step(s, t, b).pc[t]) < Remaining(s.pc[t])
    ensures var p, s' := s.pc[t], Step(s, t, b);
      Freeing(p).Some? ==> Freeing(p).value in s.bufs && s'.bufs == s.bufs[Freeing(p).value := Freed]
  {
    hide StaleInv, OwnsInv, CountInv;
    assert PcInv(s, s.pc[t]);
    if b == Go {
      hide GoOn, CallInv;
      GoGetsOn(s, t);
      if Freeing(s.pc[t]).Some? { GoFrees(s, t); }
    }
  }

  lemma GoGetsOn(s: State, t: nat)
    requires Enabled(s, t, Go)
    ensures t in GoOn(s, t).pc && 0 <= Remaining(GoOn(s, t).pc[t]) < Remaining(s.pc[t])
  {
    hide Add, Sub, Free, AddCond, Gain, Lose, Pass, TakeOver, Mark, Unmark, SetHandle, AddAll, WasLast;
  }

  lemma GoFrees(s: State, t: nat)
    requires CountInv(s.bufs, s.owns, s.pc) && Enabled(s, t, Go) && Freeing(s.pc[t]).Some?
    ensures var b := Freeing(s.pc[t]).value; b in s.bufs && GoOn(s, t).bufs == s.bufs[b := Freed]
  {
    hide CountInv;
    CountFree(s.bufs, s.owns, s.pc, t, AfterFree(s.pc[t]), Freeing(s.pc[t]).value);
  }

  /** A running call is never stuck: in every reachable state its next step is possible. */
  lemma CallCanGoOn(run: seq<State>, i: nat, t: nat) returns (b: Action)
    requires IsRun(run) && i < |run| && t in run[i].pc && !run[i].pc[t].Idle?
    ensures Enabled(run[i], t, b) && !IsCall(b)
  {
    var s := run[i];
    RunInv(run, i);
    hide StaleInv, OwnsInv, CountInv;
    assert PcInv(s, s.pc[t]);
    b := Go;
    if s.pc[t].Splitting? && |s.pc[t].built| < s.pc[t].cnt {
      var v := FreshNumber(s.handles.Keys);
      b := BuildSlice(v);
    }
  }
}
