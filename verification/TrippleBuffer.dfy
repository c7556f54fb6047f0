/**
 One producer and one consumer exchange three slots through an atomic index. Every
 atomic action is a step of its own; a value is written and read word by word, and
 the load and the exchange inside fetch_update are separate steps.
 */
module TrippleBuffer {
  import opened Wrappers

  datatype Index = Index(idx: nat, newData: bool)

  /** Where the producer is inside commit(), and the consumer inside fetch_update(). */
  datatype ProducerPc = Writing | CommitMarked
  datatype ReaderPc = Reading | FetchLoaded | FetchMarked

  /**
   data, readIdx, writeIdx and bufferIdx are the members of the class. The rest is history:
   log[0] is the initial value and log[v] the v-th committed one, version[i] is the entry of
   the log that slot i received last, seen holds the words read since the last exchange, and
   edited says that the consumer wrote to its own slot since then.
   */
  datatype State<W> = State(
    data: seq<seq<W>>, readIdx: Index, writeIdx: Index, bufferIdx: Index,
    producer: ProducerPc, reader: ReaderPc,
    log: seq<seq<W>>, version: seq<nat>, seen: map<nat, W>, edited: bool)

  datatype Action<W> =
    | WriteWord(k: nat, w: W)
    | CommitMark
    | CommitExchange
    | ReadWord(k: nat)
    | EditWord(k: nat, w: W)
    | FetchLoad
    | FetchMark
    | FetchExchange

  predicate Init<W(==)>(s: State<W>) {
    && |s.data| == 3 && s.data[0] == s.data[1] == s.data[2]
    && s.readIdx == Index(0, false) && s.writeIdx == Index(1, false) && s.bufferIdx == Index(2, false)
    && s.producer == Writing && s.reader == Reading
    && s.log == [s.data[0]] && s.version == [0, 0, 0] && s.seen == map[] && !s.edited
  }

  predicate Enabled<W>(s: State<W>, a: Action<W>) {
    match a
    case WriteWord(k, w) => s.producer == Writing && s.writeIdx.idx < |s.data| && k < |s.data[s.writeIdx.idx]|
    case CommitMark => s.producer == Writing
    case CommitExchange => s.producer == CommitMarked && s.writeIdx.idx < |s.data| == |s.version|
    case ReadWord(k) => s.reader == Reading && s.readIdx.idx < |s.data| && k < |s.data[s.readIdx.idx]|
    case EditWord(k, w) => s.reader == Reading && s.readIdx.idx < |s.data| && k < |s.data[s.readIdx.idx]|
    case FetchLoad => s.reader == Reading
    case FetchMark => s.reader == FetchLoaded
    case FetchExchange => s.reader == FetchMarked
  }

  function Step<W>(s: State<W>, a: Action<W>): State<W>
    requires Enabled(s, a)
  {
    match a
    case WriteWord(k, w) =>
      s.(data := s.data[s.writeIdx.idx := s.data[s.writeIdx.idx][k := w]])
    case CommitMark =>
      s.(writeIdx := s.writeIdx.(newData := true), producer := CommitMarked)
    case CommitExchange =>
      s.(bufferIdx := s.writeIdx, writeIdx := s.bufferIdx, producer := Writing,
         log := s.log + [s.data[s.writeIdx.idx]], version := s.version[s.writeIdx.idx := |s.log|])
    case ReadWord(k) =>
      s.(seen := s.seen[k := s.data[s.readIdx.idx][k]])
    case EditWord(k, w) =>
      s.(data := s.data[s.readIdx.idx := s.data[s.readIdx.idx][k := w]], edited := true)
    case FetchLoad =>
      if s.bufferIdx.newData then s.(reader := FetchLoaded) else s
    case FetchMark =>
      s.(readIdx := s.readIdx.(newData := false), reader := FetchMarked)
    case FetchExchange =>
      s.(bufferIdx := s.readIdx, readIdx := s.bufferIdx, reader := Reading, seen := map[], edited := false)
  }

  ghost predicate Next<W(!new)>(s: State<W>, t: State<W>) {
    exists a :: Enabled(s, a) && t == Step(s, a)
  }

  ghost predicate IsRun<W(!new)>(run: seq<State<W>>) {
    |run| > 0 && Init(run[0]) && forall i | 0 < i < |run| :: Next(run[i - 1], run[i])
  }

  // ----- the invariant -----

  /** The three indices are a permutation of 0, 1, 2. */
  predicate Permutation<W>(s: State<W>) {
    && s.readIdx.idx < 3 && s.writeIdx.idx < 3 && s.bufferIdx.idx < 3
    && s.readIdx.idx != s.writeIdx.idx && s.readIdx.idx != s.bufferIdx.idx && s.writeIdx.idx != s.bufferIdx.idx
  }

  function Latest<W>(s: State<W>): int { |s.log| - 1 }

  /** The log entry the consumer currently holds. */
  function Held<W>(s: State<W>): nat
    requires Permutation(s) && |s.version| == 3
  {
    s.version[s.readIdx.idx]
  }

  ghost predicate Inv<W>(s: State<W>) {
    && |s.data| == 3 && |s.version| == 3 && |s.log| > 0 && Permutation(s)
    && (forall i | 0 <= i < 3 :: s.version[i] < |s.log|)
    // the flag is set exactly while the shared slot is newer than the one being read
    && (s.bufferIdx.newData <==> Held(s) < Latest(s))
    && (s.bufferIdx.newData ==> s.version[s.bufferIdx.idx] == Latest(s))
    && (s.bufferIdx.newData ==> s.data[s.bufferIdx.idx] == s.log[Latest(s)])
    && (s.reader != Reading ==> s.bufferIdx.newData)
    && (s.reader == FetchMarked ==> !s.readIdx.newData)
    && (s.producer == CommitMarked ==> s.writeIdx.newData)
    // a slot that is being read is untouched
    && (!s.edited ==> s.data[s.readIdx.idx] == s.log[Held(s)])
    && (!s.edited ==> forall k | k in s.seen :: k < |s.log[Held(s)]| && s.seen[k] == s.log[Held(s)][k])
  }

  lemma InitInv<W>(s: State<W>)
    requires Init(s)
    ensures Inv(s)
  {
  }

  lemma StepInv<W>(s: State<W>, a: Action<W>)
    requires Inv(s) && Enabled(s, a)
    ensures Inv(Step(s, a))
  {
    if a.WriteWord? || a.CommitMark? || a.CommitExchange? { ProducerStepInv(s, a); } else { ReaderStepInv(s, a); }
  }

  lemma ProducerStepInv<W>(s: State<W>, a: Action<W>)
    requires Inv(s) && Enabled(s, a) && (a.WriteWord? || a.CommitMark? || a.CommitExchange?)
    ensures Inv(Step(s, a))
  {
  }

  lemma ReaderStepInv<W>(s: State<W>, a: Action<W>)
    requires Inv(s) && Enabled(s, a) && !(a.WriteWord? || a.CommitMark? || a.CommitExchange?)
    ensures Inv(Step(s, a))
  {
  }

  lemma {:induction false} RunInv<W(!new)>(run: seq<State<W>>, i: nat)
    requires IsRun(run) && i < |run|
    ensures Inv(run[i])
  {
    if i == 0 {
      InitInv(run[0]);
    } else {
      RunInv(run, i - 1);
      assert Next(run[i - 1], run[i]);
      var a :| Enabled(run[i - 1], a) && run[i] == Step(run[i - 1], a);
      StepInv(run[i - 1], a);
    }
  }

  // ----- what the clients may rely on, over whole runs -----

  /** The slots are never shared: in every reachable state the indices are a permutation. */
  lemma NeverShareSlots<W(!new)>(run: seq<State<W>>, i: nat)
    requires IsRun(run) && i < |run|
    ensures Permutation(run[i])
  {
    RunInv(run, i);
  }

  /**
   No torn reads: however commits interleave with the reads, all words that an unedited
   read buffer gave out since the last fetch belong to the one committed value that was fetched.
   */
  lemma NoTornRead<W(!new)>(run: seq<State<W>>, i: nat)
    requires IsRun(run) && i < |run| && !run[i].edited
    ensures Permutation(run[i]) && |run[i].version| == 3 && Held(run[i]) < |run[i].log|
    ensures var value := run[i].log[Held(run[i])];
      forall k | k in run[i].seen :: k < |value| && run[i].seen[k] == value[k]
  {
    RunInv(run, i);
  }

  /**
   The load in fetch_update sees new data exactly when the consumer holds less than the
   latest committed value; so "false" is only returned to a consumer that is up to date.
   */
  lemma FetchResultIsExact<W(!new)>(run: seq<State<W>>, i: nat)
    requires IsRun(run) && i < |run| && Enabled(run[i], FetchLoad)
    ensures Permutation(run[i]) && |run[i].version| == 3
    ensures Step(run[i], FetchLoad).reader == FetchLoaded <==> Held(run[i]) < Latest(run[i])
  {
    RunInv(run, i);
  }

  /** The exchange hands over the value that is the latest at that step, unmodified and strictly newer. */
  lemma FetchGetsLatest<W(!new)>(run: seq<State<W>>, i: nat)
    requires IsRun(run) && i < |run| && Enabled(run[i], FetchExchange)
    ensures Permutation(run[i]) && |run[i].version| == 3
    ensures var t := Step(run[i], FetchExchange);
      && Permutation(t) && |t.version| == 3 && |t.data| == 3
      && Held(t) == Latest(t) && Held(run[i]) < Held(t)
      && t.data[t.readIdx.idx] == t.log[Latest(t)]
  {
    RunInv(run, i);
    StepInv(run[i], FetchExchange);
  }

  /** t holds at least as new a value as s, and nothing was taken from the log. */
  ghost predicate NotOlder<W>(s: State<W>, t: State<W>) {
    Inv(s) && Inv(t) && Held(s) <= Held(t) && s.log <= t.log
  }

  lemma NotOlderTrans<W>(s: State<W>, t: State<W>, u: State<W>)
    requires NotOlder(s, t) && NotOlder(t, u)
    ensures NotOlder(s, u)
  {
    hide Inv;
  }

  lemma StepNotOlder<W>(s: State<W>, a: Action<W>)
    requires Inv(s) && Enabled(s, a)
    ensures NotOlder(s, Step(s, a))
  {
    StepInv(s, a);
  }

  /** The consumer's version never goes back, and the log only grows. */
  lemma {:induction false} VersionsAdvance<W(!new)>(run: seq<State<W>>, i: nat, j: nat)
    requires IsRun(run) && i <= j < |run|
    ensures NotOlder(run[i], run[j])
  {
    hide Inv, Step, Enabled;
    RunInv(run, i);
    if i < j {
      VersionsAdvance(run, i, j - 1);
      RunInv(run, j - 1);
      assert Next(run[j - 1], run[j]);
      var a :| Enabled(run[j - 1], a) && run[j] == Step(run[j - 1], a);
      StepNotOlder(run[j - 1], a);
      hide NotOlder;
      NotOlderTrans(run[i], run[j - 1], run[j]);
    }
  }

  // ----- what is written is what is committed, and read -----

  /** A run together with the actions that were taken. */
  ghost predicate IsTrace<W>(run: seq<State<W>>, acts: seq<Action<W>>) {
    && |run| == |acts| + 1 && Init(run[0])
    && forall i {:trigger acts[i]} | 0 <= i < |acts| :: Enabled(run[i], acts[i]) && run[i + 1] == Step(run[i], acts[i])
  }

  lemma {:induction false} TraceInv<W>(run: seq<State<W>>, acts: seq<Action<W>>, i: nat)
    requires IsTrace(run, acts) && i < |run|
    ensures Inv(run[i])
  {
    hide Inv, Step, Enabled;
    if i == 0 {
      InitInv(run[0]);
    } else {
      TraceInv(run, acts, i - 1);
      assert Enabled(run[i - 1], acts[i - 1]);
      StepInv(run[i - 1], acts[i - 1]);
    }
  }

  /** The word at k of the slot that the producer, or the consumer, is using. */
  function WordToWrite<W>(s: State<W>, k: nat): Option<W> {
    if s.writeIdx.idx < |s.data| && k < |s.data[s.writeIdx.idx]| then Some(s.data[s.writeIdx.idx][k]) else None
  }

  function WordToRead<W>(s: State<W>, k: nat): Option<W> {
    if s.readIdx.idx < |s.data| && k < |s.data[s.readIdx.idx]| then Some(s.data[s.readIdx.idx][k]) else None
  }

  /** A slot in use is only changed by its user, at the word that is written, until it is given away. */
  lemma WordsStay<W>(s: State<W>, a: Action<W>, k: nat)
    requires Inv(s) && Enabled(s, a)
    ensures a != CommitExchange ==>
      WordToWrite(Step(s, a), k) == if a.WriteWord? && a.k == k then Some(a.w) else WordToWrite(s, k)
    ensures a != FetchExchange ==>
      WordToRead(Step(s, a), k) == if a.EditWord? && a.k == k then Some(a.w) else WordToRead(s, k)
    ensures a == CommitExchange ==>
      var log := Step(s, a).log;
      |log| == |s.log| + 1 && WordToWrite(s, k) == if k < |log[|s.log|]| then Some(log[|s.log|][k]) else None
    ensures a.ReadWord? ==> a.k in Step(s, a).seen && WordToRead(s, a.k) == Some(Step(s, a).seen[a.k])
  {
  }

  lemma {:induction false} WrittenStays<W>(run: seq<State<W>>, acts: seq<Action<W>>, i: nat, j: nat, k: nat, w: W)
    requires IsTrace(run, acts) && i < j <= |acts| && acts[i] == WriteWord(k, w)
    requires forall m | i < m < j :: acts[m] != CommitExchange && !(acts[m].WriteWord? && acts[m].k == k)
    ensures WordToWrite(run[j], k) == Some(w)
    decreases j
  {
    hide Inv, Step, Enabled, WordToWrite, WordToRead;
    TraceInv(run, acts, j - 1);
    assert Enabled(run[j - 1], acts[j - 1]);
    WordsStay(run[j - 1], acts[j - 1], k);
    if i < j - 1 { WrittenStays(run, acts, i, j - 1, k, w); }
  }

  /** The last word written at k before a commit is the word at k of the value that is committed. */
  lemma WrittenIsCommitted<W>(run: seq<State<W>>, acts: seq<Action<W>>, i: nat, j: nat, k: nat, w: W)
    requires IsTrace(run, acts) && i < j < |acts| && acts[i] == WriteWord(k, w) && acts[j] == CommitExchange
    requires forall m | i < m < j :: acts[m] != CommitExchange && !(acts[m].WriteWord? && acts[m].k == k)
    ensures var log := run[j + 1].log;
      |log| == |run[j].log| + 1 && k < |log[|log| - 1]| && log[|log| - 1][k] == w
  {
    hide Inv, Step, Enabled;
    WrittenStays(run, acts, i, j, k, w);
    TraceInv(run, acts, j);
    assert Enabled(run[j], acts[j]);
    WordsStay(run[j], acts[j], k);
  }

  /** Without an edit a read gives the word of the fetched value. */
  lemma ReadsFetchedWord<W>(run: seq<State<W>>, acts: seq<Action<W>>, i: nat, k: nat)
    requires IsTrace(run, acts) && i < |acts| && acts[i] == ReadWord(k) && !run[i].edited
    ensures Permutation(run[i]) && |run[i].version| == 3 && Held(run[i]) < |run[i].log|
    ensures var value := run[i].log[Held(run[i])];
      k < |value| && k in run[i + 1].seen && run[i + 1].seen[k] == value[k]
  {
    TraceInv(run, acts, i);
    assert Enabled(run[i], acts[i]);
    WordsStay(run[i], acts[i], k);
  }

  /** The consumer reads what it wrote into its own buffer itself, until it fetches again. */
  lemma {:induction false} EditStays<W>(run: seq<State<W>>, acts: seq<Action<W>>, i: nat, j: nat, k: nat, w: W)
    requires IsTrace(run, acts) && i < j <= |acts| && acts[i] == EditWord(k, w)
    requires forall m | i < m < j :: acts[m] != FetchExchange && !(acts[m].EditWord? && acts[m].k == k)
    ensures WordToRead(run[j], k) == Some(w)
    ensures j < |acts| && acts[j] == ReadWord(k) ==> k in run[j + 1].seen && run[j + 1].seen[k] == w
    decreases j
  {
    hide Inv, Step, Enabled, WordToWrite, WordToRead;
    TraceInv(run, acts, j - 1);
    assert Enabled(run[j - 1], acts[j - 1]);
    WordsStay(run[j - 1], acts[j - 1], k);
    if i < j - 1 { EditStays(run, acts, i, j - 1, k, w); }
    if j < |acts| {
      TraceInv(run, acts, j);
      assert Enabled(run[j], acts[j]);
      WordsStay(run[j], acts[j], k);
    }
  }

  // ----- refinement of an atomic latest-value register -----

  /** The register: everything ever stored, and which of it the consumer fetched last. */
  datatype Register<W> = Register(stored: seq<seq<W>>, fetched: nat)
  datatype Op<W> = Store(value: seq<W>) | Fetch(success: bool) | Internal

  predicate RegisterStep<W(==)>(r: Register<W>, op: Op<W>, r': Register<W>) {
    match op
    case Store(v) => r' == r.(stored := r.stored + [v])
    case Fetch(success) =>
      && (success <==> r.fetched < |r.stored| - 1)
      && r' == r.(fetched := if success then |r.stored| - 1 else r.fetched)
    case Internal => r' == r
  }

  function Abstract<W>(s: State<W>): Register<W>
    requires Permutation(s) && |s.version| == 3
  {
    Register(s.log, Held(s))
  }

  /** The operation that takes effect in a step; only the two exchanges and a failing load do. */
  function Effect<W>(s: State<W>, a: Action<W>): Op<W>
    requires Permutation(s) && |s.data| == 3
  {
    match a
    case CommitExchange => Store(s.data[s.writeIdx.idx])
    case FetchExchange => Fetch(true)
    case FetchLoad => if s.bufferIdx.newData then Internal else Fetch(false)
    case _ => Internal
  }

  /** Every step of the buffer is a step of the register. */
  lemma Refines<W(!new)>(run: seq<State<W>>, i: nat, a: Action<W>)
    requires IsRun(run) && i < |run| && Enabled(run[i], a)
    ensures Permutation(run[i]) && |run[i].version| == 3 && |run[i].data| == 3
    ensures Permutation(Step(run[i], a)) && |Step(run[i], a).version| == 3
    ensures RegisterStep(Abstract(run[i]), Effect(run[i], a), Abstract(Step(run[i], a)))
  {
    RunInv(run, i);
    StepInv(run[i], a);
  }

  // ----- the class itself, its calls run one after the other -----

  /** T is the sequence of its words; history mirrors the members in the state the steps act on. */
  class Buffer<W> {
    var data: array<seq<W>>
    var readIdx: Index
    var writeIdx: Index
    var bufferIdx: Index
    ghost var history: State<W>

    ghost predicate Valid()
      reads this, data
    {
      && data.Length == 3 && history.data == data[..]
      && history.readIdx == readIdx && history.writeIdx == writeIdx && history.bufferIdx == bufferIdx
      && history.producer == Writing && history.reader == Reading
      && Inv(history)
    }

    constructor (init: seq<W>)
      ensures Valid() && fresh(data) && Init(history) && history.log == [init]
    {
      data := new seq<W>[3](_ => init);
      readIdx, writeIdx, bufferIdx := Index(0, false), Index(1, false), Index(2, false);
      new;
      history := State([init, init, init], readIdx, writeIdx, bufferIdx, Writing, Reading,
                       [init], [0, 0, 0], map[], false);
    }

    /** An assignment through the reference returned by get_write_buffer. */
    method Write(k: nat, w: W)
      requires Valid() && k < |data[writeIdx.idx]|
      modifies this`history, data
      ensures Valid() && history == Step(old(history), WriteWord(k, w))
      ensures data[writeIdx.idx] == old(data[writeIdx.idx])[k := w]
      ensures forall i | 0 <= i < 3 && i != writeIdx.idx :: data[i] == old(data[i])
    {
      data[writeIdx.idx] := data[writeIdx.idx][k := w];
      history := Step(history, WriteWord(k, w));
    }

    /** A read through the reference returned by get_read_buffer. */
    method Read(k: nat) returns (w: W)
      requires Valid() && k < |data[readIdx.idx]|
      ensures !history.edited ==> k < |history.log[Held(history)]| && w == history.log[Held(history)][k]
    {
      w := data[readIdx.idx][k];
    }

    method Commit()
      requires Valid()
      modifies this
      ensures Valid() && data == old(data)
      ensures history == Step(Step(old(history), CommitMark), CommitExchange)
      ensures history.log == old(history.log) + [old(data[writeIdx.idx])]
    {
      StepInv(history, CommitMark);
      StepInv(Step(history, CommitMark), CommitExchange);
      writeIdx := writeIdx.(newData := true);
      writeIdx, bufferIdx := bufferIdx, writeIdx;
      history := Step(Step(history, CommitMark), CommitExchange);
    }

    /** True exactly when something was committed since the last successful call, which is then current. */
    method FetchUpdate() returns (updated: bool)
      requires Valid()
      modifies this
      ensures Valid() && data == old(data)
      ensures updated <==> old(Held(history) < Latest(history))
      ensures updated ==> history == Step(Step(Step(old(history), FetchLoad), FetchMark), FetchExchange)
      ensures !updated ==> unchanged(this)
      ensures updated ==> Held(history) == Latest(history) && data[readIdx.idx] == history.log[Latest(history)]
    {
      if !bufferIdx.newData { return false; }
      StepInv(history, FetchLoad);
      StepInv(Step(history, FetchLoad), FetchMark);
      StepInv(Step(Step(history, FetchLoad), FetchMark), FetchExchange);
      readIdx := readIdx.(newData := false);
      readIdx, bufferIdx := bufferIdx, readIdx;
      history := Step(Step(Step(history, FetchLoad), FetchMark), FetchExchange);
      return true;
    }
  }
}
