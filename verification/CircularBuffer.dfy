/** The ring buffer of N elements as a queue of N - 1. */
module CircularBuffer {
  import opened Arithmetic
  import opened Wrappers

  /** The index i places after r in a ring of n. */
  function Place(r: nat, i: nat, n: nat): nat { if r + i < n then r + i else r + i - n }

  /** The operator %, whose result has the sign of the dividend. */
  function Remainder(x: int, n: nat): int
    requires n > 0
  {
    if x >= 0 then x % n else -(-x % n)
  }

  lemma NegativeRemainder(x: int, n: nat)
    requires n > 0 && x < 0
    ensures Remainder(x, n) <= 0 && (Remainder(x, n) == 0 <==> x % n == 0)
  {
    var q, m := -x / n, -x % n;
    assert -x == q * n + m;
    assert x == -m + -q * n;
    ModShift(-m, -q, n);
    if m > 0 { DivModUnique(-m, -1, n - m, n); } else { DivModUnique(0, 0, 0, n); }
  }

  /** Indexing wraps correctly, except that the remainder of a negative number may be negative. */
  lemma WrappedPlace(r: nat, i: int, n: nat)
    requires r < n
    ensures 0 <= i % n < n && (0 <= i < n ==> i % n == i)
    ensures r + i >= 0 || (r + i) % n == 0 ==> Remainder(r + i, n) == Place(r, i % n, n)
    ensures r + i < 0 && (r + i) % n != 0 ==> Remainder(r + i, n) < 0
  {
    var q, m := i / n, i % n;
    assert i == q * n + m;
    ModShift(r + m, q, n);
    ModOfSum(r + m, n);
    if 0 <= i < n { DivModUnique(i, 0, i, n); }
    if r + i < 0 { NegativeRemainder(r + i, n); }
  }

  /** n elements of a ring, starting at index r. */
  function Window<T>(d: seq<T>, r: nat, n: nat): (q: seq<T>)
    requires r < |d| && n <= |d|
    ensures |q| == n && forall i | 0 <= i < n :: q[i] == d[Place(r, i, |d|)]
  {
    seq(n, i requires 0 <= i < n => d[Place(r, i, |d|)])
  }

  class Ring<T(0)> {
    const data: array<T>
    var nextRead: nat
    var nextWrite: nat

    ghost predicate Valid()
      reads this
    {
      nextRead < data.Length && nextWrite < data.Length
    }

    /** The queue that the ring stands for, oldest element first. */
    ghost function Contents(): (q: seq<T>)
      requires Valid()
      reads this, data
    {
      Window(data[..], nextRead, Size())
    }

    constructor (n: nat)
      requires n > 0
      ensures Valid() && fresh(data) && data.Length == n && Contents() == []
    {
      data := new T[n];
      nextRead, nextWrite := 0, 0;
    }

    function Next(current: nat): (r: nat)
      requires current < data.Length
      ensures r == Place(current, 1, data.Length) || data.Length == 1
      ensures r < data.Length
    {
      ModOfSum(current + 1, data.Length);
      (current + 1) % data.Length
    }

    function Size(): (n: nat)
      requires Valid()
      reads this
      ensures n < data.Length && nextWrite == Place(nextRead, n, data.Length)
    {
      if nextWrite >= nextRead then nextWrite - nextRead else nextWrite + data.Length - nextRead
    }

    /** A push onto N - 1 elements makes the ring appear empty. */
    method PushBack(value: T)
      requires Valid()
      modifies this`nextWrite, data
      ensures Valid()
      ensures Contents() == if old(Size()) < data.Length - 1 then old(Contents()) + [value] else []
    {
      data[nextWrite] := value;
      nextWrite := Next(nextWrite);
      assert Size() == if old(Size()) < data.Length - 1 then old(Size()) + 1 else 0;
    }

    /** A pop from an empty ring makes it appear full. */
    method PopFront() returns (value: T)
      requires Valid()
      modifies this`nextRead
      ensures Valid()
      ensures old(Size()) > 0 ==> value == old(Contents())[0] && Contents() == old(Contents())[1..]
      ensures old(Size()) == 0 ==> Size() == data.Length - 1
    {
      var ti := nextRead;
      nextRead := Next(nextRead);
      value := data[ti];
    }

    /**
     Only the first Size() indices belong to the queue. Any other one wraps to an element of the ring, unless the
     remainder is negative; None stands for the access outside the array that follows.
     */
    function At(i: int): (value: Option<T>)
      requires Valid()
      reads this, data
      ensures 0 <= i < Size() ==> value == Some(Contents()[i])
      ensures value.Some? <==> nextRead + i >= 0 || (nextRead + i) % data.Length == 0
      ensures value.Some? ==>
        0 <= i % data.Length && value.value == Window(data[..], nextRead, data.Length)[i % data.Length]
    {
      WrappedPlace(nextRead, i, data.Length);
      var k := Remainder(nextRead + i, data.Length);
      if k < 0 then None else Some(data[k])
    }

    /** Writing through the reference that the index operator returns; false for an access outside the array. */
    method SetAt(i: int, value: T) returns (ok: bool)
      requires Valid()
      modifies data
      ensures ok <==> nextRead + i >= 0 || (nextRead + i) % data.Length == 0
      ensures var k := i % data.Length;
        0 <= k && Contents() == if ok && k < old(Size()) then old(Contents())[k := value] else old(Contents())
    {
      WrappedPlace(nextRead, i, data.Length);
      var k := Remainder(nextRead + i, data.Length);
      ok := k >= 0;
      if ok {
        data[k] := value;
      }
    }

    predicate Empty()
      requires Valid()
      reads this
      ensures Empty() <==> Contents() == []
    {
      Size() == 0
    }
  }

  // ---------- whole runs against an abstract queue ----------

  datatype Op<T> = Push(value: T) | Pop | Get(i: nat) | Count

  datatype Output<T> = Nothing | Element(value: T) | Number(n: nat)

  /** A queue of limited capacity: None if the operation is not allowed. */
  function QueueStep<T>(q: seq<T>, op: Op<T>, capacity: int): Option<(seq<T>, Output<T>)> {
    match op
    case Push(v) => if |q| < capacity then Some((q + [v], Nothing)) else None
    case Pop => if q == [] then None else Some((q[1..], Element(q[0])))
    case Get(i) => if i < |q| then Some((q, Element(q[i]))) else None
    case Count => Some((q, Number(|q|)))
  }

  /** The outputs of a whole run, or None if it contains an operation that is not allowed. */
  function QueueRun<T>(q: seq<T>, ops: seq<Op<T>>, capacity: int): Option<seq<Output<T>>>
    decreases |ops|
  {
    if ops == [] then Some([]) else
      var r := QueueStep(q, ops[0], capacity);
      if r == None then None else
        var rest := QueueRun(r.value.0, ops[1..], capacity);
        if rest == None then None else Some([r.value.1] + rest.value)
  }

  method Perform<T(0)>(ring: Ring<T>, op: Op<T>) returns (out: Output<T>)
    requires ring.Valid() && QueueStep(ring.Contents(), op, ring.data.Length - 1).Some?
    modifies ring, ring.data
    ensures ring.Valid()
    ensures Some((ring.Contents(), out)) == old(QueueStep(ring.Contents(), op, ring.data.Length - 1))
  {
    match op
    case Push(v) =>
      ring.PushBack(v);
      out := Nothing;
    case Pop =>
      var v := ring.PopFront();
      out := Element(v);
    case Get(i) =>
      var v := ring.At(i);
      out := Element(v.value);
    case Count =>
      out := Number(ring.Size());
  }

  /** In every run that a queue of N - 1 elements allows, the ring gives the same outputs. */
  method Replay<T(0)>(ring: Ring<T>, ops: seq<Op<T>>) returns (outs: seq<Output<T>>)
    requires ring.Valid() && QueueRun(ring.Contents(), ops, ring.data.Length - 1).Some?
    modifies ring, ring.data
    ensures ring.Valid()
    ensures Some(outs) == old(QueueRun(ring.Contents(), ops, ring.data.Length - 1))
  {
    outs := [];
    for i := 0 to |ops|
      invariant ring.Valid() && QueueRun(ring.Contents(), ops[i..], ring.data.Length - 1).Some?
      invariant outs + QueueRun(ring.Contents(), ops[i..], ring.data.Length - 1).value
             == old(QueueRun(ring.Contents(), ops, ring.data.Length - 1).value)
    {
      assert ops[i..][0] == ops[i] && ops[i..][1..] == ops[i + 1..];
      var out := Perform(ring, ops[i]);
      outs := outs + [out];
    }
    assert ops[|ops|..] == [] && outs + [] == outs;
  }
}
