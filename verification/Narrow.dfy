/** Checked narrowing between the integer types of any two widths and signednesses. */
module Narrow {
  import opened Arithmetic
  import opened Bits
  import opened Wrappers

  datatype Type = Type(bits: nat, signed: bool)

  predicate IsType(t: Type) { t.bits > 0 }

  predicate Fits(t: Type, v: int)
    requires IsType(t)
  {
    if t.signed then 0 <= v + Up(1, t.bits - 1) && v < Up(1, t.bits - 1) else 0 <= v < Up(1, t.bits)
  }

  /** static_cast: the value modulo 2^bits, the upper half of which is negative in a signed type. */
  function NarrowCast(t: Type, v: int): (r: int)
    requires IsType(t)
    ensures Fits(t, r)
  {
    var m := v % Up(1, t.bits);
    if t.signed && m >= Up(1, t.bits - 1) then m - Up(1, t.bits) else m
  }

  /** None stands for the exception. The signs are only compared if the types differ in signedness. */
  function NarrowTo(t: Type, u: Type, v: int): Option<int>
    requires IsType(t) && IsType(u) && Fits(u, v)
  {
    var r := NarrowCast(t, v);
    if t.signed != u.signed && (r < 0) != (v < 0) then None
    else if NarrowCast(u, r) != v then None
    else Some(r)
  }

  /** A cast changes a value by a multiple of 2^bits. */
  lemma CastCongruent(t: Type, v: int) returns (k: int)
    requires IsType(t)
    ensures NarrowCast(t, v) - v == k * Up(1, t.bits)
  {
    var p := Up(1, t.bits);
    var q := v / p;
    assert v == q * p + v % p;
    k := if NarrowCast(t, v) == v % p then -q else -q - 1;
    assert k * p == if k == -q then -(q * p) else -(q * p) - p;
  }

  /** and is not affected by one. */
  lemma CastShift(t: Type, v: int, k: int)
    requires IsType(t)
    ensures NarrowCast(t, v + k * Up(1, t.bits)) == NarrowCast(t, v)
  {
    ModShift(v, k, Up(1, t.bits));
  }

  lemma CastOfFitting(t: Type, v: int)
    requires IsType(t) && Fits(t, v)
    ensures NarrowCast(t, v) == v
  {
    var k := CastCongruent(t, v);
    SmallMultipleIsZero(k, Up(1, t.bits));
  }

  /** Values of the two types with the same sign differ by less than the larger power of two. */
  lemma Distance(t: Type, u: Type, r: int, v: int)
    requires IsType(t) && IsType(u) && Fits(t, r) && Fits(u, v)
    requires t.signed == u.signed || (r < 0 <==> v < 0)
    ensures u.bits <= t.bits ==> r - v < Up(1, t.bits) && v - r < Up(1, t.bits)
    ensures t.bits <= u.bits ==> r - v < Up(1, u.bits) && v - r < Up(1, u.bits)
  {
    if u.bits <= t.bits {
      WiderIsLarger(u.bits, t.bits);
      WiderIsLarger(u.bits - 1, t.bits - 1);
    }
    if t.bits <= u.bits {
      WiderIsLarger(t.bits, u.bits);
      WiderIsLarger(t.bits - 1, u.bits - 1);
    }
  }

  /** narrow returns exactly the values that the target type can represent, unchanged, and throws for all others. */
  lemma NarrowIsExact(t: Type, u: Type, v: int)
    requires IsType(t) && IsType(u) && Fits(u, v)
    ensures NarrowTo(t, u, v) == if Fits(t, v) then Some(v) else None
  {
    hide NarrowCast, Up;
    var r := NarrowCast(t, v);
    CastOfFitting(u, v);
    if Fits(t, v) { CastOfFitting(t, v); }
    if NarrowTo(t, u, v).Some? {
      var k := CastCongruent(t, v);
      var j := CastCongruent(u, r);
      Distance(t, u, r, v);
      assert r - v == k * Up(1, t.bits) && v - r == j * Up(1, u.bits);
      if u.bits <= t.bits {
        SmallMultipleIsZero(k, Up(1, t.bits));
      } else {
        SmallMultipleIsZero(j, Up(1, u.bits));
      }
      assert r == v;
    }
  }
}
