/**
 Parsing of decimal integers. An integer type is given by its largest value, which is at
 least 9, and its signedness; None stands for the exception on overflow.
 */
module ToIntegral {
  import opened Arithmetic
  import opened Bits
  import opened Narrow
  import opened Wrappers

  datatype IntType = IntType(max: nat, signed: bool)

  predicate IsDigit(c: char) { '0' <= c <= '9' }

  predicate AllDigits(s: string) { forall i | 0 <= i < |s| :: IsDigit(s[i]) }

  function Digit(c: char): int { c as int - '0' as int }

  /** The number that a string of digits stands for; an empty one stands for 0. */
  function Value(s: string): int {
    if s == "" then 0 else Value(s[..|s| - 1]) * 10 + Digit(s[|s| - 1])
  }

  function DigitPrefix(s: string): (r: string)
    ensures r <= s && AllDigits(r) && (|r| < |s| ==> !IsDigit(s[|r|]))
  {
    if s == "" || !IsDigit(s[0]) then "" else [s[0]] + DigitPrefix(s[1..])
  }

  lemma LongestPrefixContains(s: string, n: nat)
    requires n <= |s| && forall k | 0 <= k < n :: IsDigit(s[k])
    ensures n <= |DigitPrefix(s)| && DigitPrefix(s)[..n] == s[..n]
  {
  }

  lemma LongestPrefix(s: string, n: nat)
    requires n <= |s| && (forall k | 0 <= k < n :: IsDigit(s[k])) && (n < |s| ==> !IsDigit(s[n]))
    ensures DigitPrefix(s) == s[..n]
  {
    var r := DigitPrefix(s);
    LongestPrefixContains(s, n);
    assert forall k | 0 <= k < |r| :: s[k] == r[k] && IsDigit(s[k]);
  }

  lemma {:induction false} ValueGrows(s: string, n: nat)
    requires n <= |s| && AllDigits(s)
    ensures 0 <= Value(s[..n]) <= Value(s)
    decreases |s|
  {
    if n < |s| {
      assert s[..|s| - 1][..n] == s[..n];
      ValueGrows(s[..|s| - 1], n);
    } else {
      assert s[..n] == s;
      if n > 0 {
        ValueGrows(s[..n - 1], n - 1);
        assert s[..n - 1][..n - 1] == s[..n - 1];
      }
    }
  }

  function CoreOf(s: string, max: nat): Option<int> {
    var v := Value(DigitPrefix(s));
    if v <= max then Some(v) else None
  }

  /** The division by 10 is only made once the value is within a factor 16 of the largest one. */
  method Core(s: string, max: nat) returns (r: Option<int>)
    requires max >= 9
    ensures r == CoreOf(s, max)
  {
    var tmp := 0;
    ghost var n := 0;
    for i := 0 to |s|
      invariant n == i && (forall k | 0 <= k < n :: IsDigit(s[k])) && tmp == Value(s[..n]) && 0 <= tmp <= max
    {
      var d := Digit(s[i]);
      if d < 0 || 9 < d {
        break;
      }
      assert s[..i + 1][..i] == s[..i];
      assert Value(s[..i + 1]) == tmp * 10 + d;
      if tmp >= max / 16 {
        if tmp > (max - d) / 10 {
          var p := DigitPrefix(s);
          LongestPrefixContains(s, i + 1);
          ValueGrows(p, i + 1);
          return None;
        }
      }
      tmp := tmp * 10 + d;
      n := i + 1;
    }
    LongestPrefix(s, n);
    return Some(tmp);
  }

  function Neg(r: Option<int>): Option<int> {
    if r.Some? then Some(-r.value) else None
  }

  function ToIntegralOf(s: string, t: IntType): Option<int> {
    if s == "" then Some(0)
    else if s[0] == '-' && t.signed then Neg(CoreOf(s[1..], t.max))
    else if s[0] == '+' then CoreOf(s[1..], t.max)
    else CoreOf(s, t.max)
  }

  method ParseIntegral(s: string, t: IntType) returns (r: Option<int>)
    requires t.max >= 9
    ensures r == ToIntegralOf(s, t)
  {
    if |s| == 0 {
      return Some(0);
    }
    if s[0] == '-' && t.signed {
      r := Core(s[1..], t.max);
      r := Neg(r);
    } else if s[0] == '+' {
      r := Core(s[1..], t.max);
    } else {
      r := Core(s, t.max);
    }
  }

  // ---------- decimal printing ----------

  function PrintNat(n: nat): string {
    if n < 10 then [('0' as int + n) as char] else PrintNat(n / 10) + [('0' as int + n % 10) as char]
  }

  function Print(v: int): string {
    if v < 0 then "-" + PrintNat(-v) else PrintNat(v)
  }

  lemma {:induction false} PrintedDigits(n: nat)
    ensures PrintNat(n) != "" && AllDigits(PrintNat(n)) && Value(PrintNat(n)) == n
  {
    var s := PrintNat(n);
    if n < 10 {
      assert s[..|s| - 1] == "";
    } else {
      PrintedDigits(n / 10);
      assert s[..|s| - 1] == PrintNat(n / 10);
    }
  }

  lemma CorePrinted(n: nat, rest: string, max: nat)
    requires rest != "" ==> !IsDigit(rest[0])
    ensures CoreOf(PrintNat(n) + rest, max) == if n <= max then Some(n) else None
  {
    PrintedDigits(n);
    var s := PrintNat(n) + rest;
    assert s[..|PrintNat(n)|] == PrintNat(n);
    LongestPrefix(s, |PrintNat(n)|);
  }

  lemma CoreWithoutDigits(s: string, max: nat)
    requires s != "" && !IsDigit(s[0])
    ensures CoreOf(s, max) == Some(0)
  {
    LongestPrefix(s, 0);
  }

  /**
   Parsing inverts printing for -max <= v <= max, whatever follows the number. The smallest value of a signed
   type is out of that range and throws, and an unsigned type reads a negative number as 0.
   */
  lemma ParseInvertsPrint(v: int, rest: string, t: IntType)
    requires rest != "" ==> !IsDigit(rest[0])
    ensures ToIntegralOf(Print(v) + rest, t) ==
      if v < 0 && !t.signed then Some(0) else if 0 <= v + t.max && v <= t.max then Some(v) else None
  {
    hide PrintNat, DigitPrefix, Value;
    var s := Print(v) + rest;
    if v < 0 {
      PrintedDigits(-v);
      assert s[1..] == PrintNat(-v) + rest;
      CorePrinted(-v, rest, t.max);
      CoreWithoutDigits(s, t.max);
    } else {
      PrintedDigits(v);
      assert IsDigit(PrintNat(v)[0]);
      CorePrinted(v, rest, t.max);
    }
  }

  /** A leading plus is skipped for every type, and no sign is read after it; no string at all is 0. */
  lemma ParseSkipsPlus(n: nat, rest: string, t: IntType)
    requires rest != "" ==> !IsDigit(rest[0])
    ensures ToIntegralOf("+" + PrintNat(n) + rest, t) == if n <= t.max then Some(n) else None
    ensures ToIntegralOf("+-" + PrintNat(n) + rest, t) == Some(0)
    ensures ToIntegralOf("", t) == Some(0)
  {
    hide PrintNat, DigitPrefix, Value;
    var s, u := PrintNat(n) + rest, "-" + PrintNat(n) + rest;
    assert ("+" + PrintNat(n) + rest)[1..] == s;
    assert ("+-" + PrintNat(n) + rest)[1..] == u;
    CorePrinted(n, rest, t.max);
    CoreWithoutDigits(u, t.max);
  }

  // ---------- the unchecked version, for sanitized strings ----------

  /** Types that the arithmetic is done in without a conversion; in all smaller ones it is done in int. */
  predicate SignedArithmetic(t: Type) { t.signed && t.bits >= 32 }

  /** One round of the loop, from left to right; None stands for the undefined behaviour of a signed overflow. */
  function UncheckedStep(t: Type, v: int, c: char): Option<int>
    requires IsType(t)
  {
    var sum := v * 10 + c as int;
    if SignedArithmetic(t) && !(Fits(t, v * 10) && Fits(t, sum) && Fits(t, sum - '0' as int)) then None
    else Some(NarrowCast(t, sum - '0' as int))
  }

  function UncheckedOf(s: string, t: Type): Option<int>
    requires IsType(t)
  {
    if s == "" then Some(0) else
      var v := UncheckedOf(s[..|s| - 1], t);
      if v == None then None else UncheckedStep(t, v.value, s[|s| - 1])
  }

  method ToIntegralUnsafe(s: string, t: Type) returns (r: Option<int>)
    requires IsType(t)
    ensures r == UncheckedOf(s, t)
    ensures !SignedArithmetic(t) ==> r == Some(NarrowCast(t, Value(s)))
  {
    UncheckedWraps(s, t);
    var value := 0;
    for i := 0 to |s|
      invariant UncheckedOf(s[..i], t) == Some(value)
    {
      assert s[..i + 1][..i] == s[..i];
      var product := value * 10;
      var sum := product + s[i] as int;
      var next := sum - '0' as int;
      if SignedArithmetic(t) && !(Fits(t, product) && Fits(t, sum) && Fits(t, next)) {
        UncheckedPrefix(s, t, i + 1);
        return None;
      }
      value := NarrowCast(t, next);
    }
    assert s[..|s|] == s;
    return Some(value);
  }

  lemma {:induction false} UncheckedPrefix(s: string, t: Type, n: nat)
    requires IsType(t) && n <= |s| && UncheckedOf(s[..n], t) == None
    ensures UncheckedOf(s, t) == None
    decreases |s|
  {
    if n == |s| {
      assert s[..n] == s;
    } else {
      assert s[..|s| - 1][..n] == s[..n];
      UncheckedPrefix(s[..|s| - 1], t, n);
    }
  }

  /** Where nothing overflows the value is right modulo 2^bits, for any string. */
  lemma {:induction false} UncheckedWraps(s: string, t: Type)
    requires IsType(t)
    ensures !SignedArithmetic(t) ==> UncheckedOf(s, t) == Some(NarrowCast(t, Value(s)))
  {
    if s == "" {
      ZeroFits(t);
    } else {
      UncheckedWraps(s[..|s| - 1], t);
      CastStep(t, Value(s[..|s| - 1]), Digit(s[|s| - 1]));
    }
  }

  lemma ZeroFits(t: Type)
    requires IsType(t)
    ensures NarrowCast(t, 0) == 0
  {
    hide NarrowCast;
    CastOfFitting(t, 0);
  }

  lemma CastStep(t: Type, v: int, d: int)
    requires IsType(t)
    ensures NarrowCast(t, NarrowCast(t, v) * 10 + d) == NarrowCast(t, v * 10 + d)
  {
    hide NarrowCast, Up;
    var k := CastCongruent(t, v);
    var p := Up(1, t.bits);
    assert NarrowCast(t, v) * 10 + d == v * 10 + d + 10 * k * p by {
      assert 10 * k * p == 10 * (k * p);
    }
    CastShift(t, v * 10 + d, 10 * k);
  }

  /**
   In signed arithmetic the digits are added before '0' is subtracted, so the sum overflows, and the behaviour is
   undefined, for the 48 largest values of the type.
   */
  lemma {:induction false} UncheckedSigned(s: string, t: Type)
    requires IsType(t) && SignedArithmetic(t) && AllDigits(s)
    ensures UncheckedOf(s, t) == if s == "" || Value(s) + '0' as int <= MaxOf(t) then Some(Value(s)) else None
  {
    hide Up, NarrowCast;
    AtLeastByte(t);
    if s != "" {
      var p, c := s[..|s| - 1], s[|s| - 1];
      UncheckedSigned(p, t);
      ValueGrows(s, |s| - 1);
      ValueGrows(p, 0);
      assert p[..0] == "";
      assert Value(s) == Value(p) * 10 + Digit(c);
      if Fits(t, Value(s)) { CastOfFitting(t, Value(s)); }
    }
  }

  function MaxOf(t: Type): int
    requires IsType(t)
  {
    Up(1, if t.signed then t.bits - 1 else t.bits) - 1
  }

  lemma AtLeastByte(t: Type)
    requires IsType(t) && SignedArithmetic(t)
    ensures MaxOf(t) >= 127
  {
    WiderIsLarger(7, t.bits - 1);
    assert Up(1, 3) == 2 * Up(1, 2) == 8;
    assert Up(1, 7) == 2 * Up(1, 6) == 4 * Up(1, 5) == 8 * Up(1, 4) == 16 * Up(1, 3);
  }

  /**
   On digits the checked version returns every value that fits. The unchecked one does so too, except in signed
   arithmetic, where it needs room for another 48.
   */
  lemma UncheckedAgrees(s: string, t: Type)
    requires IsType(t) && s != "" && AllDigits(s)
    ensures MaxOf(t) >= 0
    ensures ToIntegralOf(s, IntType(MaxOf(t), t.signed)) == if Value(s) <= MaxOf(t) then Some(Value(s)) else None
    ensures UncheckedOf(s, t) == Some(Value(s)) <==>
            Value(s) <= if SignedArithmetic(t) then MaxOf(t) - '0' as int else MaxOf(t)
  {
    hide Up, NarrowCast;
    LongestPrefix(s, |s|);
    assert s[..|s|] == s && s[..0] == "";
    ValueGrows(s, 0);
    if SignedArithmetic(t) {
      UncheckedSigned(s, t);
    } else {
      UncheckedWraps(s, t);
      if Fits(t, Value(s)) { CastOfFitting(t, Value(s)); }
    }
  }

  /** The largest int is such a value. */
  lemma UncheckedFailsOnLargestInt()
    ensures ToIntegralOf("2147483647", IntType(0x7FFF_FFFF, true)) == Some(0x7FFF_FFFF)
    ensures UncheckedOf("2147483647", Type(32, true)) == None
  {
    var s, t := "2147483647", Type(32, true);
    LargestInt();
    UncheckedSigned(s, t);
    UncheckedAgrees(s, t);
  }

  lemma AppendDigit(p: string, c: char)
    ensures Value(p + [c]) == Value(p) * 10 + Digit(c)
  {
    assert (p + [c])[..|p|] == p;
  }

  lemma LargestInt()
    ensures Value("2147483647") == MaxOf(Type(32, true)) == 0x7FFF_FFFF
  {
    assert "2" == "" + ['2'];
    AppendDigit("", '2');
    assert "21" == "2" + ['1'];
    AppendDigit("2", '1');
    assert "214" == "21" + ['4'];
    AppendDigit("21", '4');
    assert "2147" == "214" + ['7'];
    AppendDigit("214", '7');
    assert "21474" == "2147" + ['4'];
    AppendDigit("2147", '4');
    assert "214748" == "21474" + ['8'];
    AppendDigit("21474", '8');
    assert "2147483" == "214748" + ['3'];
    AppendDigit("214748", '3');
    assert "21474836" == "2147483" + ['6'];
    AppendDigit("2147483", '6');
    assert "214748364" == "21474836" + ['4'];
    AppendDigit("21474836", '4');
    assert "2147483647" == "214748364" + ['7'];
    AppendDigit("214748364", '7');
    PowersOfTwo();
    assert Up(1, 32) == 2 * Up(1, 31);
  }
}
