/** The recursive byte swap, and the conversion between host and network byte order. */
module ByteSwap {
  import opened Bits

  // ---------- words as byte sequences, least significant byte first ----------

  predicate IsBytes(b: seq<nat>) { forall i | 0 <= i < |b| :: b[i] < Up(1, 8) }

  function ToBytes(x: nat, n: nat): (b: seq<nat>)
    ensures |b| == n
    decreases n
  {
    if n == 0 then [] else [Low(x, 8)] + ToBytes(Shr(x, 8), n - 1)
  }

  function FromBytes(b: seq<nat>): nat {
    if b == [] then 0 else b[0] + Up(FromBytes(b[1..]), 8)
  }

  function Reversed(b: seq<nat>): (r: seq<nat>)
    ensures |r| == |b|
  {
    if b == [] then [] else Reversed(b[1..]) + [b[0]]
  }

  /** The reference definition: the n bytes of x in the opposite order. */
  function Swapped(x: nat, n: nat): nat { FromBytes(Reversed(ToBytes(x, n))) }

  lemma {:induction false} ReversedAt(b: seq<nat>, i: nat)
    requires i < |b|
    ensures Reversed(b)[i] == b[|b| - 1 - i]
  {
    if i < |b| - 1 { ReversedAt(b[1..], i); }
  }

  lemma ReversedTwice(b: seq<nat>)
    ensures Reversed(Reversed(b)) == b
  {
    forall i | 0 <= i < |b| ensures Reversed(Reversed(b))[i] == b[i] {
      ReversedAt(Reversed(b), i);
      ReversedAt(b, |b| - 1 - i);
    }
  }

  lemma ReversedConcat(a: seq<nat>, b: seq<nat>)
    ensures Reversed(a + b) == Reversed(b) + Reversed(a)
  {
    forall i | 0 <= i < |a| + |b| ensures Reversed(a + b)[i] == (Reversed(b) + Reversed(a))[i] {
      ReversedAt(a + b, i);
      if i < |b| { ReversedAt(b, i); } else { ReversedAt(a, i - |b|); }
    }
  }

  lemma ReversedIsBytes(b: seq<nat>)
    requires IsBytes(b)
    ensures IsBytes(Reversed(b))
  {
    forall i | 0 <= i < |b| ensures Reversed(b)[i] < Up(1, 8) { ReversedAt(b, i); }
  }

  lemma {:induction false} ToBytesIsBytes(x: nat, n: nat)
    ensures IsBytes(ToBytes(x, n))
    decreases n
  {
    if n > 0 {
      LowAndHigh(x, 8);
      ToBytesIsBytes(Shr(x, 8), n - 1);
    }
  }

  lemma {:induction false} FromBytesBelow(b: seq<nat>)
    requires IsBytes(b)
    ensures FromBytes(b) < Up(1, 8 * |b|)
  {
    if b != [] {
      FromBytesBelow(b[1..]);
      UpBelow(FromBytes(b[1..]), 8 * (|b| - 1), 8, b[0]);
    }
  }

  lemma {:induction false} BytesRoundTrip(b: seq<nat>)
    requires IsBytes(b)
    ensures ToBytes(FromBytes(b), |b|) == b
  {
    if b != [] {
      BytesRoundTrip(b[1..]);
      LowOfSum(b[0], FromBytes(b[1..]), 8);
    }
  }

  lemma {:induction false} WordRoundTrip(x: nat, n: nat)
    requires x < Up(1, 8 * n)
    ensures FromBytes(ToBytes(x, n)) == x
    decreases n
  {
    if n > 0 {
      LowAndHigh(x, 8);
      ShrBelow(x, 8, 8 * (n - 1));
      WordRoundTrip(Shr(x, 8), n - 1);
    }
  }

  lemma ShrBelow(x: nat, j: nat, k: nat)
    requires x < Up(1, j + k)
    ensures Shr(x, j) < Up(1, k)
  {
    LowAndHigh(x, j);
    UpUp(1, k, j);
    UpMono(Up(1, k), Shr(x, j), j);
  }

  lemma {:induction false} ToBytesSplit(x: nat, a: nat, b: nat)
    ensures ToBytes(x, a + b) == ToBytes(x, a) + ToBytes(Shr(x, 8 * a), b)
    decreases a
  {
    if a > 0 {
      ToBytesSplit(Shr(x, 8), a - 1, b);
      ShrShr(x, 8, 8 * (a - 1));
    }
  }

  lemma {:induction false} FromBytesConcat(a: seq<nat>, b: seq<nat>)
    ensures FromBytes(a + b) == FromBytes(a) + Up(FromBytes(b), 8 * |a|)
  {
    if a == [] {
      assert a + b == b;
    } else {
      assert (a + b)[1..] == a[1..] + b;
      FromBytesConcat(a[1..], b);
      UpSum(FromBytes(a[1..]), Up(FromBytes(b), 8 * (|a| - 1)), 8);
      UpUp(FromBytes(b), 8 * (|a| - 1), 8);
    }
  }

  lemma SwappedBelow(x: nat, n: nat)
    ensures Swapped(x, n) < Up(1, 8 * n)
  {
    ToBytesIsBytes(x, n);
    ReversedIsBytes(ToBytes(x, n));
    FromBytesBelow(Reversed(ToBytes(x, n)));
  }

  /** Only the lowest n bytes matter. */
  lemma {:induction false} ToBytesOfLow(x: nat, n: nat)
    ensures ToBytes(Low(x, 8 * n), n) == ToBytes(x, n)
    decreases n
  {
    hide Up, Shr, Low;
    if n > 0 {
      LowInTwo(x, 8, 8 * (n - 1));
      LowAndHigh(x, 8);
      LowOfSum(Low(x, 8), Low(Shr(x, 8), 8 * (n - 1)), 8);
      ToBytesOfLow(Shr(x, 8), n - 1);
    }
  }

  lemma {:induction false} LowInTwo(x: nat, j: nat, k: nat)
    ensures Low(x, j + k) == Low(x, j) + Up(Low(Shr(x, j), k), j)
    decreases j
  {
    if j > 0 { LowInTwo(x / 2, j - 1, k); }
  }

  // ---------- mbswap ----------

  /** Ones in the lower half of n bytes, in a word of the given number of bits. */
  function LowerMask(n: nat, width: nat): int { Shl(1, n * 8 / 2, width) - 1 }

  function UpperMask(n: nat, width: nat): int
    requires LowerMask(n, width) >= 0
  {
    Shl(LowerMask(n, width), n * 8 / 2, width)
  }

  lemma {:induction false} OneBelow(k: nat)
    ensures 0 < Up(1, k) < Up(1, k + 1)
  {
    if k > 0 { OneBelow(k - 1); }
  }

  lemma MaskValues(n: nat, h: nat, width: nat)
    requires n * 8 / 2 == h && 0 < h && 2 * h <= width
    ensures LowerMask(n, width) == Up(1, h) - 1 >= 0
    ensures UpperMask(n, width) == Up(Up(1, h) - 1, h)
  {
    OneBelow(h);
    WiderIsLarger(h + 1, width);
    LowOfSmall(Up(1, h), width);
    UpBelow(Up(1, h) - 1, h, h, 0);
    WiderIsLarger(2 * h, width);
    LowOfSmall(Up(Up(1, h) - 1, h), width);
  }

  /** mbswap<T, 2^k> for a T of the given number of bits. The case of one byte returns its argument unmasked. */
  function Mbswap(k: nat, width: nat, d: nat): nat
    requires 8 * Up(1, k) <= width
  {
    if k == 0 then d else
      var n := Up(1, k);
      MaskValues(n, 4 * n, width);
      Or(Mbswap(k - 1, width, And(Shr(d, n * 8 / 2), LowerMask(n, width))),
         And(Shl(Mbswap(k - 1, width, d), n * 8 / 2, width), UpperMask(n, width)))
  }

  lemma SwappedHalves(d: nat, m: nat)
    ensures Swapped(d, 2 * m) == Swapped(Shr(d, 8 * m), m) + Up(Swapped(d, m), 8 * m)
  {
    ToBytesSplit(d, m, m);
    ReversedConcat(ToBytes(d, m), ToBytes(Shr(d, 8 * m), m));
    FromBytesConcat(Reversed(ToBytes(Shr(d, 8 * m), m)), Reversed(ToBytes(d, m)));
  }

  lemma SwappedOfLow(d: nat, m: nat)
    ensures Swapped(Low(d, 8 * m), m) == Swapped(d, m)
  {
    ToBytesOfLow(d, m);
  }

  lemma SwappedOneByte(d: nat)
    ensures Swapped(d, 1) == Low(d, 8)
  {
    hide Up, Low;
    var b := [Low(d, 8)];
    assert ToBytes(d, 1) == b + ToBytes(Shr(d, 8), 0) == b;
    assert b[1..] == [];
    assert Reversed(b) == Reversed([]) + b == b;
    UpZero(8);
    assert FromBytes(b) == Low(d, 8) + Up(FromBytes([]), 8);
  }

  /** Shifting into the upper half and masking there needs only the lower half of the argument. */
  lemma IntoUpperHalf(v: nat, h: nat, width: nat)
    requires 2 * h <= width
    ensures And(Shl(v, h, width), Up(Up(1, h) - 1, h)) == Up(Low(v, h), h)
  {
    hide Up, Shr, Low, And, Or;
    var u := Up(v, h);
    var w := Low(u, width);
    LowAndHigh(u, width);
    AndHighMask(w, Up(1, h) - 1, h);
    AndLowMask(Shr(w, h), h);
    // The shift moves v up by h, and the width cuts off only what is above 2 * h.
    LowInTwo(u, h, width - h);
    UpZero(h);
    OneBelow(h);
    LowOfSum(0, v, h);
    assert Low(u, h) == 0 && Shr(u, h) == v;
    LowOfSum(0, Low(v, width - h), h);
    assert Shr(w, h) == Low(v, width - h);
    LowOfLow(v, h, width - h);
  }

  lemma {:induction false} LowOfLow(x: nat, j: nat, k: nat)
    requires j <= k
    ensures Low(Low(x, k), j) == Low(x, j)
    decreases k
  {
    if j > 0 { LowOfLow(x / 2, j - 1, k - 1); }
  }

  /** From two bytes on mbswap reverses the lowest 2^k bytes of any argument; a single byte has to be alone. */
  lemma {:induction false} MbswapReverses(k: nat, width: nat, d: nat)
    requires 8 * Up(1, k) <= width
    ensures Low(Mbswap(k, width, d), 8 * Up(1, k)) == Swapped(d, Up(1, k))
    ensures k > 0 || d < Up(1, 8) ==> Mbswap(k, width, d) == Swapped(d, Up(1, k))
    decreases k
  {
    hide Shr, Low, And, Or, Swapped;
    if k == 0 {
      SwappedOneByte(d);
      if d < Up(1, 8) { LowOfSmall(d, 8); }
    } else {
      var n, m := Up(1, k), Up(1, k - 1);
      assert n == 2 * m;
      var h := 8 * m;
      MaskValues(n, h, width);
      AndLowMask(Shr(d, h), h);
      var upper := Low(Shr(d, h), h);
      LowAndHigh(Shr(d, h), h);
      MbswapReverses(k - 1, width, upper);
      SwappedOfLow(Shr(d, h), m);
      SwappedBelow(Shr(d, h), m);
      MbswapReverses(k - 1, width, d);
      IntoUpperHalf(Mbswap(k - 1, width, d), h, width);
      OrDisjoint(Swapped(Shr(d, h), m), Swapped(d, m), h);
      SwappedHalves(d, m);
      SwappedBelow(d, n);
      LowOfSmall(Swapped(d, n), 8 * n);
    }
  }

  /** bswap of a type with 2^k bytes. */
  function Bswap(k: nat, d: nat): nat { Mbswap(k, 8 * Up(1, k), d) }

  lemma BswapTwice(k: nat, x: nat)
    requires x < Up(1, 8 * Up(1, k))
    ensures Bswap(k, x) < Up(1, 8 * Up(1, k)) && Bswap(k, Bswap(k, x)) == x
  {
    var n := Up(1, k);
    var b := ToBytes(x, n);
    MbswapReverses(k, 8 * n, x);
    MbswapReverses(k, 8 * n, Swapped(x, n));
    SwappedBelow(x, n);
    ToBytesIsBytes(x, n);
    ReversedIsBytes(b);
    BytesRoundTrip(Reversed(b));
    ReversedTwice(b);
    WordRoundTrip(x, n);
  }

  // ---------- host and network order ----------

  function ToNetOrder(littleEndian: bool, k: nat, x: nat): nat {
    if littleEndian then Bswap(k, x) else x
  }

  function ToHostOrder(littleEndian: bool, k: nat, x: nat): nat {
    if littleEndian then Bswap(k, x) else x
  }

  /** The bytes of a word of 2^k bytes at increasing addresses. */
  function InMemory(littleEndian: bool, k: nat, x: nat): seq<nat> {
    if littleEndian then ToBytes(x, Up(1, k)) else Reversed(ToBytes(x, Up(1, k)))
  }

  lemma HostUndoesNet(littleEndian: bool, k: nat, x: nat)
    requires x < Up(1, 8 * Up(1, k))
    ensures ToHostOrder(littleEndian, k, ToNetOrder(littleEndian, k, x)) == x
    ensures ToNetOrder(littleEndian, k, ToHostOrder(littleEndian, k, x)) == x
  {
    BswapTwice(k, x);
  }

  /** On any machine the bytes of a number in network order lie in memory with the most significant one first. */
  lemma NetOrderIsBigEndian(littleEndian: bool, k: nat, x: nat)
    requires x < Up(1, 8 * Up(1, k))
    ensures InMemory(littleEndian, k, ToNetOrder(littleEndian, k, x)) == Reversed(ToBytes(x, Up(1, k)))
  {
    var n := Up(1, k);
    MbswapReverses(k, 8 * n, x);
    ToBytesIsBytes(x, n);
    ReversedIsBytes(ToBytes(x, n));
    BytesRoundTrip(Reversed(ToBytes(x, n)));
  }

  /** Without the masks of its callers the case of one byte would not be a byte swap. */
  lemma OneByteNeedsItsArgumentMasked(width: nat, d: nat)
    requires 8 <= width
    ensures Mbswap(0, width, d) == Swapped(d, 1) <==> d < Up(1, 8)
  {
    SwappedOneByte(d);
    LowAndHigh(d, 8);
    if d < Up(1, 8) { LowOfSmall(d, 8); }
  }
}
