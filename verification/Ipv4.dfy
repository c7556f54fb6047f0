/**
 Parsing of IPv4 addresses, ports and endpoints. Addresses and ports are kept in network order;
 littleEndian says which kind of machine the code was compiled for.
 */
module Ipv4 {
  import opened Bits
  import opened ByteSwap
  import opened Narrow
  import opened Split
  import opened ToIntegral
  import opened Wrappers

  // ---------- the strings that are accepted, and what they mean ----------

  predicate WellFormed(s: string) {
    7 <= |s| <= 15 && (forall i | 0 <= i < |s| :: IsDigit(s[i]) || s[i] == '.') && CountFrom(s, '.', 0) == 3
  }

  /** The four parts between the dots. */
  function Blocks(s: string): (b: seq<string>)
    requires |s| <= MAX_SIZE
  {
    Pieces(s, '.', Drop, 0)
  }

  predicate BlockFits(b: string) { |b| <= 3 && Value(b) <= 255 }

  predicate Accepts(s: string) {
    WellFormed(s) && forall i | 0 <= i < |Blocks(s)| :: BlockFits(Blocks(s)[i])
  }

  /** The first value becomes the most significant byte. */
  function Packed(v: seq<nat>): nat { FromBytes(ByteSwap.Reversed(v)) }

  function Values(b: seq<string>): (v: seq<nat>)
    requires forall i | 0 <= i < |b| :: AllDigits(b[i])
    ensures |v| == |b| && forall i | 0 <= i < |b| :: v[i] == Value(b[i])
  {
    if b == [] then [] else
      ValueGrows(b[0], 0);
      [Value(b[0])] + Values(b[1..])
  }

  function ParseAddressOf(s: string): Option<nat> {
    if Accepts(s) then
      BlocksAreDigits(s);
      Some(Packed(Values(Blocks(s))))
    else None
  }

  lemma BlocksAreDigits(s: string)
    requires WellFormed(s)
    ensures |s| <= MAX_SIZE && |Blocks(s)| == 4 && forall i | 0 <= i < |Blocks(s)| :: AllDigits(Blocks(s)[i])
  {
    hide Pieces;
    PiecesLength(s, '.', Drop, 0);
    forall i | 0 <= i < |Blocks(s)| ensures AllDigits(Blocks(s)[i]) {
      DropPiecesHaveNoDelimiter(s, '.', 0, i);
      PieceCharsAreInString(s, '.', Drop, 0, i);
      forall k | 0 <= k < |Blocks(s)[i]| ensures IsDigit(Blocks(s)[i][k]) {
        assert Blocks(s)[i][k] in Blocks(s)[i];
      }
    }
  }

  // ---------- parsing an address ----------

  method HasInvalidChar(s: string) returns (r: bool)
    ensures r <==> exists i | 0 <= i < |s| :: !(IsDigit(s[i]) || s[i] == '.')
  {
    for i := 0 to |s|
      invariant forall k | 0 <= k < i :: IsDigit(s[k]) || s[k] == '.'
    {
      var isValid := ('0' <= s[i] && s[i] <= '9') || s[i] == '.';
      if !isValid {
        return true;
      }
    }
    return false;
  }

  method HasWrongBlockCount(s: string) returns (r: bool)
    ensures r <==> CountFrom(s, '.', 0) != 3
  {
    var cnt := 0;
    for i := 0 to |s|
      invariant cnt + CountFrom(s, '.', i) == CountFrom(s, '.', 0)
    {
      cnt := cnt + If(s[i] == '.');
    }
    return cnt != 3;
  }

  method IsMalformed(s: string) returns (r: bool)
    ensures r <==> !WellFormed(s)
  {
    if |s| > 4 * 3 + 3 || |s| < 4 + 3 {
      return true;
    }
    r := HasInvalidChar(s);
    if !r {
      r := HasWrongBlockCount(s);
    }
  }

  lemma BlockFound(s: string, start: nat, pos: nat)
    requires start <= pos < |s| <= MAX_SIZE && s[pos] == '.' && forall k | start <= k < pos :: s[k] != '.'
    ensures Pieces(s, '.', Drop, start) == [s[start..pos]] + Pieces(s, '.', Drop, pos + 1)
    ensures |Pieces(s, '.', Drop, pos + 1)| > 0
  {
    hide Pieces, CountFrom, Find;
    var f := PiecesStep(s, '.', Drop, start);
    PiecesLength(s, '.', Drop, pos + 1);
  }

  /** Fills the four blocks without any check; the number of dots keeps it inside the array. */
  method SplitBlocksUnchecked(s: string) returns (ret: array<string>)
    requires WellFormed(s)
    ensures fresh(ret) && ret[..] == Blocks(s)
  {
    hide Pieces, CountFrom, Find, IsDigit;
    ret := new string[4](_ => "");
    PiecesLength(s, '.', Drop, 0);
    var cnt, start := 0, 0;
    for pos := 0 to |s|
      invariant cnt <= 4 && start <= pos && forall k | start <= k < pos :: s[k] != '.'
      invariant ret[..cnt] + Pieces(s, '.', Drop, start) == Blocks(s)
    {
      if s[pos] == '.' {
        BlockFound(s, start, pos);
        ret[cnt] := s[start..pos];
        cnt := cnt + 1;
        start := pos + 1;
        assert ret[..cnt] == ret[..cnt - 1] + [ret[cnt - 1]];
      }
    }
    var f := PiecesStep(s, '.', Drop, start);
    ret[3] := s[start..];
    assert ret[..] == ret[..3] + [ret[3]];
  }

  // ---------- values of short numbers ----------

  function Pow10(n: nat): nat { if n == 0 then 1 else 10 * Pow10(n - 1) }

  lemma {:induction false} ShortValue(s: string)
    requires AllDigits(s)
    ensures 0 <= Value(s) < Pow10(|s|)
  {
    if s != "" { ShortValue(s[..|s| - 1]); }
  }

  lemma PowersOfTen()
    ensures Pow10(0) == 1 && Pow10(1) == 10 && Pow10(2) == 100 && Pow10(3) == 1000
    ensures Pow10(4) == 10000 && Pow10(5) == 100000 && Pow10(6) == 1000000
  {
    assert Pow10(3) == 10 * Pow10(2) == 1000;
    assert Pow10(5) == 10 * Pow10(4) == 100000;
  }

  /** Up to six digits to_integral_unsafe does not wrap. */
  lemma ShortValueFits(s: string)
    requires AllDigits(s) && |s| <= 6
    ensures 0 <= Value(s) < 1000000 && Value(s) % Up(1, 32) == Value(s)
  {
    ShortValue(s);
    PowersOfTen();
    PowersOfTwo();
  }

  method ParseBlock(block: string) returns (r: Option<int>)
    ensures r.Some? <==> |block| <= 3 && Value(block) % Up(1, 32) <= 255
    ensures r.Some? ==> r.value == Value(block) % Up(1, 32)
    ensures AllDigits(block) ==> r == if BlockFits(block) then Some(Value(block)) else None
  {
    if |block| > 3 {
      return None;
    }
    var num := ToIntegralUnsafe(block, Type(32, false));
    if AllDigits(block) { ShortValueFits(block); }
    if num.value > 255 {
      return None;
    }
    return num;
  }

  /** Shifting the accumulator by a byte and adding the next one extends the packed value. */
  lemma PackStep(v: seq<nat>, x: nat)
    requires |v| <= 3 && IsBytes(v) && x < Up(1, 8)
    ensures Packed(v) < Up(1, 24)
    ensures Or(Shl(Packed(v), 8, 32), x) == Packed(v + [x])
  {
    var p := Packed(v);
    ReversedIsBytes(v);
    FromBytesBelow(ByteSwap.Reversed(v));
    WiderIsLarger(8 * |v|, 24);
    UpBelow(p, 24, 8, 0);
    LowOfSmall(Up(p, 8), 32);
    OrDisjoint(x, p, 8);
    ReversedConcat(v, [x]);
    assert ByteSwap.Reversed([x]) == [x] by { ReversedAt([x], 0); }
    var r := ByteSwap.Reversed(v);
    assert ([x] + r)[1..] == r;
  }

  lemma PackNext(v: seq<nat>, i: nat)
    requires |v| == 4 && i < 4 && forall k | 0 <= k <= i :: v[k] < Up(1, 8)
    ensures Or(Shl(Packed(v[..i]), 8, 32), v[i]) == Packed(v[..i + 1])
  {
    PackStep(v[..i], v[i]);
    assert v[..i + 1] == v[..i] + [v[i]];
  }

  lemma AllBlocksFit(s: string)
    requires WellFormed(s) && forall i | 0 <= i < |Blocks(s)| :: BlockFits(Blocks(s)[i])
    ensures (forall i | 0 <= i < |Blocks(s)| :: AllDigits(Blocks(s)[i]))
    ensures ParseAddressOf(s) == Some(Packed(Values(Blocks(s))))
  {
    BlocksAreDigits(s);
  }

  lemma MalformedRejected(s: string)
    requires !WellFormed(s)
    ensures ParseAddressOf(s) == None
  {
  }

  lemma OneBlockTooMany(s: string, i: nat)
    requires |s| <= MAX_SIZE && i < |Blocks(s)| && !BlockFits(Blocks(s)[i])
    ensures ParseAddressOf(s) == None
  {
  }

  method ParseAddress(s: string) returns (r: Option<nat>)
    ensures r == ParseAddressOf(s)
  {
    hide Blocks, Packed, Up, Or, Shl, Value, Accepts, ParseAddressOf, WellFormed;
    var malformed := IsMalformed(s);
    if malformed {
      MalformedRejected(s);
      return None;
    }
    var blocks := SplitBlocksUnchecked(s);
    BlocksAreDigits(s);
    ghost var v: seq<nat> := Values(Blocks(s));
    PowersOfTwo();
    assert v[..0] == [] && Packed([]) == 0 by { EmptyPacked(); }
    var accum := 0;
    for i := 0 to 4
      invariant blocks[..] == Blocks(s) && accum == Packed(v[..i])
      invariant forall k | 0 <= k < i :: BlockFits(Blocks(s)[k]) && v[k] < Up(1, 8)
    {
      assert blocks[i] == Blocks(s)[i];
      var b := ParseBlock(blocks[i]);
      if b == None {
        OneBlockTooMany(s, i);
        return None;
      }
      PackNext(v, i);
      accum := Shl(accum, 8, 32);
      accum := Or(accum, b.value);
    }
    assert v[..4] == v;
    AllBlocksFit(s);
    return Some(accum);
  }

  lemma EmptyPacked()
    ensures Packed([]) == 0
  {
  }

  // ---------- printing an address ----------

  function Octets(a: nat): (v: seq<nat>)
    ensures |v| == 4
  {
    ByteSwap.Reversed(ToBytes(a, 4))
  }

  function Printed(v: seq<nat>): (p: seq<string>)
    ensures |p| == |v| && forall i | 0 <= i < |v| :: p[i] == PrintNat(v[i])
  {
    if v == [] then [] else [PrintNat(v[0])] + Printed(v[1..])
  }

  /** The canonical dotted decimal, the IPv4address of section 3.2.2 of RFC 3986. */
  function Dotted(a: nat): string { Join(Printed(Octets(a)), '.') }

  lemma OctetPrinted(x: nat)
    requires x < 1000
    ensures 1 <= |PrintNat(x)| <= 3 && AllDigits(PrintNat(x)) && Value(PrintNat(x)) == x
  {
    PrintedDigits(x);
    PrintedLength(x, 3);
    PowersOfTen();
  }

  /** The joined string has the characters and the length of its parts and the dots in between. */
  lemma {:induction false} JoinShape(p: seq<string>)
    requires p != [] && forall i | 0 <= i < |p| :: 1 <= |p[i]| <= 3 && AllDigits(p[i])
    ensures 2 * |p| - 1 <= |Join(p, '.')| <= 4 * |p| - 1
    ensures forall i | 0 <= i < |Join(p, '.')| :: IsDigit(Join(p, '.')[i]) || Join(p, '.')[i] == '.'
  {
    if |p| > 1 { JoinShape(p[1..]); }
  }

  /** Parsing the canonical form of any 32-bit address gives the address. */
  lemma AddressRoundTrip(a: nat)
    requires a < Up(1, 32)
    ensures ParseAddressOf(Dotted(a)) == Some(a)
  {
    hide Up, ToBytes, ByteSwap.Reversed, FromBytes, Value, PrintNat, Pieces, CountFrom, Join;
    var v, p := Octets(a), Printed(Octets(a));
    PowersOfTwo();
    ToBytesIsBytes(a, 4);
    ReversedIsBytes(ToBytes(a, 4));
    forall i | 0 <= i < 4 ensures 1 <= |p[i]| <= 3 && AllDigits(p[i]) && Value(p[i]) == v[i] && '.' !in p[i] {
      OctetPrinted(v[i]);
    }
    JoinShape(p);
    PiecesOfJoin(p, '.');
    PiecesLength(Dotted(a), '.', Drop, 0);
    assert Values(p) == v;
    ReversedTwice(ToBytes(a, 4));
    WordRoundTrip(a, 4);
  }

  lemma {:induction false} JoinLength(p: seq<string>)
    requires p != [] && forall i | 0 <= i < |p| :: AllDigits(p[i])
    ensures forall i | 0 <= i < |Join(p, '.')| :: IsDigit(Join(p, '.')[i]) || Join(p, '.')[i] == '.'
    ensures (forall i | 0 <= i < |p| :: |p[i]| <= 3) ==> |Join(p, '.')| <= 4 * |p| - 1
  {
    if |p| > 1 { JoinLength(p[1..]); }
  }

  lemma {:induction false} JoinDots(p: seq<string>, d: char)
    requires p != [] && forall i | 0 <= i < |p| :: d !in p[i]
    ensures |Join(p, d)| <= MAX_SIZE ==> CountFrom(Join(p, d), d, 0) == |p| - 1
  {
    hide Join;
    if |Join(p, d)| <= MAX_SIZE {
      PiecesOfJoin(p, d);
      PiecesLength(Join(p, d), d, Drop, 0);
    }
  }

  /** Numbers of at most three digits and at most 255 are accepted between the dots, also empty ones. */
  lemma AcceptsJoined(b: seq<string>)
    requires b != [] && (forall i | 0 <= i < |b| :: AllDigits(b[i]))
    ensures Accepts(Join(b, '.')) <==>
            |b| == 4 && 7 <= |Join(b, '.')| && forall i | 0 <= i < 4 :: BlockFits(b[i])
  {
    hide Pieces, CountFrom, Join, Value;
    var s := Join(b, '.');
    forall i | 0 <= i < |b| ensures '.' !in b[i] {
    }
    JoinLength(b);
    JoinDots(b, '.');
    if |s| <= 15 {
      PiecesOfJoin(b, '.');
      assert Blocks(s) == b;
    }
  }

  /** Nothing shorter than four digits and three dots is accepted. */
  lemma ShortIsRejected(s: string)
    requires |s| < 7
    ensures ParseAddressOf(s) == None
  {
  }

  /** In memory, in network order, an accepted address consists of the values of its blocks from left to right. */
  lemma BlocksInMemory(littleEndian: bool, s: string)
    requires Accepts(s)
    ensures ParseAddressOf(s).value < Up(1, 32)
    ensures var m := InMemory(littleEndian, 2, ToNetOrder(littleEndian, 2, ParseAddressOf(s).value));
      |m| == |Blocks(s)| == 4 && forall i | 0 <= i < 4 :: m[i] == Value(Blocks(s)[i])
  {
    hide Up, ToBytes, ByteSwap.Reversed, FromBytes, Blocks, Value;
    BlocksAreDigits(s);
    PowersOfTwo();
    var v: seq<nat> := Values(Blocks(s));
    forall i | 0 <= i < 4 ensures v[i] < Up(1, 8) { assert BlockFits(Blocks(s)[i]); }
    ReversedIsBytes(v);
    FromBytesBelow(ByteSwap.Reversed(v));
    BytesRoundTrip(ByteSwap.Reversed(v));
    ReversedTwice(v);
    FourBytes();
    NetOrderIsBigEndian(littleEndian, 2, Packed(v));
  }

  lemma FourBytes()
    ensures Up(1, 2) == 4 && Up(1, 1) == 2
  {
  }

  // ---------- addresses, ports and endpoints ----------

  /** Both keep their value in network order. */
  datatype AddressV4 = AddressV4(net: nat)
  datatype PortNr = PortNr(net: nat)
  datatype Endpoint = Endpoint(address: AddressV4, port: PortNr)

  function AddressFromHost(le: bool, a: nat): AddressV4 { AddressV4(ToNetOrder(le, 2, a)) }
  function PortFromHost(le: bool, p: nat): PortNr { PortNr(ToNetOrder(le, 1, p)) }
  function AddressInHostOrder(le: bool, a: AddressV4): nat { ToHostOrder(le, 2, a.net) }
  function PortInHostOrder(le: bool, p: PortNr): nat { ToHostOrder(le, 1, p.net) }

  function TryParseAddress(le: bool, s: string): Option<AddressV4> {
    var r := ParseAddressOf(s);
    if r == None then None else Some(AddressFromHost(le, r.value))
  }

  /** Up to six digits, so leading zeros are allowed, as long as the value is a 16-bit number. */
  predicate AcceptsPort(s: string) { 1 <= |s| <= 6 && AllDigits(s) && Value(s) < 65536 }

  function ParsePortOf(s: string): Option<nat> {
    if AcceptsPort(s) then
      ShortValue(s);
      Some(Value(s))
    else None
  }

  method HasInvalidPortChar(s: string) returns (r: bool)
    ensures r <==> !AllDigits(s)
  {
    for i := 0 to |s|
      invariant forall k | 0 <= k < i :: IsDigit(s[k])
    {
      var isValid := '0' <= s[i] && s[i] <= '9';
      if !isValid {
        return true;
      }
    }
    return false;
  }

  method TryParsePort(le: bool, s: string) returns (r: Option<PortNr>)
    ensures r == if ParsePortOf(s) == None then None else Some(PortFromHost(le, ParsePortOf(s).value))
  {
    if |s| > 6 || s == "" {
      return None;
    }
    var invalid := HasInvalidPortChar(s);
    if invalid {
      return None;
    }
    var parsed := ToIntegralUnsafe(s, Type(32, false));
    ShortValueFits(s);
    if parsed.value > 65535 {
      return None;
    }
    return Some(PortFromHost(le, parsed.value));
  }

  /** StringView::split(char): the character itself is dropped, and without it everything comes first. */
  function SplitView(s: string, c: char): (string, string)
    requires |s| <= MAX_SIZE
  {
    var pos := Find(s, c, 0);
    if pos == NPOS then (s, "") else (s[..pos], s[pos + 1..])
  }

  function TryParseEndpoint(le: bool, s: string): Option<Endpoint>
    requires |s| <= MAX_SIZE
  {
    var ps := SplitView(s, ':');
    var address := TryParseAddress(le, ps.0);
    if address == None then None else
      var port := ParsePortOf(ps.1);
      if port == None then None else Some(Endpoint(address.value, PortFromHost(le, port.value)))
  }

  datatype Constructed = Made(e: Endpoint) | InvalidFormat | InvalidAddress | InvalidPort

  /** The constructor from a string; the other alternatives are its exceptions. */
  function ConstructEndpoint(le: bool, s: string): Constructed
    requires |s| <= MAX_SIZE
  {
    var ps := SplitView(s, ':');
    if |ps.1| < 1 then InvalidFormat else
      var address := TryParseAddress(le, ps.0);
      if address == None then InvalidAddress else
        var port := ParsePortOf(ps.1);
        if port == None then InvalidPort else Made(Endpoint(address.value, PortFromHost(le, port.value)))
  }

  /** The constructor throws exactly if try_parse finds nothing, and else makes the same endpoint. */
  lemma ConstructorAgrees(le: bool, s: string)
    requires |s| <= MAX_SIZE
    ensures TryParseEndpoint(le, s) == match ConstructEndpoint(le, s) case Made(e) => Some(e) case _ => None
  {
  }

  lemma SplitAtFirst(x: string, y: string, c: char)
    requires c !in x && |x| + 1 + |y| <= MAX_SIZE
    ensures SplitView(x + [c] + y, c) == (x, y)
  {
    hide Find;
    var s := x + [c] + y;
    assert s[|x|] == c && forall k | 0 <= k < |x| :: s[k] == x[k] && s[k] != c;
    assert s[..|x|] == x && s[|x| + 1..] == y;
  }

  lemma SplitWithout(s: string, c: char)
    requires |s| <= MAX_SIZE && c !in s
    ensures SplitView(s, c) == (s, "")
  {
    hide Find;
  }

  /** Which exception is thrown: an empty port is found first, then a bad address, then a bad port. */
  lemma ConstructorThrows(le: bool, x: string, y: string)
    requires |x| + 1 + |y| <= MAX_SIZE && ':' !in x
    ensures var r := ConstructEndpoint(le, x + ":" + y);
      (r == InvalidFormat <==> y == "") &&
      (r == InvalidAddress <==> y != "" && !Accepts(x)) &&
      (r == InvalidPort <==> y != "" && Accepts(x) && !AcceptsPort(y))
    ensures ConstructEndpoint(le, x) == InvalidFormat
  {
    hide Accepts, SplitView;
    SplitAtFirst(x, y, ':');
    SplitWithout(x, ':');
  }

  lemma NoColonInAddress(x: string)
    requires Accepts(x)
    ensures ':' !in x && |x| <= 15
  {
  }

  /** Exactly an accepted address, a colon and an accepted port make an endpoint, and it has their values. */
  lemma EndpointOf(le: bool, x: string, y: string)
    requires |x| + 1 + |y| <= MAX_SIZE && ':' !in x
    ensures TryParseEndpoint(le, x + ":" + y) == None <==> !Accepts(x) || !AcceptsPort(y)
    ensures Accepts(x) && AcceptsPort(y) ==>
      var e := TryParseEndpoint(le, x + ":" + y).value;
      AddressInHostOrder(le, e.address) == ParseAddressOf(x).value && PortInHostOrder(le, e.port) == Value(y)
  {
    hide Accepts, Up, Bswap, Value, SplitView;
    SplitAtFirst(x, y, ':');
    if Accepts(x) && AcceptsPort(y) {
      PowersOfTwo();
      FourBytes();
      BlocksInMemory(le, x);
      HostUndoesNet(le, 2, ParseAddressOf(x).value);
      ShortValue(y);
      HostUndoesNet(le, 1, Value(y));
    }
  }

  lemma EndpointNeedsColon(le: bool, s: string)
    requires |s| <= MAX_SIZE && ':' !in s
    ensures TryParseEndpoint(le, s) == None
  {
    hide Accepts;
  }

  /** Parsing the canonical form of any address and port gives both back. */
  lemma EndpointRoundTrip(le: bool, a: nat, p: nat)
    requires a < Up(1, 32) && p < 65536
    ensures |Dotted(a) + ":" + PrintNat(p)| <= 21
    ensures var r := TryParseEndpoint(le, Dotted(a) + ":" + PrintNat(p));
      r.Some? && AddressInHostOrder(le, r.value.address) == a && PortInHostOrder(le, r.value.port) == p
  {
    hide Accepts, Up, Value, PrintNat, Dotted, TryParseEndpoint;
    AddressRoundTrip(a);
    NoColonInAddress(Dotted(a));
    PortPrinted(p);
    EndpointOf(le, Dotted(a), PrintNat(p));
  }

  lemma PortPrinted(p: nat)
    requires p < 65536
    ensures AcceptsPort(PrintNat(p)) && |PrintNat(p)| <= 5 && Value(PrintNat(p)) == p
  {
    PrintedDigits(p);
    PrintedLength(p, 5);
    PowersOfTen();
  }

  lemma {:induction false} PrintedLength(n: nat, k: nat)
    requires k > 0 && n < Pow10(k)
    ensures 1 <= |PrintNat(n)| <= k
    decreases k
  {
    if n >= 10 { PrintedLength(n / 10, k - 1); }
  }
}
