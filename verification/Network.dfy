/** Address comparison, connection attempts and complete reads, from util/network.c. */
module Network {
  import opened Common
  import opened Numerals
  import opened Bits
  import opened CNumbers
  import opened XWrite
  import InetAddr
  import Splitting
  import Conversions

  // ---- network_addr_match

  /** An IPv6 address as its 16 bytes. */
  type Address6 = x: seq<nat> | |x| == 16 && forall k :: 0 <= k < 16 ==> x[k] < 256
    witness [0, 0, 0, 0, 0, 0, 0, 0, 0, 0, 0, 0, 0, 0, 0, 0]

  /** The top n of the bits below w agree. */
  ghost predicate TopBits(a: nat, b: nat, w: nat, n: nat) {
    forall k: nat :: w - n <= k < w ==> (Bit(a, k) <==> Bit(b, k))
  }

  /** Bit j of an IPv6 address, counted from the most significant. */
  predicate Bit6(x: Address6, j: nat)
    requires j < 128
  {
    Bit(x[j / 8], 7 - j % 8)
  }

  /** The top n of the 128 bits agree. */
  ghost predicate TopBits6(x: Address6, y: Address6, n: nat)
    requires n <= 128
  {
    forall j: nat :: j < n ==> (Bit6(x, j) <==> Bit6(y, j))
  }

  /** An optional sign in front of a number. */
  function SignOf(t: seq<char>): seq<char> { if t != [] && (t[0] == '-' || t[0] == '+') then [t[0]] else [] }

  /** What strtoul makes of digits worth v: clipped to 64 bits, or negated in them. */
  function Wrapped(negative: bool, v: nat): nat {
    if v >= Conversions.TWO_64 then Conversions.TWO_64 - 1
    else if negative && v > 0 then Conversions.TWO_64 - v else v
  }

  /** strtoul in base 10, when it consumes the whole text; the text without digits counts as consumed only if empty. */
  function WholeNumber(s: seq<char>): Option<nat> {
    var t := SkipSpaces(s);
    var sign := SignOf(t);
    var digits := t[|sign|..];
    if s == [] then Some(0)
    else if digits == [] || DigitRun(digits) != |digits| then None
    else Some(Wrapped(sign == "-", Value(digits, 10)))
  }

  predicate Accepts(mask: seq<char>, limit: nat) {
    var n := WholeNumber(mask);
    n.Some? && n.value <= limit
  }

  /** A plain decimal prefix length in range. */
  predicate PlainMask(mask: seq<char>, limit: nat) {
    mask != [] && IsNumeral(mask, 10) && Value(mask, 10) <= limit
  }

  /** White space, a sign and digits; a minus sign counts down from 2^64. */
  ghost predicate SignedMask(mask: seq<char>, spaces: seq<char>, sign: seq<char>, digits: seq<char>, limit: nat) {
    && mask == spaces + (sign + digits) && Spaces(spaces) && sign in ["", "+", "-"]
    && digits != [] && IsNumeral(digits, 10)
    && (if sign == "-" then CountsDown(Value(digits, 10), limit) else Value(digits, 10) <= limit)
  }

  predicate CountsDown(v: nat, limit: nat) {
    v == 0 || 0x1_0000_0000_0000_0000 - limit <= v < 0x1_0000_0000_0000_0000
  }

  lemma WrappedFits(negative: bool, v: nat, limit: nat)
    requires limit <= 128
    ensures Wrapped(negative, v) <= limit <==> if negative then CountsDown(v, limit) else v <= limit
  {
  }

  /** The texts besides plain numbers that are taken as a prefix length: none at all, or with a sign or spaces. */
  ghost predicate OddMask(mask: seq<char>, limit: nat) {
    mask == [] || exists spaces, sign, digits :: spaces + sign != [] && SignedMask(mask, spaces, sign, digits, limit)
  }

  /** Exactly the mask texts that network_addr_match accepts as a prefix length. */
  lemma MaskAccepted(mask: seq<char>, limit: nat)
    requires limit <= 128
    ensures Accepts(mask, limit) <==> PlainMask(mask, limit) || OddMask(mask, limit)
    ensures PlainMask(mask, limit) ==> WholeNumber(mask) == Some(Value(mask, 10))
    ensures mask == [] ==> WholeNumber(mask) == Some(0)
  {
    if mask != [] && Accepts(mask, limit) { AcceptedForm(mask, limit); }
    if PlainMask(mask, limit) {
      assert mask == [] + ([] + mask);
      FormAccepted(mask, [], [], mask, limit);
    }
    if OddMask(mask, limit) && mask != [] {
      var spaces, sign, digits :| spaces + sign != [] && SignedMask(mask, spaces, sign, digits, limit);
      FormAccepted(mask, spaces, sign, digits, limit);
    }
  }

  lemma AcceptedForm(mask: seq<char>, limit: nat)
    requires limit <= 128 && mask != [] && Accepts(mask, limit)
    ensures PlainMask(mask, limit) || OddMask(mask, limit)
  {
    var n := SkippedSpaces(mask);
    var spaces, t := mask[..n], mask[n..];
    var sign := SignOf(t);
    var digits := t[|sign|..];
    AllDigits(digits);
    WrappedFits(sign == "-", Value(digits, 10), limit);
    assert t == sign + digits && mask == spaces + t;
    assert SignedMask(mask, spaces, sign, digits, limit);
    if spaces + sign == [] { assert mask == digits; }
  }

  /** A text is all digits exactly when its run of digits is all of it. */
  lemma AllDigits(digits: seq<char>)
    ensures DigitRun(digits) == |digits| <==> IsNumeral(digits, 10)
  {
    assert forall i :: 0 <= i < |digits| ==> (IsDigit(digits[i]) <==> DigitValue(digits[i]) < 10);
    if IsNumeral(digits, 10) {
      RunOfDigits(digits, []);
      assert digits + [] == digits;
    }
  }

  /** The prefix length such a text denotes. */
  lemma FormAccepted(mask: seq<char>, spaces: seq<char>, sign: seq<char>, digits: seq<char>, limit: nat)
    requires limit <= 128 && SignedMask(mask, spaces, sign, digits, limit)
    ensures var v := Value(digits, 10);
            WholeNumber(mask) == Some(if sign == "-" && v > 0 then 0x1_0000_0000_0000_0000 - v else v)
    ensures Accepts(mask, limit)
  {
    var t := sign + digits;
    AllDigits(digits);
    SignSplits(sign, digits);
    SkipsSpaces(spaces, t);
    WrappedFits(sign == "-", Value(digits, 10), limit);
  }

  lemma SignSplits(sign: seq<char>, digits: seq<char>)
    requires sign in ["", "+", "-"] && digits != [] && IsNumeral(digits, 10)
    ensures var t := sign + digits;
            t != [] && !IsSpace(t[0]) && SignOf(t) == sign && t[|sign|..] == digits
  {
    var t := sign + digits;
    assert DigitValue(digits[0]) < 10;
    if sign == [] { assert t == digits; } else { assert t[0] == sign[0]; }
  }

  /** IPv4: no mask, a prefix length, or a dotted mask. */
  ghost predicate Matches4(a: nat, b: nat, mask: Option<seq<char>>) {
    if mask.None? then a == b
    else if '.' !in mask.value then
      var n := WholeNumber(mask.value);
      n.Some? && n.value <= 32 && TopBits(a, b, 32, n.value)
    else
      var m := InetAddr.Meaning(mask.value);
      m.Some? && AgreeOn(a, b, m.value, 32)
  }

  /** IPv6: no mask or a prefix length. */
  ghost predicate Matches6(x: Address6, y: Address6, mask: Option<seq<char>>) {
    var n := if mask.None? then Some(128) else WholeNumber(mask.value);
    n.Some? && n.value <= 128 && TopBits6(x, y, n.value)
  }

  /** What the two parsers make of a text. */
  datatype Parsed = Parsed(v4: Option<nat>, v6: Option<Address6>)

  function Parse(s: seq<char>, pton: seq<char> -> Option<Address6>): Parsed { Parsed(InetAddr.Meaning(s), pton(s)) }

  /** IPv4 if both texts are, otherwise IPv6 if both are. */
  ghost predicate MatchesParsed(p: Parsed, q: Parsed, mask: Option<seq<char>>) {
    if p.v4.Some? && q.v4.Some? then Matches4(p.v4.value, q.v4.value, mask)
    else p.v6.Some? && q.v6.Some? && Matches6(p.v6.value, q.v6.value, mask)
  }

  /** What a comparison of two addresses under a mask means. */
  ghost predicate Matches(a: seq<char>, b: seq<char>, mask: Option<seq<char>>, pton: seq<char> -> Option<Address6>) {
    a != [] && b != [] && MatchesParsed(Parse(a, pton), Parse(b, pton), mask)
  }

  /** The mask loops: the top n of `width` bits. */
  method PrefixMask(n: nat, width: nat) returns (mask: nat)
    requires n <= width
    ensures forall k: nat :: Bit(mask, k) <==> width - n <= k < width
  {
    mask := 0;
    forall k: nat ensures !Bit(0, k) { ZeroBit(k); }
    for i := 0 to n
      invariant forall k: nat :: Bit(mask, k) <==> width - i <= k < width
    {
      var bit := Pow(2, width - 1 - i);
      forall k: nat
        ensures Bit(BitOr(mask, bit), k) <==> width - (i + 1) <= k < width
      {
        OrBit(mask, bit, k);
        PowBit(width - 1 - i, k);
      }
      mask := BitOr(mask, bit);
    }
  }

  lemma MeaningBelow(s: seq<char>)
    ensures InetAddr.Meaning(s).Some? ==> InetAddr.Meaning(s).value < Pow(2, 32)
  {
    var v := InetAddr.PartValues(Splitting.Pieces(s, "."));
    if v.Some? && InetAddr.InRange(v.value) {
      HighBelow(v.value[..|v.value| - 1]);
    }
  }

  /** Bytes in the leading parts leave the address below 2^32. */
  lemma {:induction false} HighBelow(values: seq<nat>)
    requires |values| <= 4 && forall k :: 0 <= k < |values| ==> values[k] <= 255
    ensures InetAddr.HighBytes(values) + Pow(2, 8 * (4 - |values|)) <= Pow(2, 32)
    decreases |values|
  {
    if values == [] {
    } else {
      var n := |values|;
      HighBelow(values[..n - 1]);
      PowAdd(2, 8, 8 * (4 - n));
      InetAddr.Limits();
      assert 8 + 8 * (4 - n) == 8 * (4 - (n - 1));
      ByteScaled(values[n - 1], Pow(2, 8 * (4 - n)));
    }
  }

  lemma ByteScaled(v: nat, p: nat)
    requires v <= 255
    ensures v * p + p <= 256 * p
  {
  }

  /** network_addr_match */
  method AddrMatch(a: seq<char>, b: seq<char>, mask: Option<seq<char>>, pton: seq<char> -> Option<Address6>)
    returns (r: bool)
    ensures r <==> Matches(a, b, mask, pton)
  {
    if a == [] || b == [] { return false; }
    var a4 := InetAddr.InetAton(a);
    var b4 := InetAddr.InetAton(b);
    MeaningBelow(a);
    MeaningBelow(b);
    if a4.Some? && b4.Some? {
      r := Match4(a4.value, b4.value, mask);
      return;
    }
    var a6, b6 := pton(a), pton(b);
    if a6.None? || b6.None? { return false; }
    var cidr := 128;
    if mask.Some? {
      var n := WholeNumber(mask.value);
      if n.None? || n.value > 128 { return false; }
      cidr := n.value;
    }
    r := Match6(a6.value, b6.value, cidr);
  }

  /** The IPv4 comparison: both addresses and-ed with the mask. */
  method Match4(a4: nat, b4: nat, mask: Option<seq<char>>) returns (r: bool)
    requires a4 < Pow(2, 32) && b4 < Pow(2, 32)
    ensures r <==> Matches4(a4, b4, mask)
  {
    var bits;
    if mask.None? {
      bits := PrefixMask(32, 32);
      if AgreeOn(a4, b4, bits, 32) { SameBits(a4, b4, 32); }
    } else if '.' !in mask.value {
      var n := WholeNumber(mask.value);
      if n.None? || n.value > 32 { return false; }
      bits := PrefixMask(n.value, 32);
      assert TopBits(a4, b4, 32, n.value) <==> AgreeOn(a4, b4, bits, 32);
    } else {
      var m := InetAddr.InetAton(mask.value);
      if m.None? { return false; }
      bits := m.value;
    }
    MaskedEqual(a4, b4, bits, 32);
    r := BitAnd(a4, bits) == BitAnd(b4, bits);
  }

  /** The bits of byte i that the prefix of n bits covers agree. */
  ghost predicate ByteAgrees(x: Address6, y: Address6, i: nat, n: nat)
    requires i < 16
  {
    forall k: nat :: k < 8 && i * 8 + (7 - k) < n ==> (Bit(x[i], k) <==> Bit(y[i], k))
  }

  lemma BytesCover(x: Address6, y: Address6, n: nat)
    requires n <= 128
    ensures TopBits6(x, y, n) <==> forall i: nat :: i < 16 ==> ByteAgrees(x, y, i, n)
  {
    if TopBits6(x, y, n) {
      forall i: nat, k: nat | i < 16 && k < 8 && i * 8 + (7 - k) < n
        ensures Bit(x[i], k) <==> Bit(y[i], k)
      {
        var j := i * 8 + (7 - k);
        assert j / 8 == i && 7 - j % 8 == k;
        assert Bit6(x, j) <==> Bit6(y, j);
      }
    }
    if forall i: nat :: i < 16 ==> ByteAgrees(x, y, i, n) {
      forall j: nat | j < n
        ensures Bit6(x, j) <==> Bit6(y, j)
      {
        assert ByteAgrees(x, y, j / 8, n);
        assert (j / 8) * 8 + (7 - (7 - j % 8)) == j;
      }
    }
  }

  /** The IPv6 loop: whole bytes, then one partial byte under a mask. */
  method Match6(a6: Address6, b6: Address6, cidr: nat) returns (r: bool)
    requires cidr <= 128
    ensures r <==> TopBits6(a6, b6, cidr)
  {
    BytesCover(a6, b6, cidr);
    var i := 0;
    while i * 8 < cidr
      invariant 0 <= i <= 16 && i * 8 < cidr + 8
      invariant forall k: nat :: k < i ==> ByteAgrees(a6, b6, k, cidr)
      decreases cidr - i * 8
    {
      r := MatchByte(a6, b6, i, cidr);
      if !r {
        assert !ByteAgrees(a6, b6, i, cidr);
        return false;
      }
      i := i + 1;
    }
    assert forall k: nat :: i <= k < 16 ==> ByteAgrees(a6, b6, k, cidr);
    r := true;
  }

  method MatchByte(a6: Address6, b6: Address6, i: nat, cidr: nat) returns (same: bool)
    requires i * 8 < cidr <= 128
    ensures same <==> ByteAgrees(a6, b6, i, cidr)
  {
    var x, y := a6[i], b6[i];
    assert Pow(2, 8) == 256;
    if (i + 1) * 8 <= cidr {
      same := x == y;
      if ByteAgrees(a6, b6, i, cidr) { SameBits(x, y, 8); }
    } else {
      var mask := PrefixMask(cidr % 8, 8);
      MaskedEqual(x, y, mask, 8);
      same := BitAnd(x, mask) == BitAnd(y, mask);
      assert cidr % 8 == cidr - i * 8;
      assert ByteAgrees(a6, b6, i, cidr) <==> AgreeOn(x, y, mask, 8);
    }
  }

  // ---- What prefix matching promises

  function Shift(a: nat, m: nat): nat {
    if m == 0 then a else Shift(a / 2, m - 1)
  }

  lemma {:induction false} ShiftedBit(a: nat, m: nat, k: nat)
    ensures Bit(Shift(a, m), k) <==> Bit(a, m + k)
    decreases m
  {
    if m == 0 {
    } else {
      ShiftedBit(a / 2, m - 1, k);
    }
  }

  lemma {:induction false} ShiftDivides(a: nat, m: nat)
    ensures Shift(a, m) * Pow(2, m) <= a < Shift(a, m) * Pow(2, m) + Pow(2, m)
    decreases m
  {
    if m == 0 {
    } else {
      ShiftDivides(a / 2, m - 1);
      Doubled(Shift(a / 2, m - 1), Pow(2, m - 1), a);
    }
  }

  lemma Doubled(q: nat, p: nat, a: nat)
    requires q * p <= a / 2 < q * p + p
    ensures q * (2 * p) <= a < q * (2 * p) + 2 * p
  {
    MulAssoc(q, 2, p);
    var x := q * p;
    assert q * (2 * p) == 2 * x;
  }

  /** The quotient is the shift. */
  lemma ShiftIsQuotient(a: nat, m: nat)
    ensures Shift(a, m) == a / Pow(2, m)
  {
    var x := Shift(a, m);
    ShiftDivides(a, m);
    Conversions.DivModUnique(a, Pow(2, m), x, a - x * Pow(2, m));
  }

  /** Bit k of a number, in terms of division. */
  lemma BitIsQuotient(a: nat, k: nat)
    ensures Bit(a, k) <==> (a / Pow(2, k)) % 2 == 1
  {
    ShiftedBit(a, k, 0);
    ShiftIsQuotient(a, k);
  }

  /** Agreement on the top n bits is equality of the network numbers. */
  lemma TopBitsAreQuotients(a: nat, b: nat, n: nat)
    requires a < Pow(2, 32) && b < Pow(2, 32) && n <= 32
    ensures TopBits(a, b, 32, n) <==> a / Pow(2, 32 - n) == b / Pow(2, 32 - n)
  {
    SharedQuotient(a, b, 32, n);
  }

  /** The bytes as one number, the first byte the most significant. */
  function Number(x: seq<nat>): nat { if x == [] then 0 else 256 * Number(x[..|x| - 1]) + x[|x| - 1] }

  /** The same for the numbers of 128 bits. */
  lemma TopBits6AreQuotients(x: Address6, y: Address6, n: nat)
    requires n <= 128
    ensures TopBits6(x, y, n) <==> Number(x) / Pow(2, 128 - n) == Number(y) / Pow(2, 128 - n)
  {
    var a, b := Number(x), Number(y);
    NumberBelow(x);
    NumberBelow(y);
    SharedQuotient(a, b, 128, n);
    if TopBits6(x, y, n) { TopBitsOfNumbers(x, y, n); }
    if TopBits(a, b, 128, n) {
      forall j: nat | j < n
        ensures Bit6(x, j) <==> Bit6(y, j)
      {
        NumberBit6(x, j);
        NumberBit6(y, j);
      }
    }
  }

  lemma TopBitsOfNumbers(x: Address6, y: Address6, n: nat)
    requires n <= 128 && TopBits6(x, y, n)
    ensures TopBits(Number(x), Number(y), 128, n)
  {
    forall k: nat | 128 - n <= k < 128
      ensures Bit(Number(x), k) <==> Bit(Number(y), k)
    {
      NumberBit6(x, 127 - k);
      NumberBit6(y, 127 - k);
    }
  }

  lemma NumberBit6(x: Address6, j: nat)
    requires j < 128
    ensures Bit6(x, j) <==> Bit(Number(x), 127 - j)
  {
    NumberBit(x, 127 - j);
    assert (127 - j) / 8 == 15 - j / 8 && (127 - j) % 8 == 7 - j % 8;
  }

  lemma {:induction false} NumberBelow(x: seq<nat>)
    requires forall k :: 0 <= k < |x| ==> x[k] < 256
    ensures Number(x) < Pow(2, 8 * |x|)
    decreases |x|
  {
    if x == [] {
    } else {
      NumberBelow(x[..|x| - 1]);
      PowAdd(2, 8, 8 * (|x| - 1));
      assert Pow(2, 8) == 256;
      assert 8 * |x| == 8 + 8 * (|x| - 1);
    }
  }

  lemma {:induction false} NumberBit(x: seq<nat>, k: nat)
    requires forall i :: 0 <= i < |x| ==> x[i] < 256
    requires k < 8 * |x|
    ensures Bit(Number(x), k) <==> Bit(x[|x| - 1 - k / 8], k % 8)
    decreases |x|
  {
    var h, l := Number(x[..|x| - 1]), x[|x| - 1];
    assert Pow(2, 8) == 256;
    if k < 8 {
      LowBit(h, l, 8, k);
    } else {
      HighBit(h, l, 8, k - 8);
      NumberBit(x[..|x| - 1], k - 8);
      assert (k - 8) / 8 == k / 8 - 1 && (k - 8) % 8 == k % 8;
    }
  }

  lemma {:induction false} LowBit(h: nat, l: nat, m: nat, k: nat)
    requires k < m
    ensures Bit(Pow(2, m) * h + l, k) <==> Bit(l, k)
    decreases m
  {
    var p := Pow(2, m - 1) * h;
    MulAssoc(2, Pow(2, m - 1), h);
    assert Pow(2, m) * h + l == 2 * p + l;
    if k == 0 {
    } else {
      assert (2 * p + l) / 2 == p + l / 2;
      LowBit(h, l / 2, m - 1, k - 1);
    }
  }

  lemma {:induction false} HighBit(h: nat, l: nat, m: nat, k: nat)
    requires l < Pow(2, m)
    ensures Bit(Pow(2, m) * h + l, m + k) <==> Bit(h, k)
    decreases m
  {
    if m == 0 {
    } else {
      var p := Pow(2, m - 1) * h;
      MulAssoc(2, Pow(2, m - 1), h);
      assert Pow(2, m) * h + l == 2 * p + l && (2 * p + l) / 2 == p + l / 2;
      HighBit(h, l / 2, m - 1, k);
    }
  }

  lemma SameAddress(x: Address6, y: Address6)
    ensures TopBits6(x, y, 128) <==> x == y
  {
    BytesCover(x, y, 128);
    assert Pow(2, 8) == 256;
    if TopBits6(x, y, 128) {
      forall i: nat | i < 16
        ensures x[i] == y[i]
      {
        assert ByteAgrees(x, y, i, 128);
        SameBits(x[i], y[i], 8);
      }
    }
  }

  /** Two addresses have the same network number of n bits. */
  predicate SameNetwork(a: nat, b: nat, width: nat, n: nat)
    requires n <= width
  {
    a / Pow(2, width - n) == b / Pow(2, width - n)
  }

  /** IPv4 in numbers: equal without a mask, on the bits of a dotted one, or in the network of a prefix. */
  ghost predicate Same4(a: nat, b: nat, mask: Option<seq<char>>) {
    if mask.None? then a == b
    else if '.' in mask.value then
      var m := InetAddr.Meaning(mask.value);
      m.Some? && forall k: nat :: k < 32 && Bit(m.value, k) ==> (Bit(a, k) <==> Bit(b, k))
    else
      var n := WholeNumber(mask.value);
      n.Some? && n.value <= 32 && SameNetwork(a, b, 32, n.value)
  }

  /** IPv6 in numbers: equal without a mask, or in the network of a prefix. */
  predicate Same6(x: Address6, y: Address6, mask: Option<seq<char>>) {
    if mask.None? then x == y
    else
      var n := WholeNumber(mask.value);
      n.Some? && n.value <= 128 && SameNetwork(Number(x), Number(y), 128, n.value)
  }

  lemma Means4(a: nat, b: nat, mask: Option<seq<char>>)
    requires a < Pow(2, 32) && b < Pow(2, 32)
    ensures Matches4(a, b, mask) <==> Same4(a, b, mask)
  {
    if mask.Some? && '.' !in mask.value {
      var n := WholeNumber(mask.value);
      if n.Some? && n.value <= 32 { TopBitsAreQuotients(a, b, n.value); }
    }
  }

  lemma Means6(x: Address6, y: Address6, mask: Option<seq<char>>)
    ensures Matches6(x, y, mask) <==> Same6(x, y, mask)
  {
    if mask.None? {
      SameAddress(x, y);
    } else {
      var n := WholeNumber(mask.value);
      if n.Some? && n.value <= 128 { TopBits6AreQuotients(x, y, n.value); }
    }
  }

  /** What a comparison means: IPv4 if both texts are, otherwise IPv6 if both are; never of an empty text. */
  lemma MatchMeans(a: seq<char>, b: seq<char>, mask: Option<seq<char>>, pton: seq<char> -> Option<Address6>)
    ensures var x, y, u, v := InetAddr.Meaning(a), InetAddr.Meaning(b), pton(a), pton(b);
            Matches(a, b, mask, pton)
            <==> a != [] && b != [] &&
                 if x.Some? && y.Some? then Same4(x.value, y.value, mask)
                 else u.Some? && v.Some? && Same6(u.value, v.value, mask)
  {
    var x, y, u, v := InetAddr.Meaning(a), InetAddr.Meaning(b), pton(a), pton(b);
    MeaningBelow(a);
    MeaningBelow(b);
    if x.Some? && y.Some? {
      Means4(x.value, y.value, mask);
    } else if u.Some? && v.Some? {
      Means6(u.value, v.value, mask);
    }
  }

  /** So without a mask two texts match exactly when they are one address. */
  lemma UnmaskedMatch(a: seq<char>, b: seq<char>, pton: seq<char> -> Option<Address6>)
    ensures var x, y, u, v := InetAddr.Meaning(a), InetAddr.Meaning(b), pton(a), pton(b);
            Matches(a, b, None, pton)
            <==> a != [] && b != []
                 && (if x.Some? && y.Some? then x.value == y.value else u.Some? && v.Some? && u.value == v.value)
  {
    MatchMeans(a, b, None, pton);
  }

  lemma SharedQuotient(a: nat, b: nat, w: nat, n: nat)
    requires a < Pow(2, w) && b < Pow(2, w) && n <= w
    ensures TopBits(a, b, w, n) <==> a / Pow(2, w - n) == b / Pow(2, w - n)
  {
    ShiftIsQuotient(a, w - n);
    ShiftIsQuotient(b, w - n);
    TopBitsShift(a, b, w, n);
  }

  lemma TopBitsShift(a: nat, b: nat, w: nat, n: nat)
    requires a < Pow(2, w) && b < Pow(2, w) && n <= w
    ensures TopBits(a, b, w, n) <==> Shift(a, w - n) == Shift(b, w - n)
  {
    var m := w - n;
    var x, y := Shift(a, m), Shift(b, m);
    forall k: nat
      ensures Bit(x, k) <==> Bit(a, m + k)
      ensures Bit(y, k) <==> Bit(b, m + k)
    {
      ShiftedBit(a, m, k);
      ShiftedBit(b, m, k);
    }
    if TopBits(a, b, w, n) {
      ShiftBelow(a, m, w);
      ShiftBelow(b, m, w);
      SameBits(x, y, n);
    }
    if x == y {
      forall k: nat | w - n <= k < w
        ensures Bit(a, k) <==> Bit(b, k)
      {
        assert Bit(x, k - m) <==> Bit(y, k - m);
        assert m + (k - m) == k;
      }
    }
  }

  lemma {:induction false} ShiftBelow(a: nat, m: nat, w: nat)
    requires m <= w && a < Pow(2, w)
    ensures Shift(a, m) < Pow(2, w - m)
    decreases m
  {
    if m == 0 {
    } else {
      ShiftBelow(a / 2, m - 1, w - 1);
    }
  }

  /** A match at n bits is a match at every smaller n. */
  lemma MatchNarrows(a: seq<char>, b: seq<char>, mask: seq<char>, shorter: seq<char>,
                     pton: seq<char> -> Option<Address6>)
    requires Matches(a, b, Some(mask), pton) && '.' !in mask && '.' !in shorter
    requires WholeNumber(shorter).Some? && WholeNumber(shorter).value <= WholeNumber(mask).value
    ensures Matches(a, b, Some(shorter), pton)
  {
  }

  /** For a fixed mask matching is an equivalence on the addresses it accepts, when no text is both v4 and v6. */
  lemma MatchIsEquivalence(a: seq<char>, b: seq<char>, c: seq<char>, mask: Option<seq<char>>,
                           pton: seq<char> -> Option<Address6>)
    requires InetAddr.Meaning(a).None? || pton(a).None?
    requires InetAddr.Meaning(b).None? || pton(b).None?
    requires Matches(a, b, mask, pton)
    ensures Matches(b, a, mask, pton) && Matches(a, a, mask, pton)
    ensures Matches(b, c, mask, pton) ==> Matches(a, c, mask, pton)
  {
    ParsedEquivalence(Parse(a, pton), Parse(b, pton), Parse(c, pton), mask);
  }

  lemma ParsedEquivalence(p: Parsed, q: Parsed, r: Parsed, mask: Option<seq<char>>)
    requires (p.v4.None? || p.v6.None?) && (q.v4.None? || q.v6.None?)
    requires MatchesParsed(p, q, mask)
    ensures MatchesParsed(q, p, mask) && MatchesParsed(p, p, mask)
    ensures MatchesParsed(q, r, mask) ==> MatchesParsed(p, r, mask)
  {
    if q.v4.Some? {
      Equivalence4(p.v4.value, q.v4.value, if r.v4.Some? then r.v4.value else 0, mask);
    } else {
      Equivalence6(p.v6.value, q.v6.value, if r.v6.Some? then r.v6.value else q.v6.value, mask);
    }
  }

  lemma Equivalence4(a: nat, b: nat, c: nat, mask: Option<seq<char>>)
    requires Matches4(a, b, mask)
    ensures Matches4(b, a, mask) && Matches4(a, a, mask) && (Matches4(b, c, mask) ==> Matches4(a, c, mask))
  {
  }

  lemma Equivalence6(x: Address6, y: Address6, z: Address6, mask: Option<seq<char>>)
    requires Matches6(x, y, mask)
    ensures Matches6(y, x, mask) && Matches6(x, x, mask) && (Matches6(y, z, mask) ==> Matches6(x, z, mask))
  {
  }

  // ---- network_sockaddr_equal

  /** A socket address: the bytes of an IPv4 or IPv6 address, or another family. */
  datatype SockAddr = Inet(addr: seq<nat>) | Inet6(addr6: Address6) | OtherFamily

  predicate Mapped(x: Address6) { x[..12] == [0, 0, 0, 0, 0, 0, 0, 0, 0, 0, 255, 255] }

  /** network_sockaddr_equal, branch by branch. */
  predicate SockAddrEqual(x: SockAddr, y: SockAddr) {
    var a, b := if x.Inet? && y.Inet6? then y else x, if x.Inet? && y.Inet6? then x else y;
    if a.Inet6? then
      if b.Inet6? then a.addr6 == b.addr6
      else if !b.Inet? then false
      else if !Mapped(a.addr6) then false
      else a.addr6[12..] == b.addr
    else if !a.Inet? || !b.Inet? then false
    else a.addr == b.addr
  }

  /** The address meant: an IPv4 address however it is written. */
  function Canonical(x: SockAddr): Option<SockAddr> {
    match x
    case Inet(_) => Some(x)
    case Inet6(bytes) =>
      var mapped := (forall k :: 0 <= k < 10 ==> bytes[k] == 0) && bytes[10] == bytes[11] == 0xff;
      Some(if mapped then Inet(bytes[12..]) else x)
    case OtherFamily => None
  }

  lemma MappedPrefix(x: SockAddr)
    ensures x.Inet6? ==>
              (Mapped(x.addr6)
               <==> (forall k :: 0 <= k < 10 ==> x.addr6[k] == 0) && x.addr6[10] == x.addr6[11] == 0xff)
  {
    if x.Inet6? {
      var m: seq<nat> := [0, 0, 0, 0, 0, 0, 0, 0, 0, 0, 255, 255];
      assert forall k :: 0 <= k < 12 ==> x.addr6[..12][k] == x.addr6[k];
      if forall k :: 0 <= k < 12 ==> x.addr6[k] == m[k] { assert x.addr6[..12] == m; }
      if Mapped(x.addr6) { assert forall k :: 0 <= k < 12 ==> x.addr6[k] == m[k]; }
    }
  }

  /** Equality is equality of the addresses meant, so an equivalence on IP addresses, mapped or not. */
  lemma EqualIsCanonical(x: SockAddr, y: SockAddr)
    ensures SockAddrEqual(x, y) <==> Canonical(x).Some? && Canonical(x) == Canonical(y)
  {
    MappedPrefix(x);
    MappedPrefix(y);
    if x.Inet6? && y.Inet6? && Mapped(x.addr6) && Mapped(y.addr6) && x.addr6[12..] == y.addr6[12..] {
      assert x.addr6 == x.addr6[..12] + x.addr6[12..] == y.addr6;
    }
  }

  // ---- network_connect

  /** What the kernel does with one address: socket(), binding the source, connect() within the timeout. */
  datatype Attempt = Attempt(opens: bool, binds: bool, connects: bool)

  predicate Succeeds(a: Attempt) { a.opens && a.binds && a.connects }

  const INVALID_SOCKET := -1

  /** The descriptor table: which descriptors are open, and for which address of the list. */
  class Sockets {
    var open: map<int, nat>

    /** socket(): a descriptor not in use, or failure. */
    method Socket(opens: bool, index: nat) returns (fd: int)
      modifies this
      ensures opens ==> fd >= 0 && fd !in old(open) && open == old(open)[fd := index]
      ensures !opens ==> fd == INVALID_SOCKET && open == old(open)
    {
      if !opens { return INVALID_SOCKET; }
      fd := 0;
      while fd in open
        invariant fd >= 0
        decreases set k | k in open && k >= fd
      {
        ghost var above := set k | k in open && k >= fd;
        fd := fd + 1;
        assert (set k | k in open && k >= fd) == above - {fd - 1};
      }
      open := open[fd := index];
    }

    /** close(): only of an open descriptor, so none is closed twice. */
    method Close(fd: int)
      requires fd in open
      modifies this
      ensures open == old(open) - {fd}
    {
      open := open - {fd};
    }

    /**
     network_connect: the descriptor of the first address that succeeds is the only one left open;
     without one the table is as it was.
     */
    method Connect(ai: seq<Attempt>) returns (fd: int)
      requires INVALID_SOCKET !in open
      modifies this
      ensures fd == INVALID_SOCKET ==>
                && open == old(open)
                && forall k :: 0 <= k < |ai| ==> !(ai[k].opens && ai[k].binds && ai[k].connects)
      ensures fd != INVALID_SOCKET ==>
                && fd !in old(open) && fd in open && open == old(open)[fd := open[fd]]
                && open[fd] < |ai| && ai[open[fd]].opens && ai[open[fd]].binds && ai[open[fd]].connects
                && forall k :: 0 <= k < open[fd] ==> !(ai[k].opens && ai[k].binds && ai[k].connects)
    {
      fd := INVALID_SOCKET;
      var connected, i := false, 0;
      while !connected && i < |ai|
        invariant 0 <= i <= |ai|
        invariant fd == INVALID_SOCKET ==> open == old(open) && !connected
        invariant fd != INVALID_SOCKET ==> i > 0 && fd !in old(open) && open == old(open)[fd := i - 1]
        invariant forall k :: 0 <= k < (if connected then i - 1 else i) ==> !Succeeds(ai[k])
        invariant connected ==> Succeeds(ai[i - 1])
        decreases |ai| - i, !connected
      {
        if fd != INVALID_SOCKET { Close(fd); }
        assert open == old(open);
        fd := Socket(ai[i].opens, i);
        if fd != INVALID_SOCKET && ai[i].binds { connected := ai[i].connects; }
        i := i + 1;
      }
      if !connected && fd != INVALID_SOCKET {
        Close(fd);
        assert open == old(open);
        fd := INVALID_SOCKET;
      }
    }
  }

  // ---- socket_xread

  const READ_TRIES := 100

  /** An input descriptor: the bytes it has delivered and the replies it gave. */
  class InputStream {
    ghost var delivered: seq<byte>
    ghost var log: seq<Reply>

    /** read(2): at most n bytes, none at end of file; EINTR and EAGAIN count as interrupted. */
    method Read(n: nat) returns (r: Reply, data: seq<byte>)
      modifies this
      ensures |data| == Amount(r) <= n
      ensures delivered == old(delivered) + data && log == old(log) + [r]
    {
      data := *;
      r := *;
      if r.Took? {
        if |data| > n { data := data[..n]; }
        r := Took(|data|);
      } else {
        data := [];
      }
      delivered, log := delivered + data, log + [r];
    }
  }

  /** A read gives up at end of file, on an error, or after `tries` interruptions in a row. */
  predicate ReadGaveUp(log: seq<Reply>, tries: nat) {
    || (log != [] && (log[|log| - 1].Failed? || log[|log| - 1] == Took(0)))
    || (|log| >= tries && forall k :: |log| - tries <= k < |log| ==> log[k].Interrupted?)
  }

  /** One read into the buffer at an offset. */
  method ReadInto(fd: InputStream, buffer: array<byte>, total: nat) returns (r: Reply, ghost data: seq<byte>)
    requires total <= buffer.Length
    modifies fd, buffer
    ensures |data| == Amount(r) <= buffer.Length - total
    ensures fd.delivered == old(fd.delivered) + data && fd.log == old(fd.log) + [r]
    ensures buffer[..total + |data|] == old(buffer[..total]) + data
    ensures buffer[total + |data|..] == old(buffer[total + |data|..])
  {
    var bytes;
    r, bytes := fd.Read(buffer.Length - total);
    data := bytes;
    forall k | 0 <= k < |bytes| { buffer[total + k] := bytes[k]; }
  }

  /** Every call is paid for: a hundred per byte, and `count` interruptions since the last one. */
  ghost predicate ReadPaid(log: seq<Reply>, done: nat, count: nat) {
    && |log| <= READ_TRIES * done + count && count <= |log|
    && forall k :: |log| - count <= k < |log| ==> log[k].Interrupted?
  }

  /** socket_xread: success exactly when the buffer is full, within a hundred calls a byte. */
  method SocketXRead(fd: InputStream, buffer: array<byte>)
    returns (result: int, epipe: bool, ghost got: seq<byte>, ghost log: seq<Reply>)
    modifies fd, buffer
    ensures fd.delivered == old(fd.delivered) + got && fd.log == old(fd.log) + log
    ensures |got| <= buffer.Length && buffer[..|got|] == got && buffer[|got|..] == old(buffer[|got|..])
    ensures result == if |got| == buffer.Length then buffer.Length else -1
    ensures |log| <= 100 * buffer.Length
    ensures buffer.Length > 0 ==> (result == -1 <==> ReadGaveUp(log, 100))
    ensures epipe <==> result == -1 && !log[|log| - 1].Failed?
  {
    var total, count := 0, 0;
    epipe, got, log := false, [], [];
    while total < buffer.Length
      invariant 0 <= total == |got| <= buffer.Length && 0 <= count <= READ_TRIES && !epipe
      invariant fd.delivered == old(fd.delivered) + got && fd.log == old(fd.log) + log
      invariant buffer[..total] == got && buffer[total..] == old(buffer[total..])
      invariant ReadPaid(log, total, count)
      invariant total == buffer.Length ==> count == 0 && (buffer.Length > 0 ==> Progressed(log))
      decreases buffer.Length - total, READ_TRIES - count
    {
      count := count + 1;
      if count > READ_TRIES {
        epipe := true;
        break;
      }
      var r;
      ghost var data;
      r, data := ReadInto(fd, buffer, total);
      log, got := log + [r], got + data;
      if !r.Took? || r.n == 0 {
        if r.Interrupted? { continue; }
        epipe := r.Took?;
        break;
      }
      count, total := 0, total + r.n;
    }
    result := if total < buffer.Length then -1 else total;
  }
}
