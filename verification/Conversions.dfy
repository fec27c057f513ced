/** The integer, string and %f conversions of snprintf.c, each over the bounded output. */
module Conversions {
  import opened Common
  import opened Numerals
  import opened BoundedOutput

  datatype Flags = Flags(minus: bool, plus: bool, space: bool, num: bool, zero: bool)

  const TWO_63 := 0x8000_0000_0000_0000
  const TWO_64 := 0x1_0000_0000_0000_0000
  const MAX_DIGITS := 18
  const SCRATCH := 24

  /** An unsigned 64-bit value stored in a signed one, and back. */
  function ToSigned(v: int): int { if v >= TWO_63 then v - TWO_64 else v }

  function ToUnsigned(v: int): int { if v < 0 then v + TWO_64 else v }

  function Sign(negative: bool, signed: bool, flags: Flags): (s: seq<char>)
    ensures |s| <= 1 && '0' !in s
  {
    if !signed then []
    else if negative then "-"
    else if flags.plus then "+"
    else if flags.space then " "
    else []
  }

  /** The number an integer conversion prints: unsigned ones reread the 64 bits. */
  function Magnitude(value: int, signed: bool): (m: nat)
    requires -TWO_63 <= value < TWO_63
    ensures m < TWO_64
  {
    if !signed then ToUnsigned(value) else if value < 0 then -value else value
  }

  /** Zeros between the sign and the digits. */
  function IntZeros(sign: seq<char>, digits: seq<char>, min: int, max: int, flags: Flags): nat {
    var zeros := Max(Max(max, 0) - |digits|, 0);
    if flags.zero then Max(zeros, min - Max(Max(max, 0), |digits|) - |sign|) else zeros
  }

  /** Spaces around the number: before it, or after it when negative. */
  function IntSpaces(sign: seq<char>, digits: seq<char>, min: int, max: int, flags: Flags): int {
    var spaces := Max(min - Max(Max(max, 0), |digits|) - |sign|, 0);
    if flags.zero then 0 else if flags.minus then -spaces else spaces
  }

  function Layout(sign: seq<char>, digits: seq<char>, spaces: int, zeros: int): seq<char> {
    Fill(' ', spaces) + sign + Fill('0', zeros) + digits + Fill(' ', -spaces)
  }

  /** The text of fmtint for a sign and the digits of the magnitude. */
  function IntText(sign: seq<char>, digits: seq<char>, min: int, max: int, flags: Flags): seq<char> {
    Layout(sign, digits, IntSpaces(sign, digits, min, max, flags), IntZeros(sign, digits, min, max, flags))
  }

  /** fmtint: print `value` in `base`. */
  method FmtInt(out: Output, value: int, base: nat, min: int, max: int, flags: Flags, signed: bool, upper: bool)
    returns (total: nat)
    requires out.Valid()
    requires base == 8 || base == 10 || base == 16
    requires -TWO_63 <= value < TWO_63 && (signed ==> value != -TWO_63)
    modifies out, out.buffer
    ensures out.Valid()
    ensures var sign := if signed && value < 0 then "-" else if signed && flags.plus then "+"
                        else if signed && flags.space then " " else [];
            var t := IntText(sign, Digits(Magnitude(value, signed), base, upper), min, max, flags);
            out.text == old(out.text) + t && total == |t|
  {
    var prec := Max(max, 0);
    var sign := Sign(value < 0, signed, flags);
    var uvalue := Magnitude(value, signed);
    DigitsOf64Bits(uvalue, base, upper);
    var convert, place := FillScratch(uvalue, base, upper);
    ghost var digits := Digits(uvalue, base, upper);

    var zpadlen := Max(prec - place, 0);
    var spadlen := Max(min - Max(prec, place) - |sign|, 0);
    if flags.zero {
      zpadlen := Max(zpadlen, spadlen);
      spadlen := 0;
    }
    if flags.minus { spadlen := -spadlen; }
    assert zpadlen == IntZeros(sign, digits, min, max, flags);
    assert spadlen == IntSpaces(sign, digits, min, max, flags);
    total := EmitNumber(out, sign, spadlen, zpadlen, convert, place, digits);
  }

  /** The emission loops of fmtint; a negative `spadlen` pads on the right. */
  method EmitNumber(out: Output, sign: seq<char>, spadlen: int, zpadlen: int,
                    convert: array<char>, place: nat, ghost digits: seq<char>)
    returns (total: nat)
    requires out.Valid() && |sign| <= 1
    requires Scratch(convert, place, digits) && convert != out.buffer
    modifies out, out.buffer
    ensures out.Valid()
    ensures var t := Layout(sign, digits, spadlen, zpadlen);
            out.text == old(out.text) + t && total == |t|
  {
    var n := out.Repeat(' ', spadlen);
    total := n;
    n := EmitSign(out, sign);
    total := total + n;
    n := out.Repeat('0', zpadlen);
    total := total + n;
    n := EmitReversed(out, convert, place, digits);
    total := total + n;
    n := out.Repeat(' ', -spadlen);
    total := total + n;
    Regroup(old(out.text), Fill(' ', spadlen), sign, Fill('0', zpadlen), digits, Fill(' ', -spadlen));
  }

  method EmitSign(out: Output, sign: seq<char>) returns (n: nat)
    requires out.Valid() && |sign| <= 1
    modifies out, out.buffer
    ensures out.Valid() && out.text == old(out.text) + sign && n == |sign|
  {
    n := 0;
    if sign != [] { n := out.Outch(sign[0]); }
  }

  lemma Regroup(a: seq<char>, b: seq<char>, c: seq<char>, d: seq<char>, e: seq<char>, f: seq<char>)
    ensures a + b + c + d + e + f == a + (b + c + d + e + f)
  {
  }

  /** The digit loops of fmtint and fmtfp: least significant first, into 24 bytes that suffice. */
  method FillScratch(value: nat, base: nat, upper: bool) returns (convert: array<char>, place: nat)
    requires 2 <= base <= 16
    requires |Digits(value, base, upper)| < SCRATCH
    ensures fresh(convert) && Scratch(convert, place, Digits(value, base, upper))
  {
    convert := new char[SCRATCH];
    place := 0;
    var uvalue: nat := value;
    ghost var digits := Digits(value, base, upper);
    var more := true;
    while more
      invariant place <= |digits|
      invariant forall k :: 0 <= k < place ==> convert[k] == digits[|digits| - 1 - k]
      invariant more <==> place < |digits|
      invariant more ==> digits[..|digits| - place] == Digits(uvalue, base, upper)
      decreases |digits| - place
    {
      DigitStep(uvalue, base, upper);
      convert[place] := DigitChar(uvalue % base, upper);
      place, uvalue := place + 1, uvalue / base;
      more := uvalue != 0 && place < SCRATCH;
    }
    var last: int := if place == SCRATCH then SCRATCH - 1 else place;
    convert[last] := '\0';
    place := last;
  }

  /** `convert` holds the digits in reverse, with room left for a nul. */
  ghost predicate Scratch(convert: array<char>, place: nat, digits: seq<char>)
    reads convert
  {
    place == |digits| < SCRATCH == convert.Length && forall k :: 0 <= k < place ==> convert[k] == digits[place - 1 - k]
  }

  /** No 64-bit magnitude needs more than 22 digits. */
  lemma DigitsOf64Bits(value: nat, base: nat, upper: bool)
    requires value < TWO_64 && (base == 8 || base == 10 || base == 16)
    ensures |Digits(value, base, upper)| <= 22
  {
    PowAdd(8, 11, 11);
    PowAdd(10, 10, 10);
    PowAdd(16, 8, 8);
    assert Pow(8, 11) == 0x2_0000_0000 && Pow(10, 10) == 10_000_000_000 && Pow(16, 8) == 0x1_0000_0000;
    DigitsFit(value, base, upper, if base == 8 then 22 else if base == 10 then 20 else 16);
  }

  method EmitReversed(out: Output, convert: array<char>, count: nat, ghost digits: seq<char>) returns (n: nat)
    requires out.Valid() && Scratch(convert, count, digits) && convert != out.buffer
    modifies out, out.buffer
    ensures out.Valid() && out.text == old(out.text) + digits && n == count
  {
    var place := count;
    n := 0;
    while place > 0
      invariant out.Valid() && Scratch(convert, count, digits)
      invariant 0 <= place <= count && n == count - place
      invariant out.text == old(out.text) + digits[..n]
    {
      place := place - 1;
      var one := out.Outch(convert[place]);
      n := n + one;
    }
  }

  // ---- %s

  /** The characters fmtstr prints: a null pointer reads "(null)", a precision cuts. */
  function Shown(value: Option<seq<char>>, max: int): seq<char> {
    var s := if value.Some? then value.value else "(null)";
    if max < 0 then s else s[..Min(max, |s|)]
  }

  function StrText(value: Option<seq<char>>, min: int, max: int, flags: Flags): seq<char> {
    var s := Shown(value, max);
    var pad := if flags.minus then -Max(min - |s|, 0) else Max(min - |s|, 0);
    Fill(' ', pad) + s + Fill(' ', -pad)
  }

  method FmtStr(out: Output, value: Option<seq<char>>, flags: Flags, min: int, max: int) returns (total: nat)
    requires out.Valid()
    modifies out, out.buffer
    ensures out.Valid()
    ensures out.text == old(out.text) + StrText(value, min, max, flags) && total == |StrText(value, min, max, flags)|
  {
    var s := if value.Some? then value.value else "(null)";
    assert Shown(Some(s), max) == Shown(value, max);
    var strln := StrLength(s, max);
    total := EmitPadded(out, s, max, if flags.minus then -Max(min - strln, 0) else Max(min - strln, 0));
  }

  method EmitPadded(out: Output, s: seq<char>, max: int, padlen: int) returns (total: nat)
    requires out.Valid()
    modifies out, out.buffer
    ensures out.Valid()
    ensures var t := Fill(' ', padlen) + Shown(Some(s), max) + Fill(' ', -padlen);
            out.text == old(out.text) + t && total == |t|
  {
    var n := out.Repeat(' ', padlen);
    total := n;
    n := EmitPrefix(out, s, max);
    total := total + n;
    n := out.Repeat(' ', -padlen);
    total := total + n;
  }

  /** strlen, or with a precision the loop that never reads past it. */
  method StrLength(s: seq<char>, max: int) returns (strln: nat)
    ensures strln == |Shown(Some(s), max)|
  {
    if max < 0 { return |s|; }
    strln := 0;
    while strln < max && strln < |s|
      invariant strln <= Min(max, |s|)
    {
      strln := strln + 1;
    }
  }

  method EmitPrefix(out: Output, s: seq<char>, max: int) returns (cnt: nat)
    requires out.Valid()
    modifies out, out.buffer
    ensures out.Valid() && out.text == old(out.text) + Shown(Some(s), max) && cnt == |Shown(Some(s), max)|
  {
    cnt := 0;
    while cnt < |s| && (max < 0 || cnt < max)
      invariant out.Valid() && cnt <= |Shown(Some(s), max)|
      invariant out.text == old(out.text) + s[..cnt]
    {
      var one := out.Outch(s[cnt]);
      cnt := cnt + one;
    }
    assert s[..cnt] == Shown(Some(s), max);
  }

  // ---- %f, over exact reals

  function Abs(x: real): real { if x < 0.0 then -x else x }

  /** The nearest integer to a nonnegative real, halves up. */
  function RoundHalfUp(y: real): (n: int)
    ensures n as real - 0.5 <= y < n as real + 0.5
  {
    (y + 0.5).Floor
  }

  function Precision(max: int): nat {
    if max < 0 then 6 else Min(max, MAX_DIGITS)
  }

  /** |x| in units of the last printed place. */
  function Scaled(x: real, p: nat): (n: nat)
  {
    RoundHalfUp(Pow(10, p) as real * Abs(x))
  }

  /** The integer part of the rounded number, and its fraction in units of the last place. */
  function Parts(x: real, p: nat): (r: (nat, nat))
    ensures Scaled(x, p) == r.0 * Pow(10, p) + r.1 && r.1 < Pow(10, p)
  {
    var n, m := Scaled(x, p), Pow(10, p);
    Division(n, m);
    (n / m, n % m)
  }

  lemma Division(n: nat, m: nat)
    requires m >= 1
    ensures n == (n / m) * m + n % m && n % m < m
  {
  }

  /** The point and exactly p decimals, leading zeros included; nothing when p is zero. */
  function Fraction(fracpart: nat, p: nat): seq<char> {
    if p == 0 then [] else "." + Decimals(fracpart, p)
  }

  function Decimals(fracpart: nat, p: nat): seq<char> {
    var d := Digits(fracpart, 10, false);
    Fill('0', p - |d|) + d
  }

  /** What precedes the digits: the zero padding gives up one place to a sign that was already counted. */
  function FloatHead(sign: seq<char>, pad: int, flags: Flags): seq<char> {
    if flags.minus then sign
    else if flags.zero then sign + Fill('0', pad - |sign|)
    else Fill(' ', pad) + sign
  }

  /** The head, the number and, when justified left, the padding after it. */
  function Padded(sign: seq<char>, pad: int, flags: Flags, whole: seq<char>, fraction: seq<char>): seq<char> {
    FloatHead(sign, pad, flags) + whole + fraction + Fill(' ', if flags.minus then pad else 0)
  }

  function FloatLayout(sign: seq<char>, pad: int, flags: Flags, intpart: nat, fracpart: nat, p: nat): seq<char> {
    Padded(sign, pad, flags, Digits(intpart, 10, false), Fraction(fracpart, p))
  }

  /** The padding always leaves room for a point, even when none is printed. */
  function FloatPad(sign: seq<char>, whole: seq<char>, p: nat, min: int): int { Max(min - |whole| - p - 1 - |sign|, 0) }

  function FloatForm(sign: seq<char>, intpart: nat, fracpart: nat, p: nat, min: int, flags: Flags): seq<char> {
    FloatLayout(sign, FloatPad(sign, Digits(intpart, 10, false), p, min), flags, intpart, fracpart, p)
  }

  /** The text of fmtfp. */
  function FloatText(x: real, min: int, max: int, flags: Flags): seq<char> {
    var p := Precision(max);
    var (intpart, fracpart) := Parts(x, p);
    FloatForm(Sign(x < 0.0, true, flags), intpart, fracpart, p, min, flags)
  }

  /** pow10_int */
  method Pow10Int(exp: nat) returns (result: real)
    ensures result == Pow(10, exp) as real
  {
    result := 1.0;
    var left := exp;
    while left != 0
      invariant 0 <= left <= exp && result == Pow(10, exp - left) as real
    {
      result, left := result * 10.0, left - 1;
    }
  }

  /** round_int, by truncation and a comparison with one half */
  method RoundInt(value: real) returns (n: int)
    requires value >= 0.0
    ensures n == RoundHalfUp(value)
  {
    n := value.Floor;
    if value - n as real >= 0.5 { n := n + 1; }
  }

  /** Rounding the fraction alone and carrying gives the parts of the rounded whole number. */
  lemma SplitRounding(u: real, ip: nat, m: nat, fr: int)
    requires ip as real <= u < ip as real + 1.0 && m >= 1
    requires fr == RoundHalfUp(m as real * (u - ip as real))
    ensures 0.0 <= m as real * (u - ip as real)
    ensures 0 <= fr <= m && RoundHalfUp(m as real * u) == ip * m + fr
  {
    var f := u - ip as real;
    var y := m as real * f;
    assert 0.0 <= y < m as real;
    assert m as real * u == (ip * m) as real + y;
  }

  /** The integer and fraction parts of fmtfp: the fraction is rounded as an integer, and may carry. */
  method SplitNumber(x: real, p: nat) returns (intpart: nat, fracpart: nat)
    requires Abs(x) + 1.0 < TWO_63 as real
    ensures (intpart, fracpart) == Parts(x, p)
    ensures intpart < TWO_64
  {
    var whole := Abs(x).Floor;
    var mask10, rounded := RoundFraction(x, whole, p);
    if rounded >= mask10 {
      intpart, fracpart := whole + 1, rounded - mask10;
    } else {
      intpart, fracpart := whole, rounded;
    }
    Carry(Scaled(x, p), whole, rounded, mask10);
  }

  lemma Carry(n: nat, q: nat, r: nat, m: nat)
    requires m >= 1 && r <= m && n == q * m + r
    ensures n / m == (if r == m then q + 1 else q) && n % m == (if r == m then 0 else r)
  {
    assert (q + 1) * m == q * m + m;
    DivModUnique(n, m, if r == m then q + 1 else q, if r == m then 0 else r);
  }

  method RoundFraction(x: real, whole: nat, p: nat) returns (mask10: nat, rounded: nat)
    requires whole as real <= Abs(x) < whole as real + 1.0
    ensures mask10 == Pow(10, p) && rounded <= mask10
    ensures Scaled(x, p) == whole * mask10 + rounded
  {
    var u := Abs(x);
    var mask := Pow10Int(p);
    mask10 := mask.Floor;
    assert mask == mask10 as real;
    var scaled := mask10 as real * (u - whole as real);
    SplitRounding(u, whole, mask10, RoundHalfUp(scaled));
    rounded := RoundInt(scaled);
  }

  /** Divide the mask down until the fraction fills it. */
  method LeadingZeros(fracpart: nat, p: nat) returns (zeros: nat)
    requires 0 < fracpart < Pow(10, p)
    ensures zeros == p - |Digits(fracpart, 10, false)|
  {
    zeros := 0;
    var mask10 := Pow(10, p);
    assert p > 0;
    while fracpart < mask10 / 10
      invariant zeros < p && mask10 == Pow(10, p - zeros) == 10 * Pow(10, p - zeros - 1)
      invariant fracpart < mask10
    {
      zeros, mask10 := zeros + 1, mask10 / 10;
      assert Pow(10, p - zeros) > 1;
    }
    DigitsFit(fracpart, 10, false, p - zeros);
    DigitsReach(fracpart, 10, false, p - zeros);
  }

  lemma SmallMultiple(d: int, m: int)
    requires m >= 1 && -m < m * d < m
    ensures d == 0
  {
    MulOrder(m, d, 1);
    MulOrder(m, -1, d);
  }

  lemma DivModUnique(n: nat, m: nat, q: nat, r: nat)
    requires m >= 1 && n == q * m + r && r < m
    ensures n / m == q && n % m == r
  {
    var d := n / m - q;
    assert m * d == m * (n / m) - m * q;
    SmallMultiple(d, m);
  }

  /** The scratch of a fraction: its digits after the zeros that bring them to p places, if not zero. */
  ghost predicate FractionScratch(fconvert: array<char>, fplace: nat, fracpart: nat, p: nat)
    reads fconvert
  {
    Scratch(fconvert, fplace, if fracpart == 0 then "0" else Decimals(fracpart, p))
  }

  /** The fraction digits followed by its leading zeros, in the reverse order of the scratch. */
  method FillFraction(fracpart: nat, p: nat) returns (fconvert: array<char>, fplace: nat)
    requires p <= MAX_DIGITS && fracpart < Pow(10, p)
    ensures fresh(fconvert) && FractionScratch(fconvert, fplace, fracpart, p)
  {
    var leadingfrac0s := 0;
    if fracpart != 0 { leadingfrac0s := LeadingZeros(fracpart, p); }
    DigitsFit(fracpart, 10, false, Max(p, 1));
    fconvert, fplace := FillScratch(fracpart, 10, false);
    fplace := AppendZeros(fconvert, fplace, leadingfrac0s, Digits(fracpart, 10, false));
  }

  /** Zeros at the far end of the scratch stand in front of its digits. */
  method AppendZeros(fconvert: array<char>, place: nat, zeros: nat, ghost digits: seq<char>) returns (fplace: nat)
    requires Scratch(fconvert, place, digits) && place + zeros < SCRATCH
    modifies fconvert
    ensures Scratch(fconvert, fplace, Fill('0', zeros) + digits)
  {
    fplace := place;
    var left := zeros;
    while left > 0 && fplace < SCRATCH
      invariant 0 <= left <= zeros && fplace == place + zeros - left
      invariant forall k :: 0 <= k < place ==> fconvert[k] == digits[place - 1 - k]
      invariant forall k :: place <= k < fplace ==> fconvert[k] == '0'
    {
      fconvert[fplace] := '0';
      fplace, left := fplace + 1, left - 1;
    }
    fconvert[fplace] := '\0';
  }

  method EmitHead(out: Output, sign: seq<char>, pad: nat, flags: Flags) returns (total: nat)
    requires out.Valid() && |sign| <= 1
    modifies out, out.buffer
    ensures out.Valid()
    ensures out.text == old(out.text) + FloatHead(sign, pad, flags) && total == |FloatHead(sign, pad, flags)|
  {
    var padlen := if flags.minus then 0 else pad;
    var left := sign;
    total := 0;
    if flags.zero && padlen > 0 {
      if left != [] {
        total := out.Outch(left[0]);
        padlen, left := padlen - 1, [];
      }
      var n := out.Repeat('0', padlen);
      total, padlen := total + n, 0;
    }
    var n := out.Repeat(' ', padlen);
    total := total + n;
    if left != [] {
      n := out.Outch(left[0]);
      total := total + n;
    }
  }

  /** The point, the scratch digits and the zeros that fill a fraction of zero. */
  method EmitFraction(out: Output, fconvert: array<char>, fplace: nat, fracpart: nat, p: nat) returns (total: nat)
    requires out.Valid() && fconvert != out.buffer && (p == 0 ==> fracpart == 0)
    requires FractionScratch(fconvert, fplace, fracpart, p)
    modifies out, out.buffer
    ensures out.Valid()
    ensures var t := Fraction(fracpart, p);
            out.text == old(out.text) + t && total == |t|
  {
    ghost var scratch := if fracpart == 0 then "0" else Decimals(fracpart, p);
    var zpadlen := Max(p - fplace, 0);
    total := 0;
    ghost var written := [];
    if p > 0 && (fplace > 0 || zpadlen > 0) {
      total := EmitPointAnd(out, fconvert, fplace, scratch);
      written := "." + scratch;
      FillDecimals(fracpart, p);
    }
    assert Fraction(fracpart, p) == written + Fill('0', zpadlen);
    assert out.text == old(out.text) + written && total == |written|;
    var n := out.Repeat('0', zpadlen);
    total := total + n;
  }

  method EmitPointAnd(out: Output, fconvert: array<char>, fplace: nat, ghost digits: seq<char>) returns (total: nat)
    requires out.Valid() && fconvert != out.buffer && Scratch(fconvert, fplace, digits)
    modifies out, out.buffer
    ensures out.Valid() && out.text == old(out.text) + ("." + digits) && total == 1 + fplace
  {
    total := out.Outch('.');
    var n := EmitReversed(out, fconvert, fplace, digits);
    total := total + n;
  }

  lemma FillDecimals(fracpart: nat, p: nat)
    requires p > 0
    ensures var scratch := if fracpart == 0 then "0" else Decimals(fracpart, p);
            "." + scratch + Fill('0', p - |scratch|) == Fraction(fracpart, p)
  {
  }

  /** fmtfp without %g: sign, integer part, point and decimals, padded. */
  method FmtFp(out: Output, fvalue: real, min: int, max: int, flags: Flags) returns (total: nat)
    requires out.Valid() && Abs(fvalue) + 1.0 < TWO_63 as real
    modifies out, out.buffer
    ensures out.Valid()
    ensures out.text == old(out.text) + FloatText(fvalue, min, max, flags)
            && total == |FloatText(fvalue, min, max, flags)|
  {
    var p := Precision(max);
    var sign := Sign(fvalue < 0.0, true, flags);
    var intpart, fracpart := SplitNumber(fvalue, p);
    DigitsOf64Bits(intpart, 10, false);
    var iconvert, iplace := FillScratch(intpart, 10, false);
    var fconvert, fplace := FillFraction(fracpart, p);
    var padlen := Max(min - iplace - p - 1 - |sign|, 0);
    assert padlen == FloatPad(sign, Digits(intpart, 10, false), p, min);
    assert FloatText(fvalue, min, max, flags) == FloatLayout(sign, padlen, flags, intpart, fracpart, p);
    total := EmitFloat(out, sign, padlen, flags, iconvert, iplace, fconvert, fplace, intpart, fracpart, p);
  }

  /** The emission of fmtfp. */
  method EmitFloat(out: Output, sign: seq<char>, pad: nat, flags: Flags, iconvert: array<char>, iplace: nat,
                   fconvert: array<char>, fplace: nat, ghost intpart: nat, fracpart: nat, p: nat)
    returns (total: nat)
    requires out.Valid() && |sign| <= 1 && (p == 0 ==> fracpart == 0)
    requires Scratch(iconvert, iplace, Digits(intpart, 10, false)) && iconvert != out.buffer
    requires FractionScratch(fconvert, fplace, fracpart, p) && fconvert != out.buffer
    modifies out, out.buffer
    ensures out.Valid()
    ensures var t := FloatLayout(sign, pad, flags, intpart, fracpart, p);
            out.text == old(out.text) + t && total == |t|
  {
    ghost var head, whole, fraction := FloatHead(sign, pad, flags), Digits(intpart, 10, false), Fraction(fracpart, p);
    total := EmitHead(out, sign, pad, flags);
    var n := EmitReversed(out, iconvert, iplace, whole);
    total := total + n;
    n := EmitFraction(out, fconvert, fplace, fracpart, p);
    total := total + n;
    var right := if flags.minus then pad else 0;
    n := out.Repeat(' ', right);
    total := total + n;
    Regroup(old(out.text), head, whole, fraction, Fill(' ', right), []);
    assert head + whole + fraction + Fill(' ', right) + [] == head + whole + fraction + Fill(' ', right);
  }
}
