/**
 What section 7.19.6.1 of C99 asks of each conversion, and exactly when the conversions of
 snprintf.c print it.
 */
module C99Layout {
  import opened Common
  import opened Numerals
  import opened Conversions

  /** A width as asked for: a negative one, from a star, is the minus flag and a positive width. */
  function Width(width: int): nat { if width < 0 then -width else width }

  /** Right, zero or left padding around a sign or prefix and a body. */
  function Justified(sign: seq<char>, body: seq<char>, width: int, left: bool, zeros: bool): seq<char> {
    var pad := width - |sign| - |body|;
    if left then sign + body + Fill(' ', pad)
    else if zeros then sign + Fill('0', pad) + body
    else Fill(' ', pad) + sign + body
  }

  // ---- The sign and the digits of a number

  /** A minus for a signed negative value, else what the flags ask of a signed one, the plus before the space. */
  function SignAsked(negative: bool, signed: bool, flags: Flags): (s: seq<char>)
    ensures |s| <= 1 && '0' !in s && '.' !in s
  {
    if signed && negative then "-"
    else if signed && flags.plus then "+"
    else if signed && flags.space then " "
    else []
  }

  const LOWER := "0123456789abcdef"
  const UPPER := "0123456789ABCDEF"

  function Letter(d: nat, upper: bool): char
    requires d < 16
  {
    if upper then UPPER[d] else LOWER[d]
  }

  /** The number written in the base, with the letters abcdef or ABCDEF. */
  function DigitsAsked(n: nat, base: nat, upper: bool): (s: seq<char>)
    requires 2 <= base <= 16
    ensures |s| >= 1
  {
    (if n < base then [] else DigitsAsked(n / base, base, upper)) + [Letter(n % base, upper)]
  }

  lemma LetterPrinted(d: nat, upper: bool)
    requires d < 16
    ensures DigitChar(d, upper) == Letter(d, upper)
  {
    assert d as char as int == d;
    if d >= 10 { assert (d - 10) as char as int == d - 10; }
  }

  lemma {:induction false} DigitsPrinted(n: nat, base: nat, upper: bool)
    requires 2 <= base <= 16
    ensures Digits(n, base, upper) == DigitsAsked(n, base, upper)
    decreases n
  {
    DivMod(n, base);
    LetterPrinted(n % base, upper);
    if n >= base { DigitsPrinted(n / base, base, upper); }
  }

  // ---- d, i, o, u, x, X

  /** At least `prec` digits; none for a zero of precision zero. */
  function AtLeast(value: nat, digits: seq<char>, prec: int): seq<char> {
    if value == 0 && prec == 0 then [] else Fill('0', prec - |digits|) + digits
  }

  /** The alternative form of an octal number starts with a zero. */
  function IntBody(value: nat, digits: seq<char>, base: nat, prec: int, flags: Flags): seq<char> {
    var body := AtLeast(value, digits, prec);
    if flags.num && base == 8 && (body == [] || body[0] != '0') then "0" + body else body
  }

  /** The alternative form of a hexadecimal number other than zero. */
  function Prefix(value: nat, base: nat, upper: bool, flags: Flags): seq<char> {
    if flags.num && base == 16 && value != 0 then if upper then "0X" else "0x" else []
  }

  /** `prec` is negative when omitted. */
  function IntReference(sign: seq<char>, value: nat, digits: seq<char>, base: nat, upper: bool,
                        width: int, prec: int, flags: Flags): seq<char> {
    Justified(sign + Prefix(value, base, upper, flags), IntBody(value, digits, base, prec, flags),
              Width(width), flags.minus || width < 0, flags.zero && prec < 0)
  }

  /** The padding goes astray: a negative width is dropped, the zero flag wins over minus and precision. */
  predicate IntMisplaced(length: nat, width: int, prec: int, flags: Flags) {
    Width(width) > length && (width < 0 || (flags.zero && (flags.minus || prec >= 0)))
  }

  /** Zero padding happens to supply the leading zero of the alternative octal form. */
  predicate OctalByPadding(digits: nat, width: int, prec: int, flags: Flags) {
    flags.zero && width > digits && (width == digits + 1 || (prec < 0 && !flags.minus))
  }

  /** The calls on which fmtint departs from the standard. */
  predicate IntDeparts(sign: seq<char>, value: nat, digits: seq<char>, base: nat, width: int, prec: int, flags: Flags) {
    if value == 0 && prec == 0 && !(flags.num && base == 8) then true
    else if flags.num && base == 16 && value != 0 then true
    else if flags.num && base == 8 && value != 0 && prec <= |digits| then !OctalByPadding(|digits|, width, prec, flags)
    else IntMisplaced(|sign| + Max(prec, |digits|), width, prec, flags)
  }

  /** fmtint prints what C99 asks exactly outside those calls; it takes an omitted precision as zero. */
  lemma IntMeetsC99(sign: seq<char>, value: nat, base: nat, upper: bool, width: int, max: int, prec: int, flags: Flags)
    requires (base == 8 || base == 10 || base == 16) && |sign| <= 1 && '0' !in sign && (base != 10 ==> sign == [])
    requires Max(max, 0) == Max(prec, 0)
    ensures var d := DigitsAsked(value, base, upper);
            IntText(sign, d, width, max, flags) == IntReference(sign, value, d, base, upper, width, prec, flags)
            <==> !IntDeparts(sign, value, d, base, width, prec, flags)
  {
    DigitsPrinted(value, base, upper);
    DigitsDenote(value, base, upper);
    assert value == 0 ==> Digits(value, base, upper) == "0";
    CasesMeetC99(sign, value, Digits(value, base, upper), base, upper, width, max, prec, flags);
  }

  lemma CasesMeetC99(sign: seq<char>, value: nat, d: seq<char>, base: nat, upper: bool, width: int, max: int, prec: int,
                     flags: Flags)
    requires |sign| <= 1 && '0' !in sign && (base != 10 ==> sign == []) && Max(max, 0) == Max(prec, 0)
    requires (base == 8 || base == 10 || base == 16) && IsNumeral(d, base)
    requires d != [] && (if value == 0 then d == "0" else d[0] != '0')
    ensures Agrees(sign, value, d, base, upper, width, max, prec, flags)
  {
    assert DigitValue(' ') == 16;
    if value == 0 && prec == 0 && !(flags.num && base == 8) {
      ZeroCase(sign, value, d, base, upper, width, max, prec, flags);
    } else if flags.num && base == 16 && value != 0 {
      PrefixCase(sign, value, d, base, upper, width, max, prec, flags);
    } else if flags.num && base == 8 && value != 0 && prec <= |d| {
      OctalCase(sign, value, d, base, upper, width, max, prec, flags);
    } else {
      PlainCase(sign, value, d, base, upper, width, max, prec, flags);
    }
  }

  /** What the cases below share: a sign only in base ten, and the digits of the value. */
  ghost predicate DigitsOf(sign: seq<char>, value: nat, d: seq<char>, base: nat, max: int, prec: int) {
    && |sign| <= 1 && '0' !in sign && (base != 10 ==> sign == []) && Max(max, 0) == Max(prec, 0)
    && d != [] && IsNumeral(d, 16) && ' ' !in d && (if value == 0 then d == "0" else d[0] != '0')
  }

  ghost predicate Agrees(sign: seq<char>, value: nat, d: seq<char>, base: nat, upper: bool, width: int, max: int,
                         prec: int, flags: Flags)
  {
    IntText(sign, d, width, max, flags) == IntReference(sign, value, d, base, upper, width, prec, flags)
    <==> !IntDeparts(sign, value, d, base, width, prec, flags)
  }

  lemma ZeroCase(sign: seq<char>, value: nat, d: seq<char>, base: nat, upper: bool, width: int, max: int, prec: int,
                 flags: Flags)
    requires DigitsOf(sign, value, d, base, max, prec) && value == 0 && prec == 0 && !(flags.num && base == 8)
    ensures Agrees(sign, value, d, base, upper, width, max, prec, flags)
  {
    assert sign + Prefix(value, base, upper, flags) == sign && IntBody(value, d, base, prec, flags) == [];
    ZeroIsPrinted(sign, width, max, flags);
  }

  lemma PrefixCase(sign: seq<char>, value: nat, d: seq<char>, base: nat, upper: bool, width: int, max: int,
                   prec: int, flags: Flags)
    requires DigitsOf(sign, value, d, base, max, prec) && flags.num && base == 16 && value != 0
    ensures Agrees(sign, value, d, base, upper, width, max, prec, flags)
  {
    assert sign + Prefix(value, base, upper, flags) == Prefix(value, base, upper, flags);
    NoPrefix(d, upper, IntBody(value, d, base, prec, flags), width, max, prec, flags);
  }

  lemma OctalCase(sign: seq<char>, value: nat, d: seq<char>, base: nat, upper: bool, width: int, max: int, prec: int,
                  flags: Flags)
    requires DigitsOf(sign, value, d, base, max, prec) && flags.num && base == 8 && value != 0 && prec <= |d|
    ensures Agrees(sign, value, d, base, upper, width, max, prec, flags)
  {
    assert AtLeast(value, d, prec) == d && sign + Prefix(value, base, upper, flags) == [];
    OctalAgrees(d, width, max, prec, flags);
  }

  lemma PlainCase(sign: seq<char>, value: nat, d: seq<char>, base: nat, upper: bool, width: int, max: int, prec: int,
                  flags: Flags)
    requires DigitsOf(sign, value, d, base, max, prec) && !(value == 0 && prec == 0 && !(flags.num && base == 8))
    requires !(flags.num && base == 16 && value != 0) && !(flags.num && base == 8 && value != 0 && prec <= |d|)
    ensures Agrees(sign, value, d, base, upper, width, max, prec, flags)
  {
    assert sign + Prefix(value, base, upper, flags) == sign;
    BodyIsPlain(value, d, base, prec, flags);
    PaddingAgrees(sign, d, width, max, prec, flags);
  }

  lemma BodyIsPlain(value: nat, d: seq<char>, base: nat, prec: int, flags: Flags)
    requires d != [] && (value == 0 ==> d == "0")
    requires !(value == 0 && prec == 0 && !(flags.num && base == 8))
    requires flags.num && base == 8 ==> value == 0 || prec > |d|
    ensures IntBody(value, d, base, prec, flags) == Fill('0', prec - |d|) + d
  {
    if value == 0 && prec == 0 { assert IntBody(value, d, base, prec, flags) == "0"; }
  }

  /** A zero of precision zero still prints its digit. */
  lemma ZeroIsPrinted(sign: seq<char>, width: int, max: int, flags: Flags)
    requires '0' !in sign && max <= 0
    ensures IntText(sign, "0", width, max, flags) != Justified(sign, [], Width(width), flags.minus || width < 0, false)
  {
    var code := IntText(sign, "0", width, max, flags);
    var spaces, zeros := IntSpaces(sign, "0", width, max, flags), IntZeros(sign, "0", width, max, flags);
    assert code[|Fill(' ', spaces) + sign + Fill('0', zeros)|] == '0';
  }

  /** The prefix of the alternative form is never printed. */
  lemma NoPrefix(d: seq<char>, upper: bool, body: seq<char>, width: int, max: int, prec: int, flags: Flags)
    requires IsNumeral(d, 16)
    ensures IntText([], d, width, max, flags)
            != Justified(if upper then "0X" else "0x", body, Width(width), flags.minus || width < 0,
                         flags.zero && prec < 0)
  {
    var code, x := IntText([], d, width, max, flags), if upper then 'X' else 'x';
    assert DigitValue(x) == 16;
    assert x !in code;
    var prefix := if upper then "0X" else "0x";
    var pad := Width(width) - 2 - |body|;
    var std := Justified(prefix, body, Width(width), flags.minus || width < 0, flags.zero && prec < 0);
    if flags.minus || width < 0 || (flags.zero && prec < 0) {
      assert std[1] == prefix[1];
    } else {
      assert std[|Fill(' ', pad)| + 1] == prefix[1];
    }
  }

  /** Without the alternative form's zero, only zero padding can print what it asks. */
  lemma OctalAgrees(d: seq<char>, width: int, max: int, prec: int, flags: Flags)
    requires d != [] && d[0] != '0' && d[0] != ' ' && d[|d| - 1] != ' ' && prec <= |d| && Max(max, 0) == Max(prec, 0)
    ensures IntText([], d, width, max, flags)
            == Justified([], "0" + d, Width(width), flags.minus || width < 0, flags.zero && prec < 0)
            <==> OctalByPadding(|d|, width, prec, flags)
  {
    var code := IntText([], d, width, max, flags);
    var std := Justified([], "0" + d, Width(width), flags.minus || width < 0, flags.zero && prec < 0);
    if flags.zero && width > |d| {
      var n := width - |d|;
      assert code == Fill('0', n) + d;
      if flags.minus {
        OctalLeft(d, n);
        assert std == "0" + d + Fill(' ', n - 1);
      } else if prec < 0 {
        assert std == Fill('0', n - 1) + ("0" + d) == code;
      } else {
        OctalRight(d, n);
        assert std == Fill(' ', n - 1) + ("0" + d);
      }
    } else {
      OctalUnpadded(d, width, max, prec, flags);
    }
  }

  lemma OctalLeft(d: seq<char>, n: int)
    requires d != [] && d[|d| - 1] != ' ' && n >= 1
    ensures Fill('0', n) + d == "0" + d + Fill(' ', n - 1) <==> n == 1
  {
    if n > 1 {
      assert ("0" + d + Fill(' ', n - 1))[|d| + n - 1] == ' ';
      assert (Fill('0', n) + d)[|d| + n - 1] == d[|d| - 1];
    }
  }

  lemma OctalRight(d: seq<char>, n: int)
    requires n >= 1
    ensures Fill('0', n) + d == Fill(' ', n - 1) + ("0" + d) <==> n == 1
  {
    if n > 1 {
      assert (Fill('0', n) + d)[0] == '0' && (Fill(' ', n - 1) + ("0" + d))[0] == ' ';
    }
  }

  lemma OctalUnpadded(d: seq<char>, width: int, max: int, prec: int, flags: Flags)
    requires d != [] && d[0] != '0' && d[0] != ' ' && prec <= |d| && Max(max, 0) == Max(prec, 0)
    requires !(flags.zero && width > |d|)
    ensures IntText([], d, width, max, flags)
            != Justified([], "0" + d, Width(width), flags.minus || width < 0, flags.zero && prec < 0)
  {
    var code := IntText([], d, width, max, flags);
    var std := Justified([], "0" + d, Width(width), flags.minus || width < 0, flags.zero && prec < 0);
    assert '0' == std[|std| - |d| - 1 - |Fill(' ', if flags.minus || width < 0 then Width(width) - 1 - |d| else 0)|];
    if width <= |d| {
      assert code == d;
      assert |std| > |d|;
    } else if flags.minus {
      assert code[0] == d[0] && std[0] == '0';
    } else {
      assert code == Fill(' ', width - |d|) + d && std == Fill(' ', width - 1 - |d|) + ("0" + d);
      assert code[width - |d| - 1] == ' ' && std[width - |d| - 1] == '0';
    }
  }

  /** Outside the alternative form only the padding can differ. */
  lemma PaddingAgrees(sign: seq<char>, d: seq<char>, width: int, max: int, prec: int, flags: Flags)
    requires |sign| <= 1 && '0' !in sign && d != [] && d[|d| - 1] != ' ' && Max(max, 0) == Max(prec, 0)
    ensures IntText(sign, d, width, max, flags)
            == Justified(sign, Fill('0', prec - |d|) + d, Width(width), flags.minus || width < 0,
                         flags.zero && prec < 0)
            <==> !IntMisplaced(|sign| + Max(prec, |d|), width, prec, flags)
  {
    if !IntMisplaced(|sign| + Max(prec, |d|), width, prec, flags) {
      SameLayout(sign, d, width, max, prec, flags);
    } else if width < 0 {
      WidthDropped(sign, d, width, max, prec, flags);
    } else {
      ZeroFlagMisused(sign, d, width, max, prec, flags);
    }
  }

  lemma SameLayout(sign: seq<char>, d: seq<char>, width: int, max: int, prec: int, flags: Flags)
    requires d != [] && Max(max, 0) == Max(prec, 0)
    requires !IntMisplaced(|sign| + Max(prec, |d|), width, prec, flags)
    ensures IntText(sign, d, width, max, flags)
            == Justified(sign, Fill('0', prec - |d|) + d, Width(width), flags.minus || width < 0,
                         flags.zero && prec < 0)
  {
    var spaces, zeros := IntSpaces(sign, d, width, max, flags), IntZeros(sign, d, width, max, flags);
    var fill, none := Width(width) - |sign| - Max(prec, |d|), Max(prec - |d|, 0);
    assert |Fill('0', prec - |d|) + d| == Max(prec, |d|) && Fill('0', prec - |d|) == Fill('0', none);
    Empty(fill);
    if fill <= 0 {
      assert spaces == 0 && zeros == none;
      Bare(sign, Fill('0', none), d);
    } else if flags.minus {
      assert spaces == -fill && zeros == none;
      LeftJustified(sign, Fill('0', none), d, Fill(' ', fill));
    } else if flags.zero {
      assert spaces == 0 && zeros == fill && none == 0;
      Bare(sign, Fill('0', fill), d);
      assert Fill('0', prec - |d|) + d == d;
    } else {
      assert spaces == fill && zeros == none;
      RightJustified(Fill(' ', fill), sign, Fill('0', none), d);
    }
  }

  lemma Empty(n: int)
    ensures Fill(' ', 0) == [] && Fill('0', 0) == [] && (n <= 0 ==> Fill(' ', n) == [] && Fill('0', n) == [])
    ensures n >= 0 ==> Fill(' ', -n) == []
  {
  }

  lemma Bare(sign: seq<char>, zeros: seq<char>, d: seq<char>)
    ensures [] + sign + zeros + d + [] == sign + zeros + d == sign + (zeros + d) == [] + sign + (zeros + d)
    ensures sign + (zeros + d) + [] == sign + (zeros + d) && sign + [] + (zeros + d) == sign + (zeros + d)
  {
  }

  lemma LeftJustified(sign: seq<char>, zeros: seq<char>, d: seq<char>, spaces: seq<char>)
    ensures [] + sign + zeros + d + spaces == sign + (zeros + d) + spaces
  {
  }

  lemma RightJustified(spaces: seq<char>, sign: seq<char>, zeros: seq<char>, d: seq<char>)
    ensures spaces + sign + zeros + d + [] == spaces + sign + (zeros + d)
  {
  }

  lemma WidthDropped(sign: seq<char>, d: seq<char>, width: int, max: int, prec: int, flags: Flags)
    requires d != [] && Max(max, 0) == Max(prec, 0) && width < 0 && -width > |sign| + Max(prec, |d|)
    ensures |IntText(sign, d, width, max, flags)|
            < |Justified(sign, Fill('0', prec - |d|) + d, Width(width), true, flags.zero && prec < 0)|
  {
  }

  /** The zero flag wins over a precision and over left justification, where C99 ignores it. */
  lemma ZeroFlagMisused(sign: seq<char>, d: seq<char>, width: int, max: int, prec: int, flags: Flags)
    requires |sign| <= 1 && '0' !in sign && d != [] && d[|d| - 1] != ' ' && Max(max, 0) == Max(prec, 0)
    requires flags.zero && (flags.minus || prec >= 0) && width > |sign| + Max(prec, |d|)
    ensures IntText(sign, d, width, max, flags)
            != Justified(sign, Fill('0', prec - |d|) + d, width, flags.minus, flags.zero && prec < 0)
  {
    var code := IntText(sign, d, width, max, flags);
    var std := Justified(sign, Fill('0', prec - |d|) + d, width, flags.minus, flags.zero && prec < 0);
    if flags.minus {
      assert std[|std| - 1] == ' ';
      assert code[|code| - 1] == d[|d| - 1];
    } else {
      assert code[|sign|] == '0';
      assert std[|sign|] != '0';
    }
  }

  /**
   What fmtint prints in every case, departing or not: with the zero flag zeros fill the width, less
   what a precision beyond the digits takes of it, whatever the minus flag says.
   */
  lemma IntPrints(sign: seq<char>, d: seq<char>, width: int, max: int, flags: Flags)
    ensures var more := if max > |d| then max - |d| else 0;
            IntText(sign, d, width, max, flags)
            == if flags.zero then Justified(sign, d, Max(width - more, |sign| + |d| + more), false, true)
               else Justified(sign, Fill('0', more) + d, width, flags.minus, false)
  {
    if flags.zero { ZerosPrinted(sign, d, width, max, flags); } else { SpacesPrinted(sign, d, width, max, flags); }
  }

  lemma ZerosPrinted(sign: seq<char>, d: seq<char>, width: int, max: int, flags: Flags)
    requires flags.zero
    ensures var more := if max > |d| then max - |d| else 0;
            IntText(sign, d, width, max, flags)
            == Justified(sign, d, Max(width - more, |sign| + |d| + more), false, true)
  {
    var more := if max > |d| then max - |d| else 0;
    var zeros := IntZeros(sign, d, width, max, flags);
    Empty(0);
    Bare(sign, Fill('0', zeros), d);
    assert Max(width - more, |sign| + |d| + more) - |sign| - |d| == zeros;
  }

  lemma SpacesPrinted(sign: seq<char>, d: seq<char>, width: int, max: int, flags: Flags)
    requires !flags.zero
    ensures var more := if max > |d| then max - |d| else 0;
            IntText(sign, d, width, max, flags) == Justified(sign, Fill('0', more) + d, width, flags.minus, false)
  {
    var more := if max > |d| then max - |d| else 0;
    var spaces, fill := IntSpaces(sign, d, width, max, flags), width - |sign| - |d| - more;
    Empty(fill);
    Empty(-fill);
    if flags.minus {
      assert Fill(' ', spaces) == [] && Fill(' ', -spaces) == Fill(' ', fill);
      LeftJustified(sign, Fill('0', more), d, Fill(' ', fill));
    } else {
      assert Fill(' ', spaces) == Fill(' ', fill) && Fill(' ', -spaces) == [];
      RightJustified(Fill(' ', fill), sign, Fill('0', more), d);
    }
  }

  /** fmtint fills the width, unless the zero flag meets a precision beyond the digits. */
  lemma IntLength(sign: seq<char>, d: seq<char>, width: int, prec: int, flags: Flags)
    requires |d| >= 1
    ensures |IntText(sign, d, width, prec, flags)| == Max(width, |sign| + Max(prec, |d|))
            <==> !(flags.zero && prec > |d| && width > |sign| + prec)
  {
  }

  // ---- f

  /** The magnitude in units of the p-th decimal, rounded to the nearest, halves up. */
  function Units(x: real, p: nat): (n: nat) { (Pow(10, p) as real * (if x < 0.0 then -x else x) + 0.5).Floor }

  /** The last p digits of a number. */
  function LastDigits(n: nat, p: nat): (s: seq<char>)
    ensures |s| == p
  {
    if p == 0 then [] else LastDigits(n / 10, p - 1) + [LOWER[n % 10]]
  }

  function WholeAsked(x: real, p: nat): (s: seq<char>)
    ensures |s| >= 1
  {
    Quotient(Units(x, p), Pow(10, p))
  }

  function Quotient(n: nat, m: nat): (s: seq<char>)
    requires m >= 1
    ensures |s| >= 1
  {
    DigitsAsked(n / m, 10, false)
  }

  /** The point and p decimals; the alternative form keeps a point without decimals. */
  function PointAsked(x: real, p: nat, point: bool): seq<char> {
    if p == 0 && !point then [] else "." + LastDigits(Units(x, p) % Pow(10, p), p)
  }

  /** The precision of a directive without one is 6. */
  function FloatReference(x: real, width: int, prec: int, flags: Flags): seq<char> {
    var p := if prec < 0 then 6 else prec;
    Justified(SignAsked(x < 0.0, true, flags), WholeAsked(x, p) + PointAsked(x, p, flags.num),
              Width(width), flags.minus || width < 0, flags.zero)
  }

  /** The padding goes astray: dropped with a negative width, short without decimals or after a sign. */
  predicate FloatMisplaced(sign: seq<char>, whole: seq<char>, p: nat, width: int, flags: Flags) {
    && Width(width) > |sign| + |whole| + (if p == 0 then 0 else 1 + p)
    && (width < 0 || p == 0 || (flags.zero && !flags.minus && sign != []))
  }

  /** The calls on which fmtfp departs: `max` is the precision it is given, `prec` the one asked for. */
  predicate FloatDeparts(x: real, width: int, max: int, prec: int, flags: Flags) {
    var p := if prec < 0 then 6 else prec;
    || max != prec || prec > 18 || (flags.num && prec == 0)
    || FloatMisplaced(SignAsked(x < 0.0, true, flags), WholeAsked(x, p), p, width, flags)
  }

  /** The number fmtfp prints has the digits asked for. */
  lemma NumberPrinted(x: real, p: nat)
    ensures var (intpart, fracpart) := Parts(x, p);
            && Decimal(intpart) == WholeAsked(x, p) && Fraction(fracpart, p) == PointAsked(x, p, false)
            && (p > 0 ==> Decimals(fracpart, p) == LastDigits(Units(x, p) % Pow(10, p), p))
  {
    assert Units(x, p) == Scaled(x, p);
    PartsPrinted(Units(x, p), Pow(10, p), p);
  }

  lemma PartsPrinted(n: nat, m: nat, p: nat)
    requires m == Pow(10, p)
    ensures n % m < m && Decimal(n / m) == Quotient(n, m) && (p > 0 ==> Decimals(n % m, p) == LastDigits(n % m, p))
  {
    Division(n, m);
    DigitsPrinted(n / m, 10, false);
    if p > 0 { DecimalsPrinted(n % m, p); }
  }

  lemma {:induction false} DecimalsPrinted(n: nat, p: nat)
    requires p >= 1 && n < Pow(10, p)
    ensures Decimals(n, p) == LastDigits(n, p)
  {
    var d := Digits(n, 10, false);
    LetterPrinted(n % 10, false);
    assert Pow(10, p) == 10 * Pow(10, p - 1);
    if p == 1 {
      assert n < 10 && LastDigits(n / 10, 0) == [];
    } else {
      DecimalsPrinted(n / 10, p - 1);
      DecimalsSnoc(n, p);
    }
  }

  lemma DecimalsSnoc(n: nat, p: nat)
    requires p >= 2
    ensures Decimals(n, p) == Decimals(n / 10, p - 1) + [DigitChar(n % 10, false)]
  {
    DivMod(n, 10);
    if n < 10 {
      assert Digits(n / 10, 10, false) == ['0'];
      assert Fill('0', p - 1) == Fill('0', p - 2) + ['0'];
    }
  }

  /**
   What fmtfp prints in every case, departing or not: the number with the sign asked for, at most 18
   decimals and no bare point, in a width one short without decimals, one short with zeros after a
   sign, and none when negative.
   */
  lemma FloatPrints(x: real, width: int, max: int, flags: Flags)
    ensures var p := if max < 0 then 6 else if max > 18 then 18 else max;
            var sign := SignAsked(x < 0.0, true, flags);
            var short := (if p == 0 then 1 else 0) + (if flags.zero && !flags.minus then |sign| else 0);
            FloatText(x, width, max, flags)
            == Justified(sign, WholeAsked(x, p) + PointAsked(x, p, false), width - short, flags.minus, flags.zero)
  {
    var p := Precision(max);
    var (intpart, fracpart) := Parts(x, p);
    NumberPrinted(x, p);
    PaddedAs(SignAsked(x < 0.0, true, flags), WholeAsked(x, p), PointAsked(x, p, false), p, width, flags);
  }

  lemma PaddedAs(sign: seq<char>, whole: seq<char>, fraction: seq<char>, p: nat, width: int, flags: Flags)
    requires |fraction| == if p == 0 then 0 else p + 1
    ensures var short := (if p == 0 then 1 else 0) + (if flags.zero && !flags.minus then |sign| else 0);
            Padded(sign, FloatPad(sign, whole, p, width), flags, whole, fraction)
            == Justified(sign, whole + fraction, width - short, flags.minus, flags.zero)
  {
    var pad := FloatPad(sign, whole, p, width);
    var head, fill := FloatHead(sign, pad, flags), width - |sign| - |whole| - p - 1;
    Grouped(head, whole, fraction, Fill(' ', if flags.minus then pad else 0));
    assert Fill(' ', pad) == Fill(' ', fill) && Fill('0', pad - |sign|) == Fill('0', fill - |sign|);
  }

  /** fmtfp prints what C99 asks exactly outside those calls; an empty precision reaches it as an omitted one. */
  lemma FloatMeetsC99(x: real, width: int, max: int, prec: int, flags: Flags)
    requires max == prec || (max == -1 && prec == 0)
    ensures FloatText(x, width, max, flags) == FloatReference(x, width, prec, flags)
            <==> !FloatDeparts(x, width, max, prec, flags)
  {
    var p, q := Precision(max), if prec < 0 then 6 else prec;
    var sign := SignAsked(x < 0.0, true, flags);
    FloatForms(x, width, max, flags);
    WholePlain(x, p);
    if p != q {
      DecimalsDiffer(x, width, max, prec, flags);
    } else if flags.num && prec == 0 {
      assert "." + LastDigits(Units(x, p) % Pow(10, p), p) == ".";
      NoPoint(sign, WholeAsked(x, p), width, flags);
    } else {
      FloatPaddingAgrees(sign, WholeAsked(x, p), PointAsked(x, p, false), width, p, flags);
    }
  }

  lemma FloatForms(x: real, width: int, max: int, flags: Flags)
    ensures var p, sign := Precision(max), SignAsked(x < 0.0, true, flags);
            FloatText(x, width, max, flags)
            == Padded(sign, FloatPad(sign, WholeAsked(x, p), p, width), flags, WholeAsked(x, p),
                      PointAsked(x, p, false))
  {
    NumberPrinted(x, Precision(max));
  }

  lemma FloatPaddingAgrees(sign: seq<char>, whole: seq<char>, fraction: seq<char>, width: int, p: nat, flags: Flags)
    requires |sign| <= 1 && |fraction| == if p == 0 then 0 else p + 1
    ensures Padded(sign, FloatPad(sign, whole, p, width), flags, whole, fraction)
            == Justified(sign, whole + fraction, Width(width), flags.minus || width < 0, flags.zero)
            <==> !FloatMisplaced(sign, whole, p, width, flags)
  {
    if FloatMisplaced(sign, whole, p, width, flags) {
      PaddedShort(sign, whole, fraction, width, p, flags);
    } else {
      PaddedFull(sign, whole, fraction, width, p, flags);
    }
  }

  lemma PaddedShort(sign: seq<char>, whole: seq<char>, fraction: seq<char>, width: int, p: nat, flags: Flags)
    requires |sign| <= 1 && |fraction| == if p == 0 then 0 else p + 1
    requires FloatMisplaced(sign, whole, p, width, flags)
    ensures |Padded(sign, FloatPad(sign, whole, p, width), flags, whole, fraction)|
            < |Justified(sign, whole + fraction, Width(width), flags.minus || width < 0, flags.zero)|
  {
  }

  lemma PaddedFull(sign: seq<char>, whole: seq<char>, fraction: seq<char>, width: int, p: nat, flags: Flags)
    requires |sign| <= 1 && |fraction| == if p == 0 then 0 else p + 1
    requires !FloatMisplaced(sign, whole, p, width, flags)
    ensures Padded(sign, FloatPad(sign, whole, p, width), flags, whole, fraction)
            == Justified(sign, whole + fraction, Width(width), flags.minus || width < 0, flags.zero)
  {
    var pad, body := FloatPad(sign, whole, p, width), whole + fraction;
    var fill := Width(width) - |sign| - |body|;
    var head := FloatHead(sign, pad, flags);
    Grouped(head, whole, fraction, Fill(' ', if flags.minus then pad else 0));
    if fill <= 0 {
      assert Fill(' ', fill) == Fill('0', fill) == Fill(' ', 0) == Fill('0', pad - |sign|) == [];
      assert head == sign;
    } else if flags.minus {
      assert Fill(' ', pad) == Fill(' ', fill);
    } else if flags.zero {
      assert head == sign + Fill('0', fill);
    } else {
      assert head == Fill(' ', fill) + sign;
    }
  }

  lemma Grouped(head: seq<char>, whole: seq<char>, fraction: seq<char>, tail: seq<char>)
    ensures head + whole + fraction + tail == head + (whole + fraction) + tail
    ensures tail == [] ==> head + whole + fraction + tail == head + (whole + fraction)
  {
  }

  /** Neither point nor alternative form: what fmtfp prints without decimals has no point. */
  lemma NoPoint(sign: seq<char>, whole: seq<char>, width: int, flags: Flags)
    requires |sign| <= 1 && '.' !in sign && '.' !in whole
    ensures Padded(sign, FloatPad(sign, whole, 0, width), flags, whole, [])
            != Justified(sign, whole + ".", Width(width), flags.minus || width < 0, flags.zero)
  {
    var std := Justified(sign, whole + ".", Width(width), flags.minus || width < 0, flags.zero);
    var pad := Fill(' ', Width(width) - |sign| - |whole + "."|);
    assert '.' in whole + ".";
    assert '.' in std;
    assert '.' !in Padded(sign, FloatPad(sign, whole, 0, width), flags, whole, []);
  }

  /** A text with one point: what precedes it, the decimals and the padding after them. */
  ghost predicate Pointed(s: seq<char>, decimals: seq<char>) {
    exists before, spaces :: IsPointed(s, before, decimals, spaces)
  }

  ghost predicate IsPointed(s: seq<char>, before: seq<char>, decimals: seq<char>, spaces: seq<char>) {
    && s == before + (['.'] + decimals + spaces)
    && '.' !in before && '.' !in decimals && ' ' !in decimals && Blank(spaces)
  }

  /** The decimals of a text are determined by it. */
  lemma SameDecimals(s: seq<char>, d: seq<char>, e: seq<char>)
    requires Pointed(s, d) && Pointed(s, e)
    ensures |d| == |e|
  {
    var a, x :| IsPointed(s, a, d, x);
    var b, y :| IsPointed(s, b, e, y);
    PointAt(s, a, d, x, b, e, y);
    PointAt(s, b, e, y, a, d, x);
    assert a == s[..|a|] == b;
    LastDecimal(s, a, d, x, e, y);
    LastDecimal(s, a, e, y, d, x);
  }

  lemma PointAt(s: seq<char>, a: seq<char>, d: seq<char>, x: seq<char>, b: seq<char>, e: seq<char>, y: seq<char>)
    requires IsPointed(s, a, d, x) && IsPointed(s, b, e, y)
    ensures |a| >= |b|
  {
    assert s[|a|] == '.';
    assert forall i :: 0 <= i < |b| ==> s[i] == b[i];
  }

  lemma LastDecimal(s: seq<char>, a: seq<char>, d: seq<char>, x: seq<char>, e: seq<char>, y: seq<char>)
    requires IsPointed(s, a, d, x) && s == a + (['.'] + e + y) && ' ' !in e && Blank(y)
    ensures |e| <= |d|
  {
    assert s[|a| + 1..] == d + x == e + y;
    assert forall i :: 0 <= i < |e| ==> (d + x)[i] == e[i];
    assert |x| > 0 ==> (d + x)[|d|] == ' ';
  }

  /** fmtfp with decimals prints a point and exactly p of them. */
  lemma CodePointed(sign: seq<char>, pad: int, flags: Flags, whole: seq<char>, decimals: seq<char>)
    requires '.' !in sign && '.' !in whole && '.' !in decimals && ' ' !in decimals
    ensures Pointed(Padded(sign, pad, flags, whole, "." + decimals), decimals)
  {
    var head, spaces := FloatHead(sign, pad, flags), Fill(' ', if flags.minus then pad else 0);
    var s := Padded(sign, pad, flags, whole, "." + decimals);
    assert '.' !in head + whole;
    assert s == (head + whole) + (['.'] + decimals + spaces);
    assert IsPointed(s, head + whole, decimals, spaces);
  }

  lemma ReferencePointed(sign: seq<char>, whole: seq<char>, decimals: seq<char>, width: int, left: bool, zeros: bool)
    requires '.' !in sign && '.' !in whole && '.' !in decimals && ' ' !in decimals
    ensures Pointed(Justified(sign, whole + ("." + decimals), width, left, zeros), decimals)
  {
    var body := whole + ("." + decimals);
    var fill := width - |sign| - |body|;
    var head := if left then sign else if zeros then sign + Fill('0', fill) else Fill(' ', fill) + sign;
    var spaces := if left then Fill(' ', fill) else [];
    assert '.' !in head;
    assert Justified(sign, body, width, left, zeros) == head + body + spaces;
    PointedParts(head, whole, decimals, spaces);
  }

  lemma PointedParts(head: seq<char>, whole: seq<char>, decimals: seq<char>, spaces: seq<char>)
    requires '.' !in head && '.' !in whole && '.' !in decimals && ' ' !in decimals && Blank(spaces)
    ensures Pointed(head + (whole + ("." + decimals)) + spaces, decimals)
  {
    assert head + (whole + ("." + decimals)) + spaces == (head + whole) + (['.'] + decimals + spaces);
    assert IsPointed(head + (whole + ("." + decimals)) + spaces, head + whole, decimals, spaces);
  }

  lemma NoPointInReference(sign: seq<char>, whole: seq<char>, width: int, left: bool, zeros: bool)
    requires '.' !in sign && '.' !in whole
    ensures '.' !in Justified(sign, whole, width, left, zeros)
  {
  }

  lemma NumeralIsPlain(s: seq<char>)
    requires IsNumeral(s, 10)
    ensures '.' !in s && ' ' !in s
  {
    assert DigitValue('.') == DigitValue(' ') == 16;
  }

  /** With another number of decimals than asked for, the text differs. */
  lemma DecimalsDiffer(x: real, width: int, max: int, prec: int, flags: Flags)
    requires Precision(max) > 0 && Precision(max) != (if prec < 0 then 6 else prec)
    ensures FloatText(x, width, max, flags) != FloatReference(x, width, prec, flags)
  {
    var p, q := Precision(max), if prec < 0 then 6 else prec;
    var sign := SignAsked(x < 0.0, true, flags);
    var d, e := LastDigits(Units(x, p) % Pow(10, p), p), LastDigits(Units(x, q) % Pow(10, q), q);
    var code, std := FloatText(x, width, max, flags), FloatReference(x, width, prec, flags);
    WholePlain(x, p);
    WholePlain(x, q);
    DigitsPlain(Units(x, p) % Pow(10, p), p);
    DigitsPlain(Units(x, q) % Pow(10, q), q);
    FloatForms(x, width, max, flags);
    CodePointed(sign, FloatPad(sign, WholeAsked(x, p), p, width), flags, WholeAsked(x, p), d);
    if q == 0 && !flags.num {
      assert WholeAsked(x, q) + PointAsked(x, q, flags.num) == WholeAsked(x, q);
      NoPointInReference(sign, WholeAsked(x, q), Width(width), flags.minus || width < 0, flags.zero);
      PointedHasPoint(code, d);
    } else {
      ReferencePointed(sign, WholeAsked(x, q), e, Width(width), flags.minus || width < 0, flags.zero);
      if code == std { SameDecimals(code, d, e); }
    }
  }

  lemma PointedHasPoint(s: seq<char>, decimals: seq<char>)
    requires Pointed(s, decimals)
    ensures '.' in s
  {
    var a, x :| IsPointed(s, a, decimals, x);
    assert s[|a|] == '.';
  }

  lemma WholePlain(x: real, p: nat)
    ensures '.' !in WholeAsked(x, p)
  {
    var n := Units(x, p) / Pow(10, p);
    DigitsPrinted(n, 10, false);
    DigitsDenote(n, 10, false);
    NumeralIsPlain(Decimal(n));
  }

  lemma {:induction false} DigitsPlain(n: nat, p: nat)
    ensures '.' !in LastDigits(n, p) && ' ' !in LastDigits(n, p)
  {
    if p == 0 {
    } else {
      DigitsPlain(n / 10, p - 1);
    }
  }

  /** What text with an integer part and p decimals denotes, in units of the last place. */
  function Denoted(whole: seq<char>, decimals: seq<char>, p: nat): nat {
    Value(whole, 10) * Pow(10, p) + Value(decimals, 10)
  }

  /** n is the nearest integer to y, halves up. */
  predicate Nearest(n: int, y: real) { n as real - 0.5 <= y < n as real + 0.5 }

  lemma ScaledNearest(x: real, p: nat)
    ensures Nearest(Scaled(x, p), Pow(10, p) as real * (if x < 0.0 then -x else x))
  {
  }

  /** Exactly p decimals are printed; with the integer part they denote the number nearest |x|, halves up. */
  lemma FloatDenotes(x: real, p: nat)
    ensures var whole, decimals := WholeAsked(x, p), LastDigits(Units(x, p) % Pow(10, p), p);
            && Nearest(Denoted(whole, decimals, p), Pow(10, p) as real * (if x < 0.0 then -x else x))
            && Value(decimals, 10) < Pow(10, p) && |decimals| == p
            && WholeAsked(x, p) == Decimal(Parts(x, p).0) && (p > 0 ==> decimals == Decimals(Parts(x, p).1, p))
  {
    var (intpart, fracpart) := Parts(x, p);
    ScaledNearest(x, p);
    NumberPrinted(x, p);
    PartsDenote(intpart, fracpart, p);
    if p > 0 { assert Denoted(Decimal(intpart), Decimals(fracpart, p), p) == Scaled(x, p); }
  }

  lemma PartsDenote(intpart: nat, fracpart: nat, p: nat)
    requires fracpart < Pow(10, p)
    ensures p > 0 ==> |Decimals(fracpart, p)| == p
    ensures Value(Decimal(intpart), 10) == intpart && Value(Decimals(fracpart, p), 10) == fracpart
  {
    var d := Decimal(fracpart);
    if p > 0 { DigitsFit(fracpart, 10, false, p); }
    DigitsDenote(intpart, 10, false);
    DigitsDenote(fracpart, 10, false);
    ZerosDenoteNothing(p - |d|, d, 10);
  }

  // ---- s and c

  function StrReference(s: seq<char>, width: int, prec: int, flags: Flags): seq<char> {
    Justified([], if prec < 0 then s else s[..Min(prec, |s|)], Width(width), flags.minus || width < 0, false)
  }

  predicate Blank(s: seq<char>) { forall i :: 0 <= i < |s| ==> s[i] == ' ' }

  /** The calls on which fmtstr departs: an empty precision prints all, a negative width does not pad. */
  predicate StrDeparts(s: seq<char>, width: int, max: int, prec: int) {
    if max != prec then !(Blank(s) && (if width < 0 then |s| == -width else |s| <= width))
    else width < 0 && -width > |Shown(Some(s), prec)|
  }

  lemma StrMeetsC99(s: seq<char>, width: int, max: int, prec: int, flags: Flags)
    requires max == prec || (max == -1 && prec == 0)
    ensures StrText(Some(s), width, max, flags) == StrReference(s, width, prec, flags)
            <==> !StrDeparts(s, width, max, prec)
  {
    if max != prec {
      EmptyPrecision(s, width, flags);
    } else {
      var t := Shown(Some(s), max);
      assert StrReference(s, width, prec, flags) == Justified([], t, Width(width), flags.minus || width < 0, false);
      StrPadding(t, width, flags);
    }
  }

  /** A null pointer prints as the string "(null)" would. */
  lemma NullPrints(width: int, max: int, flags: Flags)
    ensures StrText(None, width, max, flags) == StrText(Some("(null)"), width, max, flags)
  {
    assert Shown(None, max) == Shown(Some("(null)"), max);
  }

  /** What fmtstr prints in every case: the string or its first characters, without padding for a negative width. */
  lemma StrPrints(s: seq<char>, width: int, max: int, flags: Flags)
    ensures StrText(Some(s), width, max, flags)
         == Justified([], if 0 <= max < |s| then s[..max] else s, width, flags.minus, false)
  {
    var t := if 0 <= max < |s| then s[..max] else s;
    assert Shown(Some(s), max) == t;
    StrPadding(t, if width < 0 then 0 else width, flags);
  }

  lemma StrPadding(t: seq<char>, width: int, flags: Flags)
    ensures var pad := if flags.minus then -Max(width - |t|, 0) else Max(width - |t|, 0);
            Fill(' ', pad) + t + Fill(' ', -pad) == Justified([], t, Width(width), flags.minus || width < 0, false)
            <==> !(width < 0 && -width > |t|)
  {
    var pad := if flags.minus then -Max(width - |t|, 0) else Max(width - |t|, 0);
    var code, std := Fill(' ', pad) + t + Fill(' ', -pad),
        Justified([], t, Width(width), flags.minus || width < 0, false);
    if width < 0 && -width > |t| {
      assert |code| == |t| < |std|;
    } else {
      assert code == std;
    }
  }

  lemma EmptyPrecision(s: seq<char>, width: int, flags: Flags)
    ensures StrText(Some(s), width, -1, flags) == StrReference(s, width, 0, flags)
            <==> Blank(s) && (if width < 0 then |s| == -width else |s| <= width)
  {
    var pad := if flags.minus then -Max(width - |s|, 0) else Max(width - |s|, 0);
    var code := StrText(Some(s), width, -1, flags);
    assert Shown(Some(s), -1) == s && code == Fill(' ', pad) + s + Fill(' ', -pad);
    assert StrReference(s, width, 0, flags) == Fill(' ', Width(width));
    BlankPadded(pad, s);
    BlankIsFill(code, Width(width));
  }

  lemma BlankIsFill(t: seq<char>, n: nat)
    ensures t == Fill(' ', n) <==> Blank(t) && |t| == n
  {
  }

  lemma BlankPadded(pad: int, s: seq<char>)
    ensures Blank(Fill(' ', pad) + s + Fill(' ', -pad)) <==> Blank(s)
  {
    var t := Fill(' ', pad) + s + Fill(' ', -pad);
    assert forall i :: 0 <= i < |s| ==> t[|Fill(' ', pad)| + i] == s[i];
  }

  /** %c prints its character without padding. */
  lemma CharMeetsC99(c: char, width: int, flags: Flags)
    ensures [c] == Justified([], [c], Width(width), flags.minus || width < 0, false) <==> Width(width) <= 1
  {
    var std := Justified([], [c], Width(width), flags.minus || width < 0, false);
    if Width(width) > 1 { assert |std| == Width(width); }
  }
}
