/** Numbers in text as the C library reads them. */
module CNumbers {
  import opened Common
  import opened Numerals

  const LONG_MAX := 0x7fff_ffff_ffff_ffff

  predicate IsSpace(c: char) { c == ' ' || c == '\t' || c == '\n' || c == '\r' || c as int == 11 || c as int == 12 }

  function SkipSpaces(s: seq<char>): (r: seq<char>)
    ensures |r| <= |s|
  {
    if s != [] && IsSpace(s[0]) then SkipSpaces(s[1..]) else s
  }

  /** How many digits a text starts with. */
  function DigitRun(s: seq<char>): (n: nat)
    ensures n <= |s| && (n < |s| ==> !IsDigit(s[n])) && forall i :: 0 <= i < n ==> IsDigit(s[i])
  {
    if s != [] && IsDigit(s[0]) then 1 + DigitRun(s[1..]) else 0
  }

  /** The result of strtol: the value, whether it left the range of a long, and where the number ends. */
  datatype Long = Long(value: int, overflow: bool, end: seq<char>)

  /** strtol in base 10; without a digit it ends where it began. */
  function Strtol(s: seq<char>): Long {
    var number := Leading(SkipSpaces(s));
    if number.None? then Long(0, false, s) else Clipped(number.value.0, number.value.1)
  }

  /** A sign and digits at the front of a text, and what follows them. */
  function Leading(t: seq<char>): Option<(int, seq<char>)> {
    var negative := t != [] && t[0] == '-';
    var digits := if negative || (t != [] && t[0] == '+') then t[1..] else t;
    var m := Magnitude(digits);
    if m.None? then None else Some((if negative then -m.value.0 else m.value.0, m.value.1))
  }

  /** The digits at the front of a text, and what follows them. */
  function Magnitude(t: seq<char>): Option<(int, seq<char>)> {
    var n := DigitRun(t);
    if n == 0 then None else Some((Value(t[..n], 10), t[n..]))
  }

  function Clipped(v: int, end: seq<char>): Long {
    if v > LONG_MAX then Long(LONG_MAX, true, end)
    else if v < -LONG_MAX - 1 then Long(-LONG_MAX - 1, true, end)
    else Long(v, false, end)
  }

  /** Space, tab, newline, vertical tab, form feed, carriage return. */
  predicate Spaces(s: seq<char>) { forall i :: 0 <= i < |s| ==> s[i] == ' ' || 9 <= s[i] as int <= 13 }

  /** Skipping stops at the first character that is no space. */
  lemma {:induction false} SkippedSpaces(s: seq<char>) returns (n: nat)
    ensures n <= |s| && Spaces(s[..n]) && SkipSpaces(s) == s[n..] && (n < |s| ==> !IsSpace(s[n]))
    decreases |s|
  {
    if s == [] || !IsSpace(s[0]) {
      n := 0;
    } else {
      var m := SkippedSpaces(s[1..]);
      n := m + 1;
      assert s[1..][..m] == s[1..n] && s[1..][m..] == s[n..];
      assert forall i :: 0 < i < n ==> s[i] == s[1..n][i - 1];
    }
  }

  lemma {:induction false} SkipsSpaces(spaces: seq<char>, t: seq<char>)
    requires Spaces(spaces) && (t == [] || !IsSpace(t[0]))
    ensures SkipSpaces(spaces + t) == t
    decreases |spaces|
  {
    if spaces == [] {
      assert spaces + t == t;
    } else {
      assert (spaces + t)[1..] == spaces[1..] + t;
      SkipsSpaces(spaces[1..], t);
    }
  }

  /** Neither white space nor nothing stands in front. */
  predicate NoSpaceFirst(s: seq<char>) { s == [] || !(s[0] == ' ' || 9 <= s[0] as int <= 13) }

  lemma SpacesSkipped(spaces: seq<char>, t: seq<char>)
    requires Spaces(spaces) && NoSpaceFirst(t)
    ensures SkipSpaces(spaces + t) == t
  {
    SkipsSpaces(spaces, t);
  }

  /** An optional sign. */
  predicate IsSign(s: seq<char>) { s == [] || s == ['+'] || s == ['-'] }

  predicate Negated(sign: seq<char>) { sign != [] && sign[0] == '-' }

  /** strtol reads white space, a sign and digits, and clips the value to a long. */
  lemma StrtolDenotes(spaces: seq<char>, sign: seq<char>, digits: seq<char>, tail: seq<char>)
    requires Spaces(spaces) && IsSign(sign) && digits != []
    requires (forall i :: 0 <= i < |digits| ==> '0' <= digits[i] <= '9') && (tail == [] || !('0' <= tail[0] <= '9'))
    ensures var v: int := if Negated(sign) then -(Value(digits, 10) as int) else Value(digits, 10);
            Strtol(spaces + (sign + (digits + tail)))
            == if v > 0x7fff_ffff_ffff_ffff then Long(0x7fff_ffff_ffff_ffff, true, tail)
               else if v < -0x8000_0000_0000_0000 then Long(-0x8000_0000_0000_0000, true, tail)
               else Long(v, false, tail)
  {
    var number := digits + tail;
    MagnitudeReads(digits, tail);
    StrtolOf(spaces, sign, number, Value(digits, 10), tail);
  }

  lemma StrtolOf(spaces: seq<char>, sign: seq<char>, number: seq<char>, v: int, tail: seq<char>)
    requires Spaces(spaces) && IsSign(sign) && number != [] && '0' <= number[0] <= '9'
    requires Magnitude(number) == Some((v, tail))
    ensures Strtol(spaces + (sign + number)) == Clipped(if Negated(sign) then -v else v, tail)
  {
    SignPassed(sign, number);
    SignRead(sign, number);
    SpacesSkipped(spaces, sign + number);
  }

  lemma SignPassed(sign: seq<char>, number: seq<char>)
    requires IsSign(sign) && number != [] && '0' <= number[0] <= '9'
    ensures var m := Magnitude(number);
            Leading(sign + number)
            == if m.None? then None else Some((if Negated(sign) then -m.value.0 else m.value.0, m.value.1))
  {
    SignRead(sign, number);
  }

  lemma MagnitudeReads(digits: seq<char>, tail: seq<char>)
    requires digits != [] && forall i :: 0 <= i < |digits| ==> '0' <= digits[i] <= '9'
    requires tail == [] || !('0' <= tail[0] <= '9')
    ensures Magnitude(digits + tail) == Some((Value(digits, 10), tail))
  {
    var number := digits + tail;
    RunOfDigits(digits, tail);
    assert number[..|digits|] == digits && number[|digits|..] == tail;
  }

  lemma SignRead(sign: seq<char>, number: seq<char>)
    requires IsSign(sign) && number != [] && '0' <= number[0] <= '9'
    ensures var t := sign + number;
            && t != [] && NoSpaceFirst(t) && (t[0] == '-' <==> Negated(sign)) && (t[0] == '+' <==> sign == ['+'])
            && (if sign == [] then t == number else t[1..] == number)
  {
    var t := sign + number;
    if sign == [] {
      assert t == number;
    } else {
      assert t[0] == sign[0] && t[1..] == number;
    }
  }

  /** Without a digit there it reads nothing. */
  lemma StrtolFails(spaces: seq<char>, sign: seq<char>, rest: seq<char>)
    requires Spaces(spaces) && IsSign(sign) && NoSpaceFirst(sign + rest)
    requires rest == [] || (!('0' <= rest[0] <= '9') && (sign == [] ==> rest[0] != '+' && rest[0] != '-'))
    ensures Strtol(spaces + (sign + rest)) == Long(0, false, spaces + (sign + rest))
  {
    var t := sign + rest;
    SpacesSkipped(spaces, t);
    if sign == [] {
      assert t == rest;
    } else {
      assert t[0] == sign[0] && t[1..] == rest;
    }
  }

  lemma RunOfDigits(d: seq<char>, tail: seq<char>)
    requires forall i :: 0 <= i < |d| ==> IsDigit(d[i])
    requires tail == [] || !IsDigit(tail[0])
    ensures DigitRun(d + tail) == |d|
  {
    var s := d + tail;
    assert forall i :: 0 <= i < |d| ==> IsDigit(s[i]);
    assert |d| < |s| ==> s[|d|] == tail[0];
  }

  /** strtol reads back a printed number, whatever follows it. */
  lemma StrtolReads(n: nat, tail: seq<char>)
    requires n <= LONG_MAX && (tail == [] || !IsDigit(tail[0]))
    ensures Strtol(Digits(n, 10, false) + tail) == Long(n, false, tail)
    ensures DigitRun(Digits(n, 10, false) + tail) == |Digits(n, 10, false)|
    ensures IsDigit((Digits(n, 10, false) + tail)[0])
  {
    var d := Digits(n, 10, false);
    var s := d + tail;
    DigitsDenote(n, 10, false);
    assert forall i :: 0 <= i < |d| ==> DigitValue(d[i]) < 10;
    RunOfDigits(d, tail);
    assert IsDigit(s[0]) && SkipSpaces(s) == s;
    assert s[..|d|] == d && s[|d|..] == tail;
  }
}
