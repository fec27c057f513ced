/**
 Positional numerals: the digits of a number in base 8, 10 or 16, and the number that a digit
 string denotes.  Shared by the printf engine, the IPv4 parser and printer, and the test harness.
 */
module Numerals {

  function Pow(base: nat, exp: nat): (p: nat)
    ensures base >= 1 ==> p >= 1
  {
    if exp == 0 then 1 else base * Pow(base, exp - 1)
  }

  function Min(a: int, b: int): int { if a <= b then a else b }

  function Max(a: int, b: int): int { if a >= b then a else b }

  /** A run of `n` copies of `c`; none when `n` is not positive. */
  function Fill(c: char, n: int): (s: seq<char>)
    ensures |s| == Max(n, 0)
    ensures forall i :: 0 <= i < |s| ==> s[i] == c
  {
    seq(Max(n, 0), _ => c)
  }

  predicate IsDigit(c: char) { '0' <= c <= '9' }

  /** The character printed for a digit: upper case only matters above nine. */
  function DigitChar(d: nat, upper: bool): (c: char)
    requires d < 16
    ensures DigitValue(c) == d
    ensures d > 0 ==> c != '0'
  {
    if d < 10 then '0' + d as char else (if upper then 'A' else 'a') + (d - 10) as char
  }

  /** The value of a digit character in either case; 16 for every other character. */
  function DigitValue(c: char): nat {
    if '0' <= c <= '9' then c as int - '0' as int
    else if 'a' <= c <= 'f' then c as int - 'a' as int + 10
    else if 'A' <= c <= 'F' then c as int - 'A' as int + 10
    else 16
  }

  /** The sixteen digits in either case, and nothing else, have these values. */
  lemma DigitValues(c: char)
    ensures forall d :: 0 <= d < 16 ==>
              (DigitValue(c) == d <==> c == "0123456789abcdef"[d] || c == "0123456789ABCDEF"[d])
    ensures c !in "0123456789abcdef" && c !in "0123456789ABCDEF" ==> DigitValue(c) == 16
  {
    if DigitValue(c) == 16 {
    } else {
      var d := DigitValue(c);
      assert c as int == d + if c <= '9' then '0' as int else if c <= 'F' then 'A' as int - 10 else 'a' as int - 10;
    }
  }

  predicate IsNumeral(s: seq<char>, base: nat) {
    forall i :: 0 <= i < |s| ==> DigitValue(s[i]) < base
  }

  function Value(s: seq<char>, base: nat): nat {
    if s == [] then 0 else Value(s[..|s| - 1], base) * base + DigitValue(s[|s| - 1])
  }

  function Digits(n: nat, base: nat, upper: bool): (s: seq<char>)
    requires 2 <= base <= 16
    ensures |s| >= 1
  {
    if n < base then [DigitChar(n, upper)]
    else Digits(n / base, base, upper) + [DigitChar(n % base, upper)]
  }

  function Decimal(n: nat): seq<char> { Digits(n, 10, false) }

  /** The printed digits denote the number, in the base, without a leading zero. */
  lemma {:induction false} DigitsDenote(n: nat, base: nat, upper: bool)
    requires 2 <= base <= 16
    ensures IsNumeral(Digits(n, base, upper), base)
    ensures Value(Digits(n, base, upper), base) == n
    ensures n > 0 ==> Digits(n, base, upper)[0] != '0'
    decreases n
  {
    var s := Digits(n, base, upper);
    if n < base {
      assert s[..|s| - 1] == [];
    } else {
      var q, r := n / base, n % base;
      DivMod(n, base);
      DigitsDenote(q, base, upper);
      assert s == Digits(q, base, upper) + [DigitChar(r, upper)];
      assert s[..|s| - 1] == Digits(q, base, upper);
    }
  }

  lemma DivMod(n: nat, b: nat)
    requires b >= 2
    ensures n == (n / b) * b + n % b && 0 <= n % b < b
    ensures n >= b ==> 0 < n / b < n
    ensures n < b ==> n / b == 0 && n % b == n
  {
  }

  lemma MulOrder(b: nat, x: int, y: int)
    requires b > 0
    ensures x < y <==> b * x < b * y
  {
  }

  /** Fewer than `base` to the k-th values take at most k digits. */
  lemma {:induction false} DigitsFit(n: nat, base: nat, upper: bool, k: nat)
    requires 2 <= base <= 16 && k >= 1 && n < Pow(base, k)
    ensures |Digits(n, base, upper)| <= k
    decreases k
  {
    var p := Pow(base, k - 1);
    assert Pow(base, k) == base * p;
    if n < base {
    } else {
      DivMod(n, base);
      if k >= 2 {
        MulOrder(base, n / base, p);
        assert base * (n / base) < base * p;
        DigitsFit(n / base, base, upper, k - 1);
      }
    }
  }

  /** At least `base` to the (k-1)-th takes at least k digits. */
  lemma {:induction false} DigitsReach(n: nat, base: nat, upper: bool, k: nat)
    requires 2 <= base <= 16 && k >= 1 && Pow(base, k - 1) <= n
    ensures k <= |Digits(n, base, upper)|
    decreases k
  {
    if k == 1 {
    } else {
      var p := Pow(base, k - 2);
      assert Pow(base, k - 1) == base * p;
      QuotientReaches(n, base, p);
      DigitsReach(n / base, base, upper, k - 1);
    }
  }

  /** One step of a digit loop: the last digit is the remainder, the others belong to the quotient. */
  lemma DigitStep(n: nat, base: nat, upper: bool)
    requires 2 <= base <= 16
    ensures var d, q := Digits(n, base, upper), n / base;
            && d[|d| - 1] == DigitChar(n % base, upper)
            && (q == 0 <==> |d| == 1)
            && (q != 0 ==> d[..|d| - 1] == Digits(q, base, upper))
  {
    DivMod(n, base);
    var q, r := n / base, n % base;
    if n >= base {
      assert Digits(n, base, upper) == Digits(q, base, upper) + [DigitChar(r, upper)];
    }
  }

  lemma {:induction false} PowAdd(base: nat, i: nat, j: nat)
    ensures Pow(base, i + j) == Pow(base, i) * Pow(base, j)
  {
    if i == 0 {
    } else {
      PowAdd(base, i - 1, j);
      MulAssoc(base, Pow(base, i - 1), Pow(base, j));
    }
  }

  lemma MulAssoc(a: int, b: int, c: int)
    ensures a * (b * c) == (a * b) * c
  {
  }

  lemma QuotientReaches(n: nat, b: nat, p: nat)
    requires b >= 2 && b * p <= n
    ensures p <= n / b
    ensures p >= 1 ==> n >= b
  {
    MulOrder(b, p, n / b + 1);
    MulOrder(b, 0, p);
  }

  lemma {:induction false} ValueSplit(s: seq<char>, t: seq<char>, base: nat)
    ensures Value(s + t, base) == Value(s, base) * Pow(base, |t|) + Value(t, base)
  {
    if t == [] {
      assert s + t == s;
    } else {
      var u, d := t[..|t| - 1], DigitValue(t[|t| - 1]);
      assert (s + t)[..|s + t| - 1] == s + u;
      ValueSplit(s, u, base);
      Distribute(Value(s, base), Pow(base, |u|), Value(u, base), base, d);
      assert Pow(base, |t|) == base * Pow(base, |u|);
    }
  }

  lemma Distribute(a: nat, p: nat, b: nat, base: nat, d: nat)
    ensures (a * p + b) * base + d == a * (base * p) + (b * base + d)
  {
    assert (a * p) * base == a * (base * p);
  }

  lemma ZerosDenoteNothing(n: int, t: seq<char>, base: nat)
    ensures Value(Fill('0', n) + t, base) == Value(t, base)
  {
    ValueSplit(Fill('0', n), t, base);
    ZeroFill(n, base);
  }

  lemma {:induction false} ZeroFill(n: int, base: nat)
    ensures Value(Fill('0', n), base) == 0
    decreases n
  {
    if n <= 0 {
    } else {
      assert Fill('0', n)[..n - 1] == Fill('0', n - 1);
      ZeroFill(n - 1, base);
    }
  }
}
