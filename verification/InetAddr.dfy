/** inet_aton and inet_ntoa: IPv4 addresses as text. */
module InetAddr {
  import opened Common
  import opened Numerals
  import opened Bits
  import opened Splitting
  import Conversions
  import Dopr
  import FormatGrammar

  const TWO_32 := 0x1_0000_0000

  // ---- What an address in text denotes

  /** A part is a C numeral: decimal, 0-octal or 0x-hex; only a last part may be a bare 0x. */
  function PartValue(part: seq<char>, last: bool): Option<nat> {
    if part == [] then None
    else if part[0] != '0' then
      if IsNumeral(part, 10) then Some(Value(part, 10)) else None
    else if |part| > 1 && part[1] == 'x' then
      if IsNumeral(part[2..], 16) && (last || |part| > 2) then Some(Value(part[2..], 16)) else None
    else
      if IsNumeral(part[1..], 8) then Some(Value(part[1..], 8)) else None
  }

  function PartValues(parts: seq<seq<char>>): Option<seq<nat>> {
    if parts == [] then Some([])
    else
      var n := |parts| - 1;
      var before := LeadingValues(parts[..n]);
      var last := PartValue(parts[n], true);
      if before.Some? && last.Some? then Some(before.value + [last.value]) else None
  }

  function LeadingValues(parts: seq<seq<char>>): (r: Option<seq<nat>>)
    ensures r.Some? ==> |r.value| == |parts|
    ensures r.Some? <==> forall k :: 0 <= k < |parts| ==> PartValue(parts[k], false).Some?
    ensures r.Some? ==> forall k :: 0 <= k < |parts| ==> r.value[k] == PartValue(parts[k], false).value
  {
    if parts == [] then Some([])
    else
      var n := |parts| - 1;
      var before, last := LeadingValues(parts[..n]), PartValue(parts[n], false);
      if before.Some? && last.Some? then Some(before.value + [last.value]) else None
  }

  /** The leading parts as the high bytes of an address. */
  function HighBytes(values: seq<nat>): nat
    requires |values| <= 4
  {
    if values == [] then 0
    else HighBytes(values[..|values| - 1]) + values[|values| - 1] * Pow(2, 8 * (4 - |values|))
  }

  /** Leading parts are bytes, the last part fills the remaining bits. */
  predicate InRange(values: seq<nat>) {
    && 1 <= |values| <= 4 && values[|values| - 1] < Pow(2, 8 * (5 - |values|))
    && forall k :: 0 <= k < |values| - 1 ==> values[k] <= 255
  }

  /** The address made of the values of the parts. */
  function AddressOf(values: seq<nat>): Option<nat> {
    if InRange(values) then Some(HighBytes(values[..|values| - 1]) + values[|values| - 1])
    else None
  }

  /** The address a text denotes, if any. */
  function Meaning(s: seq<char>): Option<nat> {
    var values := PartValues(Pieces(s, "."));
    if values.Some? then AddressOf(values.value) else None
  }

  // ---- C numerals, and where the parser departs from them

  /** An integer constant of section 6.4.4.1 of C99, without a suffix. */
  function CNumeral(part: seq<char>): Option<nat> {
    if part == [] then None
    else if part[0] != '0' then if IsNumeral(part, 10) then Some(Value(part, 10)) else None
    else if |part| > 1 && (part[1] == 'x' || part[1] == 'X') then
      if |part| > 2 && IsNumeral(part[2..], 16) then Some(Value(part[2..], 16)) else None
    else if IsNumeral(part[1..], 8) then Some(Value(part[1..], 8)) else None
  }

  /** A hexadecimal constant with the upper-case mark. */
  predicate UpperMark(part: seq<char>) { |part| > 2 && part[0] == '0' && part[1] == 'X' && IsNumeral(part[2..], 16) }

  /** A part is read as the C constant it is, except with an upper-case mark, or the mark alone in last place. */
  lemma PartMeetsC(part: seq<char>, last: bool)
    ensures PartValue(part, last) == CNumeral(part) <==> !UpperMark(part) && !(last && part == "0x")
    ensures UpperMark(part) ==> PartValue(part, last).None?
    ensures last && part == "0x" ==> PartValue(part, last) == Some(0)
  {
    if part != [] && part[0] == '0' && |part| > 1 && part[1] == 'X' {
      assert DigitValue(part[1..][0]) == 16;
    }
    if |part| == 2 && part[0] == '0' && part[1] == 'x' {
      assert part == "0x" && part[2..] == [];
    }
  }

  function CValues(parts: seq<seq<char>>): Option<seq<nat>> {
    if forall k :: 0 <= k < |parts| ==> CNumeral(parts[k]).Some?
    then Some(seq(|parts|, k requires 0 <= k < |parts| => CNumeral(parts[k]).value)) else None
  }

  /** The address a text denotes when every part is a C constant. */
  function CMeaning(s: seq<char>): Option<nat> {
    var values := CValues(Pieces(s, "."));
    if values.Some? then AddressOf(values.value) else None
  }

  predicate AnyUpperMark(parts: seq<seq<char>>) { exists k :: 0 <= k < |parts| && UpperMark(parts[k]) }

  predicate BareMark(parts: seq<seq<char>>) { parts != [] && parts[|parts| - 1] == "0x" }

  /** Leading parts are C constants of at most a byte. */
  predicate LeadingBytes(parts: seq<seq<char>>) {
    forall k :: 0 <= k < |parts| - 1 ==> CNumeral(parts[k]).Some? && CNumeral(parts[k]).value <= 255
  }

  /** One to four C constants that make an address: bytes, and a last one that fits the remaining bits. */
  predicate CAddress(parts: seq<seq<char>>) {
    && 1 <= |parts| <= 4 && LeadingBytes(parts) && CNumeral(parts[|parts| - 1]).Some?
    && CNumeral(parts[|parts| - 1]).value < Pow(2, 8 * (5 - |parts|))
  }

  lemma CMeaningIsAddress(s: seq<char>)
    ensures CMeaning(s).Some? <==> CAddress(Pieces(s, "."))
  {
    var parts := Pieces(s, ".");
    var values := CValues(parts);
    if values.Some? {
      InRangeIsAddress(parts, values.value);
    } else {
      var k :| 0 <= k < |parts| && CNumeral(parts[k]).None?;
      NoAddress(parts, k);
    }
  }

  lemma InRangeIsAddress(parts: seq<seq<char>>, values: seq<nat>)
    requires |values| == |parts| && parts != []
    requires forall k :: 0 <= k < |parts| ==> CNumeral(parts[k]) == Some(values[k])
    ensures InRange(values) <==> CAddress(parts)
  {
    if CAddress(parts) {
      forall k | 0 <= k < |values| - 1
        ensures values[k] <= 255
      {
        assert CNumeral(parts[k]).value <= 255;
      }
    }
  }

  lemma NoAddress(parts: seq<seq<char>>, k: nat)
    requires k < |parts| && CNumeral(parts[k]).None?
    ensures !CAddress(parts)
  {
    if k < |parts| - 1 { assert !LeadingBytes(parts); }
  }

  /**
   Addresses are read with C constants, except exactly when an upper-case mark is refused in an address of
   such constants, or a bare mark is taken after at most three of them without that mark, each a byte.
   */
  lemma MeaningMeetsC(s: seq<char>)
    ensures var parts := Pieces(s, ".");
            Meaning(s) == CMeaning(s)
            <==> !(AnyUpperMark(parts) && CAddress(parts))
                 && !(BareMark(parts) && !AnyUpperMark(parts) && |parts| <= 4 && LeadingBytes(parts))
  {
    var parts := Pieces(s, ".");
    CMeaningIsAddress(s);
    if AnyUpperMark(parts) {
      var k :| 0 <= k < |parts| && UpperMark(parts[k]);
      UpperRefused(parts, k);
      if BareMark(parts) { BareIsNone(parts); }
    } else if BareMark(parts) {
      BareIsNone(parts);
      BareTaken(s);
    } else {
      SameValues(parts);
    }
  }

  lemma BareIsNone(parts: seq<seq<char>>)
    requires BareMark(parts)
    ensures CValues(parts).None?
  {
    assert CNumeral(parts[|parts| - 1]).None?;
  }

  /** With a bare mark in last place, a zero, the leading parts decide. */
  lemma BareTaken(s: seq<char>)
    requires BareMark(Pieces(s, ".")) && !AnyUpperMark(Pieces(s, "."))
    ensures Meaning(s).Some? <==> |Pieces(s, ".")| <= 4 && LeadingBytes(Pieces(s, "."))
  {
    var parts := Pieces(s, ".");
    var n := |parts| - 1;
    LeadingAreC(parts);
    BareIsZero(parts[n]);
    var before := LeadingValues(parts[..n]);
    assert PartValues(parts) == if before.Some? then Some(before.value + [0]) else None;
    if before.Some? { ZeroLast(before.value); }
    LeadingBytesRead(parts, before);
  }

  lemma LeadingBytesRead(parts: seq<seq<char>>, before: Option<seq<nat>>)
    requires parts != [] && before == LeadingValues(parts[..|parts| - 1])
    requires forall k :: 0 <= k < |parts| ==> PartValue(parts[k], false) == CNumeral(parts[k])
    ensures LeadingBytes(parts)
            <==> before.Some? && forall k :: 0 <= k < |before.value| ==> before.value[k] <= 255
  {
    var leading := parts[..|parts| - 1];
    assert forall k :: 0 <= k < |leading| ==>
             leading[k] == parts[k] && PartValue(leading[k], false) == CNumeral(parts[k]);
  }

  lemma LeadingAreC(parts: seq<seq<char>>)
    requires !AnyUpperMark(parts)
    ensures forall k :: 0 <= k < |parts| ==> PartValue(parts[k], false) == CNumeral(parts[k])
  {
    forall k | 0 <= k < |parts|
      ensures PartValue(parts[k], false) == CNumeral(parts[k])
    {
      PartMeetsC(parts[k], false);
    }
  }

  lemma ZeroLast(values: seq<nat>)
    ensures AddressOf(values + [0]).Some? <==> |values| <= 3 && forall k :: 0 <= k < |values| ==> values[k] <= 255
  {
    var all := values + [0];
    assert forall k :: 0 <= k < |values| ==> all[k] == values[k];
  }

  lemma BareIsZero(part: seq<char>)
    requires part == "0x"
    ensures PartValue(part, true) == Some(0)
  {
    assert part[2..] == [];
  }

  lemma UpperRefused(parts: seq<seq<char>>, k: nat)
    requires k < |parts| && UpperMark(parts[k])
    ensures PartValues(parts).None?
  {
    PartMeetsC(parts[k], false);
    PartMeetsC(parts[k], true);
    assert DigitValue(parts[k][1..][0]) == 16;
    assert PartValue(parts[k], false).None? && PartValue(parts[k], true).None?;
    if k < |parts| - 1 { assert parts[..|parts| - 1][k] == parts[k]; }
  }

  lemma SameValues(parts: seq<seq<char>>)
    requires parts != [] && !AnyUpperMark(parts) && !BareMark(parts)
    ensures PartValues(parts) == CValues(parts)
  {
    var n := |parts| - 1;
    forall k | 0 <= k < |parts|
      ensures PartValue(parts[k], k == n) == CNumeral(parts[k])
    {
      PartMeetsC(parts[k], k == n);
    }
    var before := LeadingValues(parts[..n]);
    assert before.Some? <==> forall k :: 0 <= k < n ==> CNumeral(parts[k]).Some?;
    if before.Some? && CNumeral(parts[n]).Some? {
      assert forall k :: 0 <= k < n ==> before.value[k] == CNumeral(parts[k]).value;
      assert CValues(parts).value == before.value + [CNumeral(parts[n]).value];
    }
  }

  // ---- The parser

  /** The end of the part that starts at p. */
  function PartEnd(s: seq<char>, p: nat): (q: nat)
    requires p <= |s|
    ensures p <= q <= |s| && (forall k :: p <= k < q ==> s[k] != '.') && (q < |s| ==> s[q] == '.')
    decreases |s| - p
  {
    if p == |s| || s[p] == '.' then p else PartEnd(s, p + 1)
  }

  /** The digit loop with its guard; the text before `p` of this numeral is worth `octet`. */
  method ParseDigits(s: seq<char>, start: nat, end: nat, base: nat) returns (ok: bool, octet: nat)
    requires start <= end <= |s| && 2 <= base <= 16
    requires end == |s| || s[end] == '.'
    requires forall k :: start <= k < end ==> s[k] != '.'
    ensures ok ==> IsNumeral(s[start..end], base) && octet == Value(s[start..end], base)
    ensures !ok ==> !IsNumeral(s[start..end], base) || Value(s[start..end], base) >= TWO_32
  {
    octet := 0;
    var p, guard := start, (TWO_32 - 1) / base;
    while p < |s| && s[p] != '.'
      invariant start <= p <= end
      invariant IsNumeral(s[start..p], base) && octet == Value(s[start..p], base)
    {
      var digit := DigitValue(s[p]);
      if octet > guard {
        OutgrownAt(s, start, p, end, base);
        return false, octet;
      }
      DigitAppended(s, start, p, base);
      if digit >= base {
        NoDigitAt(s, start, p, end, base);
        return false, octet;
      }
      octet, p := octet * base + digit, p + 1;
    }
    ok := true;
  }

  lemma OutgrownAt(s: seq<char>, start: nat, p: nat, end: nat, base: nat)
    requires start <= p < end <= |s| && 2 <= base <= 16 && Value(s[start..p], base) > (TWO_32 - 1) / base
    ensures Value(s[start..end], base) >= TWO_32
  {
    Outgrown(s[start..p], s[p..end], base);
    assert s[start..p] + s[p..end] == s[start..end];
  }

  lemma NoDigitAt(s: seq<char>, start: nat, p: nat, end: nat, base: nat)
    requires start <= p < end <= |s| && DigitValue(s[p]) >= base
    ensures !IsNumeral(s[start..end], base)
  {
    assert s[start..end][p - start] == s[p];
  }

  lemma DigitAppended(s: seq<char>, start: nat, p: nat, base: nat)
    requires start <= p < |s|
    ensures Value(s[start..p + 1], base) == Value(s[start..p], base) * base + DigitValue(s[p])
    ensures IsNumeral(s[start..p], base) && DigitValue(s[p]) < base ==> IsNumeral(s[start..p + 1], base)
  {
    assert s[start..p + 1] == s[start..p] + [s[p]];
    assert s[start..p + 1][..p - start] == s[start..p];
  }

  /** Past the guard one more digit already exceeds 32 bits. */
  lemma Outgrown(prefix: seq<char>, more: seq<char>, base: nat)
    requires 2 <= base <= 16
    requires more != [] && Value(prefix, base) > (TWO_32 - 1) / base
    ensures Value(prefix + more, base) >= TWO_32
  {
    ValueSplit(prefix, more, base);
    var v := Value(prefix, base);
    PastGuard(v, base);
    assert Pow(base, |more|) == base * Pow(base, |more| - 1);
    MulAssoc(v, base, Pow(base, |more| - 1));
    AtLeastOnce(v * base, Pow(base, |more| - 1));
  }

  lemma PastGuard(v: nat, base: nat)
    requires 2 <= base <= 16 && v > (TWO_32 - 1) / base
    ensures v * base >= TWO_32
  {
    var q := (TWO_32 - 1) / base;
    DivMod(TWO_32 - 1, base);
    assert TWO_32 - 1 < q * base + base == (q + 1) * base;
    MulOrder(base, q, v);
    AtLeastOnce(base, v - q);
    assert v * base == q * base + (v - q) * base;
  }

  lemma AtLeastOnce(a: nat, p: nat)
    requires p >= 1
    ensures a * p >= a
  {
  }

  /** One part: its base, the check for a number, and its digits. */
  method ParsePart(s: seq<char>, p: nat) returns (ok: bool, value: nat, next: nat)
    requires p < |s|
    ensures var q := PartEnd(s, p);
            var v := PartValue(s[p..q], q == |s|);
            if ok then next == q && v == Some(value) else v.None? || v.value >= TWO_32
  {
    next := PartEnd(s, p);
    ghost var part := s[p..next];
    var start, base := p, 10;
    if s[p] == '0' {
      start := p + 1;
      if start < |s| && s[start] == 'x' {
        start, base := start + 1, 16;
        assert part[1] == 'x' && part[2..] == s[start..next];
      } else {
        base := 8;
        assert part[1..] == s[start..next];
      }
    } else {
      assert part == s[start..next];
    }
    if start < |s| && s[start] == '.' && base != 8 { return false, 0, next; }
    ok, value := ParseDigits(s, start, next, base);
  }

  /** The pieces of a suffix are its first part and the pieces after the next period. */
  lemma FrontPiece(s: seq<char>, p: nat)
    requires p <= |s|
    ensures var q := PartEnd(s, p);
            Pieces(s[p..], ".") == [s[p..q]] + if q < |s| then Pieces(s[q + 1..], ".") else []
  {
    var q := PartEnd(s, p);
    assert Free(s[p..q], ".");
    if q < |s| {
      assert s[p..] == s[p..q] + ['.'] + s[q + 1..];
      FirstPiece(s[p..q], s[q + 1..]);
    } else {
      assert s[p..] == s[p..q];
      SplitFree(s[p..q], ".");
    }
  }

  lemma FirstPiece(part: seq<char>, rest: seq<char>)
    requires Free(part, ".")
    ensures Pieces(part + ['.'] + rest, ".") == [part] + Pieces(rest, ".")
  {
    SplitFree(part, ".");
    SplitAround(part, '.', rest, ".");
  }

  lemma Limits()
    ensures Pow(2, 0) == 1 && Pow(2, 8) == 0x100 && Pow(2, 16) == 0x1_0000
    ensures Pow(2, 24) == 0x100_0000 && Pow(2, 32) == TWO_32
  {
    PowAdd(2, 8, 8);
    PowAdd(2, 8, 16);
    PowAdd(2, 16, 16);
  }

  /** A part without a value, or worth more than 32 bits, spoils the address wherever it stands. */
  lemma Rejected(s: seq<char>, before: seq<seq<char>>, part: seq<char>, after: seq<seq<char>>)
    requires Pieces(s, ".") == before + [part] + after
    requires var v := PartValue(part, after == []);
             v.None? || v.value >= TWO_32
    ensures Meaning(s).None?
  {
    var parts := Pieces(s, ".");
    var k, n := |before|, |parts| - 1;
    assert parts[k] == part && (k == n <==> after == []);
    var values := PartValues(parts);
    if k < n { assert parts[..n][k] == part; }
    if values.Some? {
      assert values.value[k] == PartValue(part, k == n).value;
      TooBig(values.value, k);
    }
  }

  lemma TooBig(values: seq<nat>, k: nat)
    requires k < |values| && values[k] >= TWO_32
    ensures AddressOf(values).None?
  {
    Limits();
    if |values| <= 4 { assert Pow(2, 8 * (5 - |values|)) <= TWO_32; }
  }

  lemma TooMany(s: seq<char>)
    requires |Pieces(s, ".")| > 4
    ensures Meaning(s).None?
  {
  }

  /** What the part loop has established at position p, with the values of the parts read. */
  ghost predicate Read(s: seq<char>, p: nat, parts: seq<seq<char>>, values: seq<nat>) {
    && p <= |s| && |values| == |parts| <= 4
    && if p < |s| || parts == []
       then Pieces(s, ".") == parts + Pieces(s[p..], ".") && LeadingValues(parts) == Some(values)
       else Pieces(s, ".") == parts && PartValues(parts) == Some(values)
  }

  lemma RejectedHere(s: seq<char>, p: nat, parts: seq<seq<char>>, values: seq<nat>)
    requires p < |s| && Read(s, p, parts, values)
    requires var q := PartEnd(s, p);
             var v := PartValue(s[p..q], q == |s|);
             |parts| > 3 || v.None? || v.value >= TWO_32
    ensures Meaning(s).None?
  {
    var q := PartEnd(s, p);
    FrontPiece(s, p);
    PiecesSplit(s, p, q, parts);
    var after := if q < |s| then Pieces(s[q + 1..], ".") else [];
    if |parts| > 3 { TooMany(s); } else { Rejected(s, parts, s[p..q], after); }
  }

  lemma ReadAll(s: seq<char>, parts: seq<seq<char>>, values: seq<nat>)
    requires Read(s, |s|, parts, values)
    ensures Meaning(s) == if parts == [] then None else AddressOf(values)
  {
    if parts == [] { assert s[|s|..] == []; }
  }

  lemma ReadStep(s: seq<char>, p: nat, parts: seq<seq<char>>, values: seq<nat>, value: nat)
    requires p < |s| && Read(s, p, parts, values) && |parts| < 4
    requires var q := PartEnd(s, p); PartValue(s[p..q], q == |s|) == Some(value)
    ensures var q := PartEnd(s, p);
            if q == |s| then Read(s, |s|, parts + [s[p..q]], values + [value])
            else if q + 1 == |s| then Meaning(s).None?
            else Read(s, q + 1, parts + [s[p..q]], values + [value])
  {
    var q := PartEnd(s, p);
    FrontPiece(s, p);
    PiecesSplit(s, p, q, parts);
    if q == |s| {
      LastValue(parts, values, s[p..q], value);
    } else if q + 1 == |s| {
      assert s[q + 1..] == [];
      Rejected(s, parts + [s[p..q]], [], []);
    } else {
      LeadingValue(parts, values, s[p..q], value);
    }
  }

  lemma PiecesSplit(s: seq<char>, p: nat, q: nat, parts: seq<seq<char>>)
    requires p <= q <= |s| && Pieces(s, ".") == parts + Pieces(s[p..], ".")
    requires Pieces(s[p..], ".") == [s[p..q]] + if q < |s| then Pieces(s[q + 1..], ".") else []
    ensures Pieces(s, ".") == (parts + [s[p..q]]) + if q < |s| then Pieces(s[q + 1..], ".") else []
  {
    Rejoin(parts, [s[p..q]], if q < |s| then Pieces(s[q + 1..], ".") else []);
  }

  lemma LeadingValue(parts: seq<seq<char>>, values: seq<nat>, part: seq<char>, value: nat)
    requires LeadingValues(parts) == Some(values) && PartValue(part, false) == Some(value)
    ensures LeadingValues(parts + [part]) == Some(values + [value])
  {
    assert (parts + [part])[..|parts|] == parts;
  }

  lemma LastValue(parts: seq<seq<char>>, values: seq<nat>, part: seq<char>, value: nat)
    requires LeadingValues(parts) == Some(values) && PartValue(part, true) == Some(value)
    ensures PartValues(parts + [part]) == Some(values + [value])
  {
    assert (parts + [part])[..|parts|] == parts;
  }

  /** The high bytes leave the bits below them clear. */
  lemma {:induction false} HighMultiple(values: seq<nat>) returns (m: nat)
    requires |values| <= 4
    ensures HighBytes(values) == m * Pow(2, 8 * (4 - |values|))
    decreases |values|
  {
    m := 0;
    if values == [] {
    } else {
      var n := |values|;
      var high := HighMultiple(values[..n - 1]);
      Limits();
      m := high * 256 + values[n - 1];
      assert Pow(2, 8 * (5 - n)) == 256 * Pow(2, 8 * (4 - n));
      Factor(high, values[n - 1], Pow(2, 8 * (4 - n)));
    }
  }

  lemma Factor(high: nat, low: nat, p: nat)
    ensures high * (256 * p) + low * p == (high * 256 + low) * p
  {
  }

  /** Or-ing a byte, or the last part, below the high bytes adds it. */
  lemma OrPart(values: seq<nat>, low: nat)
    requires |values| <= 4 && low < Pow(2, 8 * (4 - |values|))
    ensures BitOr(HighBytes(values), low) == HighBytes(values) + low
  {
    var m := HighMultiple(values);
    OrAdds(m, low, 8 * (4 - |values|));
  }

  lemma ByteShifted(v: nat, i: nat)
    requires v <= 255 && i < 4
    ensures v * Pow(2, 8 * (3 - i)) < Pow(2, 8 * (4 - i))
  {
    Limits();
  }

  /** An octet shifted to the place of part i. */
  function Placed(octet: nat, i: nat): nat
    requires i < 4
  {
    octet * Pow(2, 8 * (3 - i))
  }

  lemma OrByte(octet: seq<nat>, i: nat)
    requires i < |octet| - 1 < 4 && octet[i] <= 255
    ensures BitOr(HighBytes(octet[..i]), Placed(octet[i], i)) == HighBytes(octet[..i + 1])
  {
    ByteShifted(octet[i], i);
    OrPart(octet[..i], Placed(octet[i], i));
    assert octet[..i + 1][..i] == octet[..i];
  }

  /** The leading parts: each at most a byte, or-ed in from the top. */
  method AssembleHigh(octet: seq<nat>) returns (ok: bool, address: nat)
    requires 1 <= |octet| <= 4
    ensures ok <==> forall k :: 0 <= k < |octet| - 1 ==> octet[k] <= 255
    ensures ok ==> address == HighBytes(octet[..|octet| - 1])
  {
    address := 0;
    var i := 0;
    while i < |octet| - 1
      invariant 0 <= i <= |octet| - 1 && address == HighBytes(octet[..i])
      invariant forall k :: 0 <= k < i ==> octet[k] <= 255
    {
      if octet[i] > 0xff { return false, address; }
      OrByte(octet, i);
      address := BitOr(address, Placed(octet[i], i));
      i := i + 1;
    }
    ok := true;
  }

  /** The range checks and the assembly of the address. */
  method Assemble(octet: seq<nat>) returns (r: Option<nat>)
    requires 1 <= |octet| <= 4
    ensures r == AddressOf(octet)
  {
    var ok, address := AssembleHigh(octet);
    if !ok { return None; }
    var i := |octet| - 1;
    LastLimit(i);
    if octet[i] > (TWO_32 - 1) / Pow(2, i * 8) { return None; }
    OrPart(octet[..i], octet[i]);
    address := BitOr(address, octet[i]);
    r := Some(address);
  }

  lemma LastLimit(i: nat)
    requires i < 4
    ensures (TWO_32 - 1) / Pow(2, i * 8) == Pow(2, 8 * (4 - i)) - 1
  {
    Limits();
  }

  /** One turn of the part loop: at most four parts, each followed by a period and another part, or the end. */
  method NextPart(s: seq<char>, p: nat, octet: array<nat>, part: nat, ghost parts: seq<seq<char>>)
    returns (ok: bool, next: nat, ghost longer: seq<seq<char>>)
    requires octet.Length == 4 && part == |parts| <= 4 && p < |s| && Read(s, p, parts, octet[..part])
    modifies octet
    ensures ok ==> p < next <= |s| && part < 4 && |longer| == part + 1 && Read(s, next, longer, octet[..part + 1])
    ensures !ok ==> Meaning(s).None?
  {
    longer, next := parts, p;
    ghost var values := octet[..part];
    if part > 3 {
      RejectedHere(s, p, parts, values);
      return false, next, longer;
    }
    var value;
    ok, value, next := ParsePart(s, p);
    if !ok {
      RejectedHere(s, p, parts, values);
      return;
    }
    ReadStep(s, p, parts, values, value);
    longer := parts + [s[p..next]];
    octet[part] := value;
    assert octet[..part + 1] == values + [value];
    if next < |s| {
      next := next + 1;
      ok := next < |s|;
    }
  }

  /** inet_aton with a 64-bit unsigned long. */
  method InetAton(s: seq<char>) returns (r: Option<nat>)
    ensures r == Meaning(s)
  {
    var octet := new nat[4];
    var part, p := 0, 0;
    ghost var parts := [];
    assert s[0..] == s;
    while p < |s|
      invariant 0 <= p <= |s| && 0 <= part == |parts| <= 4
      invariant Read(s, p, parts, octet[..part])
      decreases |s| - p
    {
      var ok;
      ok, p, parts := NextPart(s, p, octet, part, parts);
      if !ok { return None; }
      part := part + 1;
    }
    ReadAll(s, parts, octet[..part]);
    if part == 0 { return None; }
    r := Assemble(octet[..part]);
  }

  // ---- The printer

  /** The bytes of an address in network order. */
  function Octets(address: nat): (r: seq<nat>)
    requires address < TWO_32
    ensures |r| == 4 && forall k :: 0 <= k < 4 ==> r[k] <= 255
  {
    [address / 0x100_0000, address / 0x1_0000 % 256, address / 256 % 256, address % 256]
  }

  function Dotted(address: nat): seq<char>
    requires address < TWO_32
  {
    var o := Octets(address);
    Join([Decimal(o[0]), Decimal(o[1]), Decimal(o[2]), Decimal(o[3])], ".")
  }

  const QUAD := "%u.%u.%u.%u"

  function QuadArgs(o: seq<nat>): (r: seq<Dopr.Arg>)
    ensures |r| == |o| && forall k :: 0 <= k < |o| ==> r[k] == Dopr.IntArg(o[k])
  {
    seq(|o|, k requires 0 <= k < |o| => Dopr.IntArg(o[k]))
  }

  const PLAIN_U := FormatGrammar.Directive([], FormatGrammar.Absent, None, Dopr.NoLength, 'u')

  /** The items of a format that prints n numbers with periods between them. */
  function QuadItems(n: nat): seq<FormatGrammar.Item> {
    if n <= 1 then [PLAIN_U] else [PLAIN_U, FormatGrammar.Plain('.')] + QuadItems(n - 1)
  }

  /** What they print. */
  function QuadText(o: seq<nat>): seq<char> {
    if o == [] then [] else if |o| == 1 then Decimal(o[0]) else Decimal(o[0]) + ("." + QuadText(o[1..]))
  }

  /** A plain %u prints the decimal digits. */
  lemma PlainUnsigned(v: nat, args: seq<Dopr.Arg>)
    requires v <= 255
    ensures Dopr.Convert(Dopr.NO_SPEC, 'u', [Dopr.IntArg(v)] + args) == Dopr.Converted(Decimal(v), args)
  {
    var all := [Dopr.IntArg(v)] + args;
    assert all[1..] == args && all[0] == Dopr.IntArg(v);
    assert Conversions.IntText([], Decimal(v), 0, -1, Dopr.NO_FLAGS) == Decimal(v);
  }

  lemma {:induction false} QuadMeans(o: seq<nat>)
    requires o != [] && forall k :: 0 <= k < |o| ==> o[k] <= 255
    ensures FormatGrammar.Meaning(QuadItems(|o|), QuadArgs(o)) == Some(QuadText(o))
    decreases |o|
  {
    if |o| == 1 {
      assert o == [o[0]];
      LastNumber(o[0]);
    } else {
      QuadMeans(o[1..]);
      QuadStep(o[0], o[1..], QuadText(o[1..]));
      assert o == [o[0]] + o[1..];
    }
  }

  lemma QuadStep(v: nat, o: seq<nat>, text: seq<char>)
    requires v <= 255 && o != [] && FormatGrammar.Meaning(QuadItems(|o|), QuadArgs(o)) == Some(text)
    ensures FormatGrammar.Meaning(QuadItems(|o| + 1), QuadArgs([v] + o)) == Some(Decimal(v) + ("." + text))
  {
    var items, args := QuadItems(|o|), QuadArgs(o);
    NumberAndPeriod(v, args, items);
    QuadCons(v, o);
  }

  lemma QuadCons(v: nat, o: seq<nat>)
    requires o != []
    ensures QuadItems(|o| + 1) == [PLAIN_U, FormatGrammar.Plain('.')] + QuadItems(|o|)
    ensures QuadArgs([v] + o) == [Dopr.IntArg(v)] + QuadArgs(o)
  {
    var longer, args := [v] + o, [Dopr.IntArg(v)] + QuadArgs(o);
    forall k | 0 <= k < |longer|
      ensures QuadArgs(longer)[k] == args[k]
    {
      if k > 0 { assert longer[k] == o[k - 1]; }
    }
  }

  lemma LastNumber(v: nat)
    requires v <= 255
    ensures FormatGrammar.Meaning(QuadItems(1), QuadArgs([v])) == Some(Decimal(v))
  {
    OneNumber(v, [], []);
    assert [PLAIN_U] + [] == QuadItems(1) && [Dopr.IntArg(v)] + [] == QuadArgs([v]);
    assert Decimal(v) + [] == Decimal(v);
  }

  lemma NumberAndPeriod(v: nat, args: seq<Dopr.Arg>, items: seq<FormatGrammar.Item>)
    requires v <= 255
    ensures FormatGrammar.Meaning([PLAIN_U, FormatGrammar.Plain('.')] + items, [Dopr.IntArg(v)] + args)
         == Dopr.Prepend(Decimal(v), Dopr.Prepend(".", FormatGrammar.Meaning(items, args)))
  {
    var tail := [FormatGrammar.Plain('.')] + items;
    assert [PLAIN_U, FormatGrammar.Plain('.')] + items == [PLAIN_U] + tail;
    OneNumber(v, args, tail);
    assert tail[1..] == items;
  }

  lemma OneNumber(v: nat, args: seq<Dopr.Arg>, items: seq<FormatGrammar.Item>)
    requires v <= 255
    ensures FormatGrammar.Meaning([PLAIN_U] + items, [Dopr.IntArg(v)] + args)
         == Dopr.Prepend(Decimal(v), FormatGrammar.Meaning(items, args))
  {
    PlainUnsigned(v, args);
    assert ([PLAIN_U] + items)[1..] == items;
  }

  lemma SpellCons(item: FormatGrammar.Item, items: seq<FormatGrammar.Item>)
    ensures FormatGrammar.Spell([item] + items) == FormatGrammar.SpellItem(item) + FormatGrammar.Spell(items)
  {
    assert ([item] + items)[1..] == items;
  }

  lemma {:induction false} QuadWellFormed(n: nat)
    ensures forall i :: 0 <= i < |QuadItems(n)| ==> FormatGrammar.WellFormed(QuadItems(n)[i])
    decreases n
  {
    if n <= 1 {
    } else {
      QuadWellFormed(n - 1);
    }
  }

  lemma QuadSpelling(n: nat)
    requires n >= 1
    ensures FormatGrammar.Spell(QuadItems(n)) == if n == 1 then "%u" else "%u." + FormatGrammar.Spell(QuadItems(n - 1))
    decreases n
  {
    assert FormatGrammar.SpellItem(PLAIN_U) == "%u";
    if n == 1 {
      SpellCons(PLAIN_U, []);
      assert [PLAIN_U] + [] == QuadItems(1);
    } else {
      var more := QuadItems(n - 1);
      SpellCons(FormatGrammar.Plain('.'), more);
      SpellCons(PLAIN_U, [FormatGrammar.Plain('.')] + more);
      assert QuadItems(n) == [PLAIN_U] + ([FormatGrammar.Plain('.')] + more);
    }
  }

  lemma QuadFormat()
    ensures FormatGrammar.Spell(QuadItems(4)) == QUAD
  {
    QuadSpelling(1);
    QuadSpelling(2);
    QuadSpelling(3);
    QuadSpelling(4);
    assert "%u." + "%u" == "%u.%u" && "%u." + "%u.%u" == "%u.%u.%u" && "%u." + "%u.%u.%u" == QUAD;
  }

  /** The quad format prints the dotted text, by the grammar of formats. */
  lemma QuadPrints(address: nat)
    requires address < TWO_32
    ensures Dopr.Render(QUAD, QuadArgs(Octets(address))) == Some(Dotted(address))
  {
    var o := Octets(address);
    QuadWellFormed(4);
    QuadFormat();
    FormatGrammar.ScannerMeansItems(QuadItems(4), QuadArgs(o));
    QuadMeans(o);
    DottedIsText(o);
  }

  lemma JoinFour(a: seq<char>, b: seq<char>, c: seq<char>, d: seq<char>)
    ensures Join([a, b, c, d], ".") == a + "." + b + "." + c + "." + d
  {
    assert Join([a], ".") == a;
    assert [a, b][..1] == [a];
    assert Join([a, b], ".") == a + "." + b;
    assert [a, b, c][..2] == [a, b];
    assert Join([a, b, c], ".") == a + "." + b + "." + c;
    assert [a, b, c, d][..3] == [a, b, c];
  }

  lemma Nested(a: seq<char>, b: seq<char>, c: seq<char>, d: seq<char>)
    ensures a + ("." + (b + ("." + (c + ("." + d))))) == a + "." + b + "." + c + "." + d
  {
  }

  lemma QuadTextCons(v: nat, more: seq<nat>)
    requires more != []
    ensures QuadText([v] + more) == Decimal(v) + ("." + QuadText(more))
  {
    assert ([v] + more)[1..] == more;
  }

  lemma DottedIsText(o: seq<nat>)
    requires |o| == 4
    ensures QuadText(o) == Join([Decimal(o[0]), Decimal(o[1]), Decimal(o[2]), Decimal(o[3])], ".")
  {
    QuadTextCons(o[2], [o[3]]);
    QuadTextCons(o[1], [o[2]] + [o[3]]);
    QuadTextCons(o[0], [o[1]] + ([o[2]] + [o[3]]));
    assert o == [o[0]] + ([o[1]] + ([o[2]] + [o[3]]));
    Nested(Decimal(o[0]), Decimal(o[1]), Decimal(o[2]), Decimal(o[3]));
    JoinFour(Decimal(o[0]), Decimal(o[1]), Decimal(o[2]), Decimal(o[3]));
  }

  /** Four numbers of at most three digits and three periods: 15 characters and a nul. */
  lemma DottedFits(address: nat)
    requires address < TWO_32
    ensures |Dotted(address)| <= 15
  {
    var o := Octets(address);
    assert Pow(10, 3) == 1000;
    DigitsFit(o[0], 10, false, 3);
    DigitsFit(o[1], 10, false, 3);
    DigitsFit(o[2], 10, false, 3);
    DigitsFit(o[3], 10, false, 3);
    JoinFour(Decimal(o[0]), Decimal(o[1]), Decimal(o[2]), Decimal(o[3]));
  }

  /** inet_ntoa: the static buffer of 16 bytes holds the whole text and its nul. */
  method InetNtoa(buf: array<char>, address: nat)
    requires buf.Length == 16 && address < TWO_32
    modifies buf
    ensures var text := Dotted(address);
            |text| <= 15 && buf[..|text| + 1] == text + ['\0']
  {
    var o := Octets(address);
    QuadPrints(address);
    DottedFits(address);
    var total := Dopr.VSnprintf(buf, 16, QUAD, QuadArgs(o));
  }

  // ---- The round trip

  lemma DecimalPart(n: nat, last: bool)
    ensures PartValue(Decimal(n), last) == Some(n) && '.' !in Decimal(n)
  {
    DigitsDenote(n, 10, false);
    var d := Decimal(n);
    NoPeriod(d);
    if n == 0 { assert d == "0" && d[1..] == []; }
  }

  lemma NoPeriod(s: seq<char>)
    requires IsNumeral(s, 10)
    ensures '.' !in s
  {
    assert DigitValue('.') == 16;
  }

  /** Parsing the printed text gives the address back. */
  lemma AtonOfNtoa(address: nat)
    requires address < TWO_32
    ensures Meaning(Dotted(address)) == Some(address)
  {
    var o := Octets(address);
    DottedMeans(o);
    OctetSum(address);
  }

  lemma OctetSum(address: nat)
    requires address < TWO_32
    ensures var o := Octets(address); o[0] * 0x100_0000 + o[1] * 0x1_0000 + o[2] * 256 + o[3] == address
  {
  }

  lemma DottedMeans(o: seq<nat>)
    requires |o| == 4 && forall k :: 0 <= k < 4 ==> o[k] <= 255
    ensures Meaning(Join([Decimal(o[0]), Decimal(o[1]), Decimal(o[2]), Decimal(o[3])], "."))
         == Some(o[0] * 0x100_0000 + o[1] * 0x1_0000 + o[2] * 256 + o[3])
  {
    var parts := [Decimal(o[0]), Decimal(o[1]), Decimal(o[2]), Decimal(o[3])];
    forall k | 0 <= k < 4
      ensures '.' !in parts[k] && PartValue(parts[k], false) == PartValue(parts[k], true) == Some(o[k])
    {
      DecimalPart(o[k], false);
      DecimalPart(o[k], true);
    }
    SplitOfJoin(parts, '.');
    FourMean(Join(parts, "."), parts, o);
  }

  /**
   The address of a text whose parts have these values: the last part takes the bits that the parts
   before it, a byte each, leave; no other text has one.
   */
  lemma PartsMean(s: seq<char>, v: seq<nat>)
    requires |v| == |Pieces(s, ".")|
    requires forall k :: 0 <= k < |v| ==> PartValue(Pieces(s, ".")[k], k == |v| - 1) == Some(v[k])
    ensures Meaning(s)
         == if |v| == 1 && v[0] < 0x1_0000_0000 then Some(v[0])
            else if |v| == 2 && v[0] < 256 && v[1] < 0x100_0000 then Some(v[0] * 0x100_0000 + v[1])
            else if |v| == 3 && v[0] < 256 && v[1] < 256 && v[2] < 0x1_0000 then
              Some(v[0] * 0x100_0000 + v[1] * 0x1_0000 + v[2])
            else if |v| == 4 && v[0] < 256 && v[1] < 256 && v[2] < 256 && v[3] < 256 then
              Some(v[0] * 0x100_0000 + v[1] * 0x1_0000 + v[2] * 256 + v[3])
            else None
  {
    ValuesOfParts(Pieces(s, "."), v);
    if |v| == 1 {
      AddressOfOne(v);
    } else if 2 <= |v| <= 4 {
      AddressOfParts(v);
    }
  }

  lemma AddressOfOne(v: seq<nat>)
    requires |v| == 1
    ensures AddressOf(v) == if v[0] < 0x1_0000_0000 then Some(v[0]) else None
  {
    Limits();
    assert v[..0] == [];
  }

  lemma AddressOfParts(v: seq<nat>)
    requires 2 <= |v| <= 4
    ensures AddressOf(v)
         == if |v| == 2 && v[0] < 256 && v[1] < 0x100_0000 then Some(v[0] * 0x100_0000 + v[1])
            else if |v| == 3 && v[0] < 256 && v[1] < 256 && v[2] < 0x1_0000 then
              Some(v[0] * 0x100_0000 + v[1] * 0x1_0000 + v[2])
            else if |v| == 4 && v[0] < 256 && v[1] < 256 && v[2] < 256 && v[3] < 256 then
              Some(v[0] * 0x100_0000 + v[1] * 0x1_0000 + v[2] * 256 + v[3])
            else None
  {
    Limits();
    Positions(v);
  }

  lemma ValuesOfParts(parts: seq<seq<char>>, v: seq<nat>)
    requires |v| == |parts| && parts != []
    requires forall k :: 0 <= k < |v| ==> PartValue(parts[k], k == |v| - 1) == Some(v[k])
    ensures PartValues(parts) == Some(v)
  {
    var n := |parts| - 1;
    var before := LeadingValues(parts[..n]);
    assert before.value == v[..n];
    assert v[..n] + [v[n]] == v;
  }

  /** And a text with a part that is no number has no address. */
  lemma NoPartNoMeaning(s: seq<char>, k: nat)
    requires k < |Pieces(s, ".")| && PartValue(Pieces(s, ".")[k], k == |Pieces(s, ".")| - 1).None?
    ensures Meaning(s).None?
  {
    NoPartNoValues(Pieces(s, "."), k);
  }

  lemma NoPartNoValues(parts: seq<seq<char>>, k: nat)
    requires k < |parts| && PartValue(parts[k], k == |parts| - 1).None?
    ensures PartValues(parts).None?
  {
    var leading := parts[..|parts| - 1];
    if k < |leading| {
      assert leading[k] == parts[k] && PartValue(leading[k], false).None?;
      assert LeadingValues(leading).None?;
    }
  }

  lemma FourMean(s: seq<char>, parts: seq<seq<char>>, o: seq<nat>)
    requires Pieces(s, ".") == parts && |parts| == |o| == 4
    requires forall k :: 0 <= k < 4 ==> o[k] <= 255
    requires forall k :: 0 <= k < 4 ==> PartValue(parts[k], false) == PartValue(parts[k], true) == Some(o[k])
    ensures Meaning(s) == Some(o[0] * 0x100_0000 + o[1] * 0x1_0000 + o[2] * 256 + o[3])
  {
    PartsMean(s, o);
  }

  lemma Positions(o: seq<nat>)
    requires 2 <= |o| <= 4
    ensures HighBytes(o[..1]) == o[0] * 0x100_0000
    ensures |o| >= 3 ==> HighBytes(o[..2]) == o[0] * 0x100_0000 + o[1] * 0x1_0000
    ensures |o| >= 4 ==> HighBytes(o[..3]) == o[0] * 0x100_0000 + o[1] * 0x1_0000 + o[2] * 256
  {
    Limits();
    assert o[..1][..0] == [];
    assert HighBytes(o[..1]) == o[0] * Pow(2, 24);
    if |o| >= 3 {
      assert o[..2][..1] == o[..1];
      assert HighBytes(o[..2]) == o[0] * Pow(2, 24) + o[1] * Pow(2, 16);
    }
    if |o| >= 4 {
      assert o[..3][..2] == o[..2];
      assert HighBytes(o[..3]) == HighBytes(o[..2]) + o[2] * Pow(2, 8);
    }
  }
}
