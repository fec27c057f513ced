/**
 The format language as a grammar, with a meaning given item by item, and the proof that the
 character-at-a-time scanner computes that meaning for every format of the grammar.
 */
module FormatGrammar {
  import opened Common
  import opened Numerals
  import opened Conversions
  import opened Dopr

  /** A width or a precision as written. */
  datatype Amount = Absent | Number(digits: seq<char>) | Star

  /** Plain text, or %[flags][width][.precision][length]conversion; the engine may not know the conversion. */
  datatype Item =
    | Plain(c: char)
    | Directive(flags: seq<char>, width: Amount, precision: Option<Amount>, length: Length, conv: char)

  predicate AllDigits(s: seq<char>) { forall i :: 0 <= i < |s| ==> '0' <= s[i] <= '9' }

  predicate WellFormed(item: Item) {
    match item
    case Plain(c) => c != '%'
    case Directive(flags, width, precision, length, conv) =>
      && (forall i :: 0 <= i < |flags| ==> flags[i] in "-+ #0")
      && (width.Number? ==> AllDigits(width.digits) && width.digits != [] && width.digits[0] != '0')
      && (precision.Some? && precision.value.Number? ==>
            AllDigits(precision.value.digits) && precision.value.digits != [])
      && IsConversion(length, conv)
  }

  /** Any character but one that would be read as an earlier part of the directive. */
  predicate IsConversion(length: Length, c: char) {
    match length
    case NoLength => c !in "-+ #0123456789*.hlL"
    case Long => c != 'l'
    case _ => true
  }

  // ---- Spelling

  function SpellAmount(a: Amount): seq<char> {
    match a
    case Absent => []
    case Number(digits) => digits
    case Star => "*"
  }

  function SpellLength(l: Length): seq<char> {
    match l
    case NoLength => []
    case Short => "h"
    case Long => "l"
    case LongLong => "ll"
    case LongDouble => "L"
  }

  function SpellPrecision(p: Option<Amount>): seq<char> {
    if p.Some? then "." + SpellAmount(p.value) else []
  }

  function Spell(items: seq<Item>): seq<char> {
    if items == [] then []
    else SpellItem(items[0]) + Spell(items[1..])
  }

  function SpellItem(item: Item): seq<char> {
    match item
    case Plain(c) => [c]
    case Directive(flags, width, precision, length, conv) =>
      "%" + flags + SpellAmount(width) + SpellPrecision(precision) + SpellLength(length) + [conv]
  }

  // ---- Meaning

  /** The set of flags given, in any order and however often. */
  function FlagsIn(s: seq<char>): Flags { Flags('-' in s, '+' in s, ' ' in s, '#' in s, '0' in s) }

  /** The value of an amount, and the arguments a star leaves. */
  function Resolve(a: Amount, absent: int, args: seq<Arg>): Option<(int, seq<Arg>)> {
    match a
    case Absent => Some((absent, args))
    case Number(digits) => Some((Value(digits, 10), args))
    case Star => if args != [] && args[0].IntArg? then Some((args[0].value, args[1..])) else None
  }

  /** The spec a directive denotes, and the arguments its stars leave. */
  function SpecOf(item: Item, args: seq<Arg>): Option<(Spec, seq<Arg>)>
    requires item.Directive?
  {
    var w := Resolve(item.width, 0, args);
    if w.None? then None else
    var p := Resolve(if item.precision.Some? then item.precision.value else Absent, -1, w.value.1);
    if p.None? then None else Some((Spec(FlagsIn(item.flags), w.value.0, p.value.0, item.length), p.value.1))
  }

  function Meaning(items: seq<Item>, args: seq<Arg>): Option<seq<char>> {
    if items == [] then Some([])
    else
      match items[0]
      case Plain(c) => Prepend([c], Meaning(items[1..], args))
      case Directive(flags, width, precision, length, conv) =>
        var s := SpecOf(items[0], args);
        if s.None? then None else
        match Convert(s.value.0, conv, s.value.1)
        case Undefined => None
        case Converted(text, rest) => Prepend(text, Meaning(items[1..], rest))
  }

  // ---- The scanner reads the grammar

  function JoinFlags(a: Flags, b: Flags): Flags {
    Flags(a.minus || b.minus, a.plus || b.plus, a.space || b.space, a.num || b.num, a.zero || b.zero)
  }

  lemma FlagsCons(a: Flags, c: char, rest: seq<char>)
    requires IsFlag(c)
    ensures JoinFlags(AddFlag(a, c), FlagsIn(rest)) == JoinFlags(a, FlagsIn([c] + rest))
  {
  }

  lemma {:induction false} ScanFlags(flags: seq<char>, tail: seq<char>, args: seq<Arg>, spec: Spec)
    requires forall i :: 0 <= i < |flags| ==> IsFlag(flags[i])
    requires tail != [] && !IsFlag(tail[0])
    ensures Rest(flags + tail, args, SFlags, spec)
         == Rest(tail, args, SMin, spec.(flags := JoinFlags(spec.flags, FlagsIn(flags))))
    decreases |flags|
  {
    if flags == [] {
      assert flags + tail == tail;
    } else {
      var next := spec.(flags := AddFlag(spec.flags, flags[0]));
      assert (flags + tail)[1..] == flags[1..] + tail;
      ScanFlags(flags[1..], tail, args, next);
      FlagsCons(spec.flags, flags[0], flags[1..]);
      assert flags == [flags[0]] + flags[1..];
    }
  }

  lemma WidthDigit(c: char, rest: seq<char>, args: seq<Arg>, spec: Spec)
    requires IsDigit(c)
    ensures Rest([c] + rest, args, SMin, spec) == Rest(rest, args, SMin, spec.(min := 10 * spec.min + DigitValue(c)))
  {
    assert ([c] + rest)[1..] == rest;
  }

  lemma PrecisionDigit(c: char, rest: seq<char>, args: seq<Arg>, spec: Spec)
    requires IsDigit(c)
    ensures Rest([c] + rest, args, SMax, spec)
         == Rest(rest, args, SMax, spec.(max := 10 * Max(spec.max, 0) + DigitValue(c)))
  {
    assert ([c] + rest)[1..] == rest;
  }

  lemma ValueSnoc(done: seq<char>, c: char)
    ensures Value(done + [c], 10) == 10 * Value(done, 10) + DigitValue(c)
  {
    assert (done + [c])[..|done|] == done;
  }

  lemma NextDigit(done: seq<char>, digits: seq<char>, tail: seq<char>)
    requires digits != []
    ensures digits + tail == [digits[0]] + (digits[1..] + tail)
    ensures done + digits == done + [digits[0]] + digits[1..]
  {
  }

  /** Reading digits from the left accumulates their positional value. */
  lemma {:induction false} ScanWidth(done: seq<char>, digits: seq<char>, tail: seq<char>, args: seq<Arg>, spec: Spec)
    requires AllDigits(digits) && spec.min == Value(done, 10)
    requires tail != [] && !IsDigit(tail[0]) && tail[0] != '*'
    ensures Rest(digits + tail, args, SMin, spec) == Rest(tail, args, SDot, spec.(min := Value(done + digits, 10)))
    decreases |digits|
  {
    if digits == [] {
      assert digits + tail == tail && done + digits == done;
    } else {
      var more := done + [digits[0]];
      ValueSnoc(done, digits[0]);
      NextDigit(done, digits, tail);
      WidthDigit(digits[0], digits[1..] + tail, args, spec);
      ScanWidth(more, digits[1..], tail, args, spec.(min := Value(more, 10)));
    }
  }

  /** A precision with no digits after the point counts as none. */
  function PrecisionValue(digits: seq<char>): int { if digits == [] then -1 else Value(digits, 10) }

  lemma {:induction false} ScanPrecision(done: seq<char>, digits: seq<char>, tail: seq<char>, args: seq<Arg>,
                                         spec: Spec)
    requires AllDigits(digits) && spec.max == PrecisionValue(done)
    requires tail != [] && !IsDigit(tail[0]) && tail[0] != '*'
    ensures Rest(digits + tail, args, SMax, spec)
         == Rest(tail, args, SMod, spec.(max := PrecisionValue(done + digits)))
    decreases |digits|
  {
    if digits == [] {
      assert digits + tail == tail && done + digits == done;
    } else {
      var more := done + [digits[0]];
      ValueSnoc(done, digits[0]);
      NextDigit(done, digits, tail);
      PrecisionDigit(digits[0], digits[1..] + tail, args, spec);
      ScanPrecision(more, digits[1..], tail, args, spec.(max := PrecisionValue(more)));
    }
  }

  lemma ScanLength(length: Length, conv: char, tail: seq<char>, args: seq<Arg>, spec: Spec)
    requires IsConversion(length, conv) && spec.length == NoLength
    ensures Rest(SpellLength(length) + [conv] + tail, args, SMod, spec)
         == Rest([conv] + tail, args, SConv, spec.(length := length))
  {
    var all := SpellLength(length) + [conv] + tail;
    match length
    case NoLength =>
      assert all == [conv] + tail;
    case Short =>
      assert all[1..] == [conv] + tail;
    case LongDouble =>
      assert all[1..] == [conv] + tail;
    case Long =>
      assert all[1..] == [conv] + tail;
    case LongLong =>
      assert all[1..][1..] == [conv] + tail;
  }

  lemma ScanPrecisionPart(precision: Option<Amount>, tail: seq<char>, args: seq<Arg>, spec: Spec)
    requires spec.max == -1 && tail != [] && !IsDigit(tail[0]) && tail[0] != '*' && tail[0] != '.'
    requires precision.Some? && precision.value.Number? ==>
               AllDigits(precision.value.digits) && precision.value.digits != []
    ensures var p := Resolve(if precision.Some? then precision.value else Absent, -1, args);
            Rest(SpellPrecision(precision) + tail, args, SDot, spec)
            == if p.Some? then Rest(tail, p.value.1, SMod, spec.(max := p.value.0)) else None
  {
    var all := SpellPrecision(precision) + tail;
    if precision.None? {
      assert all == tail;
    } else if precision.value.Star? {
      assert all[1..] == "*" + tail;
      assert all[1..][1..] == tail;
    } else {
      var digits := if precision.value.Number? then precision.value.digits else [];
      assert all == "." + (digits + tail);
      WrittenPrecision(digits, tail, args, spec);
    }
  }

  lemma WrittenPrecision(digits: seq<char>, tail: seq<char>, args: seq<Arg>, spec: Spec)
    requires spec.max == -1 && AllDigits(digits) && tail != [] && !IsDigit(tail[0]) && tail[0] != '*'
    ensures Rest("." + (digits + tail), args, SDot, spec)
         == Rest(tail, args, SMod, spec.(max := PrecisionValue(digits)))
  {
    var all := "." + (digits + tail);
    assert all[1..] == digits + tail;
    ScanPrecision([], digits, tail, args, spec);
    assert [] + digits == digits;
  }

  lemma ScanWidthPart(width: Amount, tail: seq<char>, args: seq<Arg>, spec: Spec)
    requires spec.min == 0 && tail != [] && !IsDigit(tail[0]) && tail[0] != '*'
    requires width.Number? ==> AllDigits(width.digits)
    ensures var w := Resolve(width, 0, args);
            Rest(SpellAmount(width) + tail, args, SMin, spec)
            == if w.Some? then Rest(tail, w.value.1, SDot, spec.(min := w.value.0)) else None
  {
    if width.Star? {
      assert ("*" + tail)[1..] == tail;
    } else {
      var digits := if width.Number? then width.digits else [];
      ScanWidth([], digits, tail, args, spec);
      assert [] + digits == digits;
    }
  }

  function AfterFlags(item: Item, tail: seq<char>): seq<char>
    requires item.Directive?
  {
    SpellAmount(item.width) + (SpellPrecision(item.precision) + (SpellLength(item.length) + [item.conv] + tail))
  }

  lemma ScanAfterFlags(item: Item, tail: seq<char>, args: seq<Arg>)
    requires item.Directive? && WellFormed(item)
    ensures var s := SpecOf(item, args);
            Rest(AfterFlags(item, tail), args, SMin, NO_SPEC.(flags := FlagsIn(item.flags)))
            == if s.None? then None else Rest([item.conv] + tail, s.value.1, SConv, s.value.0)
  {
    var t0 := SpellLength(item.length) + [item.conv] + tail;
    var t1 := SpellPrecision(item.precision) + t0;
    Heads(item, tail);
    var spec := NO_SPEC.(flags := FlagsIn(item.flags));
    ScanWidthPart(item.width, t1, args, spec);
    var w := Resolve(item.width, 0, args);
    if w.Some? {
      spec := spec.(min := w.value.0);
      ScanPrecisionPart(item.precision, t0, w.value.1, spec);
      var p := Resolve(if item.precision.Some? then item.precision.value else Absent, -1, w.value.1);
      if p.Some? {
        ScanLength(item.length, item.conv, tail, p.value.1, spec.(max := p.value.0));
      }
    }
  }

  /** From the '%', the scanner reaches the conversion with exactly the directive written. */
  lemma ScanItem(item: Item, tail: seq<char>, args: seq<Arg>)
    requires item.Directive? && WellFormed(item)
    ensures var s := SpecOf(item, args);
            Rest(SpellItem(item) + tail, args, SDefault, NO_SPEC)
            == if s.None? then None else Rest([item.conv] + tail, s.value.1, SConv, s.value.0)
  {
    var all, rest := SpellItem(item) + tail, AfterFlags(item, tail);
    SpellingSplits(item, tail);
    Heads(item, tail);
    assert Rest(all, args, SDefault, NO_SPEC) == Rest(item.flags + rest, args, SFlags, NO_SPEC);
    ScanFlags(item.flags, rest, args, NO_SPEC);
    ScanAfterFlags(item, tail, args);
  }

  lemma SpellingSplits(item: Item, tail: seq<char>)
    requires item.Directive?
    ensures var all := SpellItem(item) + tail;
            all != [] && all[0] == '%' && all[1..] == item.flags + AfterFlags(item, tail)
  {
    assert SpellItem(item) + tail == "%" + (item.flags + AfterFlags(item, tail));
  }

  /** What may follow each part of a directive. */
  lemma Heads(item: Item, tail: seq<char>)
    requires item.Directive? && WellFormed(item)
    ensures var t0 := SpellLength(item.length) + [item.conv] + tail;
            var t1 := SpellPrecision(item.precision) + t0;
            var t2 := SpellAmount(item.width) + t1;
            && t0 != [] && !IsDigit(t0[0]) && t0[0] != '*' && t0[0] != '.' && !IsFlag(t0[0])
            && t1 != [] && !IsDigit(t1[0]) && t1[0] != '*' && !IsFlag(t1[0])
            && t2 != [] && !IsFlag(t2[0])
  {
    var t0 := SpellLength(item.length) + [item.conv] + tail;
    assert t0[0] == if item.length == NoLength then item.conv else SpellLength(item.length)[0];
  }

  /** The scanner prints what the items mean, one after the other. */
  lemma {:induction false} ScannerMeansItems(items: seq<Item>, args: seq<Arg>)
    requires forall i :: 0 <= i < |items| ==> WellFormed(items[i])
    ensures Render(Spell(items), args) == Meaning(items, args)
    decreases |items|
  {
    if items == [] {
    } else {
      var item, tail := items[0], Spell(items[1..]);
      assert WellFormed(item);
      if item.Plain? {
        assert (SpellItem(item) + tail)[1..] == tail;
        ScannerMeansItems(items[1..], args);
      } else {
        ScanItem(item, tail, args);
        var s := SpecOf(item, args);
        if s.Some? {
          assert ([item.conv] + tail)[1..] == tail;
          var r := Convert(s.value.0, item.conv, s.value.1);
          if r.Converted? { ScannerMeansItems(items[1..], r.rest); }
        }
      }
    }
  }
}
