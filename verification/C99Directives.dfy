/**
 Whole directives and whole formats against section 7.19.6.1 of C99: what a directive asks, which
 directives the engine prints otherwise, and that all others are printed as asked.
 */
module C99Directives {
  import opened Common
  import opened Numerals
  import opened Conversions
  import opened Dopr
  import opened FormatGrammar
  import opened C99Layout

  predicate SignedAsked(c: char) { c == 'd' || c == 'i' }

  predicate IntegerAsked(c: char) { SignedAsked(c) || c == 'u' || c == 'o' || c == 'x' || c == 'X' }

  function BaseAsked(c: char): nat {
    match c
    case 'o' => 8
    case 'x' => 16
    case 'X' => 16
    case _ => 10
  }

  /** The values of the type a conversion and its length name: int or 64 bits; of the latter not the least. */
  predicate OfType(v: int, signed: bool, length: Length) {
    match length
    case Long => if signed then -0x8000_0000_0000_0000 < v < 0x8000_0000_0000_0000 else 0 <= v < 0x1_0000_0000_0000_0000
    case LongLong =>
      if signed then -0x8000_0000_0000_0000 < v < 0x8000_0000_0000_0000 else 0 <= v < 0x1_0000_0000_0000_0000
    case _ => if signed then -0x8000_0000 <= v < 0x8000_0000 else 0 <= v < 0x1_0000_0000
  }

  /** The value C99 converts: the promoted argument, cut to a short with h. */
  function Cast(v: int, signed: bool, length: Length): int {
    if length != Short then v
    else if signed then (v + 0x8000) % 0x1_0000 - 0x8000 else v % 0x1_0000
  }

  /** The engine's round trip through a signed 64-bit variable prints that value. */
  lemma CastAgrees(v: int, signed: bool, length: Length)
    requires OfType(v, signed, length)
    ensures InArgRange(v, signed, length)
    ensures var w, c := Stored(v, signed, length), Cast(v, signed, length);
            && Magnitude(w, signed) == (if c < 0 then -c else c)
            && (signed ==> (w < 0 <==> c < 0)) && (!signed ==> c >= 0)
  {
  }

  /**
   The directives compared here.  Where the standard leaves a flag, precision, length or null pointer
   undefined there is nothing to compare; wide characters, the conversions e, E, g, G, n and p, and
   arguments outside this model are left out by this project, not by the standard.  The conversions
   a and A and the lengths hh, j, z and t, which the scanner does not know, follow below.  `prec` is
   the precision asked for, negative when omitted.
   */
  predicate Defined(spec: Spec, prec: int, c: char, args: seq<Arg>) {
    if IntegerAsked(c) then
      && args != [] && args[0].IntArg? && OfType(args[0].value, SignedAsked(c), spec.length)
      && spec.length != LongDouble && (spec.flags.num ==> c in "oxX")
    else if c == 'f' || c == 'F' then
      && args != [] && args[0].DoubleArg? && -9223372036854775807.0 < args[0].number < 9223372036854775807.0
      && (spec.length == NoLength || spec.length == Long || spec.length == LongDouble)
    else if c == 'c' then
      args != [] && args[0].IntArg? && !spec.flags.num && !spec.flags.zero && spec.length == NoLength && prec < 0
    else if c == 's' then
      && args != [] && args[0].StrArg? && args[0].chars.Some?
      && !spec.flags.num && !spec.flags.zero && spec.length == NoLength
    else c == '%' && spec == NO_SPEC && prec < 0
  }

  /** What the standard prints for a value that an integer conversion converts. */
  function NumberAsked(v: int, c: char, width: int, prec: int, flags: Flags): seq<char> {
    var magnitude := if v < 0 then -v else v;
    IntReference(SignAsked(v < 0, SignedAsked(c), flags), magnitude, DigitsAsked(magnitude, BaseAsked(c), c == 'X'),
                 BaseAsked(c), c == 'X', width, prec, flags)
  }

  predicate NumberDeparts(v: int, c: char, width: int, prec: int, flags: Flags) {
    var magnitude := if v < 0 then -v else v;
    IntDeparts(SignAsked(v < 0, SignedAsked(c), flags), magnitude, DigitsAsked(magnitude, BaseAsked(c), c == 'X'),
               BaseAsked(c), width, prec, flags)
  }

  /** What the standard prints for a directive. */
  function Asked(spec: Spec, prec: int, c: char, args: seq<Arg>): seq<char>
    requires Defined(spec, prec, c, args)
  {
    var flags := spec.flags;
    if IntegerAsked(c) then NumberAsked(Cast(args[0].value, SignedAsked(c), spec.length), c, spec.min, prec, flags)
    else if c == 'f' || c == 'F' then FloatReference(args[0].number, spec.min, prec, flags)
    else if c == 'c' then
      Justified([], [(args[0].value % 256) as char], Width(spec.min), flags.minus || spec.min < 0, false)
    else if c == 's' then StrReference(args[0].chars.value, spec.min, prec, flags)
    else "%"
  }

  /** The directives printed otherwise. */
  predicate Departs(spec: Spec, prec: int, c: char, args: seq<Arg>)
    requires Defined(spec, prec, c, args)
  {
    if IntegerAsked(c) then
      NumberDeparts(Cast(args[0].value, SignedAsked(c), spec.length), c, spec.min, prec, spec.flags)
    else if c == 'F' then true
    else if c == 'f' then FloatDeparts(args[0].number, spec.min, spec.max, prec, spec.flags)
    else if c == 'c' then Width(spec.min) > 1
    else if c == 's' then StrDeparts(args[0].chars.value, spec.min, spec.max, prec)
    else false
  }

  /** A conversion prints what C99 asks exactly when it is not one of those. */
  lemma ConversionMeetsC99(spec: Spec, prec: int, c: char, args: seq<Arg>)
    requires Defined(spec, prec, c, args) && (spec.max == prec || (spec.max == -1 && prec == 0))
    ensures var rest := if c == '%' || c == 'F' then args else args[1..];
            Convert(spec, c, args) == Converted(Convert(spec, c, args).text, rest)
    ensures Convert(spec, c, args).text == Asked(spec, prec, c, args) <==> !Departs(spec, prec, c, args)
  {
    if IntegerAsked(c) {
      IntegerMeetsC99(spec, prec, c, args[0].value);
    } else if c == 'f' {
      FloatMeetsC99(args[0].number, spec.min, spec.max, prec, spec.flags);
    } else if c == 'F' {
      FloatAsksText(args[0].number, spec.min, prec, spec.flags);
    } else if c == 'c' {
      CharMeetsC99((args[0].value % 256) as char, spec.min, spec.flags);
    } else if c == 's' {
      StrMeetsC99(args[0].chars.value, spec.min, spec.max, prec, spec.flags);
    }
  }

  /** A number asked for is never no text at all. */
  lemma FloatAsksText(x: real, width: int, prec: int, flags: Flags)
    ensures FloatReference(x, width, prec, flags) != []
  {
    assert |WholeAsked(x, if prec < 0 then 6 else prec)| >= 1;
  }

  lemma IntegerMeetsC99(spec: Spec, prec: int, c: char, v: int)
    requires IntegerAsked(c) && OfType(v, SignedAsked(c), spec.length)
    requires spec.max == prec || (spec.max == -1 && prec == 0)
    ensures var w := Cast(v, SignedAsked(c), spec.length);
            IntConversion(spec, c, v) == NumberAsked(w, c, spec.min, prec, spec.flags)
            <==> !NumberDeparts(w, c, spec.min, prec, spec.flags)
  {
    IntegerPrinted(spec, c, v);
    NumberMeetsC99(Cast(v, SignedAsked(c), spec.length), c, spec.min, spec.max, prec, spec.flags);
  }

  lemma NumberMeetsC99(w: int, c: char, width: int, max: int, prec: int, flags: Flags)
    requires IntegerAsked(c) && Max(max, 0) == Max(prec, 0)
    ensures NumberPrinted(w, c, width, max, flags) == NumberAsked(w, c, width, prec, flags)
            <==> !NumberDeparts(w, c, width, prec, flags)
  {
    IntMeetsC99(SignAsked(w < 0, SignedAsked(c), flags), if w < 0 then -w else w, BaseAsked(c), c == 'X',
                width, max, prec, flags);
  }

  /** The layout of fmtint around the sign and the digits asked for. */
  function NumberPrinted(w: int, c: char, width: int, max: int, flags: Flags): seq<char> {
    IntText(SignAsked(w < 0, SignedAsked(c), flags), DigitsAsked(if w < 0 then -w else w, BaseAsked(c), c == 'X'),
            width, max, flags)
  }

  /** Departing or not, an integer is printed with the sign and the digits asked for. */
  lemma IntegerPrinted(spec: Spec, c: char, v: int)
    requires IntegerAsked(c) && OfType(v, SignedAsked(c), spec.length)
    ensures IntConversion(spec, c, v)
         == NumberPrinted(Cast(v, SignedAsked(c), spec.length), c, spec.min, spec.max, spec.flags)
  {
    CastAgrees(v, SignedAsked(c), spec.length);
    var w := Cast(v, SignedAsked(c), spec.length);
    DigitsPrinted(if w < 0 then -w else w, BaseAsked(c), c == 'X');
  }

  // ---- Directives as written

  /** The precision a directive asks for: a point without digits asks for zero. */
  function PrecisionAsked(item: Item, spec: Spec): int
    requires item.Directive?
  {
    if item.precision == Some(Absent) then 0 else spec.max
  }

  /** A directive of the grammar with everything it needs, as the standard defines it. */
  predicate DefinedItem(item: Item, args: seq<Arg>)
    requires item.Directive?
  {
    var s := SpecOf(item, args);
    s.Some? && Defined(s.value.0, PrecisionAsked(item, s.value.0), item.conv, s.value.1)
  }

  function AskedItem(item: Item, args: seq<Arg>): seq<char>
    requires item.Directive? && DefinedItem(item, args)
  {
    var (spec, rest) := SpecOf(item, args).value;
    Asked(spec, PrecisionAsked(item, spec), item.conv, rest)
  }

  predicate DepartsItem(item: Item, args: seq<Arg>)
    requires item.Directive? && DefinedItem(item, args)
  {
    var (spec, rest) := SpecOf(item, args).value;
    Departs(spec, PrecisionAsked(item, spec), item.conv, rest)
  }

  /** The arguments a directive leaves. */
  function Left(item: Item, args: seq<Arg>): seq<Arg>
    requires item.Directive? && DefinedItem(item, args)
  {
    var (spec, rest) := SpecOf(item, args).value;
    if item.conv == '%' || item.conv == 'F' then rest else rest[1..]
  }

  lemma PrecisionKnown(item: Item, args: seq<Arg>)
    requires item.Directive? && SpecOf(item, args).Some?
    ensures var spec := SpecOf(item, args).value.0;
            spec.max == PrecisionAsked(item, spec) || (spec.max == -1 && PrecisionAsked(item, spec) == 0)
  {
  }

  /** A directive alone is rendered as the standard asks exactly when it does not depart. */
  lemma DirectiveMeetsC99(item: Item, args: seq<Arg>)
    requires item.Directive? && WellFormed(item) && DefinedItem(item, args)
    ensures Render(Spell([item]), args) == Some(AskedItem(item, args)) <==> !DepartsItem(item, args)
  {
    ScannerMeansItems([item], args);
    OneItem(item, [], args);
    var text := ItemText(item, args);
    assert text + [] == text;
  }

  /** What the engine prints for a directive. */
  function ItemText(item: Item, args: seq<Arg>): seq<char>
    requires item.Directive? && DefinedItem(item, args)
  {
    var (spec, rest) := SpecOf(item, args).value;
    var r := Convert(spec, item.conv, rest);
    if r.Converted? then r.text else []
  }

  lemma OneItem(item: Item, more: seq<Item>, args: seq<Arg>)
    requires item.Directive? && DefinedItem(item, args)
    ensures Meaning([item] + more, args) == Prepend(ItemText(item, args), Meaning(more, Left(item, args)))
    ensures ItemText(item, args) == AskedItem(item, args) <==> !DepartsItem(item, args)
  {
    var (spec, rest) := SpecOf(item, args).value;
    PrecisionKnown(item, args);
    ConversionMeetsC99(spec, PrecisionAsked(item, spec), item.conv, rest);
    assert ([item] + more)[1..] == more;
  }

  // ---- Directives the scanner does not know

  /** A conversion it does not know prints nothing and leaves the argument to the next directive. */
  lemma UnknownConversion(item: Item, args: seq<Arg>)
    requires item.Directive? && WellFormed(item) && item.conv !in "diouxXfcs%eEgGpnw"
    ensures Render(Spell([item]), args) == if SpecOf(item, args).Some? then Some([]) else None
  {
    ScannerMeansItems([item], args);
    if SpecOf(item, args).Some? {
      var (spec, rest) := SpecOf(item, args).value;
      assert Convert(spec, item.conv, rest) == Converted([], rest);
      assert [item][1..] == [] && Meaning([], rest) == Some([]);
      Unchanged(Meaning([], rest));
    }
  }

  /** The text of %a or %A for a number, an infinity or not a number: some letter at least. */
  ghost predicate HexFloat(t: seq<char>) {
    exists i :: 0 <= i < |t| && ('a' <= t[i] <= 'z' || 'A' <= t[i] <= 'Z')
  }

  /** So %F, %a and %A are never printed as asked, whatever the number. */
  lemma UnknownConversionDeparts(item: Item, args: seq<Arg>, x: real, t: seq<char>)
    requires item.Directive? && WellFormed(item) && item.conv in "FaA" && HexFloat(t)
    ensures Render(Spell([item]), args) != Some(t)
    ensures SpecOf(item, args).Some? ==>
              var spec := SpecOf(item, args).value.0;
              Render(Spell([item]), args) != Some(FloatReference(x, spec.min, PrecisionAsked(item, spec), spec.flags))
  {
    UnknownConversion(item, args);
    if SpecOf(item, args).Some? {
      var spec := SpecOf(item, args).value.0;
      FloatAsksText(x, spec.min, PrecisionAsked(item, spec), spec.flags);
    }
  }

  const UNKNOWN_LENGTHS: set<seq<char>> := {"hh", "j", "z", "t"}

  /** A directive with one of those lengths. */
  function SpellUnknown(flags: seq<char>, width: Amount, precision: Option<Amount>, letters: seq<char>,
                        conv: char): seq<char>
  {
    "%" + flags + SpellAmount(width) + SpellPrecision(precision) + letters + [conv]
  }

  /** What the scanner takes it for: a directive that ends in the last letter of the length, and plain text. */
  function Misread(flags: seq<char>, width: Amount, precision: Option<Amount>, letters: seq<char>): Item
    requires letters != []
  {
    Directive(flags, width, precision, if letters == "hh" then Short else NoLength, letters[|letters| - 1])
  }

  /** The conversion letter is printed instead of the number, and the argument is left to the next directive. */
  lemma UnknownLength(flags: seq<char>, width: Amount, precision: Option<Amount>, letters: seq<char>, conv: char,
                      args: seq<Arg>)
    requires letters in UNKNOWN_LENGTHS && conv in "diouxXn" && WellFormed(Misread(flags, width, precision, letters))
    ensures Render(SpellUnknown(flags, width, precision, letters, conv), args)
         == if SpecOf(Misread(flags, width, precision, letters), args).Some? then Some([conv]) else None
  {
    var item := Misread(flags, width, precision, letters);
    var items := [item] + [Plain(conv)];
    MisreadSpells(flags, width, precision, letters, conv);
    ScannerMeansItems(items, args);
    NothingThenLetter(item, conv, args);
  }

  lemma NothingThenLetter(item: Item, c: char, args: seq<Arg>)
    requires item.Directive? && item.conv in "hjzt"
    ensures Meaning([item] + [Plain(c)], args) == if SpecOf(item, args).Some? then Some([c]) else None
  {
    assert ([item] + [Plain(c)])[1..] == [Plain(c)] && [Plain(c)][1..] == [];
    if SpecOf(item, args).Some? {
      var (spec, rest) := SpecOf(item, args).value;
      assert Convert(spec, item.conv, rest) == Converted([], rest);
      assert [c] + [] == [c];
      assert Meaning([Plain(c)], rest) == Some([c]);
      Unchanged(Meaning([Plain(c)], rest));
    }
  }

  lemma MisreadSpells(flags: seq<char>, width: Amount, precision: Option<Amount>, letters: seq<char>, conv: char)
    requires letters in UNKNOWN_LENGTHS
    ensures Spell([Misread(flags, width, precision, letters)] + [Plain(conv)])
         == SpellUnknown(flags, width, precision, letters, conv)
  {
    var item := Misread(flags, width, precision, letters);
    var items := [item] + [Plain(conv)];
    assert items[1..] == [Plain(conv)] && [Plain(conv)][1..] == [];
    assert Spell([Plain(conv)]) == [conv] + [] == [conv];
    assert SpellLength(item.length) + [item.conv] == letters;
    var head := "%" + flags + SpellAmount(width) + SpellPrecision(precision);
    Rejoin(head, SpellLength(item.length), [item.conv]);
  }

  /** So these directives are never printed as asked, whatever the value after its conversion to the type. */
  lemma UnknownLengthDeparts(flags: seq<char>, width: Amount, precision: Option<Amount>, letters: seq<char>, conv: char,
                             args: seq<Arg>, v: int)
    requires letters in UNKNOWN_LENGTHS && IntegerAsked(conv) && (SignedAsked(conv) || v >= 0)
    requires WellFormed(Misread(flags, width, precision, letters))
    requires SpecOf(Misread(flags, width, precision, letters), args).Some?
    ensures var item := Misread(flags, width, precision, letters);
            var spec := SpecOf(item, args).value.0;
            Render(SpellUnknown(flags, width, precision, letters, conv), args)
            != Some(NumberAsked(v, conv, spec.min, PrecisionAsked(item, spec), spec.flags))
  {
    var item := Misread(flags, width, precision, letters);
    var spec := SpecOf(item, args).value.0;
    UnknownLength(flags, width, precision, letters, conv, args);
    NumberIsNoLetter(v, conv, spec.min, PrecisionAsked(item, spec), spec.flags);
  }

  lemma NumberIsNoLetter(v: int, c: char, width: int, prec: int, flags: Flags)
    requires IntegerAsked(c)
    ensures NumberAsked(v, c, width, prec, flags) != [c]
  {
    var magnitude := if v < 0 then -v else v;
    var sign := SignAsked(v < 0, SignedAsked(c), flags);
    ConversionIsNoDigit(c, v < 0, flags);
    DigitsAreDigits(magnitude, BaseAsked(c), c == 'X');
    NoLetter(sign, magnitude, DigitsAsked(magnitude, BaseAsked(c), c == 'X'), BaseAsked(c), c, width, prec, flags);
  }

  lemma DigitsAreDigits(n: nat, base: nat, upper: bool)
    requires 2 <= base <= 16
    ensures IsNumeral(DigitsAsked(n, base, upper), base)
  {
    DigitsDenote(n, base, upper);
    DigitsPrinted(n, base, upper);
  }

  lemma ConversionIsNoDigit(c: char, negative: bool, flags: Flags)
    requires IntegerAsked(c)
    ensures c in "diouxX" && DigitValue(c) >= BaseAsked(c) && c !in SignAsked(negative, SignedAsked(c), flags)
  {
  }

  /** No number asked for consists of a conversion letter alone. */
  lemma NoLetter(sign: seq<char>, value: nat, d: seq<char>, base: nat, c: char, width: int, prec: int, flags: Flags)
    requires c in "diouxX" && DigitValue(c) >= base && IsNumeral(d, base) && base <= 16
    requires c !in sign
    ensures IntReference(sign, value, d, base, c == 'X', width, prec, flags) != [c]
  {
    var prefix, body := Prefix(value, base, c == 'X', flags), IntBody(value, d, base, prec, flags);
    var t := IntReference(sign, value, d, base, c == 'X', width, prec, flags);
    assert c !in d;
    assert c !in body;
    if prefix != [] {
      assert |t| >= 2;
    } else {
      assert sign + prefix == sign;
      assert c !in t;
    }
  }

  // ---- Whole formats

  /** Every directive of the format is defined, and none departs. */
  predicate Conforms(items: seq<Item>, args: seq<Arg>) {
    if items == [] then true
    else if items[0].Plain? then Conforms(items[1..], args)
    else DefinedItem(items[0], args) && !DepartsItem(items[0], args) && Conforms(items[1..], Left(items[0], args))
  }

  function AskedFormat(items: seq<Item>, args: seq<Arg>): seq<char>
    requires Conforms(items, args)
  {
    if items == [] then []
    else if items[0].Plain? then [items[0].c] + AskedFormat(items[1..], args)
    else AskedItem(items[0], args) + AskedFormat(items[1..], Left(items[0], args))
  }

  lemma {:induction false} ItemsConform(items: seq<Item>, args: seq<Arg>)
    requires Conforms(items, args)
    ensures Meaning(items, args) == Some(AskedFormat(items, args))
    decreases |items|
  {
    if items == [] {
    } else if items[0].Plain? {
      ItemsConform(items[1..], args);
    } else {
      ItemsConform(items[1..], Left(items[0], args));
      FirstConforms(items, args);
    }
  }

  lemma FirstConforms(items: seq<Item>, args: seq<Arg>)
    requires items != [] && items[0].Directive? && DefinedItem(items[0], args) && !DepartsItem(items[0], args)
    ensures Meaning(items, args) == Prepend(AskedItem(items[0], args), Meaning(items[1..], Left(items[0], args)))
  {
    assert items == [items[0]] + items[1..];
    OneItem(items[0], items[1..], args);
  }

  /** A format without departures is rendered exactly as the standard asks. */
  lemma FormatMeetsC99(items: seq<Item>, args: seq<Arg>)
    requires Conforms(items, args) && forall i :: 0 <= i < |items| ==> WellFormed(items[i])
    ensures Render(Spell(items), args) == Some(AskedFormat(items, args))
  {
    ScannerMeansItems(items, args);
    ItemsConform(items, args);
  }
}
