/** The format scanner of snprintf.c, and vsnprintf and vasprintf on top of it. */
module Dopr {
  import opened Common
  import opened Numerals
  import opened BoundedOutput
  import opened Conversions

  datatype State = SDefault | SFlags | SMin | SDot | SMax | SMod | SModL | SConv | SDone

  datatype Length = NoLength | Short | Long | LongLong | LongDouble

  /** What the scanner has read of a directive so far; `max` is negative when there is no precision. */
  datatype Spec = Spec(flags: Flags, min: int, max: int, length: Length)

  const NO_FLAGS := Flags(false, false, false, false, false)
  const NO_SPEC := Spec(NO_FLAGS, 0, -1, NoLength)

  /** One variable argument, with the type the caller passed. */
  datatype Arg = IntArg(value: int) | StrArg(chars: Option<seq<char>>) | DoubleArg(number: real)

  /** The text of one conversion and the arguments left, if the call is defined. */
  datatype Converted = Undefined | Converted(text: seq<char>, rest: seq<Arg>)

  predicate IsFlag(c: char) { c == '-' || c == '+' || c == ' ' || c == '#' || c == '0' }

  function AddFlag(flags: Flags, c: char): Flags {
    if c == '-' then flags.(minus := true)
    else if c == '+' then flags.(plus := true)
    else if c == ' ' then flags.(space := true)
    else if c == '#' then flags.(num := true)
    else if c == '0' then flags.(zero := true)
    else flags
  }

  // ---- Integer arguments

  predicate IsSignedConv(c: char) { c == 'd' || c == 'i' }

  predicate IsUnsignedConv(c: char) { c == 'o' || c == 'u' || c == 'x' || c == 'X' }

  function Base(c: char): nat { if c == 'o' then 8 else if c == 'x' || c == 'X' then 16 else 10 }

  /** The type an integer conversion reads: 64 bits with l or ll, 32 otherwise. */
  predicate InArgRange(v: int, signed: bool, length: Length) {
    var wide := length == Long || length == LongLong;
    if signed then if wide then -TWO_63 < v < TWO_63 else -0x8000_0000 <= v < 0x8000_0000
    else 0 <= v < if wide then TWO_64 else 0x1_0000_0000
  }

  /** The value assigned after the promotion and the cast to short. */
  function Stored(v: int, signed: bool, length: Length): (w: int)
    requires InArgRange(v, signed, length)
    ensures -TWO_63 <= w < TWO_63 && (signed ==> w != -TWO_63)
  {
    if length == Short then
      if signed then (v + 0x8000) % 0x1_0000 - 0x8000 else v % 0x1_0000
    else ToSigned(v)
  }

  /** What an integer directive prints. */
  function IntConversion(spec: Spec, c: char, v: int): seq<char>
    requires InArgRange(v, IsSignedConv(c), spec.length)
  {
    var signed := IsSignedConv(c);
    var w := Stored(v, signed, spec.length);
    IntText(Sign(w < 0, signed, spec.flags), Digits(Magnitude(w, signed), Base(c), c == 'X'),
            spec.min, spec.max, spec.flags)
  }

  /**
   One conversion.  An argument of the wrong type or a missing one is undefined behaviour in C;
   so are, here, the conversions outside this model (e, E, g, G, p, n, w).  Unknown characters
   are skipped.
   */
  function Convert(spec: Spec, c: char, args: seq<Arg>): Converted {
    if IsSignedConv(c) || IsUnsignedConv(c) then
      if args != [] && args[0].IntArg? && InArgRange(args[0].value, IsSignedConv(c), spec.length)
      then Converted(IntConversion(spec, c, args[0].value), args[1..])
      else Undefined
    else if c == 'f' then
      if args != [] && args[0].DoubleArg? && Abs(args[0].number) + 1.0 < TWO_63 as real
      then Converted(FloatText(args[0].number, spec.min, spec.max, spec.flags), args[1..])
      else Undefined
    else if c == 'c' then
      if args != [] && args[0].IntArg? then Converted([(args[0].value % 256) as char], args[1..]) else Undefined
    else if c == 's' then
      if args != [] && args[0].StrArg?
      then Converted(StrText(args[0].chars, spec.min, spec.max, spec.flags), args[1..])
      else Undefined
    else if c == '%' then Converted("%", args)
    else if c in "eEgGpnw" then Undefined
    else Converted([], args)
  }

  // ---- The scanner as a function

  function Rank(s: State): nat {
    match s
    case SFlags => 7 case SMin => 6 case SDot => 5 case SMax => 4
    case SMod => 3 case SModL => 2 case SConv => 1 case _ => 0
  }

  function Prepend(t: seq<char>, r: Option<seq<char>>): Option<seq<char>> {
    if r.Some? then Some(t + r.value) else None
  }

  /** What is still to be printed from the middle of a format; None when an argument does not fit. */
  function Rest(fmt: seq<char>, args: seq<Arg>, state: State, spec: Spec): Option<seq<char>>
    decreases |fmt|, Rank(state)
  {
    if fmt == [] || state == SDone then Some([])
    else
      var c, tail := fmt[0], fmt[1..];
      match state
      case SDefault =>
        if c == '%' then Rest(tail, args, SFlags, spec) else Prepend([c], Rest(tail, args, SDefault, spec))
      case SFlags =>
        if IsFlag(c) then Rest(tail, args, SFlags, spec.(flags := AddFlag(spec.flags, c)))
        else Rest(fmt, args, SMin, spec)
      case SMin =>
        if IsDigit(c) then Rest(tail, args, SMin, spec.(min := 10 * spec.min + DigitValue(c)))
        else if c == '*' then
          if args != [] && args[0].IntArg? then Rest(tail, args[1..], SDot, spec.(min := args[0].value)) else None
        else Rest(fmt, args, SDot, spec)
      case SDot =>
        if c == '.' then Rest(tail, args, SMax, spec) else Rest(fmt, args, SMod, spec)
      case SMax =>
        if IsDigit(c) then Rest(tail, args, SMax, spec.(max := 10 * Max(spec.max, 0) + DigitValue(c)))
        else if c == '*' then
          if args != [] && args[0].IntArg? then Rest(tail, args[1..], SMod, spec.(max := args[0].value)) else None
        else Rest(fmt, args, SMod, spec)
      case SMod =>
        if c == 'h' then Rest(tail, args, SConv, spec.(length := Short))
        else if c == 'l' then Rest(tail, args, SModL, spec.(length := Long))
        else if c == 'L' then Rest(tail, args, SConv, spec.(length := LongDouble))
        else Rest(fmt, args, SConv, spec)
      case SModL =>
        if c == 'l' then Rest(tail, args, SConv, spec.(length := LongLong)) else Rest(fmt, args, SConv, spec)
      case SConv =>
        match Convert(spec, c, args)
        case Undefined => None
        case Converted(text, rest) => Prepend(text, Rest(tail, rest, SDefault, NO_SPEC))
  }

  /** What a whole format prints. */
  function Render(fmt: seq<char>, args: seq<Arg>): Option<seq<char>> { Rest(fmt, args, SDefault, NO_SPEC) }

  // ---- The scanner as a state machine

  /** The conversion of one directive, through fmtint, fmtfp, fmtstr or dopr_outch. */
  method EmitConversion(out: Output, spec: Spec, c: char, args: seq<Arg>) returns (total: nat, rest: seq<Arg>)
    requires out.Valid() && Convert(spec, c, args).Converted?
    modifies out, out.buffer
    ensures out.Valid() && rest == Convert(spec, c, args).rest
    ensures out.text == old(out.text) + Convert(spec, c, args).text && total == |Convert(spec, c, args).text|
  {
    total, rest := 0, args;
    if IsSignedConv(c) || IsUnsignedConv(c) {
      var signed := IsSignedConv(c);
      var value := Stored(args[0].value, signed, spec.length);
      total := FmtInt(out, value, Base(c), spec.min, spec.max, spec.flags, signed, c == 'X');
      rest := args[1..];
    } else if c == 'f' {
      total := FmtFp(out, args[0].number, spec.min, spec.max, spec.flags);
      rest := args[1..];
    } else if c == 'c' {
      total := out.Outch((args[0].value % 256) as char);
      rest := args[1..];
    } else if c == 's' {
      total := FmtStr(out, args[0].chars, spec.flags, spec.min, spec.max);
      rest := args[1..];
    } else if c == '%' {
      total := out.Outch(c);
    }
  }

  /** The states between the '%' and the conversion character, none of which prints. */
  method ScanDirective(format: seq<char>, p: nat, args: seq<Arg>, state: State, spec: Spec)
    returns (p': nat, args': seq<Arg>, state': State, spec': Spec)
    requires p < |format| && Rank(state) >= 2
    requires Rest(format[p..], args, state, spec).Some?
    ensures p <= p' <= p + 1 <= |format| && (p' == p ==> Rank(state') < Rank(state)) && state' != SDone
    ensures Rest(format[p'..], args', state', spec') == Rest(format[p..], args, state, spec)
  {
    var c := format[p];
    assert format[p..][1..] == format[p + 1..];
    p', args', state', spec' := p, args, state, spec;
    match state
    case SFlags =>
      if IsFlag(c) {
        p', spec' := p + 1, spec.(flags := AddFlag(spec.flags, c));
      } else {
        state' := SMin;
      }
    case SMin =>
      if IsDigit(c) {
        p', spec' := p + 1, spec.(min := 10 * spec.min + DigitValue(c));
      } else if c == '*' {
        p', args', state', spec' := p + 1, args[1..], SDot, spec.(min := args[0].value);
      } else {
        state' := SDot;
      }
    case SDot =>
      if c == '.' {
        p', state' := p + 1, SMax;
      } else {
        state' := SMod;
      }
    case SMax =>
      if IsDigit(c) {
        p', spec' := p + 1, spec.(max := 10 * Max(spec.max, 0) + DigitValue(c));
      } else if c == '*' {
        p', args', state', spec' := p + 1, args[1..], SMod, spec.(max := args[0].value);
      } else {
        state' := SMod;
      }
    case SMod =>
      if c == 'h' {
        p', state', spec' := p + 1, SConv, spec.(length := Short);
      } else if c == 'l' {
        p', state', spec' := p + 1, SModL, spec.(length := Long);
      } else if c == 'L' {
        p', state', spec' := p + 1, SConv, spec.(length := LongDouble);
      } else {
        state' := SConv;
      }
    case SModL =>
      if c == 'l' {
        p', spec' := p + 1, spec.(length := LongLong);
      }
      state' := SConv;
  }

  /** The two states that print: plain text, and the conversion character. */
  method Emit(out: Output, format: seq<char>, p: nat, args: seq<Arg>, state: State, spec: Spec)
    returns (n: nat, args': seq<Arg>, state': State, spec': Spec, ghost emitted: seq<char>)
    requires out.Valid() && p < |format| && (state == SDefault || state == SConv)
    requires Rest(format[p..], args, state, spec).Some?
    modifies out, out.buffer
    ensures out.Valid() && out.text == old(out.text) + emitted && n == |emitted| && state' != SDone
    ensures Rest(format[p..], args, state, spec) == Prepend(emitted, Rest(format[p + 1..], args', state', spec'))
  {
    var c := format[p];
    assert format[p..][1..] == format[p + 1..];
    n, args', state', spec', emitted := 0, args, SDefault, spec, [];
    if state == SConv {
      emitted := Convert(spec, c, args).text;
      n, args' := EmitConversion(out, spec, c, args);
      spec' := NO_SPEC;
    } else if c == '%' {
      state' := SFlags;
      Unchanged(Rest(format[p + 1..], args, SFlags, spec));
    } else {
      emitted := [c];
      n := out.Outch(c);
    }
  }

  lemma Unchanged(r: Option<seq<char>>)
    ensures Prepend([], r) == r
  {
    assert r.Some? ==> [] + r.value == r.value;
  }

  /** `rest` is what the format from position p still prints. */
  ghost predicate Pending(format: seq<char>, p: nat, args: seq<Arg>, state: State, spec: Spec, rest: seq<char>) {
    p <= |format| && Rest(format[p..], args, state, spec) == Some(rest)
  }

  /** One turn of the loop of dopr. */
  method Step(out: Output, format: seq<char>, p: nat, args: seq<Arg>, state: State, spec: Spec, ghost rest: seq<char>)
    returns (n: nat, p': nat, args': seq<Arg>, state': State, spec': Spec, ghost rest': seq<char>)
    requires out.Valid() && p < |format| && state != SDone && Pending(format, p, args, state, spec, rest)
    modifies out, out.buffer
    ensures out.Valid() && state' != SDone
    ensures p <= p' <= |format| && (p' == p ==> Rank(state') < Rank(state))
    ensures Pending(format, p', args', state', spec', rest')
    ensures out.text + rest' == old(out.text) + rest && |out.text| == |old(out.text)| + n
  {
    n, p', args', state', spec' := 0, p, args, state, spec;
    if state == SDefault || state == SConv {
      ghost var emitted;
      p' := p + 1;
      n, args', state', spec', emitted := Emit(out, format, p, args, state, spec);
      rest' := Rest(format[p'..], args', state', spec').value;
      Rejoin(old(out.text), emitted, rest');
    } else {
      p', args', state', spec' := ScanDirective(format, p, args, state, spec);
      rest' := rest;
    }
  }

  /** dopr: one character of the format at a time, each looked at until a state consumes it. */
  method Dopr(out: Output, format: seq<char>, arguments: seq<Arg>) returns (total: nat)
    requires out.Valid() && out.text == []
    requires '\0' !in format && Render(format, arguments).Some?
    modifies out, out.buffer
    ensures out.Valid() && out.text == Render(format, arguments).value && total == |out.text|
  {
    var state, spec, args, p := SDefault, NO_SPEC, arguments, 0;
    total := 0;
    assert format[0..] == format;
    ghost var whole := Render(format, arguments).value;
    ghost var rest := whole;
    while state != SDone
      invariant out.Valid() && total == |out.text| && out.text + rest == whole
      invariant 0 <= p <= |format| && Pending(format, p, args, state, spec, rest)
      decreases state != SDone, |format| - p, Rank(state)
    {
      if p == |format| {
        state := SDone;
      } else {
        var n: nat;
        n, p, args, state, spec, rest := Step(out, format, p, args, state, spec, rest);
        total := total + n;
      }
    }
    assert rest == [];
  }

  /**
   vsnprintf: the result is the full length; a buffer of n bytes holds the first min(length, n - 1)
   characters and a nul, and is otherwise untouched.  A buffer of size zero still gets the nul.
   */
  method VSnprintf(str: array?<char>, count: nat, format: seq<char>, args: seq<Arg>) returns (total: nat)
    requires Fits(str, count)
    requires '\0' !in format && Render(format, args).Some?
    modifies str
    ensures var text := Render(format, args).value;
            && total == |text|
            && (str != null ==>
                  var kept := if |text| < count then |text| else if count == 0 then 0 else count - 1;
                  str[..] == text[..kept] + ['\0'] + old(str[..])[kept + 1..])
  {
    if str != null { str[0] := '\0'; }
    var out := new Output(str, count);
    total := Dopr(out, format, args);
    if str != null {
      out.Terminate();
      ghost var kept := if total < count then total else if count == 0 then 0 else count - 1;
      assert out.currlen == kept && str[..] == out.text[..kept] + ['\0'] + old(str[..])[kept + 1..];
    }
  }

  /** vasprintf: measure with a null buffer, allocate, fill.  Truncation never happens. */
  method VAsprintf(format: seq<char>, args: seq<Arg>, allocates: bool) returns (strp: array?<char>, status: int)
    requires '\0' !in format && Render(format, args).Some?
    ensures allocates ==> strp != null && fresh(strp) && strp[..] == Render(format, args).value + ['\0']
                          && status == |Render(format, args).value|
    ensures !allocates ==> strp == null && status == -1
  {
    var needed := VSnprintf(null, 0, format, args);
    if !allocates { return null, -1; }
    strp := new char[needed + 1];
    status := VSnprintf(strp, needed + 1, format, args);
  }
}
