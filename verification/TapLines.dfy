/** How runtests.c cuts the output of a test into lines and reads each of them. */
module TapLines {
  import opened Common
  import opened Numerals
  import opened CNumbers
  import opened RunTests

  // ---- fgets

  /** The end of the first line that fgets returns: past a newline, or where the buffer or the output is full. */
  function LineEnd(s: seq<char>, most: nat): (k: nat)
    requires s != [] && most >= 1
    ensures 1 <= k <= |s| && k <= most
  {
    if s[0] == '\n' || |s| == 1 || most == 1 then 1 else 1 + LineEnd(s[1..], most - 1)
  }

  /** The output as successive calls of fgets with a buffer of `size` bytes see it. */
  function Lines(output: seq<char>, size: nat): seq<seq<char>>
    requires size >= 2
  {
    if output == [] then []
    else
      var k := LineEnd(output, size - 1);
      [output[..k]] + Lines(output[k..], size)
  }

  /** A whole line that fits the buffer. */
  predicate IsLine(t: seq<char>, size: nat) {
    1 <= |t| < size && t[|t| - 1] == '\n' && '\n' !in t[..|t| - 1]
  }

  lemma {:induction false} FirstLine(t: seq<char>, rest: seq<char>, most: nat)
    requires IsLine(t, most + 1)
    ensures LineEnd(t + rest, most) == |t|
    decreases |t|
  {
    var s := t + rest;
    if |t| == 1 {
    } else {
      assert t[0] == t[..|t| - 1][0];
      assert s[1..] == t[1..] + rest && t[1..][..|t| - 2] == t[..|t| - 1][1..];
      FirstLine(t[1..], rest, most - 1);
    }
  }

  /** Lines that fit are read one by one. */
  lemma {:induction false} LinesRead(texts: seq<seq<char>>, size: nat)
    requires size >= 2 && forall k :: 0 <= k < |texts| ==> IsLine(texts[k], size)
    ensures Lines(Concat(texts), size) == texts
    decreases |texts|
  {
    if texts == [] {
    } else {
      var rest := Concat(texts[1..]);
      FirstLine(texts[0], rest, size - 1);
      assert (texts[0] + rest)[..|texts[0]|] == texts[0] && (texts[0] + rest)[|texts[0]|..] == rest;
      LinesRead(texts[1..], size);
    }
  }

  // ---- test_checkline and test_plan, as far as they only read the line

  const BAIL := "Bail out!"

  /** strstr: the text from the first occurrence on. */
  function StrStr(s: seq<char>, pattern: seq<char>): (r: Option<seq<char>>)
    ensures r.Some? ==> pattern <= r.value
  {
    if pattern <= s then Some(s) else if s == [] then None else StrStr(s[1..], pattern)
  }

  function Lower(c: char): char { if 'A' <= c <= 'Z' then 'a' + (c - 'A') else c }

  /** strncasecmp with the length of the word. */
  predicate StartsWithWord(s: seq<char>, word: seq<char>) {
    |s| >= |word| && forall i :: 0 <= i < |word| ==> Lower(s[i]) == word[i]
  }

  /** What follows a hash mark and white space. */
  function Comment(s: seq<char>): Option<seq<char>> {
    var t := SkipSpaces(s);
    if t != [] && t[0] == '#' then Some(SkipSpaces(t[1..])) else None
  }

  function LexPlan(line: seq<char>): Line {
    var dotted := "1.." <= line;
    var count := Strtol(if dotted then line[3..] else line);
    var comment := Comment(count.end);
    PlanLine(dotted, count.value, comment.Some? && StartsWithWord(comment.value, "skip"))
  }

  function LexDirective(comment: Option<seq<char>>): Directive {
    if comment.None? then NoDirective
    else if StartsWithWord(comment.value, "skip") then SkipTest
    else if StartsWithWord(comment.value, "todo") then TodoTest
    else NoDirective
  }

  function LexResult(line: seq<char>): Line {
    var ok := !("not " <= line);
    var status := if ok then line else line[4..];
    if !("ok" <= status) then Ignored
    else
      var number := SkipSpaces(status[2..]);
      var n := Strtol(number);
      Result(ok, if n.overflow || n.end == number then None else Some(n.value),
             LexDirective(Comment(number[DigitRun(number)..])))
  }

  /** One line as fgets returns it. */
  function Lex(line: seq<char>): Line {
    var bail := StrStr(line, BAIL);
    if bail.Some? then BailOut(SkipSpaces(bail.value[|BAIL|..]) != [])
    else if line == [] || line[|line| - 1] != '\n' || line[0] == '#' then Ignored
    else if IsDigit(line[0]) then LexPlan(line)
    else LexResult(line)
  }

  function LexAll(lines: seq<seq<char>>): (r: seq<Line>)
    ensures |r| == |lines| && forall k :: 0 <= k < |r| ==> r[k] == Lex(lines[k])
  {
    seq(|lines|, k requires 0 <= k < |lines| => Lex(lines[k]))
  }

  /** The bail-out text occurs somewhere. */
  ghost predicate Mentions(s: seq<char>, pattern: seq<char>) {
    exists i :: 0 <= i <= |s| && pattern <= s[i..]
  }

  lemma {:induction false} StrStrFinds(s: seq<char>, pattern: seq<char>)
    ensures StrStr(s, pattern).Some? <==> Mentions(s, pattern)
    decreases |s|
  {
    if pattern <= s {
      assert s[0..] == s;
    } else if s != [] {
      StrStrFinds(s[1..], pattern);
      if Mentions(s[1..], pattern) {
        var i :| 0 <= i <= |s[1..]| && pattern <= s[1..][i..];
        assert s[1..][i..] == s[i + 1..];
      }
      if Mentions(s, pattern) {
        var i :| 0 <= i <= |s| && pattern <= s[i..];
        assert i > 0 by { assert s[0..] == s; }
        assert s[1..][i - 1..] == s[i..];
      }
    } else {
      assert forall i :: 0 <= i <= |s| ==> s[i..] == [];
    }
  }

  /** Text without the pattern does not get it from a prefix that cannot start it and a newline that is not in it. */
  lemma PatternFree(prefix: seq<char>, text: seq<char>, pattern: seq<char>)
    requires pattern != [] && pattern[0] !in prefix && '\n' !in pattern && StrStr(text, pattern).None?
    ensures StrStr(prefix + text + "\n", pattern).None?
  {
    var line := prefix + text + "\n";
    StrStrFinds(line, pattern);
    StrStrFinds(text, pattern);
    forall i | 0 <= i <= |line|
      ensures !(pattern <= line[i..])
    {
      NotAt(prefix, text, pattern, i);
    }
  }

  lemma NotAt(prefix: seq<char>, text: seq<char>, pattern: seq<char>, i: nat)
    requires pattern != [] && pattern[0] !in prefix && '\n' !in pattern && !Mentions(text, pattern)
    requires i <= |prefix + text + "\n"|
    ensures !(pattern <= (prefix + text + "\n")[i..])
  {
    var line, n, j := prefix + text + "\n", |pattern|, i - |prefix|;
    if i < |prefix| {
      assert line[i..][0] == prefix[i];
    } else if i + n < |line| {
      assert line[i..][..n] == text[j..][..n];
      assert !(pattern <= text[j..]);
    } else if i + n == |line| {
      assert line[i..][n - 1] == '\n';
    }
  }

  // ---- Lines too long for the buffer

  /** The part of a line before its end that a full buffer cuts off. */
  lemma {:induction false} FullBuffer(filler: seq<char>, rest: seq<char>)
    requires filler != [] && '\n' !in filler && rest != []
    ensures LineEnd(filler + rest, |filler|) == |filler|
    decreases |filler|
  {
    var s := filler + rest;
    assert s[0] == filler[0] != '\n';
    if |filler| == 1 {
    } else {
      assert s[1..] == filler[1..] + rest;
      FullBuffer(filler[1..], rest);
    }
  }

  /** A line of any length: a newline at the end and nowhere else. */
  predicate WholeLine(line: seq<char>) {
    line != [] && line[|line| - 1] == '\n' && '\n' !in line[..|line| - 1]
  }

  /** A line cut into full buffers and a last part, which keeps the newline. */
  function Parts(line: seq<char>, most: nat): (r: seq<seq<char>>)
    requires most >= 1 && line != []
    ensures r != []
    decreases |line|
  {
    if |line| <= most then [line] else [line[..most]] + Parts(line[most..], most)
  }

  /** A line longer than the buffer: a full buffer without a newline, and a shorter line. */
  lemma CutLine(line: seq<char>, most: nat)
    requires most >= 1 && WholeLine(line) && |line| > most
    ensures '\n' !in line[..most] && WholeLine(line[most..]) && line == line[..most] + line[most..]
    ensures Parts(line, most) == [line[..most]] + Parts(line[most..], most)
  {
    var text, tail := line[..|line| - 1], line[most..];
    assert line[..most] == text[..most];
    assert tail[..|tail| - 1] == text[most..];
  }

  /** fgets returns a line in its parts, whatever follows it. */
  lemma {:induction false} LongLine(line: seq<char>, rest: seq<char>, size: nat)
    requires size >= 2 && WholeLine(line)
    ensures Lines(line + rest, size) == Parts(line, size - 1) + Lines(rest, size)
    decreases |line|
  {
    var most, s := size - 1, line + rest;
    if |line| <= most {
      FirstLine(line, rest, most);
      assert s[..|line|] == line && s[|line|..] == rest;
    } else {
      var filler, tail := line[..most], line[most..];
      CutLine(line, most);
      LongLine(tail, rest, size);
      CutOff(filler, tail + rest, size);
      Rejoin(filler, tail, rest);
      assert [filler] + (Parts(tail, most) + Lines(rest, size)) == [filler] + Parts(tail, most) + Lines(rest, size);
    }
  }

  lemma CutOff(filler: seq<char>, rest: seq<char>, size: nat)
    requires filler != [] && '\n' !in filler && rest != [] && size == |filler| + 1
    ensures Lines(filler + rest, size) == [filler] + Lines(rest, size)
  {
    FullBuffer(filler, rest);
    assert (filler + rest)[..|filler|] == filler && (filler + rest)[|filler|..] == rest;
  }

  /** The parts one by one: all but the last fill the buffer. */
  lemma {:induction false} PartAt(line: seq<char>, most: nat, k: nat)
    requires most >= 1 && WholeLine(line) && k < |Parts(line, most)|
    ensures most * k < |line|
    ensures k < |Parts(line, most)| - 1
            ==> most * k + most < |line| && Parts(line, most)[k] == line[most * k..most * k + most]
    ensures k == |Parts(line, most)| - 1 ==> |line| <= most * k + most && Parts(line, most)[k] == line[most * k..]
    decreases k
  {
    if |line| <= most || k == 0 {
      assert most * 0 == 0;
    } else {
      var tail, at := line[most..], most * (k - 1);
      CutLine(line, most);
      PartAt(tail, most, k - 1);
      Distribute(most, k);
      if k < |Parts(line, most)| - 1 {
        assert tail[at..at + most] == line[most + at..most + at + most];
      } else {
        assert tail[at..] == line[most + at..];
      }
    }
  }

  lemma Distribute(a: nat, k: nat)
    requires k >= 1
    ensures a * k == a + a * (k - 1)
  {
  }

  /** A full buffer without a newline is ignored, unless it bails out. */
  lemma PartIgnored(part: seq<char>)
    requires part != [] && '\n' !in part
    ensures if StrStr(part, BAIL).None? then Lex(part) == Ignored else Lex(part).BailOut?
  {
  }

  /**
   A line that leaves the harness as it is: no bail-out, and cut short, a comment, a count without
   "1.." once there is a plan, or nothing that starts with "ok" or "not ok".
   */
  predicate Harmless(text: seq<char>, plan: Plan) {
    && StrStr(text, BAIL).None?
    && (|| text == [] || text[|text| - 1] != '\n' || text[0] == '#'
        || (if IsDigit(text[0]) then !("1.." <= text) && plan != PlanInit else !("ok" <= text) && !("not ok" <= text)))
  }

  /** What may be read without effect. */
  predicate Idle(line: Line, plan: Plan) {
    line.Ignored? || (line.PlanLine? && !line.dotted && plan != PlanInit)
  }

  lemma IdleStep(t: Tests, line: Line)
    requires !t.aborted && Safe(t, line)
    ensures Step(t, line) == t <==> Idle(line, t.plan)
  {
  }

  lemma HarmlessIsIdle(text: seq<char>, plan: Plan)
    ensures Idle(Lex(text), plan) <==> Harmless(text, plan)
  {
    if StrStr(text, BAIL).None? && text != [] && text[|text| - 1] == '\n' && text[0] != '#' && !IsDigit(text[0]) {
      ResultOrNot(text);
    }
  }

  lemma ResultOrNot(text: seq<char>)
    ensures LexResult(text).Ignored? || LexResult(text).Result?
    ensures LexResult(text).Ignored? <==> !("ok" <= text) && !("not ok" <= text)
  {
    if "not " <= text {
      NotOk(text);
      assert text[0] == "not "[0] != "ok"[0];
    }
  }

  lemma NotOk(text: seq<char>)
    requires "not " <= text
    ensures "ok" <= text[4..] <==> "not ok" <= text
  {
    if "ok" <= text[4..] {
      assert text[4] == "ok"[0] && text[5] == "ok"[1];
    }
    if "not ok" <= text {
      assert text[4] == "not ok"[4] && text[5] == "not ok"[5];
    }
  }

  /** A single line leaves the harness as it is exactly when it is harmless. */
  lemma RunOne(t: Tests, text: seq<char>)
    requires !t.aborted && SafeRun(t, LexAll([text]))
    ensures Run(t, LexAll([text])) == t <==> Harmless(text, t.plan)
  {
    assert LexAll([text])[1..] == [];
    IdleStep(t, Lex(text));
    HarmlessIsIdle(text, t.plan);
  }

  /** A full buffer is skipped, or ends the run. */
  lemma RunPart(t: Tests, part: seq<char>, more: seq<seq<char>>)
    requires !t.aborted && part != [] && '\n' !in part && SafeRun(t, LexAll([part] + more))
    ensures if StrStr(part, BAIL).None?
            then SafeRun(t, LexAll(more)) && Run(t, LexAll([part] + more)) == Run(t, LexAll(more))
            else Run(t, LexAll([part] + more)).aborted
  {
    PartIgnored(part);
    var lines := LexAll([part] + more);
    assert lines[0] == Lex(part) && lines[1..] == LexAll(more);
    RunUnfolds(t, lines);
  }

  /** No part but the last bails out. */
  ghost predicate NoBailBefore(parts: seq<seq<char>>) {
    forall k :: 0 <= k < |parts| - 1 ==> StrStr(parts[k], BAIL).None?
  }

  lemma NoBailCons(part: seq<char>, more: seq<seq<char>>)
    requires more != []
    ensures NoBailBefore([part] + more) <==> StrStr(part, BAIL).None? && NoBailBefore(more)
    ensures ([part] + more)[|more|] == more[|more| - 1]
  {
    var parts := [part] + more;
    assert parts[0] == part;
    assert forall k :: 0 <= k < |more| ==> parts[k + 1] == more[k];
    assert forall k :: 0 < k < |parts| ==> parts[k] == more[k - 1];
  }

  /** The parts leave the harness as it is exactly when they are harmless. */
  ghost predicate PartsDecide(t: Tests, parts: seq<seq<char>>) {
    parts != [] && SafeRun(t, LexAll(parts))
    && (Run(t, LexAll(parts)) == t <==> NoBailBefore(parts) && Harmless(parts[|parts| - 1], t.plan))
  }

  lemma OnePart(t: Tests, part: seq<char>, more: seq<seq<char>>)
    requires !t.aborted && part != [] && '\n' !in part && SafeRun(t, LexAll([part] + more))
    requires more != [] && (StrStr(part, BAIL).None? ==> PartsDecide(t, more))
    ensures PartsDecide(t, [part] + more)
  {
    RunPart(t, part, more);
    NoBailCons(part, more);
  }

  /**
   What a line of any length does: nothing exactly when none of its full buffers bails out and its
   last part, read as a line of its own, is harmless.
   */
  lemma {:induction false} LongLineTail(t: Tests, line: seq<char>, most: nat)
    requires most >= 1 && WholeLine(line) && !t.aborted && SafeRun(t, LexAll(Parts(line, most)))
    ensures PartsDecide(t, Parts(line, most))
    decreases |line|
  {
    if |line| <= most {
      RunOne(t, line);
    } else {
      var filler, more := line[..most], Parts(line[most..], most);
      CutLine(line, most);
      RunPart(t, filler, more);
      if StrStr(filler, BAIL).None? { LongLineTail(t, line[most..], most); }
      OnePart(t, filler, more);
    }
  }

  /** A line too long for the buffer that still reports a test: its tail is "ok 1". */
  lemma TailReports(filler: seq<char>)
    requires |filler| >= 5 && '\n' !in filler && StrStr(filler, BAIL).None?
    ensures Lines(filler + "ok 1\n", |filler| + 1) == [filler] + ["ok 1\n"]
    ensures Lex(filler) == Ignored && Lex("ok 1\n") == Result(true, Some(1), NoDirective)
  {
    OkOne();
    TwoParts(filler, "ok 1\n");
  }

  lemma TwoParts(filler: seq<char>, tail: seq<char>)
    requires filler != [] && '\n' !in filler && WholeLine(tail) && |tail| <= |filler|
    ensures Lines(filler + tail, |filler| + 1) == [filler] + [tail]
  {
    CutOff(filler, tail, |filler| + 1);
    LinesRead([tail], |filler| + 1);
    assert Concat([tail]) == tail;
  }

  lemma OkOne()
    ensures IsLine("ok 1\n", 6) && Lex("ok 1\n") == Result(true, Some(1), NoDirective)
  {
    assert Decimal(1) == "1";
    assert ResultLine(true, 1, "\n") == "ok 1\n";
    StrStrFinds("ok 1\n", BAIL);
    ResultReads(true, 1, "\n");
    assert "\n"[1..] == [];
  }

  // ---- Result lines

  /** The words of a result line, in front of anything that is not a space. */
  lemma AfterOk(number: seq<char>)
    requires number != [] && !IsSpace(number[0])
    ensures var status := "ok " + number;
            "ok" <= status && SkipSpaces(status[2..]) == number
  {
    var status := "ok " + number;
    assert status[2..] == [' '] + number;
    assert status[2..][1..] == number;
  }

  lemma AfterNot(ok: bool, status: seq<char>)
    requires status != [] && status[0] == 'o'
    ensures var line := (if ok then [] else "not ") + status;
            ("not " <= line <==> !ok) && line[if ok then 0 else 4..] == status && !IsDigit(line[0]) && line[0] != '#'
  {
    var line := (if ok then [] else "not ") + status;
    if ok { assert line == status && line[0] != "not "[0]; } else { assert line[..4] == "not "; }
  }

  lemma NumberReads(n: nat, tail: seq<char>)
    requires n <= LONG_MAX && tail != [] && !IsDigit(tail[0])
    ensures var number := Decimal(n) + tail;
            && Strtol(number) == Long(n, false, tail) && tail != number && number[DigitRun(number)..] == tail
            && !IsSpace(number[0])
  {
    var number := Decimal(n) + tail;
    StrtolReads(n, tail);
    assert |number| == |Decimal(n)| + |tail|;
    assert number[|Decimal(n)|..] == tail;
  }

  lemma ResultLexed(ok: bool, number: seq<char>)
    requires number != [] && !IsSpace(number[0])
    ensures var n := Strtol(number);
            LexResult((if ok then [] else "not ") + ("ok " + number))
            == Result(ok, if n.overflow || n.end == number then None else Some(n.value),
                      LexDirective(Comment(number[DigitRun(number)..])))
  {
    AfterOk(number);
    AfterNot(ok, "ok " + number);
  }

  /** A result line, whatever follows its number. */
  lemma ResultReads(ok: bool, n: nat, tail: seq<char>)
    requires 1 <= n <= LONG_MAX && tail != [] && tail[|tail| - 1] == '\n' && !IsDigit(tail[0])
    requires StrStr(ResultLine(ok, n, tail), BAIL).None?
    ensures Lex(ResultLine(ok, n, tail)) == Result(ok, Some(n), LexDirective(Comment(tail)))
  {
    var number, line := Decimal(n) + tail, ResultLine(ok, n, tail);
    NumberReads(n, tail);
    LastOf(ok, number);
    AfterNot(ok, "ok " + number);
    assert Lex(line) == LexResult(line);
    ResultLexed(ok, number);
  }

  lemma LastOf(ok: bool, number: seq<char>)
    requires number != []
    ensures var line := (if ok then [] else "not ") + ("ok " + number);
            line[|line| - 1] == number[|number| - 1]
  {
  }

  function ResultLine(ok: bool, n: nat, tail: seq<char>): seq<char> {
    (if ok then [] else "not ") + ("ok " + (Decimal(n) + tail))
  }

  // ---- What a line says, on its text

  /** The text begins with a word in any mixture of cases. */
  predicate Begins(s: seq<char>, lower: seq<char>, upper: seq<char>)
    requires |lower| == |upper|
  {
    |s| >= |lower| && forall i :: 0 <= i < |lower| ==> s[i] == lower[i] || s[i] == upper[i]
  }

  lemma SkipBegins(s: seq<char>)
    ensures StartsWithWord(s, "skip") <==> Begins(s, "skip", "SKIP")
  {
    assert "skip"[0] == 's' && "skip"[1] == 'k' && "skip"[2] == 'i' && "skip"[3] == 'p';
    assert "SKIP"[0] == 'S' && "SKIP"[1] == 'K' && "SKIP"[2] == 'I' && "SKIP"[3] == 'P';
    forall i, c: char | 0 <= i < 4
      ensures Lower(c) == "skip"[i] <==> c == "skip"[i] || c == "SKIP"[i]
    {
      LowerIs(c);
    }
  }

  lemma TodoBegins(s: seq<char>)
    ensures StartsWithWord(s, "todo") <==> Begins(s, "todo", "TODO")
  {
    assert "todo"[0] == 't' && "todo"[1] == 'o' && "todo"[2] == 'd' && "todo"[3] == 'o';
    assert "TODO"[0] == 'T' && "TODO"[1] == 'O' && "TODO"[2] == 'D' && "TODO"[3] == 'O';
    forall i, c: char | 0 <= i < 4
      ensures Lower(c) == "todo"[i] <==> c == "todo"[i] || c == "TODO"[i]
    {
      LowerIs(c);
    }
  }

  lemma LowerIs(c: char)
    ensures Lower(c) as int == if 'A' as int <= c as int <= 'Z' as int then c as int + 32 else c as int
  {
  }

  /** A comment that begins with skip or todo is a directive; nothing else is. */
  lemma DirectiveReads(spaces: seq<char>, blanks: seq<char>, text: seq<char>)
    requires Spaces(spaces) && Spaces(blanks) && NoSpaceFirst(text)
    ensures LexDirective(Comment(spaces + ("#" + (blanks + text))))
         == if Begins(text, "skip", "SKIP") then SkipTest else if Begins(text, "todo", "TODO") then TodoTest
            else NoDirective
  {
    var hash := "#" + (blanks + text);
    SpacesSkipped(spaces, hash);
    assert hash[1..] == blanks + text;
    SpacesSkipped(blanks, text);
    SkipBegins(text);
    TodoBegins(text);
  }

  lemma NoComment(spaces: seq<char>, text: seq<char>)
    requires Spaces(spaces) && NoSpaceFirst(text) && (text == [] || text[0] != '#')
    ensures Comment(spaces + text) == None
  {
    SpacesSkipped(spaces, text);
  }

  /** A result line: the status, white space, a number that may be signed or too large, and a comment. */
  lemma ResultForms(ok: bool, spaces: seq<char>, sign: seq<char>, digits: seq<char>, tail: seq<char>)
    requires Spaces(spaces) && IsSign(sign) && digits != []
    requires (forall i :: 0 <= i < |digits| ==> '0' <= digits[i] <= '9') && (tail == [] || !('0' <= tail[0] <= '9'))
    ensures var v: int := if Negated(sign) then -(Value(digits, 10) as int) else Value(digits, 10);
            LexResult((if ok then [] else "not ") + ("ok" + (spaces + (sign + (digits + tail)))))
            == Result(ok, if -0x8000_0000_0000_0000 <= v <= 0x7fff_ffff_ffff_ffff then Some(v) else None,
                      if sign == [] then LexDirective(Comment(tail)) else NoDirective)
  {
    var number := digits + tail;
    var t := sign + number;
    SignRead(sign, number);
    StrtolDenotes([], sign, digits, tail);
    assert [] + t == t;
    NumberOrSign(sign, digits, tail);
    StatusSplits(ok, spaces, t);
    assert tail != t;
  }

  /** What stands after the digits of a number; in front of a sign there are none. */
  lemma NumberOrSign(sign: seq<char>, digits: seq<char>, tail: seq<char>)
    requires IsSign(sign) && digits != []
    requires (forall i :: 0 <= i < |digits| ==> '0' <= digits[i] <= '9') && (tail == [] || !('0' <= tail[0] <= '9'))
    ensures var t := sign + (digits + tail);
            LexDirective(Comment(t[DigitRun(t)..])) == if sign == [] then LexDirective(Comment(tail)) else NoDirective
  {
    var number := digits + tail;
    var t := sign + number;
    RunOfDigits(digits, tail);
    SignRead(sign, number);
    if sign == [] {
      assert t == number && number[|digits|..] == tail;
    } else {
      assert t[0] != '#' && DigitRun(t) == 0 && t[0..] == t;
      NoComment([], t);
      assert [] + t == t;
    }
  }

  lemma StatusSplits(ok: bool, spaces: seq<char>, t: seq<char>)
    requires Spaces(spaces) && NoSpaceFirst(t)
    ensures var line := (if ok then [] else "not ") + ("ok" + (spaces + t));
            var n := Strtol(t);
            LexResult(line) == Result(ok, if n.overflow || n.end == t then None else Some(n.value),
                                      LexDirective(Comment(t[DigitRun(t)..])))
  {
    var status := "ok" + (spaces + t);
    AfterNot(ok, status);
    assert status[..2] == "ok" && status[2..] == spaces + t;
    SpacesSkipped(spaces, t);
  }

  /** A result line without a number. */
  lemma Unnumbered(ok: bool, spaces: seq<char>, tail: seq<char>)
    requires Spaces(spaces) && NoSpaceFirst(tail)
    requires tail == [] || (tail[0] != '+' && tail[0] != '-' && !('0' <= tail[0] <= '9'))
    ensures LexResult((if ok then [] else "not ") + ("ok" + (spaces + tail)))
         == Result(ok, None, LexDirective(Comment(tail)))
  {
    StatusSplits(ok, spaces, tail);
    StrtolFails([], [], tail);
    NothingInFront(tail);
    assert tail[0..] == tail;
  }

  /** A plan line: with "1.." in front whatever number follows, without it a plain number. */
  lemma PlanForms(dotted: bool, spaces: seq<char>, sign: seq<char>, digits: seq<char>, tail: seq<char>)
    requires Spaces(spaces) && IsSign(sign) && digits != []
    requires (forall i :: 0 <= i < |digits| ==> '0' <= digits[i] <= '9') && (tail == [] || !('0' <= tail[0] <= '9'))
    requires !dotted ==> spaces == [] && sign == [] && !("1.." <= digits + tail)
    ensures var v: int := if Negated(sign) then -(Value(digits, 10) as int) else Value(digits, 10);
            var comment := Comment(tail);
            LexPlan((if dotted then "1.." else []) + (spaces + (sign + (digits + tail))))
            == PlanLine(dotted, Max(Min(v, 0x7fff_ffff_ffff_ffff), -0x8000_0000_0000_0000),
                        comment.Some? && Begins(comment.value, "skip", "SKIP"))
  {
    var number := digits + tail;
    StrtolDenotes(spaces, sign, digits, tail);
    if !dotted { NothingInFront(number); }
    CountFound(dotted, spaces + (sign + number), tail);
  }

  lemma NothingInFront(number: seq<char>)
    ensures [] + ([] + number) == number
  {
  }

  /** Where the count of a plan is read. */
  lemma CountFound(dotted: bool, number: seq<char>, tail: seq<char>)
    requires (!dotted ==> !("1.." <= number)) && Strtol(number).end == tail
    ensures var comment := Comment(tail);
            LexPlan((if dotted then "1.." else []) + number)
            == PlanLine(dotted, Strtol(number).value, comment.Some? && Begins(comment.value, "skip", "SKIP"))
  {
    if Comment(tail).Some? { SkipBegins(Comment(tail).value); }
    var line := (if dotted then "1.." else []) + number;
    if dotted {
      assert line[..3] == "1.." && line[3..] == number;
    } else {
      assert line == number;
    }
  }

  /** A plan line without a number counts as zero. */
  lemma NoCount(tail: seq<char>)
    requires NoSpaceFirst(tail)
    requires tail == [] || (tail[0] != '+' && tail[0] != '-' && !('0' <= tail[0] <= '9'))
    ensures LexPlan("1.." + tail)
         == PlanLine(true, 0, Comment(tail).Some? && Begins(Comment(tail).value, "skip", "SKIP"))
  {
    StrtolFails([], [], tail);
    NothingInFront(tail);
    CountFound(true, tail, tail);
  }

  /** The first bail-out text in a line decides, and it has a message unless only white space follows it. */
  lemma BailReads(before: seq<char>, after: seq<char>)
    requires forall i :: 0 <= i < |before| ==> !("Bail out!" <= (before + ("Bail out!" + after))[i..])
    ensures Lex(before + ("Bail out!" + after)) == BailOut(!Spaces(after))
  {
    FirstFound(before, "Bail out!", after);
    assert ("Bail out!" + after)[|BAIL|..] == after;
    var n := SkippedSpaces(after);
    if n == |after| { assert after[..n] == after; }
  }

  lemma {:induction false} FirstFound(before: seq<char>, pattern: seq<char>, after: seq<char>)
    requires forall i :: 0 <= i < |before| ==> !(pattern <= (before + (pattern + after))[i..])
    ensures StrStr(before + (pattern + after), pattern) == Some(pattern + after)
    decreases |before|
  {
    var s := before + (pattern + after);
    if before == [] {
      assert s == pattern + after;
    } else {
      assert s[0..] == s && !(pattern <= s);
      assert s[1..] == before[1..] + (pattern + after);
      forall i | 0 <= i < |before[1..]|
        ensures !(pattern <= (before[1..] + (pattern + after))[i..])
      {
        assert s[1..][i..] == s[i + 1..];
      }
      FirstFound(before[1..], pattern, after);
    }
  }

  /** A result line with a comment. */
  function Commented(ok: bool, n: nat, spaces: seq<char>, blanks: seq<char>, text: seq<char>): seq<char> {
    ResultLine(ok, n, spaces + ("#" + (blanks + text)))
  }

  predicate Commentable(line: seq<char>, n: nat, spaces: seq<char>, blanks: seq<char>, text: seq<char>) {
    && 1 <= n <= LONG_MAX && Spaces(spaces) && Spaces(blanks) && NoSpaceFirst(text)
    && text != [] && text[|text| - 1] == '\n' && StrStr(line, BAIL).None?
  }

  lemma CommentedReads(ok: bool, n: nat, spaces: seq<char>, blanks: seq<char>, text: seq<char>)
    requires Commentable(Commented(ok, n, spaces, blanks, text), n, spaces, blanks, text)
    ensures Lex(Commented(ok, n, spaces, blanks, text))
         == Result(ok, Some(n), if Begins(text, "skip", "SKIP") then SkipTest
                                else if Begins(text, "todo", "TODO") then TodoTest else NoDirective)
  {
    var tail := spaces + ("#" + (blanks + text));
    assert tail[|tail| - 1] == '\n';
    assert tail[0] == if spaces == [] then '#' else spaces[0];
    ResultReads(ok, n, tail);
    DirectiveReads(spaces, blanks, text);
  }

  /** The comment of a result line decides what is recorded for its test, whatever follows. */
  lemma CommentDecides(t: Tests, line: Line, ok: bool, n: nat, spaces: seq<char>, blanks: seq<char>, text: seq<char>,
                       more: seq<Line>)
    requires Commentable(Commented(ok, n, spaces, blanks, text), n, spaces, blanks, text)
    requires line == Lex(Commented(ok, n, spaces, blanks, text)) && Safe(t, line) && SafeRun(t, [line] + more)
    requires !t.aborted && !t.allSkipped && !Step(t, line).aborted
    ensures var final := Run(t, [line] + more);
            final.allSkipped
            || (n <= |final.results|
                && final.results[n - 1]
                   == if Begins(text, "skip", "SKIP") then Skip
                      else if Begins(text, "todo", "TODO") then (if ok then Fail else Skip)
                      else if ok then Pass else Fail)
  {
    CommentedReads(ok, n, spaces, blanks, text);
    DirectiveDecides(t, line, Begins(text, "skip", "SKIP"), Begins(text, "todo", "TODO"), more);
  }

  lemma DirectiveDecides(t: Tests, line: Line, skip: bool, todo: bool, more: seq<Line>)
    requires line.Result? && line.number.Some? && Safe(t, line) && SafeRun(t, [line] + more)
    requires line.directive == if skip then SkipTest else if todo then TodoTest else NoDirective
    requires !t.aborted && !t.allSkipped && !Step(t, line).aborted
    ensures var final, n := Run(t, [line] + more), line.number.value;
            final.allSkipped
            || (1 <= n <= |final.results|
                && final.results[n - 1] == if skip then Skip else if todo then (if line.ok then Fail else Skip)
                                           else if line.ok then Pass else Fail)
  {
    ResultSticks(t, line, more);
  }
}
