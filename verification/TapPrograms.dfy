/**
 Test programs that print the results of tests/tap/basic.c, and the todo results that runtests.c
 documents besides, and the proof that the harness's verdict is their own idea of success.
 */
module TapPrograms {
  import opened Common
  import opened Numerals
  import opened CNumbers
  import opened RunTests
  import opened TapLines

  // ---- What basic.c prints

  /** A call of ok() or of skip(), or a test expected to fail, marked "todo" in any mixture of cases. */
  datatype Event =
    | Reported(ok: bool, description: Option<seq<char>>)
    | Skipped(reason: Option<seq<char>>)
    | Todo(ok: bool, mark: seq<char>, reason: Option<seq<char>>)

  /** A program: the count given to plan(), or none for plan_lazy(), and the tests it reports in turn. */
  datatype Script = Script(plan: Option<nat>, events: seq<Event>)

  function Described(mark: seq<char>, text: Option<seq<char>>): seq<char> {
    if text.Some? then mark + text.value else []
  }

  /** What ok() and skip() put after the number, before the newline. */
  function Tail(e: Event): seq<char> {
    match e
    case Reported(_, description) => Described(" - ", description)
    case Skipped(reason) => " # skip" + Described(" ", reason)
    case Todo(_, mark, reason) => " # " + (mark + Described(" ", reason))
  }

  /** Whether the line of a test starts with "ok". */
  predicate Marked(e: Event) { e.Skipped? || e.ok }

  predicate WellMarked(e: Event) { e.Todo? ==> |e.mark| == 4 && Begins(e.mark, "todo", "TODO") }

  /** What the program counts as no failure. */
  predicate AsExpected(e: Event) {
    match e
    case Reported(ok, _) => ok
    case Skipped(_) => true
    case Todo(ok, _, _) => !ok
  }

  /** The line of test n. */
  function EventLine(n: nat, e: Event): seq<char> {
    ResultLine(Marked(e), n, Tail(e) + "\n")
  }

  function PlanLineText(n: nat): seq<char> { "1.." + (Decimal(n) + "\n") }

  function EventLines(events: seq<Event>): (r: seq<seq<char>>)
    ensures |r| == |events| && forall k :: 0 <= k < |r| ==> r[k] == EventLine(k + 1, events[k])
  {
    seq(|events|, k requires 0 <= k < |events| => EventLine(k + 1, events[k]))
  }

  /** All lines of a program: the plan first, or last when it is lazy and at least one test ran. */
  function Printed(script: Script): seq<seq<char>> {
    var lines := EventLines(script.events);
    if script.plan.Some? then [PlanLineText(script.plan.value)] + lines
    else if lines == [] then [] else lines + [PlanLineText(|lines|)]
  }

  /** The tests planned; a lazy plan counts the tests that ran. */
  function Planned(script: Script): nat {
    if script.plan.Some? then script.plan.value else |script.events|
  }

  /** finish(): the plan is met and no test failed; a todo test fails by passing. */
  predicate ProgramSucceeds(script: Script) {
    Planned(script) == |script.events|
    && forall k :: 0 <= k < |script.events| ==> AsExpected(script.events[k])
  }

  /** Numbers fit a long, and no description asks to bail out, breaks its line or overflows the reader's buffer. */
  ghost predicate Writable(script: Script, size: nat) {
    && size >= 2 && |script.events| <= LONG_MAX && Planned(script) <= LONG_MAX
    && (forall k :: 0 <= k < |script.events| ==>
          StrStr(Tail(script.events[k]), BAIL).None? && WellMarked(script.events[k]))
    && (forall k :: 0 <= k < |Printed(script)| ==> IsLine(Printed(script)[k], size))
  }

  // ---- What the harness reads

  function EventToken(n: nat, e: Event): Line {
    match e
    case Reported(ok, _) => Result(ok, Some(n), NoDirective)
    case Skipped(_) => Result(true, Some(n), SkipTest)
    case Todo(ok, _, _) => Result(ok, Some(n), TodoTest)
  }

  /** A description starts with a dash, so it is no directive; the comments of skipped and todo tests are. */
  lemma TailReads(e: Event)
    requires WellMarked(e)
    ensures var tail := Tail(e) + "\n";
            && tail != [] && tail[|tail| - 1] == '\n' && !IsDigit(tail[0])
            && LexDirective(Comment(tail))
               == if e.Reported? then NoDirective else if e.Skipped? then SkipTest else TodoTest
  {
    var tail := Tail(e) + "\n";
    if e.Skipped? {
      SkipReads(Described(" ", e.reason) + "\n");
      assert tail == " # skip" + (Described(" ", e.reason) + "\n");
    } else if e.Todo? {
      TodoReads(e.mark, Described(" ", e.reason) + "\n");
      assert tail == " # " + (e.mark + (Described(" ", e.reason) + "\n"));
    } else if e.description.Some? {
      assert tail == " " + ("- " + e.description.value + "\n");
      DashReads("- " + e.description.value + "\n");
    } else {
      assert tail == "\n" && tail[1..] == [];
    }
  }

  lemma OneSpace(rest: seq<char>)
    requires rest != [] && !IsSpace(rest[0])
    ensures SkipSpaces([' '] + rest) == rest
  {
    assert ([' '] + rest)[1..] == rest;
  }

  lemma SkipReads(rest: seq<char>)
    ensures LexDirective(Comment(" # skip" + rest)) == SkipTest
  {
    var word := "skip" + rest;
    var hash := "# " + word;
    assert " # skip" + rest == [' '] + hash;
    OneSpace(hash);
    assert hash[1..] == [' '] + word;
    OneSpace(word);
    assert forall i :: 0 <= i < 4 ==> word[i] == "skip"[i];
  }

  lemma TodoReads(mark: seq<char>, rest: seq<char>)
    requires |mark| == 4 && Begins(mark, "todo", "TODO")
    ensures LexDirective(Comment(" # " + (mark + rest))) == TodoTest
  {
    var text := mark + rest;
    assert text[0] == mark[0] && (mark[0] == "todo"[0] || mark[0] == "TODO"[0]);
    assert forall i :: 0 <= i < 4 ==> text[i] == mark[i];
    assert " # " + text == " " + ("#" + (" " + text));
    DirectiveReads(" ", " ", text);
    assert "skip"[0] == 's' && "SKIP"[0] == 'S';
  }

  lemma DashReads(rest: seq<char>)
    requires rest != [] && rest[0] == '-'
    ensures Comment(" " + rest) == None
  {
    OneSpace(rest);
  }

  lemma NoB(ok: bool, n: nat)
    ensures 'B' !in ((if ok then [] else "not ") + ("ok " + Decimal(n)))
  {
    DigitsAreDigits(n);
  }

  lemma DigitsAreDigits(n: nat)
    ensures forall i :: 0 <= i < |Decimal(n)| ==> IsDigit(Decimal(n)[i])
  {
    DigitsDenote(n, 10, false);
    assert forall i :: 0 <= i < |Decimal(n)| ==> DigitValue(Decimal(n)[i]) < 10;
  }

  lemma EventReads(n: nat, e: Event)
    requires 1 <= n <= LONG_MAX && StrStr(Tail(e), BAIL).None? && WellMarked(e)
    ensures Lex(EventLine(n, e)) == EventToken(n, e)
  {
    EventHasNoBail(n, e);
    TailReads(e);
    ResultReads(Marked(e), n, Tail(e) + "\n");
  }

  lemma EventHasNoBail(n: nat, e: Event)
    requires StrStr(Tail(e), BAIL).None?
    ensures StrStr(EventLine(n, e), BAIL).None?
  {
    var ok := Marked(e);
    var mark, number, tail := if ok then [] else "not ", Decimal(n), Tail(e);
    NoB(ok, n);
    PatternFree(mark + ("ok " + number), tail, BAIL);
    Regrouped(mark, "ok ", number, tail, "\n");
  }

  lemma Regrouped(a: seq<char>, b: seq<char>, c: seq<char>, d: seq<char>, e: seq<char>)
    ensures a + (b + (c + (d + e))) == a + (b + c) + d + e
  {
  }

  lemma PlanReads(n: nat)
    requires n <= LONG_MAX
    ensures Lex(PlanLineText(n)) == PlanLine(true, n, false)
  {
    var line, number := PlanLineText(n), Decimal(n) + "\n";
    PlanHasNoBail(n);
    StrtolReads(n, "\n");
    assert line == "1.." + number && line[..3] == "1.." && line[3..] == number;
    assert line[|line| - 1] == '\n' && line[0] == '1';
    assert "\n"[1..] == [];
  }

  lemma PlanHasNoBail(n: nat)
    ensures StrStr(PlanLineText(n), BAIL).None?
  {
    DigitsAreDigits(n);
    StrStrFinds(PlanLineText(n), BAIL);
    var line := PlanLineText(n);
    forall i | 0 <= i <= |line|
      ensures !(BAIL <= line[i..])
    {
      if i < |line| { assert line[i..][0] == line[i] != BAIL[0]; }
    }
  }

  // ---- What the harness does with it

  function Outcome(e: Event): Status {
    match e
    case Reported(ok, _) => if ok then Pass else Fail
    case Skipped(_) => Skip
    case Todo(ok, _, _) => if ok then Fail else Skip
  }

  function Outcomes(events: seq<Event>): (r: seq<Status>)
    ensures |r| == |events| && forall k :: 0 <= k < |r| ==> r[k] == Outcome(events[k])
  {
    seq(|events|, k requires 0 <= k < |events| => Outcome(events[k]))
  }

  function Tokens(events: seq<Event>): (r: seq<Line>)
    ensures |r| == |events| && forall k :: 0 <= k < |r| ==> r[k] == EventToken(k + 1, events[k])
  {
    seq(|events|, k requires 0 <= k < |events| => EventToken(k + 1, events[k]))
  }

  /** The test set after the first i events, with `total` numbers in the table. */
  ghost predicate At(t: Tests, events: seq<Event>, i: nat, plan: Plan, total: nat) {
    && i <= |events| && i <= total && t.plan == plan && !t.aborted && !t.reported && !t.allSkipped
    && t.results == Outcomes(events[..i]) + Blank(total - i)
  }

  lemma OneMore(t: Tests, events: seq<Event>, i: nat, plan: Plan, total: nat)
    requires At(t, events, i, plan, total) && i < |events|
    requires (plan == PlanFirst && i < total) || (plan != PlanFinal && plan != PlanFirst && total == i)
    ensures Safe(t, EventToken(i + 1, events[i]))
    ensures At(Step(t, EventToken(i + 1, events[i])), events, i + 1,
               if plan == PlanFirst then PlanFirst else PlanPending, if plan == PlanFirst then total else i + 1)
  {
    assert Outcomes(events[..i + 1]) == Outcomes(events[..i]) + [Outcome(events[i])];
  }

  /** A test beyond the plan breaks the run off. */
  lemma OneTooMany(t: Tests, events: seq<Event>, i: nat, total: nat)
    requires At(t, events, i, PlanFirst, total) && i < |events| && i == total
    ensures Safe(t, EventToken(i + 1, events[i]))
    ensures Step(t, EventToken(i + 1, events[i])) == t.Aborted(true)
  {
  }

  /** The rest of a program planned first: all its tests are recorded, or it is broken off. */
  lemma {:induction false} RunPlanned(t: Tests, events: seq<Event>, i: nat, total: nat)
    requires At(t, events, i, PlanFirst, total)
    ensures SafeRun(t, Tokens(events)[i..])
    ensures var final := Run(t, Tokens(events)[i..]);
            if |events| <= total then At(final, events, |events|, PlanFirst, total)
            else final.aborted && final.reported && !final.allSkipped && final.plan == PlanFirst
    decreases |events| - i
  {
    var tokens := Tokens(events)[i..];
    if i < |events| {
      assert tokens[0] == EventToken(i + 1, events[i]) && tokens[1..] == Tokens(events)[i + 1..];
      if i == total {
        OneTooMany(t, events, i, total);
        assert Run(t.Aborted(true), tokens[1..]) == t.Aborted(true);
      } else {
        OneMore(t, events, i, PlanFirst, total);
        RunPlanned(Step(t, tokens[0]), events, i + 1, total);
      }
    } else {
      assert tokens == [];
    }
  }

  /** The rest of a lazy program, and its plan at the end. */
  lemma {:induction false} RunLazy(t: Tests, events: seq<Event>, i: nat)
    requires events != [] && At(t, events, i, if i == 0 then PlanInit else PlanPending, i)
    ensures var lines := Tokens(events)[i..] + [PlanLine(true, |events|, false)];
            SafeRun(t, lines) && At(Run(t, lines), events, |events|, PlanFinal, |events|)
    decreases |events| - i
  {
    var last := PlanLine(true, |events|, false);
    var lines := Tokens(events)[i..] + [last];
    if i < |events| {
      assert lines[0] == EventToken(i + 1, events[i]) && lines[1..] == Tokens(events)[i + 1..] + [last];
      OneMore(t, events, i, t.plan, i);
      RunLazy(Step(t, lines[0]), events, i + 1);
    } else {
      assert lines == [last] && lines[1..] == [];
      assert Run(Step(t, last), []) == Step(t, last);
      assert Step(t, last).results == t.results;
    }
  }

  /** The tokens of a whole program. */
  function ScriptTokens(script: Script): seq<Line> {
    var tokens := Tokens(script.events);
    if script.plan.Some? then [PlanLine(true, script.plan.value, false)] + tokens
    else if tokens == [] then [] else tokens + [PlanLine(true, |tokens|, false)]
  }

  lemma EventsRead(events: seq<Event>)
    requires |events| <= LONG_MAX && forall k :: 0 <= k < |events| ==>
               StrStr(Tail(events[k]), BAIL).None? && WellMarked(events[k])
    ensures LexAll(EventLines(events)) == Tokens(events)
  {
    forall k | 0 <= k < |events|
      ensures Lex(EventLine(k + 1, events[k])) == EventToken(k + 1, events[k])
    {
      EventReads(k + 1, events[k]);
    }
  }

  lemma LexSplits(a: seq<seq<char>>, b: seq<seq<char>>)
    ensures LexAll(a + b) == LexAll(a) + LexAll(b)
  {
  }

  /** The harness reads a program's output as its plan and its results. */
  lemma OutputReads(script: Script, size: nat)
    requires Writable(script, size)
    ensures LexAll(Lines(Concat(Printed(script)), size)) == ScriptTokens(script)
  {
    LinesRead(Printed(script), size);
    var plan, lines := [PlanLineText(Planned(script))], EventLines(script.events);
    EventsRead(script.events);
    PlanReads(Planned(script));
    assert LexAll(plan) == [PlanLine(true, Planned(script), false)];
    LexSplits(plan, lines);
    LexSplits(lines, plan);
  }

  /** A program that ends normally is judged successful exactly when its table is full of passes and skips. */
  lemma Judged(t: Tests, events: seq<Event>, plan: Plan, total: nat)
    requires At(t, events, |events|, plan, total) && Tallied(t) && (plan == PlanFirst || plan == PlanFinal)
    ensures Analyzed(Closed(t, false), Exited(0)) && Invalid !in t.results
            <==> total == |events| && forall k :: 0 <= k < |events| ==> AsExpected(events[k])
  {
    assert events[..|events|] == events;
    Verdict(t, Exited(0));
    assert Closed(t, false) == t;
    assert forall k :: 0 <= k < |events| ==> t.results[k] == Outcome(events[k]);
    if total > |events| { assert t.results[|events|] == Invalid; }
  }

  /** What the harness finally says of a program that exits normally. */
  predicate JudgedGood(lines: seq<Line>)
    requires SafeRun(NEW_TESTS, lines)
  {
    Succeeds(Run(NEW_TESTS, lines), false, Exited(0))
  }

  lemma PlannedRun(n: nat, events: seq<Event>)
    requires n > 0
    ensures var lines := [PlanLine(true, n, false)] + Tokens(events);
            SafeRun(NEW_TESTS, lines)
            && (JudgedGood(lines)
                <==> n == |events| && forall k :: 0 <= k < |events| ==> AsExpected(events[k]))
  {
    var lines := [PlanLine(true, n, false)] + Tokens(events);
    var t := Step(NEW_TESTS, lines[0]);
    assert lines[1..] == Tokens(events)[0..] && events[..0] == [];
    RunPlanned(t, events, 0, n);
    RunKeepsTally(NEW_TESTS, lines);
    if |events| <= n { Judged(Run(NEW_TESTS, lines), events, PlanFirst, n); }
  }

  lemma LazyRun(events: seq<Event>)
    requires events != []
    ensures var lines := Tokens(events) + [PlanLine(true, |events|, false)];
            SafeRun(NEW_TESTS, lines)
            && (JudgedGood(lines) <==> forall k :: 0 <= k < |events| ==> AsExpected(events[k]))
  {
    var lines := Tokens(events) + [PlanLine(true, |events|, false)];
    assert Tokens(events)[0..] == Tokens(events) && events[..0] == [];
    RunLazy(NEW_TESTS, events, 0);
    RunKeepsTally(NEW_TESTS, lines);
    Judged(Run(NEW_TESTS, lines), events, PlanFinal, |events|);
  }

  /** Without a test planned the harness refuses the run. */
  lemma NothingPlanned(tokens: seq<Line>)
    ensures SafeRun(NEW_TESTS, []) && !JudgedGood([])
    ensures var lines := [PlanLine(true, 0, false)] + tokens;
            SafeRun(NEW_TESTS, lines) && !JudgedGood(lines)
  {
    var lines := [PlanLine(true, 0, false)] + tokens;
    var t := Step(NEW_TESTS, lines[0]);
    assert t == NEW_TESTS.Aborted(true);
    assert Run(t, lines[1..]) == t;
  }

  /**
   Printed by basic.c and read by runtests.c, a program that exits normally succeeds exactly when it
   thinks so itself, provided it planned a test at all.
   */
  lemma HarnessAgrees(script: Script, size: nat)
    requires Writable(script, size)
    ensures var lines := LexAll(Lines(Concat(Printed(script)), size));
            SafeRun(NEW_TESTS, lines) && (JudgedGood(lines) <==> ProgramSucceeds(script) && Planned(script) > 0)
  {
    OutputReads(script, size);
    var n, events := Planned(script), script.events;
    NothingPlanned(Tokens(events));
    if script.plan.Some? {
      if n > 0 { PlannedRun(n, events); }
    } else if events != [] {
      LazyRun(events);
    }
  }

  // ---- skip_all

  function SkipAllText(reason: Option<seq<char>>): seq<char> { "1..0 # skip" + Described(" ", reason) + "\n" }

  lemma SkipAllReads(reason: Option<seq<char>>)
    requires StrStr(Described(" ", reason), BAIL).None?
    ensures Lex(SkipAllText(reason)) == PlanLine(true, 0, true)
  {
    var tail := Described(" ", reason) + "\n";
    PatternFree("1..0 # skip", Described(" ", reason), BAIL);
    SkipReads(tail);
    ZeroPlanReads(" # skip" + tail);
    PlanText(SkipAllText(reason), tail);
  }

  lemma PlanText(line: seq<char>, tail: seq<char>)
    requires tail != [] && tail[|tail| - 1] == '\n' && StrStr(line, BAIL).None? && line == "1..0 # skip" + tail
    ensures line == "1.." + ("0" + (" # skip" + tail)) && Lex(line) == LexPlan(line)
  {
    Nested("1..", "0", " # skip", tail);
    SkipAllStart();
    PlanLexed(line, "1..0 # skip", tail);
  }

  lemma SkipAllStart()
    ensures "1.." + "0" + " # skip" == "1..0 # skip"
  {
  }

  lemma Nested(a: seq<char>, b: seq<char>, c: seq<char>, d: seq<char>)
    ensures a + (b + (c + d)) == a + b + c + d
  {
  }

  lemma PlanLexed(line: seq<char>, start: seq<char>, tail: seq<char>)
    requires line == start + tail && start != [] && IsDigit(start[0]) && tail != [] && tail[|tail| - 1] == '\n'
    requires StrStr(line, BAIL).None?
    ensures Lex(line) == LexPlan(line)
  {
    assert line[|line| - 1] == tail[|tail| - 1] && line[0] == start[0];
  }

  lemma ZeroPlanReads(comment: seq<char>)
    requires comment != [] && !IsDigit(comment[0]) && LexDirective(Comment(comment)) == SkipTest
    ensures LexPlan("1.." + ("0" + comment)) == PlanLine(true, 0, true)
  {
    var line := "1.." + ("0" + comment);
    assert line[..3] == "1.." && line[3..] == "0" + comment;
    assert Decimal(0) == "0";
    StrtolReads(0, comment);
  }

  /** A program that skips itself as a whole succeeds, however it exits. */
  lemma SkipAllSucceeds(reason: Option<seq<char>>, size: nat, exit: Exit)
    requires StrStr(Described(" ", reason), BAIL).None? && IsLine(SkipAllText(reason), size)
    ensures var lines := LexAll(Lines(SkipAllText(reason), size));
            SafeRun(NEW_TESTS, lines)
            && var t := Closed(Run(NEW_TESTS, lines), false);
               t.allSkipped && !t.aborted && Analyzed(t, exit) && t.results == []
  {
    var text := SkipAllText(reason);
    SkipAllReads(reason);
    LinesRead([text], size);
    assert Concat([text]) == text;
    var lines := LexAll([text]);
    var t := Step(NEW_TESTS, PlanLine(true, 0, true));
    assert lines[0] == PlanLine(true, 0, true) && lines[1..] == [];
    assert Run(NEW_TESTS, lines) == Run(t, []);
  }
}
