/** The TAP harness of tests/runtests.c: plan, results table and tallies, line by line. */
module RunTests {
  import opened Common

  datatype Status = Fail | Pass | Skip | Invalid

  datatype Plan = PlanInit | PlanFirst | PlanPending | PlanFinal

  datatype Directive = NoDirective | SkipTest | TodoTest

  /**
   One line of output as test_checkline reads it.  A plan line starts with digits, `dotted` when
   they are "1..", and `skip` when "# skip" follows the count; a number that overflows counts as absent.
   */
  datatype Line =
    | BailOut(message: bool)
    | Ignored
    | PlanLine(dotted: bool, n: int, skip: bool)
    | Result(ok: bool, number: Option<int>, directive: Directive)

  /** What struct testset holds, with the results table up to `count`. */
  datatype Tests = Tests(plan: Plan, current: nat, passed: nat, failed: nat, skipped: nat,
                         results: seq<Status>, aborted: bool, reported: bool, allSkipped: bool)
  {
    function Count(): nat { |results| }

    function Aborted(report: bool): Tests { this.(aborted := true, reported := reported || report) }
  }

  const NEW_TESTS := Tests(PlanInit, 0, 0, 0, 0, [], false, false, false)

  function Blank(n: int): (s: seq<Status>)
    ensures |s| == if n > 0 then n else 0
  {
    seq(if n > 0 then n else 0, _ => Invalid)
  }

  /** The table grown to n entries. */
  function Grown(results: seq<Status>, n: nat): seq<Status> { results + Blank(n - |results|) }

  function Effective(ok: bool, directive: Directive): Status {
    match directive
    case NoDirective => if ok then Pass else Fail
    case SkipTest => Skip
    case TodoTest => if ok then Fail else Skip
  }

  /** The test number a result line reports. */
  function Number(t: Tests, line: Line): int
    requires line.Result?
  {
    if line.number.Some? then line.number.value else t.current + 1
  }

  /** After a plan at the end the code does not check the range: the number must not exceed the plan. */
  predicate Safe(t: Tests, line: Line) {
    line.Result? && t.plan == PlanFinal ==> Number(t, line) <= t.Count()
  }

  function PlanStep(t: Tests, n: int, skip: bool): Tests {
    if n == 0 && skip then
      t.(allSkipped := true, aborted := true, results := [], passed := 0, failed := 0, skipped := 0)
    else if n <= 0 || (t.plan == PlanPending && n < t.Count()) then t.Aborted(true)
    else t.(results := Grown(t.results, n), plan := if t.plan == PlanInit then PlanFirst else PlanFinal)
  }

  function Record(t: Tests, n: nat, status: Status): Tests
    requires 1 <= n <= t.Count()
  {
    var t := t.(current := n, results := t.results[n - 1 := status]);
    match status
    case Pass => t.(passed := t.passed + 1)
    case Fail => t.(failed := t.failed + 1)
    case Skip => t.(skipped := t.skipped + 1)
    case Invalid => t
  }

  function ResultStep(t: Tests, line: Line): Tests
    requires line.Result? && Safe(t, line)
  {
    var n := Number(t, line);
    if n <= 0 || (n > t.Count() && t.plan == PlanFirst) then t.Aborted(true)
    else
      var a := Admit(t, n);
      if a.results[n - 1] != Invalid then a.Aborted(true) else Record(a, n, Effective(line.ok, line.directive))
  }

  /** Until there is a plan, the table grows with the numbers seen. */
  function Admit(t: Tests, n: nat): Tests {
    if t.plan == PlanInit || t.plan == PlanPending then t.(plan := PlanPending, results := Grown(t.results, n)) else t
  }

  /** What one line does. */
  function Step(t: Tests, line: Line): Tests
    requires Safe(t, line)
  {
    match line
    case BailOut(message) => t.Aborted(message)
    case Ignored => t
    case PlanLine(dotted, n, skip) =>
      if t.plan == PlanInit || (dotted && t.plan == PlanPending) then PlanStep(t, n, skip)
      else if dotted then t.Aborted(true)
      else t
    case Result(_, _, _) => ResultStep(t, line)
  }

  /** No result line of the run exceeds a plan given at the end. */
  predicate SafeRun(t: Tests, lines: seq<Line>)
    decreases |lines|
  {
    t.aborted || lines == [] || (Safe(t, lines[0]) && SafeRun(Step(t, lines[0]), lines[1..]))
  }

  /** The run: line by line until the set is aborted. */
  function Run(t: Tests, lines: seq<Line>): Tests
    requires SafeRun(t, lines)
    decreases |lines|
  {
    if t.aborted || lines == [] then t else Run(Step(t, lines[0]), lines[1..])
  }

  // ---- The tallies always agree with the table

  function CountOf(results: seq<Status>, status: Status): nat {
    if results == [] then 0
    else CountOf(results[..|results| - 1], status) + if results[|results| - 1] == status then 1 else 0
  }

  ghost predicate Tallied(t: Tests) {
    && t.passed == CountOf(t.results, Pass) && t.failed == CountOf(t.results, Fail)
    && t.skipped == CountOf(t.results, Skip)
    && (t.plan == PlanInit ==> t.results == [])
  }

  lemma {:induction false} CountUpdate(results: seq<Status>, i: nat, x: Status, status: Status)
    requires i < |results|
    ensures CountOf(results[i := x], status)
         == CountOf(results, status) + (if x == status then 1 else 0) - (if results[i] == status then 1 else 0)
    decreases |results|
  {
    var n := |results| - 1;
    if i < n {
      CountUpdate(results[..n], i, x, status);
      assert results[i := x][..n] == results[..n][i := x];
    } else {
      assert results[i := x][..n] == results[..n];
    }
  }

  lemma {:induction false} CountGrown(results: seq<Status>, n: nat, status: Status)
    requires status != Invalid
    ensures CountOf(Grown(results, n), status) == CountOf(results, status)
    decreases n
  {
    var g := Grown(results, n);
    if n <= |results| {
      assert g == results;
    } else {
      CountGrown(results, n - 1, status);
      assert g[..|g| - 1] == Grown(results, n - 1);
    }
  }

  lemma GrownTallied(t: Tests, n: nat, plan: Plan)
    requires Tallied(t) && plan != PlanInit
    ensures Tallied(t.(plan := plan, results := Grown(t.results, n)))
  {
    CountGrown(t.results, n, Pass);
    CountGrown(t.results, n, Fail);
    CountGrown(t.results, n, Skip);
  }

  lemma RecordTallied(t: Tests, n: nat, status: Status)
    requires Tallied(t) && 1 <= n <= t.Count() && t.results[n - 1] == Invalid && status != Invalid
    ensures Tallied(Record(t, n, status))
  {
    CountUpdate(t.results, n - 1, status, Pass);
    CountUpdate(t.results, n - 1, status, Fail);
    CountUpdate(t.results, n - 1, status, Skip);
  }

  lemma PlanKeepsTally(t: Tests, n: int, skip: bool)
    requires Tallied(t)
    ensures Tallied(PlanStep(t, n, skip))
  {
    if n > 0 { GrownTallied(t, n, if t.plan == PlanInit then PlanFirst else PlanFinal); }
  }

  lemma ResultKeepsTally(t: Tests, line: Line)
    requires Tallied(t) && line.Result? && Safe(t, line)
    ensures Tallied(ResultStep(t, line))
  {
    var n := Number(t, line);
    if n > 0 && !(n > t.Count() && t.plan == PlanFirst) {
      var grown := Admit(t, n);
      GrownTallied(t, n, PlanPending);
      if grown.results[n - 1] == Invalid { RecordTallied(grown, n, Effective(line.ok, line.directive)); }
    }
  }

  lemma StepKeepsTally(t: Tests, line: Line)
    requires Tallied(t) && Safe(t, line)
    ensures Tallied(Step(t, line))
  {
    match line
    case PlanLine(_, n, skip) => PlanKeepsTally(t, n, skip);
    case Result(_, _, _) => ResultKeepsTally(t, line);
    case _ =>
  }

  /** Only a run skipped as a whole sets that flag, and it ends there. */
  lemma StepEndsSkipped(t: Tests, line: Line)
    requires Safe(t, line) && !t.allSkipped
    ensures Step(t, line).allSkipped ==> Step(t, line).aborted
  {
  }

  lemma RunUnfolds(t: Tests, lines: seq<Line>)
    requires SafeRun(t, lines) && !t.aborted && lines != []
    ensures Safe(t, lines[0]) && SafeRun(Step(t, lines[0]), lines[1..])
    ensures Run(t, lines) == Run(Step(t, lines[0]), lines[1..])
  {
  }

  /** Over every safe run the tallies are the counts of the table. */
  lemma {:induction false} RunKeepsTally(t: Tests, lines: seq<Line>)
    requires Tallied(t) && SafeRun(t, lines)
    ensures Tallied(Run(t, lines))
    decreases |lines|
  {
    if t.aborted || lines == [] {
    } else {
      StepKeepsTally(t, lines[0]);
      RunKeepsTally(Step(t, lines[0]), lines[1..]);
    }
  }

  // ---- The end of a run

  /** How the test program ended. */
  datatype Exit = Exited(code: int) | Signaled(signal: int)

  /** test_run after the last line: read errors, runs without a plan, and runs skipped as a whole. */
  function Closed(t: Tests, ioError: bool): Tests {
    t.(aborted := !t.allSkipped && (t.aborted || ioError || t.plan == PlanInit))
  }

  /** test_analyze */
  function Analyzed(t: Tests, exit: Exit): bool {
    if t.reported then false
    else if t.allSkipped then true
    else if exit != Exited(0) then false
    else if t.plan != PlanFirst && t.plan != PlanFinal then false
    else t.failed == 0
  }

  /** test_analyze also marks a run that ended well without a valid plan as aborted. */
  function AfterAnalysis(t: Tests, exit: Exit): Tests {
    var noPlan := t.plan != PlanFirst && t.plan != PlanFinal;
    t.(aborted := t.aborted || (!t.reported && !t.allSkipped && exit == Exited(0) && noPlan))
  }

  /** Which runs end aborted. */
  lemma FinallyAborted(t: Tests, ioError: bool, exit: Exit)
    ensures AfterAnalysis(Closed(t, ioError), exit).aborted
            <==> !t.allSkipped
                 && (t.aborted || ioError || t.plan == PlanInit
                     || (exit == Exited(0) && !t.reported && t.plan == PlanPending))
  {
  }

  /** Missing tests become failures. */
  function FailMissing(t: Tests): Tests {
    t.(failed := t.failed + CountOf(t.results, Invalid),
       results := seq(|t.results|, i requires 0 <= i < |t.results| =>
                        if t.results[i] == Invalid then Fail else t.results[i]))
  }

  lemma {:induction false} CountsCover(results: seq<Status>)
    ensures CountOf(results, Pass) + CountOf(results, Fail) + CountOf(results, Skip) + CountOf(results, Invalid)
            == |results|
  {
    if results == [] {
    } else {
      CountsCover(results[..|results| - 1]);
    }
  }

  /** In the end every test number is a pass, a failure or a skip, and the tallies add up. */
  lemma AllAccounted(t: Tests)
    requires Tallied(t)
    ensures var f := FailMissing(t);
            && f.passed + f.failed + f.skipped == f.Count() == t.Count() && Tallied(f)
            && forall k :: 0 <= k < t.Count() ==>
                 f.results[k] == if t.results[k] == Invalid then Fail else t.results[k]
  {
    CountsCover(t.results);
    MissingCounted(t.results, FailMissing(t).results);
  }

  lemma {:induction false} MissingCounted(results: seq<Status>, after: seq<Status>)
    requires |after| == |results|
    requires forall k :: 0 <= k < |results| ==> after[k] == if results[k] == Invalid then Fail else results[k]
    ensures CountOf(after, Pass) == CountOf(results, Pass) && CountOf(after, Skip) == CountOf(results, Skip)
    ensures CountOf(after, Fail) == CountOf(results, Fail) + CountOf(results, Invalid)
    decreases |results|
  {
    if results == [] {
    } else {
      MissingCounted(results[..|results| - 1], after[..|after| - 1]);
    }
  }

  lemma {:induction false} CountZero(results: seq<Status>, status: Status)
    ensures CountOf(results, status) == 0 <==> status !in results
  {
    if results == [] {
    } else {
      var init := results[..|results| - 1];
      CountZero(init, status);
      assert results == init + [results[|results| - 1]];
    }
  }

  /** The verdict: not reported as broken, and skipped as a whole or ended well with only passes and skips. */
  lemma Verdict(t: Tests, exit: Exit)
    requires Tallied(t) && (t.allSkipped ==> t.results == [])
    ensures Analyzed(t, exit) && Invalid !in t.results
            <==> !t.reported
                 && (t.allSkipped
                     || (exit == Exited(0) && (t.plan == PlanFirst || t.plan == PlanFinal)
                         && forall k :: 0 <= k < |t.results| ==> t.results[k] == Pass || t.results[k] == Skip))
  {
    CountZero(t.results, Fail);
    if forall k :: 0 <= k < |t.results| ==> t.results[k] == Pass || t.results[k] == Skip {
      assert Fail !in t.results && Invalid !in t.results;
    }
    if Fail !in t.results && Invalid !in t.results {
      forall k | 0 <= k < |t.results|
        ensures t.results[k] == Pass || t.results[k] == Skip
      {
        assert t.results[k] in t.results;
      }
    }
  }

  // ---- Runs that end aborted and are still judged a success

  /** What the harness finally says. */
  predicate Succeeds(t: Tests, ioError: bool, exit: Exit) {
    Analyzed(Closed(t, ioError), exit) && Invalid !in t.results
  }

  /** A run that ended well: exit status zero, a plan, and only passes and skips. */
  ghost predicate EndedWell(t: Tests, exit: Exit) {
    && exit == Exited(0) && (t.plan == PlanFirst || t.plan == PlanFinal)
    && forall k :: 0 <= k < |t.results| ==> t.results[k] == Pass || t.results[k] == Skip
  }

  /** Before a run aborts nothing has been reported or skipped as a whole. */
  ghost predicate Quiet(t: Tests) {
    (t.reported ==> t.aborted) && (t.allSkipped ==> t.aborted && t.results == [])
  }

  lemma StepQuiet(t: Tests, line: Line)
    requires Safe(t, line) && Quiet(t) && !t.aborted
    ensures Quiet(Step(t, line))
  {
  }

  lemma {:induction false} RunQuiet(t: Tests, lines: seq<Line>)
    requires SafeRun(t, lines) && Quiet(t)
    ensures Quiet(Run(t, lines))
    decreases |lines|
  {
    if t.aborted || lines == [] {
    } else {
      StepQuiet(t, lines[0]);
      RunQuiet(Step(t, lines[0]), lines[1..]);
    }
  }

  lemma {:induction false} RunAppends(t: Tests, before: seq<Line>, more: seq<Line>)
    requires SafeRun(t, before + more)
    ensures SafeRun(t, before) && SafeRun(Run(t, before), more)
    ensures Run(t, before + more) == Run(Run(t, before), more)
    decreases |before|
  {
    if before == [] {
      assert before + more == more;
    } else if t.aborted {
      assert Run(t, more) == t;
    } else {
      assert (before + more)[1..] == before[1..] + more;
      RunAppends(Step(t, before[0]), before[1..], more);
    }
  }

  /** A bail-out ends the run where it stands, whatever follows. */
  lemma BailEnds(t: Tests, message: bool, more: seq<Line>)
    requires !t.aborted && SafeRun(t, [BailOut(message)] + more)
    ensures Run(t, [BailOut(message)] + more) == t.Aborted(message)
  {
    assert ([BailOut(message)] + more)[1..] == more;
    assert Run(t.Aborted(message), more) == t.Aborted(message);
  }

  /**
   A bail-out is judged a success exactly when it has no message and the run so far, taken as
   complete, ended well; a read error makes no difference.
   */
  lemma BailOutVerdict(before: seq<Line>, message: bool, more: seq<Line>, ioError: bool, exit: Exit)
    requires SafeRun(NEW_TESTS, before + ([BailOut(message)] + more))
    requires SafeRun(NEW_TESTS, before) && !Run(NEW_TESTS, before).aborted
    ensures var final := Run(NEW_TESTS, before + ([BailOut(message)] + more));
            && Closed(final, ioError).aborted
            && (Succeeds(final, ioError, exit) <==> !message && EndedWell(Run(NEW_TESTS, before), exit))
  {
    var t := Run(NEW_TESTS, before);
    RunAppends(NEW_TESTS, before, [BailOut(message)] + more);
    BailEnds(t, message, more);
    RunQuiet(NEW_TESTS, before);
    RunKeepsTally(NEW_TESTS, before);
    VerdictOf(t.Aborted(message), ioError, exit);
  }

  /** A read error aborts a run that did not skip itself, and never changes the verdict. */
  lemma ReadErrorVerdict(lines: seq<Line>, exit: Exit)
    requires SafeRun(NEW_TESTS, lines)
    ensures var t := Run(NEW_TESTS, lines);
            && (Closed(t, true).aborted <==> !t.allSkipped)
            && (Succeeds(t, true, exit) <==> Succeeds(t, false, exit))
  {
  }

  lemma VerdictOf(t: Tests, ioError: bool, exit: Exit)
    requires Tallied(t) && Quiet(t)
    ensures Succeeds(t, ioError, exit) <==> !t.reported && (t.allSkipped || EndedWell(t, exit))
  {
    Verdict(Closed(t, ioError), exit);
  }

  /** Line k is a bail-out without a message that the run reaches. */
  ghost predicate BareBail(lines: seq<Line>, k: nat)
    requires SafeRun(NEW_TESTS, lines)
  {
    && k < |lines| && lines[k] == BailOut(false)
    && SafeRun(NEW_TESTS, lines[..k]) && !Run(NEW_TESTS, lines[..k]).aborted
  }

  /** Only a bare bail-out aborts a run without a word and without skipping it. */
  lemma QuietAbort(t: Tests, line: Line)
    requires Safe(t, line) && Quiet(t) && !t.aborted
    ensures var u := Step(t, line);
            u.aborted && !u.reported && !u.allSkipped <==> line == BailOut(false)
  {
  }

  lemma {:induction false} AbortFound(t: Tests, lines: seq<Line>) returns (k: nat)
    requires SafeRun(t, lines) && !t.aborted && Run(t, lines).aborted
    ensures k < |lines| && SafeRun(t, lines[..k]) && !Run(t, lines[..k]).aborted
    ensures Safe(Run(t, lines[..k]), lines[k]) && Run(t, lines) == Step(Run(t, lines[..k]), lines[k])
    decreases |lines|
  {
    RunUnfolds(t, lines);
    var u := Step(t, lines[0]);
    if u.aborted {
      k := 0;
      assert lines[..0] == [] && Run(u, lines[1..]) == u;
    } else {
      var j := AbortFound(u, lines[1..]);
      k := j + 1;
      assert lines[..k][0] == lines[0] && lines[..k][1..] == lines[1..][..j];
      assert SafeRun(t, lines[..k]) && Run(t, lines[..k]) == Run(u, lines[1..][..j]);
    }
  }

  /**
   Exactly the runs that end aborted and are judged a success: a bare bail-out was reached, or
   reading failed, nothing had been reported, and the table ended well.
   */
  lemma AbortedButSuccessful(lines: seq<Line>, ioError: bool, exit: Exit)
    requires SafeRun(NEW_TESTS, lines)
    ensures var t := Run(NEW_TESTS, lines);
            Closed(t, ioError).aborted && Succeeds(t, ioError, exit)
            <==> ((exists k: nat :: BareBail(lines, k)) || (ioError && !t.aborted)) && EndedWell(t, exit)
  {
    var t := Run(NEW_TESTS, lines);
    RunQuiet(NEW_TESTS, lines);
    RunKeepsTally(NEW_TESTS, lines);
    VerdictOf(t, ioError, exit);
    if t.aborted {
      var k := AbortFound(NEW_TESTS, lines);
      RunQuiet(NEW_TESTS, lines[..k]);
      QuietAbort(Run(NEW_TESTS, lines[..k]), lines[k]);
      assert lines[k] == BailOut(false) ==> BareBail(lines, k);
    }
    if k: nat :| BareBail(lines, k) { BareBailAborts(lines, k); }
  }

  lemma BareBailAborts(lines: seq<Line>, k: nat)
    requires SafeRun(NEW_TESTS, lines) && BareBail(lines, k)
    ensures var t := Run(NEW_TESTS, lines);
            t.aborted && !t.reported && !t.allSkipped
  {
    var before, more := lines[..k], lines[k + 1..];
    assert lines == before + ([BailOut(false)] + more);
    RunAppends(NEW_TESTS, before, [BailOut(false)] + more);
    BailEnds(Run(NEW_TESTS, before), false, more);
    RunQuiet(NEW_TESTS, before);
  }

  /** Such a run: one planned test, passed, and a bare bail-out. */
  lemma BareBailStillSucceeds()
    ensures var lines := [PlanLine(true, 1, false), Result(true, Some(1), NoDirective)] + ([BailOut(false)] + []);
            && SafeRun(NEW_TESTS, lines)
            && Closed(Run(NEW_TESTS, lines), false).aborted && Succeeds(Run(NEW_TESTS, lines), false, Exited(0))
  {
    var before: seq<Line> := [PlanLine(true, 1, false), Result(true, Some(1), NoDirective)];
    var t1 := Step(NEW_TESTS, before[0]);
    assert t1.results == [Invalid];
    var t2 := Step(t1, before[1]);
    assert t2.results == [Pass];
    var bail: seq<Line> := [BailOut(false)] + [];
    assert (before + bail)[1..] == [before[1]] + bail && ([before[1]] + bail)[1..] == bail && bail[1..] == [];
    assert before[1..] == [before[1]] && before[1..][1..] == [];
    assert Run(t1, before[1..]) == Run(t2, []) == t2;
    assert SafeRun(t1, [before[1]] + bail);
    BailOutVerdict(before, false, [], false, Exited(0));
  }

  // ---- Nothing recorded is lost

  /** Whatever is in the first table is still there in the second. */
  ghost predicate Kept(a: Tests, b: Tests) {
    b.allSkipped
    || (|a.results| <= |b.results|
        && forall k :: 0 <= k < |a.results| && a.results[k] != Invalid ==> b.results[k] == a.results[k])
  }

  lemma StepKeeps(t: Tests, line: Line)
    requires Safe(t, line)
    ensures Kept(t, Step(t, line))
  {
  }

  lemma {:induction false} RunKeeps(t: Tests, lines: seq<Line>)
    requires SafeRun(t, lines) && (t.allSkipped ==> t.aborted)
    ensures Kept(t, Run(t, lines))
    decreases |lines|
  {
    if t.aborted || lines == [] {
    } else {
      StepKeeps(t, lines[0]);
      RunKeeps(Step(t, lines[0]), lines[1..]);
    }
  }

  /** A result line that does not abort the run decides its test, whatever follows. */
  lemma ResultSticks(t: Tests, line: Line, more: seq<Line>)
    requires line.Result? && !t.aborted && SafeRun(t, [line] + more) && (t.allSkipped ==> t.aborted)
    requires !Step(t, line).aborted
    ensures var final := Run(t, [line] + more);
            var n := if line.number.Some? then line.number.value else t.current + 1;
            final.allSkipped || (1 <= n <= |final.results|
                && final.results[n - 1]
                   == if line.directive == SkipTest || (line.directive == TodoTest && !line.ok) then Skip
                      else if line.ok && line.directive != TodoTest then Pass else Fail)
  {
    assert ([line] + more)[1..] == more;
    RunKeeps(Step(t, line), more);
  }

  // ---- Which lines abort a run, and what a run that goes on has recorded

  /** The lines that abort: bail-outs, bad or repeated plans, bad or repeated test numbers. */
  lemma StepAborts(t: Tests, line: Line)
    requires Safe(t, line) && !t.aborted
    ensures Step(t, line).aborted
            <==> match line
                 case BailOut(_) => true
                 case Ignored => false
                 case PlanLine(dotted, n, _) =>
                   if t.plan == PlanInit then n <= 0
                   else dotted && (t.plan != PlanPending || n <= 0 || n < |t.results|)
                 case Result(_, number, _) =>
                   var n := if number.Some? then number.value else t.current + 1;
                   || n <= 0 || (t.plan == PlanFirst && n > |t.results|)
                   || (n <= |t.results| && t.results[n - 1] != Invalid)
  {
  }

  /** The number of the last result: the one written on it, or one more than the result before it. */
  function LastNumber(lines: seq<Line>): int {
    if lines == [] then 0
    else
      var before, line := lines[..|lines| - 1], lines[|lines| - 1];
      match line
      case Result(_, Some(n), _) => n
      case Result(_, None, _) => LastNumber(before) + 1
      case _ => LastNumber(before)
  }

  /** Line i reports test n. */
  predicate Reports(lines: seq<Line>, i: nat, n: int) {
    i < |lines| && lines[i].Result? && LastNumber(lines[..i + 1]) == n
  }

  ghost predicate Seen(lines: seq<Line>, n: int) { exists i: nat :: Reports(lines, i, n) }

  /** A failed todo test counts as skipped, a passed one as failed. */
  predicate Recorded(line: Line, status: Status) {
    && line.Result?
    && match line.directive
       case SkipTest => status == Skip
       case TodoTest => status == (if line.ok then Fail else Skip)
       case NoDirective => status == (if line.ok then Pass else Fail)
  }

  /** Line p states the plan: it is the first count that has the form 1..n or precedes all results. */
  ghost predicate Plans(lines: seq<Line>, p: nat) { MayPlan(lines, p) && forall q: nat :: q < p ==> !MayPlan(lines, q) }

  predicate MayPlan(lines: seq<Line>, p: nat) {
    && p < |lines| && lines[p].PlanLine?
    && (lines[p].dotted || forall i :: 0 <= i < p ==> !lines[i].Result?)
  }

  /** The table holds what the lines report, each test once, and nothing else. */
  ghost predicate Holds(results: seq<Status>, lines: seq<Line>) {
    && (forall i: nat, n :: Reports(lines, i, n) ==> 1 <= n <= |results| && Recorded(lines[i], results[n - 1]))
    && (forall i: nat, j: nat, n :: Reports(lines, i, n) && Reports(lines, j, n) ==> i == j)
    && (forall k :: 0 <= k < |results| && results[k] != Invalid ==> Seen(lines, k + 1))
  }

  /** The plan is the one stated; before one, the table ends with the greatest number reported. */
  ghost predicate PlanHolds(t: Tests, lines: seq<Line>) {
    && (t.plan == PlanInit ==> t.results == [] && forall i :: 0 <= i < |lines| ==> lines[i].Ignored?)
    && (t.plan == PlanPending ==> t.results != [] && t.results[|t.results| - 1] != Invalid)
    && (t.plan == PlanInit || t.plan == PlanPending ==> forall p: nat :: !MayPlan(lines, p))
    && (t.plan == PlanFirst || t.plan == PlanFinal ==> exists p: nat :: Plans(lines, p) && lines[p].n == |t.results|)
  }

  ghost predicate History(t: Tests, lines: seq<Line>) {
    Holds(t.results, lines) && PlanHolds(t, lines) && t.current == LastNumber(lines) && !t.allSkipped
  }

  lemma ReportsSnoc(lines: seq<Line>, line: Line, i: nat, n: int)
    ensures Reports(lines + [line], i, n)
            <==> if i < |lines| then Reports(lines, i, n)
                 else i == |lines| && line.Result? && n == LastNumber(lines + [line])
  {
    var longer := lines + [line];
    if i < |lines| {
      assert longer[..i + 1] == lines[..i + 1];
    } else if i == |lines| {
      assert longer[..i + 1] == longer;
    }
  }

  lemma LastSnoc(lines: seq<Line>, line: Line)
    ensures LastNumber(lines + [line])
         == if !line.Result? then LastNumber(lines)
            else if line.number.Some? then line.number.value else LastNumber(lines) + 1
  {
    assert (lines + [line])[..|lines|] == lines;
  }

  lemma MayPlanSnoc(lines: seq<Line>, line: Line, p: nat)
    ensures MayPlan(lines + [line], p)
            <==> if p < |lines| then MayPlan(lines, p)
                 else p == |lines| && line.PlanLine?
                      && (line.dotted || forall i :: 0 <= i < |lines| ==> !lines[i].Result?)
  {
    var longer := lines + [line];
    assert forall i :: 0 <= i < |lines| ==> longer[i] == lines[i];
  }

  lemma HoldsGrown(results: seq<Status>, lines: seq<Line>, n: nat)
    requires Holds(results, lines)
    ensures Holds(Grown(results, n), lines)
  {
    var g := Grown(results, n);
    assert forall k :: 0 <= k < |g| ==> g[k] == if k < |results| then results[k] else Invalid;
  }

  lemma HoldsOther(results: seq<Status>, lines: seq<Line>, line: Line)
    requires Holds(results, lines) && !line.Result?
    ensures Holds(results, lines + [line])
  {
    forall n
      ensures Seen(lines, n) ==> Seen(lines + [line], n)
    {
      if i: nat :| Reports(lines, i, n) {
        ReportsSnoc(lines, line, i, n);
      }
    }
    forall i: nat, n
      ensures Reports(lines + [line], i, n) <==> Reports(lines, i, n)
    {
      ReportsSnoc(lines, line, i, n);
    }
  }

  lemma HoldsResult(results: seq<Status>, lines: seq<Line>, line: Line, n: nat, status: Status)
    requires Holds(results, lines) && line.Result? && n == LastNumber(lines + [line])
    requires 1 <= n <= |results| && results[n - 1] == Invalid && Recorded(line, status)
    ensures Holds(results[n - 1 := status], lines + [line])
  {
    var longer, after := lines + [line], results[n - 1 := status];
    forall i: nat, m
      ensures Reports(longer, i, m) <==> Reports(lines, i, m) || (i == |lines| && m == n)
    {
      ReportsSnoc(lines, line, i, m);
    }
    assert forall i: nat :: !Reports(lines, i, n);
    forall k | 0 <= k < |after| && after[k] != Invalid
      ensures Seen(longer, k + 1)
    {
      if k == n - 1 {
        assert Reports(longer, |lines|, k + 1);
      } else {
        assert Seen(lines, k + 1);
        var i: nat :| Reports(lines, i, k + 1);
        assert Reports(longer, i, k + 1);
      }
    }
    forall i: nat, m | Reports(longer, i, m)
      ensures 1 <= m <= |after| && Recorded(longer[i], after[m - 1])
    {
      if i < |lines| {
        assert Reports(lines, i, m) && longer[i] == lines[i];
      } else {
        assert m == n;
      }
    }
  }

  lemma OtherLine(t: Tests, lines: seq<Line>, line: Line)
    requires History(t, lines)
    requires line.Ignored? || (line.PlanLine? && !line.dotted && t.plan != PlanInit)
    ensures History(t, lines + [line])
  {
    HoldsOther(t.results, lines, line);
    LastSnoc(lines, line);
    if t.plan == PlanPending && line.PlanLine? {
      assert Seen(lines, |t.results|);
      var i: nat :| Reports(lines, i, |t.results|);
      assert lines[i].Result?;
    }
    PlansKept(lines, line);
  }

  lemma PlansKept(lines: seq<Line>, line: Line)
    ensures forall p: nat :: p < |lines| ==> (MayPlan(lines + [line], p) <==> MayPlan(lines, p))
    ensures forall p: nat :: Plans(lines, p) ==> Plans(lines + [line], p)
    ensures MayPlan(lines + [line], |lines|)
            <==> line.PlanLine? && (line.dotted || forall i :: 0 <= i < |lines| ==> !lines[i].Result?)
    ensures forall p: nat :: p > |lines| ==> !MayPlan(lines + [line], p)
  {
    forall p: nat
      ensures p < |lines| ==> (MayPlan(lines + [line], p) <==> MayPlan(lines, p))
    {
      MayPlanSnoc(lines, line, p);
    }
    MayPlanSnoc(lines, line, |lines|);
  }

  lemma PlanAccepted(t: Tests, lines: seq<Line>, line: Line)
    requires History(t, lines) && line.PlanLine? && line.n > 0
    requires t.plan == PlanInit || (line.dotted && t.plan == PlanPending && line.n >= |t.results|)
    ensures History(PlanStep(t, line.n, line.skip), lines + [line])
  {
    HoldsGrown(t.results, lines, line.n);
    HoldsOther(Grown(t.results, line.n), lines, line);
    LastSnoc(lines, line);
    PlansKept(lines, line);
    assert Plans(lines + [line], |lines|);
  }

  lemma ResultAccepted(t: Tests, lines: seq<Line>, line: Line)
    requires History(t, lines) && !t.aborted && line.Result? && Safe(t, line) && !ResultStep(t, line).aborted
    ensures History(ResultStep(t, line), lines + [line])
  {
    var n := Number(t, line);
    var a := Admit(t, n);
    var status := Effective(line.ok, line.directive);
    LastSnoc(lines, line);
    HoldsGrown(t.results, lines, n);
    assert Holds(a.results, lines);
    HoldsResult(a.results, lines, line, n, status);
    ResultPlan(t, lines, line, n, status);
  }

  lemma ResultPlan(t: Tests, lines: seq<Line>, line: Line, n: nat, status: Status)
    requires PlanHolds(t, lines) && line.Result? && 1 <= n <= Admit(t, n).Count() && status != Invalid
    ensures PlanHolds(Record(Admit(t, n), n, status), lines + [line])
  {
    PlansKept(lines, line);
    var a := Admit(t, n);
    if a.plan == PlanPending {
      assert n == |a.results| || a.results[|a.results| - 1] == t.results[|t.results| - 1];
    } else {
      var p: nat :| Plans(lines, p) && lines[p].n == |t.results|;
      assert Plans(lines + [line], p) && (lines + [line])[p] == lines[p];
    }
  }

  lemma HistoryStep(t: Tests, lines: seq<Line>, line: Line)
    requires History(t, lines) && Safe(t, line) && !t.aborted && !Step(t, line).aborted
    ensures History(Step(t, line), lines + [line])
  {
    match line
    case Ignored => OtherLine(t, lines, line);
    case PlanLine(dotted, n, skip) =>
      if t.plan == PlanInit || (dotted && t.plan == PlanPending) {
        PlanAccepted(t, lines, line);
      } else {
        OtherLine(t, lines, line);
      }
    case Result(_, _, _) => ResultAccepted(t, lines, line);
    case BailOut(_) =>
  }

  /** A run that is not broken off has recorded exactly what its lines report. */
  lemma {:induction false} RunHistory(lines: seq<Line>)
    requires SafeRun(NEW_TESTS, lines) && !Run(NEW_TESTS, lines).aborted
    ensures History(Run(NEW_TESTS, lines), lines)
    decreases |lines|
  {
    if lines == [] {
    } else {
      var before, line := lines[..|lines| - 1], lines[|lines| - 1];
      assert lines == before + [line];
      RunAppends(NEW_TESTS, before, [line]);
      var t := Run(NEW_TESTS, before);
      assert [line][1..] == [];
      RunHistory(before);
      HistoryStep(t, before, line);
      assert Run(t, [line]) == Run(Step(t, line), []) == Step(t, line);
    }
  }

  /** Line i reports a pass, a skipped test, or a todo test that failed as expected. */
  predicate GoodReport(line: Line) {
    line.Result? && (line.directive == SkipTest || (if line.directive == TodoTest then !line.ok else line.ok))
  }

  /**
   A run that is not broken off is judged a success exactly when the program exits with zero, a line
   states a plan, and every number of the plan is reported by a line, none of them bad.
   */
  lemma RunVerdict(lines: seq<Line>, exit: Exit)
    requires SafeRun(NEW_TESTS, lines) && !Run(NEW_TESTS, lines).aborted
    ensures Succeeds(Run(NEW_TESTS, lines), false, exit)
            <==> exit == Exited(0)
                 && exists p: nat :: Plans(lines, p)
                      && (forall n :: 1 <= n <= lines[p].n ==> Seen(lines, n))
                      && (forall i :: 0 <= i < |lines| && lines[i].Result? ==> GoodReport(lines[i]))
  {
    var t := Run(NEW_TESTS, lines);
    RunHistory(lines);
    RunQuiet(NEW_TESTS, lines);
    RunKeepsTally(NEW_TESTS, lines);
    VerdictOf(t, false, exit);
    GoodTable(t.results, lines);
    OnePlan(t, lines);
  }

  lemma OnePlan(t: Tests, lines: seq<Line>)
    requires PlanHolds(t, lines)
    ensures t.plan == PlanFirst || t.plan == PlanFinal <==> exists p: nat :: Plans(lines, p)
    ensures forall p: nat :: Plans(lines, p) ==> lines[p].n == |t.results|
  {
    if p: nat :| Plans(lines, p) {
      var q: nat :| Plans(lines, q) && lines[q].n == |t.results|;
      assert forall r: nat :: Plans(lines, r) ==> !(r < q) && !(q < r);
    }
  }

  lemma GoodTable(results: seq<Status>, lines: seq<Line>)
    requires Holds(results, lines)
    ensures (forall k :: 0 <= k < |results| ==> results[k] == Pass || results[k] == Skip)
            <==> (forall n :: 1 <= n <= |results| ==> Seen(lines, n))
                 && (forall i :: 0 <= i < |lines| && lines[i].Result? ==> GoodReport(lines[i]))
  {
    if forall k :: 0 <= k < |results| ==> results[k] == Pass || results[k] == Skip {
      forall n | 1 <= n <= |results|
        ensures Seen(lines, n)
      {
        assert results[n - 1] != Invalid;
      }
      forall i: nat | i < |lines| && lines[i].Result?
        ensures GoodReport(lines[i])
      {
        assert Reports(lines, i, LastNumber(lines[..i + 1]));
      }
    }
    if forall n :: 1 <= n <= |results| ==> Seen(lines, n) {
      forall k | 0 <= k < |results|
        ensures (exists i: nat :: i < |lines| && lines[i].Result? && !GoodReport(lines[i]))
                || results[k] == Pass || results[k] == Skip
      {
        assert Seen(lines, k + 1);
        var i: nat :| Reports(lines, i, k + 1);
        assert Recorded(lines[i], results[k]);
      }
    }
  }
}
