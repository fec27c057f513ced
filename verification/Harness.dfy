/** struct testset and the methods of runtests.c that update it. */
module Harness {
  import opened Common
  import opened RunTests
  import opened TapLines

  /** A run in the middle: what is still to come leads where the whole run leads. */
  ghost predicate Halfway(t: Tests, lines: seq<Line>, i: nat)
    requires SafeRun(NEW_TESTS, lines)
  {
    && i <= |lines| && (t.allSkipped ==> t.aborted) && Tallied(t)
    && SafeRun(t, lines[i..]) && Run(t, lines[i..]) == Run(NEW_TESTS, lines)
  }

  lemma OneLine(t: Tests, lines: seq<Line>, i: nat)
    requires SafeRun(NEW_TESTS, lines) && Halfway(t, lines, i) && i < |lines| && !t.aborted
    ensures Safe(t, lines[i]) && Halfway(Step(t, lines[i]), lines, i + 1)
  {
    assert lines[i..][1..] == lines[i + 1..] && lines[i..][0] == lines[i];
    RunUnfolds(t, lines[i..]);
    StepKeepsTally(t, lines[i]);
    StepEndsSkipped(t, lines[i]);
  }

  class TestSet {
    var plan: Plan
    var count: nat
    var current: nat
    var passed: nat
    var failed: nat
    var skipped: nat
    var results: array<Status>
    var aborted: bool
    var reported: bool
    var allSkipped: bool

    /** The table covers the count, and past it nothing has been recorded (unless all was skipped). */
    ghost predicate Valid()
      reads this, results
    {
      && count <= results.Length
      && (if allSkipped then count == 0 else forall k :: count <= k < results.Length ==> results[k] == Invalid)
    }

    ghost function Abs(): Tests
      requires Valid()
      reads this, results
    {
      Tests(plan, current, passed, failed, skipped, results[..count], aborted, reported, allSkipped)
    }

    constructor ()
      ensures Valid() && fresh(results) && Abs() == NEW_TESTS
    {
      plan, count, current, passed, failed, skipped := PlanInit, 0, 0, 0, 0, 0;
      aborted, reported, allSkipped := false, false, false;
      results := new Status[0];
    }

    /** resize_results: at least 32 entries at first, then at least 1024 more; new ones are invalid. */
    method ResizeResults(n: nat)
      modifies this`results
      ensures n <= results.Length && (results == old(results) || fresh(results))
      ensures old(results.Length) <= results.Length
      ensures results[..old(results.Length)] == old(results[..])
      ensures forall k :: old(results.Length) <= k < results.Length ==> results[k] == Invalid
    {
      var room := results.Length;
      if n <= room { return; }
      var s := if room == 0 then if n > 32 then n else 32
               else if n > room + 1024 then n else room + 1024;
      var table := new Status[s](_ => Invalid);
      forall k | 0 <= k < room { table[k] := results[k]; }
      results := table;
    }

    /** Grow the table and the count to n. */
    method GrowTo(n: nat)
      requires Valid() && !allSkipped
      modifies this`results, this`count
      ensures Valid() && (results == old(results) || fresh(results))
      ensures Abs() == old(Abs()).(results := Grown(old(results[..count]), n))
    {
      ghost var before := results[..count];
      ResizeResults(n);
      if n > count { count := n; }
      assert results[..count] == Grown(before, n);
    }

    /** test_plan */
    method TestPlan(n: int, skip: bool)
      requires Valid() && !allSkipped && (plan == PlanInit ==> count == 0)
      modifies this
      ensures Valid() && (results == old(results) || fresh(results))
      ensures Abs() == PlanStep(old(Abs()), n, skip)
    {
      if n == 0 && skip {
        allSkipped, aborted := true, true;
        count, passed, skipped, failed := 0, 0, 0, 0;
        return;
      }
      if n <= 0 || (plan == PlanPending && n < count) {
        aborted, reported := true, true;
        return;
      }
      GrowTo(n);
      plan := if plan == PlanInit then PlanFirst else PlanFinal;
    }

    /** The part of test_checkline that handles a result. */
    method CheckResult(ok: bool, number: Option<int>, directive: Directive)
      requires Valid() && !allSkipped && Safe(Abs(), Result(ok, number, directive))
      modifies this, results
      ensures Valid() && (results == old(results) || fresh(results))
      ensures Abs() == ResultStep(old(Abs()), Result(ok, number, directive))
    {
      var n := if number.Some? then number.value else current + 1;
      if n <= 0 || (n > count && plan == PlanFirst) {
        aborted, reported := true, true;
        return;
      }
      AdmitNumber(n);
      if results[n - 1] != Invalid {
        aborted, reported := true, true;
        return;
      }
      RecordResult(n, Effective(ok, directive));
    }

    method AdmitNumber(n: nat)
      requires Valid() && !allSkipped
      modifies this`plan, this`results, this`count
      ensures Valid() && (results == old(results) || fresh(results)) && !allSkipped
      ensures Abs() == Admit(old(Abs()), n)
    {
      if plan == PlanInit || plan == PlanPending {
        plan := PlanPending;
        GrowTo(n);
      }
    }

    /** Count a good result and put it in the table. */
    method RecordResult(n: nat, status: Status)
      requires Valid() && !allSkipped && 1 <= n <= count
      modifies this`passed, this`failed, this`skipped, this`current, results
      ensures Valid() && Abs() == Record(old(Abs()), n, status)
    {
      match status {
        case Pass => passed := passed + 1;
        case Fail => failed := failed + 1;
        case Skip => skipped := skipped + 1;
        case Invalid =>
      }
      current := n;
      results[n - 1] := status;
      assert results[..count] == old(results[..count])[n - 1 := status];
    }

    /** test_checkline */
    method CheckLine(text: seq<char>)
      requires Valid() && !allSkipped && Safe(Abs(), Lex(text)) && (plan == PlanInit ==> count == 0)
      modifies this, results
      ensures Valid() && (results == old(results) || fresh(results))
      ensures Abs() == Step(old(Abs()), Lex(text))
    {
      HandleLine(Lex(text));
    }

    /** What test_checkline does with a line once it is read. */
    method HandleLine(line: Line)
      requires Valid() && !allSkipped && Safe(Abs(), line) && (plan == PlanInit ==> count == 0)
      modifies this, results
      ensures Valid() && (results == old(results) || fresh(results))
      ensures Abs() == Step(old(Abs()), line)
    {
      match line
      case BailOut(message) =>
        if message { reported := true; }
        aborted := true;
      case Ignored =>
      case PlanLine(dotted, n, skip) =>
        if plan == PlanInit || (dotted && plan == PlanPending) {
          TestPlan(n, skip);
        } else if dotted {
          aborted, reported := true, true;
        }
      case Result(ok, number, directive) =>
        CheckResult(ok, number, directive);
    }

    /** test_run: the lines of the output until the set aborts, the analysis, and missing tests turned into failures. */
    method TestRun(output: seq<char>, bufsize: nat, ioError: bool, exit: Exit) returns (success: bool)
      requires Valid() && Abs() == NEW_TESTS && bufsize >= 2
      requires SafeRun(NEW_TESTS, LexAll(Lines(output, bufsize)))
      modifies this, results
      ensures Valid()
      ensures var t := Closed(Run(NEW_TESTS, LexAll(Lines(output, bufsize))), ioError);
              && Abs() == FailMissing(AfterAnalysis(t, exit))
              && (success <==> Analyzed(t, exit) && Invalid !in t.results)
      ensures passed + failed + skipped == count
    {
      ReadLines(Lines(output, bufsize));
      Close(ioError);
      success := Analyze(exit);
      AllAccounted(Abs());
      var missing := ConvertMissing();
      if missing { success := false; }
    }

    /** The reading loop of test_run. */
    method ReadLines(texts: seq<seq<char>>)
      requires Valid() && Abs() == NEW_TESTS && SafeRun(NEW_TESTS, LexAll(texts))
      modifies this, results
      ensures Valid() && (results == old(results) || fresh(results))
      ensures Abs() == Run(NEW_TESTS, LexAll(texts)) && Tallied(Abs())
    {
      var i := 0;
      ghost var lines, t := LexAll(texts), NEW_TESTS;
      assert lines[0..] == lines;
      while !aborted && i < |texts|
        invariant 0 <= i <= |texts| && Valid() && (results == old(results) || fresh(results))
        invariant t == Abs() && Halfway(t, lines, i)
      {
        OneLine(t, lines, i);
        CheckLine(texts[i]);
        t, i := Step(t, lines[i]), i + 1;
      }
    }

    method Close(ioError: bool)
      requires Valid()
      modifies this`aborted
      ensures Valid() && Abs() == Closed(old(Abs()), ioError)
    {
      if ioError || plan == PlanInit { aborted := true; }
      if allSkipped { aborted := false; }
    }

    method Analyze(exit: Exit) returns (success: bool)
      requires Valid()
      modifies this`aborted
      ensures Valid() && Abs() == AfterAnalysis(old(Abs()), exit) && success == Analyzed(old(Abs()), exit)
    {
      if reported { return false; }
      if allSkipped { return true; }
      if exit != Exited(0) { return false; }
      if plan != PlanFirst && plan != PlanFinal {
        aborted := true;
        return false;
      }
      return failed == 0;
    }

    /** The last loop of test_run. */
    method ConvertMissing() returns (missing: bool)
      requires Valid()
      modifies this`failed, results
      ensures Valid() && Abs() == FailMissing(old(Abs())) && (missing <==> Invalid in old(results[..count]))
    {
      ghost var before, was := results[..count], failed;
      missing := false;
      var i := 0;
      while i < count
        invariant 0 <= i <= count
        invariant forall k :: 0 <= k < results.Length ==>
                    results[k] == if k < i && old(results[k]) == Invalid then Fail else old(results[k])
        invariant failed == was + CountOf(before[..i], Invalid) && (missing <==> Invalid in before[..i])
      {
        assert before[..i + 1][..i] == before[..i] && before[..i + 1] == before[..i] + [before[i]];
        assert results[i] == before[i];
        if results[i] == Invalid {
          failed := failed + 1;
          results[i] := Fail;
          missing := true;
        }
        i := i + 1;
      }
      assert before[..i] == before;
    }
  }
}
