/** The range listings of test_summarize, and reading them back. */
module TestSummary {
  import opened Common
  import opened Numerals
  import opened Splitting
  import opened RunTests

  datatype Range = Range(first: nat, last: nat)

  predicate Within(r: Range, n: nat) { r.first <= n <= r.last }

  ghost predicate Covered(ranges: seq<Range>, n: nat) {
    exists i :: 0 <= i < |ranges| && Within(ranges[i], n)
  }

  /** Nonempty ranges of test numbers, increasing and never adjacent, so each is maximal. */
  ghost predicate Ordered(ranges: seq<Range>) {
    && (forall i :: 0 <= i < |ranges| ==> 1 <= ranges[i].first <= ranges[i].last)
    && (forall i, j :: 0 <= i < j < |ranges| ==> ranges[i].last + 1 < ranges[j].first)
  }

  /** The ranges hold exactly the test numbers up to n whose result is `which`. */
  ghost predicate Exactly(results: seq<Status>, n: nat, which: Status, ranges: seq<Range>) {
    n <= |results| && forall k: nat :: Covered(ranges, k) <==> 1 <= k <= n && results[k - 1] == which
  }

  // ---- Printing

  function RangeText(r: Range): seq<char> {
    if r.last > r.first then Decimal(r.first) + "-" + Decimal(r.last) else Decimal(r.last)
  }

  function Texts(ranges: seq<Range>): (t: seq<seq<char>>)
    ensures |t| == |ranges| && forall i :: 0 <= i < |t| ==> t[i] == RangeText(ranges[i])
  {
    seq(|ranges|, i requires 0 <= i < |ranges| => RangeText(ranges[i]))
  }

  function Listing(ranges: seq<Range>): seq<char> { Join(Texts(ranges), ", ") }

  /** A range as it goes on a line, after a comma when something precedes it. */
  function Entry(r: Range, chars: nat): seq<char> { (if chars > 0 then ", " else []) + RangeText(r) }

  lemma ListingSnoc(ranges: seq<Range>, r: Range)
    ensures Listing(ranges + [r]) == Listing(ranges) + Entry(r, |ranges|)
  {
    var t := RangeText(r);
    assert Texts(ranges + [r]) == Texts(ranges) + [t];
    assert (Texts(ranges) + [t])[..|ranges|] == Texts(ranges);
    Rejoin(Listing(ranges), ", ", t);
  }

  /** What goes on a line of at most `limit` characters, of which `chars` are used; zero means no limit. */
  function Fitted(r: Range, chars: nat, limit: nat): seq<char> {
    if limit == 0 || chars + |Entry(r, chars)| <= limit then Entry(r, chars)
    else if chars > limit then []
    else (if chars > 0 then ", " else []) + "..."
  }

  /** The loop that counts digits. */
  method CountDigits(number: nat) returns (needed: nat)
    requires number > 0
    ensures needed == |Decimal(number)|
  {
    var n := number;
    needed := 0;
    while n > 0
      invariant needed + (if n > 0 then |Decimal(n)| else 0) == |Decimal(number)|
    {
      DigitStep(n, 10, false);
      needed, n := needed + 1, n / 10;
    }
  }

  /** test_print_range: what it prints, and that the count it returns is that of the characters printed. */
  method PrintRange(first: nat, last: nat, chars: nat, limit: nat) returns (needed: nat, text: seq<char>)
    requires 1 <= first <= last
    ensures text == Fitted(Range(first, last), chars, limit) && needed == |text|
  {
    needed := CountDigits(first);
    if last > first {
      var more := CountDigits(last);
      needed := needed + more + 1;
    }
    if chars > 0 { needed := needed + 2; }
    text := [];
    if limit > 0 && chars + needed > limit {
      needed := 0;
      if chars <= limit {
        if chars > 0 { text, needed := ", ", 2; }
        text, needed := text + "...", needed + 3;
      }
    } else {
      if chars > 0 { text := ", "; }
      if last > first { text := text + (Decimal(first) + "-" + Decimal(last)); } else { text := text + Decimal(last); }
    }
  }

  /** The open range of the loop; first is 0 before any test number has been found. */
  function Current(first: nat, last: nat): seq<Range> { if first == 0 then [] else [Range(first, last)] }

  /** The ranges among the first i entries: those closed, and the current one. */
  ghost predicate Ranged(results: seq<Status>, i: nat, which: Status, closed: seq<Range>, first: nat, last: nat) {
    && i <= |results| && last <= i && (first == 0 ==> closed == [])
    && Ordered(closed + Current(first, last)) && Exactly(results, i, which, closed + Current(first, last))
  }

  lemma NothingRanged(results: seq<Status>, which: Status)
    ensures Ranged(results, 0, which, [], 0, 0)
  {
    assert [] + Current(0, 0) == [];
  }

  lemma CurrentIsRange(results: seq<Status>, i: nat, which: Status, closed: seq<Range>, first: nat, last: nat)
    requires Ranged(results, i, which, closed, first, last) && first != 0
    ensures 1 <= first <= last
  {
    assert (closed + Current(first, last))[|closed|] == Range(first, last);
  }

  /** The next number lengthens the current range. */
  lemma Lengthened(results: seq<Status>, i: nat, which: Status, closed: seq<Range>, first: nat, last: nat)
    requires Ranged(results, i, which, closed, first, last) && i < |results| && results[i] == which
    requires first != 0 && i == last
    ensures Ranged(results, i + 1, which, closed, first, i + 1)
  {
    Lengthen(results, i, which, closed, first, last);
  }

  /** The next number closes the current range, if there is one, and opens another. */
  lemma Opened(results: seq<Status>, i: nat, which: Status, closed: seq<Range>, first: nat, last: nat)
    requires Ranged(results, i, which, closed, first, last) && i < |results| && results[i] == which
    requires !(first != 0 && i == last)
    ensures Ranged(results, i + 1, which, closed + Current(first, last), i + 1, i + 1)
  {
    var before := closed + Current(first, last);
    assert first != 0 ==> before[|before| - 1] == Range(first, last);
    Open(results, i, which, before);
  }

  /** Any other result changes nothing. */
  lemma Passed(results: seq<Status>, i: nat, which: Status, closed: seq<Range>, first: nat, last: nat)
    requires Ranged(results, i, which, closed, first, last) && i < |results| && results[i] != which
    ensures Ranged(results, i + 1, which, closed, first, last)
  {
  }

  lemma Lengthen(results: seq<Status>, i: nat, which: Status, closed: seq<Range>, first: nat, last: nat)
    requires i < |results| && results[i] == which && first != 0 && last == i
    requires Ordered(closed + [Range(first, last)]) && Exactly(results, i, which, closed + [Range(first, last)])
    ensures Ordered(closed + [Range(first, i + 1)]) && Exactly(results, i + 1, which, closed + [Range(first, i + 1)])
  {
    var before, after := closed + [Range(first, last)], closed + [Range(first, i + 1)];
    var n := |closed|;
    assert before[n] == Range(first, last) && 1 <= before[n].first <= before[n].last;
    forall k: nat
      ensures Covered(after, k) <==> Covered(before, k) || k == i + 1
    {
      CoveredSnoc(closed, Range(first, last), k);
      CoveredSnoc(closed, Range(first, i + 1), k);
    }
    forall j, k | 0 <= j < k < |after|
      ensures after[j].last + 1 < after[k].first
    {
      assert before[j].last + 1 < before[k].first;
    }
    forall j | 0 <= j < |after|
      ensures 1 <= after[j].first <= after[j].last
    {
      assert 1 <= before[j].first <= before[j].last;
    }
  }

  /** A test number away from the last range opens a new one. */
  lemma Open(results: seq<Status>, i: nat, which: Status, closed: seq<Range>)
    requires i < |results| && results[i] == which && Ordered(closed) && Exactly(results, i, which, closed)
    requires closed != [] ==> closed[|closed| - 1].last != i
    ensures Ordered(closed + [Range(i + 1, i + 1)]) && Exactly(results, i + 1, which, closed + [Range(i + 1, i + 1)])
  {
    var after := closed + [Range(i + 1, i + 1)];
    forall k: nat
      ensures Covered(after, k) <==> Covered(closed, k) || k == i + 1
    {
      CoveredSnoc(closed, Range(i + 1, i + 1), k);
    }
    forall j | 0 <= j < |closed|
      ensures closed[j].last < i
    {
      var last := |closed| - 1;
      assert Within(closed[j], closed[j].last) && Covered(closed, closed[j].last);
      assert j < last ==> closed[j].last + 1 < closed[last].first;
      assert Within(closed[last], closed[last].last) && Covered(closed, closed[last].last);
    }
  }

  lemma CoveredSnoc(ranges: seq<Range>, r: Range, k: nat)
    ensures Covered(ranges + [r], k) <==> Covered(ranges, k) || Within(r, k)
  {
    var all := ranges + [r];
    if Covered(ranges, k) {
      var i :| 0 <= i < |ranges| && Within(ranges[i], k);
      assert all[i] == ranges[i];
    }
    if Within(r, k) { assert all[|ranges|] == r; }
  }

  // ---- Reading back

  function DecodeRange(text: seq<char>): Range {
    var p := Pieces(text, "-");
    Range(Value(p[0], 10), Value(p[|p| - 1], 10))
  }

  function Decode(text: seq<char>): seq<Range> {
    var tokens := Tokens(text, ", ");
    seq(|tokens|, i requires 0 <= i < |tokens| => DecodeRange(tokens[i]))
  }

  lemma NumberFree(n: nat, seps: seq<char>)
    requires forall i :: 0 <= i < |seps| ==> DigitValue(seps[i]) >= 10
    ensures Free(Decimal(n), seps)
  {
    DigitsDenote(n, 10, false);
  }

  lemma PairReads(a: seq<char>, b: seq<char>)
    requires Free(a, "-") && Free(b, "-")
    ensures DecodeRange(a + "-" + b) == Range(Value(a, 10), Value(b, 10))
  {
    SplitFree(a, "-");
    SplitFree(b, "-");
    SplitAround(a, '-', b, "-");
  }

  lemma FreePair(a: seq<char>, b: seq<char>, seps: seq<char>)
    requires Free(a, seps) && Free(b, seps) && '-' !in seps
    ensures Free(a + "-" + b, seps)
  {
  }

  lemma NumberReads(n: nat)
    ensures Value(Decimal(n), 10) == n && Free(Decimal(n), "-") && Free(Decimal(n), ", ")
  {
    DigitsDenote(n, 10, false);
    NumberFree(n, "-");
    NumberFree(n, ", ");
  }

  lemma RangeReads(r: Range)
    requires r.first <= r.last
    ensures DecodeRange(RangeText(r)) == r && RangeText(r) != [] && Free(RangeText(r), ", ")
  {
    var a, b := Decimal(r.first), Decimal(r.last);
    NumberReads(r.first);
    NumberReads(r.last);
    if r.last > r.first {
      PairReads(a, b);
      FreePair(a, b, ", ");
    } else {
      SplitFree(b, "-");
    }
  }

  /** The printed text decodes to exactly the ranges. */
  lemma ListingDecodes(ranges: seq<Range>)
    requires Ordered(ranges)
    ensures Decode(Listing(ranges)) == ranges
  {
    forall i | 0 <= i < |ranges|
      ensures DecodeRange(Texts(ranges)[i]) == ranges[i] && Texts(ranges)[i] != [] && Free(Texts(ranges)[i], ", ")
    {
      RangeReads(ranges[i]);
    }
    Retokenize(Texts(ranges), ", ", ", ");
  }

  lemma FirstRange(a: seq<Range>, k: nat)
    requires Ordered(a) && a != []
    ensures Covered(a, k) ==> a[0].first <= k
    ensures Covered(a[1..], k) <==> Covered(a, k) && k > a[0].last
    ensures Within(a[0], k) ==> Covered(a, k)
    ensures !Covered(a, a[0].last + 1)
  {
    if Covered(a[1..], k) {
      var i :| 0 <= i < |a[1..]| && Within(a[1..][i], k);
      assert Within(a[i + 1], k);
    }
    if Covered(a, k) {
      var i :| 0 <= i < |a| && Within(a[i], k);
      if i > 0 { assert Within(a[1..][i - 1], k); }
    }
  }

  ghost predicate SameNumbers(a: seq<Range>, b: seq<Range>) {
    forall k: nat :: Covered(a, k) <==> Covered(b, k)
  }

  lemma EmptyCovers(b: seq<Range>)
    requires Ordered(b) && SameNumbers([], b)
    ensures b == []
  {
    if b != [] { FirstCovered(b); }
  }

  lemma FirstCovered(b: seq<Range>)
    requires Ordered(b) && b != []
    ensures Covered(b, b[0].first)
  {
    assert Within(b[0], b[0].first);
  }

  lemma OrderedTail(a: seq<Range>)
    requires Ordered(a) && a != []
    ensures Ordered(a[1..]) && a == [a[0]] + a[1..]
  {
  }

  /** Two ordered lists of ranges that hold the same numbers are the same list. */
  lemma {:induction false} RangesUnique(a: seq<Range>, b: seq<Range>)
    requires Ordered(a) && Ordered(b) && SameNumbers(a, b)
    ensures a == b
    decreases |a|
  {
    if a == [] {
      EmptyCovers(b);
    } else if b == [] {
      EmptyCovers(a);
    } else {
      SameFirst(a, b);
      SameRest(a, b);
      OrderedTail(a);
      OrderedTail(b);
      RangesUnique(a[1..], b[1..]);
    }
  }

  lemma SameRest(a: seq<Range>, b: seq<Range>)
    requires Ordered(a) && Ordered(b) && a != [] && b != [] && a[0] == b[0] && SameNumbers(a, b)
    ensures SameNumbers(a[1..], b[1..])
  {
    forall k: nat
      ensures Covered(a[1..], k) <==> Covered(b[1..], k)
    {
      FirstRange(a, k);
      FirstRange(b, k);
    }
  }

  lemma SameFirst(a: seq<Range>, b: seq<Range>)
    requires Ordered(a) && Ordered(b) && a != [] && b != [] && SameNumbers(a, b)
    ensures a[0] == b[0]
  {
    FirstRange(a, a[0].first);
    FirstRange(b, b[0].first);
    FirstRange(a, b[0].first);
    FirstRange(b, a[0].first);
    FirstRange(a, b[0].last + 1);
    FirstRange(b, a[0].last + 1);
  }

  // ---- The loops of test_summarize

  /** The next result starts a new range. */
  predicate Starts(results: seq<Status>, i: nat, which: Status, first: nat, last: nat)
    requires i < |results|
  {
    results[i] == which && !(first != 0 && i == last)
  }

  lemma RangedStep(results: seq<Status>, i: nat, which: Status, closed: seq<Range>, first: nat, last: nat)
    requires Ranged(results, i, which, closed, first, last) && i < |results|
    ensures if Starts(results, i, which, first, last)
            then Ranged(results, i + 1, which, closed + Current(first, last), i + 1, i + 1)
            else Ranged(results, i + 1, which, closed, first, if results[i] == which then i + 1 else last)
  {
    if Starts(results, i, which, first, last) {
      Opened(results, i, which, closed, first, last);
    } else if results[i] == which {
      Lengthened(results, i, which, closed, first, last);
    } else {
      Passed(results, i, which, closed, first, last);
    }
  }

  /** What has been printed, and how many ranges have been found. */
  ghost predicate Listed(results: seq<Status>, i: nat, which: Status, closed: seq<Range>, first: nat, last: nat,
                         found: nat, text: seq<char>) {
    && Ranged(results, i, which, closed, first, last)
    && text == Listing(closed) && found == |closed| + (if first == 0 then 0 else 1)
  }

  /** Print the current range, if any; without a limit only whether something precedes it matters. */
  method PrintCurrent(results: seq<Status>, i: nat, which: Status, ghost closed: seq<Range>, first: nat, last: nat,
                      found: nat, text: seq<char>)
    returns (text': seq<char>)
    requires Listed(results, i, which, closed, first, last, found, text)
    ensures text' == Listing(closed + Current(first, last))
  {
    text' := text;
    if first != 0 {
      CurrentIsRange(results, i, which, closed, first, last);
      ListingSnoc(closed, Range(first, last));
      var needed, t := PrintRange(first, last, found - 1, 0);
      text' := text + t;
    } else {
      assert closed + Current(first, last) == closed;
    }
  }

  /** One turn of the loop: the next result lengthens the current range, or prints it and opens another. */
  method ListStep(results: seq<Status>, i: nat, which: Status, ghost closed: seq<Range>, first: nat, last: nat,
                  found: nat, text: seq<char>)
    returns (first': nat, last': nat, found': nat, text': seq<char>, ghost closed': seq<Range>)
    requires Listed(results, i, which, closed, first, last, found, text) && i < |results|
    ensures Listed(results, i + 1, which, closed', first', last', found', text')
  {
    RangedStep(results, i, which, closed, first, last);
    if results[i] != which { return first, last, found, text, closed; }
    if first != 0 && i == last { return first, i + 1, found, text, closed; }
    text' := PrintCurrent(results, i, which, closed, first, last, found, text);
    return i + 1, i + 1, found + 1, text', closed + Current(first, last);
  }

  /** What the loop has printed when it ends. */
  method PrintLast(results: seq<Status>, which: Status, ghost closed: seq<Range>, first: nat, last: nat, found: nat,
                   text: seq<char>)
    returns (text': seq<char>)
    requires Listed(results, |results|, which, closed, first, last, found, text)
    ensures Ordered(Decode(text')) && Exactly(results, |results|, which, Decode(text'))
            && text' == Listing(Decode(text'))
  {
    text' := PrintCurrent(results, |results|, which, closed, first, last, found, text);
    ListingDecodes(closed + Current(first, last));
  }

  /**
   A loop of test_summarize: what it prints reads back as increasing, never adjacent ranges that
   hold exactly the test numbers of one status.
   */
  method PrintRanges(results: seq<Status>, which: Status) returns (text: seq<char>)
    ensures Ordered(Decode(text)) && Exactly(results, |results|, which, Decode(text))
    ensures text == Listing(Decode(text))
  {
    var first: nat, last: nat, found: nat, i: nat := 0, 0, 0, 0;
    text := [];
    ghost var closed := [];
    NothingRanged(results, which);
    while i < |results|
      invariant i <= |results| && Listed(results, i, which, closed, first, last, found, text)
    {
      first, last, found, text, closed := ListStep(results, i, which, closed, first, last, found, text);
      i := i + 1;
    }
    text := PrintLast(results, which, closed, first, last, found, text);
  }

  // ---- The row of the final table

  /** The ranges one after the other on a line with a limit. */
  function Row(ranges: seq<Range>, limit: nat): seq<char> {
    if ranges == [] then []
    else
      var before := Row(ranges[..|ranges| - 1], limit);
      before + Fitted(ranges[|ranges| - 1], |before|, limit)
  }

  ghost predicate Rowed(results: seq<Status>, i: nat, closed: seq<Range>, first: nat, last: nat,
                        limit: nat, chars: nat, text: seq<char>) {
    Ranged(results, i, Fail, closed, first, last) && text == Row(closed, limit) && chars == |text|
  }

  /** The text is the row of the failed tests. */
  ghost predicate IsRow(results: seq<Status>, limit: nat, text: seq<char>, ranges: seq<Range>) {
    Ordered(ranges) && Exactly(results, |results|, Fail, ranges) && text == Row(ranges, limit)
  }

  /** The loop of test_fail_summary over the results of one set; by RangesUnique the ranges are determined. */
  method FailRow(results: seq<Status>, limit: nat) returns (text: seq<char>)
    ensures exists ranges :: IsRow(results, limit, text, ranges)
  {
    var chars: nat, first: nat, last: nat, i: nat := 0, 0, 0, 0;
    text := [];
    ghost var closed := [];
    NothingRanged(results, Fail);
    while i < |results|
      invariant i <= |results| && Rowed(results, i, closed, first, last, limit, chars, text)
    {
      first, last, chars, text, closed := RowStep(results, i, closed, first, last, limit, chars, text);
      i := i + 1;
    }
    chars, text := RowCurrent(results, i, closed, first, last, limit, chars, text);
    assert IsRow(results, limit, text, closed + Current(first, last));
  }

  method RowStep(results: seq<Status>, i: nat, ghost closed: seq<Range>, first: nat, last: nat, limit: nat,
                 chars: nat, text: seq<char>)
    returns (first': nat, last': nat, chars': nat, text': seq<char>, ghost closed': seq<Range>)
    requires Rowed(results, i, closed, first, last, limit, chars, text) && i < |results|
    ensures Rowed(results, i + 1, closed', first', last', limit, chars', text')
  {
    if Starts(results, i, Fail, first, last) {
      chars', text' := StartRow(results, i, closed, first, last, limit, chars, text);
      return i + 1, i + 1, chars', text', closed + Current(first, last);
    }
    RowGoesOn(results, i, closed, first, last, limit, chars, text);
    return first, if results[i] == Fail then i + 1 else last, chars, text, closed;
  }

  method StartRow(results: seq<Status>, i: nat, ghost closed: seq<Range>, first: nat, last: nat, limit: nat,
                  chars: nat, text: seq<char>)
    returns (chars': nat, text': seq<char>)
    requires Rowed(results, i, closed, first, last, limit, chars, text)
    requires i < |results| && Starts(results, i, Fail, first, last)
    ensures Rowed(results, i + 1, closed + Current(first, last), i + 1, i + 1, limit, chars', text')
  {
    chars', text' := RowCurrent(results, i, closed, first, last, limit, chars, text);
    RowStarts(results, i, closed, first, last, limit, chars, text);
  }

  lemma RowStarts(results: seq<Status>, i: nat, closed: seq<Range>, first: nat, last: nat, limit: nat,
                  chars: nat, text: seq<char>)
    requires Rowed(results, i, closed, first, last, limit, chars, text)
    requires i < |results| && Starts(results, i, Fail, first, last)
    ensures var ranges := closed + Current(first, last);
            var row := Row(ranges, limit);
            Rowed(results, i + 1, ranges, i + 1, i + 1, limit, |row|, row)
  {
    RangedStep(results, i, Fail, closed, first, last);
  }

  lemma RowGoesOn(results: seq<Status>, i: nat, closed: seq<Range>, first: nat, last: nat, limit: nat,
                  chars: nat, text: seq<char>)
    requires Rowed(results, i, closed, first, last, limit, chars, text)
    requires i < |results| && !Starts(results, i, Fail, first, last)
    ensures Rowed(results, i + 1, closed, first, if results[i] == Fail then i + 1 else last, limit, chars, text)
  {
    RangedStep(results, i, Fail, closed, first, last);
  }

  method RowCurrent(results: seq<Status>, i: nat, ghost closed: seq<Range>, first: nat, last: nat, limit: nat,
                    chars: nat, text: seq<char>)
    returns (chars': nat, text': seq<char>)
    requires Rowed(results, i, closed, first, last, limit, chars, text)
    ensures text' == Row(closed + Current(first, last), limit) && chars' == |text'|
  {
    chars', text' := chars, text;
    if first != 0 {
      CurrentIsRange(results, i, Fail, closed, first, last);
      var needed, t := PrintRange(first, last, chars, limit);
      chars', text' := chars + needed, text + t;
      assert (closed + [Range(first, last)])[..|closed|] == closed;
    } else {
      assert closed + Current(first, last) == closed;
    }
  }

  lemma {:induction false} ListingHasNoDots(ranges: seq<Range>)
    ensures '.' !in Listing(ranges)
    decreases |ranges|
  {
    if ranges == [] {
    } else {
      var init, last := ranges[..|ranges| - 1], ranges[|ranges| - 1];
      ListingHasNoDots(init);
      assert ranges == init + [last];
      ListingSnoc(init, last);
      RangeHasNoDot(last);
      assert '.' !in Entry(last, |init|);
    }
  }

  lemma RangeHasNoDot(r: Range)
    ensures '.' !in RangeText(r)
  {
    NumberFree(r.first, ".");
    NumberFree(r.last, ".");
    FreePair(Decimal(r.first), Decimal(r.last), ".");
  }

  /**
   The row lists the failed tests in full exactly when the listing fits the limit, and never takes
   more than five characters beyond it.
   */
  lemma {:induction false} RowFits(ranges: seq<Range>, limit: nat)
    requires limit > 0
    ensures Row(ranges, limit) == Listing(ranges) <==> |Listing(ranges)| <= limit
    ensures |Row(ranges, limit)| <= limit + 5
    ensures |Listing(ranges)| > limit ==> '.' in Row(ranges, limit)
    decreases |ranges|
  {
    if ranges == [] {
      assert Listing(ranges) == [];
    } else {
      var init, last := ranges[..|ranges| - 1], ranges[|ranges| - 1];
      RowFits(init, limit);
      assert ranges == init + [last];
      ListingSnoc(init, last);
      RowGrows(init, last, limit);
      ListingHasNoDots(ranges);
      DotTells(Row(ranges, limit), Listing(ranges));
    }
  }

  lemma DotTells(row: seq<char>, listing: seq<char>)
    requires '.' !in listing
    ensures '.' in row ==> row != listing
  {
  }

  lemma FittedSize(r: Range, chars: nat, limit: nat)
    requires limit > 0 && chars <= limit + 5
    ensures chars + |Fitted(r, chars, limit)| <= limit + 5
    ensures chars <= limit < chars + |Entry(r, chars)| ==> '.' in Fitted(r, chars, limit)
  {
    if chars <= limit < chars + |Entry(r, chars)| {
      var t := Fitted(r, chars, limit);
      assert t[|t| - 1] == '.';
    }
  }

  lemma RowGrows(init: seq<Range>, last: Range, limit: nat)
    requires limit > 0 && (Row(init, limit) == Listing(init) <==> |Listing(init)| <= limit)
    requires |Row(init, limit)| <= limit + 5 && (|Listing(init)| > limit ==> '.' in Row(init, limit))
    ensures var row := Row(init, limit) + Fitted(last, |Row(init, limit)|, limit);
            var full := Listing(init) + Entry(last, |init|);
            && |row| <= limit + 5 && (|full| <= limit ==> row == full) && (|full| > limit ==> '.' in row)
  {
    var row := Row(init, limit);
    FittedSize(last, |row|, limit);
    if |Listing(init)| <= limit {
      NonEmptyListing(init);
      assert Entry(last, |row|) == Entry(last, |init|);
    }
  }

  lemma NonEmptyListing(ranges: seq<Range>)
    ensures ranges == [] <==> Listing(ranges) == []
  {
    if ranges == [] {
    } else {
      var init, last := ranges[..|ranges| - 1], ranges[|ranges| - 1];
      assert ranges == init + [last];
      ListingSnoc(init, last);
    }
  }

  /** A range gives way to an ellipsis that does not fit the line either. */
  predicate EllipsisOver(r: Range, chars: nat, limit: nat) {
    && chars <= limit < chars + |Entry(r, chars)|
    && chars + (if chars > 0 then 5 else 3) > limit
  }

  lemma RowSnoc(ranges: seq<Range>, r: Range, limit: nat)
    ensures Row(ranges + [r], limit) == Row(ranges, limit) + Fitted(r, |Row(ranges, limit)|, limit)
  {
    assert (ranges + [r])[..|ranges|] == ranges;
  }

  lemma FittedWithin(r: Range, chars: nat, limit: nat)
    requires limit > 0
    ensures chars + |Fitted(r, chars, limit)| <= limit <==> chars <= limit && !EllipsisOver(r, chars, limit)
  {
  }

  /** The ellipsis for range k goes over the limit. */
  predicate OverAt(ranges: seq<Range>, limit: nat, k: nat)
    requires k < |ranges|
  {
    EllipsisOver(ranges[k], |Row(ranges[..k], limit)|, limit)
  }

  ghost predicate NoneOver(ranges: seq<Range>, limit: nat) {
    forall k :: 0 <= k < |ranges| ==> !OverAt(ranges, limit, k)
  }

  lemma NoneOverSnoc(init: seq<Range>, r: Range, limit: nat)
    ensures NoneOver(init + [r], limit) <==> NoneOver(init, limit) && !EllipsisOver(r, |Row(init, limit)|, limit)
  {
    var ranges := init + [r];
    forall k | 0 <= k < |init|
      ensures OverAt(ranges, limit, k) <==> OverAt(init, limit, k)
    {
      assert ranges[..k] == init[..k] && ranges[k] == init[k];
    }
    assert ranges[..|init|] == init;
    assert OverAt(ranges, limit, |init|) <==> EllipsisOver(r, |Row(init, limit)|, limit);
  }

  /** The row stays within the limit exactly when no ellipsis goes over it. */
  lemma {:induction false} RowWithin(ranges: seq<Range>, limit: nat)
    requires limit > 0
    ensures |Row(ranges, limit)| <= limit <==> NoneOver(ranges, limit)
    decreases |ranges|
  {
    if ranges == [] {
    } else {
      var init, r := ranges[..|ranges| - 1], ranges[|ranges| - 1];
      assert ranges == init + [r];
      RowWithin(init, limit);
      RowSnoc(init, r, limit);
      NoneOverSnoc(init, r, limit);
      FittedWithin(r, |Row(init, limit)|, limit);
    }
  }

  // ---- Rows that show it

  lemma Short(n: nat)
    requires n < 100
    ensures Decimal(n) == if n < 10 then [DigitChar(n, false)] else [DigitChar(n / 10, false), DigitChar(n % 10, false)]
  {
    if n >= 10 { assert Digits(n / 10, 10, false) == [DigitChar(n / 10, false)]; }
  }

  lemma FiveDigits(n: nat)
    requires 10000 <= n < 100000
    ensures |Decimal(n)| == 5
  {
    assert Pow(10, 4) == 10000 && Pow(10, 5) == 100000;
    DigitsFit(n, 10, false, 5);
    DigitsReach(n, 10, false, 5);
  }

  /** A range that fits goes on the row. */
  lemma RangeFits(ranges: seq<Range>, row: seq<char>, r: Range, longer: seq<char>, limit: nat)
    requires Row(ranges, limit) == row && row + (if row == [] then [] else ", ") + RangeText(r) == longer
    requires |longer| <= limit
    ensures Row(ranges + [r], limit) == longer
  {
    RowSnoc(ranges, r, limit);
    Rejoin(row, if row == [] then [] else ", ", RangeText(r));
  }

  /** One that does not leaves an ellipsis. */
  lemma RangeDropped(ranges: seq<Range>, row: seq<char>, r: Range, longer: seq<char>, limit: nat)
    requires Row(ranges, limit) == row && row != [] && |row| <= limit < |row| + 2 + |RangeText(r)|
    requires row + ", ..." == longer
    ensures Row(ranges + [r], limit) == longer
  {
    RowSnoc(ranges, r, limit);
  }

  const PAIRS := [Range(1, 2), Range(4, 5), Range(7, 8), Range(10, 11), Range(13, 13)]

  lemma OnePair()
    ensures Row(PAIRS[..1], 19) == "1-2"
  {
    Short(1);
    Short(2);
    RangeFits([], [], Range(1, 2), "1-2", 19);
    assert [] + [Range(1, 2)] == PAIRS[..1];
  }

  lemma TwoPairs()
    ensures Row(PAIRS[..2], 19) == "1-2, 4-5"
  {
    OnePair();
    Short(4);
    Short(5);
    RangeFits(PAIRS[..1], "1-2", Range(4, 5), "1-2, 4-5", 19);
    assert PAIRS[..1] + [Range(4, 5)] == PAIRS[..2];
  }

  lemma ThirdPair()
    ensures RangeText(Range(7, 8)) == "7-8"
  {
    Short(7);
    Short(8);
  }

  lemma ThreeTexts()
    ensures "1-2, 4-5" + ", " + "7-8" == "1-2, 4-5, 7-8" && PAIRS[..2] + [Range(7, 8)] == PAIRS[..3]
  {
  }

  lemma ThreePairs()
    ensures Row(PAIRS[..3], 19) == "1-2, 4-5, 7-8"
  {
    TwoPairs();
    ThirdPair();
    ThreeTexts();
    RangeFits(PAIRS[..2], "1-2, 4-5", Range(7, 8), "1-2, 4-5, 7-8", 19);
  }

  lemma FourthDropped()
    ensures Row(PAIRS[..4], 19) == "1-2, 4-5, 7-8, ..."
  {
    ThreePairs();
    Short(10);
    Short(11);
    assert |RangeText(Range(10, 11))| == 5;
    RangeDropped(PAIRS[..3], "1-2, 4-5, 7-8", Range(10, 11), "1-2, 4-5, 7-8, ...", 19);
    assert PAIRS[..3] + [Range(10, 11)] == PAIRS[..4];
  }

  /** A row of 23 characters on a line of 19, with two ellipses. */
  lemma RowOverruns()
    ensures Ordered(PAIRS) && Row(PAIRS, 19) == "1-2, 4-5, 7-8, ..., ..."
  {
    FourthDropped();
    FifthLength();
    RangeDropped(PAIRS[..4], "1-2, 4-5, 7-8, ...", Range(13, 13), "1-2, 4-5, 7-8, ..., ...", 19);
    PairsOrdered();
  }

  lemma FifthLength()
    ensures |RangeText(Range(13, 13))| == 2
  {
    Short(13);
  }

  lemma PairsOrdered()
    ensures Ordered(PAIRS) && PAIRS[..4] + [Range(13, 13)] == PAIRS
  {
  }

  const SPARSE := [Range(1, 10000), Range(10002, 20000), Range(20002, 20002)]

  lemma FirstFits()
    ensures Row(SPARSE[..1], 19) == "1-" + Decimal(10000) && |Row(SPARSE[..1], 19)| == 7
  {
    Short(1);
    FiveDigits(10000);
    RangeFits([], [], Range(1, 10000), "1-" + Decimal(10000), 19);
    assert [] + [Range(1, 10000)] == SPARSE[..1];
  }

  lemma SecondDropped()
    ensures Row(SPARSE[..2], 19) == "1-" + Decimal(10000) + ", ..." && |Row(SPARSE[..2], 19)| == 12
  {
    FirstFits();
    FiveDigits(10002);
    FiveDigits(20000);
    var row := Row(SPARSE[..1], 19);
    RangeDropped(SPARSE[..1], row, Range(10002, 20000), row + ", ...", 19);
    assert SPARSE[..1] + [Range(10002, 20000)] == SPARSE[..2];
  }

  /** A later range can follow an ellipsis. */
  lemma RangeAfterEllipsis()
    ensures Ordered(SPARSE) && Row(SPARSE, 19) == "1-" + Decimal(10000) + ", ..." + ", " + Decimal(20002)
  {
    SecondDropped();
    FiveDigits(20002);
    var row := Row(SPARSE[..2], 19);
    RangeFits(SPARSE[..2], row, Range(20002, 20002), row + ", " + Decimal(20002), 19);
    SparseOrdered();
  }

  lemma SparseOrdered()
    ensures Ordered(SPARSE) && SPARSE[..2] + [Range(20002, 20002)] == SPARSE
  {
  }
}
