/** cvectors: pointers into a buffer that splitting cuts up in place. */
module CVectors {
  import opened CStrings
  import opened Splitting
  import opened Vectors

  function Starts(spans: seq<Span>): (r: seq<nat>)
    ensures |r| == |spans| && forall k :: 0 <= k < |r| ==> r[k] == spans[k].start
  {
    seq(|spans|, k requires 0 <= k < |spans| => spans[k].start)
  }

  /** Reading the C string at each offset of the buffer gives the pieces. */
  ghost predicate Reads(buf: seq<char>, offsets: seq<nat>, pieces: seq<seq<char>>) {
    |offsets| == |pieces| && forall k :: 0 <= k < |offsets| ==> CStr(buf, offsets[k]) == pieces[k]
  }

  /** Only separators of the string were overwritten, and only by nuls. */
  ghost predicate OnlySeparatorsCut(before: seq<char>, after: seq<char>, n: nat, seps: seq<char>) {
    && |after| == |before| && n <= |before|
    && forall i :: 0 <= i < |before| ==> after[i] == before[i] || (i < n && before[i] in seps && after[i] == '\0')
  }

  /** Every span ends in a nul, so its text is what its offset reads. */
  lemma CutReads(before: seq<char>, after: seq<char>, n: nat, seps: seq<char>, spans: seq<Span>, pieces: seq<seq<char>>)
    requires Terminated(before, n) && OnlySeparatorsCut(before, after, n, seps)
    requires Texts(before[..n], pieces, spans) && forall k :: 0 <= k < |pieces| ==> Free(pieces[k], seps)
    requires forall k :: 0 <= k < |spans| ==> after[spans[k].end] == '\0'
    ensures Reads(after, Starts(spans), pieces)
  {
    forall k | 0 <= k < |spans|
      ensures CStr(after, spans[k].start) == pieces[k]
    {
      var a, b := spans[k].start, spans[k].end;
      assert pieces[k] == before[..n][a..b] && Free(pieces[k], seps);
      forall i | a <= i < b
        ensures after[i] == before[i] && before[i] != '\0'
      {
        assert before[i] == pieces[k][i - a] == before[..n][i];
      }
      assert after[a..b] == pieces[k];
      CStrIs(after, a, b - a);
    }
  }

  /**
   Where an in-place loop stands at position p: the spans closed so far each end in a nul (with
   `multi`, unless they are empty), the open one starts at `start`, and the rest is untouched.
   */
  ghost predicate Cutting(before: seq<char>, after: seq<char>, n: nat, seps: seq<char>, multi: bool,
                          start: nat, p: nat, closed: seq<Span>) {
    && Terminated(before, n) && OnlySeparatorsCut(before, after, n, seps)
    && start <= p <= n && after[p..] == before[p..]
    && Spans(before[..p], seps) == closed + [Span(start, p)]
    && forall k :: 0 <= k < |closed| ==>
         closed[k].end < p && (after[closed[k].end] == '\0' || (multi && Empty(closed[k])))
  }

  predicate Empty(x: Span) { x.start == x.end }

  /** One turn of an in-place loop, in terms of the buffer it leaves. */
  lemma CutStep(before: seq<char>, after: seq<char>, n: nat, seps: seq<char>, multi: bool,
                start: nat, p: nat, closed: seq<Span>)
    requires Cutting(before, after, n, seps, multi, start, p, closed) && after[p] != '\0'
    ensures p < n
    ensures if before[p] !in seps then Cutting(before, after, n, seps, multi, start, p + 1, closed)
            else if multi && start == p then Cutting(before, after, n, seps, multi, p + 1, p + 1,
                closed + [Span(start, p)])
            else Cutting(before, after[p := '\0'], n, seps, multi, p + 1, p + 1, closed + [Span(start, p)])
    ensures after[p] == before[p] != '\0'
  {
    AtNul(before, after, n, seps, multi, start, p, closed);
    assert before[..p + 1][..p] == before[..p];
    assert before[p] == before[..n][p];
    assert (closed + [Span(start, p)])[|closed| := Span(start, p + 1)] == closed + [Span(start, p + 1)];
    var cut := after[p := '\0'];
    assert cut[p + 1..] == after[p..][1..] == before[p..][1..] == before[p + 1..];
    assert after[p + 1..] == after[p..][1..];
    assert after[p] == after[p..][0];
  }

  /** The table has room for the open span, and for its token if it is not empty. */
  lemma Room(before: seq<char>, after: seq<char>, n: nat, seps: seq<char>, multi: bool, start: nat, p: nat,
             closed: seq<Span>)
    requires Cutting(before, after, n, seps, multi, start, p, closed)
    ensures |closed| < |Pieces(before[..n], seps)|
    ensures |KeepLong(closed)| + (if start == p then 0 else 1) <= |Tokens(before[..n], seps)|
  {
    assert before[..n][..p] == before[..p];
    PiecesAreSpans(before[..p], seps);
    TokensAreSpans(before[..p], seps);
    CountsGrow(before[..n], seps, p);
    KeepLongSnoc(closed, Span(start, p));
  }

  lemma KeepLongSnoc(closed: seq<Span>, last: Span)
    ensures KeepLong(closed + [last]) == KeepLong(closed) + if Empty(last) then [] else [last]
  {
    assert (closed + [last])[..|closed|] == closed;
  }

  /** At the end of the string, the offsets stored read the pieces. */
  lemma PiecesRead(before: seq<char>, after: seq<char>, n: nat, seps: seq<char>, start: nat, closed: seq<Span>)
    requires Cutting(before, after, n, seps, false, start, n, closed)
    ensures Reads(after, Starts(closed) + [start], Pieces(before[..n], seps))
  {
    var s, spans := before[..n], closed + [Span(start, n)];
    PiecesAreSpans(s, seps);
    PiecesAreFree(s, seps);
    assert after[n] == after[n..][0] == before[n];
    CutReads(before, after, n, seps, spans, Pieces(s, seps));
    assert Starts(spans) == Starts(closed) + [start];
  }

  lemma KeptReads(before: seq<char>, after: seq<char>, n: nat, seps: seq<char>, spans: seq<Span>,
                  pieces: seq<seq<char>>)
    requires Terminated(before, n) && OnlySeparatorsCut(before, after, n, seps)
    requires Texts(before[..n], pieces, KeepLong(spans)) && forall k :: 0 <= k < |pieces| ==> Free(pieces[k], seps)
    requires forall x :: x in spans && !Empty(x) ==> x.end < |after| && after[x.end] == '\0'
    ensures Reads(after, Starts(KeepLong(spans)), pieces)
  {
    KeepLongKeeps(spans);
    var kept := KeepLong(spans);
    assert forall k :: 0 <= k < |kept| ==> kept[k] in kept;
    CutReads(before, after, n, seps, kept, pieces);
  }

  lemma TokensRead(before: seq<char>, after: seq<char>, n: nat, seps: seq<char>, start: nat, closed: seq<Span>)
    requires Cutting(before, after, n, seps, true, start, n, closed)
    ensures Reads(after, Starts(KeepLong(closed)) + (if start == n then [] else [start]), Tokens(before[..n], seps))
  {
    var s, spans := before[..n], closed + [Span(start, n)];
    TokensAreSpans(s, seps);
    TokensAreFree(s, seps);
    assert after[n] == after[n..][0] == before[n];
    KeptReads(before, after, n, seps, spans, Tokens(s, seps));
    KeepLongSnoc(closed, Span(start, n));
    assert Starts(KeepLong(spans)) == Starts(KeepLong(closed)) + if start == n then [] else [start];
  }

  method StrLen(buffer: array<char>, ghost n: nat) returns (length: nat)
    requires Terminated(buffer[..], n)
    ensures length == n
  {
    length := 0;
    assert forall k :: 0 <= k < n ==> buffer[k] == buffer[..n][k];
    while buffer[length] != '\0'
      invariant length <= n
      decreases n - length
    {
      length := length + 1;
    }
  }

  method Cut(buffer: array<char>, p: nat)
    requires p < buffer.Length
    modifies buffer
    ensures buffer[..] == old(buffer[..])[p := '\0']
  {
    buffer[p] := '\0';
  }

  /** struct cvector: offsets of strings owned by someone else. */
  class CVector {
    var strings: array<nat>
    var count: nat

    ghost predicate Valid()
      reads this, strings
    {
      count <= strings.Length
    }

    ghost function Contents(): seq<nat>
      requires Valid()
      reads this, strings
    {
      strings[..count]
    }

    constructor ()
      ensures Valid() && fresh(strings) && Contents() == []
    {
      strings, count := new nat[1], 0;
    }

    /** cvector_clear, and a table of at least `size`. */
    method Prepare(size: nat)
      modifies this
      ensures Valid() && count == 0 && size <= strings.Length
      ensures strings == old(strings) || fresh(strings)
    {
      count := 0;
      if strings.Length < size { strings := new nat[size]; }
    }

    /** cvector_split */
    method Split(buffer: array<char>, sep: char, ghost n: nat)
      requires Valid() && Terminated(buffer[..], n)
      modifies this, strings, buffer
      ensures Valid() && (strings == old(strings) || fresh(strings))
      ensures OnlySeparatorsCut(old(buffer[..]), buffer[..], n, [sep])
      ensures Reads(buffer[..], Contents(), Pieces(old(buffer[..n]), [sep]))
    {
      var length := StrLen(buffer, n);
      var size := SplitCount(buffer[..length], sep);
      Prepare(size);
      count := CutPieces(strings, buffer, sep, n);
    }

    /** cvector_split_multi */
    method SplitMulti(buffer: array<char>, seps: seq<char>, ghost n: nat)
      requires Valid() && Terminated(buffer[..], n)
      modifies this, strings, buffer
      ensures Valid() && (strings == old(strings) || fresh(strings))
      ensures OnlySeparatorsCut(old(buffer[..]), buffer[..], n, seps)
      ensures Reads(buffer[..], Contents(), Tokens(old(buffer[..n]), seps))
    {
      var length := StrLen(buffer, n);
      var size := SplitMultiCount(buffer[..length], seps);
      Prepare(size);
      count := CutTokens(strings, buffer, seps, n);
    }
  }

  /** The second pass of cvector_split, over a table with room for every piece. */
  method CutPieces(strings: array<nat>, buffer: array<char>, sep: char, ghost n: nat) returns (i: nat)
    requires Terminated(buffer[..], n) && |Pieces(buffer[..n], [sep])| <= strings.Length
    modifies strings, buffer
    ensures OnlySeparatorsCut(old(buffer[..]), buffer[..], n, [sep])
    ensures i <= strings.Length && Reads(buffer[..], strings[..i], Pieces(old(buffer[..n]), [sep]))
  {
    ghost var before := buffer[..];
    var start, p := 0, 0;
    i := 0;
    ghost var closed := [];
    while buffer[p] != '\0'
      invariant 0 <= p <= n && 0 <= start && i <= strings.Length
      invariant Cutting(before, buffer[..], n, [sep], false, start, p, closed)
      invariant strings[..i] == Starts(closed)
      decreases n - p
    {
      CutStep(before, buffer[..], n, [sep], false, start, p, closed);
      if buffer[p] == sep {
        Room(before, buffer[..], n, [sep], false, start, p, closed);
        Cut(buffer, p);
        i := Put(strings, i, start);
        closed, start := closed + [Span(start, p)], p + 1;
      }
      p := p + 1;
    }
    AtNul(before, buffer[..], n, [sep], false, start, p, closed);
    Room(before, buffer[..], n, [sep], false, start, p, closed);
    PiecesRead(before, buffer[..], n, [sep], start, closed);
    i := Put(strings, i, start);
  }

  /** The second pass of cvector_split_multi. */
  method CutTokens(strings: array<nat>, buffer: array<char>, seps: seq<char>, ghost n: nat) returns (i: nat)
    requires Terminated(buffer[..], n) && |Tokens(buffer[..n], seps)| <= strings.Length
    modifies strings, buffer
    ensures OnlySeparatorsCut(old(buffer[..]), buffer[..], n, seps)
    ensures i <= strings.Length && Reads(buffer[..], strings[..i], Tokens(old(buffer[..n]), seps))
  {
    ghost var before := buffer[..];
    var start, p := 0, 0;
    i := 0;
    ghost var closed := [];
    while buffer[p] != '\0'
      invariant 0 <= p <= n && 0 <= start && i <= strings.Length
      invariant Cutting(before, buffer[..], n, seps, true, start, p, closed)
      invariant strings[..i] == Starts(KeepLong(closed))
      decreases n - p
    {
      CutStep(before, buffer[..], n, seps, true, start, p, closed);
      if buffer[p] in seps {
        KeepLongSnoc(closed, Span(start, p));
        if start != p {
          Room(before, buffer[..], n, seps, true, start, p, closed);
          Cut(buffer, p);
          i := Put(strings, i, start);
        }
        closed, start := closed + [Span(start, p)], p + 1;
      }
      p := p + 1;
    }
    AtNul(before, buffer[..], n, seps, true, start, p, closed);
    Room(before, buffer[..], n, seps, true, start, p, closed);
    TokensRead(before, buffer[..], n, seps, start, closed);
    if start != p { i := Put(strings, i, start); }
  }

  method Put(strings: array<nat>, i: nat, offset: nat) returns (next: nat)
    requires i < strings.Length
    modifies strings
    ensures next == i + 1 && strings[..next] == old(strings[..i]) + [offset]
  {
    strings[i] := offset;
    next := i + 1;
  }

  /** The loops stop exactly at the nul that ended the string. */
  lemma AtNul(before: seq<char>, after: seq<char>, n: nat, seps: seq<char>, multi: bool, start: nat, p: nat,
              closed: seq<Span>)
    requires Cutting(before, after, n, seps, multi, start, p, closed)
    ensures after[p] == '\0' <==> p == n
  {
    assert after[p] == after[p..][0] == before[p];
    assert p < n ==> before[p] == before[..n][p];
  }
}
