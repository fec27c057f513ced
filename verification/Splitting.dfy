/** What splitting a string at separators means, and the laws that tie it to joining. */
module Splitting {

  /** A stretch of a string between two separators. */
  datatype Span = Span(start: nat, end: nat)

  /** The stretches between separators, empty ones included. */
  function Spans(s: seq<char>, seps: seq<char>): (r: seq<Span>)
    ensures |r| >= 1
  {
    if s == [] then [Span(0, 0)]
    else Extended(Spans(s[..|s| - 1], seps), s[|s| - 1] in seps, |s|)
  }

  /** One more character: a separator opens a stretch, any other lengthens the last one. */
  function Extended(spans: seq<Span>, separator: bool, n: nat): (r: seq<Span>)
    requires spans != []
    ensures r != []
  {
    if separator then spans + [Span(n, n)] else spans[|spans| - 1 := Span(spans[|spans| - 1].start, n)]
  }

  /** The text of the stretches. */
  function Pieces(s: seq<char>, seps: seq<char>): (r: seq<seq<char>>)
    ensures |r| >= 1
  {
    if s == [] then [[]]
    else ExtendedTexts(Pieces(s[..|s| - 1], seps), s[|s| - 1] in seps, s[|s| - 1])
  }

  function ExtendedTexts(pieces: seq<seq<char>>, separator: bool, x: char): (r: seq<seq<char>>)
    requires pieces != []
    ensures r != []
  {
    if separator then pieces + [[]] else pieces[|pieces| - 1 := pieces[|pieces| - 1] + [x]]
  }

  function NonEmpty(pieces: seq<seq<char>>): seq<seq<char>> {
    if pieces == [] then []
    else
      var last := pieces[|pieces| - 1];
      NonEmpty(pieces[..|pieces| - 1]) + if last == [] then [] else [last]
  }

  /** Splitting where runs of separators count as one: the nonempty pieces. */
  function Tokens(s: seq<char>, seps: seq<char>): seq<seq<char>> { NonEmpty(Pieces(s, seps)) }

  function Join(pieces: seq<seq<char>>, sep: seq<char>): seq<char> {
    if pieces == [] then []
    else if |pieces| == 1 then pieces[0]
    else Join(pieces[..|pieces| - 1], sep) + sep + pieces[|pieces| - 1]
  }

  // ---- Spans and pieces

  ghost predicate Free(s: seq<char>, seps: seq<char>) {
    forall i :: 0 <= i < |s| ==> s[i] !in seps
  }

  /** The spans tile the string, separated by single separators and free of them inside. */
  ghost predicate Tiling(s: seq<char>, seps: seq<char>, spans: seq<Span>) {
    && spans != [] && spans[0].start == 0 && spans[|spans| - 1].end == |s|
    && (forall k :: 0 <= k < |spans| ==> spans[k].start <= spans[k].end <= |s|)
    && (forall k :: 0 <= k < |spans| - 1 ==> spans[k].end < |s| && s[spans[k].end] in seps)
    && (forall k :: 0 < k < |spans| ==> spans[k].start == spans[k - 1].end + 1)
    && (forall k, i :: 0 <= k < |spans| && spans[k].start <= i < spans[k].end ==> s[i] !in seps)
  }

  lemma TilingCloses(t: seq<char>, x: char, seps: seq<char>, spans: seq<Span>)
    requires Tiling(t, seps, spans) && x in seps
    ensures Tiling(t + [x], seps, spans + [Span(|t| + 1, |t| + 1)])
  {
    var s, after := t + [x], spans + [Span(|t| + 1, |t| + 1)];
    forall k, i | 0 <= k < |after| && after[k].start <= i < after[k].end
      ensures s[i] !in seps
    {
      assert spans[k] == after[k] && s[i] == t[i];
    }
    forall k | 0 <= k < |after| - 1
      ensures after[k].end < |s| && s[after[k].end] in seps
    {
      assert after[k] == spans[k];
    }
  }

  lemma TilingGrows(t: seq<char>, x: char, seps: seq<char>, spans: seq<Span>)
    requires Tiling(t, seps, spans) && x !in seps
    ensures Tiling(t + [x], seps, spans[|spans| - 1 := Span(spans[|spans| - 1].start, |t| + 1)])
  {
    var s, after := t + [x], spans[|spans| - 1 := Span(spans[|spans| - 1].start, |t| + 1)];
    forall k, i | 0 <= k < |after| && after[k].start <= i < after[k].end
      ensures s[i] !in seps
    {
      assert i < |t| ==> spans[k].start <= i < spans[k].end && s[i] == t[i];
    }
    forall k | 0 <= k < |after| - 1
      ensures after[k].end < |s| && s[after[k].end] in seps
    {
      assert after[k] == spans[k] && s[spans[k].end] == t[spans[k].end];
    }
  }

  lemma TilingExtends(t: seq<char>, x: char, seps: seq<char>, spans: seq<Span>)
    requires Tiling(t, seps, spans)
    ensures Tiling(t + [x], seps, Extended(spans, x in seps, |t| + 1))
  {
    if x in seps { TilingCloses(t, x, seps, spans); } else { TilingGrows(t, x, seps, spans); }
  }

  lemma {:induction false} SpansTile(s: seq<char>, seps: seq<char>)
    ensures Tiling(s, seps, Spans(s, seps))
    decreases |s|
  {
    if s == [] {
    } else {
      var t, x := s[..|s| - 1], s[|s| - 1];
      assert s == t + [x];
      SpansTile(t, seps);
      TilingExtends(t, x, seps, Spans(t, seps));
    }
  }

  /** Each piece is the text of its span. */
  ghost predicate Texts(s: seq<char>, pieces: seq<seq<char>>, spans: seq<Span>) {
    && |pieces| == |spans|
    && forall k :: 0 <= k < |spans| ==>
         && spans[k].start <= spans[k].end <= |s|
         && pieces[k] == s[spans[k].start..spans[k].end]
  }

  lemma TextsKeep(t: seq<char>, x: char, pieces: seq<seq<char>>, spans: seq<Span>)
    requires Texts(t, pieces, spans)
    ensures Texts(t + [x], pieces, spans)
  {
    var s := t + [x];
    forall k | 0 <= k < |spans|
      ensures spans[k].start <= spans[k].end <= |s| && pieces[k] == s[spans[k].start..spans[k].end]
    {
      assert s[spans[k].start..spans[k].end] == t[spans[k].start..spans[k].end];
    }
  }

  lemma TextsGrow(t: seq<char>, x: char, pieces: seq<seq<char>>, spans: seq<Span>)
    requires Texts(t, pieces, spans) && spans != [] && spans[|spans| - 1].end == |t|
    ensures var n := |spans| - 1;
            Texts(t + [x], pieces[n := pieces[n] + [x]], spans[n := Span(spans[n].start, |t| + 1)])
  {
    TextsKeep(t, x, pieces, spans);
    var s, start := t + [x], spans[|spans| - 1].start;
    assert s[start..|s|] == s[start..|t|] + [x];
  }

  lemma TextsExtend(t: seq<char>, x: char, seps: seq<char>, pieces: seq<seq<char>>, spans: seq<Span>)
    requires Tiling(t, seps, spans) && Texts(t, pieces, spans)
    ensures Texts(t + [x], ExtendedTexts(pieces, x in seps, x), Extended(spans, x in seps, |t| + 1))
  {
    if x in seps { TextsKeep(t, x, pieces, spans); } else { TextsGrow(t, x, pieces, spans); }
  }

  lemma {:induction false} PiecesAreSpans(s: seq<char>, seps: seq<char>)
    ensures Texts(s, Pieces(s, seps), Spans(s, seps))
    decreases |s|
  {
    if s == [] {
    } else {
      var t, x := s[..|s| - 1], s[|s| - 1];
      assert s == t + [x];
      PiecesAreSpans(t, seps);
      SpansTile(t, seps);
      TextsExtend(t, x, seps, Pieces(t, seps), Spans(t, seps));
    }
  }

  // ---- Joining undoes splitting, and the other way round

  lemma JoinExtends(pieces: seq<seq<char>>, sep: seq<char>, x: char)
    requires pieces != []
    ensures Join(pieces[|pieces| - 1 := pieces[|pieces| - 1] + [x]], sep) == Join(pieces, sep) + [x]
  {
    var n := |pieces| - 1;
    var longer := pieces[n := pieces[n] + [x]];
    assert longer[..n] == pieces[..n];
  }

  /** Joining the pieces of a string at a separator gives the string back. */
  lemma {:induction false} JoinOfSplit(s: seq<char>, c: char)
    ensures Join(Pieces(s, [c]), [c]) == s
    decreases |s|
  {
    if s == [] {
    } else {
      var t, x := s[..|s| - 1], s[|s| - 1];
      JoinOfSplit(t, c);
      var before := Pieces(t, [c]);
      if x == c {
        assert (before + [[]])[..|before|] == before;
      } else {
        JoinExtends(before, [c], x);
      }
    }
  }

  lemma {:induction false} SplitFree(s: seq<char>, seps: seq<char>)
    requires Free(s, seps)
    ensures Pieces(s, seps) == [s]
    decreases |s|
  {
    if s == [] {
    } else {
      assert s[|s| - 1] !in seps;
      SplitFree(s[..|s| - 1], seps);
      assert s == s[..|s| - 1] + [s[|s| - 1]];
    }
  }

  lemma ExtendedRight(p: seq<seq<char>>, q: seq<seq<char>>, separator: bool, x: char)
    requires q != []
    ensures ExtendedTexts(p + q, separator, x) == p + ExtendedTexts(q, separator, x)
  {
  }

  /** A separator cuts: the pieces around it are the pieces of either side. */
  lemma {:induction false} SplitAround(a: seq<char>, c: char, b: seq<char>, seps: seq<char>)
    requires c in seps
    ensures Pieces(a + [c] + b, seps) == Pieces(a, seps) + Pieces(b, seps)
    decreases |b|
  {
    var s := a + [c] + b;
    if b == [] {
      assert s[..|s| - 1] == a;
    } else {
      var t, x := b[..|b| - 1], b[|b| - 1];
      SplitAround(a, c, t, seps);
      assert s[..|s| - 1] == a + [c] + t && s[|s| - 1] == x;
      ExtendedRight(Pieces(a, seps), Pieces(t, seps), x in seps, x);
    }
  }

  lemma SplitSnoc(j: seq<char>, c: char, last: seq<char>, init: seq<seq<char>>)
    requires Pieces(j, [c]) == init && c !in last
    ensures Pieces(j + [c] + last, [c]) == init + [last]
  {
    SplitAround(j, c, last, [c]);
    SplitFree(last, [c]);
  }

  lemma JoinSnoc(init: seq<seq<char>>, last: seq<char>, sep: seq<char>)
    requires init != []
    ensures Join(init + [last], sep) == Join(init, sep) + sep + last
  {
    assert (init + [last])[..|init|] == init;
  }

  /** Where piece k begins in a join: after the pieces before it and a separator for each. */
  function Offset(pieces: seq<seq<char>>, sep: seq<char>, k: nat): nat
    requires k <= |pieces|
  {
    if k == 0 then 0 else Offset(pieces, sep, k - 1) + |pieces[k - 1]| + |sep|
  }

  /** Text t stands at position i. */
  predicate StandsAt(s: seq<char>, t: seq<char>, i: nat) { i + |t| <= |s| && s[i..i + |t|] == t }

  lemma {:induction false} JoinLength(pieces: seq<seq<char>>, sep: seq<char>, k: nat)
    requires 1 <= k <= |pieces|
    ensures |Join(pieces[..k], sep)| + |sep| == Offset(pieces, sep, k)
    decreases k
  {
    assert pieces[..k][..k - 1] == pieces[..k - 1];
    if k == 1 {
      assert Offset(pieces, sep, 1) == Offset(pieces, sep, 0) + |pieces[0]| + |sep|;
    } else {
      JoinLength(pieces, sep, k - 1);
    }
  }

  /** The join of a list is that of its two parts with one separator between them. */
  lemma {:induction false} JoinAppends(a: seq<seq<char>>, b: seq<seq<char>>, sep: seq<char>)
    requires a != [] && b != []
    ensures Join(a + b, sep) == Join(a, sep) + sep + Join(b, sep)
    decreases |b|
  {
    var n := |b| - 1;
    assert (a + b)[..|a + b| - 1] == a + b[..n];
    if n == 0 {
      assert a + b[..n] == a;
    } else {
      JoinAppends(a, b[..n], sep);
      Reassociate(Join(a, sep), sep, Join(b[..n], sep), sep, b[n]);
    }
  }

  lemma Reassociate(a: seq<char>, b: seq<char>, c: seq<char>, d: seq<char>, e: seq<char>)
    ensures a + b + c + d + e == a + b + (c + d + e)
  {
  }

  lemma Between(a: seq<char>, b: seq<char>, c: seq<char>)
    ensures StandsAt(a + b, b, |a|) && StandsAt(a + b + c, b, |a|)
  {
  }

  lemma StillStands(s: seq<char>, t: seq<char>, i: nat, more: seq<char>)
    requires StandsAt(s, t, i)
    ensures StandsAt(s + more, t, i)
  {
    assert (s + more)[i..i + |t|] == s[i..i + |t|];
  }

  lemma JoinAround(pieces: seq<seq<char>>, sep: seq<char>, k: nat)
    requires 1 <= k < |pieces|
    ensures Join(pieces, sep) == Join(pieces[..k], sep) + sep + Join(pieces[k..], sep)
  {
    assert pieces == pieces[..k] + pieces[k..];
    JoinAppends(pieces[..k], pieces[k..], sep);
  }

  lemma JoinUpTo(pieces: seq<seq<char>>, sep: seq<char>, k: nat) returns (head: seq<char>)
    requires k < |pieces|
    ensures Join(pieces[..k + 1], sep) == head + pieces[k] && |head| == Offset(pieces, sep, k)
  {
    assert pieces[..k + 1][..k] == pieces[..k];
    if k == 0 {
      head := [];
    } else {
      head := Join(pieces[..k], sep) + sep;
      JoinLength(pieces, sep, k);
    }
  }

  /** A join has each piece and each whole separator where it belongs, and nothing else. */
  lemma JoinLayout(pieces: seq<seq<char>>, sep: seq<char>, k: nat)
    requires k < |pieces|
    ensures |Join(pieces, sep)| + |sep| == Offset(pieces, sep, |pieces|)
    ensures StandsAt(Join(pieces, sep), pieces[k], Offset(pieces, sep, k))
    ensures k + 1 < |pieces| ==> StandsAt(Join(pieces, sep), sep, Offset(pieces, sep, k) + |pieces[k]|)
  {
    WholeLength(pieces, sep);
    var head := JoinUpTo(pieces, sep, k);
    Between(head, pieces[k], []);
    if k + 1 < |pieces| {
      JoinAround(pieces, sep, k + 1);
      PieceThenSeparator(head, pieces[k], sep, Join(pieces[k + 1..], sep));
    } else {
      assert pieces[..k + 1] == pieces;
    }
  }

  lemma WholeLength(pieces: seq<seq<char>>, sep: seq<char>)
    requires pieces != []
    ensures |Join(pieces, sep)| + |sep| == Offset(pieces, sep, |pieces|)
  {
    assert pieces[..|pieces|] == pieces;
    JoinLength(pieces, sep, |pieces|);
  }

  lemma PieceThenSeparator(head: seq<char>, piece: seq<char>, sep: seq<char>, rest: seq<char>)
    ensures var s := (head + piece) + sep + rest;
            StandsAt(s, piece, |head|) && StandsAt(s, sep, |head| + |piece|)
  {
    Between(head, piece, []);
    Between(head + piece, sep, rest);
    StillStands(head + piece, piece, |head|, sep);
    StillStands((head + piece) + sep, piece, |head|, rest);
  }

  /** Splitting the join of pieces without the separator gives the pieces back. */
  lemma {:induction false} SplitOfJoin(pieces: seq<seq<char>>, c: char)
    requires pieces != [] && forall k :: 0 <= k < |pieces| ==> c !in pieces[k]
    ensures Pieces(Join(pieces, [c]), [c]) == pieces
    decreases |pieces|
  {
    var init, last := pieces[..|pieces| - 1], pieces[|pieces| - 1];
    assert pieces == init + [last];
    if init == [] {
      SplitFree(last, [c]);
    } else {
      SplitOfJoin(init, c);
      JoinSnoc(init, last, [c]);
      SplitSnoc(Join(init, [c]), c, last, init);
    }
  }

  // ---- Runs of separators

  lemma {:induction false} NonEmptyConcat(a: seq<seq<char>>, b: seq<seq<char>>)
    ensures NonEmpty(a + b) == NonEmpty(a) + NonEmpty(b)
    decreases |b|
  {
    if b == [] {
      assert a + b == a;
    } else {
      assert (a + b)[..|a + b| - 1] == a + b[..|b| - 1];
      NonEmptyConcat(a, b[..|b| - 1]);
    }
  }

  lemma {:induction false} TokensAround(a: seq<char>, sep: seq<char>, b: seq<char>, seps: seq<char>)
    requires sep != [] && forall i :: 0 <= i < |sep| ==> sep[i] in seps
    ensures Tokens(a + sep + b, seps) == Tokens(a, seps) + Tokens(b, seps)
    decreases |sep|
  {
    var c, more := sep[0], sep[1..];
    assert a + sep + b == a + [c] + (more + b);
    SplitAround(a, c, more + b, seps);
    NonEmptyConcat(Pieces(a, seps), Pieces(more + b, seps));
    if more == [] {
      assert more + b == b;
    } else {
      TokensAround([], more, b, seps);
      assert [] + more + b == more + b;
      NoToken(seps);
    }
  }

  /** Joining the tokens with any run of separators and splitting again gives the tokens. */
  lemma {:induction false} Retokenize(tokens: seq<seq<char>>, sep: seq<char>, seps: seq<char>)
    requires sep != [] && forall i :: 0 <= i < |sep| ==> sep[i] in seps
    requires forall k :: 0 <= k < |tokens| ==> tokens[k] != [] && Free(tokens[k], seps)
    ensures Tokens(Join(tokens, sep), seps) == tokens
    decreases |tokens|
  {
    if tokens == [] {
      NoToken(seps);
    } else {
      var init, last := tokens[..|tokens| - 1], tokens[|tokens| - 1];
      assert tokens == init + [last];
      OneToken(last, seps);
      if init != [] {
        Retokenize(init, sep, seps);
        JoinSnoc(init, last, sep);
        TokensAround(Join(init, sep), sep, last, seps);
      }
    }
  }

  lemma NoToken(seps: seq<char>)
    ensures Tokens([], seps) == []
  {
    var none: seq<seq<char>> := [[]];
    assert none[..0] == [];
  }

  lemma OneToken(t: seq<char>, seps: seq<char>)
    requires t != [] && Free(t, seps)
    ensures Tokens(t, seps) == [t]
  {
    SplitFree(t, seps);
    assert NonEmpty([t]) == NonEmpty([t][..0]) + [t];
  }

  function KeepLong(spans: seq<Span>): (r: seq<Span>)
    ensures |r| <= |spans|
  {
    if spans == [] then []
    else
      var last := spans[|spans| - 1];
      KeepLong(spans[..|spans| - 1]) + if last.start == last.end then [] else [last]
  }

  /** Where the tokens lie. */
  function TokenSpans(s: seq<char>, seps: seq<char>): seq<Span> { KeepLong(Spans(s, seps)) }

  lemma {:induction false} KeepLongKeeps(spans: seq<Span>)
    ensures forall x :: x in KeepLong(spans) <==> x in spans && x.start != x.end
  {
    if spans == [] {
    } else {
      var init := spans[..|spans| - 1];
      KeepLongKeeps(init);
      assert spans == init + [spans[|spans| - 1]];
    }
  }

  lemma {:induction false} KeepLongOrdered(spans: seq<Span>)
    requires forall i, j :: 0 <= i < j < |spans| ==> spans[i].end < spans[j].start
    ensures forall i, j :: 0 <= i < j < |KeepLong(spans)| ==> KeepLong(spans)[i].end < KeepLong(spans)[j].start
  {
    if spans == [] {
    } else {
      var init := spans[..|spans| - 1];
      KeepLongOrdered(init);
      KeepLongKeeps(init);
      forall i | 0 <= i < |KeepLong(init)|
        ensures KeepLong(init)[i].end < spans[|spans| - 1].start
      {
        assert KeepLong(init)[i] in init;
      }
    }
  }

  lemma {:induction false} TilingOrdered(s: seq<char>, seps: seq<char>, spans: seq<Span>, i: nat, j: nat)
    requires Tiling(s, seps, spans) && i < j < |spans|
    ensures spans[i].end < spans[j].start
    decreases j
  {
    if i == j - 1 {
    } else {
      TilingOrdered(s, seps, spans, i, j - 1);
    }
  }

  /** A maximal separator-free run of the string. */
  ghost predicate IsRun(s: seq<char>, seps: seq<char>, a: nat, b: nat) {
    && a < b <= |s| && Free(s[a..b], seps)
    && (a == 0 || s[a - 1] in seps) && (b == |s| || s[b] in seps)
  }

  /** The span that a position of the string belongs to, or that it ends. */
  lemma {:induction false} SpanAt(s: seq<char>, seps: seq<char>, spans: seq<Span>, a: nat, k: nat) returns (j: nat)
    requires Tiling(s, seps, spans) && a <= |s| && k < |spans| && spans[k].start <= a
    ensures j < |spans| && spans[j].start <= a <= spans[j].end
    decreases |spans| - k
  {
    if a <= spans[k].end { return k; }
    assert spans[k + 1].start == spans[k].end + 1;
    j := SpanAt(s, seps, spans, a, k + 1);
  }

  /** The token spans are exactly the maximal separator-free runs, in increasing order. */
  lemma TokensAreRuns(s: seq<char>, seps: seq<char>)
    ensures forall a: nat, b: nat :: IsRun(s, seps, a, b) <==> Span(a, b) in TokenSpans(s, seps)
    ensures forall i, j :: 0 <= i < j < |TokenSpans(s, seps)| ==>
              TokenSpans(s, seps)[i].end < TokenSpans(s, seps)[j].start
  {
    var spans := Spans(s, seps);
    SpansTile(s, seps);
    KeepLongKeeps(spans);
    forall i, j | 0 <= i < j < |spans|
      ensures spans[i].end < spans[j].start
    {
      TilingOrdered(s, seps, spans, i, j);
    }
    KeepLongOrdered(spans);
    forall a: nat, b: nat
      ensures IsRun(s, seps, a, b) <==> Span(a, b) in TokenSpans(s, seps)
    {
      if Span(a, b) in TokenSpans(s, seps) { SpanIsRun(s, seps, Span(a, b)); }
      if IsRun(s, seps, a, b) { RunIsSpan(s, seps, a, b); }
    }
  }

  lemma SpanIsRun(s: seq<char>, seps: seq<char>, x: Span)
    requires x in Spans(s, seps) && x.start != x.end
    ensures IsRun(s, seps, x.start, x.end)
  {
    SpansTile(s, seps);
    var k :| 0 <= k < |Spans(s, seps)| && Spans(s, seps)[k] == x;
    if k > 0 { assert Spans(s, seps)[k - 1].end == x.start - 1; }
    forall i | 0 <= i < x.end - x.start
      ensures s[x.start..x.end][i] !in seps
    {
      assert s[x.start + i] !in seps;
    }
  }

  lemma RunIsSpan(s: seq<char>, seps: seq<char>, a: nat, b: nat)
    requires IsRun(s, seps, a, b)
    ensures Span(a, b) in Spans(s, seps)
  {
    var spans := Spans(s, seps);
    SpansTile(s, seps);
    var j := SpanAt(s, seps, spans, a, 0);
    assert s[a..b][0] !in seps;
    assert forall i :: a <= i < b ==> s[i] == s[a..b][i - a];
    assert spans[j].end >= b && a == spans[j].start;
    assert spans[j] == Span(a, b);
  }

  /** Tokens are nonempty and separator-free. */
  lemma TokensAreFree(s: seq<char>, seps: seq<char>)
    ensures forall k :: 0 <= k < |Tokens(s, seps)| ==> Tokens(s, seps)[k] != [] && Free(Tokens(s, seps)[k], seps)
  {
    PiecesAreFree(s, seps);
    NonEmptyFree(Pieces(s, seps), seps);
  }

  lemma {:induction false} PiecesAreFree(s: seq<char>, seps: seq<char>)
    ensures forall k :: 0 <= k < |Pieces(s, seps)| ==> Free(Pieces(s, seps)[k], seps)
    decreases |s|
  {
    if s == [] {
    } else {
      PiecesAreFree(s[..|s| - 1], seps);
    }
  }

  lemma {:induction false} NonEmptyFree(pieces: seq<seq<char>>, seps: seq<char>)
    requires forall k :: 0 <= k < |pieces| ==> Free(pieces[k], seps)
    ensures forall k :: 0 <= k < |NonEmpty(pieces)| ==> NonEmpty(pieces)[k] != [] && Free(NonEmpty(pieces)[k], seps)
    decreases |pieces|
  {
    if pieces == [] {
    } else {
      NonEmptyFree(pieces[..|pieces| - 1], seps);
    }
  }

  /** Splitting at runs, joining with any run and splitting again is stable. */
  lemma TokensOfJoin(s: seq<char>, sep: seq<char>, seps: seq<char>)
    requires sep != [] && forall i :: 0 <= i < |sep| ==> sep[i] in seps
    ensures Tokens(Join(Tokens(s, seps), sep), seps) == Tokens(s, seps)
  {
    TokensAreFree(s, seps);
    Retokenize(Tokens(s, seps), sep, seps);
  }

  /** The token texts are the texts of the token spans. */
  lemma TokensAreSpans(s: seq<char>, seps: seq<char>)
    ensures Texts(s, Tokens(s, seps), TokenSpans(s, seps))
    ensures forall k :: 0 <= k < |TokenSpans(s, seps)| ==> TokenSpans(s, seps)[k].start < TokenSpans(s, seps)[k].end
  {
    PiecesAreSpans(s, seps);
    FilterTogether(s, Pieces(s, seps), Spans(s, seps));
  }

  lemma {:induction false} FilterTogether(s: seq<char>, pieces: seq<seq<char>>, spans: seq<Span>)
    requires Texts(s, pieces, spans)
    ensures Texts(s, NonEmpty(pieces), KeepLong(spans))
    ensures forall k :: 0 <= k < |KeepLong(spans)| ==> KeepLong(spans)[k].start < KeepLong(spans)[k].end
    decreases |spans|
  {
    if spans == [] {
    } else {
      var n := |spans| - 1;
      FilterTogether(s, pieces[..n], spans[..n]);
      assert pieces[n] == s[spans[n].start..spans[n].end];
    }
  }
}
