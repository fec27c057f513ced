/** Counted string vectors: splitting in two passes, in place, and joining with an exact size. */
module Vectors {
  import opened CStrings
  import opened Splitting

  // ---- The first pass

  /** split_count: one more than the separators. */
  method SplitCount(s: seq<char>, sep: char) returns (count: nat)
    ensures count == |Pieces(s, [sep])|
  {
    count := 1;
    for p := 0 to |s|
      invariant count == |Pieces(s[..p], [sep])|
    {
      assert s[..p + 1][..p] == s[..p];
      if s[p] == sep { count := count + 1; }
    }
    assert s[..|s|] == s;
  }

  lemma LastPiece(s: seq<char>, seps: seq<char>)
    requires s != []
    ensures Pieces(s, seps)[|Pieces(s, seps)| - 1] == [] <==> s[|s| - 1] in seps
  {
  }

  /** A token begins exactly where a character follows a separator or the start. */
  lemma TokensSnoc(t: seq<char>, x: char, seps: seq<char>)
    ensures |Tokens(t + [x], seps)|
         == |Tokens(t, seps)| + if x !in seps && (t == [] || t[|t| - 1] in seps) then 1 else 0
  {
    assert (t + [x])[..|t|] == t;
    var pieces := Pieces(t, seps);
    var init, last := pieces[..|pieces| - 1], pieces[|pieces| - 1];
    if t != [] { LastPiece(t, seps); }
    assert pieces == init + [last];
    assert (pieces + [[]])[..|pieces|] == pieces;
    assert pieces[|pieces| - 1 := last + [x]][..|init|] == init;
  }

  /** split_multi_count: transitions into a separator, corrected for trailing separators. */
  method SplitMultiCount(s: seq<char>, seps: seq<char>) returns (count: nat)
    ensures count == |Tokens(s, seps)|
  {
    if s == [] {
      NoToken(seps);
      return 0;
    }
    count := 1;
    TokensSnoc([], s[0], seps);
    NoToken(seps);
    assert [] + [s[0]] == s[..1];
    var p := 1;
    while p < |s|
      invariant 1 <= p <= |s| && count == |Tokens(s[..p], seps)| + if s[p - 1] in seps then 1 else 0
    {
      TokensSnoc(s[..p], s[p], seps);
      assert s[..p] + [s[p]] == s[..p + 1];
      if s[p] in seps && s[p - 1] !in seps { count := count + 1; }
      p := p + 1;
    }
    assert s[..p] == s;
    if s[p - 1] in seps { count := count - 1; }
  }

  /** Shorter prefixes have no more pieces and no more tokens. */
  lemma {:induction false} CountsGrow(s: seq<char>, seps: seq<char>, p: nat)
    requires p <= |s|
    ensures |Pieces(s[..p], seps)| <= |Pieces(s, seps)| && |Tokens(s[..p], seps)| <= |Tokens(s, seps)|
    decreases |s|
  {
    if p == |s| {
      assert s[..p] == s;
    } else {
      var t := s[..|s| - 1];
      CountsGrow(t, seps, p);
      assert t[..p] == s[..p] && t + [s[|s| - 1]] == s;
      TokensSnoc(t, s[|s| - 1], seps);
    }
  }

  /** struct vector: copies of its strings in a table that is always at least one long. */
  class Vector {
    var strings: array<seq<char>>
    var count: nat

    ghost predicate Valid()
      reads this, strings
    {
      1 <= strings.Length && count <= strings.Length
    }

    ghost function Contents(): seq<seq<char>>
      requires Valid()
      reads this, strings
    {
      strings[..count]
    }

    /** vector_new */
    constructor ()
      ensures Valid() && fresh(strings) && Contents() == []
    {
      strings, count := new seq<char>[1], 0;
    }

    /** vector_resize: drops what no longer fits and never shrinks the table to nothing. */
    method Resize(size: nat)
      requires Valid()
      modifies this
      ensures Valid() && fresh(strings) && strings.Length == (if size == 0 then 1 else size)
      ensures Contents() == if old(count) > size then old(Contents())[..size] else old(Contents())
    {
      if count > size { count := size; }
      var table := new seq<char>[if size == 0 then 1 else size];
      forall k | 0 <= k < count { table[k] := strings[k]; }
      strings := table;
    }

    /** vector_add */
    method Add(s: seq<char>)
      requires Valid()
      modifies this, strings
      ensures Valid() && (strings == old(strings) || fresh(strings))
      ensures Contents() == old(Contents()) + [s]
    {
      if count == strings.Length { Resize(strings.Length + 1); }
      strings[count] := s;
      count := count + 1;
    }

    /** vector_clear, and room for `size` strings. */
    method Prepare(size: nat)
      requires Valid()
      modifies this
      ensures Valid() && count == 0 && size <= strings.Length
      ensures strings == old(strings) || fresh(strings)
    {
      count := 0;
      if strings.Length < size { Resize(size); }
    }

    /** vector_split: the second pass never leaves the table the first pass sized. */
    method Split(s: seq<char>, sep: char)
      requires Valid()
      modifies this, strings
      ensures Valid() && (strings == old(strings) || fresh(strings))
      ensures Contents() == Pieces(s, [sep])
    {
      var size := SplitCount(s, sep);
      Prepare(size);
      count := FillPieces(strings, s, sep);
    }

    /** vector_split_multi */
    method SplitMulti(s: seq<char>, seps: seq<char>)
      requires Valid()
      modifies this, strings
      ensures Valid() && (strings == old(strings) || fresh(strings))
      ensures Contents() == Tokens(s, seps)
    {
      var size := SplitMultiCount(s, seps);
      Prepare(size);
      count := FillTokens(strings, s, seps);
    }

    /** vector_join: the computed size is exact, so strlcpy and strlcat never truncate. */
    method Joined(separator: seq<char>) returns (str: array<char>)
      requires Valid() && '\0' !in separator && forall k :: 0 <= k < count ==> '\0' !in strings[k]
      ensures fresh(str) && str[..] == Join(Contents(), separator) + ['\0']
    {
      if count == 0 {
        str := new char[]['\0'];
        return;
      }
      var size := JoinedSize(separator);
      str := new char[size];
      FillJoined(str, strings[..count], separator);
    }

    /** The size computation of vector_join. */
    method JoinedSize(separator: seq<char>) returns (size: nat)
      requires Valid() && count > 0
      ensures size == |Join(Contents(), separator)| + 1
    {
      size := 0;
      for i := 0 to count
        invariant size + (if i == 0 then 0 else i - 1) * |separator| == |Join(strings[..i], separator)|
      {
        JoinPrefix(strings[..], separator, i);
        assert strings[..][..i] == strings[..i] && strings[..][..i + 1] == strings[..i + 1];
        OneMore(i, |separator|);
        size := size + |strings[i]|;
      }
      size := size + (count - 1) * |separator| + 1;
    }
  }

  lemma OneMore(i: nat, n: nat)
    ensures i * n == (if i == 0 then 0 else i - 1) * n + if i == 0 then 0 else n
  {
  }

  /** Where a splitting loop stands: `closed` are the pieces done, s[start..p] is the open one. */
  ghost predicate Open(s: seq<char>, seps: seq<char>, start: nat, p: nat, closed: seq<seq<char>>) {
    start <= p <= |s| && Pieces(s[..p], seps) == closed + [s[start..p]]
  }

  lemma OpenStep(s: seq<char>, seps: seq<char>, start: nat, p: nat, closed: seq<seq<char>>)
    requires p < |s| && Open(s, seps, start, p, closed)
    ensures if s[p] in seps then Open(s, seps, p + 1, p + 1, closed + [s[start..p]])
            else Open(s, seps, start, p + 1, closed)
    ensures |NonEmpty(closed + [s[start..p]])| <= |Tokens(s, seps)|
  {
    var open := s[start..p];
    CountsGrow(s, seps, p);
    assert s[..p + 1][..p] == s[..p];
    assert s[start..p + 1] == open + [s[p]] && s[p + 1..p + 1] == [];
    assert (closed + [open])[|closed| := open + [s[p]]] == closed + [open + [s[p]]];
  }

  lemma MorePieces(s: seq<char>, seps: seq<char>, start: nat, p: nat, closed: seq<seq<char>>)
    requires Open(s, seps, start, p, closed)
    ensures |closed| < |Pieces(s, seps)|
  {
    CountsGrow(s, seps, p);
  }

  lemma OpenEnds(s: seq<char>, seps: seq<char>, start: nat, closed: seq<seq<char>>)
    requires Open(s, seps, start, |s|, closed)
    ensures Pieces(s, seps) == closed + [s[start..|s|]]
    ensures Tokens(s, seps) == NonEmpty(closed) + if start == |s| then [] else [s[start..|s|]]
  {
    assert s[..|s|] == s;
    NonEmptySnoc(closed, s[start..|s|]);
  }

  lemma NonEmptySnoc(closed: seq<seq<char>>, last: seq<char>)
    ensures NonEmpty(closed + [last]) == NonEmpty(closed) + if last == [] then [] else [last]
  {
    assert (closed + [last])[..|closed|] == closed;
  }

  /** Store one string in the table. */
  method Put(strings: array<seq<char>>, i: nat, s: seq<char>) returns (next: nat)
    requires i < strings.Length
    modifies strings
    ensures next == i + 1 && strings[..next] == old(strings[..i]) + [s]
  {
    strings[i] := s;
    next := i + 1;
  }

  /** The second pass of vector_split, over a table with room for every piece. */
  method FillPieces(strings: array<seq<char>>, s: seq<char>, sep: char) returns (i: nat)
    requires |Pieces(s, [sep])| <= strings.Length
    modifies strings
    ensures i <= strings.Length && strings[..i] == Pieces(s, [sep])
  {
    var start, p := 0, 0;
    i := 0;
    ghost var closed := [];
    while p < |s|
      invariant 0 <= start <= p <= |s| && i < strings.Length
      invariant Open(s, [sep], start, p, closed) && strings[..i] == closed
    {
      OpenStep(s, [sep], start, p, closed);
      if s[p] == sep {
        closed := closed + [s[start..p]];
        MorePieces(s, [sep], p + 1, p + 1, closed);
        i := Put(strings, i, s[start..p]);
        start := p + 1;
      }
      p := p + 1;
    }
    OpenEnds(s, [sep], start, closed);
    i := Put(strings, i, s[start..p]);
  }

  /** The second pass of vector_split_multi. */
  method FillTokens(strings: array<seq<char>>, s: seq<char>, seps: seq<char>) returns (i: nat)
    requires |Tokens(s, seps)| <= strings.Length
    modifies strings
    ensures i <= strings.Length && strings[..i] == Tokens(s, seps)
  {
    var start, p := 0, 0;
    i := 0;
    ghost var closed := [];
    while p < |s|
      invariant 0 <= start <= p <= |s| && i <= strings.Length
      invariant Open(s, seps, start, p, closed) && strings[..i] == NonEmpty(closed)
    {
      OpenStep(s, seps, start, p, closed);
      if s[p] in seps {
        NonEmptySnoc(closed, s[start..p]);
        closed := closed + [s[start..p]];
        if start != p { i := Put(strings, i, s[start..p]); }
        start := p + 1;
      }
      p := p + 1;
    }
    OpenEnds(s, seps, start, closed);
    if start != p { i := Put(strings, i, s[start..p]); }
  }

  /** The copying pass of vector_join. */
  method FillJoined(str: array<char>, all: seq<seq<char>>, separator: seq<char>)
    requires all != [] && '\0' !in separator && forall k :: 0 <= k < |all| ==> '\0' !in all[k]
    requires str.Length == |Join(all, separator)| + 1
    modifies str
    ensures str[..] == Join(all, separator) + ['\0']
  {
    assert all[..1] == [all[0]];
    JoinLonger(all, separator, 1);
    var n := Strlcpy(str, all[0], str.Length);
    ghost var sofar := all[0];
    for i := 1 to |all|
      invariant sofar == Join(all[..i], separator) && '\0' !in sofar
      invariant |sofar| < str.Length && str[..|sofar| + 1] == sofar + ['\0']
    {
      JoinStep(all, separator, i, sofar);
      n := AppendBoth(str, sofar, separator, all[i]);
      sofar := sofar + separator + all[i];
    }
    assert all[..|all|] == all;
  }

  lemma JoinStep(all: seq<seq<char>>, sep: seq<char>, i: nat, sofar: seq<char>)
    requires 0 < i < |all| && sofar == Join(all[..i], sep)
    requires '\0' !in sofar && '\0' !in sep && '\0' !in all[i]
    ensures sofar + sep + all[i] == Join(all[..i + 1], sep) && '\0' !in sofar + sep + all[i]
    ensures |sofar + sep + all[i]| <= |Join(all, sep)|
  {
    JoinPrefix(all, sep, i);
    JoinLonger(all, sep, i + 1);
  }

  /** strlcat to a string known to fit. */
  method Append(dst: array<char>, ghost sofar: seq<char>, src: seq<char>) returns (length: nat)
    requires '\0' !in sofar && |sofar| + |src| < dst.Length && dst[..|sofar| + 1] == sofar + ['\0']
    modifies dst
    ensures length == |sofar| + |src| && dst[..length + 1] == sofar + src + ['\0']
  {
    assert dst[..|sofar|] == sofar && dst[|sofar|] == '\0';
    length := Strlcat(dst, src, dst.Length, |sofar|);
  }

  method AppendBoth(dst: array<char>, ghost sofar: seq<char>, sep: seq<char>, src: seq<char>) returns (length: nat)
    requires '\0' !in sofar && '\0' !in sep
    requires |sofar| + |sep| + |src| < dst.Length && dst[..|sofar| + 1] == sofar + ['\0']
    modifies dst
    ensures length == |sofar + sep + src| && dst[..length + 1] == sofar + sep + src + ['\0']
  {
    length := Append(dst, sofar, sep);
    length := Append(dst, sofar + sep, src);
  }

  lemma JoinPrefix(strings: seq<seq<char>>, sep: seq<char>, i: nat)
    requires i < |strings|
    ensures Join(strings[..i + 1], sep) == Join(strings[..i], sep) + (if i == 0 then [] else sep) + strings[i]
  {
    assert strings[..i + 1][..i] == strings[..i];
  }

  lemma {:induction false} JoinLonger(strings: seq<seq<char>>, sep: seq<char>, i: nat)
    requires i <= |strings|
    ensures |Join(strings[..i], sep)| <= |Join(strings, sep)|
    decreases |strings| - i
  {
    if i == |strings| {
      assert strings[..i] == strings;
    } else {
      JoinPrefix(strings, sep, i);
      JoinLonger(strings, sep, i + 1);
    }
  }
}
