/** Nul-terminated strings in a buffer, with strlcpy and strlcat. */
module CStrings {
  import opened Numerals

  /** The C string at offset i of a buffer: up to the first nul, or the end of the buffer. */
  function CStr(buf: seq<char>, i: nat): (s: seq<char>)
    ensures '\0' !in s && i + |s| <= Max(|buf|, i)
    decreases |buf| - i
  {
    if i >= |buf| || buf[i] == '\0' then [] else [buf[i]] + CStr(buf, i + 1)
  }

  /** What is read is the text there, up to a nul or the end. */
  lemma {:induction false} CStrStops(buf: seq<char>, i: nat)
    requires i <= |buf|
    ensures var s := CStr(buf, i);
            && i + |s| <= |buf| && buf[i..i + |s|] == s && '\0' !in s
            && (i + |s| < |buf| ==> buf[i + |s|] == '\0')
    decreases |buf| - i
  {
    if i == |buf| || buf[i] == '\0' {
    } else {
      CStrStops(buf, i + 1);
      var s := CStr(buf, i + 1);
      assert buf[i..i + 1 + |s|] == [buf[i]] + buf[i + 1..i + 1 + |s|];
    }
  }

  /** The string of length n at offset i is what is read there when a nul follows it. */
  lemma {:induction false} CStrIs(buf: seq<char>, i: nat, n: nat)
    requires i + n < |buf| && buf[i + n] == '\0' && '\0' !in buf[i..i + n]
    ensures CStr(buf, i) == buf[i..i + n]
    decreases n
  {
    if n == 0 {
    } else {
      assert buf[i] == buf[i..i + n][0] && buf[i + 1..i + n] == buf[i..i + n][1..];
      CStrIs(buf, i + 1, n - 1);
    }
  }

  /** A buffer whose C string has length n. */
  ghost predicate Terminated(buf: seq<char>, n: nat) {
    n < |buf| && buf[n] == '\0' && '\0' !in buf[..n]
  }

  /** strlcpy: copies what fits, always terminates, returns the full length. */
  method Strlcpy(dst: array<char>, src: seq<char>, size: nat) returns (length: nat)
    requires size <= dst.Length
    modifies dst
    ensures length == |src|
    ensures var copy := if |src| >= size then size - 1 else |src|;
            dst[..] == if size == 0 then old(dst[..]) else src[..copy] + ['\0'] + old(dst[..])[copy + 1..]
  {
    length := |src|;
    if size > 0 {
      var copy := if length >= size then size - 1 else length;
      forall k | 0 <= k < copy { dst[k] := src[k]; }
      dst[copy] := '\0';
    }
  }

  /** strlcat: appends what fits after the string already there. */
  method Strlcat(dst: array<char>, src: seq<char>, size: nat, ghost n: nat) returns (length: nat)
    requires size <= dst.Length && Terminated(dst[..], n)
    modifies dst
    ensures length == n + |src|
    ensures var copy := if |src| >= size - n then size - n - 1 else |src|;
            dst[..] == if size == 0 || n >= size - 1 then old(dst[..])
                       else old(dst[..n]) + src[..copy] + ['\0'] + old(dst[..])[n + copy + 1..]
  {
    var used := 0;
    while dst[used] != '\0'
      invariant 0 <= used <= n
      decreases n - used
    {
      used := used + 1;
    }
    assert forall k :: 0 <= k < n ==> dst[k] == dst[..n][k];
    length := used + |src|;
    if size > 0 && used < size - 1 {
      var copy := if |src| >= size - used then size - used - 1 else |src|;
      forall k | 0 <= k < copy { dst[used + k] := src[k]; }
      dst[used + copy] := '\0';
    }
  }
}
