/** The bounded output buffer shared by every conversion of the printf engine. */
module BoundedOutput {
  import opened Numerals

  /** How many characters of a rendering a buffer of `size` bytes keeps, leaving room for the nul. */
  function Kept(length: nat, size: nat): nat {
    if length < size then length else if size == 0 then 0 else size - 1
  }

  /** A null buffer has no size; any other has room for the size, and for the nul that is always stored. */
  predicate Fits(buffer: array?<char>, maxlen: nat) {
    if buffer == null then maxlen == 0 else maxlen <= buffer.Length && 1 <= buffer.Length
  }

  /**
   The buffer, its size and the current length that the C code passes around together.  A null
   buffer only measures.  `text` is everything emitted so far, kept or not, and `before` what the
   buffer held at the start.
   */
  class Output {
    const buffer: array?<char>
    const maxlen: nat
    var currlen: nat
    ghost var text: seq<char>
    ghost const before: seq<char>

    ghost predicate Valid()
      reads this, buffer
    {
      && Fits(buffer, maxlen) && (buffer != null ==> buffer.Length == |before|)
      && currlen == Kept(|text|, maxlen)
      && (buffer != null ==> buffer[..] == text[..currlen] + before[currlen..])
    }

    constructor (buffer: array?<char>, maxlen: nat)
      requires Fits(buffer, maxlen)
      ensures Valid() && text == []
      ensures this.buffer == buffer && this.maxlen == maxlen
      ensures buffer != null ==> before == buffer[..]
    {
      this.buffer, this.maxlen, currlen, text := buffer, maxlen, 0, [];
      before := if buffer == null then [] else buffer[..];
    }

    /** Emit one character: stored if it fits before the final nul, counted in any case. */
    method Outch(c: char) returns (n: nat)
      requires Valid()
      modifies this, buffer
      ensures Valid() && text == old(text) + [c] && n == 1
    {
      if currlen + 1 < maxlen {
        buffer[currlen] := c;
        currlen := currlen + 1;
      }
      text := text + [c];
      assert text[..currlen] == if |text| < maxlen then old(text)[..currlen - 1] + [c] else old(text)[..currlen];
      return 1;
    }

    method Repeat(c: char, count: int) returns (n: nat)
      requires Valid()
      modifies this, buffer
      ensures Valid() && text == old(text) + Fill(c, count) && n == Max(count, 0)
    {
      var left := count;
      n := 0;
      while left > 0
        invariant Valid() && n == Max(count, 0) - Max(left, 0)
        invariant text == old(text) + Fill(c, n)
      {
        var one := Outch(c);
        assert Fill(c, n + 1) == Fill(c, n) + [c];
        n, left := n + one, left - 1;
      }
    }

    /** The final nul, after the kept text or in the last byte; without a size it lands in the first byte. */
    method Terminate()
      requires Valid() && buffer != null
      modifies buffer
      ensures buffer[..] == text[..currlen] + ['\0'] + before[currlen + 1..]
    {
      if maxlen == 0 || currlen < maxlen - 1 {
        buffer[currlen] := '\0';
      } else {
        buffer[maxlen - 1] := '\0';
      }
    }
  }
}
