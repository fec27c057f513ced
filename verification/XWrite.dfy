/** xwrite, xpwrite and xwritev against a kernel that may do anything write(2) allows. */
module XWrite {
  import opened Common
  /** What one system call did: status >= 0, or -1 with EINTR, or -1 with another errno. */
  datatype Reply = Took(n: nat) | Interrupted | Failed

  const TRIES := 10

  function Amount(r: Reply): nat { if r.Took? then r.n else 0 }

  predicate NoProgress(r: Reply) { r.Interrupted? || r == Took(0) }

  /** The replies end in a hard error, or in `tries` calls in a row without progress. */
  predicate GaveUp(log: seq<Reply>, tries: nat) {
    || (log != [] && log[|log| - 1].Failed?)
    || (|log| >= tries && forall k :: |log| - tries <= k < |log| ==> NoProgress(log[k]))
  }

  /** An output descriptor: the bytes the kernel accepted and the replies it gave. */
  class Descriptor {
    ghost var accepted: seq<byte>
    ghost var log: seq<Reply>

    /** write(2): accepts any prefix of the data, or fails. */
    method Write(data: seq<byte>) returns (r: Reply)
      modifies this
      ensures Amount(r) <= |data|
      ensures accepted == old(accepted) + data[..Amount(r)] && log == old(log) + [r]
    {
      r := *;
      if r.Took? && r.n > |data| { r := Took(|data|); }
      accepted, log := accepted + data[..Amount(r)], log + [r];
    }

    /** writev(2): a write of the concatenated vectors. */
    method Writev(iov: seq<seq<byte>>) returns (r: Reply)
      modifies this
      ensures Amount(r) <= |Concat(iov)|
      ensures accepted == old(accepted) + Concat(iov)[..Amount(r)] && log == old(log) + [r]
    {
      r := Write(Concat(iov));
    }
  }

  /** A file written at explicit offsets. */
  class File {
    ghost var contents: map<int, byte>
    ghost var log: seq<Reply>

    method Pwrite(data: seq<byte>, offset: nat) returns (r: Reply)
      modifies this
      ensures Amount(r) <= |data|
      ensures Placed(old(contents), contents, offset, data[..Amount(r)]) && log == old(log) + [r]
    {
      r := *;
      if r.Took? && r.n > |data| { r := Took(|data|); }
      ghost var patch := map i: int {:trigger data[i - offset]} | offset <= i < offset + Amount(r) :: data[i - offset];
      contents, log := contents + patch, log + [r];
    }
  }

  /** `after` is `before` with byte k of the data at offset + k, and nothing else changed. */
  ghost predicate Placed(before: map<int, byte>, after: map<int, byte>, offset: int, data: seq<byte>) {
    && (forall i :: offset <= i < offset + |data| ==> i in after && after[i] == data[i - offset])
    && (forall i :: i in after ==> i in before || offset <= i < offset + |data|)
    && (forall i :: i in before && !(offset <= i < offset + |data|) ==> i in after && after[i] == before[i])
  }

  lemma PlacedTwice(m0: map<int, byte>, m1: map<int, byte>, m2: map<int, byte>, offset: int, a: seq<byte>, b: seq<byte>)
    requires Placed(m0, m1, offset, a) && Placed(m1, m2, offset + |a|, b)
    ensures Placed(m0, m2, offset, a + b)
  {
    forall i | offset <= i < offset + |a + b|
      ensures i in m2 && m2[i] == (a + b)[i - offset]
    {
      if i < offset + |a| { assert i in m1 && m1[i] == a[i - offset]; }
    }
  }

  /** The last call moved at least one byte; so nothing has been given up. */
  ghost predicate Progressed(log: seq<Reply>) {
    log != [] && Amount(log[|log| - 1]) > 0
  }

  /** Every call up to now has been paid for: ten per byte written, and `count` since the last one. */
  ghost predicate Paid(log: seq<Reply>, done: nat, count: nat) {
    && |log| <= TRIES * done + count && count <= |log|
    && forall k :: |log| - count <= k < |log| ==> NoProgress(log[k])
  }

  /** One more call: progress pays for everything, a fruitless call adds to the count. */
  lemma PaidStep(log: seq<Reply>, done: nat, count: nat, r: Reply)
    requires Paid(log, done, count) && count < TRIES && !r.Failed?
    ensures Paid(log + [r], done + Amount(r), if Amount(r) > 0 then 0 else count + 1)
    ensures Amount(r) > 0 ==> Progressed(log + [r])
  {
  }

  /** When the tries are used up, all of them at the end of the log were fruitless. */
  lemma PaidStop(log: seq<Reply>, done: nat)
    requires Paid(log, done, TRIES)
    ensures GaveUp(log, TRIES)
  {
  }

  /** xwrite: success exactly when every byte was accepted, within ten calls a byte. */
  method XWrite(fd: Descriptor, buffer: seq<byte>) returns (result: int, ghost done: nat, ghost log: seq<Reply>)
    modifies fd
    ensures done <= |buffer| && fd.accepted == old(fd.accepted) + buffer[..done]
    ensures result == if done == |buffer| then |buffer| else -1
    ensures fd.log == old(fd.log) + log && |log| <= 10 * |buffer|
    ensures buffer != [] ==> (result == -1 <==> GaveUp(log, 10))
  {
    if buffer == [] { return 0, 0, []; }
    var total, count := 0, 0;
    log := [];
    while total < |buffer|
      invariant 0 <= total <= |buffer| && 0 <= count <= TRIES && fd.log == old(fd.log) + log
      invariant fd.accepted == old(fd.accepted) + buffer[..total]
      invariant Paid(log, total, count)
      invariant total == |buffer| ==> count == 0 && Progressed(log)
      decreases |buffer| - total, TRIES - count
    {
      count := count + 1;
      if count > TRIES { break; }
      var r := fd.Write(buffer[total..]);
      log := log + [r];
      assert buffer[..total] + buffer[total..][..Amount(r)] == buffer[..total + Amount(r)];
      if r.Failed? { break; }
      if Amount(r) > 0 { count := 0; }
      total := total + Amount(r);
    }
    return if total < |buffer| then -1 else total, total, log;
  }

  /** xpwrite: the same, with byte k at offset + k. */
  method XPwrite(fd: File, buffer: seq<byte>, offset: nat) returns (result: int, ghost done: nat, ghost log: seq<Reply>)
    modifies fd
    ensures done <= |buffer| && Placed(old(fd.contents), fd.contents, offset, buffer[..done])
    ensures result == if done == |buffer| then |buffer| else -1
    ensures fd.log == old(fd.log) + log && |log| <= 10 * |buffer|
    ensures buffer != [] ==> (result == -1 <==> GaveUp(log, 10))
  {
    assert Placed(old(fd.contents), fd.contents, offset, buffer[..0]);
    if buffer == [] { return 0, 0, []; }
    var total, count := 0, 0;
    log := [];
    while total < |buffer|
      invariant 0 <= total <= |buffer| && 0 <= count <= TRIES && fd.log == old(fd.log) + log
      invariant Placed(old(fd.contents), fd.contents, offset, buffer[..total])
      invariant Paid(log, total, count)
      invariant total == |buffer| ==> count == 0 && Progressed(log)
      decreases |buffer| - total, TRIES - count
    {
      count := count + 1;
      if count > TRIES { break; }
      ghost var before := fd.contents;
      var r := fd.Pwrite(buffer[total..], offset + total);
      log := log + [r];
      PlacedTwice(old(fd.contents), before, fd.contents, offset, buffer[..total], buffer[total..][..Amount(r)]);
      assert buffer[..total] + buffer[total..][..Amount(r)] == buffer[..total + Amount(r)];
      if r.Failed? { break; }
      if Amount(r) > 0 { count := 0; }
      total := total + Amount(r);
    }
    return if total < |buffer| then -1 else total, total, log;
  }

  // ---- xwritev

  /** The bytes of the entries from i on. */
  function Tail(iov: seq<seq<byte>>, i: nat): seq<byte>
    requires i <= |iov|
  {
    Concat(iov[i..])
  }

  lemma TailStep(iov: seq<seq<byte>>, i: nat)
    requires i < |iov|
    ensures Tail(iov, i) == iov[i] + Tail(iov, i + 1)
  {
    assert iov[i..][1..] == iov[i + 1..];
  }

  /** The first attempt: repeat only while interrupted. */
  method FirstWritev(fd: Descriptor, iov: seq<seq<byte>>) returns (r: Reply, count: nat, ghost log: seq<Reply>)
    requires Concat(iov) != []
    modifies fd
    ensures Amount(r) <= |Concat(iov)|
    ensures fd.log == old(fd.log) + log && fd.accepted == old(fd.accepted) + Concat(iov)[..Amount(r)]
    ensures if r.Took? then Paid(log, r.n, count) && count <= TRIES && (r.n > 0 ==> count == 0 && Progressed(log))
            else GaveUp(log, TRIES) && |log| <= TRIES
  {
    count, log := 0, [];
    r := Interrupted;
    while true
      invariant r.Interrupted? && 0 <= count <= TRIES && |log| == count && Paid(log, 0, count)
      invariant fd.log == old(fd.log) + log && fd.accepted == old(fd.accepted)
      decreases TRIES - count
    {
      count := count + 1;
      if count > TRIES { break; }
      r := fd.Writev(iov);
      log := log + [r];
      if Amount(r) > 0 { count := 0; }
      if !r.Interrupted? { break; }
    }
  }

  lemma NotAtEnd(iov: seq<seq<byte>>, i: nat)
    requires i <= |iov| && Tail(iov, i) != []
    ensures i < |iov|
  {
    assert iov[|iov|..] == [];
  }

  /**
   The two skip loops: the first entry not exhausted by what was written, and the offset into it.
   While bytes are left the loop stops inside the vectors, so the second loop's test of iovleft
   never decides.
   */
  method Skip(iov: seq<seq<byte>>, start: nat, written: nat) returns (i: nat, offset: nat)
    requires start <= |iov| && written < |Tail(iov, start)|
    ensures start <= i < |iov| && offset < |iov[i]|
    ensures Tail(iov, i) == iov[i] + Tail(iov, i + 1) && Tail(iov, i)[offset..] == Tail(iov, start)[written..]
  {
    i, offset := start, written;
    NotAtEnd(iov, i);
    while offset >= |iov[i]|
      invariant start <= i < |iov| && offset < |Tail(iov, i)|
      invariant Tail(iov, i)[offset..] == Tail(iov, start)[written..]
      decreases |iov| - i
    {
      TailStep(iov, i);
      offset := offset - |iov[i]|;
      i := i + 1;
      NotAtEnd(iov, i);
    }
    TailStep(iov, i);
  }

  /** Shorten the first entry in place by what is already written of it. */
  method Advance(tmpiov: array<seq<byte>>, i: nat, offset: nat)
    requires i < tmpiov.Length && offset <= |tmpiov[i]|
    modifies tmpiov
    ensures Tail(tmpiov[..], i) == old(Tail(tmpiov[..], i)[offset..])
  {
    TailStep(tmpiov[..], i);
    ghost var after := tmpiov[..][i + 1..];
    tmpiov[i] := tmpiov[i][offset..];
    assert tmpiov[..][i + 1..] == after;
    TailStep(tmpiov[..], i);
  }

  lemma Taken(prefix: seq<byte>, data: seq<byte>, k: nat, n: nat)
    requires k + n <= |data|
    ensures prefix + data[..k] + data[k..][..n] == prefix + data[..k + n]
    ensures data[k..][n..] == data[k + n..]
  {
  }

  lemma Moved(prefix: seq<byte>, done: seq<byte>, rest: seq<byte>, n: nat)
    requires n <= |rest|
    ensures prefix + done + rest[..n] == prefix + (done + rest[..n])
    ensures done + rest[..n] + rest[n..] == done + rest
  {
  }

  /** One retry: skip what is written, shorten the first entry left, and write the rest. */
  method Attempt(fd: Descriptor, tmpiov: array<seq<byte>>, start: nat, written: nat) returns (i: nat, r: Reply)
    requires start <= tmpiov.Length && written < |Tail(tmpiov[..], start)|
    modifies fd, tmpiov
    ensures i <= tmpiov.Length && Tail(tmpiov[..], i) == old(Tail(tmpiov[..], start)[written..])
    ensures Amount(r) <= |Tail(tmpiov[..], i)| && fd.log == old(fd.log) + [r]
    ensures fd.accepted == old(fd.accepted) + Tail(tmpiov[..], i)[..Amount(r)]
  {
    var offset;
    i, offset := Skip(tmpiov[..], start, written);
    Advance(tmpiov, i, offset);
    assert tmpiov[..][i..] == tmpiov[i..];
    r := fd.Writev(tmpiov[i..]);
  }

  /** The retry loop over a private copy of the vectors, of which `written` bytes are done. */
  method Retry(fd: Descriptor, tmpiov: array<seq<byte>>, written: nat, used: nat, ghost paid: nat,
               ghost was: seq<Reply>)
    returns (left: nat, ghost log: seq<Reply>)
    requires written < |Tail(tmpiov[..], 0)| && used <= TRIES && Paid(was, paid, used)
    modifies fd, tmpiov
    ensures left <= old(|Tail(tmpiov[..], 0)|) - written
    ensures var data := old(Tail(tmpiov[..], 0))[written..];
            && fd.accepted == old(fd.accepted) + data[..|data| - left]
            && fd.log == old(fd.log) + log
            && |was + log| <= TRIES * (paid + |data|)
            && (if left == 0 then Progressed(was + log) else GaveUp(was + log, TRIES))
  {
    ghost var data := Tail(tmpiov[..], 0)[written..];
    left := |Tail(tmpiov[..], 0)| - written;
    log := [];
    ghost var all, done, rest := was, [], data;
    var i: nat, offset: nat, count := 0, written, used;
    while true
      invariant all == was + log && i <= tmpiov.Length && 0 < left == |rest| && 0 <= count <= TRIES
      invariant offset < |Tail(tmpiov[..], i)| && Tail(tmpiov[..], i)[offset..] == rest && done + rest == data
      invariant fd.accepted == old(fd.accepted) + done && fd.log == old(fd.log) + log
      invariant Paid(all, paid + |done|, count)
      decreases left, TRIES - count
    {
      count := count + 1;
      if count > TRIES {
        PaidStop(all, paid + |done|);
        break;
      }
      var r;
      i, r := Attempt(fd, tmpiov, i, offset);
      if !r.Failed? { PaidStep(all, paid + |done|, count - 1, r); }
      offset := Amount(r);
      Moved(old(fd.accepted), done, rest, offset);
      log, all, done, rest := log + [r], all + [r], done + rest[..offset], rest[offset..];
      left := left - offset;
      if offset > 0 { count := 0; }
      if left == 0 || r.Failed? { break; }
    }
    assert done == data[..|data| - left];
  }

  /** xwritev: all of the vectors or -1, in any case a prefix, within ten calls a byte. */
  method XWritev(fd: Descriptor, iov: seq<seq<byte>>, allocates: bool)
    returns (result: int, ghost done: nat, ghost log: seq<Reply>)
    modifies fd
    ensures done <= |Concat(iov)| && fd.accepted == old(fd.accepted) + Concat(iov)[..done]
    ensures result == if done == |Concat(iov)| then |Concat(iov)| else -1
    ensures fd.log == old(fd.log) + log && |log| <= 10 * |Concat(iov)|
    ensures Concat(iov) != [] && allocates ==> (result == -1 <==> GaveUp(log, 10))
  {
    ghost var data := Concat(iov);
    var total := TotalLength(iov);
    if total == 0 { return 0, 0, []; }
    var r, count;
    r, count, log := FirstWritev(fd, iov);
    if !r.Took? { return -1, 0, log; }
    if r.n == total { return total, total, log; }
    if !allocates { return -1, r.n, log; }
    var left;
    ghost var rest;
    left, rest := Resume(fd, iov, r.n, count, log);
    Taken(old(fd.accepted), data, r.n, |data| - r.n - left);
    result, done, log := if left == 0 then total else -1, |data| - left, log + rest;
  }

  /** After a partial first write: copy what is left of the vectors and retry. */
  method Resume(fd: Descriptor, iov: seq<seq<byte>>, written: nat, count: nat, ghost first: seq<Reply>)
    returns (left: nat, ghost rest: seq<Reply>)
    requires written < |Concat(iov)| && count <= TRIES && Paid(first, written, count)
    modifies fd
    ensures left <= |Concat(iov)| - written
    ensures var data := Concat(iov)[written..];
            && fd.accepted == old(fd.accepted) + data[..|data| - left]
            && fd.log == old(fd.log) + rest
            && |first + rest| <= TRIES * |Concat(iov)|
            && (if left == 0 then Progressed(first + rest) else GaveUp(first + rest, TRIES))
  {
    assert iov[0..] == iov;
    var i, offset := Skip(iov, 0, written);
    var tmpiov := new seq<byte>[|iov| - i](k requires 0 <= k < |iov| - i => iov[i + k]);
    assert tmpiov[..] == iov[i..] == tmpiov[..][0..];
    left, rest := Retry(fd, tmpiov, offset, count, written, first);
  }

  method TotalLength(iov: seq<seq<byte>>) returns (total: nat)
    ensures total == |Concat(iov)|
  {
    total := 0;
    assert iov[0..] == iov;
    for i := 0 to |iov|
      invariant total + |Tail(iov, i)| == |Concat(iov)|
    {
      TailStep(iov, i);
      total := total + |iov[i]|;
    }
  }
}
