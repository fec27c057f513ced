/** Reassembly of the NTP monlist reply from fragments in any order, from modules/monlist.c. */
module Monlist {
  import opened Common

  const MAXPACKETS := 100
  const NO_LAST := 999
  const RESP_HEADER_SIZE := 8
  const NTP_VERSION := 3
  const MODE_PRIVATE := 7

  // ---- Bit fields of modules/monlist.h; 16-bit fields in host order

  predicate IsResponse(m: byte) { m / 0x80 % 2 == 1 }
  predicate IsMore(m: byte) { m / 0x40 % 2 == 1 }
  function InfoVersion(m: byte): nat { m / 8 % 8 }
  function InfoMode(m: byte): nat { m % 8 }
  function RmVnMode(response: bool, more: bool): byte {
    (if response then 0x80 else 0) + (if more then 0x40 else 0) + NTP_VERSION * 8 + MODE_PRIVATE
  }

  predicate InfoIsAuth(a: byte) { a / 0x80 % 2 == 1 }
  function InfoSeq(a: byte): nat { a % 0x80 }
  function AuthSeq(auth: bool, sequence: nat): byte { (if auth then 0x80 else 0) + sequence % 0x80 }

  function InfoErr(e: u16): nat { e / 0x1000 % 0x10 }
  function InfoNitems(e: u16): nat { e % 0x1000 }
  function ErrNitems(err: nat, nitems: nat): u16 { err % 0x10 * 0x1000 + nitems % 0x1000 }

  function InfoMbz(m: u16): nat { m / 0x1000 % 0x10 }

  datatype Header = Header(rmVnMode: byte, authSeq: byte, implementation: byte, request: byte,
                           errNitems: u16, mbzItemsize: u16)

  /** Unpacking a packed field gives its parts back. */
  lemma FieldsRoundTrip(response: bool, more: bool, auth: bool, sequence: nat, err: nat, nitems: nat)
    requires sequence < 0x80 && err < 0x10 && nitems < 0x1000
    ensures var m := RmVnMode(response, more);
            (IsResponse(m) <==> response) && (IsMore(m) <==> more)
            && InfoVersion(m) == NTP_VERSION && InfoMode(m) == MODE_PRIVATE
    ensures (InfoIsAuth(AuthSeq(auth, sequence)) <==> auth) && InfoSeq(AuthSeq(auth, sequence)) == sequence
    ensures InfoErr(ErrNitems(err, nitems)) == err && InfoNitems(ErrNitems(err, nitems)) == nitems
  {
  }

  // ---- What the socket delivers

  /** select times out, recv fails, or a packet of n bytes arrives. */
  datatype Arrival = TimedOut | RecvFailed | Packet(n: nat, header: Header)

  /** The packet passes the format check and answers this request. */
  predicate Accepted(a: Arrival, implcode: byte, reqcode: byte) {
    && a.Packet? && a.n >= RESP_HEADER_SIZE
    && InfoVersion(a.header.rmVnMode) == NTP_VERSION
    && InfoMode(a.header.rmVnMode) == MODE_PRIVATE
    && !InfoIsAuth(a.header.authSeq)
    && IsResponse(a.header.rmVnMode)
    && InfoMbz(a.header.mbzItemsize) == 0
    && a.header.implementation == implcode && a.header.request == reqcode
  }

  /**
   On the octets: eight of them at least, version 3 and mode 7 with the response bit and at most the
   MORE bit besides, no authentication, four zero bits before the item size, and the codes asked for.
   */
  predicate Answers(a: Arrival, implcode: byte, reqcode: byte) {
    && a.Packet? && a.n >= 8 && (a.header.rmVnMode == 0x9f || a.header.rmVnMode == 0xdf)
    && a.header.authSeq < 0x80 && a.header.mbzItemsize < 0x1000
    && a.header.implementation == implcode && a.header.request == reqcode
  }

  /** Exactly those packets are accepted, and their fields are these. */
  lemma AcceptedMeans(a: Arrival, implcode: byte, reqcode: byte)
    ensures Accepted(a, implcode, reqcode) <==> Answers(a, implcode, reqcode)
    ensures Accepted(a, implcode, reqcode) ==>
              && InfoSeq(a.header.authSeq) == a.header.authSeq
              && (IsMore(a.header.rmVnMode) <==> a.header.rmVnMode == 0xdf)
              && InfoErr(a.header.errNitems) == a.header.errNitems / 0x1000
              && InfoNitems(a.header.errNitems) == a.header.errNitems % 0x1000
  {
    ModeOctet(a);
  }

  lemma ModeOctet(a: Arrival)
    ensures a.Packet? ==>
              var m := a.header.rmVnMode;
              (InfoVersion(m) == 3 && InfoMode(m) == 7 && IsResponse(m) <==> m == 0x9f || m == 0xdf)
  {
    if a.Packet? {
      var m := a.header.rmVnMode;
      assert m == m / 0x40 * 0x40 + m / 8 % 8 * 8 + m % 8;
      assert m / 0x80 % 2 == 1 <==> m / 0x40 == 2 || m / 0x40 == 3;
    }
  }

  // ---- The receive loop as a function of what arrives

  /** The loop's variables: sequence numbers seen, items so far, last sequence number, packets counted. */
  datatype Tally = Tally(seen: set<nat>, items: nat, lastseq: nat, numrecv: nat)

  const START := Tally({}, 0, NO_LAST, 0)

  /** The result: 0 when complete, an error code of the server, or -1; and how much was consumed. */
  datatype Response = Response(status: int, items: nat, used: nat)

  /** One turn of the loop: it returns, or goes on with new variables. */
  datatype Turn = Return(status: int, items: nat) | Go(tally: Tally)

  function TurnOn(a: Arrival, t: Tally, implcode: byte, reqcode: byte): Turn {
    if !a.Packet? then Return(-1, t.items)
    else if !Accepted(a, implcode, reqcode) then Go(t)
    else if InfoErr(a.header.errNitems) != 0 then Return(InfoErr(a.header.errNitems), t.items)
    else
      var sequence := InfoSeq(a.header.authSeq);
      if sequence >= MAXPACKETS || sequence in t.seen then Go(t)
      else
        var last, seen, items := !IsMore(a.header.rmVnMode), t.seen + {sequence},
            t.items + InfoNitems(a.header.errNitems);
        if last && t.lastseq != NO_LAST then Go(t.(seen := seen, items := items))
        else
          var t' := Tally(seen, items, if last then sequence else t.lastseq, t.numrecv + 1);
          if t'.numrecv > t'.lastseq then Return(0, items) else Go(t')
  }

  /** Continue from arrival k.  When nothing more arrives select times out. */
  function Collect(arrivals: seq<Arrival>, k: nat, t: Tally, implcode: byte, reqcode: byte): Response
    requires k <= |arrivals|
    decreases |arrivals| - k
  {
    if k == |arrivals| then Response(-1, t.items, k)
    else
      match TurnOn(arrivals[k], t, implcode, reqcode)
      case Return(status, items) => Response(status, items, k + 1)
      case Go(t') => Collect(arrivals, k + 1, t', implcode, reqcode)
  }

  /** getresponse */
  method GetResponse(arrivals: seq<Arrival>, implcode: byte, reqcode: byte) returns (r: Response)
    ensures r == Collect(arrivals, 0, START, implcode, reqcode)
  {
    var seenpacket := new bool[MAXPACKETS](_ => false);
    var ritems, lastseq, numrecv, k := 0, NO_LAST, 0, 0;
    ghost var t := START;
    while true
      invariant 0 <= k <= |arrivals|
      invariant t.items == ritems && t.lastseq == lastseq && t.numrecv == numrecv
      invariant forall s: nat :: s < MAXPACKETS ==> (seenpacket[s] <==> s in t.seen)
      invariant Collect(arrivals, k, t, implcode, reqcode) == Collect(arrivals, 0, START, implcode, reqcode)
      decreases |arrivals| - k
    {
      if k == |arrivals| || !arrivals[k].Packet? { return Response(-1, ritems, if k == |arrivals| then k else k + 1); }
      var a := arrivals[k];
      k := k + 1;
      if !Accepted(a, implcode, reqcode) { continue; }
      if InfoErr(a.header.errNitems) != 0 { return Response(InfoErr(a.header.errNitems), ritems, k); }
      var sequence := InfoSeq(a.header.authSeq);
      if sequence >= MAXPACKETS { continue; }
      if seenpacket[sequence] { continue; }
      seenpacket[sequence] := true;
      ritems := ritems + InfoNitems(a.header.errNitems);
      t := t.(seen := t.seen + {sequence}, items := ritems);
      if !IsMore(a.header.rmVnMode) {
        if lastseq != NO_LAST { continue; }
        lastseq := sequence;
      }
      numrecv := numrecv + 1;
      t := t.(lastseq := lastseq, numrecv := numrecv);
      if numrecv > lastseq { return Response(0, ritems, k); }
    }
  }

  // ---- Reassembly

  /**
   The accepted packets that report no error, among junk, errors, time-outs and failures, are
   fragments of one reply; frags[i] is the item count of fragment i.
   */
  ghost predicate FromReply(arrivals: seq<Arrival>, frags: seq<nat>, implcode: byte, reqcode: byte) {
    && 1 <= |frags| <= MAXPACKETS
    && forall k :: 0 <= k < |arrivals| ==> FromFragment(arrivals[k], frags, implcode, reqcode)
  }

  ghost predicate FromFragment(a: Arrival, frags: seq<nat>, implcode: byte, reqcode: byte) {
    Accepted(a, implcode, reqcode) && InfoErr(a.header.errNitems) == 0 ==>
      (|| InfoSeq(a.header.authSeq) >= MAXPACKETS
       || (&& InfoSeq(a.header.authSeq) < |frags|
           && InfoNitems(a.header.errNitems) == frags[InfoSeq(a.header.authSeq)]
           && (IsMore(a.header.rmVnMode) <==> InfoSeq(a.header.authSeq) != |frags| - 1)))
  }

  /** An answer with an error code in its top four bits. */
  predicate Refuses(a: Arrival, implcode: byte, reqcode: byte) {
    Answers(a, implcode, reqcode) && a.header.errNitems >= 0x1000
  }

  /** How far the reply reaches: the first time-out, failure or error code from arrival k on, or the end. */
  function Delivery(arrivals: seq<Arrival>, k: nat, implcode: byte, reqcode: byte): (n: nat)
    requires k <= |arrivals|
    ensures k <= n <= |arrivals|
    ensures n < |arrivals| ==> !arrivals[n].Packet? || Refuses(arrivals[n], implcode, reqcode)
    ensures forall i :: k <= i < n ==> arrivals[i].Packet? && !Refuses(arrivals[i], implcode, reqcode)
    decreases |arrivals| - k
  {
    if k == |arrivals| || !arrivals[k].Packet? || Refuses(arrivals[k], implcode, reqcode) then k
    else Delivery(arrivals, k + 1, implcode, reqcode)
  }

  /** The fragment numbers among the first k arrivals. */
  function Seen(arrivals: seq<Arrival>, k: nat, implcode: byte, reqcode: byte): set<nat>
    requires k <= |arrivals|
  {
    if k == 0 then {}
    else
      var a := arrivals[k - 1];
      var before := Seen(arrivals, k - 1, implcode, reqcode);
      if Accepted(a, implcode, reqcode) && InfoSeq(a.header.authSeq) < MAXPACKETS
      then before + {InfoSeq(a.header.authSeq)} else before
  }

  function All(n: nat): (s: set<nat>)
    ensures forall x: nat :: x in s <==> x < n
  {
    if n == 0 then {} else All(n - 1) + {n - 1}
  }

  /** The items of the fragments in a set. */
  function SumOver(frags: seq<nat>, s: set<nat>): nat {
    if frags == [] then 0
    else SumOver(frags[..|frags| - 1], s) + if |frags| - 1 in s then frags[|frags| - 1] else 0
  }

  lemma {:induction false} SumAdds(frags: seq<nat>, s: set<nat>, x: nat)
    requires x !in s
    ensures SumOver(frags, s + {x}) == SumOver(frags, s) + if x < |frags| then frags[x] else 0
    decreases |frags|
  {
    if frags == [] {
    } else {
      SumAdds(frags[..|frags| - 1], s, x);
    }
  }

  lemma {:induction false} AllSize(n: nat)
    ensures |All(n)| == n
  {
    if n == 0 {
    } else {
      AllSize(n - 1);
    }
  }

  lemma SubsetSize(a: set<nat>, b: set<nat>)
    requires a <= b
    ensures |a| <= |b| && (|a| == |b| ==> a == b)
  {
    assert b == a + (b - a);
    assert |b| == |a| + |b - a|;
  }

  /** The loop between arrivals k and k + 1: everything it holds follows from the set of fragments seen. */
  ghost predicate Consistent(arrivals: seq<Arrival>, k: nat, t: Tally, frags: seq<nat>, implcode: byte, reqcode: byte) {
    k <= |arrivals| && t.seen == Seen(arrivals, k, implcode, reqcode) && Balanced(t, frags)
  }

  /** Arrival j - 1 brings the last missing fragment. */
  ghost predicate CompleteAt(arrivals: seq<Arrival>, j: nat, frags: seq<nat>, implcode: byte, reqcode: byte) {
    && 1 <= j <= |arrivals| && Seen(arrivals, j, implcode, reqcode) == All(|frags|)
    && Seen(arrivals, j - 1, implcode, reqcode) != All(|frags|)
  }

  /**
   What getresponse must report: completion exactly when the last missing fragment comes before any
   failure or error code, else the error code, or -1 at the failure or at the end.
   */
  ghost predicate Reassembled(r: Response, arrivals: seq<Arrival>, frags: seq<nat>, implcode: byte, reqcode: byte) {
    var n := Delivery(arrivals, 0, implcode, reqcode);
    if Seen(arrivals, n, implcode, reqcode) == All(|frags|) then
      && r.status == 0 && r.used <= n && r.items == SumOver(frags, All(|frags|))
      && CompleteAt(arrivals, r.used, frags, implcode, reqcode)
    else
      && r.items == SumOver(frags, Seen(arrivals, n, implcode, reqcode))
      && (if n == |arrivals| then r.status == -1 && r.used == n
          else
            && r.used == n + 1
            && r.status == if arrivals[n].Packet? then arrivals[n].header.errNitems / 0x1000 else -1)
  }

  /** The loop's variables hold what the fragments seen amount to. */
  ghost predicate Balanced(t: Tally, frags: seq<nat>) {
    && frags != [] && t.seen < All(|frags|)
    && t.items == SumOver(frags, t.seen) && t.numrecv == |t.seen|
    && t.lastseq == if |frags| - 1 in t.seen then |frags| - 1 else NO_LAST
  }

  /** The variables with one more fragment. */
  function With(t: Tally, x: nat, frags: seq<nat>): Tally
    requires x < |frags|
  {
    Tally(t.seen + {x}, t.items + frags[x], if x == |frags| - 1 then x else t.lastseq, t.numrecv + 1)
  }

  lemma WithBalanced(t: Tally, x: nat, frags: seq<nat>)
    requires Balanced(t, frags) && x < |frags| && x !in t.seen
    ensures var next := With(t, x, frags);
            && next.items == SumOver(frags, next.seen)
            && (next.seen == All(|frags|) <==> next.numrecv == |frags|)
            && (next.seen != All(|frags|) ==> Balanced(next, frags))
            && (|frags| - 1 in next.seen ==> next.lastseq == |frags| - 1)
            && (|frags| - 1 !in next.seen ==> next.lastseq == NO_LAST)
            && next.numrecv <= |frags|
  {
    NewFragment(t.seen, x, frags);
  }

  /** The turn a new fragment causes: it completes the reply exactly when none is missing any more. */
  lemma NewTurn(a: Arrival, t: Tally, frags: seq<nat>, implcode: byte, reqcode: byte)
    requires Balanced(t, frags) && |frags| <= MAXPACKETS && FromFragment(a, frags, implcode, reqcode)
    requires Accepted(a, implcode, reqcode) && InfoSeq(a.header.authSeq) < MAXPACKETS
            && InfoSeq(a.header.authSeq) !in t.seen && !Refuses(a, implcode, reqcode)
    ensures var next := With(t, InfoSeq(a.header.authSeq), frags);
            TurnOn(a, t, implcode, reqcode) == if next.seen == All(|frags|) then Return(0, next.items) else Go(next)
  {
    var x := InfoSeq(a.header.authSeq);
    AcceptedMeans(a, implcode, reqcode);
    WithBalanced(t, x, frags);
    assert |frags| - 1 in All(|frags|);
  }

  /** One new fragment: either the reply is complete with it, or the loop goes on consistently. */
  lemma NewFragmentStep(arrivals: seq<Arrival>, k: nat, t: Tally, frags: seq<nat>, implcode: byte, reqcode: byte)
    returns (next: Tally)
    requires k < |arrivals| && arrivals[k].Packet? && FromFragment(arrivals[k], frags, implcode, reqcode)
            && |frags| <= MAXPACKETS
    requires Consistent(arrivals, k, t, frags, implcode, reqcode) && Accepted(arrivals[k], implcode, reqcode)
    requires InfoSeq(arrivals[k].header.authSeq) < MAXPACKETS && InfoSeq(arrivals[k].header.authSeq) !in t.seen
    requires !Refuses(arrivals[k], implcode, reqcode)
    ensures Collect(arrivals, k, t, implcode, reqcode)
         == if next.seen == All(|frags|) then Response(0, SumOver(frags, All(|frags|)), k + 1)
            else Collect(arrivals, k + 1, next, implcode, reqcode)
    ensures next.seen == Seen(arrivals, k + 1, implcode, reqcode)
    ensures next.seen != All(|frags|) ==> Consistent(arrivals, k + 1, next, frags, implcode, reqcode)
  {
    var a := arrivals[k];
    var x := InfoSeq(a.header.authSeq);
    AcceptedMeans(a, implcode, reqcode);
    next := With(t, x, frags);
    NewTurn(a, t, frags, implcode, reqcode);
    WithBalanced(t, x, frags);
    SeenGrows(arrivals, k, t.seen, implcode, reqcode);
    TurnCollects(arrivals, k, t, next, next.seen == All(|frags|), implcode, reqcode);
  }

  lemma SeenGrows(arrivals: seq<Arrival>, k: nat, seen: set<nat>, implcode: byte, reqcode: byte)
    requires k < |arrivals| && Accepted(arrivals[k], implcode, reqcode)
    requires InfoSeq(arrivals[k].header.authSeq) < MAXPACKETS
    requires seen == Seen(arrivals, k, implcode, reqcode)
    ensures Seen(arrivals, k + 1, implcode, reqcode) == seen + {InfoSeq(arrivals[k].header.authSeq)}
  {
  }

  lemma TurnCollects(arrivals: seq<Arrival>, k: nat, t: Tally, next: Tally, done: bool, implcode: byte, reqcode: byte)
    requires k < |arrivals|
    requires TurnOn(arrivals[k], t, implcode, reqcode) == if done then Return(0, next.items) else Go(next)
    ensures Collect(arrivals, k, t, implcode, reqcode)
         == if done then Response(0, next.items, k + 1) else Collect(arrivals, k + 1, next, implcode, reqcode)
  {
  }

  lemma {:induction false} CollectReassembles(arrivals: seq<Arrival>, k: nat, t: Tally, frags: seq<nat>,
                                              implcode: byte, reqcode: byte)
    returns (r: Response)
    requires FromReply(arrivals, frags, implcode, reqcode) && Consistent(arrivals, k, t, frags, implcode, reqcode)
    requires Delivery(arrivals, k, implcode, reqcode) == Delivery(arrivals, 0, implcode, reqcode)
    ensures r == Collect(arrivals, k, t, implcode, reqcode) && Reassembled(r, arrivals, frags, implcode, reqcode)
    decreases |arrivals| - k
  {
    if k == |arrivals| || !arrivals[k].Packet? || Refuses(arrivals[k], implcode, reqcode) {
      r := Stopped(arrivals, k, t, frags, implcode, reqcode);
    } else {
      var next := OneStep(arrivals, k, t, frags, implcode, reqcode);
      if next.seen == All(|frags|) {
        r := Response(0, SumOver(frags, All(|frags|)), k + 1);
        LastFragment(arrivals, k, frags, implcode, reqcode);
      } else {
        r := CollectReassembles(arrivals, k + 1, next, frags, implcode, reqcode);
      }
    }
  }

  /** At a failure or an error code, or at the end, the reply is not complete. */
  lemma Stopped(arrivals: seq<Arrival>, k: nat, t: Tally, frags: seq<nat>, implcode: byte, reqcode: byte)
    returns (r: Response)
    requires Consistent(arrivals, k, t, frags, implcode, reqcode) && k == Delivery(arrivals, 0, implcode, reqcode)
    ensures r == Collect(arrivals, k, t, implcode, reqcode) && Reassembled(r, arrivals, frags, implcode, reqcode)
  {
    if k < |arrivals| && arrivals[k].Packet? {
      AcceptedMeans(arrivals[k], implcode, reqcode);
      r := Response(arrivals[k].header.errNitems / 0x1000, t.items, k + 1);
    } else {
      r := Response(-1, t.items, if k == |arrivals| then k else k + 1);
    }
  }

  lemma LastFragment(arrivals: seq<Arrival>, k: nat, frags: seq<nat>, implcode: byte, reqcode: byte)
    requires FromReply(arrivals, frags, implcode, reqcode) && k < Delivery(arrivals, 0, implcode, reqcode)
    requires Seen(arrivals, k + 1, implcode, reqcode) == All(|frags|)
    requires Seen(arrivals, k, implcode, reqcode) != All(|frags|)
    ensures Reassembled(Response(0, SumOver(frags, All(|frags|)), k + 1), arrivals, frags, implcode, reqcode)
  {
    SeenStays(arrivals, frags, k + 1, Delivery(arrivals, 0, implcode, reqcode), implcode, reqcode);
  }

  lemma OneStep(arrivals: seq<Arrival>, k: nat, t: Tally, frags: seq<nat>, implcode: byte, reqcode: byte)
    returns (next: Tally)
    requires k < |arrivals| && arrivals[k].Packet? && FromReply(arrivals, frags, implcode, reqcode)
    requires !Refuses(arrivals[k], implcode, reqcode)
    requires Consistent(arrivals, k, t, frags, implcode, reqcode)
    ensures Collect(arrivals, k, t, implcode, reqcode)
         == if next.seen == All(|frags|) then Response(0, SumOver(frags, All(|frags|)), k + 1)
            else Collect(arrivals, k + 1, next, implcode, reqcode)
    ensures next.seen == Seen(arrivals, k + 1, implcode, reqcode)
    ensures next.seen != All(|frags|) ==> Consistent(arrivals, k + 1, next, frags, implcode, reqcode)
  {
    var a := arrivals[k];
    assert FromFragment(a, frags, implcode, reqcode);
    if Accepted(a, implcode, reqcode) && InfoSeq(a.header.authSeq) < MAXPACKETS
        && InfoSeq(a.header.authSeq) !in t.seen {
      next := NewFragmentStep(arrivals, k, t, frags, implcode, reqcode);
    } else {
      next := t;
      RepeatedStep(arrivals, k, t, frags, implcode, reqcode);
    }
  }

  /** A rejected packet, a repetition or a number out of range changes nothing. */
  lemma RepeatedStep(arrivals: seq<Arrival>, k: nat, t: Tally, frags: seq<nat>, implcode: byte, reqcode: byte)
    requires k < |arrivals| && arrivals[k].Packet? && FromFragment(arrivals[k], frags, implcode, reqcode)
    requires Consistent(arrivals, k, t, frags, implcode, reqcode)
    requires !(Accepted(arrivals[k], implcode, reqcode) && InfoSeq(arrivals[k].header.authSeq) < MAXPACKETS
               && InfoSeq(arrivals[k].header.authSeq) !in t.seen)
    requires !Refuses(arrivals[k], implcode, reqcode)
    ensures Collect(arrivals, k, t, implcode, reqcode) == Collect(arrivals, k + 1, t, implcode, reqcode)
    ensures Consistent(arrivals, k + 1, t, frags, implcode, reqcode)
  {
    var a := arrivals[k];
    AcceptedMeans(a, implcode, reqcode);
    if Accepted(a, implcode, reqcode) && InfoSeq(a.header.authSeq) in t.seen {
      assert t.seen + {InfoSeq(a.header.authSeq)} == t.seen;
    }
  }

  /** A new fragment adds its items and one to the count, which reaches n exactly with the last one. */
  lemma NewFragment(seen: set<nat>, x: nat, frags: seq<nat>)
    requires seen < All(|frags|) && x < |frags| && x !in seen
    ensures SumOver(frags, seen + {x}) == SumOver(frags, seen) + frags[x]
    ensures |seen + {x}| == |seen| + 1 <= |frags|
    ensures seen + {x} <= All(|frags|) && (|seen| + 1 == |frags| <==> seen + {x} == All(|frags|))
  {
    SumAdds(frags, seen, x);
    AllSize(|frags|);
    SubsetSize(seen + {x}, All(|frags|));
  }

  /** From the start: any order, duplication, interleaving with rejected packets, and failure part way. */
  lemma Reassembly(arrivals: seq<Arrival>, frags: seq<nat>, implcode: byte, reqcode: byte)
    requires FromReply(arrivals, frags, implcode, reqcode)
    ensures Reassembled(Collect(arrivals, 0, START, implcode, reqcode), arrivals, frags, implcode, reqcode)
  {
    NothingSums(frags);
    assert 0 in All(|frags|);
    var r := CollectReassembles(arrivals, 0, START, frags, implcode, reqcode);
  }

  lemma {:induction false} NothingSums(frags: seq<nat>)
    ensures SumOver(frags, {}) == 0
    decreases |frags|
  {
    if frags == [] {
    } else {
      NothingSums(frags[..|frags| - 1]);
    }
  }

  /** Order, repetitions and junk decide nothing, only the fragments that come before a failure or an error code. */
  lemma OrderIrrelevant(a: seq<Arrival>, b: seq<Arrival>, frags: seq<nat>, implcode: byte, reqcode: byte)
    requires FromReply(a, frags, implcode, reqcode) && FromReply(b, frags, implcode, reqcode)
    requires Seen(a, Delivery(a, 0, implcode, reqcode), implcode, reqcode)
          == Seen(b, Delivery(b, 0, implcode, reqcode), implcode, reqcode)
    ensures var r, q := Collect(a, 0, START, implcode, reqcode), Collect(b, 0, START, implcode, reqcode);
            r.items == q.items && (r.status == 0 <==> q.status == 0)
  {
    Reassembly(a, frags, implcode, reqcode);
    Reassembly(b, frags, implcode, reqcode);
  }

  /** Once complete, the set of fragments seen stays complete: completion happens only once. */
  lemma {:induction false} SeenStays(arrivals: seq<Arrival>, frags: seq<nat>, i: nat, j: nat, implcode: byte,
                                     reqcode: byte)
    requires FromReply(arrivals, frags, implcode, reqcode) && i <= j <= Delivery(arrivals, 0, implcode, reqcode)
    ensures Seen(arrivals, i, implcode, reqcode) == All(|frags|)
            ==> Seen(arrivals, j, implcode, reqcode) == All(|frags|)
    decreases j
  {
    if i >= j {
    } else {
      assert FromFragment(arrivals[j - 1], frags, implcode, reqcode);
      AcceptedMeans(arrivals[j - 1], implcode, reqcode);
      SeenStays(arrivals, frags, i, j - 1, implcode, reqcode);
    }
  }

  // ---- Packets of any kind, from one reply or not

  /** Arrival i is the first answer with its sequence number, below 100, and reports no error. */
  predicate Fresh(arrivals: seq<Arrival>, i: nat, implcode: byte, reqcode: byte)
    requires i < |arrivals|
  {
    && Answers(arrivals[i], implcode, reqcode) && !Refuses(arrivals[i], implcode, reqcode)
    && arrivals[i].header.authSeq < 100
    && forall j :: 0 <= j < i && Answers(arrivals[j], implcode, reqcode) ==>
         arrivals[j].header.authSeq != arrivals[i].header.authSeq
  }

  /** The items of the fresh answers among the first k arrivals. */
  function Items(arrivals: seq<Arrival>, k: nat, implcode: byte, reqcode: byte): nat
    requires k <= |arrivals|
  {
    if k == 0 then 0
    else Items(arrivals, k - 1, implcode, reqcode)
         + if Fresh(arrivals, k - 1, implcode, reqcode) then arrivals[k - 1].header.errNitems % 0x1000 else 0
  }

  /** The sequence number of the first fresh answer without the MORE bit; 999 while there is none. */
  function LastSeq(arrivals: seq<Arrival>, k: nat, implcode: byte, reqcode: byte): nat
    requires k <= |arrivals|
  {
    if k == 0 then 999
    else
      var before := LastSeq(arrivals, k - 1, implcode, reqcode);
      if before == 999 && Fresh(arrivals, k - 1, implcode, reqcode) && arrivals[k - 1].header.rmVnMode == 0x9f
      then arrivals[k - 1].header.authSeq else before
  }

  /** How many fresh answers have the MORE bit, and one more once there is one without. */
  function Counted(arrivals: seq<Arrival>, k: nat, implcode: byte, reqcode: byte): nat
    requires k <= |arrivals|
  {
    MoreCount(arrivals, k, implcode, reqcode) + if LastSeq(arrivals, k, implcode, reqcode) == 999 then 0 else 1
  }

  function MoreCount(arrivals: seq<Arrival>, k: nat, implcode: byte, reqcode: byte): nat
    requires k <= |arrivals|
  {
    if k == 0 then 0
    else MoreCount(arrivals, k - 1, implcode, reqcode)
         + if Fresh(arrivals, k - 1, implcode, reqcode) && arrivals[k - 1].header.rmVnMode == 0xdf then 1 else 0
  }

  /** Arrival k ends the loop: no packet, an error code, or more packets counted than the last number. */
  predicate Ends(arrivals: seq<Arrival>, k: nat, implcode: byte, reqcode: byte)
    requires k < |arrivals|
  {
    || !arrivals[k].Packet? || Refuses(arrivals[k], implcode, reqcode)
    || Counted(arrivals, k + 1, implcode, reqcode) > LastSeq(arrivals, k + 1, implcode, reqcode)
  }

  /** The variables of the loop before arrival k. */
  ghost predicate Counts(arrivals: seq<Arrival>, k: nat, t: Tally, implcode: byte, reqcode: byte) {
    && k <= |arrivals|
    && (forall s: nat :: s in t.seen <==> s < 100 && SeenBefore(arrivals, k, s, implcode, reqcode))
    && t.items == Items(arrivals, k, implcode, reqcode) && t.lastseq == LastSeq(arrivals, k, implcode, reqcode)
    && t.numrecv == Counted(arrivals, k, implcode, reqcode) <= t.lastseq
  }

  predicate SeenBefore(arrivals: seq<Arrival>, k: nat, s: nat, implcode: byte, reqcode: byte)
    requires k <= |arrivals|
  {
    exists j :: 0 <= j < k && Answers(arrivals[j], implcode, reqcode) && arrivals[j].header.authSeq == s
  }

  lemma CountsStep(arrivals: seq<Arrival>, k: nat, t: Tally, implcode: byte, reqcode: byte) returns (next: Tally)
    requires k < |arrivals| && arrivals[k].Packet? && !Refuses(arrivals[k], implcode, reqcode)
    requires Counts(arrivals, k, t, implcode, reqcode)
    ensures if Ends(arrivals, k, implcode, reqcode)
            then TurnOn(arrivals[k], t, implcode, reqcode) == Return(0, Items(arrivals, k + 1, implcode, reqcode))
            else TurnOn(arrivals[k], t, implcode, reqcode) == Go(next)
                 && Counts(arrivals, k + 1, next, implcode, reqcode)
  {
    var a := arrivals[k];
    AcceptedMeans(a, implcode, reqcode);
    var turn := TurnOn(a, t, implcode, reqcode);
    next := if turn.Go? then turn.tally else t;
    SeenStep(arrivals, k, implcode, reqcode);
    LastSeqRange(arrivals, k, implcode, reqcode);
    assert Fresh(arrivals, k, implcode, reqcode)
      <==> Answers(a, implcode, reqcode) && a.header.authSeq < 100 && a.header.authSeq !in t.seen;
  }

  lemma {:induction false} LastSeqRange(arrivals: seq<Arrival>, k: nat, implcode: byte, reqcode: byte)
    requires k <= |arrivals|
    ensures LastSeq(arrivals, k, implcode, reqcode) < 100 || LastSeq(arrivals, k, implcode, reqcode) == 999
  {
    if k == 0 {
    } else {
      LastSeqRange(arrivals, k - 1, implcode, reqcode);
    }
  }

  lemma SeenStep(arrivals: seq<Arrival>, k: nat, implcode: byte, reqcode: byte)
    requires k < |arrivals|
    ensures forall s: nat :: SeenBefore(arrivals, k + 1, s, implcode, reqcode)
              <==> SeenBefore(arrivals, k, s, implcode, reqcode)
                   || (Answers(arrivals[k], implcode, reqcode) && arrivals[k].header.authSeq == s)
  {
    forall s: nat
      ensures SeenBefore(arrivals, k + 1, s, implcode, reqcode)
              <==> SeenBefore(arrivals, k, s, implcode, reqcode)
                   || (Answers(arrivals[k], implcode, reqcode) && arrivals[k].header.authSeq == s)
    {
      if j :| 0 <= j < k + 1 && Answers(arrivals[j], implcode, reqcode) && arrivals[j].header.authSeq == s {
        assert j < k ==> SeenBefore(arrivals, k, s, implcode, reqcode);
      }
    }
  }

  lemma {:induction false} CollectFrom(arrivals: seq<Arrival>, j: nat, k: nat, t: Tally, implcode: byte, reqcode: byte)
    returns (last: Tally)
    requires j <= k <= |arrivals| && Counts(arrivals, j, t, implcode, reqcode)
    requires forall i :: j <= i < k ==> !Ends(arrivals, i, implcode, reqcode)
    ensures Counts(arrivals, k, last, implcode, reqcode)
    ensures Collect(arrivals, j, t, implcode, reqcode) == Collect(arrivals, k, last, implcode, reqcode)
    decreases k - j
  {
    if j == k {
      last := t;
    } else {
      assert !Ends(arrivals, j, implcode, reqcode);
      var next := CountsStep(arrivals, j, t, implcode, reqcode);
      last := CollectFrom(arrivals, j + 1, k, next, implcode, reqcode);
    }
  }

  /** Whatever arrives, the first arrival that ends the loop decides the answer; without one it times out. */
  lemma AnyArrivals(arrivals: seq<Arrival>, k: nat, implcode: byte, reqcode: byte)
    requires k <= |arrivals| && (k < |arrivals| ==> Ends(arrivals, k, implcode, reqcode))
    requires forall i :: 0 <= i < k ==> !Ends(arrivals, i, implcode, reqcode)
    ensures Collect(arrivals, 0, START, implcode, reqcode)
         == if k == |arrivals| then Response(-1, Items(arrivals, k, implcode, reqcode), k)
            else if !arrivals[k].Packet? then Response(-1, Items(arrivals, k, implcode, reqcode), k + 1)
            else if Refuses(arrivals[k], implcode, reqcode) then
              Response(arrivals[k].header.errNitems / 0x1000, Items(arrivals, k, implcode, reqcode), k + 1)
            else Response(0, Items(arrivals, k + 1, implcode, reqcode), k + 1)
  {
    assert Counts(arrivals, 0, START, implcode, reqcode);
    var t := CollectFrom(arrivals, 0, k, START, implcode, reqcode);
    if k < |arrivals| && arrivals[k].Packet? {
      AcceptedMeans(arrivals[k], implcode, reqcode);
      if !Refuses(arrivals[k], implcode, reqcode) {
        var next := CountsStep(arrivals, k, t, implcode, reqcode);
      }
    }
  }
}
