/** The lbcdclient side of the protocol, and the agreement of both sides. */
module Client {
  import opened Common
  import opened Protocol
  import opened Server

  // ---- send_query

  /** The packet of a query; None where the client dies on its arguments. */
  function Query(protocol: u16, services: seq<seq<char>>): Option<Packet> {
    if protocol != 2 && protocol != 3 then None
    else if protocol == 2 && services != [] then None
    else if |services| > 5 then None
    else if exists k :: 0 <= k < |services| && |services[k]| > 31 then None
    else Some(PutHeader(Header(protocol, 0, LBCD_OP_LBINFO, |services|)) + PutNames(services))
  }

  // ---- read_reply

  /** A weight and an increment, as far as the reply reached; unpack leaves the others undefined. */
  datatype Pair = Pair(weight: Option<u32>, incr: Option<u32>)

  /** For version 3 the services are pairs, otherwise the count as sent, if it was. */
  datatype Services = ServiceCount(n: Option<byte>) | Pairs(pairs: seq<Pair>)

  /** What read_reply dies of, or what it returns. */
  datatype Reading = WrongId(id: u16) | WrongOp(op: Option<u16>) | ErrorReply(status: Option<u16>) | BadUnpack
                   | GoodReply(version: u16, fields: Fields, services: Services)

  const RECV_SIZE := 256

  /** What recv returns of a datagram. */
  function Received(p: Packet): Packet { if |p| > RECV_SIZE then p[..RECV_SIZE] else p }

  function Field16(p: Packet, i: nat): Option<u16> { if i + 2 <= |p| then Some(Get16(p, i)) else None }

  function Field32(p: Packet, i: nat): Option<u32> { if i + 4 <= |p| then Some(Get32(p, i)) else None }

  /** The unpacked fields; reserved and pad are skipped, and the last one may be missing. */
  function GetFields(p: Packet): Fields
    requires |p| >= REPLY_FIXED - 1
  {
    Fields(Get32(p, 8), Get32(p, 12), Get32(p, 16),
           Get16(p, 20), Get16(p, 22), Get16(p, 24), Get16(p, 26), Get16(p, 28),
           Get8(p, 30), 0, Get8(p, 32), Get8(p, 33), 0, if |p| >= REPLY_FIXED then Get8(p, 35) else 0)
  }

  /** A header that lets read_reply go on to the fields. */
  predicate GoodHeader(h: Header) { h.id == 0 && h.op == LBCD_OP_LBINFO && h.status == StatusCode(StatusOk) }

  function GetPair(p: Packet, i: nat): Pair {
    Pair(Field32(p, REPLY_FIXED + 8 * i), Field32(p, REPLY_FIXED + 8 * i + 4))
  }

  /**
   What read_reply makes of the octets received.  An undefined id passes for zero; skipping past the
   end of the reply dies in unpack, which a reply of 35 octets just avoids.
   */
  function Read(p: Packet): Reading {
    var id, op, status := Field16(p, 2), Field16(p, 4), Field16(p, 6);
    if id.Some? && id.value != 0 then WrongId(id.value)
    else if op != Some(1) then WrongOp(op)
    else if status != Some(1) then ErrorReply(status)
    else if |p| < REPLY_FIXED - 1 then BadUnpack
    else
      var f := GetFields(p);
      var count := if |p| >= REPLY_FIXED then Some(f.services) else None;
      GoodReply(Get16(p, 0), f, if Get16(p, 0) == 3 then Pairs(GetPairs(p, f.services + 1)) else ServiceCount(count))
  }

  function GetPairs(p: Packet, n: nat): (w: seq<Pair>)
    ensures |w| == n && forall k :: 0 <= k < n ==> w[k] == GetPair(p, k)
  {
    seq(n, i requires 0 <= i < n => GetPair(p, i))
  }

  /** substr from an offset; past the end it is undefined, which unpack reads as nothing. */
  function Substr(s: Packet, i: nat): Packet { if i <= |s| then s[i..] else [] }

  /** read_reply */
  method ReadReply(datagram: Packet) returns (r: Reading)
    ensures r == Read(if |datagram| > 256 then datagram[..256] else datagram)
  {
    var p := Received(datagram);
    var id, op, status := Field16(p, 2), Field16(p, 4), Field16(p, 6);
    if id.Some? && id.value != 0 { return WrongId(id.value); }
    if op != Some(1) { return WrongOp(op); }
    if status != Some(1) { return ErrorReply(status); }
    if |p| < REPLY_FIXED - 1 { return BadUnpack; }
    var version, f := Get16(p, 0), GetFields(p);
    if version != 3 {
      return GoodReply(version, f, ServiceCount(if |p| >= REPLY_FIXED then Some(f.services) else None));
    }
    var weights := ReadPairs(p, f.services + 1);
    r := GoodReply(version, f, Pairs(weights));
  }

  /** The pairs are consumed from the front of what is left of the reply. */
  method ReadPairs(p: Packet, n: nat) returns (weights: seq<Pair>)
    ensures weights == GetPairs(p, n)
  {
    var reply := Substr(p, REPLY_FIXED);
    weights := [];
    for i := 0 to n
      invariant reply == Substr(p, REPLY_FIXED + 8 * i) && weights == GetPairs(p, i)
    {
      var pair;
      pair, reply := ShiftPair(p, reply, i);
      PairsSnoc(p, i);
      weights := weights + [pair];
    }
  }

  /** One pair off the front. */
  method ShiftPair(ghost p: Packet, reply: Packet, ghost i: nat) returns (pair: Pair, rest: Packet)
    requires reply == Substr(p, REPLY_FIXED + 8 * i)
    ensures pair == GetPair(p, i) && rest == Substr(p, REPLY_FIXED + 8 * (i + 1))
  {
    NextPair(p, REPLY_FIXED + 8 * i);
    return Pair(Field32(reply, 0), Field32(reply, 4)), Substr(reply, 8);
  }

  lemma PairsSnoc(p: Packet, n: nat)
    ensures GetPairs(p, n + 1) == GetPairs(p, n) + [GetPair(p, n)]
  {
  }

  lemma NextPair(p: Packet, start: nat)
    ensures var reply := Substr(p, start);
            && Field32(reply, 0) == Field32(p, start) && Field32(reply, 4) == Field32(p, start + 4)
            && Substr(reply, 8) == Substr(p, start + 8)
  {
    Shifted(p, start, 0);
    Shifted(p, start, 4);
  }

  lemma Shifted(p: Packet, start: nat, i: nat)
    ensures Field32(Substr(p, start), i) == Field32(p, start + i)
  {
  }

  /** The reply holds everything its services field promises. */
  predicate LongEnough(p: Packet) {
    |p| >= REPLY_FIXED && (Get16(p, 0) == 3 ==> |p| >= REPLY_FIXED + 8 * (Get8(p, 35) + 1))
  }

  predicate Known(services: Services) {
    match services
    case ServiceCount(n) => n.Some?
    case Pairs(pairs) => forall k :: 0 <= k < |pairs| ==> pairs[k].weight.Some? && pairs[k].incr.Some?
  }

  /** A reply is read without a gap exactly when it is as long as it promises. */
  lemma ReadsWhole(p: Packet)
    requires |p| >= HEADER_SIZE && GoodHeader(GetHeader(p))
    ensures Read(p).GoodReply? && Known(Read(p).services) <==> LongEnough(p)
  {
    if |p| >= REPLY_FIXED - 1 && Get16(p, 0) == 3 {
      var n: nat := GetFields(p).services;
      var pairs := GetPairs(p, n + 1);
      assert Read(p).services == Pairs(pairs);
      assert pairs[n].incr.Some? <==> REPLY_FIXED + 8 * (n + 1) <= |p|;
    }
  }

  /** Pairs that were all received. */
  function AllKnown(w: seq<Weight>): (r: seq<Pair>)
    ensures |r| == |w| && forall k :: 0 <= k < |w| ==> r[k] == Pair(Some(w[k].weight), Some(w[k].incr))
  {
    seq(|w|, i requires 0 <= i < |w| => Pair(Some(w[i].weight), Some(w[i].incr)))
  }

  // ---- Both sides agree

  /** The server recovers exactly the names sent, and refuses the query exactly when one is not allowed. */
  lemma QueryReceived(allowed: seq<seq<char>>, protocol: u16, services: seq<seq<char>>)
    requires protocol == 3 || (protocol == 2 && services == [])
    requires |services| <= 5 && forall k :: 0 <= k < |services| ==> |services[k]| <= 31 && '\0' !in services[k]
    ensures Query(protocol, services).Some?
    ensures Receive(allowed, Query(protocol, services).value)
         == if forall k :: 0 <= k < |services| ==> Allowed(allowed, services[k])
            then Accepted(Request(protocol, 0, 1, services))
            else Refused(Header(3, 0, 1, 2))
  {
    var h := Header(protocol, 0, LBCD_OP_LBINFO, |services|);
    var p := PutHeader(h) + PutNames(services);
    assert Query(protocol, services) == Some(p);
    HeaderReads(h, PutNames(services));
    assert RightSize(p);
    if protocol == 3 {
      forall i | 0 <= i < |services|
        ensures NamesOf(p)[i] == services[i]
      {
        NamesRead(PutHeader(h), services, i);
      }
    }
    assert NamesOf(p) == services;
  }

  lemma Slot(p: Packet, start: nat, part: Packet, i: nat, j: nat)
    requires i <= j <= |part| && start + |part| <= |p| && p[start..start + |part|] == part
    ensures p[start + i..start + j] == part[i..j]
  {
    SliceWithin(p, start, start + |part|, i, j);
  }

  lemma TimesRead(p: Packet, f: Fields)
    requires |p| >= REPLY_FIXED && p[8..20] == PutTimes(f)
    ensures Get32(p, 8) == f.bootTime && Get32(p, 12) == f.currentTime && Get32(p, 16) == f.userMtime
  {
    var t := PutTimes(f);
    Slot(p, 8, t, 0, 4);
    Slot(p, 8, t, 4, 8);
    Slot(p, 8, t, 8, 12);
    Reads32(p, 8, f.bootTime);
    Reads32(p, 12, f.currentTime);
    Reads32(p, 16, f.userMtime);
  }

  lemma LoadsRead(p: Packet, f: Fields)
    requires |p| >= REPLY_FIXED && p[20..30] == PutLoads(f)
    ensures Get16(p, 20) == f.l1 && Get16(p, 22) == f.l5 && Get16(p, 24) == f.l15
    ensures Get16(p, 26) == f.totUsers && Get16(p, 28) == f.uniqUsers
  {
    var t := PutLoads(f);
    Slot(p, 20, t, 0, 2);
    Slot(p, 20, t, 2, 4);
    Slot(p, 20, t, 4, 6);
    Slot(p, 20, t, 6, 8);
    Slot(p, 20, t, 8, 10);
    Reads16(p, 20, f.l1);
    Reads16(p, 22, f.l5);
    Reads16(p, 24, f.l15);
    Reads16(p, 26, f.totUsers);
    Reads16(p, 28, f.uniqUsers);
  }

  lemma FlagsRead(p: Packet, f: Fields)
    requires |p| >= REPLY_FIXED && p[30..36] == PutFlags(f)
    ensures Get8(p, 30) == f.onConsole && Get8(p, 32) == f.tmpFull && Get8(p, 33) == f.tmpdirFull
            && Get8(p, 35) == f.services
  {
    var t := p[30..36];
    assert p[30] == t[0] && p[32] == t[2] && p[33] == t[3] && p[35] == t[5];
  }

  lemma FieldSlices(f: Fields, more: Packet)
    ensures var q := PutFields(f) + more;
            q[0..12] == PutTimes(f) && q[12..22] == PutLoads(f) && q[22..28] == PutFlags(f)
  {
    var q, a, b, c := PutFields(f) + more, PutTimes(f), PutLoads(f), PutFlags(f);
    assert q == a + (b + c + more) == a + b + (c + more);
    SliceLeft(a, b + c + more, 0, 12);
    SliceRight(a, b + c + more, 0, 10);
    SliceLeft(b, c + more, 0, 10);
    assert b + (c + more) == b + c + more;
    SliceRight(a + b, c + more, 0, 6);
    SliceLeft(c, more, 0, 6);
  }

  /** The slots of the fixed part hold the fields. */
  lemma FieldsRead(h: Header, f: Fields, w: seq<Weight>)
    ensures GetFields(PutReply(h, f, w)) == f.(reserved := 0, pad := 0)
  {
    var p := PutReply(h, f, w);
    FieldsPlaced(h, f, w);
    TimesRead(p, f);
    LoadsRead(p, f);
    FlagsRead(p, f);
  }

  lemma FieldsPlaced(h: Header, f: Fields, w: seq<Weight>)
    ensures var p := PutReply(h, f, w);
            p[8..20] == PutTimes(f) && p[20..30] == PutLoads(f) && p[30..36] == PutFlags(f)
  {
    var head, q := PutHeader(h), PutFields(f) + PutWeights(w);
    assert PutReply(h, f, w) == head + q;
    SliceRight(head, q, 0, 12);
    SliceRight(head, q, 12, 22);
    SliceRight(head, q, 22, 28);
    FieldSlices(f, PutWeights(w));
  }

  lemma PairsRead(h: Header, f: Fields, w: seq<Weight>, i: nat)
    requires i < |w|
    ensures GetPair(PutReply(h, f, w), i) == Pair(Some(w[i].weight), Some(w[i].incr))
  {
    var p := PutReply(h, f, w);
    var at := REPLY_FIXED + 8 * i;
    WeightAt(w, i);
    var head := PutHeader(h) + PutFields(f);
    SliceRight(head, PutWeights(w), 8 * i, 8 * i + 4);
    SliceRight(head, PutWeights(w), 8 * i + 4, 8 * i + 8);
    Reads32(p, at, w[i].weight);
    Reads32(p, at + 4, w[i].incr);
  }

  /** The client recovers every field of a reply and, in version 3, exactly its n + 1 pairs. */
  lemma ReplyRead(h: Header, f: Fields, w: seq<Weight>)
    requires h.id == 0 && h.op == LBCD_OP_LBINFO && h.status == StatusCode(StatusOk)
    requires f.services + 1 == |w|
    ensures LongEnough(PutReply(h, f, w)) && |PutReply(h, f, w)| == REPLY_FIXED + 8 * |w|
    ensures Read(PutReply(h, f, w))
         == GoodReply(h.version, f.(reserved := 0, pad := 0),
                      if h.version == 3 then Pairs(AllKnown(w)) else ServiceCount(Some(f.services)))
  {
    var p := PutReply(h, f, w);
    ReplyHeader(h, f, w);
    FieldsRead(h, f, w);
    assert Get8(p, 35) == f.services by { assert GetFields(p).services == f.services; }
    forall i | 0 <= i < |w|
      ensures GetPair(p, i) == Pair(Some(w[i].weight), Some(w[i].incr))
    {
      PairsRead(h, f, w, i);
    }
    assert GetPairs(p, |w|) == AllKnown(w);
  }

  /** What the client reads in the answer to its query. */
  lemma Exchange(allowed: seq<seq<char>>, m: Machine, protocol: u16, services: seq<seq<char>>)
    requires protocol == 3 || (protocol == 2 && services == [])
    requires |services| <= 5
    requires forall k :: 0 <= k < |services| ==>
               |services[k]| <= 31 && '\0' !in services[k] && Allowed(allowed, services[k])
    ensures Query(protocol, services).Some?
    ensures var answer, w := Answer(allowed, m, Query(protocol, services).value), WeightsFor(m, services);
            && answer.Some? && LongEnough(answer.value) && |answer.value| == REPLY_FIXED + 8 * (|services| + 1)
            && Read(Received(answer.value))
               == GoodReply(protocol, FieldsFor(m, protocol, |services|, w[0].weight).(reserved := 0, pad := 0),
                                           if protocol == 3 then Pairs(AllKnown(w)) else ServiceCount(Some(|services|)))
  {
    QueryReceived(allowed, protocol, services);
    var r := Request(protocol, 0, LBCD_OP_LBINFO, services);
    var w := WeightsFor(m, services);
    assert Answer(allowed, m, Query(protocol, services).value) == Some(OkReply(m, r));
    ReplyRead(Header(protocol, 0, LBCD_OP_LBINFO, StatusCode(StatusOk)),
        FieldsFor(m, protocol, |services|, w[0].weight), w);
  }

  /** A query with a service that is not allowed is answered, and the client reports the error status. */
  lemma Refusal(allowed: seq<seq<char>>, m: Machine, services: seq<seq<char>>, bad: nat)
    requires |services| <= 5 && bad < |services| && !Allowed(allowed, services[bad])
    requires forall k :: 0 <= k < |services| ==> |services[k]| <= 31 && '\0' !in services[k]
    ensures Query(3, services).Some?
    ensures var answer := Answer(allowed, m, Query(3, services).value);
            answer.Some? && Read(Received(answer.value)) == ErrorReply(Some(2))
  {
    QueryReceived(allowed, 3, services);
    HeaderAlone(Header(LBCD_VERSION, 0, LBCD_OP_LBINFO, StatusCode(StatusError)));
  }

  /** The queries the client dies on: another protocol, services in protocol 2, too many of them, or long names. */
  lemma QueryDies(protocol: u16, services: seq<seq<char>>)
    ensures Query(protocol, services).None?
            <==> (protocol != 3 && (protocol != 2 || services != [])) || |services| > 5
                 || exists k :: 0 <= k < |services| && |services[k]| >= 32
  {
  }

  /** Protocol 3: the client learns the machine's figures and the weight of every service, in order. */
  lemma Conversation(allowed: seq<seq<char>>, m: Machine, services: seq<seq<char>>)
    requires |services| <= 5
    requires forall k :: 0 <= k < |services| ==>
               |services[k]| <= 31 && '\0' !in services[k] && Allowed(allowed, services[k])
    ensures Query(3, services).Some?
    ensures var answer := Answer(allowed, m, Query(3, services).value);
            && answer.Some? && LongEnough(answer.value) && |answer.value| == REPLY_FIXED + 8 * (|services| + 1)
            && Read(Received(answer.value)) == GoodReply(3, m.fields.(reserved := 0, pad := 0, services := |services|),
                                           Pairs(AllKnown(WeightsFor(m, services))))
  {
    Exchange(allowed, m, 3, services);
  }

  /** Protocol 2: unless the server is told to keep it simple, the loads carry the default weight, capped at 16 bits. */
  lemma ConversationVersion2(allowed: seq<seq<char>>, m: Machine)
    ensures Query(2, []).Some?
    ensures var answer := Answer(allowed, m, Query(2, []).value);
            var f := m.fields.(reserved := 0, pad := 0, services := 0);
            var weight: nat := WeightsFor(m, [])[0].weight;
            var load := if weight < 0x1_0000 then weight else 0xffff;
            && answer.Some? && LongEnough(answer.value)
            && Read(Received(answer.value))
               == GoodReply(2, if m.simple then f
                               else f.(l1 := load, l5 := load, l15 := load, totUsers := 0, uniqUsers := 0),
                            ServiceCount(Some(0)))
  {
    Exchange(allowed, m, 2, []);
  }

  // ---- On the octets

  lemma {:induction false} WeightOctets(w: seq<Weight>)
    ensures Octets(PutWeights(w))
    decreases |w|
  {
    if w == [] {
    } else {
      var n := |w| - 1;
      WeightOctets(w[..n]);
      PutsOctets(w[n].weight);
      PutsOctets(w[n].incr);
      OctetsJoin(PutWeights(w[..n]), Put32(w[n].weight));
      OctetsJoin(PutWeights(w[..n]) + Put32(w[n].weight), Put32(w[n].incr));
    }
  }

  lemma OctetsJoin(a: Packet, b: Packet)
    requires Octets(a) && Octets(b)
    ensures Octets(a + b)
  {
  }

  lemma HeaderOctets(h: Header)
    ensures Octets(PutHeader(h))
  {
    PutsOctets(h.version);
    PutsOctets(h.id);
    PutsOctets(h.op);
    PutsOctets(h.status);
    OctetsJoin(Put16(h.version), Put16(h.id));
    OctetsJoin(Put16(h.version) + Put16(h.id), Put16(h.op));
    OctetsJoin(Put16(h.version) + Put16(h.id) + Put16(h.op), Put16(h.status));
  }

  lemma TimeOctets(f: Fields)
    ensures Octets(PutTimes(f))
  {
    PutsOctets(f.bootTime);
    PutsOctets(f.currentTime);
    PutsOctets(f.userMtime);
    OctetsJoin(Put32(f.bootTime), Put32(f.currentTime));
    OctetsJoin(Put32(f.bootTime) + Put32(f.currentTime), Put32(f.userMtime));
  }

  lemma LoadOctets(f: Fields)
    ensures Octets(PutLoads(f))
  {
    PutsOctets(f.l1);
    PutsOctets(f.l5);
    PutsOctets(f.l15);
    PutsOctets(f.totUsers);
    PutsOctets(f.uniqUsers);
    OctetsJoin(Put16(f.l1), Put16(f.l5));
    OctetsJoin(Put16(f.l1) + Put16(f.l5), Put16(f.l15));
    OctetsJoin(Put16(f.totUsers), Put16(f.uniqUsers));
    OctetsJoin(Put16(f.l1) + Put16(f.l5) + Put16(f.l15), Put16(f.totUsers) + Put16(f.uniqUsers));
  }

  lemma FlagOctets(f: Fields)
    ensures var t := PutFlags(f);
            && |t| == 6 && Octets(t)
            && t[0] as int == f.onConsole && t[1] as int == f.reserved && t[2] as int == f.tmpFull
            && t[3] as int == f.tmpdirFull && t[4] as int == f.pad && t[5] as int == f.services
  {
  }

  lemma ReplyIsOctets(h: Header, f: Fields, w: seq<Weight>)
    ensures Octets(PutReply(h, f, w))
  {
    HeaderOctets(h);
    TimeOctets(f);
    LoadOctets(f);
    FlagOctets(f);
    WeightOctets(w);
    OctetsJoin(PutTimes(f), PutLoads(f));
    OctetsJoin(PutTimes(f) + PutLoads(f), PutFlags(f));
    OctetsJoin(PutHeader(h), PutFields(f));
    OctetsJoin(PutHeader(h) + PutFields(f), PutWeights(w));
  }

  /** The header at its octets. */
  lemma HeaderPlaced(p: Packet, h: Header)
    requires Octets(p) && |p| >= 8
    ensures GetHeader(p) == h
            <==> && NetworkOrder(p, 0, 2) == h.version && NetworkOrder(p, 2, 2) == h.id
                 && NetworkOrder(p, 4, 2) == h.op && NetworkOrder(p, 6, 2) == h.status
  {
    ReadsNetwork(p, 0);
    ReadsNetwork(p, 2);
    ReadsNetwork(p, 4);
    ReadsNetwork(p, 6);
  }

  /** The fields at their octets, the client's way of reading them. */
  lemma FieldOctets(p: Packet)
    requires Octets(p) && |p| >= 35
    ensures var f := GetFields(p);
            && f.bootTime == NetworkOrder(p, 8, 4) && f.currentTime == NetworkOrder(p, 12, 4)
            && f.userMtime == NetworkOrder(p, 16, 4)
            && f.l1 == NetworkOrder(p, 20, 2) && f.l5 == NetworkOrder(p, 22, 2) && f.l15 == NetworkOrder(p, 24, 2)
            && f.totUsers == NetworkOrder(p, 26, 2) && f.uniqUsers == NetworkOrder(p, 28, 2)
            && f.onConsole == p[30] as int && f.tmpFull == p[32] as int && f.tmpdirFull == p[33] as int
            && f.reserved == f.pad == 0 && f.services == if |p| > 35 then p[35] as int else 0
  {
    TimesAt(p);
    LoadsAt(p);
    ReadsNetwork(p, 30);
    ReadsNetwork(p, 32);
    ReadsNetwork(p, 33);
    if |p| > 35 { ReadsNetwork(p, 35); }
  }

  lemma TimesAt(p: Packet)
    requires Octets(p) && |p| >= 35
    ensures Get32(p, 8) == NetworkOrder(p, 8, 4) && Get32(p, 12) == NetworkOrder(p, 12, 4)
            && Get32(p, 16) == NetworkOrder(p, 16, 4)
  {
    ReadsNetwork(p, 8);
    ReadsNetwork(p, 12);
    ReadsNetwork(p, 16);
  }

  lemma LoadsAt(p: Packet)
    requires Octets(p) && |p| >= 35
    ensures Get16(p, 20) == NetworkOrder(p, 20, 2) && Get16(p, 22) == NetworkOrder(p, 22, 2)
            && Get16(p, 24) == NetworkOrder(p, 24, 2)
            && Get16(p, 26) == NetworkOrder(p, 26, 2) && Get16(p, 28) == NetworkOrder(p, 28, 2)
  {
    ReadsNetwork(p, 20);
    ReadsNetwork(p, 22);
    ReadsNetwork(p, 24);
    ReadsNetwork(p, 26);
    ReadsNetwork(p, 28);
  }

  lemma PairOctets(p: Packet, k: nat)
    requires Octets(p)
    ensures var pair, at := GetPair(p, k), 36 + 8 * k;
            && pair.weight == (if at + 4 <= |p| then Some(NetworkOrder(p, at, 4)) else None)
            && pair.incr == (if at + 8 <= |p| then Some(NetworkOrder(p, at + 4, 4)) else None)
  {
    var at := 36 + 8 * k;
    if at + 4 <= |p| { ReadsNetwork(p, at); }
    if at + 8 <= |p| { ReadsNetwork(p, at + 4); }
  }

  /** A reply on the wire: struct lbcd_reply in network order, and as many weights as there are. */
  lemma ReplyLayout(h: Header, f: Fields, w: seq<Weight>)
    ensures var p := PutReply(h, f, w);
            && |p| == 36 + 8 * |w| && Octets(p)
            && NetworkOrder(p, 0, 2) == h.version && NetworkOrder(p, 2, 2) == h.id
            && NetworkOrder(p, 4, 2) == h.op && NetworkOrder(p, 6, 2) == h.status
            && NetworkOrder(p, 8, 4) == f.bootTime && NetworkOrder(p, 12, 4) == f.currentTime
            && NetworkOrder(p, 16, 4) == f.userMtime
            && NetworkOrder(p, 20, 2) == f.l1 && NetworkOrder(p, 22, 2) == f.l5 && NetworkOrder(p, 24, 2) == f.l15
            && NetworkOrder(p, 26, 2) == f.totUsers && NetworkOrder(p, 28, 2) == f.uniqUsers
            && p[30] as int == f.onConsole && p[31] as int == f.reserved && p[32] as int == f.tmpFull
            && p[33] as int == f.tmpdirFull && p[34] as int == f.pad && p[35] as int == f.services
            && forall k :: 0 <= k < |w| ==>
                 NetworkOrder(p, 36 + 8 * k, 4) == w[k].weight && NetworkOrder(p, 40 + 8 * k, 4) == w[k].incr
  {
    var p := PutReply(h, f, w);
    ReplyIsOctets(h, f, w);
    ReplyHeader(h, f, w);
    HeaderPlaced(p, h);
    FieldsRead(h, f, w);
    FieldOctets(p);
    FieldsPlaced(h, f, w);
    FlagOctets(f);
    assert p[31] == p[30..36][1] && p[34] == p[30..36][4];
    forall k | 0 <= k < |w|
      ensures NetworkOrder(p, 36 + 8 * k, 4) == w[k].weight && NetworkOrder(p, 40 + 8 * k, 4) == w[k].incr
    {
      PairsRead(h, f, w, k);
      PairOctets(p, k);
    }
  }

  /** What the client makes of octets: the refusals in order, and where each field and pair is read. */
  lemma ReadMeans(p: Packet)
    requires Octets(p)
    ensures match Read(p)
            case WrongId(id) => |p| >= 4 && id == NetworkOrder(p, 2, 2) != 0
            case WrongOp(op) =>
              && (|p| < 4 || NetworkOrder(p, 2, 2) == 0)
              && (if |p| < 6 then op == None else op == Some(NetworkOrder(p, 4, 2)) && op.value != 1)
            case ErrorReply(status) =>
              && |p| >= 6 && NetworkOrder(p, 2, 2) == 0 && NetworkOrder(p, 4, 2) == 1
              && (if |p| < 8 then status == None else status == Some(NetworkOrder(p, 6, 2)) && status.value != 1)
            case BadUnpack =>
              8 <= |p| < 35 && NetworkOrder(p, 2, 2) == 0 && NetworkOrder(p, 4, 2) == NetworkOrder(p, 6, 2) == 1
            case GoodReply(version, f, services) =>
              && |p| >= 35 && NetworkOrder(p, 2, 2) == 0 && NetworkOrder(p, 4, 2) == NetworkOrder(p, 6, 2) == 1
              && version == NetworkOrder(p, 0, 2) && f == GetFields(p)
              && (if version == 3 then services.Pairs? && |services.pairs| == f.services + 1
                     && forall k :: 0 <= k <= f.services ==> services.pairs[k] == GetPair(p, k)
                  else services == ServiceCount(if |p| > 35 then Some(p[35] as int) else None))
  {
    if |p| >= 2 { ReadsNetwork(p, 0); }
    if |p| >= 4 { ReadsNetwork(p, 2); }
    if |p| >= 6 { ReadsNetwork(p, 4); }
    if |p| >= 8 { ReadsNetwork(p, 6); }
    if |p| >= 35 { FieldOctets(p); }
  }

  lemma StatusLayout(h: Header)
    ensures var a := PutHeader(h);
            && |a| == 8 && NetworkOrder(a, 0, 2) == h.version && NetworkOrder(a, 2, 2) == h.id
            && NetworkOrder(a, 4, 2) == h.op && NetworkOrder(a, 6, 2) == h.status
  {
    HeaderOctets(h);
    HeaderAlone(h);
    HeaderPlaced(PutHeader(h), h);
  }

  /** An answer without weights: protocol 3, the id and operation of the datagram, and a status. */
  predicate StatusOnly(a: Packet, p: Packet, status: nat)
    requires |p| >= 8
  {
    && |a| == 8 && NetworkOrder(a, 0, 2) == 3 && NetworkOrder(a, 6, 2) == status
    && NetworkOrder(a, 2, 2) == NetworkOrder(p, 2, 2) && NetworkOrder(a, 4, 2) == NetworkOrder(p, 4, 2)
  }

  /** The answer on the octets: none, a status of 2, 3 or 5, or a reply with status 1 and the weights asked for. */
  lemma AnswerMeans(allowed: seq<seq<char>>, m: Machine, p: Packet)
    requires Octets(p)
    ensures var received, answer := Receive(allowed, p), Answer(allowed, m, p);
            match received
            case Dropped => !Sized(p) && answer == None
            case Refused(_) =>
              Sized(p) && answer.Some?
              && StatusOnly(answer.value, p, if NetworkOrder(p, 0, 2) == 2 || NetworkOrder(p, 0, 2) == 3 then 2 else 3)
            case Accepted(r) =>
              && Sized(p) && answer.Some?
              && if NetworkOrder(p, 4, 2) != 1 then StatusOnly(answer.value, p, 5)
                 else OkReplies(answer.value, p, m, r.services)
  {
    ReceiveMeans(allowed, p);
    match Receive(allowed, p)
    case Dropped =>
    case Refused(h) => StatusLayout(h);
    case Accepted(r) =>
      if r.operation == 1 {
        ServedReplies(m, r, p);
      } else {
        StatusLayout(Header(3, r.id, r.operation, 5));
      }
  }

  /** The machine's figures in a reply to n services; in protocol 2 the weight for the loads, and no users. */
  predicate FiguresSent(f: Fields, m: Machine, protocol: nat, n: nat, weight: u32) {
    && f.bootTime == m.fields.bootTime && f.currentTime == m.fields.currentTime && f.userMtime == m.fields.userMtime
    && f.onConsole == m.fields.onConsole && f.tmpFull == m.fields.tmpFull && f.tmpdirFull == m.fields.tmpdirFull
    && f.reserved == f.pad == 0 && f.services == n
    && if protocol < 3 && !m.simple then
         && f.l1 == f.l5 == f.l15 == (if weight < 0x1_0000 then weight else 0xffff)
         && f.totUsers == f.uniqUsers == 0
       else
         && f.l1 == m.fields.l1 && f.l5 == m.fields.l5 && f.l15 == m.fields.l15
         && f.totUsers == m.fields.totUsers && f.uniqUsers == m.fields.uniqUsers
  }

  /** A reply: the version, id and operation of the datagram, status 1, the figures and the weights. */
  ghost predicate Replies(a: Packet, p: Packet, f: Fields, w: seq<Weight>)
    requires |p| >= 8
  {
    && |a| == 36 + 8 * |w| && NetworkOrder(a, 6, 2) == 1
    && NetworkOrder(a, 0, 2) == NetworkOrder(p, 0, 2) && NetworkOrder(a, 2, 2) == NetworkOrder(p, 2, 2)
    && NetworkOrder(a, 4, 2) == NetworkOrder(p, 4, 2)
    && FieldsAt(a, f)
    && forall k :: 0 <= k < |w| ==>
         NetworkOrder(a, 36 + 8 * k, 4) == w[k].weight && NetworkOrder(a, 40 + 8 * k, 4) == w[k].incr
  }

  predicate FieldsAt(a: Packet, f: Fields)
    requires |a| >= 36
  {
    && NetworkOrder(a, 8, 4) == f.bootTime && NetworkOrder(a, 12, 4) == f.currentTime
    && NetworkOrder(a, 16, 4) == f.userMtime
    && NetworkOrder(a, 20, 2) == f.l1 && NetworkOrder(a, 22, 2) == f.l5 && NetworkOrder(a, 24, 2) == f.l15
    && NetworkOrder(a, 26, 2) == f.totUsers && NetworkOrder(a, 28, 2) == f.uniqUsers
    && a[30] as int == f.onConsole && a[31] as int == f.reserved && a[32] as int == f.tmpFull
    && a[33] as int == f.tmpdirFull && a[34] as int == f.pad && a[35] as int == f.services
  }

  /** The answer to a request that is served. */
  ghost predicate OkReplies(a: Packet, p: Packet, m: Machine, services: seq<seq<char>>)
    requires |p| >= 8
  {
    var w := WeightsFor(m, services);
    exists f :: Replies(a, p, f, w) && FiguresSent(f, m, NetworkOrder(p, 0, 2), |services|, w[0].weight)
  }

  lemma FiguresDue(m: Machine, protocol: u16, n: nat, weight: u32)
    requires n <= 5
    ensures FiguresSent(FieldsFor(m, protocol, n, weight), m, protocol, n, weight)
  {
  }

  lemma ServedReplies(m: Machine, r: Request, p: Packet)
    requires |p| >= 8 && |r.services| <= 5
    requires r.protocol == NetworkOrder(p, 0, 2) && r.id == NetworkOrder(p, 2, 2)
    requires r.operation == NetworkOrder(p, 4, 2)
    ensures OkReplies(OkReply(m, r), p, m, r.services)
  {
    var w := WeightsFor(m, r.services);
    var f := FieldsFor(m, r.protocol, |r.services|, w[0].weight);
    ReplyLayout(Header(r.protocol, r.id, r.operation, 1), f, w);
    FiguresDue(m, r.protocol, |r.services|, w[0].weight);
    assert Replies(OkReply(m, r), p, f, w);
  }

  /** A query on the wire: protocol, id 0, operation 1, the count, and each name in 32 octets, padded with nuls. */
  lemma QueryLayout(protocol: u16, services: seq<seq<char>>)
    requires Query(protocol, services).Some?
    ensures var p := Query(protocol, services).value;
            && |p| == 8 + 32 * |services|
            && NetworkOrder(p, 0, 2) == protocol && NetworkOrder(p, 2, 2) == 0
            && NetworkOrder(p, 4, 2) == 1 && NetworkOrder(p, 6, 2) == |services|
            && forall k, i :: 0 <= k < |services| && 0 <= i < 32 ==>
                 p[8 + 32 * k..40 + 32 * k][i] == if i < |services[k]| then services[k][i] else '\0'
  {
    var h := Header(protocol, 0, LBCD_OP_LBINFO, |services|);
    var p := PutHeader(h) + PutNames(services);
    StatusLayout(h);
    HeaderStays(PutHeader(h), PutNames(services));
    forall k | 0 <= k < |services|
      ensures p[8 + 32 * k..40 + 32 * k] == PutName(services[k])
    {
      SlotAt(services, k);
      SliceRight(PutHeader(h), PutNames(services), 32 * k, 32 * (k + 1));
    }
  }

  lemma HeaderStays(h: Packet, more: Packet)
    requires |h| == 8
    ensures var p := h + more;
            && NetworkOrder(p, 0, 2) == NetworkOrder(h, 0, 2) && NetworkOrder(p, 2, 2) == NetworkOrder(h, 2, 2)
            && NetworkOrder(p, 4, 2) == NetworkOrder(h, 4, 2) && NetworkOrder(p, 6, 2) == NetworkOrder(h, 6, 2)
  {
    NetworkPairs(h);
    NetworkPairs(h + more);
  }

  lemma NetworkPairs(p: Packet)
    requires |p| >= 8
    ensures forall i :: i in {0, 2, 4, 6} ==> NetworkOrder(p, i, 2) == p[i] as int * 0x100 + p[i + 1] as int
  {
    NetworkPair(p, 0);
    NetworkPair(p, 2);
    NetworkPair(p, 4);
    NetworkPair(p, 6);
  }
}
