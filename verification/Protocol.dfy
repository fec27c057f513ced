/** The lbcd wire format: octet strings, with octets as characters below 256, in network order. */
module Protocol {
  import opened Common
  import opened CStrings

  const LBCD_MAXMESG := 2048
  const LBCD_MAX_SERVICES := 5
  const LBCD_VERSION := 3
  const LBCD_OP_LBINFO := 1
  const HEADER_SIZE := 8
  const NAME_SIZE := 32
  const REPLY_FIXED := 36

  datatype Status = StatusOk | StatusError | StatusVersion | StatusUnknownOp

  function StatusCode(s: Status): u16 {
    match s
    case StatusOk => 1
    case StatusError => 2
    case StatusVersion => 3
    case StatusUnknownOp => 5
  }

  type Packet = seq<char>

  lemma SliceLeft(a: Packet, b: Packet, i: nat, j: nat)
    requires i <= j <= |a|
    ensures (a + b)[i..j] == a[i..j]
  {
    forall k | 0 <= k < j - i ensures (a + b)[i..j][k] == a[i..j][k] { }
  }

  lemma SliceRight(a: Packet, b: Packet, i: nat, j: nat)
    requires i <= j <= |b|
    ensures (a + b)[|a| + i..|a| + j] == b[i..j]
  {
    forall k | 0 <= k < j - i ensures (a + b)[|a| + i..|a| + j][k] == b[i..j][k] { }
  }

  lemma SliceWithin(p: Packet, a: nat, b: nat, i: nat, j: nat)
    requires a <= b <= |p| && i <= j <= b - a
    ensures p[a..b][i..j] == p[a + i..a + j]
  {
    forall k | 0 <= k < j - i ensures p[a..b][i..j][k] == p[a + i..a + j][k] { }
  }

  function Octet(n: int): char
    requires 0 <= n < 0x100
  {
    n as char
  }

  function Put16(n: u16): Packet { [Octet(n / 0x100), Octet(n % 0x100)] }

  function Put32(n: u32): Packet {
    Put16(n / 0x1_0000) + Put16(n % 0x1_0000)
  }

  /** The octet at i, reduced to eight bits. */
  function Get8(p: Packet, i: nat): byte
    requires i < |p|
  {
    p[i] as int % 0x100
  }

  function Get16(p: Packet, i: nat): u16
    requires i + 2 <= |p|
  {
    Get8(p, i) * 0x100 + Get8(p, i + 1)
  }

  function Get32(p: Packet, i: nat): u32
    requires i + 4 <= |p|
  {
    Get16(p, i) * 0x1_0000 + Get16(p, i + 2)
  }

  lemma Reads16(p: Packet, i: nat, n: u16)
    requires i + 2 <= |p| && p[i..i + 2] == Put16(n)
    ensures Get16(p, i) == n
  {
    assert p[i] == p[i..i + 2][0] && p[i + 1] == p[i..i + 2][1];
  }

  lemma Reads32(p: Packet, i: nat, n: u32)
    requires i + 4 <= |p| && p[i..i + 4] == Put32(n)
    ensures Get32(p, i) == n
  {
    var q, high, low := p[i..i + 4], n / 0x1_0000, n % 0x1_0000;
    assert p[i..i + 2] == q[..2] == Put16(high) && p[i + 2..i + 4] == q[2..] == Put16(low);
    Reads16(p, i, high);
    Reads16(p, i + 2, low);
  }

  /** The four header fields every packet starts with. */
  datatype Header = Header(version: u16, id: u16, op: u16, status: u16)

  function PutHeader(h: Header): (p: Packet)
    ensures |p| == HEADER_SIZE
  {
    Put16(h.version) + Put16(h.id) + Put16(h.op) + Put16(h.status)
  }

  function GetHeader(p: Packet): Header
    requires |p| >= HEADER_SIZE
  {
    Header(Get16(p, 0), Get16(p, 2), Get16(p, 4), Get16(p, 6))
  }

  lemma HeaderReads(h: Header, rest: Packet)
    ensures GetHeader(PutHeader(h) + rest) == h
  {
    var p := PutHeader(h) + rest;
    assert p[0..2] == Put16(h.version) && p[2..4] == Put16(h.id) && p[4..6] == Put16(h.op)
        && p[6..8] == Put16(h.status);
    Reads16(p, 0, h.version);
    Reads16(p, 2, h.id);
    Reads16(p, 4, h.op);
    Reads16(p, 6, h.status);
  }

  /** A name in its 32-octet slot, padded with nuls. */
  function PutName(name: seq<char>): (p: Packet)
    ensures |p| == NAME_SIZE
  {
    seq(NAME_SIZE, i => if 0 <= i < |name| then name[i] else '\0')
  }

  function PutNames(names: seq<seq<char>>): (p: Packet)
    ensures |p| == NAME_SIZE * |names|
  {
    if names == [] then [] else PutNames(names[..|names| - 1]) + PutName(names[|names| - 1])
  }

  /** xstrndup of slot i: up to a nul, at most the slot. */
  function GetName(p: Packet, i: nat): seq<char>
    requires HEADER_SIZE + NAME_SIZE * (i + 1) <= |p|
  {
    CStr(p[HEADER_SIZE + NAME_SIZE * i..HEADER_SIZE + NAME_SIZE * (i + 1)], 0)
  }

  lemma NameReads(name: seq<char>)
    requires |name| < NAME_SIZE && '\0' !in name
    ensures CStr(PutName(name), 0) == name
  {
    var p := PutName(name);
    assert p[0..0 + |name|] == name;
    CStrIs(p, 0, |name|);
  }

  /** Each slot holds its name, whatever precedes and follows. */
  lemma NamesRead(header: Packet, names: seq<seq<char>>, i: nat)
    requires |header| == HEADER_SIZE && i < |names| && |names[i]| < NAME_SIZE && '\0' !in names[i]
    ensures GetName(header + PutNames(names), i) == names[i]
  {
    SlotAt(names, i);
    SliceRight(header, PutNames(names), NAME_SIZE * i, NAME_SIZE * (i + 1));
    NameReads(names[i]);
  }

  lemma {:induction false} SlotAt(names: seq<seq<char>>, i: nat)
    requires i < |names|
    ensures PutNames(names)[NAME_SIZE * i..NAME_SIZE * (i + 1)] == PutName(names[i])
    decreases |names|
  {
    var n := |names| - 1;
    if i >= n {
    } else {
      SlotAt(names[..n], i);
      SliceLeft(PutNames(names[..n]), PutName(names[n]), NAME_SIZE * i, NAME_SIZE * (i + 1));
    }
  }

  // ---- The reply

  /** Everything in a reply between the header and the weights. */
  datatype Fields = Fields(bootTime: u32, currentTime: u32, userMtime: u32, l1: u16, l5: u16, l15: u16,
                           totUsers: u16, uniqUsers: u16, onConsole: byte, reserved: byte,
                           tmpFull: byte, tmpdirFull: byte, pad: byte, services: byte)

  datatype Weight = Weight(weight: u32, incr: u32)

  /** The layout of struct lbcd_reply after its header: times, loads and users, flags. */
  function PutFields(f: Fields): (p: Packet)
    ensures |p| == REPLY_FIXED - HEADER_SIZE
  {
    PutTimes(f) + PutLoads(f) + PutFlags(f)
  }

  function PutTimes(f: Fields): (p: Packet)
    ensures |p| == 12
    ensures p[0..4] == Put32(f.bootTime) && p[4..8] == Put32(f.currentTime) && p[8..12] == Put32(f.userMtime)
  {
    Put32(f.bootTime) + Put32(f.currentTime) + Put32(f.userMtime)
  }

  function PutLoads(f: Fields): (p: Packet)
    ensures |p| == 10
    ensures p[0..2] == Put16(f.l1) && p[2..4] == Put16(f.l5) && p[4..6] == Put16(f.l15)
    ensures p[6..8] == Put16(f.totUsers) && p[8..10] == Put16(f.uniqUsers)
  {
    var loads := Put16(f.l1) + Put16(f.l5) + Put16(f.l15);
    var users := Put16(f.totUsers) + Put16(f.uniqUsers);
    SliceLeft(loads, users, 0, 2);
    SliceLeft(loads, users, 2, 4);
    SliceLeft(loads, users, 4, 6);
    SliceRight(loads, users, 0, 2);
    SliceRight(loads, users, 2, 4);
    loads + users
  }

  function PutFlags(f: Fields): Packet {
    [Octet(f.onConsole), Octet(f.reserved), Octet(f.tmpFull), Octet(f.tmpdirFull), Octet(f.pad), Octet(f.services)]
  }

  function PutWeights(w: seq<Weight>): (p: Packet)
    ensures |p| == 8 * |w|
  {
    if w == [] then []
    else PutWeights(w[..|w| - 1]) + Put32(w[|w| - 1].weight) + Put32(w[|w| - 1].incr)
  }

  function PutReply(h: Header, f: Fields, w: seq<Weight>): (p: Packet)
    ensures |p| == REPLY_FIXED + 8 * |w|
  {
    PutHeader(h) + PutFields(f) + PutWeights(w)
  }

  lemma {:induction false} WeightAt(w: seq<Weight>, i: nat)
    requires i < |w|
    ensures PutWeights(w)[8 * i..8 * i + 4] == Put32(w[i].weight)
            && PutWeights(w)[8 * i + 4..8 * i + 8] == Put32(w[i].incr)
    decreases |w|
  {
    var n := |w| - 1;
    if i >= n {
    } else {
      WeightAt(w[..n], i);
      var before, last := PutWeights(w[..n]), Put32(w[n].weight) + Put32(w[n].incr);
      assert PutWeights(w) == before + last;
      SliceLeft(before, last, 8 * i, 8 * i + 4);
      SliceLeft(before, last, 8 * i + 4, 8 * i + 8);
    }
  }

  lemma {:induction false} WeightsPrefix(w: seq<Weight>, n: nat)
    requires n <= |w|
    ensures PutWeights(w)[..8 * n] == PutWeights(w[..n])
    decreases |w|
  {
    if n == |w| {
      assert w[..n] == w;
    } else {
      var t := w[..|w| - 1];
      WeightsPrefix(t, n);
      assert t[..n] == w[..n];
      var last := Put32(w[|w| - 1].weight) + Put32(w[|w| - 1].incr);
      assert PutWeights(w) == PutWeights(t) + last;
      SliceLeft(PutWeights(t), last, 0, 8 * n);
    }
  }

  /** Sending fewer octets drops the unused weight slots. */
  lemma ReplyPrefix(h: Header, f: Fields, w: seq<Weight>, n: nat)
    requires n <= |w|
    ensures PutReply(h, f, w)[..REPLY_FIXED + 8 * n] == PutReply(h, f, w[..n])
  {
    WeightsPrefix(w, n);
    var start := PutHeader(h) + PutFields(f);
    assert (start + PutWeights(w))[..REPLY_FIXED + 8 * n] == start + PutWeights(w)[..8 * n];
  }

  lemma HeaderAlone(h: Header)
    ensures GetHeader(PutHeader(h)) == h
  {
    HeaderReads(h, []);
    assert PutHeader(h) + [] == PutHeader(h);
  }

  lemma ReplyHeader(h: Header, f: Fields, w: seq<Weight>)
    ensures GetHeader(PutReply(h, f, w)) == h
  {
    HeaderReads(h, PutFields(f) + PutWeights(w));
    assert PutReply(h, f, w) == PutHeader(h) + (PutFields(f) + PutWeights(w));
  }

  // ---- The layout, octet by octet

  /** n octets from i on as one number, the first the most significant. */
  function NetworkOrder(p: Packet, i: nat, n: nat): nat
    requires i + n <= |p|
  {
    if n == 0 then 0 else NetworkOrder(p, i, n - 1) * 0x100 + p[i + n - 1] as int
  }

  predicate Octets(p: Packet) { forall i :: 0 <= i < |p| ==> p[i] as int < 0x100 }

  /** What is read at a place is the number in network order there. */
  lemma ReadsNetwork(p: Packet, i: nat)
    requires Octets(p) && i < |p|
    ensures Get8(p, i) == p[i] as int
    ensures i + 2 <= |p| ==> Get16(p, i) == NetworkOrder(p, i, 2)
    ensures i + 4 <= |p| ==> Get32(p, i) == NetworkOrder(p, i, 4)
  {
    if i + 2 <= |p| {
      NetworkPair(p, i);
      if i + 4 <= |p| {
        NetworkPair(p, i + 2);
        assert NetworkOrder(p, i, 4) == NetworkOrder(p, i, 3) * 0x100 + p[i + 3] as int;
        assert NetworkOrder(p, i, 3) == NetworkOrder(p, i, 2) * 0x100 + p[i + 2] as int;
      }
    }
  }

  lemma NetworkPair(p: Packet, i: nat)
    requires i + 2 <= |p|
    ensures NetworkOrder(p, i, 2) == p[i] as int * 0x100 + p[i + 1] as int
  {
    assert NetworkOrder(p, i, 1) == NetworkOrder(p, i, 0) * 0x100 + p[i] as int;
  }

  lemma PutsOctets(n: u32)
    ensures Octets(Put32(n)) && (n < 0x1_0000 ==> Octets(Put16(n)))
  {
    ShortOctets(n / 0x1_0000);
    ShortOctets(n % 0x1_0000);
  }

  lemma ShortOctets(n: u16)
    ensures Octets(Put16(n))
  {
    assert Put16(n)[0] as int == n / 0x100 && Put16(n)[1] as int == n % 0x100;
  }
}
