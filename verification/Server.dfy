/** The lbcd request path: receive and check, dispatch weights, fill and send the reply. */
module Server {
  import opened Common
  import opened CStrings
  import opened Protocol

  // ---- Requests

  datatype Request = Request(protocol: u16, id: u16, operation: u16, services: seq<seq<char>>)

  /** A datagram is dropped, refused with a status, or becomes a request. */
  datatype Received = Dropped | Refused(header: Header) | Accepted(request: Request)

  predicate IsCmd(service: seq<char>) { service == "cmd" || (|service| >= 4 && service[..4] == "cmd:") }

  /** The default service always, cmd never, others when configured. */
  predicate Allowed(allowed: seq<seq<char>>, service: seq<char>) {
    service == "default" || (!IsCmd(service) && service in allowed)
  }

  /** service_allowed */
  method ServiceAllowed(allowed: seq<seq<char>>, service: seq<char>) returns (r: bool)
    ensures r == Allowed(allowed, service)
    ensures r <==> service == "default" || (service != "cmd" && !("cmd:" <= service) && service in allowed)
  {
    if service == "default" { return true; }
    if service == "cmd" || (|service| >= 4 && service[..4] == "cmd:") { return false; }
    for i := 0 to |allowed|
      invariant service !in allowed[..i]
    {
      if allowed[i] == service { return true; }
      assert allowed[..i + 1] == allowed[..i] + [allowed[i]];
    }
    assert allowed[..|allowed|] == allowed;
    r := false;
  }

  function StatusHeader(h: Header, s: Status): Header { Header(LBCD_VERSION, h.id, h.op, StatusCode(s)) }

  /** The exact size a request must have; protocol 3 carries its service names. */
  predicate RightSize(p: Packet) {
    && |p| >= HEADER_SIZE
    && var h := GetHeader(p);
       if h.version == 3 then h.status <= LBCD_MAX_SERVICES && |p| == HEADER_SIZE + NAME_SIZE * h.status
       else |p| == HEADER_SIZE
  }

  /** The names a request carries. */
  function NamesOf(p: Packet): (names: seq<seq<char>>)
    requires RightSize(p)
    ensures |names| <= LBCD_MAX_SERVICES
  {
    var h := GetHeader(p);
    if h.version == 3 then seq(h.status, i requires 0 <= i < h.status => GetName(p, i)) else []
  }

  /** What becomes of a datagram. */
  function Receive(allowed: seq<seq<char>>, p: Packet): Received {
    if !RightSize(p) then Dropped
    else
      var h := GetHeader(p);
      if h.version != 2 && h.version != 3 then Refused(StatusHeader(h, StatusVersion))
      else if exists k :: 0 <= k < |NamesOf(p)| && !Allowed(allowed, NamesOf(p)[k])
          then Refused(StatusHeader(h, StatusError))
      else Accepted(Request(h.version, h.id, h.op, NamesOf(p)))
  }

  /** request_recv: at most 2048 octets are read. */
  method RequestRecv(allowed: seq<seq<char>>, datagram: Packet) returns (r: Received)
    ensures r == Receive(allowed, if |datagram| > 2048 then datagram[..2048] else datagram)
  {
    var raw := if |datagram| > LBCD_MAXMESG then datagram[..LBCD_MAXMESG] else datagram;
    if |raw| < HEADER_SIZE { return Dropped; }
    var h := GetHeader(raw);
    var expected := HEADER_SIZE;
    if h.version == 3 {
      if h.status > LBCD_MAX_SERVICES { return Dropped; }
      expected := expected + h.status * NAME_SIZE;
    }
    if |raw| != expected { return Dropped; }
    if h.version != 2 && h.version != 3 { return Refused(StatusHeader(h, StatusVersion)); }
    var ok, services := RequestServices(allowed, raw);
    if !ok { return Refused(StatusHeader(h, StatusError)); }
    r := Accepted(Request(h.version, h.id, h.op, services));
  }

  /** The loop over the names of a version 3 request, until one is not allowed. */
  method RequestServices(allowed: seq<seq<char>>, raw: Packet) returns (ok: bool, services: seq<seq<char>>)
    requires RightSize(raw)
    ensures ok <==> forall k :: 0 <= k < |NamesOf(raw)| ==> Allowed(allowed, NamesOf(raw)[k])
    ensures ok ==> services == NamesOf(raw)
  {
    var h := GetHeader(raw);
    services := [];
    if h.version == 3 {
      for i := 0 to h.status
        invariant services == NamesOf(raw)[..i]
        invariant forall k :: 0 <= k < i ==> Allowed(allowed, NamesOf(raw)[k])
      {
        var service := GetName(raw, i);
        assert service == NamesOf(raw)[i];
        ok := ServiceAllowed(allowed, service);
        if !ok { return; }
        services := services + [service];
      }
    }
    ok := true;
  }

  // ---- Weights

  const TABLE: seq<seq<char>> :=
    ["load", "cmd", "rr", "unknown", "ftp", "http", "imap", "ldap", "nntp", "ntp", "pop", "smtp", "tcp"]

  /** The text before the first c, and what follows it. */
  function Before(s: seq<char>, c: char): (r: seq<char>)
    ensures |r| <= |s| && r == s[..|r|] && c !in r && (|r| < |s| ==> s[|r|] == c)
  {
    if s == [] || s[0] == c then [] else [s[0]] + Before(s[1..], c)
  }

  /** strchr and step over it */
  function After(s: seq<char>, c: char): Option<seq<char>> {
    var n := |Before(s, c)|;
    if n < |s| then Some(s[n + 1..]) else None
  }

  /** The table entry for a service: the default one, the one named before a colon, or unknown. */
  function Entry(service: seq<char>, defaultEntry: seq<char>): seq<char> {
    if service == "default" then defaultEntry
    else
      var name := Before(Copied(service), ':');
      if name in TABLE then name else "unknown"
  }

  /** service_to_func: copy into a name buffer, cut at the colon, scan the table. */
  method ServiceToFunc(service: seq<char>, defaultEntry: seq<char>) returns (entry: seq<char>)
    requires '\0' !in service
    ensures entry == Entry(service, defaultEntry)
  {
    if service == "default" { return defaultEntry; }
    var name := ServiceName(service);
    for i := 0 to |TABLE|
      invariant name !in TABLE[..i]
    {
      if name == TABLE[i] { return TABLE[i]; }
      assert TABLE[..i + 1] == TABLE[..i] + [TABLE[i]];
    }
    assert TABLE[..|TABLE|] == TABLE;
    entry := "unknown";
  }

  /** The copy that fits the name buffer. */
  function Copied(service: seq<char>): seq<char> {
    if |service| > NAME_SIZE - 1 then service[..NAME_SIZE - 1] else service
  }

  method ServiceName(service: seq<char>) returns (name: seq<char>)
    requires '\0' !in service
    ensures name == Before(Copied(service), ':')
  {
    var buffer := new char[NAME_SIZE];
    var length := Strlcpy(buffer, service, NAME_SIZE);
    ghost var copied := Copied(service);
    assert forall k :: 0 <= k < |copied| ==> buffer[k] == copied[k] && copied[k] != '\0';
    var n := 0;
    while buffer[n] != '\0' && buffer[n] != ':'
      invariant 0 <= n <= |copied| && ':' !in copied[..n]
      decreases |copied| - n
    {
      assert copied[..n + 1] == copied[..n] + [copied[n]];
      n := n + 1;
    }
    BeforeIs(copied, ':', n);
    name := buffer[..n];
    assert name == copied[..n];
  }

  lemma {:induction false} BeforeIs(s: seq<char>, c: char, n: nat)
    requires n <= |s| && c !in s[..n] && (n == |s| || s[n] == c)
    ensures Before(s, c) == s[..n]
    decreases n
  {
    if n == 0 {
    } else {
      assert s[0] == s[..n][0] && s[1..][..n - 1] == s[..n][1..];
      BeforeIs(s[1..], c, n - 1);
    }
  }

  /** Only the names that service_allowed refuses, and the default, can reach the cmd entry. */
  lemma CmdEntry(service: seq<char>, defaultEntry: seq<char>)
    requires Entry(service, defaultEntry) == "cmd"
    ensures if service == "default" then defaultEntry == "cmd" else IsCmd(service)
  {
    if service != "default" {
      var copied := Copied(service);
      var name := Before(copied, ':');
      assert name == copied[..3];
      if |copied| > 3 {
        assert service[..4] == copied[..4] == name + [copied[3]];
      }
    }
  }

  /**
   The rest of the machine, for one request: times, loads, users and disks as they go into the
   reply, whether the sentinel file exists, the entry behind the default service, and the weight
   and increment each entry yields for a port.
   */
  datatype Machine = Machine(fields: Fields, sentinel: bool, simple: bool, defaultEntry: seq<char>,
                             weigh: (seq<char>, Option<seq<char>>) -> Weight)

  const MAX_WEIGHT: u32 := 0xffff_ffff

  /** A weight function run for slot `offset` of a reply: for which service, which entry, and the port given. */
  datatype Call = Call(offset: nat, service: seq<char>, entry: seq<char>, port: Option<seq<char>>)

  /** lbcd_setweight: the port comes from the entry's own name for the default service. */
  function CallFor(m: Machine, offset: nat, service: seq<char>): Call {
    var entry := Entry(service, m.defaultEntry);
    Call(offset, service, entry, After(if service == "default" then entry else service, ':'))
  }

  function WeightFor(m: Machine, service: seq<char>): Weight {
    var call := CallFor(m, 0, service);
    m.weigh(call.entry, call.port)
  }

  /** The weight function run for slot k: the default, then the services asked for. */
  function SlotCall(m: Machine, services: seq<seq<char>>, k: nat): Call
    requires k <= |services|
  {
    CallFor(m, k, if k == 0 then "default" else services[k - 1])
  }

  /** The weight functions run for a reply, in order. */
  function CallsFor(m: Machine, services: seq<seq<char>>): (r: seq<Call>)
    ensures |r| == |services| + 1 && forall k :: 0 <= k < |r| ==> r[k] == SlotCall(m, services, k)
  {
    seq(|services| + 1, k requires 0 <= k <= |services| => SlotCall(m, services, k))
  }

  function Overridden(m: Machine, w: Weight): Weight { if m.sentinel then w.(weight := MAX_WEIGHT) else w }

  /** The weight in slot k of a reply; only the default gives way to the sentinel. */
  function SlotWeight(m: Machine, services: seq<seq<char>>, k: nat): Weight
    requires k <= |services|
  {
    if k == 0 then Overridden(m, WeightFor(m, "default")) else WeightFor(m, services[k - 1])
  }

  /** The weights of a reply: the default, then one for each service asked for, in order. */
  function WeightsFor(m: Machine, services: seq<seq<char>>): (w: seq<Weight>)
    ensures |w| == |services| + 1 && forall k :: 0 <= k < |w| ==> w[k] == SlotWeight(m, services, k)
  {
    seq(|services| + 1, k requires 0 <= k <= |services| => SlotWeight(m, services, k))
  }

  /** What a version 2 client is told: its loads carry the weight, and it sees no users. */
  function ForVersion2(f: Fields, weight: u32): Fields {
    var w := if weight > 0xffff then 0xffff else weight;
    f.(l1 := w, l5 := w, l15 := w, totUsers := 0, uniqUsers := 0)
  }

  function FieldsFor(m: Machine, protocol: u16, services: nat, weight: u32): Fields
    requires services <= LBCD_MAX_SERVICES
  {
    var f := m.fields.(reserved := 0, pad := 0, services := services);
    if !m.simple && protocol < 3 then ForVersion2(f, weight) else f
  }

  ghost predicate LogFilled(called: seq<Call>, m: Machine, services: seq<seq<char>>, n: nat)
    requires n <= |services|
  {
    |called| == n + 1 && forall k :: 0 <= k <= n ==> called[k] == SlotCall(m, services, k)
  }

  ghost predicate SlotsFilled(weights: seq<Weight>, m: Machine, services: seq<seq<char>>, n: nat)
    requires n <= |services|
  {
    n < |weights| && forall k :: 0 <= k <= n ==> weights[k] == SlotWeight(m, services, k)
  }

  lemma LogSnoc(called: seq<Call>, m: Machine, services: seq<seq<char>>, n: nat)
    requires n < |services| && LogFilled(called, m, services, n)
    ensures LogFilled(called + [CallFor(m, n + 1, services[n])], m, services, n + 1)
  {
    var longer := called + [CallFor(m, n + 1, services[n])];
    forall k | 0 <= k <= n + 1
      ensures longer[k] == SlotCall(m, services, k)
    {
      if k <= n { assert longer[k] == called[k]; }
    }
  }

  lemma SlotsSnoc(before: seq<Weight>, after: seq<Weight>, m: Machine, services: seq<seq<char>>, n: nat)
    requires n < |services| && SlotsFilled(before, m, services, n)
    requires n + 1 < |after| == |before| && after[n + 1] == WeightFor(m, services[n])
    requires forall k :: 0 <= k <= n ==> after[k] == before[k]
    ensures SlotsFilled(after, m, services, n + 1)
  {
    forall k | 0 <= k <= n + 1
      ensures after[k] == SlotWeight(m, services, k)
    {
      if k <= n { assert before[k] == SlotWeight(m, services, k); }
    }
  }

  /** struct lbcd_reply while it is filled in; `called` logs every weight function that runs. */
  class Reply {
    var fields: Fields
    var weights: array<Weight>
    var called: seq<Call>

    ghost predicate Valid()
      reads this
    {
      weights.Length == LBCD_MAX_SERVICES + 1
    }

    /** The weights and the log agree with the default and the first n services asked for. */
    ghost predicate FilledTo(m: Machine, services: seq<seq<char>>, n: nat)
      requires n <= |services|
      reads this, weights
    {
      LogFilled(called, m, services, n) && SlotsFilled(weights[..], m, services, n)
    }

    constructor (fields: Fields)
      ensures Valid() && fresh(weights) && called == []
    {
      this.fields := fields;
      weights := new Weight[LBCD_MAX_SERVICES + 1](_ => Weight(0, 0));
      called := [];
    }

    /** Run a weight function, and nothing else runs one: its result goes into the slot, the call into the log. */
    method RunWeight(m: Machine, call: Call)
      requires Valid() && call.offset <= LBCD_MAX_SERVICES
      modifies this`called, weights
      ensures called == old(called) + [call]
      ensures weights[call.offset] == m.weigh(call.entry, call.port)
      ensures forall k :: 0 <= k < weights.Length && k != call.offset ==> weights[k] == old(weights[k])
    {
      called := called + [call];
      weights[call.offset] := m.weigh(call.entry, call.port);
    }

    /** lbcd_setweight */
    method SetWeight(m: Machine, offset: nat, service: seq<char>)
      requires Valid() && offset <= LBCD_MAX_SERVICES && '\0' !in service
      modifies this`called, weights
      ensures weights[offset] == WeightFor(m, service)
      ensures forall k :: 0 <= k < weights.Length && k != offset ==> weights[k] == old(weights[k])
      ensures called == old(called) + [CallFor(m, offset, service)]
    {
      var entry := ServiceToFunc(service, m.defaultEntry);
      RunWeight(m, Call(offset, service, entry, After(if service == "default" then entry else service, ':')));
    }

    /** lbcd_set_load */
    method SetLoad(m: Machine, services: seq<seq<char>>)
      requires Valid() && |services| <= LBCD_MAX_SERVICES && forall k :: 0 <= k < |services| ==> '\0' !in services[k]
      requires called == []
      modifies this`fields, this`called, weights
      ensures fields == old(fields).(pad := 0, services := |services|)
      ensures FilledTo(m, services, |services|)
    {
      fields := fields.(pad := 0, services := |services|);
      SetWeight(m, 0, "default");
      if m.sentinel { weights[0] := weights[0].(weight := MAX_WEIGHT); }
      SetServices(m, services);
    }

    /** The loop of lbcd_set_load over the services asked for. */
    method SetServices(m: Machine, services: seq<seq<char>>)
      requires Valid() && |services| <= LBCD_MAX_SERVICES && forall k :: 0 <= k < |services| ==> '\0' !in services[k]
      requires FilledTo(m, services, 0)
      modifies this`called, weights
      ensures FilledTo(m, services, |services|)
    {
      for i := 0 to |services|
        invariant FilledTo(m, services, i)
      {
        SetService(m, services, i);
      }
    }

    method SetService(m: Machine, services: seq<seq<char>>, i: nat)
      requires Valid() && i < |services| <= LBCD_MAX_SERVICES && '\0' !in services[i] && FilledTo(m, services, i)
      modifies this`called, weights
      ensures FilledTo(m, services, i + 1)
    {
      ghost var log, slots := called, weights[..];
      SetWeight(m, i + 1, services[i]);
      LogSnoc(log, m, services, i);
      SlotsSnoc(slots, weights[..], m, services, i);
    }

    /** lbcd_pack_info, with the conversion for version 2 clients. */
    method PackInfo(m: Machine, protocol: u16, services: seq<seq<char>>)
      requires Valid() && |services| <= LBCD_MAX_SERVICES && forall k :: 0 <= k < |services| ==> '\0' !in services[k]
      requires called == []
      modifies this`fields, this`called, weights
      ensures weights[..|services| + 1] == WeightsFor(m, services) && called == CallsFor(m, services)
      ensures fields == FieldsFor(m, protocol, |services|, WeightsFor(m, services)[0].weight)
    {
      fields := m.fields.(reserved := 0);
      SetLoad(m, services);
      if !m.simple && protocol < 3 { Proto2Convert(); }
      assert weights[..|services| + 1] == WeightsFor(m, services);
    }

    /** lbcd_proto2_convert */
    method Proto2Convert()
      requires Valid()
      modifies this`fields
      ensures fields == ForVersion2(old(fields), weights[0].weight)
    {
      var w := weights[0].weight;
      if w > 0xffff { w := 0xffff; }
      fields := fields.(l1 := w, l5 := w, l15 := w);
      fields := fields.(totUsers := 0, uniqUsers := 0);
    }
  }

  // ---- One datagram, and a run of them

  function OkReply(m: Machine, r: Request): Packet
    requires |r.services| <= LBCD_MAX_SERVICES
  {
    var w := WeightsFor(m, r.services);
    PutReply(Header(r.protocol, r.id, r.operation, StatusCode(StatusOk)),
             FieldsFor(m, r.protocol, |r.services|, w[0].weight), w)
  }

  /** The answer to a datagram, if any. */
  function Answer(allowed: seq<seq<char>>, m: Machine, p: Packet): Option<Packet> {
    match Receive(allowed, p)
    case Dropped => None
    case Refused(header) => Some(PutHeader(header))
    case Accepted(r) =>
      if r.operation == LBCD_OP_LBINFO then Some(OkReply(m, r))
      else Some(PutHeader(Header(LBCD_VERSION, r.id, r.operation, StatusCode(StatusUnknownOp))))
  }

  /** handle_lb_request: fill a whole reply and send the part in use. */
  method SendInfo(m: Machine, r: Request) returns (sent: Packet, called: seq<Call>)
    requires |r.services| <= LBCD_MAX_SERVICES && forall k :: 0 <= k < |r.services| ==> '\0' !in r.services[k]
    ensures sent == OkReply(m, r) && called == CallsFor(m, r.services)
  {
    var reply := new Reply(m.fields);
    reply.PackInfo(m, r.protocol, r.services);
    var unused := LBCD_MAX_SERVICES - |r.services|;
    var size := REPLY_FIXED + 8 * (LBCD_MAX_SERVICES + 1) - unused * 8;
    var h := Header(r.protocol, r.id, r.operation, StatusCode(StatusOk));
    ReplyPrefix(h, reply.fields, reply.weights[..], |r.services| + 1);
    assert reply.weights[..][..|r.services| + 1] == WeightsFor(m, r.services);
    sent := PutReply(h, reply.fields, reply.weights[..])[..size];
    called := reply.called;
  }

  /** What is read of a datagram. */
  function Raw(datagram: Packet): Packet {
    if |datagram| > LBCD_MAXMESG then datagram[..LBCD_MAXMESG] else datagram
  }

  /** The weight functions that run for a datagram. */
  function CallsOf(allowed: seq<seq<char>>, m: Machine, p: Packet): seq<Call> {
    match Receive(allowed, p)
    case Accepted(r) => if r.operation == LBCD_OP_LBINFO then CallsFor(m, r.services) else []
    case _ => []
  }

  /** The cmd function ran only for the default service, whether asked for by name or not. */
  ghost predicate CmdByDefault(m: Machine, called: seq<Call>) {
    forall k :: 0 <= k < |called| && called[k].entry == "cmd"
        ==> called[k].service == "default" && m.defaultEntry == "cmd"
  }

  /** No datagram whatever reaches cmd but through the default service. */
  lemma CmdOnlyByDefault(allowed: seq<seq<char>>, m: Machine, p: Packet)
    ensures CmdByDefault(m, CallsOf(allowed, m, p))
  {
    var called := CallsOf(allowed, m, p);
    forall k | 0 <= k < |called| && called[k].entry == "cmd"
      ensures called[k].service == "default" && m.defaultEntry == "cmd"
    {
      CmdEntry(called[k].service, m.defaultEntry);
      if k > 0 { assert Allowed(allowed, NamesOf(p)[k - 1]); }
    }
  }

  /** The body of the service loop: the answer, and the weight functions that ran for it. */
  method HandleDatagram(allowed: seq<seq<char>>, m: Machine, datagram: Packet)
    returns (sent: Option<Packet>, called: seq<Call>)
    ensures sent == Answer(allowed, m, Raw(datagram)) && called == CallsOf(allowed, m, Raw(datagram))
  {
    called := [];
    var received := RequestRecv(allowed, datagram);
    match received
    case Dropped => sent := None;
    case Refused(header) => sent := Some(PutHeader(header));
    case Accepted(r) =>
      if r.operation != LBCD_OP_LBINFO {
        sent := Some(PutHeader(Header(LBCD_VERSION, r.id, r.operation, StatusCode(StatusUnknownOp))));
        return;
      }
      var packet;
      packet, called := SendInfo(m, r);
      sent := Some(packet);
  }

  /** An answer carries the id and the operation of its datagram. */
  predicate Echoes(p: Packet, answer: Option<Packet>) {
    answer.Some? ==>
      && |p| >= HEADER_SIZE && |answer.value| >= HEADER_SIZE
      && GetHeader(answer.value).id == GetHeader(p).id && GetHeader(answer.value).op == GetHeader(p).op
  }

  lemma AnswerEchoes(allowed: seq<seq<char>>, m: Machine, p: Packet)
    ensures Echoes(p, Answer(allowed, m, p))
  {
    match Receive(allowed, p)
    case Dropped =>
    case Refused(header) =>
      HeaderAlone(header);
    case Accepted(r) =>
      if r.operation == LBCD_OP_LBINFO {
        var w := WeightsFor(m, r.services);
        ReplyHeader(Header(r.protocol, r.id, r.operation, StatusCode(StatusOk)),
                    FieldsFor(m, r.protocol, |r.services|, w[0].weight), w);
      } else {
        HeaderAlone(Header(LBCD_VERSION, r.id, r.operation, StatusCode(StatusUnknownOp)));
      }
  }

  /** A datagram as handled: the machine's figures, what was read, the answer, the weight functions that ran. */
  datatype Handled = Handled(machine: Machine, packet: Packet, answer: Option<Packet>, called: seq<Call>)

  /** What the server promises for a datagram: the answer and the calls due, and both are safe. */
  ghost predicate Served(allowed: seq<seq<char>>, h: Handled) {
    && h.answer == Answer(allowed, h.machine, h.packet) && Echoes(h.packet, h.answer)
    && h.called == CallsOf(allowed, h.machine, h.packet) && CmdByDefault(h.machine, h.called)
  }

  /** One arrival, answered. */
  method Serve(allowed: seq<seq<char>>, m: Machine, datagram: Packet) returns (h: Handled)
    ensures h.machine == m && h.packet == Raw(datagram) && Served(allowed, h)
  {
    var answer, called := HandleDatagram(allowed, m, datagram);
    AnswerEchoes(allowed, m, Raw(datagram));
    CmdOnlyByDefault(allowed, m, Raw(datagram));
    h := Handled(m, Raw(datagram), answer, called);
  }

  /**
   A run of the server: at most one answer a datagram, each echoing id and operation, and the weight
   functions that ran for it, cmd only through the default service.
   */
  method HandleRequests(allowed: seq<seq<char>>, arrivals: seq<(Machine, Packet)>) returns (log: seq<Handled>)
    ensures |log| == |arrivals|
    ensures forall k :: 0 <= k < |log| ==> log[k].machine == arrivals[k].0 && log[k].packet == Raw(arrivals[k].1)
    ensures forall k :: 0 <= k < |log| ==> Served(allowed, log[k])
  {
    log := [];
    for i := 0 to |arrivals|
      invariant |log| == i
      invariant forall k :: 0 <= k < i ==> log[k].machine == arrivals[k].0 && log[k].packet == Raw(arrivals[k].1)
      invariant forall k :: 0 <= k < i ==> Served(allowed, log[k])
    {
      var h := Serve(allowed, arrivals[i].0, arrivals[i].1);
      log := log + [h];
    }
  }

  // ---- On the octets and the text

  /** Slot i of a request holds the name: up to a nul, or all 32 octets. */
  predicate InSlot(p: Packet, i: nat, name: seq<char>) {
    var at := 8 + 32 * i;
    && at + 32 <= |p| && |name| <= 32 && '\0' !in name && p[at..at + |name|] == name
    && (|name| < 32 ==> p[at + |name|] == '\0')
  }

  lemma SlotRead(p: Packet, i: nat)
    requires 8 + 32 * (i + 1) <= |p|
    ensures InSlot(p, i, GetName(p, i))
  {
    var at := 8 + 32 * i;
    var slot, name := p[at..at + 32], GetName(p, i);
    CStrStops(slot, 0);
    SliceWithin(p, at, at + 32, 0, |name|);
    if |name| < 32 { assert slot[|name|] == p[at + |name|]; }
  }

  /** Eight octets, and 32 more for each of at most five names in protocol 3. */
  predicate Sized(p: Packet) {
    && |p| >= 8
    && if NetworkOrder(p, 0, 2) == 3 then NetworkOrder(p, 6, 2) <= 5 && |p| == 8 + 32 * NetworkOrder(p, 6, 2)
       else |p| == 8
  }

  /** The default service is permitted, cmd never, others when configured. */
  predicate Permitted(allowed: seq<seq<char>>, service: seq<char>) {
    service == "default" || (service != "cmd" && !("cmd:" <= service) && service in allowed)
  }

  lemma PermittedIsAllowed(allowed: seq<seq<char>>, service: seq<char>)
    ensures Permitted(allowed, service) <==> Allowed(allowed, service)
  {
  }

  lemma RawHeader(p: Packet)
    requires Octets(p) && |p| >= 8
    ensures var h := GetHeader(p);
            && h.version == NetworkOrder(p, 0, 2) && h.id == NetworkOrder(p, 2, 2)
            && h.op == NetworkOrder(p, 4, 2) && h.status == NetworkOrder(p, 6, 2)
  {
    ReadsNetwork(p, 0);
    ReadsNetwork(p, 2);
    ReadsNetwork(p, 4);
    ReadsNetwork(p, 6);
  }

  lemma NamesInSlots(p: Packet)
    requires Octets(p) && RightSize(p)
    ensures |NamesOf(p)| == if NetworkOrder(p, 0, 2) == 3 then NetworkOrder(p, 6, 2) else 0
    ensures forall k :: 0 <= k < |NamesOf(p)| ==> InSlot(p, k, NamesOf(p)[k])
  {
    RawHeader(p);
    forall k | 0 <= k < |NamesOf(p)|
      ensures InSlot(p, k, NamesOf(p)[k])
    {
      SlotRead(p, k);
    }
  }

  /**
   What becomes of octets: dropped for their size, refused with status 3 for their version or 2 for a
   name that is not permitted, or accepted with their id, operation and names.
   */
  lemma ReceiveMeans(allowed: seq<seq<char>>, p: Packet)
    requires Octets(p)
    ensures match Receive(allowed, p)
            case Dropped => !Sized(p)
            case Refused(h) =>
              && Sized(p) && h.version == 3 && h.id == NetworkOrder(p, 2, 2) && h.op == NetworkOrder(p, 4, 2)
              && (if NetworkOrder(p, 0, 2) == 2 || NetworkOrder(p, 0, 2) == 3
                  then h.status == 2 && exists k: nat, name :: InSlot(p, k, name) && !Permitted(allowed, name)
                  else h.status == 3)
            case Accepted(r) =>
              && Sized(p) && (r.protocol == 2 || r.protocol == 3) && r.protocol == NetworkOrder(p, 0, 2)
              && r.id == NetworkOrder(p, 2, 2) && r.operation == NetworkOrder(p, 4, 2)
              && |r.services| == (if r.protocol == 3 then NetworkOrder(p, 6, 2) else 0)
              && forall k :: 0 <= k < |r.services| ==> InSlot(p, k, r.services[k]) && Permitted(allowed, r.services[k])
  {
    if |p| >= 8 { RawHeader(p); }
    if RightSize(p) { NamesInSlots(p); }
    forall service
      ensures Permitted(allowed, service) <==> Allowed(allowed, service)
    {
      PermittedIsAllowed(allowed, service);
    }
  }

  /** A service as text: a name, and a port after a colon. */
  function Named(name: seq<char>, port: Option<seq<char>>): seq<char> {
    if port.Some? then name + (":" + port.value) else name
  }

  lemma AfterName(name: seq<char>, port: Option<seq<char>>)
    requires ':' !in name
    ensures Before(Named(name, port), ':') == name && After(Named(name, port), ':') == port
  {
    var s := Named(name, port);
    assert s[..|name|] == name;
    BeforeIs(s, ':', |name|);
    if port.Some? { assert s[|name| + 1..] == port.value; }
  }

  /** Only names of at most seven characters are in the table, so the cut to the buffer decides nothing. */
  lemma TableNames(name: seq<char>)
    requires |name| >= 31
    ensures name !in TABLE
  {
    assert forall i :: 0 <= i < |TABLE| ==> |TABLE[i]| <= 7;
  }

  lemma CutName(name: seq<char>, port: Option<seq<char>>)
    requires ':' !in name
    ensures Before(Copied(Named(name, port)), ':') == if |name| <= 31 then name else name[..31]
  {
    var s := Named(name, port);
    var copied := Copied(s);
    if |name| <= 31 {
      assert copied[..|name|] == name;
      BeforeIs(copied, ':', |name|);
    } else {
      assert copied == name[..31];
      BeforeIs(copied, ':', 31);
    }
  }

  /** The services with a function of their own: internal ones, then modules. */
  predicate HasFunction(name: seq<char>) {
    || name == "load" || name == "cmd" || name == "rr" || name == "unknown"
    || name == "ftp" || name == "http" || name == "imap" || name == "ldap" || name == "nntp"
    || name == "ntp" || name == "pop" || name == "smtp" || name == "tcp"
  }

  lemma TableIsKnown(name: seq<char>)
    ensures name in TABLE <==> HasFunction(name)
  {
    if HasFunction(name) {
      assert TABLE[0] == "load" && TABLE[1] == "cmd" && TABLE[2] == "rr" && TABLE[3] == "unknown";
      assert TABLE[4] == "ftp" && TABLE[5] == "http" && TABLE[6] == "imap" && TABLE[7] == "ldap" && TABLE[8] == "nntp";
      assert TABLE[9] == "ntp" && TABLE[10] == "pop" && TABLE[11] == "smtp" && TABLE[12] == "tcp";
    }
  }

  /** The function a service runs is that of its name, or the unknown one; it is given the port. */
  lemma CallMeans(m: Machine, offset: nat, name: seq<char>, port: Option<seq<char>>)
    requires ':' !in name && Named(name, port) != "default"
    ensures CallFor(m, offset, Named(name, port))
         == Call(offset, Named(name, port), if HasFunction(name) then name else "unknown", port)
  {
    TableIsKnown(name);
    AfterName(name, port);
    CutName(name, port);
    if |name| > 31 {
      TableNames(name);
      TableNames(name[..31]);
    }
  }

  /** The default service runs its own function, with the port that function's name has. */
  lemma DefaultCallMeans(m: Machine, offset: nat, name: seq<char>, port: Option<seq<char>>)
    requires ':' !in name && m.defaultEntry == Named(name, port)
    ensures CallFor(m, offset, "default") == Call(offset, "default", m.defaultEntry, port)
  {
    AfterName(name, port);
  }

  /** The weights of a reply are what those functions yield; the sentinel file overrides the first. */
  lemma WeightsMean(m: Machine, services: seq<seq<char>>, k: nat)
    requires k <= |services|
    ensures var call, w := CallsFor(m, services)[k], WeightsFor(m, services)[k];
            && call.offset == k && call.service == (if k == 0 then "default" else services[k - 1])
            && w.incr == m.weigh(call.entry, call.port).incr
            && w.weight == if k == 0 && m.sentinel then 0xffff_ffff else m.weigh(call.entry, call.port).weight
  {
  }
}
