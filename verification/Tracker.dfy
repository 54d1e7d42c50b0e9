/** The request tracker: what each captured packet does to the stored requests, and which notifications it
    causes.  Packets arrive decoded; a notification is an entry appended to a trace. */
module Trackers {
  import opened Options

  const CLEAN_UP_TIMEOUT := 30
  const REQUEST_TIMEOUT := 15
  const DNS_PORT := 53

  datatype Conn = Conn(source: int, destination: int, sourcePort: int, destinationPort: int)

  function Reversed(c: Conn): (r: Conn)
    ensures r.source == c.destination && r.destination == c.source
    ensures r.sourcePort == c.destinationPort && r.destinationPort == c.sourcePort
  {
    Conn(c.destination, c.source, c.destinationPort, c.sourcePort)
  }

  datatype Request = Request(url: string, time: int)

  /** What ProDNSParse leaves in its context: the text of each query, and of each response the text of the
      query it answers - None for a null queryer -, its data length and its address.  faulted: the parser has
      touched an octet outside its memory. */
  datatype DnsInfo = DnsInfo(queries: seq<string>, responses: seq<DnsAnswer>, faulted: bool)
  datatype DnsAnswer = DnsAnswer(query: Option<string>, dataLen: nat, address: int)

  /** How handle_packet classifies a TCP payload that is not DNS.  NegativeLength: a copy length of the URL comes
      out negative. */
  datatype Http = HttpRequest(url: string) | Truncated | NegativeLength | HttpResponse | OtherPayload

  datatype Body = NotIp | OtherProtocol | Udp(conn: Conn, dns: DnsInfo) | Tcp(conn: Conn, dns: DnsInfo, http: Http)

  datatype Packet = Packet(time: int, body: Body)

  datatype Protocol = NP_TCP | NP_UDP | NP_HTTP

  datatype Notice = Network(conn: Conn, protocol: Protocol, url: Option<string>, time: int, result: int)
                  | Dns(conn: Conn, query: string, address: int, time: int)

  /** A notification and the packet time at which it was sent. */
  datatype Entry = Entry(at: int, notice: Notice)

  datatype State = State(pending: map<Conn, seq<Request>>, names: map<string, int>, lastCleanUp: int, trace: seq<Entry>)

  // ----- one packet -----

  predicate Expired(now: int, time: int) {
    REQUEST_TIMEOUT <= now - time
  }

  /** The requests that a clean-up at now keeps, respectively gives up on, in list order. */
  function Kept(reqs: seq<Request>, now: int): seq<Request> {
    if reqs == [] then []
    else Kept(reqs[..|reqs| - 1], now) + if Expired(now, reqs[|reqs| - 1].time) then [] else [reqs[|reqs| - 1]]
  }

  function GivenUp(reqs: seq<Request>, now: int): seq<Request> {
    if reqs == [] then []
    else GivenUp(reqs[..|reqs| - 1], now) + if Expired(now, reqs[|reqs| - 1].time) then [reqs[|reqs| - 1]] else []
  }

  function HttpEntries(now: int, conn: Conn, reqs: seq<Request>, result: int): seq<Entry> {
    seq(|reqs|, i requires 0 <= i < |reqs| =>
      Entry(now, Network(conn, NP_HTTP, Some(reqs[i].url), reqs[i].time, result)))
  }

  lemma HttpEntriesNext(now: int, conn: Conn, reqs: seq<Request>, r: Request, result: int)
    ensures HttpEntries(now, conn, reqs + [r], result)
         == HttpEntries(now, conn, reqs, result) + [Entry(now, Network(conn, NP_HTTP, Some(r.url), r.time, result))]
    ensures HttpEntries(now, conn, [], result) == []
  {
  }

  /** The inner loop stands at index i of list, has passed j elements of all, and has sent some notifications. */
  ghost predicate Sweeping(all: seq<Request>, now: int, c: Conn, j: nat, i: nat, list: seq<Request>, sent: seq<Entry>) {
    && j <= |all| && i == |Kept(all[..j], now)|
    && list == Kept(all[..j], now) + all[j..]
    && sent == HttpEntries(now, c, GivenUp(all[..j], now), 1)
  }

  lemma SweepNone(all: seq<Request>, now: int, c: Conn)
    ensures Sweeping(all, now, c, 0, 0, all, [])
  {
  }

  lemma SweepTurn(all: seq<Request>, now: int, c: Conn, j: nat, i: nat, list: seq<Request>, sent: seq<Entry>)
    requires Sweeping(all, now, c, j, i, list, sent) && i < |list|
    ensures j < |all| && list[i] == all[j]
    ensures if Expired(now, all[j].time)
            then Sweeping(all, now, c, j + 1, i, list[..i] + list[i + 1..],
                          sent + [Entry(now, Network(c, NP_HTTP, Some(all[j].url), all[j].time, 1))])
            else Sweeping(all, now, c, j + 1, i + 1, list, sent)
  {
    var kept, gone := Kept(all[..j], now), GivenUp(all[..j], now);
    assert all[..j + 1][..j] == all[..j];
    HttpEntriesNext(now, c, gone, all[j], 1);
    assert list[..i] + list[i + 1..] == kept + all[j + 1..];
    assert list == (kept + [all[j]]) + all[j + 1..];
  }

  lemma SweepAll(all: seq<Request>, now: int, c: Conn, j: nat, i: nat, list: seq<Request>, sent: seq<Entry>)
    requires Sweeping(all, now, c, j, i, list, sent) && i >= |list|
    ensures list == Kept(all, now) && sent == HttpEntries(now, c, GivenUp(all, now), 1)
  {
    assert all[..j] == all;
  }

  /** The timeouts notified when a clean-up visits the connections in the given order. */
  function SweepEntries(pending: map<Conn, seq<Request>>, now: int, order: seq<Conn>): seq<Entry> {
    if order == [] then []
    else
      var c := order[|order| - 1];
      SweepEntries(pending, now, order[..|order| - 1])
      + if c in pending then HttpEntries(now, c, GivenUp(pending[c], now), 1) else []
  }

  lemma SweepNext(pending: map<Conn, seq<Request>>, now: int, order: seq<Conn>, c: Conn)
    requires c in pending
    ensures SweepEntries(pending, now, order + [c])
         == SweepEntries(pending, now, order) + HttpEntries(now, c, GivenUp(pending[c], now), 1)
  {
    assert (order + [c])[..|order|] == order;
  }

  function Swept(pending: map<Conn, seq<Request>>, now: int): map<Conn, seq<Request>> {
    map c | c in pending && Kept(pending[c], now) != [] :: Kept(pending[c], now)
  }

  /** The map when the connections in rest have yet to be visited. */
  function Half(pending: map<Conn, seq<Request>>, now: int, rest: set<Conn>): map<Conn, seq<Request>> {
    map c | c in pending && (c in rest || Kept(pending[c], now) != []) ::
      if c in rest then pending[c] else Kept(pending[c], now)
  }

  lemma HalfNext(pending: map<Conn, seq<Request>>, now: int, rest: set<Conn>, c: Conn)
    requires c in pending && c in rest
    ensures var half, kept := Half(pending, now, rest), Kept(pending[c], now);
            && c in half && half[c] == pending[c]
            && Half(pending, now, rest - {c}) == if kept == [] then half - {c} else half[c := kept]
  {
  }

  /** A clean-up of all that has visited order, has yet to visit rest, and has sent some notifications. */
  ghost predicate Visited(all: map<Conn, seq<Request>>, now: int, rest: set<Conn>, order: seq<Conn>,
                          pending: map<Conn, seq<Request>>, sent: seq<Entry>)
  {
    && rest <= all.Keys && Traversal(order, all.Keys - rest)
    && pending == Half(all, now, rest)
    && sent == SweepEntries(all, now, order)
  }

  lemma VisitNone(all: map<Conn, seq<Request>>, now: int)
    ensures Visited(all, now, all.Keys, [], all, [])
  {
  }

  lemma VisitNext(all: map<Conn, seq<Request>>, now: int, rest: set<Conn>, order: seq<Conn>,
                  pending: map<Conn, seq<Request>>, sent: seq<Entry>, c: Conn)
    requires Visited(all, now, rest, order, pending, sent) && c in rest
    ensures c in all && c in pending && pending[c] == all[c]
    ensures var kept := Kept(all[c], now);
            Visited(all, now, rest - {c}, order + [c], if kept == [] then pending - {c} else pending[c := kept],
                    sent + HttpEntries(now, c, GivenUp(all[c], now), 1))
  {
    HalfNext(all, now, rest, c);
    SweepNext(all, now, order, c);
    TraversalNext(order, all.Keys - rest, c);
    assert all.Keys - rest + {c} == all.Keys - (rest - {c});
  }

  lemma VisitAll(all: map<Conn, seq<Request>>, now: int, order: seq<Conn>, pending: map<Conn, seq<Request>>,
                 sent: seq<Entry>)
    requires Visited(all, now, {}, order, pending, sent)
    ensures Traversal(order, all.Keys) && pending == Swept(all, now) && sent == SweepEntries(all, now, order)
  {
    assert all.Keys - {} == all.Keys;
  }

  function SweptNames(names: map<string, int>, now: int): map<string, int> {
    map n | n in names && !Expired(now, names[n]) :: names[n]
  }

  /** An order in which an unordered map can be traversed. */
  ghost predicate Traversal(order: seq<Conn>, keys: set<Conn>) {
    && (forall i, j :: 0 <= i < j < |order| ==> order[i] != order[j])
    && (set c | c in order) == keys
  }

  lemma TraversalNext(order: seq<Conn>, keys: set<Conn>, c: Conn)
    requires Traversal(order, keys) && c !in keys
    ensures Traversal(order + [c], keys + {c})
  {
    assert forall i :: 0 <= i < |order| ==> order[i] in keys;
    assert (set d | d in order + [c]) == (set d | d in order) + {c};
  }

  predicate Due(s: State, now: int) {
    CLEAN_UP_TIMEOUT <= now - s.lastCleanUp
  }

  function CleanUp(s: State, now: int, order: seq<Conn>): State {
    if Due(s, now) then
      State(Swept(s.pending, now), SweptNames(s.names, now), now, s.trace + SweepEntries(s.pending, now, order))
    else s
  }

  function Remember(names: map<string, int>, queries: seq<string>, time: int): map<string, int> {
    if queries == [] then names
    else Remember(names, queries[..|queries| - 1], time)[queries[|queries| - 1] := time]
  }

  /** The first response whose data is four octets long, which the tracker takes for an address. */
  function FirstAddress(responses: seq<DnsAnswer>): Option<DnsAnswer> {
    if responses == [] then None
    else if responses[0].dataLen == 4 then Some(responses[0])
    else FirstAddress(responses[1..])
  }

  /** The notification for a response, if the name it answers is among those remembered. */
  function CheckedQuery(names: map<string, int>, now: int, conn: Conn, dns: DnsInfo): seq<Entry> {
    match FirstAddress(dns.responses)
    case Some(DnsAnswer(Some(query), _, address)) =>
      if query in names then [Entry(now, Dns(conn, query, address, names[query]))] else []
    case _ => []
  }

  predicate IsDns(conn: Conn) {
    conn.destinationPort == DNS_PORT || conn.sourcePort == DNS_PORT
  }

  function CheckDns(s: State, now: int, conn: Conn, dns: DnsInfo): State {
    if dns.faulted then s
    else
      var s1 := if conn.destinationPort == DNS_PORT then s.(names := Remember(s.names, dns.queries, now)) else s;
      if conn.sourcePort == DNS_PORT then s1.(trace := s1.trace + CheckedQuery(s1.names, now, conn, dns)) else s1
  }

  function Notified(s: State, now: int, conn: Conn, protocol: Protocol): State {
    s.(trace := s.trace + [Entry(now, Network(conn, protocol, None, now, 0))])
  }

  function PendingOf(pending: map<Conn, seq<Request>>, c: Conn): seq<Request> {
    if c in pending then pending[c] else []
  }

  function Answered(s: State, now: int, conn: Conn): State {
    var key := Reversed(conn);
    if key in s.pending then
      s.(pending := s.pending - {key}, trace := s.trace + HttpEntries(now, conn, s.pending[key], 0))
    else s
  }

  function HandleHttp(s: State, now: int, conn: Conn, http: Http): State {
    match http
    case HttpRequest(url) => s.(pending := s.pending[conn := PendingOf(s.pending, conn) + [Request(url, now)]])
    case Truncated => s
    case NegativeLength => s
    case HttpResponse => Answered(s, now, conn)
    case OtherPayload => Notified(s, now, conn, NP_TCP)
  }

  /** The tracker looks into the queryer of the first address it is told of, and that is null. */
  predicate NullQueryer(conn: Conn, dns: DnsInfo) {
    && conn.sourcePort == DNS_PORT
    && FirstAddress(dns.responses).Some? && FirstAddress(dns.responses).value.query.None?
  }

  predicate DnsFaults(conn: Conn, dns: DnsInfo) {
    IsDns(conn) && (dns.faulted || NullQueryer(conn, dns))
  }

  /** The packets on which handle_packet does what C leaves undefined: the parser touches an octet outside its memory,
      the tracker reads through a null queryer, or it copies a negative number of octets.  Nothing that it remembers
      has a part in this. */
  predicate Faults(p: Packet) {
    match p.body
    case NotIp => false
    case OtherProtocol => false
    case Udp(conn, dns) => DnsFaults(conn, dns)
    case Tcp(conn, dns, http) => DnsFaults(conn, dns) || (!IsDns(conn) && http == NegativeLength)
  }

  /** What a packet does; if it faults, what it has done up to then. */
  function Handle(s: State, p: Packet): State {
    match p.body
    case NotIp => s
    case OtherProtocol => s
    case Udp(conn, dns) => CheckDns(Notified(s, p.time, conn, NP_UDP), p.time, conn, dns)
    case Tcp(conn, dns, http) =>
      if !IsDns(conn) then HandleHttp(s, p.time, conn, http)
      else if DnsFaults(conn, dns) then CheckDns(s, p.time, conn, dns)
      else Notified(CheckDns(s, p.time, conn, dns), p.time, conn, NP_TCP)
  }

  /** handle_packet: clean up, then handle the packet. */
  function Step(s: State, p: Packet, order: seq<Conn>): State {
    Handle(CleanUp(s, p.time, order), p)
  }

  // ----- the tracker object -----

  class Tracker {
    var pending: map<Conn, seq<Request>>
    var names: map<string, int>
    var lastCleanUp: int
    var trace: seq<Entry>

    function Current(): State
      reads this
    {
      State(pending, names, lastCleanUp, trace)
    }

    constructor (now: int)
      ensures Current() == State(map[], map[], now, [])
    {
      pending, names, lastCleanUp, trace := map[], map[], now, [];
    }

    method HandlePacket(p: Packet) returns (faulted: bool, ghost order: seq<Conn>)
      modifies this
      ensures Due(old(Current()), p.time) ==> Traversal(order, old(pending.Keys))
      ensures faulted == Faults(p)
      ensures Current() == Step(old(Current()), p, order)
    {
      order := CleanUpStoredRequest(p.time);
      faulted := false;
      match p.body {
        case NotIp =>
        case OtherProtocol =>
        case Udp(conn, dns) =>
          trace := trace + [Entry(p.time, Network(conn, NP_UDP, None, p.time, 0))];
          var isDns;
          isDns, faulted := CheckDnsPacket(p.time, conn, dns);
        case Tcp(conn, dns, http) =>
          var isDns;
          isDns, faulted := CheckDnsPacket(p.time, conn, dns);
          if faulted {
            return;
          }
          if isDns {
            trace := trace + [Entry(p.time, Network(conn, NP_TCP, None, p.time, 0))];
          } else {
            match http {
              case HttpRequest(url) =>
                pending := pending[conn := PendingOf(pending, conn) + [Request(url, p.time)]];
              case Truncated =>
              case NegativeLength => faulted := true;
              case HttpResponse => AnswerRequests(p.time, conn);
              case OtherPayload =>
                trace := trace + [Entry(p.time, Network(conn, NP_TCP, None, p.time, 0))];
            }
          }
      }
    }

    method AnswerRequests(now: int, conn: Conn)
      modifies this
      ensures Current() == Answered(old(Current()), now, conn)
    {
      var key := Reversed(conn);
      if key in pending {
        var list := pending[key];
        ghost var all, before := list, trace;
        while list != []
          invariant |list| <= |all| && list == all[|all| - |list|..]
          invariant trace == before + HttpEntries(now, conn, all[..|all| - |list|], 0)
          invariant pending == old(pending) && names == old(names) && lastCleanUp == old(lastCleanUp)
        {
          trace := trace + [Entry(now, Network(conn, NP_HTTP, Some(list[0].url), list[0].time, 0))];
          list := list[1..];
        }
        pending := pending - {key};
      }
    }

    // check_dns
    method CheckDnsPacket(now: int, conn: Conn, dns: DnsInfo) returns (isDns: bool, faulted: bool)
      modifies this
      ensures isDns == IsDns(conn) && faulted == DnsFaults(conn, dns)
      ensures Current() == CheckDns(old(Current()), now, conn, dns)
    {
      isDns := conn.destinationPort == DNS_PORT || conn.sourcePort == DNS_PORT;
      faulted := isDns && dns.faulted;
      if dns.faulted {
        return;
      }
      if conn.destinationPort == DNS_PORT {
        for i := 0 to |dns.queries|
          invariant names == Remember(old(names), dns.queries[..i], now)
          invariant pending == old(pending) && lastCleanUp == old(lastCleanUp) && trace == old(trace)
        {
          assert dns.queries[..i + 1][..i] == dns.queries[..i];
          names := names[dns.queries[i] := now];
        }
        assert dns.queries[..|dns.queries|] == dns.queries;
      }
      if conn.sourcePort == DNS_PORT {
        var i := 0;
        while i < |dns.responses| && dns.responses[i].dataLen != 4
          invariant 0 <= i <= |dns.responses|
          invariant FirstAddress(dns.responses[i..]) == FirstAddress(dns.responses)
        {
          assert dns.responses[i..][1..] == dns.responses[i + 1..];
          i := i + 1;
        }
        if i < |dns.responses| {
          var r := dns.responses[i];
          match r.query {
            case None => faulted := true;
            case Some(query) =>
              if query in names {
                trace := trace + [Entry(now, Dns(conn, query, r.address, names[query]))];
              }
          }
        }
      }
    }

    // clean_up_stored_request
    method CleanUpStoredRequest(now: int) returns (ghost order: seq<Conn>)
      modifies this
      ensures Due(old(Current()), now) ==> Traversal(order, old(pending.Keys))
      ensures Current() == CleanUp(old(Current()), now, order)
    {
      order := [];
      if CLEAN_UP_TIMEOUT <= now - lastCleanUp {
        SweepNames(now);
        order := SweepPending(now);
        lastCleanUp := now;
      }
    }

    method SweepNames(now: int)
      modifies this`names
      ensures names == SweptNames(old(names), now)
    {
      var rest := names.Keys;
      while rest != {}
        invariant rest <= names.Keys <= old(names).Keys
        invariant forall n :: n in old(names) && n !in rest ==> (n in names <==> !Expired(now, old(names)[n]))
        invariant forall n :: n in names ==> names[n] == old(names)[n]
        decreases rest
      {
        var n :| n in rest;
        if Expired(now, names[n]) {
          names := names - {n};
        }
        rest := rest - {n};
      }
    }

    method SweepPending(now: int) returns (ghost order: seq<Conn>)
      modifies this`pending, this`trace
      ensures Traversal(order, old(pending.Keys))
      ensures pending == Swept(old(pending), now)
      ensures trace == old(trace) + SweepEntries(old(pending), now, order)
    {
      hide Visited;
      ghost var all, sent := pending, [];
      var rest := pending.Keys;
      order := [];
      VisitNone(all, now);
      while rest != {}
        invariant Visited(all, now, rest, order, pending, sent)
        invariant trace == old(trace) + sent
        decreases rest
      {
        var c :| c in rest;
        VisitNext(all, now, rest, order, pending, sent, c);
        SweepConn(now, c);
        sent := sent + HttpEntries(now, c, GivenUp(all[c], now), 1);
        order := order + [c];
        rest := rest - {c};
      }
      VisitAll(all, now, order, pending, sent);
    }

    // the body of the outer loop: a connection whose list runs empty is erased
    method SweepConn(now: int, c: Conn)
      requires c in pending
      modifies this`pending, this`trace
      ensures var kept := Kept(old(pending)[c], now);
              pending == if kept == [] then old(pending) - {c} else old(pending)[c := kept]
      ensures trace == old(trace) + HttpEntries(now, c, GivenUp(old(pending)[c], now), 1)
    {
      var list := SweepList(now, c, pending[c]);
      if list == [] {
        pending := pending - {c};
      } else {
        pending := pending[c := list];
      }
    }

    // the inner loop: erase and notify while iterating over one list
    method SweepList(now: int, c: Conn, all: seq<Request>) returns (list: seq<Request>)
      modifies this`trace
      ensures list == Kept(all, now)
      ensures trace == old(trace) + HttpEntries(now, c, GivenUp(all, now), 1)
    {
      hide Sweeping;
      list := all;
      var i := 0;
      ghost var j, sent := 0, [];
      SweepNone(all, now, c);
      while i < |list|
        invariant j <= |all| && Sweeping(all, now, c, j, i, list, sent)
        invariant trace == old(trace) + sent
        decreases |all| - j
      {
        SweepTurn(all, now, c, j, i, list, sent);
        var info := list[i];
        if Expired(now, info.time) {
          trace := trace + [Entry(now, Network(c, NP_HTTP, Some(info.url), info.time, 1))];
          sent := sent + [Entry(now, Network(c, NP_HTTP, Some(info.url), info.time, 1))];
          list := list[..i] + list[i + 1..];
        } else {
          i := i + 1;
        }
        j := j + 1;
      }
      SweepAll(all, now, c, j, i, list, sent);
    }
  }
}
