/** What the tracker guarantees over whole runs: no request is lost, duplicated or reordered, every notification
    has its cause, and nothing is remembered for longer than 43 seconds. */
module TrackerRuns {
  import opened Options
  import opened Trackers

  /** A packet, and the order in which a clean-up that it triggers traverses the connections. */
  datatype Input = Input(packet: Packet, order: seq<Conn>)

  function Start(now: int): State { State(map[], map[], now, []) }

  function Run(s: State, inputs: seq<Input>): State {
    if inputs == [] then s
    else
      var last := inputs[|inputs| - 1];
      Step(Run(s, inputs[..|inputs| - 1]), last.packet, last.order)
  }

  ghost predicate LegalStep(s: State, i: Input) {
    Due(s, i.packet.time) ==> Traversal(i.order, s.pending.Keys)
  }

  /** A run of the tracker: it ends with the first packet that faults. */
  ghost predicate Legal(s: State, inputs: seq<Input>) {
    inputs != [] ==>
      && Legal(s, inputs[..|inputs| - 1])
      && (|inputs| > 1 ==> !Faults(inputs[|inputs| - 2].packet))
      && LegalStep(Run(s, inputs[..|inputs| - 1]), inputs[|inputs| - 1])
  }

  /** Packet times never go back, and none precedes the start. */
  ghost predicate Monotone(start: int, inputs: seq<Input>) {
    && (forall i :: 0 <= i < |inputs| ==> start <= inputs[i].packet.time)
    && (forall i, j :: 0 <= i < j < |inputs| ==> inputs[i].packet.time <= inputs[j].packet.time)
  }

  // ----- accounts: what a connection has stored, been notified of, and waits for -----

  /** The request that a packet stores for connection c, if any. */
  function StoredBy(p: Packet, c: Conn): seq<Request> {
    match p.body
    case Tcp(conn, _, HttpRequest(url)) => if conn == c && !IsDns(conn) then [Request(url, p.time)] else []
    case _ => []
  }

  function Stored(inputs: seq<Input>, c: Conn): seq<Request> {
    if inputs == [] then []
    else Stored(inputs[..|inputs| - 1], c) + StoredBy(inputs[|inputs| - 1].packet, c)
  }

  predicate IsHttp(n: Notice) {
    n.Network? && n.protocol == NP_HTTP && n.url.Some?
  }

  /** The stored connection behind an HTTP notification.  One that reports a response carries the response's own
      direction; one that reports a timeout carries the stored connection. */
  function KeyOf(n: Notice): Conn
    requires n.Network?
  {
    if n.result == 0 then Trackers.Reversed(n.conn) else n.conn
  }

  function NotifiedBy(e: Entry, c: Conn): seq<Request> {
    if IsHttp(e.notice) && KeyOf(e.notice) == c then [Request(e.notice.url.value, e.notice.time)] else []
  }

  function NotifiedOf(trace: seq<Entry>, c: Conn): seq<Request> {
    if trace == [] then [] else NotifiedOf(trace[..|trace| - 1], c) + NotifiedBy(trace[|trace| - 1], c)
  }

  lemma {:induction false} NotifiedAppend(a: seq<Entry>, b: seq<Entry>, c: Conn)
    ensures NotifiedOf(a + b, c) == NotifiedOf(a, c) + NotifiedOf(b, c)
    decreases |b|
  {
    if b == [] {
      assert a + b == a;
    } else {
      assert (a + b)[..|a + b| - 1] == a + b[..|b| - 1];
      NotifiedAppend(a, b[..|b| - 1], c);
    }
  }

  lemma {:induction false} NotifiedHttp(now: int, conn: Conn, reqs: seq<Request>, result: int, c: Conn)
    ensures NotifiedOf(HttpEntries(now, conn, reqs, result), c)
         == if (if result == 0 then Trackers.Reversed(conn) else conn) == c then reqs else []
    decreases |reqs|
  {
    hide HttpEntries;
    if reqs == [] {
      HttpEntriesNext(now, conn, [], Request("", 0), result);
    } else {
      var init, r := reqs[..|reqs| - 1], reqs[|reqs| - 1];
      assert init + [r] == reqs;
      NotifiedHttp(now, conn, init, result, c);
      HttpEntriesNext(now, conn, init, r, result);
      NotifiedNext(HttpEntries(now, conn, init, result),
                   Entry(now, Network(conn, NP_HTTP, Some(r.url), r.time, result)), c);
    }
  }

  lemma NotifiedNext(trace: seq<Entry>, e: Entry, c: Conn)
    ensures NotifiedOf(trace + [e], c) == NotifiedOf(trace, c) + NotifiedBy(e, c)
  {
    assert (trace + [e])[..|trace|] == trace;
  }

  lemma {:induction false} NotifiedSweep(pending: map<Conn, seq<Request>>, now: int, order: seq<Conn>, c: Conn)
    requires forall i, j :: 0 <= i < j < |order| ==> order[i] != order[j]
    ensures NotifiedOf(SweepEntries(pending, now, order), c)
         == if c in order then GivenUp(PendingOf(pending, c), now) else []
    decreases |order|
  {
    hide HttpEntries, GivenUp, NotifiedOf;
    if order == [] {
      NotifiedNothing(c);
    } else {
      var init, d := order[..|order| - 1], order[|order| - 1];
      NotifiedSweep(pending, now, init, c);
      var es := if d in pending then HttpEntries(now, d, GivenUp(pending[d], now), 1) else [];
      NotifiedNothing(c);
      if d in pending {
        NotifiedHttp(now, d, GivenUp(pending[d], now), 1, c);
      }
      NotifiedAppend(SweepEntries(pending, now, init), es, c);
      assert order == init + [d] && d !in init;
      NothingGivenUp(now);
    }
  }

  lemma NotifiedNothing(c: Conn)
    ensures NotifiedOf([], c) == []
  {
  }

  lemma NothingGivenUp(now: int)
    ensures GivenUp([], now) == []
  {
  }

  /** A clean-up moves exactly the expired requests of each connection to its notified ones. */
  lemma CleanUpAccount(s: State, now: int, order: seq<Conn>, c: Conn)
    requires Due(s, now) ==> Traversal(order, s.pending.Keys)
    ensures var s', waiting := CleanUp(s, now, order), PendingOf(s.pending, c);
            if Due(s, now)
            then PendingOf(s'.pending, c) == Kept(waiting, now)
              && NotifiedOf(s'.trace, c) == NotifiedOf(s.trace, c) + GivenUp(waiting, now)
            else s' == s
  {
    if Due(s, now) {
      NotifiedSweep(s.pending, now, order, c);
      NotifiedAppend(s.trace, SweepEntries(s.pending, now, order), c);
      assert c in order <==> c in s.pending.Keys;
    }
  }

  /** The response on the reverse of connection c. */
  predicate Answers(p: Packet, c: Conn) {
    p.body.Tcp? && p.body.http.HttpResponse? && !IsDns(p.body.conn) && Trackers.Reversed(p.body.conn) == c
  }

  lemma OneEntry(trace: seq<Entry>, e: Entry, c: Conn)
    requires !IsHttp(e.notice)
    ensures NotifiedOf(trace + [e], c) == NotifiedOf(trace, c)
  {
    NotifiedNext(trace, e, c);
  }

  lemma CheckDnsAccount(s: State, now: int, conn: Conn, dns: DnsInfo, c: Conn)
    ensures var s' := CheckDns(s, now, conn, dns);
            s'.pending == s.pending && NotifiedOf(s'.trace, c) == NotifiedOf(s.trace, c)
  {
    var s1 := if conn.destinationPort == DNS_PORT then s.(names := Remember(s.names, dns.queries, now)) else s;
    var es := CheckedQuery(s1.names, now, conn, dns);
    if es != [] {
      OneEntry(s.trace, es[0], c);
    } else {
      assert s.trace + es == s.trace;
    }
  }

  /** A packet either answers everything that waits on its reverse connection, or stores at most one request. */
  lemma HandleAccount(s: State, p: Packet, c: Conn)
    ensures var s', waiting := Handle(s, p), PendingOf(s.pending, c);
            && (Answers(p, c) ==>
                  PendingOf(s'.pending, c) == [] && NotifiedOf(s'.trace, c) == NotifiedOf(s.trace, c) + waiting)
            && (!Answers(p, c) ==>
                  && PendingOf(s'.pending, c) == waiting + StoredBy(p, c)
                  && NotifiedOf(s'.trace, c) == NotifiedOf(s.trace, c))
  {
    hide NotifiedOf, CheckDns;
    match p.body
    case NotIp =>
    case OtherProtocol =>
    case Udp(conn, dns) =>
      OneEntry(s.trace, Entry(p.time, Network(conn, NP_UDP, None, p.time, 0)), c);
      CheckDnsAccount(Notified(s, p.time, conn, NP_UDP), p.time, conn, dns, c);
    case Tcp(conn, dns, http) =>
      if IsDns(conn) {
        CheckDnsAccount(s, p.time, conn, dns, c);
        OneEntry(CheckDns(s, p.time, conn, dns).trace, Entry(p.time, Network(conn, NP_TCP, None, p.time, 0)), c);
      } else if http.HttpResponse? {
        AnsweredAccount(s, p.time, conn, c);
      } else {
        OneEntry(s.trace, Entry(p.time, Network(conn, NP_TCP, None, p.time, 0)), c);
      }
  }

  lemma AnsweredAccount(s: State, now: int, conn: Conn, c: Conn)
    ensures var s', waiting := Answered(s, now, conn), PendingOf(s.pending, c);
            if Trackers.Reversed(conn) == c
            then PendingOf(s'.pending, c) == [] && NotifiedOf(s'.trace, c) == NotifiedOf(s.trace, c) + waiting
            else PendingOf(s'.pending, c) == waiting && NotifiedOf(s'.trace, c) == NotifiedOf(s.trace, c)
  {
    hide NotifiedOf, HttpEntries;
    var key := Trackers.Reversed(conn);
    if key in s.pending {
      NotifiedHttp(now, conn, s.pending[key], 0, c);
      NotifiedAppend(s.trace, HttpEntries(now, conn, s.pending[key], 0), c);
    }
  }

  // ----- conservation, whatever the packet times -----

  lemma {:induction false} KeptAndGivenUp(reqs: seq<Request>, now: int)
    ensures multiset(reqs) == multiset(GivenUp(reqs, now)) + multiset(Kept(reqs, now))
    decreases |reqs|
  {
    if reqs != [] {
      var init, r := reqs[..|reqs| - 1], reqs[|reqs| - 1];
      KeptAndGivenUp(init, now);
      assert reqs == init + [r];
      assert Kept(reqs, now) == Kept(init, now) + if Expired(now, r.time) then [] else [r];
      assert GivenUp(reqs, now) == GivenUp(init, now) + if Expired(now, r.time) then [r] else [];
      hide Kept, GivenUp;
    }
  }

  /** One packet keeps the account of a connection: notified and pending requests grow by what it stores. */
  lemma StepAccount(s: State, i: Input, c: Conn)
    requires LegalStep(s, i)
    ensures var s' := Step(s, i.packet, i.order);
            multiset(NotifiedOf(s'.trace, c)) + multiset(PendingOf(s'.pending, c))
            == multiset(NotifiedOf(s.trace, c)) + multiset(PendingOf(s.pending, c)) + multiset(StoredBy(i.packet, c))
  {
    CleanUpAccount(s, i.packet.time, i.order, c);
    KeptAndGivenUp(PendingOf(s.pending, c), i.packet.time);
    HandleAccount(CleanUp(s, i.packet.time, i.order), i.packet, c);
    hide NotifiedOf, PendingOf, CleanUp, Handle, StoredBy, Kept, GivenUp;
  }

  /** Every run: the requests stored for a connection are those notified and those still pending, each once. */
  lemma {:induction false} Conservation(start: int, inputs: seq<Input>, c: Conn)
    requires Legal(Start(start), inputs)
    ensures var s := Run(Start(start), inputs);
            multiset(Stored(inputs, c)) == multiset(NotifiedOf(s.trace, c)) + multiset(PendingOf(s.pending, c))
    decreases |inputs|
  {
    if inputs != [] {
      var init, last := inputs[..|inputs| - 1], inputs[|inputs| - 1];
      Conservation(start, init, c);
      StepAccount(Run(Start(start), init), last, c);
      hide NotifiedOf, PendingOf, Step, StoredBy;
    }
  }

  /** Every run: no connection is kept without a pending request. */
  lemma {:induction false} NoEmptyList(start: int, inputs: seq<Input>)
    ensures forall c :: c in Run(Start(start), inputs).pending ==> Run(Start(start), inputs).pending[c] != []
    decreases |inputs|
  {
    if inputs != [] {
      var init, last := inputs[..|inputs| - 1], inputs[|inputs| - 1];
      NoEmptyList(start, init);
      hide Handle, CleanUp;
      NoEmptyStep(Run(Start(start), init), last.packet, last.order);
    }
  }

  lemma NoEmptyStep(s: State, p: Packet, order: seq<Conn>)
    requires forall c :: c in s.pending ==> s.pending[c] != []
    ensures forall c :: c in Step(s, p, order).pending ==> Step(s, p, order).pending[c] != []
  {
    var s1 := CleanUp(s, p.time, order);
    assert forall c :: c in s1.pending ==> s1.pending[c] != [];
    hide CleanUp;
    assert Step(s, p, order) == Handle(s1, p);
  }

  // ----- order, when packet times do not go back -----

  ghost predicate Sorted(reqs: seq<Request>, now: int) {
    && (forall i :: 0 <= i < |reqs| ==> reqs[i].time <= now)
    && (forall i, j :: 0 <= i < j < |reqs| ==> reqs[i].time <= reqs[j].time)
  }

  lemma {:induction false} AllGivenUp(reqs: seq<Request>, now: int)
    requires forall i :: 0 <= i < |reqs| ==> Expired(now, reqs[i].time)
    ensures GivenUp(reqs, now) == reqs && Kept(reqs, now) == []
    decreases |reqs|
  {
    if reqs != [] {
      AllGivenUp(reqs[..|reqs| - 1], now);
      assert reqs == reqs[..|reqs| - 1] + [reqs[|reqs| - 1]];
    }
  }

  /** On a list in time order a clean-up gives up a prefix and keeps the rest. */
  lemma {:induction false} GivesUpPrefix(reqs: seq<Request>, now: int)
    requires Sorted(reqs, now)
    ensures GivenUp(reqs, now) + Kept(reqs, now) == reqs
    decreases |reqs|
  {
    if reqs != [] {
      var init, r := reqs[..|reqs| - 1], reqs[|reqs| - 1];
      if Expired(now, r.time) {
        AllGivenUp(reqs, now);
      } else {
        GivesUpPrefix(init, now);
        assert reqs == init + [r];
      }
    }
  }

  lemma SortedLater(reqs: seq<Request>, now: int, later: int)
    requires Sorted(reqs, now) && now <= later
    ensures Sorted(reqs, later)
  {
  }

  lemma SortedSuffix(a: seq<Request>, b: seq<Request>, now: int)
    requires Sorted(a + b, now)
    ensures Sorted(b, now)
  {
    assert forall i :: 0 <= i < |b| ==> b[i] == (a + b)[|a| + i];
  }

  /** The time the run has reached. */
  function Clock(start: int, inputs: seq<Input>): int {
    if inputs == [] then start else inputs[|inputs| - 1].packet.time
  }

  lemma MonotoneInit(start: int, inputs: seq<Input>)
    requires Monotone(start, inputs) && inputs != []
    ensures Monotone(start, inputs[..|inputs| - 1])
    ensures start <= Clock(start, inputs[..|inputs| - 1]) <= inputs[|inputs| - 1].packet.time
  {
  }

  /** In every run with nondecreasing times each connection's requests are notified in the order in which they
      were stored: what was stored is what was notified followed by what is pending. */
  lemma {:induction false} FirstInFirstOut(start: int, inputs: seq<Input>, c: Conn)
    requires Legal(Start(start), inputs) && Monotone(start, inputs)
    ensures var s := Run(Start(start), inputs);
            && Stored(inputs, c) == NotifiedOf(s.trace, c) + PendingOf(s.pending, c)
            && Sorted(PendingOf(s.pending, c), Clock(start, inputs))
    decreases |inputs|
  {
    if inputs != [] {
      var init, last := inputs[..|inputs| - 1], inputs[|inputs| - 1];
      var s, now := Run(Start(start), init), last.packet.time;
      MonotoneInit(start, inputs);
      FirstInFirstOut(start, init, c);
      StepInOrder(s, Clock(start, init), last, c);
    }
  }

  /** One packet no earlier than the clock: notified and pending requests together grow by what it stores, and
      the pending ones stay in time order. */
  lemma StepInOrder(s: State, clock: int, i: Input, c: Conn)
    requires LegalStep(s, i) && Sorted(PendingOf(s.pending, c), clock) && clock <= i.packet.time
    ensures var s' := Step(s, i.packet, i.order);
            && NotifiedOf(s'.trace, c) + PendingOf(s'.pending, c)
            == NotifiedOf(s.trace, c) + PendingOf(s.pending, c) + StoredBy(i.packet, c)
            && Sorted(PendingOf(s'.pending, c), i.packet.time)
  {
    CleanUpInOrder(s, clock, i.packet.time, i.order, c);
    hide CleanUp, Handle;
    HandleInOrder(CleanUp(s, i.packet.time, i.order), i.packet, c);
  }

  lemma CleanUpInOrder(s: State, clock: int, now: int, order: seq<Conn>, c: Conn)
    requires Due(s, now) ==> Traversal(order, s.pending.Keys)
    requires Sorted(PendingOf(s.pending, c), clock) && clock <= now
    ensures var s' := CleanUp(s, now, order);
            && NotifiedOf(s'.trace, c) + PendingOf(s'.pending, c) == NotifiedOf(s.trace, c) + PendingOf(s.pending, c)
            && Sorted(PendingOf(s'.pending, c), now)
  {
    var waiting := PendingOf(s.pending, c);
    hide Sorted, CleanUp, Kept, GivenUp, NotifiedOf, PendingOf;
    CleanUpAccount(s, now, order, c);
    SortedLater(waiting, clock, now);
    if Due(s, now) {
      GivesUpPrefix(waiting, now);
      SortedSuffix(GivenUp(waiting, now), Kept(waiting, now), now);
    }
  }

  lemma HandleInOrder(s: State, p: Packet, c: Conn)
    requires Sorted(PendingOf(s.pending, c), p.time)
    ensures var s' := Handle(s, p);
            && NotifiedOf(s'.trace, c) + PendingOf(s'.pending, c)
            == NotifiedOf(s.trace, c) + PendingOf(s.pending, c) + StoredBy(p, c)
            && Sorted(PendingOf(s'.pending, c), p.time)
  {
    HandleAccount(s, p, c);
  }

  // ----- why each HTTP notification was sent -----

  /** What packet p may cause to be said about a stored request: a timeout that is at least 15 seconds old, or a
      success if p is a response on exactly the reported connection, the reverse of the stored one. */
  predicate Justified(e: Entry, p: Packet) {
    && e.at == p.time
    && (IsHttp(e.notice) ==>
          || (e.notice.result == 1 && REQUEST_TIMEOUT <= e.at - e.notice.time)
          || (e.notice.result == 0 && Answers(p, Trackers.Reversed(e.notice.conn))))
  }

  lemma {:induction false} GivenUpIsOld(reqs: seq<Request>, now: int)
    ensures forall i :: 0 <= i < |GivenUp(reqs, now)| ==> Expired(now, GivenUp(reqs, now)[i].time)
    decreases |reqs|
  {
    if reqs != [] {
      GivenUpIsOld(reqs[..|reqs| - 1], now);
    }
  }

  lemma {:induction false} SweepIsJustified(pending: map<Conn, seq<Request>>, now: int, order: seq<Conn>)
    ensures forall i :: 0 <= i < |SweepEntries(pending, now, order)| ==>
              var e := SweepEntries(pending, now, order)[i];
              e.at == now && IsHttp(e.notice) && e.notice.result == 1 && REQUEST_TIMEOUT <= now - e.notice.time
    decreases |order|
  {
    if order != [] {
      var c := order[|order| - 1];
      SweepIsJustified(pending, now, order[..|order| - 1]);
      if c in pending {
        GivenUpIsOld(pending[c], now);
      }
    }
  }

  /** What one packet appends to the trace is justified by this packet. */
  lemma StepTrace(s: State, i: Input) returns (added: seq<Entry>)
    ensures Step(s, i.packet, i.order).trace == s.trace + added
    ensures forall k :: 0 <= k < |added| ==> Justified(added[k], i.packet)
  {
    var now := i.packet.time;
    var s1 := CleanUp(s, now, i.order);
    var swept := if Due(s, now) then SweepEntries(s.pending, now, i.order) else [];
    SweepIsJustified(s.pending, now, i.order);
    assert s1.trace == s.trace + swept;
    var handled := HandleTrace(s1, i.packet);
    added := swept + handled;
  }

  lemma HandleTrace(s: State, p: Packet) returns (added: seq<Entry>)
    ensures Handle(s, p).trace == s.trace + added
    ensures forall k :: 0 <= k < |added| ==> added[k].at == p.time
    ensures forall k :: 0 <= k < |added| && IsHttp(added[k].notice) ==>
              added[k].notice.result == 0 && Answers(p, Trackers.Reversed(added[k].notice.conn))
  {
    added := [];
    match p.body
    case NotIp =>
    case OtherProtocol =>
    case Udp(conn, dns) =>
      var e := Entry(p.time, Network(conn, NP_UDP, None, p.time, 0));
      added := CheckDnsTrace(Notified(s, p.time, conn, NP_UDP), p.time, conn, dns);
      added := [e] + added;
    case Tcp(conn, dns, http) =>
      var e := Entry(p.time, Network(conn, NP_TCP, None, p.time, 0));
      if IsDns(conn) {
        added := CheckDnsTrace(s, p.time, conn, dns);
        added := added + if DnsFaults(conn, dns) then [] else [e];
      } else if http.OtherPayload? {
        added := [e];
      } else if http.HttpResponse? && Trackers.Reversed(conn) in s.pending {
        added := HttpEntries(p.time, conn, s.pending[Trackers.Reversed(conn)], 0);
      }
  }

  lemma CheckDnsTrace(s: State, now: int, conn: Conn, dns: DnsInfo) returns (added: seq<Entry>)
    ensures CheckDns(s, now, conn, dns).trace == s.trace + added
    ensures forall k :: 0 <= k < |added| ==> added[k].at == now && added[k].notice.Dns?
  {
    added := CheckDns(s, now, conn, dns).trace[|s.trace|..];
  }

  /** Entry k of the trace was sent by input i, and that packet justifies it. */
  ghost predicate SentBy(start: int, inputs: seq<Input>, i: nat, k: nat) {
    && i < |inputs|
    && |Run(Start(start), inputs[..i]).trace| <= k < |Run(Start(start), inputs[..i + 1]).trace|
    && Justified(Run(Start(start), inputs[..i + 1]).trace[k], inputs[i].packet)
  }

  /** Each packet only appends to the trace, and what it appends it justifies itself. */
  lemma HttpNoticesAreJustified(start: int, inputs: seq<Input>, i: nat)
    requires i < |inputs|
    ensures Run(Start(start), inputs[..i]).trace <= Run(Start(start), inputs[..i + 1]).trace
    ensures forall k :: |Run(Start(start), inputs[..i]).trace| <= k < |Run(Start(start), inputs[..i + 1]).trace| ==>
              SentBy(start, inputs, i, k)
  {
    var s := Run(Start(start), inputs[..i]);
    assert inputs[..i + 1][..i] == inputs[..i];
    var added := StepTrace(s, inputs[i]);
    hide Step, Justified;
    assert Run(Start(start), inputs[..i + 1]).trace == s.trace + added;
  }

  /** In every run each notification was sent by one packet of the run, which justifies it. */
  lemma {:induction false} EveryNoticeHasItsPacket(start: int, inputs: seq<Input>, k: nat) returns (i: nat)
    requires k < |Run(Start(start), inputs).trace|
    ensures SentBy(start, inputs, i, k)
    ensures Run(Start(start), inputs[..i + 1]).trace[k] == Run(Start(start), inputs).trace[k]
    decreases |inputs|
  {
    var n := |inputs| - 1;
    var init := inputs[..n];
    assert inputs[..n + 1] == inputs;
    HttpNoticesAreJustified(start, inputs, n);
    if k < |Run(Start(start), init).trace| {
      hide Run, Justified;
      i := EveryNoticeHasItsPacket(start, init, k);
      assert init[..i] == inputs[..i] && init[..i + 1] == inputs[..i + 1];
    } else {
      i := n;
    }
  }

  // ----- nothing is remembered for longer than 43 seconds -----

  const MAX_AGE := (CLEAN_UP_TIMEOUT - 1) + (REQUEST_TIMEOUT - 1)

  /** After the packet at now: a clean-up is less than 30 seconds ago, and what it left was younger than 15. */
  ghost predicate Recent(s: State, now: int) {
    && 0 <= now - s.lastCleanUp < CLEAN_UP_TIMEOUT
    && (forall c, i :: c in s.pending && 0 <= i < |s.pending[c]| ==>
          s.pending[c][i].time <= now && !Expired(s.lastCleanUp, s.pending[c][i].time))
    && (forall n :: n in s.names ==> s.names[n] <= now && !Expired(s.lastCleanUp, s.names[n]))
  }

  lemma {:induction false} KeptIsYoung(reqs: seq<Request>, now: int, later: int)
    requires forall i :: 0 <= i < |reqs| ==> reqs[i].time <= later
    ensures forall i :: 0 <= i < |Kept(reqs, now)| ==>
              Kept(reqs, now)[i].time <= later && !Expired(now, Kept(reqs, now)[i].time)
    decreases |reqs|
  {
    if reqs != [] {
      KeptIsYoung(reqs[..|reqs| - 1], now, later);
    }
  }

  lemma {:induction false} RememberTimes(names: map<string, int>, queries: seq<string>, now: int)
    ensures forall n :: n in Remember(names, queries, now) ==>
              Remember(names, queries, now)[n] == now || (n in names && Remember(names, queries, now)[n] == names[n])
    decreases |queries|
  {
    if queries != [] {
      RememberTimes(names, queries[..|queries| - 1], now);
    }
  }

  lemma CleanUpIsRecent(s: State, before: int, now: int, order: seq<Conn>)
    requires Recent(s, before) && before <= now
    ensures Recent(CleanUp(s, now, order), now)
  {
    if Due(s, now) {
      forall c, i | c in Swept(s.pending, now) && 0 <= i < |Swept(s.pending, now)[c]|
        ensures Swept(s.pending, now)[c][i].time <= now && !Expired(now, Swept(s.pending, now)[c][i].time)
      {
        KeptIsYoung(s.pending[c], now, now);
      }
    }
  }

  lemma HandleIsRecent(s: State, p: Packet)
    requires Recent(s, p.time)
    ensures Recent(Handle(s, p), p.time)
  {
    hide CheckDns, HandleHttp, Recent;
    match p.body
    case NotIp =>
    case OtherProtocol =>
    case Udp(conn, dns) =>
      TraceIsNothing(s, Notified(s, p.time, conn, NP_UDP), p.time);
      CheckIsRecent(Notified(s, p.time, conn, NP_UDP), p.time, conn, dns);
    case Tcp(conn, dns, http) =>
      var s1 := CheckDns(s, p.time, conn, dns);
      CheckIsRecent(s, p.time, conn, dns);
      TraceIsNothing(s1, Notified(s1, p.time, conn, NP_TCP), p.time);
      HttpIsRecent(s, p.time, conn, http);
  }

  lemma TraceIsNothing(s: State, s': State, now: int)
    requires s' == s.(trace := s'.trace)
    ensures Recent(s', now) <==> Recent(s, now)
  {
  }

  lemma CheckIsRecent(s: State, now: int, conn: Conn, dns: DnsInfo)
    requires Recent(s, now)
    ensures Recent(CheckDns(s, now, conn, dns), now)
  {
    RememberTimes(s.names, dns.queries, now);
  }

  lemma HttpIsRecent(s: State, now: int, conn: Conn, http: Http)
    requires Recent(s, now)
    ensures Recent(HandleHttp(s, now, conn, http), now)
  {
  }

  /** In every run with nondecreasing times, after any packet at time t no pending request and no remembered name
      is older than 43 seconds. */
  lemma {:induction false} AgeBound(start: int, inputs: seq<Input>)
    requires Monotone(start, inputs)
    ensures var s, now := Run(Start(start), inputs), Clock(start, inputs);
            && Recent(s, now)
            && (forall c, i :: c in s.pending && 0 <= i < |s.pending[c]| ==> 0 <= now - s.pending[c][i].time <= MAX_AGE)
            && (forall n :: n in s.names ==> 0 <= now - s.names[n] <= MAX_AGE)
    decreases |inputs|
  {
    if inputs != [] {
      var init, last := inputs[..|inputs| - 1], inputs[|inputs| - 1];
      MonotoneInit(start, inputs);
      AgeBound(start, init);
      CleanUpIsRecent(Run(Start(start), init), Clock(start, init), last.packet.time, last.order);
      HandleIsRecent(CleanUp(Run(Start(start), init), last.packet.time, last.order), last.packet);
    }
  }

  function LateRun(c: Conn, d: Conn, name: string, url: string): seq<Input> {
    [Input(Packet(16, Tcp(c, DnsInfo([], [], false), HttpRequest(url))), []),
     Input(Packet(16, Udp(d, DnsInfo([name], [], false))), []),
     Input(Packet(30, NotIp), [c]),
     Input(Packet(59, NotIp), [])]
  }

  lemma RunNext(s: State, inputs: seq<Input>, n: nat)
    requires n < |inputs|
    ensures Run(s, inputs[..n + 1]) == Step(Run(s, inputs[..n]), inputs[n].packet, inputs[n].order)
    ensures Legal(s, inputs[..n]) && LegalStep(Run(s, inputs[..n]), inputs[n]) ==>
              ((n > 0 ==> !Faults(inputs[n - 1].packet)) ==> Legal(s, inputs[..n + 1]))
  {
    assert inputs[..n + 1][..n] == inputs[..n];
  }

  /** The bound is met: a clean-up that comes just too early leaves a request and a name to age to 43 seconds. */
  lemma AgeBoundIsTight(c: Conn, d: Conn, name: string, url: string)
    requires !IsDns(c) && d.destinationPort == DNS_PORT && d.sourcePort != DNS_PORT
    ensures var inputs := LateRun(c, d, name, url);
            var s, now := Run(Start(0), inputs), Clock(0, inputs);
            && Legal(Start(0), inputs) && Monotone(0, inputs)
            && c in s.pending && s.pending[c] == [Request(url, now - MAX_AGE)]
            && name in s.names && s.names[name] == now - MAX_AGE
  {
    hide Run, Legal, Step;
    var inputs, s := LateRun(c, d, name, url), Start(0);
    LateSteps(c, d, name, url);
    assert inputs[..0] == [] && inputs[..4] == inputs;
    assert Run(s, []) == s && Legal(s, []) by { RunNone(s); }
    RunNext(s, inputs, 0);
    RunNext(s, inputs, 1);
    RunNext(s, inputs, 2);
    RunNext(s, inputs, 3);
  }

  lemma RunNone(s: State)
    ensures Run(s, []) == s && Legal(s, [])
  {
  }

  lemma LateSteps(c: Conn, d: Conn, name: string, url: string)
    requires !IsDns(c) && d.destinationPort == DNS_PORT && d.sourcePort != DNS_PORT
    ensures var i := LateRun(c, d, name, url);
            var s0 := Start(0);
            var s1 := Step(s0, i[0].packet, i[0].order);
            var s2 := Step(s1, i[1].packet, i[1].order);
            var s3 := Step(s2, i[2].packet, i[2].order);
            && LegalStep(s0, i[0]) && LegalStep(s1, i[1]) && LegalStep(s2, i[2]) && LegalStep(s3, i[3])
            && Step(s3, i[3].packet, i[3].order).pending == map[c := [Request(url, 16)]]
            && Step(s3, i[3].packet, i[3].order).names == map[name := 16]
  {
    var i, r := LateRun(c, d, name, url), Request(url, 16);
    LateRequest(c, url, i[0]);
    var s1 := State(map[c := [r]], map[], 0, []);
    LateQuestion(s1, d, name, i[1]);
    var s2 := Step(s1, i[1].packet, i[1].order);
    OneTraversal(c, s2.pending.Keys);
    hide Step, Traversal;
    LateCleanUp(s2, c, r, name, i[2]);
    var s3 := State(s2.pending, s2.names, 30, s2.trace + SweepEntries(s2.pending, 30, [c]));
    assert Step(s3, i[3].packet, i[3].order) == s3 by { LateQuiet(s3, i[3]); }
  }

  lemma LateRequest(c: Conn, url: string, i: Input)
    requires !IsDns(c) && i == Input(Packet(16, Tcp(c, DnsInfo([], [], false), HttpRequest(url))), [])
    ensures Step(Start(0), i.packet, i.order) == State(map[c := [Request(url, 16)]], map[], 0, [])
  {
    assert PendingOf(Start(0).pending, c) + [Request(url, 16)] == [Request(url, 16)];
  }

  lemma RememberOne(names: map<string, int>, queries: seq<string>, now: int)
    requires |queries| == 1
    ensures Remember(names, queries, now) == names[queries[0] := now]
  {
    assert queries[..0] == [];
  }

  lemma LateQuestion(s: State, d: Conn, name: string, i: Input)
    requires s.names == map[] && s.lastCleanUp == 0
    requires d.destinationPort == DNS_PORT && d.sourcePort != DNS_PORT
    requires i == Input(Packet(16, Udp(d, DnsInfo([name], [], false))), [])
    ensures var s' := Step(s, i.packet, i.order);
            s'.pending == s.pending && s'.names == map[name := 16] && s'.lastCleanUp == 0
  {
    RememberOne(s.names, [name], 16);
  }

  lemma KeptOne(reqs: seq<Request>, now: int)
    requires |reqs| == 1 && !Expired(now, reqs[0].time)
    ensures Kept(reqs, now) == reqs
  {
    assert reqs[..0] == [];
  }

  lemma LateQuiet(s: State, i: Input)
    requires i.packet.body == NotIp && !Due(s, i.packet.time)
    ensures Step(s, i.packet, i.order) == s
  {
  }

  lemma SweptNothing(s: State, c: Conn, r: Request, name: string)
    requires r.time == 16 && s.pending == map[c := [r]] && s.names == map[name := 16]
    ensures Swept(s.pending, 30) == s.pending && SweptNames(s.names, 30) == s.names
  {
    hide Kept, Swept, SweptNames;
    KeptOne([r], 30);
    assert Kept(s.pending[c], 30) == s.pending[c];
    NothingSwept(s.pending, 30);
    NoNameSwept(s.names, 30);
  }

  lemma NothingSwept(pending: map<Conn, seq<Request>>, now: int)
    requires forall c :: c in pending ==> pending[c] != [] && Kept(pending[c], now) == pending[c]
    ensures Swept(pending, now) == pending
  {
    hide Kept;
  }

  lemma NoNameSwept(names: map<string, int>, now: int)
    requires forall n :: n in names ==> !Expired(now, names[n])
    ensures SweptNames(names, now) == names
  {
  }

  lemma OneTraversal(c: Conn, keys: set<Conn>)
    requires keys == {c}
    ensures Traversal([c], keys)
  {
    assert forall d :: d in [c] <==> d == c;
  }

  lemma LateCleanUp(s: State, c: Conn, r: Request, name: string, i: Input)
    requires r.time == 16 && s.pending == map[c := [r]] && s.names == map[name := 16] && s.lastCleanUp == 0
    requires i == Input(Packet(30, NotIp), [c])
    ensures Step(s, i.packet, i.order) == State(s.pending, s.names, 30, s.trace + SweepEntries(s.pending, 30, [c]))
  {
    SweptNothing(s, c, r, name);
    hide Swept, SweptNames, SweepEntries;
  }

  // ----- remembered names are the latest questions -----

  /** The packet holds a DNS message that the parser gets through. */
  predicate Learns(p: Packet) {
    (p.body.Udp? || p.body.Tcp?) && !p.body.dns.faulted
  }

  predicate Asks(p: Packet, n: string) {
    Learns(p) && p.body.conn.destinationPort == DNS_PORT && n in p.body.dns.queries
  }

  /** The time of the latest question about n. */
  function LastAsked(inputs: seq<Input>, n: string): Option<int> {
    if inputs == [] then None
    else if Asks(inputs[|inputs| - 1].packet, n) then Some(inputs[|inputs| - 1].packet.time)
    else LastAsked(inputs[..|inputs| - 1], n)
  }

  lemma {:induction false} RememberExactly(names: map<string, int>, queries: seq<string>, now: int, n: string)
    ensures n in Remember(names, queries, now) <==> n in queries || n in names
    ensures n in queries ==> Remember(names, queries, now)[n] == now
    ensures n !in queries && n in names ==> Remember(names, queries, now)[n] == names[n]
    decreases |queries|
  {
    if queries != [] {
      RememberExactly(names, queries[..|queries| - 1], now, n);
      assert queries == queries[..|queries| - 1] + [queries[|queries| - 1]];
    }
  }

  ghost predicate Remembers(s: State, asked: Option<int>, n: string) {
    && (n in s.names ==> asked == Some(s.names[n]))
    && (n !in s.names && asked.Some? ==> Expired(s.lastCleanUp, asked.value))
  }

  lemma HandleRemembers(s: State, p: Packet, asked: Option<int>, n: string)
    requires Remembers(s, asked, n)
    ensures Remembers(Handle(s, p), if Asks(p, n) then Some(p.time) else asked, n)
  {
    match p.body
    case NotIp =>
    case OtherProtocol =>
    case Udp(conn, dns) => RememberExactly(s.names, dns.queries, p.time, n);
    case Tcp(conn, dns, http) => RememberExactly(s.names, dns.queries, p.time, n);
  }

  /** In every run with nondecreasing times a name is remembered exactly when its latest question was younger than
      15 seconds at the last clean-up, and then with the time of that question. */
  lemma {:induction false} NamesAreLatestQuestions(start: int, inputs: seq<Input>, n: string)
    requires Monotone(start, inputs)
    ensures var s, asked := Run(Start(start), inputs), LastAsked(inputs, n);
            && Remembers(s, asked, n)
            && (n in s.names <==> asked.Some? && !Expired(s.lastCleanUp, asked.value))
    decreases |inputs|
  {
    AgeBound(start, inputs);
    if inputs != [] {
      var init, last := inputs[..|inputs| - 1], inputs[|inputs| - 1];
      MonotoneInit(start, inputs);
      AgeBound(start, init);
      NamesAreLatestQuestions(start, init, n);
      var s := CleanUp(Run(Start(start), init), last.packet.time, last.order);
      HandleRemembers(s, last.packet, LastAsked(init, n), n);
    }
  }

  /** The address record that a DNS response packet is checked for. */
  function AddressIn(p: Packet): Option<DnsAnswer> {
    if Learns(p) && p.body.conn.sourcePort == DNS_PORT then FirstAddress(p.body.dns.responses) else None
  }

  function OnlyDns(trace: seq<Entry>): seq<Entry> {
    if trace == [] then []
    else OnlyDns(trace[..|trace| - 1]) + if trace[|trace| - 1].notice.Dns? then [trace[|trace| - 1]] else []
  }

  lemma {:induction false} OnlyDnsAppend(a: seq<Entry>, b: seq<Entry>)
    ensures OnlyDns(a + b) == OnlyDns(a) + OnlyDns(b)
    decreases |b|
  {
    if b == [] {
      assert a + b == a;
    } else {
      assert (a + b)[..|a + b| - 1] == a + b[..|b| - 1];
      OnlyDnsAppend(a, b[..|b| - 1]);
    }
  }

  lemma {:induction false} NoDns(es: seq<Entry>)
    requires forall i :: 0 <= i < |es| ==> es[i].notice.Network?
    ensures OnlyDns(es) == []
    decreases |es|
  {
    if es != [] {
      NoDns(es[..|es| - 1]);
    }
  }

  /** The DNS notification that a packet owes, names being those remembered after it. */
  function DnsNotice(names: map<string, int>, p: Packet): seq<Entry> {
    if Learns(p) && p.body.conn.sourcePort == DNS_PORT then
      CheckedQuery(names, p.time, p.body.conn, p.body.dns)
    else []
  }

  lemma AddNetwork(trace: seq<Entry>, es: seq<Entry>)
    requires forall i :: 0 <= i < |es| ==> es[i].notice.Network?
    ensures OnlyDns(trace + es) == OnlyDns(trace)
  {
    OnlyDnsAppend(trace, es);
    NoDns(es);
  }

  lemma CheckDnsNotice(s: State, now: int, conn: Conn, dns: DnsInfo)
    ensures var s' := CheckDns(s, now, conn, dns);
            OnlyDns(s'.trace) == OnlyDns(s.trace) + DnsNotice(s'.names, Packet(now, Udp(conn, dns)))
    ensures !IsDns(conn) ==> CheckDns(s, now, conn, dns) == s
  {
    var es := DnsNotice(CheckDns(s, now, conn, dns).names, Packet(now, Udp(conn, dns)));
    OnlyDnsAppend(s.trace, es);
    assert es != [] ==> es == [es[0]] && OnlyDns(es[..0]) == [];
  }

  lemma HandleNotice(s: State, p: Packet)
    ensures var s' := Handle(s, p); OnlyDns(s'.trace) == OnlyDns(s.trace) + DnsNotice(s'.names, p)
  {
    hide OnlyDns, CheckDns;
    match p.body
    case NotIp =>
    case OtherProtocol =>
    case Udp(conn, dns) =>
      AddNetwork(s.trace, [Entry(p.time, Network(conn, NP_UDP, None, p.time, 0))]);
      CheckDnsNotice(Notified(s, p.time, conn, NP_UDP), p.time, conn, dns);
    case Tcp(conn, dns, http) =>
      var e := [Entry(p.time, Network(conn, NP_TCP, None, p.time, 0))];
      if IsDns(conn) {
        CheckDnsNotice(s, p.time, conn, dns);
        AddNetwork(CheckDns(s, p.time, conn, dns).trace, e);
      } else {
        AddNetwork(s.trace, e);
        if Trackers.Reversed(conn) in s.pending {
          AddNetwork(s.trace, HttpEntries(p.time, conn, s.pending[Trackers.Reversed(conn)], 0));
        }
      }
  }

  /** A DNS response packet causes exactly one DNS notification if the name it answers is remembered, and none
      otherwise; no other packet causes any. */
  lemma StepNotice(s: State, i: Input)
    ensures var s' := Step(s, i.packet, i.order); OnlyDns(s'.trace) == OnlyDns(s.trace) + DnsNotice(s'.names, i.packet)
  {
    var now := i.packet.time;
    SweepIsJustified(s.pending, now, i.order);
    AddNetwork(s.trace, SweepEntries(s.pending, now, i.order));
    hide OnlyDns, Handle;
    HandleNotice(CleanUp(s, now, i.order), i.packet);
  }

  /** In every run with nondecreasing times, the DNS notification for a response says when its name was last
      asked for; it is sent if that was less than 15 seconds ago and withheld if it was more than 43.  None is sent
      where the first address has no name, which is where the packet faults. */
  lemma DnsNoticesAreTimely(start: int, inputs: seq<Input>)
    requires Monotone(start, inputs) && inputs != []
    ensures var init, p := inputs[..|inputs| - 1], inputs[|inputs| - 1].packet;
            var before, after := Run(Start(start), init), Run(Start(start), inputs);
            && OnlyDns(after.trace) == OnlyDns(before.trace) + DnsNotice(after.names, p)
            && match AddressIn(p)
               case None => DnsNotice(after.names, p) == []
               case Some(DnsAnswer(None, _, _)) => Faults(p) && DnsNotice(after.names, p) == []
               case Some(DnsAnswer(Some(query), _, address)) =>
                 var asked := LastAsked(inputs, query);
                 && (DnsNotice(after.names, p) != [] ==>
                       asked.Some? && p.time - asked.value <= MAX_AGE
                       && DnsNotice(after.names, p) == [Entry(p.time, Dns(p.body.conn, query, address, asked.value))])
                 && (asked.Some? && p.time - asked.value < REQUEST_TIMEOUT ==> DnsNotice(after.names, p) != [])
  {
    var init, last := inputs[..|inputs| - 1], inputs[|inputs| - 1];
    var before := Run(Start(start), init);
    StepNotice(before, last);
    AgeBound(start, inputs);
    if AddressIn(last.packet).Some? && AddressIn(last.packet).value.query.Some? {
      NamesAreLatestQuestions(start, inputs, AddressIn(last.packet).value.query.value);
    }
  }

  // ----- every packet's own notification -----

  /** A notification of a packet as such, not of a stored request. */
  predicate IsPlain(n: Notice) {
    n.Network? && !IsHttp(n)
  }

  function OnlyPlain(trace: seq<Entry>): seq<Entry> {
    if trace == [] then []
    else OnlyPlain(trace[..|trace| - 1]) + if IsPlain(trace[|trace| - 1].notice) then [trace[|trace| - 1]] else []
  }

  /** The first of the responses that is four octets long has a null queryer. */
  ghost predicate LacksQuery(responses: seq<DnsAnswer>) {
    exists k :: 0 <= k < |responses| && responses[k].dataLen == 4 && responses[k].query == None
                && forall j :: 0 <= j < k ==> responses[j].dataLen != 4
  }

  lemma {:induction false} LacksQueryExactly(responses: seq<DnsAnswer>)
    ensures LacksQuery(responses) <==> FirstAddress(responses).Some? && FirstAddress(responses).value.query == None
  {
    if responses != [] && responses[0].dataLen != 4 {
      var rest := responses[1..];
      LacksQueryExactly(rest);
      if LacksQuery(rest) {
        var k :| 0 <= k < |rest| && rest[k].dataLen == 4 && rest[k].query == None
                 && forall j :: 0 <= j < k ==> rest[j].dataLen != 4;
        assert forall j :: 0 < j <= k ==> responses[j] == rest[j - 1];
        assert responses[k + 1] == rest[k];
      }
      if LacksQuery(responses) {
        var k :| 0 <= k < |responses| && responses[k].dataLen == 4 && responses[k].query == None
                 && forall j :: 0 <= j < k ==> responses[j].dataLen != 4;
        assert forall j :: 0 <= j < k - 1 ==> rest[j] == responses[j + 1];
        assert rest[k - 1] == responses[k];
      }
    }
  }

  /** A message on port 53 that the parser does not get through, or from port 53 whose first address lacks its query. */
  ghost predicate BreaksOff(conn: Conn, dns: DnsInfo) {
    && (conn.sourcePort == 53 || conn.destinationPort == 53)
    && (dns.faulted || (conn.sourcePort == 53 && LacksQuery(dns.responses)))
  }

  /** The packets that fault: such messages, and on TCP, off port 53, requests whose URL has a negative length. */
  lemma FaultsExactly(p: Packet)
    ensures Faults(p)
       <==> || ((p.body.Udp? || p.body.Tcp?) && BreaksOff(p.body.conn, p.body.dns))
            || (p.body.Tcp? && p.body.conn.sourcePort != 53 && p.body.conn.destinationPort != 53
                && p.body.http == NegativeLength)
  {
    if p.body.Udp? || p.body.Tcp? {
      LacksQueryExactly(p.body.dns.responses);
    }
  }

  /** What is owed to a packet itself: one notification for UDP, whatever it carries, and one for TCP if it carries a
      DNS message that does not break off, or off port 53 neither an HTTP request nor an HTTP response. */
  ghost function Owed(p: Packet): seq<Entry> {
    match p.body
    case NotIp => []
    case OtherProtocol => []
    case Udp(conn, _) => [Entry(p.time, Network(conn, NP_UDP, None, p.time, 0))]
    case Tcp(conn, dns, http) =>
      if (if conn.sourcePort == 53 || conn.destinationPort == 53 then !BreaksOff(conn, dns) else http == OtherPayload)
      then [Entry(p.time, Network(conn, NP_TCP, None, p.time, 0))]
      else []
  }

  ghost function AllOwed(inputs: seq<Input>): seq<Entry> {
    if inputs == [] then [] else AllOwed(inputs[..|inputs| - 1]) + Owed(inputs[|inputs| - 1].packet)
  }

  lemma {:induction false} OnlyPlainAppend(a: seq<Entry>, b: seq<Entry>)
    ensures OnlyPlain(a + b) == OnlyPlain(a) + OnlyPlain(b)
    decreases |b|
  {
    if b == [] {
      assert a + b == a;
    } else {
      assert (a + b)[..|a + b| - 1] == a + b[..|b| - 1];
      OnlyPlainAppend(a, b[..|b| - 1]);
    }
  }

  lemma {:induction false} NoPlain(es: seq<Entry>)
    requires forall i :: 0 <= i < |es| ==> !IsPlain(es[i].notice)
    ensures OnlyPlain(es) == []
    decreases |es|
  {
    if es != [] {
      NoPlain(es[..|es| - 1]);
    }
  }

  lemma AddPlain(trace: seq<Entry>, e: Entry)
    requires IsPlain(e.notice)
    ensures OnlyPlain(trace + [e]) == OnlyPlain(trace) + [e]
  {
    assert (trace + [e])[..|trace|] == trace;
  }

  lemma AddOther(trace: seq<Entry>, es: seq<Entry>)
    requires forall i :: 0 <= i < |es| ==> !IsPlain(es[i].notice)
    ensures OnlyPlain(trace + es) == OnlyPlain(trace)
  {
    OnlyPlainAppend(trace, es);
    NoPlain(es);
  }

  lemma CheckDnsPlain(s: State, now: int, conn: Conn, dns: DnsInfo)
    ensures OnlyPlain(CheckDns(s, now, conn, dns).trace) == OnlyPlain(s.trace)
  {
    var added := CheckDnsTrace(s, now, conn, dns);
    hide OnlyPlain, CheckDns;
    AddOther(s.trace, added);
  }

  lemma HandlePlain(s: State, p: Packet)
    ensures OnlyPlain(Handle(s, p).trace) == OnlyPlain(s.trace) + Owed(p)
  {
    hide OnlyPlain, CheckDns, LacksQuery, HttpEntries;
    match p.body
    case NotIp =>
    case OtherProtocol =>
    case Udp(conn, dns) =>
      AddPlain(s.trace, Entry(p.time, Network(conn, NP_UDP, None, p.time, 0)));
      CheckDnsPlain(Notified(s, p.time, conn, NP_UDP), p.time, conn, dns);
    case Tcp(conn, dns, http) =>
      LacksQueryExactly(dns.responses);
      var e := Entry(p.time, Network(conn, NP_TCP, None, p.time, 0));
      if IsDns(conn) {
        CheckDnsPlain(s, p.time, conn, dns);
        AddPlain(CheckDns(s, p.time, conn, dns).trace, e);
      } else {
        AddPlain(s.trace, e);
        AnsweredPlain(s, p.time, conn);
      }
  }

  lemma AnsweredPlain(s: State, now: int, conn: Conn)
    ensures OnlyPlain(Answered(s, now, conn).trace) == OnlyPlain(s.trace)
  {
    var key := Trackers.Reversed(conn);
    if key in s.pending {
      AddOther(s.trace, HttpEntries(now, conn, s.pending[key], 0));
    }
  }

  /** In every run the notifications that are about no stored request and no name are exactly those owed to its
      packets, each once, in the order of the packets. */
  lemma {:induction false} PlainNoticesAreOwed(start: int, inputs: seq<Input>)
    ensures OnlyPlain(Run(Start(start), inputs).trace) == AllOwed(inputs)
    decreases |inputs|
  {
    if inputs != [] {
      var init, last := inputs[..|inputs| - 1], inputs[|inputs| - 1];
      var s, now := Run(Start(start), init), last.packet.time;
      PlainNoticesAreOwed(start, init);
      hide OnlyPlain, Handle, Owed, SweepEntries;
      SweepIsJustified(s.pending, now, last.order);
      AddOther(s.trace, SweepEntries(s.pending, now, last.order));
      HandlePlain(CleanUp(s, now, last.order), last.packet);
    }
  }
}
