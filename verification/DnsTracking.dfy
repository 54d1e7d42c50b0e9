/** What the tracker learns from a DNS message: the octets of a packet, the context that the parser fills from them,
    and when looking into that context reads through a null pointer. */
module DnsTracking {
  import opened Options
  import opened DnsNames
  import opened DnsWalks
  import opened DnsPointers
  import opened DnsPackets
  import opened DnsContexts
  import opened TailQueues
  import Trackers

  /** A C string as the tracker's std::string. */
  function Text(octets: seq<byte>): (r: string)
    ensures |r| == |octets| && forall i :: 0 <= i < |octets| ==> r[i] as int == octets[i]
  {
    seq(|octets|, i requires 0 <= i < |octets| => octets[i] as char)
  }

  lemma TextsDiffer(a: seq<byte>, b: seq<byte>)
    ensures Text(a) == Text(b) <==> a == b
  {
    if Text(a) == Text(b) {
      assert forall i :: 0 <= i < |a| ==> a[i] == Text(a)[i] as int == b[i];
    }
  }

  /** The address field of a response: the first four octets of its data. */
  function AddressOf(data: Rdata): int {
    match data
    case NoData => 0
    case Address(o) => Leading(o)
    case Alias(o) => Leading(o)
  }

  function Leading(o: seq<byte>): int {
    if |o| < 4 then 0 else Word(o[0], o[1]) * 0x1_0000 + Word(o[2], o[3])
  }

  /** The address is notified with its first octet in front. */
  lemma AddressIsInOrder(a: byte, b: byte, c: byte, d: byte)
    ensures AddressOf(Address([a, b, c, d])) == AddressOf(Alias([a, b, c, d]))
         == a * 0x100_0000 + b as int * 0x1_0000 + c as int * 0x100 + d as int
  {
  }

  function AnswerOf(r: Response): Trackers.DnsAnswer {
    Trackers.DnsAnswer(if r.queryer == null then None else Some(Text(r.queryer.value.name)),
                       r.DataLen(), AddressOf(r.data))
  }

  /** What the tracker's two loops see in a context. */
  ghost function InfoOf(ctx: DnsContext): Trackers.DnsInfo
    reads ctx, ctx.querys, ctx.responses
  {
    var queries, responses := ctx.Queries(), ctx.Responses();
    Trackers.DnsInfo(seq(|queries|, i requires 0 <= i < |queries| => Text(queries[i].name)),
                     seq(|responses|, i requires 0 <= i < |responses| => AnswerOf(responses[i])), false)
  }

  // ----- the same, read off the octets -----

  ghost function MessageQueries(packet: Packet, len: word): seq<Query>
    requires len >= HEADER_SIZE
  {
    var h := HeaderOf(packet);
    if IsQuery(h) || GoodReply(h) then QueriesAdded(packet, len - HEADER_SIZE, h) else []
  }

  ghost function MessageAnswers(packet: Packet, len: word): seq<Answer>
    requires len >= HEADER_SIZE && ReadableMessage(packet, len)
  {
    var h := HeaderOf(packet);
    if !IsQuery(h) && GoodReply(h) then ReplyAnswers(packet, len - HEADER_SIZE, h).recorded else []
  }

  /** Each answer is queued with the first question's text, if there is a first question. */
  ghost function MessageInfo(packet: seq<byte>, len: word): Trackers.DnsInfo {
    if |packet| < HEADER_SIZE || len < HEADER_SIZE then Trackers.DnsInfo([], [], false)
    else if !ReadableMessage(packet, len) then Trackers.DnsInfo([], [], true)
    else
      var queries, answers := MessageQueries(packet, len), MessageAnswers(packet, len);
      var query := if queries == [] then None else Some(Text(queries[0].name));
      Trackers.DnsInfo(seq(|queries|, i requires 0 <= i < |queries| => Text(queries[i].name)),
                       seq(|answers|, i requires 0 <= i < |answers| => AnswerInfo(Payload(packet), query, answers[i])),
                       false)
  }

  ghost function AnswerInfo(payload: seq<byte>, query: Option<string>, a: Answer): Trackers.DnsAnswer {
    var data := DataOf(payload, a);
    Trackers.DnsAnswer(query, Response(null, a.rtype, a.rclass, a.ttl, data).DataLen(), AddressOf(data))
  }

  /** check_source and check_destination up to their look at the context: a fresh context, filled from the message. */
  method ParseMessage(packet: array<byte>, len: word) returns (faulted: bool, ctx: DnsContext)
    requires packet.Length >= len as int
    modifies packet
    ensures packet[..] == old(packet[..])
    ensures fresh(ctx) && ctx.Valid()
    ensures faulted == MessageInfo(packet[..], len).faulted
    ensures !faulted ==> InfoOf(ctx) == MessageInfo(packet[..], len)
  {
    hide ReadableMessage, InfoOf, QueriesAdded, ReplyAnswers, ResponsesOf, FirstQuestion, AddressCount, AliasCount;
    ctx := new DnsContext();
    var ret;
    faulted, ret := ctx.ProDnsParse(packet, len);
    if len < HEADER_SIZE {
      NothingLearnt(ctx);
    } else if !faulted {
      InfoIsMessageInfo(ctx, packet[..], len);
    }
  }

  lemma NothingLearnt(ctx: DnsContext)
    requires ctx.Queries() == [] && ctx.Responses() == []
    ensures InfoOf(ctx) == Trackers.DnsInfo([], [], false)
  {
  }

  lemma InfoIsMessageInfo(ctx: DnsContext, packet: Packet, len: word)
    requires len >= HEADER_SIZE && ReadableMessage(packet, len)
    requires ctx.Valid() && ctx.Queries() == MessageQueries(packet, len)
    requires ctx.Responses() == ResponsesOf(Payload(packet), ctx.querys.head.first, MessageAnswers(packet, len))
    ensures InfoOf(ctx) == MessageInfo(packet, len)
  {
    hide ReadableMessage, MessageQueries, MessageAnswers, DataOf, Text;
    var info, expected := InfoOf(ctx), MessageInfo(packet, len);
    assert |info.queries| == |expected.queries| && |info.responses| == |expected.responses|;
    assert forall i :: 0 <= i < |info.queries| ==> info.queries[i] == expected.queries[i];
    forall i | 0 <= i < |info.responses| ensures info.responses[i] == expected.responses[i] {
      assert ctx.Responses()[i] == ResponseOf(Payload(packet), ctx.querys.head.first, MessageAnswers(packet, len)[i]);
    }
  }

  // ----- when the tracker reads through a null queryer -----

  /** An answer of whose data four octets are kept, which the tracker takes for an address. */
  ghost predicate KeepsFour(payload: seq<byte>, a: Answer) {
    match DataOf(payload, a)
    case NoData => false
    case Address(_) => true
    case Alias(name) => |name| == 4
  }

  lemma {:induction false} FirstAddressFound(responses: seq<Trackers.DnsAnswer>)
    ensures var first := Trackers.FirstAddress(responses);
            && (first.Some? <==> exists i :: 0 <= i < |responses| && responses[i].dataLen == 4)
            && (first.Some? ==> first.value in responses)
  {
    if responses != [] {
      FirstAddressFound(responses[1..]);
      assert forall i :: 1 <= i < |responses| ==> responses[i] == responses[1..][i - 1];
      assert forall i :: 0 <= i < |responses[1..]| ==> responses[1..][i] == responses[i + 1];
    }
  }

  /** A message from port 53 makes the tracker read through a null pointer exactly when it is a good reply whose
      first name is measured as nothing - its first octet is neither length nor pointer, or 254 octets of labels and
      a pointer stand there - and of one of whose recorded answers four octets of data are kept. */
  lemma NullQueryerExactly(conn: Trackers.Conn, packet: Packet, len: word)
    requires len >= HEADER_SIZE
    ensures Trackers.NullQueryer(conn, MessageInfo(packet, len))
       <==> && ReadableMessage(packet, len) && conn.sourcePort == Trackers.DNS_PORT
            && !IsQuery(HeaderOf(packet)) && GoodReply(HeaderOf(packet))
            && |packet| > HEADER_SIZE
            && (MAX_LABEL_LENGTH < packet[HEADER_SIZE] < MIN_POINTER_VALUE || RunsOver(packet, len, HEADER_SIZE))
            && exists i :: 0 <= i < |MessageAnswers(packet, len)|
                 && KeepsFour(Payload(packet), MessageAnswers(packet, len)[i])
  {
    hide FirstQuestion, RunsOver, ReplyAnswers, DataOf, KeepsFour, MessageInfo, ReadableMessage, HeaderOf;
    NoNameExactly(packet, len - HEADER_SIZE);
    if ReadableMessage(packet, len) {
      FirstIsLookedAt(packet, len);
      QueryIsMissing(packet, len);
    } else {
      NothingLookedAt(packet, len);
    }
  }

  lemma NothingLookedAt(packet: Packet, len: word)
    requires len >= HEADER_SIZE && !ReadableMessage(packet, len)
    ensures MessageInfo(packet, len).responses == []
  {
    hide ReadableMessage;
  }

  /** The tracker looks at an answer if four octets are kept of one; and there is a queryer if a query was added. */
  lemma FirstIsLookedAt(packet: Packet, len: word)
    requires len >= HEADER_SIZE && ReadableMessage(packet, len)
    ensures var answers := MessageAnswers(packet, len);
            var first := Trackers.FirstAddress(MessageInfo(packet, len).responses);
            && (first.Some? <==> exists i :: 0 <= i < |answers| && KeepsFour(Payload(packet), answers[i]))
            && (first.Some? ==> (first.value.query == None <==> MessageQueries(packet, len) == []))
  {
    hide ReadableMessage, MessageQueries, MessageAnswers, KeepsFour, AnswerInfo, Payload;
    var answers, info := MessageAnswers(packet, len), MessageInfo(packet, len);
    var queries := MessageQueries(packet, len);
    var query := if queries == [] then None else Some(Text(queries[0].name));
    FirstAddressFound(info.responses);
    forall i | 0 <= i < |answers|
      ensures info.responses[i].query == query
      ensures info.responses[i].dataLen == 4 <==> KeepsFour(Payload(packet), answers[i])
    {
      AnswerSeen(Payload(packet), query, answers[i]);
    }
  }

  lemma AnswerSeen(payload: seq<byte>, query: Option<string>, a: Answer)
    ensures AnswerInfo(payload, query, a).query == query
    ensures AnswerInfo(payload, query, a).dataLen == 4 <==> KeepsFour(payload, a)
  {
    FourOctets(payload, a);
  }

  /** A good reply adds no query exactly if its first name is measured as nothing; only good replies have answers. */
  lemma QueryIsMissing(packet: Packet, len: word)
    requires len >= HEADER_SIZE && ReadableMessage(packet, len)
    ensures var h := HeaderOf(packet);
            if !IsQuery(h) && GoodReply(h)
            then MessageQueries(packet, len) == [] <==> FirstQuestion(packet, len - HEADER_SIZE) == NoName
            else MessageAnswers(packet, len) == []
  {
    hide FirstQuestion, ReplyAnswers, HeaderOf;
  }

  lemma FourOctets(payload: seq<byte>, a: Answer)
    ensures DataOf(payload, a).Address? ==> |DataOf(payload, a).octets| == 4
  {
    hide FieldText, FieldWalk;
  }

  // ----- answers given as records -----

  /** Of the record's data four octets are kept: an address, or a canonical name whose text has four octets. */
  ghost predicate RecordKeepsFour(r: Record) {
    || (r.rtype == HOST_ADDRESS && |r.data| == 4)
    || (r.rtype == C_NAME && |r.data| > 4 && AliasSafe(r) && |FieldText(KeptAlias(r))| == 4)
  }

  /** What is kept of a record's data: the four octets of an address, the text of a canonical name of more than four. */
  lemma RecordKeeps(payload: seq<byte>, offset: nat, r: Record)
    requires ValidRecord(r) && At(payload, offset, RecordWire(r)) && AliasSafe(r)
    ensures DataOf(payload, Placed(r, offset))
         == if r.rtype == 1 && |r.data| == 4 then Address(r.data)
            else if r.rtype == 5 && |r.data| > 4 then Alias(FieldText(KeptAlias(r)))
            else NoData
    ensures KeepsFour(payload, Placed(r, offset)) <==> RecordKeepsFour(r)
  {
    hide FieldWalk, FieldText;
    PlacedIsReadable(payload, offset, r);
    RecordLayout(payload, offset, r);
    var at := offset + OwnerSize(r) + 10;
    AtIsSlice(payload, at, r.data);
    assert AliasWire(payload, at, |r.data|) == KeptAlias(r);
  }

  /** Where record k stands. */
  lemma {:induction false} PlacedAt(packet: Packet, payloadLen: word, offset: nat, rs: seq<Record>, k: nat)
    returns (at: nat)
    requires k < |rs| && forall i :: 0 <= i < |rs| ==> ValidRecord(rs[i])
    requires At(Payload(packet), offset, RecordsWire(rs)) && AllTaken(packet, payloadLen, offset, rs)
    requires offset + |RecordsWire(rs)| <= payloadLen
    ensures |AllPlaced(rs, offset)| == |rs| && AllPlaced(rs, offset)[k] == Placed(rs[k], at)
    ensures At(Payload(packet), at, RecordWire(rs[k])) && AliasSafe(rs[k])
    decreases |rs|
  {
    hide AliasSafe, OwnerMeasured, Accepted, Placed;
    RestFollows(packet, payloadLen, offset, rs);
    var next := offset + |RecordWire(rs[0])|;
    hide RecordWire, RecordsWire, At, ValidRecord;
    AllPlacedLength(rs, offset);
    if k == 0 {
      at := offset;
    } else {
      at := PlacedAt(packet, payloadLen, next, rs[1..], k - 1);
    }
  }

  /** Every record that is read back keeps what it is said to keep, and is queued with its own fields. */
  lemma RecordsKeep(packet: Packet, payloadLen: word, offset: nat, rs: seq<Record>, k: nat, queryer: Elem?<Query>)
    requires k < |rs| && forall i :: 0 <= i < |rs| ==> ValidRecord(rs[i])
    requires At(Payload(packet), offset, RecordsWire(rs)) && AllTaken(packet, payloadLen, offset, rs)
    requires offset + |RecordsWire(rs)| <= payloadLen
    ensures |AllPlaced(rs, offset)| == |rs| && AliasSafe(rs[k])
    ensures KeepsFour(Payload(packet), AllPlaced(rs, offset)[k]) <==> RecordKeepsFour(rs[k])
    ensures var r := ResponsesOf(Payload(packet), queryer, AllPlaced(rs, offset))[k];
            && r.queryer == queryer && r.rtype == rs[k].rtype && r.rclass == rs[k].rclass && r.ttl == rs[k].ttl
            && r.data == DataOf(Payload(packet), AllPlaced(rs, offset)[k])
            && r.data == if rs[k].rtype == 1 && |rs[k].data| == 4 then Address(rs[k].data)
                         else if rs[k].rtype == 5 && |rs[k].data| > 4 then Alias(FieldText(KeptAlias(rs[k])))
                         else NoData
  {
    hide KeepsFour, RecordKeepsFour, DataOf, AliasSafe, FieldText, FieldWalk, AllTaken, AllPlaced, ValidRecord;
    hide RecordsWire, RecordWire, At;
    var at := PlacedAt(packet, payloadLen, offset, rs, k);
    RecordKeeps(Payload(packet), at, rs[k]);
  }

  /** Of records that are read back the counters count the addresses and the canonical names of more than four
      octets. */
  lemma RecordsAreCounted(packet: Packet, payloadLen: word, offset: nat, rs: seq<Record>)
    requires forall i :: 0 <= i < |rs| ==> ValidRecord(rs[i])
    requires At(Payload(packet), offset, RecordsWire(rs)) && AllTaken(packet, payloadLen, offset, rs)
    requires offset + |RecordsWire(rs)| <= payloadLen
    ensures AddressCount(Payload(packet), AllPlaced(rs, offset))
         == |set i | 0 <= i < |rs| && rs[i].rtype == 1 && |rs[i].data| == 4|
    ensures AliasCount(Payload(packet), AllPlaced(rs, offset))
         == |set i | 0 <= i < |rs| && rs[i].rtype == 5 && |rs[i].data| > 4|
  {
    hide DataOf, AliasSafe, FieldText, AllTaken, AllPlaced, ValidRecord, RecordsWire, RecordWire, At, KeptAlias;
    var payload, answers := Payload(packet), AllPlaced(rs, offset);
    AllPlacedLength(rs, offset);
    forall i | 0 <= i < |rs|
      ensures DataOf(payload, answers[i]).Address? <==> rs[i].rtype == 1 && |rs[i].data| == 4
      ensures DataOf(payload, answers[i]).Alias? <==> rs[i].rtype == 5 && |rs[i].data| > 4
    {
      RecordsKeep(packet, payloadLen, offset, rs, i, null);
    }
    assert (set i | 0 <= i < |answers| && DataOf(payload, answers[i]).Address?)
        == set i | 0 <= i < |rs| && rs[i].rtype == 1 && |rs[i].data| == 4;
    assert (set i | 0 <= i < |answers| && DataOf(payload, answers[i]).Alias?)
        == set i | 0 <= i < |rs| && rs[i].rtype == 5 && |rs[i].data| > 4;
  }

  lemma {:induction false} AllPlacedLength(rs: seq<Record>, offset: nat)
    requires forall i :: 0 <= i < |rs| ==> ValidRecord(rs[i])
    ensures |AllPlaced(rs, offset)| == |rs|
    decreases |rs|
  {
    hide Placed, RecordWire, ValidRecord;
    if rs != [] {
      AllPlacedLength(rs[1..], offset + |RecordWire(rs[0])|);
    }
  }

  /** The same for a good reply whose answers stand in it as records, where the scan of the questions ends: it reads
      through a null pointer exactly when its first name is measured as nothing and a record keeps four octets. */
  lemma NullQueryerOfRecords(conn: Trackers.Conn, packet: Packet, len: word, offset: word, rs: seq<Record>)
    requires HEADER_SIZE <= len <= |packet| && len - HEADER_SIZE <= SHORT_PAYLOAD
    requires conn.sourcePort == Trackers.DNS_PORT && !IsQuery(HeaderOf(packet)) && GoodReply(HeaderOf(packet))
    requires HeaderOf(packet).numAnswers == |rs| && forall i :: 0 <= i < |rs| ==> ValidRecord(rs[i])
    requires SkipQuestions(Payload(packet), len - HEADER_SIZE, 0, HeaderOf(packet).numQueries) == Position(offset)
    requires At(Payload(packet), offset, RecordsWire(rs)) && offset + |RecordsWire(rs)| <= len - HEADER_SIZE
    requires AllTaken(packet, len - HEADER_SIZE, offset, rs)
    ensures Trackers.NullQueryer(conn, MessageInfo(packet, len))
       <==> && |packet| > HEADER_SIZE
            && (MAX_LABEL_LENGTH < packet[HEADER_SIZE] < MIN_POINTER_VALUE || RunsOver(packet, len, HEADER_SIZE))
            && exists i :: 0 <= i < |rs| && RecordKeepsFour(rs[i])
  {
    hide FirstQuestion, RunsOver, SkipQuestions, KeepsFour, RecordKeepsFour, AllTaken, AllPlaced, ValidRecord, At;
    hide MessageInfo, RecordsWire, HeaderOf, AnswersFrom;
    var payloadLen := len - HEADER_SIZE;
    AnswersAreRead(packet, payloadLen, offset, rs);
    var answers := AllPlaced(rs, offset);
    assert ReplyAnswers(packet, payloadLen, HeaderOf(packet)) == Answers(0, answers);
    hide ReplyAnswers;
    NoNameExactly(packet, payloadLen);
    NullQueryerExactly(conn, packet, len);
    AllPlacedLength(rs, offset);
    forall i | 0 <= i < |rs| ensures KeepsFour(Payload(packet), answers[i]) <==> RecordKeepsFour(rs[i]) {
      RecordsKeep(packet, payloadLen, offset, rs, i, null);
    }
    if FirstQuestion(packet, payloadLen) == NoName {
      assert ReadableMessage(packet, len) && MessageAnswers(packet, len) == answers;
      if i :| 0 <= i < |rs| && RecordKeepsFour(rs[i]) {
        assert KeepsFour(Payload(packet), MessageAnswers(packet, len)[i]);
      }
    }
  }

  /** Such replies exist: 33 octets with one question that starts with any octet from 64 to 191, and one address. */
  ghost function FaultingReply(first: byte): Packet {
    [0, 0, 0x80, 0, 0, 1, 0, 1, 0, 0, 0, 0,
     first, 0, 0, 0, 0,
     0, 0, 1, 0, 1, 0, 0, 0, 0, 0, 4, 127, 0, 0, 1, 0]
  }

  lemma FaultingReplyFaults(conn: Trackers.Conn, first: byte)
    requires conn.sourcePort == Trackers.DNS_PORT && MAX_LABEL_LENGTH < first < MIN_POINTER_VALUE
    ensures ReadableMessage(FaultingReply(first), 33)
    ensures Trackers.NullQueryer(conn, MessageInfo(FaultingReply(first), 33))
  {
    var packet := FaultingReply(first);
    FaultingMessage(first);
    FaultingPayload(first);
    AddressIsKept(Payload(packet), Answer(5, 1, HOST_ADDRESS, DNS_CLASS_IN, 0, 16, 4));
    hide MessageAnswers, KeepsFour, FaultingReply, ReadableMessage, MessageInfo;
    NullQueryerExactly(conn, packet, 33);
  }

  lemma FaultingMessage(first: byte)
    requires MAX_LABEL_LENGTH < first < MIN_POINTER_VALUE
    ensures var packet := FaultingReply(first);
            && packet[HEADER_SIZE] == first && HeaderOf(packet) == Header(0, 0x8000, 1, 1, 0, 0)
            && ReadableMessage(packet, 33)
            && MessageAnswers(packet, 33) == [Answer(5, 1, HOST_ADDRESS, DNS_CLASS_IN, 0, 16, 4)]
  {
    hide FaultingReply, FirstQuestion, HeaderOf, ReplyAnswers, RunsOver, Payload;
    FaultingHeader(first);
    FaultingAnswers(first);
    NoNameExactly(FaultingReply(first), 21);
  }

  lemma FaultingHeader(first: byte)
    ensures |FaultingReply(first)| == 33 && FaultingReply(first)[HEADER_SIZE] == first
    ensures HeaderOf(FaultingReply(first)) == Header(0, 0x8000, 1, 1, 0, 0)
  {
  }

  lemma FaultingAnswers(first: byte)
    ensures Readable(Payload(FaultingReply(first)), 0, 21)
    ensures ReplyAnswers(FaultingReply(first), 21, Header(0, 0x8000, 1, 1, 0, 0))
         == Answers(0, [Answer(5, 1, HOST_ADDRESS, DNS_CLASS_IN, 0, 16, 4)])
  {
    var packet := FaultingReply(first);
    FaultingPayload(first);
    FaultingSkip(Payload(packet));
    FaultingAnswer(first);
    hide FaultingReply, AnswerAt, SkipQuestions, Payload;
    OneAnswer(Reader(packet, 21), 5, Answer(5, 1, HOST_ADDRESS, DNS_CLASS_IN, 0, 16, 4), 20);
  }

  lemma OneAnswer(read: word -> Found, offset: word, a: Answer, next: word)
    requires read(offset) == Found(a, next)
    ensures AnswersFrom(read, offset, 1) == Answers(0, [a])
  {
    assert AnswersFrom(read, next, 0) == Answers(0, []);
  }

  lemma AddressIsKept(payload: seq<byte>, a: Answer)
    requires a.rtype == HOST_ADDRESS && a.dataLen == 4 && Readable(payload, a.dataAt, 4)
    ensures KeepsFour(payload, a)
  {
  }

  lemma FaultingSkip(payload: seq<byte>)
    requires |payload| == 21 && payload[1] == 0
    ensures SkipQuestions(payload, 21, 0, 1) == Position(5)
  {
    assert SkipQuestion(payload, 21, 0) == Position(5);
  }

  lemma FaultingPayload(first: byte)
    ensures Payload(FaultingReply(first))
         == [first, 0, 0, 0, 0, 0, 0, 1, 0, 1, 0, 0, 0, 0, 0, 4, 127, 0, 0, 1, 0]
  {
  }

  lemma FaultingAnswer(first: byte)
    ensures AnswerAt(FaultingReply(first), 21, 5) == Found(Answer(5, 1, HOST_ADDRESS, DNS_CLASS_IN, 0, 16, 4), 20)
  {
    hide FaultingReply, Payload, NameLengthAt, FieldsAt, FieldWalk;
    FaultingPayload(first);
    FaultingName(first);
    FaultingFields(Payload(FaultingReply(first)));
  }

  lemma FaultingName(first: byte)
    ensures NameLengthAt(FaultingReply(first), 21, 5) == Done(true, FaultingReply(first), 1)
  {
    assert FaultingReply(first)[17] == 0;
    hide FaultingReply;
    assert TurnAt(Accumulate, FaultingReply(first), 33, 17, 0, 0) == Stop(true, FaultingReply(first), 1);
  }

  lemma FaultingFields(payload: seq<byte>)
    requires |payload| == 21 && payload[6..] == [0, 1, 0, 1, 0, 0, 0, 0, 0, 4, 127, 0, 0, 1, 0]
    ensures FieldsAt(payload, 21, 5, 1) == Found(Answer(5, 1, HOST_ADDRESS, DNS_CLASS_IN, 0, 16, 4), 20)
  {
    SixBehind(payload);
    assert DataAt(21, 5, 1, HOST_ADDRESS, DNS_CLASS_IN, 0, 16, 4)
        == Found(Answer(5, 1, HOST_ADDRESS, DNS_CLASS_IN, 0, 16, 4), 20);
    hide Get16, Get32, DataAt;
    assert Wrap(5 + 1) == 6 && Wrap(6 + 2) == 8 && Wrap(8 + 2) == 10 && Wrap(10 + 4) == 14 && Wrap(14 + 2) == 16;
  }

  lemma SixBehind(payload: seq<byte>)
    requires |payload| == 21 && payload[6..] == [0, 1, 0, 1, 0, 0, 0, 0, 0, 4, 127, 0, 0, 1, 0]
    ensures Get16(payload, 6) == 1 && Get16(payload, 8) == 1 && Get32(payload, 10) == 0 && Get16(payload, 14) == 4
  {
    assert forall i :: 0 <= i < 15 ==> payload[6 + i] == payload[6..][i];
    assert payload[7] == payload[9] == 1 && payload[6] == payload[8] == 0 && payload[14] == 0 && payload[15] == 4;
    assert payload[10] == payload[11] == payload[12] == payload[13] == 0;
  }
}
