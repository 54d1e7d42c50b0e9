/** A lookup from end to end: the octets of a query and of its reply, and the one notification that they cause. */
module DnsLookups {
  import opened Options
  import opened Splitting
  import opened DnsNames
  import opened DnsWalks
  import opened DnsPackets
  import opened DnsContexts
  import opened DnsTracking
  import opened TailQueues
  import opened TrackerRuns
  import Trackers

  /** The message of len octets starts with its header and these questions. */
  ghost predicate Carries(packet: Packet, len: word, qs: seq<Question>) {
    && HEADER_SIZE <= len <= |packet|
    && qs != [] && GoodQuery(HeaderOf(packet)) && HeaderOf(packet).numQueries == |qs| && ValidQuestions(qs)
    && At(Payload(packet), 0, QuestionsWire(qs)) && |QuestionsWire(qs)| <= len - HEADER_SIZE && Fits(len - HEADER_SIZE)
  }

  /** The name that a message asks about, as the tracker keeps it. */
  ghost function Asked(qs: seq<Question>): string
    requires qs != []
  {
    Text(NameText(qs[0].labels))
  }

  ghost predicate QueryMessage(packet: Packet, len: word, qs: seq<Question>) {
    Carries(packet, len, qs) && IsQuery(HeaderOf(packet))
  }

  /** A reply whose records are all taken. */
  ghost predicate ReplyOfRecords(packet: Packet, len: word, qs: seq<Question>, rs: seq<Record>) {
    && Carries(packet, len, qs) && !IsQuery(HeaderOf(packet))
    && HeaderOf(packet).numAnswers == |rs| && 1 <= |rs| <= MAX_DNS_REQUESTS
    && (forall i :: 0 <= i < |qs| ==> ScanSafe(qs[i]))
    && (forall i :: 0 <= i < |rs| ==> ValidRecord(rs[i]))
    && At(Payload(packet), 0, QuestionsWire(qs) + RecordsWire(rs))
    && |QuestionsWire(qs) + RecordsWire(rs)| <= len - HEADER_SIZE <= SHORT_PAYLOAD
    && AllTaken(packet, len - HEADER_SIZE, |QuestionsWire(qs)|, rs)
  }

  /** Record k of such a reply is an address, and none before it keeps four octets. */
  ghost predicate ReplyMessage(packet: Packet, len: word, qs: seq<Question>, rs: seq<Record>, k: nat) {
    && ReplyOfRecords(packet, len, qs, rs)
    && k < |rs| && rs[k].rtype == HOST_ADDRESS && |rs[k].data| == 4
    && forall i :: 0 <= i < k ==> !RecordKeepsFour(rs[i])
  }

  lemma FirstIsRead(packet: Packet, len: word, qs: seq<Question>)
    requires Carries(packet, len, qs)
    ensures FirstQuestion(packet, len - HEADER_SIZE) == First(Meaning(qs[0]))
    ensures QueriesAdded(packet, len - HEADER_SIZE, HeaderOf(packet)) == Copies(Meaning(qs[0]), |qs|)
  {
    hide FirstQuestion, Meaning;
    FirstQuestionOfMany(packet, len - HEADER_SIZE, qs);
    QueriesAddedExactly(packet, len - HEADER_SIZE, HeaderOf(packet), qs);
  }

  /** The tracker learns the name that a query asks about, and nothing else. */
  lemma QueryIsLearnt(packet: Packet, len: word, qs: seq<Question>)
    requires QueryMessage(packet, len, qs)
    ensures MessageInfo(packet, len) == Trackers.DnsInfo(Copies(Asked(qs), |qs|), [], false)
  {
    FirstIsRead(packet, len, qs);
    hide FirstQuestion, QueriesAdded, Carries, NameText, Text, HeaderOf;
    assert |qs| > 0 by { assert Carries(packet, len, qs); }
  }

  /** Two names are remembered under one key exactly when they have the same pieces between dots up to the first NUL;
      without dots and NULs in their labels, exactly when they are the same name. */
  lemma KeysTellNames(packet: Packet, len: word, qs: seq<Question>, packet': Packet, len': word, qs': seq<Question>)
    requires QueryMessage(packet, len, qs) && QueryMessage(packet', len', qs')
    ensures var keys, keys' := MessageInfo(packet, len).queries, MessageInfo(packet', len').queries;
            && |keys| == |qs| && |keys'| == |qs'|
            && (forall i :: 0 <= i < |keys| ==> keys[i] == keys[0])
            && (keys[0] == keys'[0] <==> TextPieces(qs[0].labels) == TextPieces(qs'[0].labels))
            && (Free(qs[0].labels, DOT) && Free(qs'[0].labels, DOT)
                && Free(qs[0].labels, 0) && Free(qs'[0].labels, 0) ==>
                  (keys[0] == keys'[0] <==> qs[0].labels == qs'[0].labels))
  {
    hide MessageInfo, NameText, TextPieces, Text;
    QueryIsLearnt(packet, len, qs);
    QueryIsLearnt(packet', len', qs');
    TextsDistinguishNames(qs[0], qs'[0]);
    TextsDiffer(NameText(qs[0].labels), NameText(qs'[0].labels));
  }

  lemma FirstOfFour(responses: seq<Trackers.DnsAnswer>, k: nat)
    requires k < |responses| && responses[k].dataLen == 4
    requires forall i :: 0 <= i < k ==> responses[i].dataLen != 4
    ensures Trackers.FirstAddress(responses) == Some(responses[k])
    decreases k
  {
    if k > 0 {
      FirstOfFour(responses[1..], k - 1);
    }
  }

  lemma AnswersAreTaken(packet: Packet, len: word, qs: seq<Question>, rs: seq<Record>)
    requires ReplyOfRecords(packet, len, qs, rs)
    ensures ReadableMessage(packet, len)
    ensures MessageAnswers(packet, len) == AllPlaced(rs, |QuestionsWire(qs)|)
    ensures MessageQueries(packet, len) == Copies(Meaning(qs[0]), |qs|)
  {
    hide FirstQuestion, QueriesAdded, ReplyAnswers, HeaderOf, ReplyOfRecords, Carries, AllPlaced, QuestionsWire;
    ReplyIsGood(packet, len, qs, rs);
    FirstIsRead(packet, len, qs);
    RecordsAreFound(packet, len, qs, rs);
  }

  lemma ReplyIsGood(packet: Packet, len: word, qs: seq<Question>, rs: seq<Record>)
    requires ReplyOfRecords(packet, len, qs, rs)
    ensures Carries(packet, len, qs) && HEADER_SIZE <= len && qs != [] && ValidQuestions(qs)
    ensures Readable(Payload(packet), 0, len - HEADER_SIZE)
    ensures !IsQuery(HeaderOf(packet)) && GoodReply(HeaderOf(packet))
    ensures forall i :: 0 <= i < |rs| ==> ValidRecord(rs[i])
  {
    hide At, AllTaken, RecordKeepsFour, QuestionsWire, RecordsWire, HeaderOf;
  }

  lemma RecordsAreFound(packet: Packet, len: word, qs: seq<Question>, rs: seq<Record>)
    requires ReplyOfRecords(packet, len, qs, rs)
    ensures Readable(Payload(packet), 0, len - HEADER_SIZE)
    ensures forall i :: 0 <= i < |rs| ==> ValidRecord(rs[i])
    ensures ReplyAnswers(packet, len - HEADER_SIZE, HeaderOf(packet)) == Answers(0, AllPlaced(rs, |QuestionsWire(qs)|))
  {
    hide At, AllTaken, RecordKeepsFour, QuestionsWire, RecordsWire, HeaderOf, ReplyAnswers, AllPlaced, ValidRecord;
    ReplyIsRead(packet, len - HEADER_SIZE, HeaderOf(packet), qs, rs);
  }

  /** From a reply the tracker learns the same name, with the address of the record. */
  lemma ReplyIsLearnt(packet: Packet, len: word, qs: seq<Question>, rs: seq<Record>, k: nat)
    requires ReplyMessage(packet, len, qs, rs, k)
    ensures !MessageInfo(packet, len).faulted
    ensures Trackers.FirstAddress(MessageInfo(packet, len).responses)
         == Some(Trackers.DnsAnswer(Some(Asked(qs)), 4, Leading(rs[k].data)))
  {
    hide ReplyMessage, MessageAnswers, MessageQueries, AllPlaced, KeepsFour, DataOf, Asked, Payload, QuestionsWire;
    hide ReadableMessage, Meaning, ValidQuestion, ReplyOfRecords;
    assert ReplyOfRecords(packet, len, qs, rs) by { ReplyHasRecords(packet, len, qs, rs, k); }
    ReplyIsGood(packet, len, qs, rs);
    AnswersAreTaken(packet, len, qs, rs);
    KeptOfReply(packet, len, qs, rs, k);
    var payload, answers, info := Payload(packet), MessageAnswers(packet, len), MessageInfo(packet, len);
    forall i | 0 <= i <= k ensures info.responses[i].dataLen == 4 <==> KeepsFour(payload, answers[i]) {
      AnswerSeen(payload, Some(Asked(qs)), answers[i]);
    }
    AskedIsMeant(qs);
    FirstOfFour(info.responses, k);
  }

  lemma ReplyHasRecords(packet: Packet, len: word, qs: seq<Question>, rs: seq<Record>, k: nat)
    requires ReplyMessage(packet, len, qs, rs, k)
    ensures ReplyOfRecords(packet, len, qs, rs)
  {
    hide ReplyOfRecords;
  }

  // ----- the context after such a reply -----

  lemma ReplyIsCounted(packet: Packet, len: word, qs: seq<Question>, rs: seq<Record>, queryer: Elem?<Query>)
    requires ReplyOfRecords(packet, len, qs, rs)
    ensures HEADER_SIZE <= len && ReadableMessage(packet, len)
    ensures !IsQuery(HeaderOf(packet)) && GoodReply(HeaderOf(packet))
    ensures |QueriesAdded(packet, len - HEADER_SIZE, HeaderOf(packet))| == |qs|
    ensures var payload, reply := Payload(packet), ReplyAnswers(packet, len - HEADER_SIZE, HeaderOf(packet));
            && reply.Answers? && reply.ret == 0 && |reply.recorded| == |rs|
            && AddressCount(payload, reply.recorded)
            == (|set i | 0 <= i < |rs| && rs[i].rtype == 1 && |rs[i].data| == 4|)
            && AliasCount(payload, reply.recorded)
            == (|set i | 0 <= i < |rs| && rs[i].rtype == 5 && |rs[i].data| > 4|)
            && forall i :: 0 <= i < |rs| ==> Queued(rs[i], queryer, ResponsesOf(payload, queryer, reply.recorded)[i])
  {
    hide ReadableMessage, QueriesAdded, ReplyAnswers, AddressCount, AliasCount, ResponsesOf, Queued, FirstQuestion;
    hide HeaderOf, AllPlaced, QuestionsWire, RecordsWire, At, AllTaken, ReplyOfRecords, Carries;
    ReplyIsGood(packet, len, qs, rs);
    AnswersAreTaken(packet, len, qs, rs);
    FirstIsRead(packet, len, qs);
    RecordsAreFound(packet, len, qs, rs);
    RecordsStand(packet, len, qs, rs);
    var payloadLen, offset := len - HEADER_SIZE, |QuestionsWire(qs)|;
    RecordsAreCounted(packet, payloadLen, offset, rs);
    AllPlacedLength(rs, offset);
    forall i | 0 <= i < |rs|
      ensures Queued(rs[i], queryer, ResponsesOf(Payload(packet), queryer, AllPlaced(rs, offset))[i])
    {
      RecordIsQueued(packet, payloadLen, offset, rs, i, queryer);
    }
  }

  lemma RecordsStand(packet: Packet, len: word, qs: seq<Question>, rs: seq<Record>)
    requires ReplyOfRecords(packet, len, qs, rs)
    ensures HEADER_SIZE <= len && forall i :: 0 <= i < |rs| ==> ValidRecord(rs[i])
    ensures At(Payload(packet), |QuestionsWire(qs)|, RecordsWire(rs))
    ensures |QuestionsWire(qs)| + |RecordsWire(rs)| <= len - HEADER_SIZE
    ensures AllTaken(packet, len - HEADER_SIZE, |QuestionsWire(qs)|, rs)
  {
    hide QuestionsWire, RecordsWire, AllTaken, ValidRecord;
    AtSplit(Payload(packet), 0, QuestionsWire(qs), RecordsWire(rs));
  }

  /** A response is queued for a record with its queryer and the record's type, class and time to live; of its data are
      kept the four octets of an address, the text of a canonical name of more than four, and otherwise nothing. */
  ghost predicate Queued(r: Record, queryer: Elem?<Query>, response: Response) {
    && response.queryer == queryer
    && response.rtype == r.rtype && response.rclass == r.rclass && response.ttl == r.ttl
    && (r.rtype == 5 && |r.data| > 4 ==> AliasSafe(r))
    && response.data == if r.rtype == 1 && |r.data| == 4 then Address(r.data)
                        else if r.rtype == 5 && |r.data| > 4 then Alias(FieldText(KeptAlias(r)))
                        else NoData
  }

  lemma RecordIsQueued(packet: Packet, payloadLen: word, offset: nat, rs: seq<Record>, k: nat, queryer: Elem?<Query>)
    requires k < |rs| && forall i :: 0 <= i < |rs| ==> ValidRecord(rs[i])
    requires At(Payload(packet), offset, RecordsWire(rs)) && AllTaken(packet, payloadLen, offset, rs)
    requires offset + |RecordsWire(rs)| <= payloadLen
    ensures |AllPlaced(rs, offset)| == |rs|
    ensures Queued(rs[k], queryer, ResponsesOf(Payload(packet), queryer, AllPlaced(rs, offset))[k])
  {
    hide At, AllTaken, RecordsWire, ValidRecord, AllPlaced, ResponsesOf, FieldText, FieldWalk;
    RecordsKeep(packet, payloadLen, offset, rs, k, queryer);
  }

  /** ProDNSParse on such a reply, on the fields of its context: as many queries more as questions, as many addresses
      as address records of four octets, as many canonical names as there are of more than four octets, modulo 65536;
      and each record is queued, in order. */
  method ParseReply(ctx: DnsContext, packet: array<byte>, len: word, ghost qs: seq<Question>, ghost rs: seq<Record>)
    returns (faulted: bool, ret: int)
    requires ctx.Valid() && packet.Length >= HEADER_SIZE && ReplyOfRecords(packet[..], len, qs, rs)
    modifies packet, ctx, ctx.querys, ctx.querys.Cells(), ctx.responses, ctx.responses.Cells()
    ensures packet[..] == old(packet[..]) && ctx.Valid() && !faulted && ret == 0
    ensures ctx.queryNum == (old(ctx.queryNum) + |qs|) % 0x1_0000
    ensures ctx.responseAddrNum
         == (old(ctx.responseAddrNum) + |set i | 0 <= i < |rs| && rs[i].rtype == 1 && |rs[i].data| == 4|) % 0x1_0000
    ensures ctx.responseDomainNum
         == (old(ctx.responseDomainNum) + |set i | 0 <= i < |rs| && rs[i].rtype == 5 && |rs[i].data| > 4|) % 0x1_0000
    ensures |ctx.Responses()| == |old(ctx.Responses())| + |rs| && old(ctx.Responses()) <= ctx.Responses()
    ensures forall i :: 0 <= i < |rs| ==>
              Queued(rs[i], ctx.querys.head.first, ctx.Responses()[|old(ctx.Responses())| + i])
  {
    hide ReadableMessage, QueriesAdded, ReplyAnswers, AddressCount, AliasCount, ResponsesOf, Queued, ReplyOfRecords;
    hide HeaderOf, FirstQuestion;
    assert HEADER_SIZE <= len <= packet.Length by { LengthIsThere(packet[..], len, qs, rs); }
    faulted, ret := ctx.ProDnsParse(packet, len);
    ReplyIsCounted(packet[..], len, qs, rs, ctx.querys.head.first);
  }

  lemma LengthIsThere(packet: Packet, len: word, qs: seq<Question>, rs: seq<Record>)
    requires ReplyOfRecords(packet, len, qs, rs)
    ensures HEADER_SIZE <= len <= |packet|
  {
  }

  lemma AskedIsMeant(qs: seq<Question>)
    requires qs != [] && ValidQuestions(qs)
    ensures Text(Meaning(qs[0]).name) == Asked(qs)
  {
  }

  lemma KeptOfReply(packet: Packet, len: word, qs: seq<Question>, rs: seq<Record>, k: nat)
    requires ReplyMessage(packet, len, qs, rs, k)
    ensures forall i :: 0 <= i < |rs| ==> ValidRecord(rs[i])
    ensures var payload, answers := Payload(packet), AllPlaced(rs, |QuestionsWire(qs)|);
            && k < |rs| == |answers|
            && KeepsFour(payload, answers[k]) && DataOf(payload, answers[k]) == Address(rs[k].data)
            && forall i :: 0 <= i < k ==> !KeepsFour(payload, answers[i])
  {
    hide KeepsFour, RecordKeepsFour, DataOf, AllPlaced, AllTaken, ValidRecord, RecordsWire, QuestionsWire, Carries, At;
    var offset := |QuestionsWire(qs)|;
    AtSplit(Payload(packet), 0, QuestionsWire(qs), RecordsWire(rs));
    AllPlacedLength(rs, offset);
    forall i | 0 <= i <= k
      ensures KeepsFour(Payload(packet), AllPlaced(rs, offset)[i]) <==> RecordKeepsFour(rs[i])
    {
      RecordsKeep(packet, len - HEADER_SIZE, offset, rs, i, null);
    }
    RecordsKeep(packet, len - HEADER_SIZE, offset, rs, k, null);
    AddressKeepsFour(rs[k]);
  }

  lemma AddressKeepsFour(r: Record)
    requires r.rtype == HOST_ADDRESS && |r.data| == 4
    ensures RecordKeepsFour(r)
  {
  }

  // ----- the run -----

  /** The latest question about n comes no earlier than any question about n. */
  lemma {:induction false} AskedSince(start: int, inputs: seq<Input>, n: string, i: nat)
    requires Monotone(start, inputs) && i < |inputs| && Asks(inputs[i].packet, n)
    ensures LastAsked(inputs, n).Some?
    ensures inputs[i].packet.time <= LastAsked(inputs, n).value <= Clock(start, inputs)
    ensures (forall j :: i < j < |inputs| ==> !Asks(inputs[j].packet, n)) ==>
              LastAsked(inputs, n).value == inputs[i].packet.time
    decreases |inputs|
  {
    var init, last := inputs[..|inputs| - 1], inputs[|inputs| - 1];
    MonotoneInit(start, inputs);
    if !Asks(last.packet, n) {
      AskedSince(start, init, n, i);
      assert forall j :: i < j < |init| ==> init[j] == inputs[j];
    }
  }

  /** packet carries the message to, respectively from, the DNS port. */
  ghost predicate Carrier(p: Trackers.Packet, message: seq<byte>, len: word) {
    (p.body.Udp? || p.body.Tcp?) && p.body.dns == MessageInfo(message, len)
  }

  /** In every run with nondecreasing times: when a query about a name has been seen less than 15 seconds ago, and the
      packet at hand carries a reply about that name with an address, this packet causes exactly one DNS notification -
      with the name, the record's address, and the time of the latest question, which is the query's own if nobody has
      asked for the name since. */
  lemma LookupIsNotified(start: int, inputs: seq<Input>, i: nat, query: Packet, queryLen: word, qs: seq<Question>,
                         reply: Packet, replyLen: word, qs': seq<Question>, rs: seq<Record>, k: nat)
    requires Monotone(start, inputs) && i < |inputs| - 1
    requires QueryMessage(query, queryLen, qs) && ReplyMessage(reply, replyLen, qs', rs, k)
    requires qs[0].labels == qs'[0].labels
    requires Carrier(inputs[i].packet, query, queryLen)
    requires inputs[i].packet.body.conn.destinationPort == Trackers.DNS_PORT
    requires var p := inputs[|inputs| - 1].packet;
             && Carrier(p, reply, replyLen) && p.body.conn.sourcePort == Trackers.DNS_PORT
             && p.time - inputs[i].packet.time < Trackers.REQUEST_TIMEOUT
    ensures var init, p := inputs[..|inputs| - 1], inputs[|inputs| - 1].packet;
            var before, after := Run(Start(start), init), Run(Start(start), inputs);
            var asked := LastAsked(inputs, Asked(qs));
            && asked.Some? && inputs[i].packet.time <= asked.value
            && ((forall j :: i < j < |inputs| ==> !Asks(inputs[j].packet, Asked(qs))) ==>
                  asked.value == inputs[i].packet.time)
            && OnlyDns(after.trace)
            == OnlyDns(before.trace)
               + [Trackers.Entry(p.time, Trackers.Dns(p.body.conn, Asked(qs), Leading(rs[k].data), asked.value))]
  {
    QueryIsLearnt(query, queryLen, qs);
    ReplyIsLearnt(reply, replyLen, qs', rs, k);
    assert Asked(qs) in Copies(Asked(qs), |qs|) by { assert Copies(Asked(qs), |qs|)[0] == Asked(qs); }
    assert Asked(qs) == Asked(qs');
    hide MessageInfo, QueryMessage, ReplyMessage, Run, LastAsked, OnlyDns, Asked;
    AskedSince(start, inputs, Asked(qs), i);
    DnsNoticesAreTimely(start, inputs);
  }

  // ----- such messages exist -----

  /** A question for the address of "a", and a record that answers it, its owner a pointer to the question. */
  const QUESTION := Question([[97]], HOST_ADDRESS, DNS_CLASS_IN)
  const ADDRESS := Record([], [0xC0, 12], HOST_ADDRESS, DNS_CLASS_IN, 0, [127, 0, 0, 1])

  /** A query with this question, and a reply with this record, in 19 and 35 octets. */
  ghost function QueryForA(): Packet {
    [0, 0, 0, 0, 0, 1, 0, 0, 0, 0, 0, 0, 1, 97, 0, 0, 1, 0, 1]
  }

  ghost function ReplyForA(): Packet {
    [0, 0, 0x80, 0, 0, 1, 0, 1, 0, 0, 0, 0, 1, 97, 0, 0, 1, 0, 1,
     0xC0, 12, 0, 1, 0, 1, 0, 0, 0, 0, 0, 4, 127, 0, 0, 1]
  }

  lemma QuestionForA()
    ensures ValidQuestion(QUESTION) && ScanSafe(QUESTION)
    ensures QuestionsWire([QUESTION]) == [1, 97, 0, 0, 1, 0, 1]
  {
    assert [[97]][1..] == [];
    assert [QUESTION][1..] == [];
    assert Encoded(QUESTION.labels) == [1, 97];
    assert QuestionsWire([QUESTION]) == QuestionWire(QUESTION) == [1, 97] + [0] + [0, 1] + [0, 1];
  }

  lemma AddressOfA()
    ensures ValidRecord(ADDRESS) && Accepted(ADDRESS) && PlainAlias(ADDRESS)
    ensures RecordsWire([ADDRESS]) == [0xC0, 12, 0, 1, 0, 1, 0, 0, 0, 0, 0, 4, 127, 0, 0, 1]
  {
    assert Encoded(ADDRESS.labels) == [];
    OneRecord(ADDRESS);
    WireOfA();
  }

  lemma OneRecord(r: Record)
    requires ValidRecord(r)
    ensures RecordsWire([r]) == RecordWire(r)
  {
    hide RecordWire;
    assert [r][1..] == [];
  }

  lemma WireOfA()
    requires ValidRecord(ADDRESS)
    ensures RecordWire(ADDRESS) == [0xC0, 12, 0, 1, 0, 1, 0, 0, 0, 0, 0, 4, 127, 0, 0, 1]
  {
    assert Octets(0) == [0, 0] && Octets(1) == [0, 1] && Octets(4) == [0, 4];
    assert Encoded(ADDRESS.labels) == [];
    hide Octets, Encoded;
    assert RecordWire(ADDRESS)
        == [0xC0, 12] + ([0, 1] + ([0, 1] + ([0, 0] + ([0, 0] + ([0, 4] + [127, 0, 0, 1])))));
  }

  /** They are messages of which LookupIsNotified speaks. */
  lemma LookupOfA()
    ensures ValidRecord(ADDRESS)
    ensures QueryMessage(QueryForA(), 19, [QUESTION])
    ensures ReplyMessage(ReplyForA(), 35, [QUESTION], [ADDRESS], 0)
  {
    hide QuestionsWire, RecordsWire, AllTaken, ScanSafe, ValidQuestion, ValidRecord, Accepted, PlainAlias, Payload;
    hide HeaderOf, At, QueryMessage, ReplyMessage, QueryForA, ReplyForA;
    AddressOfA();
    QueryOctets();
    ReplyOctets();
    QueryStands(QueryForA());
    ReplyStands(ReplyForA());
  }

  lemma QueryOctets()
    ensures |QueryForA()| == 19 && HeaderOf(QueryForA()) == Header(0, 0, 1, 0, 0, 0)
    ensures Payload(QueryForA()) == QuestionsWire([QUESTION])
  {
    hide QuestionsWire;
    QuestionForA();
  }

  lemma ReplyOctets()
    ensures |ReplyForA()| == 35 && HeaderOf(ReplyForA()) == Header(0, 0x8000, 1, 1, 0, 0)
    ensures ValidRecord(ADDRESS) && Payload(ReplyForA()) == QuestionsWire([QUESTION]) + RecordsWire([ADDRESS])
  {
    hide QuestionsWire, RecordsWire, ValidRecord, HeaderOf, Payload, ReplyForA;
    QuestionForA();
    AddressOfA();
    ReplyHead();
    ReplyPayload();
  }

  lemma ReplyHead()
    ensures |ReplyForA()| == 35 && HeaderOf(ReplyForA()) == Header(0, 0x8000, 1, 1, 0, 0)
  {
    assert ReplyForA()[..12] == [0, 0, 0x80, 0, 0, 1, 0, 1, 0, 0, 0, 0];
    HeadIsRead(ReplyForA());
    hide ReplyForA;
  }

  lemma HeadIsRead(packet: Packet)
    requires packet[..12] == [0, 0, 0x80, 0, 0, 1, 0, 1, 0, 0, 0, 0]
    ensures HeaderOf(packet) == Header(0, 0x8000, 1, 1, 0, 0)
  {
    assert forall i :: 0 <= i < 12 ==> packet[i] == packet[..12][i];
  }

  lemma ReplyPayload()
    ensures Payload(ReplyForA())
         == [1, 97, 0, 0, 1, 0, 1] + [0xC0, 12, 0, 1, 0, 1, 0, 0, 0, 0, 0, 4, 127, 0, 0, 1]
  {
  }

  lemma QueryStands(query: Packet)
    requires |query| == 19 && Payload(query) == QuestionsWire([QUESTION])
    requires HeaderOf(query) == Header(0, 0, 1, 0, 0, 0)
    ensures QueryMessage(query, 19, [QUESTION])
  {
    hide QuestionsWire, ScanSafe, ValidQuestion, HeaderOf;
    QuestionForA();
  }

  lemma ReplyStands(reply: Packet)
    requires ValidRecord(ADDRESS)
    requires |reply| == 35 && Payload(reply) == QuestionsWire([QUESTION]) + RecordsWire([ADDRESS])
    requires HeaderOf(reply) == Header(0, 0x8000, 1, 1, 0, 0)
    ensures ReplyMessage(reply, 35, [QUESTION], [ADDRESS], 0)
  {
    hide QuestionsWire, RecordsWire, AllTaken, ScanSafe, ValidQuestion, ValidRecord, Accepted, PlainAlias, HeaderOf;
    QuestionForA();
    AddressOfA();
    assert At(Payload(reply), 0, QuestionsWire([QUESTION]) + RecordsWire([ADDRESS]));
    hide At;
    AtSplit(Payload(reply), 0, QuestionsWire([QUESTION]), RecordsWire([ADDRESS]));
    AddressInReach();
    RecordsInReach(reply, 23, 7, [ADDRESS]);
  }

  lemma AddressInReach()
    requires ValidRecord(ADDRESS)
    ensures InReach([ADDRESS], 7, 23)
  {
    assert [ADDRESS][1..] == [];
  }

  function LookupRun(c: Trackers.Conn, d: Trackers.Conn, t: int, query: Trackers.DnsInfo, reply: Trackers.DnsInfo)
    : seq<Input>
  {
    [Input(Trackers.Packet(t, Trackers.Udp(c, query)), []), Input(Trackers.Packet(t + 1, Trackers.Udp(d, reply)), [])]
  }

  /** The whole lookup: from the octets of the query, and of the reply a second later, comes the one notification that
      "a" is at 127.0.0.1. */
  lemma LookupOfAIsNotified(c: Trackers.Conn, d: Trackers.Conn, t: int)
    requires c.destinationPort == 53 && d.sourcePort == 53 && d.destinationPort != 53
    ensures var inputs := LookupRun(c, d, t, MessageInfo(QueryForA(), 19), MessageInfo(ReplyForA(), 35));
            OnlyDns(Run(Start(t), inputs).trace) == [Trackers.Entry(t + 1, Trackers.Dns(d, "a", 0x7F00_0001, t))]
  {
    hide MessageInfo, QueryMessage, ReplyMessage, QueryForA, ReplyForA, Asked, OnlyDns, Run, LastAsked;
    hide ADDRESS, QUESTION;
    var query, reply := MessageInfo(QueryForA(), 19), MessageInfo(ReplyForA(), 35);
    var inputs := LookupRun(c, d, t, query, reply);
    LookupOfA();
    AskedIsA();
    QueryIsLearnt(QueryForA(), 19, [QUESTION]);
    QueryIsQuiet(c, d, t, query, reply);
    LookupIsNotified(t, inputs, 0, QueryForA(), 19, [QUESTION], ReplyForA(), 35, [QUESTION], [ADDRESS], 0);
  }

  lemma QueryIsQuiet(c: Trackers.Conn, d: Trackers.Conn, t: int, query: Trackers.DnsInfo, reply: Trackers.DnsInfo)
    requires query.responses == []
    ensures OnlyDns(Run(Start(t), LookupRun(c, d, t, query, reply)[..1]).trace) == []
  {
    var inputs := LookupRun(c, d, t, query, reply)[..1];
    assert inputs[..0] == [];
    DnsNoticesAreTimely(t, inputs);
    hide Trackers.Step;
    assert Run(Start(t), inputs[..0]).trace == [];
  }

  /** The counters and the one response that parsing this reply leaves in a fresh context. */
  method ParseReplyForA(packet: array<byte>) returns (ctx: DnsContext)
    requires packet[..] == ReplyForA()
    modifies packet
    ensures fresh(ctx) && ctx.queryNum == 1 && ctx.responseAddrNum == 1 && ctx.responseDomainNum == 0
    ensures |ctx.Responses()| == 1
    ensures var r := ctx.Responses()[0];
            r.rtype == 1 && r.rclass == 1 && r.ttl == 0 && r.data == Address([127, 0, 0, 1])
  {
    hide ReplyForA, ReplyMessage, ReplyOfRecords, AliasSafe, FieldText, KeptAlias;
    LookupOfA();
    ReplyHasRecords(ReplyForA(), 35, [QUESTION], [ADDRESS], 0);
    OneAddress([ADDRESS]);
    ctx := new DnsContext();
    var faulted, ret := ParseReply(ctx, packet, 35, [QUESTION], [ADDRESS]);
  }

  lemma OneAddress(rs: seq<Record>)
    requires |rs| == 1 && rs[0].rtype == 1 && |rs[0].data| == 4
    ensures |set i | 0 <= i < |rs| && rs[i].rtype == 1 && |rs[i].data| == 4| == 1
    ensures |set i | 0 <= i < |rs| && rs[i].rtype == 5 && |rs[i].data| > 4| == 0
  {
    assert (set i | 0 <= i < |rs| && rs[i].rtype == 1 && |rs[i].data| == 4) == {0};
    assert (set i | 0 <= i < |rs| && rs[i].rtype == 5 && |rs[i].data| > 4) == {};
  }

  lemma AskedIsA()
    ensures Asked([QUESTION]) == "a" && Leading(ADDRESS.data) == 0x7F00_0001
  {
  }
}
