/** The DNS parser itself: the methods that fill a DNSContext from a message. */
module DnsContexts {
  import opened DnsNames
  import opened Splitting
  import opened DnsWalks
  import opened DnsPointers
  import opened DnsPackets
  import opened TailQueues

  /** The union at the end of a DNSResponse; NoData is its zeroed state. */
  datatype Rdata = NoData | Address(octets: seq<byte>) | Alias(name: seq<byte>)

  datatype Response = Response(queryer: Elem?<Query>, rtype: word, rclass: word, ttl: dword, data: Rdata) {
    function DataLen(): nat {
      match data
      case NoData => 0
      case Address(octets) => |octets|
      case Alias(name) => |name|
    }
  }

  /** The data DNSContextAddResponse keeps of an answer. */
  ghost function DataOf(payload: seq<byte>, a: Answer): Rdata {
    if !DataReadable(payload, a) then NoData
    else if a.rtype == HOST_ADDRESS && a.dataLen == 4 then Address(payload[a.dataAt..a.dataAt + 4])
    else if a.rtype == C_NAME && a.dataLen > 4 then Alias(FieldText(AliasWire(payload, a.dataAt, a.dataLen)))
    else NoData
  }

  ghost function ResponseOf(payload: seq<byte>, queryer: Elem?<Query>, a: Answer): Response {
    Response(queryer, a.rtype, a.rclass, a.ttl, DataOf(payload, a))
  }

  ghost function ResponsesOf(payload: seq<byte>, queryer: Elem?<Query>, answers: seq<Answer>): (r: seq<Response>)
    ensures |r| == |answers|
    ensures forall i :: 0 <= i < |answers| ==> r[i] == ResponseOf(payload, queryer, answers[i])
  {
    seq(|answers|, i requires 0 <= i < |answers| => ResponseOf(payload, queryer, answers[i]))
  }

  lemma ResponsesAppend(payload: seq<byte>, queryer: Elem?<Query>, answers: seq<Answer>, a: Answer,
                        before: seq<Response>)
    ensures before + ResponsesOf(payload, queryer, answers) + [ResponseOf(payload, queryer, a)]
         == before + ResponsesOf(payload, queryer, answers + [a])
  {
  }

  /** How many of the answers add to the address counter, respectively to the counter of canonical names. */
  ghost function AddressCount(payload: seq<byte>, answers: seq<Answer>): nat {
    |set i | 0 <= i < |answers| && DataOf(payload, answers[i]).Address?|
  }

  ghost function AliasCount(payload: seq<byte>, answers: seq<Answer>): nat {
    |set i | 0 <= i < |answers| && DataOf(payload, answers[i]).Alias?|
  }

  lemma NothingCounted(payload: seq<byte>)
    ensures AddressCount(payload, []) == AliasCount(payload, []) == 0
  {
    var none: seq<Answer> := [];
    assert (set i | 0 <= i < |none| && DataOf(payload, none[i]).Address?) == {};
    assert (set i | 0 <= i < |none| && DataOf(payload, none[i]).Alias?) == {};
  }

  lemma AddressesAppend(payload: seq<byte>, answers: seq<Answer>, a: Answer)
    ensures AddressCount(payload, answers + [a])
         == AddressCount(payload, answers) + if DataOf(payload, a).Address? then 1 else 0
  {
    hide DataOf;
    var more := answers + [a];
    var counted := set i | 0 <= i < |answers| && DataOf(payload, answers[i]).Address?;
    assert more[|answers|] == a && forall i :: 0 <= i < |answers| ==> more[i] == answers[i];
    assert (set i | 0 <= i < |more| && DataOf(payload, more[i]).Address?)
        == if DataOf(payload, a).Address? then counted + {|answers|} else counted;
  }

  lemma AliasesAppend(payload: seq<byte>, answers: seq<Answer>, a: Answer)
    ensures AliasCount(payload, answers + [a])
         == AliasCount(payload, answers) + if DataOf(payload, a).Alias? then 1 else 0
  {
    hide DataOf;
    var more := answers + [a];
    var counted := set i | 0 <= i < |answers| && DataOf(payload, answers[i]).Alias?;
    assert more[|answers|] == a && forall i :: 0 <= i < |answers| ==> more[i] == answers[i];
    assert (set i | 0 <= i < |more| && DataOf(payload, more[i]).Alias?)
        == if DataOf(payload, a).Alias? then counted + {|answers|} else counted;
  }

  function Increased(x: word, n: nat): word {
    (x + n) % 0x1_0000
  }

  lemma IncreasedTwice(x: word, n: nat, m: nat)
    ensures Increased(Increased(x, n), m) == Increased(x, n + m)
  {
  }

  /** The counters of a context: queries, addresses and canonical names. */
  datatype Tally = Tally(queries: word, addresses: word, aliases: word) {
    /** The counters when queries, addresses and aliases more have been seen. */
    function Plus(queries: nat, addresses: nat, aliases: nat): Tally {
      Tally(Increased(this.queries, queries), Increased(this.addresses, addresses), Increased(this.aliases, aliases))
    }
  }

  lemma PlusMeans(t: Tally, queries: nat, addresses: nat, aliases: nat)
    ensures t.Plus(queries, addresses, aliases)
         == Tally((t.queries + queries) % 0x1_0000, (t.addresses + addresses) % 0x1_0000,
                  (t.aliases + aliases) % 0x1_0000)
  {
  }

  lemma TallyNothing(t: Tally)
    ensures t.Plus(0, 0, 0) == t
    ensures Increased(t.queries, 0) == t.queries
    ensures Increased(t.addresses, 0) == t.addresses && Increased(t.aliases, 0) == t.aliases
  {
  }

  lemma TallyTwice(t: Tally, q: nat, a: nat, d: nat, q': nat, a': nat, d': nat)
    ensures t.Plus(q, a, d).Plus(q', a', d') == t.Plus(q + q', a + a', d + d')
  {
    IncreasedTwice(t.queries, q, q');
    IncreasedTwice(t.addresses, a, a');
    IncreasedTwice(t.aliases, d, d');
  }

  /** The first question, case by case, as it is parsed. */
  lemma QuestionCases(packet: Packet, payloadLen: word)
    ensures var first, m := FirstQuestion(packet, payloadLen), NameLengthAt(packet, payloadLen, 0);
            if m.Fault? then first == UnreadableQuestion
            else if m.param == 0 then first == NoName
            else if |packet| < HEADER_SIZE + m.param as int + 4 then first == UnreadableQuestion
            else
              var wire, payload := packet[HEADER_SIZE..HEADER_SIZE + m.param], Payload(packet);
              first == if FieldWalk(wire).Fault? then UnreadableQuestion
                       else First(Query(FieldText(wire), Get16(payload, m.param), Get16(payload, m.param + 2)))
  {
    hide FieldWalk, FieldText, Measured, Get16;
    var m := NameLengthAt(packet, payloadLen, 0);
    if m.Done? && Readable(Payload(packet), 0, m.param) {
      PayloadSlice(packet, 0, m.param);
    }
  }

  lemma PayloadSlice(packet: Packet, offset: nat, n: nat)
    requires Readable(Payload(packet), offset, n)
    ensures packet[HEADER_SIZE + offset..HEADER_SIZE + offset + n] == Payload(packet)[offset..offset + n]
  {
  }

  // ----- the header -----

  predicate GoodQuery(h: Header) {
    0 < h.numQueries <= MAX_DNS_REQUESTS
  }

  predicate GoodReply(h: Header) {
    && GoodQuery(h)
    && (0 < h.numAnswers <= MAX_DNS_REQUESTS || 0 < h.authorityRrs <= MAX_DNS_REQUESTS
        || 0 < h.additionalRrs <= MAX_DNS_REQUESTS)
  }

  /** The answers of a good reply: the loop starts where the question section has been skipped. */
  ghost function ReplyAnswers(packet: Packet, payloadLen: word, h: Header): Answers
    requires Readable(Payload(packet), 0, payloadLen)
  {
    match SkipQuestions(Payload(packet), payloadLen, 0, h.numQueries)
    case UnreadablePosition => UnreadableAnswers
    case Position(offset) => AnswersFrom(Reader(packet, payloadLen), offset, h.numAnswers)
  }

  /** Parsing the questions and answers of a good reply touches no octet that is not there. */
  ghost predicate ReadableReply(packet: Packet, payloadLen: word, h: Header) {
    && Readable(Payload(packet), 0, payloadLen)
    && FirstQuestion(packet, payloadLen) != UnreadableQuestion
    && ReplyAnswers(packet, payloadLen, h) != UnreadableAnswers
  }

  /** The responses queued for the answers of a good reply. */
  ghost function RepliesAdded(packet: Packet, payloadLen: word, h: Header, queryer: Elem?<Query>): seq<Response>
    requires ReadableReply(packet, payloadLen, h)
  {
    ResponsesOf(Payload(packet), queryer, ReplyAnswers(packet, payloadLen, h).recorded)
  }

  lemma NoAnswers(read: word -> Found, payload: seq<byte>, queryer: Elem?<Query>)
    ensures forall offset: word :: AnswersFrom(read, offset, 0) == Answers(0, [])
    ensures AddressCount(payload, []) == AliasCount(payload, []) == 0
    ensures ResponsesOf(payload, queryer, []) == []
  {
    NothingCounted(payload);
  }

  /** The six header fields, in network byte order. */
  function HeaderOf(packet: Packet): Header {
    Header(Word(packet[0], packet[1]), Word(packet[2], packet[3]), Word(packet[4], packet[5]),
           Word(packet[6], packet[7]), Word(packet[8], packet[9]), Word(packet[10], packet[11]))
  }

  const FLAGS_MASK: word := 0x8000

  predicate IsQuery(h: Header) { h.flags < FLAGS_MASK }

  /** What is parsed at all: a message with 1 to 16 questions whose third octet is below 128, a query; and a reply with
      1 to 16 questions, and 1 to 16 answers, authority or additional records.  Otherwise no query is added. */
  lemma ParsedExactly(packet: Packet, payloadLen: word)
    ensures var questions, answers := packet[4] as int * 0x100 + packet[5], packet[6] as int * 0x100 + packet[7];
            var authority, additional := packet[8] as int * 0x100 + packet[9], packet[10] as int * 0x100 + packet[11];
            && (IsQuery(HeaderOf(packet)) <==> packet[2] < 128)
            && (GoodQuery(HeaderOf(packet)) <==> 1 <= questions <= 16)
            && (GoodReply(HeaderOf(packet))
                <==> 1 <= questions <= 16 && (1 <= answers <= 16 || 1 <= authority <= 16 || 1 <= additional <= 16))
            && (questions == 0 || questions > 16 ==> QueriesAdded(packet, payloadLen, HeaderOf(packet)) == [])
  {
    hide FirstQuestion;
  }

  /** The octets that parsing a message of len octets touches are there. */
  ghost predicate ReadableMessage(packet: Packet, len: word)
    requires len >= HEADER_SIZE
  {
    var h, payloadLen := HeaderOf(packet), len - HEADER_SIZE;
    if IsQuery(h) then GoodQuery(h) ==> FirstQuestion(packet, payloadLen) != UnreadableQuestion
    else GoodReply(h) ==> ReadableReply(packet, payloadLen, h)
  }

  /** The queries that a message adds: as many copies of the first question as the header announces questions. */
  ghost function QueriesAdded(packet: Packet, payloadLen: word, h: Header): seq<Query> {
    match FirstQuestion(packet, payloadLen)
    case First(q) => if GoodQuery(h) then Copies(q, h.numQueries) else []
    case _ => []
  }

  // ----- what a well-formed message yields -----

  ghost predicate ValidQuestions(qs: seq<Question>) {
    forall i :: 0 <= i < |qs| ==> ValidQuestion(qs[i])
  }

  ghost function Meanings(qs: seq<Question>): (r: seq<Query>)
    requires ValidQuestions(qs)
    ensures |r| == |qs| && forall i :: 0 <= i < |qs| ==> r[i] == Meaning(qs[i])
  {
    seq(|qs|, i requires 0 <= i < |qs| => Meaning(qs[i]))
  }

  /** The query loop restarts at offset 0 on every turn.  What it records is therefore the question section
      exactly when every question means the same as the first. */
  lemma QueriesAddedExactly(packet: Packet, payloadLen: word, h: Header, qs: seq<Question>)
    requires GoodQuery(h) && h.numQueries == |qs| && ValidQuestions(qs)
    requires At(Payload(packet), 0, QuestionsWire(qs))
    requires |QuestionsWire(qs)| <= payloadLen && Fits(payloadLen)
    ensures QueriesAdded(packet, payloadLen, h) == Copies(Meaning(qs[0]), |qs|)
    ensures QueriesAdded(packet, payloadLen, h) == Meanings(qs)
       <==> forall i :: 0 <= i < |qs| ==> Meaning(qs[i]) == Meaning(qs[0])
  {
    hide FirstQuestion, Meaning, ValidQuestion, At, Fits, QuestionsWire, Payload;
    FirstQuestionOfMany(packet, payloadLen, qs);
    CopiesOrMeanings(qs);
  }

  lemma FirstQuestionOfMany(packet: Packet, payloadLen: word, qs: seq<Question>)
    requires qs != [] && ValidQuestions(qs)
    requires At(Payload(packet), 0, QuestionsWire(qs))
    requires |QuestionsWire(qs)| <= payloadLen && Fits(payloadLen)
    ensures FirstQuestion(packet, payloadLen) == First(Meaning(qs[0]))
  {
    hide QuestionWire, FirstQuestion, Meaning;
    AtSplit(Payload(packet), 0, QuestionWire(qs[0]), QuestionsWire(qs[1..]));
    FirstQuestionIsRead(packet, payloadLen, qs[0]);
  }

  lemma CopiesOrMeanings(qs: seq<Question>)
    requires qs != [] && ValidQuestions(qs)
    ensures Copies(Meaning(qs[0]), |qs|) == Meanings(qs)
       <==> forall i :: 0 <= i < |qs| ==> Meaning(qs[i]) == Meaning(qs[0])
  {
    hide Meaning, ValidQuestion;
    var copies, meanings := Copies(Meaning(qs[0]), |qs|), Meanings(qs);
    assert forall i :: 0 <= i < |qs| ==> copies[i] == Meaning(qs[0]) && meanings[i] == Meaning(qs[i]);
  }

  /** A reply of scan-safe questions and any records: exactly its records are found, in order, each at its place in
      the payload, if and only if the loop takes each of them there. */
  lemma ReplyIsRead(packet: Packet, payloadLen: word, h: Header, qs: seq<Question>, rs: seq<Record>)
    requires h.numQueries == |qs| && h.numAnswers == |rs|
    requires ValidQuestions(qs) && forall i :: 0 <= i < |qs| ==> ScanSafe(qs[i])
    requires forall i :: 0 <= i < |rs| ==> ValidRecord(rs[i])
    requires At(Payload(packet), 0, QuestionsWire(qs) + RecordsWire(rs))
    requires |QuestionsWire(qs) + RecordsWire(rs)| <= payloadLen <= SHORT_PAYLOAD
    requires Readable(Payload(packet), 0, payloadLen)
    ensures ReplyAnswers(packet, payloadLen, h) == Answers(0, AllPlaced(rs, |QuestionsWire(qs)|))
       <==> AllTaken(packet, payloadLen, |QuestionsWire(qs)|, rs)
  {
    hide At, QuestionsWire, RecordsWire, AllTaken, AllPlaced, AnswersFrom, SkipQuestions, ValidQuestion, ValidRecord;
    AtSplit(Payload(packet), 0, QuestionsWire(qs), RecordsWire(rs));
    SkipQuestionsExactly(Payload(packet), payloadLen, 0, qs);
    AnswersAreRead(packet, payloadLen, |QuestionsWire(qs)|, rs);
  }

  /** Accepted records with well-formed canonical names, in the first 256 octets of the message, are always found. */
  lemma UsualReplyIsRead(packet: Packet, payloadLen: word, h: Header, qs: seq<Question>, rs: seq<Record>)
    requires h.numQueries == |qs| && h.numAnswers == |rs|
    requires ValidQuestions(qs) && forall i :: 0 <= i < |qs| ==> ScanSafe(qs[i])
    requires forall i :: 0 <= i < |rs| ==> ValidRecord(rs[i]) && PlainAlias(rs[i]) && Accepted(rs[i])
    requires At(Payload(packet), 0, QuestionsWire(qs) + RecordsWire(rs))
    requires |QuestionsWire(qs) + RecordsWire(rs)| <= payloadLen <= SHORT_PAYLOAD
    requires Readable(Payload(packet), 0, payloadLen)
    requires InReach(rs, |QuestionsWire(qs)|, payloadLen)
    ensures ReplyAnswers(packet, payloadLen, h) == Answers(0, AllPlaced(rs, |QuestionsWire(qs)|))
  {
    AtSplit(Payload(packet), 0, QuestionsWire(qs), RecordsWire(rs));
    RecordsInReach(packet, payloadLen, |QuestionsWire(qs)|, rs);
    ReplyIsRead(packet, payloadLen, h, qs, rs);
  }

  /** What is kept of a record's data: the four octets of an address; of a well-formed canonical name longer than
      four octets its text - for an uncompressed name its labels up to the first NUL, and so too for a compressed
      one whose pointer lands harmlessly. */
  lemma RecordDataIsKept(payload: seq<byte>, offset: nat, r: Record, ls: Labels, end: seq<byte>)
    requires ValidRecord(r) && At(payload, offset, RecordWire(r))
    ensures r.rtype == HOST_ADDRESS && |r.data| == 4 ==> DataOf(payload, Placed(r, offset)) == Address(r.data)
    ensures r.rtype == C_NAME && 4 < |r.data| && NameShape(r.data, ls, end) && IsTerminator(end) && !Strays(ls, end) ==>
              && !FieldWalk(r.data).Fault?
              && DataOf(payload, Placed(r, offset)) == Alias(FieldText(r.data))
              && (end == [0] || LandsHarmlessly(ls, end[1]) ==> FieldText(r.data) == NameText(ls))
  {
    hide FieldWalk, FieldText;
    RecordLayout(payload, offset, r);
    var at := offset + OwnerSize(r) + 10;
    AtIsSlice(payload, at, r.data);
    if r.rtype == C_NAME && 4 < |r.data| && NameShape(r.data, ls, end) && IsTerminator(end) && !Strays(ls, end) {
      FieldFaults(r.data, ls, end);
      assert AliasWire(payload, at, |r.data|) == r.data;
      assert ls != [];
      if end == [0] {
        TextOfName(ls);
      } else if LandsHarmlessly(ls, end[1]) {
        TextIsKept(ls, end);
      }
    }
  }

  class DnsContext {
    const querys: TailQueue<Query>
    const responses: TailQueue<Response>
    var head: Header
    var queryNum: word
    var responseAddrNum: word
    var responseDomainNum: word

    ghost predicate Valid()
      reads this, querys, querys.links, responses, responses.links
    {
      querys.Valid() && responses.Valid()
    }

    ghost function Queries(): seq<Query>
      reads this, querys
    {
      ValuesOf(querys.elems)
    }

    ghost function Responses(): seq<Response>
      reads this, responses
    {
      ValuesOf(responses.elems)
    }

    ghost function Counters(): Tally
      reads this
    {
      Tally(queryNum, responseAddrNum, responseDomainNum)
    }

    // DNSContextAlloc
    constructor ()
      ensures Valid() && Queries() == [] && Responses() == []
      ensures Counters() == Tally(0, 0, 0)
      ensures fresh(querys) && fresh(querys.Cells()) && fresh(responses) && fresh(responses.Cells())
    {
      querys := new TailQueue();
      responses := new TailQueue();
      head := Header(0, 0, 0, 0, 0, 0);
      queryNum, responseAddrNum, responseDomainNum := 0, 0, 0;
    }

    /** faulted, here and below: the code touches an octet outside the memory it was given. */
    method AddQuery(packet: array<byte>, nameLen: byte, qtype: word, qclass: word) returns (faulted: bool)
      requires Valid()
      requires 1 <= nameLen && HEADER_SIZE + nameLen <= packet.Length
      modifies querys, querys.Cells()
      ensures Valid() && fresh(querys.Cells() - old(querys.Cells()))
      ensures var wire := packet[HEADER_SIZE..HEADER_SIZE + nameLen];
              && faulted == FieldWalk(wire).Fault?
              && Queries() == old(Queries()) + if faulted then [] else [Query(FieldText(wire), qtype, qclass)]
    {
      hide FieldWalk, FieldText;
      var text;
      faulted, text := FieldTextOf(packet, HEADER_SIZE, nameLen);
      if !faulted {
        var query := new Elem(Query(text, qtype, qclass));
        ValuesAppend(querys.elems, query);
        querys.InsertTail(query);
      }
    }

    // the end of DNSContextAddResponse: count the response and queue it
    method QueueResponse(a: Answer, data: Rdata)
      requires Valid()
      modifies this`responseAddrNum, this`responseDomainNum, responses, responses.Cells()
      ensures Valid() && fresh(responses.Cells() - old(responses.Cells()))
      ensures querys.head.first == old(querys.head.first)
      ensures Responses() == old(Responses()) + [Response(querys.head.first, a.rtype, a.rclass, a.ttl, data)]
      ensures responseAddrNum == (old(responseAddrNum) + if data.Address? then 1 else 0) % 0x1_0000
      ensures responseDomainNum == (old(responseDomainNum) + if data.Alias? then 1 else 0) % 0x1_0000
      ensures Counters() == old(Counters()).Plus(0, if data.Address? then 1 else 0, if data.Alias? then 1 else 0)
    {
      hide Increased;
      TallyNothing(Counters());
      PlusMeans(Counters(), 0, if data.Address? then 1 else 0, if data.Alias? then 1 else 0);
      match data {
        case NoData =>
        case Address(_) => responseAddrNum := Increased(responseAddrNum, 1);
        case Alias(_) => responseDomainNum := Increased(responseDomainNum, 1);
      }
      var resp := new Elem(Response(querys.head.first, a.rtype, a.rclass, a.ttl, data));
      ValuesAppend(responses.elems, resp);
      responses.InsertTail(resp);
    }

    method AddResponse(packet: array<byte>, a: Answer) returns (faulted: bool)
      requires Valid() && packet.Length >= HEADER_SIZE
      modifies this`responseAddrNum, this`responseDomainNum, responses, responses.Cells()
      ensures Valid() && fresh(responses.Cells() - old(responses.Cells()))
      ensures querys.head.first == old(querys.head.first)
      ensures faulted == !DataReadable(Payload(packet[..]), a)
      ensures Responses() == old(Responses())
                + if faulted then [] else [ResponseOf(Payload(packet[..]), querys.head.first, a)]
      ensures !faulted ==>
                var data := DataOf(Payload(packet[..]), a);
                && responseAddrNum == (old(responseAddrNum) + if data.Address? then 1 else 0) % 0x1_0000
                && responseDomainNum == (old(responseDomainNum) + if data.Alias? then 1 else 0) % 0x1_0000
      ensures var data := DataOf(Payload(packet[..]), a);
              Counters() == if faulted then old(Counters())
                            else old(Counters()).Plus(0, if data.Address? then 1 else 0, if data.Alias? then 1 else 0)
    {
      hide DataReadable, DataOf;
      var data;
      faulted, data := ReadData(packet, a);
      if !faulted {
        QueueResponse(a, data);
      }
    }

    // the body of the query loop, which starts at offset 0 on every turn
    method ParseQuestion(packet: array<byte>, payloadLen: word) returns (faulted: bool, ret: int)
      requires Valid() && packet.Length >= HEADER_SIZE
      modifies packet, this`queryNum, querys, querys.Cells()
      ensures packet[..] == old(packet[..])
      ensures Valid() && fresh(querys.Cells() - old(querys.Cells()))
      ensures faulted == FirstQuestion(packet[..], payloadLen).UnreadableQuestion?
      ensures match FirstQuestion(packet[..], payloadLen)
              case First(q) => ret == 0 && Queries() == old(Queries()) + [q] && queryNum == Increased(old(queryNum), 1)
              case _ => ret == 1 && Queries() == old(Queries()) && queryNum == old(queryNum)
    {
      hide FieldWalk, FieldText, NameLengthAt, Increased, FirstQuestion, Get16;
      ret := 1;
      QuestionCases(packet[..], payloadLen);
      var nameLen, qtype, qclass;
      faulted, nameLen, qtype, qclass := ReadQuestion(packet, payloadLen);
      if faulted || nameLen == 0 {
        return;
      }
      faulted := AddQuery(packet, nameLen, qtype, qclass);
      if !faulted {
        queryNum := Increased(queryNum, 1);
        ret := 0;
      }
    }

    method ProDnsQueryParse(h: Header, packet: array<byte>, payloadLen: word) returns (faulted: bool, ret: int)
      requires Valid() && packet.Length >= HEADER_SIZE
      modifies packet, this`queryNum, querys, querys.Cells()
      ensures packet[..] == old(packet[..])
      ensures Valid() && fresh(querys.Cells() - old(querys.Cells()))
      ensures faulted == (GoodQuery(h) && FirstQuestion(packet[..], payloadLen).UnreadableQuestion?)
      ensures ret == if GoodQuery(h) && FirstQuestion(packet[..], payloadLen).First? then 0 else 1
      ensures Queries() == old(Queries()) + QueriesAdded(packet[..], payloadLen, h)
      ensures queryNum == Increased(old(queryNum), |QueriesAdded(packet[..], payloadLen, h)|)
    {
      hide FirstQuestion, Increased;
      TallyNothing(Counters());
      faulted, ret := false, 0;
      if h.numQueries > 0 && h.numQueries <= MAX_DNS_REQUESTS {
        ghost var first := FirstQuestion(packet[..], payloadLen);
        ghost var added: seq<Query> := [];
        var i := 0;
        while i < h.numQueries && ret == 0
          invariant packet[..] == old(packet[..])
          invariant Valid() && fresh(querys.Cells() - old(querys.Cells()))
          invariant 0 <= i <= h.numQueries
          invariant Queries() == old(Queries()) + added && queryNum == Increased(old(queryNum), |added|)
          invariant faulted == (i > 0 && first.UnreadableQuestion?)
          invariant ret == if i > 0 && !first.First? then 1 else 0
          invariant if first.First? then added == Copies(first.query, i) else added == []
        {
          faulted, ret := ParseQuestion(packet, payloadLen);
          if ret == 0 {
            IncreasedTwice(old(queryNum), |added|, 1);
            added := added + [first.query];
            assert added == Copies(first.query, i + 1);
          }
          i := i + 1;
        }
      } else {
        ret := 1;
      }
    }

    method ProDnsResponseParse(h: Header, packet: array<byte>, payloadLen: word) returns (faulted: bool, ret: int)
      requires Valid() && packet.Length >= HEADER_SIZE && Readable(Payload(packet[..]), 0, payloadLen)
      modifies packet, this`queryNum, this`responseAddrNum, this`responseDomainNum
      modifies querys, querys.Cells(), responses, responses.Cells()
      ensures packet[..] == old(packet[..]) && Valid()
      ensures faulted == (GoodReply(h) && !ReadableReply(packet[..], payloadLen, h))
      ensures !GoodReply(h) ==>
                && ret == 0
                && Queries() == old(Queries()) && Responses() == old(Responses()) && Counters() == old(Counters())
      ensures GoodReply(h) && !faulted ==>
                && Queries() == old(Queries()) + QueriesAdded(packet[..], payloadLen, h)
                && Responses() == old(Responses()) + RepliesAdded(packet[..], payloadLen, h, querys.head.first)
      ensures GoodReply(h) && !faulted ==>
                var payload, reply := Payload(packet[..]), ReplyAnswers(packet[..], payloadLen, h);
                && queryNum == Increased(old(queryNum), |QueriesAdded(packet[..], payloadLen, h)|)
                && reply.Answers? && ret == reply.ret
                && responseAddrNum == Increased(old(responseAddrNum), AddressCount(payload, reply.recorded))
                && responseDomainNum == Increased(old(responseDomainNum), AliasCount(payload, reply.recorded))
    {
      hide FirstQuestion, ReplyAnswers, QueriesAdded, AddressCount, AliasCount, Increased;
      faulted, ret := false, 0;
      if h.numQueries > 0 && h.numQueries <= MAX_DNS_REQUESTS
         && ((h.numAnswers > 0 && h.numAnswers <= MAX_DNS_REQUESTS)
             || (h.authorityRrs > 0 && h.authorityRrs <= MAX_DNS_REQUESTS)
             || (h.additionalRrs > 0 && h.additionalRrs <= MAX_DNS_REQUESTS)) {
        var parsed;
        faulted, parsed := ProDnsQueryParse(h, packet, payloadLen);
        if faulted {
          return;
        }
        faulted, ret := ParseAnswers(h, packet, payloadLen);
      }
    }

    // the second half of ProDNSResponseParse: skip the questions and record the answers
    method ParseAnswers(h: Header, packet: array<byte>, payloadLen: word) returns (faulted: bool, ret: int)
      requires Valid() && packet.Length >= HEADER_SIZE && Readable(Payload(packet[..]), 0, payloadLen)
      modifies packet, this`responseAddrNum, this`responseDomainNum, responses, responses.Cells()
      ensures packet[..] == old(packet[..])
      ensures Valid() && fresh(responses.Cells() - old(responses.Cells()))
      ensures querys.head.first == old(querys.head.first)
      ensures match ReplyAnswers(packet[..], payloadLen, h)
              case UnreadableAnswers => faulted
              case Answers(ret', answers) =>
                var payload := Payload(packet[..]);
                && !faulted && ret == ret'
                && Responses() == old(Responses()) + ResponsesOf(payload, querys.head.first, answers)
                && responseAddrNum == Increased(old(responseAddrNum), AddressCount(payload, answers))
                && responseDomainNum == Increased(old(responseDomainNum), AliasCount(payload, answers))
    {
      hide SkipQuestions, AnswersFrom, ResponsesOf, AddressCount, AliasCount, Increased;
      faulted, ret := false, 0;
      TallyNothing(Counters());
      NoAnswers(Reader(packet[..], payloadLen), Payload(packet[..]), querys.head.first);
      var position := SkipQuestionSection(packet, payloadLen, h.numQueries);
      if position.UnreadablePosition? {
        faulted := true;
      } else if h.numAnswers > 0 {
        faulted, ret := RecordAnswers(packet, payloadLen, position.offset, h.numAnswers);
      }
    }

    method ProDnsParse(packet: array<byte>, len: word) returns (faulted: bool, ret: int)
      requires Valid() && packet.Length >= len as int
      modifies packet, this, querys, querys.Cells(), responses, responses.Cells()
      ensures packet[..] == old(packet[..]) && Valid()
      ensures faulted == (len >= HEADER_SIZE && !ReadableMessage(packet[..], len))
      ensures len < HEADER_SIZE ==>
                && ret == 1
                && Queries() == old(Queries()) && Responses() == old(Responses()) && Counters() == old(Counters())
      ensures len >= HEADER_SIZE ==> head == HeaderOf(packet[..])
      ensures len >= HEADER_SIZE && !faulted ==>
                var h, payloadLen := HeaderOf(packet[..]), len - HEADER_SIZE;
                && (IsQuery(h) ==>
                      && ret == (if GoodQuery(h) && FirstQuestion(packet[..], payloadLen).First? then 0 else 1)
                      && Queries() == old(Queries()) + QueriesAdded(packet[..], payloadLen, h)
                      && Responses() == old(Responses())
                      && responseAddrNum == old(responseAddrNum) && responseDomainNum == old(responseDomainNum)
                      && queryNum == Increased(old(queryNum), |QueriesAdded(packet[..], payloadLen, h)|))
                && (!IsQuery(h) && !GoodReply(h) ==>
                      && ret == 0
                      && Queries() == old(Queries()) && Responses() == old(Responses())
                      && Counters() == old(Counters()))
                && (!IsQuery(h) && GoodReply(h) ==>
                      && Queries() == old(Queries()) + QueriesAdded(packet[..], payloadLen, h)
                      && Responses() == old(Responses()) + RepliesAdded(packet[..], payloadLen, h, querys.head.first)
                      && queryNum == Increased(old(queryNum), |QueriesAdded(packet[..], payloadLen, h)|)
                      && var payload, reply := Payload(packet[..]), ReplyAnswers(packet[..], payloadLen, h);
                         && reply.Answers? && ret == reply.ret
                         && responseAddrNum == Increased(old(responseAddrNum), AddressCount(payload, reply.recorded))
                         && responseDomainNum == Increased(old(responseDomainNum), AliasCount(payload, reply.recorded)))
    {
      hide FirstQuestion, QueriesAdded, ReplyAnswers, RepliesAdded, AddressCount, AliasCount, HeaderOf, Increased;
      if len < HEADER_SIZE {
        return false, 1;
      }
      var h := ReadHeader(packet);
      head := h;
      if h.flags < FLAGS_MASK {
        faulted, ret := ProDnsQueryParse(h, packet, len - HEADER_SIZE);
      } else {
        faulted, ret := ProDnsResponseParse(h, packet, len - HEADER_SIZE);
      }
    }

    // DNSContextClear: the counters and the header keep their values
    method Clear()
      requires Valid()
      modifies querys, querys.Cells(), responses, responses.Cells()
      ensures Valid() && Queries() == [] && Responses() == []
    {
      var freedQueries := querys.Clear();
      var freedResponses := responses.Clear();
    }

    method RecordAnswers(packet: array<byte>, payloadLen: word, start: word, count: word)
      returns (faulted: bool, ret: int)
      requires Valid() && packet.Length >= HEADER_SIZE
      modifies packet, this`responseAddrNum, this`responseDomainNum, responses, responses.Cells()
      ensures packet[..] == old(packet[..])
      ensures Valid() && fresh(responses.Cells() - old(responses.Cells()))
      ensures querys.head.first == old(querys.head.first)
      ensures match AnswersFrom(Reader(packet[..], payloadLen), start, count)
              case UnreadableAnswers => faulted
              case Answers(ret', answers) =>
                var payload := Payload(packet[..]);
                && !faulted && ret == ret'
                && Responses() == old(Responses()) + ResponsesOf(payload, querys.head.first, answers)
                && Counters() == old(Counters()).Plus(0, AddressCount(payload, answers), AliasCount(payload, answers))
    {
      hide AnswerAt, Recording;
      faulted, ret := false, 0;
      var offset, i := start, 0;
      ghost var read, payload, queryer := Reader(packet[..], payloadLen), Payload(packet[..]), querys.head.first;
      ghost var all, before, tally := AnswersFrom(read, start, count), Responses(), Counters();
      RecordNone(payload, queryer, all, before, tally);
      while i < count
        invariant packet[..] == old(packet[..])
        invariant Valid() && fresh(responses.Cells() - old(responses.Cells()))
        invariant querys.head.first == queryer
        invariant 0 <= i <= count && ret == 0 && !faulted
        invariant Recording(payload, queryer, all, AnswersFrom(read, offset, count - i), before, tally,
                            Responses(), Counters())
      {
        ghost var had, counters := Responses(), Counters();
        RecordOne(read, offset, count - i, payload, queryer, all, before, tally, had, counters);
        var found := RecordAnswer(packet, payloadLen, offset);
        if found.UnreadableAnswer? {
          return true, 0;
        }
        if found.Stopped? {
          return false, found.ret;
        }
        offset := found.next;
        i := i + 1;
      }
      RecordAll(read, offset, payload, queryer, all, before, tally, Responses(), Counters());
    }

    // one turn of the answer loop
    method RecordAnswer(packet: array<byte>, payloadLen: word, offset: word) returns (found: Found)
      requires Valid() && packet.Length >= HEADER_SIZE
      modifies packet, this`responseAddrNum, this`responseDomainNum, responses, responses.Cells()
      ensures packet[..] == old(packet[..])
      ensures Valid() && fresh(responses.Cells() - old(responses.Cells()))
      ensures querys.head.first == old(querys.head.first)
      ensures found == AnswerAt(packet[..], payloadLen, offset)
      ensures Responses() == old(Responses()) + if found.Found?
                then [ResponseOf(Payload(packet[..]), querys.head.first, found.answer)] else []
      ensures Counters() == if !found.Found? then old(Counters()) else
                var data := DataOf(Payload(packet[..]), found.answer);
                old(Counters()).Plus(0, if data.Address? then 1 else 0, if data.Alias? then 1 else 0)
    {
      hide DataReadable, DataOf;
      found := ReadAnswer(packet, payloadLen, offset);
      if found.Found? {
        var faulted := AddResponse(packet, found.answer);
        if faulted {
          found := UnreadableAnswer;
        }
      }
    }
  }

  /** What an answer loop comes to that has recorded some answers and goes on as rest does. */
  ghost function Followed(recorded: seq<Answer>, rest: Answers): Answers {
    match rest
    case UnreadableAnswers => UnreadableAnswers
    case Answers(ret, more) => Answers(ret, recorded + more)
  }

  /** all is the outcome of an answer loop that has recorded some answers and will end as rest does; responses and
      counters have grown from before and tally by the recorded answers. */
  ghost predicate Recording(payload: seq<byte>, queryer: Elem?<Query>, all: Answers, rest: Answers,
                            before: seq<Response>, tally: Tally, responses: seq<Response>, counters: Tally)
  {
    exists recorded ::
      && all == Followed(recorded, rest)
      && responses == before + ResponsesOf(payload, queryer, recorded)
      && counters == tally.Plus(0, AddressCount(payload, recorded), AliasCount(payload, recorded))
  }

  lemma RecordNone(payload: seq<byte>, queryer: Elem?<Query>, all: Answers, before: seq<Response>, tally: Tally)
    ensures Recording(payload, queryer, all, all, before, tally, before, tally)
  {
    hide Increased;
    TallyNothing(tally);
    assert all == Followed([], all) && before == before + ResponsesOf(payload, queryer, []);
    NothingCounted(payload);
  }

  /** The loop ends with what it has recorded. */
  ghost predicate Recorded(payload: seq<byte>, queryer: Elem?<Query>, all: Answers,
                           before: seq<Response>, tally: Tally, responses: seq<Response>, counters: Tally)
  {
    && all.Answers?
    && responses == before + ResponsesOf(payload, queryer, all.recorded)
    && counters == tally.Plus(0, AddressCount(payload, all.recorded), AliasCount(payload, all.recorded))
  }

  /** One more turn. */
  lemma RecordOne(read: word -> Found, offset: word, left: nat, payload: seq<byte>, queryer: Elem?<Query>, all: Answers,
                  before: seq<Response>, tally: Tally, responses: seq<Response>, counters: Tally)
    requires left > 0
    requires Recording(payload, queryer, all, AnswersFrom(read, offset, left), before, tally, responses, counters)
    ensures match read(offset)
            case UnreadableAnswer => all == UnreadableAnswers
            case Stopped(ret) =>
              Recorded(payload, queryer, all, before, tally, responses, counters) && all.ret == ret
            case Found(a, next) =>
              var data := DataOf(payload, a);
              Recording(payload, queryer, all, AnswersFrom(read, next, left - 1), before, tally,
                        responses + [ResponseOf(payload, queryer, a)],
                        counters.Plus(0, if data.Address? then 1 else 0, if data.Alias? then 1 else 0))
  {
    hide DataOf, Increased, ResponsesOf, AddressCount, AliasCount;
    var rest := AnswersFrom(read, offset, left);
    var recorded :| all == Followed(recorded, rest)
      && responses == before + ResponsesOf(payload, queryer, recorded)
      && counters == tally.Plus(0, AddressCount(payload, recorded), AliasCount(payload, recorded));
    match read(offset)
    case UnreadableAnswer =>
    case Stopped(ret) =>
      assert recorded + [] == recorded;
    case Found(a, next) =>
      var data := DataOf(payload, a);
      ResponsesAppend(payload, queryer, recorded, a, before);
      AddressesAppend(payload, recorded, a);
      AliasesAppend(payload, recorded, a);
      TallyTwice(tally, 0, AddressCount(payload, recorded), AliasCount(payload, recorded),
                 0, if data.Address? then 1 else 0, if data.Alias? then 1 else 0);
      FollowedOne(recorded, a, AnswersFrom(read, next, left - 1));
  }

  lemma FollowedOne(recorded: seq<Answer>, a: Answer, rest: Answers)
    ensures rest.Answers? ==>
              Followed(recorded, Answers(rest.ret, [a] + rest.recorded)) == Followed(recorded + [a], rest)
  {
    if rest.Answers? {
      Reassociate(recorded, [a], rest.recorded);
    }
  }

  lemma RecordAll(read: word -> Found, offset: word, payload: seq<byte>, queryer: Elem?<Query>, all: Answers,
                  before: seq<Response>, tally: Tally, responses: seq<Response>, counters: Tally)
    requires Recording(payload, queryer, all, AnswersFrom(read, offset, 0), before, tally, responses, counters)
    ensures Recorded(payload, queryer, all, before, tally, responses, counters) && all.ret == 0
  {
    hide DataOf, Increased, ResponsesOf, AddressCount, AliasCount;
    var recorded :| all == Followed(recorded, Answers(0, []))
      && responses == before + ResponsesOf(payload, queryer, recorded)
      && counters == tally.Plus(0, AddressCount(payload, recorded), AliasCount(payload, recorded));
    assert recorded + [] == recorded;
  }

  /** The header fields in network byte order. */
  method ReadHeader(packet: array<byte>) returns (h: Header)
    requires packet.Length >= HEADER_SIZE
    ensures h == HeaderOf(packet[..])
    ensures h.id == packet[0] as int * 0x100 + packet[1] && h.flags == packet[2] as int * 0x100 + packet[3]
    ensures h.numQueries == packet[4] as int * 0x100 + packet[5]
    ensures h.numAnswers == packet[6] as int * 0x100 + packet[7]
    ensures h.authorityRrs == packet[8] as int * 0x100 + packet[9]
    ensures h.additionalRrs == packet[10] as int * 0x100 + packet[11]
  {
    h := Header(Word(packet[0], packet[1]), Word(packet[2], packet[3]), Word(packet[4], packet[5]),
                Word(packet[6], packet[7]), Word(packet[8], packet[9]), Word(packet[10], packet[11]));
  }

  // the scan that skips the question section
  method SkipQuestionSection(packet: array<byte>, payloadLen: word, count: word) returns (position: Position)
    requires packet.Length >= HEADER_SIZE && Readable(Payload(packet[..]), 0, payloadLen)
    ensures position == SkipQuestions(Payload(packet[..]), payloadLen, 0, count)
  {
    var numQueries := count;
    position := Position(0);
    ghost var payload := Payload(packet[..]);
    while 0 < numQueries
      invariant position.Position?
      invariant SkipQuestions(payload, payloadLen, position.offset, numQueries)
             == SkipQuestions(payload, payloadLen, 0, count)
    {
      position := SkipOne(packet, payloadLen, position.offset);
      if position.UnreadablePosition? {
        return;
      }
      numQueries := numQueries - 1;
    }
  }

  method SkipOne(packet: array<byte>, payloadLen: word, start: word) returns (position: Position)
    requires packet.Length >= HEADER_SIZE && Readable(Payload(packet[..]), 0, payloadLen)
    ensures position == SkipQuestion(Payload(packet[..]), payloadLen, start)
  {
    ghost var payload := Payload(packet[..]);
    var offset: word := Wrap(start as int + 1);
    if HEADER_SIZE + offset as int >= packet.Length {
      return UnreadablePosition;
    }
    if packet[HEADER_SIZE + offset] != 0 {
      ghost var first := offset;
      while offset < payloadLen && packet[HEADER_SIZE + offset] != 0
        invariant ScanNul(payload, payloadLen, offset) == ScanNul(payload, payloadLen, first)
        decreases payloadLen - offset
      {
        offset := offset + 1;
      }
      offset := Wrap(offset as int + 1);
    }
    position := Position(Wrap(offset as int + 4));
  }

  // the name length, type and class of the first question
  method ReadQuestion(packet: array<byte>, payloadLen: word)
    returns (faulted: bool, nameLen: byte, qtype: word, qclass: word)
    requires packet.Length >= HEADER_SIZE
    modifies packet
    ensures packet[..] == old(packet[..])
    ensures var m, payload := NameLengthAt(packet[..], payloadLen, 0), Payload(packet[..]);
            && faulted == (m.Fault? || (m.param > 0 && !Readable(payload, 0, m.param + 4)))
            && (!faulted ==>
                  && nameLen == m.param
                  && (nameLen > 0 ==> qtype == Get16(payload, m.param) && qclass == Get16(payload, m.param + 2)))
  {
    hide Get16, Measured;
    qtype, qclass := 0, 0;
    faulted, nameLen := CalculateNameLength(packet, Wrap(payloadLen + HEADER_SIZE), HEADER_SIZE);
    if faulted || nameLen == 0 {
      return;
    }
    if HEADER_SIZE + nameLen as int + 4 > packet.Length {
      faulted := true;
      return;
    }
    qtype := ReadWord(packet, nameLen);
    qclass := ReadWord(packet, nameLen as int + 2);
  }

  // the body of the answer loop up to DNSContextAddResponse
  method ReadAnswer(packet: array<byte>, payloadLen: word, start: word) returns (found: Found)
    requires packet.Length >= HEADER_SIZE
    modifies packet
    ensures packet[..] == old(packet[..])
    ensures found == FoundAt(packet[..], payloadLen, start)
  {
    hide FieldsAt;
    if start as int + 16 > payloadLen {
      return Stopped(0);
    }
    var faulted, nameLen := CalculateNameLength(packet, Wrap(payloadLen + HEADER_SIZE),
                                                Cut(start as int + HEADER_SIZE));
    if faulted {
      return UnreadableAnswer;
    }
    if nameLen == 0 {
      return Stopped(1);
    }
    found := ReadFields(packet, payloadLen, start, nameLen);
  }

  method ReadFields(packet: array<byte>, payloadLen: word, start: word, nameLen: byte) returns (found: Found)
    requires packet.Length >= HEADER_SIZE
    ensures found == FieldsAt(Payload(packet[..]), payloadLen, start, nameLen)
  {
    hide DataAt;
    var room := packet.Length - HEADER_SIZE;
    var offset := Wrap(start as int + nameLen);
    if offset as int + 2 > room {
      return UnreadableAnswer;
    }
    var rtype := ReadWord(packet, offset);
    offset := Wrap(offset as int + 2);
    if rtype != HOST_ADDRESS && rtype != C_NAME {
      return Stopped(0);
    }
    if offset as int + 2 > room {
      return UnreadableAnswer;
    }
    var rclass := ReadWord(packet, offset);
    offset := Wrap(offset as int + 2);
    if rclass != DNS_CLASS_IN {
      return Stopped(0);
    }
    if offset as int + 4 > room || Wrap(offset as int + 4) as int + 2 > room {
      return UnreadableAnswer;
    }
    var ttl := ReadDword(packet, offset);
    offset := Wrap(offset as int + 4);
    var dataLen := ReadWord(packet, offset);
    offset := Wrap(offset as int + 2);
    found := ReadLimits(payloadLen, start, nameLen, rtype, rclass, ttl, offset, dataLen);
  }

  method ReadLimits(payloadLen: word, start: word, nameLen: byte,
                    rtype: word, rclass: word, ttl: dword, offset: word, dataLen: word) returns (found: Found)
    ensures found == DataAt(payloadLen, start, nameLen, rtype, rclass, ttl, offset, dataLen)
  {
    if dataLen < 2 || dataLen > payloadLen as int - offset {
      return Stopped(0);
    }
    if rtype == HOST_ADDRESS && dataLen != 4 {
      return Stopped(0);
    }
    found := Found(Answer(start, nameLen, rtype, rclass, ttl, offset, dataLen), Wrap(offset as int + dataLen));
  }

  // the branches of DNSContextAddResponse on the type and length of the data
  method ReadData(packet: array<byte>, a: Answer) returns (faulted: bool, data: Rdata)
    requires packet.Length >= HEADER_SIZE
    ensures faulted == !DataReadable(Payload(packet[..]), a)
    ensures !faulted ==> data == DataOf(Payload(packet[..]), a)
  {
    hide FieldWalk, FieldText;
    var at := HEADER_SIZE + a.dataAt;
    faulted, data := false, NoData;
    if at + a.dataLen as int > packet.Length {
      faulted := true;
    } else if a.rtype == HOST_ADDRESS {
      if a.dataLen == 4 {
        PayloadSlice(packet[..], a.dataAt, 4);
        data := Address(packet[at..at + 4]);
      }
    } else if a.rtype == C_NAME {
      if a.dataLen > 4 {
        var n: byte := if a.dataLen < MAX_DOMAIN_NAME_LEN then a.dataLen else MAX_DOMAIN_NAME_LEN - 1;
        PayloadSlice(packet[..], a.dataAt, n);
        var text;
        faulted, text := FieldTextOf(packet, at, n);
        data := Alias(text);
      }
    }
  }

  // get32
  method ReadDword(packet: array<byte>, offset: nat) returns (d: dword)
    requires packet.Length >= HEADER_SIZE && Readable(Payload(packet[..]), offset, 4)
    ensures d == Get32(Payload(packet[..]), offset)
  {
    var hi := ReadWord(packet, offset);
    var lo := ReadWord(packet, offset + 2);
    d := hi as int * 0x1_0000 + lo;
  }

  // get16
  method ReadWord(packet: array<byte>, offset: nat) returns (w: word)
    requires packet.Length >= HEADER_SIZE && Readable(Payload(packet[..]), offset, 2)
    ensures w == Get16(Payload(packet[..]), offset)
  {
    w := Word(packet[HEADER_SIZE + offset], packet[HEADER_SIZE + offset + 1]);
  }

  /** calloc, memcpy, nameTransFormat and strlen on the name field of a new query or response. */
  method FieldTextOf(packet: array<byte>, start: nat, n: byte) returns (faulted: bool, text: seq<byte>)
    requires 1 <= n && start + n <= packet.Length
    ensures var wire := packet[start..start + n];
            if faulted then FieldWalk(wire).Fault? else FieldWalk(wire).Done? && text == FieldText(wire)
  {
    var name := new byte[MAX_DOMAIN_NAME_LEN](_ => 0);
    for i := 0 to n
      invariant forall j :: 0 <= j < MAX_DOMAIN_NAME_LEN ==> name[j] == if j < i then packet[start + j] else 0
    {
      name[i] := packet[start + i];
    }
    assert name[..] == Field(packet[start..start + n]);
    faulted := NameTransFormat(name, n);
    text := CString(name[..]);
  }
}
