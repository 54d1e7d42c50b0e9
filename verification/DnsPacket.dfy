/** What the DNS parser reads out of a message (RFC 1035 sections 4.1.1 to 4.1.4), as functions of its octets.

    packet is the memory from the message header on, payload the memory behind the 12 header octets; offsets
    are relative to the payload.  The Unreadable outcomes mark inputs on which the C code would touch octets
    outside that memory. */
module DnsPackets {
  import opened DnsNames
  import opened Splitting
  import opened DnsWalks
  import opened DnsPointers

  const HEADER_SIZE := 12
  const MAX_DNS_REQUESTS := 16
  const HOST_ADDRESS := 1
  const C_NAME := 5
  const DNS_CLASS_IN := 1

  datatype Header = Header(id: word, flags: word, numQueries: word, numAnswers: word,
                           authorityRrs: word, additionalRrs: word)

  function Word(hi: byte, lo: byte): word {
    hi * 0x100 + lo
  }

  function Octets(w: word): seq<byte> {
    [w / 0x100, w % 0x100]
  }

  predicate Readable(payload: seq<byte>, offset: nat, size: nat) {
    offset + size <= |payload|
  }

  function Get16(payload: seq<byte>, offset: nat): word
    requires Readable(payload, offset, 2)
  {
    Word(payload[offset], payload[offset + 1])
  }

  function Get32(payload: seq<byte>, offset: nat): dword
    requires Readable(payload, offset, 4)
  {
    Get16(payload, offset) * 0x1_0000 + Get16(payload, offset + 2)
  }

  /** Network byte order: the first octet weighs most. */
  lemma NetworkByteOrder(a: byte, b: byte, c: byte, d: byte)
    ensures Get16([a, b], 0) == a * 0x100 + b as int
    ensures Get32([a, b, c, d], 0) == a * 0x100_0000 + b as int * 0x1_0000 + c as int * 0x100 + d as int
  {
  }

  lemma Get16At(payload: seq<byte>, offset: nat, w: word)
    requires At(payload, offset, Octets(w))
    ensures Readable(payload, offset, 2) && Get16(payload, offset) == w
  {
    assert Octets(w)[0] == w / 0x100 && Octets(w)[1] == w % 0x100;
  }

  lemma AtIsSlice(mem: seq<byte>, offset: nat, w: seq<byte>)
    requires At(mem, offset, w)
    ensures mem[offset..offset + |w|] == w
  {
  }

  /** Memory that holds at least the header. */
  type Packet = p: seq<byte> | |p| >= HEADER_SIZE witness seq(HEADER_SIZE, _ => 0)

  function Payload(packet: Packet): seq<byte> {
    packet[HEADER_SIZE..]
  }

  lemma AtPayload(packet: Packet, offset: nat, w: seq<byte>)
    requires At(Payload(packet), offset, w)
    ensures At(packet, HEADER_SIZE + offset, w)
  {
    forall i | 0 <= i < |w| ensures packet[HEADER_SIZE + offset + i] == w[i] {
      assert Payload(packet)[offset + i] == w[i];
    }
  }

  /** calculate_name_length as the parser calls it: the offset into the message is cut to 8 bits. */
  ghost function NameLengthAt(packet: Packet, payloadLen: word, offset: nat): Walk {
    Measured(packet, Wrap(payloadLen + HEADER_SIZE), Cut(offset + HEADER_SIZE))
  }

  /** Payload lengths that leave room for the header in the 16-bit length handed to the walker. */
  predicate Fits(payloadLen: word) {
    payloadLen + HEADER_SIZE < 0x1_0000
  }

  /** Below message offset 256 the parser measures the name that is there. */
  lemma NameLengthIsExact(packet: Packet, payloadLen: word, offset: nat, ls: Labels, end: seq<byte>)
    requires AreLabels(ls) && IsTerminator(end) && |Encoded(ls) + end| <= MAX_LABELS_LENGTH
    requires At(Payload(packet), offset, Encoded(ls) + end)
    requires offset + |Encoded(ls) + end| <= payloadLen && Fits(payloadLen)
    requires offset + HEADER_SIZE < 0x100
    ensures NameLengthAt(packet, payloadLen, offset) == Done(true, packet, |Encoded(ls) + end|)
  {
    AtPayload(packet, offset, Encoded(ls) + end);
    MeasuredIsWireLength(packet, payloadLen + HEADER_SIZE, offset + HEADER_SIZE, ls, end);
  }

  /** Whatever the offset, the name that is measured is the one that stands at the message offset modulo 256. */
  lemma NameLengthIsTakenModulo256(packet: Packet, payloadLen: word, offset: nat, ls: Labels, end: seq<byte>)
    requires AreLabels(ls) && IsTerminator(end) && |Encoded(ls) + end| <= MAX_LABELS_LENGTH
    requires At(packet, (offset + HEADER_SIZE) % 0x100, Encoded(ls) + end)
    requires (offset + HEADER_SIZE) % 0x100 + |Encoded(ls) + end| <= payloadLen + HEADER_SIZE && Fits(payloadLen)
    ensures NameLengthAt(packet, payloadLen, offset) == Done(true, packet, |Encoded(ls) + end|)
  {
    MeasuredIsWireLength(packet, payloadLen + HEADER_SIZE, Cut(offset + HEADER_SIZE), ls, end);
  }

  /** So at every message offset that is a multiple of 256, in every message whose transaction id starts with a
      zero octet, any name is taken to be one octet long. */
  lemma NameLengthWraps(packet: Packet, payloadLen: word, offset: nat)
    requires (offset + HEADER_SIZE) % 0x100 == 0 && packet[0] == 0 && Fits(payloadLen)
    ensures NameLengthAt(packet, payloadLen, offset) == Done(true, packet, 1)
  {
    assert Encoded([]) + [0] == [0];
    NameLengthIsTakenModulo256(packet, payloadLen, offset, [], [0]);
  }

  // ----- the question section -----

  datatype Query = Query(name: seq<byte>, qtype: word, qclass: word)

  datatype First = UnreadableQuestion | NoName | First(query: Query)

  /** The question at the start of the payload, as every turn of the query loop reads it. */
  ghost function FirstQuestion(packet: Packet, payloadLen: word): First {
    var payload := Payload(packet);
    var m := NameLengthAt(packet, payloadLen, 0);
    if m.Fault? then UnreadableQuestion
    else if m.param == 0 then NoName
    else if !Readable(payload, 0, m.param + 4) then UnreadableQuestion
    else if FieldWalk(payload[..m.param]).Fault? then UnreadableQuestion
    else First(Query(FieldText(payload[..m.param]), Get16(payload, m.param), Get16(payload, m.param + 2)))
  }

  /** No name is found there exactly when the first octet is neither length nor pointer, or when 254 octets of
      labels and a pointer make the 8-bit length zero. */
  lemma NoNameExactly(packet: Packet, payloadLen: word)
    ensures FirstQuestion(packet, payloadLen) == NoName
       <==> |packet| > HEADER_SIZE && (MAX_LABEL_LENGTH < packet[HEADER_SIZE] < MIN_POINTER_VALUE
                                       || RunsOver(packet, Wrap(payloadLen + HEADER_SIZE), HEADER_SIZE))
  {
    hide FieldWalk, FieldText, RunsOver, Measured;
    MeasuredAsNothing(packet, Wrap(payloadLen + HEADER_SIZE), HEADER_SIZE);
  }

  /** Where the octets of the first question are there, reading it fails only for a name that strays from its
      field when it is rewritten. */
  lemma FirstQuestionFaults(packet: Packet, payloadLen: word)
    requires NameLengthAt(packet, payloadLen, 0).Done?
    requires Readable(Payload(packet), 0, NameLengthAt(packet, payloadLen, 0).param + 4)
    ensures var n := NameLengthAt(packet, payloadLen, 0).param;
            && (n > 0 ==> IsMeasured(Payload(packet)[..n]))
            && (FirstQuestion(packet, payloadLen) == UnreadableQuestion
                <==> n > 0 && StraysFromField(Payload(packet)[..n]))
  {
    hide FieldWalk, FieldText, Measured, IsMeasured, StraysFromField;
    var n := NameLengthAt(packet, payloadLen, 0).param;
    MeasuredHasShape(packet, Wrap(payloadLen + HEADER_SIZE), HEADER_SIZE);
    if n > 0 {
      assert Payload(packet)[..n] == packet[HEADER_SIZE..HEADER_SIZE + n];
      MeasuredFaults(Payload(packet)[..n]);
    }
  }

  datatype Question = Question(labels: Labels, qtype: word, qclass: word)

  ghost function QuestionWire(q: Question): seq<byte> {
    Encoded(q.labels) + [0] + Octets(q.qtype) + Octets(q.qclass)
  }

  ghost predicate ValidQuestion(q: Question) {
    AreLabels(q.labels) && WireSize(q.labels) <= MAX_LABELS_LENGTH
  }

  ghost function Meaning(q: Question): Query
    requires ValidQuestion(q)
  {
    Query(NameText(q.labels), q.qtype, q.qclass)
  }

  /** A well-formed first question inside the payload is read back exactly. */
  lemma FirstQuestionIsRead(packet: Packet, payloadLen: word, q: Question)
    requires ValidQuestion(q) && At(Payload(packet), 0, QuestionWire(q))
    requires |QuestionWire(q)| <= payloadLen && Fits(payloadLen)
    ensures FirstQuestion(packet, payloadLen) == First(Meaning(q))
    ensures var query := Meaning(q);
            query.name == NameText(q.labels) && query.qtype == q.qtype && query.qclass == q.qclass
  {
    hide FieldWalk, FieldText, NameLengthAt, NameText;
    var payload, name := Payload(packet), Encoded(q.labels) + [0];
    var n := |name|;
    AtSplit(payload, 0, name + Octets(q.qtype), Octets(q.qclass));
    AtSplit(payload, 0, name, Octets(q.qtype));
    NameLengthIsExact(packet, payloadLen, 0, q.labels, [0]);
    AtIsSlice(payload, 0, name);
    TextOfName(q.labels);
    Get16At(payload, n, q.qtype);
    Get16At(payload, n + 2, q.qclass);
  }

  /** The text under which a question is remembered tells names apart: any two questions share it exactly when
      their labels have the same pieces between dots up to the first NUL; for labels without dots and NULs, exactly
      when they ask for the same name. */
  lemma TextsDistinguishNames(q: Question, q': Question)
    requires ValidQuestion(q) && ValidQuestion(q')
    ensures Meaning(q).name == Meaning(q').name <==> TextPieces(q.labels) == TextPieces(q'.labels)
    ensures Free(q.labels, DOT) && Free(q'.labels, DOT) && Free(q.labels, 0) && Free(q'.labels, 0) ==>
              (Meaning(q).name == Meaning(q').name <==> q.labels == q'.labels)
  {
    SharedText(q.labels, q'.labels);
    if Free(q.labels, DOT) && Free(q'.labels, DOT) && Free(q.labels, 0) && Free(q'.labels, 0) {
      NamesDetermined(q.labels, q'.labels);
    }
  }

  // ----- skipping the question section -----

  datatype Position = UnreadablePosition | Position(offset: word)

  /** The first position from offset on that holds a NUL or is not inside the payload. */
  function ScanNul(payload: seq<byte>, payloadLen: word, offset: word): (r: word)
    requires Readable(payload, 0, payloadLen)
    ensures r == offset || offset < r <= payloadLen
    ensures r < payloadLen ==> payload[r] == 0
    ensures forall i :: offset <= i < r ==> payload[i] != 0
    decreases payloadLen - offset
  {
    if offset < payloadLen && payload[offset] != 0 then ScanNul(payload, payloadLen, offset + 1) else offset
  }

  function SkipQuestion(payload: seq<byte>, payloadLen: word, offset: word): Position
    requires Readable(payload, 0, payloadLen)
  {
    var o := Wrap(offset + 1);
    if !Readable(payload, o, 1) then UnreadablePosition
    else if payload[o] == 0 then Position(Wrap(o + 4))
    else Position(Wrap(ScanNul(payload, payloadLen, o) + 5))
  }

  function SkipQuestions(payload: seq<byte>, payloadLen: word, offset: word, n: nat): Position
    requires Readable(payload, 0, payloadLen)
    decreases n
  {
    if n == 0 then Position(offset)
    else
      match SkipQuestion(payload, payloadLen, offset)
      case UnreadablePosition => UnreadablePosition
      case Position(next) => SkipQuestions(payload, payloadLen, next, n - 1)
  }

  /** No NUL inside a label; and the root, whose type octets the scan looks at, has a type below 256. */
  ghost predicate ScanSafe(q: Question) {
    Free(q.labels, 0) && (q.labels == [] ==> q.qtype < 0x100)
  }

  ghost function QuestionsWire(qs: seq<Question>): seq<byte> {
    if qs == [] then [] else QuestionWire(qs[0]) + QuestionsWire(qs[1..])
  }

  lemma {:induction false} EncodedFree(ls: Labels)
    requires AreLabels(ls) && Free(ls, 0)
    ensures 0 !in Encoded(ls)
  {
    if ls != [] {
      assert IsLabel(ls[0]);
      assert forall i :: 0 <= i < |ls[1..]| ==> ls[1..][i] == ls[i + 1];
      EncodedFree(ls[1..]);
    }
  }

  lemma {:induction false} NulInEncoded(ls: Labels, i: nat) returns (k: nat)
    requires AreLabels(ls) && i < |ls| && 0 in ls[i]
    ensures 0 < k < |Encoded(ls)| && Encoded(ls)[k] == 0
    decreases i
  {
    if i == 0 {
      var j :| 0 <= j < |ls[0]| && ls[0][j] == 0;
      k := j + 1;
    } else {
      var k' := NulInEncoded(ls[1..], i - 1);
      k := k' + 1 + |ls[0]|;
    }
  }

  /** One question inside the payload: the NUL scan lands where the label walk and the four fixed octets end
      exactly when the question is scan-safe. */
  lemma SkipQuestionExactly(payload: seq<byte>, payloadLen: word, offset: word, q: Question)
    requires Readable(payload, 0, payloadLen)
    requires ValidQuestion(q) && At(payload, offset, QuestionWire(q))
    requires offset + |QuestionWire(q)| <= payloadLen
    ensures SkipQuestion(payload, payloadLen, offset) == Position(offset + |QuestionWire(q)|) <==> ScanSafe(q)
  {
    var w, e := QuestionWire(q), Encoded(q.labels);
    assert w[|e|] == 0;
    assert payload[offset + |e|] == 0;
    if q.labels == [] {
      assert w[1] == q.qtype / 0x100;
    } else {
      assert IsLabel(q.labels[0]);
      var r := ScanNul(payload, payloadLen, offset + 1);
      if Free(q.labels, 0) {
        EncodedFree(q.labels);
        forall i | offset <= i < offset + |e| ensures payload[i] != 0 {
          assert payload[i] == w[i - offset] == e[i - offset];
        }
        assert r == offset + |e|;
      } else {
        var i :| 0 <= i < |q.labels| && 0 in q.labels[i];
        var k := NulInEncoded(q.labels, i);
        assert payload[offset + k] == w[k] == 0;
        assert r <= offset + k;
      }
    }
  }

  /** Any number of scan-safe questions is skipped exactly. */
  lemma {:induction false} SkipQuestionsExactly(payload: seq<byte>, payloadLen: word, offset: word, qs: seq<Question>)
    requires Readable(payload, 0, payloadLen)
    requires forall i :: 0 <= i < |qs| ==> ValidQuestion(qs[i]) && ScanSafe(qs[i])
    requires At(payload, offset, QuestionsWire(qs))
    requires offset + |QuestionsWire(qs)| <= payloadLen
    ensures SkipQuestions(payload, payloadLen, offset, |qs|) == Position(offset + |QuestionsWire(qs)|)
    decreases |qs|
  {
    hide QuestionWire, SkipQuestion;
    if qs != [] {
      AtSplit(payload, offset, QuestionWire(qs[0]), QuestionsWire(qs[1..]));
      SkipQuestionExactly(payload, payloadLen, offset, qs[0]);
      SkipQuestionsExactly(payload, payloadLen, offset + |QuestionWire(qs[0])|, qs[1..]);
    }
  }

  // ----- the answer section -----

  /** An answer as the loop finds it: where its name and data lie in the payload, and its fixed fields. */
  datatype Answer = Answer(nameAt: nat, nameLen: nat, rtype: word, rclass: word, ttl: dword, dataAt: nat, dataLen: word)

  datatype Found = UnreadableAnswer | Stopped(ret: int) | Found(answer: Answer, next: word)

  /** The answer at offset as the loop's own tests leave it. */
  ghost function FoundAt(packet: Packet, payloadLen: word, offset: word): Found {
    if offset + 16 > payloadLen then Stopped(0)
    else
      var m := NameLengthAt(packet, payloadLen, offset);
      if m.Fault? then UnreadableAnswer
      else if m.param == 0 then Stopped(1)
      else FieldsAt(Payload(packet), payloadLen, offset, m.param)
  }

  /** The fixed fields behind a name, and the tests the loop puts to them, in its order. */
  ghost function FieldsAt(payload: seq<byte>, payloadLen: word, nameAt: word, nameLen: byte): Found {
    var o1 := Wrap(nameAt + nameLen);
    if !Readable(payload, o1, 2) then UnreadableAnswer
    else
      var rtype, o2 := Get16(payload, o1), Wrap(o1 + 2);
      if rtype != HOST_ADDRESS && rtype != C_NAME then Stopped(0)
      else if !Readable(payload, o2, 2) then UnreadableAnswer
      else
        var rclass, o3 := Get16(payload, o2), Wrap(o2 + 2);
        if rclass != DNS_CLASS_IN then Stopped(0)
        else if !Readable(payload, o3, 4) || !Readable(payload, Wrap(o3 + 4), 2) then UnreadableAnswer
        else DataAt(payloadLen, nameAt, nameLen, rtype, rclass, Get32(payload, o3),
                    Wrap(Wrap(o3 + 4) + 2), Get16(payload, Wrap(o3 + 4)))
  }

  function DataAt(payloadLen: word, nameAt: word, nameLen: byte,
                  rtype: word, rclass: word, ttl: dword, dataAt: word, dataLen: word): Found
  {
    if dataLen < 2 || dataLen > payloadLen - dataAt then Stopped(0)
    else if rtype == HOST_ADDRESS && dataLen != 4 then Stopped(0)
    else Found(Answer(nameAt, nameLen, rtype, rclass, ttl, dataAt, dataLen), Wrap(dataAt + dataLen))
  }

  /** Keeping the data of an answer touches no octet outside the memory, nor outside the name field. */
  ghost predicate DataReadable(payload: seq<byte>, a: Answer) {
    && Readable(payload, a.dataAt, a.dataLen)
    && (a.rtype == C_NAME && a.dataLen > 4 ==> !FieldWalk(AliasWire(payload, a.dataAt, a.dataLen)).Fault?)
  }

  /** One turn of the loop: what it finds, with the data kept. */
  ghost function AnswerAt(packet: Packet, payloadLen: word, offset: word): Found {
    match FoundAt(packet, payloadLen, offset)
    case Found(a, next) => if DataReadable(Payload(packet), a) then Found(a, next) else UnreadableAnswer
    case other => other
  }

  /** The loop stops with 0 where fewer than 16 octets of payload are left, and with 1 where no name is found. */
  lemma AnswerStops(packet: Packet, payloadLen: word, offset: word)
    ensures offset as int + 16 > payloadLen ==> AnswerAt(packet, payloadLen, offset) == Stopped(0)
    ensures var at := (offset as int + 12) % 256;
            offset as int + 16 <= payloadLen && at < |packet| && 64 <= packet[at] <= 191 ==>
              AnswerAt(packet, payloadLen, offset) == Stopped(1)
  {
    hide WalkFrom;
    var at := (offset as int + 12) % 256;
    if at < |packet| && 64 <= packet[at] <= 191 {
      BadOctetStops(Accumulate, packet, Wrap(payloadLen + HEADER_SIZE), at, 0, 0);
    }
  }

  /** The octets of a canonical name that are copied into the name field. */
  function AliasWire(payload: seq<byte>, dataAt: nat, dataLen: nat): (r: seq<byte>)
    requires Readable(payload, dataAt, dataLen)
    ensures |r| < MAX_DOMAIN_NAME_LEN
  {
    var n := if dataLen < MAX_DOMAIN_NAME_LEN then dataLen else MAX_DOMAIN_NAME_LEN - 1;
    payload[dataAt..dataAt + n]
  }

  datatype Answers = UnreadableAnswers | Answers(ret: int, recorded: seq<Answer>)

  /** The answer loop over a reader of single answers. */
  ghost function AnswersFrom(read: word -> Found, offset: word, left: nat): Answers
    decreases left
  {
    if left == 0 then Answers(0, [])
    else
      match read(offset)
      case UnreadableAnswer => UnreadableAnswers
      case Stopped(ret) => Answers(ret, [])
      case Found(answer, next) =>
        match AnswersFrom(read, next, left - 1)
        case UnreadableAnswers => UnreadableAnswers
        case Answers(ret, rest) => Answers(ret, [answer] + rest)
  }

  ghost function Reader(packet: Packet, payloadLen: word): word -> Found {
    (offset: word) => AnswerAt(packet, payloadLen, offset)
  }

  function EndOf(a: Answer): nat { a.dataAt + a.dataLen }

  /** Payloads so short that a 16-bit offset cannot wrap behind a name and the fixed fields of an answer. */
  const SHORT_PAYLOAD: word := 0xFFFF - 249

  /** Name, ten fixed octets and data follow one another and lie inside the payload. */
  predicate Inside(a: Answer, end: nat) {
    1 <= a.nameLen && 2 <= a.dataLen && a.nameAt + a.nameLen + 10 == a.dataAt && EndOf(a) <= end
  }

  lemma FoundIsInside(packet: Packet, payloadLen: word, offset: word)
    requires payloadLen <= SHORT_PAYLOAD
    ensures var f := AnswerAt(packet, payloadLen, offset);
            f.Found? ==> f.answer.nameAt == offset && Inside(f.answer, payloadLen) && f.next == EndOf(f.answer)
  {
    var m := NameLengthAt(packet, payloadLen, offset);
    if offset + 16 <= payloadLen && m.Done? && m.param != 0 {
      FieldsAreInside(Payload(packet), payloadLen, offset, m.param);
    }
  }

  lemma FieldsAreInside(payload: seq<byte>, payloadLen: word, nameAt: word, nameLen: byte)
    requires nameAt + 16 <= payloadLen <= SHORT_PAYLOAD && 1 <= nameLen
    ensures var f := FieldsAt(payload, payloadLen, nameAt, nameLen);
            f.Found? ==> f.answer.nameAt == nameAt && Inside(f.answer, payloadLen) && f.next == EndOf(f.answer)
  {
    var o := nameAt + nameLen;
    assert Wrap(o) == o && Wrap(o + 2) == o + 2 && Wrap(o + 4) == o + 4;
    assert Wrap(o + 8) == o + 8 && Wrap(o + 10) == o + 10;
  }

  /** Recorded answers tile the payload from where the loop starts: each begins where the one before ended. */
  predicate Tiled(answers: seq<Answer>, start: nat, end: nat) {
    answers != [] ==>
      && answers[0].nameAt == start
      && Inside(answers[0], end)
      && Tiled(answers[1..], EndOf(answers[0]), end)
  }

  lemma TiledCons(a: Answer, rest: seq<Answer>, end: nat)
    requires Inside(a, end) && Tiled(rest, EndOf(a), end)
    ensures Tiled([a] + rest, a.nameAt, end)
  {
    assert ([a] + rest)[1..] == rest;
  }

  lemma {:induction false} AnswersAreTiled(read: word -> Found, payloadLen: word, offset: word, left: nat)
    requires forall o: word :: read(o).Found? ==>
               read(o).answer.nameAt == o && Inside(read(o).answer, payloadLen) && read(o).next == EndOf(read(o).answer)
    requires AnswersFrom(read, offset, left).Answers?
    ensures Tiled(AnswersFrom(read, offset, left).recorded, offset, payloadLen)
    ensures |AnswersFrom(read, offset, left).recorded| <= left
    decreases left
  {
    if left > 0 {
      match read(offset)
      case Stopped(_) =>
      case Found(answer, next) =>
        AnswersAreTiled(read, payloadLen, next, left - 1);
        TiledCons(answer, AnswersFrom(read, next, left - 1).recorded, payloadLen);
    }
  }

  /** What tiling means for each answer and each pair: all inside, none overlapping, 13 octets or more each. */
  lemma {:induction false} TiledMeans(answers: seq<Answer>, start: nat, end: nat)
    requires Tiled(answers, start, end)
    ensures forall i :: 0 <= i < |answers| ==> start <= answers[i].nameAt && Inside(answers[i], end)
    ensures forall i, j :: 0 <= i < j < |answers| ==> EndOf(answers[i]) <= answers[j].nameAt
    ensures answers != [] ==> start + 13 * |answers| <= end
  {
    if answers != [] {
      TiledMeans(answers[1..], EndOf(answers[0]), end);
      assert forall i :: 1 <= i < |answers| ==> answers[i] == answers[1..][i - 1];
    }
  }

  /** Every recorded answer lies wholly inside the payload, no two overlap, and there are at most
      min(left, payloadLen / 13) of them. */
  lemma AnswersAreSound(packet: Packet, payloadLen: word, offset: word, left: nat)
    requires payloadLen <= SHORT_PAYLOAD
    requires AnswersFrom(Reader(packet, payloadLen), offset, left).Answers?
    ensures var recorded := AnswersFrom(Reader(packet, payloadLen), offset, left).recorded;
            && (forall i :: 0 <= i < |recorded| ==> offset <= recorded[i].nameAt && Inside(recorded[i], payloadLen))
            && (forall i, j :: 0 <= i < j < |recorded| ==> EndOf(recorded[i]) <= recorded[j].nameAt)
            && |recorded| <= left && |recorded| <= payloadLen / 13
  {
    var read := Reader(packet, payloadLen);
    forall o: word | read(o).Found?
      ensures read(o).answer.nameAt == o && Inside(read(o).answer, payloadLen) && read(o).next == EndOf(read(o).answer)
    {
      FoundIsInside(packet, payloadLen, o);
    }
    AnswersAreTiled(read, payloadLen, offset, left);
    TiledMeans(AnswersFrom(read, offset, left).recorded, offset, payloadLen);
  }

  /** A message in which a measured name ends so far back that the 16-bit offset wraps behind the fixed fields: a
      name of 255 octets stands at message offset 3, and the fields of an address record at the very end of the
      64 KiB behind the header. */
  ghost function WrappingPacket(): Packet {
    seq(HEADER_SIZE + 0x1_0000, i =>
      if i == 3 || i == 67 || i == 131 || i == 194 then 63
      else if i == 195 then 61
      else if i == HEADER_SIZE + 65527 || i == HEADER_SIZE + 65529 then 1
      else if i == HEADER_SIZE + 65535 then 4
      else 0)
  }

  /** The length of the name that is measured there; where the 16-bit message length wraps too, its first label is
      measured and nothing more. */
  function WrappingName(payloadLen: word): byte {
    if Fits(payloadLen) then 255 else 64
  }

  lemma WrappingNameIsMeasured(payloadLen: word)
    requires payloadLen > SHORT_PAYLOAD
    ensures var m := NameLengthAt(WrappingPacket(), payloadLen, 65526 - WrappingName(payloadLen));
            m.Done? && m.param == WrappingName(payloadLen)
  {
    WrappingOctets();
    hide WrappingPacket;
    var packet, n := WrappingPacket(), Wrap(payloadLen + HEADER_SIZE);
    if Fits(payloadLen) {
      assert Cut(65271 + HEADER_SIZE) == 3;
      FiveLabels(packet, n);
    } else {
      assert Cut(65462 + HEADER_SIZE) == 194 && n < 64;
      CutLabel(packet, n);
    }
    hide WalkFrom;
  }

  lemma WrappingOctets()
    ensures var packet := WrappingPacket();
            |packet| == HEADER_SIZE + 0x1_0000 &&
            packet[3] == packet[67] == packet[131] == packet[194] == 63 && packet[195] == 61 && packet[257] == 0
  {
  }

  lemma CutLabel(packet: seq<byte>, n: word)
    requires |packet| > 194 && packet[194] == 63 && n < 64
    ensures WalkFrom(Accumulate, packet, n, 194, 0, 0) == Done(false, packet, 64)
  {
    assert TurnAt(Accumulate, packet, n, 194, 0, 0) == Stop(false, packet, 64);
  }

  lemma FiveLabels(packet: seq<byte>, n: word)
    requires |packet| > 257 && n >= 255
    requires packet[3] == packet[67] == packet[131] == 63 && packet[195] == 61 && packet[257] == 0
    ensures WalkFrom(Accumulate, packet, n, 3, 0, 0) == Done(true, packet, 255)
  {
    assert TurnAt(Accumulate, packet, n, 3, 0, 0) == Go(packet, 64, 67, 64);
    assert TurnAt(Accumulate, packet, n, 67, 64, 64) == Go(packet, 128, 131, 128);
    assert TurnAt(Accumulate, packet, n, 131, 128, 128) == Go(packet, 192, 195, 192);
    assert TurnAt(Accumulate, packet, n, 195, 192, 192) == Go(packet, 254, 257, 254);
    assert TurnAt(Accumulate, packet, n, 257, 254, 254) == Stop(true, packet, 255);
    hide TurnAt;
    assert WalkFrom(Accumulate, packet, n, 257, 254, 254) == Done(true, packet, 255);
    assert WalkFrom(Accumulate, packet, n, 195, 192, 192) == Done(true, packet, 255);
    assert WalkFrom(Accumulate, packet, n, 131, 128, 128) == Done(true, packet, 255);
    assert WalkFrom(Accumulate, packet, n, 67, 64, 64) == Done(true, packet, 255);
  }

  /** With every longer payload the loop can record an answer whose data lie in front of its name.  The fixed fields
      of this one are read behind the payload: the octets that follow it in memory take part. */
  lemma LongPayloadWraps(payloadLen: word)
    requires payloadLen > SHORT_PAYLOAD
    ensures var n := WrappingName(payloadLen);
            AnswerAt(WrappingPacket(), payloadLen, 65526 - n)
            == Found(Answer(65526 - n, n, HOST_ADDRESS, DNS_CLASS_IN, 0, 0, 4), 4)
  {
    WrappingNameIsMeasured(payloadLen);
    WrappingFields(payloadLen);
    LastOctets();
    hide NameLengthAt, WrappingPacket, FieldsAt;
  }

  lemma WrappingFields(payloadLen: word)
    requires payloadLen > SHORT_PAYLOAD
    ensures var n := WrappingName(payloadLen);
            FieldsAt(Payload(WrappingPacket()), payloadLen, 65526 - n, n)
            == Found(Answer(65526 - n, n, HOST_ADDRESS, DNS_CLASS_IN, 0, 0, 4), 4)
  {
    LastOctets();
    hide WrappingPacket, Payload, Get16, Get32, FieldsAt;
    LastFields(Payload(WrappingPacket()), payloadLen, WrappingName(payloadLen));
  }

  lemma LastOctets()
    ensures var payload := Payload(WrappingPacket());
            && |payload| == 0x1_0000
            && Get16(payload, 65526) == HOST_ADDRESS && Get16(payload, 65528) == DNS_CLASS_IN
            && Get32(payload, 65530) == 0 && Get16(payload, 65534) == 4
  {
    var packet, payload := WrappingPacket(), Payload(WrappingPacket());
    assert packet[65538] == 0 && packet[65539] == 1 && packet[65540] == 0 && packet[65541] == 1;
    assert packet[65542] == packet[65543] == packet[65544] == packet[65545] == packet[65546] == 0 && packet[65547] == 4;
    assert |packet| == 65548 && |payload| == 0x1_0000;
    hide WrappingPacket;
    assert payload[65526] == packet[65538] && payload[65527] == packet[65539];
    assert payload[65528] == packet[65540] && payload[65529] == packet[65541];
    assert payload[65530] == packet[65542] && payload[65531] == packet[65543];
    assert payload[65532] == packet[65544] && payload[65533] == packet[65545];
    assert payload[65534] == packet[65546] && payload[65535] == packet[65547];
  }

  lemma LastFields(payload: seq<byte>, payloadLen: word, n: byte)
    requires |payload| == 0x1_0000 && payloadLen > SHORT_PAYLOAD
    requires Get16(payload, 65526) == HOST_ADDRESS && Get16(payload, 65528) == DNS_CLASS_IN
    requires Get32(payload, 65530) == 0 && Get16(payload, 65534) == 4
    ensures FieldsAt(payload, payloadLen, 65526 - n, n)
         == Found(Answer(65526 - n, n, HOST_ADDRESS, DNS_CLASS_IN, 0, 0, 4), 4)
  {
    hide Get16, Get32;
    assert Wrap(65526 - n as int + n) == 65526 && Wrap(65526 + 2) == 65528 && Wrap(65528 + 2) == 65530;
    assert Wrap(65530 + 4) == 65534 && Wrap(65534 + 2) == 0;
  }

  /** Payloads short enough are exactly those in which every recorded answer lies inside the payload. */
  lemma ShortPayloadsExactly(payloadLen: word)
    ensures payloadLen <= SHORT_PAYLOAD
       <==> forall packet: Packet, offset: word :: AnswerAt(packet, payloadLen, offset).Found? ==>
              Inside(AnswerAt(packet, payloadLen, offset).answer, payloadLen)
  {
    hide AnswerAt;
    if payloadLen <= SHORT_PAYLOAD {
      forall packet: Packet, offset: word | AnswerAt(packet, payloadLen, offset).Found?
        ensures Inside(AnswerAt(packet, payloadLen, offset).answer, payloadLen)
      {
        FoundIsInside(packet, payloadLen, offset);
      }
    } else {
      LongPayloadWraps(payloadLen);
    }
  }

  // ----- well-formed answers are read back -----

  /** A resource record (section 3.2.1): owner name ended by a root octet or a pointer, fixed fields, data. */
  datatype Record = Record(labels: Labels, end: seq<byte>, rtype: word, rclass: word, ttl: dword, data: seq<byte>)

  ghost predicate ValidRecord(r: Record) {
    && AreLabels(r.labels) && IsTerminator(r.end)
    && |Encoded(r.labels) + r.end| <= MAX_LABELS_LENGTH
    && |r.data| < 0x1_0000
  }

  ghost function OwnerSize(r: Record): nat { |Encoded(r.labels) + r.end| }

  ghost function RecordWire(r: Record): seq<byte>
    requires ValidRecord(r)
  {
    Encoded(r.labels) + r.end
    + (Octets(r.rtype) + (Octets(r.rclass)
    + (Octets(r.ttl / 0x1_0000) + (Octets(r.ttl % 0x1_0000)
    + (Octets(|r.data|) + r.data)))))
  }

  /** What the loop accepts: addresses of four octets and canonical names of at least two, in class IN. */
  ghost predicate Accepted(r: Record) {
    && r.rclass == DNS_CLASS_IN
    && (r.rtype == HOST_ADDRESS || r.rtype == C_NAME)
    && (r.rtype == HOST_ADDRESS ==> |r.data| == 4)
    && |r.data| >= 2
  }

  /** The name measured in the place of the record's owner has the owner's length. */
  ghost predicate OwnerMeasured(packet: Packet, payloadLen: word, offset: nat, r: Record) {
    NameLengthAt(packet, payloadLen, offset).Done? && NameLengthAt(packet, payloadLen, offset).param == OwnerSize(r)
  }

  /** The octets of a canonical name that are copied into its field. */
  function KeptAlias(r: Record): (wire: seq<byte>)
    ensures |wire| < MAX_DOMAIN_NAME_LEN
  {
    AliasWire(r.data, 0, |r.data|)
  }

  /** Rewriting a canonical name stays inside the name field. */
  ghost predicate AliasSafe(r: Record) {
    r.rtype == C_NAME && |r.data| > 4 ==> !FieldWalk(KeptAlias(r)).Fault?
  }

  ghost function Placed(r: Record, offset: nat): Answer
    requires ValidRecord(r)
  {
    Answer(offset, OwnerSize(r), r.rtype, r.rclass, r.ttl, offset + OwnerSize(r) + 10, |r.data|)
  }

  /** A record inside the payload is recorded with exactly its own fields if and only if it is of an accepted kind,
      its canonical name stays in its field, at least 16 octets of payload follow its start, and the name measured
      in its place has the owner name's length.  Below message offset 256 that last holds of itself. */
  lemma RecordIsRead(packet: Packet, payloadLen: word, offset: word, r: Record)
    requires ValidRecord(r) && At(Payload(packet), offset, RecordWire(r))
    requires offset + |RecordWire(r)| <= payloadLen <= SHORT_PAYLOAD
    ensures AnswerAt(packet, payloadLen, offset) == Found(Placed(r, offset), offset + |RecordWire(r)|)
       <==> Accepted(r) && AliasSafe(r) && offset + 16 <= payloadLen && OwnerMeasured(packet, payloadLen, offset, r)
    ensures offset + HEADER_SIZE < 0x100 ==>
              AnswerAt(packet, payloadLen, offset)
              == if !Accepted(r) || offset + 16 > payloadLen then Stopped(0)
                 else if AliasSafe(r) then Found(Placed(r, offset), offset + |RecordWire(r)|)
                 else UnreadableAnswer
  {
    hide NameLengthAt, FieldsAt, AliasSafe, Accepted, DataReadable;
    RecordLayout(Payload(packet), offset, r);
    FieldsAreRead(Payload(packet), payloadLen, offset, r);
    PlacedIsReadable(Payload(packet), offset, r);
    if offset + HEADER_SIZE < 0x100 {
      NameLengthIsExact(packet, payloadLen, offset, r.labels, r.end);
    }
    var m := NameLengthAt(packet, payloadLen, offset);
    if offset + 16 <= payloadLen && m.Done? && m.param != 0 {
      FieldsAreInPlace(Payload(packet), payloadLen, offset, m.param);
    }
  }

  lemma PlacedIsReadable(payload: seq<byte>, offset: nat, r: Record)
    requires ValidRecord(r) && At(payload, offset, RecordWire(r))
    ensures DataReadable(payload, Placed(r, offset)) <==> AliasSafe(r)
  {
    hide FieldWalk;
    var o := offset + OwnerSize(r);
    RecordLayout(payload, offset, r);
    AtIsSlice(payload, o + 10, r.data);
    assert AliasWire(payload, o + 10, |r.data|) == KeptAlias(r);
  }

  lemma FieldsAreInPlace(payload: seq<byte>, payloadLen: word, nameAt: word, nameLen: byte)
    ensures var f := FieldsAt(payload, payloadLen, nameAt, nameLen);
            f.Found? ==> f.answer.nameAt == nameAt && f.answer.nameLen == nameLen
  {
  }

  lemma FieldsAreRead(payload: seq<byte>, payloadLen: word, offset: word, r: Record)
    requires ValidRecord(r)
    requires At(payload, offset, RecordWire(r))
    requires offset + |RecordWire(r)| <= payloadLen
    ensures FieldsAt(payload, payloadLen, offset, OwnerSize(r))
         == if Accepted(r) then Found(Placed(r, offset), offset + |RecordWire(r)|) else Stopped(0)
  {
    var o := offset + OwnerSize(r);
    RecordLayout(payload, offset, r);
    FixedFields(payload, o, r);
    hide At, Get16, Get32;
  }

  lemma FixedFields(payload: seq<byte>, o: nat, r: Record)
    requires |r.data| < 0x1_0000
    requires At(payload, o, Octets(r.rtype)) && At(payload, o + 2, Octets(r.rclass))
    requires At(payload, o + 4, Octets(r.ttl / 0x1_0000)) && At(payload, o + 6, Octets(r.ttl % 0x1_0000))
    requires At(payload, o + 8, Octets(|r.data|))
    ensures Readable(payload, o, 10)
    ensures Get16(payload, o) == r.rtype && Get16(payload, o + 2) == r.rclass
    ensures Get32(payload, o + 4) == r.ttl && Get16(payload, o + 8) == |r.data|
  {
    Get16At(payload, o, r.rtype);
    Get16At(payload, o + 2, r.rclass);
    Get16At(payload, o + 4, r.ttl / 0x1_0000);
    Get16At(payload, o + 6, r.ttl % 0x1_0000);
    Get16At(payload, o + 8, |r.data|);
  }

  lemma RecordLayout(payload: seq<byte>, offset: nat, r: Record)
    requires ValidRecord(r) && At(payload, offset, RecordWire(r))
    ensures var o := offset + OwnerSize(r);
            && At(payload, offset, Encoded(r.labels) + r.end)
            && At(payload, o, Octets(r.rtype)) && At(payload, o + 2, Octets(r.rclass))
            && At(payload, o + 4, Octets(r.ttl / 0x1_0000)) && At(payload, o + 6, Octets(r.ttl % 0x1_0000))
            && At(payload, o + 8, Octets(|r.data|)) && At(payload, o + 10, r.data)
    ensures |RecordWire(r)| == OwnerSize(r) + 10 + |r.data|
  {
    var o := offset + OwnerSize(r);
    var d := Octets(|r.data|) + r.data;
    var c := Octets(r.ttl % 0x1_0000) + d;
    var b := Octets(r.ttl / 0x1_0000) + c;
    var a := Octets(r.rclass) + b;
    AtSplit(payload, offset, Encoded(r.labels) + r.end, Octets(r.rtype) + a);
    AtSplit(payload, o, Octets(r.rtype), a);
    AtSplit(payload, o + 2, Octets(r.rclass), b);
    AtSplit(payload, o + 4, Octets(r.ttl / 0x1_0000), c);
    AtSplit(payload, o + 6, Octets(r.ttl % 0x1_0000), d);
    AtSplit(payload, o + 8, Octets(|r.data|), r.data);
  }

  ghost function RecordsWire(rs: seq<Record>): seq<byte>
    requires forall i :: 0 <= i < |rs| ==> ValidRecord(rs[i])
  {
    if rs == [] then [] else RecordWire(rs[0]) + RecordsWire(rs[1..])
  }

  ghost function AllPlaced(rs: seq<Record>, offset: nat): seq<Answer>
    requires forall i :: 0 <= i < |rs| ==> ValidRecord(rs[i])
  {
    if rs == [] then [] else [Placed(rs[0], offset)] + AllPlaced(rs[1..], offset + |RecordWire(rs[0])|)
  }

  /** What it takes for the loop to record r at offset. */
  ghost predicate Taken(packet: Packet, payloadLen: word, offset: nat, r: Record) {
    Accepted(r) && AliasSafe(r) && offset + 16 <= payloadLen && OwnerMeasured(packet, payloadLen, offset, r)
  }

  ghost predicate AllTaken(packet: Packet, payloadLen: word, offset: nat, rs: seq<Record>)
    requires forall i :: 0 <= i < |rs| ==> ValidRecord(rs[i])
    decreases |rs|
  {
    rs != [] ==>
      && Taken(packet, payloadLen, offset, rs[0])
      && AllTaken(packet, payloadLen, offset + |RecordWire(rs[0])|, rs[1..])
  }

  /** An answer section inside the payload is read back record for record if and only if each of its records is
      one that the loop takes at its place. */
  lemma {:induction false} AnswersAreRead(packet: Packet, payloadLen: word, offset: word, rs: seq<Record>)
    requires forall i :: 0 <= i < |rs| ==> ValidRecord(rs[i])
    requires At(Payload(packet), offset, RecordsWire(rs))
    requires offset + |RecordsWire(rs)| <= payloadLen <= SHORT_PAYLOAD
    ensures AnswersFrom(Reader(packet, payloadLen), offset, |rs|) == Answers(0, AllPlaced(rs, offset))
       <==> AllTaken(packet, payloadLen, offset, rs)
    decreases |rs|
  {
    hide AllTaken, AllPlaced, Taken, AnswersFrom, Reader, At, RecordsWire, RecordWire, ValidRecord;
    if rs == [] {
      NoneIsRead(packet, payloadLen, offset);
    } else {
      RestFollows(packet, payloadLen, offset, rs);
      AnswersAreRead(packet, payloadLen, offset + |RecordWire(rs[0])|, rs[1..]);
      OneMoreIsRead(packet, payloadLen, offset, rs);
      AllTakenNext(packet, payloadLen, offset, rs);
    }
  }

  lemma NoneIsRead(packet: Packet, payloadLen: word, offset: word)
    ensures AnswersFrom(Reader(packet, payloadLen), offset, 0) == Answers(0, AllPlaced([], offset))
    ensures AllTaken(packet, payloadLen, offset, [])
  {
  }

  lemma AllTakenNext(packet: Packet, payloadLen: word, offset: nat, rs: seq<Record>)
    requires rs != [] && forall i :: 0 <= i < |rs| ==> ValidRecord(rs[i])
    ensures AllTaken(packet, payloadLen, offset, rs)
       <==> && Taken(packet, payloadLen, offset, rs[0])
            && AllTaken(packet, payloadLen, offset + |RecordWire(rs[0])|, rs[1..])
  {
    hide Taken, RecordWire, ValidRecord;
  }

  lemma RestFollows(packet: Packet, payloadLen: word, offset: nat, rs: seq<Record>)
    requires rs != [] && forall i :: 0 <= i < |rs| ==> ValidRecord(rs[i])
    requires At(Payload(packet), offset, RecordsWire(rs))
    requires offset + |RecordsWire(rs)| <= payloadLen
    ensures var next := offset + |RecordWire(rs[0])|;
            && At(Payload(packet), offset, RecordWire(rs[0])) && At(Payload(packet), next, RecordsWire(rs[1..]))
            && next + |RecordsWire(rs[1..])| == offset + |RecordsWire(rs)|
  {
    hide RecordWire;
    AtSplit(Payload(packet), offset, RecordWire(rs[0]), RecordsWire(rs[1..]));
  }

  lemma OneMoreIsRead(packet: Packet, payloadLen: word, offset: word, rs: seq<Record>)
    requires rs != [] && forall i :: 0 <= i < |rs| ==> ValidRecord(rs[i])
    requires At(Payload(packet), offset, RecordWire(rs[0]))
    requires offset + |RecordWire(rs[0])| <= payloadLen <= SHORT_PAYLOAD
    ensures var next := offset + |RecordWire(rs[0])|;
            && (AnswersFrom(Reader(packet, payloadLen), offset, |rs|) == Answers(0, AllPlaced(rs, offset))
                <==> Taken(packet, payloadLen, offset, rs[0])
                     && AnswersFrom(Reader(packet, payloadLen), next, |rs| - 1) == Answers(0, AllPlaced(rs[1..], next)))
  {
    hide ValidRecord, Taken, AnswerAt, Placed, RecordWire, AnswersFrom, At;
    var next := offset + |RecordWire(rs[0])|;
    RecordIsTaken(packet, payloadLen, offset, rs[0]);
    OneMore(Reader(packet, payloadLen), offset, |rs|, Placed(rs[0], offset), next, AllPlaced(rs[1..], next));
  }

  lemma OneMore(read: word -> Found, offset: word, left: nat, a: Answer, next: word, rest: seq<Answer>)
    requires left > 0
    requires read(offset).Found? && read(offset).answer == a ==> read(offset).next == next
    ensures AnswersFrom(read, offset, left) == Answers(0, [a] + rest)
       <==> read(offset) == Found(a, next) && AnswersFrom(read, next, left - 1) == Answers(0, rest)
  {
    if AnswersFrom(read, offset, left) == Answers(0, [a] + rest) {
      var recorded := AnswersFrom(read, offset, left).recorded;
      assert recorded[0] == a && recorded[1..] == rest;
    }
  }

  lemma RecordIsTaken(packet: Packet, payloadLen: word, offset: word, r: Record)
    requires ValidRecord(r) && At(Payload(packet), offset, RecordWire(r))
    requires offset + |RecordWire(r)| <= payloadLen <= SHORT_PAYLOAD
    ensures var found := AnswerAt(packet, payloadLen, offset);
            && (Taken(packet, payloadLen, offset, r) <==> found == Found(Placed(r, offset), offset + |RecordWire(r)|))
            && (Taken(packet, payloadLen, offset, r) <==> found.Found? && found.answer == Placed(r, offset))
  {
    RecordIsRead(packet, payloadLen, offset, r);
    hide AnswerAt, Accepted, AliasSafe, OwnerMeasured;
    FoundIsInside(packet, payloadLen, offset);
    RecordLayout(Payload(packet), offset, r);
  }

  // ----- records that are always taken -----

  /** A record whose canonical name, if it is one, keeps octets that are safe to rewrite. */
  ghost predicate PlainAlias(r: Record) {
    r.rtype == C_NAME && |r.data| > 4 ==> SafeOctets(KeptAlias(r))
  }

  /** Canonical names that are safe: all of at most 192 octets, whatever they hold, all without a pointer octet, and
      well-formed ones that do not stray. */
  lemma PlainAliasIsSafe(r: Record)
    requires PlainAlias(r)
    ensures AliasSafe(r)
  {
    hide FieldWalk, SafeOctets;
    if r.rtype == C_NAME && |r.data| > 4 {
      SafeOctetsStay(KeptAlias(r));
    }
  }

  /** A well-formed canonical name, compressed or not, stays in its field unless it strays - and no name shorter
      than 255 octets does. */
  lemma AliasIsSafe(r: Record, ls: Labels, end: seq<byte>)
    requires r.rtype == C_NAME && NameShape(r.data, ls, end) && IsTerminator(end)
    ensures AliasSafe(r) <==> !Strays(ls, end)
    ensures |r.data| <= 254 ==> !Strays(ls, end) && PlainAlias(r)
  {
    hide FieldWalk;
    FieldFaults(r.data, ls, end);
    assert KeptAlias(r) == r.data;
  }

  /** For canonical names of each longer length that is no general rule: one of them leaves its field. */
  lemma LongAliasFaults(r: Record, n: nat)
    requires 193 <= n <= MAX_LABELS_LENGTH && r.rtype == C_NAME && r.data == LeadingOut(n)
    ensures !AliasSafe(r)
  {
    hide FieldWalk, LeadingOut;
    LeadingOutFaults(n);
    assert KeptAlias(r) == r.data;
  }

  /** Every record starts below message offset 256 and has 16 octets of payload behind its start. */
  ghost predicate InReach(rs: seq<Record>, offset: nat, payloadLen: nat)
    requires forall i :: 0 <= i < |rs| ==> ValidRecord(rs[i])
  {
    rs != [] ==>
      && offset + HEADER_SIZE < 0x100
      && offset + 16 <= payloadLen
      && InReach(rs[1..], offset + |RecordWire(rs[0])|, payloadLen)
  }

  /** Accepted records in reach, with well-formed canonical names, are all taken. */
  lemma {:induction false} RecordsInReach(packet: Packet, payloadLen: word, offset: nat, rs: seq<Record>)
    requires forall i :: 0 <= i < |rs| ==> ValidRecord(rs[i]) && PlainAlias(rs[i]) && Accepted(rs[i])
    requires At(Payload(packet), offset, RecordsWire(rs))
    requires offset + |RecordsWire(rs)| <= payloadLen <= SHORT_PAYLOAD
    requires InReach(rs, offset, payloadLen)
    ensures AllTaken(packet, payloadLen, offset, rs)
    decreases |rs|
  {
    hide RecordWire, RecordsWire, At, ValidRecord, PlainAlias, Accepted, Taken, AllTaken;
    if rs == [] {
      NoneIsRead(packet, payloadLen, offset);
    } else {
      RestFollows(packet, payloadLen, offset, rs);
      OneInReach(packet, payloadLen, offset, rs[0]);
      RecordsInReach(packet, payloadLen, offset + |RecordWire(rs[0])|, rs[1..]);
      AllTakenNext(packet, payloadLen, offset, rs);
    }
  }

  lemma OneInReach(packet: Packet, payloadLen: word, offset: nat, r: Record)
    requires ValidRecord(r) && PlainAlias(r) && Accepted(r) && At(Payload(packet), offset, RecordWire(r))
    requires offset + |RecordWire(r)| <= payloadLen <= SHORT_PAYLOAD
    requires offset + HEADER_SIZE < 0x100 && offset + 16 <= payloadLen
    ensures Taken(packet, payloadLen, offset, r)
  {
    hide NameLengthAt, PlainAlias, AliasSafe;
    RecordLayout(Payload(packet), offset, r);
    NameLengthIsExact(packet, payloadLen, offset, r.labels, r.end);
    PlainAliasIsSafe(r);
  }
}
