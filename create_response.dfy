/** Building a response message (RFC 1035 section 4.1): the 12-byte header, the questions
    echoed back, then the answer records, each with its RDLENGTH and RDATA. */
module CreateResponse {
  import opened Bytes
  import opened Outcomes
  import opened Strings
  import opened Names
  import opened DnsEnum
  import opened RequestBody
  import opened RData
  import opened Numerals
  import opened Packets

  /** A `size()` stored into a `uint16_t` field: only the low 16 bits survive. */
  function Count(n: nat): (c: u16)
    ensures n < 0x1_0000 ==> c == n
  {
    n % 0x1_0000
  }

  /** The six header words, each big-endian, in wire order. */
  function HeaderBytes(id: u16, flags: u16, qdCount: u16, anCount: u16, nsCount: u16, arCount: u16): (r: seq<byte>)
    ensures |r| == HEADER_SIZE
  {
    Be16(id) + Be16(flags) + Be16(qdCount) + Be16(anCount) + Be16(nsCount) + Be16(arCount)
  }

  /** One echoed question: its name, then its type and class codes as given. */
  function QuestionBytes(q: QuestionSection): Result<seq<byte>>
  {
    match EncodeName(q.query)
    case Err(e) => Err(e)
    case Ok(name) => Ok(name + Be16(q.queryType) + Be16(q.queryClass))
  }

  /** What `createBody` returns: the header with the caller's flags and answer count, the
      question count taken from the list, and the questions in list order. */
  function BodyBytes(req: DnsRequestBody, questions: seq<QuestionSection>, flags: u16, answerCount: u16): Result<seq<byte>>
  {
    match ConcatResults(questions, QuestionBytes)
    case Err(e) => Err(e)
    case Ok(qs) =>
      Ok(HeaderBytes(req.transactionID, flags, Count(|questions|), answerCount,
                     req.authorityRRs, req.additionalRRs) + qs)
  }

  /** One resource record after its name: TYPE, CLASS, TTL, RDLENGTH (the RDATA size cast to
      16 bits), then the RDATA itself. */
  function ResourceRecord(name: seq<byte>, typeCode: u16, classCode: u16, ttl: u32, rData: seq<byte>): seq<byte>
  {
    name + Be16(typeCode) + Be16(classCode) + Be32(ttl) + Be16(Count(|rData|)) + rData
  }

  /** The RDATA that the `switch` in `createResponse` chooses for the record type; MX gets
      the target name only, and any other type an empty RDATA. */
  function AnswerRData(a: AnswerSection): Result<seq<byte>>
  {
    match a.queryType
    case A => Ipv4Bytes(a.rData)
    case CNAME => Ok(DnsFormat(a.rData))
    case AAAA => Ipv6Bytes(a.rData)
    case MX => Ok(DnsFormat(a.rData))
    case _ => Ok([])
  }

  function AnswerBytes(a: AnswerSection): Result<seq<byte>>
  {
    match EncodeName(a.query)
    case Err(e) => Err(e)
    case Ok(name) =>
      match AnswerRData(a)
      case Err(e) => Err(e)
      case Ok(rData) => Ok(ResourceRecord(name, a.queryType.Code(), a.queryClass.Code(), a.ttl, rData))
  }

  /** What `createResponse` returns: the body with the answer count taken from the answer
      list, then every answer in list order. */
  function ResponseBytes(flags: u16, answers: seq<AnswerSection>, questions: seq<QuestionSection>,
                         req: DnsRequestBody): Result<seq<byte>>
  {
    match BodyBytes(req, questions, flags, Count(|answers|))
    case Err(e) => Err(e)
    case Ok(body) =>
      match ConcatResults(answers, AnswerBytes)
      case Err(e) => Err(e)
      case Ok(records) => Ok(body + records)
  }

  /** MX RDATA as `createMxResponse` builds it: the preference, then the target name. */
  function MxRData(a: AnswerSectionWithPriority): seq<byte>
  {
    Be16(a.priority) + DnsFormat(a.rData)
  }

  /** One record of `createMxResponse`: type MX and class IN whatever the record says. */
  function MxAnswerBytes(a: AnswerSectionWithPriority): Result<seq<byte>>
  {
    match EncodeName(a.query)
    case Err(e) => Err(e)
    case Ok(name) => Ok(ResourceRecord(name, QueryType.MX.Code(), QueryClass.IN.Code(), a.ttl, MxRData(a)))
  }

  function MxResponseBytes(flags: u16, answers: seq<AnswerSectionWithPriority>, questions: seq<QuestionSection>,
                           req: DnsRequestBody): Result<seq<byte>>
  {
    match BodyBytes(req, questions, flags, Count(|answers|))
    case Err(e) => Err(e)
    case Ok(body) =>
      match ConcatResults(answers, MxAnswerBytes)
      case Err(e) => Err(e)
      case Ok(records) => Ok(body + records)
  }

  // The encoder's methods, each proved to return what the function above describes.

  /** The body of the question loop in `createBody`: name, type, class. */
  method AddQuestion(packet: Packet, section: QuestionSection) returns (ok: bool)
    modifies packet
    ensures ok == QuestionBytes(section).Ok?
    ensures ok ==> packet.bytes == old(packet.bytes) + QuestionBytes(section).value
  {
    ok := packet.AddDomainName(section.query);
    if !ok {
      return;
    }
    packet.AddUint16(section.queryType);
    packet.AddUint16(section.queryClass);
  }

  /** `createBody`: six `addUint16` calls, then each question's name, type and class. */
  method CreateBody(req: DnsRequestBody, questions: seq<QuestionSection>, flags: u16, answerCount: u16)
    returns (r: Result<seq<byte>>)
    ensures r == BodyBytes(req, questions, flags, answerCount)
  {
    var responsePacket := new Packet();
    responsePacket.AddUint16(req.transactionID);
    responsePacket.AddUint16(flags);
    responsePacket.AddUint16(Count(|questions|));
    responsePacket.AddUint16(answerCount);
    responsePacket.AddUint16(req.authorityRRs);
    responsePacket.AddUint16(req.additionalRRs);
    ghost var header := responsePacket.bytes;
    assert header == HeaderBytes(req.transactionID, flags, Count(|questions|), answerCount,
                                 req.authorityRRs, req.additionalRRs);
    var ok := AddQuestions(responsePacket, questions);
    if !ok {
      return Err(LabelTooLong);
    }
    return Ok(responsePacket.bytes);
  }

  /** The question loop of `createBody`, which stops at the first name that throws. */
  method AddQuestions(packet: Packet, questions: seq<QuestionSection>) returns (ok: bool)
    modifies packet
    ensures ok == ConcatResults(questions, QuestionBytes).Ok?
    ensures !ok ==> ConcatResults(questions, QuestionBytes) == Err(LabelTooLong)
    ensures ok ==> packet.bytes == old(packet.bytes) + ConcatResults(questions, QuestionBytes).value
  {
    ghost var start := packet.bytes;
    for i := 0 to |questions|
      invariant ConcatResults(questions[..i], QuestionBytes).Ok?
      invariant packet.bytes == start + ConcatResults(questions[..i], QuestionBytes).value
    {
      ok := AddQuestion(packet, questions[i]);
      if !ok {
        ConcatResultsFailsAt(questions, i, QuestionBytes);
        return;
      }
      ConcatResultsStep(questions, i, QuestionBytes, start, packet.bytes);
    }
    assert questions[..|questions|] == questions;
    return true;
  }

  /** The `switch` on the record type in `createResponse`. */
  method RDataFor(section: AnswerSection) returns (r: Result<seq<byte>>)
    ensures r == AnswerRData(section)
  {
    match section.queryType
    case A =>
      r := IpToBytes(section.rData);
    case CNAME =>
      var d := DomainToDnsFormat(section.rData);
      r := Ok(d);
    case AAAA =>
      r := ParseIpv6Address(section.rData);
    case MX =>
      var d := DomainToDnsFormat(section.rData);
      r := Ok(d);
    case _ =>
      r := Ok([]);
  }

  /** The body of the answer loop in `createResponse`; `None` when the record was written. */
  method AddAnswer(packet: Packet, section: AnswerSection) returns (failure: Option<Error>)
    modifies packet
    ensures failure.None? == AnswerBytes(section).Ok?
    ensures failure.Some? ==> failure.value == AnswerBytes(section).error
    ensures failure.None? ==> packet.bytes == old(packet.bytes) + AnswerBytes(section).value
  {
    var ok := packet.AddDomainName(section.query);
    if !ok {
      return Some(LabelTooLong);
    }
    packet.AddUint16(section.queryType.Code());
    packet.AddUint16(section.queryClass.Code());
    packet.AddUint32(section.ttl);
    var rDataBytes := RDataFor(section);
    if rDataBytes.Err? {
      return Some(rDataBytes.error);
    }
    packet.AddUint16(Count(|rDataBytes.value|));
    packet.Insert(rDataBytes.value);
    RecordAppended(old(packet.bytes), EncodeName(section.query).value, section.queryType.Code(),
                   section.queryClass.Code(), section.ttl, rDataBytes.value);
    return None;
  }

  /** The fields of a record appended one after another make up the record. */
  lemma RecordAppended(start: seq<byte>, name: seq<byte>, typeCode: u16, classCode: u16, ttl: u32, rData: seq<byte>)
    ensures start + name + Be16(typeCode) + Be16(classCode) + Be32(ttl) + Be16(Count(|rData|)) + rData
         == start + ResourceRecord(name, typeCode, classCode, ttl, rData)
  {
    var fixed := Be16(typeCode) + Be16(classCode) + Be32(ttl) + Be16(Count(|rData|));
    assert start + name + Be16(typeCode) + Be16(classCode) + Be32(ttl) + Be16(Count(|rData|))
        == start + (name + fixed);
  }

  /** `createResponse`: the body, then for each answer its name, type, class, TTL,
      RDLENGTH and RDATA. */
  method CreateResponse(flags: u16, answerSection: seq<AnswerSection>, questions: seq<QuestionSection>,
                        req: DnsRequestBody) returns (r: Result<seq<byte>>)
    ensures r == ResponseBytes(flags, answerSection, questions, req)
  {
    var answerCount := Count(|answerSection|);
    var body := CreateBody(req, questions, flags, answerCount);
    if body.Err? {
      return Err(body.error);
    }
    var responsePacket := new Packet.FromBytes(body.value);
    var failure := AddAnswers(responsePacket, answerSection);
    if failure.Some? {
      return Err(failure.value);
    }
    return Ok(responsePacket.bytes);
  }

  /** The answer loop of `createResponse`, which stops at the first record that throws. */
  method AddAnswers(packet: Packet, answers: seq<AnswerSection>) returns (failure: Option<Error>)
    modifies packet
    ensures failure.None? == ConcatResults(answers, AnswerBytes).Ok?
    ensures failure.Some? ==> ConcatResults(answers, AnswerBytes) == Err(failure.value)
    ensures failure.None? ==> packet.bytes == old(packet.bytes) + ConcatResults(answers, AnswerBytes).value
  {
    ghost var start := packet.bytes;
    for i := 0 to |answers|
      invariant ConcatResults(answers[..i], AnswerBytes).Ok?
      invariant packet.bytes == start + ConcatResults(answers[..i], AnswerBytes).value
    {
      failure := AddAnswer(packet, answers[i]);
      if failure.Some? {
        ConcatResultsFailsAt(answers, i, AnswerBytes);
        return;
      }
      ConcatResultsStep(answers, i, AnswerBytes, start, packet.bytes);
    }
    assert answers[..|answers|] == answers;
    return None;
  }

  /** The body of the answer loop in `createMxResponse`. */
  method AddMxAnswer(packet: Packet, section: AnswerSectionWithPriority) returns (ok: bool)
    modifies packet
    ensures ok == MxAnswerBytes(section).Ok?
    ensures ok ==> packet.bytes == old(packet.bytes) + MxAnswerBytes(section).value
  {
    ok := packet.AddDomainName(section.query);
    if !ok {
      return;
    }
    packet.AddUint16(QueryType.MX.Code());
    packet.AddUint16(QueryClass.IN.Code());
    packet.AddUint32(section.ttl);
    var rDataBytes := MxRDataFor(section);
    packet.AddUint16(Count(|rDataBytes|));
    packet.Insert(rDataBytes);
    RecordAppended(old(packet.bytes), EncodeName(section.query).value, QueryType.MX.Code(), QueryClass.IN.Code(),
                   section.ttl, rDataBytes);
  }

  /** The RDATA vector of `createMxResponse`: `addUint16` of the preference, then the
      target name inserted after it. */
  method MxRDataFor(section: AnswerSectionWithPriority) returns (r: seq<byte>)
    ensures r == MxRData(section)
  {
    var rDataBytes := new Packet();
    rDataBytes.AddUint16(section.priority);
    var domainBytes := DomainToDnsFormat(section.rData);
    rDataBytes.Insert(domainBytes);
    return rDataBytes.bytes;
  }

  /** `createMxResponse`: like `createResponse`, but every record is MX in class IN and its
      RDATA is the preference followed by the target name. */
  method CreateMxResponse(flags: u16, answerWithPriority: seq<AnswerSectionWithPriority>,
                          questions: seq<QuestionSection>, req: DnsRequestBody) returns (r: Result<seq<byte>>)
    ensures r == MxResponseBytes(flags, answerWithPriority, questions, req)
  {
    var answerCount := Count(|answerWithPriority|);
    var body := CreateBody(req, questions, flags, answerCount);
    if body.Err? {
      return Err(body.error);
    }
    var responsePacket := new Packet.FromBytes(body.value);
    var ok := AddMxAnswers(responsePacket, answerWithPriority);
    if !ok {
      return Err(LabelTooLong);
    }
    return Ok(responsePacket.bytes);
  }

  /** The answer loop of `createMxResponse`, which stops at the first name that throws. */
  method AddMxAnswers(packet: Packet, answers: seq<AnswerSectionWithPriority>) returns (ok: bool)
    modifies packet
    ensures ok == ConcatResults(answers, MxAnswerBytes).Ok?
    ensures !ok ==> ConcatResults(answers, MxAnswerBytes) == Err(LabelTooLong)
    ensures ok ==> packet.bytes == old(packet.bytes) + ConcatResults(answers, MxAnswerBytes).value
  {
    ghost var start := packet.bytes;
    for i := 0 to |answers|
      invariant ConcatResults(answers[..i], MxAnswerBytes).Ok?
      invariant packet.bytes == start + ConcatResults(answers[..i], MxAnswerBytes).value
    {
      ok := AddMxAnswer(packet, answers[i]);
      if !ok {
        ConcatResultsFailsAt(answers, i, MxAnswerBytes);
        return;
      }
      ConcatResultsStep(answers, i, MxAnswerBytes, start, packet.bytes);
    }
    assert answers[..|answers|] == answers;
    return true;
  }

  // What the built messages contain, read back field by field.

  /** The six header words read back, high byte first, at offsets 0, 2, 4, 6, 8 and 10. */
  lemma HeaderFields(b: seq<byte>, id: u16, flags: u16, qdCount: u16, anCount: u16, nsCount: u16, arCount: u16)
    requires |b| >= HEADER_SIZE && b[..HEADER_SIZE] == HeaderBytes(id, flags, qdCount, anCount, nsCount, arCount)
    ensures ReadBe16(b[0], b[1]) == id && ReadBe16(b[2], b[3]) == flags
    ensures ReadBe16(b[4], b[5]) == qdCount && ReadBe16(b[6], b[7]) == anCount
    ensures ReadBe16(b[8], b[9]) == nsCount && ReadBe16(b[10], b[11]) == arCount
  {
    var h := HeaderBytes(id, flags, qdCount, anCount, nsCount, arCount);
    assert b[0] == h[0] && b[1] == h[1] && b[2] == h[2] && b[3] == h[3];
    assert b[4] == h[4] && b[5] == h[5] && b[6] == h[6] && b[7] == h[7];
    assert b[8] == h[8] && b[9] == h[9] && b[10] == h[10] && b[11] == h[11];
    ReadBe16OfBe16(id);
    ReadBe16OfBe16(flags);
    ReadBe16OfBe16(qdCount);
    ReadBe16OfBe16(anCount);
    ReadBe16OfBe16(nsCount);
    ReadBe16OfBe16(arCount);
  }

  /** `createBody` throws exactly when some question's name has a label over 63 bytes.
      Otherwise it writes the header, with the question count equal to the number of
      questions (cast to 16 bits), and then the questions. */
  lemma BodyLayout(req: DnsRequestBody, questions: seq<QuestionSection>, flags: u16, answerCount: u16)
    ensures BodyBytes(req, questions, flags, answerCount).Ok? <==>
      forall i :: 0 <= i < |questions| ==> EncodeName(questions[i].query).Ok?
    ensures BodyBytes(req, questions, flags, answerCount).Err? ==>
      BodyBytes(req, questions, flags, answerCount).error == LabelTooLong
    ensures BodyBytes(req, questions, flags, answerCount).Ok? ==>
      var b := BodyBytes(req, questions, flags, answerCount).value;
      |b| >= HEADER_SIZE
      && ReadBe16(b[0], b[1]) == req.transactionID && ReadBe16(b[2], b[3]) == flags
      && ReadBe16(b[4], b[5]) == Count(|questions|) && ReadBe16(b[6], b[7]) == answerCount
      && ReadBe16(b[8], b[9]) == req.authorityRRs && ReadBe16(b[10], b[11]) == req.additionalRRs
      && (|questions| < 0x1_0000 ==> ReadBe16(b[4], b[5]) == |questions|)
      && b[HEADER_SIZE..] == ConcatResults(questions, QuestionBytes).value
  {
    ConcatResultsOk(questions, QuestionBytes);
    var allOk := forall x :: x in questions ==> QuestionBytes(x).Ok?;
    assert allOk <==> forall i :: 0 <= i < |questions| ==> EncodeName(questions[i].query).Ok? by {
      if allOk {
        forall i | 0 <= i < |questions| ensures EncodeName(questions[i].query).Ok? {
          assert QuestionBytes(questions[i]).Ok?;
        }
      }
    }
    QuestionErrors(questions);
    var body := BodyBytes(req, questions, flags, answerCount);
    if body.Ok? {
      var h := HeaderBytes(req.transactionID, flags, Count(|questions|), answerCount, req.authorityRRs, req.additionalRRs);
      assert body.value[..HEADER_SIZE] == h;
      HeaderFields(body.value, req.transactionID, flags, Count(|questions|), answerCount, req.authorityRRs, req.additionalRRs);
    }
  }

  /** The only error the question loop can raise is the one of `addDomainName`. */
  lemma {:induction false} QuestionErrors(questions: seq<QuestionSection>)
    ensures ConcatResults(questions, QuestionBytes).Err? ==>
      ConcatResults(questions, QuestionBytes).error == LabelTooLong
    decreases |questions|
  {
    if questions != [] {
      QuestionErrors(questions[..|questions| - 1]);
    }
  }

  /** Each record's fields follow its name at fixed offsets: TYPE, CLASS, TTL, then RDLENGTH,
      which counts (modulo 2^16, the cast to `uint16_t`) exactly the RDATA bytes after it. */
  lemma ResourceRecordLayout(name: seq<byte>, typeCode: u16, classCode: u16, ttl: u32, rData: seq<byte>)
    ensures var r := ResourceRecord(name, typeCode, classCode, ttl, rData);
      var n := |name|;
      |r| == n + 10 + |rData| && r[..n] == name
      && ReadBe16(r[n], r[n + 1]) == typeCode && ReadBe16(r[n + 2], r[n + 3]) == classCode
      && ReadBe32(r[n + 4 .. n + 8]) == ttl
      && ReadBe16(r[n + 8], r[n + 9]) == Count(|rData|) && r[n + 10..] == rData
      && (|rData| < 0x1_0000 ==> ReadBe16(r[n + 8], r[n + 9]) == |rData|)
  {
    var r := ResourceRecord(name, typeCode, classCode, ttl, rData);
    var n := |name|;
    var t, c, l := Be16(typeCode), Be16(classCode), Be16(Count(|rData|));
    assert r == name + t + c + Be32(ttl) + l + rData;
    assert r[n] == t[0] && r[n + 1] == t[1] && r[n + 2] == c[0] && r[n + 3] == c[1];
    assert r[n + 4 .. n + 8] == Be32(ttl);
    assert r[n + 8] == l[0] && r[n + 9] == l[1];
    ReadBe16OfBe16(typeCode);
    ReadBe16OfBe16(classCode);
    ReadBe32OfBe32(ttl);
    ReadBe16OfBe16(Count(|rData|));
  }

  /** The RDATA `createResponse` chooses: four octets for A, sixteen bytes for AAAA, the
      encoded name (two bytes longer than its text) for CNAME and for MX, and nothing for
      every other type. */
  lemma AnswerRDataShape(a: AnswerSection)
    ensures a.queryType == A ==>
      (AnswerRData(a).Ok? <==> |Fields(a.rData, DOT)| == 4 && forall i :: 0 <= i < 4 ==> IsOctet(Fields(a.rData, DOT)[i]))
    ensures a.queryType == A && AnswerRData(a).Ok? ==> |AnswerRData(a).value| == 4
    ensures a.queryType == AAAA ==>
      (AnswerRData(a).Ok? <==> |Fields(a.rData, COLON)| == 8 && forall i :: 0 <= i < 8 ==> ParseNumeral(Fields(a.rData, COLON)[i], 16).Some?)
    ensures a.queryType == AAAA && AnswerRData(a).Ok? ==> |AnswerRData(a).value| == 16
    ensures a.queryType == CNAME || a.queryType == MX ==>
      AnswerRData(a).Ok? && |AnswerRData(a).value| == |a.rData| + 2
    ensures a.queryType !in {A, CNAME, AAAA, MX} ==> AnswerRData(a) == Ok([])
  {
    match a.queryType
    case A => Ipv4BytesOk(a.rData);
    case AAAA => Ipv6BytesOk(a.rData);
    case CNAME => DnsFormatShape(a.rData);
    case MX => DnsFormatShape(a.rData);
    case _ =>
  }

  /** An answer of `createResponse` is written exactly when its name fits and its RDATA
      converts; it is then its name, TYPE, CLASS and TTL as given, and an RDLENGTH that
      counts the RDATA after it. */
  lemma AnswerLayout(a: AnswerSection)
    ensures AnswerBytes(a).Ok? <==> EncodeName(a.query).Ok? && AnswerRData(a).Ok?
    ensures AnswerBytes(a).Ok? ==>
      var r := AnswerBytes(a).value;
      var name := EncodeName(a.query).value;
      var d := AnswerRData(a).value;
      var n := |name|;
      |r| == n + 10 + |d| && r[..n] == name
      && ReadBe16(r[n], r[n + 1]) == a.queryType.Code() && ReadBe16(r[n + 2], r[n + 3]) == a.queryClass.Code()
      && ReadBe32(r[n + 4 .. n + 8]) == a.ttl
      && ReadBe16(r[n + 8], r[n + 9]) == Count(|d|) && r[n + 10..] == d
  {
    if AnswerBytes(a).Ok? {
      ResourceRecordLayout(EncodeName(a.query).value, a.queryType.Code(), a.queryClass.Code(), a.ttl, AnswerRData(a).value);
    }
  }

  /** On the `createResponse` path an MX record carries no preference: its RDATA is the target
      name alone, whose first byte is the first label's length, while `createMxResponse`
      puts the two preference bytes in front of the same name. */
  lemma MxWithoutPriority(a: AnswerSection, m: AnswerSectionWithPriority)
    requires a.queryType == MX && m.rData == a.rData
    ensures AnswerRData(a).Ok? && AnswerRData(a).value[0] == |Split(a.rData, DOT)[0]| % 0x100
    ensures |MxRData(m)| == |AnswerRData(a).value| + 2
    ensures MxRData(m)[..2] == Be16(m.priority) && MxRData(m)[2..] == AnswerRData(a).value
  {
    var pieces := Split(a.rData, DOT);
    assert pieces == [pieces[0]] + pieces[1..];
    assert EncodeLabels(pieces) == LabelBytes(pieces[0]) + EncodeLabels(pieces[1..]);
  }

  /** A record of `createMxResponse` is written exactly when its name fits, with TYPE 15 (MX)
      and CLASS 1 (IN) whatever type and class the record holds, its TTL, an RDLENGTH that
      counts the preference and the target name, the preference, and the target name. */
  lemma MxAnswerLayout(m: AnswerSectionWithPriority)
    ensures MxAnswerBytes(m).Ok? <==> EncodeName(m.query).Ok?
    ensures MxAnswerBytes(m).Err? ==> MxAnswerBytes(m).error == LabelTooLong
    ensures MxAnswerBytes(m).Ok? ==>
      var r := MxAnswerBytes(m).value;
      var n := |EncodeName(m.query).value|;
      |r| == n + 14 + |m.rData| && r[..n] == EncodeName(m.query).value
      && ReadBe16(r[n], r[n + 1]) == 15 && ReadBe16(r[n + 2], r[n + 3]) == 1
      && ReadBe32(r[n + 4 .. n + 8]) == m.ttl
      && ReadBe16(r[n + 8], r[n + 9]) == Count(|m.rData| + 4)
      && ReadBe16(r[n + 10], r[n + 11]) == m.priority
      && r[n + 12..] == DnsFormat(m.rData)
  {
    if MxAnswerBytes(m).Ok? {
      var name := EncodeName(m.query).value;
      var n := |name|;
      var d := MxRData(m);
      DnsFormatShape(m.rData);
      ResourceRecordLayout(name, QueryType.MX.Code(), QueryClass.IN.Code(), m.ttl, d);
      var r := MxAnswerBytes(m).value;
      assert r[n + 10..] == d;
      assert r[n + 10] == d[0] && r[n + 11] == d[1];
      ReadBe16OfBe16(m.priority);
    }
  }

  /** `createResponse` succeeds exactly when the body and every answer do; its header then
      echoes the request's ID, authority and additional counts, carries the given flags, and
      counts the questions and the answers it holds (each cast to 16 bits). */
  lemma ResponseHeader(flags: u16, answers: seq<AnswerSection>, questions: seq<QuestionSection>, req: DnsRequestBody)
    ensures ResponseBytes(flags, answers, questions, req).Ok? <==>
      (forall i :: 0 <= i < |questions| ==> EncodeName(questions[i].query).Ok?)
      && forall i :: 0 <= i < |answers| ==> AnswerBytes(answers[i]).Ok?
    ensures ResponseBytes(flags, answers, questions, req).Ok? ==>
      var r := ResponseBytes(flags, answers, questions, req).value;
      |r| >= HEADER_SIZE
      && ReadBe16(r[0], r[1]) == req.transactionID && ReadBe16(r[2], r[3]) == flags
      && ReadBe16(r[4], r[5]) == Count(|questions|) && ReadBe16(r[6], r[7]) == Count(|answers|)
      && ReadBe16(r[8], r[9]) == req.authorityRRs && ReadBe16(r[10], r[11]) == req.additionalRRs
      && (|answers| < 0x1_0000 ==> ReadBe16(r[6], r[7]) == |answers|)
  {
    BodyLayout(req, questions, flags, Count(|answers|));
    ConcatResultsOk(answers, AnswerBytes);
    var allOk := forall x :: x in answers ==> AnswerBytes(x).Ok?;
    assert allOk <==> forall i :: 0 <= i < |answers| ==> AnswerBytes(answers[i]).Ok? by {
      if allOk {
        forall i | 0 <= i < |answers| ensures AnswerBytes(answers[i]).Ok? {
          assert answers[i] in answers;
        }
      }
    }
    var res := ResponseBytes(flags, answers, questions, req);
    if res.Ok? {
      var b := BodyBytes(req, questions, flags, Count(|answers|)).value;
      assert res.value[..|b|] == b;
      assert forall k :: 0 <= k < HEADER_SIZE ==> res.value[k] == b[k];
    }
  }

  /** The same header facts for `createMxResponse`, which only fails on a name. */
  lemma MxResponseHeader(flags: u16, answers: seq<AnswerSectionWithPriority>, questions: seq<QuestionSection>,
                         req: DnsRequestBody)
    ensures MxResponseBytes(flags, answers, questions, req).Ok? <==>
      (forall i :: 0 <= i < |questions| ==> EncodeName(questions[i].query).Ok?)
      && forall i :: 0 <= i < |answers| ==> EncodeName(answers[i].query).Ok?
    ensures MxResponseBytes(flags, answers, questions, req).Ok? ==>
      var r := MxResponseBytes(flags, answers, questions, req).value;
      |r| >= HEADER_SIZE
      && ReadBe16(r[0], r[1]) == req.transactionID && ReadBe16(r[2], r[3]) == flags
      && ReadBe16(r[4], r[5]) == Count(|questions|) && ReadBe16(r[6], r[7]) == Count(|answers|)
      && ReadBe16(r[8], r[9]) == req.authorityRRs && ReadBe16(r[10], r[11]) == req.additionalRRs
      && (|answers| < 0x1_0000 ==> ReadBe16(r[6], r[7]) == |answers|)
  {
    BodyLayout(req, questions, flags, Count(|answers|));
    ConcatResultsOk(answers, MxAnswerBytes);
    var allOk := forall x :: x in answers ==> MxAnswerBytes(x).Ok?;
    assert allOk <==> forall i :: 0 <= i < |answers| ==> EncodeName(answers[i].query).Ok? by {
      if allOk {
        forall i | 0 <= i < |answers| ensures EncodeName(answers[i].query).Ok? {
          assert MxAnswerBytes(answers[i]).Ok?;
        }
      }
    }
    var res := MxResponseBytes(flags, answers, questions, req);
    if res.Ok? {
      var b := BodyBytes(req, questions, flags, Count(|answers|)).value;
      assert res.value[..|b|] == b;
      assert forall k :: 0 <= k < HEADER_SIZE ==> res.value[k] == b[k];
    }
  }
}
