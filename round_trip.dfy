/** What the decoder makes of what the encoder writes, and the request and response of one
    lookup followed from bytes to bytes. */
module RoundTrip {
  import opened Bytes
  import opened Outcomes
  import opened Strings
  import opened Names
  import opened DnsEnum
  import opened RequestBody
  import opened Numerals
  import opened RData
  import opened CreateResponse
  import opened ParseResponse

  /** An echoed question with a valid name is read back as the same question, and the bytes
      after it are left for the next one. */
  lemma QuestionRoundTrip(q: QuestionSection, rest: seq<byte>)
    requires ValidName(q.query)
    ensures QuestionBytes(q).Ok? && |QuestionBytes(q).value| == |EncodeName(q.query).value| + 4
    ensures ReadQuestion(QuestionBytes(q).value + rest) == Some((q, |EncodeName(q.query).value|))
  {
    var tail := Be16(q.queryType) + Be16(q.queryClass) + rest;
    ReadEncodedName(q.query, tail);
    var name := EncodeName(q.query).value;
    var n := |name|;
    var s := QuestionBytes(q).value + rest;
    assert s == name + tail;
    assert s[n] == Be16(q.queryType)[0] && s[n + 1] == Be16(q.queryType)[1];
    assert s[n + 2] == Be16(q.queryClass)[0] && s[n + 3] == Be16(q.queryClass)[1];
    ReadBe16OfBe16(q.queryType);
    ReadBe16OfBe16(q.queryClass);
  }

  /** Questions echoed one after another are read back in order, all of them. */
  lemma {:induction false} QuestionsRoundTrip(qs: seq<QuestionSection>, rest: seq<byte>)
    requires forall i :: 0 <= i < |qs| ==> ValidName(qs[i].query)
    ensures ConcatResults(qs, QuestionBytes).Ok?
    ensures ReadQuestions(ConcatResults(qs, QuestionBytes).value + rest, |qs|) == (qs, true)
    decreases |qs|
  {
    if qs != [] {
      QuestionsRoundTrip(qs[1..], rest);
      var tailBytes := ConcatResults(qs[1..], QuestionBytes).value;
      QuestionRoundTrip(qs[0], tailBytes + rest);
      var head := QuestionBytes(qs[0]).value;
      QuestionsConsBytes(qs, rest, head, tailBytes);
      QuestionsFront(qs, rest, head, tailBytes);
    }
  }

  /** The bytes of a non-empty list of questions: the first question, then the others. */
  lemma QuestionsConsBytes(qs: seq<QuestionSection>, rest: seq<byte>, head: seq<byte>, tailBytes: seq<byte>)
    requires qs != [] && QuestionBytes(qs[0]) == Ok(head)
    requires ConcatResults(qs[1..], QuestionBytes) == Ok(tailBytes)
    ensures ConcatResults(qs, QuestionBytes).Ok?
    ensures ConcatResults(qs, QuestionBytes).value + rest == head + (tailBytes + rest)
  {
    assert [qs[0]] + qs[1..] == qs;
    ConcatResultsCons(qs[0], qs[1..], QuestionBytes);
    Associative(head, tailBytes, rest);
  }

  /** A question read at the front, then the others after its type and class. */
  lemma QuestionsFront(qs: seq<QuestionSection>, rest: seq<byte>, head: seq<byte>, tailBytes: seq<byte>)
    requires qs != [] && |head| >= 4
    requires ReadQuestion(head + (tailBytes + rest)) == Some((qs[0], |head| - 4))
    requires ReadQuestions(tailBytes + rest, |qs| - 1) == (qs[1..], true)
    ensures ReadQuestions(head + (tailBytes + rest), |qs|) == (qs, true)
  {
    var s := head + (tailBytes + rest);
    assert s[|head|..] == tailBytes + rest;
    WalkCons(s, qs[0], |head| - 4, qs[1..]);
    assert [qs[0]] + qs[1..] == qs;
  }

  lemma Associative(a: seq<byte>, b: seq<byte>, c: seq<byte>)
    ensures a + b + c == a + (b + c)
  {
  }

  /** A question read at the front of `s`, the rest read after its type and class. */
  lemma WalkCons(s: seq<byte>, q: QuestionSection, n: nat, tail: seq<QuestionSection>)
    requires ReadQuestion(s) == Some((q, n))
    requires ReadQuestions(s[n + 4..], |tail|) == (tail, true)
    ensures ReadQuestions(s, |tail| + 1) == ([q] + tail, true)
  {
  }

  /** A body that `createBody` writes for questions with valid names, fewer than 2^16 of them,
      is parsed back completely: the request's ID, authority and additional counts, the
      given flags and answer count, and exactly the questions written. */
  lemma ParseOfBody(req: DnsRequestBody, qs: seq<QuestionSection>, flags: u16, answerCount: u16)
    requires |qs| < 0x1_0000
    requires forall i :: 0 <= i < |qs| ==> ValidName(qs[i].query)
    ensures BodyBytes(req, qs, flags, answerCount).Ok?
    ensures Parse(BodyBytes(req, qs, flags, answerCount).value)
            == Parsed(DnsRequestBody(req.transactionID, flags, |qs|, answerCount, req.authorityRRs,
                                     req.additionalRRs, qs), Complete)
  {
    QuestionsRoundTrip(qs, []);
    forall i | 0 <= i < |qs| ensures EncodeName(qs[i].query).Ok? {
      ReadEncodedName(qs[i].query, []);
    }
    BodyLayout(req, qs, flags, answerCount);
    var b := BodyBytes(req, qs, flags, answerCount).value;
    assert b[HEADER_SIZE..] == ConcatResults(qs, QuestionBytes).value + [];
  }

  /** A valid name that is not empty gets the same bytes from `domainToDnsFormat` as from
      `addDomainName`, so an MX target or a CNAME is written as a name the decoder reads. */
  lemma ValidNameDnsFormat(name: Text)
    requires ValidName(name) && name != []
    ensures EncodeName(name).Ok? && DnsFormat(name) == EncodeName(name).value
    ensures ReadLabels(DnsFormat(name)) == Some((Fields(name, DOT), |name| + 2))
    ensures Join(Fields(name, DOT), DOT) == name
  {
    ReadEncodedName(name, []);
    var pieces := Split(name, DOT);
    assert pieces[|pieces| - 1] != [];
    FieldsAsSplit(name, DOT);
    assert EncodeName(name).value + [] == DnsFormat(name);
    DnsFormatShape(name);
  }

  /** The RDATA of `createMxResponse`: the preference, high byte first, then the target name
      in label form, which reads back as the target. */
  lemma MxRDataReadsBack(m: AnswerSectionWithPriority)
    requires ValidName(m.rData) && m.rData != []
    ensures MxRData(m)[..2] == Be16(m.priority)
    ensures EncodeName(m.rData).Ok? && MxRData(m)[2..] == EncodeName(m.rData).value
    ensures ReadLabels(MxRData(m)[2..]).Some?
    ensures Join(ReadLabels(MxRData(m)[2..]).value.0, DOT) == m.rData
  {
    ValidNameDnsFormat(m.rData);
    assert MxRData(m)[2..] == DnsFormat(m.rData);
  }

  /** An A record whose value is a dotted quad ends in RDLENGTH 4 and the four octets. */
  lemma ARecordTail(a: AnswerSection, w: byte, x: byte, y: byte, z: byte)
    requires a.queryType == A && a.rData == Dotted(w, x, y, z) && EncodeName(a.query).Ok?
    ensures AnswerBytes(a).Ok?
    ensures var r := AnswerBytes(a).value;
      |r| >= 6 && r[|r| - 6..] == [0x00, 0x04, w, x, y, z]
  {
    Ipv4OfDotted(w, x, y, z);
    AnswerLayout(a);
    var r := AnswerBytes(a).value;
    var n := |EncodeName(a.query).value|;
    assert r == EncodeName(a.query).value + Be16(1) + Be16(a.queryClass.Code()) + Be32(a.ttl)
                + Be16(4) + [w, x, y, z];
  }

  /** One lookup answered with one A record: the response counts one answer, echoes the
      request's ID and ends in RDLENGTH 4 and the four octets. */
  lemma OneARecordResponse(flags: u16, a: AnswerSection, qs: seq<QuestionSection>, req: DnsRequestBody,
                           w: byte, x: byte, y: byte, z: byte)
    requires a.queryType == A && a.rData == Dotted(w, x, y, z) && EncodeName(a.query).Ok?
    requires forall i :: 0 <= i < |qs| ==> EncodeName(qs[i].query).Ok?
    ensures ResponseBytes(flags, [a], qs, req).Ok?
    ensures var r := ResponseBytes(flags, [a], qs, req).value;
      |r| >= HEADER_SIZE + 6 && ReadBe16(r[0], r[1]) == req.transactionID && ReadBe16(r[6], r[7]) == 1
      && r[|r| - 6..] == [0x00, 0x04, w, x, y, z]
  {
    ARecordTail(a, w, x, y, z);
    var rec := AnswerBytes(a).value;
    ConcatResultsSingle(a, AnswerBytes);
    ResponseHeader(flags, [a], qs, req);
    var body := BodyBytes(req, qs, flags, Count(1)).value;
    var r := ResponseBytes(flags, [a], qs, req).value;
    assert r == body + rec;
    SuffixOfConcat(body, rec, 6);
  }

  lemma SuffixOfConcat(a: seq<byte>, b: seq<byte>, k: nat)
    requires k <= |b|
    ensures (a + b)[|a + b| - k..] == b[|b| - k..]
  {
  }

  // The lookup of "example.com".

  const EXAMPLE_COM: Text := "example.com"
  const ADDRESS: Text := "192.1.13.2"

  /** "example.com" has two labels, of 7 and 3 bytes. */
  lemma ExampleComValid()
    ensures ValidName(EXAMPLE_COM)
    ensures Split(EXAMPLE_COM, DOT) == ["example", "com"]
  {
    SplitJoin(["example", "com"], DOT);
    assert Join(["example", "com"], DOT) == "example.com";
  }

  /** "example.com" is accepted by `addDomainName`. */
  lemma ExampleComEncodes()
    ensures EncodeName(EXAMPLE_COM).Ok?
  {
    ExampleComValid();
    ReadEncodedName(EXAMPLE_COM, []);
  }

  /** The question for "example.com", type A, class IN, and the request that carries it
      with ID 0x1234 and the recursion-desired flag. */
  const EXAMPLE_QUESTION := QuestionSection(EXAMPLE_COM, 1, 1)
  const EXAMPLE_REQUEST := DnsRequestBody(0x1234, 0x0100, 1, 0, 0, 0, [EXAMPLE_QUESTION])

  /** The request is parsed back with the same ID and that one question. */
  lemma ExampleComRequest()
    ensures BodyBytes(EXAMPLE_REQUEST, [EXAMPLE_QUESTION], 0x0100, 0).Ok?
    ensures Parse(BodyBytes(EXAMPLE_REQUEST, [EXAMPLE_QUESTION], 0x0100, 0).value) == Parsed(EXAMPLE_REQUEST, Complete)
  {
    ExampleComValid();
    ParseOfBody(EXAMPLE_REQUEST, [EXAMPLE_QUESTION], 0x0100, 0);
  }

  /** The address 192.1.13.2 in its dotted form. */
  lemma AddressText()
    ensures Dotted(192, 1, 13, 2) == ADDRESS
  {
    AddressNumerals();
    AddressJoin();
  }

  /** The decimal numerals of the four octets. */
  lemma AddressNumerals()
    ensures Numeral(192, 10) == "192" && Numeral(13, 10) == "13"
    ensures Numeral(1, 10) == "1" && Numeral(2, 10) == "2"
  {
    assert Numeral(192, 10) == Numeral(19, 10) + [DigitChar(2)];
    assert Numeral(19, 10) == Numeral(1, 10) + [DigitChar(9)];
  }

  lemma AddressJoin()
    ensures Join(["192", "1", "13", "2"], DOT) == ADDRESS
  {
    JoinSnoc(["192"], "1", DOT);
    assert ["192"] + ["1"] == ["192", "1"];
    JoinSnoc(["192", "1"], "13", DOT);
    assert ["192", "1"] + ["13"] == ["192", "1", "13"];
    JoinSnoc(["192", "1", "13"], "2", DOT);
    assert ["192", "1", "13"] + ["2"] == ["192", "1", "13", "2"];
  }

  /** The answer of the lookup: one A record for "example.com" holding 192.1.13.2. */
  const EXAMPLE_ANSWER := AnswerSection(EXAMPLE_COM, A, IN, 3600, ADDRESS)

  /** The response to the lookup echoes ID 0x1234, counts one answer and ends in RDLENGTH 4
      and the four octets of the address. */
  lemma ExampleComResponse(flags: u16)
    ensures ResponseBytes(flags, [EXAMPLE_ANSWER], [EXAMPLE_QUESTION], EXAMPLE_REQUEST).Ok?
    ensures var r := ResponseBytes(flags, [EXAMPLE_ANSWER], [EXAMPLE_QUESTION], EXAMPLE_REQUEST).value;
      |r| >= HEADER_SIZE + 6 && ReadBe16(r[0], r[1]) == 0x1234 && ReadBe16(r[6], r[7]) == 1
      && r[|r| - 6..] == [0x00, 0x04, 192, 1, 13, 2]
  {
    ExampleComEncodes();
    AddressText();
    var qs := [EXAMPLE_QUESTION];
    assert forall i :: 0 <= i < |qs| ==> EncodeName(qs[i].query).Ok?;
    OneARecordResponse(flags, EXAMPLE_ANSWER, qs, EXAMPLE_REQUEST, 192, 1, 13, 2);
  }

  // The mail exchanger of "example.com".

  const MAIL_EXAMPLE_COM: Text := "mail.example.com"

  /** An MX answer for "example.com": preference 10, target "mail.example.com". */
  const EXAMPLE_MX := AnswerSectionWithPriority(EXAMPLE_COM, MX, IN, 10, 3600, MAIL_EXAMPLE_COM)

  /** The preference 10, then the target as the labels "mail", "example" and "com", each
      behind its length, and the terminating zero. */
  const EXAMPLE_MX_RDATA: seq<byte> :=
    [0x00, 0x0A] + [4, 109, 97, 105, 108] + [7, 101, 120, 97, 109, 112, 108, 101] + [3, 99, 111, 109] + [0]

  /** "mail.example.com" has the three labels "mail", "example" and "com". */
  lemma MailExampleComLabels()
    ensures Split(MAIL_EXAMPLE_COM, DOT) == ["mail", "example", "com"]
  {
    JoinSnoc(["mail"], "example", DOT);
    assert ["mail"] + ["example"] == ["mail", "example"];
    JoinSnoc(["mail", "example"], "com", DOT);
    assert ["mail", "example"] + ["com"] == ["mail", "example", "com"];
    assert Join(["mail", "example", "com"], DOT) == MAIL_EXAMPLE_COM;
    SplitJoin(["mail", "example", "com"], DOT);
  }

  /** MX RDATA for a target of three labels: the preference, each label behind its length,
      and the zero byte. */
  lemma MxRDataOfThreeLabels(m: AnswerSectionWithPriority, a: Text, b: Text, c: Text)
    requires Split(m.rData, DOT) == [a, b, c]
    ensures MxRData(m) == Be16(m.priority) + LabelBytes(a) + LabelBytes(b) + LabelBytes(c) + [0]
  {
    var labels := [a, b, c];
    assert EncodeLabels(labels) == LabelBytes(a) + EncodeLabels(labels[1..]);
    assert EncodeLabels(labels[1..]) == LabelBytes(b) + EncodeLabels(labels[2..]);
    assert EncodeLabels(labels[2..]) == LabelBytes(c) + EncodeLabels([]);
  }

  /** The RDATA `createMxResponse` builds for the answer: the preference 0x00 0x0A followed by
      each label behind its length and the zero byte, 20 bytes in all. */
  lemma ExampleMxRData()
    ensures MxRData(EXAMPLE_MX) == EXAMPLE_MX_RDATA
    ensures |MxRData(EXAMPLE_MX)| == 20
  {
    MailExampleComLabels();
    MxRDataOfThreeLabels(EXAMPLE_MX, "mail", "example", "com");
    ExampleMxLabels();
    assert Be16(10) == [0x00, 0x0A];
  }

  /** The three labels of the target, each behind its length byte. */
  lemma ExampleMxLabels()
    ensures LabelBytes("mail") == [4, 109, 97, 105, 108]
    ensures LabelBytes("example") == [7, 101, 120, 97, 109, 112, 108, 101]
    ensures LabelBytes("com") == [3, 99, 111, 109]
  {
    LabelOfText("mail", [109, 97, 105, 108]);
    LabelOfText("example", [101, 120, 97, 109, 112, 108, 101]);
    LabelOfText("com", [99, 111, 109]);
  }

  /** A label whose characters have the given codes is its length, then those codes. */
  lemma LabelOfText(l: Text, codes: seq<byte>)
    requires |l| == |codes| < 0x100 && forall i :: 0 <= i < |l| ==> l[i] as int == codes[i]
    ensures LabelBytes(l) == [|l|] + codes
  {
  }

  /** An MX record of `createMxResponse` whose owner name is accepted: after the name, TYPE 15,
      CLASS 1, the TTL, an RDLENGTH counting the RDATA, then the RDATA. */
  lemma MxRecordFields(m: AnswerSectionWithPriority)
    requires EncodeName(m.query).Ok?
    ensures MxAnswerBytes(m).Ok?
    ensures var r := MxAnswerBytes(m).value;
      var n := |EncodeName(m.query).value|;
      |r| == n + 10 + |MxRData(m)| && ReadBe16(r[n], r[n + 1]) == 15 && ReadBe16(r[n + 2], r[n + 3]) == 1
      && ReadBe32(r[n + 4 .. n + 8]) == m.ttl
      && ReadBe16(r[n + 8], r[n + 9]) == Count(|MxRData(m)|) && r[n + 10..] == MxRData(m)
  {
    ResourceRecordLayout(EncodeName(m.query).value, QueryType.MX.Code(), QueryClass.IN.Code(), m.ttl, MxRData(m));
  }

  /** The whole MX record: after the owner name, TYPE 15, CLASS 1, the TTL 3600, RDLENGTH 20
      and the RDATA above. */
  lemma ExampleMxRecord()
    ensures MxAnswerBytes(EXAMPLE_MX).Ok?
    ensures var r := MxAnswerBytes(EXAMPLE_MX).value;
      var n := |EncodeName(EXAMPLE_COM).value|;
      |r| == n + 30 && ReadBe16(r[n], r[n + 1]) == 15 && ReadBe16(r[n + 2], r[n + 3]) == 1
      && ReadBe32(r[n + 4 .. n + 8]) == 3600
      && ReadBe16(r[n + 8], r[n + 9]) == 20 && r[n + 10..] == MxRData(EXAMPLE_MX)
  {
    ExampleComEncodes();
    DnsFormatShape(MAIL_EXAMPLE_COM);
    MxRecordFields(EXAMPLE_MX);
  }
}
