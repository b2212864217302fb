/** Decoding a request (RFC 1035 section 4.1): the 12-byte header, then `questions` questions,
    each a label sequence ending in a zero byte followed by TYPE and CLASS. Every read is
    checked against the end of the input; running out of input ends the question list. */
module ParseResponse {
  import opened Bytes
  import opened Outcomes
  import opened Strings
  import opened Names
  import opened RequestBody

  /** How decoding ended: all declared questions read, input shorter than a header, or input
      that ran out in the middle of a question. */
  datatype ParseStatus = Complete | ShortHeader | Truncated

  datatype Parsed = Parsed(body: DnsRequestBody, status: ParseStatus)

  /** The question at the front of `s`: the labels joined with dots, then TYPE and CLASS
      read high byte first; with the length of its name including the zero byte. `None`
      when `s` ends before the class field does. */
  function ReadQuestion(s: seq<byte>): (r: Option<(QuestionSection, nat)>)
    ensures r.Some? ==> 1 <= r.value.1 && r.value.1 + 4 <= |s|
    ensures r.Some? ==> ReadLabels(s).Some? && r.value.1 == ReadLabels(s).value.1
  {
    match ReadLabels(s)
    case None => None
    case Some((labels, n)) =>
      if |s| < n + 4 then None
      else Some((QuestionSection(Join(labels, DOT), ReadBe16(s[n], s[n + 1]), ReadBe16(s[n + 2], s[n + 3])), n))
  }

  /** At most `count` questions read one after another from the front of `s`, and whether all
      `count` were there. After a question whose name takes `n` bytes the next one starts
      `n + advance` bytes on: 4 skips TYPE and CLASS. */
  function QuestionWalk(s: seq<byte>, count: nat, advance: nat): (r: (seq<QuestionSection>, bool))
    requires advance <= 4
    ensures |r.0| <= count && (r.1 <==> |r.0| == count)
    decreases count
  {
    if count == 0 then ([], true)
    else
      match ReadQuestion(s)
      case None => ([], false)
      case Some((q, n)) =>
        var rest := QuestionWalk(s[n + advance..], count - 1, advance);
        ([q] + rest.0, rest.1)
  }

  /** The questions as intended: the cursor passes both TYPE and CLASS. */
  function ReadQuestions(s: seq<byte>, count: nat): (seq<QuestionSection>, bool)
  {
    QuestionWalk(s, count, 4)
  }

  /** The questions as `parseDnsRequest` reads them: after CLASS is read the cursor is not
      moved past it, so the next question starts at the CLASS field. */
  function ReadQuestionsAsWritten(s: seq<byte>, count: nat): (seq<QuestionSection>, bool)
  {
    QuestionWalk(s, count, 2)
  }

  /** The body decoded from `data` with the given way of reading questions. */
  function Decode(data: seq<byte>, advance: nat): (r: Parsed)
    requires advance <= 4
  {
    if |data| < HEADER_SIZE then Parsed(DefaultBody(), ShortHeader)
    else
      var questions := ReadBe16(data[4], data[5]);
      var walk := QuestionWalk(data[HEADER_SIZE..], questions, advance);
      Parsed(DnsRequestBody(ReadBe16(data[0], data[1]), ReadBe16(data[2], data[3]), questions,
                            ReadBe16(data[6], data[7]), ReadBe16(data[8], data[9]), ReadBe16(data[10], data[11]),
                            walk.0),
             if walk.1 then Complete else Truncated)
  }

  /** What `parseDnsRequest` is meant to return: a zeroed body for input shorter than a header;
      otherwise the six header words from offsets 0 to 10 and the questions from offset 12,
      no more than the header declares and all of them unless the input runs out. */
  function Parse(data: seq<byte>): (r: Parsed)
    ensures |data| < HEADER_SIZE <==> r.status == ShortHeader
    ensures |data| < HEADER_SIZE ==> r.body == DefaultBody()
    ensures |data| >= HEADER_SIZE ==>
      r.body.transactionID == ReadBe16(data[0], data[1]) && r.body.flags == ReadBe16(data[2], data[3])
      && r.body.questions == ReadBe16(data[4], data[5]) && r.body.answerRRs == ReadBe16(data[6], data[7])
      && r.body.authorityRRs == ReadBe16(data[8], data[9]) && r.body.additionalRRs == ReadBe16(data[10], data[11])
    ensures |r.body.questionsSection| <= r.body.questions
    ensures r.status == Complete <==> |data| >= HEADER_SIZE && |r.body.questionsSection| == r.body.questions
  {
    Decode(data, 4)
  }

  /** `parseDnsRequest` as written, the cursor left on the CLASS field of each question. */
  function ParseAsWritten(data: seq<byte>): (r: Parsed)
    ensures |data| < HEADER_SIZE <==> r.status == ShortHeader
    ensures |r.body.questionsSection| <= r.body.questions
  {
    Decode(data, 2)
  }

  // The decoder, step by step, with every read checked against the end of the input.

  /** `parseDnsRequest`: the header words, then one question per turn of the outer loop
      until the declared count is reached or the input runs out. */
  method ParseDnsRequest(data: seq<byte>) returns (res: Parsed)
    ensures res == Parse(data)
  {
    if |data| < HEADER_SIZE {
      return Parsed(DefaultBody(), ShortHeader);
    }
    var transactionID := ReadBe16(data[0], data[1]);
    var flags := ReadBe16(data[2], data[3]);
    var questions := ReadBe16(data[4], data[5]);
    var answerRRs := ReadBe16(data[6], data[7]);
    var authorityRRs := ReadBe16(data[8], data[9]);
    var additionalRRs := ReadBe16(data[10], data[11]);

    var section, complete := ReadQuestionLoop(data, questions);
    var status := if complete then Complete else Truncated;
    ParseOutcome(data, section, status);
    var body := DnsRequestBody(transactionID, flags, questions, answerRRs, authorityRRs, additionalRRs, section);
    return Parsed(body, status);
  }

  /** The outer loop of `parseDnsRequest`: one question per turn from offset 12, until the
      declared count is reached or a question does not fit in the input (`complete` false). */
  method ReadQuestionLoop(data: seq<byte>, questions: nat) returns (section: seq<QuestionSection>, complete: bool)
    requires HEADER_SIZE <= |data|
    ensures (section, complete) == ReadQuestions(data[HEADER_SIZE..], questions)
  {
    var questionCount := questions;
    var queryStartIndex := HEADER_SIZE;
    section := [];
    ghost var whole := ReadQuestions(data[HEADER_SIZE..], questions);
    QuestionsAheadNothing(whole);
    while questionCount > 0
      invariant HEADER_SIZE <= queryStartIndex <= |data|
      invariant whole == QuestionsAhead(section, ReadQuestions(data[queryStartIndex..], questionCount))
      decreases questionCount
    {
      var ok, query, next := ReadQueryName(data, queryStartIndex);
      if !ok || |data| < next + 4 {
        QuestionMissing(data, queryStartIndex, questionCount, section, whole);
        return section, false;
      }
      ghost var at := queryStartIndex;
      queryStartIndex := next;
      var queryType := ReadBe16(data[queryStartIndex], data[queryStartIndex + 1]);
      queryStartIndex := queryStartIndex + 2;
      var queryClass := ReadBe16(data[queryStartIndex], data[queryStartIndex + 1]);
      queryStartIndex := queryStartIndex + 2;
      QuestionTurn(data, at, questionCount, section, whole, QuestionSection(query, queryType, queryClass), queryStartIndex);
      section := section + [QuestionSection(query, queryType, queryClass)];
      questionCount := questionCount - 1;
    }
    QuestionsAllRead(data[queryStartIndex..], section, whole);
    return section, true;
  }

  lemma QuestionsAheadNothing(whole: (seq<QuestionSection>, bool))
    ensures whole == QuestionsAhead([], whole)
  {
    assert [] + whole.0 == whole.0;
  }

  /** When no question is left to read, the list is complete. */
  lemma QuestionsAllRead(s: seq<byte>, section: seq<QuestionSection>, whole: (seq<QuestionSection>, bool))
    requires whole == QuestionsAhead(section, ReadQuestions(s, 0))
    ensures whole == (section, true)
  {
    assert section + [] == section;
  }

  /** One turn of the question loop: the question read at `at` moves to those done, and the
      walk goes on four bytes past the end of its name. */
  lemma QuestionTurn(data: seq<byte>, at: nat, count: nat, section: seq<QuestionSection>,
                     whole: (seq<QuestionSection>, bool), q: QuestionSection, after: nat)
    requires at <= |data| && count > 0 && ReadLabels(data[at..]).Some?
    requires q.query == Join(ReadLabels(data[at..]).value.0, DOT)
    requires after == at + ReadLabels(data[at..]).value.1 + 4 <= |data|
    requires q.queryType == ReadBe16(data[after - 4], data[after - 3])
    requires q.queryClass == ReadBe16(data[after - 2], data[after - 1])
    requires whole == QuestionsAhead(section, ReadQuestions(data[at..], count))
    ensures whole == QuestionsAhead(section + [q], ReadQuestions(data[after..], count - 1))
  {
    var (labels, n) := ReadLabels(data[at..]).value;
    QuestionAt(data, at, count, labels, n);
    AheadCons(section, q, ReadQuestions(data[after..], count - 1), whole);
  }

  /** Moving the front question of what is ahead to the questions done changes nothing. */
  lemma AheadCons(section: seq<QuestionSection>, q: QuestionSection, rest: (seq<QuestionSection>, bool),
                  whole: (seq<QuestionSection>, bool))
    requires whole == QuestionsAhead(section, ([q] + rest.0, rest.1))
    ensures whole == QuestionsAhead(section + [q], rest)
  {
    assert section + ([q] + rest.0) == (section + [q]) + rest.0;
  }

  /** The decoder's result, once the walk over the questions is known. */
  lemma ParseOutcome(data: seq<byte>, section: seq<QuestionSection>, status: ParseStatus)
    requires |data| >= HEADER_SIZE && status != ShortHeader
    requires ReadQuestions(data[HEADER_SIZE..], ReadBe16(data[4], data[5])) == (section, status == Complete)
    ensures Parse(data) == Parsed(DnsRequestBody(ReadBe16(data[0], data[1]), ReadBe16(data[2], data[3]),
                                                 ReadBe16(data[4], data[5]), ReadBe16(data[6], data[7]),
                                                 ReadBe16(data[8], data[9]), ReadBe16(data[10], data[11]),
                                                 section), status)
  {
  }

  /** The questions found so far in front of those still to be read. */
  function QuestionsAhead(done: seq<QuestionSection>, rest: (seq<QuestionSection>, bool)): (seq<QuestionSection>, bool)
  {
    (done + rest.0, rest.1)
  }

  /** The label loop of `parseDnsRequest`: from `start`, a length byte and that many label
      bytes at a time, a dot after each label that another label follows, up to the zero
      byte; `next` is the index just past that zero. */
  method ReadQueryName(data: seq<byte>, start: nat) returns (ok: bool, query: Text, next: nat)
    requires start <= |data|
    ensures ok == ReadLabels(data[start..]).Some?
    ensures ok ==> query == Join(ReadLabels(data[start..]).value.0, DOT)
    ensures ok ==> next == start + ReadLabels(data[start..]).value.1
  {
    var cursor := start;
    query := [];
    ghost var done: seq<Text> := [];
    LabelsAheadNothing(ReadLabels(data[start..]));
    while cursor < |data| && data[cursor] != 0
      invariant start <= cursor <= |data|
      invariant ReadLabels(data[start..]) == LabelsAhead(done, cursor - start, ReadLabels(data[cursor..]))
      invariant done == [] ==> query == []
      invariant done != [] ==> query == Join(done, DOT) + (if cursor < |data| && data[cursor] != 0 then [DOT] else [])
      decreases |data| - cursor
    {
      var length: nat := data[cursor];
      if |data| < cursor + 1 + length {
        LabelCut(data, cursor);
        return false, [], cursor;
      }
      var next := cursor + 1 + length;
      var l := FromBytes(data[cursor + 1 .. next]);
      LabelWalkStep(data, start, cursor, done, l, next);
      if done != [] {
        JoinSnoc(done, l, DOT);
      }
      query := query + l;
      done := done + [l];
      cursor := next;
      if cursor < |data| && data[cursor] != 0 {
        query := query + [DOT];
      }
    }
    if cursor >= |data| {
      assert data[cursor..] == [];
      return false, [], cursor;
    }
    assert done + [] == done;
    return true, query, cursor + 1;
  }

  /** The labels already read in front of what is read from the rest of the input, which
      starts `k` bytes further on. */
  function LabelsAhead(done: seq<Text>, k: nat, rest: Option<(seq<Text>, nat)>): Option<(seq<Text>, nat)>
  {
    match rest
    case None => None
    case Some((ls, n)) => Some((done + ls, k + n))
  }

  lemma LabelsAheadNothing(rest: Option<(seq<Text>, nat)>)
    ensures LabelsAhead([], 0, rest) == rest
  {
    if rest.Some? {
      assert [] + rest.value.0 == rest.value.0;
    }
  }

  lemma LabelsAheadStep(done: seq<Text>, l: Text, k: nat, m: nat, rest: Option<(seq<Text>, nat)>)
    ensures LabelsAhead(done, k, LabelsAhead([l], m, rest)) == LabelsAhead(done + [l], k + m, rest)
  {
    if rest.Some? {
      assert done + ([l] + rest.value.0) == done + [l] + rest.value.0;
    }
  }

  /** One turn of the label loop moves the label at `at` from what is left to what is done. */
  lemma LabelWalkStep(data: seq<byte>, start: nat, at: nat, done: seq<Text>, l: Text, next: nat)
    requires start <= at < |data| && data[at] != 0 && next == at + 1 + data[at] <= |data|
    requires l == FromBytes(data[at + 1 .. next])
    requires ReadLabels(data[start..]) == LabelsAhead(done, at - start, ReadLabels(data[at..]))
    ensures ReadLabels(data[start..]) == LabelsAhead(done + [l], next - start, ReadLabels(data[next..]))
  {
    LabelStep(data, at);
    LabelsAheadStep(done, l, at - start, 1 + data[at] as nat, ReadLabels(data[next..]));
  }

  /** A label that fits in the input is read, and the walk goes on after it. */
  lemma LabelStep(data: seq<byte>, at: nat)
    requires at < |data| && data[at] != 0 && at + 1 + data[at] <= |data|
    ensures ReadLabels(data[at..]) ==
      LabelsAhead([FromBytes(data[at + 1 .. at + 1 + data[at]])], 1 + data[at] as nat, ReadLabels(data[at + 1 + data[at]..]))
  {
    var s := data[at..];
    assert s[0] == data[at];
    assert s[1 + s[0]..] == data[at + 1 + data[at]..];
    assert s[1 .. 1 + s[0]] == data[at + 1 .. at + 1 + data[at]];
  }

  /** A label that runs past the end of the input ends the walk. */
  lemma LabelCut(data: seq<byte>, at: nat)
    requires at < |data| && data[at] != 0 && |data| < at + 1 + data[at]
    ensures ReadLabels(data[at..]).None?
  {
    assert data[at..][0] == data[at];
  }

  /** A question whose name, TYPE and CLASS fit is read, and the next one starts after CLASS. */
  lemma QuestionAt(data: seq<byte>, at: nat, count: nat, labels: seq<Text>, n: nat)
    requires count > 0 && at + n + 4 <= |data|
    requires ReadLabels(data[at..]) == Some((labels, n))
    ensures ReadQuestions(data[at..], count) ==
      QuestionsAhead([QuestionSection(Join(labels, DOT), ReadBe16(data[at + n], data[at + n + 1]),
                                      ReadBe16(data[at + n + 2], data[at + n + 3]))],
                     ReadQuestions(data[at + n + 4..], count - 1))
  {
    FrontQuestion(data[at..], count, labels, n);
    Rebase(data, at, n);
  }

  /** Reading `data[at..]` at offset `n` is reading `data` at `at + n`. */
  lemma Rebase(data: seq<byte>, at: nat, n: nat)
    requires at + n + 4 <= |data|
    ensures data[at..][n] == data[at + n] && data[at..][n + 1] == data[at + n + 1]
    ensures data[at..][n + 2] == data[at + n + 2] && data[at..][n + 3] == data[at + n + 3]
    ensures data[at..][n + 4..] == data[at + n + 4..]
  {
  }

  /** The question walk over `s`, one question in. */
  lemma FrontQuestion(s: seq<byte>, count: nat, labels: seq<Text>, n: nat)
    requires count > 0 && n + 4 <= |s| && ReadLabels(s) == Some((labels, n))
    ensures ReadQuestions(s, count) ==
      QuestionsAhead([QuestionSection(Join(labels, DOT), ReadBe16(s[n], s[n + 1]), ReadBe16(s[n + 2], s[n + 3]))],
                     ReadQuestions(s[n + 4..], count - 1))
  {
    var q := QuestionSection(Join(labels, DOT), ReadBe16(s[n], s[n + 1]), ReadBe16(s[n + 2], s[n + 3]));
    assert ReadQuestion(s) == Some((q, n));
  }

  /** A question that does not fit ends the list, marked as truncated. */
  lemma QuestionMissing(data: seq<byte>, at: nat, count: nat, section: seq<QuestionSection>,
                        whole: (seq<QuestionSection>, bool))
    requires at <= |data| && count > 0
    requires ReadLabels(data[at..]).None? || |data| < at + ReadLabels(data[at..]).value.1 + 4
    requires whole == QuestionsAhead(section, ReadQuestions(data[at..], count))
    ensures ReadQuestions(data[at..], count) == ([], false)
    ensures whole == (section, false)
  {
    assert section + [] == section;
  }

  // The cursor that `parseDnsRequest` leaves on the CLASS field.

  /** A request that declares two questions, named by the one-byte labels `a` and `b`,
      each with TYPE 1 and CLASS 1. */
  function TwoQuestions(a: Text, b: Text): (data: seq<byte>)
    requires |a| == 1 && |b| == 1
    ensures |data| == HEADER_SIZE + 14
  {
    [0x00, 0x00, 0x00, 0x00, 0x00, 0x02, 0x00, 0x00, 0x00, 0x00, 0x00, 0x00]
    + OneLetter(a) + OneLetter(b)
  }

  /** One question as it is sent: the label, the zero byte, TYPE 1, CLASS 1. */
  function OneLetter(l: Text): (q: seq<byte>)
    requires |l| == 1
    ensures |q| == 7
  {
    [0x01, l[0] as int, 0x00, 0x00, 0x01, 0x00, 0x01]
  }

  /** Read as written, the second question starts at the first one's CLASS field: the high
      byte of CLASS is taken for an empty name, TYPE is made of the low byte of CLASS and the
      length byte of `b`, and CLASS of the letter of `b` and the zero after it. Advancing past
      CLASS reads `b`, TYPE 1 and CLASS 1. */
  lemma CursorLeftOnClass(a: Text, b: Text)
    requires |a| == 1 && |b| == 1
    ensures ParseAsWritten(TwoQuestions(a, b)).body.questionsSection
            == [QuestionSection(a, 1, 1), QuestionSection([], 0x0101, (b[0] as int) * 0x100)]
    ensures Parse(TwoQuestions(a, b)).body.questionsSection
            == [QuestionSection(a, 1, 1), QuestionSection(b, 1, 1)]
    ensures Parse(TwoQuestions(a, b)).status == Complete
  {
    var data := TwoQuestions(a, b);
    assert data[HEADER_SIZE..] == OneLetter(a) + OneLetter(b);
    assert ReadBe16(data[4], data[5]) == 2;
    WalkAsWritten(a, b);
    WalkIntended(a, b);
  }

  /** As written, the second question starts 3 + 2 bytes on, at the CLASS field. */
  lemma WalkAsWritten(a: Text, b: Text)
    requires |a| == 1 && |b| == 1
    ensures QuestionWalk(OneLetter(a) + OneLetter(b), 2, 2)
            == ([QuestionSection(a, 1, 1), QuestionSection([], 0x0101, (b[0] as int) * 0x100)], true)
  {
    var t := OneLetter(b);
    var s := OneLetter(a) + t;
    OneLetterQuestion(a, t);
    var w := s[5..];
    assert w == [0x00, 0x01] + t;
    RootQuestion(w);
    WalkPair(s, 2, QuestionSection(a, 1, 1), 3, QuestionSection([], 0x0101, (b[0] as int) * 0x100));
  }

  /** As intended, the second question starts 3 + 4 bytes on, at its own label. */
  lemma WalkIntended(a: Text, b: Text)
    requires |a| == 1 && |b| == 1
    ensures QuestionWalk(OneLetter(a) + OneLetter(b), 2, 4)
            == ([QuestionSection(a, 1, 1), QuestionSection(b, 1, 1)], true)
  {
    var t := OneLetter(b);
    var s := OneLetter(a) + t;
    OneLetterQuestion(a, t);
    assert s[7..] == t + [];
    OneLetterQuestion(b, []);
    WalkPair(s, 4, QuestionSection(a, 1, 1), 3, QuestionSection(b, 1, 1));
  }

  /** Two questions read one after the other. */
  lemma WalkPair(s: seq<byte>, advance: nat, q1: QuestionSection, n1: nat, q2: QuestionSection)
    requires advance <= 4 && ReadQuestion(s) == Some((q1, n1))
    requires ReadQuestion(s[n1 + advance..]).Some? && ReadQuestion(s[n1 + advance..]).value.0 == q2
    ensures QuestionWalk(s, 2, advance) == ([q1, q2], true)
  {
    var rest := QuestionWalk(s[n1 + advance..], 1, advance);
    WalkOne(s[n1 + advance..], advance);
    assert rest == ([q2], true);
    assert QuestionWalk(s, 2, advance) == ([q1] + rest.0, rest.1);
    assert [q1] + [q2] == [q1, q2];
  }

  /** The instance with the names "a" and "b": the second question as written is the empty
      name with TYPE 0x0101 and CLASS 0x6200. */
  lemma CursorLeftOnClassExample()
    ensures ParseAsWritten(TwoQuestions("a", "b")).body.questionsSection
            == [QuestionSection("a", 1, 1), QuestionSection([], 0x0101, 0x6200)]
  {
    CursorLeftOnClass("a", "b");
  }

  /** A one-byte label, the zero, TYPE 1 and CLASS 1 make one question. */
  lemma OneLetterQuestion(l: Text, rest: seq<byte>)
    requires |l| == 1
    ensures ReadQuestion(OneLetter(l) + rest) == Some((QuestionSection(l, 1, 1), 3))
  {
    var s := OneLetter(l) + rest;
    assert ToBytes(l) == [l[0] as int];
    assert EncodeLabels([l]) == LabelBytes(l) + EncodeLabels([]);
    assert s == EncodeLabels([l]) + [0] + s[3..];
    ReadEncodedLabels([l], s[3..]);
    assert Join([l], DOT) == l;
  }

  /** A zero byte first is the empty name, and the next four bytes are TYPE and CLASS. */
  lemma RootQuestion(s: seq<byte>)
    requires |s| >= 5 && s[0] == 0
    ensures ReadQuestion(s) == Some((QuestionSection([], ReadBe16(s[1], s[2]), ReadBe16(s[3], s[4])), 1))
  {
    assert ReadLabels(s) == Some(([], 1));
  }

  /** One question read, and no more wanted. */
  lemma WalkOne(s: seq<byte>, advance: nat)
    requires advance <= 4 && ReadQuestion(s).Some?
    ensures QuestionWalk(s, 1, advance) == ([ReadQuestion(s).value.0], true)
  {
    var (q, n) := ReadQuestion(s).value;
    assert QuestionWalk(s[n + advance..], 0, advance) == ([], true);
    assert [q] + [] == [q];
  }

  // Splitting a name into a subdomain and the domain of its last two labels.

  /** The pieces before and after the dot at `second`; without that dot, no subdomain. */
  function SplitAt(domain: Text, second: Option<nat>): (Text, Text)
    requires second.Some? ==> second.value < |domain|
  {
    match second
    case None => ([], domain)
    case Some(q) => (domain[..q], domain[q + 1..])
  }

  /** `splitDomain` as intended: the main domain is what follows the second-to-last dot,
      found by searching the indices below the last dot. */
  function SplitDomain(domain: Text): (Text, Text)
  {
    match FindLastBefore(domain, DOT, |domain|)
    case None => ([], domain)
    case Some(p) => SplitAt(domain, FindLastBefore(domain, DOT, p))
  }

  /** `splitDomain` as written: when the last dot is at index 0, `pos - 1` wraps around to
      `npos`, the second search covers the whole name and finds that same dot again. */
  function SplitDomainAsWritten(domain: Text): (Text, Text)
  {
    match FindLastBefore(domain, DOT, |domain|)
    case None => ([], domain)
    case Some(p) => SplitAt(domain, FindLastBefore(domain, DOT, if p == 0 then |domain| else p))
  }

  /** With two dots or more, the name is the subdomain, a dot and a main domain holding exactly
      one dot; with fewer, there is no subdomain and the main domain is the whole name. */
  lemma SplitDomainParts(domain: Text)
    ensures var (sub, main) := SplitDomain(domain);
      (multiset(domain)[DOT] >= 2 ==> domain == sub + [DOT] + main && multiset(main)[DOT] == 1)
      && (multiset(domain)[DOT] < 2 ==> sub == [] && main == domain)
  {
    assert domain[..|domain|] == domain;
    var last := FindLastBefore(domain, DOT, |domain|);
    if last.None? {
      NoDots(domain);
    } else {
      var p := last.value;
      assert domain[p + 1..|domain|] == domain[p + 1..];
      var second := FindLastBefore(domain, DOT, p);
      if second.None? {
        OneDot(domain, p);
      } else {
        TwoDots(domain, p, second.value);
      }
    }
  }

  /** A single dot at `p`. */
  lemma OneDot(domain: Text, p: nat)
    requires p < |domain| && domain[p] == DOT && DOT !in domain[p + 1..] && DOT !in domain[..p]
    ensures multiset(domain)[DOT] == 1
  {
    assert domain[..|domain|] == domain && domain[p + 1..|domain|] == domain[p + 1..];
    DotAt(domain, p, |domain|);
    NoDots(domain[..p]);
  }

  /** The last dot at `p` and the one before it at `q`. */
  lemma TwoDots(domain: Text, p: nat, q: nat)
    requires q < p < |domain| && domain[p] == DOT && domain[q] == DOT
    requires DOT !in domain[p + 1..] && DOT !in domain[q + 1..p]
    ensures multiset(domain)[DOT] >= 2
    ensures domain == domain[..q] + [DOT] + domain[q + 1..] && multiset(domain[q + 1..])[DOT] == 1
  {
    assert domain[..|domain|] == domain && domain[p + 1..|domain|] == domain[p + 1..];
    DotAt(domain, p, |domain|);
    DotAt(domain, q, p);
    assert domain[..p][..q] == domain[..q];
    assert domain == domain[..q] + [DOT] + domain[q + 1..];
    var main := domain[q + 1..];
    assert main[..p - q - 1] == domain[q + 1..p];
    assert main[p - q..] == domain[p + 1..];
    OneDot(main, p - q - 1);
  }

  /** A text without dots counts none. */
  lemma NoDots(s: Text)
    requires DOT !in s
    ensures multiset(s)[DOT] == 0
  {
  }

  /** A dot at `at`, with none after it below `limit`, splits the first `limit` characters. */
  lemma DotAt(s: Text, at: nat, limit: nat)
    requires at < limit <= |s| && s[at] == DOT && DOT !in s[at + 1..limit]
    ensures s[..limit] == s[..at] + [DOT] + s[at + 1..limit]
    ensures multiset(s[..limit])[DOT] == multiset(s[..at])[DOT] + 1
  {
    assert s[..limit] == s[..at] + [DOT] + s[at + 1..limit];
    NoDots(s[at + 1..limit]);
  }

  /** The two differ exactly on names whose only dot is the first character. */
  lemma SplitDomainWrap(domain: Text)
    ensures SplitDomainAsWritten(domain) != SplitDomain(domain)
            <==> |domain| > 0 && domain[0] == DOT && DOT !in domain[1..]
  {
    assert domain[..|domain|] == domain;
    match FindLastBefore(domain, DOT, |domain|)
    case None =>
    case Some(p) =>
      if p == 0 {
        assert FindLastBefore(domain, DOT, |domain|) == Some(0);
        assert |SplitDomainAsWritten(domain).1| == |domain| - 1;
      } else if |domain| > 0 && domain[0] == DOT {
        assert domain[1..][p - 1] == DOT;
      }
  }

  /** ".com": as written the leading dot is dropped from the main domain. */
  lemma SplitDomainLeadingDot()
    ensures SplitDomainAsWritten(".com") == ([], "com")
    ensures SplitDomain(".com") == ([], ".com")
  {
    assert FindLastBefore(".com", DOT, 4) == Some(0);
  }

  /** A name of three labels keeps the last two as its main domain and the first as its
      subdomain. */
  lemma SplitDomainThreeLabels(sub: Text, second: Text, top: Text)
    requires DOT !in sub && DOT !in second && DOT !in top
    ensures SplitDomain(sub + [DOT] + second + [DOT] + top) == (sub, second + [DOT] + top)
  {
    var domain := sub + [DOT] + second + [DOT] + top;
    var p := |sub| + 1 + |second|;
    assert domain[p + 1 .. |domain|] == top;
    FindLastBeforeAt(domain, DOT, |domain|, p);
    assert domain[|sub| + 1 .. p] == second;
    FindLastBeforeAt(domain, DOT, p, |sub|);
    assert domain[..|sub|] == sub;
    assert domain[|sub| + 1..] == second + [DOT] + top;
  }

  /** A name of two labels has no subdomain. */
  lemma SplitDomainTwoLabels(second: Text, top: Text)
    requires DOT !in second && DOT !in top
    ensures SplitDomain(second + [DOT] + top) == ([], second + [DOT] + top)
  {
    var domain := second + [DOT] + top;
    var p := |second|;
    assert domain[p + 1 .. |domain|] == top;
    FindLastBeforeAt(domain, DOT, |domain|, p);
    assert domain[..p] == second;
    FindLastBeforeNone(domain, DOT, p);
  }
}
