/** The records exchanged between the decoder, the resolver and the encoder. */
module RequestBody {
  import opened Bytes
  import opened Strings
  import opened DnsEnum

  /** One question: a dotted name and raw 16-bit type and class codes, any value allowed. */
  datatype QuestionSection = QuestionSection(query: Text, queryType: u16, queryClass: u16)

  /** One answer record; `rData` is the textual record value (an address or a name). */
  datatype AnswerSection =
    AnswerSection(query: Text, queryType: QueryType, queryClass: QueryClass, ttl: u32, rData: Text)

  /** One MX answer record with its 16-bit preference. */
  datatype AnswerSectionWithPriority =
    AnswerSectionWithPriority(query: Text, queryType: QueryType, queryClass: QueryClass,
                              priority: u16, ttl: u32, rData: Text)

  /** The fixed header: six 16-bit words. */
  const HEADER_SIZE: nat := 12

  /** A decoded request: the six header words and the questions in the order they were read. */
  datatype DnsRequestBody = DnsRequestBody(
    transactionID: u16,
    flags: u16,
    questions: u16,
    answerRRs: u16,
    authorityRRs: u16,
    additionalRRs: u16,
    questionsSection: seq<QuestionSection>)

  /** The body handed back for a message too short to hold a header. */
  function DefaultBody(): (b: DnsRequestBody)
    ensures b.transactionID == 0 && b.questionsSection == []
  {
    DnsRequestBody(0, 0, 0, 0, 0, 0, [])
  }
}
