/** The code tables of `DNS::DnsEnum`: record types (RFC 1035 section 3.2.2, RFC 3596 section 2.1),
    classes (RFC 1035 sections 3.2.4 and 3.2.5) and header flag words (RFC 1035 section 4.1.1). */
module DnsEnum {
  import opened Bytes
  import opened Outcomes

  datatype QueryType = A | NS | CNAME | SOA | PTR | MX | TXT | AAAA | SRV | NAPTR | CERT | DNAME | ANY
  {
    /** The 16-bit TYPE code carried on the wire. */
    function Code(): u16
    {
      match this
      case A => 1
      case NS => 2
      case CNAME => 5
      case SOA => 6
      case PTR => 12
      case MX => 15
      case TXT => 16
      case AAAA => 28
      case SRV => 33
      case NAPTR => 35
      case CERT => 37
      case DNAME => 39
      case ANY => 255
    }
  }

  /** The record type with a given code, if the table has one. */
  function QueryTypeOf(code: u16): (r: Option<QueryType>)
    ensures r.Some? ==> r.value.Code() == code
    ensures r.None? ==> forall t: QueryType :: t.Code() != code
  {
    match code
    case 1 => Some(A)
    case 2 => Some(NS)
    case 5 => Some(CNAME)
    case 6 => Some(SOA)
    case 12 => Some(PTR)
    case 15 => Some(MX)
    case 16 => Some(TXT)
    case 28 => Some(AAAA)
    case 33 => Some(SRV)
    case 35 => Some(NAPTR)
    case 37 => Some(CERT)
    case 39 => Some(DNAME)
    case 255 => Some(QueryType.ANY)
    case _ => None
  }

  /** Every record type is recovered from its code, so the codes are pairwise distinct. */
  lemma QueryTypeCodeRoundTrip(t: QueryType)
    ensures QueryTypeOf(t.Code()) == Some(t)
  {
  }

  lemma QueryTypeCodeInjective(t: QueryType, u: QueryType)
    ensures t.Code() == u.Code() ==> t == u
  {
    QueryTypeCodeRoundTrip(t);
    QueryTypeCodeRoundTrip(u);
  }

  datatype QueryClass = IN | CS | CH | HS | NONE | ANY
  {
    /** The 16-bit CLASS code carried on the wire. */
    function Code(): u16
    {
      match this
      case IN => 1
      case CS => 2
      case CH => 3
      case HS => 4
      case NONE => 254
      case ANY => 255
    }
  }

  /** The class with a given code, if the table has one. */
  function QueryClassOf(code: u16): (r: Option<QueryClass>)
    ensures r.Some? ==> r.value.Code() == code
    ensures r.None? ==> forall c: QueryClass :: c.Code() != code
  {
    match code
    case 1 => Some(IN)
    case 2 => Some(CS)
    case 3 => Some(CH)
    case 4 => Some(HS)
    case 254 => Some(NONE)
    case 255 => Some(QueryClass.ANY)
    case _ => None
  }

  lemma QueryClassCodeRoundTrip(c: QueryClass)
    ensures QueryClassOf(c.Code()) == Some(c)
  {
  }

  // Header flag words. Several names share one value (QUERY and RECURSION_DESIRED,
  // RESPONSE and RESPONSE_NO_ERROR), so they are constants rather than constructors.
  const QUERY: u16 := 0x0100
  const RESPONSE: u16 := 0x8180
  const RECURSION_DESIRED: u16 := 0x0100
  const RECURSION_AVAILABLE: u16 := 0x0080
  const TRUNCATED: u16 := 0x0200
  const AUTHENTICATED_DATA: u16 := 0x0020
  const CHECKING_DISABLED: u16 := 0x0010
  const RESPONSE_NO_ERROR: u16 := 0x8180
  const RESPONSE_FORMAT_ERROR: u16 := 0x8181
  const RESPONSE_SERVER_FAILURE: u16 := 0x8182
  const RESPONSE_NAME_ERROR: u16 := 0x8183
  const RESPONSE_NOT_IMPLEMENTED: u16 := 0x8184
  const RESPONSE_REFUSED: u16 := 0x8185

  /** The RCODE field: the low four bits of the flag word. */
  function Rcode(flags: u16): (r: nat)
    ensures r < 16 && (flags - r) % 16 == 0
  {
    flags % 16
  }

  /** The flag word with its RCODE cleared. */
  function WithoutRcode(flags: u16): (r: u16)
    ensures r + Rcode(flags) == flags && Rcode(r) == 0
  {
    flags - flags % 16
  }

  /** The error responses are the no-error response with RCODE 1 to 5 put in. */
  lemma ResponseFlagsDifferOnlyInRcode()
    ensures RESPONSE == RESPONSE_NO_ERROR && Rcode(RESPONSE_NO_ERROR) == 0
    ensures QUERY == RECURSION_DESIRED
    ensures forall f :: f in [RESPONSE_FORMAT_ERROR, RESPONSE_SERVER_FAILURE, RESPONSE_NAME_ERROR,
                               RESPONSE_NOT_IMPLEMENTED, RESPONSE_REFUSED] ==>
      WithoutRcode(f) == RESPONSE_NO_ERROR
    ensures Rcode(RESPONSE_FORMAT_ERROR) == 1 && Rcode(RESPONSE_SERVER_FAILURE) == 2
    ensures Rcode(RESPONSE_NAME_ERROR) == 3 && Rcode(RESPONSE_NOT_IMPLEMENTED) == 4
    ensures Rcode(RESPONSE_REFUSED) == 5
  {
  }
}
