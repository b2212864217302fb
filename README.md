# DNS message codec of a small C++ DNS server

This project models the message codec of a small authoritative DNS server written in C++.
The codec does four jobs:

- `DNS::ParseResponse::parseDnsRequest` decodes an incoming request. It reads the 12-byte
  header and then the questions, each a label sequence ending in a zero byte, followed by
  TYPE and CLASS.
- `DNS::CreateResponse` builds the response. `createBody` writes the header and echoes the
  questions. `createResponse` appends one resource record per answer, with its RDATA
  built from text: an IPv4 dotted quad (`ipToBytes`), eight hexadecimal IPv6 groups
  (`parseIPv6Address`) or a name (`domainToDnsFormat`). `createMxResponse` writes MX
  records that carry a 16-bit preference.
- `addUint16`, `addUint32` and `addDomainName` append big-endian integers and
  length-prefixed labels to a growing byte vector.
- `splitDomain` cuts a name into a subdomain and the domain made of its last two labels.

The wire format is the one of RFC 1035: section 4.1 for the message, section 3.1 for names
and section 3.4.1 for A data, plus RFC 3596 section 2.2 for AAAA data. The tables of
`DnsEnum` (record types, classes, flag words) and the records of `dnsRequestBody.h` are
datatypes and constants.

How each kind of source code is modelled:

- The byte vector that the encoder appends to is the class `Packets.Packet`. Its field
  `bytes` is reassigned by the methods `AddUint16`, `AddUint32`, `Insert` and
  `AddDomainName`.
- Each encoder operation is a method that follows the C++ step by step: its loops, the
  first error that aborts it, and the order of the appends. Each method is proved equal to
  a specification function, such as `CreateResponse.ResponseBytes` or `RData.Ipv4Bytes`.
  The properties are then proved about those functions.
- A C++ exception is an `Err` of an `Outcomes.Result`. `Outcomes.ConcatResults` models a
  loop that appends one part per element and stops at the first one that throws.
- The decoder is the method `ParseResponse.ParseDnsRequest`. It checks every read against
  the end of the input and is proved equal to the function `ParseResponse.Parse`.
  `RoundTrip` proves that what the encoder writes, the decoder reads back.

## Model

| member | source | states |
|---|---|---|
| Bytes.ReadBe16OfBe16 | src/header/dns.cpp:117-120 | the two bytes `addUint16` writes (`v >> 8`, then `v & 0xFF`), read back high byte first as the decoder does, give `v` |
| Bytes.ReadBe32OfBe32 | src/header/dns.cpp:122-127 | the four bytes `addUint32` writes, read back most significant first, give the 32-bit value |
| Bytes.Be16OfRead | src/header/dns.cpp:211-216 | a header word read as `(hi << 8) \| lo` and written back by `addUint16` gives the same two bytes |
| Bytes.Be16Injective | src/header/dns.cpp:117-120 | distinct 16-bit values get distinct byte pairs |
| Strings.JoinSplit | src/header/dns.cpp:102-111 | the pieces the `find` loop of `domainToDnsFormat` cuts, glued back with dots, restore the name |
| Strings.SplitJoin | src/header/dns.cpp:102-111 | dot-free pieces joined with dots are cut back into exactly those pieces |
| Strings.FieldsAsSplit | src/header/dns.cpp:81-92 | the labels `addDomainName` and `getline` walk are the pieces between separators, with an empty last piece dropped |
| Strings.FieldsNoTrailingSep | src/header/dns.cpp:81-92 | without a trailing separator the `getline` fields are all the pieces |
| Strings.FieldsJoin | src/header/dns.cpp:149 | separator-free segments joined by the separator, the last one not empty, are read back by `getline` as those segments |
| Packets.Packet.AddUint16 | src/header/dns.cpp:117-120 | the vector grows by exactly the two bytes of the value, high byte first, and is unchanged before them |
| Packets.Packet.AddUint32 | src/header/dns.cpp:122-127 | the vector grows by exactly the four bytes of the value, most significant first |
| Packets.Packet.Insert | src/header/dns.cpp:44-45 | `insert(end(), ...)` appends the given bytes and keeps the bytes already there |
| Packets.Packet.constructor | src/header/dns.cpp:185 | a new vector is empty |
| Packets.Packet.FromBytes | src/header/dns.cpp:20 | the response vector starts as a copy of the body |
| Packets.Packet.AddDomainName | src/header/dns.cpp:79-95 | succeeds exactly when no label between dots is longer than 63 bytes, and then appends the name's encoding; on failure it has already appended the labels before the first label that is too long |
| Packets.NameBytes | src/header/dns.cpp:80-94 | the label loop produces exactly the length byte and bytes of each label, then a zero; it stops at the first label of more than 63 bytes, after the labels before it |
| Names.EncodeNameShape | src/header/dns.cpp:79-95 | a name is rejected if and only if one of its labels exceeds 63 bytes; the empty name is the single zero byte; an accepted name without a trailing dot is two bytes longer than its text and ends in zero |
| Names.DnsFormatShape | src/header/dns.cpp:97-115 | every name gives two bytes more than its text and ends in zero; the empty name gives one empty label and the terminator |
| Names.DnsFormatAgreesWithEncodeName | src/header/dns.cpp:79-115 | an accepted name without a trailing dot gets the same bytes from `domainToDnsFormat` as from `addDomainName` |
| Names.ReadLabelsEncoded | src/header/dns.cpp:221-229 | the bytes the label walk consumes are exactly the encoding of the labels it returns, followed by the zero; each returned label has 1 to 255 bytes |
| Names.ReadEncodedLabels | src/header/dns.cpp:221-229 | labels of 1 to 63 bytes, encoded and followed by a zero, are read back as the same labels, whatever bytes follow |
| Names.ReadEncodedName | src/header/dns.cpp:79-95 | a valid name is accepted by `addDomainName`, and the label walk reads back its labels, which join to the name |
| Names.FittingPrefix | src/header/dns.cpp:86-89 | the labels written before the throw are a prefix of the name's labels, all within 63 bytes, and the next label is longer |
| Numerals.ParseNumeralOfNumeral | src/header/dns.cpp:150 | the decimal or hexadecimal numeral written for `n` is parsed back as `n` |
| Numerals.NumeralHasNoSeparator | src/header/dns.cpp:149 | a numeral contains no dot and no colon, so `getline` keeps it in one segment |
| RData.OctetBytesOfNumeral | src/header/dns.cpp:150-154 | the decimal numeral of a byte is a segment that `stoi` and the range check turn back into that byte; the numeral of a number above 255 passes `stoi` and throws the out-of-range error |
| RData.Ipv4BytesOk | src/header/dns.cpp:145-160 | `ipToBytes` succeeds if and only if there are exactly four segments, each a numeral of at most 255; byte `i` is then segment `i`'s value; good segments that are not four in number give the format error |
| RData.Ipv4BytesFailsAt | src/header/dns.cpp:149-153 | the first bad segment decides the error, even when more segments follow |
| RData.Ipv4OfDotted | src/header/dns.cpp:145-160 | the dotted text of four bytes converts back to exactly those bytes |
| RData.GroupBytesOfNumeral | src/header/dns.cpp:168-169 | the hexadecimal numeral of a 16-bit word is a group that converts back to the two bytes of that word; a larger number keeps only its low 16 bits, as the cast to `uint16_t` does |
| RData.GroupBytesReadBack | src/header/dns.cpp:168-169 | a converted group is two bytes which, read back high byte first, are the group's value cast to 16 bits |
| RData.Ipv6BytesOk | src/header/dns.cpp:162-177 | `parseIPv6Address` succeeds if and only if there are exactly eight hexadecimal groups; bytes `2i` and `2i+1` are then group `i`; good groups that are not eight in number give the format error |
| RData.Ipv6RejectsCompression | src/header/dns.cpp:167-168 | the compressed form `::1` is refused, because its empty first group is no numeral |
| RData.IpToBytes | src/header/dns.cpp:145-160 | the segment loop returns exactly `Ipv4Bytes` of the text, including which error is thrown |
| RData.ParseIpv6Address | src/header/dns.cpp:162-177 | the group loop returns exactly `Ipv6Bytes` of the text, including which error is thrown |
| RData.DomainToDnsFormat | src/header/dns.cpp:97-115 | the piece loop returns exactly `DnsFormat` of the name |
| DnsEnum.QueryTypeOf | src/header/dnsEnum.h:13-27 | a code maps to the record type carrying that code, or to nothing when no type has it |
| DnsEnum.QueryTypeCodeRoundTrip | src/header/dnsEnum.h:13-27 | every record type is recovered from its code |
| DnsEnum.QueryTypeCodeInjective | src/header/dnsEnum.h:13-27 | no two record types share a code |
| DnsEnum.QueryClassOf | src/header/dnsEnum.h:46-53 | a code maps to the class carrying that code, or to nothing when no class has it |
| DnsEnum.QueryClassCodeRoundTrip | src/header/dnsEnum.h:46-53 | every class is recovered from its code |
| DnsEnum.Rcode | src/header/dnsEnum.h:29-43 | the RCODE is below 16, and the flag word minus it is a multiple of 16 |
| DnsEnum.WithoutRcode | src/header/dnsEnum.h:37-42 | clearing the RCODE leaves a word with RCODE 0 that differs from the original by exactly that RCODE |
| DnsEnum.ResponseFlagsDifferOnlyInRcode | src/header/dnsEnum.h:29-43 | the five error responses are the no-error response with RCODE 1 to 5; QUERY equals RECURSION_DESIRED and RESPONSE equals RESPONSE_NO_ERROR |
| RequestBody.DefaultBody | src/header/dnsRequestBody.h:53-62 | the body returned for a short input has ID 0 and no questions |
| CreateResponse.Count | src/header/dns.cpp:19 | a list size stored in a `uint16_t` keeps its value when it is below 2^16 |
| CreateResponse.HeaderBytes | src/header/dns.cpp:185-191 | the header is 12 bytes |
| CreateResponse.HeaderFields | src/header/dns.cpp:185-191 | the six words read back at offsets 0 to 10 are the ID, flags, question count, answer count, authority count and additional count written |
| CreateResponse.BodyLayout | src/header/dns.cpp:179-201 | `createBody` succeeds exactly when every question name is accepted; its header then holds the request's ID, authority and additional counts, the given flags and answer count, and the list size cast to 16 bits; the questions follow from offset 12 |
| CreateResponse.QuestionErrors | src/header/dns.cpp:194-198 | the question loop fails only with the label-length error |
| CreateResponse.AddQuestion | src/header/dns.cpp:195-197 | a question is appended as its name, TYPE and CLASS exactly when its name is accepted |
| CreateResponse.AddQuestions | src/header/dns.cpp:194-198 | the loop appends every question in order, or reports the label-length error of the first name that throws |
| CreateResponse.CreateBody | src/header/dns.cpp:179-201 | returns exactly `BodyBytes` for the request, questions, flags and answer count |
| CreateResponse.RDataFor | src/header/dns.cpp:29-43 | the switch returns the RDATA `AnswerRData` specifies for the record type |
| CreateResponse.AddAnswer | src/header/dns.cpp:24-45 | an answer is appended as its complete record exactly when its name and RDATA succeed; otherwise the error is the one of `AnswerBytes` |
| CreateResponse.AddAnswers | src/header/dns.cpp:23-46 | the loop appends every record in order, or reports the error of the first record that throws |
| CreateResponse.CreateResponse | src/header/dns.cpp:13-51 | returns exactly `ResponseBytes`: the body with the answer count from the list, then every record |
| CreateResponse.AddMxAnswer | src/header/dns.cpp:62-74 | an MX record is appended exactly when its name is accepted |
| CreateResponse.MxRDataFor | src/header/dns.cpp:67-71 | the RDATA vector is the preference, high byte first, then the target name |
| CreateResponse.AddMxAnswers | src/header/dns.cpp:61-75 | the loop appends every MX record in order, or reports the label-length error of the first name that throws |
| CreateResponse.CreateMxResponse | src/header/dns.cpp:53-77 | returns exactly `MxResponseBytes`: the body with the answer count from the list, then every MX record |
| CreateResponse.RecordAppended | src/header/dns.cpp:24-27 | the fields appended one after another form one resource record |
| CreateResponse.ResourceRecordLayout | src/header/dns.cpp:24-45 | after its name a record holds TYPE, CLASS, TTL and an RDLENGTH that counts the RDATA after it, modulo 2^16 |
| CreateResponse.AnswerRDataShape | src/header/dns.cpp:29-43 | an A answer has RDATA exactly when its text has four segments of at most 255, and the RDATA is then 4 bytes; AAAA needs eight hexadecimal groups and gives 16 bytes; CNAME and MX give the name two bytes longer than its text; any other type gives empty RDATA |
| CreateResponse.AnswerLayout | src/header/dns.cpp:23-46 | an answer is written exactly when its name and its RDATA succeed; it is then its name, its own TYPE, CLASS and TTL, an RDLENGTH and the RDATA |
| CreateResponse.MxWithoutPriority | src/header/dns.cpp:40-42 | on the `createResponse` path an MX record has no preference: its RDATA starts with the first label's length, two bytes short of `createMxResponse`'s |
| CreateResponse.MxAnswerLayout | src/header/dns.cpp:61-75 | an MX record is written exactly when its name is accepted, with TYPE 15 and CLASS 1 whatever the record holds, its TTL, an RDLENGTH counting preference and target, the preference and the target name |
| CreateResponse.ResponseHeader | src/header/dns.cpp:13-51 | `createResponse` succeeds exactly when every question name and every answer succeed; its header then echoes the ID and counts, carries the flags, and counts the answers |
| CreateResponse.MxResponseHeader | src/header/dns.cpp:53-77 | `createMxResponse` succeeds exactly when every name is accepted; its header echoes the ID and counts and counts the MX records |
| ParseResponse.ReadQuestion | src/header/dns.cpp:221-233 | a question is read only when its labels, its zero byte, TYPE and CLASS all lie inside the input |
| ParseResponse.QuestionWalk | src/header/dns.cpp:220-235 | never more questions than declared, and all of them exactly when the walk completes |
| ParseResponse.Parse | src/header/dns.cpp:203-238 | an input shorter than 12 bytes gives the zeroed body; otherwise the six header words come from offsets 0 to 10 and the questions from offset 12; no more questions than declared, and all of them exactly when the status is complete |
| ParseResponse.ParseDnsRequest | src/header/dns.cpp:203-238 | the decoder with every read checked against the input returns exactly `Parse` |
| ParseResponse.ReadQuestionLoop | src/header/dns.cpp:218-235 | the outer loop returns the questions `ReadQuestions` finds from offset 12, and whether all declared ones were there |
| ParseResponse.ReadQueryName | src/header/dns.cpp:221-229 | the label loop succeeds exactly when the label walk ends at a zero byte inside the input; the name is the labels joined by dots, and the cursor ends just past the zero |
| ParseResponse.ParseAsWritten | src/header/dns.cpp:229-234 | the decoder as written, with the cursor left on CLASS: never more questions than declared |
| ParseResponse.CursorLeftOnClass | src/header/dns.cpp:229-234 | for two one-letter questions, the decoder as written reads the second as an empty name with wrong TYPE and CLASS; with the cursor advanced it reads both correctly |
| ParseResponse.CursorLeftOnClassExample | src/header/dns.cpp:229-234 | questions "a" and "b": as written the second is the empty name with TYPE 0x0101 and CLASS 0x6200 |
| ParseResponse.SplitDomainParts | src/header/dns.cpp:240-255 | a name with two dots or more is the subdomain, a dot and a main domain holding exactly one dot; with fewer dots the subdomain is empty and the main domain is the whole name |
| ParseResponse.SplitDomainThreeLabels | src/header/dns.cpp:240-246 | `sub.second.top` splits into `sub` and `second.top` |
| ParseResponse.SplitDomainTwoLabels | src/header/dns.cpp:247-250 | `second.top` has no subdomain and is its own main domain |
| ParseResponse.SplitDomainWrap | src/header/dns.cpp:243 | the code as written differs from the intended split exactly on names whose only dot is the first character |
| ParseResponse.SplitDomainLeadingDot | src/header/dns.cpp:243 | for ".com" the code as written drops the leading dot from the main domain |
| RoundTrip.QuestionRoundTrip | src/header/dns.cpp:194-198 | an echoed question with a valid name is read back by the decoder as the same question, and the bytes after it are left for the next one |
| RoundTrip.QuestionsRoundTrip | src/header/dns.cpp:194-198 | echoed questions are read back in order, all of them |
| RoundTrip.ParseOfBody | src/header/dns.cpp:179-238 | a body that `createBody` writes for fewer than 2^16 valid questions is parsed back completely: the ID, flags, counts and exactly those questions |
| RoundTrip.ValidNameDnsFormat | src/header/dns.cpp:97-115 | a non-empty valid name gets the same bytes from both name encoders, and the label walk reads it back |
| RoundTrip.MxRDataReadsBack | src/header/dns.cpp:67-71 | MX RDATA is the preference, then a name that reads back as the target |
| RoundTrip.MxRecordFields | src/header/dns.cpp:61-75 | an MX record whose owner name is accepted holds, after the name, TYPE 15, CLASS 1, its TTL, an RDLENGTH counting the RDATA, and the RDATA `createMxResponse` builds |
| RoundTrip.MxRDataOfThreeLabels | src/header/dns.cpp:67-71 | for a target of three labels the MX RDATA is the preference, each label behind its length, and a zero byte |
| RoundTrip.ExampleMxRData | src/header/dns.cpp:67-71 | preference 10 with target "mail.example.com" gives the 20 bytes `00 0A 04 m a i l 07 e x a m p l e 03 c o m 00` |
| RoundTrip.ExampleMxRecord | src/header/dns.cpp:61-75 | the MX record of "example.com" with that target carries TYPE 15, CLASS 1, TTL 3600, RDLENGTH 20 and that RDATA |
| RoundTrip.ARecordTail | src/header/dns.cpp:31-33 | an A record for a dotted quad ends in RDLENGTH 4 and the four octets |
| RoundTrip.OneARecordResponse | src/header/dns.cpp:13-51 | a response with one A record echoes the request ID, counts one answer and ends in RDLENGTH 4 and the octets |
| RoundTrip.ExampleComRequest | src/header/dns.cpp:179-238 | the request for "example.com", type A, class IN, written and parsed back, is the same request |
| RoundTrip.ExampleComResponse | src/header/dns.cpp:13-51 | the response giving "example.com" the address 192.1.13.2 carries ID 0x1234, one answer, and ends in 0, 4, 192, 1, 13, 2 |

## Left out

- `DNS::Log::bytesToHex`, the error message written to `std::cerr`, the UDP socket loop,
  the PostgreSQL lookup and `main` are not part of this model. They do I/O and do not
  touch the codec.
- Numerals.ParseNumeral: `std::stoi` also accepts leading whitespace, a sign, a `0x`
  prefix in base 16 and trailing junk after the digits. The model accepts only a
  non-empty string of digits. It does not model `stoi`'s out-of-range exception beyond
  `int` either.
- RData.GroupBytes: a group that `stoi` reads as negative (a leading `-`) would be cast to
  16 bits. The model has no sign, so this case is not covered. A group whose value is above
  `INT_MAX` makes `std::stoi` throw `std::out_of_range`; the model accepts it and keeps its
  low 16 bits instead.
- ParseResponse.ParseDnsRequest: the C++ reads past the end of the vector (undefined
  behaviour) when a question runs off the input. The model stops there instead, keeps the
  questions read so far and reports `Truncated`.
- RequestBody.DefaultBody: for an input shorter than 12 bytes the C++ returns a body whose
  integer fields are uninitialised. The model gives them 0.
- Compression pointers (RFC 1035 section 4.1.4) are not decoded. As in the C++, a length
  byte is taken as a plain length whatever its top two bits are.
- `std::pmr::list` is modelled as a sequence, and `std::string` as a sequence of byte-sized
  characters. Allocators, iterators and character encodings are not modelled.
- Names.DnsFormat: a name with a trailing dot, or the empty name, gets an empty label
  before the terminator, so it ends in two zero bytes. This is what the C++ does. Labels
  longer than 255 bytes are cut to `length % 256` in the length byte, also as in the C++.
- Names.EncodeName: as in the C++, empty labels between two dots are written as zero
  length bytes, and a leading dot gives an empty first label.
- CreateResponse.AnswerRData: record types other than A, CNAME, AAAA and MX get empty
  RDATA, because the `switch` has no default case.
- ParseResponse.SplitDomain takes the last two labels as the main domain. It knows no
  public-suffix list (a name under `co.uk` splits at `co.uk`), and neither does the C++.
- Out-of-memory and allocator exceptions of `std::vector` are not modelled.

## Findings

| source | as written | input that shows it | evidently intended | confidence | as-written member | corrected member |
|---|---|---|---|---|---|---|
| src/header/dns.cpp:229-234 | after CLASS is read, `queryStartIndex` is not moved past it, so the next question starts at the CLASS field | a header declaring 2 questions, then `01 'a' 00 0001 0001 01 'b' 00 0001 0001`: the second question is read as the empty name with TYPE 0x0101 and CLASS 0x6200 | advance the cursor by 2 after CLASS, so the second question is "b", TYPE 1, CLASS 1 | not executed | ParseResponse.CursorLeftOnClass | ParseResponse.Parse |
| src/header/dns.cpp:243 | when the last dot is at index 0, `pos - 1` wraps around to `npos`, and `rfind` finds the same dot again | ".com": the result is subdomain "" and main domain "com" | no second dot before the last one, so subdomain "" and main domain ".com", as the `else` branch does | not executed | ParseResponse.SplitDomainLeadingDot | ParseResponse.SplitDomainParts |
