/** Record data (RDATA) built from the textual value of an answer: an IPv4 address for A
    (RFC 1035 section 3.4.1), an IPv6 address for AAAA (RFC 3596 section 2.2) and a domain
    name for CNAME and MX targets. */
module RData {
  import opened Bytes
  import opened Outcomes
  import opened Strings
  import opened Numerals
  import opened Names

  const MAX_OCTET: nat := 255

  /** One segment of a dotted IPv4 address: `std::stoi` throws on a segment that is not a
      numeral, and a value above 255 is out of range. */
  function OctetBytes(segment: Text): (r: Result<seq<byte>>)
    ensures r.Ok? <==> ParseNumeral(segment, 10).Some? && ParseNumeral(segment, 10).value <= MAX_OCTET
    ensures r.Ok? ==> r.value == [ParseNumeral(segment, 10).value]
    ensures r.Err? && ParseNumeral(segment, 10).None? ==> r.error == NotANumber
    ensures r.Err? && ParseNumeral(segment, 10).Some? ==> r.error == ByteOutOfRange
  {
    match ParseNumeral(segment, 10)
    case None => Err(NotANumber)
    case Some(v) => if v > MAX_OCTET then Err(ByteOutOfRange) else Ok([v])
  }

  /** The decimal numeral of a byte is a segment that converts back to that byte; the
      numeral of a larger number passes `stoi` and fails the range check. */
  lemma OctetBytesOfNumeral(n: nat)
    ensures n <= MAX_OCTET ==> OctetBytes(Numeral(n, 10)) == Ok([n])
    ensures n > MAX_OCTET ==> OctetBytes(Numeral(n, 10)) == Err(ByteOutOfRange)
  {
    ParseNumeralOfNumeral(n, 10);
  }

  /** What `ipToBytes` returns: the segments `getline` reads between dots, each converted
      in turn, and then the check that there were exactly four bytes. */
  function Ipv4Bytes(ip: Text): Result<seq<byte>>
  {
    match ConcatResults(Fields(ip, DOT), OctetBytes)
    case Err(e) => Err(e)
    case Ok(b) => if |b| != 4 then Err(InvalidIpFormat) else Ok(b)
  }

  predicate IsOctet(segment: Text)
  {
    ParseNumeral(segment, 10).Some? && ParseNumeral(segment, 10).value <= MAX_OCTET
  }

  /** `ipToBytes` succeeds exactly for four segments that are numerals of at most 255, and
      then yields their values in order. */
  lemma Ipv4BytesOk(ip: Text)
    ensures Ipv4Bytes(ip).Ok? <==>
      |Fields(ip, DOT)| == 4 && forall i :: 0 <= i < 4 ==> IsOctet(Fields(ip, DOT)[i])
    ensures Ipv4Bytes(ip).Ok? ==>
      |Ipv4Bytes(ip).value| == 4 &&
      forall i :: 0 <= i < 4 ==> Ipv4Bytes(ip).value[i] == ParseNumeral(Fields(ip, DOT)[i], 10).value
    ensures (forall i :: 0 <= i < |Fields(ip, DOT)| ==> IsOctet(Fields(ip, DOT)[i])) && |Fields(ip, DOT)| != 4 ==>
      Ipv4Bytes(ip) == Err(InvalidIpFormat)
  {
    var segments := Fields(ip, DOT);
    ConcatResultsOk(segments, OctetBytes);
    var allOk := forall x :: x in segments ==> OctetBytes(x).Ok?;
    assert allOk <==> forall i :: 0 <= i < |segments| ==> IsOctet(segments[i]) by {
      if allOk {
        forall i | 0 <= i < |segments| ensures IsOctet(segments[i]) {
          assert OctetBytes(segments[i]).Ok?;
        }
      }
    }
    if allOk {
      ConcatResultsLength(segments, OctetBytes, 1);
      var b := ConcatResults(segments, OctetBytes).value;
      forall i | 0 <= i < |segments|
        ensures b[i] == ParseNumeral(segments[i], 10).value
      {
        ConcatResultsUniform(segments, OctetBytes, 1, i);
        assert b[i..i + 1] == OctetBytes(segments[i]).value;
      }
    }
  }

  /** The first segment that is not a numeral, or is above 255, decides the error, even when
      the segment count is also wrong. */
  lemma Ipv4BytesFailsAt(ip: Text, i: nat)
    requires i < |Fields(ip, DOT)|
    requires forall j :: 0 <= j < i ==> IsOctet(Fields(ip, DOT)[j])
    requires !IsOctet(Fields(ip, DOT)[i])
    ensures Ipv4Bytes(ip) == Err(if ParseNumeral(Fields(ip, DOT)[i], 10).None? then NotANumber else ByteOutOfRange)
  {
    var segments := Fields(ip, DOT);
    assert forall x :: x in segments[..i] ==> OctetBytes(x).Ok?;
    ConcatResultsOk(segments[..i], OctetBytes);
    ConcatResultsFailsAt(segments, i, OctetBytes);
  }

  /** Well-formed dotted-decimal text "a.b.c.d" gives the bytes [a, b, c, d]. */
  function Dotted(a: byte, b: byte, c: byte, d: byte): (t: Text)
    ensures Fields(t, DOT) == [Numeral(a, 10), Numeral(b, 10), Numeral(c, 10), Numeral(d, 10)]
  {
    var parts := [Numeral(a, 10), Numeral(b, 10), Numeral(c, 10), Numeral(d, 10)];
    forall i | 0 <= i < 4 ensures DOT !in parts[i] {
      NumeralHasNoSeparator([a, b, c, d][i], 10);
    }
    FieldsJoin(parts, DOT);
    Join(parts, DOT)
  }

  lemma Ipv4OfDotted(a: byte, b: byte, c: byte, d: byte)
    ensures Ipv4Bytes(Dotted(a, b, c, d)) == Ok([a, b, c, d])
  {
    var ip := Dotted(a, b, c, d);
    var octets := [a, b, c, d];
    var segments := Fields(ip, DOT);
    forall i | 0 <= i < 4 ensures ParseNumeral(segments[i], 10) == Some(octets[i]) {
      ParseNumeralOfNumeral(octets[i], 10);
    }
    assert forall i :: 0 <= i < 4 ==> IsOctet(segments[i]);
    Ipv4BytesOk(ip);
    var r := Ipv4Bytes(ip).value;
    assert forall i :: 0 <= i < 4 ==> r[i] == octets[i];
    assert r == octets;
  }

  /** One group of an IPv6 address: `std::stoi` in base 16, then the cast to `uint16_t`. */
  function GroupBytes(group: Text): (r: Result<seq<byte>>)
    ensures r.Ok? <==> ParseNumeral(group, 16).Some?
    ensures r.Ok? ==> r.value == Be16(ParseNumeral(group, 16).value % 0x1_0000)
    ensures r.Err? ==> r.error == NotANumber
  {
    match ParseNumeral(group, 16)
    case None => Err(NotANumber)
    case Some(v) => Ok(Be16(v % 0x1_0000))
  }

  /** The hexadecimal numeral of a 16-bit word is a group that converts back to that word,
      high byte first; a larger number keeps only its low 16 bits. */
  lemma GroupBytesOfNumeral(w: nat)
    ensures w < 0x1_0000 ==> GroupBytes(Numeral(w, 16)) == Ok(Be16(w))
    ensures GroupBytes(Numeral(w, 16)) == Ok(Be16(w % 0x1_0000))
  {
    ParseNumeralOfNumeral(w, 16);
    var low := w % 0x1_0000;
    assert GroupBytes(Numeral(w, 16)) == Ok(Be16(low));
    if w < 0x1_0000 {
      assert low == w;
    }
  }

  /** The two bytes of a converted group, read back high byte first as the decoder reads a
      word, are the group's value cast to 16 bits. */
  lemma GroupBytesReadBack(group: Text)
    ensures GroupBytes(group).Ok? ==>
      var r := GroupBytes(group).value;
      |r| == 2 && ReadBe16(r[0], r[1]) == ParseNumeral(group, 16).value % 0x1_0000
  {
    if GroupBytes(group).Ok? {
      ReadBe16OfBe16(ParseNumeral(group, 16).value % 0x1_0000);
    }
  }

  /** What `parseIPv6Address` returns: the groups `getline` reads between colons, two bytes
      each, and then the check that there were exactly sixteen bytes. */
  function Ipv6Bytes(address: Text): Result<seq<byte>>
  {
    match ConcatResults(Fields(address, COLON), GroupBytes)
    case Err(e) => Err(e)
    case Ok(b) => if |b| != 16 then Err(InvalidIpv6Format) else Ok(b)
  }

  /** `parseIPv6Address` succeeds exactly for eight hexadecimal groups, and group `i` is then
      bytes `2i` and `2i + 1`, high byte first. */
  lemma Ipv6BytesOk(address: Text)
    ensures Ipv6Bytes(address).Ok? <==>
      |Fields(address, COLON)| == 8 &&
      forall i :: 0 <= i < 8 ==> ParseNumeral(Fields(address, COLON)[i], 16).Some?
    ensures Ipv6Bytes(address).Ok? ==>
      |Ipv6Bytes(address).value| == 16 &&
      forall i :: 0 <= i < 8 ==>
        Ipv6Bytes(address).value[2 * i .. 2 * i + 2] ==
          Be16(ParseNumeral(Fields(address, COLON)[i], 16).value % 0x1_0000)
    ensures ((forall i :: 0 <= i < |Fields(address, COLON)| ==> ParseNumeral(Fields(address, COLON)[i], 16).Some?)
             && |Fields(address, COLON)| != 8) ==>
      Ipv6Bytes(address) == Err(InvalidIpv6Format)
  {
    var groups := Fields(address, COLON);
    ConcatResultsOk(groups, GroupBytes);
    if forall x :: x in groups ==> GroupBytes(x).Ok? {
      ConcatResultsLength(groups, GroupBytes, 2);
      forall i | 0 <= i < |groups|
        ensures ConcatResults(groups, GroupBytes).value[2 * i .. 2 * i + 2] == GroupBytes(groups[i]).value
      {
        ConcatResultsUniform(groups, GroupBytes, 2, i);
      }
    }
    if |groups| == 8 && forall i :: 0 <= i < 8 ==> ParseNumeral(groups[i], 16).Some? {
      assert forall x :: x in groups ==> GroupBytes(x).Ok?;
    }
  }

  /** The compressed form "::1" is refused: its first group is empty, which is no numeral. */
  lemma Ipv6RejectsCompression()
    ensures Ipv6Bytes("::1") == Err(NotANumber)
  {
    var t: Text := "::1";
    var one: Text := "1";
    var tail: Text := ":1";
    assert Fields(t, COLON) == [[], [], one] by {
      assert t == [] + [COLON] + tail;
      assert tail == [] + [COLON] + one;
      FieldsCons([], tail, COLON);
      FieldsCons([], one, COLON);
      FieldsNoSep(one, COLON);
    }
    assert ParseNumeral([], 16).None?;
    ConcatResultsFailsAt(Fields(t, COLON), 0, GroupBytes);
  }

  /** `ipToBytes`: reads the segments one `getline` at a time; `stoi` or the range check may
      throw on a segment before the count is checked. */
  method IpToBytes(ip: Text) returns (r: Result<seq<byte>>)
    ensures r == Ipv4Bytes(ip)
  {
    var bytes: seq<byte> := [];
    var pos := 0;
    ghost var done: seq<Text> := [];
    while pos < |ip|
      invariant 0 <= pos <= |ip| + 1
      invariant Fields(ip, DOT) == done + FieldsFrom(ip, DOT, pos)
      invariant ConcatResults(done, OctetBytes) == Ok(bytes)
      decreases |ip| + 1 - pos
    {
      var end := FindFrom(ip, DOT, pos);
      var segment := ip[pos..end];
      FieldsWalkAt(ip, DOT, done, pos, end);
      var value := ParseNumeral(segment, 10);
      if value.None? || value.value > MAX_OCTET {
        ConcatResultsFailsAt(Fields(ip, DOT), |done|, OctetBytes);
        r := if value.None? then Err(NotANumber) else Err(ByteOutOfRange);
        return;
      }
      ConcatResultsAppend(done, segment, OctetBytes, bytes);
      bytes := bytes + [value.value];
      FieldsWalkStep(ip, DOT, done, pos, end);
      done := done + [segment];
      pos := end + 1;
    }
    FieldsWalkDone(ip, DOT, done, pos);
    if |bytes| != 4 {
      return Err(InvalidIpFormat);
    }
    return Ok(bytes);
  }

  /** `parseIPv6Address`: reads the groups one `getline` at a time and appends each one
      with `addUint16`. */
  method ParseIpv6Address(address: Text) returns (r: Result<seq<byte>>)
    ensures r == Ipv6Bytes(address)
  {
    var rDataBytes: seq<byte> := [];
    var pos := 0;
    ghost var done: seq<Text> := [];
    while pos < |address|
      invariant 0 <= pos <= |address| + 1
      invariant Fields(address, COLON) == done + FieldsFrom(address, COLON, pos)
      invariant ConcatResults(done, GroupBytes) == Ok(rDataBytes)
      decreases |address| + 1 - pos
    {
      var end := FindFrom(address, COLON, pos);
      var group := address[pos..end];
      FieldsWalkAt(address, COLON, done, pos, end);
      var value := ParseNumeral(group, 16);
      if value.None? {
        ConcatResultsFailsAt(Fields(address, COLON), |done|, GroupBytes);
        return Err(NotANumber);
      }
      var word: u16 := value.value % 0x1_0000;
      ConcatResultsAppend(done, group, GroupBytes, rDataBytes);
      rDataBytes := rDataBytes + Be16(word);
      FieldsWalkStep(address, COLON, done, pos, end);
      done := done + [group];
      pos := end + 1;
    }
    FieldsWalkDone(address, COLON, done, pos);
    if |rDataBytes| != 16 {
      return Err(InvalidIpv6Format);
    }
    return Ok(rDataBytes);
  }

  /** `domainToDnsFormat`: every piece before a dot, then the piece after the last dot,
      each behind its length byte, then the terminating zero. */
  method DomainToDnsFormat(domain: Text) returns (dnsFormat: seq<byte>)
    ensures dnsFormat == DnsFormat(domain)
  {
    dnsFormat := [];
    var pos := 0;
    ghost var done: seq<Text> := [];
    SplitFromSplit(domain, DOT, 0);
    assert domain[0..] == domain;
    var nextPos := FindFrom(domain, DOT, pos);
    while nextPos < |domain|
      invariant pos <= nextPos <= |domain| && nextPos == FindFrom(domain, DOT, pos)
      invariant Split(domain, DOT) == done + SplitFrom(domain, DOT, pos)
      invariant dnsFormat == EncodeLabels(done)
      decreases |domain| - pos
    {
      var piece := domain[pos..nextPos];
      SplitWalkStep(domain, DOT, done, pos, nextPos);
      EncodeLabelsSnoc(done, piece);
      dnsFormat := dnsFormat + LabelBytes(piece);
      done := done + [piece];
      pos := nextPos + 1;
      nextPos := FindFrom(domain, DOT, pos);
    }
    var lastLabel := domain[pos..];
    SplitWalkLast(domain, DOT, done, pos);
    EncodeLabelsSnoc(done, lastLabel);
    dnsFormat := dnsFormat + LabelBytes(lastLabel);
    dnsFormat := dnsFormat + [0];
  }
}
