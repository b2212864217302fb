/** Domain names on the wire (RFC 1035 section 3.1): each label is a length byte followed by
    the label's bytes, and a zero byte ends the name. No compression pointers. */
module Names {
  import opened Bytes
  import opened Outcomes
  import opened Strings

  const MAX_LABEL: nat := 63

  /** One label: its length cast to `uint8_t`, then its bytes. */
  function LabelBytes(l: Text): (r: seq<byte>)
    ensures |r| == |l| + 1 && r[0] == |l| % 0x100 && r[1..] == ToBytes(l)
  {
    [|l| % 0x100] + ToBytes(l)
  }

  /** The labels one after another, without the terminating zero. */
  function EncodeLabels(labels: seq<Text>): (r: seq<byte>)
    decreases |labels|
  {
    if labels == [] then [] else LabelBytes(labels[0]) + EncodeLabels(labels[1..])
  }

  lemma {:induction false} EncodeLabelsSnoc(labels: seq<Text>, l: Text)
    ensures EncodeLabels(labels + [l]) == EncodeLabels(labels) + LabelBytes(l)
    decreases |labels|
  {
    if labels != [] {
      assert (labels + [l])[1..] == labels[1..] + [l];
      EncodeLabelsSnoc(labels[1..], l);
    } else {
      assert [l][1..] == [];
    }
  }

  /** Each label costs one byte more than its text, and the dots of the joined name
      account for all but one of those bytes. */
  lemma {:induction false} EncodeLabelsLength(labels: seq<Text>)
    requires |labels| >= 1
    ensures |EncodeLabels(labels)| == |Join(labels, DOT)| + 1
    decreases |labels|
  {
    if |labels| > 1 {
      EncodeLabelsLength(labels[1..]);
      assert [labels[0]] + labels[1..] == labels;
      JoinCons(labels[0], labels[1..], DOT);
    }
  }

  predicate LabelsFit(labels: seq<Text>)
  {
    forall i :: 0 <= i < |labels| ==> |labels[i]| <= MAX_LABEL
  }

  /** What `addDomainName` appends: the labels its loop walks (a trailing dot starts no label,
      and empty labels between two dots are kept), then a zero byte; it throws when a label
      is longer than 63 bytes. */
  function EncodeName(name: Text): (r: Result<seq<byte>>)
  {
    var labels := Fields(name, DOT);
    if LabelsFit(labels) then Ok(EncodeLabels(labels) + [0]) else Err(LabelTooLong)
  }

  /** The labels of `labels` that are written before the first one that is too long. */
  function FittingPrefix(labels: seq<Text>): (r: seq<Text>)
    ensures |r| <= |labels| && r == labels[..|r|] && LabelsFit(r)
    ensures |r| < |labels| ==> |labels[|r|]| > MAX_LABEL
    decreases |labels|
  {
    if labels == [] || |labels[0]| > MAX_LABEL then []
    else [labels[0]] + FittingPrefix(labels[1..])
  }

  lemma {:induction false} FittingPrefixAt(done: seq<Text>, l: Text, rest: seq<Text>)
    requires LabelsFit(done) && |l| > MAX_LABEL
    ensures FittingPrefix(done + [l] + rest) == done
    decreases |done|
  {
    if done != [] {
      assert (done + [l] + rest)[1..] == done[1..] + [l] + rest;
      FittingPrefixAt(done[1..], l, rest);
    } else {
      assert (done + [l] + rest)[0] == l;
    }
  }

  /** `addDomainName` rejects a name exactly when one of its labels exceeds 63 bytes;
      otherwise the name costs one byte per label more than its text, plus the terminator. */
  lemma EncodeNameShape(name: Text)
    ensures EncodeName(name).Err? <==>
      exists i :: 0 <= i < |Fields(name, DOT)| && |Fields(name, DOT)[i]| > MAX_LABEL
    ensures name == [] ==> EncodeName(name) == Ok([0])
    ensures EncodeName(name).Ok? && name != [] && name[|name| - 1] != DOT ==>
      |EncodeName(name).value| == |name| + 2 && EncodeName(name).value[|name| + 1] == 0
  {
    if name == [] {
      assert Fields(name, DOT) == [];
      assert EncodeLabels([]) + [0] == [0];
    }
    if name != [] && name[|name| - 1] != DOT {
      FieldsNoTrailingSep(name, DOT);
      JoinSplit(name, DOT);
      EncodeLabelsLength(Split(name, DOT));
    }
  }

  /** What `domainToDnsFormat` returns: every piece between dots, each behind its length
      cast to `uint8_t`, then a zero byte. Nothing is checked. */
  function DnsFormat(name: Text): (r: seq<byte>)
  {
    EncodeLabels(Split(name, DOT)) + [0]
  }

  /** Every name costs two bytes more than its text: one length byte per piece, one dot
      fewer than pieces, and the terminator. The empty name still gets one (empty) label
      before the terminator. */
  lemma DnsFormatShape(name: Text)
    ensures |DnsFormat(name)| == |name| + 2 && DnsFormat(name)[|name| + 1] == 0
    ensures name == [] ==> DnsFormat(name) == [0, 0]
  {
    JoinSplit(name, DOT);
    EncodeLabelsLength(Split(name, DOT));
  }

  /** A name that `addDomainName` accepts and that has no trailing dot gets the same bytes from both encoders. */
  lemma DnsFormatAgreesWithEncodeName(name: Text)
    requires name != [] && name[|name| - 1] != DOT
    requires EncodeName(name).Ok?
    ensures DnsFormat(name) == EncodeName(name).value
  {
    FieldsNoTrailingSep(name, DOT);
  }

  // The decoder's side.

  /** The labels read from the start of `s` up to a zero length byte, and the number of bytes
      consumed including that zero; `None` when `s` ends first. A length byte is taken as a
      plain length whatever its top two bits are. */
  function ReadLabels(s: seq<byte>): (r: Option<(seq<Text>, nat)>)
    ensures r.Some? ==> 1 <= r.value.1 <= |s|
    decreases |s|
  {
    if |s| == 0 then None
    else if s[0] == 0 then Some(([], 1))
    else if |s| < 1 + (s[0] as int) then None
    else
      match ReadLabels(s[1 + s[0]..])
      case None => None
      case Some((ls, n)) => Some(([FromBytes(s[1 .. 1 + s[0]])] + ls, 1 + s[0] + n))
  }

  /** What the label walk reads is exactly an encoding: the bytes it consumed are the labels
      it returns, each behind its length byte, and the terminating zero; every label has
      1 to 255 bytes. */
  lemma {:induction false} ReadLabelsEncoded(s: seq<byte>)
    ensures ReadLabels(s).Some? ==>
      var (ls, n) := ReadLabels(s).value;
      s[..n] == EncodeLabels(ls) + [0] && forall i :: 0 <= i < |ls| ==> 1 <= |ls[i]| < 0x100
    decreases |s|
  {
    if |s| > 0 && s[0] != 0 && |s| >= 1 + (s[0] as int) {
      var t := s[1 + s[0]..];
      ReadLabelsEncoded(t);
      if ReadLabels(t).Some? {
        var (ls, n) := ReadLabels(t).value;
        ReadLabelsStep(s, ls, n);
        var all := [FromBytes(s[1 .. 1 + s[0]])] + ls;
        assert forall i :: 1 <= i < |all| ==> all[i] == ls[i - 1];
      }
    }
  }

  lemma ReadLabelsStep(s: seq<byte>, ls: seq<Text>, n: nat)
    requires |s| >= 1 && 0 < s[0] && 1 + s[0] <= |s|
    requires 1 <= n <= |s| - 1 - s[0] && s[1 + s[0]..][..n] == EncodeLabels(ls) + [0]
    ensures s[..1 + s[0] + n] == EncodeLabels([FromBytes(s[1 .. 1 + s[0]])] + ls) + [0]
  {
    var k := s[0] as int;
    var head := FromBytes(s[1 .. 1 + k]);
    assert ToBytes(head) == s[1 .. 1 + k];
    assert LabelBytes(head) == s[..1 + k];
    assert ([head] + ls)[1..] == ls;
    assert EncodeLabels([head] + ls) == LabelBytes(head) + EncodeLabels(ls);
    assert s[..1 + k + n] == s[..1 + k] + s[1 + k..][..n];
  }

  predicate LabelsReadable(labels: seq<Text>)
  {
    forall i :: 0 <= i < |labels| ==> 1 <= |labels[i]| <= MAX_LABEL
  }

  /** Encoded labels followed by a zero are read back as the same labels, whatever follows. */
  lemma {:induction false} ReadEncodedLabels(labels: seq<Text>, rest: seq<byte>)
    requires LabelsReadable(labels)
    ensures ReadLabels(EncodeLabels(labels) + [0] + rest) == Some((labels, |EncodeLabels(labels)| + 1))
    decreases |labels|
  {
    var s := EncodeLabels(labels) + [0] + rest;
    if labels == [] {
      assert s[0] == 0;
    } else {
      var l := labels[0];
      var t := EncodeLabels(labels[1..]) + [0] + rest;
      assert s == LabelBytes(l) + t;
      LabelAhead(l, t);
      ReadEncodedLabels(labels[1..], rest);
      assert [l] + labels[1..] == labels;
    }
  }

  /** A label of 1 to 63 bytes in front of `t`: its length byte, its bytes and then `t`. */
  lemma LabelAhead(l: Text, t: seq<byte>)
    requires 1 <= |l| <= MAX_LABEL
    ensures var s := LabelBytes(l) + t;
      s[0] == |l| && s[1 .. 1 + |l|] == ToBytes(l) && s[1 + |l|..] == t
      && FromBytes(s[1 .. 1 + |l|]) == l
  {
    FromToBytes(l);
  }

  /** A name that survives encoding and decoding: the empty name, or dot-separated labels of 1 to 63 bytes. */
  predicate ValidName(name: Text)
  {
    name == [] || LabelsReadable(Split(name, DOT))
  }

  /** The labels of a valid name fit, and joining them restores the name. */
  lemma ValidNameFields(name: Text)
    requires ValidName(name)
    ensures LabelsReadable(Fields(name, DOT)) && Join(Fields(name, DOT), DOT) == name
  {
    if name == [] {
      assert Fields(name, DOT) == [];
    } else {
      var p := Split(name, DOT);
      assert p[|p| - 1] != [];
      FieldsAsSplit(name, DOT);
      JoinSplit(name, DOT);
    }
  }

  /** `addDomainName` accepts a valid name, and the label walk reads it back, label for label. */
  lemma ReadEncodedName(name: Text, rest: seq<byte>)
    requires ValidName(name)
    ensures EncodeName(name).Ok?
    ensures ReadLabels(EncodeName(name).value + rest) == Some((Fields(name, DOT), |EncodeName(name).value|))
    ensures Join(Fields(name, DOT), DOT) == name
  {
    var labels := Fields(name, DOT);
    ValidNameFields(name);
    assert LabelsFit(labels);
    assert EncodeName(name) == Ok(EncodeLabels(labels) + [0]);
    ReadEncodedLabels(labels, rest);
  }
}
