/** The growing `std::vector<uint8_t>` that the encoder appends to in place. */
module Packets {
  import opened Bytes
  import opened Strings
  import opened Names
  import opened Outcomes

  class Packet {
    var bytes: seq<byte>

    constructor ()
      ensures bytes == []
    {
      bytes := [];
    }

    /** A vector initialised with a copy of `init`. */
    constructor FromBytes(init: seq<byte>)
      ensures bytes == init
    {
      bytes := init;
    }

    /** `addUint16`: two bytes appended, high byte first; what was there stays as it was. */
    method AddUint16(value: u16)
      modifies this
      ensures bytes == old(bytes) + Be16(value)
    {
      bytes := bytes + [value / 0x100];
      bytes := bytes + [value % 0x100];
    }

    /** `addUint32`: four bytes appended, most significant first. */
    method AddUint32(value: u32)
      modifies this
      ensures bytes == old(bytes) + Be32(value)
    {
      bytes := bytes + [value / 0x100_0000];
      bytes := bytes + [(value / 0x1_0000) % 0x100];
      bytes := bytes + [(value / 0x100) % 0x100];
      bytes := bytes + [value % 0x100];
    }

    /** `insert(end(), ...)`: the given bytes appended. */
    method Insert(more: seq<byte>)
      modifies this
      ensures bytes == old(bytes) + more
    {
      bytes := bytes + more;
    }

    /** `addDomainName`: appends the name label by label and then the terminating zero.
        It throws (here: returns false) at the first label longer than 63 bytes, after the
        labels before it have already been appended. */
    method AddDomainName(domain: Text) returns (ok: bool)
      modifies this
      ensures ok == EncodeName(domain).Ok?
      ensures ok ==> bytes == old(bytes) + EncodeName(domain).value
      ensures !ok ==> bytes == old(bytes) + EncodeLabels(FittingPrefix(Fields(domain, DOT)))
    {
      var appended;
      ok, appended := NameBytes(domain);
      bytes := bytes + appended;
    }
  }

  /** The bytes `addDomainName` pushes for `domain`, in the order it pushes them, and whether
      it got to the terminating zero. */
  method NameBytes(domain: Text) returns (ok: bool, out: seq<byte>)
    ensures ok == EncodeName(domain).Ok?
    ensures ok ==> out == EncodeName(domain).value
    ensures !ok ==> out == EncodeLabels(FittingPrefix(Fields(domain, DOT)))
  {
    out := [];
    var pos := 0;
    ghost var done: seq<Text> := [];
    while pos < |domain|
      invariant 0 <= pos <= |domain| + 1
      invariant Fields(domain, DOT) == done + FieldsFrom(domain, DOT, pos)
      invariant LabelsFit(done)
      invariant out == EncodeLabels(done)
      decreases |domain| + 1 - pos
    {
      var end := FindFrom(domain, DOT, pos);
      var labelLength := end - pos;
      var l := domain[pos..end];
      if labelLength > 63 {
        LongLabel(domain, done, pos, end);
        return false, out;
      }
      FieldsWalkStep(domain, DOT, done, pos, end);
      FitStep(done, l);
      out := out + LabelBytes(l);
      done := done + [l];
      pos := end + 1;
    }
    AllFieldsDone(domain, done, pos);
    out := out + [0];
    return true, out;
  }

  lemma LongLabel(domain: Text, done: seq<Text>, pos: nat, end: nat)
    requires pos < |domain| && end == FindFrom(domain, DOT, pos) && end - pos > MAX_LABEL
    requires LabelsFit(done) && Fields(domain, DOT) == done + FieldsFrom(domain, DOT, pos)
    ensures EncodeName(domain).Err?
    ensures FittingPrefix(Fields(domain, DOT)) == done
  {
    var l := domain[pos..end];
    var rest := FieldsFrom(domain, DOT, end + 1);
    assert FieldsFrom(domain, DOT, pos) == [l] + rest;
    assert done + ([l] + rest) == done + [l] + rest;
    assert Fields(domain, DOT) == done + [l] + rest;
    FittingPrefixAt(done, l, rest);
    assert Fields(domain, DOT)[|done|] == l;
  }

  /** A label that fits is appended as its length and its bytes. */
  lemma FitStep(done: seq<Text>, l: Text)
    requires LabelsFit(done) && |l| <= MAX_LABEL
    ensures LabelsFit(done + [l])
    ensures EncodeLabels(done + [l]) == EncodeLabels(done) + LabelBytes(l)
  {
    EncodeLabelsSnoc(done, l);
  }

  /** When the walk has passed the end, every label was written. */
  lemma AllFieldsDone(domain: Text, done: seq<Text>, pos: nat)
    requires |domain| <= pos <= |domain| + 1
    requires Fields(domain, DOT) == done + FieldsFrom(domain, DOT, pos) && LabelsFit(done)
    ensures EncodeName(domain) == Ok(EncodeLabels(done) + [0])
  {
    FieldsWalkDone(domain, DOT, done, pos);
  }
}
