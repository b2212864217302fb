/** Byte strings (a C++ std::string holds one byte per character) and the
    ways the codec cuts them at a separator character. */
module Strings {
  import opened Bytes
  import opened Outcomes

  /** A character that fits in one byte. */
  type ByteChar = c: char | c as int < 0x100 witness 'a'
  type Text = seq<ByteChar>

  const DOT: ByteChar := '.'
  const COLON: ByteChar := ':'

  /** The raw bytes of a text. */
  function ToBytes(t: Text): (b: seq<byte>)
    ensures |b| == |t| && forall i :: 0 <= i < |t| ==> b[i] == t[i] as int
  {
    seq(|t|, i requires 0 <= i < |t| => t[i] as int)
  }

  /** The text whose characters are the given bytes. */
  function FromBytes(b: seq<byte>): (t: Text)
    ensures |t| == |b| && forall i :: 0 <= i < |b| ==> t[i] as int == b[i]
  {
    seq(|b|, i requires 0 <= i < |b| => b[i] as char)
  }

  lemma FromToBytes(t: Text)
    ensures FromBytes(ToBytes(t)) == t
  {
    var u := FromBytes(ToBytes(t));
    assert forall i :: 0 <= i < |t| ==> u[i] as int == t[i] as int;
  }

  /** Every piece between separators, as a `find` loop followed by a final `substr(pos)`
      produces them: n separators give n + 1 pieces, empty ones included. */
  function Split(s: Text, sep: ByteChar): (r: seq<Text>)
    ensures |r| >= 1
    decreases |s|
  {
    if s == [] then [[]] else AddChar(Split(s[..|s| - 1], sep), s[|s| - 1], sep)
  }

  /** One more character read into the pieces: a separator starts a new, empty piece; any
      other character goes at the end of the last piece. */
  function AddChar(pieces: seq<Text>, c: ByteChar, sep: ByteChar): (r: seq<Text>)
    requires |pieces| >= 1
    ensures |r| >= 1
  {
    if c == sep then pieces + [[]]
    else pieces[..|pieces| - 1] + [pieces[|pieces| - 1] + [c]]
  }

  lemma SplitSnoc(s: Text, c: ByteChar, sep: ByteChar)
    ensures Split(s + [c], sep) == AddChar(Split(s, sep), c, sep)
  {
    assert (s + [c])[..|s|] == s;
  }

  /** A character read only touches the last of the pieces. */
  lemma AddCharAppend(front: seq<Text>, pieces: seq<Text>, c: ByteChar, sep: ByteChar)
    requires |pieces| >= 1
    ensures AddChar(front + pieces, c, sep) == front + AddChar(pieces, c, sep)
  {
    var all := front + pieces;
    if c != sep {
      assert all[..|all| - 1] == front + pieces[..|pieces| - 1];
    }
  }

  /** The pieces separated by `sep` the way `std::getline` reads them, and the way
      `addDomainName`'s loop walks a name: a separator at the very end starts no further piece. */
  function Fields(s: Text, sep: ByteChar): seq<Text>
  {
    FieldsFrom(s, sep, 0)
  }

  /** The pieces from `pos` on: the text up to the next separator (or the end), then the
      pieces after that separator. */
  function FieldsFrom(s: Text, sep: ByteChar, pos: nat): seq<Text>
    requires pos <= |s| + 1
    decreases |s| + 1 - pos
  {
    if pos >= |s| then []
    else
      var end := FindFrom(s, sep, pos);
      [s[pos..end]] + FieldsFrom(s, sep, end + 1)
  }

  /** The pieces from `pos` on, as the `find` loop of `domainToDnsFormat` cuts them: the text
      up to the next separator and the pieces after it, or the rest of the text when no
      separator is left. */
  function SplitFrom(s: Text, sep: ByteChar, pos: nat): (r: seq<Text>)
    requires pos <= |s|
    ensures |r| >= 1
    decreases |s| - pos
  {
    var end := FindFrom(s, sep, pos);
    if end == |s| then [s[pos..]] else [s[pos..end]] + SplitFrom(s, sep, end + 1)
  }

  /** The pieces of a split with an empty last piece dropped. */
  function TrimmedSplit(s: Text, sep: ByteChar): seq<Text>
  {
    var pieces := Split(s, sep);
    if pieces[|pieces| - 1] == [] then pieces[..|pieces| - 1] else pieces
  }

  /** The pieces glued back together with `sep` between neighbours. */
  function Join(parts: seq<Text>, sep: ByteChar): Text
    decreases |parts|
  {
    if |parts| == 0 then []
    else if |parts| == 1 then parts[0]
    else Join(parts[..|parts| - 1], sep) + [sep] + parts[|parts| - 1]
  }

  lemma {:induction false} SplitNoSep(s: Text, sep: ByteChar)
    requires sep !in s
    ensures Split(s, sep) == [s]
    decreases |s|
  {
    if s != [] {
      SplitNoSep(s[..|s| - 1], sep);
      assert s[..|s| - 1] + [s[|s| - 1]] == s;
    }
  }

  /** Cutting at one separator and splitting both sides gives the pieces of the whole. */
  lemma {:induction false} SplitAppend(a: Text, b: Text, sep: ByteChar)
    ensures Split(a + [sep] + b, sep) == Split(a, sep) + Split(b, sep)
    decreases |b|
  {
    if b == [] {
      SplitSnoc(a, sep, sep);
      assert a + [sep] + b == a + [sep];
    } else {
      var b', c := b[..|b| - 1], b[|b| - 1];
      assert b == b' + [c];
      assert a + [sep] + b == (a + [sep] + b') + [c];
      SplitSnoc(a + [sep] + b', c, sep);
      SplitAppend(a, b', sep);
      AddCharAppend(Split(a, sep), Split(b', sep), c, sep);
      SplitSnoc(b', c, sep);
    }
  }

  /** The first piece is everything before the first separator. */
  lemma SplitCons(x: Text, y: Text, sep: ByteChar)
    requires sep !in x
    ensures Split(x + [sep] + y, sep) == [x] + Split(y, sep)
  {
    SplitAppend(x, y, sep);
    SplitNoSep(x, sep);
  }

  lemma TrimmedSplitCons(x: Text, y: Text, sep: ByteChar)
    requires sep !in x
    ensures TrimmedSplit(x + [sep] + y, sep) == [x] + TrimmedSplit(y, sep)
  {
    SplitCons(x, y, sep);
    var p := Split(y, sep);
    if p[|p| - 1] == [] {
      assert ([x] + p)[..|p|] == [x] + p[..|p| - 1];
    }
  }

  lemma {:induction false} FieldsFromTrimmedSplit(s: Text, sep: ByteChar, pos: nat)
    requires pos <= |s|
    ensures FieldsFrom(s, sep, pos) == TrimmedSplit(s[pos..], sep)
    decreases |s| - pos
  {
    if pos == |s| {
      assert s[pos..] == [];
    } else if FindFrom(s, sep, pos) < |s| {
      FieldsFromTrimmedSplit(s, sep, FindFrom(s, sep, pos) + 1);
      FieldsFromNext(s, sep, pos);
    } else {
      FieldsFromLast(s, sep, pos);
    }
  }

  /** A field that ends at a separator comes before the fields after that separator. */
  lemma FieldsFromNext(s: Text, sep: ByteChar, pos: nat)
    requires pos < |s| && FindFrom(s, sep, pos) < |s|
    requires FieldsFrom(s, sep, FindFrom(s, sep, pos) + 1) == TrimmedSplit(s[FindFrom(s, sep, pos) + 1..], sep)
    ensures FieldsFrom(s, sep, pos) == TrimmedSplit(s[pos..], sep)
  {
    var end := FindFrom(s, sep, pos);
    var t, k := s[pos..], end - pos;
    assert t[..k] == s[pos..end] && t[k + 1..] == s[end + 1..];
    TrimmedSplitConsAt(t, k, sep);
  }

  /** The first field is everything before the first separator, at `k`. */
  lemma TrimmedSplitConsAt(t: Text, k: nat, sep: ByteChar)
    requires k < |t| && t[k] == sep && forall i :: 0 <= i < k ==> t[i] != sep
    ensures TrimmedSplit(t, sep) == [t[..k]] + TrimmedSplit(t[k + 1..], sep)
  {
    SplitConsAt(t, k, sep);
    var p := Split(t[k + 1..], sep);
    if p[|p| - 1] == [] {
      assert ([t[..k]] + p)[..|p|] == [t[..k]] + p[..|p| - 1];
    }
  }

  /** A field that runs to the end of the text is the last one. */
  lemma FieldsFromLast(s: Text, sep: ByteChar, pos: nat)
    requires pos < |s| && FindFrom(s, sep, pos) == |s|
    ensures FieldsFrom(s, sep, pos) == TrimmedSplit(s[pos..], sep)
  {
    PieceAt(s, sep, pos);
    SplitNoSep(s[pos..], sep);
  }

  /** The piece from `pos` to the next separator has no separator in it, and the text from
      `pos` is that piece, then the separator and the rest, or that piece alone. */
  lemma PieceAt(s: Text, sep: ByteChar, pos: nat)
    requires pos <= |s|
    ensures var end := FindFrom(s, sep, pos);
      sep !in s[pos..end]
      && (end < |s| ==> s[pos..] == s[pos..end] + [sep] + s[end + 1..])
      && (end == |s| ==> s[pos..] == s[pos..end])
  {
  }

  lemma {:induction false} SplitFromSplit(s: Text, sep: ByteChar, pos: nat)
    requires pos <= |s|
    ensures SplitFrom(s, sep, pos) == Split(s[pos..], sep)
    decreases |s| - pos
  {
    var end := FindFrom(s, sep, pos);
    PieceAt(s, sep, pos);
    if end == |s| {
      SplitNoSep(s[pos..], sep);
    } else {
      SplitFromSplit(s, sep, end + 1);
      SplitFromNext(s, sep, pos);
    }
  }

  /** A piece that ends at a separator comes before the pieces after that separator. */
  lemma SplitFromNext(s: Text, sep: ByteChar, pos: nat)
    requires pos <= |s| && FindFrom(s, sep, pos) < |s|
    requires SplitFrom(s, sep, FindFrom(s, sep, pos) + 1) == Split(s[FindFrom(s, sep, pos) + 1..], sep)
    ensures SplitFrom(s, sep, pos) == Split(s[pos..], sep)
  {
    var end := FindFrom(s, sep, pos);
    var t, k := s[pos..], end - pos;
    assert t[..k] == s[pos..end] && t[k + 1..] == s[end + 1..];
    SplitConsAt(t, k, sep);
  }

  /** The first piece is everything before the first separator, at `k`. */
  lemma SplitConsAt(t: Text, k: nat, sep: ByteChar)
    requires k < |t| && t[k] == sep && forall i :: 0 <= i < k ==> t[i] != sep
    ensures Split(t, sep) == [t[..k]] + Split(t[k + 1..], sep)
  {
    assert t == t[..k] + [sep] + t[k + 1..];
    SplitCons(t[..k], t[k + 1..], sep);
  }

  /** The fields are the pieces of the split, less an empty last one. */
  lemma FieldsAsSplit(s: Text, sep: ByteChar)
    ensures Fields(s, sep) == TrimmedSplit(s, sep)
  {
    FieldsFromTrimmedSplit(s, sep, 0);
    assert s[0..] == s;
  }

  /** Without a separator at the end, the fields are all the pieces. */
  lemma FieldsNoTrailingSep(s: Text, sep: ByteChar)
    requires s != [] && s[|s| - 1] != sep
    ensures Fields(s, sep) == Split(s, sep)
  {
    FieldsAsSplit(s, sep);
    var p := Split(s, sep);
    assert s == s[..|s| - 1] + [s[|s| - 1]];
    assert p[|p| - 1] != [];
  }

  lemma FieldsCons(x: Text, y: Text, sep: ByteChar)
    requires sep !in x
    ensures Fields(x + [sep] + y, sep) == [x] + Fields(y, sep)
  {
    FieldsAsSplit(x + [sep] + y, sep);
    FieldsAsSplit(y, sep);
    TrimmedSplitCons(x, y, sep);
  }

  lemma FieldsNoSep(x: Text, sep: ByteChar)
    requires sep !in x && x != []
    ensures Fields(x, sep) == [x]
  {
    FieldsAsSplit(x, sep);
    SplitNoSep(x, sep);
  }

  lemma JoinSnoc(parts: seq<Text>, x: Text, sep: ByteChar)
    requires |parts| >= 1
    ensures Join(parts + [x], sep) == Join(parts, sep) + [sep] + x
  {
    assert (parts + [x])[..|parts|] == parts;
  }

  /** Gluing the pieces back together restores the text. */
  lemma {:induction false} JoinSplit(s: Text, sep: ByteChar)
    ensures Join(Split(s, sep), sep) == s
    decreases |s|
  {
    if s != [] {
      var s', c := s[..|s| - 1], s[|s| - 1];
      assert s == s' + [c];
      SplitSnoc(s', c, sep);
      JoinSplit(s', sep);
      JoinAddChar(Split(s', sep), c, sep);
    }
  }

  /** A character read into the pieces is a character added to their join. */
  lemma JoinAddChar(pieces: seq<Text>, c: ByteChar, sep: ByteChar)
    requires |pieces| >= 1
    ensures Join(AddChar(pieces, c, sep), sep) == Join(pieces, sep) + [c]
  {
    var k := |pieces|;
    if c == sep {
      JoinSnoc(pieces, [], sep);
    } else if k > 1 {
      var last := pieces[k - 1] + [c];
      JoinSnoc(pieces[..k - 1], last, sep);
      assert pieces[..k - 1] + [pieces[k - 1]] == pieces;
      JoinSnoc(pieces[..k - 1], pieces[k - 1], sep);
    }
  }

  /** Splitting a join of separator-free pieces gives back those pieces. */
  lemma {:induction false} SplitJoin(parts: seq<Text>, sep: ByteChar)
    requires |parts| >= 1
    requires forall i :: 0 <= i < |parts| ==> sep !in parts[i]
    ensures Split(Join(parts, sep), sep) == parts
    decreases |parts|
  {
    if |parts| == 1 {
      SplitNoSep(parts[0], sep);
    } else {
      var init, last := parts[..|parts| - 1], parts[|parts| - 1];
      assert forall i :: 0 <= i < |init| ==> init[i] == parts[i];
      SplitJoin(init, sep);
      assert Join(parts, sep) == Join(init, sep) + [sep] + last;
      SplitAppend(Join(init, sep), last, sep);
      SplitNoSep(last, sep);
      assert init + [last] == parts;
    }
  }

  /** Reading fields back from a join of separator-free pieces whose last one is not empty. */
  lemma FieldsJoin(parts: seq<Text>, sep: ByteChar)
    requires |parts| >= 1 && parts[|parts| - 1] != []
    requires forall i :: 0 <= i < |parts| ==> sep !in parts[i]
    ensures Fields(Join(parts, sep), sep) == parts
  {
    SplitJoin(parts, sep);
    FieldsAsSplit(Join(parts, sep), sep);
  }

  /** Joining read from the front. */
  lemma {:induction false} JoinCons(x: Text, parts: seq<Text>, sep: ByteChar)
    requires |parts| >= 1
    ensures Join([x] + parts, sep) == x + [sep] + Join(parts, sep)
    decreases |parts|
  {
    if |parts| == 1 {
      assert ([x] + parts)[..1] == [x];
    } else {
      var init := parts[..|parts| - 1];
      assert ([x] + parts)[..|parts|] == [x] + init;
      JoinCons(x, init, sep);
    }
  }

  // The steps of a loop that walks the fields one `find` at a time: `done` holds the
  // fields already taken and `pos` is where the next one starts.

  /** Taking the field at `pos` moves it from what is left to what is done. */
  lemma FieldsWalkStep(s: Text, sep: ByteChar, done: seq<Text>, pos: nat, end: nat)
    requires pos < |s| && end == FindFrom(s, sep, pos)
    ensures done + FieldsFrom(s, sep, pos) == (done + [s[pos..end]]) + FieldsFrom(s, sep, end + 1)
  {
    assert FieldsFrom(s, sep, pos) == [s[pos..end]] + FieldsFrom(s, sep, end + 1);
  }

  /** The field at `pos` is the next field after those done. */
  lemma FieldsWalkAt(s: Text, sep: ByteChar, done: seq<Text>, pos: nat, end: nat)
    requires pos < |s| && end == FindFrom(s, sep, pos)
    requires Fields(s, sep) == done + FieldsFrom(s, sep, pos)
    ensures |done| < |Fields(s, sep)| && Fields(s, sep)[..|done|] == done
    ensures Fields(s, sep)[|done|] == s[pos..end]
  {
    FieldsWalkStep(s, sep, done, pos, end);
  }

  /** Once the walk has passed the end, every field is done. */
  lemma FieldsWalkDone(s: Text, sep: ByteChar, done: seq<Text>, pos: nat)
    requires |s| <= pos <= |s| + 1
    requires Fields(s, sep) == done + FieldsFrom(s, sep, pos)
    ensures Fields(s, sep) == done
  {
    assert FieldsFrom(s, sep, pos) == [];
  }

  /** Taking the piece that ends at the separator found from `pos`. */
  lemma SplitWalkStep(s: Text, sep: ByteChar, done: seq<Text>, pos: nat, end: nat)
    requires pos <= end < |s| && end == FindFrom(s, sep, pos)
    ensures done + SplitFrom(s, sep, pos) == (done + [s[pos..end]]) + SplitFrom(s, sep, end + 1)
  {
  }

  /** With no separator left, the rest of the text is the last piece. */
  lemma SplitWalkLast(s: Text, sep: ByteChar, done: seq<Text>, pos: nat)
    requires pos <= |s| && FindFrom(s, sep, pos) == |s|
    ensures done + SplitFrom(s, sep, pos) == done + [s[pos..]]
  {
  }

  /** `s.find(c, from)`, with `std::string::npos` written as `|s|`. */
  function FindFrom(s: Text, c: ByteChar, from: nat): (r: nat)
    requires from <= |s|
    ensures from <= r <= |s|
    ensures forall i :: from <= i < r ==> s[i] != c
    ensures r < |s| ==> s[r] == c
    decreases |s| - from
  {
    if from == |s| || s[from] == c then from else FindFrom(s, c, from + 1)
  }

  /** The last index below `limit` holding `c`: `s.rfind(c, limit - 1)`. */
  function FindLastBefore(s: Text, c: ByteChar, limit: nat): (r: Option<nat>)
    requires limit <= |s|
    ensures r.Some? ==> r.value < limit && s[r.value] == c && c !in s[r.value + 1 .. limit]
    ensures r.None? ==> c !in s[..limit]
    decreases limit
  {
    if limit == 0 then None
    else if s[limit - 1] == c then Some(limit - 1)
    else FindLastBefore(s, c, limit - 1)
  }

  /** The search finds `k` when `k` holds `c` and no later index below `limit` does. */
  lemma {:induction false} FindLastBeforeAt(s: Text, c: ByteChar, limit: nat, k: nat)
    requires k < limit <= |s| && s[k] == c && c !in s[k + 1 .. limit]
    ensures FindLastBefore(s, c, limit) == Some(k)
    decreases limit
  {
    if k < limit - 1 {
      assert s[limit - 1] in s[k + 1 .. limit];
      assert s[k + 1 .. limit - 1] <= s[k + 1 .. limit];
      FindLastBeforeAt(s, c, limit - 1, k);
    }
  }

  /** The search finds nothing when no index below `limit` holds `c`. */
  lemma {:induction false} FindLastBeforeNone(s: Text, c: ByteChar, limit: nat)
    requires limit <= |s| && c !in s[..limit]
    ensures FindLastBefore(s, c, limit) == None
    decreases limit
  {
    if limit > 0 {
      assert s[limit - 1] in s[..limit];
      assert s[..limit - 1] <= s[..limit];
      FindLastBeforeNone(s, c, limit - 1);
    }
  }
}
