/** Unsigned numerals in base 10 and base 16: the digit-string part of `std::stoi`. */
module Numerals {
  import opened Outcomes
  import opened Strings

  predicate ValidBase(base: nat) { base == 10 || base == 16 }

  /** The value of one digit character in `base`; hexadecimal letters in either case. */
  function DigitOf(c: ByteChar, base: nat): (r: Option<nat>)
    requires ValidBase(base)
    ensures r.Some? ==> r.value < base
    ensures c == DOT || c == COLON ==> r.None?
  {
    var v :=
      if '0' <= c <= '9' then (c as int) - ('0' as int)
      else if 'a' <= c <= 'f' then (c as int) - ('a' as int) + 10
      else if 'A' <= c <= 'F' then (c as int) - ('A' as int) + 10
      else base;
    if v < base then Some(v) else None
  }

  /** The lower-case digit character for `d`. */
  function DigitChar(d: nat): (c: ByteChar)
    requires d < 16
    ensures forall base :: ValidBase(base) && d < base ==> DigitOf(c, base) == Some(d)
  {
    if d < 10 then (('0' as int) + d) as char else (('a' as int) + d - 10) as char
  }

  /** The value of a non-empty string of digits; `None` for the empty string or any other character. */
  function ParseNumeral(t: Text, base: nat): (r: Option<nat>)
    requires ValidBase(base)
    ensures r.Some? ==> t != [] && forall i :: 0 <= i < |t| ==> DigitOf(t[i], base).Some?
    decreases |t|
  {
    if t == [] then None
    else
      var d := DigitOf(t[|t| - 1], base);
      if d.None? then None
      else if |t| == 1 then d
      else
        match ParseNumeral(t[..|t| - 1], base)
        case None => None
        case Some(v) => Some(v * base + d.value)
  }

  /** The shortest numeral for `n` in `base`, lower-case digits. */
  function Numeral(n: nat, base: nat): (t: Text)
    requires ValidBase(base)
    ensures t != [] && forall i :: 0 <= i < |t| ==> DigitOf(t[i], base).Some?
    decreases n
  {
    if n < base then [DigitChar(n)]
    else Numeral(n / base, base) + [DigitChar(n % base)]
  }

  /** Parsing a written numeral gives back its value. */
  lemma {:induction false} ParseNumeralOfNumeral(n: nat, base: nat)
    requires ValidBase(base)
    ensures ParseNumeral(Numeral(n, base), base) == Some(n)
    decreases n
  {
    var t := Numeral(n, base);
    if n >= base {
      ParseNumeralOfNumeral(n / base, base);
      assert t[..|t| - 1] == Numeral(n / base, base);
      assert t[|t| - 1] == DigitChar(n % base);
    }
  }

  /** A numeral contains no dot and no colon, so it is one segment of an address. */
  lemma NumeralHasNoSeparator(n: nat, base: nat)
    requires ValidBase(base)
    ensures DOT !in Numeral(n, base) && COLON !in Numeral(n, base)
  {
    var t := Numeral(n, base);
    forall i | 0 <= i < |t| ensures t[i] != DOT && t[i] != COLON {
      assert DigitOf(t[i], base).Some?;
    }
  }
}
