/** Optional values, the exceptions the codec throws, and results that carry either. */
module Outcomes {

  datatype Option<+T> = None | Some(value: T)

  /** The exceptions thrown by the encoder, one constructor per throw site. */
  datatype Error =
    | LabelTooLong       // std::runtime_error from addDomainName
    | NotANumber         // std::invalid_argument from std::stoi on a segment that is not a numeral
    | ByteOutOfRange     // std::out_of_range from ipToBytes
    | InvalidIpFormat    // std::invalid_argument from ipToBytes: not exactly 4 octets
    | InvalidIpv6Format  // std::invalid_argument from parseIPv6Address: not exactly 16 bytes

  datatype Result<+T> = Ok(value: T) | Err(error: Error)

  /** Serializes the items of `xs` in order with `f` and concatenates the pieces;
      the first item whose serialization throws aborts the whole with that error. */
  function ConcatResults<T, U>(xs: seq<T>, f: T -> Result<seq<U>>): (r: Result<seq<U>>)
    ensures r.Ok? ==> forall x :: x in xs ==> f(x).Ok?
    ensures xs == [] ==> r == Ok([])
    decreases |xs|
  {
    if xs == [] then Ok([])
    else
      match ConcatResults(xs[..|xs| - 1], f)
      case Err(e) => Err(e)
      case Ok(init) =>
        match f(xs[|xs| - 1])
        case Err(e) => Err(e)
        case Ok(last) => Ok(init + last)
  }

  /** One more item appended to a prefix that serialized cleanly. */
  lemma ConcatResultsSnoc<T, U>(xs: seq<T>, i: nat, f: T -> Result<seq<U>>)
    requires i < |xs|
    requires ConcatResults(xs[..i], f).Ok?
    ensures ConcatResults(xs[..i + 1], f) ==
      match f(xs[i])
      case Err(e) => Err(e)
      case Ok(b) => Ok(ConcatResults(xs[..i], f).value + b)
  {
    assert xs[..i + 1][..i] == xs[..i];
  }

  /** One turn of a loop that appends each item's serialization after `start`: once item `i`
      is appended, the output holds the serialization of the first `i + 1` items. */
  lemma ConcatResultsStep<T, U>(xs: seq<T>, i: nat, f: T -> Result<seq<U>>, start: seq<U>, out: seq<U>)
    requires i < |xs| && ConcatResults(xs[..i], f).Ok? && f(xs[i]).Ok?
    requires out == (start + ConcatResults(xs[..i], f).value) + f(xs[i]).value
    ensures ConcatResults(xs[..i + 1], f).Ok?
    ensures out == start + ConcatResults(xs[..i + 1], f).value
  {
    ConcatResultsSnoc(xs, i, f);
    assert (start + ConcatResults(xs[..i], f).value) + f(xs[i]).value
        == start + (ConcatResults(xs[..i], f).value + f(xs[i]).value);
  }

  /** One more item that serializes cleanly appends its serialization. */
  lemma ConcatResultsAppend<T, U>(xs: seq<T>, x: T, f: T -> Result<seq<U>>, out: seq<U>)
    requires ConcatResults(xs, f) == Ok(out) && f(x).Ok?
    ensures ConcatResults(xs + [x], f) == Ok(out + f(x).value)
  {
    assert (xs + [x])[..|xs|] == xs;
  }

  /** The first item that fails decides the error of the whole sequence. */
  lemma {:induction false} ConcatResultsFailsAt<T, U>(xs: seq<T>, i: nat, f: T -> Result<seq<U>>)
    requires i < |xs|
    requires ConcatResults(xs[..i], f).Ok?
    requires f(xs[i]).Err?
    ensures ConcatResults(xs, f) == Err(f(xs[i]).error)
    decreases |xs| - i
  {
    if i == |xs| - 1 {
      assert xs[..i + 1] == xs;
      ConcatResultsSnoc(xs, i, f);
    } else {
      assert xs[..|xs| - 1][..i] == xs[..i];
      ConcatResultsFailsAt(xs[..|xs| - 1], i, f);
    }
  }

  /** The whole sequence serializes exactly when every item does. */
  lemma {:induction false} ConcatResultsOk<T, U>(xs: seq<T>, f: T -> Result<seq<U>>)
    ensures ConcatResults(xs, f).Ok? <==> forall x :: x in xs ==> f(x).Ok?
    decreases |xs|
  {
    if xs != [] {
      ConcatResultsOk(xs[..|xs| - 1], f);
      assert forall x :: x in xs <==> x in xs[..|xs| - 1] || x == xs[|xs| - 1];
    }
  }

  /** Serialization of a non-empty sequence, read from the front. */
  lemma {:induction false} ConcatResultsCons<T, U>(x: T, xs: seq<T>, f: T -> Result<seq<U>>)
    requires f(x).Ok?
    ensures ConcatResults([x] + xs, f) ==
      match ConcatResults(xs, f)
      case Err(e) => Err(e)
      case Ok(rest) => Ok(f(x).value + rest)
    decreases |xs|
  {
    if xs == [] {
      assert [x] + xs == [x] && [x][..0] == [];
      assert ConcatResults([x], f) == Ok([] + f(x).value);
      assert [] + f(x).value == f(x).value + [];
    } else {
      var init := xs[..|xs| - 1];
      assert ([x] + xs)[..|xs|] == [x] + init;
      assert ([x] + xs)[|xs|] == xs[|xs| - 1];
      ConcatResultsCons(x, init, f);
      match ConcatResults(init, f)
      case Err(e) =>
      case Ok(rest) =>
        match f(xs[|xs| - 1])
        case Err(e) =>
        case Ok(b) =>
          assert f(x).value + rest + b == f(x).value + (rest + b);
    }
  }

  /** When every item serializes to `k` elements, the whole has `k` elements per item. */
  lemma {:induction false} ConcatResultsLength<T, U>(xs: seq<T>, f: T -> Result<seq<U>>, k: nat)
    requires forall x :: x in xs ==> f(x).Ok? && |f(x).value| == k
    ensures ConcatResults(xs, f).Ok? && |ConcatResults(xs, f).value| == k * |xs|
    decreases |xs|
  {
    if xs != [] {
      var n := |xs|;
      assert forall x :: x in xs[..n - 1] ==> x in xs;
      ConcatResultsLength(xs[..n - 1], f, k);
      MulSucc(k, n - 1);
    }
  }

  /** When every item serializes to `k` elements, item `i` occupies positions `k*i` to `k*i + k`. */
  lemma {:induction false} ConcatResultsUniform<T, U>(xs: seq<T>, f: T -> Result<seq<U>>, k: nat, i: nat)
    requires forall x :: x in xs ==> f(x).Ok? && |f(x).value| == k
    requires i < |xs|
    ensures ConcatResults(xs, f).Ok? && k * i + k <= |ConcatResults(xs, f).value|
    ensures ConcatResults(xs, f).value[k * i .. k * i + k] == f(xs[i]).value
    decreases |xs|
  {
    var n := |xs|;
    var init := xs[..n - 1];
    assert forall x :: x in init ==> x in xs;
    ConcatResultsLength(init, f, k);
    var r0 := ConcatResults(init, f).value;
    var last := f(xs[n - 1]).value;
    assert ConcatResults(xs, f).value == r0 + last;
    MulSucc(k, i);
    if i < n - 1 {
      ConcatResultsUniform(init, f, k, i);
      SliceOfPrefix(r0, last, k * i, k * i + k);
    } else {
      MulSucc(k, n - 1);
    }
  }

  /** A single item serializes to its own bytes. */
  lemma ConcatResultsSingle<T, U>(x: T, f: T -> Result<seq<U>>)
    requires f(x).Ok?
    ensures ConcatResults([x], f) == Ok(f(x).value)
  {
    assert [x][..0] == [];
    assert [] + f(x).value == f(x).value;
  }

  lemma SliceOfPrefix<U>(a: seq<U>, b: seq<U>, lo: nat, hi: nat)
    requires lo <= hi <= |a|
    ensures (a + b)[lo .. hi] == a[lo .. hi]
  {
  }

  lemma MulSucc(k: nat, a: nat)
    ensures k * (a + 1) == k * a + k
  {
  }
}

