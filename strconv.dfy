/**
 * The part of Go's strconv package the codec relies on: base-10 formatting
 * (Itoa, FormatInt, FormatUint) and parsing (Atoi, ParseInt, ParseUint with
 * bit size 64). A 64-bit platform is assumed, so Go's `int` is 64 bits wide.
 */
module Strconv {
  import opened Wrappers
  import opened Constants

  const MinInt64: int := -0x8000_0000_0000_0000
  const MaxInt64: int := 0x7FFF_FFFF_FFFF_FFFF
  const MaxUint64: int := 0xFFFF_FFFF_FFFF_FFFF

  predicate InInt64(v: int) {
    MinInt64 <= v <= MaxInt64
  }

  predicate AllDigits(s: bytes) {
    forall i :: 0 <= i < |s| ==> IsDigit(s[i])
  }

  /** A run of digits written canonically: no leading zero unless it is "0". */
  predicate Canonical(s: bytes) {
    |s| > 0 && AllDigits(s) && (|s| > 1 ==> s[0] != ZeroDigit)
  }

  /** The number a run of decimal digits denotes. */
  function DecimalValue(s: bytes): (n: nat)
    requires AllDigits(s)
    ensures s == [] ==> n == 0
  {
    if s == [] then 0 else DecimalValue(s[..|s| - 1]) * 10 + (s[|s| - 1] - ZeroDigit)
  }

  /** The canonical decimal digits of `n`. */
  function Digits(n: nat): (r: bytes)
    ensures Canonical(r)
    ensures DecimalValue(r) == n
  {
    if n < 10 then [ZeroDigit + n]
    else
      var r := Digits(n / 10) + [ZeroDigit + n % 10];
      assert r[..|r| - 1] == Digits(n / 10);
      r
  }

  /** Two canonical digit runs with the same value are the same run. */
  lemma {:induction false} CanonicalUnique(s: bytes)
    requires Canonical(s)
    ensures Digits(DecimalValue(s)) == s
    decreases |s|
  {
    var n := DecimalValue(s);
    if |s| == 1 {
    } else {
      var p := s[..|s| - 1];
      assert Canonical(p) by {
        assert p[0] == s[0];
        if |p| > 1 {
          assert p[0] != ZeroDigit;
        } else {
          assert p[0] != ZeroDigit;
          assert DecimalValue(p) > 0;
        }
      }
      PositiveWhenCanonicalLong(p);
      CanonicalUnique(p);
      assert n / 10 == DecimalValue(p);
      assert n % 10 == s[|s| - 1] - ZeroDigit;
      assert n >= 10;
    }
  }

  lemma PositiveWhenCanonicalLong(p: bytes)
    requires Canonical(p) && p[0] != ZeroDigit
    ensures DecimalValue(p) > 0
  {
    if |p| > 1 {
      LeadingDigitBound(p);
    }
  }

  lemma {:induction false} LeadingDigitBound(p: bytes)
    requires |p| > 0 && AllDigits(p) && p[0] != ZeroDigit
    ensures DecimalValue(p) > 0
    decreases |p|
  {
    if |p| > 1 {
      LeadingDigitBound(p[..|p| - 1]);
    }
  }

  /** strconv.FormatInt(v, 10), and strconv.Itoa on a 64-bit platform. */
  function FormatInt(v: int): (r: bytes)
    ensures |r| > 0
  {
    if v < 0 then [Minus] + Digits(-v) else Digits(v)
  }

  /** strconv.FormatUint(u, 10). */
  function FormatUint(u: nat): (r: bytes)
    ensures Canonical(r)
  {
    Digits(u)
  }

  /** The longest run of digits that `s` starts with. */
  function DigitRun(s: bytes): (r: bytes)
    ensures |r| <= |s| && r == s[..|r|] && AllDigits(r)
    ensures |r| < |s| ==> !IsDigit(s[|r|])
    ensures AllDigits(s) ==> r == s
  {
    if s == [] || !IsDigit(s[0]) then []
    else
      var r := [s[0]] + DigitRun(s[1..]);
      assert forall i :: 1 <= i < |r| ==> r[i] == DigitRun(s[1..])[i - 1];
      r
  }

  /**
   * Reading `s` digit by digit from the left passes 2^64-1: some run of
   * digits at its start already denotes more than that.
   */
  ghost predicate Overflows(s: bytes) {
    exists k :: 0 <= k <= |s| && AllDigits(s[..k]) && DecimalValue(s[..k]) > MaxUint64
  }

  /** A digit run is worth at least as much as each of its prefixes. */
  lemma {:induction false} PrefixValueBound(s: bytes, k: nat)
    requires AllDigits(s) && k <= |s|
    ensures DecimalValue(s[..k]) <= DecimalValue(s)
    decreases |s| - k
  {
    if k < |s| {
      var p := s[..|s| - 1];
      assert p[..k] == s[..k];
      PrefixValueBound(p, k);
      assert DecimalValue(s) == DecimalValue(p) * 10 + (s[|s| - 1] - ZeroDigit);
    } else {
      assert s[..k] == s;
    }
  }

  /** `s` overflows exactly when its leading digit run denotes more than 2^64-1. */
  lemma OverflowsIffRunTooBig(s: bytes)
    ensures Overflows(s) <==> DecimalValue(DigitRun(s)) > MaxUint64
  {
    var run := DigitRun(s);
    if Overflows(s) {
      var k :| 0 <= k <= |s| && AllDigits(s[..k]) && DecimalValue(s[..k]) > MaxUint64;
      assert s[..k] == run[..k];
      PrefixValueBound(run, k);
    }
    if DecimalValue(run) > MaxUint64 {
      assert s[..|run|] == run;
    }
  }

  /**
   * strconv.ParseUint(s, 10, 64): no sign is accepted. The digits are read
   * from the left, and the first problem met is reported: a byte that is
   * not a digit is a syntax error, a digit that takes the value past
   * 2^64-1 a range error, and empty text a syntax error.
   */
  function ParseUint64(s: bytes): (r: Outcome<nat>)
    ensures r.Success? <==> s != [] && AllDigits(s) && DecimalValue(s) <= MaxUint64
    ensures r.Success? ==> r.value == DecimalValue(s)
    ensures r.Failure? ==> r.error == NumSyntax || r.error == NumRange
    ensures s != [] && AllDigits(s) && r.Failure? ==> r.error == NumRange
  {
    if s != [] && AllDigits(s) then
      if DecimalValue(s) > MaxUint64 then Failure(NumRange) else Success(DecimalValue(s))
    else if DecimalValue(DigitRun(s)) > MaxUint64 then Failure(NumRange)
    else Failure(NumSyntax)
  }

  /**
   * Which error ParseUint reports: a range error exactly when the digits
   * at the start of the text pass 2^64-1, whatever bytes come after them.
   */
  lemma ParseUint64Errors(s: bytes)
    ensures ParseUint64(s) == Failure(NumRange) <==> Overflows(s)
    ensures ParseUint64(s) == Failure(NumSyntax) <==> !Overflows(s) && !(s != [] && AllDigits(s))
  {
    OverflowsIffRunTooBig(s);
  }

  /** The sign byte ParseInt accepts besides the minus. */
  const Plus: byte := '+' as int

  /** Text ParseInt reads as a number: an optional sign, then at least one digit. */
  predicate SignedNumeral(s: bytes) {
    if |s| > 0 && (s[0] == Minus || s[0] == Plus) then |s| > 1 && AllDigits(s[1..])
    else |s| > 0 && AllDigits(s)
  }

  /** `s` without its leading sign, if it has one. */
  function Unsigned(s: bytes): (r: bytes)
    ensures |s| > 0 && (s[0] == Minus || s[0] == Plus) ==> r == s[1..]
    ensures !(|s| > 0 && (s[0] == Minus || s[0] == Plus)) ==> r == s
  {
    if |s| > 0 && (s[0] == Minus || s[0] == Plus) then s[1..] else s
  }

  /**
   * strconv.ParseInt(s, 10, 64): one optional sign, then decimal digits,
   * read by ParseUint. A range error of ParseUint stays a range error,
   * whatever follows the digits that overflow; its syntax error stays a
   * syntax error; and a numeral outside int64 is a range error, so `-`
   * admits one more magnitude than `+` or no sign.
   */
  function ParseInt64(s: bytes): (r: Outcome<int>)
    ensures r.Success? ==> InInt64(r.value)
    ensures r.Failure? ==> r.error == NumSyntax || r.error == NumRange
    ensures !SignedNumeral(s) ==> r.Failure?
    ensures SignedNumeral(s) ==> r != Failure(NumSyntax)
    ensures s != [] && AllDigits(s) ==>
      (r.Success? <==> DecimalValue(s) <= MaxInt64) && (r.Success? ==> r.value == DecimalValue(s))
    ensures |s| > 1 && s[0] == Plus && AllDigits(s[1..]) ==>
      (r.Success? <==> DecimalValue(s[1..]) <= MaxInt64) && (r.Success? ==> r.value == DecimalValue(s[1..]))
    ensures |s| > 1 && s[0] == Minus && AllDigits(s[1..]) ==>
      (r.Success? <==> DecimalValue(s[1..]) <= -MinInt64) && (r.Success? ==> r.value == -(DecimalValue(s[1..]) as int))
  {
    if s == [] then Failure(NumSyntax)
    else
      var signed := s[0] == Minus || s[0] == Plus;
      var body := if signed then s[1..] else s;
      if body == [] || !AllDigits(body) then
        if DecimalValue(DigitRun(body)) > MaxUint64 then Failure(NumRange) else Failure(NumSyntax)
      else
        var v: int := if s[0] == Minus then -(DecimalValue(body) as int) else DecimalValue(body);
        if InInt64(v) then Success(v) else Failure(NumRange)
  }

  /**
   * Which error ParseInt reports: a syntax error exactly when the text is
   * not a sign and digits and its digits do not overflow before the first
   * byte that is not a digit; every other failure is a range error.
   */
  lemma ParseInt64Errors(s: bytes)
    ensures ParseInt64(s) == Failure(NumSyntax) <==> !SignedNumeral(s) && !Overflows(Unsigned(s))
    ensures ParseInt64(s).Failure? && ParseInt64(s).error != NumSyntax ==> ParseInt64(s).error == NumRange
  {
    OverflowsIffRunTooBig(Unsigned(s));
  }

  /**
   * strconv.Atoi on a 64-bit platform, which is ParseInt(s, 10, 64). On a
   * run of digits it gives their value when that fits an int64, and a
   * range error otherwise.
   */
  function Atoi(s: bytes): (r: Outcome<int>)
    ensures r.Success? ==> InInt64(r.value)
    ensures s != [] && AllDigits(s) ==> (r.Success? <==> DecimalValue(s) <= MaxInt64)
    ensures s != [] && AllDigits(s) && r.Success? ==> r.value == DecimalValue(s)
    ensures s != [] && AllDigits(s) && r.Failure? ==> r.error == NumRange
  {
    ParseInt64(s)
  }

  /** The text FormatInt produces is read back by ParseInt as the same number. */
  lemma FormatIntRoundTrip(v: int)
    requires InInt64(v)
    ensures ParseInt64(FormatInt(v)) == Success(v)
  {
    var s := FormatInt(v);
    if v < 0 {
      assert s[1..] == Digits(-v);
    }
  }

  /** The text FormatUint produces is read back by ParseUint as the same number. */
  lemma FormatUintRoundTrip(u: nat)
    requires u <= MaxUint64
    ensures ParseUint64(FormatUint(u)) == Success(u)
  {
  }

  /**
   * FormatInt never writes a leading zero and never writes "-0": its output
   * is "-" followed by a canonical run of a positive number, or a canonical
   * run on its own.
   */
  lemma FormatIntCanonical(v: int)
    ensures v < 0 ==>
      FormatInt(v)[0] == Minus && Canonical(FormatInt(v)[1..]) && FormatInt(v)[1] != ZeroDigit
    ensures v >= 0 ==> Canonical(FormatInt(v))
  {
    if v < 0 {
      assert FormatInt(v)[1..] == Digits(-v);
    }
  }
}
