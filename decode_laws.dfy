/**
 * What the decoder of decode.go accepts and what it reports, stated over
 * the functions of DecodeSpec: the integer and string productions in both
 * directions, their round trips with the encoder's scalar output, the
 * boolean and width rules, the dictionary and struct rules, and
 * Unmarshal's checks.
 */
module DecodeLaws {
  import opened Wrappers
  import opened Constants
  import opened Strconv
  import opened Values
  import opened Tags
  import opened DecodeSpec
  import opened EncodeSpec

  /**
   * The digit loop on a run of digits from `read` to `j`: it stops at `j`
   * when `j` holds the stop byte, reports `err` when `j` holds another
   * byte, and panics when the run reaches the end of the data.
   */
  lemma {:induction false} ScanDigitsRun(data: bytes, read: nat, stop: byte, err: Err, j: nat)
    requires read <= j <= |data| && !IsDigit(stop)
    requires AllDigits(data[read..j]) && (j < |data| ==> !IsDigit(data[j]))
    ensures ScanDigits(data, read, stop, err) ==
      if j == |data| then Failure(Panic)
      else if data[j] == stop then Success(j)
      else Failure(err)
    decreases j - read
  {
    if read < j {
      assert data[read] == data[read..j][0];
      assert data[read + 1..j] == data[read..j][1..];
      ScanDigitsRun(data, read + 1, stop, err, j);
    }
  }

  /** Every decode routine reports ErrEmptyData on empty input, Unmarshal included. */
  lemma EmptyInput(t: GoValue, target: Target, e: Shape, k: Shape, fs: seq<Field>, vs: seq<GoValue>)
    requires WellFormed(t) && WellFormed(StructV(fs, vs))
    requires target.Pointer? ==> WellFormed(target.loc)
    ensures DecodeString([]) == Failure(EmptyData)
    ensures DecodeIntStr([]) == Failure(EmptyData)
    ensures DecodeList([], e) == Failure(EmptyData)
    ensures DecodeDict([], k, e) == Failure(EmptyData)
    ensures DecodeStruct([], fs, vs) == Failure(EmptyData)
    ensures ReadNextValue([]) == Failure(EmptyData)
    ensures Decode([], t) == Failure(EmptyData)
    ensures Unmarshal([], target) == Failure(EmptyData)
  {
  }

  // ---------------------------------------------------------------------
  // Strings

  /** decodeString reads back what encodeString writes and consumes exactly that. */
  lemma StringRoundTrip(s: bytes, rest: bytes)
    requires |EncodeString(s)| <= MaxInt64
    ensures DecodeString(EncodeString(s) + rest) == Success((s, |EncodeString(s)|))
  {
    var e := EncodeString(s);
    var data := e + rest;
    var c := |e| - |s| - 1;
    assert data[0..c] == e[..c];
    assert data[c] == e[c];
    ScanDigitsRun(data, 0, StringSeparatorToken, InvalidString, c);
    assert data[c + 1..c + 1 + |s|] == e[|e| - |s|..];
  }

  /**
   * Conversely, what decodeString accepts starts with the encodeString
   * output of the string it returns: the length is written canonically and
   * the consumed bytes are exactly that output.
   */
  lemma StringDecodeIsEncoding(data: bytes)
    requires DecodeString(data).Success?
    ensures data[..DecodeString(data).value.1] == EncodeString(DecodeString(data).value.0)
  {
    var (s, n) := DecodeString(data).value;
    var colon := ScanDigits(data, 0, StringSeparatorToken, InvalidString).value;
    var length := data[..colon];
    assert length == data[0..colon];
    assert Canonical(length);
    CanonicalUnique(length);
    assert data[..n] == length + [StringSeparatorToken] + s;
  }

  /**
   * decodeString's failures, by the first byte `j` after the leading
   * digits: running off the end is Go's index panic, a byte other than `:`
   * is ErrInvalidString, no digits is ErrEmptyData, several digits starting
   * with 0 is ErrLeadingZero, a length beyond MaxInt64 is refused by Atoi,
   * an end past MaxInt64 wraps and panics in the slice expression, and an
   * end past the data is ErrLengthTooBig.
   */
  lemma StringErrors(data: bytes, j: nat)
    requires 0 < |data| && j <= |data| && AllDigits(data[..j])
    requires j < |data| ==> !IsDigit(data[j])
    ensures j == |data| ==> DecodeString(data) == Failure(Panic)
    ensures j < |data| && data[j] != StringSeparatorToken ==> DecodeString(data) == Failure(InvalidString)
    ensures j < |data| && data[j] == StringSeparatorToken && j == 0 ==> DecodeString(data) == Failure(EmptyData)
    ensures j < |data| && data[j] == StringSeparatorToken && j > 1 && data[0] == ZeroDigit ==>
      DecodeString(data) == Failure(LeadingZero)
    ensures j < |data| && data[j] == StringSeparatorToken && Canonical(data[..j]) ==>
      var l := DecimalValue(data[..j]);
      DecodeString(data) ==
        if l > MaxInt64 then Failure(NumRange)
        else if j + 1 + l > MaxInt64 then Failure(Panic)
        else if j + 1 + l > |data| then Failure(LengthTooBig)
        else Success((data[j + 1..j + 1 + l], j + 1 + l))
  {
    assert data[0..j] == data[..j];
    ScanDigitsRun(data, 0, StringSeparatorToken, InvalidString, j);
  }

  // ---------------------------------------------------------------------
  // Integers

  /** Decimal digits after an optional minus: the text decodeIntStr scans. */
  predicate SignedDigits(v: bytes) {
    AllDigits(v) || (|v| > 0 && v[0] == Minus && AllDigits(v[1..]))
  }

  /**
   * The integer texts decodeIntStr accepts: not empty, no leading 0 on a
   * text of several bytes, and not "-0". A 0 after the minus is not
   * checked, so "-05" passes, and so does a lone "-".
   */
  predicate AcceptedIntText(v: bytes) {
    && v != []
    && SignedDigits(v)
    && !(|v| > 1 && v[0] == ZeroDigit)
    && v != [Minus, ZeroDigit]
  }

  /** Where decodeIntStr's digit loop starts: after the `i` and an optional minus. */
  function IntStart(data: bytes): (start: nat)
    requires |data| > 1
    ensures start == 1 || (start == 2 && data[1] == Minus)
  {
    if data[1] == Minus then 2 else 1
  }

  /** decodeIntStr accepts `i`, an accepted text and `e`, whatever follows. */
  lemma IntTextAccepted(v: bytes, rest: bytes)
    requires AcceptedIntText(v)
    ensures DecodeIntStr([IntToken] + v + [EndToken] + rest) == Success((v, |v| + 2))
  {
    var data := [IntToken] + v + [EndToken] + rest;
    assert data[1..|v| + 1] == v;
    var start := IntStart(data);
    if start == 2 {
      assert data[2..|v| + 1] == v[1..];
    }
    ScanDigitsRun(data, start, EndToken, InvalidInteger, |v| + 1);
  }

  /** decodeIntStr accepts nothing else: what it consumes is `i`, an accepted text and `e`. */
  lemma IntTextOnlyAccepted(data: bytes)
    requires DecodeIntStr(data).Success?
    ensures AcceptedIntText(DecodeIntStr(data).value.0)
    ensures data[..DecodeIntStr(data).value.1] == [IntToken] + DecodeIntStr(data).value.0 + [EndToken]
  {
    var (v, n) := DecodeIntStr(data).value;
    var start := IntStart(data);
    var stop := ScanDigits(data, start, EndToken, InvalidInteger).value;
    assert v == data[1..stop];
    if start == 2 {
      assert v[1..] == data[2..stop];
    }
    assert data[..n] == [IntToken] + v + [EndToken];
  }

  /**
   * decodeIntStr's failures: a first byte other than `i` is
   * ErrInvalidInteger; after the `i` and an optional minus, a run of
   * digits ending at `j` that runs off the data panics, ends in a byte
   * other than `e` is ErrInvalidInteger, is empty is ErrEmptyData, has
   * several bytes starting with 0 is ErrLeadingZero, and is "-0" is
   * ErrInvalidInteger.
   */
  lemma IntTextErrors(data: bytes, j: nat)
    requires |data| > 0
    requires |data| > 1 && data[0] == IntToken ==>
      IntStart(data) <= j <= |data| && AllDigits(data[IntStart(data)..j]) && (j < |data| ==> !IsDigit(data[j]))
    ensures data[0] != IntToken ==> DecodeIntStr(data) == Failure(InvalidInteger)
    ensures data == [IntToken] ==> DecodeIntStr(data) == Failure(Panic)
    ensures |data| > 1 && data[0] == IntToken ==>
      && (j == |data| ==> DecodeIntStr(data) == Failure(Panic))
      && (j < |data| && data[j] != EndToken ==> DecodeIntStr(data) == Failure(InvalidInteger))
      && (j < |data| && data[j] == EndToken && j == 1 ==> DecodeIntStr(data) == Failure(EmptyData))
      && (j < |data| && data[j] == EndToken && j > 2 && data[1] == ZeroDigit ==>
            DecodeIntStr(data) == Failure(LeadingZero))
      && (j < |data| && data[j] == EndToken && data[1..j] == [Minus, ZeroDigit] ==>
            DecodeIntStr(data) == Failure(InvalidInteger))
  {
    if |data| > 1 && data[0] == IntToken {
      ScanDigitsRun(data, IntStart(data), EndToken, InvalidInteger, j);
    }
  }

  /** The text FormatInt writes is one decodeIntStr accepts. */
  lemma FormatIntAccepted(i: int)
    ensures AcceptedIntText(FormatInt(i))
  {
    FormatIntCanonical(i);
  }

  /** decodeInt reads back every int64 encodeInt writes and consumes exactly its output. */
  lemma IntRoundTrip(i: int, rest: bytes)
    requires InInt64(i)
    ensures DecodeInt(EncodeInt(i) + rest) == Success((i, |EncodeInt(i)|))
  {
    var text := FormatInt(i);
    FormatIntAccepted(i);
    assert EncodeInt(i) + rest == [IntToken] + text + [EndToken] + rest;
    IntTextAccepted(text, rest);
    FormatIntRoundTrip(i);
  }

  /** decodeUint reads back every uint64 encodeUint writes and consumes exactly its output. */
  lemma UintRoundTrip(u: nat, rest: bytes)
    requires u <= MaxUint64
    ensures DecodeUint(EncodeUint(u) + rest) == Success((u, |EncodeUint(u)|))
  {
    var text := FormatUint(u);
    assert AcceptedIntText(text);
    assert EncodeUint(u) + rest == [IntToken] + text + [EndToken] + rest;
    IntTextAccepted(text, rest);
    FormatUintRoundTrip(u);
  }

  /** decodeInt is decodeIntStr's text read by ParseInt, with decodeIntStr's count. */
  lemma DecodeIntOfText(data: bytes, text: bytes, n: nat)
    requires DecodeIntStr(data) == Success((text, n))
    ensures ParseInt64(text).Success? ==> DecodeInt(data) == Success((ParseInt64(text).value, n))
    ensures ParseInt64(text).Failure? ==> DecodeInt(data) == Failure(ParseInt64(text).error)
  {
  }

  /**
   * A 0 after the minus is accepted: "i-05e" is read as -5, although the
   * encoder writes -5 as "i-5e", because the leading-zero check looks at
   * the byte after the `i` only. So a text the encoder never writes
   * decodes without error.
   */
  lemma {:induction false} NegativeLeadingZero(d: bytes, rest: bytes)
    requires |d| >= 2 && AllDigits(d) && d[0] == ZeroDigit && DecimalValue(d) <= -MinInt64
    ensures DecodeInt([IntToken, Minus] + d + [EndToken] + rest) == Success((-(DecimalValue(d) as int), |d| + 3))
    ensures EncodeInt(-(DecimalValue(d) as int)) != [IntToken, Minus] + d + [EndToken]
  {
    var n: int := DecimalValue(d);
    var v := [Minus] + d;
    assert AcceptedIntText(v) by {
      assert v[1..] == d;
    }
    NegativeText(d, rest);
    NegativeParse(d);
    DecodeIntOfText([IntToken, Minus] + d + [EndToken] + rest, v, |d| + 3);
    NegativeZeroNotWritten(d);
  }

  /** The encoder never writes a `0` right after the minus. */
  lemma NegativeZeroNotWritten(d: bytes)
    requires |d| >= 2 && AllDigits(d) && d[0] == ZeroDigit && DecimalValue(d) <= -MinInt64
    ensures EncodeInt(-(DecimalValue(d) as int)) != [IntToken, Minus] + d + [EndToken]
  {
    var n: int := DecimalValue(d);
    var text := [IntToken, Minus] + d + [EndToken];
    if n > 0 {
      FormatIntCanonical(-n);
      assert EncodeInt(-n)[2] == FormatInt(-n)[1];
      assert text[2] == ZeroDigit;
    } else {
      assert |EncodeInt(-n)| == 3;
    }
  }

  /**
   * decodeInt on a negative number: ParseInt admits magnitudes up to 2^63,
   * one more than on the positive side, and reports a larger one as a range
   * error, which decodeInt returns as it is.
   */
  lemma NegativeIntRange(d: bytes, rest: bytes)
    requires Canonical(d) && d[0] != ZeroDigit
    ensures DecodeInt([IntToken, Minus] + d + [EndToken] + rest) ==
      if DecimalValue(d) <= -MinInt64 then Success((-(DecimalValue(d) as int), |d| + 3))
      else Failure(NumRange)
  {
    assert AcceptedIntText([Minus] + d) by {
      assert ([Minus] + d)[1..] == d;
    }
    NegativeText(d, rest);
    NegativeParse(d);
    DecodeIntOfText([IntToken, Minus] + d + [EndToken] + rest, [Minus] + d, |d| + 3);
  }

  /** decodeIntStr passes `-` and a canonical positive digit run. */
  lemma NegativeText(d: bytes, rest: bytes)
    requires AcceptedIntText([Minus] + d)
    ensures DecodeIntStr([IntToken, Minus] + d + [EndToken] + rest) == Success(([Minus] + d, |d| + 3))
  {
    var v := [Minus] + d;
    MinusFraming(d, rest);
    IntTextAccepted(v, rest);
  }

  /** The integer token of `-d` is `i`, the text `-d`, then `e`. */
  lemma MinusFraming(d: bytes, rest: bytes)
    ensures [IntToken, Minus] + d + [EndToken] + rest == [IntToken] + ([Minus] + d) + [EndToken] + rest
  {
    assert [IntToken, Minus] + d == [IntToken] + ([Minus] + d);
  }

  /** ParseInt on `-` and a digit run. */
  lemma NegativeParse(d: bytes)
    requires |d| > 0 && AllDigits(d)
    ensures ParseInt64([Minus] + d) ==
      if DecimalValue(d) <= -MinInt64 then Success(-(DecimalValue(d) as int)) else Failure(NumRange)
  {
    var v := [Minus] + d;
    assert v[1..] == d && v[0] == Minus && |v| > 1;
    assert SignedNumeral(v);
  }

  /** A lone minus passes decodeIntStr; strconv then refuses it. */
  lemma LoneMinus()
    ensures DecodeIntStr(Ascii("i-e")) == Success((Ascii("-"), 3))
    ensures DecodeInt(Ascii("i-e")) == Failure(NumSyntax)
  {
    assert Ascii("i-e") == [IntToken] + Ascii("-") + [EndToken] + [];
    IntTextAccepted(Ascii("-"), []);
  }

  // ---------------------------------------------------------------------
  // Scalars through decode

  /** decode on a bool, integer or string target goes straight to the kind switch's scalar cases. */
  lemma ScalarTarget(data: bytes, t: GoValue)
    requires |data| > 0 && WellFormed(t)
    requires t.BoolV? || t.IntV? || t.UintV? || t.StringV?
    ensures Decode(data, t) == DecodeScalar(data, t, true)
  {
    assert DecodeValue(data, t, true) == DecodeKind(data, t, true);
  }

  /**
   * A bool is decoded from an integer: 1 is true, 0 and every negative
   * number are false, a number above 1 is ErrInvalidBool.
   */
  lemma BoolFromInt(i: int, b: bool, rest: bytes)
    requires InInt64(i)
    ensures Decode(EncodeInt(i) + rest, BoolV(b)) ==
      if i > 1 then Failure(InvalidBool) else Success((BoolV(i == 1), |EncodeInt(i)|))
  {
    IntRoundTrip(i, rest);
    ScalarTarget(EncodeInt(i) + rest, BoolV(b));
  }

  /**
   * An integer decoded into a signed field of any width is truncated to
   * that width, as reflect's SetInt stores it; an int64 field gets it
   * unchanged.
   */
  lemma IntIntoWidth(i: int, w: Width, x: int, rest: bytes)
    requires InInt64(i) && SignedFits(w, x)
    ensures Decode(EncodeInt(i) + rest, IntV(w, x)) ==
      Success((IntV(w, TruncSigned(w, i)), |EncodeInt(i)|))
    ensures w == W64 || w == Word ==> TruncSigned(w, i) == i
  {
    IntRoundTrip(i, rest);
    ScalarTarget(EncodeInt(i) + rest, IntV(w, x));
  }

  /** An unsigned integer decoded into an unsigned field is truncated to the field's width. */
  lemma UintIntoWidth(u: nat, w: Width, x: nat, rest: bytes)
    requires u <= MaxUint64 && UnsignedFits(w, x)
    ensures Decode(EncodeUint(u) + rest, UintV(w, x)) ==
      Success((UintV(w, TruncUnsigned(w, u)), |EncodeUint(u)|))
    ensures w == W64 || w == Word ==> TruncUnsigned(w, u) == u
  {
    UintRoundTrip(u, rest);
    ScalarTarget(EncodeUint(u) + rest, UintV(w, x));
  }

  /** A string is decoded into a string target directly, and into a []byte as its bytes. */
  lemma StringIntoTargets(s: bytes, x: bytes, items: seq<GoValue>, rest: bytes)
    requires |EncodeString(s)| <= MaxInt64
    requires WellFormed(SliceV(UintS(W8), false, items))
    ensures Decode(EncodeString(s) + rest, StringV(x)) == Success((StringV(s), |EncodeString(s)|))
    ensures Decode(EncodeString(s) + rest, SliceV(UintS(W8), false, items)) ==
      Success((SliceV(UintS(W8), false, ByteItems(s)), |EncodeString(s)|))
  {
    var data := EncodeString(s) + rest;
    StringRoundTrip(s, rest);
    ScalarTarget(data, StringV(x));
    var t := SliceV(UintS(W8), false, items);
    assert DecodeValue(data, t, true) == DecodeKind(data, t, true);
  }

  /**
   * A string reached through a pointer is Go's type assertion on the
   * wrong type: decoding into a pointer to a string panics.
   */
  lemma StringBehindPointerPanics(s: bytes, x: bytes, rest: bytes)
    requires |EncodeString(s)| <= MaxInt64
    ensures Decode(EncodeString(s) + rest, PtrV(StringS, Some(StringV(x)))) == Failure(Panic)
  {
    var data := EncodeString(s) + rest;
    assert DecodeValue(data, StringV(x), false) == DecodeKind(data, StringV(x), false);
  }

  // ---------------------------------------------------------------------
  // What decode dispatches on

  /**
   * A target with an UnmarshalBEncode hook is handed the raw text
   * readNextValue returns; a refusing hook's error is decode's error and
   * readNextValue's error comes first.
   */
  lemma HookTarget(data: bytes, t: GoValue)
    requires |data| > 0 && WellFormed(t) && t.CustomV?
    ensures ReadNextValue(data).Failure? ==> Decode(data, t) == Failure(ReadNextValue(data).error)
    ensures ReadNextValue(data).Success? && t.accepts ==>
      Decode(data, t) == Success((CustomV(true, ReadNextValue(data).value.1), ReadNextValue(data).value.0))
    ensures ReadNextValue(data).Success? && !t.accepts ==> Decode(data, t) == Failure(HookFailed)
  {
  }

  /**
   * Kinds outside decode's switch, floats and arrays among them, are
   * ErrInvalidType, and Unmarshal through a pointer to one reports it.
   */
  lemma RefusedTargets(data: bytes, t: GoValue)
    requires |data| > 0 && WellFormed(t)
    requires t.FloatV? || t.ArrayV?
    ensures Decode(data, t) == Failure(InvalidType)
    ensures Unmarshal(data, Pointer(t)) == Failure(InvalidType)
  {
    assert DecodeValue(data, t, true) == DecodeKind(data, t, true) == DecodeScalar(data, t, true);
  }

  /**
   * valueOfTarget cannot set what a nil pointer or a nil interface
   * designates, nor a value an interface holds directly: decode and
   * Unmarshal report ErrCanNotSet.
   */
  lemma UnsettableTargets(data: bytes, t: GoValue)
    requires |data| > 0 && WellFormed(t)
    requires (t.PtrV? && t.target.None?) || (t.IfaceV? && !(t.dyn.Some? && t.dyn.value.PtrV? && t.dyn.value.target.Some?))
    ensures Decode(data, t) == Failure(CanNotSet)
    ensures Unmarshal(data, Pointer(t)) == Failure(CanNotSet)
  {
  }

  /**
   * valueOfTarget follows a non-nil pointer: its target is decoded as a
   * value reached indirectly, and the pointer keeps designating the
   * decoded value.
   */
  lemma PointerFollowed(data: bytes, e: Shape, x: GoValue, direct: bool)
    requires |data| > 0 && WellFormed(PtrV(e, Some(x)))
    ensures var d := DecodeValue(data, x, false);
      DecodeValue(data, PtrV(e, Some(x)), direct) ==
        if d.Success? then Success((PtrV(e, Some(d.value.0)), d.value.1)) else Failure(d.error)
  {
  }

  /** The same through an interface that holds a non-nil pointer. */
  lemma InterfaceFollowed(data: bytes, e: Shape, x: GoValue, direct: bool)
    requires |data| > 0 && WellFormed(x) && WellFormed(IfaceV(Some(PtrV(e, Some(x)))))
    ensures var d := DecodeValue(data, x, false);
      DecodeValue(data, IfaceV(Some(PtrV(e, Some(x)))), direct) ==
        if d.Success? then Success((IfaceV(Some(PtrV(e, Some(d.value.0)))), d.value.1)) else Failure(d.error)
  {
  }

  /**
   * An integer decoded through a pointer to a pointer: the inner pointer
   * is followed and the int it designates is set, truncated to its width.
   */
  lemma IntBehindPointer(i: int, w: Width, x: int, rest: bytes)
    requires InInt64(i) && SignedFits(w, x)
    ensures Decode(EncodeInt(i) + rest, PtrV(IntS(w), Some(IntV(w, x)))) ==
      Success((PtrV(IntS(w), Some(IntV(w, TruncSigned(w, i)))), |EncodeInt(i)|))
  {
    var data := EncodeInt(i) + rest;
    IntRoundTrip(i, rest);
    assert DecodeValue(data, IntV(w, x), false) == DecodeKind(data, IntV(w, x), false)
      == DecodeScalar(data, IntV(w, x), false);
  }

  /** decode on a struct target is decodeStruct on its fields, the struct keeping its type. */
  lemma StructTarget(data: bytes, fs: seq<Field>, vs: seq<GoValue>)
    requires |data| > 0 && WellFormed(StructV(fs, vs))
    ensures var d := DecodeStruct(data, fs, vs);
      Decode(data, StructV(fs, vs)) ==
        if d.Success? then Success((StructV(fs, d.value.0), d.value.1)) else Failure(d.error)
  {
    assert DecodeValue(data, StructV(fs, vs), true) == DecodeKind(data, StructV(fs, vs), true);
  }

  /** decode on a map target is decodeDict, which fills a fresh, non-nil map. */
  lemma MapTarget(data: bytes, k: Shape, e: Shape, isNil: bool, m: map<bytes, GoValue>)
    requires |data| > 0 && WellFormed(MapV(k, e, isNil, m))
    ensures var d := DecodeDict(data, k, e);
      Decode(data, MapV(k, e, isNil, m)) ==
        if d.Success? then Success((MapV(k, e, false, d.value.0), d.value.1)) else Failure(d.error)
  {
    assert DecodeValue(data, MapV(k, e, isNil, m), true) == DecodeKind(data, MapV(k, e, isNil, m), true);
  }

  /** decode on a slice target other than []byte is decodeList, which yields a fresh, non-nil slice. */
  lemma SliceTarget(data: bytes, e: Shape, isNil: bool, items: seq<GoValue>)
    requires |data| > 0 && WellFormed(SliceV(e, isNil, items)) && e != UintS(W8)
    ensures var d := DecodeList(data, e);
      Decode(data, SliceV(e, isNil, items)) ==
        if d.Success? then Success((SliceV(e, false, d.value.0), d.value.1)) else Failure(d.error)
  {
    assert DecodeValue(data, SliceV(e, isNil, items), true) == DecodeKind(data, SliceV(e, isNil, items), true);
  }

  // ---------------------------------------------------------------------
  // Dictionaries and structs

  /**
   * One turn of decodeDict's loop: the key and the value after it are
   * stored and the loop goes on past them. Nothing relates the key to
   * the keys read before it: decodeDict checks neither their order nor
   * their uniqueness, and a key read again overwrites the earlier value.
   */
  lemma DictKeepsLastValue(data: bytes, read: nat, e: Shape, acc: map<bytes, GoValue>,
                    spec: Outcome<(map<bytes, GoValue>, nat)>, key: bytes, kn: nat, v: GoValue, vn: nat)
    requires EntriesLeadTo(data, read, e, acc, spec) && read < |data| && data[read] != EndToken
    requires DecodeString(data[read..]) == Success((key, kn))
    requires WellFormed(Zero(e)) && Decode(data[read + kn..], Zero(e)) == Success((v, vn))
    ensures EntriesLeadTo(data, read + kn + vn, e, acc[key := v], spec)
  {
  }

  /**
   * nameMapping maps a wire name to the last field that resolves to it;
   * every field takes part, skipped fields (whose name is empty) included.
   */
  lemma {:induction false} NameMappingLast(fs: seq<Field>, key: bytes)
    ensures key in NameMapping(fs) <==> exists i :: 0 <= i < |fs| && NewTag(fs[i]).name == key
    ensures key in NameMapping(fs) ==>
      && NewTag(fs[NameMapping(fs)[key]]).name == key
      && forall j :: NameMapping(fs)[key] < j < |fs| ==> NewTag(fs[j]).name != key
    decreases |fs|
  {
    if fs != [] {
      var init := fs[..|fs| - 1];
      NameMappingLast(init, key);
      if key != NewTag(fs[|fs| - 1]).name {
        if key in NameMapping(fs) {
          var i :| 0 <= i < |init| && NewTag(init[i]).name == key;
          assert fs[i] == init[i];
        } else {
          forall i | 0 <= i < |fs|
            ensures NewTag(fs[i]).name != key
          {
            if i < |init| {
              assert fs[i] == init[i];
            }
          }
        }
      }
    }
  }

  /** One turn of decodeStruct's loop: the key's value is skipped or set, and the cursor moves past it. */
  lemma FieldsStep(data: bytes, read: nat, fs: seq<Field>, names: map<bytes, nat>, vs: seq<GoValue>,
                   spec: Outcome<(seq<GoValue>, nat)>, key: bytes, kn: nat, vs': seq<GoValue>, vn: nat)
    requires FieldsLeadTo(data, read, fs, names, vs, spec) && read < |data| && data[read] != EndToken
    requires DecodeString(data[read..]) == Success((key, kn))
    requires FieldValue(data[read + kn..], key, fs, names, vs) == Success((vs', vn))
    ensures FieldsLeadTo(data, read + kn + vn, fs, names, vs', spec)
  {
  }

  /** A turn of decodeStruct's loop on the way to a successful result reads a key and its value. */
  lemma FieldsTurn(data: bytes, read: nat, fs: seq<Field>, names: map<bytes, nat>, vs: seq<GoValue>,
                   spec: Outcome<(seq<GoValue>, nat)>)
    requires FieldsLeadTo(data, read, fs, names, vs, spec) && spec.Success?
    requires read < |data| && data[read] != EndToken
    ensures DecodeString(data[read..]).Success?
    ensures FieldValue(data[read + DecodeString(data[read..]).value.1..], DecodeString(data[read..]).value.0,
                       fs, names, vs).Success?
  {
  }

  /** No key of `names` designates field `i`. */
  predicate Unreached(names: map<bytes, nat>, i: nat) {
    forall key :: key in names ==> names[key] != i
  }

  /** The value after one key leaves alone a field that no key designates. */
  lemma FieldValueKeeps(data: bytes, key: bytes, fs: seq<Field>, names: map<bytes, nat>, vs: seq<GoValue>, i: nat)
    requires FieldIndexes(names, fs) && |vs| == |fs| && i < |fs| && Unreached(names, i)
    requires FieldValue(data, key, fs, names, vs).Success?
    ensures FieldValue(data, key, fs, names, vs).value.0[i] == vs[i]
  {
  }

  /** The struct loop never writes a field that no key designates. */
  lemma {:induction false} UnreachedFieldKept(data: bytes, read: nat, fs: seq<Field>, names: map<bytes, nat>,
                                              vs: seq<GoValue>, spec: Outcome<(seq<GoValue>, nat)>, i: nat)
    requires FieldsLeadTo(data, read, fs, names, vs, spec) && spec.Success?
    requires i < |fs| && Unreached(names, i)
    ensures spec.value.0[i] == vs[i]
    decreases |data| - read
  {
    if read < |data| && data[read] != EndToken {
      FieldsTurn(data, read, fs, names, vs, spec);
      var (key, kn) := DecodeString(data[read..]).value;
      var (vs', vn) := FieldValue(data[read + kn..], key, fs, names, vs).value;
      FieldsStep(data, read, fs, names, vs, spec, key, kn, vs', vn);
      FieldValueKeeps(data[read + kn..], key, fs, names, vs, i);
      UnreachedFieldKept(data, read + kn + vn, fs, names, vs', spec, i);
    }
  }

  /**
   * decodeStruct never writes a field that a later field shadows by
   * resolving to the same wire name.
   */
  lemma ShadowedFieldKept(data: bytes, fs: seq<Field>, vs: seq<GoValue>, i: nat, j: nat)
    requires WellFormed(StructV(fs, vs))
    requires i < j < |fs| && NewTag(fs[j]).name == NewTag(fs[i]).name
    requires DecodeStruct(data, fs, vs).Success?
    ensures DecodeStruct(data, fs, vs).value.0[i] == vs[i]
  {
    var names := NameMapping(fs);
    forall key | key in names
      ensures names[key] != i
    {
      NameMappingLast(fs, key);
    }
    UnreachedFieldKept(data, 1, fs, names, vs, DecodeStruct(data, fs, vs), i);
  }

  /**
   * No flattening on decode: an embedded untagged field resolves to the
   * empty name, so only the key "" can reach it; the keys the encoder
   * writes for the embedded struct's own fields never do.
   */
  lemma EmbeddedFieldOnlyUnderEmptyKey(fs: seq<Field>, i: nat, key: bytes)
    requires i < |fs| && fs[i].anonymous && Lookup(fs[i].tags, StructTagKey) == []
    requires key in NameMapping(fs) && NameMapping(fs)[key] == i
    ensures key == []
  {
    NameMappingLast(fs, key);
  }

  /** The value after a key no field resolves to is skipped whole. */
  lemma UnknownKeyValue(data: bytes, key: bytes, fs: seq<Field>, names: map<bytes, nat>, vs: seq<GoValue>,
                        n: nat, raw: bytes)
    requires FieldIndexes(names, fs) && |vs| == |fs| && key !in names
    requires ReadNextValue(data) == Success((n, raw))
    ensures FieldValue(data, key, fs, names, vs) == Success((vs, n))
  {
  }

  /** The value after a key that resolves to a field is decoded into the field's zero value. */
  lemma KnownKeyValue(data: bytes, key: bytes, fs: seq<Field>, names: map<bytes, nat>, vs: seq<GoValue>,
                      v: GoValue, n: nat)
    requires FieldIndexes(names, fs) && |vs| == |fs| && key in names
    requires WellFormed(Zero(fs[names[key]].shape))
    requires Decode(data, Zero(fs[names[key]].shape)) == Success((v, n))
    ensures fs[names[key]].exported ==> FieldValue(data, key, fs, names, vs) == Success((vs[names[key] := v], n))
    ensures !fs[names[key]].exported ==> FieldValue(data, key, fs, names, vs) == Failure(Panic)
  {
  }

  /**
   * A key no field resolves to: readNextValue passes over its value
   * without error, the cursor moves past it, and no field changes.
   */
  lemma UnknownKeySkipped(data: bytes, read: nat, fs: seq<Field>, names: map<bytes, nat>, vs: seq<GoValue>,
                          spec: Outcome<(seq<GoValue>, nat)>, key: bytes, kn: nat, vn: nat, raw: bytes)
    requires FieldsLeadTo(data, read, fs, names, vs, spec) && read < |data| && data[read] != EndToken
    requires DecodeString(data[read..]) == Success((key, kn)) && key !in names
    requires ReadNextValue(data[read + kn..]) == Success((vn, raw))
    ensures FieldsLeadTo(data, read + kn + vn, fs, names, vs, spec)
  {
    UnknownKeyValue(data[read + kn..], key, fs, names, vs, vn, raw);
    FieldsStep(data, read, fs, names, vs, spec, key, kn, vs, vn);
  }

  /**
   * A key that resolves to a field: the value is decoded into the field's
   * zero value and stored in that field alone; when the field is not
   * exported, setting it is reflect's panic and the whole decode fails.
   */
  lemma KeySetsField(data: bytes, read: nat, fs: seq<Field>, names: map<bytes, nat>, vs: seq<GoValue>,
                     spec: Outcome<(seq<GoValue>, nat)>, key: bytes, kn: nat, v: GoValue, vn: nat)
    requires FieldsLeadTo(data, read, fs, names, vs, spec) && read < |data| && data[read] != EndToken
    requires DecodeString(data[read..]) == Success((key, kn)) && key in names
    requires WellFormed(Zero(fs[names[key]].shape))
    requires Decode(data[read + kn..], Zero(fs[names[key]].shape)) == Success((v, vn))
    ensures fs[names[key]].exported ==> FieldsLeadTo(data, read + kn + vn, fs, names, vs[names[key] := v], spec)
    ensures !fs[names[key]].exported ==> spec == Failure(Panic)
  {
    KnownKeyValue(data[read + kn..], key, fs, names, vs, v, vn);
    if fs[names[key]].exported {
      FieldsStep(data, read, fs, names, vs, spec, key, kn, vs[names[key] := v], vn);
    }
  }

  // ---------------------------------------------------------------------
  // Framing of lists, dictionaries and structs

  /** The item loop only stops just after an `e`. */
  lemma {:induction false} ItemsClosed(data: bytes, read: nat, e: Shape, acc: seq<GoValue>,
                                       spec: Outcome<(seq<GoValue>, nat)>)
    requires ItemsLeadTo(data, read, e, acc, spec) && spec.Success?
    ensures data[spec.value.1 - 1] == EndToken
    decreases |data| - read
  {
    if data[read] != EndToken {
      ZeroWellFormed(e);
      var (v, n) := Decode(data[read..], Zero(e)).value;
      assert ItemsLeadTo(data, read + n, e, acc + [v], spec);
      ItemsClosed(data, read + n, e, acc + [v], spec);
    }
  }

  /** The pair loop of decodeDict only stops just after an `e`. */
  lemma {:induction false} EntriesClosed(data: bytes, read: nat, e: Shape, acc: map<bytes, GoValue>,
                                         spec: Outcome<(map<bytes, GoValue>, nat)>)
    requires EntriesLeadTo(data, read, e, acc, spec) && spec.Success?
    ensures data[spec.value.1 - 1] == EndToken
    decreases |data| - read
  {
    if data[read] != EndToken {
      var (key, kn) := DecodeString(data[read..]).value;
      ZeroWellFormed(e);
      var (v, vn) := Decode(data[read + kn..], Zero(e)).value;
      DictKeepsLastValue(data, read, e, acc, spec, key, kn, v, vn);
      EntriesClosed(data, read + kn + vn, e, acc[key := v], spec);
    }
  }

  /** A successful key loop that has not met its `e` moves on to a later cursor. */
  lemma FieldsAdvance(data: bytes, read: nat, fs: seq<Field>, names: map<bytes, nat>, vs: seq<GoValue>,
                      spec: Outcome<(seq<GoValue>, nat)>)
    returns (next: nat, vs': seq<GoValue>)
    requires FieldsLeadTo(data, read, fs, names, vs, spec) && spec.Success?
    requires read < |data| && data[read] != EndToken
    ensures read < next && FieldsLeadTo(data, next, fs, names, vs', spec)
  {
    FieldsTurn(data, read, fs, names, vs, spec);
    var (key, kn) := DecodeString(data[read..]).value;
    var vn;
    vs', vn := FieldValue(data[read + kn..], key, fs, names, vs).value.0,
               FieldValue(data[read + kn..], key, fs, names, vs).value.1;
    FieldsStep(data, read, fs, names, vs, spec, key, kn, vs', vn);
    next := read + kn + vn;
  }

  /** The key loop of decodeStruct only stops just after an `e`. */
  lemma {:induction false} FieldsClosed(data: bytes, read: nat, fs: seq<Field>, names: map<bytes, nat>,
                                        vs: seq<GoValue>, spec: Outcome<(seq<GoValue>, nat)>)
    requires FieldsLeadTo(data, read, fs, names, vs, spec) && spec.Success?
    ensures data[spec.value.1 - 1] == EndToken
    decreases |data| - read
  {
    if data[read] != EndToken {
      var next, vs' := FieldsAdvance(data, read, fs, names, vs, spec);
      FieldsClosed(data, next, fs, names, vs', spec);
    }
  }

  /**
   * A list must open with `l` (ErrInvalidList otherwise), and what
   * decodeList consumes runs from that `l` to the `e` that closes it.
   */
  lemma ListFramed(data: bytes, e: Shape)
    ensures |data| > 0 && data[0] != ListToken ==> DecodeList(data, e) == Failure(InvalidList)
    ensures DecodeList(data, e).Success? ==>
      data[0] == ListToken && data[DecodeList(data, e).value.1 - 1] == EndToken
  {
    if DecodeList(data, e).Success? {
      ItemsClosed(data, 1, e, [], DecodeList(data, e));
    }
  }

  /**
   * A dictionary must open with `d` (ErrInvalidDict otherwise) and be
   * decoded into a map with string keys (ErrNonStringKey otherwise), and
   * what decodeDict consumes runs from that `d` to the `e` that closes it.
   */
  lemma DictFramed(data: bytes, k: Shape, e: Shape)
    ensures |data| > 0 && data[0] != DictToken ==> DecodeDict(data, k, e) == Failure(InvalidDict)
    ensures |data| > 0 && data[0] == DictToken && k != StringS ==> DecodeDict(data, k, e) == Failure(NonStringKey)
    ensures DecodeDict(data, k, e).Success? ==>
      data[0] == DictToken && data[DecodeDict(data, k, e).value.1 - 1] == EndToken
  {
    if DecodeDict(data, k, e).Success? {
      EntriesClosed(data, 1, e, map[], DecodeDict(data, k, e));
    }
  }

  /**
   * A struct must be given a dictionary (ErrInvalidStruct otherwise), and
   * what decodeStruct consumes runs from its `d` to the `e` that closes it.
   */
  lemma StructFramed(data: bytes, fs: seq<Field>, vs: seq<GoValue>)
    requires WellFormed(StructV(fs, vs))
    ensures |data| > 0 && data[0] != DictToken ==> DecodeStruct(data, fs, vs) == Failure(InvalidStruct)
    ensures DecodeStruct(data, fs, vs).Success? ==>
      data[0] == DictToken && data[DecodeStruct(data, fs, vs).value.1 - 1] == EndToken
  {
    if DecodeStruct(data, fs, vs).Success? {
      FieldsClosed(data, 1, fs, NameMapping(fs), vs, DecodeStruct(data, fs, vs));
    }
  }

  // ---------------------------------------------------------------------
  // Unmarshal

  /**
   * Unmarshal into a pointer to an int64 gives back the encoded integer,
   * and refuses any bytes after it with ErrRemainingData.
   */
  lemma UnmarshalInt(i: int, x: int, rest: bytes)
    requires InInt64(i) && InInt64(x)
    ensures rest == [] ==> Unmarshal(EncodeInt(i), Pointer(IntV(W64, x))) == Success(IntV(W64, i))
    ensures rest != [] ==> Unmarshal(EncodeInt(i) + rest, Pointer(IntV(W64, x))) == Failure(RemainingData)
  {
    IntIntoWidth(i, W64, x, rest);
    assert EncodeInt(i) + [] == EncodeInt(i);
  }

  /**
   * Unmarshal of an empty dictionary into a pointer to a struct leaves
   * every field as it was, and any other first byte is ErrInvalidStruct.
   */
  lemma UnmarshalEmptyStruct(fs: seq<Field>, vs: seq<GoValue>, b: byte, rest: bytes)
    requires WellFormed(StructV(fs, vs))
    ensures Unmarshal([DictToken, EndToken], Pointer(StructV(fs, vs))) == Success(StructV(fs, vs))
    ensures b != DictToken ==> Unmarshal([b] + rest, Pointer(StructV(fs, vs))) == Failure(InvalidStruct)
  {
    StructTarget([DictToken, EndToken], fs, vs);
    StructTarget([b] + rest, fs, vs);
    StructFramed([b] + rest, fs, vs);
  }
}
