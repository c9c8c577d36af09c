/**
 * What decode.go computes, as functions. Each function mirrors one Go
 * routine, with the routine's cursor `read` as a parameter of a recursion
 * where the Go code has a loop. The methods of module Decoder run those
 * loops and are proved equal to these functions.
 *
 * A routine's result is the decoded value together with the number of
 * bytes consumed. Writes through the target pointer are modelled by
 * returning the new content of the location the pointer designates.
 */
module DecodeSpec {
  import opened Wrappers
  import opened Constants
  import opened Strconv
  import opened Values
  import opened Tags

  /**
   * The errors the decode routines below Unmarshal's checks can report:
   * the target checks, the trailing-data check and ErrInvalidToken (which
   * nothing reports) are not among them.
   */
  predicate InnerError(e: Err) {
    !(e.InvalidToken? || e.InvalidValue? || e.NonPointer? || e.RemainingData?)
  }

  /**
   * The digit loop of decodeString and decodeIntStr: from `read`, digits
   * up to the first `stop`, whose index is returned. Another byte fails
   * with `err`; running off the end of the data is Go's index panic.
   */
  function ScanDigits(data: bytes, read: nat, stop: byte, err: Err): (r: Outcome<nat>)
    requires read <= |data|
    requires !IsDigit(stop)
    ensures r.Success? ==> read <= r.value < |data| && data[r.value] == stop
    ensures r.Success? ==> AllDigits(data[read..r.value])
    ensures r.Failure? ==> r.error == err || r.error == Panic
    decreases |data| - read
  {
    if read >= |data| then Failure(Panic)
    else if data[read] == stop then Success(read)
    else if IsDigit(data[read]) then
      var stopAt :- ScanDigits(data, read + 1, stop, err);
      assert data[read..stopAt] == [data[read]] + data[read + 1..stopAt];
      Success(stopAt)
    else Failure(err)
  }

  /**
   * decodeIntStr: the text between `i` and `e`, and the number of bytes
   * up to and including the `e`.
   */
  function DecodeIntStr(data: bytes): (r: Outcome<(bytes, nat)>)
    ensures r.Failure? ==> InnerError(r.error)
    ensures r.Success? ==> 3 <= r.value.1 <= |data|
    ensures r.Success? ==> r.value.0 == data[1..r.value.1 - 1]
    ensures r.Success? ==> data[0] == IntToken && data[r.value.1 - 1] == EndToken
  {
    if |data| == 0 then Failure(EmptyData)
    else if data[0] != IntToken then Failure(InvalidInteger)
    else if |data| == 1 then Failure(Panic)
    else
      var start := if data[1] == Minus then 2 else 1;
      var stop :- ScanDigits(data, start, EndToken, InvalidInteger);
      var value := data[1..stop];
      if |value| == 0 then Failure(EmptyData)
      else if |value| > 1 && value[0] == ZeroDigit then Failure(LeadingZero)
      else if value == [Minus, ZeroDigit] then Failure(InvalidInteger)
      else Success((value, stop + 1))
  }

  /** decodeInt: an integer token read as an int64. */
  function DecodeInt(data: bytes): (r: Outcome<(int, nat)>)
    ensures r.Failure? ==> InnerError(r.error)
    ensures r.Success? ==> 3 <= r.value.1 <= |data| && InInt64(r.value.0)
  {
    var (text, n) :- DecodeIntStr(data);
    var i :- ParseInt64(text);
    Success((i, n))
  }

  /** decodeUint: an integer token read as a uint64. */
  function DecodeUint(data: bytes): (r: Outcome<(nat, nat)>)
    ensures r.Failure? ==> InnerError(r.error)
    ensures r.Success? ==> 3 <= r.value.1 <= |data| && r.value.0 <= MaxUint64
  {
    var (text, n) :- DecodeIntStr(data);
    var u :- ParseUint64(text);
    Success((u, n))
  }

  /**
   * decodeString: a length, a colon and that many bytes. The length
   * digits are read by strconv.Atoi, which refuses a value above
   * MaxInt64. The end `read + l` is a Go int and wraps when it passes
   * MaxInt64; the wrapped end is negative, so it passes the length check
   * and then fails the slice expression (StringEndWraps).
   */
  function DecodeString(data: bytes): (r: Outcome<(bytes, nat)>)
    ensures r.Failure? ==> InnerError(r.error)
    ensures r.Success? ==> 2 + |r.value.0| <= r.value.1 <= |data|
    ensures r.Success? ==> r.value.0 == data[r.value.1 - |r.value.0|..r.value.1]
  {
    if |data| == 0 then Failure(EmptyData)
    else
      var colon :- ScanDigits(data, 0, StringSeparatorToken, InvalidString);
      var length := data[..colon];
      var read := colon + 1;
      if |length| == 0 then Failure(EmptyData)
      else if |length| > 1 && length[0] == ZeroDigit then Failure(LeadingZero)
      else
        var l := DecimalValue(length);
        if l > MaxInt64 then Failure(NumRange)
        else if read + l > MaxInt64 then Failure(Panic)
        else if read + l > |data| then Failure(LengthTooBig)
        else Success((data[read..read + l], read + l))
  }

  /**
   * The end of a string whose length digits Atoi accepted, as the 64-bit
   * sum computes it: past MaxInt64 it is negative, hence below `read`.
   */
  lemma StringEndWraps(read: nat, l: nat)
    requires read <= MaxInt64 && l <= MaxInt64
    ensures read + l <= MaxInt64 ==> TruncSigned(Word, read + l) == read + l
    ensures read + l > MaxInt64 ==> TruncSigned(Word, read + l) < 0
  {
  }

  /**
   * decode: `t` is the value the target pointer designates. A value of a
   * type with an UnmarshalBEncode hook is handed the next raw value;
   * anything else is decoded by reflection.
   */
  function Decode(data: bytes, t: GoValue): (r: Outcome<(GoValue, nat)>)
    requires WellFormed(t)
    ensures r.Failure? ==> InnerError(r.error)
    ensures r.Success? ==> 0 < r.value.1 <= |data|
    ensures r.Success? ==> TypeOf(r.value.0) == TypeOf(t) && WellFormed(r.value.0)
    decreases |data|, 5, t
  {
    if |data| == 0 then Failure(EmptyData)
    else if t.CustomV? then
      var (n, raw) :- ReadNextValue(data);
      if t.accepts then Success((CustomV(t.accepts, raw), n)) else Failure(HookFailed)
    else DecodeValue(data, t, true)
  }

  /**
   * The reflective part of decode, on the value valueOfTarget reaches.
   * valueOfTarget follows non-nil pointers and interfaces; a value it can
   * not set fails. `direct` is false once it has followed one.
   */
  function DecodeValue(data: bytes, t: GoValue, direct: bool): (r: Outcome<(GoValue, nat)>)
    requires |data| > 0 && WellFormed(t)
    ensures r.Failure? ==> InnerError(r.error)
    ensures r.Success? ==> 0 < r.value.1 <= |data|
    ensures r.Success? ==> TypeOf(r.value.0) == TypeOf(t) && WellFormed(r.value.0)
    ensures t.PtrV? && t.target.None? ==> r == Failure(CanNotSet)
    ensures t.IfaceV? && !(t.dyn.Some? && t.dyn.value.PtrV? && t.dyn.value.target.Some?) ==> r == Failure(CanNotSet)
    decreases |data|, 4, t
  {
    match t
    case PtrV(e, target) =>
      if target.None? then Failure(CanNotSet)
      else
        var (v, n) :- DecodeValue(data, target.value, false);
        Success((PtrV(e, Some(v)), n))
    case IfaceV(d) =>
      if d.Some? && d.value.PtrV? && d.value.target.Some? then
        var p := d.value;
        assert WellFormed(p) && WellFormed(p.target.value);
        var (v, n) :- DecodeValue(data, p.target.value, false);
        Success((IfaceV(Some(PtrV(p.elem, Some(v)))), n))
      else Failure(CanNotSet)
    case _ => DecodeKind(data, t, direct)
  }

  /**
   * The switch on the kind of the reached value. The string case asserts
   * the target to be a *string, which panics when `direct` is false.
   */
  function DecodeKind(data: bytes, t: GoValue, direct: bool): (r: Outcome<(GoValue, nat)>)
    requires |data| > 0 && WellFormed(t)
    ensures r.Failure? ==> InnerError(r.error)
    ensures r.Success? ==> 0 < r.value.1 <= |data|
    ensures r.Success? ==> TypeOf(r.value.0) == TypeOf(t) && WellFormed(r.value.0)
    decreases |data|, 3
  {
    match t
    case SliceV(e, _, _) =>
      if e == UintS(W8) then
        var (s, n) :- DecodeString(data);
        Success((SliceV(e, false, ByteItems(s)), n))
      else
        var (items, n) :- DecodeList(data, e);
        Success((SliceV(e, false, items), n))
    case MapV(k, e, _, _) =>
      var (m, n) :- DecodeDict(data, k, e);
      Success((MapV(k, e, false, m), n))
    case StructV(fs, vs) =>
      var (vs', n) :- DecodeStruct(data, fs, vs);
      Success((StructV(fs, vs'), n))
    case _ => DecodeScalar(data, t, direct)
  }

  /** The cases of decode's kind switch that hold no other value. */
  function DecodeScalar(data: bytes, t: GoValue, direct: bool): (r: Outcome<(GoValue, nat)>)
    requires |data| > 0 && WellFormed(t)
    ensures r.Failure? ==> InnerError(r.error)
    ensures r.Success? ==> 0 < r.value.1 <= |data|
    ensures r.Success? ==> TypeOf(r.value.0) == TypeOf(t) && WellFormed(r.value.0)
    ensures !(t.BoolV? || t.IntV? || t.UintV? || t.StringV?) ==> r == Failure(InvalidType)
  {
    match t
    case BoolV(_) =>
      var (i, n) :- DecodeInt(data);
      if i > 1 then Failure(InvalidBool) else Success((BoolV(i == 1), n))
    case IntV(w, _) =>
      var (i, n) :- DecodeInt(data);
      Success((IntV(w, TruncSigned(w, i)), n))
    case UintV(w, _) =>
      var (u, n) :- DecodeUint(data);
      Success((UintV(w, TruncUnsigned(w, u)), n))
    case StringV(_) =>
      if !direct then Failure(Panic)
      else
        var (s, n) :- DecodeString(data);
        Success((StringV(s), n))
    case _ => Failure(InvalidType)
  }

  /** Every item of a decoded list is a well-formed value of the element type. */
  predicate TypedItems(s: seq<GoValue>, e: Shape) {
    forall i :: 0 <= i < |s| ==> TypeOf(s[i]) == e && WellFormed(s[i])
  }

  /** decodeList: a fresh slice of the decoded items, in order. */
  function DecodeList(data: bytes, e: Shape): (r: Outcome<(seq<GoValue>, nat)>)
    ensures r.Failure? ==> InnerError(r.error)
    ensures r.Success? ==> 2 <= r.value.1 <= |data|
    ensures r.Success? ==> TypedItems(r.value.0, e)
    decreases |data|, 2
  {
    if |data| == 0 then Failure(EmptyData)
    else if data[0] != ListToken then Failure(InvalidList)
    else DecodeItems(data, 1, e, [])
  }

  /** The loop of decodeList from `read`, with the items decoded so far. */
  function DecodeItems(data: bytes, read: nat, e: Shape, acc: seq<GoValue>): (r: Outcome<(seq<GoValue>, nat)>)
    requires 1 <= read <= |data|
    ensures r.Failure? ==> InnerError(r.error)
    ensures r.Success? ==> read < r.value.1 <= |data|
    ensures r.Success? && TypedItems(acc, e) ==> TypedItems(r.value.0, e)
    decreases |data| - read, 6
  {
    if read >= |data| then Failure(Panic)
    else if data[read] == EndToken then Success((acc, read + 1))
    else
      ZeroWellFormed(e);
      var (v, n) :- Decode(data[read..], Zero(e));
      DecodeItems(data, read + n, e, acc + [v])
  }

  /** Every value of a decoded dictionary is a well-formed value of the element type. */
  predicate TypedEntries(m: map<bytes, GoValue>, e: Shape) {
    forall key :: key in m ==> TypeOf(m[key]) == e && WellFormed(m[key])
  }

  /** decodeDict: a fresh map of the decoded entries; a repeated key keeps its last value. */
  function DecodeDict(data: bytes, k: Shape, e: Shape): (r: Outcome<(map<bytes, GoValue>, nat)>)
    ensures r.Failure? ==> InnerError(r.error)
    ensures r.Success? ==> 2 <= r.value.1 <= |data|
    ensures r.Success? ==> TypedEntries(r.value.0, e)
    decreases |data|, 2
  {
    if |data| == 0 then Failure(EmptyData)
    else if data[0] != DictToken then Failure(InvalidDict)
    else if k != StringS then Failure(NonStringKey)
    else DecodeEntries(data, 1, e, map[])
  }

  /** The loop of decodeDict from `read`, with the entries decoded so far. */
  function DecodeEntries(data: bytes, read: nat, e: Shape, acc: map<bytes, GoValue>)
    : (r: Outcome<(map<bytes, GoValue>, nat)>)
    requires 1 <= read <= |data|
    ensures r.Failure? ==> InnerError(r.error)
    ensures r.Success? ==> read < r.value.1 <= |data|
    ensures r.Success? && TypedEntries(acc, e) ==> TypedEntries(r.value.0, e)
    decreases |data| - read, 6
  {
    if read >= |data| then Failure(Panic)
    else if data[read] == EndToken then Success((acc, read + 1))
    else
      var (key, kn) :- DecodeString(data[read..]);
      ZeroWellFormed(e);
      var (v, vn) :- Decode(data[read + kn..], Zero(e));
      TypedEntriesStore(acc, e, key, v);
      DecodeEntries(data, read + kn + vn, e, acc[key := v])
  }

  lemma TypedEntriesStore(m: map<bytes, GoValue>, e: Shape, key: bytes, v: GoValue)
    requires TypeOf(v) == e && WellFormed(v)
    ensures TypedEntries(m, e) ==> TypedEntries(m[key := v], e)
  {
  }

  /**
   * The nameMapping of decodeStruct: each resolved wire name to the index
   * of the last field that resolves to it. Every field takes part, the
   * skipped ones included.
   */
  function NameMapping(fs: seq<Field>): (m: map<bytes, nat>)
    ensures FieldIndexes(m, fs)
  {
    if fs == [] then map[]
    else NameMapping(fs[..|fs| - 1])[NewTag(fs[|fs| - 1]).name := |fs| - 1]
  }

  /** Every wire name maps to the index of a field. */
  predicate FieldIndexes(names: map<bytes, nat>, fs: seq<Field>) {
    forall key :: key in names ==> names[key] < |fs|
  }

  /** decodeStruct: the fields named in the data are replaced, the others kept. */
  function DecodeStruct(data: bytes, fs: seq<Field>, vs: seq<GoValue>): (r: Outcome<(seq<GoValue>, nat)>)
    requires WellFormed(StructV(fs, vs))
    ensures r.Failure? ==> InnerError(r.error)
    ensures r.Success? ==> 2 <= r.value.1 <= |data|
    ensures r.Success? ==> WellFormed(StructV(fs, r.value.0))
    decreases |data|, 2
  {
    if |data| == 0 then Failure(EmptyData)
    else if data[0] != DictToken then Failure(InvalidStruct)
    else DecodeFields(data, 1, fs, NameMapping(fs), vs)
  }

  /**
   * The loop of decodeStruct from `read`, with the field values so far.
   */
  function DecodeFields(data: bytes, read: nat, fs: seq<Field>, names: map<bytes, nat>, vs: seq<GoValue>)
    : (r: Outcome<(seq<GoValue>, nat)>)
    requires 1 <= read <= |data|
    requires FieldIndexes(names, fs)
    requires |vs| == |fs|
    ensures r.Failure? ==> InnerError(r.error)
    ensures r.Success? ==> read < r.value.1 <= |data| && |r.value.0| == |fs|
    ensures r.Success? && WellFormed(StructV(fs, vs)) ==> WellFormed(StructV(fs, r.value.0))
    decreases |data| - read, 6
  {
    if read >= |data| then Failure(Panic)
    else if data[read] == EndToken then Success((vs, read + 1))
    else
      var (key, kn) :- DecodeString(data[read..]);
      var (vs', vn) :- FieldValue(data[read + kn..], key, fs, names, vs);
      DecodeFields(data, read + kn + vn, fs, names, vs')
  }

  /**
   * The value after a struct key: skipped when no field resolves to the
   * key, otherwise set into the field the key names.
   */
  function FieldValue(data: bytes, key: bytes, fs: seq<Field>, names: map<bytes, nat>, vs: seq<GoValue>)
    : (r: Outcome<(seq<GoValue>, nat)>)
    requires FieldIndexes(names, fs)
    requires |vs| == |fs|
    ensures r.Failure? ==> InnerError(r.error)
    ensures r.Success? ==> 0 < r.value.1 <= |data| && |r.value.0| == |fs|
    ensures r.Success? && WellFormed(StructV(fs, vs)) ==> WellFormed(StructV(fs, r.value.0))
    decreases |data|, 7
  {
    if key !in names then
      var (n, _) :- ReadNextValue(data);
      Success((vs, n))
    else
      SetField(data, fs, names[key], vs)
  }

  /** The value of field `num` decoded from the start of `data` and set; reflect panics on an unexported field. */
  function SetField(data: bytes, fs: seq<Field>, num: nat, vs: seq<GoValue>): (r: Outcome<(seq<GoValue>, nat)>)
    requires num < |fs| && |vs| == |fs|
    ensures r.Failure? ==> InnerError(r.error)
    ensures r.Success? ==> 0 < r.value.1 <= |data| && |r.value.0| == |fs|
    ensures r.Success? && WellFormed(StructV(fs, vs)) ==> WellFormed(StructV(fs, r.value.0))
    decreases |data|, 6
  {
    ZeroWellFormed(fs[num].shape);
    var (v, n) :- Decode(data, Zero(fs[num].shape));
    if !fs[num].exported then Failure(Panic)
    else Success((vs[num := v], n))
  }

  /**
   * readNextValue: the length and bytes of the next complete value,
   * checked only as far as its delimiters. Integers are read as int64.
   */
  function ReadNextValue(data: bytes): (r: Outcome<(nat, bytes)>)
    ensures r.Failure? ==> InnerError(r.error)
    ensures r.Success? ==> 0 < r.value.0 <= |data| && r.value.1 == data[..r.value.0]
    decreases |data|, 1
  {
    if |data| == 0 then Failure(EmptyData)
    else if data[0] == IntToken then
      var (_, n) :- DecodeInt(data);
      Success((n, data[..n]))
    else if data[0] == ListToken || data[0] == DictToken then
      var n :- SkipItems(data, 1);
      Success((n, data[..n]))
    else
      var (_, n) :- DecodeString(data);
      Success((n, data[..n]))
  }

  /** The loop of readNextValue over a list or dictionary body from `read`. */
  function SkipItems(data: bytes, read: nat): (r: Outcome<nat>)
    requires 1 <= read <= |data|
    ensures r.Failure? ==> InnerError(r.error)
    ensures r.Success? ==> read < r.value <= |data| && data[r.value - 1] == EndToken
    decreases |data| - read, 2
  {
    if read >= |data| then Failure(Panic)
    else if data[read] == EndToken then Success(read + 1)
    else
      var (n, _) :- ReadNextValue(data[read..]);
      SkipItems(data, read + n)
  }

  /*
   * The loops of decodeList, decodeDict, decodeStruct and readNextValue,
   * seen from their start: `spec` is the result the loop gives from its
   * start, and each predicate says that finishing the loop from cursor
   * `read` with what has been collected so far gives that same result.
   * The iterative decoder keeps them as loop invariants; the laws step
   * through concrete inputs with them.
   */

  ghost predicate ItemsLeadTo(data: bytes, read: nat, e: Shape, res: seq<GoValue>, spec: Outcome<(seq<GoValue>, nat)>) {
    1 <= read <= |data| && DecodeItems(data, read, e, res) == spec
  }

  ghost predicate EntriesLeadTo(data: bytes, read: nat, e: Shape, res: map<bytes, GoValue>,
                                spec: Outcome<(map<bytes, GoValue>, nat)>) {
    1 <= read <= |data| && DecodeEntries(data, read, e, res) == spec
  }

  ghost predicate FieldsLeadTo(data: bytes, read: nat, fs: seq<Field>, names: map<bytes, nat>, vs: seq<GoValue>,
                               spec: Outcome<(seq<GoValue>, nat)>) {
    && 1 <= read <= |data|
    && FieldIndexes(names, fs)
    && |vs| == |fs|
    && DecodeFields(data, read, fs, names, vs) == spec
  }

  ghost predicate SkipLeadsTo(data: bytes, read: nat, spec: Outcome<nat>) {
    1 <= read <= |data| && SkipItems(data, read) == spec
  }

  /**
   * What Unmarshal is handed as its target: a nil interface, a value that
   * is not a pointer (and has no hook), a nil pointer (to a type without
   * a hook), or a pointer to a location holding `loc`.
   */
  datatype Target = NilTarget | NonPointerTarget | NilPointer | Pointer(loc: GoValue)

  /** decode with its target check: the new content of the location and the bytes consumed. */
  function DecodeTarget(data: bytes, target: Target): (r: Outcome<(GoValue, nat)>)
    requires target.Pointer? ==> WellFormed(target.loc)
    ensures r.Success? ==> target.Pointer? && 0 < r.value.1 <= |data|
    ensures r.Success? ==> TypeOf(r.value.0) == TypeOf(target.loc) && WellFormed(r.value.0)
    ensures r.Failure? ==> !r.error.InvalidToken? && !r.error.RemainingData?
    ensures r == Failure(InvalidValue) <==> |data| > 0 && target.NilTarget?
    ensures r == Failure(NonPointer) <==> |data| > 0 && target.NonPointerTarget?
  {
    if |data| == 0 then Failure(EmptyData)
    else
      match target
      case NilTarget => Failure(InvalidValue)
      case NonPointerTarget => Failure(NonPointer)
      case NilPointer => Failure(CanNotSet)
      case Pointer(loc) => Decode(data, loc)
  }

  /** Unmarshal: decode, then insist that all the data was consumed. */
  function Unmarshal(data: bytes, target: Target): (r: Outcome<GoValue>)
    requires target.Pointer? ==> WellFormed(target.loc)
    ensures r.Success? ==> target.Pointer? && TypeOf(r.value) == TypeOf(target.loc) && WellFormed(r.value)
    ensures r.Success? <==> DecodeTarget(data, target).Success? && DecodeTarget(data, target).value.1 == |data|
    ensures r.Failure? ==> !r.error.InvalidToken?
    ensures r == Failure(RemainingData) <==> DecodeTarget(data, target).Success? && DecodeTarget(data, target).value.1 < |data|
  {
    var (v, n) :- DecodeTarget(data, target);
    if n != |data| then Failure(RemainingData) else Success(v)
  }
}
