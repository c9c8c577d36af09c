/**
 * The decoder of decode.go as the Go code runs it: each routine keeps a
 * cursor `read` into the data and loops until its end token. Every method
 * returns what the Go routine returns (bytes consumed and the decoded
 * value, or the error) and is proved equal to its counterpart in module
 * DecodeSpec. The routines without a loop (decodeInt, decode, the kind
 * switch, decodeList, decodeDict, decodeStruct, readNextValue, ...) repeat
 * their DecodeSpec function step for step; they are here only so that the
 * verified loops call one another as the Go routines do.
 */
module Decoder {
  import opened Wrappers
  import opened Constants
  import opened Strconv
  import opened Values
  import opened Tags
  import DecodeSpec

  /*
   * Each loop below keeps a ghost `spec`: the result the specification
   * gives from the loop's start. Its invariant (DecodeSpec.ItemsLeadTo and
   * its siblings) says that finishing the loop from the current state gives
   * that same result, and each turn of the loop is a separate method (a
   * ...Step) that keeps the invariant.
   */

  /** decodeString: read the length digits up to the colon, then slice out the string. */
  method DecodeString(data: bytes) returns (r: Outcome<(bytes, nat)>)
    ensures r == DecodeSpec.DecodeString(data)
  {
    if |data| == 0 {
      return Failure(EmptyData);
    }
    var read: nat := 0;
    var length: bytes := [];
    while read < |data| && data[read] != StringSeparatorToken
      invariant read <= |data|
      invariant length == data[..read]
      invariant DecodeSpec.ScanDigits(data, read, StringSeparatorToken, InvalidString)
             == DecodeSpec.ScanDigits(data, 0, StringSeparatorToken, InvalidString)
      decreases |data| - read
    {
      if !IsDigit(data[read]) {
        return Failure(InvalidString);
      }
      length := length + [data[read]];
      read := read + 1;
    }
    if read == |data| {
      // data[read] is out of range
      return Failure(Panic);
    }
    read := read + 1;
    if |length| == 0 {
      return Failure(EmptyData);
    }
    if |length| > 1 && length[0] == ZeroDigit {
      return Failure(LeadingZero);
    }
    var l :- Atoi(length);
    // read + l is a sum of two non-negative Go ints: it wraps at most once
    var end := read + l;
    if end > MaxInt64 {
      end := end - 0x1_0000_0000_0000_0000;
    }
    if end > |data| {
      return Failure(LengthTooBig);
    }
    if end < read {
      // the slice data[read:end] has its bounds reversed
      return Failure(Panic);
    }
    return Success((data[read..end], end));
  }

  /** decodeIntStr: read an optional minus and the digits between `i` and `e`. */
  method DecodeIntStr(data: bytes) returns (r: Outcome<(bytes, nat)>)
    ensures r == DecodeSpec.DecodeIntStr(data)
  {
    if |data| == 0 {
      return Failure(EmptyData);
    }
    if data[0] != IntToken {
      return Failure(InvalidInteger);
    }
    if |data| == 1 {
      return Failure(Panic);
    }
    var read := 1;
    var value: bytes := [];
    if data[read] == Minus {
      value := value + [data[read]];
      read := read + 1;
    }
    ghost var start := read;
    while read < |data| && data[read] != EndToken
      invariant start <= read <= |data|
      invariant value == data[1..read]
      invariant DecodeSpec.ScanDigits(data, read, EndToken, InvalidInteger)
             == DecodeSpec.ScanDigits(data, start, EndToken, InvalidInteger)
      decreases |data| - read
    {
      if !IsDigit(data[read]) {
        return Failure(InvalidInteger);
      }
      value := value + [data[read]];
      read := read + 1;
    }
    if read == |data| {
      return Failure(Panic);
    }
    read := read + 1;
    if |value| == 0 {
      return Failure(EmptyData);
    }
    if |value| > 1 && value[0] == ZeroDigit {
      return Failure(LeadingZero);
    }
    if value == [Minus, ZeroDigit] {
      return Failure(InvalidInteger);
    }
    return Success((value, read));
  }

  /** decodeInt */
  method DecodeInt(data: bytes) returns (r: Outcome<(int, nat)>)
    ensures r == DecodeSpec.DecodeInt(data)
  {
    var text :- DecodeIntStr(data);
    var i :- ParseInt64(text.0);
    return Success((i, text.1));
  }

  /** decodeUint */
  method DecodeUint(data: bytes) returns (r: Outcome<(nat, nat)>)
    ensures r == DecodeSpec.DecodeUint(data)
  {
    var text :- DecodeIntStr(data);
    var u :- ParseUint64(text.0);
    return Success((u, text.1));
  }

  /** decode: the hook for a type that has one, reflection for the rest. */
  method Decode(data: bytes, t: GoValue) returns (r: Outcome<(GoValue, nat)>)
    requires WellFormed(t)
    ensures r == DecodeSpec.Decode(data, t)
    decreases |data|, 5, t
  {
    if |data| == 0 {
      return Failure(EmptyData);
    }
    if t.CustomV? {
      var next :- ReadNextValue(data);
      if !t.accepts {
        return Failure(HookFailed);
      }
      return Success((CustomV(t.accepts, next.1), next.0));
    }
    r := DecodeValue(data, t, true);
  }

  /** valueOfTarget's dereference: follow non-nil pointers and interfaces to a settable value. */
  method DecodeValue(data: bytes, t: GoValue, direct: bool) returns (r: Outcome<(GoValue, nat)>)
    requires |data| > 0 && WellFormed(t)
    ensures r == DecodeSpec.DecodeValue(data, t, direct)
    decreases |data|, 4, t
  {
    match t
    case PtrV(e, target) =>
      if target.None? {
        return Failure(CanNotSet);
      }
      var inner :- DecodeValue(data, target.value, false);
      return Success((PtrV(e, Some(inner.0)), inner.1));
    case IfaceV(d) =>
      if !(d.Some? && d.value.PtrV? && d.value.target.Some?) {
        return Failure(CanNotSet);
      }
      var p := d.value;
      assert WellFormed(p) && WellFormed(p.target.value);
      var inner :- DecodeValue(data, p.target.value, false);
      return Success((IfaceV(Some(PtrV(p.elem, Some(inner.0)))), inner.1));
    case _ =>
      r := DecodeKind(data, t, direct);
  }

  /** decode's switch on the kind of the reached value. */
  method DecodeKind(data: bytes, t: GoValue, direct: bool) returns (r: Outcome<(GoValue, nat)>)
    requires |data| > 0 && WellFormed(t)
    ensures r == DecodeSpec.DecodeKind(data, t, direct)
    decreases |data|, 3
  {
    match t
    case BoolV(_) =>
      var tmp :- DecodeInt(data);
      if tmp.0 > 1 {
        return Failure(InvalidBool);
      }
      return Success((BoolV(tmp.0 == 1), tmp.1));
    case IntV(w, _) =>
      var tmp :- DecodeInt(data);
      return Success((IntV(w, TruncSigned(w, tmp.0)), tmp.1));
    case UintV(w, _) =>
      var tmp :- DecodeUint(data);
      return Success((UintV(w, TruncUnsigned(w, tmp.0)), tmp.1));
    case StringV(_) =>
      if !direct {
        // target.(*string) fails on a pointer to a pointer
        return Failure(Panic);
      }
      var tmp :- DecodeString(data);
      return Success((StringV(tmp.0), tmp.1));
    case SliceV(e, _, _) =>
      if e == UintS(W8) {
        var tmp :- DecodeString(data);
        return Success((SliceV(e, false, ByteItems(tmp.0)), tmp.1));
      }
      var res :- DecodeList(data, e);
      return Success((SliceV(e, false, res.0), res.1));
    case MapV(k, e, _, _) =>
      var res :- DecodeDict(data, k, e);
      return Success((MapV(k, e, false, res.0), res.1));
    case StructV(fs, vs) =>
      var res :- DecodeStruct(data, fs, vs);
      return Success((StructV(fs, res.0), res.1));
    case _ =>
      return Failure(InvalidType);
  }

  /** decodeList: decode items into a fresh slice until the end token. */
  method DecodeList(data: bytes, e: Shape) returns (r: Outcome<(seq<GoValue>, nat)>)
    ensures r == DecodeSpec.DecodeList(data, e)
    decreases |data|, 2
  {
    if |data| == 0 {
      return Failure(EmptyData);
    }
    if data[0] != ListToken {
      return Failure(InvalidList);
    }
    r := DecodeItems(data, e);
  }

  /** The loop of decodeList, from just after the list token. */
  method DecodeItems(data: bytes, e: Shape) returns (r: Outcome<(seq<GoValue>, nat)>)
    requires |data| > 0
    ensures r == DecodeSpec.DecodeItems(data, 1, e, [])
    decreases |data|, 1
  {
    var read := 1;
    var res: seq<GoValue> := [];
    ghost var spec := DecodeSpec.DecodeItems(data, read, e, res);
    while read < |data| && data[read] != EndToken
      invariant DecodeSpec.ItemsLeadTo(data, read, e, res, spec)
      decreases |data| - read
    {
      var step := ItemsStep(data, read, e, res, spec);
      if step.Failure? {
        return Failure(step.error);
      }
      read, res := step.value.0, step.value.1;
    }
    if read == |data| {
      return Failure(Panic);
    }
    return Success((res, read + 1));
  }

  /** One turn of decodeList's loop: decode an item into a zero value and append it. */
  method ItemsStep(data: bytes, read: nat, e: Shape, res: seq<GoValue>, ghost spec: Outcome<(seq<GoValue>, nat)>)
    returns (r: Outcome<(nat, seq<GoValue>)>)
    requires DecodeSpec.ItemsLeadTo(data, read, e, res, spec)
    requires read < |data| && data[read] != EndToken
    ensures r.Failure? ==> spec == Failure(r.error)
    ensures r.Success? ==> read < r.value.0 && DecodeSpec.ItemsLeadTo(data, r.value.0, e, r.value.1, spec)
    decreases |data| - read, 6
  {
    ZeroWellFormed(e);
    var v :- Decode(data[read..], Zero(e));
    return Success((read + v.1, res + [v.0]));
  }

  /** decodeDict: decode key/value pairs into a fresh map until the end token. */
  method DecodeDict(data: bytes, k: Shape, e: Shape) returns (r: Outcome<(map<bytes, GoValue>, nat)>)
    ensures r == DecodeSpec.DecodeDict(data, k, e)
    decreases |data|, 2
  {
    if |data| == 0 {
      return Failure(EmptyData);
    }
    if data[0] != DictToken {
      return Failure(InvalidDict);
    }
    if k != StringS {
      return Failure(NonStringKey);
    }
    r := DecodeEntries(data, e);
  }

  /** The loop of decodeDict, from just after the dictionary token. */
  method DecodeEntries(data: bytes, e: Shape) returns (r: Outcome<(map<bytes, GoValue>, nat)>)
    requires |data| > 0
    ensures r == DecodeSpec.DecodeEntries(data, 1, e, map[])
    decreases |data|, 1
  {
    var read := 1;
    var res: map<bytes, GoValue> := map[];
    ghost var spec := DecodeSpec.DecodeEntries(data, read, e, res);
    while read < |data| && data[read] != EndToken
      invariant DecodeSpec.EntriesLeadTo(data, read, e, res, spec)
      decreases |data| - read
    {
      var step := EntriesStep(data, read, e, res, spec);
      if step.Failure? {
        return Failure(step.error);
      }
      read, res := step.value.0, step.value.1;
    }
    if read == |data| {
      return Failure(Panic);
    }
    return Success((res, read + 1));
  }

  /** One turn of decodeDict's loop: decode an entry and store it, replacing an earlier one. */
  method EntriesStep(data: bytes, read: nat, e: Shape, res: map<bytes, GoValue>,
                     ghost spec: Outcome<(map<bytes, GoValue>, nat)>)
    returns (r: Outcome<(nat, map<bytes, GoValue>)>)
    requires DecodeSpec.EntriesLeadTo(data, read, e, res, spec)
    requires read < |data| && data[read] != EndToken
    ensures r.Failure? ==> spec == Failure(r.error)
    ensures r.Success? ==> read < r.value.0 && DecodeSpec.EntriesLeadTo(data, r.value.0, e, r.value.1, spec)
    decreases |data| - read, 6
  {
    var key := DecodeString(data[read..]);
    if key.Failure? {
      return Failure(key.error);
    }
    r := StoreEntry(data, read, key.value.0, key.value.1, e, res, spec);
  }

  /** The second half of a turn of decodeDict's loop: the value after key `k`, stored under it. */
  method StoreEntry(data: bytes, read: nat, k: bytes, kn: nat, e: Shape, res: map<bytes, GoValue>,
                    ghost spec: Outcome<(map<bytes, GoValue>, nat)>)
    returns (r: Outcome<(nat, map<bytes, GoValue>)>)
    requires DecodeSpec.EntriesLeadTo(data, read, e, res, spec)
    requires read < |data| && data[read] != EndToken
    requires DecodeSpec.DecodeString(data[read..]) == Success((k, kn))
    ensures r.Failure? ==> spec == Failure(r.error)
    ensures r.Success? ==> read < r.value.0 && DecodeSpec.EntriesLeadTo(data, r.value.0, e, r.value.1, spec)
    decreases |data| - read, 5
  {
    ZeroWellFormed(e);
    var value := Decode(data[read + kn..], Zero(e));
    if value.Failure? {
      return Failure(value.error);
    }
    var (v, vn) := value.value;
    return Success((read + kn + vn, res[k := v]));
  }

  /** decodeStruct's first loop: map every field's wire name to its index. */
  method NameMapping(fs: seq<Field>) returns (names: map<bytes, nat>)
    ensures names == DecodeSpec.NameMapping(fs)
  {
    names := map[];
    var i := 0;
    while i < |fs|
      invariant i <= |fs|
      invariant names == DecodeSpec.NameMapping(fs[..i])
    {
      assert fs[..i + 1][..i] == fs[..i];
      names := names[NewTag(fs[i]).name := i];
      i := i + 1;
    }
    assert fs[..|fs|] == fs;
  }

  /** decodeStruct: set the fields the data names; skip the values of unknown keys. */
  method DecodeStruct(data: bytes, fs: seq<Field>, vs: seq<GoValue>) returns (r: Outcome<(seq<GoValue>, nat)>)
    requires WellFormed(StructV(fs, vs))
    ensures r == DecodeSpec.DecodeStruct(data, fs, vs)
    decreases |data|, 2
  {
    if |data| == 0 {
      return Failure(EmptyData);
    }
    if data[0] != DictToken {
      return Failure(InvalidStruct);
    }
    var names := NameMapping(fs);
    r := DecodeFields(data, fs, names, vs);
  }

  /** The loop of decodeStruct, from just after the dictionary token. */
  method DecodeFields(data: bytes, fs: seq<Field>, names: map<bytes, nat>, vs: seq<GoValue>)
    returns (r: Outcome<(seq<GoValue>, nat)>)
    requires |data| > 0
    requires DecodeSpec.FieldIndexes(names, fs)
    requires |vs| == |fs|
    ensures r == DecodeSpec.DecodeFields(data, 1, fs, names, vs)
    decreases |data|, 1
  {
    var read := 1;
    var vals := vs;
    ghost var spec := DecodeSpec.DecodeFields(data, read, fs, names, vals);
    while read < |data| && data[read] != EndToken
      invariant DecodeSpec.FieldsLeadTo(data, read, fs, names, vals, spec)
      decreases |data| - read
    {
      var step := FieldsStep(data, read, fs, names, vals, spec);
      if step.Failure? {
        return Failure(step.error);
      }
      read, vals := step.value.0, step.value.1;
    }
    if read == |data| {
      return Failure(Panic);
    }
    return Success((vals, read + 1));
  }

  /** One turn of decodeStruct's loop: a key and its value, set or skipped. */
  method FieldsStep(data: bytes, read: nat, fs: seq<Field>, names: map<bytes, nat>, vs: seq<GoValue>,
                    ghost spec: Outcome<(seq<GoValue>, nat)>)
    returns (r: Outcome<(nat, seq<GoValue>)>)
    requires DecodeSpec.FieldsLeadTo(data, read, fs, names, vs, spec)
    requires read < |data| && data[read] != EndToken
    ensures r.Failure? ==> spec == Failure(r.error)
    ensures r.Success? ==> read < r.value.0 && DecodeSpec.FieldsLeadTo(data, r.value.0, fs, names, r.value.1, spec)
    decreases |data| - read, 6
  {
    var key := DecodeString(data[read..]);
    if key.Failure? {
      return Failure(key.error);
    }
    r := FieldStore(data, read, key.value.0, key.value.1, fs, names, vs, spec);
  }

  /** The second half of a turn of decodeStruct's loop: the value after key `k`. */
  method FieldStore(data: bytes, read: nat, k: bytes, kn: nat, fs: seq<Field>, names: map<bytes, nat>,
                    vs: seq<GoValue>, ghost spec: Outcome<(seq<GoValue>, nat)>)
    returns (r: Outcome<(nat, seq<GoValue>)>)
    requires DecodeSpec.FieldsLeadTo(data, read, fs, names, vs, spec)
    requires read < |data| && data[read] != EndToken
    requires DecodeSpec.DecodeString(data[read..]) == Success((k, kn))
    ensures r.Failure? ==> spec == Failure(r.error)
    ensures r.Success? ==> read < r.value.0 && DecodeSpec.FieldsLeadTo(data, r.value.0, fs, names, r.value.1, spec)
    decreases |data| - read, 5
  {
    var value := FieldValue(data[read + kn..], k, fs, names, vs);
    if value.Failure? {
      return Failure(value.error);
    }
    var (vals, vn) := value.value;
    return Success((read + kn + vn, vals));
  }

  /** Skip the value of a key no field resolves to; otherwise decode it into its field. */
  method FieldValue(data: bytes, key: bytes, fs: seq<Field>, names: map<bytes, nat>, vs: seq<GoValue>)
    returns (r: Outcome<(seq<GoValue>, nat)>)
    requires DecodeSpec.FieldIndexes(names, fs)
    requires |vs| == |fs|
    ensures r == DecodeSpec.FieldValue(data, key, fs, names, vs)
    decreases |data|, 7
  {
    if key !in names {
      var skipped :- ReadNextValue(data);
      return Success((vs, skipped.0));
    }
    r := SetField(data, fs, names[key], vs);
  }

  /** Decode the value of field `num` and set it, as reflect does. */
  method SetField(data: bytes, fs: seq<Field>, num: nat, vs: seq<GoValue>) returns (r: Outcome<(seq<GoValue>, nat)>)
    requires num < |fs| && |vs| == |fs|
    ensures r == DecodeSpec.SetField(data, fs, num, vs)
    decreases |data|, 6
  {
    ZeroWellFormed(fs[num].shape);
    var value :- Decode(data, Zero(fs[num].shape));
    if !fs[num].exported {
      // reflect refuses to set an unexported field
      return Failure(Panic);
    }
    return Success((vs[num := value.0], value.1));
  }

  /** readNextValue: find the extent of the next value without decoding it. */
  method ReadNextValue(data: bytes) returns (r: Outcome<(nat, bytes)>)
    ensures r == DecodeSpec.ReadNextValue(data)
    decreases |data|, 1
  {
    if |data| == 0 {
      return Failure(EmptyData);
    }
    var read := 0;
    if data[0] == IntToken {
      var i :- DecodeInt(data);
      read := read + i.1;
    } else if data[0] == ListToken || data[0] == DictToken {
      read :- SkipItems(data);
    } else {
      var s :- DecodeString(data);
      read := read + s.1;
    }
    return Success((read, data[..read]));
  }

  /** The list and dictionary case of readNextValue: skip values up to the end token. */
  method SkipItems(data: bytes) returns (r: Outcome<nat>)
    requires |data| > 0
    ensures r == DecodeSpec.SkipItems(data, 1)
    decreases |data|, 0
  {
    var read := 1;
    ghost var spec := DecodeSpec.SkipItems(data, read);
    while read < |data| && data[read] != EndToken
      invariant DecodeSpec.SkipLeadsTo(data, read, spec)
      decreases |data| - read
    {
      var step := SkipStep(data, read, spec);
      if step.Failure? {
        return Failure(step.error);
      }
      read := step.value;
    }
    if read == |data| {
      return Failure(Panic);
    }
    return Success(read + 1);
  }

  /** One turn of readNextValue's loop: the extent of one nested value. */
  method SkipStep(data: bytes, read: nat, ghost spec: Outcome<nat>) returns (r: Outcome<nat>)
    requires DecodeSpec.SkipLeadsTo(data, read, spec)
    requires read < |data| && data[read] != EndToken
    ensures r.Failure? ==> spec == Failure(r.error)
    ensures r.Success? ==> read < r.value && DecodeSpec.SkipLeadsTo(data, r.value, spec)
    decreases |data| - read, 2
  {
    var next :- ReadNextValue(data[read..]);
    return Success(read + next.0);
  }

  /** decode's target check, then decode into the location the pointer designates. */
  method DecodeTarget(data: bytes, target: DecodeSpec.Target) returns (r: Outcome<(GoValue, nat)>)
    requires target.Pointer? ==> WellFormed(target.loc)
    ensures r == DecodeSpec.DecodeTarget(data, target)
  {
    if |data| == 0 {
      return Failure(EmptyData);
    }
    match target
    case NilTarget =>
      return Failure(InvalidValue);
    case NonPointerTarget =>
      return Failure(NonPointer);
    case NilPointer =>
      return Failure(CanNotSet);
    case Pointer(loc) =>
      r := Decode(data, loc);
  }

  /** Unmarshal: decode, then fail if any data is left over. */
  method Unmarshal(data: bytes, target: DecodeSpec.Target) returns (r: Outcome<GoValue>)
    requires target.Pointer? ==> WellFormed(target.loc)
    ensures r == DecodeSpec.Unmarshal(data, target)
  {
    var res :- DecodeTarget(data, target);
    if res.1 != |data| {
      return Failure(RemainingData);
    }
    return Success(res.0);
  }
}
