/**
 * What encode.go computes, as functions: the scalar encoders, normalize,
 * isEmpty, newTag's use in structToMap, and the recursive Marshal. The
 * methods of module Encoder run the Go loops and are proved equal to these
 * functions.
 *
 * Marshal's result on a map is stated with the keys in the order
 * KeyOrder.SortedKeys gives, the only order a correct sort by encodeDict's
 * comparator can produce; so the result does not depend on the order in
 * which Go iterates the map.
 */
module EncodeSpec {
  import opened Wrappers
  import opened Constants
  import opened Strconv
  import opened Values
  import opened Tags
  import opened KeyOrder

  /** encodeString: the length in decimal (strconv.Itoa), a colon, then the bytes themselves. */
  function EncodeString(s: bytes): (r: bytes)
    ensures |r| > |s| + 1
    ensures r[|r| - |s|..] == s && r[|r| - |s| - 1] == StringSeparatorToken
    ensures Canonical(r[..|r| - |s| - 1]) && DecimalValue(r[..|r| - |s| - 1]) == |s|
  {
    var r := FormatInt(|s|) + [StringSeparatorToken] + s;
    assert r[..|r| - |s| - 1] == Digits(|s|);
    r
  }

  /** encodeInt: `i`, strconv.FormatInt(v, 10), `e`. */
  function EncodeInt(v: int): (r: bytes)
    requires InInt64(v)
    ensures |r| >= 3 && r[0] == IntToken && r[|r| - 1] == EndToken
    ensures ParseInt64(r[1..|r| - 1]) == Success(v)
  {
    var r := [IntToken] + FormatInt(v) + [EndToken];
    assert r[1..|r| - 1] == FormatInt(v);
    FormatIntRoundTrip(v);
    r
  }

  /** Appending three pieces of output does not depend on the grouping. */
  lemma AppendAssoc<T>(a: seq<T>, b: seq<T>, c: seq<T>)
    ensures a + b + c == a + (b + c)
  {
  }

  /** encodeUint: `i`, strconv.FormatUint(u, 10), `e`. */
  function EncodeUint(u: nat): (r: bytes)
    requires u <= MaxUint64
    ensures |r| >= 3 && r[0] == IntToken && r[|r| - 1] == EndToken
    ensures ParseUint64(r[1..|r| - 1]) == Success(u)
  {
    var r := [IntToken] + FormatUint(u) + [EndToken];
    assert r[1..|r| - 1] == FormatUint(u);
    FormatUintRoundTrip(u);
    r
  }

  /** A []byte value: a slice whose element type is uint8. */
  predicate IsByteSlice(v: GoValue) {
    v.SliceV? && v.elem == UintS(W8)
  }

  /**
   * normalize: every signed integer becomes an int64, every unsigned one a
   * uint64, and a []byte a string; any other value is left alone.
   */
  function Normalize(v: GoValue): (r: GoValue)
    ensures v.IntV? ==> r == IntV(W64, v.i)
    ensures v.UintV? ==> r == UintV(W64, v.u)
    ensures IsByteSlice(v) ==> r == StringV(ItemBytes(v.items))
    ensures !v.IntV? && !v.UintV? && !IsByteSlice(v) ==> r == v
    ensures WellFormed(v) ==> WellFormed(r)
  {
    match v
    case IntV(_, i) => IntV(W64, i)
    case UintV(_, u) => UintV(W64, u)
    case SliceV(e, _, items) => if e == UintS(W8) then StringV(ItemBytes(items)) else v
    case _ => v
  }

  /** isEmpty: the value is deeply equal to the zero value of its type. */
  predicate IsEmpty(v: GoValue) {
    v == Zero(TypeOf(v))
  }

  /**
   * dereference: follow pointers and interfaces. Reaching a nil one gives
   * reflect's invalid value, here None.
   */
  function Deref(v: GoValue): (r: Option<GoValue>)
    ensures r.Some? ==> !r.value.PtrV? && !r.value.IfaceV?
    ensures r.Some? ==> Height(r.value) <= Height(v)
    ensures r.Some? && WellFormed(v) ==> WellFormed(r.value)
    ensures !v.PtrV? && !v.IfaceV? ==> r == Some(v)
    decreases v
  {
    match v
    case PtrV(_, t) => if t.None? then None else Deref(t.value)
    case IfaceV(d) => if d.None? then None else Deref(d.value)
    case _ => Some(v)
  }

  /** Every value in `m` is well-formed and lower than `bound`. */
  ghost predicate LowerEntries(m: map<bytes, GoValue>, bound: nat) {
    forall k :: k in m ==> WellFormed(m[k]) && Height(m[k]) < bound
  }

  /** Every item of `items` is well-formed and lower than `bound`. */
  ghost predicate LowerItems(items: seq<GoValue>, bound: nat) {
    forall i :: 0 <= i < |items| ==> WellFormed(items[i]) && Height(items[i]) < bound
  }

  /**
   * structToMap's loop over the first `n` fields of the struct value `v`:
   * skipped fields are left out, omitempty fields are left out when the
   * whole struct is empty, an embedded field with no name is flattened
   * (reflect panics when it is not a struct), and any other field is
   * stored under its wire name. Later fields overwrite earlier ones.
   */
  function StructFields(v: GoValue, n: nat): (r: Outcome<map<bytes, GoValue>>)
    requires v.StructV? && WellFormed(v) && n <= |v.fields|
    ensures r.Success? ==> LowerEntries(r.value, Height(v))
    ensures r.Failure? ==> r.error == Panic
    decreases v, n
  {
    if n == 0 then Success(map[])
    else
      var dict :- StructFields(v, n - 1);
      var t := NewTag(v.fields[n - 1]);
      FieldLower(v, n - 1);
      if t.skip then Success(dict)
      else if t.omitEmpty && IsEmpty(v) then Success(dict)
      else if v.fields[n - 1].anonymous && t.name == [] then
        var x := v.vals[n - 1];
        if !x.StructV? then Failure(Panic)
        else
          var sub :- StructFields(x, |x.fields|);
          Success(dict + sub)
      else Success(dict[t.name := v.vals[n - 1]])
  }

  /** structToMap: the wire names of a struct value and the values under them. */
  function StructToMap(v: GoValue): (r: Outcome<map<bytes, GoValue>>)
    requires v.StructV? && WellFormed(v)
    ensures r.Success? ==> LowerEntries(r.value, Height(v))
    ensures r.Failure? ==> r.error == Panic
  {
    StructFields(v, |v.fields|)
  }

  /**
   * The errors Marshal can report: a failing MarshalBEncode hook, a kind
   * it cannot encode, a map whose keys are not strings, and reflect's panic
   * on flattening an embedded field that is not a struct. No decoding
   * error, ErrInvalidToken included, comes out of it.
   */
  predicate MarshalError(e: Err) {
    e.HookFailed? || e.InvalidType? || e.NonStringKey? || e.Panic?
  }

  /**
   * Marshal. An IfaceV argument stands for the interface{} the caller
   * hands over, so Marshal sees its dynamic value; a nil one is reflect's
   * invalid value. A value with a MarshalBEncode hook is its hook's output,
   * before any reflection.
   */
  ghost function Marshalled(v: GoValue): (r: Outcome<bytes>)
    requires WellFormed(v)
    ensures r.Failure? ==> MarshalError(r.error)
    decreases Height(v), 3
  {
    match Normalize(v)
    case CustomV(accepts, raw) => if accepts then Success(raw) else Failure(HookFailed)
    case StringV(s) => Success(EncodeString(s))
    case IntV(_, i) => Success(EncodeInt(i))
    case UintV(_, u) => Success(EncodeUint(u))
    case BoolV(b) => Success(EncodeInt(if b then 1 else 0))
    case IfaceV(d) => if d.None? then Failure(InvalidType) else Marshalled(d.value)
    case _ => Reflected(v)
  }

  /** The reflective default case of Marshal, on the dereferenced value. */
  ghost function Reflected(v: GoValue): (r: Outcome<bytes>)
    requires WellFormed(v)
    ensures r.Failure? ==> MarshalError(r.error)
    decreases Height(v), 2
  {
    var rv := Deref(v);
    if rv.None? then Failure(InvalidType)
    else
      var x := rv.value;
      match x
      case SliceV(_, _, items) =>
        ItemsLower(x);
        ListEncoding(items, Height(v))
      case ArrayV(_, items) =>
        ItemsLower(x);
        ListEncoding(items, Height(v))
      case MapV(k, _, _, m) =>
        if k != StringS then Failure(NonStringKey)
        else
          EntriesLower(x);
          DictEncoding(m, Height(v))
      case StructV(_, _) =>
        var d :- StructToMap(x);
        DictEncoding(d, Height(v))
      case _ => Failure(InvalidType)
  }

  /** encodeList: `l`, the encodings of the items in order, `e`; the first failing item's error. */
  ghost function ListEncoding(items: seq<GoValue>, bound: nat): (r: Outcome<bytes>)
    requires LowerItems(items, bound)
    ensures r.Failure? ==> MarshalError(r.error)
    decreases bound, 1
  {
    var body :- ItemsEncoding(items, bound);
    Success([ListToken] + body + [EndToken])
  }

  /** The encodings of `items`, concatenated in order; the error of the first that fails. */
  ghost function ItemsEncoding(items: seq<GoValue>, bound: nat): (r: Outcome<bytes>)
    requires LowerItems(items, bound)
    ensures r.Failure? ==> MarshalError(r.error)
    decreases bound, 0, |items|
  {
    if items == [] then Success([])
    else
      var init :- ItemsEncoding(items[..|items| - 1], bound);
      var last :- Marshalled(items[|items| - 1]);
      Success(init + last)
  }

  /** encodeDict: `d`, each key's string and its value's encoding in key order, `e`. */
  ghost function DictEncoding(m: map<bytes, GoValue>, bound: nat): (r: Outcome<bytes>)
    requires LowerEntries(m, bound)
    ensures r.Failure? ==> MarshalError(r.error)
    decreases bound, 1
  {
    var body :- PairsEncoding(SortedKeys(m.Keys), m, bound);
    Success([DictToken] + body + [EndToken])
  }

  /** The pairs of `m` under `keys`, concatenated in that order; the error of the first that fails. */
  ghost function PairsEncoding(keys: seq<bytes>, m: map<bytes, GoValue>, bound: nat): (r: Outcome<bytes>)
    requires LowerEntries(m, bound)
    requires forall i :: 0 <= i < |keys| ==> keys[i] in m
    ensures r.Failure? ==> MarshalError(r.error)
    decreases bound, 0, |keys|
  {
    if keys == [] then Success([])
    else
      var init :- PairsEncoding(keys[..|keys| - 1], m, bound);
      var k := keys[|keys| - 1];
      var val :- Marshalled(m[k]);
      Success(init + EncodeString(k) + val)
  }

  lemma ItemsLower(x: GoValue)
    requires x.SliceV? || x.ArrayV?
    requires WellFormed(x)
    ensures LowerItems(x.items, Height(x))
  {
    forall i | 0 <= i < |x.items|
      ensures Height(x.items[i]) < Height(x)
    {
      ItemLower(x, i);
    }
  }

  lemma EntriesLower(x: GoValue)
    requires x.MapV? && WellFormed(x)
    ensures LowerEntries(x.entries, Height(x))
  {
    forall k | k in x.entries
      ensures Height(x.entries[k]) < Height(x)
    {
      EntryLower(x, k);
    }
  }
}
