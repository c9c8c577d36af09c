/**
 * The Go values the codec reads and writes, in place of Go reflection: a
 * `Shape` is a reflect.Type the codec can meet, and a `GoValue` is a value
 * that carries enough of its own type to be decoded into or encoded from.
 */
module Values {
  import opened Wrappers
  import opened Constants

  /** The width of a Go integer type; `Word` is `int` or `uint`, 64 bits here. */
  datatype Width = W8 | W16 | W32 | W64 | Word

  /** 2^(bits - 1): the bound of the signed type of width `w`. */
  function Half(w: Width): nat {
    match w
    case W8 => 0x80
    case W16 => 0x8000
    case W32 => 0x8000_0000
    case _ => 0x8000_0000_0000_0000
  }

  /** 2^bits: the number of values of width `w`. */
  function Modulus(w: Width): nat {
    2 * Half(w)
  }

  predicate SignedFits(w: Width, i: int) {
    -(Half(w) as int) <= i < Half(w)
  }

  predicate UnsignedFits(w: Width, u: int) {
    0 <= u < Modulus(w)
  }

  /** What reflect.Value.SetInt stores in a field of width `w`: two's-complement truncation. */
  function TruncSigned(w: Width, i: int): (r: int)
    ensures SignedFits(w, r)
    ensures (r - i) % Modulus(w) == 0
    ensures SignedFits(w, i) ==> r == i
  {
    (i + Half(w)) % Modulus(w) - Half(w)
  }

  /** What reflect.Value.SetUint stores in a field of width `w`. */
  function TruncUnsigned(w: Width, u: nat): (r: nat)
    ensures UnsignedFits(w, r)
    ensures (r - u) % Modulus(w) == 0
    ensures UnsignedFits(w, u) ==> r == u
  {
    u % Modulus(w)
  }

  /** A Go type as the codec sees it. */
  datatype Shape =
    | BoolS
    | IntS(iw: Width)
    | UintS(uw: Width)
    | StringS
    | SliceS(elem: Shape)
    | ArrayS(elem: Shape, len: nat)
    | MapS(key: Shape, elem: Shape)
    | StructS(fields: seq<Field>)
    | PtrS(elem: Shape)
    /** the empty interface, interface{} */
    | IfaceS
    /** float32, float64, complex64, complex128 (and any other kind the codec refuses) */
    | FloatS
    /**
     * a type implementing both Marshaler and Unmarshaler; `accepts` says
     * whether its hooks succeed
     */
    | CustomS(accepts: bool)

  /**
   * A struct field as reflect.StructField shows it: its declared name, its
   * tag as key/value pairs, whether it is embedded, whether it is exported
   * (PkgPath is empty), and its type.
   */
  datatype Field = Field(name: bytes, tags: map<bytes, bytes>, anonymous: bool, exported: bool, shape: Shape)

  /** A Go value together with the parts of its type the codec consults. */
  datatype GoValue =
    | BoolV(b: bool)
    | IntV(iw: Width, i: int)
    | UintV(uw: Width, u: nat)
    | StringV(s: bytes)
    /** a slice; `isNil` tells the nil slice from an empty one */
    | SliceV(elem: Shape, isNil: bool, items: seq<GoValue>)
    | ArrayV(elem: Shape, items: seq<GoValue>)
    /** a map; its entries are keyed by strings, the only keys the codec handles */
    | MapV(key: Shape, elem: Shape, isNil: bool, entries: map<bytes, GoValue>)
    | StructV(fields: seq<Field>, vals: seq<GoValue>)
    | PtrV(elem: Shape, target: Option<GoValue>)
    | IfaceV(dyn: Option<GoValue>)
    /**
     * a float or complex value, known only up to Go's `==`: values that
     * compare equal, such as 0.0 and -0.0, are the same `rank`, and the zero
     * value has rank 0; NaN, equal to nothing, has no rank
     */
    | FloatV(rank: int)
    /** a value of a CustomS type; `raw` is the wire text it holds */
    | CustomV(accepts: bool, raw: bytes)

  /** []byte, the slice type decoded and encoded like a string. */
  const ByteSlice: Shape := SliceS(UintS(W8))

  function TypeOf(v: GoValue): Shape {
    match v
    case BoolV(_) => BoolS
    case IntV(w, _) => IntS(w)
    case UintV(w, _) => UintS(w)
    case StringV(_) => StringS
    case SliceV(e, _, _) => SliceS(e)
    case ArrayV(e, items) => ArrayS(e, |items|)
    case MapV(k, e, _, _) => MapS(k, e)
    case StructV(fs, _) => StructS(fs)
    case PtrV(e, _) => PtrS(e)
    case IfaceV(_) => IfaceS
    case FloatV(_) => FloatS
    case CustomV(a, _) => CustomS(a)
  }

  /** reflect.Zero: the zero value of a type. */
  function Zero(s: Shape): (z: GoValue)
    decreases s
  {
    match s
    case BoolS => BoolV(false)
    case IntS(w) => IntV(w, 0)
    case UintS(w) => UintV(w, 0)
    case StringS => StringV([])
    case SliceS(e) => SliceV(e, true, [])
    case ArrayS(e, n) => ArrayV(e, seq(n, _ => Zero(e)))
    case MapS(k, e) => MapV(k, e, true, map[])
    case StructS(fs) => StructV(fs, seq(|fs|, i requires 0 <= i < |fs| => Zero(fs[i].shape)))
    case PtrS(e) => PtrV(e, None)
    case IfaceS => IfaceV(None)
    case FloatS => FloatV(0)
    case CustomS(a) => CustomV(a, [])
  }

  /** The items of a []byte holding `s`. */
  function ByteItems(s: bytes): (items: seq<GoValue>)
    ensures |items| == |s|
    ensures forall i :: 0 <= i < |s| ==> items[i] == UintV(W8, s[i])
  {
    seq(|s|, i requires 0 <= i < |s| => UintV(W8, s[i]))
  }

  /** The bytes held by the items of a []byte. */
  function ItemBytes(items: seq<GoValue>): (s: bytes)
    ensures |s| == |items|
    ensures forall i :: 0 <= i < |items| && items[i].UintV? && items[i].u < 256 ==> s[i] == items[i].u
  {
    seq(|items|, i requires 0 <= i < |items| => if items[i].UintV? then items[i].u % 256 else 0)
  }

  /**
   * A value that a Go program can hold: integers fit their width, a nil
   * slice or map is empty, every element has its container's element type,
   * a struct has one value per field, and an interface holds a concrete value.
   */
  predicate WellFormed(v: GoValue)
    decreases v
  {
    match v
    case IntV(w, i) => SignedFits(w, i)
    case UintV(w, u) => UnsignedFits(w, u)
    case SliceV(e, isNil, items) =>
      && (isNil ==> items == [])
      && forall i :: 0 <= i < |items| ==> TypeOf(items[i]) == e && WellFormed(items[i])
    case ArrayV(e, items) =>
      forall i :: 0 <= i < |items| ==> TypeOf(items[i]) == e && WellFormed(items[i])
    case MapV(_, e, isNil, m) =>
      && (isNil ==> m == map[])
      && forall k :: k in m ==> TypeOf(m[k]) == e && WellFormed(m[k])
    case StructV(fs, vs) =>
      && |vs| == |fs|
      && forall i :: 0 <= i < |vs| ==> TypeOf(vs[i]) == fs[i].shape && WellFormed(vs[i])
    case PtrV(e, t) => t.Some? ==> TypeOf(t.value) == e && WellFormed(t.value)
    case IfaceV(d) => d.Some? ==> !d.value.IfaceV? && WellFormed(d.value)
    case _ => true
  }

  /** The zero value of a type is a well-formed value of that type. */
  lemma {:induction false} ZeroWellFormed(s: Shape)
    ensures TypeOf(Zero(s)) == s
    ensures WellFormed(Zero(s))
    decreases s
  {
    match s
    case ArrayS(e, n) =>
      ZeroWellFormed(e);
    case StructS(fs) =>
      var z := Zero(s);
      forall i | 0 <= i < |fs|
        ensures TypeOf(z.vals[i]) == fs[i].shape && WellFormed(z.vals[i])
      {
        ZeroWellFormed(fs[i].shape);
      }
    case _ =>
  }

  /** The largest number of a sequence of naturals (0 for none). */
  function MaxOf(s: seq<nat>): (r: nat)
    ensures forall i :: 0 <= i < |s| ==> s[i] <= r
  {
    if s == [] then 0 else var m := MaxOf(s[1..]); if s[0] > m then s[0] else m
  }

  /** The largest number of a finite set of naturals (0 for none). */
  ghost function MaxOfSet(s: set<nat>): (r: nat)
    ensures forall y :: y in s ==> y <= r
    decreases s
  {
    if s == {} then 0
    else
      var x :| x in s;
      var m := MaxOfSet(s - {x});
      assert forall y :: y in s ==> y == x || y in s - {x};
      if x > m then x else m
  }

  /**
   * The nesting depth of a value. It is the measure by which the encoder's
   * recursion terminates, since flattening an embedded struct hands the
   * encoder values from more than one level down.
   */
  ghost function Height(v: GoValue): nat
    decreases v
  {
    match v
    case SliceV(_, _, items) => 1 + MaxOf(seq(|items|, i requires 0 <= i < |items| => Height(items[i])))
    case ArrayV(_, items) => 1 + MaxOf(seq(|items|, i requires 0 <= i < |items| => Height(items[i])))
    case MapV(_, _, _, m) => 1 + MaxOfSet(set k | k in m :: Height(m[k]))
    case StructV(_, vs) => 1 + MaxOf(seq(|vs|, i requires 0 <= i < |vs| => Height(vs[i])))
    case PtrV(_, t) => if t.Some? then 1 + Height(t.value) else 0
    case IfaceV(d) => if d.Some? then 1 + Height(d.value) else 0
    case _ => 0
  }

  lemma ItemLower(v: GoValue, i: int)
    requires v.SliceV? || v.ArrayV?
    requires 0 <= i < |v.items|
    ensures Height(v.items[i]) < Height(v)
  {
    var hs := seq(|v.items|, j requires 0 <= j < |v.items| => Height(v.items[j]));
    assert hs[i] == Height(v.items[i]);
  }

  lemma FieldLower(v: GoValue, i: int)
    requires v.StructV? && 0 <= i < |v.vals|
    ensures Height(v.vals[i]) < Height(v)
  {
    var hs := seq(|v.vals|, j requires 0 <= j < |v.vals| => Height(v.vals[j]));
    assert hs[i] == Height(v.vals[i]);
  }

  lemma EntryLower(v: GoValue, k: bytes)
    requires v.MapV? && k in v.entries
    ensures Height(v.entries[k]) < Height(v)
  {
    var hs := set k' | k' in v.entries :: Height(v.entries[k']);
    assert Height(v.entries[k]) in hs;
    assert Height(v) == 1 + MaxOfSet(hs);
  }
}
