/**
 * What Marshal of encode.go writes and refuses, stated over the functions
 * of EncodeSpec: the scalar encodings and their round trips through the
 * decoder, the Marshaler hook, the kinds it refuses, the list rule that
 * the first failing item decides the error, the dictionary layout, and
 * structToMap's rules for skipped, omitempty and embedded fields.
 */
module EncodeLaws {
  import opened Wrappers
  import opened Constants
  import opened Strconv
  import opened Values
  import opened Tags
  import opened KeyOrder
  import opened DecodeSpec
  import opened EncodeSpec
  import opened DecodeLaws

  // ---------------------------------------------------------------------
  // normalize and the scalars

  /** normalize maps every value to one it leaves as it is. */
  lemma NormalizeIdempotent(v: GoValue)
    ensures Normalize(Normalize(v)) == Normalize(v)
  {
  }

  /** isEmpty holds of the zero value of every type. */
  lemma ZeroIsEmpty(s: Shape)
    ensures IsEmpty(Zero(s))
  {
    ZeroWellFormed(s);
  }

  /**
   * isEmpty compares a struct field by field: it holds exactly when every
   * field holds the zero value of its type.
   */
  lemma StructEmptyFieldwise(v: GoValue)
    requires v.StructV? && WellFormed(v)
    ensures IsEmpty(v) <==> forall i :: 0 <= i < |v.vals| ==> v.vals[i] == Zero(v.fields[i].shape)
  {
    var z := Zero(StructS(v.fields));
    assert |z.vals| == |v.vals|;
    if forall i :: 0 <= i < |v.vals| ==> v.vals[i] == Zero(v.fields[i].shape) {
      assert v.vals == z.vals;
    }
  }

  /** A well-formed signed integer of any width is an int64. */
  lemma SignedInInt64(w: Width, i: int)
    requires SignedFits(w, i)
    ensures InInt64(i)
  {
  }

  /** A well-formed unsigned integer of any width is a uint64. */
  lemma UnsignedInUint64(w: Width, u: nat)
    requires UnsignedFits(w, u)
    ensures u <= MaxUint64
  {
  }

  /** true is written as i1e and false as i0e. */
  lemma MarshalBool(b: bool)
    ensures Marshalled(BoolV(b)) == Success([IntToken, if b then ZeroDigit + 1 else ZeroDigit, EndToken])
  {
    var n := if b then 1 else 0;
    var d: byte := if b then ZeroDigit + 1 else ZeroDigit;
    assert Digits(n) == [d];
    assert FormatInt(n) == [d];
    assert EncodeInt(n) == [IntToken, d, EndToken];
    assert Normalize(BoolV(b)) == BoolV(b);
  }

  /**
   * Every signed integer is written as its int64 encoding and read back
   * into its own type unchanged.
   */
  lemma IntValueRoundTrip(w: Width, i: int, rest: bytes)
    requires SignedFits(w, i)
    ensures InInt64(i) && Marshalled(IntV(w, i)) == Success(EncodeInt(i))
    ensures Decode(EncodeInt(i) + rest, Zero(IntS(w))) == Success((IntV(w, i), |EncodeInt(i)|))
  {
    SignedInInt64(w, i);
    IntIntoWidth(i, w, 0, rest);
  }

  /**
   * Every unsigned integer is written as its uint64 encoding and read back
   * into its own type unchanged.
   */
  lemma UintValueRoundTrip(w: Width, u: nat, rest: bytes)
    requires UnsignedFits(w, u)
    ensures u <= MaxUint64 && Marshalled(UintV(w, u)) == Success(EncodeUint(u))
    ensures Decode(EncodeUint(u) + rest, Zero(UintS(w))) == Success((UintV(w, u), |EncodeUint(u)|))
  {
    UnsignedInUint64(w, u);
    UintIntoWidth(u, w, 0, rest);
  }

  /** A bool is written as i1e or i0e and read back as itself. */
  lemma BoolValueRoundTrip(b: bool, rest: bytes)
    ensures Marshalled(BoolV(b)) == Success(EncodeInt(if b then 1 else 0))
    ensures Decode(EncodeInt(if b then 1 else 0) + rest, Zero(BoolS)) ==
      Success((BoolV(b), |EncodeInt(if b then 1 else 0)|))
  {
    BoolFromInt(if b then 1 else 0, false, rest);
  }

  /** A string is written by encodeString and read back as itself. */
  lemma StringValueRoundTrip(s: bytes, rest: bytes)
    requires |EncodeString(s)| <= MaxInt64
    ensures Marshalled(StringV(s)) == Success(EncodeString(s))
    ensures Decode(EncodeString(s) + rest, Zero(StringS)) == Success((StringV(s), |EncodeString(s)|))
  {
    StringIntoTargets(s, [], [], rest);
  }

  /** The items of a well-formed []byte are the bytes they hold. */
  lemma ByteItemsOfItemBytes(items: seq<GoValue>)
    requires forall i :: 0 <= i < |items| ==> TypeOf(items[i]) == UintS(W8) && WellFormed(items[i])
    ensures ByteItems(ItemBytes(items)) == items
  {
    var back := ByteItems(ItemBytes(items));
    forall i | 0 <= i < |items|
      ensures back[i] == items[i]
    {
      assert items[i].UintV? && items[i].uw == W8 && items[i].u < 256;
    }
  }

  /**
   * A []byte is written as a string and read back into a []byte with the
   * same bytes; a nil one comes back empty but not nil.
   */
  lemma ByteSliceRoundTrip(isNil: bool, items: seq<GoValue>, rest: bytes)
    requires WellFormed(SliceV(UintS(W8), isNil, items))
    requires |EncodeString(ItemBytes(items))| <= MaxInt64
    ensures Marshalled(SliceV(UintS(W8), isNil, items)) == Success(EncodeString(ItemBytes(items)))
    ensures Decode(EncodeString(ItemBytes(items)) + rest, Zero(ByteSlice)) ==
      Success((SliceV(UintS(W8), false, items), |EncodeString(ItemBytes(items))|))
  {
    var s := ItemBytes(items);
    var data := EncodeString(s) + rest;
    var t := Zero(ByteSlice);
    StringRoundTrip(s, rest);
    assert DecodeValue(data, t, true) == DecodeKind(data, t, true);
    ByteItemsOfItemBytes(items);
  }

  // ---------------------------------------------------------------------
  // The Marshaler hook and the refused kinds

  /**
   * A Marshaler's output is returned verbatim, before any reflection, also
   * when the value is handed over as an interface{}; a failing hook's
   * error is Marshal's error.
   */
  lemma MarshalerVerbatim(accepts: bool, raw: bytes)
    ensures Marshalled(CustomV(accepts, raw)) == if accepts then Success(raw) else Failure(HookFailed)
    ensures Marshalled(IfaceV(Some(CustomV(accepts, raw)))) == Marshalled(CustomV(accepts, raw))
  {
  }

  /**
   * The kinds Marshal refuses with ErrInvalidType: floats, a nil pointer or
   * interface, and a pointer to a scalar, since the type switch sees the
   * pointer and the reflective switch has no case for the scalar kinds.
   */
  lemma RefusedKinds(rank: int, e: Shape, v: GoValue)
    requires WellFormed(v) && (v.BoolV? || v.IntV? || v.UintV? || v.StringV?)
    ensures Marshalled(FloatV(rank)) == Failure(InvalidType)
    ensures Marshalled(IfaceV(None)) == Failure(InvalidType)
    ensures Marshalled(PtrV(e, None)) == Failure(InvalidType)
    ensures Marshalled(PtrV(TypeOf(v), Some(v))) == Failure(InvalidType)
  {
  }

  /** A map whose key type is not string is refused with ErrNonStringKey, whatever it holds. */
  lemma NonStringKeyRefused(k: Shape, e: Shape, isNil: bool, m: map<bytes, GoValue>)
    requires k != StringS && WellFormed(MapV(k, e, isNil, m))
    ensures Marshalled(MapV(k, e, isNil, m)) == Failure(NonStringKey)
  {
  }

  // ---------------------------------------------------------------------
  // Lists

  /** One more item: the list encodes when its prefix and its last item do. */
  lemma ItemsStep(items: seq<GoValue>, bound: nat)
    requires LowerItems(items, bound) && items != []
    ensures LowerItems(items[..|items| - 1], bound)
    ensures ItemsEncoding(items, bound).Success? <==>
      ItemsEncoding(items[..|items| - 1], bound).Success? && Marshalled(items[|items| - 1]).Success?
  {
    assert LowerItems(items[..|items| - 1], bound);
  }

  /** encodeList succeeds exactly when every item encodes. */
  lemma {:induction false} ItemsSucceed(items: seq<GoValue>, bound: nat)
    requires LowerItems(items, bound)
    ensures ItemsEncoding(items, bound).Success? <==>
      forall i :: 0 <= i < |items| ==> Marshalled(items[i]).Success?
    decreases |items|
  {
    if items != [] {
      var n := |items| - 1;
      var init := items[..n];
      ItemsStep(items, bound);
      ItemsSucceed(init, bound);
      if ItemsEncoding(items, bound).Success? {
        AllItemsEncode(items, init, bound);
      } else if ItemsEncoding(init, bound).Failure? {
        var i :| 0 <= i < n && !Marshalled(init[i]).Success?;
        assert init[i] == items[i];
      }
    }
  }

  /** When the prefix's items and the last item encode, all items do. */
  lemma AllItemsEncode(items: seq<GoValue>, init: seq<GoValue>, bound: nat)
    requires LowerItems(items, bound) && items != [] && init == items[..|items| - 1]
    requires forall i :: 0 <= i < |init| ==> Marshalled(init[i]).Success?
    requires Marshalled(items[|items| - 1]).Success?
    ensures forall i :: 0 <= i < |items| ==> Marshalled(items[i]).Success?
  {
    forall i | 0 <= i < |items|
      ensures Marshalled(items[i]).Success?
    {
      if i < |init| {
        assert init[i] == items[i];
      }
    }
  }

  /**
   * encodeList stops at the first item that fails: its error is that of
   * an item all of whose predecessors encode.
   */
  lemma {:induction false} ItemsFirstError(items: seq<GoValue>, bound: nat)
    requires LowerItems(items, bound) && ItemsEncoding(items, bound).Failure?
    ensures exists i ::
      && 0 <= i < |items|
      && Marshalled(items[i]) == Failure(ItemsEncoding(items, bound).error)
      && (forall j :: 0 <= j < i ==> Marshalled(items[j]).Success?)
    decreases |items|
  {
    var n := |items| - 1;
    var init := items[..n];
    assert LowerItems(init, bound);
    var e := ItemsEncoding(items, bound).error;
    if ItemsEncoding(init, bound).Failure? {
      assert ItemsEncoding(init, bound).error == e;
      ItemsFirstError(init, bound);
      var i :| 0 <= i < n && Marshalled(init[i]) == Failure(e) && forall j :: 0 <= j < i ==> Marshalled(init[j]).Success?;
      assert forall j :: 0 <= j <= i ==> init[j] == items[j];
    } else {
      assert Marshalled(items[n]) == Failure(e);
      ItemsSucceed(init, bound);
      assert forall j :: 0 <= j < n ==> init[j] == items[j];
    }
  }

  /** The bytes of a []byte's items, each written as a uint64. */
  function UintsText(items: seq<GoValue>): (r: bytes)
    requires forall i :: 0 <= i < |items| ==> items[i].UintV? && items[i].u <= MaxUint64
    ensures items == [] ==> r == []
  {
    if items == [] then [] else UintsText(items[..|items| - 1]) + EncodeUint(items[|items| - 1].u)
  }

  /** A []byte's items, as a list: each one a uint64 integer. */
  lemma {:induction false} ByteItemsEncoding(items: seq<GoValue>, bound: nat)
    requires LowerItems(items, bound)
    requires forall i :: 0 <= i < |items| ==> TypeOf(items[i]) == UintS(W8)
    ensures forall i :: 0 <= i < |items| ==> items[i].UintV? && items[i].u <= MaxUint64
    ensures ItemsEncoding(items, bound) == Success(UintsText(items))
    decreases |items|
  {
    if items != [] {
      var init := items[..|items| - 1];
      assert LowerItems(init, bound);
      ByteItemsEncoding(init, bound);
      var last := items[|items| - 1];
      assert WellFormed(last) && last.UintV?;
      UintValueRoundTrip(W8, last.u, []);
    }
  }

  /** A bound on the items' heights holds for any larger bound. */
  lemma LowerItemsWeaken(items: seq<GoValue>, lo: nat, hi: nat)
    requires LowerItems(items, lo) && lo <= hi
    ensures LowerItems(items, hi)
  {
  }

  /**
   * A pointer to a []byte is not the []byte case of normalize: Marshal
   * dereferences it and writes a list of integers, one per byte.
   */
  lemma PointerToBytesIsList(isNil: bool, items: seq<GoValue>)
    requires WellFormed(SliceV(UintS(W8), isNil, items))
    ensures forall i :: 0 <= i < |items| ==> items[i].UintV? && items[i].u <= MaxUint64
    ensures Marshalled(PtrV(ByteSlice, Some(SliceV(UintS(W8), isNil, items)))) ==
      Success([ListToken] + UintsText(items) + [EndToken])
  {
    var x := SliceV(UintS(W8), isNil, items);
    var p := PtrV(ByteSlice, Some(x));
    BytePointerWellFormed(isNil, items);
    assert Marshalled(p) == Reflected(p);
    assert Deref(p) == Some(x);
    assert Reflected(p) == ListEncoding(items, Height(p));
    ByteItemsEncoding(items, Height(p));
  }

  /** A pointer to a well-formed byte slice is well-formed, one level higher than the slice. */
  lemma BytePointerWellFormed(isNil: bool, items: seq<GoValue>)
    requires WellFormed(SliceV(UintS(W8), isNil, items))
    ensures WellFormed(PtrV(ByteSlice, Some(SliceV(UintS(W8), isNil, items))))
    ensures LowerItems(items, Height(PtrV(ByteSlice, Some(SliceV(UintS(W8), isNil, items)))))
  {
    var x := SliceV(UintS(W8), isNil, items);
    var p := PtrV(ByteSlice, Some(x));
    assert Height(p) == 1 + Height(x);
    ItemsLower(x);
    LowerItemsWeaken(items, Height(x), Height(p));
  }

  // ---------------------------------------------------------------------
  // structToMap

  /**
   * Field `i` of `v` reaches the dictionary: it is not skipped (unexported
   * or tagged "-"), and it is not an omitempty field of a struct that is
   * empty as a whole. Whether the field's own value is empty plays no part.
   */
  ghost predicate Emitted(v: GoValue, i: nat)
    requires v.StructV? && i < |v.fields|
  {
    var t := NewTag(v.fields[i]);
    !t.skip && !(t.omitEmpty && IsEmpty(v))
  }

  /** Field `i` is emitted and embedded without a name, so structToMap flattens it. */
  ghost predicate Flattened(v: GoValue, i: nat)
    requires v.StructV? && i < |v.fields|
  {
    Emitted(v, i) && v.fields[i].anonymous && NewTag(v.fields[i]).name == []
  }

  /** No field of `v` after `i` and before `n` is emitted under field `i`'s name. */
  ghost predicate LastUnderName(v: GoValue, i: nat, n: nat)
    requires v.StructV? && i < n <= |v.fields|
  {
    forall j :: i < j < n && Emitted(v, j) ==> NewTag(v.fields[j]).name != NewTag(v.fields[i]).name
  }

  /** One turn of structToMap's loop over a field it does not flatten. */
  lemma FieldTurn(v: GoValue, n: nat)
    requires v.StructV? && WellFormed(v) && 0 < n <= |v.fields|
    requires !Flattened(v, n - 1) && StructFields(v, n - 1).Success?
    ensures StructFields(v, n) == Success(
      if Emitted(v, n - 1) then StructFields(v, n - 1).value[NewTag(v.fields[n - 1]).name := v.vals[n - 1]]
      else StructFields(v, n - 1).value)
  {
  }

  /** The wire names of the emitted fields among the first `n`. */
  ghost function EmittedNames(v: GoValue, n: nat): set<bytes>
    requires v.StructV? && n <= |v.fields|
  {
    set i | 0 <= i < n && Emitted(v, i) :: NewTag(v.fields[i]).name
  }

  /** One more field adds its wire name exactly when it is emitted. */
  lemma EmittedNamesStep(v: GoValue, n: nat)
    requires v.StructV? && 0 < n <= |v.fields|
    ensures EmittedNames(v, n) ==
      EmittedNames(v, n - 1) + (if Emitted(v, n - 1) then {NewTag(v.fields[n - 1]).name} else {})
  {
    var extra: set<bytes> := if Emitted(v, n - 1) then {NewTag(v.fields[n - 1]).name} else {};
    forall x | x in EmittedNames(v, n)
      ensures x in EmittedNames(v, n - 1) + extra
    {
      var i :| 0 <= i < n && Emitted(v, i) && NewTag(v.fields[i]).name == x;
      if i < n - 1 {
        assert x in EmittedNames(v, n - 1);
      }
    }
    forall x | x in EmittedNames(v, n - 1)
      ensures x in EmittedNames(v, n)
    {
      var i :| 0 <= i < n - 1 && Emitted(v, i) && NewTag(v.fields[i]).name == x;
    }
  }

  /**
   * structToMap on a struct with nothing to flatten never panics, and its
   * keys are the wire names of the emitted fields.
   */
  lemma {:induction false} FlatStructKeys(v: GoValue, n: nat)
    requires v.StructV? && WellFormed(v) && n <= |v.fields|
    requires forall i :: 0 <= i < n ==> !Flattened(v, i)
    ensures StructFields(v, n).Success?
    ensures StructFields(v, n).value.Keys == EmittedNames(v, n)
    decreases n
  {
    if n > 0 {
      FlatStructKeys(v, n - 1);
      FieldTurn(v, n);
      EmittedNamesStep(v, n);
    }
  }

  /**
   * structToMap on a struct with nothing to flatten: each key holds the
   * value of the last emitted field with that name.
   */
  lemma {:induction false} FlatStructValues(v: GoValue, n: nat, i: nat)
    requires v.StructV? && WellFormed(v) && i < n <= |v.fields|
    requires forall j :: 0 <= j < n ==> !Flattened(v, j)
    requires Emitted(v, i) && LastUnderName(v, i, n)
    ensures StructFields(v, n).Success?
    ensures NewTag(v.fields[i]).name in StructFields(v, n).value
    ensures StructFields(v, n).value[NewTag(v.fields[i]).name] == v.vals[i]
    decreases n
  {
    FlatStructKeys(v, n - 1);
    var d := StructFields(v, n - 1).value;
    var name := NewTag(v.fields[i]).name;
    var last := NewTag(v.fields[n - 1]).name;
    assert StructFields(v, n) == Success(if Emitted(v, n - 1) then d[last := v.vals[n - 1]] else d) by {
      FieldTurn(v, n);
    }
    if i < n - 1 {
      assert LastUnderName(v, i, n - 1);
      FlatStructValues(v, n - 1, i);
      assert Emitted(v, n - 1) ==> last != name;
    }
  }

  /**
   * An embedded field without a name whose value is not a struct makes
   * structToMap panic, since reflect cannot range over its fields.
   */
  lemma EmbeddedNonStructPanics(v: GoValue, i: nat)
    requires v.StructV? && WellFormed(v) && i < |v.fields|
    requires Flattened(v, i) && !v.vals[i].StructV?
    ensures StructToMap(v) == Failure(Panic)
  {
    PanicSticks(v, i + 1, |v.fields|);
  }

  /** Once structToMap's loop has panicked, the later fields do not matter. */
  lemma {:induction false} PanicSticks(v: GoValue, m: nat, n: nat)
    requires v.StructV? && WellFormed(v) && m <= n <= |v.fields|
    requires StructFields(v, m).Failure?
    ensures StructFields(v, n) == Failure(Panic)
    decreases n
  {
    if n > m {
      PanicSticks(v, m, n - 1);
    }
  }

  /**
   * An embedded struct field without a name contributes the fields of its
   * own structToMap, which overwrite what the earlier fields stored.
   */
  lemma EmbeddedMerged(v: GoValue, i: nat)
    requires v.StructV? && WellFormed(v) && i < |v.fields|
    requires Flattened(v, i) && v.vals[i].StructV?
    requires StructFields(v, i).Success?
    ensures WellFormed(v.vals[i])
    ensures StructToMap(v.vals[i]).Failure? ==> StructFields(v, i + 1) == Failure(Panic)
    ensures StructToMap(v.vals[i]).Success? ==>
      && StructFields(v, i + 1).Success?
      && StructFields(v, i + 1).value.Keys == StructFields(v, i).value.Keys + StructToMap(v.vals[i]).value.Keys
      && forall k :: k in StructToMap(v.vals[i]).value ==>
           StructFields(v, i + 1).value[k] == StructToMap(v.vals[i]).value[k]
  {
  }
}
