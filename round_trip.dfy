/**
 * Decoding what Marshal writes: a value "round-trips" with its encoding
 * when Marshal writes that encoding and decode, reading it into the zero
 * value of the value's type, gives the value back and consumes exactly the
 * encoding, whatever follows it. Lists and string-keyed dictionaries of
 * round-tripping values round-trip, so the property carries over to
 * nested lists and dictionaries built from the scalar cases.
 */
module RoundTrip {
  import opened Wrappers
  import opened Constants
  import opened Strconv
  import opened Values
  import opened KeyOrder
  import opened DecodeSpec
  import opened EncodeSpec
  import opened DecodeLaws
  import opened EncodeLaws

  /** Marshal writes `enc` for `v`, and decode reads `v` back from `enc` followed by anything. */
  ghost predicate RoundTrips(v: GoValue, enc: bytes)
    requires WellFormed(v)
  {
    ZeroWellFormed(TypeOf(v));
    && Marshalled(v) == Success(enc)
    && enc != [] && enc[0] != EndToken
    && forall rest :: Decode(enc + rest, Zero(TypeOf(v))) == Success((v, |enc|))
  }

  /** The three facts RoundTrips gathers. */
  lemma RoundTripsIntro(v: GoValue, enc: bytes)
    requires WellFormed(v) && WellFormed(Zero(TypeOf(v)))
    requires Marshalled(v) == Success(enc) && enc != [] && enc[0] != EndToken
    requires forall rest :: Decode(enc + rest, Zero(TypeOf(v))) == Success((v, |enc|))
    ensures RoundTrips(v, enc)
  {
  }

  // ---------------------------------------------------------------------
  // The scalar cases

  /** Every signed integer round-trips. */
  lemma IntRoundTrips(w: Width, i: int)
    requires SignedFits(w, i)
    ensures InInt64(i) && RoundTrips(IntV(w, i), EncodeInt(i))
  {
    forall rest
      ensures Decode(EncodeInt(i) + rest, Zero(IntS(w))) == Success((IntV(w, i), |EncodeInt(i)|))
    {
      IntValueRoundTrip(w, i, rest);
    }
  }

  /** Every unsigned integer round-trips. */
  lemma UintRoundTrips(w: Width, u: nat)
    requires UnsignedFits(w, u)
    ensures u <= MaxUint64 && RoundTrips(UintV(w, u), EncodeUint(u))
  {
    forall rest
      ensures Decode(EncodeUint(u) + rest, Zero(UintS(w))) == Success((UintV(w, u), |EncodeUint(u)|))
    {
      UintValueRoundTrip(w, u, rest);
    }
  }

  /** Every bool round-trips. */
  lemma BoolRoundTrips(b: bool)
    ensures RoundTrips(BoolV(b), EncodeInt(if b then 1 else 0))
  {
    var enc := EncodeInt(if b then 1 else 0);
    forall rest
      ensures Decode(enc + rest, Zero(BoolS)) == Success((BoolV(b), |enc|))
    {
      BoolValueRoundTrip(b, rest);
    }
  }

  /** Every string whose encoding fits an int64 length round-trips. */
  lemma StringRoundTrips(s: bytes)
    requires |EncodeString(s)| <= MaxInt64
    ensures RoundTrips(StringV(s), EncodeString(s))
  {
    forall rest
      ensures Decode(EncodeString(s) + rest, Zero(StringS)) == Success((StringV(s), |EncodeString(s)|))
    {
      StringValueRoundTrip(s, rest);
    }
    assert EncodeString(s)[0] == FormatInt(|s|)[0];
  }

  // ---------------------------------------------------------------------
  // Lists

  /** The byte strings of `parts`, one after another. */
  function Concat(parts: seq<bytes>): (r: bytes)
    ensures parts == [] ==> r == []
  {
    if parts == [] then [] else Concat(parts[..|parts| - 1]) + parts[|parts| - 1]
  }

  /** The first `j` parts, concatenated, start the concatenation of them all. */
  lemma {:induction false} ConcatPrefix(parts: seq<bytes>, j: nat)
    requires j <= |parts|
    ensures Concat(parts[..j]) <= Concat(parts)
    decreases |parts|
  {
    if j < |parts| {
      var init := parts[..|parts| - 1];
      assert parts[..j] == init[..j];
      ConcatPrefix(init, j);
    } else {
      assert parts[..j] == parts;
    }
  }

  /** A prefix extended by the next element is the next prefix. */
  lemma PrefixSnoc<T>(s: seq<T>, k: nat)
    requires k < |s|
    ensures s[..k] + [s[k]] == s[..k + 1]
  {
  }

  /** The items encode as the concatenation of their encodings. */
  lemma {:induction false} ItemsConcat(items: seq<GoValue>, encs: seq<bytes>, bound: nat)
    requires LowerItems(items, bound) && |encs| == |items|
    requires forall i :: 0 <= i < |items| ==> Marshalled(items[i]) == Success(encs[i])
    ensures ItemsEncoding(items, bound) == Success(Concat(encs))
    decreases |items|
  {
    if items != [] {
      var n := |items| - 1;
      assert LowerItems(items[..n], bound);
      ItemsConcat(items[..n], encs[..n], bound);
    }
  }

  /** `open`, the parts in order, `e`: the frame of a list or a dictionary. */
  function Framed(open: byte, parts: seq<bytes>): bytes {
    [open] + Concat(parts) + [EndToken]
  }

  /** The list of `encs`: `l`, the encodings in order, `e`. */
  function ListText(encs: seq<bytes>): bytes {
    Framed(ListToken, encs)
  }

  /** Where part `k` starts in the framed text. */
  function ItemStart(parts: seq<bytes>, k: nat): nat
    requires k <= |parts|
  {
    1 + |Concat(parts[..k])|
  }

  /** Part `k` sits at its start in the framed text, and the next part starts after it. */
  lemma FramedAt(open: byte, parts: seq<bytes>, rest: bytes, k: nat)
    requires k < |parts|
    ensures ItemStart(parts, k) + |parts[k]| == ItemStart(parts, k + 1) < |Framed(open, parts) + rest|
    ensures (Framed(open, parts) + rest)[ItemStart(parts, k)..] ==
      parts[k] + (Framed(open, parts) + rest)[ItemStart(parts, k + 1)..]
  {
    var data := Framed(open, parts) + rest;
    var c := Concat(parts);
    var read := ItemStart(parts, k);
    var p := Concat(parts[..k + 1]);
    assert p == Concat(parts[..k]) + parts[k] by {
      assert parts[..k + 1][..k] == parts[..k];
    }
    ConcatPrefix(parts, k + 1);
    assert data[1..1 + |c|] == c;
    assert c[..|p|] == p;
    assert data[read..read + |parts[k]|] == parts[k];
  }

  /** After the last part the framed text has its closing `e`. */
  lemma FramedEnd(open: byte, parts: seq<bytes>, rest: bytes)
    ensures ItemStart(parts, |parts|) + 1 == |Framed(open, parts)|
    ensures (Framed(open, parts) + rest)[ItemStart(parts, |parts|)] == EndToken
  {
    assert parts[..|parts|] == parts;
  }

  /**
   * Each item round-trips with its encoding and has type `e`: the
   * hypothesis of ItemsDecode, kept recursive so that its instances are
   * taken one at a time.
   */
  ghost predicate ItemsRoundTrip(items: seq<GoValue>, encs: seq<bytes>, e: Shape)
    decreases |items|
  {
    && |items| == |encs|
    && (items != [] ==>
      && ItemsRoundTrip(items[..|items| - 1], encs[..|encs| - 1], e)
      && var last := items[|items| - 1];
      && WellFormed(last) && TypeOf(last) == e && RoundTrips(last, encs[|encs| - 1]))
  }

  /** Item `k` of items that round-trip round-trips. */
  lemma {:induction false} ItemsRoundTripAt(items: seq<GoValue>, encs: seq<bytes>, e: Shape, k: nat)
    requires ItemsRoundTrip(items, encs, e) && k < |items|
    ensures WellFormed(items[k]) && TypeOf(items[k]) == e && RoundTrips(items[k], encs[k])
    decreases |items|
  {
    if k < |items| - 1 {
      ItemsRoundTripAt(items[..|items| - 1], encs[..|encs| - 1], e, k);
    }
  }

  /** The quantified form of ItemsRoundTrip. */
  lemma {:induction false} ItemsRoundTripIntro(items: seq<GoValue>, encs: seq<bytes>, e: Shape)
    requires |items| == |encs|
    requires forall i :: 0 <= i < |items| ==> WellFormed(items[i]) && TypeOf(items[i]) == e
    requires forall i :: 0 <= i < |items| ==> RoundTrips(items[i], encs[i])
    ensures ItemsRoundTrip(items, encs, e)
    decreases |items|
  {
    if items != [] {
      var n := |items| - 1;
      ItemsRoundTripIntro(items[..n], encs[..n], e);
    }
  }

  /** Item `k` of a list text starts at ItemStart(encs, k), before the closing `e`, and decodes to the item. */
  lemma ItemDecodesAt(e: Shape, items: seq<GoValue>, encs: seq<bytes>, rest: bytes, k: nat)
    requires ItemsRoundTrip(items, encs, e) && k < |items| && WellFormed(Zero(e))
    ensures ItemStart(encs, k) + |encs[k]| == ItemStart(encs, k + 1) < |ListText(encs) + rest|
    ensures (ListText(encs) + rest)[ItemStart(encs, k)] != EndToken
    ensures Decode((ListText(encs) + rest)[ItemStart(encs, k)..], Zero(e)) == Success((items[k], |encs[k]|))
  {
    var data := ListText(encs) + rest;
    var next := ItemStart(encs, k + 1);
    FramedAt(ListToken, encs, rest, k);
    ItemsRoundTripAt(items, encs, e, k);
    assert Decode(encs[k] + data[next..], Zero(e)) == Success((items[k], |encs[k]|));
  }

  /** decodeList's loop over the list text, at the start of item `k`, reads that item and goes on. */
  lemma ItemsDecodeStep(e: Shape, items: seq<GoValue>, encs: seq<bytes>, rest: bytes, k: nat)
    requires ItemsRoundTrip(items, encs, e) && k < |items|
    ensures ItemStart(encs, k) < ItemStart(encs, k + 1) <= |ListText(encs) + rest|
    ensures DecodeItems(ListText(encs) + rest, ItemStart(encs, k), e, items[..k]) ==
      DecodeItems(ListText(encs) + rest, ItemStart(encs, k + 1), e, items[..k + 1])
  {
    ZeroWellFormed(e);
    ItemDecodesAt(e, items, encs, rest, k);
    PrefixSnoc(items, k);
    ItemsTurn(ListText(encs) + rest, ItemStart(encs, k), e, items[..k], items[k], |encs[k]|,
              ItemStart(encs, k + 1), items[..k + 1]);
  }

  /** decodeList's loop over the list text, after the last item, stops after the closing `e`. */
  lemma ItemsDecodeEnd(e: Shape, items: seq<GoValue>, encs: seq<bytes>, rest: bytes)
    requires |items| == |encs|
    ensures ItemStart(encs, |items|) < |ListText(encs) + rest|
    ensures DecodeItems(ListText(encs) + rest, ItemStart(encs, |items|), e, items) ==
      Success((items, |ListText(encs)|))
  {
    FramedEnd(ListToken, encs, rest);
  }

  /**
   * decodeList's loop over a list written by encodeList: from the start of
   * item `k`, with the first `k` items read, it reads the remaining items
   * and stops after the closing `e`.
   */
  lemma {:induction false} ItemsDecode(e: Shape, items: seq<GoValue>, encs: seq<bytes>, rest: bytes, k: nat)
    requires ItemsRoundTrip(items, encs, e) && k <= |items|
    ensures ItemStart(encs, k) <= |ListText(encs) + rest|
    ensures DecodeItems(ListText(encs) + rest, ItemStart(encs, k), e, items[..k]) ==
      Success((items, |ListText(encs)|))
    decreases |items| - k
  {
    if k == |items| {
      ItemsDecodeEnd(e, items, encs, rest);
      assert items[..k] == items;
    } else {
      ItemsDecodeStep(e, items, encs, rest, k);
      ItemsDecode(e, items, encs, rest, k + 1);
    }
  }

  /** One turn of decodeList's loop over an item that decodes. */
  lemma ItemsTurn(data: bytes, read: nat, e: Shape, acc: seq<GoValue>, v: GoValue, n: nat,
                  next: nat, acc': seq<GoValue>)
    requires 1 <= read < |data| && data[read] != EndToken && read + n <= |data|
    requires WellFormed(Zero(e)) && Decode(data[read..], Zero(e)) == Success((v, n))
    requires next == read + n && acc' == acc + [v]
    ensures next <= |data| && DecodeItems(data, read, e, acc) == DecodeItems(data, next, e, acc')
  {
  }

  /** encodeList writes a slice of items with encodings `encs` as their list text. */
  lemma ListMarshalled(e: Shape, isNil: bool, items: seq<GoValue>, encs: seq<bytes>)
    requires WellFormed(SliceV(e, isNil, items)) && e != UintS(W8) && |encs| == |items|
    requires forall i :: 0 <= i < |items| ==> Marshalled(items[i]) == Success(encs[i])
    ensures Marshalled(SliceV(e, isNil, items)) == Success(ListText(encs))
  {
    var v := SliceV(e, isNil, items);
    assert Normalize(v) == v;
    assert Marshalled(v) == Reflected(v);
    assert Deref(v) == Some(v);
    ItemsLower(v);
    assert Reflected(v) == ListEncoding(items, Height(v));
    ItemsConcat(items, encs, Height(v));
  }

  /** decode reads the list text of round-tripping items back into a fresh slice of them. */
  lemma ListDecoded(e: Shape, items: seq<GoValue>, encs: seq<bytes>, rest: bytes)
    requires e != UintS(W8) && |encs| == |items|
    requires forall i :: 0 <= i < |items| ==> WellFormed(items[i]) && TypeOf(items[i]) == e
    requires forall i :: 0 <= i < |items| ==> RoundTrips(items[i], encs[i])
    ensures Decode(ListText(encs) + rest, Zero(SliceS(e))) == Success((SliceV(e, false, items), |ListText(encs)|))
  {
    var data := ListText(encs) + rest;
    var t := Zero(SliceS(e));
    assert ItemStart(encs, 0) == 1 by {
      assert encs[..0] == [];
    }
    ItemsRoundTripIntro(items, encs, e);
    ItemsDecode(e, items, encs, rest, 0);
    assert items[..0] == [];
    assert data[0] == ListToken;
    assert DecodeList(data, e) == DecodeItems(data, 1, e, []);
    assert Decode(data, t) == DecodeValue(data, t, true);
    assert DecodeValue(data, t, true) == DecodeKind(data, t, true);
  }

  /**
   * A slice of round-tripping values (other than a []byte, which is
   * written as a string) round-trips; a nil slice comes back empty but not
   * nil.
   */
  lemma ListRoundTrips(e: Shape, isNil: bool, items: seq<GoValue>, encs: seq<bytes>)
    requires WellFormed(SliceV(e, isNil, items)) && e != UintS(W8) && |encs| == |items|
    requires forall i :: 0 <= i < |items| ==> RoundTrips(items[i], encs[i])
    ensures Marshalled(SliceV(e, isNil, items)) == Success(ListText(encs))
    ensures RoundTrips(SliceV(e, false, items), ListText(encs))
  {
    forall i | 0 <= i < |items|
      ensures Marshalled(items[i]) == Success(encs[i])
    {
      assert RoundTrips(items[i], encs[i]);
    }
    ListMarshalled(e, isNil, items, encs);
    ListMarshalled(e, false, items, encs);
    var v := SliceV(e, false, items);
    var enc := ListText(encs);
    ZeroWellFormed(TypeOf(v));
    forall rest
      ensures Decode(enc + rest, Zero(TypeOf(v))) == Success((v, |enc|))
    {
      ListDecoded(e, items, encs, rest);
    }
    RoundTripsIntro(v, enc);
  }

  // ---------------------------------------------------------------------
  // Dictionaries

  /** encodeString of each key, in order. */
  function KeyTexts(keys: seq<bytes>): (r: seq<bytes>)
    ensures |r| == |keys|
    ensures forall i :: 0 <= i < |keys| ==> r[i] == EncodeString(keys[i])
  {
    seq(|keys|, i requires 0 <= i < |keys| => EncodeString(keys[i]))
  }

  /** The key texts of the first keys are the first key texts. */
  lemma KeyTextsPrefix(keys: seq<bytes>, n: nat)
    requires n <= |keys|
    ensures KeyTexts(keys)[..n] == KeyTexts(keys[..n])
  {
  }

  /** Each key's text followed by its value's encoding. */
  function PairParts(kencs: seq<bytes>, vencs: seq<bytes>): (r: seq<bytes>)
    requires |kencs| == |vencs|
    ensures |r| == |kencs|
    ensures forall i :: 0 <= i < |kencs| ==> r[i] == kencs[i] + vencs[i]
  {
    seq(|kencs|, i requires 0 <= i < |kencs| => kencs[i] + vencs[i])
  }

  /** The parts of the first pairs are the first parts. */
  lemma PairPartsPrefix(kencs: seq<bytes>, vencs: seq<bytes>, n: nat)
    requires |kencs| == |vencs| && n <= |kencs|
    ensures PairParts(kencs, vencs)[..n] == PairParts(kencs[..n], vencs[..n])
  {
  }

  /** What `enc` holds under each of `keys`, in order. */
  function Lookups<V>(keys: seq<bytes>, enc: map<bytes, V>): (r: seq<V>)
    requires forall i :: 0 <= i < |keys| ==> keys[i] in enc
    ensures |r| == |keys|
    ensures forall i :: 0 <= i < |keys| ==> r[i] == enc[keys[i]]
  {
    seq(|keys|, i requires 0 <= i < |keys| => enc[keys[i]])
  }

  /** The lookups of the first keys are the first lookups. */
  lemma LookupsPrefix<V>(keys: seq<bytes>, enc: map<bytes, V>, n: nat)
    requires forall i :: 0 <= i < |keys| ==> keys[i] in enc
    requires n <= |keys|
    ensures Lookups(keys, enc)[..n] == Lookups(keys[..n], enc)
  {
  }

  /** Each key in sorted order is a key of the set. */
  lemma SortedKeysIn(K: set<bytes>)
    ensures forall i :: 0 <= i < |SortedKeys(K)| ==> SortedKeys(K)[i] in K
  {
  }

  /** The dictionary text of `m`: `d`, its keys in order, each with its value's encoding, `e`. */
  ghost function DictText(m: map<bytes, GoValue>, enc: map<bytes, bytes>): bytes
    requires m.Keys <= enc.Keys
  {
    var keys := SortedKeys(m.Keys);
    SortedKeysIn(m.Keys);
    PairsText(KeyTexts(keys), Lookups(keys, enc))
  }

  /** The parts of the pairs are the parts of all but the last, then the last key's text and value's encoding. */
  lemma PairPartsSnoc(keys: seq<bytes>, vencs: seq<bytes>)
    requires |keys| == |vencs| && keys != []
    ensures Concat(PairParts(KeyTexts(keys), vencs)) ==
      Concat(PairParts(KeyTexts(keys[..|keys| - 1]), vencs[..|keys| - 1])) + EncodeString(keys[|keys| - 1]) +
      vencs[|keys| - 1]
  {
    var n := |keys| - 1;
    var parts := PairParts(KeyTexts(keys), vencs);
    KeyTextsPrefix(keys, n);
    PairPartsPrefix(KeyTexts(keys), vencs, n);
    assert parts[n] == EncodeString(keys[n]) + vencs[n];
    AppendAssoc(Concat(parts[..n]), EncodeString(keys[n]), vencs[n]);
  }

  /** The pairs encode as the concatenation of their parts. */
  lemma {:induction false} PairsConcat(keys: seq<bytes>, m: map<bytes, GoValue>, vencs: seq<bytes>, bound: nat)
    requires LowerEntries(m, bound) && |vencs| == |keys|
    requires forall i :: 0 <= i < |keys| ==> keys[i] in m && Marshalled(m[keys[i]]) == Success(vencs[i])
    ensures PairsEncoding(keys, m, bound) == Success(Concat(PairParts(KeyTexts(keys), vencs)))
    decreases |keys|
  {
    if keys != [] {
      var n := |keys| - 1;
      PairsConcat(keys[..n], m, vencs[..n], bound);
      PairPartsSnoc(keys, vencs);
    }
  }

  /** encodeDict writes a string-keyed map whose values have encodings `enc` as its dictionary text. */
  lemma DictMarshalled(e: Shape, isNil: bool, m: map<bytes, GoValue>, enc: map<bytes, bytes>)
    requires WellFormed(MapV(StringS, e, isNil, m)) && m.Keys <= enc.Keys
    requires forall k :: k in m ==> Marshalled(m[k]) == Success(enc[k])
    ensures Marshalled(MapV(StringS, e, isNil, m)) == Success(DictText(m, enc))
  {
    var v := MapV(StringS, e, isNil, m);
    var keys := SortedKeys(m.Keys);
    MapReflected(e, isNil, m);
    SortedKeysIn(m.Keys);
    PairsConcat(keys, m, Lookups(keys, enc), Height(v));
  }

  /** A string-keyed map is written by encodeDict, under its own height. */
  lemma MapReflected(e: Shape, isNil: bool, m: map<bytes, GoValue>)
    requires WellFormed(MapV(StringS, e, isNil, m))
    ensures LowerEntries(m, Height(MapV(StringS, e, isNil, m)))
    ensures Marshalled(MapV(StringS, e, isNil, m)) == DictEncoding(m, Height(MapV(StringS, e, isNil, m)))
  {
    var v := MapV(StringS, e, isNil, m);
    assert Normalize(v) == v;
    assert Marshalled(v) == Reflected(v);
    assert Deref(v) == Some(v);
    EntriesLower(v);
  }

  /**
   * encodeStruct writes the map structToMap builds, as encodeDict writes a
   * map: a struct whose map has values with encodings `enc` is written as
   * that map's dictionary text.
   */
  lemma StructMarshalled(v: GoValue, m: map<bytes, GoValue>, enc: map<bytes, bytes>)
    requires v.StructV? && WellFormed(v) && StructToMap(v) == Success(m) && m.Keys <= enc.Keys
    requires forall k :: k in m ==> Marshalled(m[k]) == Success(enc[k])
    ensures Marshalled(v) == Success(DictText(m, enc))
  {
    var keys := SortedKeys(m.Keys);
    assert Normalize(v) == v;
    assert Marshalled(v) == Reflected(v);
    assert Deref(v) == Some(v);
    SortedKeysIn(m.Keys);
    assert Reflected(v) == DictEncoding(m, Height(v));
    PairsConcat(keys, m, Lookups(keys, enc), Height(v));
  }

  /**
   * What decodeDict's loop needs of a pair: the key's text is not the
   * closing `e` and decodes as a string to the key, and the value's
   * encoding decodes into the zero value of the element type as the value,
   * whatever follows each.
   */
  ghost predicate PairDecodes(kenc: bytes, key: bytes, venc: bytes, v: GoValue, e: Shape)
    requires WellFormed(Zero(e))
  {
    && kenc != [] && kenc[0] != EndToken
    && (forall rest :: DecodeString(kenc + rest) == Success((key, |kenc|)))
    && (forall rest :: Decode(venc + rest, Zero(e)) == Success((v, |venc|)))
  }

  /** Every pair decodes; kept recursive so that its instances are taken one at a time. */
  ghost predicate PairsDecodable(kencs: seq<bytes>, keys: seq<bytes>, vencs: seq<bytes>, vals: seq<GoValue>, e: Shape)
    requires WellFormed(Zero(e))
    decreases |keys|
  {
    && |kencs| == |keys| == |vencs| == |vals|
    && (keys != [] ==>
      && var n := |keys| - 1;
      && PairsDecodable(kencs[..n], keys[..n], vencs[..n], vals[..n], e)
      && PairDecodes(kencs[n], keys[n], vencs[n], vals[n], e))
  }

  /** Pair `j` of decodable pairs decodes. */
  lemma {:induction false} PairsDecodableAt(kencs: seq<bytes>, keys: seq<bytes>, vencs: seq<bytes>, vals: seq<GoValue>,
                                            e: Shape, j: nat)
    requires WellFormed(Zero(e)) && PairsDecodable(kencs, keys, vencs, vals, e) && j < |keys|
    ensures PairDecodes(kencs[j], keys[j], vencs[j], vals[j], e)
    decreases |keys|
  {
    var n := |keys| - 1;
    if j < n {
      PairsDecodableAt(kencs[..n], keys[..n], vencs[..n], vals[..n], e, j);
    }
  }

  /** A key's string is not the closing `e` and decodes to the key whatever follows it. */
  lemma KeyDecodes(key: bytes)
    requires |EncodeString(key)| <= MaxInt64
    ensures EncodeString(key) != [] && EncodeString(key)[0] != EndToken
    ensures forall rest :: DecodeString(EncodeString(key) + rest) == Success((key, |EncodeString(key)|))
  {
    assert EncodeString(key)[0] == FormatInt(|key|)[0];
    forall rest
      ensures DecodeString(EncodeString(key) + rest) == Success((key, |EncodeString(key)|))
    {
      StringRoundTrip(key, rest);
    }
  }

  /** Round-tripping values of type `e` under keys whose strings fit are decodable pairs. */
  lemma {:induction false} PairsDecodableIntro(keys: seq<bytes>, vencs: seq<bytes>, vals: seq<GoValue>, e: Shape)
    requires |keys| == |vencs| == |vals| && WellFormed(Zero(e))
    requires forall i :: 0 <= i < |keys| ==> |EncodeString(keys[i])| <= MaxInt64
    requires forall i :: 0 <= i < |keys| ==> WellFormed(vals[i]) && TypeOf(vals[i]) == e
    requires forall i :: 0 <= i < |keys| ==> RoundTrips(vals[i], vencs[i])
    ensures PairsDecodable(KeyTexts(keys), keys, vencs, vals, e)
    decreases |keys|
  {
    if keys != [] {
      var n := |keys| - 1;
      assert PairDecodes(KeyTexts(keys)[n], keys[n], vencs[n], vals[n], e) by {
        assert RoundTrips(vals[n], vencs[n]);
        KeyDecodes(keys[n]);
      }
      PairsDecodableIntro(keys[..n], vencs[..n], vals[..n], e);
      KeyTextsPrefix(keys, n);
    }
  }

  /** The map decodeDict has built after storing the pairs in order, later keys overwriting. */
  function MapOf(keys: seq<bytes>, vals: seq<GoValue>): map<bytes, GoValue>
    requires |keys| == |vals|
    decreases |keys|
  {
    if keys == [] then map[]
    else
      var n := |keys| - 1;
      MapOf(keys[..n], vals[..n])[keys[n] := vals[n]]
  }

  /** Storing the next pair. */
  lemma MapOfStep(keys: seq<bytes>, vals: seq<GoValue>, j: nat)
    requires |keys| == |vals| && j < |keys|
    ensures MapOf(keys[..j + 1], vals[..j + 1]) == MapOf(keys[..j], vals[..j])[keys[j] := vals[j]]
  {
    assert keys[..j + 1][..j] == keys[..j];
    assert vals[..j + 1][..j] == vals[..j];
  }

  /** Storing each key's value of `m`, in any order, gives the part of `m` under those keys. */
  lemma {:induction false} MapOfLookups(keys: seq<bytes>, m: map<bytes, GoValue>)
    requires forall i :: 0 <= i < |keys| ==> keys[i] in m
    ensures forall k :: k in MapOf(keys, Lookups(keys, m)) <==> k in keys
    ensures forall k :: k in MapOf(keys, Lookups(keys, m)) ==> MapOf(keys, Lookups(keys, m))[k] == m[k]
    decreases |keys|
  {
    if keys != [] {
      var n := |keys| - 1;
      LookupsPrefix(keys, m, n);
      MapOfLookups(keys[..n], m);
      forall k
        ensures k in keys <==> k in keys[..n] || k == keys[n]
      {
        if k in keys {
          var i :| 0 <= i < |keys| && keys[i] == k;
          if i < n {
            assert keys[..n][i] == k;
          }
        }
      }
    }
  }

  /** What decodeDict's loop returns from `read` on, with the entries `acc` decoded so far. */
  ghost function EntriesFrom(data: bytes, read: nat, e: Shape, acc: map<bytes, GoValue>)
    : Outcome<(map<bytes, GoValue>, nat)>
    requires 1 <= read <= |data|
  {
    DecodeEntries(data, read, e, acc)
  }

  /** One turn of decodeDict's loop over a key and a value that decode. */
  lemma EntryTurn(data: bytes, read: nat, e: Shape, acc: map<bytes, GoValue>, key: bytes, kn: nat, v: GoValue, vn: nat,
                  next: nat, acc': map<bytes, GoValue>)
    requires 1 <= read < |data| && data[read] != EndToken && read + kn <= |data|
    requires DecodeString(data[read..]) == Success((key, kn))
    requires WellFormed(Zero(e)) && Decode(data[read + kn..], Zero(e)) == Success((v, vn))
    requires next == read + kn + vn && acc' == acc[key := v]
    ensures next <= |data|
    ensures EntriesFrom(data, read, e, acc) == EntriesFrom(data, next, e, acc')
  {
  }

  /** What follows a known front of a suffix. */
  lemma SliceAfter<T>(s: seq<T>, i: nat, a: seq<T>, b: seq<T>)
    requires i <= |s| && s[i..] == a + b
    ensures i + |a| <= |s| && s[i + |a|..] == b
  {
    assert s[i + |a|..] == s[i..][|a|..];
  }

  /** One turn of decodeDict's loop over a key's text and a value's encoding, both of which decode. */
  lemma PairTurn(data: bytes, read: nat, e: Shape, acc: map<bytes, GoValue>, kenc: bytes, key: bytes,
                 venc: bytes, v: GoValue, tail: bytes, next: nat, acc': map<bytes, GoValue>)
    requires 1 <= read <= |data| && data[read..] == kenc + (venc + tail)
    requires kenc != [] && kenc[0] != EndToken && DecodeString(kenc + (venc + tail)) == Success((key, |kenc|))
    requires WellFormed(Zero(e)) && Decode(venc + tail, Zero(e)) == Success((v, |venc|))
    requires next == read + |kenc| + |venc| && acc' == acc[key := v]
    ensures next <= |data|
    ensures EntriesFrom(data, read, e, acc) == EntriesFrom(data, next, e, acc')
  {
    assert data[read] == kenc[0];
    SliceAfter(data, read, kenc, venc + tail);
    EntryTurn(data, read, e, acc, key, |kenc|, v, |venc|, next, acc');
  }

  /** The dictionary text of pairs: `d`, each key's text and its value's encoding, `e`. */
  function PairsText(kencs: seq<bytes>, vencs: seq<bytes>): bytes
    requires |kencs| == |vencs|
  {
    Framed(DictToken, PairParts(kencs, vencs))
  }

  /** decodeDict's loop over the dictionary text, at the start of pair `j`, reads that pair and goes on. */
  lemma PairsDecodeStep(e: Shape, kencs: seq<bytes>, keys: seq<bytes>, vencs: seq<bytes>, vals: seq<GoValue>,
                        rest: bytes, j: nat)
    requires WellFormed(Zero(e)) && PairsDecodable(kencs, keys, vencs, vals, e) && j < |keys|
    ensures ItemStart(PairParts(kencs, vencs), j) < ItemStart(PairParts(kencs, vencs), j + 1)
      <= |PairsText(kencs, vencs) + rest|
    ensures EntriesFrom(PairsText(kencs, vencs) + rest, ItemStart(PairParts(kencs, vencs), j), e,
        MapOf(keys[..j], vals[..j])) ==
      EntriesFrom(PairsText(kencs, vencs) + rest, ItemStart(PairParts(kencs, vencs), j + 1), e,
        MapOf(keys[..j + 1], vals[..j + 1]))
  {
    var parts := PairParts(kencs, vencs);
    var data := PairsText(kencs, vencs) + rest;
    var read := ItemStart(parts, j);
    var next := ItemStart(parts, j + 1);
    FramedAt(DictToken, parts, rest, j);
    var tail := data[next..];
    assert data[read..] == kencs[j] + (vencs[j] + tail) by {
      AppendAssoc(kencs[j], vencs[j], tail);
    }
    assert DecodeString(kencs[j] + (vencs[j] + tail)) == Success((keys[j], |kencs[j]|)) &&
      Decode(vencs[j] + tail, Zero(e)) == Success((vals[j], |vencs[j]|)) &&
      kencs[j] != [] && kencs[j][0] != EndToken by {
      PairsDecodableAt(kencs, keys, vencs, vals, e, j);
    }
    assert next == read + |kencs[j]| + |vencs[j]| by {
      assert parts[j] == kencs[j] + vencs[j];
    }
    MapOfStep(keys, vals, j);
    PairTurn(data, read, e, MapOf(keys[..j], vals[..j]), kencs[j], keys[j], vencs[j], vals[j], tail,
             next, MapOf(keys[..j + 1], vals[..j + 1]));
  }

  /** decodeDict's loop over the dictionary text, after the last pair, stops after the closing `e`. */
  lemma PairsDecodeEnd(e: Shape, kencs: seq<bytes>, keys: seq<bytes>, vencs: seq<bytes>, vals: seq<GoValue>,
                       rest: bytes)
    requires |kencs| == |keys| == |vencs| == |vals|
    ensures ItemStart(PairParts(kencs, vencs), |keys|) < |PairsText(kencs, vencs) + rest|
    ensures EntriesFrom(PairsText(kencs, vencs) + rest, ItemStart(PairParts(kencs, vencs), |keys|), e,
        MapOf(keys, vals)) ==
      Success((MapOf(keys, vals), |PairsText(kencs, vencs)|))
  {
    FramedEnd(DictToken, PairParts(kencs, vencs), rest);
  }

  /**
   * decodeDict's loop over a dictionary written by encodeDict: from the
   * start of pair `j`, with the first `j` pairs stored, it stores the
   * remaining pairs and stops after the closing `e`.
   */
  lemma {:induction false} PairsDecode(e: Shape, kencs: seq<bytes>, keys: seq<bytes>, vencs: seq<bytes>,
                                       vals: seq<GoValue>, rest: bytes, j: nat)
    requires WellFormed(Zero(e)) && PairsDecodable(kencs, keys, vencs, vals, e) && j <= |keys|
    ensures ItemStart(PairParts(kencs, vencs), j) <= |PairsText(kencs, vencs) + rest|
    ensures EntriesFrom(PairsText(kencs, vencs) + rest, ItemStart(PairParts(kencs, vencs), j), e,
        MapOf(keys[..j], vals[..j])) ==
      Success((MapOf(keys, vals), |PairsText(kencs, vencs)|))
    decreases |keys| - j
  {
    if j == |keys| {
      PairsDecodeEnd(e, kencs, keys, vencs, vals, rest);
      assert keys[..j] == keys && vals[..j] == vals;
    } else {
      PairsDecodeStep(e, kencs, keys, vencs, vals, rest, j);
      PairsDecode(e, kencs, keys, vencs, vals, rest, j + 1);
    }
  }

  /** decode reads the dictionary text of decodable pairs back into a fresh map of them. */
  lemma PairsDecoded(e: Shape, kencs: seq<bytes>, keys: seq<bytes>, vencs: seq<bytes>, vals: seq<GoValue>,
                     rest: bytes)
    requires WellFormed(Zero(e)) && PairsDecodable(kencs, keys, vencs, vals, e)
    ensures Decode(PairsText(kencs, vencs) + rest, Zero(MapS(StringS, e))) ==
      Success((MapV(StringS, e, false, MapOf(keys, vals)), |PairsText(kencs, vencs)|))
  {
    var data := PairsText(kencs, vencs) + rest;
    var t := Zero(MapS(StringS, e));
    assert DecodeDict(data, StringS, e) == Success((MapOf(keys, vals), |PairsText(kencs, vencs)|)) by {
      PairsDecode(e, kencs, keys, vencs, vals, rest, 0);
      assert keys[..0] == [] && vals[..0] == [];
      assert ItemStart(PairParts(kencs, vencs), 0) == 1;
      assert data[0] == DictToken;
    }
    assert Decode(data, t) == DecodeValue(data, t, true);
    assert DecodeValue(data, t, true) == DecodeKind(data, t, true);
  }

  /** decode into a fresh zero value of type `s`. */
  ghost function DecodeAs(data: bytes, s: Shape): Outcome<(GoValue, nat)> {
    ZeroWellFormed(s);
    Decode(data, Zero(s))
  }

  /** decode reads the dictionary text of round-tripping values back into a fresh map of them. */
  lemma DictDecoded(e: Shape, m: map<bytes, GoValue>, enc: map<bytes, bytes>, rest: bytes)
    requires m.Keys <= enc.Keys
    requires forall k :: k in m ==> |EncodeString(k)| <= MaxInt64
    requires forall k :: k in m ==> WellFormed(m[k]) && TypeOf(m[k]) == e
    requires forall k :: k in m ==> RoundTrips(m[k], enc[k])
    ensures DecodeAs(DictText(m, enc) + rest, MapS(StringS, e)) ==
      Success((MapV(StringS, e, false, m), |DictText(m, enc)|))
  {
    var keys := SortedKeys(m.Keys);
    ZeroWellFormed(e);
    ZeroWellFormed(MapS(StringS, e));
    SortedKeysIn(m.Keys);
    MapDecodable(e, m, enc, keys);
    SortedMapOf(m);
    PairsDecoded(e, KeyTexts(keys), keys, Lookups(keys, enc), Lookups(keys, m), rest);
  }

  /** The pairs of a map of round-tripping values, taken in any order of its keys, are decodable. */
  lemma MapDecodable(e: Shape, m: map<bytes, GoValue>, enc: map<bytes, bytes>, keys: seq<bytes>)
    requires m.Keys <= enc.Keys && WellFormed(Zero(e))
    requires forall i :: 0 <= i < |keys| ==> keys[i] in m
    requires forall k :: k in m ==> |EncodeString(k)| <= MaxInt64
    requires forall k :: k in m ==> WellFormed(m[k]) && TypeOf(m[k]) == e
    requires forall k :: k in m ==> RoundTrips(m[k], enc[k])
    ensures PairsDecodable(KeyTexts(keys), keys, Lookups(keys, enc), Lookups(keys, m), e)
  {
    var vencs := Lookups(keys, enc);
    var vals := Lookups(keys, m);
    forall i | 0 <= i < |keys|
      ensures |EncodeString(keys[i])| <= MaxInt64
      ensures WellFormed(vals[i]) && TypeOf(vals[i]) == e
      ensures RoundTrips(vals[i], vencs[i])
    {
      var k := keys[i];
      assert k in m && vals[i] == m[k] && vencs[i] == enc[k];
    }
    PairsDecodableIntro(keys, vencs, vals, e);
  }

  /** Storing a map's values in key order rebuilds the map. */
  lemma SortedMapOf(m: map<bytes, GoValue>)
    ensures MapOf(SortedKeys(m.Keys), Lookups(SortedKeys(m.Keys), m)) == m
  {
    SortedKeysIn(m.Keys);
    MapOfLookups(SortedKeys(m.Keys), m);
  }

  /**
   * A string-keyed map of round-tripping values round-trips, its keys
   * written in sorted order; a nil map comes back empty but not nil.
   */
  lemma DictRoundTrips(e: Shape, isNil: bool, m: map<bytes, GoValue>, enc: map<bytes, bytes>)
    requires WellFormed(MapV(StringS, e, isNil, m)) && m.Keys <= enc.Keys
    requires forall k :: k in m ==> |EncodeString(k)| <= MaxInt64
    requires forall k :: k in m ==> RoundTrips(m[k], enc[k])
    ensures Marshalled(MapV(StringS, e, isNil, m)) == Success(DictText(m, enc))
    ensures RoundTrips(MapV(StringS, e, false, m), DictText(m, enc))
  {
    forall k | k in m
      ensures Marshalled(m[k]) == Success(enc[k])
    {
      assert RoundTrips(m[k], enc[k]);
    }
    DictMarshalled(e, isNil, m, enc);
    DictMarshalled(e, false, m, enc);
    var v := MapV(StringS, e, false, m);
    var text := DictText(m, enc);
    ZeroWellFormed(TypeOf(v));
    forall rest
      ensures Decode(text + rest, Zero(TypeOf(v))) == Success((v, |text|))
    {
      DictDecoded(e, m, enc, rest);
    }
    RoundTripsIntro(v, text);
  }
}
