/**
 * The example of the package documentation: a struct with an untagged
 * []byte field, an int field renamed by its tag, an omitempty string field
 * and a skipped map field. Its zero value encodes as
 * `d5:Attr00:8:int_attri0ee`.
 */
module DocumentedExample {
  import opened Wrappers
  import opened Constants
  import opened Strconv
  import opened Values
  import opened Tags
  import opened KeyOrder
  import opened EncodeSpec
  import opened EncodeLaws
  import opened RoundTrip

  const Attr0: bytes := ['A' as int, 't' as int, 't' as int, 'r' as int, '0' as int]
  const Attr1: bytes := ['A' as int, 't' as int, 't' as int, 'r' as int, '1' as int]
  const Attr2: bytes := ['A' as int, 't' as int, 't' as int, 'r' as int, '2' as int]
  const Attr3: bytes := ['A' as int, 't' as int, 't' as int, 'r' as int, '3' as int]
  const IntAttr: bytes := ['i' as int, 'n' as int, 't' as int, '_' as int, 'a' as int, 't' as int, 't' as int, 'r' as int]
  const StrAttr: bytes := ['s' as int, 't' as int, 'r' as int, '_' as int, 'a' as int, 't' as int, 't' as int, 'r' as int]
  /** The tag text of Attr2, `str_attr,omitempty`. */
  const StrAttrOmitEmpty: bytes := TagText(StrAttr, true)

  /** The fields Attr0 to Attr3 of the documented struct type, with their tags. */
  const Fields: seq<Field> := [
    Field(Attr0, map[], false, true, ByteSlice),
    Field(Attr1, map[StructTagKey := IntAttr], false, true, IntS(Word)),
    Field(Attr2, map[StructTagKey := StrAttrOmitEmpty], false, true, StringS),
    Field(Attr3, map[StructTagKey := SkipMarker], false, true, MapS(StringS, BoolS))
  ]

  /** The text the documentation gives for the zero value. */
  const Documented: bytes :=
    ['d' as int, '5' as int, ':' as int, 'A' as int, 't' as int, 't' as int, 'r' as int, '0' as int, '0' as int, ':' as int, '8' as int, ':' as int, 'i' as int, 'n' as int, 't' as int, '_' as int, 'a' as int, 't' as int, 't' as int, 'r' as int, 'i' as int, '0' as int, 'e' as int, 'e' as int]

  /** The zero value of the documented struct type: nil, 0, "" and a nil map. */
  function Example(): (v: GoValue)
    ensures v == Zero(StructS(Fields)) && WellFormed(v)
  {
    var v := StructV(Fields, [SliceV(UintS(W8), true, []), IntV(Word, 0), StringV([]), MapV(StringS, BoolS, true, map[])]);
    assert v.vals == Zero(StructS(Fields)).vals;
    ZeroWellFormed(StructS(Fields));
    v
  }

  /** What newTag resolves for the four fields. */
  lemma ExampleTags()
    ensures NewTag(Fields[0]) == Tag(Attr0, false, false)
    ensures NewTag(Fields[1]) == Tag(IntAttr, false, false)
    ensures NewTag(Fields[2]) == Tag(StrAttr, true, false)
    ensures NewTag(Fields[3]).skip
  {
    assert NewTag(Fields[0]) == Tag(Attr0, false, false) by {
      UntaggedRule(Fields[0]);
    }
    assert NewTag(Fields[1]) == Tag(IntAttr, false, false) by {
      assert Comma !in IntAttr && IntAttr != SkipMarker;
      TagTextResolves(Fields[1], IntAttr, false);
    }
    assert NewTag(Fields[2]) == Tag(StrAttr, true, false) by {
      assert Comma !in StrAttr && StrAttr != SkipMarker;
      TagTextResolves(Fields[2], StrAttr, true);
    }
    assert NewTag(Fields[3]).skip by {
      SkipRule(Fields[3]);
      NoSeparator(SkipMarker, Comma);
    }
  }

  /** The map structToMap builds for the zero value. */
  const Entries: map<bytes, GoValue> := map[Attr0 := SliceV(UintS(W8), true, []), IntAttr := IntV(Word, 0)]

  /** The encodings of its two values: the empty string and the integer 0. */
  const Texts: map<bytes, bytes> := map[Attr0 := [ZeroDigit, StringSeparatorToken], IntAttr := [IntToken, ZeroDigit, EndToken]]

  /**
   * structToMap of the zero value: Attr0 under its own name and Attr1
   * under `int_attr`; Attr2 is dropped because the whole struct is empty,
   * and Attr3 is skipped.
   */
  lemma ExampleMap()
    ensures StructToMap(Example()) == Success(Entries)
  {
    var v := Example();
    ExampleFirstTwo();
    ExampleTags();
    assert IsEmpty(v);
    assert StructFields(v, 3) == StructFields(v, 2);
    assert StructFields(v, 4) == StructFields(v, 3);
  }

  /** The first two fields are emitted under `Attr0` and `int_attr`. */
  lemma ExampleFirstTwo()
    ensures StructFields(Example(), 2) == Success(Entries)
  {
    var v := Example();
    ExampleTags();
    assert StructFields(v, 1) == Success(map[Attr0 := v.vals[0]]);
  }

  /** The two keys in encodeDict's order: the shorter one first. */
  lemma ExampleKeys()
    ensures SortedKeys({Attr0, IntAttr}) == [Attr0, IntAttr]
  {
    var s := [Attr0, IntAttr];
    assert KeyLess(s[0], s[1]);
    SortedUnique(s, {Attr0, IntAttr});
  }

  /** Each value of the map is written as its text. */
  lemma ExampleValues()
    ensures forall k :: k in Entries ==> k in Texts && Marshalled(Entries[k]) == Success(Texts[k])
  {
    Attr0Value();
    IntAttrValue();
  }

  /** The nil []byte under Attr0 is written as the empty string. */
  lemma Attr0Value()
    ensures Marshalled(Entries[Attr0]) == Success(Texts[Attr0])
  {
    ByteSliceRoundTrip(true, [], []);
    assert EncodeString(ItemBytes([])) == Texts[Attr0];
  }

  /** The int 0 under int_attr is written as `i0e`. */
  lemma IntAttrValue()
    ensures Marshalled(Entries[IntAttr]) == Success(Texts[IntAttr])
  {
    IntValueRoundTrip(Word, 0, []);
    assert EncodeInt(0) == Texts[IntAttr];
  }

  /**
   * The documented text, piece by piece: `d`, the key Attr0 with its
   * length, the empty string, the key int_attr with its length, the
   * integer 0, and `e`.
   */
  lemma DocumentedPieces()
    ensures Documented ==
      [DictToken] + ((EncodeString(Attr0) + Texts[Attr0]) + (EncodeString(IntAttr) + Texts[IntAttr])) + [EndToken]
  {
    Attr0Key();
    IntAttrKey();
  }

  /** The key Attr0 is written as `5:Attr0`. */
  lemma Attr0Key()
    ensures EncodeString(Attr0) == [ZeroDigit + 5, StringSeparatorToken] + Attr0
  {
  }

  /** The key int_attr is written as `8:int_attr`. */
  lemma IntAttrKey()
    ensures EncodeString(IntAttr) == [ZeroDigit + 8, StringSeparatorToken] + IntAttr
  {
  }

  /** Two parts concatenate as themselves. */
  lemma ConcatTwo(x: bytes, y: bytes)
    ensures Concat([x, y]) == x + y
  {
    var parts := [x, y];
    var none: seq<bytes> := [];
    assert parts[..1][..0] == none;
    assert parts[..1] == [x];
  }

  /** The dictionary text of two pairs, in the order given. */
  lemma TwoPairs(enc: map<bytes, bytes>, a: bytes, b: bytes)
    requires a in enc && b in enc
    ensures PairsText(KeyTexts([a, b]), Lookups([a, b], enc)) ==
      [DictToken] + ((EncodeString(a) + enc[a]) + (EncodeString(b) + enc[b])) + [EndToken]
  {
    var x, y := EncodeString(a) + enc[a], EncodeString(b) + enc[b];
    assert PairParts(KeyTexts([a, b]), Lookups([a, b], enc)) == [x, y];
    ConcatTwo(x, y);
  }

  /** The dictionary text of the map is the documented text. */
  lemma ExampleText()
    ensures DictText(Entries, Texts) == Documented
  {
    assert Entries.Keys == {Attr0, IntAttr};
    ExampleKeys();
    TwoPairs(Texts, Attr0, IntAttr);
    DocumentedPieces();
  }

  /** The zero value of the documented struct encodes as `d5:Attr00:8:int_attri0ee`. */
  lemma ExampleEncoding()
    ensures Marshalled(Example()) == Success(Documented)
  {
    ExampleMap();
    ExampleValues();
    StructMarshalled(Example(), Entries, Texts);
    ExampleText();
  }
}
