/**
 * The struct-field resolver of encode.go (newTag): how a field's declared
 * name, its `bencode` tag and its embedding decide the wire name, the skip
 * rule and omitempty. The decoder consults the same resolver.
 */
module Tags {
  import opened Constants
  import opened Values

  const Comma: byte := ',' as int
  const SkipMarker: bytes := ['-' as int]

  /** What newTag resolves for one field. */
  datatype Tag = Tag(name: bytes, omitEmpty: bool, skip: bool)

  /** reflect.StructTag.Get: the value under `key`, or the empty string. */
  function Lookup(tags: map<bytes, bytes>, key: bytes): (v: bytes)
    ensures key !in tags ==> v == []
  {
    if key in tags then tags[key] else []
  }

  /** strings.Split(s, sep) for a one-byte separator. */
  function Split(s: bytes, sep: byte): (parts: seq<bytes>)
    ensures |parts| >= 1
    ensures forall j, k :: 0 <= j < |parts| && 0 <= k < |parts[j]| ==> parts[j][k] != sep
    decreases |s|
  {
    if s == [] then [[]]
    else if s[0] == sep then [[]] + Split(s[1..], sep)
    else
      var rest := Split(s[1..], sep);
      [[s[0]] + rest[0]] + rest[1..]
  }

  /** strings.Join(parts, sep), the inverse of Split. */
  function Join(parts: seq<bytes>, sep: byte): bytes
    requires |parts| >= 1
  {
    if |parts| == 1 then parts[0] else parts[0] + [sep] + Join(parts[1..], sep)
  }

  /** Splitting loses nothing: joining the parts gives the string back. */
  lemma {:induction false} SplitJoin(s: bytes, sep: byte)
    ensures Join(Split(s, sep), sep) == s
    decreases |s|
  {
    if s == [] {
    } else if s[0] == sep {
      SplitJoin(s[1..], sep);
      assert Split(s, sep)[1..] == Split(s[1..], sep);
    } else {
      var rest := Split(s[1..], sep);
      SplitJoin(s[1..], sep);
      var parts := Split(s, sep);
      if |rest| > 1 {
        assert parts[1..] == rest[1..];
        assert Join(parts, sep) == [s[0]] + rest[0] + [sep] + Join(rest[1..], sep);
      }
    }
  }

  /** newTag: resolve a field's wire name and flags. */
  function NewTag(f: Field): Tag {
    if !f.exported then Tag([], false, true)
    else
      var v := Lookup(f.tags, StructTagKey);
      if v == [] then
        if f.anonymous then Tag([], false, false) else Tag(f.name, false, false)
      else
        var split := Split(v, Comma);
        if split[0] == SkipMarker then Tag([], false, true)
        else
          var name := if split[0] == [] && !f.anonymous then f.name else split[0];
          Tag(name, OptionOmitEmpty in split[1..], false)
  }

  /** The tag text `name` or `name,omitempty`. */
  function TagText(name: bytes, omitEmpty: bool): bytes {
    if omitEmpty then name + [Comma] + OptionOmitEmpty else name
  }

  /**
   * The tag language reads back what TagText writes: an exported field
   * tagged `name` or `name,omitempty` gets that wire name (its declared name
   * when `name` is empty and the field is not embedded) and that flag, and is
   * not skipped. The name must not contain a comma or be "-".
   */
  lemma TagTextResolves(f: Field, name: bytes, omitEmpty: bool)
    requires f.exported
    requires Comma !in name && name != SkipMarker
    requires StructTagKey in f.tags && f.tags[StructTagKey] == TagText(name, omitEmpty)
    requires name == [] ==> omitEmpty
    ensures NewTag(f).name == (if name == [] && !f.anonymous then f.name else name)
    ensures NewTag(f).omitEmpty == omitEmpty
    ensures !NewTag(f).skip
  {
    var v := TagText(name, omitEmpty);
    var split := Split(v, Comma);
    SplitOf(name, omitEmpty);
  }

  lemma SplitOf(name: bytes, omitEmpty: bool)
    requires Comma !in name
    ensures Split(TagText(name, omitEmpty), Comma) ==
      if omitEmpty then [name, OptionOmitEmpty] else [name]
  {
    NoSeparator(OptionOmitEmpty, Comma);
    if omitEmpty {
      SplitAfterPrefix(name, OptionOmitEmpty, Comma);
    } else {
      NoSeparator(name, Comma);
    }
  }

  lemma {:induction false} NoSeparator(s: bytes, sep: byte)
    requires sep !in s
    ensures Split(s, sep) == [s]
    decreases |s|
  {
    if s != [] {
      assert s[0] in s;
      NoSeparator(s[1..], sep);
      assert [s[0]] + s[1..] == s;
    }
  }

  lemma {:induction false} SplitAfterPrefix(a: bytes, b: bytes, sep: byte)
    requires sep !in a && sep !in b
    ensures Split(a + [sep] + b, sep) == [a, b]
    decreases |a|
  {
    if a == [] {
      assert ([] + [sep] + b)[1..] == b;
      NoSeparator(b, sep);
    } else {
      var s := a + [sep] + b;
      assert a[0] in a;
      assert s[0] == a[0] && s[1..] == a[1..] + [sep] + b;
      SplitAfterPrefix(a[1..], b, sep);
      assert [a[0]] + a[1..] == a;
    }
  }

  /** An unexported field, or one tagged "-" (with or without options), is skipped. */
  lemma SkipRule(f: Field)
    ensures NewTag(f).skip <==>
      !f.exported || Split(Lookup(f.tags, StructTagKey), Comma)[0] == SkipMarker
  {
  }

  /** An untagged exported field keeps its declared name unless it is embedded. */
  lemma UntaggedRule(f: Field)
    requires f.exported && Lookup(f.tags, StructTagKey) == []
    ensures NewTag(f) == Tag(if f.anonymous then [] else f.name, false, false)
  {
  }

  /** A skipped field never carries a name or omitempty. */
  lemma SkippedIsAnonymousName(f: Field)
    ensures NewTag(f).skip ==> NewTag(f).name == [] && !NewTag(f).omitEmpty
  {
  }
}
