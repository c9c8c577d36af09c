# A verified model of go-torrent's bencode codec

This project models the `bencoding` package of go-torrent
(`vendor/github.com/KnutZuidema/go-torrent/bencoding`). The package
encodes Go values as bencode with `Marshal` and decodes bencode into Go values
with `Unmarshal`. Bencode has four productions: integers `i…e`, byte strings
`<length>:<bytes>`, lists `l…e` and dictionaries `d…e`. The model proves the
package's grammar checks, its error reporting and its round trips.

Go reflection is replaced by data. A `Shape` stands for a `reflect.Type` and a
`GoValue` for a value that carries its own element and field types. Writes
through `Unmarshal`'s target pointer are modelled by returning the new content
of the pointed-to location. A Go panic is the error `Panic`. The errors
`strconv` reports are `NumSyntax` and `NumRange`, and an error returned by a
user hook is `HookFailed`. A 64-bit platform is assumed, so Go's `int` is 64
bits wide.

Each core file has these modules:

- `constants.dfy` (`Constants`) holds the tokens, the sixteen error values and
  the extra failures named above.
- `decode.go` is modelled twice:
  - `DecodeSpec` has one function per Go routine, with the routine's read
    cursor as a parameter where Go has a loop;
  - `Decoder` has methods that run the same `while` loops as the Go code. Each
    method is proved to compute its `DecodeSpec` function, with one step method
    per loop turn.
  - `DecodeLaws` proves what the functions accept and reject.
  - `SkipLaws` proves that `readNextValue` passes over exactly one value of
    the bencode grammar, written as a `Wire` value, and that it reads
    integers as int64.
- `encode.go` is modelled the same way:
  - `EncodeSpec` specifies `Marshal` as a function;
  - `Encoder` has methods that run the Go loops. `encodeDict` collects its
    pairs into an array and sorts it in place by insertion.
  - `EncodeLaws` proves what `Marshal` writes and refuses.
- Shared modules:
  - `Tags` is the struct-tag resolver `newTag`;
  - `KeyOrder` is the dictionary key comparator;
  - `Strconv` is the part of Go's `strconv` that the codec calls;
  - `Values` holds the value model;
  - `RoundTrip` proves that decoding what `Marshal` writes gives the value
    back. This holds for integers of every width, booleans, strings and
    `[]byte`, and for lists and string-keyed maps built from round-tripping
    values;
  - `DocumentedExample` proves the example of the package documentation
    (docs.go:9-17): the zero value of its struct type is written as
    `d5:Attr00:8:int_attri0ee`.

`Marshal` iterates a Go map in an unspecified order. The specification uses
the one order a correct sort by `encodeDict`'s comparator can produce, which
is `KeyOrder.SortedKeys`. `KeyOrder.SortedUnique` proves that any strictly
sorted listing of the keys is that order. The comparator sorts shorter keys
first. This differs from the plain byte-string order of BEP 3, and the model
keeps the comparator the code has.

Where the package's documentation and its code disagree, the model follows the
code:

- The comment on `Unmarshal` (decode.go:35) says a `bool` is decoded from the
  integers 1 and 0. The code rejects only values above 1, so a negative integer
  decodes as `false` (`DecodeLaws.BoolFromInt`).
- Bencode forbids leading zeros in negative integers too. `decodeIntStr` looks
  only at the first byte of the text, which is the `-`, so `i-05e` is accepted
  as -5 (`DecodeLaws.NegativeLeadingZero`).
- A struct decodes without flattening embedded fields, although
  `structToMap` flattens them when encoding
  (`DecodeLaws.EmbeddedFieldOnlyUnderEmptyKey`). Skipped fields resolve to the
  empty name and stay in the decoder's field mapping under the key ""
  (`Tags.SkippedIsAnonymousName`).
- `omitempty` tests the whole struct for emptiness, not the field, as the code
  does (`isEmpty(rv)` at encode.go:176).
- `ErrInvalidToken` is declared but never returned. `DecodeSpec.Unmarshal`
  states this.

## Model

| member | source | states |
|---|---|---|
| Constants.SentinelsAreSixteen | vendor/github.com/KnutZuidema/go-torrent/bencoding/constants.go:17-34 | The package declares sixteen error values, pairwise distinct; IsSentinel recognises exactly them, and the extra failures (strconv errors, hook errors, panics) are not among them. |
| Constants.TokensUnambiguous | vendor/github.com/KnutZuidema/go-torrent/bencoding/constants.go:8-12 | The five structural tokens are distinct bytes and none is a decimal digit, so the first byte of a value tells an integer, a list, a dictionary and a string length prefix apart. |
| Strconv.Digits | vendor/github.com/KnutZuidema/go-torrent/bencoding/encode.go:69 | The decimal text written for n is canonical (no leading zero unless it is "0") and denotes n. |
| Strconv.CanonicalUnique | vendor/github.com/KnutZuidema/go-torrent/bencoding/decode.go:139-141 | Canonical decimal text is unique: every canonical digit run is the formatting of the number it denotes, so rejecting leading zeros leaves one text per length. |
| Strconv.ParseUint64 | vendor/github.com/KnutZuidema/go-torrent/bencoding/decode.go:172 | strconv.ParseUint succeeds exactly on non-empty all-digit text whose value is at most 2^64-1, and then returns that value. Every failure is a syntax error or a range error, and all-digit text only fails with a range error. |
| Strconv.ParseUint64Errors | vendor/github.com/KnutZuidema/go-torrent/bencoding/decode.go:172 | ParseUint reads the digits from the left and reports the first problem: a range error exactly when the digits at the start of the text already pass 2^64-1, whatever bytes follow them, and otherwise a syntax error for empty text or a byte that is not a digit. |
| Strconv.ParseInt64 | vendor/github.com/KnutZuidema/go-torrent/bencoding/decode.go:159 | strconv.ParseInt fails on text that is not an optional sign followed by at least one digit, and never with a syntax error on such text. Unsigned or `+` text gives its value when it is at most 2^63-1, and `-` text gives minus its value when that value is at most 2^63. Every other numeral is a range error. |
| Strconv.Atoi | vendor/github.com/KnutZuidema/go-torrent/bencoding/decode.go:142 | strconv.Atoi, which is ParseInt(s, 10, 64) on a 64-bit platform: on a non-empty run of digits it succeeds exactly when their value fits an int64, gives that value, and fails with a range error otherwise. |
| Strconv.ParseInt64Errors | vendor/github.com/KnutZuidema/go-torrent/bencoding/decode.go:159 | ParseInt reports a syntax error exactly when the text is not a sign and digits and the digits after the sign do not pass 2^64-1 before the first byte that is not a digit. Every other failure is a range error, so `-99999999999999999999x` is a range error. |
| Strconv.FormatIntRoundTrip | vendor/github.com/KnutZuidema/go-torrent/bencoding/encode.go:73 | ParseInt reads the text FormatInt writes for any int64 back as the same number. |
| Strconv.FormatUintRoundTrip | vendor/github.com/KnutZuidema/go-torrent/bencoding/encode.go:77 | ParseUint reads the text FormatUint writes for any uint64 back as the same number. |
| Strconv.FormatIntCanonical | vendor/github.com/KnutZuidema/go-torrent/bencoding/encode.go:73 | FormatInt writes canonical digits, preceded by a single '-' and a non-zero first digit for negative numbers. |
| Values.TruncSigned | vendor/github.com/KnutZuidema/go-torrent/bencoding/decode.go:85 | What SetInt stores into a narrower signed field fits that width, is congruent to the decoded int64 modulo 2^bits, and equals it when it already fits. |
| Values.TruncUnsigned | vendor/github.com/KnutZuidema/go-torrent/bencoding/decode.go:93 | What SetUint stores into a narrower unsigned field fits that width, is congruent to the decoded uint64 modulo 2^bits, and equals it when it already fits. |
| Values.ByteItems | vendor/github.com/KnutZuidema/go-torrent/bencoding/decode.go:105 | Converting a string to []byte gives one uint8 element per byte, in order, holding that byte. |
| Values.ItemBytes | vendor/github.com/KnutZuidema/go-torrent/bencoding/encode.go:196-197 | Converting a []byte to a string gives one byte per element, equal to the element. |
| Values.Zero | vendor/github.com/KnutZuidema/go-torrent/bencoding/encode.go:191 | reflect.Zero, and the value reflect.New allocates (decode.go:231, 268, 315). It has no contract of its own: Values.ZeroWellFormed states that it is well-formed and of exactly the requested type, and EncodeLaws.ZeroIsEmpty that isEmpty holds of it. |
| Values.ZeroWellFormed | vendor/github.com/KnutZuidema/go-torrent/bencoding/decode.go:231 | The zero value reflect.New allocates for any type is a well-formed value of exactly that type. |
| Tags.Lookup | vendor/github.com/KnutZuidema/go-torrent/bencoding/encode.go:141 | f.Tag.Get on a tag already parsed into a map: a key the tag does not carry reads as the empty string. |
| Tags.Split | vendor/github.com/KnutZuidema/go-torrent/bencoding/encode.go:150 | strings.Split on a one-byte separator yields at least one part and no part contains the separator. |
| Tags.SplitJoin | vendor/github.com/KnutZuidema/go-torrent/bencoding/encode.go:150 | Splitting a tag loses nothing: joining the parts with the separator gives the tag text back. |
| Tags.NewTag | vendor/github.com/KnutZuidema/go-torrent/bencoding/encode.go:135-166 | newTag. It has no contract of its own: Tags.TagTextResolves states the name and omitempty resolution of a tagged field, Tags.SkipRule when a field is skipped, Tags.UntaggedRule the untagged case and Tags.SkippedIsAnonymousName what a skipped field resolves to. |
| Tags.TagTextResolves | vendor/github.com/KnutZuidema/go-torrent/bencoding/encode.go:150-165 | An exported field tagged `name` or `name,omitempty` resolves to that wire name (its declared name when the name is empty and it is not embedded), with exactly that omitempty flag, and is not skipped. |
| Tags.SkipRule | vendor/github.com/KnutZuidema/go-torrent/bencoding/encode.go:136-155 | A field is skipped if and only if it is unexported or the first part of its `bencode` tag is "-". |
| Tags.UntaggedRule | vendor/github.com/KnutZuidema/go-torrent/bencoding/encode.go:141-149 | An exported field without a `bencode` tag resolves to its declared name, or to the empty name when it is embedded, with no options. |
| Tags.SkippedIsAnonymousName | vendor/github.com/KnutZuidema/go-torrent/bencoding/encode.go:136-155 | A skipped field resolves to the empty name with omitempty unset, which is the name the decoder's field mapping then files it under. |
| KeyOrder.Less | vendor/github.com/KnutZuidema/go-torrent/bencoding/encode.go:106-116 | The comparator, with its loop over the bytes of equal-length keys, computes the key order KeyLess. |
| KeyOrder.KeyOrderLaw | vendor/github.com/KnutZuidema/go-torrent/bencoding/encode.go:106-116 | For distinct keys, a sorts before b if and only if a is shorter, or the keys have equal length and a is smaller at the first byte where they differ. |
| KeyOrder.ShorterKeyFirst | vendor/github.com/KnutZuidema/go-torrent/bencoding/encode.go:115 | Length decides before content: "a" sorts before "bb" and "b" before "aa", and not the other way round. |
| KeyOrder.KeyLessTotalOrder | vendor/github.com/KnutZuidema/go-torrent/bencoding/encode.go:106-116 | The comparator is a total order on keys: any two compare, comparing both ways only holds for equal keys, and it is transitive. |
| KeyOrder.SortedKeys | vendor/github.com/KnutZuidema/go-torrent/bencoding/encode.go:99-116 | The keys of a dictionary in comparator order: strictly sorted, holding exactly the key set, each key once. |
| KeyOrder.SortedUnique | vendor/github.com/KnutZuidema/go-torrent/bencoding/encode.go:106-116 | Every strictly sorted listing of a key set is SortedKeys of that set, so encodeDict's output does not depend on the order in which Go iterates the map. |
| DecodeSpec.ScanDigits | vendor/github.com/KnutZuidema/go-torrent/bencoding/decode.go:123-134 | The digit loop stops at the stop byte with only digits before it; any other byte fails with the routine's error, and running off the data is a panic. |
| DecodeSpec.DecodeIntStr | vendor/github.com/KnutZuidema/go-torrent/bencoding/decode.go:179-214 | A successful read consumes at least three bytes, starting with 'i' and ending with 'e', and yields the text strictly between them; errors are decoding errors, never the target or trailing-data errors. |
| DecodeSpec.DecodeInt | vendor/github.com/KnutZuidema/go-torrent/bencoding/decode.go:153-164 | decodeInt consumes at least three bytes and yields an int64. |
| DecodeSpec.DecodeUint | vendor/github.com/KnutZuidema/go-torrent/bencoding/decode.go:166-177 | decodeUint consumes at least three bytes and yields a uint64. |
| DecodeSpec.DecodeString | vendor/github.com/KnutZuidema/go-torrent/bencoding/decode.go:117-151 | decodeString consumes at least the string's length plus two bytes, and the string is exactly the last bytes of what it consumed. |
| DecodeSpec.StringEndWraps | vendor/github.com/KnutZuidema/go-torrent/bencoding/decode.go:146 | The sum read+l is an int: it is exact up to 2^63-1 and wraps to a negative number beyond, which passes the length check so that the slice expression panics. |
| DecodeSpec.Decode | vendor/github.com/KnutZuidema/go-torrent/bencoding/decode.go:47-62 | decode gives back a well-formed value of the target's own type and consumes between one byte and all of the data. What a hook target receives is stated by DecodeLaws.HookTarget and SkipLaws.HookReceivesText. |
| DecodeSpec.DecodeValue | vendor/github.com/KnutZuidema/go-torrent/bencoding/decode.go:63-66 | A nil pointer, a nil interface and an interface that does not hold a non-nil pointer are ErrCanNotSet; otherwise the decoded value keeps the target's type. That a non-nil pointer or interface is followed is stated by DecodeLaws.PointerFollowed and DecodeLaws.InterfaceFollowed. |
| DecodeSpec.DecodeKind | vendor/github.com/KnutZuidema/go-torrent/bencoding/decode.go:97-113 | The result keeps the target's type and is well-formed. That slices, maps and structs dispatch to their decoders is stated by DecodeLaws.SliceTarget, DecodeLaws.MapTarget and DecodeLaws.StructTarget. |
| DecodeSpec.DecodeScalar | vendor/github.com/KnutZuidema/go-torrent/bencoding/decode.go:67-96 | Booleans, integers of every width and strings decode with the scalar decoders; any other kind is ErrInvalidType. The result keeps the target's type. |
| DecodeSpec.DecodeList | vendor/github.com/KnutZuidema/go-torrent/bencoding/decode.go:216-242 | decodeList consumes at least "le" and every decoded item is a well-formed value of the element type. |
| DecodeSpec.DecodeItems | vendor/github.com/KnutZuidema/go-torrent/bencoding/decode.go:230-238 | The item loop moves forward on each item and keeps every collected item of the element type. |
| DecodeSpec.DecodeDict | vendor/github.com/KnutZuidema/go-torrent/bencoding/decode.go:244-279 | decodeDict consumes at least "de" and every stored value is a well-formed value of the element type. |
| DecodeSpec.DecodeEntries | vendor/github.com/KnutZuidema/go-torrent/bencoding/decode.go:261-275 | The entry loop moves forward on each pair and keeps every stored value of the element type. |
| DecodeSpec.TypedEntriesStore | vendor/github.com/KnutZuidema/go-torrent/bencoding/decode.go:274 | Storing a value of the element type keeps every entry of the map well-typed. |
| DecodeSpec.NameMapping | vendor/github.com/KnutZuidema/go-torrent/bencoding/decode.go:293-298 | Every wire name in decodeStruct's mapping maps to the index of a field. |
| DecodeSpec.DecodeStruct | vendor/github.com/KnutZuidema/go-torrent/bencoding/decode.go:281-325 | decodeStruct consumes at least "de" and leaves a well-formed struct value with one value per field. |
| DecodeSpec.DecodeFields | vendor/github.com/KnutZuidema/go-torrent/bencoding/decode.go:299-322 | The key loop of decodeStruct moves forward on each pair and keeps the struct well-formed. |
| DecodeSpec.FieldValue | vendor/github.com/KnutZuidema/go-torrent/bencoding/decode.go:306-321 | One struct pair consumes at least one byte and keeps the struct well-formed, whether the key is known or skipped. |
| DecodeSpec.SetField | vendor/github.com/KnutZuidema/go-torrent/bencoding/decode.go:315-321 | Setting a known field consumes at least one byte and keeps the struct well-formed. |
| DecodeSpec.ReadNextValue | vendor/github.com/KnutZuidema/go-torrent/bencoding/decode.go:352-384 | readNextValue returns a non-empty prefix of the data, and the raw bytes it returns are exactly that prefix. Which prefix it is is stated by SkipLaws.TextSkipped. |
| DecodeSpec.SkipItems | vendor/github.com/KnutZuidema/go-torrent/bencoding/decode.go:365-374 | The skip loop over a list or dictionary body stops just after an 'e'. |
| DecodeSpec.DecodeTarget | vendor/github.com/KnutZuidema/go-torrent/bencoding/decode.go:334-341 | A decoded value fits the pointer's location. ErrInvalidValue is reported exactly for a nil target and ErrNonPointer exactly for a non-pointer target, on non-empty data. |
| DecodeSpec.Unmarshal | vendor/github.com/KnutZuidema/go-torrent/bencoding/decode.go:36-45 | Unmarshal succeeds exactly when decode succeeds and consumes all the data; it reports ErrRemainingData exactly when decode succeeds with bytes left over, and never reports ErrInvalidToken. |
| Decoder.DecodeString | vendor/github.com/KnutZuidema/go-torrent/bencoding/decode.go:117-151 | The byte loop of decodeString computes DecodeSpec.DecodeString. |
| Decoder.DecodeIntStr | vendor/github.com/KnutZuidema/go-torrent/bencoding/decode.go:179-214 | The byte loop of decodeIntStr computes DecodeSpec.DecodeIntStr. |
| Decoder.DecodeInt | vendor/github.com/KnutZuidema/go-torrent/bencoding/decode.go:153-164 | decodeInt computes DecodeSpec.DecodeInt. |
| Decoder.DecodeUint | vendor/github.com/KnutZuidema/go-torrent/bencoding/decode.go:166-177 | decodeUint computes DecodeSpec.DecodeUint. |
| Decoder.Decode | vendor/github.com/KnutZuidema/go-torrent/bencoding/decode.go:47-62 | decode computes DecodeSpec.Decode. |
| Decoder.DecodeValue | vendor/github.com/KnutZuidema/go-torrent/bencoding/decode.go:63-66 | The target check computes DecodeSpec.DecodeValue. |
| Decoder.DecodeKind | vendor/github.com/KnutZuidema/go-torrent/bencoding/decode.go:67-114 | The kind switch computes DecodeSpec.DecodeKind. |
| Decoder.DecodeList | vendor/github.com/KnutZuidema/go-torrent/bencoding/decode.go:216-242 | decodeList computes DecodeSpec.DecodeList. |
| Decoder.DecodeItems | vendor/github.com/KnutZuidema/go-torrent/bencoding/decode.go:229-241 | The item loop computes the item recursion DecodeSpec.DecodeItems from the first byte after 'l'. |
| Decoder.ItemsStep | vendor/github.com/KnutZuidema/go-torrent/bencoding/decode.go:231-237 | One item turn either reports the loop's final error or moves the cursor forward with the loop's final result unchanged. |
| Decoder.DecodeDict | vendor/github.com/KnutZuidema/go-torrent/bencoding/decode.go:244-279 | decodeDict computes DecodeSpec.DecodeDict. |
| Decoder.DecodeEntries | vendor/github.com/KnutZuidema/go-torrent/bencoding/decode.go:260-278 | The pair loop computes DecodeSpec.DecodeEntries from the first byte after 'd'. |
| Decoder.EntriesStep | vendor/github.com/KnutZuidema/go-torrent/bencoding/decode.go:262-267 | One pair turn either reports the loop's final error or moves the cursor forward with the loop's final result unchanged. |
| Decoder.StoreEntry | vendor/github.com/KnutZuidema/go-torrent/bencoding/decode.go:268-274 | Decoding and storing the value of a pair either reports the loop's final error or moves the cursor forward with the loop's final result unchanged. |
| Decoder.NameMapping | vendor/github.com/KnutZuidema/go-torrent/bencoding/decode.go:293-298 | The field loop of decodeStruct builds DecodeSpec.NameMapping. |
| Decoder.DecodeStruct | vendor/github.com/KnutZuidema/go-torrent/bencoding/decode.go:281-325 | decodeStruct computes DecodeSpec.DecodeStruct. |
| Decoder.DecodeFields | vendor/github.com/KnutZuidema/go-torrent/bencoding/decode.go:299-324 | The key loop computes DecodeSpec.DecodeFields from the first byte after 'd'. |
| Decoder.FieldsStep | vendor/github.com/KnutZuidema/go-torrent/bencoding/decode.go:300-305 | One key turn either reports the loop's final error or moves the cursor forward with the loop's final result unchanged. |
| Decoder.FieldStore | vendor/github.com/KnutZuidema/go-torrent/bencoding/decode.go:306-321 | Handling the value after a key either reports the loop's final error or moves the cursor forward with the loop's final result unchanged. |
| Decoder.FieldValue | vendor/github.com/KnutZuidema/go-torrent/bencoding/decode.go:306-321 | Skipping or setting the value after a key computes DecodeSpec.FieldValue. |
| Decoder.SetField | vendor/github.com/KnutZuidema/go-torrent/bencoding/decode.go:315-321 | Decoding into a fresh value of the field's type and setting the field computes DecodeSpec.SetField. |
| Decoder.ReadNextValue | vendor/github.com/KnutZuidema/go-torrent/bencoding/decode.go:352-384 | readNextValue computes DecodeSpec.ReadNextValue. |
| Decoder.SkipItems | vendor/github.com/KnutZuidema/go-torrent/bencoding/decode.go:365-374 | The skip loop computes DecodeSpec.SkipItems. |
| Decoder.SkipStep | vendor/github.com/KnutZuidema/go-torrent/bencoding/decode.go:368-372 | One skip turn either reports the loop's final error or moves the cursor forward with the loop's final result unchanged. |
| Decoder.DecodeTarget | vendor/github.com/KnutZuidema/go-torrent/bencoding/decode.go:47-66 | decode with its target checks computes DecodeSpec.DecodeTarget. |
| Decoder.Unmarshal | vendor/github.com/KnutZuidema/go-torrent/bencoding/decode.go:36-45 | Unmarshal computes DecodeSpec.Unmarshal. |
| DecodeLaws.ScanDigitsRun | vendor/github.com/KnutZuidema/go-torrent/bencoding/decode.go:123-134 | The first non-digit decides the digit loop: the end of the data is a panic, the stop byte is success at its index, and any other byte is the routine's error. |
| DecodeLaws.EmptyInput | vendor/github.com/KnutZuidema/go-torrent/bencoding/decode.go:47-50 | Every entry point (decodeString, decodeIntStr, decodeList, decodeDict, decodeStruct, readNextValue, decode, Unmarshal) reports ErrEmptyData on empty data. |
| DecodeLaws.StringRoundTrip | vendor/github.com/KnutZuidema/go-torrent/bencoding/decode.go:117-151 | decodeString reads back what encodeString writes, consuming exactly it, whatever follows. |
| DecodeLaws.StringDecodeIsEncoding | vendor/github.com/KnutZuidema/go-torrent/bencoding/decode.go:117-151 | What decodeString consumes is exactly encodeString of the string it returns, so only canonical string text is accepted. |
| DecodeLaws.StringErrors | vendor/github.com/KnutZuidema/go-torrent/bencoding/decode.go:123-148 | Each failure of decodeString: the end of the data inside the length is a panic, a non-digit is ErrInvalidString, an empty length is ErrEmptyData, a leading zero is ErrLeadingZero; for a canonical length, a length beyond int64 is a range error, an overflowing end a panic, and a too-short rest ErrLengthTooBig. |
| DecodeLaws.IntTextAccepted | vendor/github.com/KnutZuidema/go-torrent/bencoding/decode.go:179-214 | decodeIntStr accepts 'i', an optional '-', a canonical digit run other than "-0", and 'e', whatever follows. |
| DecodeLaws.IntTextOnlyAccepted | vendor/github.com/KnutZuidema/go-torrent/bencoding/decode.go:179-214 | Whatever decodeIntStr accepts is such a text, and it consumes exactly 'i', that text and 'e'. |
| DecodeLaws.IntTextErrors | vendor/github.com/KnutZuidema/go-torrent/bencoding/decode.go:184-211 | Each failure of decodeIntStr: a wrong first byte or a non-digit is ErrInvalidInteger, running off the data a panic, no digits ErrEmptyData, a leading zero ErrLeadingZero, and "-0" ErrInvalidInteger. |
| DecodeLaws.FormatIntAccepted | vendor/github.com/KnutZuidema/go-torrent/bencoding/decode.go:203-211 | Every text FormatInt writes passes decodeIntStr's checks. |
| DecodeLaws.IntRoundTrip | vendor/github.com/KnutZuidema/go-torrent/bencoding/decode.go:153-164 | decodeInt reads back encodeInt's output for every int64, consuming exactly it. |
| DecodeLaws.UintRoundTrip | vendor/github.com/KnutZuidema/go-torrent/bencoding/decode.go:166-177 | decodeUint reads back encodeUint's output for every uint64, consuming exactly it. |
| DecodeLaws.NegativeLeadingZero | vendor/github.com/KnutZuidema/go-torrent/bencoding/decode.go:206-208 | The leading-zero check looks only at the first byte, so a negative number with leading zeros is accepted as its value, although encodeInt never writes that text. |
| DecodeLaws.NegativeIntRange | vendor/github.com/KnutZuidema/go-torrent/bencoding/decode.go:153-164 | decodeInt of `i-<n>e` with canonical n gives -n when n is at most 2^63, and otherwise the range error strconv.ParseInt reports. |
| DecodeLaws.LoneMinus | vendor/github.com/KnutZuidema/go-torrent/bencoding/decode.go:189-211 | "i-e" passes decodeIntStr with the text "-", which strconv.ParseInt then rejects as a syntax error. |
| DecodeLaws.ScalarTarget | vendor/github.com/KnutZuidema/go-torrent/bencoding/decode.go:63-67 | A boolean, integer or string target is set directly, with no pointer to follow. |
| DecodeLaws.BoolFromInt | vendor/github.com/KnutZuidema/go-torrent/bencoding/decode.go:68-78 | A boolean target takes any decoded integer: above 1 is ErrInvalidBool, 1 is true, and 0 or any negative number is false. |
| DecodeLaws.IntIntoWidth | vendor/github.com/KnutZuidema/go-torrent/bencoding/decode.go:79-86 | Decoding into a signed field of any width stores the two's-complement truncation of the int64, which is the number itself for int64 and int. |
| DecodeLaws.UintIntoWidth | vendor/github.com/KnutZuidema/go-torrent/bencoding/decode.go:87-94 | Decoding into an unsigned field of any width stores the uint64 modulo 2^bits, which is the number itself for uint64 and uint. |
| DecodeLaws.StringIntoTargets | vendor/github.com/KnutZuidema/go-torrent/bencoding/decode.go:95-106 | A string decodes into a string target, and into a []byte target as its bytes. |
| DecodeLaws.StringBehindPointerPanics | vendor/github.com/KnutZuidema/go-torrent/bencoding/decode.go:95-96 | A string reached through a second pointer panics, because the target is asserted to be a *string. |
| DecodeLaws.HookTarget | vendor/github.com/KnutZuidema/go-torrent/bencoding/decode.go:51-62 | A target with an UnmarshalBEncode hook receives the raw text readNextValue returns and consumes its length; readNextValue's error, or else the hook's error, is decode's error. |
| DecodeLaws.RefusedTargets | vendor/github.com/KnutZuidema/go-torrent/bencoding/decode.go:109-114 | A float or array target falls through the kind switch: decode, and Unmarshal through a pointer to it, report ErrInvalidType. |
| DecodeLaws.UnsettableTargets | vendor/github.com/KnutZuidema/go-torrent/bencoding/decode.go:342-348 | A nil pointer, a nil interface or an interface holding a value directly cannot be set: decode and Unmarshal report ErrCanNotSet. |
| DecodeLaws.PointerFollowed | vendor/github.com/KnutZuidema/go-torrent/bencoding/decode.go:327-332 | A non-nil pointer is followed: its target is decoded, and the pointer designates the decoded value; the target's error is the pointer's error. |
| DecodeLaws.InterfaceFollowed | vendor/github.com/KnutZuidema/go-torrent/bencoding/decode.go:327-332 | An interface holding a non-nil pointer is followed the same way. |
| DecodeLaws.IntBehindPointer | vendor/github.com/KnutZuidema/go-torrent/bencoding/decode.go:79-86 | An integer decoded through a second pointer sets the int it designates, truncated to the int's width. |
| DecodeLaws.SliceTarget | vendor/github.com/KnutZuidema/go-torrent/bencoding/decode.go:97-108 | decode on a slice other than []byte is decodeList, and the slice becomes the fresh, non-nil list of decoded items. |
| DecodeLaws.MapTarget | vendor/github.com/KnutZuidema/go-torrent/bencoding/decode.go:109-110 | decode on a map is decodeDict, and the map becomes the fresh, non-nil decoded map. |
| DecodeLaws.StructTarget | vendor/github.com/KnutZuidema/go-torrent/bencoding/decode.go:111-112 | decode on a struct is decodeStruct on its fields and current values, and the struct keeps its fields. |
| DecodeLaws.UnmarshalEmptyStruct | vendor/github.com/KnutZuidema/go-torrent/bencoding/decode.go:281-292 | Unmarshal of `de` into a struct leaves every field as it was; a first byte other than `d` is ErrInvalidStruct. |
| DecodeLaws.DictKeepsLastValue | vendor/github.com/KnutZuidema/go-torrent/bencoding/decode.go:261-275 | Each pair overwrites the map entry under its key, so a repeated key keeps its last value. |
| DecodeLaws.NameMappingLast | vendor/github.com/KnutZuidema/go-torrent/bencoding/decode.go:293-298 | A key is in the field mapping if and only if some field resolves to it, and it then names the last field that does. |
| DecodeLaws.FieldValueKeeps | vendor/github.com/KnutZuidema/go-torrent/bencoding/decode.go:305-321 | The value after one struct key never changes a field that no key of the name mapping designates. |
| DecodeLaws.UnreachedFieldKept | vendor/github.com/KnutZuidema/go-torrent/bencoding/decode.go:299-322 | A field that no key of the mapping names keeps its value through the whole key loop. |
| DecodeLaws.ShadowedFieldKept | vendor/github.com/KnutZuidema/go-torrent/bencoding/decode.go:293-298 | A field whose wire name a later field also resolves to is never written by decodeStruct. |
| DecodeLaws.EmbeddedFieldOnlyUnderEmptyKey | vendor/github.com/KnutZuidema/go-torrent/bencoding/decode.go:296-297 | An untagged embedded field can only be reached under the empty key: the decoder does not flatten embedded structs. |
| DecodeLaws.UnknownKeyValue | vendor/github.com/KnutZuidema/go-torrent/bencoding/decode.go:306-313 | The value after an unknown key is skipped with readNextValue and the fields stay unchanged. |
| DecodeLaws.KnownKeyValue | vendor/github.com/KnutZuidema/go-torrent/bencoding/decode.go:315-321 | The value after a known key is decoded into a fresh zero value of the field's type and stored in that field; an unexported field panics. |
| DecodeLaws.UnknownKeySkipped | vendor/github.com/KnutZuidema/go-torrent/bencoding/decode.go:306-313 | In the key loop, an unknown pair only moves the cursor past the skipped value. |
| DecodeLaws.KeySetsField | vendor/github.com/KnutZuidema/go-torrent/bencoding/decode.go:306-321 | In the key loop, a known pair moves the cursor past its value and sets the named field, or the loop panics on an unexported field. |
| DecodeLaws.ItemsClosed | vendor/github.com/KnutZuidema/go-torrent/bencoding/decode.go:230-239 | decodeList's item loop ends only on an `e`: the last byte a successful loop consumes is the end token. |
| DecodeLaws.ListFramed | vendor/github.com/KnutZuidema/go-torrent/bencoding/decode.go:216-242 | A list that does not open with `l` is ErrInvalidList, and a decoded list runs from its `l` to the `e` that closes it. |
| DecodeLaws.EntriesClosed | vendor/github.com/KnutZuidema/go-torrent/bencoding/decode.go:261-276 | decodeDict's pair loop ends only on an `e`. |
| DecodeLaws.DictFramed | vendor/github.com/KnutZuidema/go-torrent/bencoding/decode.go:244-279 | A dictionary that does not open with `d` is ErrInvalidDict, a non-string key type is ErrNonStringKey, and a decoded dictionary runs from its `d` to its closing `e`. |
| DecodeLaws.FieldsClosed | vendor/github.com/KnutZuidema/go-torrent/bencoding/decode.go:299-323 | decodeStruct's key loop ends only on an `e`. |
| DecodeLaws.StructFramed | vendor/github.com/KnutZuidema/go-torrent/bencoding/decode.go:281-325 | A struct input that does not open with `d` is ErrInvalidStruct, and a decoded struct runs from its `d` to its closing `e`. |
| DecodeLaws.UnmarshalInt | vendor/github.com/KnutZuidema/go-torrent/bencoding/decode.go:36-45 | Unmarshal of an encoded int64 into an *int64 gives the number, and trailing bytes give ErrRemainingData. |
| SkipLaws.StringSkipped | vendor/github.com/KnutZuidema/go-torrent/bencoding/decode.go:375-383 | readNextValue passes over a string's encoding whole, whatever follows it. |
| SkipLaws.IntSkipped | vendor/github.com/KnutZuidema/go-torrent/bencoding/decode.go:358-364 | readNextValue passes over an int64's encoding whole, whatever follows it. |
| SkipLaws.TextStarts | vendor/github.com/KnutZuidema/go-torrent/bencoding/decode.go:357-376 | Every wire text starts with `i`, `l`, `d` or a digit, so the skip loop never mistakes its first byte for the end token. |
| SkipLaws.SkipTurn | vendor/github.com/KnutZuidema/go-torrent/bencoding/decode.go:367-372 | One turn of the skip loop: at a byte other than `e`, the loop moves past exactly what readNextValue read there. |
| SkipLaws.SkipEnd | vendor/github.com/KnutZuidema/go-torrent/bencoding/decode.go:367-374 | At an `e` the skip loop stops, with the cursor just after it. |
| SkipLaws.ChainSkipped | vendor/github.com/KnutZuidema/go-torrent/bencoding/decode.go:366-374 | Along cursor positions where each turn leads to the next and the last holds `e`, the skip loop stops just after that `e`. |
| SkipLaws.PartStep | vendor/github.com/KnutZuidema/go-torrent/bencoding/decode.go:367-372 | In a framed list or dictionary text, the skip loop goes on from a part that readNextValue passes over as from the part after it. |
| SkipLaws.FramedChain | vendor/github.com/KnutZuidema/go-torrent/bencoding/decode.go:365-374 | The part starts of such a framed text, followed by the position of its closing `e`, are a chain the skip loop walks. |
| SkipLaws.FramedSkipped | vendor/github.com/KnutZuidema/go-torrent/bencoding/decode.go:365-374 | A list or dictionary text whose parts are each skipped whole is passed over whole, and its bytes are returned. |
| SkipLaws.TextSkipped | vendor/github.com/KnutZuidema/go-torrent/bencoding/decode.go:352-384 | readNextValue passes over exactly one value: on the text of any bencode value whose integers fit int64, followed by anything, it returns that text and its length. Dictionary keys may come in any order and repeat. |
| SkipLaws.HookReceivesText | vendor/github.com/KnutZuidema/go-torrent/bencoding/decode.go:52-61 | An accepting UnmarshalBEncode hook is handed exactly the text of the one value at the front of the data, whatever follows, and decode consumes just that text; a refusing hook's error is decode's error. |
| SkipLaws.LargeUintNotSkipped | vendor/github.com/KnutZuidema/go-torrent/bencoding/decode.go:358-364 | readNextValue reads integers as int64: an integer between 2^63 and 2^64-1 decodes into a uint64 (decode.go:166-177) but its skip fails with a range error. |
| SkipLaws.UnknownLargeUintFails | vendor/github.com/KnutZuidema/go-torrent/bencoding/decode.go:305-312 | So such an integer under a key that no struct field resolves to fails the struct decode with a range error instead of being skipped. |
| EncodeSpec.EncodeString | vendor/github.com/KnutZuidema/go-torrent/bencoding/encode.go:68-70 | encodeString writes the canonical decimal length of the string, a ':' and then the string. |
| EncodeSpec.EncodeInt | vendor/github.com/KnutZuidema/go-torrent/bencoding/encode.go:72-74 | encodeInt writes 'i', text ParseInt reads back as the number, and 'e'. |
| EncodeSpec.EncodeUint | vendor/github.com/KnutZuidema/go-torrent/bencoding/encode.go:76-78 | encodeUint writes 'i', text ParseUint reads back as the number, and 'e'. |
| EncodeSpec.Normalize | vendor/github.com/KnutZuidema/go-torrent/bencoding/encode.go:194-216 | Every signed integer becomes an int64 and every unsigned one a uint64 with the same value, a []byte becomes the string of its bytes, and any other value is unchanged. |
| EncodeSpec.Deref | vendor/github.com/KnutZuidema/go-torrent/bencoding/decode.go:327-332 | dereference ends on a value that is neither a pointer nor an interface, no higher than where it started, and leaves such a value alone. |
| EncodeSpec.StructToMap | vendor/github.com/KnutZuidema/go-torrent/bencoding/encode.go:168-188 | structToMap fails only by reflect's panic, and every value it maps lies strictly inside the struct. Its keys and values are stated by EncodeLaws.FlatStructKeys, EncodeLaws.FlatStructValues and EncodeLaws.EmbeddedMerged. |
| EncodeSpec.StructFields | vendor/github.com/KnutZuidema/go-torrent/bencoding/encode.go:171-186 | The field loop of structToMap can only fail by reflect's panic, and every value it collects lies strictly inside the struct. |
| EncodeSpec.Marshalled | vendor/github.com/KnutZuidema/go-torrent/bencoding/encode.go:25-66 | Marshal only fails with a hook error, ErrInvalidType, ErrNonStringKey or a panic, never with a decoding error. |
| EncodeSpec.Reflected | vendor/github.com/KnutZuidema/go-torrent/bencoding/encode.go:41-64 | The reflective case of Marshal only fails with those same errors. |
| EncodeSpec.ListEncoding | vendor/github.com/KnutZuidema/go-torrent/bencoding/encode.go:80-91 | encodeList only fails with Marshal's errors. |
| EncodeSpec.ItemsEncoding | vendor/github.com/KnutZuidema/go-torrent/bencoding/encode.go:82-88 | The item loop of encodeList only fails with Marshal's errors. |
| EncodeSpec.DictEncoding | vendor/github.com/KnutZuidema/go-torrent/bencoding/encode.go:93-127 | encodeDict only fails with Marshal's errors. |
| EncodeSpec.PairsEncoding | vendor/github.com/KnutZuidema/go-torrent/bencoding/encode.go:117-124 | The pair loop of encodeDict only fails with Marshal's errors. |
| Encoder.Marshal | vendor/github.com/KnutZuidema/go-torrent/bencoding/encode.go:25-66 | Marshal computes EncodeSpec.Marshalled. |
| Encoder.Dereference | vendor/github.com/KnutZuidema/go-torrent/bencoding/decode.go:327-332 | The loop of dereference computes EncodeSpec.Deref. |
| Encoder.MarshalReflected | vendor/github.com/KnutZuidema/go-torrent/bencoding/encode.go:41-65 | The reflective case of Marshal computes EncodeSpec.Reflected. |
| Encoder.ListOf | vendor/github.com/KnutZuidema/go-torrent/bencoding/encode.go:45-48 | Copying a slice or array element by element gives its items in order. |
| Encoder.DictOf | vendor/github.com/KnutZuidema/go-torrent/bencoding/encode.go:54-58 | Copying the map entry by entry gives the same map. |
| Encoder.EncodeList | vendor/github.com/KnutZuidema/go-torrent/bencoding/encode.go:80-91 | The loop of encodeList computes EncodeSpec.ListEncoding. |
| Encoder.ItemsFailureStays | vendor/github.com/KnutZuidema/go-torrent/bencoding/encode.go:83-86 | Once an item fails, the list's result is that failure, whatever follows. |
| Encoder.EncodeDict | vendor/github.com/KnutZuidema/go-torrent/bencoding/encode.go:93-127 | encodeDict computes EncodeSpec.DictEncoding: the pairs are written in SortedKeys order, whatever order the map yields them in. |
| Encoder.CollectPairs | vendor/github.com/KnutZuidema/go-torrent/bencoding/encode.go:98-105 | The range loop fills a fresh array with exactly the map's pairs, each key once, in an order the model leaves open as Go does. |
| Encoder.SortedPairs | vendor/github.com/KnutZuidema/go-torrent/bencoding/encode.go:99-116 | Collecting and sorting the pairs gives the keys in SortedKeys order, each paired with its value in the map. |
| Encoder.PairsStepFails | vendor/github.com/KnutZuidema/go-torrent/bencoding/encode.go:119-122 | The first value in key order that fails to encode decides the dictionary's error. |
| Encoder.PairsFailureStays | vendor/github.com/KnutZuidema/go-torrent/bencoding/encode.go:119-122 | Once a pair fails, the dictionary's result is that failure, whatever follows. |
| Encoder.SortPairs | vendor/github.com/KnutZuidema/go-torrent/bencoding/encode.go:106-116 | Sorting the pairs in place leaves them sorted by the comparator and a permutation of what was there. |
| Encoder.InsertPair | vendor/github.com/KnutZuidema/go-torrent/bencoding/encode.go:106-116 | One insertion step extends the sorted prefix by one pair and permutes the array. |
| Encoder.PermutedPairs | vendor/github.com/KnutZuidema/go-torrent/bencoding/encode.go:99-116 | A permutation of the collected pairs still holds every entry of the map and only entries of it. |
| Encoder.SortedPairsAreSortedKeys | vendor/github.com/KnutZuidema/go-torrent/bencoding/encode.go:106-116 | Sorted pairs with distinct keys covering the map list its keys in SortedKeys order, each with its value. |
| Encoder.StructToMap | vendor/github.com/KnutZuidema/go-torrent/bencoding/encode.go:168-188 | The field loop of structToMap computes EncodeSpec.StructToMap. |
| Encoder.StructFailureStays | vendor/github.com/KnutZuidema/go-torrent/bencoding/encode.go:179-182 | Once a field fails, structToMap's result is that failure. |
| Encoder.MergeInto | vendor/github.com/KnutZuidema/go-torrent/bencoding/encode.go:180-182 | Copying an embedded struct's map into the parent gives their union, the embedded entries winning. |
| EncodeLaws.NormalizeIdempotent | vendor/github.com/KnutZuidema/go-torrent/bencoding/encode.go:194-216 | Normalizing a normalized value changes nothing. |
| EncodeSpec.IsEmpty | vendor/github.com/KnutZuidema/go-torrent/bencoding/encode.go:190-192 | isEmpty: deep equality with the zero value of the value's own type. It has no contract of its own: EncodeLaws.ZeroIsEmpty and EncodeLaws.StructEmptyFieldwise state what it holds of. |
| EncodeLaws.ZeroIsEmpty | vendor/github.com/KnutZuidema/go-torrent/bencoding/encode.go:190-192 | isEmpty holds of the zero value of every type. |
| EncodeLaws.StructEmptyFieldwise | vendor/github.com/KnutZuidema/go-torrent/bencoding/encode.go:190-192 | A struct is empty exactly when every field holds the zero value of its type, as DeepEqual compares it. |
| EncodeLaws.SignedInInt64 | vendor/github.com/KnutZuidema/go-torrent/bencoding/encode.go:198-205 | Every signed value of any width fits an int64, so normalize's conversion is exact. |
| EncodeLaws.UnsignedInUint64 | vendor/github.com/KnutZuidema/go-torrent/bencoding/encode.go:206-213 | Every unsigned value of any width fits a uint64, so normalize's conversion is exact. |
| EncodeLaws.MarshalBool | vendor/github.com/KnutZuidema/go-torrent/bencoding/encode.go:36-40 | true is written as i1e and false as i0e. |
| EncodeLaws.IntValueRoundTrip | vendor/github.com/KnutZuidema/go-torrent/bencoding/encode.go:32-33 | A signed integer of any width is written as its encodeInt text, which decodes into a field of that width as the same number. |
| EncodeLaws.UintValueRoundTrip | vendor/github.com/KnutZuidema/go-torrent/bencoding/encode.go:34-35 | An unsigned integer of any width is written as its encodeUint text, which decodes into a field of that width as the same number. |
| EncodeLaws.BoolValueRoundTrip | vendor/github.com/KnutZuidema/go-torrent/bencoding/encode.go:36-40 | A boolean is written as i1e or i0e, which decodes into a bool as the same boolean. |
| EncodeLaws.StringValueRoundTrip | vendor/github.com/KnutZuidema/go-torrent/bencoding/encode.go:30-31 | A string is written by encodeString and decodes into a string as itself. |
| EncodeLaws.ByteItemsOfItemBytes | vendor/github.com/KnutZuidema/go-torrent/bencoding/encode.go:196-197 | For uint8 elements, converting a []byte to a string and back gives the same elements. |
| EncodeLaws.ByteSliceRoundTrip | vendor/github.com/KnutZuidema/go-torrent/bencoding/encode.go:196-197 | A []byte, nil or not, is written as the string of its bytes, which decodes into a []byte as the same elements in a non-nil slice. |
| EncodeLaws.MarshalerVerbatim | vendor/github.com/KnutZuidema/go-torrent/bencoding/encode.go:28-29 | A value with a MarshalBEncode hook is written as the hook's output, or fails with the hook's error, also when handed over as an interface. |
| EncodeLaws.RefusedKinds | vendor/github.com/KnutZuidema/go-torrent/bencoding/encode.go:62-63 | Floating point, a nil interface, a nil pointer and a pointer to a boolean, integer or string are refused with ErrInvalidType. |
| EncodeLaws.NonStringKeyRefused | vendor/github.com/KnutZuidema/go-torrent/bencoding/encode.go:51-53 | A map whose key type is not string is refused with ErrNonStringKey. |
| EncodeLaws.ItemsSucceed | vendor/github.com/KnutZuidema/go-torrent/bencoding/encode.go:82-88 | A list is written if and only if every item is. |
| EncodeLaws.ItemsFirstError | vendor/github.com/KnutZuidema/go-torrent/bencoding/encode.go:83-86 | A failing list reports the error of its first failing item, all items before it being written. |
| EncodeLaws.ByteItemsEncoding | vendor/github.com/KnutZuidema/go-torrent/bencoding/encode.go:82-88 | The elements of a []byte reached through reflection are written one by one as integers. |
| EncodeLaws.PointerToBytesIsList | vendor/github.com/KnutZuidema/go-torrent/bencoding/encode.go:42-49 | A *[]byte is not normalized, so it is written as a list of integers, not as a string. |
| EncodeLaws.FlatStructKeys | vendor/github.com/KnutZuidema/go-torrent/bencoding/encode.go:171-186 | Without embedded structs to flatten, structToMap's keys are exactly the wire names of the fields it emits. |
| EncodeLaws.FlatStructValues | vendor/github.com/KnutZuidema/go-torrent/bencoding/encode.go:171-186 | Without embedded structs to flatten, an emitted field's value is stored under its wire name unless a later emitted field has the same name. |
| EncodeLaws.EmbeddedNonStructPanics | vendor/github.com/KnutZuidema/go-torrent/bencoding/encode.go:179-180 | Flattening an untagged embedded field that is not a struct panics in reflect. |
| EncodeLaws.PanicSticks | vendor/github.com/KnutZuidema/go-torrent/bencoding/encode.go:171-186 | A panic in the field loop is the result of the whole loop. |
| EncodeLaws.EmbeddedMerged | vendor/github.com/KnutZuidema/go-torrent/bencoding/encode.go:179-182 | An untagged embedded struct contributes its own fields' map to the parent: its keys are added and its values win. |
| RoundTrip.IntRoundTrips | vendor/github.com/KnutZuidema/go-torrent/bencoding/encode.go:32-33 | Every signed integer round-trips through Marshal and decode into the zero value of its type. |
| RoundTrip.UintRoundTrips | vendor/github.com/KnutZuidema/go-torrent/bencoding/encode.go:34-35 | Every unsigned integer round-trips through Marshal and decode. |
| RoundTrip.BoolRoundTrips | vendor/github.com/KnutZuidema/go-torrent/bencoding/encode.go:36-40 | Every boolean round-trips through Marshal and decode. |
| RoundTrip.StringRoundTrips | vendor/github.com/KnutZuidema/go-torrent/bencoding/encode.go:30-31 | Every string whose encoding fits an int round-trips through Marshal and decode. |
| RoundTrip.ItemsConcat | vendor/github.com/KnutZuidema/go-torrent/bencoding/encode.go:82-88 | When every item is written, the list body is the items' encodings concatenated in order. |
| RoundTrip.ItemsDecode | vendor/github.com/KnutZuidema/go-torrent/bencoding/decode.go:230-238 | The item loop, run over a list body of round-tripping encodings, collects exactly the items, from any item on. |
| RoundTrip.ListMarshalled | vendor/github.com/KnutZuidema/go-torrent/bencoding/encode.go:44-49 | A slice whose items are written is written as 'l', their encodings, 'e'. |
| RoundTrip.ListDecoded | vendor/github.com/KnutZuidema/go-torrent/bencoding/decode.go:216-242 | That list text decodes into a slice of the element type as the same items, whatever follows. |
| RoundTrip.ListRoundTrips | vendor/github.com/KnutZuidema/go-torrent/bencoding/encode.go:80-91 | A slice of round-tripping items round-trips (a nil slice comes back empty and non-nil). |
| RoundTrip.PairsConcat | vendor/github.com/KnutZuidema/go-torrent/bencoding/encode.go:117-124 | When every value is written, the dictionary body is each key's encodeString text followed by its value's encoding, in the given key order. |
| RoundTrip.DictMarshalled | vendor/github.com/KnutZuidema/go-torrent/bencoding/encode.go:93-127 | A string-keyed map whose values are written is written as 'd', its pairs in SortedKeys order, 'e'. |
| RoundTrip.StructMarshalled | vendor/github.com/KnutZuidema/go-torrent/bencoding/encode.go:60-61 | A struct is written as the dictionary text of the map structToMap builds from it, keys in SortedKeys order. |
| RoundTrip.KeyDecodes | vendor/github.com/KnutZuidema/go-torrent/bencoding/decode.go:117-151 | A key's encodeString text is non-empty, does not start with 'e', and decodes back to the key whatever follows. |
| RoundTrip.PairsDecode | vendor/github.com/KnutZuidema/go-torrent/bencoding/decode.go:261-275 | The pair loop, run over a body of decodable pairs, builds the map of those pairs from any pair on. |
| RoundTrip.PairsDecoded | vendor/github.com/KnutZuidema/go-torrent/bencoding/decode.go:244-279 | A dictionary text of decodable pairs decodes into a string-keyed map as the map of those pairs, later keys overwriting earlier ones. |
| RoundTrip.MapOfLookups | vendor/github.com/KnutZuidema/go-torrent/bencoding/decode.go:274 | Storing the listed keys with their values from m gives a map with exactly those keys, each holding its value in m. |
| RoundTrip.SortedMapOf | vendor/github.com/KnutZuidema/go-torrent/bencoding/decode.go:261-275 | Storing a map's keys in SortedKeys order with their values rebuilds the map. |
| RoundTrip.DictDecoded | vendor/github.com/KnutZuidema/go-torrent/bencoding/decode.go:244-279 | The dictionary text Marshal writes for a map of round-tripping values decodes back to that map, whatever follows. |
| RoundTrip.DictRoundTrips | vendor/github.com/KnutZuidema/go-torrent/bencoding/encode.go:93-127 | A string-keyed map of round-tripping values round-trips (a nil map comes back empty and non-nil). |
| DocumentedExample.Example | vendor/github.com/KnutZuidema/go-torrent/bencoding/docs.go:10-16 | The example struct type of the package documentation, and that its value is its zero value. |
| DocumentedExample.ExampleTags | vendor/github.com/KnutZuidema/go-torrent/bencoding/docs.go:10-15 | newTag gives Attr0 its own name, Attr1 the name `int_attr`, Attr2 the name `str_attr` with omitempty, and skips Attr3. |
| DocumentedExample.ExampleMap | vendor/github.com/KnutZuidema/go-torrent/bencoding/docs.go:10-17 | structToMap of the zero value holds Attr0 and `int_attr` only: Attr2 is dropped by omitempty and Attr3 by `-`. |
| DocumentedExample.ExampleKeys | vendor/github.com/KnutZuidema/go-torrent/bencoding/docs.go:17 | encodeDict writes `Attr0` before `int_attr`, the shorter key first. |
| DocumentedExample.ExampleValues | vendor/github.com/KnutZuidema/go-torrent/bencoding/docs.go:17 | The nil []byte is written as `0:` and the int 0 as `i0e`. |
| DocumentedExample.ExampleEncoding | vendor/github.com/KnutZuidema/go-torrent/bencoding/docs.go:16-17 | Marshal of the zero value of the example type writes exactly `d5:Attr00:8:int_attri0ee`, as the documentation says. |

## Left out

- Floating-point and complex values are not modelled beyond being refused. `FloatV` stands for all of them, and `Marshal` refuses it with `ErrInvalidType`.
- `MarshalBEncode` and `UnmarshalBEncode` are user code. A type with hooks is `CustomS(accepts)`: its encoder writes the raw text the value holds, and its decoder stores the raw next value. `accepts` says whether the hook succeeds. What a hook does with the bytes is not modelled.
- Tags.Lookup: the struct tag is taken as already parsed into a map from key to value. reflect.StructTag.Get's own parsing of the raw tag text is not modelled: the `key:"value"` pairs separated by spaces, the unquoting of the value, and a malformed tag reading as "" from the point where it goes wrong.
- Go's method sets are not modelled. A pointer to a hook type is treated like a pointer to a scalar, not as a hook value.
- An interface value is modelled as `IfaceV(Some(v))` with a concrete `v`. Decoding through an interface is modelled only for an interface holding a non-nil pointer, which is the only case `CanSet` allows; any other case is `ErrCanNotSet` (DecodeLaws.UnsettableTargets).
- `reflect`'s addressability rules are reduced to the `Target` datatype: nil interface, non-pointer, nil pointer, or a pointer to a location. A non-pointer argument that has a hook is not modelled.
- Go map iteration order is a nondeterministic choice in `Encoder.CollectPairs`.
- Encoder.SortPairs: `sort.Slice` is modelled as an insertion sort by the same comparator. The comparator answers `true` on equal keys, but Go map keys are distinct, so that answer is never consulted.
- Arrays are encoded like slices. decode refuses an array target with `ErrInvalidType` (decode.go:114), as DecodeLaws.RefusedTargets states.
- Buffer growth, `append` reallocation and aliasing between the decoded value and the input bytes are not modelled. Values are immutable Dafny data.
- RoundTrip.DictRoundTrips: proved for string-keyed maps whose keys' encodings fit an `int` and whose values round-trip. Structs are not covered by a round-trip lemma, because their field resolution is not symmetric between encoding and decoding (embedded fields, `omitempty` and shadowed names). Their behaviour is stated one direction at a time instead: `EncodeLaws.FlatStructKeys`, `EncodeLaws.FlatStructValues`, `EncodeLaws.EmbeddedMerged` and the `DecodeLaws` struct lemmas.
- RoundTrip.ListRoundTrips: a nil slice or map comes back empty but not nil, because the decoder always allocates; the lemmas state the decoded value with `isNil` false.
- DecodeSpec.DecodeStruct, DecodeSpec.Unmarshal: decodeStruct writes each field into the caller's struct as soon as its pair is decoded (`val.Field(num).Set` at decode.go:321). The model returns the new struct only on success. After a failure the caller's struct in Go already holds the fields of the pairs before the failing one: `d1:ai1e1:bi-ee` into `struct{A, B int}` fails and leaves A = 1. When Unmarshal reports ErrRemainingData (decode.go:41-43), the whole value has already been written. Lists and maps are set only at the end, and nested values are decoded into a fresh `reflect.New`, so only the outermost struct target is affected.
- DecodeSpec.Decode: its contract states the type, well-formedness and consumption bounds of the result, not the decoded value itself. The value is characterised by lemmas: the hook case by DecodeLaws.HookTarget and SkipLaws.HookReceivesText; pointers and interfaces by DecodeLaws.PointerFollowed, DecodeLaws.InterfaceFollowed and DecodeLaws.UnsettableTargets; the kind switch by DecodeLaws.ScalarTarget, DecodeLaws.SliceTarget, DecodeLaws.MapTarget, DecodeLaws.StructTarget and DecodeLaws.RefusedTargets; the values themselves by the other `DecodeLaws` and `RoundTrip` lemmas.
- EncodeSpec.Marshalled: its contract states only which errors can occur. What it writes is stated by the `EncodeLaws` and `RoundTrip` lemmas.
- EncodeSpec.Normalize: every `Shape` stands for a predeclared Go type or a composite of them; defined types such as `type Port int` or `type Hash []byte` are not modelled. normalize matches exact types (encode.go:194-216), so a defined byte slice would skip it and be written as a list of integers.
- EncodeSpec.Marshalled: Marshal's switch matches exact types (encode.go:27-40). A defined integer, string or bool type gets ErrInvalidType there, and a map keyed by a defined string type panics on the assertion at encode.go:57. Neither case is modelled, because `Shape` has no defined types.
- DecodeSpec.DecodeScalar: decoding into a defined string type panics on the assertion at decode.go:96. This is not modelled, because `Shape` has no defined types.
- DecodeSpec.DecodeDict: decoding into a map keyed by a defined string type reads the whole dictionary into a `map[string]E` and then panics in `val.Set(res)` at decode.go:277. A malformed pair therefore still reports its own error first. The model has no such key type, so it never reaches that panic.
- EncodeSpec.IsEmpty: `reflect.DeepEqual` against the zero value is rendered as structural equality of model values. A float is modelled by its value under Go's `==` (`FloatV(rank)`), so a -0.0 field is `FloatV(0)` and counts as empty, as DeepEqual has it. NaN has no model value.
- Go's runtime panics are collapsed into one `Panic` error. They are index out of range, a slice bound out of range, a failed type assertion and reflect misuse. The panic message is not modelled.
- Of `docs.go` only the worked example is modelled. The rest of go-torrent (torrent files, trackers, peers) is not part of this model.
