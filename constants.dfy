/**
 * The token alphabet of the bencode wire format, the struct-tag vocabulary,
 * and the error taxonomy shared by the decoder and the encoder
 * (bencoding/constants.go).
 */
module Constants {
  import opened Wrappers

  /** A Go byte. */
  type byte = b: int | 0 <= b < 256
  /** A Go `[]byte` or `string`: Go strings are byte sequences. */
  type bytes = seq<byte>

  /** The bytes of an ASCII literal. */
  function Ascii(s: string): (r: bytes)
    requires forall i :: 0 <= i < |s| ==> s[i] as int < 128
    ensures |r| == |s|
    ensures forall i :: 0 <= i < |s| ==> r[i] == s[i] as int
  {
    if s == [] then [] else [s[0] as int] + Ascii(s[1..])
  }

  const EndToken: byte := 'e' as int
  const IntToken: byte := 'i' as int
  const ListToken: byte := 'l' as int
  const DictToken: byte := 'd' as int
  const StringSeparatorToken: byte := ':' as int
  /** The sign byte accepted by the integer production. */
  const Minus: byte := '-' as int
  const ZeroDigit: byte := '0' as int

  /** The struct-tag key the field resolver reads. */
  const StructTagKey: bytes := ['b' as int, 'e' as int, 'n' as int, 'c' as int, 'o' as int, 'd' as int, 'e' as int]
  /** The only option the field resolver recognises. */
  const OptionOmitEmpty: bytes := ['o' as int, 'm' as int, 'i' as int, 't' as int, 'e' as int, 'm' as int, 'p' as int, 't' as int, 'y' as int]

  predicate IsDigit(b: byte) {
    '0' as int <= b <= '9' as int
  }

  /**
   * The failures either direction can report. The first sixteen are the
   * package's error sentinels; the rest stand for errors the package passes
   * through from elsewhere.
   */
  datatype Err =
    | NonStringKey
    | NonPointer
    | InvalidType
    | InvalidValue
    | EmptyData
    | CanNotSet
    | LeadingZero
    | LengthTooBig
    | RemainingData
    | InvalidBool
    | InvalidInteger
    | InvalidString
    | InvalidList
    | InvalidDict
    | InvalidStruct
    | InvalidToken
    /** strconv reported a malformed number */
    | NumSyntax
    /** strconv reported a number outside the target's range */
    | NumRange
    /** a user-supplied Marshaler or Unmarshaler returned an error */
    | HookFailed
    /** the Go runtime panicked (index or slice out of range, reflect misuse) */
    | Panic

  type Outcome<T> = Result<T, Err>

  predicate IsSentinel(e: Err) {
    !(e.NumSyntax? || e.NumRange? || e.HookFailed? || e.Panic?)
  }

  /** The error sentinels constants.go declares, in declaration order. */
  const Sentinels: seq<Err> := [
    NonStringKey, NonPointer, InvalidType, InvalidValue, EmptyData, CanNotSet,
    LeadingZero, LengthTooBig, RemainingData, InvalidBool, InvalidInteger,
    InvalidString, InvalidList, InvalidDict, InvalidStruct, InvalidToken
  ]

  /** The package declares exactly sixteen distinct error sentinels. */
  lemma SentinelsAreSixteen()
    ensures |Sentinels| == 16
    ensures forall i, j :: 0 <= i < j < |Sentinels| ==> Sentinels[i] != Sentinels[j]
    ensures forall e :: e in Sentinels <==> IsSentinel(e)
  {
  }

  /**
   * The structural tokens are pairwise distinct and none is a digit, so the
   * first byte of a value decides its production.
   */
  lemma TokensUnambiguous()
    ensures |{EndToken, IntToken, ListToken, DictToken, StringSeparatorToken}| == 5
    ensures !IsDigit(EndToken) && !IsDigit(IntToken) && !IsDigit(ListToken)
    ensures !IsDigit(DictToken) && !IsDigit(StringSeparatorToken)
  {
  }
}
