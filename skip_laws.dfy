/**
 * What readNextValue passes over: exactly one complete value of the
 * bencode grammar, whatever follows it. The value is described by its
 * wire form alone, so dictionaries may list their keys in any order and
 * repeat them, as the decoder accepts. readNextValue reads integers as
 * int64, so an integer above 2^63-1 is not skipped, although decodeUint
 * reads it into a uint64.
 */
module SkipLaws {
  import opened Wrappers
  import opened Constants
  import opened Strconv
  import opened DecodeSpec
  import opened EncodeSpec
  import opened Values
  import opened DecodeLaws
  import opened RoundTrip

  /** A bencode value as it is written: dictionary pairs in the order they appear. */
  datatype Wire =
    | WInt(i: int)
    | WStr(s: bytes)
    | WList(items: seq<Wire>)
    | WDict(pairs: seq<(bytes, Wire)>)

  /** Every integer fits int64 and every string's length prefix fits a Go int. */
  predicate Readable(w: Wire)
    decreases w
  {
    match w
    case WInt(i) => InInt64(i)
    case WStr(s) => |EncodeString(s)| <= MaxInt64
    case WList(items) => forall k :: 0 <= k < |items| ==> Readable(items[k])
    case WDict(pairs) =>
      forall k :: 0 <= k < |pairs| ==> |EncodeString(pairs[k].0)| <= MaxInt64 && Readable(pairs[k].1)
  }

  /** The text of a wire value: the encoder's scalars, and `l`/`d` framing of the parts. */
  function Text(w: Wire): (r: bytes)
    requires Readable(w)
    decreases w, 1
  {
    match w
    case WInt(i) => EncodeInt(i)
    case WStr(s) => EncodeString(s)
    case WList(_) => Framed(ListToken, Parts(w))
    case WDict(_) => Framed(DictToken, Parts(w))
  }

  /** The parts between the framing: the items, or each key followed by its value. */
  function Parts(w: Wire): (r: seq<bytes>)
    requires Readable(w) && (w.WList? || w.WDict?)
    ensures w.WList? ==> |r| == |w.items|
    ensures w.WDict? ==> |r| == 2 * |w.pairs|
    decreases w, 0
  {
    if w.WList? then
      seq(|w.items|, k requires 0 <= k < |w.items| => Text(w.items[k]))
    else
      seq(2 * |w.pairs|, k requires 0 <= k < 2 * |w.pairs| =>
        if k % 2 == 0 then EncodeString(w.pairs[k / 2].0) else Text(w.pairs[k / 2].1))
  }

  /** readNextValue passes over `p` and nothing more, whatever follows. */
  ghost predicate Skips(p: bytes) {
    forall rest {:trigger ReadNextValue(p + rest)} :: ReadNextValue(p + rest) == Success((|p|, p))
  }

  /** A wire text starts with `i`, `l`, `d` or a digit, never with the end token. */
  lemma TextStarts(w: Wire)
    requires Readable(w)
    ensures Text(w) != [] && Text(w)[0] != EndToken
  {
    TokensUnambiguous();
    if w.WStr? {
      var e := EncodeString(w.s);
      assert e[..|e| - |w.s| - 1][0] == e[0];
    }
  }

  /** A string's encoding is passed over whole. */
  lemma StringSkipped(s: bytes, rest: bytes)
    requires |EncodeString(s)| <= MaxInt64
    ensures ReadNextValue(EncodeString(s) + rest) == Success((|EncodeString(s)|, EncodeString(s)))
  {
    var e := EncodeString(s);
    TokensUnambiguous();
    assert (e + rest)[0] == e[..|e| - |s| - 1][0];
    StringRoundTrip(s, rest);
    assert (e + rest)[..|e|] == e;
  }

  /** An int64's encoding is passed over whole. */
  lemma IntSkipped(i: int, rest: bytes)
    requires InInt64(i)
    ensures ReadNextValue(EncodeInt(i) + rest) == Success((|EncodeInt(i)|, EncodeInt(i)))
  {
    IntRoundTrip(i, rest);
    assert (EncodeInt(i) + rest)[..|EncodeInt(i)|] == EncodeInt(i);
  }

  /** One turn of the skip loop: a value that readNextValue passes over moves the cursor past it. */
  lemma SkipTurn(data: bytes, read: nat, n: nat, raw: bytes, next: nat)
    requires 1 <= read < |data| && data[read] != EndToken
    requires ReadNextValue(data[read..]) == Success((n, raw)) && next == read + n
    ensures next <= |data| && SkipItems(data, read) == SkipItems(data, next)
  {
  }

  /** The skip loop stops just after an end token. */
  lemma SkipEnd(data: bytes, read: nat)
    requires 1 <= read < |data| && data[read] == EndToken
    ensures SkipItems(data, read) == Success(read + 1)
  {
  }

  /**
   * Cursor positions through a list or dictionary body: from each of
   * `starts` the skip loop goes on as from the next, and the last one holds
   * the end token.
   */
  ghost predicate SkipChain(data: bytes, starts: seq<nat>) {
    && |starts| > 0
    && (forall j :: 0 <= j < |starts| ==> 1 <= starts[j] < |data|)
    && data[starts[|starts| - 1]] == EndToken
    && forall j :: 0 <= j < |starts| - 1 ==> SkipItems(data, starts[j]) == SkipItems(data, starts[j + 1])
  }

  /** Along such a chain, the skip loop stops just after the end token. */
  lemma {:induction false} ChainSkipped(data: bytes, starts: seq<nat>, k: nat)
    requires SkipChain(data, starts) && k < |starts|
    ensures SkipItems(data, starts[k]) == Success(starts[|starts| - 1] + 1)
    decreases |starts| - k
  {
    if k == |starts| - 1 {
      SkipEnd(data, starts[k]);
    } else {
      ChainSkipped(data, starts, k + 1);
    }
  }

  /** Where each part of a framed text starts, and where its end token sits. */
  function Starts(parts: seq<bytes>): (r: seq<nat>)
    ensures |r| == |parts| + 1 && r[0] == 1
    ensures forall j :: 0 <= j <= |parts| ==> r[j] == ItemStart(parts, j)
  {
    assert ItemStart(parts, 0) == 1 by {
      assert parts[..0] == [];
    }
    seq(|parts| + 1, j requires 0 <= j <= |parts| => ItemStart(parts, j))
  }

  /** Part `j` of a framed text, whose part readNextValue passes over, is passed over in place. */
  lemma PartAt(open: byte, parts: seq<bytes>, rest: bytes, j: nat)
    requires j < |parts| && Skips(parts[j]) && parts[j] != [] && parts[j][0] != EndToken
    ensures ItemStart(parts, j) + |parts[j]| == ItemStart(parts, j + 1) < |Framed(open, parts) + rest|
    ensures (Framed(open, parts) + rest)[ItemStart(parts, j)] != EndToken
    ensures ReadNextValue((Framed(open, parts) + rest)[ItemStart(parts, j)..]) == Success((|parts[j]|, parts[j]))
  {
    FramedAt(open, parts, rest, j);
    var after := (Framed(open, parts) + rest)[ItemStart(parts, j + 1)..];
    assert ReadNextValue(parts[j] + after) == Success((|parts[j]|, parts[j]));
  }

  /** The skip loop goes on from part `j` of a framed text as from the part after it. */
  lemma PartStep(open: byte, parts: seq<bytes>, rest: bytes, j: nat)
    requires j < |parts| && Skips(parts[j]) && parts[j] != [] && parts[j][0] != EndToken
    ensures ItemStart(parts, j) < ItemStart(parts, j + 1) < |Framed(open, parts) + rest|
    ensures SkipItems(Framed(open, parts) + rest, ItemStart(parts, j)) ==
      SkipItems(Framed(open, parts) + rest, ItemStart(parts, j + 1))
  {
    PartAt(open, parts, rest, j);
    SkipTurn(Framed(open, parts) + rest, ItemStart(parts, j), |parts[j]|, parts[j], ItemStart(parts, j + 1));
  }

  /** The part starts of a framed text whose parts are each skipped form a skip chain. */
  lemma FramedChain(open: byte, parts: seq<bytes>, rest: bytes)
    requires forall j :: 0 <= j < |parts| ==> Skips(parts[j]) && parts[j] != [] && parts[j][0] != EndToken
    ensures SkipChain(Framed(open, parts) + rest, Starts(parts))
  {
    var data, starts := Framed(open, parts) + rest, Starts(parts);
    FramedEnd(open, parts, rest);
    forall j | 0 <= j <= |parts|
      ensures starts[j] < |data|
    {
      if j < |parts| {
        PartStep(open, parts, rest, j);
      }
    }
    forall j | 0 <= j < |parts|
      ensures SkipItems(data, starts[j]) == SkipItems(data, starts[j + 1])
    {
      PartStep(open, parts, rest, j);
    }
  }

  /** A list or dictionary text whose parts are each skipped is passed over whole. */
  lemma FramedSkipped(open: byte, parts: seq<bytes>, rest: bytes)
    requires open == ListToken || open == DictToken
    requires forall j :: 0 <= j < |parts| ==> Skips(parts[j]) && parts[j] != [] && parts[j][0] != EndToken
    ensures ReadNextValue(Framed(open, parts) + rest) == Success((|Framed(open, parts)|, Framed(open, parts)))
  {
    var data := Framed(open, parts) + rest;
    FramedChain(open, parts, rest);
    ChainSkipped(data, Starts(parts), 0);
    FramedEnd(open, parts, rest);
    TokensUnambiguous();
    assert data[0] == open;
    assert data[..|Framed(open, parts)|] == Framed(open, parts);
  }

  /**
   * readNextValue passes over exactly one value: on the text of any wire
   * value followed by anything, it returns that text and its length.
   */
  lemma {:induction false} TextSkipped(w: Wire, rest: bytes)
    requires Readable(w)
    ensures ReadNextValue(Text(w) + rest) == Success((|Text(w)|, Text(w)))
    decreases w
  {
    match w
    case WInt(i) => IntSkipped(i, rest);
    case WStr(s) => StringSkipped(s, rest);
    case WList(items) =>
      var parts := Parts(w);
      forall j | 0 <= j < |parts|
        ensures Skips(parts[j]) && parts[j] != [] && parts[j][0] != EndToken
      {
        forall r
          ensures ReadNextValue(parts[j] + r) == Success((|parts[j]|, parts[j]))
        {
          TextSkipped(items[j], r);
        }
        TextStarts(items[j]);
      }
      FramedSkipped(ListToken, parts, rest);
    case WDict(pairs) =>
      var parts := Parts(w);
      forall j | 0 <= j < |parts|
        ensures Skips(parts[j]) && parts[j] != [] && parts[j][0] != EndToken
      {
        if j % 2 == 0 {
          forall r
            ensures ReadNextValue(parts[j] + r) == Success((|parts[j]|, parts[j]))
          {
            StringSkipped(pairs[j / 2].0, r);
          }
          TextStarts(WStr(pairs[j / 2].0));
        } else {
          forall r
            ensures ReadNextValue(parts[j] + r) == Success((|parts[j]|, parts[j]))
          {
            TextSkipped(pairs[j / 2].1, r);
          }
          TextStarts(pairs[j / 2].1);
        }
      }
      FramedSkipped(DictToken, parts, rest);
  }
  /**
   * An accepting UnmarshalBEncode hook is handed exactly the text of the
   * one value at the front of the data, whatever follows it.
   */
  lemma HookReceivesText(w: Wire, rest: bytes, x: bytes)
    requires Readable(w)
    ensures Decode(Text(w) + rest, CustomV(true, x)) == Success((CustomV(true, Text(w)), |Text(w)|))
    ensures Decode(Text(w) + rest, CustomV(false, x)) == Failure(HookFailed)
  {
    TextSkipped(w, rest);
  }

  /**
   * readNextValue reads an integer as int64: an integer in (2^63-1, 2^64-1]
   * decodes into a uint64 but is not skipped, the skip failing with a range
   * error.
   */
  lemma LargeUintNotSkipped(u: nat, rest: bytes)
    requires MaxInt64 < u <= MaxUint64
    ensures DecodeUint(EncodeUint(u) + rest) == Success((u, |EncodeUint(u)|))
    ensures ReadNextValue(EncodeUint(u) + rest) == Failure(NumRange)
  {
    UintRoundTrip(u, rest);
    var text := FormatUint(u);
    assert AcceptedIntText(text);
    assert EncodeUint(u) + rest == [IntToken] + text + [EndToken] + rest;
    IntTextAccepted(text, rest);
    assert ParseInt64(text) == Failure(NumRange);
  }

  /**
   * So a struct field of type uint64 reads such an integer, while the same
   * pair under a key no field resolves to fails the whole struct decode
   * with the range error instead of being skipped.
   */
  lemma UnknownLargeUintFails(u: nat, rest: bytes, key: bytes, fs: seq<Field>, names: map<bytes, nat>,
                              vs: seq<GoValue>)
    requires MaxInt64 < u <= MaxUint64
    requires FieldIndexes(names, fs) && |vs| == |fs| && key !in names
    ensures FieldValue(EncodeUint(u) + rest, key, fs, names, vs) == Failure(NumRange)
  {
    LargeUintNotSkipped(u, rest);
  }
}
