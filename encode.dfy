/**
 * The encoder of encode.go as the Go code runs it: Marshal dispatches on
 * the value, encodeList and encodeDict append to a result in loops,
 * encodeDict sorts its key/value pairs in place, and structToMap fills a
 * map field by field. Every method is proved equal to its counterpart in
 * module EncodeSpec. Marshal and MarshalReflected have no loop and repeat
 * their EncodeSpec functions step for step; they are here only so that the
 * verified loops call one another as the Go functions do.
 */
module Encoder {
  import opened Wrappers
  import opened Constants
  import opened Values
  import opened Tags
  import opened KeyOrder
  import opened EncodeSpec

  /** Marshal: the encoding of `v`, or the error that stops it. */
  method Marshal(v: GoValue) returns (r: Outcome<bytes>)
    requires WellFormed(v)
    ensures r == Marshalled(v)
    decreases Height(v), 3
  {
    var n := Normalize(v);
    match n {
      case CustomV(accepts, raw) =>
        if !accepts {
          return Failure(HookFailed);
        }
        return Success(raw);
      case StringV(s) =>
        return Success(EncodeString(s));
      case IntV(_, i) =>
        return Success(EncodeInt(i));
      case UintV(_, u) =>
        return Success(EncodeUint(u));
      case BoolV(b) =>
        if b {
          return Success(EncodeInt(1));
        }
        return Success(EncodeInt(0));
      case IfaceV(d) =>
        if d.None? {
          return Failure(InvalidType);
        }
        r := Marshal(d.value);
      case _ =>
        r := MarshalReflected(v);
    }
  }

  /** dereference: follow pointers and interfaces until neither is reached. */
  method Dereference(v: GoValue) returns (r: Option<GoValue>)
    ensures r == Deref(v)
  {
    var val := v;
    while val.PtrV? || val.IfaceV?
      invariant Deref(val) == Deref(v)
      decreases val
    {
      if val.PtrV? {
        if val.target.None? {
          return None;
        }
        val := val.target.value;
      } else {
        if val.dyn.None? {
          return None;
        }
        val := val.dyn.value;
      }
    }
    return Some(val);
  }

  /** The default case of Marshal: reflect on the dereferenced value. */
  method MarshalReflected(v: GoValue) returns (r: Outcome<bytes>)
    requires WellFormed(v)
    ensures r == Reflected(v)
    decreases Height(v), 2
  {
    var rv := Dereference(v);
    if rv.None? {
      return Failure(InvalidType);
    }
    var x := rv.value;
    match x {
      case SliceV(_, _, items) =>
        ItemsLower(x);
        var list := ListOf(items);
        r := EncodeList(list, Height(v));
      case ArrayV(_, items) =>
        ItemsLower(x);
        var list := ListOf(items);
        r := EncodeList(list, Height(v));
      case MapV(k, _, _, m) =>
        if k != StringS {
          return Failure(NonStringKey);
        }
        EntriesLower(x);
        var dict := DictOf(m);
        r := EncodeDict(dict, Height(v));
      case StructV(_, _) =>
        var dict :- StructToMap(x);
        r := EncodeDict(dict, Height(v));
      case _ =>
        return Failure(InvalidType);
    }
  }

  /** Marshal's copy of a slice or array into a []interface{}, item by item. */
  method ListOf(items: seq<GoValue>) returns (list: seq<GoValue>)
    ensures list == items
  {
    list := [];
    for i := 0 to |items|
      invariant list == items[..i]
    {
      list := list + [items[i]];
    }
  }

  /** Marshal's copy of a map into a map[string]interface{}, in the map's iteration order. */
  method DictOf(m: map<bytes, GoValue>) returns (dict: map<bytes, GoValue>)
    ensures dict == m
  {
    dict := map[];
    var rest := m.Keys;
    while rest != {}
      invariant rest <= m.Keys
      invariant dict == map k | k in m.Keys - rest :: m[k]
      decreases |rest|
    {
      var k :| k in rest;
      dict := dict[k := m[k]];
      rest := rest - {k};
    }
  }

  /*
   * The two encoding loops keep a ghost `body`: what the result holds
   * after the opening token. Their invariants are predicates saying that
   * `body` is the encoding of the first `i` items (or pairs), so that the
   * verifier unfolds the recursive encoding only inside the lemmas that
   * take one step of it.
   */

  ghost predicate ItemsDone(items: seq<GoValue>, i: nat, bound: nat, body: bytes) {
    i <= |items| && LowerItems(items, bound) && ItemsEncoding(items[..i], bound) == Success(body)
  }

  /** encodeList: `l`, each item's encoding in turn, `e`; the first error aborts. */
  method EncodeList(items: seq<GoValue>, ghost bound: nat) returns (r: Outcome<bytes>)
    requires LowerItems(items, bound)
    ensures r == ListEncoding(items, bound)
    decreases bound, 1
  {
    var res := [ListToken];
    ghost var body: bytes := [];
    ItemsStart(items, bound);
    for i := 0 to |items|
      invariant res == [ListToken] + body
      invariant ItemsDone(items, i, bound, body)
    {
      var d := Marshal(items[i]);
      ItemsStep(items, i, bound, body, d);
      if d.Failure? {
        return Failure(d.error);
      }
      AppendAssoc([ListToken], body, d.value);
      res := res + d.value;
      body := body + d.value;
    }
    ItemsFinish(items, bound, body);
    res := res + [EndToken];
    return Success(res);
  }

  lemma ItemsStart(items: seq<GoValue>, bound: nat)
    requires LowerItems(items, bound)
    ensures ItemsDone(items, 0, bound, [])
  {
    assert items[..0] == [];
  }

  /** One turn of encodeList's loop: the next item's encoding is appended, or its error ends the list. */
  lemma ItemsStep(items: seq<GoValue>, i: nat, bound: nat, body: bytes, d: Outcome<bytes>)
    requires ItemsDone(items, i, bound, body) && i < |items|
    requires d == Marshalled(items[i])
    ensures d.Success? ==> ItemsDone(items, i + 1, bound, body + d.value)
    ensures d.Failure? ==> ListEncoding(items, bound) == Failure(d.error)
  {
    assert items[..i + 1][..i] == items[..i];
    if d.Failure? {
      ItemsFailureStays(items, i + 1, bound);
    }
  }

  lemma ItemsFinish(items: seq<GoValue>, bound: nat, body: bytes)
    requires ItemsDone(items, |items|, bound, body)
    ensures ListEncoding(items, bound) == Success([ListToken] + body + [EndToken])
  {
    assert items[..|items|] == items;
  }

  lemma {:induction false} ItemsFailureStays(items: seq<GoValue>, j: nat, bound: nat)
    requires LowerItems(items, bound)
    requires j <= |items| && ItemsEncoding(items[..j], bound).Failure?
    ensures ItemsEncoding(items, bound) == ItemsEncoding(items[..j], bound)
    decreases |items| - j
  {
    if j < |items| {
      assert items[..j + 1][..j] == items[..j];
      ItemsFailureStays(items, j + 1, bound);
    } else {
      assert items[..j] == items;
    }
  }

  /** The keys of a sequence of key/value pairs, in order. */
  function KeysOf(s: seq<(bytes, GoValue)>): (keys: seq<bytes>)
    ensures |keys| == |s|
    ensures forall i :: 0 <= i < |s| ==> keys[i] == s[i].0
  {
    seq(|s|, i requires 0 <= i < |s| => s[i].0)
  }

  /** No two pairs share a key. */
  predicate DistinctKeys(s: seq<(bytes, GoValue)>) {
    forall i, j :: 0 <= i < j < |s| ==> s[i].0 != s[j].0
  }

  /** Every pair holds a key of `m` and that key's value. */
  predicate PairsOf(s: seq<(bytes, GoValue)>, m: map<bytes, GoValue>) {
    forall i :: 0 <= i < |s| ==> s[i].0 in m && s[i].1 == m[s[i].0]
  }

  ghost predicate PairsDone(keys: seq<bytes>, m: map<bytes, GoValue>, i: nat, bound: nat, body: bytes) {
    && i <= |keys|
    && LowerEntries(m, bound)
    && (forall j :: 0 <= j < |keys| ==> keys[j] in m)
    && PairsEncoding(keys[..i], m, bound) == Success(body)
  }

  /**
   * encodeDict: the pairs of `m` in the map's iteration order, sorted by
   * the key comparator, then `d`, each key's string and value's encoding,
   * `e`. The first error aborts.
   */
  method EncodeDict(m: map<bytes, GoValue>, ghost bound: nat) returns (r: Outcome<bytes>)
    requires LowerEntries(m, bound)
    ensures r == DictEncoding(m, bound)
    decreases bound, 1
  {
    var pairs := SortedPairs(m);
    ghost var keys := KeysOf(pairs);
    var res := [DictToken];
    ghost var body: bytes := [];
    PairsStart(keys, m, bound);
    for i := 0 to |pairs|
      invariant res == [DictToken] + body
      invariant PairsDone(keys, m, i, bound, body)
    {
      var (k, v) := pairs[i];
      assert k == keys[i] && k in m && v == m[k];
      var key := EncodeString(k);
      var val := Marshal(v);
      if val.Failure? {
        PairsStepFails(keys, m, i, bound, body, val);
        return Failure(val.error);
      }
      PairsStep(keys, m, i, bound, body, val.value);
      var pair := key + val.value;
      AppendAssoc([DictToken], body, pair);
      res := res + pair;
      body := body + pair;
    }
    PairsFinish(m, bound, body);
    res := res + [EndToken];
    return Success(res);
  }

  /** encodeDict's pairs, collected from the map and sorted: the keys come in SortedKeys order. */
  method SortedPairs(m: map<bytes, GoValue>) returns (pairs: seq<(bytes, GoValue)>)
    ensures KeysOf(pairs) == SortedKeys(m.Keys)
    ensures PairsOf(pairs, m)
  {
    var sorted := CollectPairs(m);
    ghost var collected := sorted[..];
    SortPairs(sorted);
    PermutedPairs(collected, sorted[..], m);
    SortedPairsAreSortedKeys(sorted[..], m);
    pairs := sorted[..];
  }

  lemma PairsStart(keys: seq<bytes>, m: map<bytes, GoValue>, bound: nat)
    requires LowerEntries(m, bound)
    requires keys == SortedKeys(m.Keys)
    ensures PairsDone(keys, m, 0, bound, [])
  {
    assert keys[..0] == [];
  }

  /** One turn of encodeDict's emitting loop: the next key and its value's encoding are appended. */
  lemma PairsStep(keys: seq<bytes>, m: map<bytes, GoValue>, i: nat, bound: nat, body: bytes, d: bytes)
    requires PairsDone(keys, m, i, bound, body) && i < |keys|
    requires Marshalled(m[keys[i]]) == Success(d)
    ensures PairsDone(keys, m, i + 1, bound, body + (EncodeString(keys[i]) + d))
  {
    var k := keys[i];
    assert PairsEncoding(keys[..i + 1], m, bound) == Success(body + EncodeString(k) + d) by {
      assert keys[..i + 1][..i] == keys[..i];
    }
    AppendAssoc(body, EncodeString(k), d);
  }

  /** A value that fails to encode ends encodeDict with its error. */
  lemma PairsStepFails(keys: seq<bytes>, m: map<bytes, GoValue>, i: nat, bound: nat, body: bytes, d: Outcome<bytes>)
    requires PairsDone(keys, m, i, bound, body) && i < |keys|
    requires keys == SortedKeys(m.Keys)
    requires d == Marshalled(m[keys[i]]) && d.Failure?
    ensures DictEncoding(m, bound) == Failure(d.error)
  {
    PairsFailAt(keys, m, i, bound, body, d);
    PairsFailureStays(keys, m, i + 1, bound);
  }

  /** The pairs up to a value that fails to encode fail with its error. */
  lemma PairsFailAt(keys: seq<bytes>, m: map<bytes, GoValue>, i: nat, bound: nat, body: bytes, d: Outcome<bytes>)
    requires PairsDone(keys, m, i, bound, body) && i < |keys|
    requires d == Marshalled(m[keys[i]]) && d.Failure?
    ensures PairsEncoding(keys[..i + 1], m, bound) == Failure(d.error)
  {
    assert keys[..i + 1][..i] == keys[..i];
  }

  lemma PairsFinish(m: map<bytes, GoValue>, bound: nat, body: bytes)
    requires PairsDone(SortedKeys(m.Keys), m, |SortedKeys(m.Keys)|, bound, body)
    ensures DictEncoding(m, bound) == Success([DictToken] + body + [EndToken])
  {
    var keys := SortedKeys(m.Keys);
    assert keys[..|keys|] == keys;
  }

  lemma {:induction false} PairsFailureStays(keys: seq<bytes>, m: map<bytes, GoValue>, j: nat, bound: nat)
    requires LowerEntries(m, bound)
    requires forall i :: 0 <= i < |keys| ==> keys[i] in m
    requires j <= |keys| && PairsEncoding(keys[..j], m, bound).Failure?
    ensures PairsEncoding(keys, m, bound) == PairsEncoding(keys[..j], m, bound)
    decreases |keys| - j
  {
    if j < |keys| {
      assert keys[..j + 1][..j] == keys[..j];
      PairsFailureStays(keys, m, j + 1, bound);
    } else {
      assert keys[..j] == keys;
    }
  }

  /** encodeDict's first loop: one pair per entry of `m`, in the map's iteration order. */
  method CollectPairs(m: map<bytes, GoValue>) returns (sorted: array<(bytes, GoValue)>)
    ensures fresh(sorted)
    ensures PairsOf(sorted[..], m) && DistinctKeys(sorted[..])
    ensures forall k :: k in m ==> k in KeysOf(sorted[..])
  {
    sorted := new (bytes, GoValue)[|m|](_ => ([], BoolV(false)));
    var rest := m.Keys;
    ghost var seen: seq<bytes> := [];
    var j := 0;
    while rest != {}
      invariant j == |seen| && |rest| + j == |m| && rest <= m.Keys
      invariant forall i :: 0 <= i < j ==> seen[i] in m
      invariant forall i :: 0 <= i < j ==> sorted[i] == (seen[i], m[seen[i]])
      invariant forall k :: k in m ==> (k in rest <==> k !in seen)
      invariant forall i, i' :: 0 <= i < i' < j ==> seen[i] != seen[i']
      decreases |rest|
    {
      var k :| k in rest;
      sorted[j] := (k, m[k]);
      seen := seen + [k];
      rest := rest - {k};
      j := j + 1;
    }
    assert forall k :: k in m ==> k in seen;
    assert KeysOf(sorted[..]) == seen;
  }

  /** Every pair sorts before every later one. */
  predicate SortedByKey(s: seq<(bytes, GoValue)>) {
    forall i, j :: 0 <= i < j < |s| ==> KeyLess(s[i].0, s[j].0)
  }

  /**
   * sort.Slice with encodeDict's comparator: the pairs are reordered in
   * place until they are sorted by key.
   */
  method SortPairs(a: array<(bytes, GoValue)>)
    modifies a
    requires DistinctKeys(a[..])
    ensures SortedByKey(a[..]) && DistinctKeys(a[..])
    ensures multiset(a[..]) == multiset(old(a[..]))
  {
    KeyLessTotalOrder();
    var i := 0;
    while i < a.Length
      invariant 0 <= i <= a.Length
      invariant SortedByKey(a[..i]) && DistinctKeys(a[..])
      invariant multiset(a[..]) == multiset(old(a[..]))
    {
      InsertPair(a, i);
      i := i + 1;
    }
    assert a[..a.Length] == a[..];
  }

  /** Move the pair at `i` down into the sorted pairs before it. */
  method InsertPair(a: array<(bytes, GoValue)>, i: nat)
    modifies a
    requires i < a.Length && SortedByKey(a[..i]) && DistinctKeys(a[..])
    requires forall x, y :: KeyLess(x, y) || KeyLess(y, x)
    requires forall x, y, z :: KeyLess(x, y) && KeyLess(y, z) ==> KeyLess(x, z)
    ensures SortedByKey(a[..i + 1]) && DistinctKeys(a[..])
    ensures multiset(a[..]) == multiset(old(a[..]))
  {
    var j := i;
    while j > 0
      invariant 0 <= j <= i
      invariant forall p, q :: 0 <= p < q <= i && q != j ==> KeyLess(a[p].0, a[q].0)
      invariant DistinctKeys(a[..])
      invariant multiset(a[..]) == multiset(old(a[..]))
    {
      var ordered := Less(a[j - 1].0, a[j].0);
      if ordered {
        break;
      }
      a[j - 1], a[j] := a[j], a[j - 1];
      j := j - 1;
    }
  }

  /** Reordering pairs keeps them pairs of `m` and keeps every key. */
  lemma PermutedPairs(s: seq<(bytes, GoValue)>, t: seq<(bytes, GoValue)>, m: map<bytes, GoValue>)
    requires multiset(s) == multiset(t)
    requires PairsOf(s, m) && forall k :: k in m ==> k in KeysOf(s)
    ensures PairsOf(t, m) && forall k :: k in m ==> k in KeysOf(t)
  {
    forall i | 0 <= i < |t|
      ensures t[i].0 in m && t[i].1 == m[t[i].0]
    {
      assert t[i] in multiset(s);
    }
    forall k | k in m
      ensures k in KeysOf(t)
    {
      var i :| 0 <= i < |s| && KeysOf(s)[i] == k;
      assert s[i] in multiset(t);
      var j :| 0 <= j < |t| && t[j] == s[i];
      assert KeysOf(t)[j] == k;
    }
  }

  /**
   * Once sorted, the pairs of `m` list its keys in the one strictly sorted
   * order there is.
   */
  lemma SortedPairsAreSortedKeys(s: seq<(bytes, GoValue)>, m: map<bytes, GoValue>)
    requires SortedByKey(s) && DistinctKeys(s) && PairsOf(s, m)
    requires forall k :: k in m ==> k in KeysOf(s)
    ensures KeysOf(s) == SortedKeys(m.Keys)
    ensures forall i :: 0 <= i < |s| ==> s[i].0 in m && s[i].1 == m[s[i].0]
  {
    var keys := KeysOf(s);
    assert StrictlySorted(keys);
    SortedUnique(keys, m.Keys);
  }

  /** `dict` is what structToMap holds after its first `i` fields. */
  ghost predicate FieldsDone(v: GoValue, i: nat, dict: map<bytes, GoValue>) {
    v.StructV? && WellFormed(v) && i <= |v.fields| && StructFields(v, i) == Success(dict)
  }

  /** structToMap: fill the map field by field, flattening unnamed embedded structs. */
  method StructToMap(v: GoValue) returns (r: Outcome<map<bytes, GoValue>>)
    requires v.StructV? && WellFormed(v)
    ensures r == EncodeSpec.StructToMap(v)
    decreases v
  {
    var dict := map[];
    for i := 0 to |v.fields|
      invariant FieldsDone(v, i, dict)
    {
      var t := NewTag(v.fields[i]);
      if t.skip {
        continue;
      }
      if t.omitEmpty && IsEmpty(v) {
        continue;
      }
      if v.fields[i].anonymous && t.name == [] {
        var x := v.vals[i];
        if !x.StructV? {
          // reflect's NumField panics on a value that is not a struct
          StructFailureStays(v, i + 1);
          return Failure(Panic);
        }
        var sub := StructToMap(x);
        if sub.Failure? {
          StructFailureStays(v, i + 1);
          return Failure(sub.error);
        }
        dict := MergeInto(dict, sub.value);
      } else {
        dict := dict[t.name := v.vals[i]];
      }
    }
    return Success(dict);
  }

  lemma {:induction false} StructFailureStays(v: GoValue, j: nat)
    requires v.StructV? && WellFormed(v)
    requires j <= |v.fields| && StructFields(v, j).Failure?
    ensures StructFields(v, |v.fields|) == StructFields(v, j)
    decreases |v.fields| - j
  {
    if j < |v.fields| {
      StructFailureStays(v, j + 1);
    }
  }

  /** The flattening loop of structToMap: copy every entry of `sub` over `dict`. */
  method MergeInto(dict: map<bytes, GoValue>, sub: map<bytes, GoValue>) returns (r: map<bytes, GoValue>)
    ensures r == dict + sub
  {
    r := dict;
    var rest := sub.Keys;
    while rest != {}
      invariant rest <= sub.Keys
      invariant r == dict + map k | k in sub.Keys - rest :: sub[k]
      decreases |rest|
    {
      var k :| k in rest;
      r := r[k := sub[k]];
      rest := rest - {k};
    }
  }
}
