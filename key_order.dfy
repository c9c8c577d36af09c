/**
 * The dictionary-key order of encodeDict: shorter keys first, keys of equal
 * length compared byte by byte. This is not the raw byte-string order of
 * BEP 3; the model keeps the comparator the code has.
 */
module KeyOrder {
  import opened Constants

  /** The comparator handed to sort.Slice, as a relation on keys. */
  predicate KeyLess(a: bytes, b: bytes) {
    if |a| == |b| then FirstDifferenceLess(a, b, 0) else |a| < |b|
  }

  /**
   * The inner loop of the comparator from index `k` on: the first differing
   * byte decides, and equal keys compare as "less" (the loop falls through to
   * `return true`).
   */
  predicate FirstDifferenceLess(a: bytes, b: bytes, k: nat)
    requires |a| == |b| && k <= |a|
    decreases |a| - k
  {
    if k == |a| then true
    else if a[k] != b[k] then a[k] < b[k]
    else FirstDifferenceLess(a, b, k + 1)
  }

  /** The comparator itself, with the loop the source runs. */
  method Less(a: bytes, b: bytes) returns (r: bool)
    ensures r == KeyLess(a, b)
  {
    if |a| == |b| {
      var k := 0;
      while k < |a|
        invariant 0 <= k <= |a|
        invariant FirstDifferenceLess(a, b, k) == FirstDifferenceLess(a, b, 0)
      {
        if a[k] != b[k] {
          return a[k] < b[k];
        }
        k := k + 1;
      }
      return true;
    }
    return |a| < |b|;
  }

  /** Byte-wise "less than" on two keys of the same length. */
  ghost predicate BytewiseLess(a: bytes, b: bytes) {
    |a| == |b| && exists j :: 0 <= j < |a| && a[..j] == b[..j] && a[j] < b[j]
  }

  lemma {:induction false} FirstDifferenceWitness(a: bytes, b: bytes, k: nat)
    requires |a| == |b| && k <= |a| && a[..k] == b[..k]
    ensures FirstDifferenceLess(a, b, k) <==>
      a == b || exists j :: k <= j < |a| && a[..j] == b[..j] && a[j] < b[j]
    decreases |a| - k
  {
    if k == |a| {
      assert a == a[..k] && b == b[..k];
    } else if a[k] != b[k] {
      if a[k] < b[k] {
        assert k <= k < |a| && a[..k] == b[..k] && a[k] < b[k];
      }
    } else {
      assert a[..k + 1] == b[..k + 1] by {
        assert a[..k + 1] == a[..k] + [a[k]] && b[..k + 1] == b[..k] + [b[k]];
      }
      FirstDifferenceWitness(a, b, k + 1);
    }
  }

  /**
   * The ordering law: of two different keys, the first sorts first exactly
   * when it is shorter, or as long and byte-wise smaller.
   */
  lemma KeyOrderLaw(a: bytes, b: bytes)
    requires a != b
    ensures KeyLess(a, b) <==> |a| < |b| || BytewiseLess(a, b)
  {
    if |a| == |b| {
      FirstDifferenceWitness(a, b, 0);
    }
  }

  /** "a" sorts before "bb" here, and "b" before "aa", which raw byte order would put first. */
  lemma ShorterKeyFirst()
    ensures KeyLess(Ascii("a"), Ascii("bb")) && !KeyLess(Ascii("bb"), Ascii("a"))
    ensures KeyLess(Ascii("b"), Ascii("aa")) && !KeyLess(Ascii("aa"), Ascii("b"))
  {
  }

  lemma {:induction false} FirstDifferenceTotal(a: bytes, b: bytes, k: nat)
    requires |a| == |b| && k <= |a|
    ensures FirstDifferenceLess(a, b, k) || FirstDifferenceLess(b, a, k)
    ensures FirstDifferenceLess(a, b, k) && FirstDifferenceLess(b, a, k) ==> a[k..] == b[k..]
    decreases |a| - k
  {
    if k < |a| && a[k] == b[k] {
      FirstDifferenceTotal(a, b, k + 1);
      if FirstDifferenceLess(a, b, k) && FirstDifferenceLess(b, a, k) {
        assert a[k..] == [a[k]] + a[k + 1..] && b[k..] == [b[k]] + b[k + 1..];
      }
    }
  }

  lemma {:induction false} FirstDifferenceTransitive(a: bytes, b: bytes, c: bytes, k: nat)
    requires |a| == |b| == |c| && k <= |a|
    requires FirstDifferenceLess(a, b, k) && FirstDifferenceLess(b, c, k)
    ensures FirstDifferenceLess(a, c, k)
    decreases |a| - k
  {
    if k < |a| && a[k] == b[k] && b[k] == c[k] {
      FirstDifferenceTransitive(a, b, c, k + 1);
    }
  }

  /** KeyLess is total, antisymmetric and transitive: a total order on keys. */
  lemma KeyLessTotalOrder()
    ensures forall a, b :: KeyLess(a, b) || KeyLess(b, a)
    ensures forall a, b :: KeyLess(a, b) && KeyLess(b, a) ==> a == b
    ensures forall a, b, c :: KeyLess(a, b) && KeyLess(b, c) ==> KeyLess(a, c)
  {
    forall a: bytes, b: bytes
      ensures KeyLess(a, b) || KeyLess(b, a)
      ensures KeyLess(a, b) && KeyLess(b, a) ==> a == b
    {
      if |a| == |b| {
        FirstDifferenceTotal(a, b, 0);
      }
    }
    forall a: bytes, b: bytes, c: bytes | KeyLess(a, b) && KeyLess(b, c)
      ensures KeyLess(a, c)
    {
      if |a| == |b| == |c| {
        FirstDifferenceTransitive(a, b, c, 0);
      }
    }
  }

  /** Distinct keys, each sorting before every later one. */
  predicate StrictlySorted(s: seq<bytes>) {
    forall i, j :: 0 <= i < j < |s| ==> s[i] != s[j] && KeyLess(s[i], s[j])
  }

  lemma {:induction false} LeastExists(K: set<bytes>)
    requires K != {}
    ensures exists m :: m in K && forall x :: x in K ==> KeyLess(m, x)
    decreases K
  {
    KeyLessTotalOrder();
    var y :| y in K;
    if K == {y} {
      assert KeyLess(y, y) by {
        FirstDifferenceTotal(y, y, 0);
      }
      assert forall x :: x in K ==> x == y;
    } else {
      LeastExists(K - {y});
      var m :| m in K - {y} && forall x :: x in K - {y} ==> KeyLess(m, x);
      if KeyLess(y, m) {
        assert KeyLess(y, y) by {
          FirstDifferenceTotal(y, y, 0);
        }
        assert forall x :: x in K ==> KeyLess(y, x);
      } else {
        assert forall x :: x in K ==> KeyLess(m, x);
      }
    }
  }

  /** The keys of `K` in the order encodeDict emits them. */
  ghost function SortedKeys(K: set<bytes>): (s: seq<bytes>)
    ensures StrictlySorted(s)
    ensures forall x :: x in s <==> x in K
    ensures |s| == |K|
    decreases K
  {
    if K == {} then []
    else
      LeastExists(K);
      var m :| m in K && forall x :: x in K ==> KeyLess(m, x);
      var rest := SortedKeys(K - {m});
      var s := [m] + rest;
      assert forall j :: 0 < j < |s| ==> s[j] in K - {m};
      s
  }

  /**
   * A set of keys can be strictly sorted in one way only, so any correct
   * sort of the same keys yields SortedKeys: the output of encodeDict does
   * not depend on the map's iteration order.
   */
  lemma {:induction false} SortedUnique(s: seq<bytes>, K: set<bytes>)
    requires StrictlySorted(s)
    requires forall x :: x in s <==> x in K
    ensures s == SortedKeys(K)
    decreases |s|
  {
    if s == [] {
      assert K == {};
    } else {
      SortedHeadIsLeast(s, K);
      var m := s[0];
      SortedTail(s, K);
      SortedUnique(s[1..], K - {m});
      SortedKeysStep(K, m);
    }
  }

  /** Two strict sorts of the same non-empty set begin with the same key. */
  lemma SortedHeadIsLeast(s: seq<bytes>, K: set<bytes>)
    requires StrictlySorted(s) && s != []
    requires forall x :: x in s <==> x in K
    ensures SortedKeys(K) != [] && s[0] == SortedKeys(K)[0]
  {
    assert s[0] in K;
    var r := SortedKeys(K);
    var m := r[0];
    assert KeyLess(m, s[0]) by {
      var j :| 0 <= j < |r| && r[j] == s[0];
      if j == 0 {
        FirstDifferenceTotal(m, m, 0);
      }
    }
    assert KeyLess(s[0], m) by {
      var j :| 0 <= j < |s| && s[j] == m;
      if j == 0 {
        FirstDifferenceTotal(m, m, 0);
      }
    }
    KeyLessTotalOrder();
  }

  /** Dropping the first key of a strict sort leaves a strict sort of the other keys. */
  lemma SortedTail(s: seq<bytes>, K: set<bytes>)
    requires StrictlySorted(s) && s != []
    requires forall x :: x in s <==> x in K
    ensures StrictlySorted(s[1..])
    ensures forall x :: x in s[1..] <==> x in K - {s[0]}
  {
    forall x
      ensures x in s[1..] <==> x in K - {s[0]}
    {
      if x in s[1..] {
        var j :| 1 <= j < |s| && s[j] == x;
      }
      if x in K - {s[0]} {
        var j :| 0 <= j < |s| && s[j] == x;
        assert s[1..][j - 1] == x;
      }
    }
  }

  lemma SortedKeysStep(K: set<bytes>, m: bytes)
    requires m in K && SortedKeys(K)[0] == m
    ensures SortedKeys(K) == [m] + SortedKeys(K - {m})
  {
    KeyLessTotalOrder();
    var r := SortedKeys(K);
    var least :| least in K && (forall x :: x in K ==> KeyLess(least, x)) && r == [least] + SortedKeys(K - {least});
  }
}
