/** Enumerable.OrderBy as a stable insertion sort.  The key comparison is a
    parameter: .NET's default string comparer is culture-sensitive, so all
    that is assumed of it is that it is a total preorder. */
module Sorting {

  ghost predicate TotalPreorder<K(!new)>(le: (K, K) -> bool) {
    && (forall a, b :: le(a, b) || le(b, a))
    && (forall a, b, c :: le(a, b) && le(b, c) ==> le(a, c))
  }

  /** Two keys the comparer cannot tell apart. */
  predicate Equivalent<K>(le: (K, K) -> bool, a: K, b: K) {
    le(a, b) && le(b, a)
  }

  ghost predicate SortedBy<T, K>(s: seq<T>, key: T -> K, le: (K, K) -> bool) {
    forall i, j :: 0 <= i < j < |s| ==> le(key(s[i]), key(s[j]))
  }

  /** Inserts `x` before the first element whose key is not below it, so that
      `x` precedes the elements equivalent to it. */
  function Insert<T, K>(x: T, s: seq<T>, key: T -> K, le: (K, K) -> bool): seq<T>
    decreases |s|
  {
    if s == [] || le(key(x), key(s[0])) then [x] + s
    else [s[0]] + Insert(x, s[1..], key, le)
  }

  function SortBy<T, K>(s: seq<T>, key: T -> K, le: (K, K) -> bool): seq<T>
    decreases |s|
  {
    if s == [] then [] else Insert(s[0], SortBy(s[1..], key, le), key, le)
  }

  /** The elements of `s` whose key is equivalent to `k`, in their order in `s`. */
  function KeepEquivalent<T, K>(s: seq<T>, key: T -> K, le: (K, K) -> bool, k: K): seq<T>
    decreases |s|
  {
    if s == [] then []
    else (if Equivalent(le, key(s[0]), k) then [s[0]] else []) + KeepEquivalent(s[1..], key, le, k)
  }

  lemma {:induction false} InsertPermutes<T, K>(x: T, s: seq<T>, key: T -> K, le: (K, K) -> bool)
    ensures multiset(Insert(x, s, key, le)) == multiset([x] + s)
    decreases |s|
  {
    if s != [] && !le(key(x), key(s[0])) {
      InsertPermutes(x, s[1..], key, le);
      assert s == [s[0]] + s[1..];
    }
  }

  lemma {:induction false} InsertSorted<T, K(!new)>(x: T, s: seq<T>, key: T -> K, le: (K, K) -> bool)
    requires TotalPreorder(le)
    requires SortedBy(s, key, le)
    ensures SortedBy(Insert(x, s, key, le), key, le)
    decreases |s|
  {
    if s != [] && !le(key(x), key(s[0])) {
      InsertSorted(x, s[1..], key, le);
      var t := Insert(x, s[1..], key, le);
      InsertPermutes(x, s[1..], key, le);
      forall j | 0 <= j < |t| ensures le(key(s[0]), key(t[j])) {
        assert t[j] in multiset([x] + s[1..]);
        if t[j] == x {
        } else {
          assert t[j] in s[1..];
        }
      }
    }
  }

  /** The result of SortBy is sorted by key. */
  lemma {:induction false} SortByIsSorted<T, K(!new)>(s: seq<T>, key: T -> K, le: (K, K) -> bool)
    requires TotalPreorder(le)
    ensures SortedBy(SortBy(s, key, le), key, le)
    decreases |s|
  {
    if s != [] {
      SortByIsSorted(s[1..], key, le);
      InsertSorted(s[0], SortBy(s[1..], key, le), key, le);
    }
  }

  /** The result of SortBy is a permutation of its input. */
  lemma {:induction false} SortByPermutes<T, K>(s: seq<T>, key: T -> K, le: (K, K) -> bool)
    ensures multiset(SortBy(s, key, le)) == multiset(s)
    decreases |s|
  {
    if s != [] {
      SortByPermutes(s[1..], key, le);
      InsertPermutes(s[0], SortBy(s[1..], key, le), key, le);
      assert s == [s[0]] + s[1..];
    }
  }

  lemma {:induction false} InsertStable<T, K(!new)>(x: T, s: seq<T>, key: T -> K, le: (K, K) -> bool, k: K)
    requires TotalPreorder(le)
    ensures KeepEquivalent(Insert(x, s, key, le), key, le, k) == KeepEquivalent([x] + s, key, le, k)
    decreases |s|
  {
    if s != [] && !le(key(x), key(s[0])) {
      InsertStable(x, s[1..], key, le, k);
      // x and s[0] are not equivalent, so at most one of them is kept.
      assert !(Equivalent(le, key(x), k) && Equivalent(le, key(s[0]), k));
      assert ([x] + s)[1..] == s;
      assert ([s[0]] + Insert(x, s[1..], key, le))[1..] == Insert(x, s[1..], key, le);
      assert ([x] + s[1..])[1..] == s[1..];
    }
  }

  /** SortBy is stable: the elements of any one equivalence class of keys
      come out in the order they went in. */
  lemma {:induction false} SortByIsStable<T, K(!new)>(s: seq<T>, key: T -> K, le: (K, K) -> bool, k: K)
    requires TotalPreorder(le)
    ensures KeepEquivalent(SortBy(s, key, le), key, le, k) == KeepEquivalent(s, key, le, k)
    decreases |s|
  {
    if s != [] {
      SortByIsStable(s[1..], key, le, k);
      InsertStable(s[0], SortBy(s[1..], key, le), key, le, k);
      var t := SortBy(s[1..], key, le);
      assert ([s[0]] + t)[1..] == t;
    }
  }

  /** Sorting a sequence that is already sorted leaves it as it is. */
  lemma {:induction false} SortBySortedIsIdentity<T, K>(s: seq<T>, key: T -> K, le: (K, K) -> bool)
    requires SortedBy(s, key, le)
    ensures SortBy(s, key, le) == s
    decreases |s|
  {
    if s != [] {
      assert SortedBy(s[1..], key, le);
      SortBySortedIsIdentity(s[1..], key, le);
      if |s| > 1 {
        assert le(key(s[0]), key(s[1]));
      }
      assert s == [s[0]] + s[1..];
    }
  }

  /** Ordinal (code point by code point) string comparison: one comparer
      that meets the assumption, used for concrete examples. */
  predicate OrdinalLe(a: string, b: string)
    decreases |a|
  {
    a == [] || (b != [] && (a[0] < b[0] || (a[0] == b[0] && OrdinalLe(a[1..], b[1..]))))
  }

  lemma {:induction false} OrdinalTotal(a: string, b: string)
    ensures OrdinalLe(a, b) || OrdinalLe(b, a)
    decreases |a|
  {
    if a != [] && b != [] && a[0] == b[0] {
      OrdinalTotal(a[1..], b[1..]);
    }
  }

  lemma {:induction false} OrdinalTransitive(a: string, b: string, c: string)
    requires OrdinalLe(a, b) && OrdinalLe(b, c)
    ensures OrdinalLe(a, c)
    decreases |a|
  {
    if a != [] && a[0] == b[0] && b[0] == c[0] {
      OrdinalTransitive(a[1..], b[1..], c[1..]);
    }
  }

  lemma OrdinalIsTotalPreorder()
    ensures TotalPreorder(OrdinalLe)
  {
    forall a, b ensures OrdinalLe(a, b) || OrdinalLe(b, a) {
      OrdinalTotal(a, b);
    }
    forall a, b, c | OrdinalLe(a, b) && OrdinalLe(b, c) ensures OrdinalLe(a, c) {
      OrdinalTransitive(a, b, c);
    }
  }
}
