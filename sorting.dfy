/** Sorting a sequence by a key under a strict total order on keys, as `list.sort` does;
    the reverse order is the ascending order read backwards. */
module Sorting {

  /** `less` is irreflexive, transitive and relates any two different keys one way. */
  ghost predicate StrictTotal<K(!new)>(less: (K, K) -> bool)
  {
    && (forall a :: !less(a, a))
    && (forall a, b, c :: less(a, b) && less(b, c) ==> less(a, c))
    && (forall a, b :: a == b || less(a, b) || less(b, a))
  }

  /** No element comes after one with a greater key. */
  predicate Ascending<T, K>(s: seq<T>, key: T -> K, less: (K, K) -> bool)
  {
    forall i, j :: 0 <= i < j < |s| ==> !less(key(s[j]), key(s[i]))
  }

  /** No element comes after one with a smaller key. */
  predicate Descending<T, K>(s: seq<T>, key: T -> K, less: (K, K) -> bool)
  {
    forall i, j :: 0 <= i < j < |s| ==> !less(key(s[i]), key(s[j]))
  }

  /** Different elements of `s` have different keys. */
  predicate KeysDiffer<T(==), K(==)>(s: seq<T>, key: T -> K)
  {
    forall x, y :: x in s && y in s && key(x) == key(y) ==> x == y
  }

  /** `x` placed before the first element whose key is not below its own. */
  function Insert<T, K>(x: T, s: seq<T>, key: T -> K, less: (K, K) -> bool): seq<T>
    decreases |s|
  {
    if s == [] || !less(key(s[0]), key(x)) then [x] + s
    else [s[0]] + Insert(x, s[1..], key, less)
  }

  /** Insertion sort by key. */
  function SortBy<T, K>(s: seq<T>, key: T -> K, less: (K, K) -> bool): seq<T>
    decreases |s|
  {
    if s == [] then [] else Insert(s[0], SortBy(s[1..], key, less), key, less)
  }

  function Reverse<T>(s: seq<T>): (r: seq<T>)
    ensures |r| == |s|
    ensures forall i :: 0 <= i < |s| ==> r[i] == s[|s| - 1 - i]
    decreases |s|
  {
    if s == [] then [] else Reverse(s[1..]) + [s[0]]
  }

  lemma {:induction false} InsertKeeps<T, K>(x: T, s: seq<T>, key: T -> K, less: (K, K) -> bool)
    ensures multiset(Insert(x, s, key, less)) == multiset(s) + multiset{x}
    decreases |s|
  {
    if s != [] && less(key(s[0]), key(x)) {
      InsertKeeps(x, s[1..], key, less);
      assert s == [s[0]] + s[1..];
      assert multiset(Insert(x, s, key, less)) == multiset{s[0]} + multiset(Insert(x, s[1..], key, less));
    }
  }

  /** An element in front of an ascending sequence none of whose keys is below its own. */
  lemma ConsAscending<T, K>(x: T, s: seq<T>, key: T -> K, less: (K, K) -> bool)
    requires Ascending(s, key, less)
    requires forall y :: y in s ==> !less(key(y), key(x))
    ensures Ascending([x] + s, key, less)
  {
    var t := [x] + s;
    forall i, j | 0 <= i < j < |t|
      ensures !less(key(t[j]), key(t[i]))
    {
      assert t[j] == s[j - 1];
      if i > 0 {
        assert t[i] == s[i - 1];
      }
    }
  }

  lemma AscendingTail<T, K>(s: seq<T>, key: T -> K, less: (K, K) -> bool)
    requires s != [] && Ascending(s, key, less)
    ensures Ascending(s[1..], key, less)
    ensures forall y :: y in s[1..] ==> !less(key(y), key(s[0]))
  {
    assert forall j :: 0 <= j < |s[1..]| ==> s[1..][j] == s[j + 1];
  }

  lemma {:induction false} InsertAscending<T, K(!new)>(x: T, s: seq<T>, key: T -> K, less: (K, K) -> bool)
    requires StrictTotal(less) && Ascending(s, key, less)
    ensures Ascending(Insert(x, s, key, less), key, less)
    decreases |s|
  {
    if s == [] {
    } else if !less(key(s[0]), key(x)) {
      AscendingTail(s, key, less);
      ConsAscending(x, s, key, less);
    } else {
      AscendingTail(s, key, less);
      InsertAscending(x, s[1..], key, less);
      InsertKeeps(x, s[1..], key, less);
      forall y | y in Insert(x, s[1..], key, less)
        ensures !less(key(y), key(s[0]))
      {
        assert y in multiset(Insert(x, s[1..], key, less));
      }
      ConsAscending(s[0], Insert(x, s[1..], key, less), key, less);
    }
  }

  /** The sort gives a permutation of its input in ascending order. */
  lemma {:induction false} SortBySorts<T, K(!new)>(s: seq<T>, key: T -> K, less: (K, K) -> bool)
    requires StrictTotal(less)
    ensures multiset(SortBy(s, key, less)) == multiset(s)
    ensures Ascending(SortBy(s, key, less), key, less)
    decreases |s|
  {
    if s != [] {
      SortBySorts(s[1..], key, less);
      InsertKeeps(s[0], SortBy(s[1..], key, less), key, less);
      InsertAscending(s[0], SortBy(s[1..], key, less), key, less);
      assert s == [s[0]] + s[1..];
    }
  }

  lemma {:induction false} ReverseKeeps<T>(s: seq<T>)
    ensures multiset(Reverse(s)) == multiset(s)
    decreases |s|
  {
    if s != [] {
      ReverseKeeps(s[1..]);
      assert s == [s[0]] + s[1..];
    }
  }

  lemma ReverseTwice<T>(s: seq<T>)
    ensures Reverse(Reverse(s)) == s
  {
  }

  lemma AscendingReverse<T, K>(s: seq<T>, key: T -> K, less: (K, K) -> bool)
    requires Ascending(s, key, less)
    ensures Descending(Reverse(s), key, less)
  {
    var r := Reverse(s);
    var n := |s|;
    forall i, j | 0 <= i < j < n
      ensures !less(key(r[i]), key(r[j]))
    {
      assert r[i] == s[n - 1 - i] && r[j] == s[n - 1 - j];
    }
  }

  lemma DescendingReverse<T, K>(s: seq<T>, key: T -> K, less: (K, K) -> bool)
    requires Descending(s, key, less)
    ensures Ascending(Reverse(s), key, less)
  {
    var r := Reverse(s);
    var n := |s|;
    forall i, j | 0 <= i < j < n
      ensures !less(key(r[j]), key(r[i]))
    {
      assert r[i] == s[n - 1 - i] && r[j] == s[n - 1 - j];
    }
  }

  /** Taking the same first element off two permutations of each other leaves two
      permutations of each other. */
  lemma DropSame<T>(a: seq<T>, b: seq<T>)
    requires multiset(a) == multiset(b) && a != [] && b != [] && a[0] == b[0]
    ensures multiset(a[1..]) == multiset(b[1..])
  {
    assert a == [a[0]] + a[1..];
    assert b == [b[0]] + b[1..];
    assert multiset(a) == multiset{a[0]} + multiset(a[1..]);
    assert multiset(b) == multiset{a[0]} + multiset(b[1..]);
    forall x
      ensures multiset(a[1..])[x] == multiset(b[1..])[x]
    {
      assert multiset(a)[x] == multiset(b)[x];
    }
  }

  /** Two ascending permutations of each other whose elements' keys differ are the same
      sequence. */
  lemma {:induction false} AscendingUnique<T, K(!new)>(a: seq<T>, b: seq<T>, key: T -> K, less: (K, K) -> bool)
    requires StrictTotal(less)
    requires multiset(a) == multiset(b) && KeysDiffer(a, key)
    requires Ascending(a, key, less) && Ascending(b, key, less)
    ensures a == b
    decreases |a|
  {
    assert |a| == |multiset(a)| == |b|;
    if a != [] {
      assert a[0] == b[0] by {
        assert b[0] in multiset(a) && a[0] in multiset(b);
        var m :| 0 <= m < |a| && a[m] == b[0];
        var k :| 0 <= k < |b| && b[k] == a[0];
      }
      DropSame(a, b);
      AscendingTail(a, key, less);
      AscendingTail(b, key, less);
      assert KeysDiffer(a[1..], key) by {
        assert forall x :: x in a[1..] ==> x in a;
      }
      AscendingUnique(a[1..], b[1..], key, less);
    }
  }

  /** The sequence sorted ascending, or read backwards for the reverse order. */
  function Arrange<T, K>(s: seq<T>, key: T -> K, less: (K, K) -> bool, reverse: bool): seq<T>
  {
    if reverse then Reverse(SortBy(s, key, less)) else SortBy(s, key, less)
  }

  predicate Ordered<T, K>(s: seq<T>, key: T -> K, less: (K, K) -> bool, reverse: bool)
  {
    if reverse then Descending(s, key, less) else Ascending(s, key, less)
  }

  /** The arrangement is a permutation in the order asked for. */
  lemma ArrangeSorts<T, K(!new)>(s: seq<T>, key: T -> K, less: (K, K) -> bool, reverse: bool)
    requires StrictTotal(less)
    ensures multiset(Arrange(s, key, less, reverse)) == multiset(s)
    ensures Ordered(Arrange(s, key, less, reverse), key, less, reverse)
  {
    SortBySorts(s, key, less);
    if reverse {
      ReverseKeeps(SortBy(s, key, less));
      AscendingReverse(SortBy(s, key, less), key, less);
    }
  }

  /** Any permutation in the order asked for is the arrangement, when no two elements share
      a key. */
  lemma ArrangeUnique<T, K(!new)>(s: seq<T>, other: seq<T>, key: T -> K, less: (K, K) -> bool, reverse: bool)
    requires StrictTotal(less) && KeysDiffer(s, key)
    requires multiset(other) == multiset(s) && Ordered(other, key, less, reverse)
    ensures other == Arrange(s, key, less, reverse)
  {
    var sorted := SortBy(s, key, less);
    SortBySorts(s, key, less);
    assert KeysDiffer(sorted, key) by {
      assert forall x :: x in sorted ==> x in multiset(s);
    }
    if reverse {
      DescendingReverse(other, key, less);
      ReverseKeeps(other);
      AscendingUnique(sorted, Reverse(other), key, less);
      ReverseTwice(other);
    } else {
      AscendingUnique(sorted, other, key, less);
    }
  }
}
