/**
 * Orders and sorts shared by the aggregation steps: the lexicographic order
 * on strings that pandas uses for its string keys, a stable sort by a real key
 * (Python's `list.sort` and a stable `sort_values`), and insertion into a
 * strictly sorted sequence of distinct elements (the sorted axis labels of a
 * pivot table).
 */
module Orders {

  /** Lexicographic order on strings by code point, as Python compares `str`. */
  predicate StrLess(a: string, b: string)
  {
    if a == [] then b != []
    else if b == [] then false
    else if a[0] != b[0] then a[0] < b[0]
    else StrLess(a[1..], b[1..])
  }

  lemma {:induction false} StrLessIrreflexive(a: string)
    ensures !StrLess(a, a)
  {
    if a != [] { StrLessIrreflexive(a[1..]); }
  }

  lemma {:induction false} StrLessTransitive(a: string, b: string, c: string)
    requires StrLess(a, b) && StrLess(b, c)
    ensures StrLess(a, c)
  {
    if a != [] && b != [] && c != [] && a[0] == b[0] && b[0] == c[0] {
      StrLessTransitive(a[1..], b[1..], c[1..]);
    }
  }

  lemma {:induction false} StrLessTotal(a: string, b: string)
    requires a != b
    ensures StrLess(a, b) || StrLess(b, a)
  {
    if a != [] && b != [] && a[0] == b[0] {
      assert a == [a[0]] + a[1..] && b == [b[0]] + b[1..];
      StrLessTotal(a[1..], b[1..]);
    }
  }

  lemma {:induction false} StrLessAsymmetric(a: string, b: string)
    requires StrLess(a, b)
    ensures !StrLess(b, a)
  {
    if a != [] && b != [] && a[0] == b[0] {
      StrLessAsymmetric(a[1..], b[1..]);
    }
  }

  /** The order on dates. */
  predicate IntLess(a: int, b: int)
  {
    a < b
  }

  ghost predicate StrictTotalOrder<T(!new)>(less: (T, T) -> bool)
  {
    && (forall x :: !less(x, x))
    && (forall x, y, z :: less(x, y) && less(y, z) ==> less(x, z))
    && (forall x, y :: x != y ==> less(x, y) || less(y, x))
  }

  lemma StrLessIsStrictTotalOrder()
    ensures StrictTotalOrder(StrLess)
  {
    forall x: string ensures !StrLess(x, x) { StrLessIrreflexive(x); }
    forall x: string, y: string, z: string | StrLess(x, y) && StrLess(y, z)
      ensures StrLess(x, z)
    { StrLessTransitive(x, y, z); }
    forall x: string, y: string | x != y ensures StrLess(x, y) || StrLess(y, x) {
      StrLessTotal(x, y);
    }
  }

  lemma IntLessIsStrictTotalOrder()
    ensures StrictTotalOrder(IntLess)
  {
  }

  // ---------------------------------------------------------------------------
  // Strictly sorted sequences of distinct elements

  ghost predicate StrictlySorted<T>(s: seq<T>, less: (T, T) -> bool)
  {
    forall i, j :: 0 <= i < j < |s| ==> less(s[i], s[j])
  }

  /** Inserts `x` at its place in `s`, unless it is already there. */
  function InsertUnique<T(==)>(s: seq<T>, x: T, less: (T, T) -> bool): seq<T>
  {
    if s == [] then [x]
    else if s[0] == x then s
    else if less(x, s[0]) then [x] + s
    else [s[0]] + InsertUnique(s[1..], x, less)
  }

  /** The distinct elements of `xs` in increasing order. */
  function SortedDistinct<T(==)>(xs: seq<T>, less: (T, T) -> bool): seq<T>
  {
    if xs == [] then [] else InsertUnique(SortedDistinct(xs[..|xs| - 1], less), xs[|xs| - 1], less)
  }

  lemma {:induction false} InsertUniqueElements<T>(s: seq<T>, x: T, less: (T, T) -> bool)
    ensures forall y :: y in InsertUnique(s, x, less) <==> y == x || y in s
  {
    if s != [] && s[0] != x && !less(x, s[0]) {
      InsertUniqueElements(s[1..], x, less);
      assert s == [s[0]] + s[1..];
    }
  }

  lemma {:induction false} InsertUniqueSorted<T(!new)>(s: seq<T>, x: T, less: (T, T) -> bool)
    requires StrictTotalOrder(less) && StrictlySorted(s, less)
    ensures StrictlySorted(InsertUnique(s, x, less), less)
  {
    if s != [] && s[0] != x && !less(x, s[0]) {
      InsertUniqueSorted(s[1..], x, less);
      InsertUniqueElements(s[1..], x, less);
      var r := InsertUnique(s[1..], x, less);
      assert less(s[0], x);
      forall y | y in r ensures less(s[0], y) {
        if y != x {
          var k :| 0 <= k < |s[1..]| && s[1..][k] == y;
          assert s[k + 1] == y;
        }
      }
      forall i, j | 0 <= i < j < |[s[0]] + r| ensures less(([s[0]] + r)[i], ([s[0]] + r)[j]) {
        if i == 0 { assert ([s[0]] + r)[j] in r; }
        else { assert ([s[0]] + r)[i] == r[i - 1] && ([s[0]] + r)[j] == r[j - 1]; }
      }
    }
  }

  lemma {:induction false} SortedDistinctSpec<T(!new)>(xs: seq<T>, less: (T, T) -> bool)
    requires StrictTotalOrder(less)
    ensures StrictlySorted(SortedDistinct(xs, less), less)
    ensures forall y :: y in SortedDistinct(xs, less) <==> y in xs
  {
    if xs != [] {
      var init := xs[..|xs| - 1];
      SortedDistinctSpec(init, less);
      InsertUniqueSorted(SortedDistinct(init, less), xs[|xs| - 1], less);
      InsertUniqueElements(SortedDistinct(init, less), xs[|xs| - 1], less);
      assert xs == init + [xs[|xs| - 1]];
    }
  }

  // ---------------------------------------------------------------------------
  // Stable sort by a real key

  ghost predicate SortedBy<T>(s: seq<T>, key: T -> real)
  {
    forall i, j :: 0 <= i < j < |s| ==> key(s[i]) <= key(s[j])
  }

  /** Places `x` before the first element whose key is not smaller than its own. */
  function Insert<T>(x: T, s: seq<T>, key: T -> real): seq<T>
  {
    if s == [] || key(x) <= key(s[0]) then [x] + s
    else [s[0]] + Insert(x, s[1..], key)
  }

  /**
   * Stable sort in increasing order of `key`: insertion sort that inserts each
   * element in front of the later elements with an equal key.
   */
  function SortBy<T>(s: seq<T>, key: T -> real): seq<T>
  {
    if s == [] then [] else Insert(s[0], SortBy(s[1..], key), key)
  }

  /** The elements of `s` whose key is `k`, in their order in `s`. */
  function WithKey<T>(s: seq<T>, key: T -> real, k: real): seq<T>
  {
    if s == [] then []
    else (if key(s[0]) == k then [s[0]] else []) + WithKey(s[1..], key, k)
  }

  lemma {:induction false} InsertPermutes<T>(x: T, s: seq<T>, key: T -> real)
    ensures multiset(Insert(x, s, key)) == multiset{x} + multiset(s)
  {
    if s != [] && key(x) > key(s[0]) {
      InsertPermutes(x, s[1..], key);
      assert s == [s[0]] + s[1..];
    }
  }

  /** Prepending an element no larger than the head keeps a sequence sorted. */
  lemma ConsSorted<T>(a: T, r: seq<T>, key: T -> real)
    requires SortedBy(r, key)
    requires r == [] || key(a) <= key(r[0])
    ensures SortedBy([a] + r, key)
  {
    forall i, j | 0 <= i < j < |[a] + r| ensures key(([a] + r)[i]) <= key(([a] + r)[j]) {
      assert ([a] + r)[j] == r[j - 1];
      if i > 0 { assert ([a] + r)[i] == r[i - 1]; }
    }
  }

  /** The head of an insertion is the inserted element or the old head. */
  lemma InsertHead<T>(x: T, s: seq<T>, key: T -> real)
    ensures Insert(x, s, key) != []
    ensures Insert(x, s, key)[0] == x || (s != [] && Insert(x, s, key)[0] == s[0])
  {
  }

  lemma {:induction false} InsertSorted<T>(x: T, s: seq<T>, key: T -> real)
    requires SortedBy(s, key)
    ensures SortedBy(Insert(x, s, key), key)
  {
    if s != [] && key(x) > key(s[0]) {
      var t := s[1..];
      assert SortedBy(t, key);
      InsertSorted(x, t, key);
      InsertHead(x, t, key);
      var r := Insert(x, t, key);
      assert t != [] ==> key(s[0]) <= key(t[0]) by {
        if t != [] { assert t[0] == s[1]; }
      }
      ConsSorted(s[0], r, key);
    } else {
      ConsSorted(x, s, key);
    }
  }

  lemma {:induction false} InsertWithKey<T>(x: T, s: seq<T>, key: T -> real, k: real)
    requires SortedBy(s, key)
    ensures WithKey(Insert(x, s, key), key, k) == WithKey([x] + s, key, k)
  {
    if s != [] && key(x) > key(s[0]) {
      InsertWithKey(x, s[1..], key, k);
      assert ([s[0]] + Insert(x, s[1..], key))[1..] == Insert(x, s[1..], key);
      assert ([x] + s[1..])[1..] == s[1..];
      assert ([x] + s)[1..] == s;
      if key(x) == k {
        // every element of s[1..] that precedes x's place has a key below k
        assert key(s[0]) != k;
      }
    }
  }

  /** The sort's defining properties: ordered, a permutation, and stable. */
  lemma {:induction false} SortBySpec<T>(s: seq<T>, key: T -> real)
    ensures SortedBy(SortBy(s, key), key)
    ensures multiset(SortBy(s, key)) == multiset(s)
    ensures |SortBy(s, key)| == |s|
    ensures forall k :: WithKey(SortBy(s, key), key, k) == WithKey(s, key, k)
  {
    if s != [] {
      var t := SortBy(s[1..], key);
      SortBySpec(s[1..], key);
      InsertSorted(s[0], t, key);
      InsertPermutes(s[0], t, key);
      assert s == [s[0]] + s[1..];
      forall k ensures WithKey(SortBy(s, key), key, k) == WithKey(s, key, k) {
        InsertWithKey(s[0], t, key, k);
        assert ([s[0]] + t)[1..] == t;
      }
      assert |SortBy(s, key)| == |multiset(SortBy(s, key))|;
    }
  }

  /** SortBy keeps exactly the elements it is given. */
  lemma SortByElements<T>(s: seq<T>, key: T -> real)
    ensures forall x :: x in SortBy(s, key) <==> x in s
  {
    SortBySpec(s, key);
    forall x ensures x in SortBy(s, key) <==> x in s {
      assert x in SortBy(s, key) <==> x in multiset(SortBy(s, key));
      assert x in s <==> x in multiset(s);
    }
  }

  /** No two elements of `s` have the same projection. */
  ghost predicate DistinctBy<T, U>(s: seq<T>, proj: T -> U)
  {
    forall i, j :: 0 <= i < j < |s| ==> proj(s[i]) != proj(s[j])
  }

  lemma ConsDistinct<T, U>(a: T, r: seq<T>, proj: T -> U)
    requires DistinctBy(r, proj) && forall y :: y in r ==> proj(y) != proj(a)
    ensures DistinctBy([a] + r, proj)
  {
    forall i, j | 0 <= i < j < |[a] + r| ensures proj(([a] + r)[i]) != proj(([a] + r)[j]) {
      assert ([a] + r)[j] == r[j - 1];
      if i > 0 {
        assert ([a] + r)[i] == r[i - 1];
      } else {
        assert r[j - 1] in r;
      }
    }
  }

  lemma DropDistinct<T, U>(s: seq<T>, proj: T -> U)
    requires s != [] && DistinctBy(s, proj)
    ensures DistinctBy(s[1..], proj)
    ensures forall y :: y in s[1..] ==> proj(y) != proj(s[0])
  {
    var t := s[1..];
    forall i, j | 0 <= i < j < |t| ensures proj(t[i]) != proj(t[j]) {
      assert t[i] == s[i + 1] && t[j] == s[j + 1];
    }
    forall y | y in t ensures proj(y) != proj(s[0]) {
      var k :| 0 <= k < |t| && t[k] == y;
      assert s[k + 1] == y;
    }
  }

  /** Sorting preserves the distinctness of a projection of the elements. */
  lemma {:induction false} SortByDistinct<T, U>(s: seq<T>, key: T -> real, proj: T -> U)
    requires DistinctBy(s, proj)
    ensures DistinctBy(SortBy(s, key), proj)
  {
    if s != [] {
      var t := SortBy(s[1..], key);
      DropDistinct(s, proj);
      SortByDistinct(s[1..], key, proj);
      SortBySpec(s[1..], key);
      forall y | y in t ensures proj(y) != proj(s[0]) {
        assert y in multiset(t);
        assert y in multiset(s[1..]);
        var k :| 0 <= k < |s| - 1 && s[1..][k] == y;
        assert s[k + 1] == y;
      }
      InsertDistinct(s[0], t, key, proj);
    }
  }

  lemma {:induction false} InsertDistinct<T, U>(x: T, s: seq<T>, key: T -> real, proj: T -> U)
    requires DistinctBy(s, proj)
    requires forall y :: y in s ==> proj(y) != proj(x)
    ensures DistinctBy(Insert(x, s, key), proj)
  {
    if s == [] || key(x) <= key(s[0]) {
      ConsDistinct(x, s, proj);
    } else {
      var t := s[1..];
      DropDistinct(s, proj);
      forall y | y in t ensures proj(y) != proj(x) {
        var k :| 0 <= k < |t| && t[k] == y;
        assert s[k + 1] == y;
      }
      InsertDistinct(x, t, key, proj);
      InsertPermutes(x, t, key);
      forall y | y in Insert(x, t, key) ensures proj(y) != proj(s[0]) {
        if y == x {
          assert s[0] in s;
        } else {
          assert y in multiset(Insert(x, t, key));
          assert y in multiset(t);
          var k :| 0 <= k < |t| && t[k] == y;
          assert s[k + 1] == y;
        }
      }
      ConsDistinct(s[0], Insert(x, t, key), proj);
    }
  }

  /** The first `n` elements (Python's `s[:n]`). */
  function Take<T>(s: seq<T>, n: nat): (r: seq<T>)
    ensures |r| == if |s| < n then |s| else n
    ensures forall i :: 0 <= i < |r| ==> r[i] == s[i]
  {
    if |s| <= n then s else s[..n]
  }
}
