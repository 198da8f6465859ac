/**
 * The first step of the aggregation: rows from every instrument are sorted
 * by (date, code) and, of rows sharing a (date, code) pair, only the last is
 * kept.
 */
module Dedup {
  import opened Orders
  import opened SectorData

  /** The (date, code) order used by the sort: date first, then code by code point. */
  predicate KeyLess(a: Row, b: Row)
  {
    a.date < b.date || (a.date == b.date && StrLess(a.code, b.code))
  }

  predicate SameKey(a: Row, b: Row)
  {
    a.date == b.date && a.code == b.code
  }

  /** KeyLess is a strict total order on (date, code) pairs. */
  lemma KeyLessOrder(a: Row, b: Row, c: Row)
    ensures !KeyLess(a, a)
    ensures KeyLess(a, b) ==> !KeyLess(b, a) && !SameKey(a, b)
    ensures KeyLess(a, b) && KeyLess(b, c) ==> KeyLess(a, c)
    ensures !SameKey(a, b) ==> KeyLess(a, b) || KeyLess(b, a)
    ensures SameKey(a, b) ==> (KeyLess(a, c) <==> KeyLess(b, c)) && (KeyLess(c, a) <==> KeyLess(c, b))
  {
    StrLessIrreflexive(a.code);
    if KeyLess(a, b) && a.date == b.date {
      StrLessAsymmetric(a.code, b.code);
    }
    if KeyLess(a, b) && KeyLess(b, c) && a.date == b.date == c.date {
      StrLessTransitive(a.code, b.code, c.code);
    }
    if !SameKey(a, b) && a.date == b.date {
      StrLessTotal(a.code, b.code);
    }
  }

  /** Some row of `s` has the (date, code) pair of `x`. */
  predicate HasKey(s: seq<Row>, x: Row)
  {
    exists j :: 0 <= j < |s| && SameKey(s[j], x)
  }

  /** Strictly increasing in (date, code): sorted, with each pair at most once. */
  ghost predicate KeySorted(s: seq<Row>)
  {
    forall i, j :: 0 <= i < j < |s| ==> KeyLess(s[i], s[j])
  }

  /** Row `i` is the last one in `s` with its (date, code) pair. */
  ghost predicate LastOfKey(s: seq<Row>, i: nat)
    requires i < |s|
  {
    forall j :: i < j < |s| ==> !SameKey(s[j], s[i])
  }

  /** Puts `x` into the key-sorted `s`, replacing the row with the same key if there is one. */
  function InsertKeyed(s: seq<Row>, x: Row): seq<Row>
  {
    if s == [] then [x]
    else if SameKey(s[0], x) then [x] + s[1..]
    else if KeyLess(x, s[0]) then [x] + s
    else [s[0]] + InsertKeyed(s[1..], x)
  }

  /** `sort_values(['date', 'code']).drop_duplicates(keep='last')`, one row at a time. */
  function SortDedup(s: seq<Row>): seq<Row>
  {
    if s == [] then [] else InsertKeyed(SortDedup(s[..|s| - 1]), s[|s| - 1])
  }

  lemma {:induction false} InsertKeyedSpec(s: seq<Row>, x: Row)
    requires KeySorted(s)
    ensures KeySorted(InsertKeyed(s, x))
    ensures forall y :: y in InsertKeyed(s, x) <==> y == x || (y in s && !SameKey(y, x))
  {
    var r := InsertKeyed(s, x);
    if s == [] {
    } else if SameKey(s[0], x) {
      forall j | 1 <= j < |s|
        ensures KeyLess(x, s[j]) && !SameKey(s[j], x)
      {
        KeyLessOrder(s[0], x, s[j]);
        KeyLessOrder(x, s[j], s[j]);
      }
      assert r == [x] + s[1..];
      assert forall i :: 0 < i < |r| ==> r[i] == s[i];
      assert forall y :: y in s <==> y == s[0] || y in s[1..];
    } else if KeyLess(x, s[0]) {
      forall j | 0 <= j < |s|
        ensures KeyLess(x, s[j]) && !SameKey(s[j], x)
      {
        KeyLessOrder(x, s[0], s[j]);
        KeyLessOrder(x, s[j], s[j]);
      }
      assert forall i :: 0 < i < |r| ==> r[i] == s[i - 1];
    } else {
      KeyLessOrder(x, s[0], s[0]);
      KeyLessOrder(s[0], x, x);
      var t := s[1..];
      assert KeySorted(t) by {
        forall i, j | 0 <= i < j < |t| ensures KeyLess(t[i], t[j]) {
          assert t[i] == s[i + 1] && t[j] == s[j + 1];
        }
      }
      InsertKeyedSpec(t, x);
      var rest := InsertKeyed(t, x);
      assert r == [s[0]] + rest;
      forall j | 0 <= j < |rest|
        ensures KeyLess(s[0], rest[j])
      {
        assert rest[j] in rest;
        if rest[j] != x {
          var k :| 0 <= k < |t| && t[k] == rest[j];
          assert t[k] == s[k + 1];
        }
      }
      forall i, j | 0 <= i < j < |r|
        ensures KeyLess(r[i], r[j])
      {
        if i > 0 {
          assert r[i] == rest[i - 1] && r[j] == rest[j - 1];
        }
      }
      assert forall y :: y in s <==> y == s[0] || y in t;
    }
  }

  /** Appending a row whose key exceeds every key present puts it at the end. */
  lemma {:induction false} InsertKeyedAtEnd(s: seq<Row>, x: Row)
    requires forall i :: 0 <= i < |s| ==> KeyLess(s[i], x)
    ensures InsertKeyed(s, x) == s + [x]
  {
    if s != [] {
      KeyLessOrder(s[0], x, x);
      InsertKeyedAtEnd(s[1..], x);
      assert [s[0]] + (s[1..] + [x]) == s + [x];
    }
  }

  lemma {:induction false} SortDedupSorted(s: seq<Row>)
    ensures KeySorted(SortDedup(s))
  {
    if s != [] {
      SortDedupSorted(s[..|s| - 1]);
      InsertKeyedSpec(SortDedup(s[..|s| - 1]), s[|s| - 1]);
    }
  }

  /** The rows of the deduplicated output are those of the sorted prefix, updated with the last row. */
  lemma SortDedupStep(s: seq<Row>)
    requires s != []
    ensures forall y :: y in SortDedup(s) <==>
      y == s[|s| - 1] || (y in SortDedup(s[..|s| - 1]) && !SameKey(y, s[|s| - 1]))
  {
    SortDedupSorted(s[..|s| - 1]);
    InsertKeyedSpec(SortDedup(s[..|s| - 1]), s[|s| - 1]);
  }

  /** Every row that is the last of its (date, code) pair survives. */
  lemma {:induction false} SortDedupKeepsLast(s: seq<Row>)
    ensures forall i :: 0 <= i < |s| && LastOfKey(s, i) ==> s[i] in SortDedup(s)
  {
    if s != [] {
      var n := |s| - 1;
      var p, x := s[..n], s[n];
      SortDedupKeepsLast(p);
      SortDedupStep(s);
      forall i | 0 <= i < |s| && LastOfKey(s, i)
        ensures s[i] in SortDedup(s)
      {
        if i < n {
          assert p[i] == s[i];
          assert LastOfKey(p, i) by {
            forall j | i < j < |p| ensures !SameKey(p[j], p[i]) {
              assert p[j] == s[j];
            }
          }
          assert s[i] in SortDedup(p);
        }
      }
    }
  }

  /** Every surviving row is the last of its (date, code) pair in the input. */
  lemma {:induction false} SortDedupOnlyLast(s: seq<Row>)
    ensures forall y :: y in SortDedup(s) ==> exists i :: 0 <= i < |s| && s[i] == y && LastOfKey(s, i)
  {
    if s != [] {
      var n := |s| - 1;
      var p, x := s[..n], s[n];
      SortDedupOnlyLast(p);
      SortDedupStep(s);
      forall y | y in SortDedup(s)
        ensures exists i :: 0 <= i < |s| && s[i] == y && LastOfKey(s, i)
      {
        if y == x {
          assert s[n] == y && LastOfKey(s, n);
        } else {
          var i :| 0 <= i < |p| && p[i] == y && LastOfKey(p, i);
          LastOfKeyExtend(s, i);
        }
      }
    }
  }

  /** A row last of its pair in a prefix stays last when the next row has another pair. */
  lemma LastOfKeyExtend(s: seq<Row>, i: nat)
    requires i < |s| - 1 && LastOfKey(s[..|s| - 1], i) && !SameKey(s[|s| - 1], s[i])
    ensures LastOfKey(s, i)
  {
    var p := s[..|s| - 1];
    forall j | i < j < |s| ensures !SameKey(s[j], s[i]) {
      if j < |p| { assert s[j] == p[j]; }
    }
  }

  /** The surviving row that carries the (date, code) pair of input row `i`. */
  lemma {:induction false} SortDedupKeyOf(s: seq<Row>, i: nat) returns (y: Row)
    requires i < |s|
    ensures y in SortDedup(s) && SameKey(y, s[i])
  {
    var n := |s| - 1;
    var p, x := s[..n], s[n];
    SortDedupStep(s);
    if i == n {
      y := x;
    } else {
      y := SortDedupKeyOf(p, i);
      assert p[i] == s[i];
      if SameKey(y, x) {
        y := x;
      }
    }
  }

  /** Every (date, code) pair of the input is still present. */
  lemma SortDedupKeys(s: seq<Row>)
    ensures forall i :: 0 <= i < |s| ==> HasKey(SortDedup(s), s[i])
  {
    forall i | 0 <= i < |s|
      ensures HasKey(SortDedup(s), s[i])
    {
      var y := SortDedupKeyOf(s, i);
      var j :| 0 <= j < |SortDedup(s)| && SortDedup(s)[j] == y;
    }
  }

  /**
   * The deduplicated rows are strictly increasing in (date, code); every row
   * that is the last of its key in the input is kept; every kept row is such
   * a last occurrence; and every input key is still present.
   */
  lemma SortDedupSpec(s: seq<Row>)
    ensures KeySorted(SortDedup(s))
    ensures forall i :: 0 <= i < |s| && LastOfKey(s, i) ==> s[i] in SortDedup(s)
    ensures forall y :: y in SortDedup(s) ==> exists i :: 0 <= i < |s| && s[i] == y && LastOfKey(s, i)
    ensures forall i :: 0 <= i < |s| ==> HasKey(SortDedup(s), s[i])
  {
    SortDedupSorted(s);
    SortDedupKeepsLast(s);
    SortDedupOnlyLast(s);
    SortDedupKeys(s);
  }

  /** Already key-sorted input passes through unchanged. */
  lemma {:induction false} SortDedupOfSorted(s: seq<Row>)
    requires KeySorted(s)
    ensures SortDedup(s) == s
  {
    if s != [] {
      var n := |s| - 1;
      var p := s[..n];
      assert KeySorted(p) by {
        forall i, j | 0 <= i < j < |p| ensures KeyLess(p[i], p[j]) {
          assert p[i] == s[i] && p[j] == s[j];
        }
      }
      SortDedupOfSorted(p);
      forall i | 0 <= i < |p| ensures KeyLess(p[i], s[n]) {
        assert p[i] == s[i];
      }
      InsertKeyedAtEnd(p, s[n]);
      assert p + [s[n]] == s;
    }
  }

  /** Deduplicating twice is the same as deduplicating once. */
  lemma SortDedupIdempotent(s: seq<Row>)
    ensures SortDedup(SortDedup(s)) == SortDedup(s)
  {
    SortDedupSorted(s);
    SortDedupOfSorted(SortDedup(s));
  }
}
