/**
 * The panel: the most recent row of every instrument, ordered by the
 * instrument's position in the universe, with unknown codes last.
 */
module Panel {
  import opened Orders
  import opened Universe
  import opened SectorData
  import opened Dedup

  predicate CodeOccurs(s: seq<Row>, code: string)
  {
    exists i :: 0 <= i < |s| && s[i].code == code
  }

  /** `groupby('code').tail(1)`: the rows whose code does not occur again later, in their order. */
  function LatestRows(ds: seq<Row>): seq<Row>
  {
    if ds == [] then []
    else (if CodeOccurs(ds[1..], ds[0].code) then [] else [ds[0]]) + LatestRows(ds[1..])
  }

  predicate HasCode(s: seq<Row>, code: string)
  {
    exists y :: y in s && y.code == code
  }

  /** No two rows share a code. */
  predicate DistinctCodes(s: seq<Row>)
  {
    forall a, b :: 0 <= a < b < |s| ==> s[a].code != s[b].code
  }

  /** The `sort_key` column: position in the universe, 99 when the code is not listed. */
  function PanelKey(r: Row): real
  {
    SortKey(r.code) as real
  }

  function Code(r: Row): string
  {
    r.code
  }

  /** The panel rows, stably sorted by their sort key. */
  function LatestPanel(ds: seq<Row>): seq<Row>
  {
    SortBy(LatestRows(ds), PanelKey)
  }

  lemma {:induction false} LatestRowsElements(ds: seq<Row>)
    ensures forall y :: y in LatestRows(ds) ==>
      exists i :: 0 <= i < |ds| && ds[i] == y && !CodeOccurs(ds[i + 1..], y.code)
  {
    if ds != [] {
      var t := ds[1..];
      LatestRowsElements(t);
      forall y | y in LatestRows(ds)
        ensures exists i :: 0 <= i < |ds| && ds[i] == y && !CodeOccurs(ds[i + 1..], y.code)
      {
        if y in LatestRows(t) {
          var i :| 0 <= i < |t| && t[i] == y && !CodeOccurs(t[i + 1..], y.code);
          assert ds[i + 1] == y && ds[i + 2..] == t[i + 1..];
        } else {
          assert ds[0] == y && ds[1..] == t;
        }
      }
    }
  }

  lemma {:induction false} LatestRowsCovers(ds: seq<Row>)
    ensures forall i :: 0 <= i < |ds| ==> HasCode(LatestRows(ds), ds[i].code)
  {
    if ds != [] {
      var t := ds[1..];
      LatestRowsCovers(t);
      forall i | 0 <= i < |ds|
        ensures HasCode(LatestRows(ds), ds[i].code)
      {
        if i > 0 {
          assert ds[i] == t[i - 1];
          var y :| y in LatestRows(t) && y.code == t[i - 1].code;
          assert y in LatestRows(ds);
        } else if CodeOccurs(t, ds[0].code) {
          var j :| 0 <= j < |t| && t[j].code == ds[0].code;
          var y :| y in LatestRows(t) && y.code == t[j].code;
          assert y in LatestRows(ds);
        } else {
          assert ds[0] in LatestRows(ds);
        }
      }
    }
  }

  lemma {:induction false} LatestRowsDistinct(ds: seq<Row>)
    ensures DistinctCodes(LatestRows(ds))
  {
    if ds != [] {
      var t := ds[1..];
      LatestRowsDistinct(t);
      LatestRowsElements(t);
      var l, rest := LatestRows(ds), LatestRows(t);
      if !CodeOccurs(t, ds[0].code) {
        assert l == [ds[0]] + rest;
        forall b | 0 <= b < |rest| ensures rest[b].code != ds[0].code {
          assert rest[b] in rest;
          var i :| 0 <= i < |t| && t[i] == rest[b] && !CodeOccurs(t[i + 1..], rest[b].code);
        }
        forall a, b | 0 <= a < b < |l| ensures l[a].code != l[b].code {
          assert l[b] == rest[b - 1];
          if a > 0 {
            assert l[a] == rest[a - 1];
            assert rest[a - 1].code != rest[b - 1].code;
          } else {
            assert l[a] == ds[0];
            assert rest[b - 1].code != ds[0].code;
          }
        }
      } else {
        assert l == rest;
      }
    }
  }

  lemma NotOccursAfter(ds: seq<Row>, i: nat, code: string)
    requires i < |ds| && !CodeOccurs(ds[i + 1..], code)
    ensures forall j :: i < j < |ds| ==> ds[j].code != code
  {
    forall j | i < j < |ds| ensures ds[j].code != code {
      assert ds[i + 1..][j - i - 1] == ds[j];
    }
  }

  /** A row whose code does not occur later has the latest date of that code. */
  lemma LastOccurrenceIsLatest(ds: seq<Row>, i: nat, j: nat)
    requires KeySorted(ds) && i < |ds| && j < |ds| && ds[j].code == ds[i].code
    requires !CodeOccurs(ds[i + 1..], ds[i].code)
    ensures ds[j].date <= ds[i].date
  {
    NotOccursAfter(ds, i, ds[i].code);
    if j < i {
      assert KeyLess(ds[j], ds[i]);
    }
  }

  /** On (date, code)-sorted rows, the kept row of a code has that code's latest date. */
  lemma LatestRowsAreLatest(ds: seq<Row>)
    requires KeySorted(ds)
    ensures forall y, j :: y in LatestRows(ds) && 0 <= j < |ds| && ds[j].code == y.code ==> ds[j].date <= y.date
  {
    LatestRowsElements(ds);
    forall y, j | y in LatestRows(ds) && 0 <= j < |ds| && ds[j].code == y.code
      ensures ds[j].date <= y.date
    {
      var i :| 0 <= i < |ds| && ds[i] == y && !CodeOccurs(ds[i + 1..], y.code);
      LastOccurrenceIsLatest(ds, i, j);
    }
  }

  /** Every panel row is one of the given rows. */
  lemma PanelRowsFromInput(ds: seq<Row>)
    ensures forall y :: y in LatestPanel(ds) ==> y in ds
  {
    LatestRowsElements(ds);
    SortByElements(LatestRows(ds), PanelKey);
    forall y | y in LatestPanel(ds) ensures y in ds {
      var i :| 0 <= i < |ds| && ds[i] == y && !CodeOccurs(ds[i + 1..], y.code);
    }
  }

  /** Every code of the given rows has a panel row. */
  lemma PanelCoversCodes(ds: seq<Row>)
    ensures forall i :: 0 <= i < |ds| ==> HasCode(LatestPanel(ds), ds[i].code)
  {
    LatestRowsCovers(ds);
    SortByElements(LatestRows(ds), PanelKey);
    forall i | 0 <= i < |ds| ensures HasCode(LatestPanel(ds), ds[i].code) {
      var y :| y in LatestRows(ds) && y.code == ds[i].code;
      assert y in LatestPanel(ds);
    }
  }

  /** No code has two panel rows. */
  lemma PanelCodesDistinct(ds: seq<Row>)
    ensures DistinctCodes(LatestPanel(ds))
  {
    LatestRowsDistinct(ds);
    var l := LatestRows(ds);
    assert DistinctBy(l, Code);
    SortByDistinct(l, PanelKey, Code);
  }

  /** On (date, code)-sorted rows, each panel row is at the latest date of its code. */
  lemma PanelIsLatest(ds: seq<Row>)
    requires KeySorted(ds)
    ensures var p := LatestPanel(ds);
      forall y, j :: y in p && 0 <= j < |ds| && ds[j].code == y.code ==> ds[j].date <= y.date
  {
    LatestRowsAreLatest(ds);
    SortByElements(LatestRows(ds), PanelKey);
  }

  /**
   * The panel is ordered by sort key: listed codes by their position in the
   * universe and all of them before any unlisted code; rows with equal keys
   * keep their order.
   */
  lemma PanelOrder(ds: seq<Row>)
    ensures var p := LatestPanel(ds);
      && (forall a, b :: 0 <= a < b < |p| ==> SortKey(p[a].code) <= SortKey(p[b].code))
      && (forall a, b :: 0 <= a < b < |p| && InUniverse(p[b].code) ==> InUniverse(p[a].code))
      && (forall k :: WithKey(p, PanelKey, k) == WithKey(LatestRows(ds), PanelKey, k))
  {
    var p := LatestPanel(ds);
    SortBySpec(LatestRows(ds), PanelKey);
    forall a, b | 0 <= a < b < |p|
      ensures SortKey(p[a].code) <= SortKey(p[b].code)
    {
      assert PanelKey(p[a]) <= PanelKey(p[b]);
    }
    forall a, b | 0 <= a < b < |p| && InUniverse(p[b].code)
      ensures InUniverse(p[a].code)
    {
      assert PanelKey(p[a]) <= PanelKey(p[b]);
    }
  }
}
