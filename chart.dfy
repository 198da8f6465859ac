/**
 * The chart side of the aggregation: a date × sector-name table of closes,
 * rebased so that every sector starts at 100, and one forward-filled line per
 * sector.
 */
module Chart {
  import opened Wrappers
  import opened Orders
  import opened Indicators
  import opened SectorData

  /**
   * A table of cells indexed by date (rows) and sector name (columns), kept
   * column by column: `cols[j][i]` is the cell at `dates[i]` for `names[j]`;
   * `None` is a missing value.
   */
  datatype Table = Table(dates: seq<Date>, names: seq<string>, cols: seq<seq<Option<real>>>)

  predicate WellFormed(t: Table)
  {
    |t.cols| == |t.names| && forall j :: 0 <= j < |t.cols| ==> |t.cols[j]| == |t.dates|
  }

  /** pandas' `DataFrame.empty`: no rows or no columns. */
  predicate IsEmpty(t: Table)
  {
    |t.dates| == 0 || |t.names| == 0
  }

  function DatesOf(ds: seq<Row>): (r: seq<Date>)
    ensures |r| == |ds| && forall i :: 0 <= i < |ds| ==> r[i] == ds[i].date
  {
    seq(|ds|, i requires 0 <= i < |ds| => ds[i].date)
  }

  function NamesOf(ds: seq<Row>): (r: seq<string>)
    ensures |r| == |ds| && forall i :: 0 <= i < |ds| ==> r[i] == ds[i].name
  {
    seq(|ds|, i requires 0 <= i < |ds| => ds[i].name)
  }

  predicate HasDate(ds: seq<Row>, d: Date)
  {
    exists i :: 0 <= i < |ds| && ds[i].date == d
  }

  predicate HasName(ds: seq<Row>, n: string)
  {
    exists i :: 0 <= i < |ds| && ds[i].name == n
  }

  /** The close of the last row with date `d` and name `n`, if any. */
  function Cell(ds: seq<Row>, d: Date, n: string): Option<real>
  {
    if ds == [] then None
    else if ds[|ds| - 1].date == d && ds[|ds| - 1].name == n then Some(ds[|ds| - 1].close)
    else Cell(ds[..|ds| - 1], d, n)
  }

  /** `pivot(index=date, columns=name, values=close)`: both axes sorted and distinct. */
  function Pivot(ds: seq<Row>): (t: Table)
    ensures WellFormed(t)
  {
    var dates := SortedDistinct(DatesOf(ds), IntLess);
    var names := SortedDistinct(NamesOf(ds), StrLess);
    Table(dates, names,
      seq(|names|, j requires 0 <= j < |names| =>
        seq(|dates|, i requires 0 <= i < |dates| => Cell(ds, dates[i], names[j]))))
  }

  /** One cell divided by its column's base cell, times 100; a missing or zero base gives a missing cell. */
  function Scale(x: Option<real>, base: Option<real>): Option<real>
  {
    if x.None? || base.None? || base.value == 0.0 then None
    else Some(x.value / base.value * 100.0)
  }

  function NormalizeColumn(col: seq<Option<real>>): (r: seq<Option<real>>)
    ensures |r| == |col|
  {
    seq(|col|, i requires 0 <= i < |col| => Scale(col[i], col[0]))
  }

  /** `pivot_df.div(pivot_df.iloc[0]).mul(100)`, skipped for an empty table. */
  function Normalize(t: Table): (r: Table)
    requires WellFormed(t)
    ensures WellFormed(r) && r.dates == t.dates && r.names == t.names
  {
    if IsEmpty(t) then t
    else Table(t.dates, t.names, seq(|t.cols|, j requires 0 <= j < |t.cols| => NormalizeColumn(t.cols[j])))
  }

  /** `ffill()`: each missing cell takes the last value before it, carried in `carry`. */
  function FfillFrom(col: seq<Option<real>>, carry: Option<real>): (r: seq<Option<real>>)
    ensures |r| == |col|
  {
    if col == [] then []
    else
      var c := if col[0].Some? then col[0] else carry;
      [c] + FfillFrom(col[1..], c)
  }

  function Ffill(col: seq<Option<real>>): (r: seq<Option<real>>)
    ensures |r| == |col|
  {
    FfillFrom(col, None)
  }

  /** Reference for forward-fill: the last defined value at or before position `i`. */
  function LastDefined(col: seq<Option<real>>, i: nat): Option<real>
    requires i < |col|
  {
    if col[i].Some? then col[i]
    else if i == 0 then None
    else LastDefined(col, i - 1)
  }

  /** One line of the chart. */
  datatype Dataset = Dataset(name: string, data: seq<Option<real>>)

  /** The chart lines: one per column of the normalised table, forward-filled, in column order. */
  function Datasets(t: Table): seq<Dataset>
    requires WellFormed(t)
  {
    seq(|t.names|, j requires 0 <= j < |t.names| => Dataset(t.names[j], Ffill(t.cols[j])))
  }

  /** Builds the chart lines one column at a time. */
  method ChartDatasets(t: Table) returns (datasets: seq<Dataset>)
    requires WellFormed(t)
    ensures datasets == Datasets(t)
    ensures |datasets| == |t.names|
    ensures forall j :: 0 <= j < |datasets| ==> datasets[j] == Dataset(t.names[j], Ffill(t.cols[j]))
  {
    datasets := [];
    for j := 0 to |t.names|
      invariant |datasets| == j
      invariant forall k :: 0 <= k < j ==> datasets[k] == Dataset(t.names[k], Ffill(t.cols[k]))
    {
      datasets := datasets + [Dataset(t.names[j], Ffill(t.cols[j]))];
    }
  }

  // ---------------------------------------------------------------------------
  // Lemmas

  /**
   * The pivot's dates are the distinct dates of the rows in increasing order,
   * its names the distinct names in code-point order.
   */
  lemma PivotAxes(ds: seq<Row>)
    ensures StrictlySorted(Pivot(ds).dates, IntLess)
    ensures StrictlySorted(Pivot(ds).names, StrLess)
    ensures forall d :: d in Pivot(ds).dates <==> HasDate(ds, d)
    ensures forall n :: n in Pivot(ds).names <==> HasName(ds, n)
  {
    IntLessIsStrictTotalOrder();
    StrLessIsStrictTotalOrder();
    SortedDistinctSpec(DatesOf(ds), IntLess);
    SortedDistinctSpec(NamesOf(ds), StrLess);
    forall d ensures d in DatesOf(ds) <==> HasDate(ds, d) {
      if d in DatesOf(ds) {
        var i :| 0 <= i < |ds| && DatesOf(ds)[i] == d;
      }
    }
    forall n ensures n in NamesOf(ds) <==> HasName(ds, n) {
      if n in NamesOf(ds) {
        var i :| 0 <= i < |ds| && NamesOf(ds)[i] == n;
      }
    }
  }

  /**
   * A cell is present exactly when some row has its date and name, and then
   * it holds the close of the last such row.
   */
  lemma {:induction false} CellSpec(ds: seq<Row>, d: Date, n: string)
    ensures Cell(ds, d, n).Some? <==> exists i :: 0 <= i < |ds| && ds[i].date == d && ds[i].name == n
    ensures Cell(ds, d, n).Some? ==> exists i :: (0 <= i < |ds| && ds[i].date == d && ds[i].name == n
      && Cell(ds, d, n).value == ds[i].close
      && forall k :: i < k < |ds| ==> !(ds[k].date == d && ds[k].name == n))
  {
    if ds != [] {
      var m := |ds| - 1;
      var p := ds[..m];
      CellSpec(p, d, n);
      if !(ds[m].date == d && ds[m].name == n) {
        assert forall i :: 0 <= i < |p| ==> p[i] == ds[i];
        if Cell(ds, d, n).Some? {
          var i :| 0 <= i < |p| && p[i].date == d && p[i].name == n
            && Cell(p, d, n).value == p[i].close
            && forall k :: i < k < |p| ==> !(p[k].date == d && p[k].name == n);
          assert forall k :: i < k < |ds| ==> !(ds[k].date == d && ds[k].name == n);
        }
      }
    }
  }

  /** The base row of every column whose first cell is a non-zero value reads 100 after rebasing. */
  lemma NormalizeBase(t: Table, j: nat)
    requires WellFormed(t) && !IsEmpty(t) && j < |t.names|
    requires t.cols[j][0].Some? && t.cols[j][0].value != 0.0
    ensures Normalize(t).cols[j][0] == Some(100.0)
  {
    var b := t.cols[j][0].value;
    assert Normalize(t).cols[j] == NormalizeColumn(t.cols[j]);
    calc {
      b / b * 100.0;
      == 1.0 * 100.0;
      == 100.0;
    }
  }

  /**
   * Rebasing keeps every move: two present cells of one column stand in the
   * same ratio before and after; a column with no usable base is all missing.
   */
  lemma NormalizeKeepsRatios(t: Table, j: nat, i: nat, k: nat)
    requires WellFormed(t) && !IsEmpty(t) && j < |t.names| && i < |t.dates| && k < |t.dates|
    ensures var c, r := t.cols[j], Normalize(t).cols[j];
      c[0].None? || c[0].value == 0.0 ==> r[i].None?
    ensures var c, r := t.cols[j], Normalize(t).cols[j];
      c[0].Some? && c[0].value != 0.0 && c[i].Some? && c[k].Some? && c[k].value != 0.0 ==>
        r[i].Some? && r[k].Some? && r[k].value != 0.0 && r[i].value / r[k].value == c[i].value / c[k].value
  {
    var c, r := t.cols[j], Normalize(t).cols[j];
    assert r == NormalizeColumn(c);
    if c[0].Some? && c[0].value != 0.0 && c[i].Some? && c[k].Some? && c[k].value != 0.0 {
      var b, x, y := c[0].value, c[i].value, c[k].value;
      var s := 100.0 / b;
      assert r[i].value == x / b * 100.0 == x * s;
      assert r[k].value == y / b * 100.0 == y * s;
      assert s != 0.0;
      ScaledRatio(x, y, s);
    }
  }

  lemma ScaledRatio(x: real, y: real, s: real)
    requires y != 0.0 && s != 0.0
    ensures y * s != 0.0 && (x * s) / (y * s) == x / y
  {
    var q := x / y;
    assert x == q * y;
    calc {
      x * s;
      == (q * y) * s;
      == q * (y * s);
    }
  }

  /**
   * Forward-fill computes the reference: position `i` holds the last defined
   * value at or before `i`.
   */
  lemma {:induction false} FfillFromSpec(col: seq<Option<real>>, carry: Option<real>, i: nat)
    requires i < |col|
    ensures FfillFrom(col, carry)[i] == (if LastDefined(col, i).Some? then LastDefined(col, i) else carry)
  {
    var c := if col[0].Some? then col[0] else carry;
    if i > 0 {
      FfillFromSpec(col[1..], c, i - 1);
      LastDefinedShift(col, i);
    }
  }

  lemma {:induction false} LastDefinedShift(col: seq<Option<real>>, i: nat)
    requires 0 < i < |col|
    ensures LastDefined(col, i) ==
      (if LastDefined(col[1..], i - 1).Some? then LastDefined(col[1..], i - 1) else col[0])
  {
    if col[i].None? && i > 1 {
      LastDefinedShift(col, i - 1);
    }
  }

  lemma FfillSpec(col: seq<Option<real>>)
    ensures forall i :: 0 <= i < |col| ==> Ffill(col)[i] == LastDefined(col, i)
  {
    forall i | 0 <= i < |col| ensures Ffill(col)[i] == LastDefined(col, i) {
      FfillFromSpec(col, None, i);
    }
  }

  /**
   * What the reference means: a defined value stays; a missing value takes
   * the nearest earlier defined one; it stays missing only when everything
   * up to it is missing.
   */
  lemma {:induction false} LastDefinedSpec(col: seq<Option<real>>, i: nat)
    requires i < |col|
    ensures col[i].Some? ==> LastDefined(col, i) == col[i]
    ensures LastDefined(col, i).None? <==> forall k :: 0 <= k <= i ==> col[k].None?
    ensures LastDefined(col, i).Some? ==> exists k :: (0 <= k <= i && col[k] == LastDefined(col, i)
      && forall m :: k < m <= i ==> col[m].None?)
  {
    if col[i].None? && i > 0 {
      LastDefinedSpec(col, i - 1);
    }
  }

  /** Forward-fill never changes a present value, and fills every gap after the first present value. */
  lemma FfillKeepsValues(col: seq<Option<real>>)
    ensures forall i :: 0 <= i < |col| && col[i].Some? ==> Ffill(col)[i] == col[i]
    ensures forall i, k :: 0 <= k <= i < |col| && col[k].Some? ==> Ffill(col)[i].Some?
  {
    FfillSpec(col);
    forall i | 0 <= i < |col| ensures col[i].Some? ==> LastDefined(col, i) == col[i] {
      LastDefinedSpec(col, i);
    }
    forall i, k | 0 <= k <= i < |col| && col[k].Some? ensures LastDefined(col, i).Some? {
      LastDefinedSpec(col, i);
    }
  }
}
