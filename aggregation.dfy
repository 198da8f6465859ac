/**
 * `process_data_for_chart`: from the rows of every instrument to the panel,
 * the chart labels and lines, and the overheated shortlist.
 */
module Aggregation {
  import opened Wrappers
  import opened Orders
  import opened Indicators
  import opened SectorData
  import opened Dedup
  import opened Panel
  import opened Chart
  import opened Ranking

  datatype ChartData = ChartData(panel: seq<Row>, labels: seq<Date>, datasets: seq<Dataset>, top3: seq<Entry>)

  /** The rebased close table of the deduplicated rows. */
  function NormalizedTable(allRows: seq<Row>): (t: Table)
    ensures WellFormed(t)
  {
    Normalize(Pivot(SortDedup(allRows)))
  }

  /** What the aggregation produces from a non-empty set of rows. */
  function ChartOf(allRows: seq<Row>): ChartData
  {
    var df := SortDedup(allRows);
    var panel := LatestPanel(df);
    var t := NormalizedTable(allRows);
    ChartData(panel, t.dates, Datasets(t), Top3(panel, t))
  }

  /** Nothing for no rows; otherwise the panel, labels, lines and shortlist. */
  method ProcessDataForChart(allRows: seq<Row>) returns (out: Option<ChartData>)
    ensures out.None? <==> allRows == []
    ensures out.Some? ==> out.value == ChartOf(allRows)
  {
    if allRows == [] {
      return None;
    }
    var df := SortDedup(allRows);
    var panel := LatestPanel(df);
    var t := Normalize(Pivot(df));
    var top3 := OverheatedTop3(panel, t);
    var datasets := ChartDatasets(t);
    out := Some(ChartData(panel, t.dates, datasets, top3));
  }

  // ---------------------------------------------------------------------------
  // Lemmas

  /** The panel of the aggregation is the panel of the deduplicated rows. */
  lemma ChartPanel(allRows: seq<Row>)
    ensures ChartOf(allRows).panel == LatestPanel(SortDedup(allRows))
  {
  }

  /** Each panel row is one of the input rows. */
  lemma ChartPanelFromInput(allRows: seq<Row>)
    ensures forall y :: y in ChartOf(allRows).panel ==> y in allRows
  {
    var df := SortDedup(allRows);
    ChartPanel(allRows);
    SortDedupOnlyLast(allRows);
    PanelRowsFromInput(df);
    forall y | y in LatestPanel(df) ensures y in allRows {
      assert y in df;
      var i :| 0 <= i < |allRows| && allRows[i] == y && LastOfKey(allRows, i);
    }
  }

  /** Every input code has exactly one panel row. */
  lemma ChartPanelOnePerCode(allRows: seq<Row>)
    ensures forall i :: 0 <= i < |allRows| ==> HasCode(ChartOf(allRows).panel, allRows[i].code)
    ensures DistinctCodes(ChartOf(allRows).panel)
  {
    var df := SortDedup(allRows);
    ChartPanel(allRows);
    SortDedupKeys(allRows);
    PanelCoversCodes(df);
    PanelCodesDistinct(df);
    forall i | 0 <= i < |allRows| ensures HasCode(LatestPanel(df), allRows[i].code) {
      var j :| 0 <= j < |df| && SameKey(df[j], allRows[i]);
      assert HasCode(LatestPanel(df), df[j].code);
    }
  }

  /** Each panel row is at the latest date any input row has for its code. */
  lemma ChartPanelIsLatest(allRows: seq<Row>)
    ensures forall y, i :: y in ChartOf(allRows).panel && 0 <= i < |allRows| && allRows[i].code == y.code ==>
      allRows[i].date <= y.date
  {
    var df := SortDedup(allRows);
    ChartPanel(allRows);
    SortDedupSorted(allRows);
    SortDedupKeys(allRows);
    PanelIsLatest(df);
    forall y, i | y in LatestPanel(df) && 0 <= i < |allRows| && allRows[i].code == y.code
      ensures allRows[i].date <= y.date
    {
      var j :| 0 <= j < |df| && SameKey(df[j], allRows[i]);
      assert df[j].code == y.code;
    }
  }

  /** Deduplication keeps the set of dates. */
  lemma SortDedupDates(allRows: seq<Row>)
    ensures forall d :: HasDate(SortDedup(allRows), d) <==> HasDate(allRows, d)
  {
    var df := SortDedup(allRows);
    SortDedupOnlyLast(allRows);
    SortDedupKeys(allRows);
    forall d ensures HasDate(df, d) <==> HasDate(allRows, d) {
      if HasDate(df, d) {
        var j :| 0 <= j < |df| && df[j].date == d;
        assert df[j] in df;
        var i :| 0 <= i < |allRows| && allRows[i] == df[j] && LastOfKey(allRows, i);
      }
      if HasDate(allRows, d) {
        var i :| 0 <= i < |allRows| && allRows[i].date == d;
        var j :| 0 <= j < |df| && SameKey(df[j], allRows[i]);
      }
    }
  }

  lemma ChartLabelsArePivotDates(allRows: seq<Row>)
    ensures ChartOf(allRows).labels == Pivot(SortDedup(allRows)).dates
  {
  }

  /** The chart labels are the distinct dates of the input, increasing. */
  lemma ChartLabels(allRows: seq<Row>)
    ensures StrictlySorted(ChartOf(allRows).labels, IntLess)
    ensures forall d :: d in ChartOf(allRows).labels <==> HasDate(allRows, d)
  {
    ChartLabelsArePivotDates(allRows);
    PivotAxes(SortDedup(allRows));
    SortDedupDates(allRows);
  }

  /** One chart line per distinct sector name of the input, forward-filled over the labels. */
  lemma ChartLines(allRows: seq<Row>)
    ensures var c, t := ChartOf(allRows), NormalizedTable(allRows);
      && |c.datasets| == |t.names|
      && forall j :: 0 <= j < |c.datasets| ==>
           c.datasets[j].name == t.names[j] && |c.datasets[j].data| == |c.labels|
           && c.datasets[j].data == Ffill(t.cols[j])
  {
  }
}
