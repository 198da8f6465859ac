/**
 * The top level: one series per instrument of the universe, collected into
 * one list of rows and handed to the aggregation.
 */
module Pipeline {
  import opened Wrappers
  import opened Universe
  import opened Indicators
  import opened SectorData
  import opened Panel
  import opened Aggregation

  /** The per-instrument lists, concatenated in order. */
  function Flatten(parts: seq<seq<Row>>): seq<Row>
  {
    if parts == [] then [] else Flatten(parts[..|parts| - 1]) + parts[|parts| - 1]
  }

  /** Appends each non-empty per-instrument list, in order. */
  method CollectRows(parts: seq<seq<Row>>) returns (all: seq<Row>)
    ensures all == Flatten(parts)
  {
    all := [];
    for k := 0 to |parts|
      invariant all == Flatten(parts[..k])
    {
      var res := parts[k];
      if res != [] {
        all := all + res;
      }
      assert parts[..k + 1][..k] == parts[..k];
    }
    assert parts[..|parts|] == parts;
  }

  /**
   * The series of each listed instrument, in list order. `fetch` stands for
   * the market-data download: `None` when it fails.
   */
  function SeriesOf(insts: seq<Instrument>, fetch: string -> Option<seq<Bar>>, sqrt: real -> real): seq<seq<Row>>
  {
    seq(|insts|, k requires 0 <= k < |insts| =>
      SectorSeries(insts[k].code, insts[k].name, fetch(insts[k].code), sqrt))
  }

  /** The series of every instrument of the universe, in universe order. */
  function UniverseSeries(fetch: string -> Option<seq<Bar>>, sqrt: real -> real): seq<seq<Row>>
  {
    SeriesOf(SectorEtfs, fetch, sqrt)
  }

  /** Downloads and prepares each listed instrument in turn. */
  method FetchAll(insts: seq<Instrument>, fetch: string -> Option<seq<Bar>>, sqrt: real -> real)
    returns (parts: seq<seq<Row>>)
    ensures parts == SeriesOf(insts, fetch, sqrt)
  {
    parts := [];
    for k := 0 to |insts|
      invariant parts == SeriesOf(insts[..k], fetch, sqrt)
    {
      var inst := insts[k];
      var part := SectorRows(inst.code, inst.name, fetch(inst.code), sqrt);
      SeriesOfSnoc(insts, k, fetch, sqrt);
      parts := parts + [part];
    }
    assert insts[..|insts|] == insts;
  }

  lemma SeriesOfSnoc(insts: seq<Instrument>, k: nat, fetch: string -> Option<seq<Bar>>, sqrt: real -> real)
    requires k < |insts|
    ensures SeriesOf(insts[..k + 1], fetch, sqrt)
      == SeriesOf(insts[..k], fetch, sqrt) + [SectorSeries(insts[k].code, insts[k].name, fetch(insts[k].code), sqrt)]
  {
    var inst := insts[k];
    var a, b := SeriesOf(insts[..k + 1], fetch, sqrt), SeriesOf(insts[..k], fetch, sqrt);
    forall j | 0 <= j < k ensures a[j] == b[j] {
      assert insts[..k + 1][j] == insts[..k][j];
    }
    assert a[k] == SectorSeries(inst.code, inst.name, fetch(inst.code), sqrt);
  }

  /** Everything after the download: nothing when no instrument gave rows. */
  method Run(fetch: string -> Option<seq<Bar>>, sqrt: real -> real) returns (out: Option<ChartData>)
    ensures out.None? <==> Flatten(UniverseSeries(fetch, sqrt)) == []
    ensures out.Some? ==> out.value == ChartOf(Flatten(UniverseSeries(fetch, sqrt)))
  {
    var parts := FetchAll(SectorEtfs, fetch, sqrt);
    var all := CollectRows(parts);
    if all == [] {
      return None;
    }
    out := ProcessDataForChart(all);
  }

  // ---------------------------------------------------------------------------
  // Lemmas

  lemma {:induction false} FlattenHas(parts: seq<seq<Row>>, k: nat, y: Row)
    requires k < |parts| && y in parts[k]
    ensures y in Flatten(parts)
  {
    var n := |parts| - 1;
    if k < n {
      FlattenHas(parts[..n], k, y);
    }
  }

  lemma {:induction false} FlattenFrom(parts: seq<seq<Row>>, y: Row) returns (k: nat)
    requires y in Flatten(parts)
    ensures k < |parts| && y in parts[k]
  {
    var n := |parts| - 1;
    if y in parts[n] {
      k := n;
    } else {
      k := FlattenFrom(parts[..n], y);
    }
  }

  lemma {:induction false} FlattenEmpty(parts: seq<seq<Row>>)
    ensures Flatten(parts) == [] <==> forall k :: 0 <= k < |parts| ==> parts[k] == []
  {
    if parts != [] {
      var n := |parts| - 1;
      FlattenEmpty(parts[..n]);
      assert forall k :: 0 <= k < n ==> parts[..n][k] == parts[k];
    }
  }

  /** A row is collected exactly when it is in one of the lists; nothing is collected only from empty lists. */
  lemma FlattenSpec(parts: seq<seq<Row>>)
    ensures forall y :: y in Flatten(parts) <==> exists k :: 0 <= k < |parts| && y in parts[k]
    ensures Flatten(parts) == [] <==> forall k :: 0 <= k < |parts| ==> parts[k] == []
  {
    forall y ensures y in Flatten(parts) <==> exists k :: 0 <= k < |parts| && y in parts[k] {
      if y in Flatten(parts) {
        var k := FlattenFrom(parts, y);
      }
      if k :| 0 <= k < |parts| && y in parts[k] {
        FlattenHas(parts, k, y);
      }
    }
    FlattenEmpty(parts);
  }

  /** Every collected row carries one instrument's code and name, and an RSI in [0, 100]. */
  lemma CollectedRowsListed(fetch: string -> Option<seq<Bar>>, sqrt: real -> real)
    ensures forall y :: y in Flatten(UniverseSeries(fetch, sqrt)) ==>
      && (exists k :: 0 <= k < |SectorEtfs| && y.code == SectorEtfs[k].code && y.name == SectorEtfs[k].name)
      && 0.0 <= y.rsi <= 100.0
  {
    var parts := UniverseSeries(fetch, sqrt);
    FlattenSpec(parts);
    forall y | y in Flatten(parts)
      ensures exists k :: 0 <= k < |SectorEtfs| && y.code == SectorEtfs[k].code && y.name == SectorEtfs[k].name
      ensures 0.0 <= y.rsi <= 100.0
    {
      var k :| 0 <= k < |parts| && y in parts[k];
      var inst := SectorEtfs[k];
      var h := fetch(inst.code);
      assert parts[k] == SectorSeries(inst.code, inst.name, h, sqrt);
      var j :| 0 <= j < |parts[k]| && parts[k][j] == y;
      assert h.Some?;
      SectorSeriesSpec(inst.code, inst.name, h.value, sqrt);
      SectorRowsRsiBounded(inst.code, inst.name, h.value, sqrt);
    }
  }

  /** Panel rows are listed strictly by their position in the universe. */
  predicate InUniverseOrder(p: seq<Row>)
  {
    forall a, b :: 0 <= a < b < |p| ==> SortKey(p[a].code) < SortKey(p[b].code) < |SectorEtfs|
  }

  /** When every input row belongs to the universe, the panel follows the universe order, one row per code. */
  lemma PanelInUniverseOrder(all: seq<Row>)
    requires forall y :: y in all ==> InUniverse(y.code)
    ensures InUniverseOrder(ChartOf(all).panel)
  {
    var p := ChartOf(all).panel;
    ChartPanelFromInput(all);
    ChartPanelOnePerCode(all);
    ChartPanel(all);
    PanelOrder(Dedup.SortDedup(all));
    forall a, b | 0 <= a < b < |p|
      ensures SortKey(p[a].code) < SortKey(p[b].code) < |SectorEtfs|
    {
      assert p[a] in all && p[b] in all;
      assert p[a].code != p[b].code;
    }
  }

  /** The panel of a run lists its instruments strictly in universe order. */
  lemma RunPanelInUniverseOrder(fetch: string -> Option<seq<Bar>>, sqrt: real -> real)
    ensures InUniverseOrder(ChartOf(Flatten(UniverseSeries(fetch, sqrt))).panel)
  {
    var all := Flatten(UniverseSeries(fetch, sqrt));
    CollectedRowsListed(fetch, sqrt);
    forall y | y in all ensures InUniverse(y.code) {
      var k :| 0 <= k < |SectorEtfs| && y.code == SectorEtfs[k].code && y.name == SectorEtfs[k].name;
    }
    PanelInUniverseOrder(all);
  }
}
