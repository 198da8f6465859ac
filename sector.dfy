/**
 * One instrument's contribution: the indicator frame with its undefined rows
 * dropped, capped to the most recent 300 rows, and turned into output rows
 * that carry the instrument's code and display name.
 */
module SectorData {
  import opened Wrappers
  import opened Indicators

  /** One instrument on one date, as handed to the aggregation. */
  datatype Row = Row(
    code: string,
    name: string,
    date: Date,
    close: real,
    changePct: real,
    diffShort: real,
    diffMid: real,
    diffLong: real,
    rsi: real,
    pctB: real,
    volRatio: real)

  /** How many of the most recent rows are kept. */
  const Lookback: nat := 300

  /** pandas `tail(n)`: the last `n` elements, or all of them when there are fewer. */
  function Tail<T>(s: seq<T>, n: nat): (r: seq<T>)
    ensures |r| == if |s| < n then |s| else n
    ensures r == s[|s| - |r|..]
  {
    if |s| <= n then s else s[|s| - n..]
  }

  function MakeRow(code: string, name: string, c: Computed): Row
  {
    var v := c.values;
    Row(code, name, c.bar.date, c.bar.close, v.changePct, v.diffShort, v.diffMid, v.diffLong,
        v.rsi, v.pctB, v.volRatio)
  }

  /**
   * The rows of one instrument. `history` is what the market-data fetch gave:
   * `None` when it raised, which the source catches and answers with no rows.
   */
  function SectorSeries(code: string, name: string, history: Option<seq<Bar>>, sqrt: real -> real): seq<Row>
  {
    match history
    case None => []
    case Some(bars) =>
      if bars == [] then []
      else Label(code, name, Tail(DefinedRows(bars, sqrt), Lookback))
  }

  /** The computed rows, each labelled with the instrument's code and name. */
  function Label(code: string, name: string, kept: seq<Computed>): (r: seq<Row>)
    ensures |r| == |kept|
    ensures forall k :: 0 <= k < |r| ==> r[k] == MakeRow(code, name, kept[k])
  {
    seq(|kept|, k requires 0 <= k < |kept| => MakeRow(code, name, kept[k]))
  }

  /** Builds the rows one at a time, as the source's loop over the frame does. */
  method SectorRows(code: string, name: string, history: Option<seq<Bar>>, sqrt: real -> real)
    returns (results: seq<Row>)
    ensures results == SectorSeries(code, name, history, sqrt)
  {
    if history.None? {
      return [];
    }
    var bars := history.value;
    if |bars| == 0 {
      return [];
    }
    var kept := Tail(DefinedRows(bars, sqrt), Lookback);
    results := [];
    for k := 0 to |kept|
      invariant |results| == k
      invariant forall j :: 0 <= j < k ==> results[j] == MakeRow(code, name, kept[j])
    {
      results := results + [MakeRow(code, name, kept[k])];
    }
  }

  /**
   * The series is the last min(300, n) of the n fully defined rows, in bar
   * order, each labelled with the instrument's code and name.
   */
  lemma SectorSeriesSpec(code: string, name: string, bars: seq<Bar>, sqrt: real -> real)
    ensures var all := DefinedRows(bars, sqrt);
      var r := SectorSeries(code, name, Some(bars), sqrt);
      && |r| == (if |all| < Lookback then |all| else Lookback)
      && forall k :: 0 <= k < |r| ==>
           && r[k] == MakeRow(code, name, all[|all| - |r| + k])
           && r[k].code == code && r[k].name == name && r[k].date == all[|all| - |r| + k].bar.date
  {
    SectorSeriesOfBars(code, name, bars, sqrt);
    LabelTailSpec(code, name, DefinedRows(bars, sqrt));
  }

  lemma LabelTailSpec(code: string, name: string, all: seq<Computed>)
    ensures var r := Label(code, name, Tail(all, Lookback));
      && |r| == (if |all| < Lookback then |all| else Lookback)
      && forall k :: 0 <= k < |r| ==>
           && r[k] == MakeRow(code, name, all[|all| - |r| + k])
           && r[k].code == code && r[k].name == name && r[k].date == all[|all| - |r| + k].bar.date
  {
    var kept := Tail(all, Lookback);
    var d := |all| - |kept|;
    forall k | 0 <= k < |kept| ensures kept[k] == all[d + k] {
    }
  }

  /** A failed fetch and a history shorter than the 75-bar window both give nothing. */
  lemma NoRowsWithoutHistory(code: string, name: string, history: Option<seq<Bar>>, sqrt: real -> real)
    requires history.None? || |history.value| < LongWindow
    ensures SectorSeries(code, name, history, sqrt) == []
  {
    if history.Some? {
      ShortHistoryYieldsNoRows(history.value, sqrt);
    }
  }

  /** With a history, the series labels the last rows of its defined rows, an empty history included. */
  lemma SectorSeriesOfBars(code: string, name: string, bars: seq<Bar>, sqrt: real -> real)
    ensures SectorSeries(code, name, Some(bars), sqrt) == Label(code, name, Tail(DefinedRows(bars, sqrt), Lookback))
  {
    if bars == [] {
      assert DefinedRows(bars, sqrt) == [];
    }
  }

  /** Row `k` of a labelled tail is the labelled row `j` of the whole list. */
  lemma LabelTailSource(code: string, name: string, all: seq<Computed>, k: nat) returns (j: nat)
    requires k < |Label(code, name, Tail(all, Lookback))|
    ensures j < |all| && Label(code, name, Tail(all, Lookback))[k] == MakeRow(code, name, all[j])
  {
    LabelTailSpec(code, name, all);
    j := |all| - |Tail(all, Lookback)| + k;
  }

  /** Every emitted row is the row of a bar whose indicators are all defined; `i` is that bar's position. */
  lemma SectorRowSource(code: string, name: string, bars: seq<Bar>, sqrt: real -> real, k: nat) returns (i: nat)
    requires k < |SectorSeries(code, name, Some(bars), sqrt)|
    ensures i < |bars| && IndicatorsAt(bars, i, sqrt).Some?
    ensures SectorSeries(code, name, Some(bars), sqrt)[k]
      == MakeRow(code, name, Computed(bars[i], IndicatorsAt(bars, i, sqrt).value))
  {
    var all := DefinedRows(bars, sqrt);
    SectorSeriesOfBars(code, name, bars, sqrt);
    var idx := DefinedRowsPositions(bars, sqrt);
    var j := LabelTailSource(code, name, all, k);
    i := idx[j];
  }

  /** Every emitted row has its RSI in [0, 100]. */
  lemma SectorRowsRsiBounded(code: string, name: string, bars: seq<Bar>, sqrt: real -> real)
    ensures var r := SectorSeries(code, name, Some(bars), sqrt);
      forall k :: 0 <= k < |r| ==> 0.0 <= r[k].rsi <= 100.0
  {
    var r := SectorSeries(code, name, Some(bars), sqrt);
    forall k | 0 <= k < |r|
      ensures 0.0 <= r[k].rsi <= 100.0
    {
      var i := SectorRowSource(code, name, bars, sqrt, k);
      DefinedRowBounds(bars, i, sqrt);
    }
  }

  /** The dates of the computed rows strictly increase. */
  predicate ComputedDatesIncrease(s: seq<Computed>)
  {
    forall a, b :: 0 <= a < b < |s| ==> s[a].bar.date < s[b].bar.date
  }

  /** The dates of the rows strictly increase. */
  predicate RowDatesIncrease(r: seq<Row>)
  {
    forall a, b :: 0 <= a < b < |r| ==> r[a].date < r[b].date
  }

  /** When the bars' dates increase, so do the emitted rows' dates. */
  lemma SectorRowsDatesIncrease(code: string, name: string, bars: seq<Bar>, sqrt: real -> real)
    requires forall i, j :: 0 <= i < j < |bars| ==> bars[i].date < bars[j].date
    ensures RowDatesIncrease(SectorSeries(code, name, Some(bars), sqrt))
  {
    var idx := DefinedRowsBars(bars, sqrt);
    var all := DefinedRows(bars, sqrt);
    forall a, b | 0 <= a < b < |all|
      ensures all[a].bar.date < all[b].bar.date
    {
      assert idx[a] < idx[b] < |bars|;
    }
    TailDatesIncrease(all);
    LabelDatesIncrease(code, name, Tail(all, Lookback));
  }

  lemma TailDatesIncrease(all: seq<Computed>)
    requires ComputedDatesIncrease(all)
    ensures ComputedDatesIncrease(Tail(all, Lookback))
  {
    var kept := Tail(all, Lookback);
    var d := |all| - |kept|;
    forall a, b | 0 <= a < b < |kept|
      ensures kept[a].bar.date < kept[b].bar.date
    {
      assert kept[a] == all[d + a] && kept[b] == all[d + b];
    }
  }

  lemma LabelDatesIncrease(code: string, name: string, kept: seq<Computed>)
    requires ComputedDatesIncrease(kept)
    ensures RowDatesIncrease(Label(code, name, kept))
  {
    var r := Label(code, name, kept);
    forall a, b | 0 <= a < b < |r|
      ensures r[a].date < r[b].date
    {
      assert r[a].date == kept[a].bar.date && r[b].date == kept[b].bar.date;
    }
  }
}
