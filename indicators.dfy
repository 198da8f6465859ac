/**
 * The per-instrument indicator engine: every indicator column computed over
 * one instrument's daily bars, one value per bar. A pandas NaN (a rolling
 * window that is not yet full, an undefined quotient) is `None`.
 */
module Indicators {
  import opened Wrappers

  /** A trading day, as a day number. */
  type Date = int

  datatype Bar = Bar(date: Date, close: real, volume: real)

  /** The indicator values of one bar once all of them are defined. */
  datatype IndicatorValues = IndicatorValues(
    changePct: real,
    diffShort: real,
    diffMid: real,
    diffLong: real,
    rsi: real,
    pctB: real,
    volRatio: real)

  const ShortWindow: nat := 5
  const MidWindow: nat := 25
  const LongWindow: nat := 75
  const RsiWindow: nat := 14
  const BandWindow: nat := 20
  const VolumeWindow: nat := 5

  // ---------------------------------------------------------------------------
  // Sums, means and trailing windows

  function Sum(xs: seq<real>): real
  {
    if xs == [] then 0.0 else Sum(xs[..|xs| - 1]) + xs[|xs| - 1]
  }

  function Mean(xs: seq<real>): real
    requires xs != []
  {
    Sum(xs) / (|xs| as real)
  }

  /** The `w` values ending at position `i`, inclusive. */
  function Window(xs: seq<real>, w: nat, i: nat): (r: seq<real>)
    requires w <= i + 1 <= |xs|
    ensures |r| == w
  {
    xs[i + 1 - w .. i + 1]
  }

  /** pandas `rolling(window=w).mean()` at position `i`. */
  function RollingMean(xs: seq<real>, w: nat, i: nat): Option<real>
    requires 0 < w && i < |xs|
  {
    if i + 1 < w then None else Some(Mean(Window(xs, w, i)))
  }

  function Closes(bars: seq<Bar>): (r: seq<real>)
    ensures |r| == |bars| && forall k :: 0 <= k < |bars| ==> r[k] == bars[k].close
  {
    seq(|bars|, k requires 0 <= k < |bars| => bars[k].close)
  }

  function Volumes(bars: seq<Bar>): (r: seq<real>)
    ensures |r| == |bars| && forall k :: 0 <= k < |bars| ==> r[k] == bars[k].volume
  {
    seq(|bars|, k requires 0 <= k < |bars| => bars[k].volume)
  }

  // ---------------------------------------------------------------------------
  // 1. Moving-average deviation

  /** `(close - ma) / ma * 100`; undefined with the mean or when it is 0. */
  function Deviation(close: real, ma: Option<real>): Option<real>
  {
    match ma
    case None => None
    case Some(m) => if m == 0.0 then None else Some((close - m) / m * 100.0)
  }

  function DeviationAt(closes: seq<real>, w: nat, i: nat): Option<real>
    requires 0 < w && i < |closes|
  {
    Deviation(closes[i], RollingMean(closes, w, i))
  }

  // ---------------------------------------------------------------------------
  // 2. RSI(14)

  /**
   * `delta.where(delta > 0, 0)`: the rise into bar `k`. At bar 0 the delta is
   * NaN, the condition is false there, so the gain is 0, not NaN.
   */
  function Gain(closes: seq<real>, k: nat): (r: real)
    requires k < |closes|
    ensures r >= 0.0
  {
    if k == 0 then 0.0
    else var delta := closes[k] - closes[k - 1]; if delta > 0.0 then delta else 0.0
  }

  /** `-delta.where(delta < 0, 0)`: the fall into bar `k`, 0 at bar 0. */
  function Loss(closes: seq<real>, k: nat): (r: real)
    requires k < |closes|
    ensures r >= 0.0
  {
    if k == 0 then 0.0
    else var delta := closes[k] - closes[k - 1]; if delta < 0.0 then -delta else 0.0
  }

  function Gains(closes: seq<real>): (r: seq<real>)
    ensures |r| == |closes| && forall k :: 0 <= k < |closes| ==> r[k] == Gain(closes, k)
  {
    seq(|closes|, k requires 0 <= k < |closes| => Gain(closes, k))
  }

  function Losses(closes: seq<real>): (r: seq<real>)
    ensures |r| == |closes| && forall k :: 0 <= k < |closes| ==> r[k] == Loss(closes, k)
  {
    seq(|closes|, k requires 0 <= k < |closes| => Loss(closes, k))
  }

  /**
   * `100 - 100 / (1 + gain / loss)` with IEEE division made explicit: a zero
   * average loss gives an infinite RS, so RSI 100, unless the average gain is
   * 0 too, when RS is NaN.
   */
  function RsiOf(avgGain: real, avgLoss: real): Option<real>
    requires avgGain >= 0.0 && avgLoss >= 0.0
  {
    if avgLoss == 0.0 then (if avgGain > 0.0 then Some(100.0) else None)
    else Some(100.0 - 100.0 / (1.0 + avgGain / avgLoss))
  }

  function AvgGain(closes: seq<real>, i: nat): Option<real>
    requires i < |closes|
  {
    RollingMean(Gains(closes), RsiWindow, i)
  }

  function AvgLoss(closes: seq<real>, i: nat): Option<real>
    requires i < |closes|
  {
    RollingMean(Losses(closes), RsiWindow, i)
  }

  function RsiAt(closes: seq<real>, i: nat): Option<real>
    requires i < |closes|
  {
    if i + 1 < RsiWindow then None
    else
      var g := Window(Gains(closes), RsiWindow, i);
      var l := Window(Losses(closes), RsiWindow, i);
      NonNegativeWindow(Gains(closes), RsiWindow, i);
      NonNegativeWindow(Losses(closes), RsiWindow, i);
      RsiOf(Mean(g), Mean(l))
  }

  // ---------------------------------------------------------------------------
  // 3. Bollinger %B (20 bars, 2 standard deviations)

  /** Sum of squared deviations from `m`. */
  function SumSqDev(xs: seq<real>, m: real): real
  {
    if xs == [] then 0.0
    else SumSqDev(xs[..|xs| - 1], m) + Square(xs[|xs| - 1] - m)
  }

  function Square(d: real): real
  {
    d * d
  }

  /** pandas' default rolling variance: the sample variance (divisor n - 1). */
  function SampleVariance(xs: seq<real>): real
    requires |xs| >= 2
  {
    SumSqDev(xs, Mean(xs)) / ((|xs| - 1) as real)
  }

  /**
   * What the model needs of the square root it is given: non-negative on the
   * non-negative reals and zero exactly at zero.
   */
  ghost predicate RootLike(sqrt: real -> real)
  {
    forall v :: 0.0 <= v ==> 0.0 <= sqrt(v) && (sqrt(v) == 0.0 <==> v == 0.0)
  }

  /** `rolling(20).std()`, with the square root supplied by the caller. */
  function BandStd(closes: seq<real>, i: nat, sqrt: real -> real): Option<real>
    requires i < |closes|
  {
    if i + 1 < BandWindow then None else Some(sqrt(SampleVariance(Window(closes, BandWindow, i))))
  }

  /** `(close - lower) / (upper - lower)`, exactly 0 when the band is empty. */
  function PctBOf(close: real, ma: real, std: real): real
  {
    var upper := ma + std * 2.0;
    var lower := ma - std * 2.0;
    var range := upper - lower;
    if range == 0.0 then 0.0 else (close - lower) / range
  }

  function PctBAt(closes: seq<real>, i: nat, sqrt: real -> real): Option<real>
    requires i < |closes|
  {
    match (RollingMean(closes, BandWindow, i), BandStd(closes, i, sqrt))
    case (Some(ma), Some(std)) => Some(PctBOf(closes[i], ma, std))
    case _ => None
  }

  // ---------------------------------------------------------------------------
  // 4. Volume ratio and 5. previous-day change

  /** Volume over its 5-bar mean, exactly 0 when that mean is 0. */
  function VolRatioAt(volumes: seq<real>, i: nat): Option<real>
    requires i < |volumes|
  {
    match RollingMean(volumes, VolumeWindow, i)
    case None => None
    case Some(m) => if m == 0.0 then Some(0.0) else Some(volumes[i] / m)
  }

  /** `pct_change() * 100`; undefined at bar 0 and after a zero close. */
  function ChangePctAt(closes: seq<real>, i: nat): Option<real>
    requires i < |closes|
  {
    if i == 0 || closes[i - 1] == 0.0 then None
    else Some((closes[i] / closes[i - 1] - 1.0) * 100.0)
  }

  // ---------------------------------------------------------------------------
  // The row of bar i, all columns defined or none

  function IndicatorsAt(bars: seq<Bar>, i: nat, sqrt: real -> real): Option<IndicatorValues>
    requires i < |bars|
  {
    var cs := Closes(bars);
    var change := ChangePctAt(cs, i);
    var short := DeviationAt(cs, ShortWindow, i);
    var mid := DeviationAt(cs, MidWindow, i);
    var long := DeviationAt(cs, LongWindow, i);
    var rsi := RsiAt(cs, i);
    var pctB := PctBAt(cs, i, sqrt);
    var vol := VolRatioAt(Volumes(bars), i);
    if change.Some? && short.Some? && mid.Some? && long.Some? && rsi.Some? && pctB.Some? && vol.Some?
    then Some(IndicatorValues(change.value, short.value, mid.value, long.value, rsi.value, pctB.value, vol.value))
    else None
  }

  /** A bar with the indicator values computed for it. */
  datatype Computed = Computed(bar: Bar, values: IndicatorValues)

  /** The indicator row of every bar: the frame before `dropna`. */
  function Frame(bars: seq<Bar>, sqrt: real -> real): (r: seq<Option<IndicatorValues>>)
    ensures |r| == |bars| && forall i :: 0 <= i < |bars| ==> r[i] == IndicatorsAt(bars, i, sqrt)
  {
    seq(|bars|, i requires 0 <= i < |bars| => IndicatorsAt(bars, i, sqrt))
  }

  /** The positions below `n` whose row is fully defined, ascending. */
  function DefinedIndices(frame: seq<Option<IndicatorValues>>, n: nat): seq<nat>
    requires n <= |frame|
  {
    if n == 0 then []
    else DefinedIndices(frame, n - 1) + (if frame[n - 1].Some? then [n - 1] else [])
  }

  /** `dropna()` over the first `n` rows: the fully defined ones, in bar order. */
  function DropUndefined(bars: seq<Bar>, frame: seq<Option<IndicatorValues>>, n: nat): seq<Computed>
    requires n <= |bars| == |frame|
  {
    if n == 0 then []
    else
      DropUndefined(bars, frame, n - 1)
        + (if frame[n - 1].Some? then [Computed(bars[n - 1], frame[n - 1].value)] else [])
  }

  function DefinedRows(bars: seq<Bar>, sqrt: real -> real): seq<Computed>
  {
    DropUndefined(bars, Frame(bars, sqrt), |bars|)
  }

  // ---------------------------------------------------------------------------
  // Lemmas: arithmetic of windows

  lemma {:induction false} SumNonNegative(xs: seq<real>)
    requires forall k :: 0 <= k < |xs| ==> xs[k] >= 0.0
    ensures Sum(xs) >= 0.0
    ensures Sum(xs) == 0.0 <==> forall k :: 0 <= k < |xs| ==> xs[k] == 0.0
  {
    if xs != [] {
      SumNonNegative(xs[..|xs| - 1]);
      assert forall k :: 0 <= k < |xs| - 1 ==> xs[..|xs| - 1][k] == xs[k];
    }
  }

  lemma {:induction false} SumPositive(xs: seq<real>)
    requires xs != [] && forall k :: 0 <= k < |xs| ==> xs[k] > 0.0
    ensures Sum(xs) > 0.0
  {
    var init := xs[..|xs| - 1];
    assert forall k :: 0 <= k < |init| ==> init[k] == xs[k];
    if init != [] { SumPositive(init); }
  }

  lemma {:induction false} SumConstant(xs: seq<real>, c: real)
    requires forall k :: 0 <= k < |xs| ==> xs[k] == c
    ensures Sum(xs) == (|xs| as real) * c
  {
    if xs != [] {
      var init := xs[..|xs| - 1];
      assert forall k :: 0 <= k < |init| ==> init[k] == xs[k];
      SumConstant(init, c);
    }
  }

  lemma MeanConstant(xs: seq<real>, c: real)
    requires xs != [] && forall k :: 0 <= k < |xs| ==> xs[k] == c
    ensures Mean(xs) == c
  {
    SumConstant(xs, c);
  }

  lemma NonNegativeWindow(xs: seq<real>, w: nat, i: nat)
    requires 0 < w <= i + 1 <= |xs|
    requires forall k :: 0 <= k < |xs| ==> xs[k] >= 0.0
    ensures Mean(Window(xs, w, i)) >= 0.0
  {
    var win := Window(xs, w, i);
    assert forall k :: 0 <= k < |win| ==> win[k] == xs[i + 1 - w + k];
    SumNonNegative(win);
  }

  lemma {:induction false} SumSqDevZero(xs: seq<real>, m: real)
    ensures SumSqDev(xs, m) >= 0.0
    ensures SumSqDev(xs, m) == 0.0 <==> forall k :: 0 <= k < |xs| ==> xs[k] == m
  {
    if xs != [] {
      var init := xs[..|xs| - 1];
      SumSqDevZero(init, m);
      assert forall k :: 0 <= k < |init| ==> init[k] == xs[k];
      SquarePositive(xs[|xs| - 1] - m);
    }
  }

  lemma SquarePositive(d: real)
    ensures Square(d) >= 0.0
    ensures Square(d) == 0.0 <==> d == 0.0
  {
    if d > 0.0 {
      calc { Square(d); == d * d; > 0.0; }
    } else if d < 0.0 {
      calc { Square(d); == d * d; == (-d) * (-d); > 0.0; }
    }
  }

  lemma DivDiv(x: real, a: real, b: real)
    requires a > 0.0 && b > 0.0
    ensures x / (a / b) == x * b / a
  {
    var q := a / b;
    assert q * b == a;
    var r := x * b / a;
    calc {
      r * q;
      == x * b / a * (a / b);
      == x * b * a / (a * b);
      == x;
    }
  }

  lemma DivAdd(x: real, y: real, d: real)
    requires d != 0.0
    ensures x / d + y / d == (x + y) / d
  {
  }

  lemma NegDivSelf(d: real)
    requires d != 0.0
    ensures (-d) / d == -1.0
  {
  }

  lemma DivScale(x: real, d: real)
    requires d != 0.0
    ensures (x / d) * 100.0 == 100.0 * x / d
  {
  }

  lemma DivBounds(a: real, b: real, c: real)
    requires b > 0.0 && 0.0 <= a <= c * b
    ensures 0.0 <= a / b <= c
  {
  }

  lemma DivSelf(x: real, d: real)
    requires d > 0.0
    ensures x * d / d == x
  {
  }

  // ---------------------------------------------------------------------------
  // Lemmas: RSI

  /**
   * RSI is defined unless both averages are 0, equals the textbook
   * `100 * gain / (gain + loss)` (so 100 when there is no loss), and lies in
   * [0, 100].
   */
  lemma RsiOfSpec(avgGain: real, avgLoss: real)
    requires avgGain >= 0.0 && avgLoss >= 0.0
    ensures RsiOf(avgGain, avgLoss).None? <==> avgGain == 0.0 && avgLoss == 0.0
    ensures RsiOf(avgGain, avgLoss).Some? ==>
      RsiOf(avgGain, avgLoss).value == 100.0 * avgGain / (avgGain + avgLoss)
    ensures RsiOf(avgGain, avgLoss).Some? ==> 0.0 <= RsiOf(avgGain, avgLoss).value <= 100.0
  {
    var g, l := avgGain, avgLoss;
    if l > 0.0 {
      calc {
        100.0 - 100.0 / (1.0 + g / l);
        == { DivAdd(l, g, l); DivSelf(1.0, l); }
        100.0 - 100.0 / ((l + g) / l);
        == { DivDiv(100.0, l + g, l); }
        100.0 - 100.0 * l / (l + g);
        == { DivAdd(100.0 * l, 100.0 * g, l + g);
             DivSelf(100.0, l + g);
             assert 100.0 * l + 100.0 * g == 100.0 * (l + g); }
        100.0 * g / (g + l);
      }
    } else if g > 0.0 {
      DivSelf(100.0, g);
    }
  }

  /** The average gain and loss over the 14 bars ending at `i`. */
  lemma RsiAtIsRsiOf(closes: seq<real>, i: nat)
    requires RsiWindow <= i + 1 <= |closes|
    ensures AvgGain(closes, i).Some? && AvgLoss(closes, i).Some?
    ensures AvgGain(closes, i).value >= 0.0 && AvgLoss(closes, i).value >= 0.0
    ensures RsiAt(closes, i) == RsiOf(AvgGain(closes, i).value, AvgLoss(closes, i).value)
  {
    NonNegativeWindow(Gains(closes), RsiWindow, i);
    NonNegativeWindow(Losses(closes), RsiWindow, i);
  }

  /** The close changed on some bar `k` in the 14 bars ending at `i`. */
  predicate Moved(closes: seq<real>, i: nat)
    requires i < |closes|
  {
    exists k :: i + 1 - RsiWindow <= k <= i && 0 < k && closes[k] != closes[k - 1]
  }

  lemma MeanZero(xs: seq<real>)
    requires xs != [] && forall k :: 0 <= k < |xs| ==> xs[k] >= 0.0
    ensures Mean(xs) == 0.0 <==> forall k :: 0 <= k < |xs| ==> xs[k] == 0.0
  {
    SumNonNegative(xs);
  }

  /**
   * RSI is undefined exactly when neither a gain nor a loss occurred in its
   * 14-bar window, that is when the close never moved there.
   */
  lemma {:induction false} RsiDefinedIffMoved(closes: seq<real>, i: nat)
    requires RsiWindow <= i + 1 <= |closes|
    ensures RsiAt(closes, i).Some? <==> Moved(closes, i)
  {
    if Moved(closes, i) {
      var k :| i + 1 - RsiWindow <= k <= i && 0 < k && closes[k] != closes[k - 1];
      RsiDefinedIfMoved(closes, i, k);
    } else {
      RsiUndefinedIfStill(closes, i);
    }
  }

  lemma RsiDefinedIfMoved(closes: seq<real>, i: nat, k: nat)
    requires RsiWindow <= i + 1 <= |closes|
    requires i + 1 - RsiWindow <= k <= i && 0 < k && closes[k] != closes[k - 1]
    ensures RsiAt(closes, i).Some?
  {
    RsiAtIsRsiOf(closes, i);
    var gw := Window(Gains(closes), RsiWindow, i);
    var lw := Window(Losses(closes), RsiWindow, i);
    var j := k - (i + 1 - RsiWindow);
    RsiWindowAt(closes, i, j);
    assert gw[j] != 0.0 || lw[j] != 0.0;
    MeanZero(gw);
    MeanZero(lw);
    RsiOfSpec(Mean(gw), Mean(lw));
  }

  lemma RsiUndefinedIfStill(closes: seq<real>, i: nat)
    requires RsiWindow <= i + 1 <= |closes|
    requires !Moved(closes, i)
    ensures RsiAt(closes, i).None?
  {
    RsiAtIsRsiOf(closes, i);
    var gw := Window(Gains(closes), RsiWindow, i);
    var lw := Window(Losses(closes), RsiWindow, i);
    forall j | 0 <= j < RsiWindow ensures gw[j] == 0.0 && lw[j] == 0.0 {
      var k := i + 1 - RsiWindow + j;
      RsiWindowAt(closes, i, j);
      assert k == 0 || closes[k] == closes[k - 1];
    }
    MeanConstant(gw, 0.0);
    MeanConstant(lw, 0.0);
  }

  /** Entry `j` of the RSI windows ending at `i` is the gain and the loss of bar `i - 13 + j`. */
  lemma RsiWindowAt(closes: seq<real>, i: nat, j: nat)
    requires RsiWindow <= i + 1 <= |closes| && j < RsiWindow
    ensures Window(Gains(closes), RsiWindow, i)[j] == Gain(closes, i + 1 - RsiWindow + j)
    ensures Window(Losses(closes), RsiWindow, i)[j] == Loss(closes, i + 1 - RsiWindow + j)
  {
  }

  // ---------------------------------------------------------------------------
  // Lemmas: Bollinger %B

  /** The 20 closes ending at `i` are all equal to the close at `i`. */
  ghost predicate FlatBand(closes: seq<real>, i: nat)
    requires BandWindow <= i + 1 <= |closes|
  {
    forall k :: i + 1 - BandWindow <= k <= i ==> closes[k] == closes[i]
  }

  /**
   * The band is `4 * std` wide, so the zero-width guard fires exactly when the
   * standard deviation is 0, which is exactly when the 20 closes are all
   * equal; %B is then 0, and otherwise `(close - lower) / (4 * std)`.
   */
  lemma BandGuard(closes: seq<real>, i: nat, sqrt: real -> real)
    requires RootLike(sqrt)
    requires BandWindow <= i + 1 <= |closes|
    ensures BandStd(closes, i, sqrt).Some? && BandStd(closes, i, sqrt).value >= 0.0
    ensures BandStd(closes, i, sqrt).value == 0.0 <==> FlatBand(closes, i)
    ensures FlatBand(closes, i) ==> PctBAt(closes, i, sqrt) == Some(0.0)
    ensures !FlatBand(closes, i) ==>
      var ma := Mean(Window(closes, BandWindow, i));
      var std := BandStd(closes, i, sqrt).value;
      std > 0.0 && PctBAt(closes, i, sqrt) == Some((closes[i] - (ma - 2.0 * std)) / (4.0 * std))
  {
    var w := Window(closes, BandWindow, i);
    var m := Mean(w);
    assert forall k :: 0 <= k < |w| ==> w[k] == closes[i + 1 - BandWindow + k];
    SumSqDevZero(w, m);
    var v := SampleVariance(w);
    assert v == SumSqDev(w, m) / 19.0;
    assert v >= 0.0 && (v == 0.0 <==> SumSqDev(w, m) == 0.0);
    if FlatBand(closes, i) {
      MeanConstant(w, closes[i]);
    } else {
      var k :| i + 1 - BandWindow <= k <= i && closes[k] != closes[i];
      assert w[k - (i + 1 - BandWindow)] != w[BandWindow - 1];
    }
  }

  // ---------------------------------------------------------------------------
  // Lemmas: volume ratio

  /**
   * With non-negative volumes the ratio lies in [0, 5]: the bar's own volume
   * is one of the five that are averaged. It is exactly 0 when the mean is 0.
   */
  lemma VolRatioBounds(volumes: seq<real>, i: nat)
    requires VolumeWindow <= i + 1 <= |volumes|
    requires forall k :: 0 <= k < |volumes| ==> volumes[k] >= 0.0
    ensures VolRatioAt(volumes, i).Some?
    ensures 0.0 <= VolRatioAt(volumes, i).value <= 5.0
    ensures Mean(Window(volumes, VolumeWindow, i)) == 0.0 ==> VolRatioAt(volumes, i) == Some(0.0)
  {
    var w := Window(volumes, VolumeWindow, i);
    var init := w[..4];
    assert forall k :: 0 <= k < |w| ==> w[k] == volumes[i + 1 - VolumeWindow + k];
    assert forall k :: 0 <= k < |init| ==> init[k] == w[k];
    SumNonNegative(init);
    assert Sum(w) == Sum(init) + volumes[i];
    var m := Mean(w);
    if m != 0.0 {
      SumNonNegative(w);
      assert m > 0.0;
      assert volumes[i] <= 5.0 * m;
      DivBounds(volumes[i], m, 5.0);
    }
  }

  // ---------------------------------------------------------------------------
  // Lemmas: when a row is defined

  /** A row needs the 75-bar mean, so nothing before bar 74 is defined. */
  lemma DefinedAfterWarmup(bars: seq<Bar>, i: nat, sqrt: real -> real)
    requires i < |bars| && IndicatorsAt(bars, i, sqrt).Some?
    ensures i + 1 >= LongWindow
  {
  }

  predicate PositiveCloses(bars: seq<Bar>)
  {
    forall k :: 0 <= k < |bars| ==> bars[k].close > 0.0
  }

  lemma MeanPositive(xs: seq<real>, w: nat, i: nat)
    requires 0 < w <= i + 1 <= |xs| && forall k :: 0 <= k < |xs| ==> xs[k] > 0.0
    ensures Mean(Window(xs, w, i)) > 0.0
  {
    var win := Window(xs, w, i);
    assert forall k :: 0 <= k < |win| ==> win[k] == xs[i + 1 - w + k];
    SumPositive(win);
  }

  /**
   * With positive closes (as market prices are), the row of bar `i` is kept
   * by `dropna` exactly when 75 bars of history exist and the close moved in
   * the last 14 bars; every other column is then defined.
   */
  lemma {:induction false} RowDefinedIff(bars: seq<Bar>, i: nat, sqrt: real -> real)
    requires PositiveCloses(bars) && i < |bars|
    ensures IndicatorsAt(bars, i, sqrt).Some? <==> i + 1 >= LongWindow && Moved(Closes(bars), i)
  {
    var cs := Closes(bars);
    if i + 1 >= LongWindow {
      RsiDefinedIffMoved(cs, i);
      MeanPositive(cs, ShortWindow, i);
      MeanPositive(cs, MidWindow, i);
      MeanPositive(cs, LongWindow, i);
    }
  }

  // ---------------------------------------------------------------------------
  // Lemmas: dropna

  /**
   * The positions `dropna()` keeps: a strictly increasing list of exactly
   * the positions below `n` with a defined row.
   */
  lemma {:induction false} DefinedIndicesSpec(frame: seq<Option<IndicatorValues>>, n: nat)
    requires n <= |frame|
    ensures forall k :: 0 <= k < |DefinedIndices(frame, n)| ==>
      DefinedIndices(frame, n)[k] < n && frame[DefinedIndices(frame, n)[k]].Some?
    ensures forall k, l :: 0 <= k < l < |DefinedIndices(frame, n)| ==>
      DefinedIndices(frame, n)[k] < DefinedIndices(frame, n)[l]
    ensures forall i :: 0 <= i < n && frame[i].Some? ==> i in DefinedIndices(frame, n)
  {
    if n > 0 {
      DefinedIndicesSpec(frame, n - 1);
      var prev := DefinedIndices(frame, n - 1);
      if frame[n - 1].Some? {
        var idx := prev + [n - 1];
        assert DefinedIndices(frame, n) == idx;
        assert forall k :: 0 <= k < |prev| ==> idx[k] == prev[k];
        assert idx[|prev|] == n - 1;
        forall k | 0 <= k < |idx| ensures idx[k] < n && frame[idx[k]].Some? {
          if k < |prev| {
            assert idx[k] == prev[k] && prev[k] < n - 1 && frame[prev[k]].Some?;
          } else {
            assert k == |prev| && idx[k] == n - 1;
          }
        }
        forall k, l | 0 <= k < l < |idx| ensures idx[k] < idx[l] {
          assert idx[k] == prev[k] && prev[k] < n - 1;
          if l < |prev| {
            assert idx[l] == prev[l] && prev[k] < prev[l];
          } else {
            assert l == |prev| && idx[l] == n - 1;
          }
        }
        forall i | 0 <= i < n && frame[i].Some? ensures i in idx {
          if i < n - 1 {
            assert i in prev;
          } else {
            assert idx[|prev|] == i;
          }
        }
      } else {
        assert DefinedIndices(frame, n) == prev;
        forall i | 0 <= i < n && frame[i].Some? ensures i in prev {
          assert i < n - 1;
        }
      }
    }
  }

  /** `rows` are the bars at the positions `idx`, each with its defined indicator values. */
  predicate KeptAt(bars: seq<Bar>, frame: seq<Option<IndicatorValues>>, idx: seq<nat>, rows: seq<Computed>)
    requires |bars| == |frame|
  {
    && |rows| == |idx|
    && forall k :: 0 <= k < |idx| ==> (idx[k] < |bars| && frame[idx[k]].Some? &&
         rows[k] == Computed(bars[idx[k]], frame[idx[k]].value))
  }

  /** `dropna()` keeps, in bar order, the bars at those positions with their values. */
  lemma {:induction false} DropUndefinedSpec(bars: seq<Bar>, frame: seq<Option<IndicatorValues>>, n: nat)
    requires n <= |bars| == |frame|
    ensures KeptAt(bars, frame, DefinedIndices(frame, n), DropUndefined(bars, frame, n))
  {
    if n > 0 {
      DropUndefinedSpec(bars, frame, n - 1);
      var prev := DefinedIndices(frame, n - 1);
      var rows := DropUndefined(bars, frame, n - 1);
      if frame[n - 1].Some? {
        var idx := prev + [n - 1];
        var out := rows + [Computed(bars[n - 1], frame[n - 1].value)];
        assert DefinedIndices(frame, n) == idx;
        assert DropUndefined(bars, frame, n) == out;
        KeptAtExtend(bars, frame, prev, rows, n - 1);
      } else {
        assert DefinedIndices(frame, n) == prev;
        assert DropUndefined(bars, frame, n) == rows;
      }
    }
  }

  lemma KeptAtExtend(bars: seq<Bar>, frame: seq<Option<IndicatorValues>>, idx: seq<nat>, rows: seq<Computed>, i: nat)
    requires i < |bars| == |frame| && frame[i].Some?
    requires KeptAt(bars, frame, idx, rows)
    ensures KeptAt(bars, frame, idx + [i], rows + [Computed(bars[i], frame[i].value)])
  {
    var idx', rows' := idx + [i], rows + [Computed(bars[i], frame[i].value)];
    forall k | 0 <= k < |idx'|
      ensures idx'[k] < |bars| && frame[idx'[k]].Some? && rows'[k] == Computed(bars[idx'[k]], frame[idx'[k]].value)
    {
      if k < |idx| {
        assert idx'[k] == idx[k] && rows'[k] == rows[k];
      } else {
        assert idx'[k] == i && rows'[k] == Computed(bars[i], frame[i].value);
      }
    }
  }

  lemma {:induction false} DropUndefinedNone(bars: seq<Bar>, frame: seq<Option<IndicatorValues>>, n: nat)
    requires n <= |bars| == |frame|
    requires forall i :: 0 <= i < n ==> frame[i].None?
    ensures DropUndefined(bars, frame, n) == []
  {
    if n > 0 {
      DropUndefinedNone(bars, frame, n - 1);
    }
  }

  /** No defined row, no output. */
  lemma NothingDefinedNothingKept(bars: seq<Bar>, sqrt: real -> real)
    requires forall i :: 0 <= i < |bars| ==> IndicatorsAt(bars, i, sqrt).None?
    ensures DefinedRows(bars, sqrt) == []
  {
    DropUndefinedNone(bars, Frame(bars, sqrt), |bars|);
  }

  /** Fewer than 75 bars yield no row. */
  lemma ShortHistoryYieldsNoRows(bars: seq<Bar>, sqrt: real -> real)
    requires |bars| < LongWindow
    ensures DefinedRows(bars, sqrt) == []
  {
    forall i | 0 <= i < |bars| ensures IndicatorsAt(bars, i, sqrt).None? {
      if IndicatorsAt(bars, i, sqrt).Some? { DefinedAfterWarmup(bars, i, sqrt); }
    }
    NothingDefinedNothingKept(bars, sqrt);
  }

  /** A constant close never gains nor loses: RSI, hence every row, is undefined. */
  lemma FlatHistoryYieldsNoRows(bars: seq<Bar>, sqrt: real -> real)
    requires forall k :: 0 <= k < |bars| ==> bars[k].close == bars[0].close
    ensures DefinedRows(bars, sqrt) == []
  {
    var cs := Closes(bars);
    forall i | 0 <= i < |bars| ensures IndicatorsAt(bars, i, sqrt).None? {
      if i + 1 >= RsiWindow {
        RsiDefinedIffMoved(cs, i);
      }
    }
    NothingDefinedNothingKept(bars, sqrt);
  }

  /**
   * On a flat stretch, after warm-up: every deviation is 0, %B is 0 (the
   * zero-width guard), the previous-day change is 0 and, with a constant
   * positive volume, the volume ratio is 1.
   */
  lemma FlatStretchValues(bars: seq<Bar>, i: nat, sqrt: real -> real)
    requires RootLike(sqrt)
    requires LongWindow <= i + 1 <= |bars|
    requires bars[i].close != 0.0 && bars[i].volume > 0.0
    requires forall k :: i + 1 - LongWindow <= k <= i ==> bars[k].close == bars[i].close
    requires forall k :: i + 1 - VolumeWindow <= k <= i ==> bars[k].volume == bars[i].volume
    ensures DeviationAt(Closes(bars), ShortWindow, i) == Some(0.0)
    ensures DeviationAt(Closes(bars), MidWindow, i) == Some(0.0)
    ensures DeviationAt(Closes(bars), LongWindow, i) == Some(0.0)
    ensures PctBAt(Closes(bars), i, sqrt) == Some(0.0)
    ensures VolRatioAt(Volumes(bars), i) == Some(1.0)
    ensures ChangePctAt(Closes(bars), i) == Some(0.0)
  {
    var cs, vs := Closes(bars), Volumes(bars);
    assert cs[i - 1] == cs[i];
    ChangePctSpec(cs, i);
    var c := bars[i].close;
    MeanConstant(Window(cs, ShortWindow, i), c);
    MeanConstant(Window(cs, MidWindow, i), c);
    MeanConstant(Window(cs, LongWindow, i), c);
    var vw := Window(vs, VolumeWindow, i);
    assert forall k :: 0 <= k < |vw| ==> vw[k] == bars[i + 1 - VolumeWindow + k].volume;
    MeanConstant(vw, bars[i].volume);
    DivSelf(1.0, bars[i].volume);
    BandGuard(cs, i, sqrt);
  }

  /**
   * `pct_change() * 100`: undefined at bar 0 and after a zero close;
   * otherwise the relative move times 100, whose sign after a positive close
   * is the sign of the move.
   */
  lemma ChangePctSpec(closes: seq<real>, i: nat)
    requires i < |closes|
    ensures ChangePctAt(closes, i).Some? <==> 0 < i && closes[i - 1] != 0.0
    ensures ChangePctAt(closes, i).Some? ==>
      ChangePctAt(closes, i).value == 100.0 * (closes[i] - closes[i - 1]) / closes[i - 1]
    ensures ChangePctAt(closes, i).Some? && closes[i - 1] > 0.0 ==>
      && (ChangePctAt(closes, i).value > 0.0 <==> closes[i] > closes[i - 1])
      && (ChangePctAt(closes, i).value == 0.0 <==> closes[i] == closes[i - 1])
      && (ChangePctAt(closes, i).value < 0.0 <==> closes[i] < closes[i - 1])
  {
    if 0 < i && closes[i - 1] != 0.0 {
      var c, p := closes[i], closes[i - 1];
      DivAdd(c, -p, p);
      NegDivSelf(p);
      DivScale(c - p, p);
      if p > 0.0 {
        SignOfQuotient(c - p, p);
      }
    }
  }

  lemma SignOfQuotient(x: real, d: real)
    requires d > 0.0
    ensures 100.0 * x / d > 0.0 <==> x > 0.0
    ensures 100.0 * x / d == 0.0 <==> x == 0.0
    ensures 100.0 * x / d < 0.0 <==> x < 0.0
  {
    assert 100.0 * x / d * d == 100.0 * x;
  }

  /** Every kept row has its RSI in [0, 100] and, with non-negative volumes, a volume ratio in [0, 5]. */
  lemma DefinedRowBounds(bars: seq<Bar>, i: nat, sqrt: real -> real)
    requires i < |bars| && IndicatorsAt(bars, i, sqrt).Some?
    ensures 0.0 <= IndicatorsAt(bars, i, sqrt).value.rsi <= 100.0
    ensures (forall k :: 0 <= k < |bars| ==> bars[k].volume >= 0.0) ==>
      0.0 <= IndicatorsAt(bars, i, sqrt).value.volRatio <= 5.0
  {
    var cs := Closes(bars);
    RsiAtIsRsiOf(cs, i);
    RsiOfSpec(AvgGain(cs, i).value, AvgLoss(cs, i).value);
    if forall k :: 0 <= k < |bars| ==> bars[k].volume >= 0.0 {
      VolRatioBounds(Volumes(bars), i);
    }
  }

  /** The kept rows, each named by the position of its bar: ascending positions whose indicators are all defined. */
  lemma DefinedRowsPositions(bars: seq<Bar>, sqrt: real -> real) returns (idx: seq<nat>)
    ensures |idx| == |DefinedRows(bars, sqrt)|
    ensures forall k :: 0 <= k < |idx| ==> idx[k] < |bars| && IndicatorsAt(bars, idx[k], sqrt).Some?
    ensures forall k :: 0 <= k < |idx| ==>
      DefinedRows(bars, sqrt)[k] == Computed(bars[idx[k]], IndicatorsAt(bars, idx[k], sqrt).value)
    ensures forall k, l :: 0 <= k < l < |idx| ==> idx[k] < idx[l]
  {
    var frame := Frame(bars, sqrt);
    DefinedIndicesSpec(frame, |bars|);
    DropUndefinedSpec(bars, frame, |bars|);
    idx := DefinedIndices(frame, |bars|);
  }

  /** The kept rows keep their bars in ascending position order. */
  lemma DefinedRowsBars(bars: seq<Bar>, sqrt: real -> real) returns (idx: seq<nat>)
    ensures |idx| == |DefinedRows(bars, sqrt)|
    ensures forall k :: 0 <= k < |idx| ==> idx[k] < |bars| && DefinedRows(bars, sqrt)[k].bar == bars[idx[k]]
    ensures forall k, l :: 0 <= k < l < |idx| ==> idx[k] < idx[l]
  {
    idx := DefinedRowsPositions(bars, sqrt);
  }
}
