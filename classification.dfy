/**
 * The status rule shared by the overheated ranking and the panel cards:
 * a high RSI or a close above the upper Bollinger band is "overheated";
 * failing that, a low RSI or a close below the lower band is "oversold";
 * anything else is "normal".
 */
module Classification {

  datatype Status = Overheated | Oversold | Normal

  const OverheatedRsi: real := 70.0
  const OversoldRsi: real := 30.0
  const UpperBand: real := 1.0
  const LowerBand: real := 0.0

  /** The overheated test, used both for the ranking filter and the panel. */
  predicate IsOverheated(rsi: real, pctB: real)
  {
    rsi >= OverheatedRsi || pctB > UpperBand
  }

  predicate IsOversold(rsi: real, pctB: real)
  {
    rsi <= OversoldRsi || pctB < LowerBand
  }

  /**
   * The card status. Overheated takes precedence: a row that is both above
   * 70 and below the lower band is overheated. Normal is exactly the box
   * 30 < rsi < 70 with %B in [0, 1].
   */
  function Classify(rsi: real, pctB: real): (s: Status)
    ensures s == Overheated <==> rsi >= 70.0 || pctB > 1.0
    ensures s == Oversold <==> rsi < 70.0 && pctB <= 1.0 && (rsi <= 30.0 || pctB < 0.0)
    ensures s == Normal <==> 30.0 < rsi < 70.0 && 0.0 <= pctB <= 1.0
  {
    if IsOverheated(rsi, pctB) then Overheated
    else if IsOversold(rsi, pctB) then Oversold
    else Normal
  }

  /**
   * Raising RSI or %B never moves a row out of "overheated", and lowering
   * them never moves a row out of "oversold" unless it becomes overheated.
   */
  lemma ClassifyMonotone(rsi: real, pctB: real, rsi': real, pctB': real)
    ensures Classify(rsi, pctB) == Overheated && rsi <= rsi' && pctB <= pctB' ==>
      Classify(rsi', pctB') == Overheated
    ensures Classify(rsi, pctB) == Oversold && rsi' <= rsi && pctB' <= pctB ==>
      Classify(rsi', pctB') == Oversold
  {
  }

  /** A row that passes both tests is reported as overheated. */
  lemma OverheatedTakesPrecedence(rsi: real, pctB: real)
    requires IsOverheated(rsi, pctB) && IsOversold(rsi, pctB)
    ensures Classify(rsi, pctB) == Overheated
  {
  }
}
