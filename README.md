# US sector analysis — a verified model of its computing core

The program downloads two years of daily bars for the eleven US sector ETFs
of the GICS classification (XLC … XLU). For each instrument it computes a set
of technical indicators:

- moving-average deviations over 5, 25 and 75 days;
- RSI(14);
- Bollinger %B over 20 days at 2σ;
- the volume ratio against the 5-day mean;
- the previous-day change.

It then drops every bar with an undefined value and keeps the last 300 rows.
The rows of all instruments are merged, deduplicated by (date, code) and
turned into three outputs:

- a panel with the latest row of each instrument, in universe order, each
  classified as overheated, oversold or normal;
- a date × sector table of closes rebased to 100, forward-filled into chart
  lines;
- a shortlist of the (at most three) most overheated sectors by RSI.

The program also reads its settings from one multi-line `key=value`
environment variable.

This project models those computations in Dafny and proves what they
promise. Each module matches one stage:

| module | stage |
|---|---|
| `Universe` | the instrument list and the panel's sort key |
| `Indicators` | `calculate_technical_indicators` and `dropna` |
| `SectorData` | `tail(300)` and the row-building loop of `get_sector_data` |
| `Classification` | the status rule |
| `Dedup` | sort by (date, code) and `drop_duplicates(keep='last')` |
| `Panel` | latest row per code and the universe order |
| `Chart` | pivot, rebase to 100, forward fill, chart datasets |
| `Ranking` | the overheated top 3 |
| `Aggregation` | `process_data_for_chart` |
| `Pipeline` | the collection loop of `main` |
| `Config` | `parse_config_from_env` over the raw text |
| `Orders` | the string order and a stable insertion sort shared by the others |

Prices and volumes are `real`. A pandas NaN is `Option<real>`'s `None`.
Dates are day numbers (`int`). The square root used by the standard deviation
is a function parameter. Where a lemma needs something of it, it requires
`RootLike(sqrt)`: non-negative on non-negative input, and zero exactly at zero.

The model follows three behaviours of the pandas calls that are easy to
misread:

- `delta.where(delta > 0, 0)` replaces the undefined first difference by 0.
  The first 14-bar RSI window therefore ends at bar 13, not bar 14. This makes
  no difference to the emitted rows, because the 75-bar mean is undefined
  until bar 74.
- `rolling(20).std()` is the sample standard deviation (divisor n − 1), not
  the population one.
- A table column whose first-date value is missing is kept, with every cell
  undefined. It is not removed.

## Model

| member | source | states |
|---|---|---|
| Indicators.RsiOfSpec | main.py:41-45 | RSI is undefined exactly when both the average gain and the average loss are 0. Otherwise it is 100·gain/(gain+loss), which is 100 when the loss is 0, and it lies in [0, 100]. |
| Indicators.RsiAtIsRsiOf | main.py:40-45 | Once 14 bars exist, the average gain and loss are defined and non-negative, and RSI at bar i is RsiOf of the two 14-bar means. |
| Indicators.RsiDefinedIffMoved | main.py:40-45 | With a full 14-bar window, RSI is defined exactly when some close in that window differs from the one before it. |
| Indicators.BandGuard | main.py:47-54 | With a full 20-bar window, the band's standard deviation is defined and non-negative. It is 0 exactly when the 20 closes are equal, and then %B is exactly 0. Otherwise %B is (close − lower)/(upper − lower) with a positive band width. |
| Indicators.VolRatioBounds | main.py:56-58 | With 5 non-negative volumes, the ratio is defined and lies in [0, 5]. It is exactly 0 when the 5-day mean volume is 0. |
| Indicators.DefinedAfterWarmup | main.py:32-34 | A bar with every indicator defined has at least 75 bars of history up to and including it. |
| Indicators.RowDefinedIff | main.py:27-63 | For positive closes, a bar's row is fully defined exactly when 75 bars of history exist and the close moved at least once within the RSI window. |
| Indicators.ShortHistoryYieldsNoRows | main.py:32-34 | A history of fewer than 75 bars leaves no row after `dropna`. |
| Indicators.FlatHistoryYieldsNoRows | main.py:40-45 | A history whose closes never change leaves no row, because RSI is never defined. |
| Indicators.FlatStretchValues | main.py:31-61 | After 75 equal closes and 5 equal volumes, the three deviations are 0, %B is 0, the previous-day change is 0 and the volume ratio is 1. |
| Indicators.ChangePctSpec | main.py:61 | The previous-day change is undefined exactly at bar 0 and after a zero close. Otherwise it is 100·(c_i − c_{i−1})/c_{i−1}. After a positive close it is positive, zero or negative exactly as the close rose, stayed or fell. |
| Indicators.DefinedRowBounds | main.py:40-58 | Every fully defined row has RSI in [0, 100]. With non-negative volumes it also has a volume ratio in [0, 5]. |
| Indicators.DefinedIndicesSpec | main.py:79 | The positions `dropna` keeps are exactly the defined ones, strictly increasing. |
| Indicators.DropUndefinedSpec | main.py:79 | The kept rows are the rows of the kept positions, one for one and in order. |
| Indicators.DefinedRowsPositions | main.py:79 | Each kept row is the bar at a defined position with that bar's indicators, and the positions increase. |
| SectorData.SectorRows | main.py:72-101 | The row-building loop returns exactly the modelled series of the instrument. A failed download or an empty history gives no rows. |
| SectorData.SectorSeriesSpec | main.py:79-99 | The series is the last min(300, n) of the n defined rows, in bar order, each labelled with the instrument's code and name. |
| SectorData.NoRowsWithoutHistory | main.py:72-105 | A failed download, or a history shorter than 75 bars, gives no rows. |
| SectorData.SectorRowSource | main.py:82-99 | Every emitted row is built from one bar whose indicators are all defined. |
| SectorData.SectorRowsRsiBounded | main.py:92 | Every emitted row has RSI in [0, 100]. |
| SectorData.SectorRowsDatesIncrease | main.py:79-99 | If the bars' dates increase, so do the dates of the emitted rows. |
| Classification.Classify | main.py:219-240 | Overheated exactly when rsi ≥ 70 or %B > 1. Oversold exactly when not overheated and (rsi ≤ 30 or %B < 0). Normal exactly when 30 < rsi < 70 and 0 ≤ %B ≤ 1. |
| Classification.ClassifyMonotone | main.py:219-240 | Raising RSI or %B keeps an overheated row overheated. Lowering them keeps an oversold row oversold. |
| Classification.OverheatedTakesPrecedence | main.py:219-231 | A row meeting both the overheated and the oversold condition is overheated. |
| Universe.SortKey | main.py:122 | A listed code's key is its first position in the universe. Every other code gets 99, and only those do. |
| Universe.KnownBeforeUnknown | main.py:122-123 | Every listed code sorts before every code outside the universe. |
| Universe.SortKeyOfListed | main.py:13-25 | The key of the k-th listed code is k. |
| Dedup.SortDedupSpec | main.py:116-117 | The output is strictly sorted by (date, code). It keeps every row that is the last of its (date, code) pair, and only such rows. Every input pair is still present. |
| Dedup.SortDedupIdempotent | main.py:116-117 | Sorting and deduplicating a second time changes nothing. |
| Dedup.SortDedupOfSorted | main.py:116-117 | Input already strictly sorted by (date, code) is returned unchanged. |
| Panel.PanelCoversCodes | main.py:120 | Every code of the input has a row in the panel. |
| Panel.PanelCodesDistinct | main.py:120 | No code has two panel rows. |
| Panel.PanelRowsFromInput | main.py:120 | Every panel row is one of the input rows. |
| Panel.PanelIsLatest | main.py:120 | On sorted input, each panel row is at the latest date its code has. |
| Panel.PanelOrder | main.py:122-123 | The panel is ordered by universe position. Listed codes come before unknown ones. Rows with equal keys keep their input order. |
| Chart.PivotAxes | main.py:126 | The table's dates are exactly the input's dates, strictly increasing. Its column names are exactly the input's sector names, in string order. |
| Chart.CellSpec | main.py:126 | A cell is defined exactly when some row has that date and name. Its value is the close of the last such row. |
| Chart.NormalizeBase | main.py:128-130 | A column with a non-zero value at the first date is exactly 100 there. |
| Chart.NormalizeKeepsRatios | main.py:128-130 | Rebasing keeps the ratio of any two defined values of a column. A column without a usable base value becomes undefined. |
| Chart.FfillSpec | main.py:171 | Each forward-filled cell is the nearest defined value at or before it. |
| Chart.LastDefinedSpec | main.py:171 | That nearest value is the cell itself when defined, missing exactly when every earlier cell is missing, and otherwise the last defined earlier cell. |
| Chart.FfillKeepsValues | main.py:171 | Forward fill never changes a defined value, and every cell after a defined one is filled. |
| Chart.ChartDatasets | main.py:158-181 | There is one dataset per column, in column order, holding the column's name and its forward-filled values. |
| Ranking.IndexValue | main.py:143-145 | The index value is the sector's column value at the last date, or 0 when the sector has no column. |
| Ranking.CandidatesSpec | main.py:137-151 | The candidates are exactly the entries of the panel rows with rsi ≥ 70 or %B > 1. |
| Ranking.CandidatesAreOverheated | main.py:142 | The same rule, stated with the panel's classification: a candidate is exactly an overheated panel row. |
| Ranking.RankedSpec | main.py:153 | The ranking is a permutation of the candidates, in non-increasing RSI order. Entries with equal RSI keep their panel order. |
| Ranking.Top3Spec | main.py:153-154 | The shortlist holds min(3, number of candidates) entries in non-increasing RSI order, each at least as high as any entry left out. It and the rest of the ranking together are the candidates. |
| Ranking.Top3Empty | main.py:136-156 | The shortlist is empty when the panel is empty, the table is empty, or no panel row is overheated. |
| Ranking.EqualRsiKeepsPanelOrder | main.py:153 | With three overheated rows where the first and third have equal RSI above the second's, the shortlist lists them first, third, second. |
| Ranking.OverheatedTop3 | main.py:135-156 | The shortlist loop returns exactly the modelled shortlist. |
| Aggregation.ProcessDataForChart | main.py:107-182 | No rows give nothing. Otherwise the result is the panel, labels, datasets and shortlist of the deduplicated input. |
| Aggregation.ChartPanelFromInput | main.py:112-123 | Every panel row is one of the input rows. |
| Aggregation.ChartPanelOnePerCode | main.py:116-123 | Every input code has exactly one panel row. |
| Aggregation.ChartPanelIsLatest | main.py:116-120 | Each panel row is at the latest date any input row has for its code. |
| Aggregation.ChartLabels | main.py:159 | The chart labels are the distinct input dates, increasing. |
| Aggregation.ChartLines | main.py:167-181 | There is one chart line per table column. Its data has one forward-filled value per label. |
| Pipeline.CollectRows | main.py:432-438 | The collected list is the instruments' lists concatenated in order. Empty lists add nothing. |
| Pipeline.FetchAll | main.py:433-436 | The loop yields, in order, the series of each listed instrument. |
| Pipeline.FlattenSpec | main.py:435-438 | A row is collected exactly when it is in some instrument's list. Nothing is collected exactly when every list is empty. |
| Pipeline.CollectedRowsListed | main.py:82-92 | Every collected row carries the code and name of a universe instrument, and an RSI in [0, 100]. |
| Pipeline.Run | main.py:429-445 | There is nothing when no instrument gave rows. Otherwise the result is the aggregation of all collected rows. |
| Pipeline.PanelInUniverseOrder | main.py:120-123 | When every row belongs to the universe, the panel lists each code once, strictly in universe order. |
| Pipeline.RunPanelInUniverseOrder | main.py:429-445 | The panel of a run lists its instruments strictly in universe order. |
| Config.ParseConfigText | main.py:367-384 | The parsing loop returns exactly the settings of the modelled text. |
| Config.ConfigOfStep | main.py:373-382 | Each further line updates the settings built so far, and only through its own parse. |
| Config.StripSpec | main.py:374-380 | Stripping removes only leading and trailing whitespace, and what is left starts and ends with a non-space. |
| Config.StripIdempotent | main.py:374 | Stripping twice is stripping once. |
| Config.SplitLinesNoBreaks | main.py:373 | No line contains a line boundary. |
| Config.SplitJoinLines | main.py:373 | Splitting lines joined with "\n" gives the lines back. |
| Config.CrLfIsOneBoundary | main.py:373 | "\r\n" is one boundary, and a final boundary adds no empty line. |
| Config.ParseLineUsed | main.py:374-376 | A line is used exactly when it contains '='. |
| Config.ParseLineKey | main.py:378-380 | A parsed key contains no '=', and both key and value are stripped. |
| Config.ParseLineShape | main.py:374-380 | A used line is its key, '=' and its value, with only whitespace around each. The split is at the first '='. |
| Config.ParseLineRoundTrip | main.py:374-380 | Writing a stripped key without '=', then '=', then a stripped value parses back to that key and value. |
| Config.SpacedLine | main.py:374-380 | " A = 2 " parses to key "A" and value "2". |
| Config.ConfigOfLookup | main.py:373-384 | A key is set exactly when some line sets it. Its value is that of the last such line. |
| Config.ConfigKeys | main.py:378-382 | No stored key contains '='. |
| Config.LaterLineWins | main.py:382 | Two lines with the same key give that key the second line's value. |

## Left out

- Downloading the bars with yfinance is a function parameter, `fetch`. A failed download is `None`, so the exception handler (main.py:103-105) yields no rows.
- The daily bars' other columns (Open, High, Low, Dividends, Stock Splits) are not modelled. Bars are assumed to have no missing value in any column. `dropna` at main.py:79 checks every column of the frame, so a bar with a missing value in any of them would be dropped by the program but kept by the model.
- The thread pool of `main` is not modelled. The results are taken in submission order, which is exactly sequential order.
- Rounding of the emitted values (`round(…, 2)`, `round(…, 1)`, the chart's `round(2)`) is not modelled. The values are exact reals. This changes outcomes near the thresholds: the program classifies and ranks on the rounded RSI (1 decimal) and %B (2 decimals) at main.py:139-142 and 207-209. An exact RSI of 69.96 rounds to 70.0 and is overheated in the program, but it is normal in the model. A %B of 1.004 rounds to 1.0 and is not overheated in the program, but it is overheated in the model. The sort of the shortlist may also tie in the program where the model's exact values do not.
- `strftime` is not modelled. Dates are day numbers, and labels are those numbers.
- The square root is a parameter of the model, because the reals have no square root in Dafny.
- Division by zero giving an infinity (a zero close in the moving average, the base price or the previous close) is treated like NaN: the value is undefined. With positive closes no such value arises.
- Indicators.BandGuard: requires only that the supplied square root is non-negative and zero exactly at zero, not that it is the exact square root.
- `pivot` raises an error when two rows share a date and a sector name. The model does not raise; the cell takes the last such row instead.
- The sort by `sort_key` is modelled as stable. For codes inside the universe the keys are distinct, so stability does not matter there.
- The `sort_values('日付')` before `groupby('コード').tail(1)` is not modelled separately: its input is already sorted by date.
- The HTML page is not modelled: its layout, colours, the change sign and colour, the random chart id, and the "last update" line. Only the status rule of the panel cards is.
- The remote sync is not modelled: the HTTP request, base64 credentials and the endpoint configuration keys.
- Reading `os.environ` is not modelled. The configuration parser takes the raw text.
- The panel sort and the shortlist sort are modelled on values (a stable insertion sort on sequences), not as an in-place sort.
