# Free-float weight page: model of the per-period aggregation

The page shows a company's major-shareholder tables period by period
(`settlement_term`). All of its logic is the derivation in `pages/index.js`
that turns the fetched shareholder records into:

- `grouped`: the records grouped by period, in input order;
- `terms`: the distinct periods, sorted;
- `summaryByTerm`: per period, the fixed-share ratio `round6(major / issued)`,
  its complement `floatRatioRaw`, and the free-float weight `ffwRatio`,
  which is `floatRatioRaw` rounded up to a multiple of 0.05. `issued` is the
  share count of code 52 and `major` that of code 54. A summary exists only
  when both counts are truthy;
- `bins`: the twenty classification bins 0.05 … 1.00 that the loop's bounds
  describe. A period's cell in a bin's row is marked when its weight equals
  the bin;
- `ranksToShow` / `aggrToShow`: the rank codes 1..35 and aggregate codes
  50..61 that have a named record in some period. Aggregate rows carry a fixed
  English label, falling back to the code in decimal.

The model is written in Dafny and takes the fetched record list as a
parameter. It has one module per concern:

| file | module | models |
|---|---|---|
| rows.dfy | `Rows` | the record datatype, JavaScript truthiness, `find` |
| ratios.dfy | `Ratios` | `Math.round`, `Math.ceil`, `round6`, `ceilStep` in exact integers |
| grouping.dfy | `Grouping` | `grouped`, `terms`, the sort order |
| summaries.dfy | `Summaries` | the summary gate and ratios, `bins`, bin marking |
| labels.dfy | `Labels` | `AGGREGATE_LABELS` and the decimal fallback |
| selection.dfy | `Selection` | `rankData`/`ranksToShow`, `aggrData`/`aggrToShow`, the table cells |
| home.dfy | `Home` | the whole derivation |

**Exact arithmetic is an idealisation.** The page computes with IEEE-754
doubles. The model holds every ratio as an exact integer in parts per million
(ppm): 1.0 is 1 000 000 and the step 0.05 is 50 000. Then
`fixed = round(major · 10⁶ / issued)` with halves going up, as `Math.round`
does; `float = 10⁶ − fixed`; and the weight is `ceil(float / 50 000)` steps of
50 000. `round6` of an exact six-decimal value is the value itself, and the
model proves this rather than assuming it. Negative and zero share counts need
no precondition: `Math.round` is `floor(x + 1/2)` and `Math.ceil` is
`−floor(−x)`, both modelled with Dafny's floor division by a positive divisor.
A negative `issued` flips both signs of the quotient.

Periods are ordered lexicographically by character code, with a proper prefix
first. This is JavaScript's default `sort` order for strings that contain no
characters outside the Basic Multilingual Plane.

The JavaScript takes the first record found (`find`) and does not rely on the
table's key. The model does the same. The lemmas that restate the page in
terms of the raw records (`SummaryGate`, `SummaryCounts`, `CellOfRows`,
`ShownOfRows`, `ShownOfAllCodes`, `FindInGroup`) assume the table's key: each (period, code)
pair occurs at most once.

## Model

| member | source | states |
|---|---|---|
| Rows.Find | pages/index.js:51-52 | the result is None exactly when no row carries the code; whenever position k is the first to carry the code, the result is the row at k |
| Rows.SharesOf | pages/index.js:51-52 | the looked-up count is the `shares` of the first row carrying the code, and null when no row carries it |
| Ratios.RoundHalfUp | pages/index.js:19-21 | the result r satisfies r − 1/2 ≤ n/d < r + 1/2: nearest integer, halves up (`Math.round`) |
| Ratios.RoundsToUnique | pages/index.js:19-21 | at most one integer satisfies the half-up rounding condition, so the rounding is well defined |
| Ratios.RoundWhole | pages/index.js:55 | rounding a value that already has six decimals leaves it unchanged |
| Ratios.Round6 | pages/index.js:19-21 | `round6(n/d)` in ppm is the half-up rounding of n·10⁶/d, for either sign of d |
| Ratios.CeilDiv | pages/index.js:23-25 | the result k satisfies d·(k−1) < n ≤ d·k (`Math.ceil(n/d)`) |
| Ratios.CeilDivLeast | pages/index.js:23-25 | every k with n ≤ d·k is at least the ceiling: the ceiling is the least such count |
| Ratios.FixedPpm | pages/index.js:54 | `fixedRatio` is major·10⁶/issued rounded half-up, for positive and negative issued |
| Ratios.FloatPpm | pages/index.js:55 | `floatRatioRaw` and `fixedRatio` sum to exactly 1 |
| Ratios.FfwSteps | pages/index.js:56 | the weight in steps is the ceiling of float / 0.05 |
| Ratios.FfwPpm | pages/index.js:22-25 | the weight is a multiple of 0.05, not below `floatRatioRaw` and less than 0.05 above it |
| Ratios.FfwLeast | pages/index.js:56 | no multiple of 0.05 that covers `floatRatioRaw` is below the weight: it is the smallest such multiple |
| Ratios.FfwOfMultiple | pages/index.js:22-25 | an exact multiple k·0.05 is its own weight (k steps) |
| Grouping.Filter | pages/index.js:39-43 | a group holds every copy of each row of its period and no row of another period |
| Grouping.PushRow | pages/index.js:40-43 | pushing the next row onto its period's list, creating the list on first sight, keeps every list equal to the filter of the longer input |
| Grouping.Group | pages/index.js:39-43 | the keys are exactly the periods in the input, and each group equals the order-preserving filter of the input by its period |
| Grouping.GroupPartition | pages/index.js:39-43 | each row lands, with all its copies, in its own period's group, and a group holds only rows of its period |
| Grouping.LessIsLexicographic | pages/index.js:45 | the string order holds exactly when, after a common prefix, the first string ends while the second goes on, or has the smaller next character |
| Grouping.LessIrreflexive | pages/index.js:45 | no string precedes itself |
| Grouping.LessTotal | pages/index.js:45 | the string order is total: two different strings are ordered one way or the other |
| Grouping.LessTransitive | pages/index.js:45 | the string order is transitive |
| Grouping.Insert | pages/index.js:45 | insertion keeps a list strictly sorted and adds exactly the new element |
| Grouping.Terms | pages/index.js:45 | `terms` is strictly increasing, hence duplicate-free, and holds exactly the periods of the input |
| Grouping.SortedUnique | pages/index.js:45 | two strictly sorted lists with the same elements are equal, so `terms` is the only sorted arrangement of the keys |
| Grouping.TermsAreGroupKeys | pages/index.js:39-45 | `terms` holds exactly the keys of `grouped`, each once |
| Grouping.FindInGroup | pages/index.js:51-52 | searching a period's group for a code finds the input row with that period and code, and finds nothing exactly when there is none |
| Summaries.Summarize | pages/index.js:54-63 | the summary keeps both counts; fixed is the rounded quotient; fixed + float = 1; the weight is the least multiple of 0.05 covering float |
| Summaries.Counts | pages/index.js:51-53 | the gate passes iff there are a first code-52 row and a first code-54 row and both have non-null, non-zero shares; the counts returned are exactly those two rows' shares (issued, major) |
| Summaries.SummaryOf | pages/index.js:50-65 | a summary exists exactly when the gate passes; it carries the gate's two counts (issued non-zero) and is exactly `Summarize` of them: fixed rounded half-up, fixed + float = 1, weight the least covering multiple of 0.05 |
| Summaries.SummaryGate | pages/index.js:51-53 | on the raw rows: the gate passes iff the period has a code-52 and a code-54 row, both with non-null, non-zero shares |
| Summaries.SummaryCounts | pages/index.js:51-52 | on the raw rows: past the gate, the counts used are those of the period's code-52 and code-54 rows |
| Summaries.SummaryRange | pages/index.js:54-56 | for 0 < major ≤ issued, fixed is in [0, 1] and the weight in [0, 1.00]; for major > issued, the float and the weight are at most 0 |
| Summaries.SummaryExamples | pages/index.js:19-25 | 600000/1000000 gives 0.6, 0.4, 0.40; 551000/1000000 gives 0.551, 0.449, 0.45; round6(1/3) = 0.333333 |
| Summaries.BuildBins | pages/index.js:68-71 | the loop yields exactly 20 bins, the i-th (from 0) being (i+1)·0.05 |
| Summaries.MarksBin | pages/index.js:150-154 | a period marks bin k·0.05 iff its weight is k steps |
| Summaries.MarksOneBin | pages/index.js:147-157 | a summarised period marks some bin iff its weight is in (0, 1.00], and never more than one bin |
| Labels.Digits | pages/index.js:203 | the digit string of a natural number is non-empty, all digits, and has no leading zero: it starts with '0' only when it is "0" |
| Labels.DigitsCanonical | pages/index.js:203 | every non-empty digit string without a leading zero is the rendering of its own value |
| Labels.Decimal | pages/index.js:203 | the decimal string of an integer is in canonical form (optional minus, digits, no leading zero, no "-0"), starts with a minus sign exactly for negatives, and reads back as the integer |
| Labels.DecimalCanonical | pages/index.js:203 | every canonical decimal string is the rendering of the integer it denotes, so the canonical string of a value is unique and `Decimal`'s contract determines it |
| Labels.Label | pages/index.js:203 | a code in the label table gets its fixed name; any other code gets the canonical decimal string of the code |
| Labels.AggregateLabelsCover | pages/index.js:3-16 | the label table has an entry exactly for the codes 50..61, and every name is non-empty |
| Labels.LabelCases | pages/index.js:3-16 | codes 50..61 all get their fixed name; any other code falls back to the canonical decimal string of the code |
| Selection.NamedEntry | pages/index.js:78-79 | a period has an entry iff the first row of its group carrying the code has a non-empty name, and the entry is that row |
| Selection.Cell | pages/index.js:78-79 | a cell is non-empty iff the period has a group whose first row with the code is named; the cell then holds exactly that first row |
| Selection.CodeData | pages/index.js:74-81 | `rankData[i]` has a key exactly for each listed period whose cell is non-empty; each entry is the named first row with code i of that period's group |
| Selection.Shown | pages/index.js:82-84 | a code's row is shown iff some listed period's group has, at its first row with the code, a named row |
| Selection.SelectCodes | pages/index.js:82-84 | a code in lo..hi is listed iff it passes the filter, and the list is strictly ascending |
| Selection.CodesToShow | pages/index.js:82-84 | a code in lo..hi is listed iff its row has a non-empty cell, and the list is strictly ascending |
| Selection.RanksToShow | pages/index.js:73-84 | `ranksToShow` holds exactly the ranks 1..35 with a non-empty cell, ascending |
| Selection.AggregatesToShow | pages/index.js:86-97 | `aggrToShow` holds exactly the codes 50..61 with a non-empty cell, ascending |
| Selection.CellOfRows | pages/index.js:77-80 | on the raw rows: the entry of (period, code) is a row r iff r is the input row with that period and code and is named; otherwise the cell renders "-" |
| Selection.ShownOfRows | pages/index.js:73-84 | on the raw rows: some period has a non-empty cell for a code iff some input row has that code and a non-empty name |
| Selection.ShownOfAllCodes | pages/index.js:73-97 | on the raw rows, for every code at once: the row is shown iff some input row has that code and a non-empty name |
| Home.SummaryByTerm | pages/index.js:49-65 | every listed period whose gate passes has an entry and no other period has one; the entry carries the gate's two counts and is exactly `Summarize` of them |
| Home.Build | pages/index.js:38-97 | the derived page state: partition, sorted terms, the summary map, 20 bins, the shown ranks and aggregates in ascending order; with unique keys, a rank or aggregate code is shown iff some input row has that code and a name |

## Left out

- `pages/api/major_shareholders.js` is not part of this model. It opens the
  SQLite file and runs one parameterised query. The model accepts any record
  list and does not need the query's range filter or its ordering.
- The `fetch`, `useEffect` and `useState` plumbing (pages/index.js:28-36) is
  I/O and UI state. The fetched list is a parameter of `Home.Build`.
- JSX rendering and display formatting (pages/index.js:99-224) are left out:
  `toFixed(2)`, the "株" and "%" suffixes, and the `pct` column. The bin test of
  line 153 and the label fallback of line 203 are modelled.
- IEEE-754 doubles are not modelled; every ratio is exact. The page diverges
  from the model in at least these ways:
  - in doubles, the running sum of `f += 0.05` at line 69 reaches
    1.0000000000000002 on its twentieth value, which fails `f <= 1.00`, so the
    page's list stops at 0.95. `Summaries.BuildBins` builds the twenty bins
    0.05 … 1.00 that the loop's bounds describe;
  - `ceilStep` multiplies `Math.ceil(x / 0.05)` by 0.05. For several step
    counts (3, 6, 7, 12, 14, 17, 19) the double product differs from the
    `toFixed(2)` bin value, so `ffw === bin` can fail where the model marks
    the bin;
  - for every `floatRatioRaw` in 0 … 1.00 (a six-decimal value), the double
    `Math.ceil(x / 0.05)` equals the exact ceiling. Only some negative values
    round differently: −0.15 / 0.05 gives a ceiling of −2, not −3. A negative
    weight marks no bin either way.
- Labels.Decimal: renders every integer in plain digits. JavaScript switches
  to exponent form (`1e+21`) from 10²¹ on; only codes 50..61 reach the label.
- NaN and non-numeric share values are not modelled. Shares are integers or
  null.
- Rows.Find, Summaries.Counts and Selection.NamedEntry: the "first row found"
  behaviour is modelled exactly. The lemmas that restate it on the raw input
  assume the table's (period, code) key is unique, as the table promises.
- Grouping.Group: a period label that names an `Object.prototype` member
  (`constructor`, `toString`, `__proto__`, …) makes the page's `push` at
  pages/index.js:39-42 throw a `TypeError`. The model assumes labels are
  never such names and groups every label alike.
- Grouping.Terms: orders strings by Unicode code point. JavaScript compares
  UTF-16 code units, which differs only for characters outside the Basic
  Multilingual Plane.
