# Blend savings sweep

A Dafny model of the savings calculator of a two-ingredient blend tool. The
user enters a table with one row per ingredient: its ratio in whole percent,
its cost per pound, and the maximum variance in percentage points. When the
ratios add up to 100, the calculator sweeps every whole-percent share of the
first ingredient (A) inside A's band `[max(0, ra - va), min(100, ra + va)]`.
B always takes the complement `100 - a`. A split is skipped when that
complement leaves B's own band. Otherwise the tool computes the split's
weighted cost and its percentage saving against the current blend's weighted
cost. It reports the splits with a strictly positive saving as two
index-aligned columns, ascending in A's share.

Files:

- `blend.dfy` (module `Blend`): the data model. It holds the ingredient rows,
  the blend, the feasible bands, the weighted costs and the saving, with
  lemmas about the saving's closed form and sign.
- `sweep.dfy` (module `Sweep`): the sweep. `Candidates` is the recursive
  specification over the integer range. `CalculateSavings` is the loop the
  application runs, proved equal to it.
- `properties.dfy` (module `SweepProperties`): lemmas relating several
  sweeps or inputs. The current split is never reported. Degenerate
  variances or costs report nothing. The reported set has a closed form.
  Exchanging the rows mirrors the result. The default blend gives a known
  result.
- `analysis.dfy` (module `Analysis`): the application's gate around the
  sweep. It checks the ratio sum and the equal length of the two result
  columns.

Ratios and variances are `int` in 0..100, which is what the table editor
enforces. Costs are `real`, with no sign constraint, because the editor sets
none. A negative current cost inverts the meaning of "saving": the sweep then
reports the splits that cost more than the current blend. Exactly two rows
are modelled. The blend itself is the datatype `Mix` in module `Blend`.

## Model

| member | source | states |
|---|---|---|
| Blend.Lower | main.py:12 | A's lowest share (and, at main.py:18, B's) is the larger of 0 and ratio minus variance: at least both, and equal to one of them |
| Blend.Upper | main.py:13 | A's highest share (and, at main.py:18, B's) is the smaller of 100 and ratio plus variance: at most both, and equal to one of them |
| Blend.RatiosSumTo100 | main.py:68 | the sum gate; a definition without an ensures |
| Blend.CurrentCost | main.py:15 | the current weighted cost `ra/100*ca + rb/100*cb`; a definition without an ensures |
| Blend.CandidateCost | main.py:17-20 | the weighted cost of split `x` / `100 - x`; a definition without an ensures |
| Blend.Saving | main.py:21 | the percentage saving `(cur - cost) / cur * 100`, defined only for a non-zero current cost; a definition without an ensures |
| Blend.BandOfWellFormed | main.py:12-13 | for a row inside the editor's 0..100 domain the band is a non-empty part of 0..100 containing the current ratio, and a zero variance collapses it to exactly the current ratio |
| Blend.CandidateCostBetweenUnitCosts | main.py:20 | a split's weighted cost always lies between the two unit costs |
| Blend.SavingClosedForm | main.py:15-21 | when the ratios sum to 100, the saving of split `x` equals `(x - ra) * (cb - ca) / current cost` |
| Blend.SavingPositiveIffCheaper | main.py:20-22 | with a positive current cost, a split has a positive saving exactly when it is strictly cheaper per pound than the current blend |
| Blend.NegativeCostInvertsSaving | main.py:21-22 | with a negative current cost, a split has a positive saving exactly when it is strictly dearer per pound than the current blend |
| Blend.SwapPreservesCosts | main.py:15-21 | exchanging the two rows keeps the current cost and gives the mirrored split `100 - x` the same weighted cost and saving as `x` |
| Sweep.Kept | main.py:18-22 | the per-share test of the loop: B's share in B's band and a strictly positive saving; a definition without an ensures |
| Sweep.SweptRatios | main.py:12-14 | the reported shares over A's whole band; a definition without an ensures |
| Sweep.Candidates | main.py:16-24 | the reported shares among `lo..hi` are strictly increasing, each lies in `lo..hi` with its complement in B's band and a positive saving, and every such share is reported |
| Sweep.SweptMembership | main.py:12-24 | a share is reported exactly when it is in A's band, its complement is in B's band, and its saving is strictly positive (both directions) |
| Sweep.SweptInBands | main.py:12-24 | every reported share lies in A's band, its complement lies in B's band, its saving is strictly positive, and the shares strictly increase |
| Sweep.CalculateSavings | main.py:9-25 | the loop returns exactly the reported shares of the specification, in strictly increasing order, with a savings column of the same length whose i-th entry is the saving of the i-th share |
| SweepProperties.CurrentSplitNeverReported | main.py:15-22 | under the sum gate the current ratio saves exactly 0 and is never reported |
| SweepProperties.ZeroVarianceReportsNothing | main.py:12-22 | if either variance is 0, the sweep reports nothing |
| SweepProperties.EqualCostsReportNothing | main.py:15-22 | if both ingredients cost the same, the sweep reports nothing, whatever the variances |
| SweepProperties.SavingSign | main.py:15-22 | with a positive current cost, a split saves exactly when the move away from the current ratio and the cost difference `cb - ca` have the same sign |
| SweepProperties.CheaperAReportsRaisedShares | main.py:12-24 | with a positive current cost and A cheaper, the reported shares are exactly the feasible shares above the current ratio |
| SweepProperties.CheaperBReportsLoweredShares | main.py:12-24 | with a positive current cost and B cheaper, the reported shares are exactly the feasible shares below the current ratio |
| SweepProperties.SwapMirrorsSweep | main.py:12-24 | exchanging the two rows yields the complements of the reported shares, in ascending order, each with the same saving |
| SweepProperties.DefaultBlendSweep | main.py:31-36 | for the default table (65%/35%, 0.12/0.39, variances 20/20) the current cost is 0.2145, the reported shares are exactly 66..85, and share 85 saves between 25.17% and 25.18% |
| Analysis.Analyze | main.py:68-78 | ratios not summing to 100 give `RatiosDoNotSumTo100` and nothing else does; a zero current cost under the sum gate gives `ZeroCurrentCost` and nothing else does; otherwise the table holds exactly the sweep's columns, which have equal length and positive savings and never contain the current ratio, so the length-mismatch error is never produced |

## Left out

- The table editor, number inputs, error messages and page layout (main.py:28-72, 136-140). These are presentation and I/O. Only the editor's 0..100 domain for ratios and variances is kept, as `WellFormed`.
- The plot, the colour bucketing and the colour map (main.py:86-130). These are presentation only. The plotted "current saving" point (main.py:125-128) is always 0, or a division by zero when the cost is 0. It is not part of the sweep.
- The B-share column built for the plot (main.py:82), and the filter and sort of the displayed table (main.py:133-134). These are pandas presentation steps. The filter keeps every row, since all savings are positive.
- The total-pounds and total-spend inputs (main.py:71-72). The computation never reads them.
- Ingredient names. The computation never reads them.
- Tables with more than two rows. Line 15 sums over every row but line 20 uses only the first two, so exactly two rows are modelled.
- Floating point. Costs and savings are exact `real` values, so IEEE rounding is not modelled. The sweep points come from `np.linspace` with integer endpoints and step 1, and are modelled as the integers of the band. `linspace` behaviour for non-integer bounds is not modelled.
- Analyze: when the current cost is 0, the source still divides by it. Inside the sweep the numerator is a numpy float, so main.py:21 gives infinities or NaN rather than an exception. The application then recomputes the current cost at main.py:125 from Python floats, because iterating a pandas Series yields Python scalars. So main.py:127 raises `ZeroDivisionError`, and no table is ever shown. The model stops with `ZeroCurrentCost` at that point and does not model the IEEE values. `CalculateSavings` itself requires a non-zero current cost.
- Idempotence of the calculation. Every Dafny function is deterministic, so this needs no separate statement.
