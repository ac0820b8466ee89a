# Immunization-expenditure pipeline: a verified model of its core stages

This project models, in Dafny, the four table-transformation stages at the core of
the immunization-expenditure analytics scripts, and proves what each stage does.

- **Gold output builder** (`scripts/whdh_gold_data.py`, modules `GoldData`, `GoldMaps`):
  - filters the MT_AD_IA2030 coverage rows to TEV/TERI and renames and projects them;
  - filters the surviving-infant population rows and left-joins them onto coverage;
  - derives spending per infant, substitutes region and income labels, rounds to 3 places;
  - pivots per (country, year) and vaccine with NaN-skipping means;
  - joins the dimensions, drops zero-spending rows and left-joins the two GNI tables;
  - builds two nested dictionaries of rounded mean TEV: region → year, and country → year
    pre-seeded with NaN for 2018–2023, one fresh copy per country.
- **Fiscal derivations** (`scripts/imf_weo_required_columns.py`, modules `RequiredColumns`, `Fill`, `Rows`):
  - expenditure less interest payments, and that amount per head;
  - the base-2023 index relative to each country's first kept row;
  - the 2024-anchored deflator and implied exchange-rate propagation (per-country forward fill, then an
    ungrouped backward fill, written as in-place array scans);
  - the DTP1 zero-dose count;
  - the two outer merges on (country_code, year).
- **WEO reshaper** (`scripts/imf_weo_csv_parquet.py`, modules `WeoSheet`, `WeoReshape`):
  - a column-oriented text sheet renamed and cleaned in place;
  - rows with an empty country code removed, columns dropped, cells cleaned;
  - melted to long form, merged with the estimate table, flagged and unflagged;
  - pivoted to the mean per (country_code, year, subject), then sorted.
- **Paginated extraction** (`scripts/xmart_parquet.py`, module `XmartExtraction`): for each year
  2018–2025 and each of five tables, a `while not stop` loop requests OData pages with `$top`, `$skip` and
  `$filter=YEAR in (…)` (section 5.1 of OData Version 4.01 Part 2: URL Conventions). It concatenates
  pages until one is empty and saves the result when anything was fetched.
  A non-200 status aborts the run.

Shared modules:
- `Cells`: a cell is `Missing` (NaN), a finite real, or a signed infinity. Arithmetic follows IEEE
  semantics on exact reals, rounding is half-even, and `Mean` skips NaN.
- `Keys`: (name, year) keys ordered lexicographically, plus sorting.
- `Frames`: filter, left, inner and mapped joins over sequences.
- `Grouping`: group-by means.
- `Decimal`: decimal text of natural numbers, and numeric parsing.
- `Rows`: wide rows keyed by (country_code, year), column assignment, outer merge.

Behaviours of the code that the model keeps as written:
- The country dictionary is seeded with NaN for 2018–2023 (`scripts/whdh_gold_data.py:150-152`, where a
  comment at line 151 marks the range as one to make flexible). The assignment at line 160 also inserts years
  outside that range, so a country's dictionary can hold more than six years.
- Each country gets its own copy of the seed dictionary (line 158; the comment at line 159 says why), so no
  two countries share one.
- `groupby("country_code")[col].ffill().bfill()` (`scripts/imf_weo_required_columns.py:38, 52`) fills forward
  within each country, but the `bfill` applies to the whole column. A country with no 2024 value therefore
  takes the 2024 value of the next country further down the frame.
- The base-2023 index divides by `x.iloc[0]` (`scripts/imf_weo_required_columns.py:16-18`), the country's
  first kept row in frame order. Nothing sorts the frame by year first.
- The float64 divisions (`scripts/whdh_gold_data.py:91-93`, `scripts/imf_weo_required_columns.py:18, 47`)
  give an infinity for `x / 0`, and so does the model.
- The deflator division at `scripts/imf_weo_required_columns.py:39` can fail.
  - At lines 34-37, `df.apply` returns `pd.NA` on every row whose year is not 2024. If any such row
    exists, the column it builds has object dtype. If every row is a 2024 row, the column is float64.
  - `future.no_silent_downcasting` (line 111) keeps an object column object through the fills at line 38.
    Those fills turn the cells left unfilled into a float NaN, so every cell is then a Python float.
  - On an object column, a single zero NGDP_D anywhere makes line 39 raise ZeroDivisionError, whatever
    the numerator on that row. On a float64 column, the division is numpy's: 0/0 gives NaN, and nothing
    raises.
  - The model reports the failure as `DeflatorDivisionFails`. The step fails, and the whole stage with it.

## Model

| member | source | states |
|---|---|---|
| Cells.Add | scripts/imf_weo_required_columns.py:8-10 | NaN in, or opposite infinities, give NaN; finite operands add exactly |
| Cells.Sub | scripts/imf_weo_required_columns.py:8-10 | NaN in, or equal infinities, give NaN; finite operands subtract exactly |
| Cells.Mul | scripts/imf_weo_required_columns.py:11-13 | NaN in, or zero times an infinity, give NaN; finite operands multiply exactly |
| Cells.Div | scripts/imf_weo_required_columns.py:39 | NaN exactly for NaN in, inf/inf and 0/0; infinite exactly for inf/finite and nonzero/0; otherwise the exact quotient |
| Cells.DivSelf | scripts/imf_weo_required_columns.py:39 | a finite nonzero value divided by itself is 1 |
| Cells.RoundHalfEvenProperties | scripts/whdh_gold_data.py:37 | `round(x, d)` is on the 10^-d grid and within half a grid step of x |
| Cells.RoundHalfEvenOnGrid | scripts/whdh_gold_data.py:37 | a value already on the grid is unchanged by rounding |
| Cells.RoundHalfEvenIdempotent | scripts/whdh_gold_data.py:37 | rounding twice is rounding once |
| Cells.RoundHalfEvenMonotone | scripts/whdh_gold_data.py:37 | rounding preserves order |
| Cells.RoundCell | scripts/whdh_gold_data.py:97 | `.round(d)` of a cell: NaN iff NaN, infinities unchanged, a finite value goes to the nearest grid point |
| Cells.RoundCellOnGrid | scripts/imf_weo_required_columns.py:94-97 | a finite cell on the grid is unchanged by `round` |
| Cells.MeanMissingIff | scripts/whdh_gold_data.py:129-133 | the NaN-skipping mean is NaN iff every cell is NaN or both infinities occur |
| Cells.MeanIgnoresMissing | scripts/whdh_gold_data.py:129-133 | inserting a NaN anywhere leaves the mean unchanged |
| Cells.MeanBetween | scripts/imf_weo_csv_parquet.py:80-86 | the mean of finite values with at least one present lies between their bounds |
| Decimal.ShowNat | scripts/imf_weo_csv_parquet.py:27 | `str(n)`: a non-empty digit string with no leading zero |
| Decimal.ParseShowNat | scripts/imf_weo_csv_parquet.py:27 | parsing the printed number returns it |
| Decimal.ShowNatInjective | scripts/xmart_parquet.py:42 | distinct numbers print differently |
| Decimal.ParseNumShowNat | scripts/imf_weo_csv_parquet.py:55-57 | numeric coercion of a year column's name yields that year |
| Decimal.DecimalValueBetween | scripts/imf_weo_csv_parquet.py:47 | the value of `whole.frac` lies between `whole` and `whole + 1` |
| Decimal.DigitsBelowPow10 | scripts/imf_weo_csv_parquet.py:47 | n digits are worth less than 10^n |
| Decimal.StripCommas | scripts/imf_weo_csv_parquet.py:46 | `replace(",", "")`: no comma is left, and text without commas is unchanged |
| Decimal.StripCommasKeeps | scripts/imf_weo_csv_parquet.py:46 | comma removal distributes over a comma-free suffix |
| Keys.KeyLtTransitive | scripts/imf_weo_csv_parquet.py:87 | the (country_code, year) order is transitive |
| Keys.KeyLtTotal | scripts/imf_weo_csv_parquet.py:87 | any two different keys are ordered one way or the other |
| Keys.SortKeys | scripts/whdh_gold_data.py:129-133 | the sorted group keys are strictly ascending and are exactly the keys present |
| Keys.SortedUnique | scripts/whdh_gold_data.py:129-133 | two strictly sorted key lists with the same members are equal |
| Keys.Insert | scripts/imf_weo_csv_parquet.py:87 | inserting a key into a strictly sorted list keeps it strictly sorted and adds exactly that key |
| Frames.Keep | scripts/whdh_gold_data.py:44-46 | a boolean-mask filter keeps exactly the rows satisfying the mask, and never adds rows |
| Frames.LeftJoinMembers | scripts/whdh_gold_data.py:88-90 | a left-merge row pairs a left row with a matching right row, or with none when nothing matches |
| Frames.LeftJoinOneToOne | scripts/whdh_gold_data.py:88-90 | with at most one match per left row the left merge keeps the left row count and order |
| Frames.InnerJoinMembers | scripts/whdh_gold_data.py:109 | an inner-merge row is exactly a combined pair of matching rows |
| Grouping.GroupMeans | scripts/whdh_gold_data.py:129-133 | `groupby(...).mean()`: keys strictly ascending, exactly the keys present, each value the NaN-skipping mean of its group |
| Grouping.GroupMeansLookup | scripts/whdh_gold_data.py:135-138 | the last series entry for a key is its group mean, and there is none for absent keys |
| Grouping.GroupMeansNames | scripts/whdh_gold_data.py:144-148 | the names in a group-by series are the names of the rows' keys |
| Grouping.LastValueDistinct | scripts/whdh_gold_data.py:155-160 | in a series with distinct keys, repeated dict assignment leaves each entry's own value |
| Rows.AssignedColumns | scripts/imf_weo_required_columns.py:8-13 | `df[c] = vs` reads back vs in column c and leaves every other column, code and year unchanged |
| Rows.Frame.constructor | scripts/imf_weo_required_columns.py:113 | a frame holding the loaded rows |
| Rows.Frame.Assign | scripts/imf_weo_required_columns.py:8-13 | the frame's rows become the input rows with column c assigned |
| Rows.Project | scripts/imf_weo_required_columns.py:20 | selecting columns keeps keys and the selected cells, and no other column |
| Rows.Widen | scripts/imf_weo_required_columns.py:121 | a merged row reads the right row's cell where the right row has the column, the left row's otherwise |
| Rows.CrossMembers | scripts/imf_weo_required_columns.py:121 | the rows for a key both sides share are exactly the widened pairs |
| Rows.OuterJoin | scripts/imf_weo_required_columns.py:121-122 | the outer merge on (country_code, year), as stated by OuterJoinGroup, OuterJoinKeys, OuterJoinOneSided and OuterJoinColumns |
| Rows.OuterJoinGroup | scripts/imf_weo_required_columns.py:121-122 | the outer merge's rows of key k are the merged rows of k if either side has k, none otherwise |
| Rows.OuterJoinKeys | scripts/imf_weo_required_columns.py:121-122 | the outer merge's keys are the union of both sides' keys |
| Rows.OuterJoinOneSided | scripts/imf_weo_required_columns.py:121-122 | a key on one side only gets exactly that side's rows |
| Rows.OuterJoinOneSidedRow | scripts/imf_weo_required_columns.py:121-122 | a merged row whose key one side lacks is a row of the other side |
| Rows.OuterJoinColumns | scripts/imf_weo_required_columns.py:121-122 | the outer merge introduces no column absent from both sides |
| Fill.GroupFfill | scripts/imf_weo_required_columns.py:38 | the grouped forward fill keeps the length, as stated in full by GroupFfillMeaning |
| Fill.Bfill | scripts/imf_weo_required_columns.py:38-52 | the backward fill keeps the length, as stated in full by BfillMeaning |
| Fill.GroupFfillMeaning | scripts/imf_weo_required_columns.py:38 | the grouped forward fill keeps present cells and fills a NaN with the latest present cell of its group, NaN iff there is none |
| Fill.BfillMeaning | scripts/imf_weo_required_columns.py:38 | the backward fill keeps present cells and is NaN iff every later cell is NaN |
| Fill.GroupForwardFill | scripts/imf_weo_required_columns.py:38 | the in-place scan leaves the array equal to the grouped forward fill of its old contents |
| Fill.BackFill | scripts/imf_weo_required_columns.py:52 | the in-place right-to-left scan leaves the array equal to the backward fill of its old contents |
| Fill.AtYear | scripts/imf_weo_required_columns.py:34-37 | the anchor-year rows keep their value and every other row is NaN |
| Fill.PropagatedAtAnchor | scripts/imf_weo_required_columns.py:34-38 | an anchor-year row keeps its own present value through both fills |
| Fill.FfillAroundAnchor | scripts/imf_weo_required_columns.py:38 | on a sorted frame, the forward-filled anchor column has a country's anchor value from its anchor row on, NaN before it |
| Fill.AnchorPropagates | scripts/imf_weo_required_columns.py:34-38 | on a sorted frame, every row of a country with a present 2024 value carries that value |
| Fill.NoAnchorTakesNext | scripts/imf_weo_required_columns.py:34-38 | a row of a country without a present 2024 value takes the next present anchor value further down the frame |
| Fill.NotFilledBeforeNextAnchor | scripts/imf_weo_required_columns.py:38 | for such a country, the forward fill leaves the anchor column NaN from that row up to the next present anchor value |
| Fill.NextAnchorIsLater | scripts/imf_weo_required_columns.py:38 | the value an anchorless country receives is another, later country's 2024 value, or NaN if there is none |
| RequiredColumns.MinusInterestMeaning | scripts/imf_weo_required_columns.py:8-10 | GGX_NGDP − (GGXONLB_NGDP − GGXCNL_NGDP) on finite inputs; NaN if any input is NaN |
| RequiredColumns.PerCapitaMeaning | scripts/imf_weo_required_columns.py:11-13 | share / 100 × per-head value on finite inputs; NaN if either is NaN |
| RequiredColumns.LcuIndex | scripts/imf_weo_required_columns.py:5-20 | the caller's frame gains the two amount columns; the result is the index table of the old rows |
| RequiredColumns.FirstOfIsFirst | scripts/imf_weo_required_columns.py:16-18 | a country's `x.iloc[0]` is the value of its first row |
| RequiredColumns.IndexAnchor | scripts/imf_weo_required_columns.py:16-18 | a country's first row has index exactly 100 when its value is finite and nonzero |
| RequiredColumns.IndexIgnoresOtherCountries | scripts/imf_weo_required_columns.py:16-18 | removing another country's row leaves a row's index unchanged |
| RequiredColumns.LcuWindow | scripts/imf_weo_required_columns.py:15 | the kept frame has the rows of year ≥ 2023 with their keys and amounts |
| RequiredColumns.LcuTable | scripts/imf_weo_required_columns.py:15-20 | the index table, as stated by LcuTableMeaning, IndexAnchor and IndexIgnoresOtherCountries |
| RequiredColumns.LcuTableMeaning | scripts/imf_weo_required_columns.py:15-20 | the table has exactly the year ≥ 2023 rows, only the index column, and the 100 × amount / first-amount values |
| RequiredColumns.RebaseInPlace | scripts/imf_weo_required_columns.py:34-38 | the frame's rows become the rows with the filled anchor-year column written |
| RequiredColumns.ConstantUsdRebased | scripts/imf_weo_required_columns.py:23-66 | fails exactly when some row is not a 2024 row (the rebase column is object) and some NGDP_D is 0, leaving the frame as it was before line 39; otherwise the caller's frame gains the eight derived columns and the result is the constant-dollar table of the old rows |
| RequiredColumns.DeflatorFrameColumns | scripts/imf_weo_required_columns.py:25-38 | just before line 39 the frame holds the propagated rebase column beside the untouched NGDP_D column, with the same keys |
| RequiredColumns.ZeroDeflatorFails | scripts/imf_weo_required_columns.py:34-39 | one row that is not a 2024 row and one zero NGDP_D, on any rows, make the step fail |
| RequiredColumns.AnchorYearFrameDoesNotFail | scripts/imf_weo_required_columns.py:34-39 | a frame of 2024 rows only keeps a float64 column and never fails, even with a zero NGDP_D |
| RequiredColumns.NonZeroDeflatorsDoNotFail | scripts/imf_weo_required_columns.py:39 | with no zero NGDP_D the step never fails |
| RequiredColumns.LcuKeepsDeflator | scripts/imf_weo_required_columns.py:115-118 | the index step's mutation of the shared frame cannot change whether the deflator division fails |
| RequiredColumns.RebasedColumns | scripts/imf_weo_required_columns.py:34-38 | the rebase column holds the propagated anchor-year values, and nothing else changes |
| RequiredColumns.UsdFrame | scripts/imf_weo_required_columns.py:25-58 | the frame with the eight derived columns when the deflator division does not fail, as stated by UsdFrameColumns and RebasedColumns |
| RequiredColumns.UsdTable | scripts/imf_weo_required_columns.py:60-66 | the constant-dollar table, as stated by UsdTableRows, UsdReadsInputs and ConstantUsdAtAnchor |
| RequiredColumns.UsdFrameColumns | scripts/imf_weo_required_columns.py:25-58 | each derived column in terms of the inputs: rebased deflator, coefficient, rebased FX, and amount × coefficient × FX |
| RequiredColumns.CoefficientAtAnchor | scripts/imf_weo_required_columns.py:39 | on a 2024 row with a nonzero deflator the coefficient is 1 |
| RequiredColumns.ConstantUsdAtAnchor | scripts/imf_weo_required_columns.py:42-58 | on a 2024 row with nonzero NGDPPC and deflator the result is (GGX_MinusInterestPayments_NGDP / 100) × NGDPDPC |
| RequiredColumns.UsdReadsInputs | scripts/imf_weo_required_columns.py:23-66 | the constant-dollar table depends only on the keys and six input columns |
| RequiredColumns.UsdIgnoresLcu | scripts/imf_weo_required_columns.py:115-118 | the index step's mutation of the shared frame does not change the constant-dollar table |
| RequiredColumns.UsdTableRows | scripts/imf_weo_required_columns.py:60-66 | one row per input row, same keys, only the constant-dollar column |
| RequiredColumns.ZeroDose | scripts/imf_weo_required_columns.py:94-97 | `round((100 − P) / 100 × T, 0)`, as stated by ZeroDoseBound, ZeroDoseExact, ZeroDoseFullCoverage and ZeroDoseNoCoverage |
| RequiredColumns.ZeroDoseTable | scripts/imf_weo_required_columns.py:86-105 | the zero-dose table, as stated by ZeroDoseTableMeaning |
| RequiredColumns.CyIe | scripts/imf_weo_required_columns.py:121-122 | the two outer merges, as stated by CyIeKeys, CyIeWeoOnly and CyIeCoverageOnly |
| RequiredColumns.ZeroDoseFullCoverage | scripts/imf_weo_required_columns.py:94-97 | coverage 100 gives zero-dose 0 |
| RequiredColumns.ZeroDoseNoCoverage | scripts/imf_weo_required_columns.py:94-97 | coverage 0 gives the whole target number, when it is whole |
| RequiredColumns.ZeroDoseExact | scripts/imf_weo_required_columns.py:94-97 | a whole unrounded count is returned unchanged |
| RequiredColumns.UnvaccinatedOf | scripts/imf_weo_required_columns.py:95 | the unrounded count is (100 − P) / 100 × T for finite inputs |
| RequiredColumns.ZeroDoseBound | scripts/imf_weo_required_columns.py:94-97 | NaN in gives NaN; finite inputs give a whole number within ½ of (100 − P) / 100 × T |
| RequiredColumns.ZeroDoseTableMeaning | scripts/imf_weo_required_columns.py:86-105 | the table rows are exactly the renamed 2022 DTPCV1 WUENIC rows with their zero-dose count |
| RequiredColumns.RequiredColumnsStage | scripts/imf_weo_required_columns.py:110-122 | fails exactly when the deflator division fails on the WEO frame; otherwise both steps on one shared frame, then the two outer merges, give `CyIe` |
| RequiredColumns.WeoMergeKeys | scripts/imf_weo_required_columns.py:121 | the first merge's keys are exactly the WEO keys |
| RequiredColumns.CyIeKeys | scripts/imf_weo_required_columns.py:121-122 | the final keys are the union of the WEO keys and the zero-dose keys |
| RequiredColumns.WeoMergeColumns | scripts/imf_weo_required_columns.py:121 | the first merge holds only the index and constant-dollar columns |
| RequiredColumns.MergedWeoOnly | scripts/imf_weo_required_columns.py:122 | a merged row whose key the zero-dose table lacks reads NaN in its three columns |
| RequiredColumns.CyIeWeoOnly | scripts/imf_weo_required_columns.py:121-122 | a country-year without a zero-dose row has TARGETNUMBER, DTPCV1 and zerodose NaN |
| RequiredColumns.MergedCoverageOnly | scripts/imf_weo_required_columns.py:122 | a merged row whose key the first table lacks reads NaN in the index and constant-dollar columns |
| RequiredColumns.CyIeCoverageOnly | scripts/imf_weo_required_columns.py:121-122 | a country-year without a WEO row has the index and constant-dollar columns NaN |
| GoldData.Canonical | scripts/whdh_gold_data.py:47-69 | each canonical column is the renamed source column |
| GoldData.SelectCoverage | scripts/whdh_gold_data.py:43-70 | the TEV/TERI rows, in input order, each renamed and projected, and nothing else |
| GoldData.SelectPopulation | scripts/whdh_gold_data.py:72-87 | the UNPD2022, BOTH, after-2010, SURVIVING_INFANT rows, in input order, each projected, and nothing else |
| GoldData.JoinPopulation | scripts/whdh_gold_data.py:88-93 | the left merge on (country_code, year) with spending per infant, as stated by JoinPopulationKeepsCoverage and JoinPopulationOneToOne |
| GoldData.WithInfants | scripts/whdh_gold_data.py:91-93 | spending per infant is expenditure / infant; with no population match both are NaN; vaccine, year and expenditure are carried over |
| GoldData.JoinPopulationKeepsCoverage | scripts/whdh_gold_data.py:88-93 | every coverage row survives the left merge: with each matching population row, or once with NaN infants |
| GoldData.JoinPopulationOneToOne | scripts/whdh_gold_data.py:88-90 | with at most one population row per country-year the merge keeps row count and expenditures |
| GoldData.Relabel | scripts/whdh_gold_data.py:96 | a cell equal to an `update_names` key becomes its label; any other cell is unchanged |
| GoldData.RelabelIdempotent | scripts/whdh_gold_data.py:178-195 | no label is a key, so relabelling twice is relabelling once |
| GoldData.Tidy | scripts/whdh_gold_data.py:94-98 | every text cell relabelled, every number rounded to 3 places, the year kept |
| GoldData.TidyIdempotent | scripts/whdh_gold_data.py:94-98 | tidying twice is tidying once |
| GoldData.RoundCellIdempotent | scripts/whdh_gold_data.py:97 | `.round(3)` twice is `.round(3)` once |
| GoldData.TidyVaccines | scripts/whdh_gold_data.py:96 | after relabelling the vaccine column still holds only TEV and TERI |
| GoldData.DropDuplicates | scripts/whdh_gold_data.py:100-102 | the same members, with no row repeated, in the order of their first occurrences |
| GoldData.DropDuplicatesDistinct | scripts/whdh_gold_data.py:100-102 | a table without repeats is unchanged |
| GoldData.PivotRows | scripts/whdh_gold_data.py:103-108 | exactly the pivot rows of the given keys whose TEV or TERI mean is not NaN |
| GoldData.PivotRowsSorted | scripts/whdh_gold_data.py:103-108 | the pivot rows come in strictly ascending (country, year) order, from the given keys |
| GoldData.Pivot | scripts/whdh_gold_data.py:103-108 | the pivot's rows are strictly ascending by (country, year) and none has both means NaN; PivotMeaning gives its members |
| GoldData.PivotMeaning | scripts/whdh_gold_data.py:103-108 | one row per (country, year) present and not all-NaN, sorted, holding the NaN-skipping means |
| GoldData.JoinDimensions | scripts/whdh_gold_data.py:109 | the inner merge of dimensions and pivot on country, as stated by JoinDimensionsMeaning |
| GoldData.JoinDimensionsMeaning | scripts/whdh_gold_data.py:109 | each merged row pairs a dimension row with a pivot row of the same country |
| GoldData.DropZeroSpending | scripts/whdh_gold_data.py:110-112 | a row is kept iff neither TEV nor TERI equals 0, so NaN rows are kept |
| GoldData.JoinGni | scripts/whdh_gold_data.py:121-126 | the two left merges on (country_code, year), as stated by JoinGniUnmatched and JoinGniKeepsSpending |
| GoldData.JoinGniUnmatched | scripts/whdh_gold_data.py:121-126 | a spending row with no GNI match survives with both GNI columns NaN |
| GoldData.JoinGniKeepsSpending | scripts/whdh_gold_data.py:121-126 | every merged row carries a spending row of the input |
| GoldData.SpendingTable | scripts/whdh_gold_data.py:88-126 | the table exists iff the pivot has a TEV column and a TERI column, that is, some pivot row has each mean; otherwise line 111 raises a KeyError |
| GoldData.SpendingTableNoZeros | scripts/whdh_gold_data.py:110-126 | no row of the final table has TEV = 0 or TERI = 0 |
| GoldData.SpendingTableNeedsBothVaccines | scripts/whdh_gold_data.py:103-111 | coverage with no TEV row, or with no TERI row, makes the table fail |
| GoldData.PivotLacksVaccine | scripts/whdh_gold_data.py:103-108 | without coverage rows of a vaccine, every pivot row's mean for it is NaN |
| GoldData.TidyKeepsVaccine | scripts/whdh_gold_data.py:96 | relabelling turns no other vaccine label into TEV or TERI |
| GoldData.RegionSeries | scripts/whdh_gold_data.py:129-133 | the mean TEV per (WHO_region, year), as stated by Grouping.GroupMeans and RegionMapMeaning |
| GoldData.CountrySeries | scripts/whdh_gold_data.py:144-148 | the mean TEV per (country, year), as stated by Grouping.GroupMeans and CountryMapMeaning |
| GoldMaps.NanOrRound | scripts/whdh_gold_data.py:33-38 | NaN iff NaN; otherwise the value, ×100 only if asked, rounded to round_val places |
| GoldMaps.NanOrRoundOnGrid | scripts/whdh_gold_data.py:33-38 | a value already on the grid comes back unchanged, ×100 if asked |
| GoldMaps.NanOrRoundMonotone | scripts/whdh_gold_data.py:33-38 | `nan_or_round` preserves order |
| GoldMaps.NestedLookup | scripts/whdh_gold_data.py:134-138 | names present iff in the series; years are the initial ones plus those with entries; values are the rounded last entry, else the initial value |
| GoldMaps.Window | scripts/whdh_gold_data.py:150-152 | the default dictionary has exactly the years 2018..2023, all NaN |
| GoldMaps.BuildRegionMap | scripts/whdh_gold_data.py:134-138 | the loop leaves the nested map of the series over an empty start |
| GoldMaps.RegionMapMeaning | scripts/whdh_gold_data.py:129-138 | one key per region with rows; its years exactly the years with rows; each value the rounded NaN-skipping mean TEV |
| GoldMaps.YearDict.Set | scripts/whdh_gold_data.py:160 | `d[year] = value` updates that one entry |
| GoldMaps.YearDict.constructor | scripts/whdh_gold_data.py:150 | a new dictionary is empty |
| GoldMaps.YearDict.Copy | scripts/whdh_gold_data.py:158 | `copy()` is a fresh dictionary with the same entries |
| GoldMaps.DefaultDict | scripts/whdh_gold_data.py:150-152 | a fresh dictionary holding the 2018..2023 NaN window |
| GoldMaps.BuildCountryMap | scripts/whdh_gold_data.py:154-160 | each country has its own fresh dictionary, no two shared, holding the nested map over the window |
| GoldMaps.CountryMapMeaning | scripts/whdh_gold_data.py:144-160 | every country map has all of 2018..2023; years with rows (even outside the window) hold the rounded mean; window years without rows NaN |
| GoldMaps.CountryMapLocal | scripts/whdh_gold_data.py:154-160 | adding rows of other countries leaves a country's map unchanged |
| GoldMaps.CountryMapLocalYear | scripts/whdh_gold_data.py:154-160 | the same per year: presence and value of each year are unchanged |
| GoldMaps.GroupValuesLocal | scripts/whdh_gold_data.py:144-148 | another country's rows never enter a country's year group |
| GoldMaps.VaccineSpentProcess | scripts/whdh_gold_data.py:41-165 | fails iff the spending table fails; otherwise the two dictionaries of the whole stage, per-country dictionaries pairwise distinct |
| XmartExtraction.Years | scripts/xmart_parquet.py:26-28 | eight years 2018..2025 in ascending order |
| XmartExtraction.Jobs | scripts/xmart_parquet.py:31-33 | the 40 (year, table) jobs, year-major, tables in listed order |
| XmartExtraction.JobsOrdered | scripts/xmart_parquet.py:31-33 | jobs are ordered by year, then by table position |
| XmartExtraction.RequestsAt | scripts/xmart_parquet.py:34-36 | the k-th request of a job is the k-th page request |
| XmartExtraction.StopIndex | scripts/xmart_parquet.py:39-48 | the ending request is not a non-empty page, and all earlier ones are |
| XmartExtraction.StopIndexUnique | scripts/xmart_parquet.py:39-48 | the first such request is the ending one |
| XmartExtraction.JobRequests | scripts/xmart_parquet.py:32-43 | every request is `{table}?$top=10000&$skip={10000 k}&$filter=YEAR in ({year})` |
| XmartExtraction.JobStopsAtFirstEmptyPage | scripts/xmart_parquet.py:39-56 | the loop stops at its first empty page or status, and the accumulated table is the in-order concatenation of the earlier pages |
| XmartExtraction.JobSavesIffFirstPageNonEmpty | scripts/xmart_parquet.py:51-57 | something is accumulated iff the first page is non-empty, and then it is non-empty; the job fails iff its last answer is a status |
| XmartExtraction.GatheredNonEmpty | scripts/xmart_parquet.py:50-54 | n non-empty pages gather at least n records |
| XmartExtraction.PagePath | scripts/xmart_parquet.py:41-43 | the page request path, as stated by JobRequests and PathsDistinct |
| XmartExtraction.Job | scripts/xmart_parquet.py:34-56 | one job's requests, accumulated table and failure, as stated by JobStopsAtFirstEmptyPage and JobSavesIffFirstPageNonEmpty |
| XmartExtraction.Run | scripts/xmart_parquet.py:12-61 | the jobs run in order until the first status, as stated by RunFrozenAfterFailure, RunLastJob and FirstJobFailureEndsRun |
| XmartExtraction.AllEndRunEnds | scripts/xmart_parquet.py:39-48 | a run whose every job ends reaches its end |
| XmartExtraction.RunEndsPrefix | scripts/xmart_parquet.py:31-48 | every prefix of a run that ends also ends |
| XmartExtraction.NextJobEnds | scripts/xmart_parquet.py:31-48 | in a run that ends, the job after a prefix that has not failed ends |
| XmartExtraction.RunFrozenAfterFailure | scripts/xmart_parquet.py:44 | after a status the run ends whatever later jobs would do, and no later job sends a request or saves a file |
| XmartExtraction.FirstJobRun | scripts/xmart_parquet.py:34-61 | the run of the first job alone is that job's requests, its saved file if any, and its failure |
| XmartExtraction.FirstJobFailureEndsRun | scripts/xmart_parquet.py:44 | a status on the first job ends the run with only that job's requests and no file, even if a later job would page for ever |
| XmartExtraction.RunLastJob | scripts/xmart_parquet.py:57-61 | a failed job saves nothing; otherwise a file is added iff its first page was non-empty, holding all it fetched, at `data/{table}_{year}.parquet` |
| XmartExtraction.RequestsDistinct | scripts/xmart_parquet.py:41-43 | no page is requested twice within a job |
| XmartExtraction.PathsDistinct | scripts/xmart_parquet.py:41-43 | paths differing in `$skip` differ |
| XmartExtraction.FetchTable | scripts/xmart_parquet.py:34-56 | the `while not stop` loop returns exactly the job's requests, accumulated table and failure |
| XmartExtraction.ExtractFromApi | scripts/xmart_parquet.py:12-61 | the nested loops produce exactly the trace of the jobs run in order until the first status |
| WeoSheet.Renamed | scripts/imf_weo_csv_parquet.py:12-19 | same number of columns, each with its cells unchanged |
| WeoSheet.RenamedColumns | scripts/imf_weo_csv_parquet.py:12-19 | a column is named country_code, estimate_after or weo_subject_code iff it was that or its source name; other names unchanged |
| WeoSheet.Sheet.Rename | scripts/imf_weo_csv_parquet.py:12-19 | the in-place rename leaves the renamed columns |
| WeoSheet.Sheet.constructor | scripts/imf_weo_csv_parquet.py:9 | a sheet holding the columns read from the file |
| WeoSheet.Find | scripts/imf_weo_csv_parquet.py:20 | a column lookup: None iff no column has the name, else the first such column |
| WeoSheet.KeptRows | scripts/imf_weo_csv_parquet.py:20 | the kept row indices are exactly those whose country_code is not "", ascending |
| WeoSheet.SelectRows | scripts/imf_weo_csv_parquet.py:20 | each column keeps its name and the cells at the kept indices |
| WeoSheet.NonEmptyCodes | scripts/imf_weo_csv_parquet.py:20 | the filter fails iff there is no country_code column, and otherwise keeps the sheet rectangular |
| WeoSheet.NonEmptyCodesMeaning | scripts/imf_weo_csv_parquet.py:20 | no kept row has an empty code, and every row with a non-empty code is kept |
| WeoSheet.ContainsUnnamed | scripts/imf_weo_csv_parquet.py:26 | every name starting with "Unnamed" contains it, and no all-digit name (a year column) does, so the drop never removes a year |
| WeoSheet.YearNames | scripts/imf_weo_csv_parquet.py:27 | the names `str(y)` for lo ≤ y < hi, in order |
| WeoSheet.YearNamesMembers | scripts/imf_weo_csv_parquet.py:27 | a name is listed iff it is `str(y)` for some y in the range |
| WeoSheet.UnnamedColumns | scripts/imf_weo_csv_parquet.py:26 | exactly the column names containing "Unnamed" |
| WeoSheet.DropColumns | scripts/imf_weo_csv_parquet.py:28-41 | `drop` fails iff some listed name is not a column of the sheet |
| WeoSheet.DropListMembers | scripts/imf_weo_csv_parquet.py:26-41 | a name is dropped iff it is a metadata name, an "Unnamed" column or a year of the range |
| WeoSheet.DropFailsFor | scripts/imf_weo_csv_parquet.py:28-41 | the drop fails iff a metadata column or a year column of the range is missing |
| WeoSheet.DropKeepsFor | scripts/imf_weo_csv_parquet.py:28-41 | after the drop a column remains iff it is neither metadata, "Unnamed", nor a year of the range |
| WeoSheet.DropMeaning | scripts/imf_weo_csv_parquet.py:26-41 | the same for 1980..2010: the script's drop fails or keeps exactly the other columns |
| WeoSheet.Replaced | scripts/imf_weo_csv_parquet.py:44 | names and column lengths unchanged by `replace` |
| WeoSheet.Sheet.Replace | scripts/imf_weo_csv_parquet.py:44 | the in-place replace leaves the replaced columns |
| WeoSheet.NumericCell | scripts/imf_weo_csv_parquet.py:47 | `to_numeric(errors="coerce")` always yields a number or NaN |
| WeoSheet.CleanCellMeaning | scripts/imf_weo_csv_parquet.py:44-47 | "n/a" and "NA" become NaN, "--" becomes 0, other text is parsed after comma removal; NaN stays NaN |
| WeoSheet.CleanedColumns | scripts/imf_weo_csv_parquet.py:45-47 | names and lengths kept, and every cell from the third column on is numeric |
| WeoSheet.Sheet.SetCells | scripts/imf_weo_csv_parquet.py:46-47 | `df[col] = …` replaces that one column's cells |
| WeoSheet.CleanValueColumns | scripts/imf_weo_csv_parquet.py:45-47 | the per-column loop leaves the cleaned columns |
| WeoReshape.MeltBlock | scripts/imf_weo_csv_parquet.py:50-54 | one long row per input row for one year column, carrying its codes, the column name and the cell |
| WeoReshape.MeltColumns | scripts/imf_weo_csv_parquet.py:50-54 | the melt has (value columns) × (rows) long rows |
| WeoReshape.MeltAt | scripts/imf_weo_csv_parquet.py:50-54 | long row j·n + i is row i's cell of value column j |
| WeoReshape.Melt | scripts/imf_weo_csv_parquet.py:50-54 | the melt fails iff an id column is missing |
| WeoReshape.CoerceYearOfName | scripts/imf_weo_csv_parquet.py:55-57 | a year column named `str(y)` gives year y |
| WeoReshape.EstimateTable | scripts/imf_weo_csv_parquet.py:21-23 | the estimate table fails iff one of its three columns is missing, and has one row per kept row otherwise |
| WeoReshape.Flag | scripts/imf_weo_csv_parquet.py:71-73 | `is_an_estimate` iff estimate_after is present and the year exceeds it |
| WeoReshape.MergedLong | scripts/imf_weo_csv_parquet.py:58-75 | the merge with the estimate table, flag and drop, as stated by MergedLongMembers and MergedLongOneToOne |
| WeoReshape.MergedLongMembers | scripts/imf_weo_csv_parquet.py:58-75 | merge, flag and drop yield exactly the melted rows as members |
| WeoReshape.MergedLongIgnoresAfter | scripts/imf_weo_csv_parquet.py:58-75 | the result does not depend on the estimate_after values |
| WeoReshape.MergedLongOneToOne | scripts/imf_weo_csv_parquet.py:58-62 | with one estimate row per series the merge gives back the melted rows unchanged |
| WeoReshape.AtMostOneMatch | scripts/imf_weo_csv_parquet.py:58-62 | with distinct series each long row matches at most one estimate row |
| WeoReshape.WholeYear | scripts/imf_weo_csv_parquet.py:55-57 | a year is whole iff it is a finite integral number, and then it is that number |
| WeoReshape.WholeYearOfName | scripts/imf_weo_csv_parquet.py:55-57 | the year parsed from `str(y)` is the whole year y |
| WeoReshape.Points | scripts/imf_weo_csv_parquet.py:78-86 | the pivot input fails iff some value is still text |
| WeoReshape.PivotRow | scripts/imf_weo_csv_parquet.py:80-86 | the pivot row of key k has key k |
| WeoReshape.AbsentSubject | scripts/imf_weo_csv_parquet.py:80-86 | a subject with no observation for k has a NaN mean |
| WeoReshape.PivotRowCells | scripts/imf_weo_csv_parquet.py:80-86 | each subject cell of a pivot row is that subject's NaN-skipping mean |
| WeoReshape.Pivot | scripts/imf_weo_csv_parquet.py:80-86 | the pivot of the points, as stated by PivotMeaning |
| WeoReshape.PivotMeaning | scripts/imf_weo_csv_parquet.py:80-86 | sorted keys, exactly the keys present with some non-NaN mean, every cell the subject's mean |
| WeoReshape.InsertRow | scripts/imf_weo_csv_parquet.py:87 | insertion adds the row to the multiset and to the members |
| WeoReshape.InsertRowSorted | scripts/imf_weo_csv_parquet.py:87 | inserting into sorted rows keeps them sorted |
| WeoReshape.SortRows | scripts/imf_weo_csv_parquet.py:87 | sorting is a permutation |
| WeoReshape.SortRowsSorted | scripts/imf_weo_csv_parquet.py:87 | the result is ascending by (country_code, year) and a permutation |
| WeoReshape.SortRowsOfSorted | scripts/imf_weo_csv_parquet.py:87 | rows already strictly sorted are left as they are |
| WeoReshape.Reshape | scripts/imf_weo_csv_parquet.py:20-87 | the whole reshape, as stated by ReshapeMeaning and ReshapeIgnoresEstimates |
| WeoReshape.ReshapeMeaning | scripts/imf_weo_csv_parquet.py:20-87 | the output exists iff the pivot input does, and is then sorted, one row per key with a non-NaN mean, cells the means |
| WeoReshape.ProcessFile | scripts/imf_weo_csv_parquet.py:6-87 | the in-place script yields the reshaped table |
| WeoReshape.ProcessDropped | scripts/imf_weo_csv_parquet.py:44-75 | after the column drop, the in-place replace and cleaning of the sheet, the melt, the year coercion, the merge with the estimate table and the flag yield the points the pivot groups, or None where an id column is missing (a KeyError) or a value is text |
| WeoReshape.EstimateTableAgree | scripts/imf_weo_csv_parquet.py:21-23 | sheets differing only in estimate_after give estimate tables with the same series |
| WeoReshape.FromDroppedIgnoresAfter | scripts/imf_weo_csv_parquet.py:58-75 | the stage after the drop is independent of estimate_after |
| WeoReshape.ReshapeIgnoresEstimates | scripts/imf_weo_csv_parquet.py:21-75 | two sheets differing only in the estimate_after column give the same output |

## Left out

- File discovery, reading and writing (parquet, CSV, JSON dumps): loaded tables are parameters, and written files are values or entries of the output trace.
- `print` calls, timings, `pd.set_option` and `sys.path` setup.
- The xMart client wrapper (credentials, environment, HTTP): only its contract, a page or an integer status, is modelled, as the parameter `get`.
- XmartExtraction.ExtractFromApi: requires that every job the run reaches (up to and including the first that ends on a status) eventually meets an empty page or a status. A job that pages for ever makes the source loop for ever, and is not modelled.
- IEEE-754 binary representation: cells are exact reals, so float rounding error, signed zero and the scale-and-round imprecision of numpy are not modelled.
- Cells.RoundCell: rounds the exact value half-even; it does not model numpy's rounding of the scaled binary value.
- `to_numeric` is modelled by `ParseNum`, an optionally signed decimal with an optional fraction; exponents, "inf", "nan" and whitespace are not.
- WeoReshape.PivotMeaning: `astype(str)` of the id columns is the parameter `show`, and a year that is not a whole number is left out of the pivot.
- RequiredColumns.DeflatorDivisionFails: cells do not tell `pd.NA` from a float NaN, so the dtype of the rebase column is decided from the years of the frame alone, and the ZeroDivisionError itself is the `ok == false` result.
- WeoReshape.Points: the whole pivot is modelled as failing when a value cell is still text; pandas' dtype coercion of all-NaN columns is left out.
- Duplicate column names: a lookup takes the first column with the name, whereas pandas would return several.
- Empty WEO pivot columns: pivot_table's removal of all-NaN subject columns at `scripts/imf_weo_csv_parquet.py:80-86` is not modelled, because a `Row` reads an absent column as NaN and nothing later indexes a subject column. In the gold pivot, where the later `immune_exp_df["TEV"]` would raise, the missing column is modelled by `GoldData.SpendingTable`.
- GoldData: the text columns of the gold inputs (country, country_code, WHO_region, GAVI, vaccine) are assumed never to be NaN. pandas drops rows with a NaN key in the pivot (`scripts/whdh_gold_data.py:103-108`) and in the group-bys (lines 131, 146), and matches NaN with NaN in the merges (lines 88-90, 109, 121-126); neither effect is modelled.
- WeoReshape.MergedLongOneToOne: with several estimate rows per (country, subject) the left merge repeats melted rows, and the repeats enter the mean. The model keeps the repeats; no lemma states the resulting mean.
- Column name suffixes (`_x`, `_y`) on clashing merge columns: the merges modelled have no clashing value columns, and on a clash the right value is kept.
- GoldData: the `astype({"year": int})` cast is the identity, since years are integers throughout.
- The sort at `scripts/whdh_gold_data.py:130, 145` before grouping: group-by output is ordered by key regardless.
