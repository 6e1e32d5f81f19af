# Loan-acceptance risk report: a verified model of its decisions

`projects/dashboard.py` reads a bank's personal-loan table and prints a
three-part report. Part 1 lists the factors that affect loan acceptance most.
Part 2 lists high-risk customer segments. Part 3 lists targeting rules for the
lender. This project models the decisions behind those printed numbers, as
Dafny functions, methods and lemmas:

- **Factor ranking** (`factor_ranking.dfy`, module `FactorRanking`). The loop
  fills the `correlations` dictionary. It skips the target column and 'ID'
  and drops NaN correlations, keeping the absolute value of each correlation.
  The items are then sorted stably in descending order. The first five are
  printed with their description from `get_factor_impact`. The loop is a
  method proved against the function `Scored`. The sort is an insertion sort
  proved to be a permutation, non-increasing and stable.
- **Records and masks** (`records.dfy`, module `Records`). The rows the
  decisions read, the boolean masks (`>=` a threshold, `==` a level, `&`),
  `mask.sum()`, `df[mask]` and the mean of the 0/1 target.
- **Segments** (`segments.dfy`, module `Segments`). The three risk bands of
  `get_risk_level`. The `groupby('Education')` table with each level's rate,
  band and count. The level `idxmax` picks.
- **Rules** (`rules.dfy`, module `Rules`). The four rules of
  `generate_risk_rules`: each has a count, a conversion rate and an uplift
  over the overall rate.
- `wrappers.dfy` holds `Option`. `means.dfy` holds the real-number facts
  about quotients and weighted means that the rate proofs use.

pandas' NaN is `None`. It covers the mean of no rows, a division by a zero
overall rate, and an undefined correlation. Rates are exact reals.

## Model

| member | source | states |
|---|---|---|
| `Segments.Classify` | projects/dashboard.py:231-238 | HIGH exactly below 0.05, MEDIUM exactly in [0.05, 0.15), LOW exactly from 0.15; a boundary rate falls in the band of the higher rates |
| `Segments.RiskLabel` | projects/dashboard.py:231-238 | the returned string is "HIGH RISK", "MEDIUM RISK" or "LOW RISK" under exactly those three conditions |
| `Segments.ClassifyMonotone` | projects/dashboard.py:231-238 | a higher acceptance rate never gets a riskier band |
| `Segments.EducationLabel` | projects/dashboard.py:150-153 | levels 1, 2 and 3 map to 'Undergraduate', 'Graduate' and 'Advanced/Professional'; a plain `.get` gives nothing for any other level |
| `Segments.Levels` | projects/dashboard.py:101 | the groupby keys are strictly increasing and are exactly the education levels present in the table |
| `Segments.SegmentName` | projects/dashboard.py:102-105 | the printed name is the table's name for levels 1 to 3 and `Level <n>`, with n in decimal, for any other level |
| `Segments.SegmentNameKnown` | projects/dashboard.py:102-105 | each of the three known names is printed for exactly its own level; no other level can print one of them |
| `Segments.SegmentOf` | projects/dashboard.py:104-107 | a present level's row has the name of line 105, count `(Education == level).sum()` > 0, rate equal to the mean target of that level's rows and in [0, 1], and band `get_risk_level` of that rate |
| `Segments.EducationSegments` | projects/dashboard.py:101-108 | one row per group key, in key order, each being that level's segment |
| `Segments.SegmentsCoverTable` | projects/dashboard.py:101-107 | the printed per-level counts add up to the number of customers |
| `Segments.BestIndex` | projects/dashboard.py:148-149 | `idxmax`: a position whose rate is the maximum, with every earlier position strictly lower (the first maximum) |
| `Segments.BestSegmentDominates` | projects/dashboard.py:147-149 | the picked level's rate is at least every level's rate, and strictly above every lower level's |
| `Segments.OverallWithin` | projects/dashboard.py:128 | the overall rate is at most any bound that every education group's rate stays under (it is their size-weighted mean) |
| `Segments.BestRateNotBelowOverall` | projects/dashboard.py:147-149 | on a non-empty table the best education rate is at least the overall rate |
| `Records.Select` | projects/dashboard.py:134 | `df[mask]` holds only rows of the table that meet the mask, and every such row |
| `Records.SelectExactly` | projects/dashboard.py:134 | `df[mask]` holds each row meeting the mask as many times as the table does, and no other row |
| `Records.SelectEverything` | projects/dashboard.py:134 | a mask that every row meets keeps the whole table |
| `Records.CountIsSelected` | projects/dashboard.py:134-135 | `mask.sum()` equals the number of rows of `df[mask]`, so a printed count and its printed rate describe the same rows |
| `Records.AcceptedAtMostRows` | projects/dashboard.py:128 | no more customers accept than there are customers |
| `Records.Rate` | projects/dashboard.py:128 | the mean target is defined exactly on a non-empty table and lies in [0, 1] |
| `Records.RateIsMean` | projects/dashboard.py:128 | the rate times the number of rows is the number of accepting rows |
| `Records.CountMonotone` | projects/dashboard.py:177-181 | a mask implied by another keeps no more rows |
| `Records.BothNarrows` | projects/dashboard.py:179-181 | the `&` of two masks keeps no more rows than either mask |
| `Records.ThresholdMonotone` | projects/dashboard.py:163-165 | raising a `>=` threshold on Income or CCAvg never keeps more rows |
| `Rules.Uplift` | projects/dashboard.py:141 | the uplift is defined exactly when both rates are and the overall rate is non-zero, and then times the overall rate gives the segment rate |
| `Rules.Evaluate` | projects/dashboard.py:133-141 | a rule's count is `mask.sum()`, the number of rows of `df[mask]`, and at most the table size; its conversion is the mean target of `df[mask]` and its uplift is that over the overall rate; its conversion is defined exactly when it selects someone and lies in [0, 1]; its uplift is defined exactly when it selects someone and the overall rate is non-zero |
| `Rules.NonEmptyHasLevel` | projects/dashboard.py:147-148 | a non-empty table has at least one education group, so `idxmax` has something to pick |
| `Rules.BestEducation` | projects/dashboard.py:147-157 | Rule 2 is absent exactly on an empty table; otherwise the level is present, its name is the table's `.get`, its count is that level's row count (> 0), its conversion is that level's rate and is at least every level's rate and strictly above every lower level's, and its uplift is over the overall rate |
| `Rules.GenerateRiskRules` | projects/dashboard.py:128-187 | no rules exactly on an empty table, where `idxmax` raises; otherwise Rules 1, 3 and 4 are the evaluations of their masks and Rule 2 is the best-education rule; Rule 4 selects no more customers than Rule 1 or than its own CCAvg mask; Rule 3 selects no more than that mask when its quantile is the higher one |
| `Rules.UpliftOneOnWholeTable` | projects/dashboard.py:141 | a rule that selects every customer has uplift exactly 1 when the overall rate is positive |
| `Rules.UpliftComparesRates` | projects/dashboard.py:141 | the uplift is above 1 exactly when the segment converts better than the table, and below 1 exactly when it converts worse |
| `Rules.EducationUpliftAtLeastOne` | projects/dashboard.py:147-157 | Rule 2 never converts worse than the whole table, so its uplift is at least 1 whenever it is defined |
| `FactorRanking.Abs` | projects/dashboard.py:63 | the score is non-negative and is the correlation or its negation |
| `FactorRanking.IndexOf` | projects/dashboard.py:57-58 | the position `list.remove` uses: an occurrence of the name with none before it |
| `FactorRanking.RemoveFirst` | projects/dashboard.py:57-58 | `list.remove` drops the first occurrence and keeps the rest in order: one element shorter, multiset minus one copy, every other name kept |
| `FactorRanking.RemoveFirstDistinct` | projects/dashboard.py:57-58 | on distinct columns, the target is gone afterwards and the rest stay distinct |
| `FactorRanking.Candidates` | projects/dashboard.py:56-58 | the visited columns are the numeric columns in their order, less the target (by `list.remove`) when it is one of them |
| `FactorRanking.ScoredSound` | projects/dashboard.py:60-65 | every dictionary item is a visited column other than 'ID' with a defined correlation, scored by its absolute value |
| `FactorRanking.ScoredComplete` | projects/dashboard.py:60-65 | a visited column is in the dictionary exactly when it is not 'ID' and its correlation is defined |
| `FactorRanking.ScoredDistinct` | projects/dashboard.py:60-65 | over distinct columns no key is inserted twice |
| `FactorRanking.ScoresAtMostOne` | projects/dashboard.py:63 | with correlations in [-1, 1], every score is in [0, 1] |
| `FactorRanking.CandidatesScored` | projects/dashboard.py:56-65 | the dictionary over the candidate columns holds only numeric columns other than the target and 'ID' with defined correlations, scored by absolute value; it holds every such column, and none twice |
| `FactorRanking.CollectCorrelations` | projects/dashboard.py:56-65 | the loop's dictionary is `Scored` of the candidate columns: items only for numeric columns other than the target and 'ID' with defined correlations, scored by absolute value, every such column present, no key twice |
| `FactorRanking.Insert` | projects/dashboard.py:68 | inserting adds exactly the one item |
| `FactorRanking.InsertRanked` | projects/dashboard.py:68 | inserting into a descending list keeps it descending |
| `FactorRanking.Rank` | projects/dashboard.py:68 | `sorted(..., reverse=True)` is a permutation of the items and its scores never increase |
| `FactorRanking.InsertDistinctNames` | projects/dashboard.py:68 | inserting an item with a new name keeps the names distinct |
| `FactorRanking.RankDistinctNames` | projects/dashboard.py:68 | the sorted list keeps the dictionary's keys distinct |
| `FactorRanking.WithScoreInsert` | projects/dashboard.py:68 | an inserted item goes ahead of every item with its own score |
| `FactorRanking.RankStable` | projects/dashboard.py:68 | the sort is stable: items of equal score keep their dictionary order |
| `FactorRanking.TopFactors` | projects/dashboard.py:72 | `top_factors[:5]` is a prefix of the ranking of length min(5, n) |
| `FactorRanking.ReportRows` | projects/dashboard.py:72-74 | one printed row per reported factor |
| `FactorRanking.ReportRowsContents` | projects/dashboard.py:72-74 | rows are ranked 1, 2, ... and show the ranking's factors and scores in order, with their descriptions |
| `FactorRanking.ReportRowsShowBest` | projects/dashboard.py:72-74 | on a ranking, no printed score is below a factor left off |
| `FactorRanking.FactorImpact` | projects/dashboard.py:220-229 | a known factor gets its own description; the default text is returned exactly for the factors the table does not know |
| `FactorRanking.AnalyzeTopFactors` | projects/dashboard.py:50-76 | the returned ranking is the stable descending sort of the dictionary: non-increasing, only eligible columns scored by absolute correlation, every eligible column present, no column twice; the printed rows are those of its top five |

## Left out

- Loading the table (`load_data`, its CSV and Excel fallback) is I/O. The model takes the rows as a `Dataset`.
- The Pearson correlation numerics are left out. `analyze_top_factors` receives one correlation per column as a map, with `None` for NaN.
- Quantiles are left out. Rules 1, 3 and 4 receive the Income 0.8 quantile and the CCAvg 0.75 and 0.7 quantiles as parameters. Line 177 recomputes the Income 0.8 quantile; it is the same value as line 133, so one parameter serves both.
- The income and credit-card quartile segments of `analyze_risk_segments` (lines 88-94 and 115-121) are left out. They need `pd.qcut`'s bin edges. Only their shared `get_risk_level` step is modelled.
- Printing, the formatting of rates and amounts, and `generate_recommendations` (fixed text) are left out. Of the formatting, only the decimal level in `f'Level {edu_level}'` is modelled.
- Floating point is left out: rates, quotients and uplifts are exact reals. NaN and infinity are `None`.
- Segments.EducationLabel: it models the plain `.get` of line 153, which has no fallback, so Rule 2 carries no name for a level outside 1 to 3 (Python prints `None` there). The segment table's `.get` with the fallback of line 105 is Segments.SegmentName.
- Segments.SegmentOf: it does not model the NaN rate that `get_risk_level` would band as LOW RISK. A groupby group is never empty, so that case never arises.
- Rules.GenerateRiskRules: on an empty table it returns no rules. The Rule 1 lines the source prints before `idxmax` raises at line 148 are not modelled.
- FactorRanking.CollectCorrelations: it requires distinct column names. With duplicate names `df[col]` is a frame and `.corr` fails, so the source has no defined behaviour there.
- The table holds only the columns the decisions read (Income, CCAvg, Education and the 0/1 target). Other columns matter only through the correlation map.
