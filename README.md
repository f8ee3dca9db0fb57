# Crop production dashboard: the query layer and the map join, in Dafny

The dashboard loads a table of crop records. Each record holds State, District, Crop, Season, Year, Area, Production, Production Units and Yield. The dashboard:

- normalises Production to tonnes;
- narrows the table with five multiselect filters;
- hands grouped and ranked summaries to the charts;
- draws a choropleth, which needs each State's name in the data joined to a feature name in the map file.

This project models the data-preparation and query functions of `utils.py` and the state-name reconciliation block of `main.py`. It proves what those functions promise about their results.

Layout, one module per file:

- `Wrappers`: `Option`; a `None` cell is pandas' NaN.
- `Seqs`: boolean-mask selection (`Where`), subsequences, `Series.unique()` and first-occurrence positions.
- `Order`: the orders pandas uses.
  - `groupby` keys are ascending: strings by code point, years as integers.
  - `sort_values(ascending=False)` is a descending sort by an optional score, NaN last.
  - `head(n)` is modelled for negative `n` too.
- `Table`: the record, its columns, and pandas' NaN-skipping `sum()` and `mean()`.
- `Normalize`: `normalize_production_units`, a method with two loops proved equal to `NormalizedTable`.
- `Filter`: `filter_data`, a method that narrows step by step, proved equal to the one-pass reference `Filtered`.
- `Aggregate`: every group-by query, each a function whose contract states what the result is.
  - The central predicate is `IsGrouping`: distinct keys, exactly the column's values, each with its group's aggregate.
- `Reconcile`: the `state_name_map` loop, and the `GeoName` lookup.
  - The loop is a method with the outer loop, the if/elif chain and the inner scan with `break`.
  - It is proved equal to `StateNameMap`, a fold over the features.
- `Scenarios`: worked examples, facts proved about concrete inputs.

Three behaviours of the code are worth stating outright:

- **Containment runs one way.** The State's canonical name must occur inside the feature's canonical name (main.py:184), never the reverse. `MatchIsOneDirectional` states this. `DelhiFeature` shows a State ("NCT of Delhi") that contains the feature name "Delhi" and still gets no match.
- **A later feature overwrites an earlier one for a special spelling.** Plain dictionary assignment means the last feature mapped to a key wins (main.py:174-181). `LastWriteWins` states this.
- **The district yield table is sorted by the unrounded mean and rounded afterwards.** pandas fixes no tie order (utils.py:91-92). `GetDistrictYieldTable` states the order by the unrounded mean.

## Model

| member | source | states |
|---|---|---|
| Seqs.Unique | utils.py:31-32 | `unique()`: no repeats, and exactly the values of the column |
| Seqs.UniqueFirstAppearance | utils.py:31-32 | `unique()` lists values in the order of their first occurrence |
| Order.SortedKeysAscending | utils.py:56 | `groupby` keys come out strictly ascending under a strict total order, hence without repeats |
| Order.StrLessIsStrictTotal | utils.py:56 | Python's string comparison, which orders `groupby` keys, is a strict total order |
| Order.SortByScore | utils.py:58 | `sort_values` returns a permutation of its input |
| Order.SortByScoreSorted | utils.py:58 | after `sort_values(ascending=False)` larger values come first and NaN comes last |
| Order.SortByScoreDistinct | utils.py:58 | sorting neither duplicates nor merges entries |
| Order.HeadLength | utils.py:59 | `head(n)` keeps exactly `n` rows when there are at least `n`, all rows when there are fewer, and all but the last `-n` when `n` is negative |
| Table.LabelValues | utils.py:32 | a categorical column holds exactly the values some row carries |
| Table.YearValues | utils.py:32 | the Year column holds exactly the years some row carries |
| Table.CountOf | utils.py:71 | the count of non-NaN cells is at most the row count, and is zero exactly when every cell is NaN |
| Table.MeanOf | utils.py:71 | `mean()` is NaN exactly when the column has no non-NaN value |
| Normalize.NormalizeProductionUnits | utils.py:5-24 | the two passes (temporary column, then overwrite) return exactly `NormalizedTable` of the input |
| Normalize.FactorTable | utils.py:8-12 | Tonnes 1.0, Bales 0.17, Nuts 0.001, any other unit 1.0; every factor is positive |
| Normalize.NormalizedTableSpec | utils.py:14-24 | the row count and all columns but Production are kept; Production becomes raw × factor when Production and its unit are both present, and stays as it was otherwise |
| Normalize.UnitFactorOneIsFixpoint | utils.py:15 | a row whose unit has factor 1.0 comes back unchanged |
| Normalize.NormalizedKeepsSign | utils.py:15 | a non-negative Production stays non-negative |
| Normalize.NormalizedTotal | utils.py:14-21 | over rows sharing one unit, the normalised total is the raw total × that unit's factor |
| Normalize.NormalizeNotIdempotent | utils.py:26-29 | normalising a Bales row twice differs from normalising it once, so the pass must run exactly once, at load |
| Filter.FilterData | utils.py:38-52 | the successive narrowings give exactly the one-pass selection of the rows matching every active selection |
| Filter.LabelStep | utils.py:41-48 | one categorical narrowing step adds its column's condition to the conjunction applied so far |
| Filter.YearStep | utils.py:49-50 | the Year narrowing step adds the Year condition to the conjunction |
| Filter.FilteredSpec | utils.py:38-52 | the result is an order-preserving subsequence of the input; a row is kept iff it passes every non-empty selection; every copy of a kept row is kept |
| Filter.FilterWithoutSelection | utils.py:41-50 | with every selection missing or empty the input is returned unchanged |
| Filter.FilterIdempotent | utils.py:38-52 | filtering the filtered table again with the same selections changes nothing |
| Filter.FilterAgainWider | utils.py:38-52 | filtering again with the same or wider selections changes nothing |
| Aggregate.GroupKeys | utils.py:56 | the keys of `groupby(column)` are ascending, distinct, and exactly the values the rows carry |
| Aggregate.GroupYears | utils.py:64 | the keys of `groupby('Year')` are strictly ascending and exactly the years the rows carry |
| Aggregate.GroupBySpec | utils.py:100-104 | `groupby(c).agg(...)` gives one entry per distinct value, ascending, each holding its group's aggregate |
| Aggregate.GroupByYearSpec | utils.py:64 | grouping by Year gives one entry per distinct year, ascending, each holding its group's aggregate |
| Aggregate.GroupingDistinct | utils.py:56-57 | a grouped result has no repeated entry |
| Aggregate.SameEntries | utils.py:58 | a reordering keeps the same entries and the same keys |
| Aggregate.ReorderedGrouping | utils.py:58 | reordering a grouped result with `sort_values` keeps it a grouping |
| Aggregate.RankedGrouping | utils.py:83 | a grouped result sorted descending is still a grouping, one entry per key, in non-increasing order with NaN last |
| Aggregate.UniqueValues | utils.py:31-32 | `get_unique_values`: distinct, exactly the column's values, in order of first appearance |
| Aggregate.UniqueYears | utils.py:31-32 | `get_unique_values(df, 'Year')`: distinct, exactly the years present, in order of first appearance |
| Aggregate.TopProducingDistricts | utils.py:54-61 | there are `head(top_n)` entries of the ranking, with distinct districts that occur in the data; each value is the district's summed Production; values are non-increasing; no district left out has a larger total than one kept |
| Aggregate.PrefixOfGrouping | utils.py:59 | a `head` of a grouped result keeps distinct keys from the column, each with its group's aggregate |
| Aggregate.TopOfRanking | utils.py:58-59 | a `head` of the descending ranking is non-increasing and outranks every district it leaves out |
| Aggregate.GetTimeSeriesData | utils.py:63-65 | one entry per distinct year, strictly ascending, each the year's sum of the metric |
| Aggregate.GetMultiMetricTimeSeries | utils.py:67-73 | one entry per distinct year, strictly ascending, each with sum(Area), sum(Production) and mean(Yield) |
| Aggregate.GetYieldByDistrict | utils.py:82-84 | one entry per district with its mean Yield, non-increasing, NaN last |
| Aggregate.GetYieldByState | utils.py:95-97 | one entry per state with its mean Yield, non-increasing, NaN last |
| Aggregate.RankDistrictsByYield | utils.py:87-91 | one entry per district with mean Yield, summed Production and summed Area, ranked by mean Yield, NaN last |
| Aggregate.GetDistrictYieldTable | utils.py:86-93 | the same districts and figures with Yield rounded, in order of the unrounded mean Yield |
| Aggregate.RoundedGrouping | utils.py:91-92 | rounding after ranking keeps the groups and the order of the unrounded means |
| Aggregate.DistrictYieldTableRanked | utils.py:91-92 | under a rounding that never reverses two values, the rounded table is ranked by its rounded Yield too |
| Aggregate.PrepareScatterData | utils.py:99-105 | one entry per district, ascending, with sum(Area), sum(Production), mean(Yield) |
| Aggregate.PrepareStateDataForMap | utils.py:152-157 | one entry per state, ascending, with mean(Yield), sum(Production), sum(Area) |
| Aggregate.DefaultCrops | utils.py:76-77 | at most five distinct crops present in the data: the first five in order of first appearance, or all of them when fewer |
| Aggregate.GetCropWiseProduction | utils.py:75-80 | Year × Crop table with ascending years and crops. Rows are exactly the years with a selected crop; columns are exactly the selected crops present. Each cell is the summed Production of its rows, 0 with no row; an empty table gives an empty pivot |
| Reconcile.Canonical | main.py:184 | the compared form of a name has no spaces and no upper-case ASCII letters |
| Reconcile.CanonicalIdempotent | main.py:184 | canonicalising twice is canonicalising once |
| Reconcile.CanonicalIgnoresSpaces | main.py:184 | inserting a space does not change the canonical form |
| Reconcile.ContainsAt | main.py:174-184 | Python's `in` on strings holds exactly when the substring occurs at some position |
| Reconcile.ContainsShorter | main.py:184 | a contained string is never longer than the containing one |
| Reconcile.ContainsChars | main.py:174-184 | every character of a contained string occurs in the containing one |
| Reconcile.MissingChar | main.py:174-184 | a string with a character the other lacks is not contained in it |
| Reconcile.MatchIsOneDirectional | main.py:184 | a feature whose canonical name is shorter than the State's never matches that State |
| Reconcile.SpecialKey | main.py:174-181 | a special key applies exactly when one of "Andaman", "Arunachal", "Dadara", "Dadra" or "Jammu" occurs in the feature name |
| Reconcile.FirstMatch | main.py:183-186 | the scan finds nothing exactly when no State matches; a hit is a State that matches |
| Reconcile.FirstMatchAt | main.py:183-186 | the scan stops at the matching State with the lowest position |
| Reconcile.SpecialCasesFirst | main.py:174-181 | a special-case feature sets its fixed key whatever States the data holds. The branches are tried in order: "Andaman" gives Andaman and Nicobar Islands; otherwise "Arunachal" gives Arunachal Pradesh; otherwise "Dadara" or "Dadra" gives Dadra and Nagar Haveli; otherwise "Jammu" gives Jammu and Kashmir |
| Reconcile.GenericMatch | main.py:182-186 | any other feature is stored under the first State, in the given order, that it matches |
| Reconcile.BuildStateNameMap | main.py:171-186 | the loop with its if/elif chain and inner `break` builds exactly `StateNameMap` of the features |
| Reconcile.MapValuesAreFeatures | main.py:172-186 | every value in the map is one of the feature names |
| Reconcile.LastWriteWins | main.py:172-186 | a key is present iff some feature targets it, and then it holds the last such feature |
| Reconcile.MapKeys | main.py:174-186 | every key is a State of the data or one of the four fixed special keys |
| Reconcile.ReconcileGeography | main.py:171-188 | the block run on the aggregated State data gives exactly `WithGeoNames` over the map built from its distinct States |
| Reconcile.GeoNamesSpec | main.py:188 | rows are kept one for one. A GeoName, when present, is a feature that targets the row's State; it is missing, with no error, exactly when no feature targets the State |
| Scenarios.LudhianaScenario | utils.py:5-24 | two Ludhiana wheat rows of 2020, one in tonnes and one in bales: normalised to 300 and 170; the year shows Area 150, Production 470, mean Yield 2.5 |
| Scenarios.JammuFeature | main.py:180-181 | a feature spelt "Jammu & Kashmir" is stored under "Jammu and Kashmir" |
| Scenarios.DelhiFeature | main.py:182-186 | the feature "Delhi" does not match the State "NCT of Delhi" |
| Scenarios.HitThenMiss | main.py:172-186 | a feature stored under a key followed by a feature that matches nothing leaves exactly that one entry |
| Scenarios.ReconcileScenario | main.py:171-186 | with features "Jammu & Kashmir" and "Delhi" and the State "NCT of Delhi", the map holds only the Jammu and Kashmir entry |

## Left out

- Reading the CSV file and the geography file (`pd.read_csv`, `json.load`) is I/O. `load_data` is modelled as normalisation of a given table, and the map file as its sequence of feature names (`NAME_1`).
- `calculate_correlation_matrix` is left out: Pearson correlation needs square roots and floating-point NaN semantics.
- `round(3)` is a parameter function (`round`). Floating-point rounding to three decimals is not modelled.
- Arithmetic is on exact reals, not IEEE doubles.
- `get_state_coordinates` is a table of float constants with no behaviour.
- The `state_name_mapping` dictionary in `prepare_state_data_for_map` is never used, so it has no effect on the result.
- The Streamlit pages, widgets, charts, marker sizing and the choropleth drawing are presentation.
- Python's `str.lower()` is modelled for ASCII letters only. Unicode case mapping is not modelled.
- Missing categorical values (NaN State, District, Crop or Season, which `groupby` drops) are not modelled: those columns are plain strings.
- Year is an integer in every row; a missing Year is not modelled.
- `groupby` over an empty table is modelled as an empty result. pandas' special cases for empty frames in `agg` and `unstack` (column sets, dtypes) are not modelled.
- Order.SortByScore: fixes one tie order (insertion order). Only the permutation and the non-increasing order are claimed, because pandas does not promise a tie order.
- `get_time_series_data`'s metric is limited to the three numeric columns (Area, Production, Yield).
- The table is a value: "the input is not modified because a copy is taken" holds by construction and is not stated separately.
- The default arguments `top_n=10` (utils.py:54) and `metric='Production'` (utils.py:63) are not modelled as defaults: `topN` and `m` are ordinary parameters, and every value, the defaults included, is accepted.
