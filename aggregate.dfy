/**
 * The query functions of utils.py: `groupby` / `agg` / `sort_values` / `head` /
 * `unstack` pipelines over the (possibly filtered) crop table.
 */
module Aggregate {
  import opened Wrappers
  import opened Seqs
  import opened Order
  import opened Table

  // ---------------------------------------------------------------------------
  // Groups and group keys

  /** One group of `groupby(c)`: the rows whose column `c` holds `k`, in table order. */
  function Group(t: Table, c: Category, k: string): Table
  {
    Where(t, (r: Record) => Label(r, c) == k)
  }

  /** One group of `groupby('Year')`. */
  function YearGroup(t: Table, y: int): Table
  {
    Where(t, (r: Record) => r.year == y)
  }

  /** The keys of `groupby(c)`: each value of the column once, ascending. */
  function GroupKeys(t: Table, c: Category): (ks: seq<string>)
    ensures Ascending(ks, StrLess) && Distinct(ks)
    ensures forall k :: k in ks <==> exists r :: r in t && Label(r, c) == k
  {
    StrLessIsStrictTotal();
    SortedKeysAscending(Labels(t, c), StrLess);
    LabelValues(t, c);
    SortedKeys(Labels(t, c), StrLess)
  }

  /** The keys of `groupby('Year')`: each year once, ascending. */
  function GroupYears(t: Table): (ys: seq<int>)
    ensures forall i, j :: 0 <= i < j < |ys| ==> ys[i] < ys[j]
    ensures forall y :: y in ys <==> exists r :: r in t && r.year == y
  {
    IntLessIsStrictTotal();
    SortedKeysAscending(Years(t), IntLess);
    YearValues(t);
    var ys := SortedKeys(Years(t), IntLess);
    assert forall i, j :: 0 <= i < j < |ys| ==> IntLess(ys[i], ys[j]);
    ys
  }

  /** `groupby(c)` followed by an aggregation of each group: one entry per key, ascending by key. */
  function GroupBy<V>(t: Table, c: Category, agg: Table -> V): seq<(string, V)>
  {
    var ks := GroupKeys(t, c);
    seq(|ks|, i requires 0 <= i < |ks| => (ks[i], agg(Group(t, c, ks[i]))))
  }

  function GroupByYear<V>(t: Table, agg: Table -> V): seq<(int, V)>
  {
    var ys := GroupYears(t);
    seq(|ys|, i requires 0 <= i < |ys| => (ys[i], agg(YearGroup(t, ys[i]))))
  }

  /** The index of a grouped result. */
  function KeysOf<K, V>(g: seq<(K, V)>): seq<K>
  {
    seq(|g|, i requires 0 <= i < |g| => g[i].0)
  }

  /**
   * `g` is a grouping of `t` by `c` under `agg`, in any order: its keys are
   * distinct and are exactly the values of the column, and each carries the
   * aggregate of its group.
   */
  ghost predicate IsGrouping<V>(g: seq<(string, V)>, t: Table, c: Category, agg: Table -> V)
  {
    && (forall i, j :: 0 <= i < j < |g| ==> g[i].0 != g[j].0)
    && (forall i :: 0 <= i < |g| ==> g[i].1 == agg(Group(t, c, g[i].0)))
    && (forall k :: k in KeysOf(g) <==> k in Labels(t, c))
  }

  ghost predicate KeysAscending<V>(g: seq<(string, V)>)
  {
    forall i, j :: 0 <= i < j < |g| ==> StrLess(g[i].0, g[j].0)
  }

  /** The Year counterpart of IsGrouping, which also fixes the order: ascending years. */
  ghost predicate IsYearSeries<V>(g: seq<(int, V)>, t: Table, agg: Table -> V)
  {
    && (forall i, j :: 0 <= i < j < |g| ==> g[i].0 < g[j].0)
    && (forall i :: 0 <= i < |g| ==> g[i].1 == agg(YearGroup(t, g[i].0)))
    && (forall y :: y in KeysOf(g) <==> y in Years(t))
  }

  lemma GroupBySpec<V>(t: Table, c: Category, agg: Table -> V)
    ensures IsGrouping(GroupBy(t, c, agg), t, c, agg)
    ensures KeysAscending(GroupBy(t, c, agg))
    ensures |GroupBy(t, c, agg)| == |GroupKeys(t, c)|
  {
    LabelValues(t, c);
    assert KeysOf(GroupBy(t, c, agg)) == GroupKeys(t, c);
  }

  lemma GroupByYearSpec<V>(t: Table, agg: Table -> V)
    ensures IsYearSeries(GroupByYear(t, agg), t, agg)
    ensures |GroupByYear(t, agg)| == |GroupYears(t)|
  {
    YearValues(t);
    assert KeysOf(GroupByYear(t, agg)) == GroupYears(t);
  }

  /** A grouping has no repeated entry, since its keys are distinct. */
  lemma GroupingDistinct<V(!new)>(g: seq<(string, V)>, t: Table, c: Category, agg: Table -> V)
    requires IsGrouping(g, t, c, agg)
    ensures Distinct(g)
  {
    forall i, j | 0 <= i < j < |g|
      ensures g[i] != g[j]
    {
      assert g[i].0 != g[j].0;
    }
  }

  /** Every entry of `h` is an entry of `g` and the other way round. */
  lemma SameEntries<V(!new)>(g: seq<(string, V)>, h: seq<(string, V)>)
    requires multiset(h) == multiset(g)
    ensures forall e :: e in h <==> e in g
    ensures forall k :: k in KeysOf(h) <==> k in KeysOf(g)
  {
    forall e
      ensures e in h <==> e in g
    {
      assert e in h <==> e in multiset(h);
      assert e in g <==> e in multiset(g);
    }
    forall k | k in KeysOf(h)
      ensures k in KeysOf(g)
    {
      var i :| 0 <= i < |h| && KeysOf(h)[i] == k;
      assert h[i] in g;
      var a :| 0 <= a < |g| && g[a] == h[i];
      assert KeysOf(g)[a] == k;
    }
    forall k | k in KeysOf(g)
      ensures k in KeysOf(h)
    {
      var a :| 0 <= a < |g| && KeysOf(g)[a] == k;
      assert g[a] in h;
      var i :| 0 <= i < |h| && h[i] == g[a];
      assert KeysOf(h)[i] == k;
    }
  }

  /** Reordering the entries of a grouping (sort_values) leaves a grouping. */
  lemma ReorderedGrouping<V(!new)>(g: seq<(string, V)>, h: seq<(string, V)>, t: Table, c: Category, agg: Table -> V)
    requires IsGrouping(g, t, c, agg)
    requires multiset(h) == multiset(g) && Distinct(h)
    ensures IsGrouping(h, t, c, agg)
  {
    SameEntries(g, h);
    forall i, j | 0 <= i < j < |h|
      ensures h[i].0 != h[j].0
    {
      assert h[i] in g && h[j] in g;
      var a :| 0 <= a < |g| && g[a] == h[i];
      var b :| 0 <= b < |g| && g[b] == h[j];
      assert h[i] != h[j];
      if a < b {
        assert g[a].0 != g[b].0;
      } else if b < a {
        assert g[b].0 != g[a].0;
      }
    }
    forall i | 0 <= i < |h|
      ensures h[i].1 == agg(Group(t, c, h[i].0))
    {
      assert h[i] in g;
      var a :| 0 <= a < |g| && g[a] == h[i];
    }
  }

  /** The entries of a grouping, ranked by a score in `sort_values(ascending=False)` order. */
  lemma RankedGrouping<V(!new)>(t: Table, c: Category, agg: Table -> V, score: ((string, V)) -> Option<real>)
    ensures IsGrouping(SortByScore(GroupBy(t, c, agg), score), t, c, agg)
    ensures NonIncreasing(SortByScore(GroupBy(t, c, agg), score), score)
    ensures |SortByScore(GroupBy(t, c, agg), score)| == |GroupKeys(t, c)|
  {
    var g := GroupBy(t, c, agg);
    GroupBySpec(t, c, agg);
    GroupingDistinct(g, t, c, agg);
    SortByScoreDistinct(g, score);
    SortByScoreSorted(g, score);
    ReorderedGrouping(g, SortByScore(g, score), t, c, agg);
  }

  // ---------------------------------------------------------------------------
  // The aggregates

  function TotalProduction(rows: Table): real
  {
    SumOf(rows, Production)
  }

  function MeanYield(rows: Table): Option<real>
  {
    MeanOf(rows, Yield)
  }

  function RealScore(e: (string, real)): Option<real>
  {
    Some(e.1)
  }

  function OptionScore(e: (string, Option<real>)): Option<real>
  {
    e.1
  }

  function TotalsYieldScore(e: (string, Totals)): Option<real>
  {
    e.1.meanYield
  }

  /** `get_unique_values`: the distinct values of a column in order of first appearance. */
  function UniqueValues(t: Table, c: Category): (u: seq<string>)
    ensures Distinct(u)
    ensures forall v :: v in u <==> v in Labels(t, c)
    ensures forall v :: v in u <==> exists r :: r in t && Label(r, c) == v
    ensures forall i, j :: 0 <= i < j < |u| ==> IndexOf(Labels(t, c), u[i]) < IndexOf(Labels(t, c), u[j])
  {
    LabelValues(t, c);
    UniqueFirstAppearance(Labels(t, c));
    Unique(Labels(t, c))
  }

  /** `get_unique_values(df, 'Year')`. */
  function UniqueYears(t: Table): (u: seq<int>)
    ensures Distinct(u)
    ensures forall y :: y in u <==> y in Years(t)
    ensures forall y :: y in u <==> exists r :: r in t && r.year == y
    ensures forall i, j :: 0 <= i < j < |u| ==> IndexOf(Years(t), u[i]) < IndexOf(Years(t), u[j])
  {
    YearValues(t);
    UniqueFirstAppearance(Years(t));
    Unique(Years(t))
  }

  /**
   * `get_top_producing_districts`: summed Production per district, largest first,
   * cut by `head(top_n)`. The result is a prefix of the full ranking, so no district
   * left out has a larger total than any district kept.
   */
  function TopProducingDistricts(t: Table, topN: int): (top: seq<(string, real)>)
    ensures |top| == HeadLength(|GroupKeys(t, District)|, topN)
    ensures forall i, j :: 0 <= i < j < |top| ==> top[i].0 != top[j].0
    ensures forall k :: k in KeysOf(top) ==> k in Labels(t, District)
    ensures forall i :: 0 <= i < |top| ==> top[i].1 == TotalProduction(Group(t, District, top[i].0))
    ensures forall i, j :: 0 <= i < j < |top| ==> top[i].1 >= top[j].1
    ensures forall k, i :: k in Labels(t, District) && k !in KeysOf(top) && 0 <= i < |top| ==>
      top[i].1 >= TotalProduction(Group(t, District, k))
  {
    var ranked := SortByScore(GroupBy(t, District, TotalProduction), RealScore);
    RankedGrouping(t, District, TotalProduction, RealScore);
    var top := Head(ranked, topN);
    PrefixOfGrouping(ranked, top, t, District, TotalProduction);
    TopOfRanking(ranked, top, t);
    top
  }

  /** A prefix of a grouping keeps distinct keys drawn from the column, each with its group's aggregate. */
  lemma PrefixOfGrouping<V>(g: seq<(string, V)>, top: seq<(string, V)>, t: Table, c: Category, agg: Table -> V)
    requires IsGrouping(g, t, c, agg)
    requires |top| <= |g| && top == g[..|top|]
    ensures forall i, j :: 0 <= i < j < |top| ==> top[i].0 != top[j].0
    ensures forall i :: 0 <= i < |top| ==> top[i].1 == agg(Group(t, c, top[i].0))
    ensures forall k :: k in KeysOf(top) ==> k in Labels(t, c)
  {
    forall k | k in KeysOf(top)
      ensures k in Labels(t, c)
    {
      var i :| 0 <= i < |top| && KeysOf(top)[i] == k;
      assert KeysOf(g)[i] == k;
    }
  }

  /** A prefix of the ranking by total production is a top list: nothing left out outranks what is kept. */
  lemma TopOfRanking(ranked: seq<(string, real)>, top: seq<(string, real)>, t: Table)
    requires IsGrouping(ranked, t, District, TotalProduction) && NonIncreasing(ranked, RealScore)
    requires |top| <= |ranked| && top == ranked[..|top|]
    ensures forall i, j :: 0 <= i < j < |top| ==> top[i].1 >= top[j].1
    ensures forall k, i :: k in Labels(t, District) && k !in KeysOf(top) && 0 <= i < |top| ==>
      top[i].1 >= TotalProduction(Group(t, District, k))
  {
    assert forall b :: 0 <= b < |top| ==> KeysOf(top)[b] == ranked[b].0 && KeysOf(top)[b] in KeysOf(top);
    forall i, j | 0 <= i < j < |top|
      ensures top[i].1 >= top[j].1
    {
      assert AtLeast(RealScore(ranked[i]), RealScore(ranked[j]));
    }
    forall k, i | k in Labels(t, District) && k !in KeysOf(top) && 0 <= i < |top|
      ensures top[i].1 >= TotalProduction(Group(t, District, k))
    {
      var a :| 0 <= a < |ranked| && KeysOf(ranked)[a] == k;
      assert AtLeast(RealScore(ranked[i]), RealScore(ranked[a]));
    }
  }

  /** `get_time_series_data`: the sum of one metric per year, ascending by year. */
  function GetTimeSeriesData(t: Table, m: Metric): (series: seq<(int, real)>)
    ensures IsYearSeries(series, t, (rows: Table) => SumOf(rows, m))
    ensures |series| == |GroupYears(t)|
  {
    GroupByYearSpec(t, (rows: Table) => SumOf(rows, m));
    GroupByYear(t, (rows: Table) => SumOf(rows, m))
  }

  /** `get_multi_metric_time_series`: sum(Area), sum(Production) and mean(Yield) per year, ascending by year. */
  function GetMultiMetricTimeSeries(t: Table): (series: seq<(int, Totals)>)
    ensures IsYearSeries(series, t, Summarize)
    ensures |series| == |GroupYears(t)|
  {
    GroupByYearSpec(t, Summarize);
    GroupByYear(t, Summarize)
  }

  /** `get_yield_by_district`: mean Yield per district, largest first, NaN last. */
  function GetYieldByDistrict(t: Table): (ranking: seq<(string, Option<real>)>)
    ensures IsGrouping(ranking, t, District, MeanYield)
    ensures NonIncreasing(ranking, OptionScore)
  {
    RankedGrouping(t, District, MeanYield, OptionScore);
    SortByScore(GroupBy(t, District, MeanYield), OptionScore)
  }

  /** `get_yield_by_state`: mean Yield per state, largest first, NaN last. */
  function GetYieldByState(t: Table): (ranking: seq<(string, Option<real>)>)
    ensures IsGrouping(ranking, t, State, MeanYield)
    ensures NonIncreasing(ranking, OptionScore)
  {
    RankedGrouping(t, State, MeanYield, OptionScore);
    SortByScore(GroupBy(t, State, MeanYield), OptionScore)
  }

  /** The district table before rounding: per-district totals ranked by the unrounded mean Yield. */
  function RankDistrictsByYield(t: Table): (ranked: seq<(string, Totals)>)
    ensures IsGrouping(ranked, t, District, Summarize)
    ensures NonIncreasing(ranked, TotalsYieldScore)
  {
    RankedGrouping(t, District, Summarize, TotalsYieldScore);
    SortByScore(GroupBy(t, District, Summarize), TotalsYieldScore)
  }

  /** `.round(3)` on the Yield column; NaN stays NaN. */
  function RoundYield(totals: Totals, round: real -> real): Totals
  {
    totals.(meanYield := if totals.meanYield.Some? then Some(round(totals.meanYield.value)) else None)
  }

  /**
   * `get_district_yield_table`: the ranking of RankDistrictsByYield with its Yield
   * column rounded afterwards, so rows stay in the order of the unrounded means.
   * The rounding itself is the parameter `round`.
   */
  function GetDistrictYieldTable(t: Table, round: real -> real): (table: seq<(string, Totals)>)
    ensures IsGrouping(table, t, District, (rows: Table) => RoundedSummary(rows, round))
    ensures forall i, j :: 0 <= i < j < |table| ==>
      AtLeast(MeanYield(Group(t, District, table[i].0)), MeanYield(Group(t, District, table[j].0)))
  {
    var ranked := RankDistrictsByYield(t);
    var table := RoundYields(ranked, round);
    RoundedGrouping(ranked, t, round);
    table
  }

  /** The per-district figures of the yield table: the totals with the mean Yield rounded. */
  function RoundedSummary(rows: Table, round: real -> real): Totals
  {
    RoundYield(Summarize(rows), round)
  }

  function RoundYields(ranked: seq<(string, Totals)>, round: real -> real): seq<(string, Totals)>
  {
    seq(|ranked|, i requires 0 <= i < |ranked| => (ranked[i].0, RoundYield(ranked[i].1, round)))
  }

  /** Rounding after ranking keeps the groups and the order of the unrounded means. */
  lemma RoundedGrouping(ranked: seq<(string, Totals)>, t: Table, round: real -> real)
    requires IsGrouping(ranked, t, District, Summarize) && NonIncreasing(ranked, TotalsYieldScore)
    ensures IsGrouping(RoundYields(ranked, round), t, District, (rows: Table) => RoundedSummary(rows, round))
    ensures forall i, j :: 0 <= i < j < |RoundYields(ranked, round)| ==>
      AtLeast(MeanYield(Group(t, District, RoundYields(ranked, round)[i].0)),
              MeanYield(Group(t, District, RoundYields(ranked, round)[j].0)))
  {
    var table := RoundYields(ranked, round);
    assert KeysOf(table) == KeysOf(ranked);
    forall i | 0 <= i < |table|
      ensures table[i].1 == RoundedSummary(Group(t, District, table[i].0), round)
    {
      assert ranked[i].1 == Summarize(Group(t, District, ranked[i].0));
    }
    forall i, j | 0 <= i < j < |table|
      ensures AtLeast(MeanYield(Group(t, District, table[i].0)), MeanYield(Group(t, District, table[j].0)))
    {
      assert AtLeast(TotalsYieldScore(ranked[i]), TotalsYieldScore(ranked[j]));
      assert ranked[i].1 == Summarize(Group(t, District, ranked[i].0));
      assert ranked[j].1 == Summarize(Group(t, District, ranked[j].0));
    }
  }

  /** With a rounding that never reverses two values, the rounded table is still ranked. */
  lemma DistrictYieldTableRanked(t: Table, round: real -> real)
    requires forall x: real, y: real :: x >= y ==> round(x) >= round(y)
    ensures NonIncreasing(GetDistrictYieldTable(t, round), TotalsYieldScore)
  {
    var ranked, table := RankDistrictsByYield(t), GetDistrictYieldTable(t, round);
    forall i, j | 0 <= i < j < |table|
      ensures AtLeast(TotalsYieldScore(table[i]), TotalsYieldScore(table[j]))
    {
      assert AtLeast(TotalsYieldScore(ranked[i]), TotalsYieldScore(ranked[j]));
    }
  }

  /** `prepare_scatter_data`: sum(Area), sum(Production), mean(Yield) per district, ascending by district. */
  function PrepareScatterData(t: Table): (data: seq<(string, Totals)>)
    ensures IsGrouping(data, t, District, Summarize)
    ensures KeysAscending(data)
  {
    GroupBySpec(t, District, Summarize);
    GroupBy(t, District, Summarize)
  }

  /** `prepare_state_data_for_map`: mean(Yield), sum(Production), sum(Area) per state, ascending by state. */
  function PrepareStateDataForMap(t: Table): (data: seq<(string, Totals)>)
    ensures IsGrouping(data, t, State, Summarize)
    ensures KeysAscending(data)
  {
    GroupBySpec(t, State, Summarize);
    GroupBy(t, State, Summarize)
  }

  // ---------------------------------------------------------------------------
  // Crop-wise production

  /** `df['Crop'].unique()[:5]`: the first five distinct crops in order of first appearance. */
  function DefaultCrops(t: Table): (crops: seq<string>)
    ensures |crops| <= 5 && Distinct(crops)
    ensures |crops| == if |UniqueValues(t, Crop)| < 5 then |UniqueValues(t, Crop)| else 5
    ensures forall c :: c in crops ==> c in Labels(t, Crop)
    ensures forall i, c :: 0 <= i < |crops| && c in Labels(t, Crop) && c !in crops ==>
      IndexOf(Labels(t, Crop), crops[i]) < IndexOf(Labels(t, Crop), c)
  {
    var u := UniqueValues(t, Crop);
    var crops := u[..if |u| < 5 then |u| else 5];
    assert forall i :: 0 <= i < |crops| ==> crops[i] == u[i] && u[i] in u;
    assert forall i, c :: 0 <= i < |crops| && c in Labels(t, Crop) && c !in crops ==>
      IndexOf(Labels(t, Crop), crops[i]) < IndexOf(Labels(t, Crop), c) by {
      forall i, c | 0 <= i < |crops| && c in Labels(t, Crop) && c !in crops
        ensures IndexOf(Labels(t, Crop), crops[i]) < IndexOf(Labels(t, Crop), c)
      {
        var k :| 0 <= k < |u| && u[k] == c;
        assert k >= |crops|;
      }
    }
    crops
  }

  /** The crops the pivot is restricted to: the caller's, or the default five when none are given. */
  function CropSelection(t: Table, crops: Option<seq<string>>): seq<string>
  {
    if crops.None? || |crops.value| == 0 then DefaultCrops(t) else crops.value
  }

  /** The rows of one pivot cell. */
  function CellRows(t: Table, y: int, c: string): Table
  {
    Where(t, (r: Record) => r.year == y && r.crop == c)
  }

  /** No row of the table is for crop `c` in year `y`. */
  predicate NoRowFor(t: Table, y: int, c: string)
  {
    forall r :: r in t ==> r.year != y || r.crop != c
  }

  /** A Year × Crop table: `cells[i][j]` belongs to `years[i]` and `crops[j]`. */
  datatype Pivot = Pivot(years: seq<int>, crops: seq<string>, cells: seq<seq<real>>)

  /**
   * `get_crop_wise_production`: rows restricted to the selected crops, summed
   * Production per (Year, Crop), unstacked to a Year × Crop table with 0 where no
   * row exists. Rows and columns are ascending, as `groupby` orders its keys.
   */
  function GetCropWiseProduction(t: Table, crops: Option<seq<string>>): (p: Pivot)
    ensures |p.cells| == |p.years| && forall i :: 0 <= i < |p.years| ==> |p.cells[i]| == |p.crops|
    ensures forall i, j :: 0 <= i < j < |p.years| ==> p.years[i] < p.years[j]
    ensures Ascending(p.crops, StrLess)
    ensures forall y :: y in p.years <==> exists r :: r in t && r.crop in CropSelection(t, crops) && r.year == y
    ensures forall c :: c in p.crops <==> c in CropSelection(t, crops) && exists r :: r in t && r.crop == c
    ensures forall i, j :: 0 <= i < |p.years| && 0 <= j < |p.crops| ==>
      p.cells[i][j] == SumOf(CellRows(t, p.years[i], p.crops[j]), Production)
    ensures forall i, j :: 0 <= i < |p.years| && 0 <= j < |p.crops| && NoRowFor(t, p.years[i], p.crops[j]) ==>
      p.cells[i][j] == 0.0
    ensures |t| == 0 ==> p == Pivot([], [], [])
  {
    var sel := CropSelection(t, crops);
    var rows := Where(t, (r: Record) => r.crop in sel);
    var ys, cs := GroupYears(rows), GroupKeys(rows, Crop);
    var p := Pivot(ys, cs, seq(|ys|, i requires 0 <= i < |ys| =>
      seq(|cs|, j requires 0 <= j < |cs| => SumOf(CellRows(rows, ys[i], cs[j]), Production))));
    assert forall c :: c in cs ==> c in sel by {
      forall c | c in cs ensures c in sel {
        var r :| r in rows && Label(r, Crop) == c;
      }
    }
    forall i, j | 0 <= i < |ys| && 0 <= j < |cs|
      ensures p.cells[i][j] == SumOf(CellRows(t, ys[i], cs[j]), Production)
    {
      WhereWhere(t, (r: Record) => r.crop in sel, (r: Record) => r.year == ys[i] && r.crop == cs[j],
        (r: Record) => r.year == ys[i] && r.crop == cs[j]);
    }
    forall i, j | 0 <= i < |ys| && 0 <= j < |cs| && NoRowFor(t, ys[i], cs[j])
      ensures p.cells[i][j] == 0.0
    {
      WhereNone(t, (r: Record) => r.year == ys[i] && r.crop == cs[j]);
    }
    assert |t| == 0 ==> |ys| == 0 && |cs| == 0;
    p
  }
}
