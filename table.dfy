/**
 * The crop table: one record per (State, District, Crop, Season, Year), with the
 * numeric cells pandas may read as NaN kept optional, and pandas' NaN-skipping
 * column reductions `sum()` and `mean()`.
 */
module Table {
  import opened Wrappers
  import opened Seqs

  datatype Record = Record(
    state: string,
    district: string,
    crop: string,
    season: string,
    year: int,
    area: Option<real>,
    production: Option<real>,
    units: Option<string>,
    yieldRate: Option<real>)

  type Table = seq<Record>

  /** The numeric columns. */
  datatype Metric = Area | Production | Yield

  /** The categorical columns rows are grouped and filtered by. */
  datatype Category = State | District | Crop | Season

  function Value(r: Record, m: Metric): Option<real>
  {
    match m
    case Area => r.area
    case Production => r.production
    case Yield => r.yieldRate
  }

  function Label(r: Record, c: Category): string
  {
    match c
    case State => r.state
    case District => r.district
    case Crop => r.crop
    case Season => r.season
  }

  /** The column `c` as a sequence, in row order. */
  function Labels(t: Table, c: Category): seq<string>
  {
    seq(|t|, i requires 0 <= i < |t| => Label(t[i], c))
  }

  function Years(t: Table): seq<int>
  {
    seq(|t|, i requires 0 <= i < |t| => t[i].year)
  }

  /** A categorical column holds exactly the values its rows carry. */
  lemma LabelValues(t: Table, c: Category)
    ensures forall k :: k in Labels(t, c) <==> exists r :: r in t && Label(r, c) == k
  {
    forall k | k in Labels(t, c)
      ensures exists r :: r in t && Label(r, c) == k
    {
      var i :| 0 <= i < |t| && Labels(t, c)[i] == k;
      assert t[i] in t;
    }
    forall k | exists r :: r in t && Label(r, c) == k
      ensures k in Labels(t, c)
    {
      var r :| r in t && Label(r, c) == k;
      var i :| 0 <= i < |t| && t[i] == r;
      assert Labels(t, c)[i] == k;
    }
  }

  /** The Year column holds exactly the years its rows carry. */
  lemma YearValues(t: Table)
    ensures forall y :: y in Years(t) <==> exists r :: r in t && r.year == y
  {
    forall y | y in Years(t)
      ensures exists r :: r in t && r.year == y
    {
      var i :| 0 <= i < |t| && Years(t)[i] == y;
      assert t[i] in t;
    }
    forall y | exists r :: r in t && r.year == y
      ensures y in Years(t)
    {
      var r :| r in t && r.year == y;
      var i :| 0 <= i < |t| && t[i] == r;
      assert Years(t)[i] == y;
    }
  }

  /** A cell's contribution to `sum()`: NaN adds nothing. */
  function Cell(v: Option<real>): real
  {
    match v
    case Some(x) => x
    case None => 0.0
  }

  /** `sum()` of column `m`: NaN cells are skipped, so a column without values sums to 0. */
  function SumOf(t: Table, m: Metric): real
  {
    if |t| == 0 then 0.0
    else Cell(Value(t[0], m)) + SumOf(t[1..], m)
  }

  /** The number of non-NaN cells of column `m`. */
  function CountOf(t: Table, m: Metric): (n: nat)
    ensures n <= |t|
    ensures n == 0 <==> forall r :: r in t ==> Value(r, m).None?
  {
    if |t| == 0 then 0
    else
      assert forall r :: r in t <==> r == t[0] || r in t[1..];
      (if Value(t[0], m).Some? then 1 else 0) + CountOf(t[1..], m)
  }

  /** `mean()` of column `m`: the average of the non-NaN cells, NaN when there are none. */
  function MeanOf(t: Table, m: Metric): (mean: Option<real>)
    ensures mean.None? <==> forall r :: r in t ==> Value(r, m).None?
  {
    var n := CountOf(t, m);
    if n == 0 then None else Some(SumOf(t, m) / n as real)
  }

  /** The three figures the dashboard reports per group: sum(Area), sum(Production), mean(Yield). */
  datatype Totals = Totals(area: real, production: real, meanYield: Option<real>)

  function Summarize(t: Table): Totals
  {
    Totals(SumOf(t, Area), SumOf(t, Production), MeanOf(t, Yield))
  }
}
