/**
 * Unit normalisation (utils.py `normalize_production_units`, which `load_data`
 * applies to the freshly read table): every Production value is converted to
 * tonnes using a fixed factor per Production Unit.
 */
module Normalize {
  import opened Wrappers
  import opened Table

  /** Tonnes per unit; a unit not listed here is taken as already in tonnes. */
  const ConversionFactors: map<string, real> := map["Tonnes" := 1.0, "Bales" := 0.17, "Nuts" := 0.001]

  /** `conversion_factors.get(unit, 1.0)`. */
  function Factor(unit: string): real
  {
    if unit in ConversionFactors then ConversionFactors[unit] else 1.0
  }

  /** The row-wise `Production_Normalized` value: converted when both cells are present, otherwise the raw cell. */
  function NormalizedProduction(r: Record): Option<real>
  {
    if r.production.Some? && r.units.Some? then Some(r.production.value * Factor(r.units.value))
    else r.production
  }

  function NormalizedRow(r: Record): Record
  {
    r.(production := NormalizedProduction(r))
  }

  /** The table `normalize_production_units` returns. */
  function NormalizedTable(t: Table): Table
  {
    seq(|t|, i requires 0 <= i < |t| => NormalizedRow(t[i]))
  }

  /**
   * Works on a copy (the caller's table is a value and cannot change): first the
   * temporary column of converted values, then Production overwritten from it;
   * the temporary column is not part of the result.
   */
  method NormalizeProductionUnits(df: Table) returns (out: Table)
    ensures out == NormalizedTable(df)
  {
    var normalized: seq<Option<real>> := [];
    for i := 0 to |df|
      invariant |normalized| == i
      invariant forall k :: 0 <= k < i ==> normalized[k] == NormalizedProduction(df[k])
    {
      var row := df[i];
      var value := if row.production.Some? && row.units.Some?
        then Some(row.production.value * Factor(row.units.value))
        else row.production;
      assert value == NormalizedProduction(df[i]);
      normalized := normalized + [value];
    }
    out := [];
    for i := 0 to |df|
      invariant |out| == i
      invariant forall k :: 0 <= k < i ==> out[k] == df[k].(production := normalized[k])
    {
      out := out + [df[i].(production := normalized[i])];
    }
  }

  /** The conversion table, case by case. */
  lemma FactorTable(unit: string)
    ensures unit == "Tonnes" ==> Factor(unit) == 1.0
    ensures unit == "Bales" ==> Factor(unit) == 0.17
    ensures unit == "Nuts" ==> Factor(unit) == 0.001
    ensures unit != "Tonnes" && unit != "Bales" && unit != "Nuts" ==> Factor(unit) == 1.0
    ensures Factor(unit) > 0.0
  {
  }

  /**
   * Normalisation keeps the row count and every column but Production; Production
   * becomes raw times factor when both Production and its unit are present and is
   * left as it was (possibly missing) otherwise.
   */
  lemma NormalizedTableSpec(t: Table)
    ensures |NormalizedTable(t)| == |t|
    ensures forall i :: 0 <= i < |t| ==>
      NormalizedTable(t)[i].(production := t[i].production) == t[i]
    ensures forall i :: 0 <= i < |t| && t[i].production.Some? && t[i].units.Some? ==>
      NormalizedTable(t)[i].production == Some(t[i].production.value * Factor(t[i].units.value))
    ensures forall i :: 0 <= i < |t| && (t[i].production.None? || t[i].units.None?) ==>
      NormalizedTable(t)[i].production == t[i].production
  {
  }

  /** A row in tonnes, or in a unit without a factor, comes out unchanged. */
  lemma UnitFactorOneIsFixpoint(r: Record)
    requires r.units.Some? && Factor(r.units.value) == 1.0
    ensures NormalizedRow(r) == r
  {
  }

  /** The conversion scales production, so a non-negative production stays non-negative. */
  lemma NormalizedKeepsSign(r: Record)
    requires r.production.Some? && r.production.value >= 0.0
    ensures NormalizedRow(r).production.Some? && NormalizedRow(r).production.value >= 0.0
  {
  }

  /** Over rows that all share one unit, the normalised total is the raw total times that unit's factor. */
  lemma {:induction false} NormalizedTotal(t: Table, unit: string)
    requires forall r :: r in t ==> r.units == Some(unit)
    ensures SumOf(NormalizedTable(t), Production) == Factor(unit) * SumOf(t, Production)
  {
    if |t| > 0 {
      assert t[0] in t;
      assert forall r :: r in t[1..] ==> r in t;
      assert NormalizedTable(t)[1..] == NormalizedTable(t[1..]);
      NormalizedTotal(t[1..], unit);
      NormalizedHead(t[0], unit);
      Distribute(Factor(unit), Cell(t[0].production), SumOf(t[1..], Production));
    }
  }

  lemma NormalizedHead(r: Record, unit: string)
    requires r.units == Some(unit)
    ensures Cell(NormalizedRow(r).production) == Factor(unit) * Cell(r.production)
  {
  }

  lemma Distribute(f: real, a: real, b: real)
    ensures f * (a + b) == f * a + f * b
  {
  }

  /** Normalising twice is not normalising once: the pass must run exactly once, at load time. */
  lemma NormalizeNotIdempotent(r: Record)
    requires r.units == Some("Bales") && r.production.Some? && r.production.value != 0.0
    ensures NormalizedRow(NormalizedRow(r)) != NormalizedRow(r)
  {
    var p := r.production.value;
    assert NormalizedRow(r).production == Some(p * 0.17);
    assert NormalizedRow(NormalizedRow(r)).production == Some(p * 0.17 * 0.17);
  }
}
