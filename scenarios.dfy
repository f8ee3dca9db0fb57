/** Worked examples: facts proved about concrete inputs. */
module Scenarios {
  import opened Wrappers
  import opened Seqs
  import opened Order
  import opened Table
  import opened Normalize
  import opened Aggregate
  import opened Reconcile

  const Tonnes := Record("Punjab", "Ludhiana", "Wheat", "Rabi", 2020, Some(100.0), Some(300.0), Some("Tonnes"), Some(3.0))
  const Bales := Record("Punjab", "Ludhiana", "Wheat", "Rabi", 2020, Some(50.0), Some(1000.0), Some("Bales"), Some(2.0))

  /**
   * Two Ludhiana wheat rows for 2020, one in tonnes and one in bales: normalised
   * Production is 300 and 170, and the year's figures are Area 150, Production 470
   * and mean Yield 2.5.
   */
  lemma LudhianaScenario()
    ensures NormalizedTable([Tonnes, Bales]) == [Tonnes, Bales.(production := Some(170.0))]
    ensures GetMultiMetricTimeSeries(NormalizedTable([Tonnes, Bales])) == [(2020, Totals(150.0, 470.0, Some(2.5)))]
  {
    var bales := Bales.(production := Some(170.0));
    var t := [Tonnes, bales];
    assert NormalizedTable([Tonnes, Bales]) == t;
    assert Years(t) == [2020, 2020] && Years(t)[1..] == [2020] && Years(t)[1..][1..] == [];
    assert SortedKeys([2020], IntLess) == [2020];
    assert GroupYears(t) == [2020];
    WhereAll(t, (r: Record) => r.year == 2020);
    assert YearGroup(t, 2020) == t;
    assert t[1..] == [bales] && [bales][1..] == [];
    assert SumOf([bales], Area) == 50.0 && SumOf([bales], Production) == 170.0 && SumOf([bales], Yield) == 2.0;
    assert CountOf([bales], Yield) == 1;
    assert Summarize(t) == Totals(150.0, 470.0, Some(2.5));
  }

  /** "Jammu & Kashmir" takes the fourth special case. */
  lemma JammuFeature(states: seq<string>)
    ensures Target("Jammu & Kashmir", states) == Some("Jammu and Kashmir")
  {
    var jk := "Jammu & Kashmir";
    assert StartsWith(jk, "Jammu") by {
      assert jk[..5] == "Jammu";
    }
    assert 'A' !in jk && 'D' !in jk;
    MissingChar(jk, "Andaman", 'A');
    MissingChar(jk, "Arunachal", 'A');
    MissingChar(jk, "Dadara", 'D');
    MissingChar(jk, "Dadra", 'D');
  }

  /** "Delhi" has no special spelling and does not contain "NCT of Delhi" (the reverse holds), so it matches nothing. */
  lemma DelhiFeature()
    ensures Target("Delhi", ["NCT of Delhi"]) == None
  {
    var delhi := "Delhi";
    assert 'A' !in delhi && 'a' !in delhi && 'J' !in delhi;
    MissingChar(delhi, "Andaman", 'A');
    MissingChar(delhi, "Arunachal", 'A');
    MissingChar(delhi, "Dadara", 'a');
    MissingChar(delhi, "Dadra", 'a');
    MissingChar(delhi, "Jammu", 'J');
    assert Lower(delhi) == "delhi" && 'n' !in Lower(delhi);
    assert Lower("NCT of Delhi")[0] == 'n';
    MissingChar(Canonical(delhi), Canonical("NCT of Delhi"), 'n');
  }

  /**
   * A feature spelt "Jammu & Kashmir" is stored under "Jammu and Kashmir" by the
   * special case; a feature "Delhi" does not contain the State "NCT of Delhi"
   * (containment is one-directional), so that State gets no GeoName.
   */
  lemma ReconcileScenario()
    ensures StateNameMap(["Jammu & Kashmir", "Delhi"], ["NCT of Delhi"]) == map["Jammu and Kashmir" := "Jammu & Kashmir"]
  {
    JammuFeature(["NCT of Delhi"]);
    DelhiFeature();
    HitThenMiss("Jammu & Kashmir", "Delhi", ["NCT of Delhi"], "Jammu and Kashmir");
  }

  /** Two features, the first stored under `k`, the second matching nothing. */
  lemma HitThenMiss(hit: string, miss: string, states: seq<string>, k: string)
    requires Target(hit, states) == Some(k) && Target(miss, states) == None
    ensures StateNameMap([hit, miss], states) == map[k := hit]
  {
    var features := [hit, miss];
    assert features[..1] == [hit] && features[..1][..0] == [] && features[1] == miss;
    assert StateNameMap([], states) == map[];
    assert StateNameMap([hit], states) == map[k := hit];
  }
}
