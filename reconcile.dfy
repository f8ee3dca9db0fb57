/**
 * Geography name reconciliation (main.py): the `state_name_map` dictionary from
 * State names to the feature names of the map file, built by walking the
 * features in order, and the `GeoName` join column it produces.
 */
module Reconcile {
  import opened Wrappers
  import opened Seqs
  import opened Table
  import opened Aggregate

  // ---------------------------------------------------------------------------
  // String helpers with Python's meaning

  /** `str.lower()` on one character, for the ASCII letters. */
  function LowerChar(ch: char): char
  {
    if 'A' <= ch <= 'Z' then (ch as int + 32) as char else ch
  }

  function Lower(s: string): string
  {
    seq(|s|, i requires 0 <= i < |s| => LowerChar(s[i]))
  }

  /** `str.replace(' ', '')`. */
  function StripSpaces(s: string): string
  {
    Where(s, (ch: char) => ch != ' ')
  }

  /** The form both names are compared in: lower-cased, spaces removed. */
  function Canonical(s: string): (c: string)
    ensures ' ' !in c
    ensures forall ch :: ch in c ==> !('A' <= ch <= 'Z')
    ensures |c| <= |s|
  {
    StripSpaces(Lower(s))
  }

  /** Canonicalising a canonical name changes nothing. */
  lemma CanonicalIdempotent(s: string)
    ensures Canonical(Canonical(s)) == Canonical(s)
  {
    var c := Canonical(s);
    forall i | 0 <= i < |c|
      ensures Lower(c)[i] == c[i]
    {
      assert c[i] in c;
    }
    assert Lower(c) == c;
    WhereAll(c, (ch: char) => ch != ' ');
  }

  lemma LowerConcat(a: string, b: string)
    ensures Lower(a + b) == Lower(a) + Lower(b)
  {
  }

  /** Canonicalising ignores where the spaces were. */
  lemma CanonicalIgnoresSpaces(a: string, b: string)
    ensures Canonical(a + " " + b) == Canonical(a + b)
  {
    var keep := (ch: char) => ch != ' ';
    LowerConcat(a + " ", b);
    LowerConcat(a, " ");
    LowerConcat(a, b);
    assert Lower(" ") == " ";
    WhereConcat(Lower(a) + " ", Lower(b), keep);
    WhereConcat(Lower(a), " ", keep);
    WhereConcat(Lower(a), Lower(b), keep);
    assert Where(" ", keep) == [];
    assert Where(Lower(a) + " ", keep) == Where(Lower(a), keep);
  }

  predicate StartsWith(s: string, prefix: string)
  {
    |prefix| <= |s| && s[..|prefix|] == prefix
  }

  /** Python's `sub in s` on strings; the empty string is in every string. */
  predicate Contains(s: string, sub: string)
    decreases |s|
  {
    StartsWith(s, sub) || (|s| > 0 && Contains(s[1..], sub))
  }

  /** `sub` occurs in `s` starting at position `i`. */
  predicate OccursAt(s: string, sub: string, i: int)
  {
    0 <= i <= |s| - |sub| && s[i..i + |sub|] == sub
  }

  /** `sub in s` holds exactly when `sub` occurs at some position of `s`. */
  lemma {:induction false} ContainsAt(s: string, sub: string)
    ensures Contains(s, sub) <==> exists i :: OccursAt(s, sub, i)
  {
    if StartsWith(s, sub) {
      assert OccursAt(s, sub, 0);
    }
    if |s| > 0 {
      ContainsAt(s[1..], sub);
      if Contains(s[1..], sub) {
        var i :| OccursAt(s[1..], sub, i);
        assert s[i + 1..i + 1 + |sub|] == s[1..][i..i + |sub|];
        assert OccursAt(s, sub, i + 1);
      }
      if exists i :: OccursAt(s, sub, i) {
        var i :| OccursAt(s, sub, i);
        if i > 0 {
          assert s[1..][i - 1..i - 1 + |sub|] == s[i..i + |sub|];
          assert OccursAt(s[1..], sub, i - 1);
        }
      }
    } else if exists i :: OccursAt(s, sub, i) {
      var i :| OccursAt(s, sub, i);
      assert i == 0 && |sub| == 0;
    }
  }

  /** A contained string is never longer than the string containing it. */
  lemma {:induction false} ContainsShorter(s: string, sub: string)
    requires Contains(s, sub)
    ensures |sub| <= |s|
  {
    if !StartsWith(s, sub) {
      ContainsShorter(s[1..], sub);
    }
  }

  /** Every character of a contained string occurs in the string containing it. */
  lemma {:induction false} ContainsChars(s: string, sub: string)
    requires Contains(s, sub)
    ensures forall ch :: ch in sub ==> ch in s
  {
    if StartsWith(s, sub) {
      assert forall ch :: ch in sub ==> ch in s[..|sub|];
    } else {
      ContainsChars(s[1..], sub);
    }
  }

  /** A string holding a character that `s` lacks is not in `s`. */
  lemma MissingChar(s: string, sub: string, ch: char)
    requires ch in sub && ch !in s
    ensures !Contains(s, sub)
  {
    if Contains(s, sub) {
      ContainsChars(s, sub);
    }
  }

  // ---------------------------------------------------------------------------
  // Matching one feature name

  /** The generic test: the State's canonical name occurs inside the feature's canonical name. */
  predicate NameMatches(geo: string, state: string)
  {
    Contains(Canonical(geo), Canonical(state))
  }

  /**
   * Containment runs one way only: a feature whose canonical name is strictly
   * shorter than the State's never matches it, even when the State's name contains it.
   */
  lemma MatchIsOneDirectional(geo: string, state: string)
    requires |Canonical(geo)| < |Canonical(state)|
    ensures !NameMatches(geo, state)
  {
    if NameMatches(geo, state) {
      ContainsShorter(Canonical(geo), Canonical(state));
    }
  }

  /**
   * The four hard-coded spellings, tested in this order on the raw feature name
   * (case-sensitive); the first that occurs names the key the feature is stored under.
   */
  function SpecialKey(geo: string): (k: Option<string>)
    ensures k.Some? <==>
      (Contains(geo, "Andaman") || Contains(geo, "Arunachal") ||
       Contains(geo, "Dadara") || Contains(geo, "Dadra") || Contains(geo, "Jammu"))
  {
    if Contains(geo, "Andaman") then Some("Andaman and Nicobar Islands")
    else if Contains(geo, "Arunachal") then Some("Arunachal Pradesh")
    else if Contains(geo, "Dadara") || Contains(geo, "Dadra") then Some("Dadra and Nagar Haveli")
    else if Contains(geo, "Jammu") then Some("Jammu and Kashmir")
    else None
  }

  /** The inner loop: the first State, in the given order, that the feature name matches. */
  function FirstMatch(geo: string, states: seq<string>): (r: Option<string>)
    ensures r.None? <==> forall j :: 0 <= j < |states| ==> !NameMatches(geo, states[j])
    ensures r.Some? ==> r.value in states && NameMatches(geo, r.value)
  {
    if |states| == 0 then None
    else if NameMatches(geo, states[0]) then Some(states[0])
    else
      var r := FirstMatch(geo, states[1..]);
      assert forall j :: 1 <= j < |states| ==> states[j] == states[1..][j - 1];
      r
  }

  /** FirstMatch picks the matching State at the lowest position. */
  lemma {:induction false} FirstMatchAt(geo: string, states: seq<string>, i: nat)
    requires i < |states| && NameMatches(geo, states[i])
    requires forall j :: 0 <= j < i ==> !NameMatches(geo, states[j])
    ensures FirstMatch(geo, states) == Some(states[i])
  {
    if i > 0 {
      assert !NameMatches(geo, states[0]);
      FirstMatchAt(geo, states[1..], i - 1);
    }
  }

  /** The key a feature is stored under: a special case if one applies, otherwise the first matching State. */
  function Target(geo: string, states: seq<string>): Option<string>
  {
    if SpecialKey(geo).Some? then SpecialKey(geo) else FirstMatch(geo, states)
  }

  /** A special-case feature sets its fixed key whatever States the data holds, and only that key. */
  lemma SpecialCasesFirst(geo: string, states: seq<string>, other: seq<string>)
    requires SpecialKey(geo).Some?
    ensures Target(geo, states) == Target(geo, other) == SpecialKey(geo)
    ensures Contains(geo, "Andaman") ==> Target(geo, states) == Some("Andaman and Nicobar Islands")
    ensures !Contains(geo, "Andaman") && Contains(geo, "Arunachal") ==> Target(geo, states) == Some("Arunachal Pradesh")
    ensures (!Contains(geo, "Andaman") && !Contains(geo, "Arunachal") &&
      (Contains(geo, "Dadara") || Contains(geo, "Dadra"))) ==> Target(geo, states) == Some("Dadra and Nagar Haveli")
    ensures (!Contains(geo, "Andaman") && !Contains(geo, "Arunachal") &&
      !Contains(geo, "Dadara") && !Contains(geo, "Dadra")) ==> Target(geo, states) == Some("Jammu and Kashmir")
  {
  }

  /** A feature without a special spelling goes to the first State it matches, and to none if it matches none. */
  lemma GenericMatch(geo: string, states: seq<string>, i: nat)
    requires SpecialKey(geo).None?
    requires i < |states| && NameMatches(geo, states[i])
    requires forall j :: 0 <= j < i ==> !NameMatches(geo, states[j])
    ensures Target(geo, states) == Some(states[i])
  {
    FirstMatchAt(geo, states, i);
  }

  // ---------------------------------------------------------------------------
  // The dictionary

  /** `state_name_map` after the loop has seen `features`: each feature in turn writes its key, later writes winning. */
  function StateNameMap(features: seq<string>, states: seq<string>): map<string, string>
  {
    if |features| == 0 then map[]
    else
      var m := StateNameMap(features[..|features| - 1], states);
      var geo := features[|features| - 1];
      match Target(geo, states)
      case Some(k) => m[k := geo]
      case None => m
  }

  /** The loop of main.py: one pass over the features, the if/elif chain, and the inner scan that stops at the first hit. */
  method BuildStateNameMap(features: seq<string>, states: seq<string>) returns (m: map<string, string>)
    ensures m == StateNameMap(features, states)
  {
    m := map[];
    for f := 0 to |features|
      invariant m == StateNameMap(features[..f], states)
    {
      var geo := features[f];
      assert features[..f + 1][..f] == features[..f];
      if Contains(geo, "Andaman") {
        m := m["Andaman and Nicobar Islands" := geo];
      } else if Contains(geo, "Arunachal") {
        m := m["Arunachal Pradesh" := geo];
      } else if Contains(geo, "Dadara") || Contains(geo, "Dadra") {
        m := m["Dadra and Nagar Haveli" := geo];
      } else if Contains(geo, "Jammu") {
        m := m["Jammu and Kashmir" := geo];
      } else {
        var i := 0;
        while i < |states|
          invariant 0 <= i <= |states|
          invariant m == StateNameMap(features[..f], states)
          invariant forall j :: 0 <= j < i ==> !NameMatches(geo, states[j])
        {
          if Contains(Canonical(geo), Canonical(states[i])) {
            FirstMatchAt(geo, states, i);
            m := m[states[i] := geo];
            assert m == StateNameMap(features[..f + 1], states);
            break;
          }
          i := i + 1;
        }
      }
    }
    assert features[..|features|] == features;
  }

  /** Every value of the map is one of the feature names. */
  lemma {:induction false} MapValuesAreFeatures(features: seq<string>, states: seq<string>)
    ensures forall k :: k in StateNameMap(features, states) ==> StateNameMap(features, states)[k] in features
  {
    if |features| > 0 {
      var init := features[..|features| - 1];
      MapValuesAreFeatures(init, states);
      assert forall g :: g in init ==> g in features;
    }
  }

  /**
   * A key is in the map exactly when some feature targets it, and then it holds
   * the last such feature: later assignments overwrite earlier ones.
   */
  lemma {:induction false} LastWriteWins(features: seq<string>, states: seq<string>, k: string)
    ensures k in StateNameMap(features, states) <==>
      exists i :: 0 <= i < |features| && Target(features[i], states) == Some(k)
    ensures k in StateNameMap(features, states) ==>
      exists i :: 0 <= i < |features| && Target(features[i], states) == Some(k) &&
        StateNameMap(features, states)[k] == features[i] &&
        forall j :: i < j < |features| ==> Target(features[j], states) != Some(k)
  {
    if |features| > 0 {
      var n := |features| - 1;
      var init := features[..n];
      LastWriteWins(init, states, k);
      assert forall i :: 0 <= i < n ==> init[i] == features[i];
      if Target(features[n], states) == Some(k) {
        assert StateNameMap(features, states)[k] == features[n];
      } else if k in StateNameMap(init, states) {
        var i :| 0 <= i < n && Target(init[i], states) == Some(k) &&
          StateNameMap(init, states)[k] == init[i] &&
          forall j :: i < j < n ==> Target(init[j], states) != Some(k);
        assert Target(features[i], states) == Some(k);
      }
    }
  }

  /** Each key of the map is a special key or one of the States. */
  lemma {:induction false} MapKeys(features: seq<string>, states: seq<string>)
    ensures forall k :: k in StateNameMap(features, states) ==>
      k in states || k in ["Andaman and Nicobar Islands", "Arunachal Pradesh", "Dadra and Nagar Haveli", "Jammu and Kashmir"]
  {
    if |features| > 0 {
      MapKeys(features[..|features| - 1], states);
    }
  }

  // ---------------------------------------------------------------------------
  // The join column

  /** A row of the map data: the State, its figures, and the feature it is drawn on (`None` is NaN). */
  datatype MapRow = MapRow(state: string, totals: Totals, geoName: Option<string>)

  /** `state_data['State'].map(state_name_map)`: a State without an entry gets no GeoName, without error. */
  function WithGeoNames(stateData: seq<(string, Totals)>, m: map<string, string>): seq<MapRow>
  {
    seq(|stateData|, i requires 0 <= i < |stateData| =>
      MapRow(stateData[i].0, stateData[i].1, if stateData[i].0 in m then Some(m[stateData[i].0]) else None))
  }

  /** The block from the empty map to the `GeoName` column, for the aggregated State data. */
  method ReconcileGeography(stateData: seq<(string, Totals)>, features: seq<string>) returns (rows: seq<MapRow>)
    ensures rows == WithGeoNames(stateData, StateNameMap(features, Unique(KeysOf(stateData))))
  {
    var states := Unique(KeysOf(stateData));
    var m := BuildStateNameMap(features, states);
    rows := WithGeoNames(stateData, m);
  }

  /**
   * The join keeps the State data row for row; a row's GeoName is a feature name
   * that targets its State, and is missing exactly when no feature targets it.
   */
  lemma GeoNamesSpec(stateData: seq<(string, Totals)>, features: seq<string>)
    ensures |WithGeoNames(stateData, StateNameMap(features, Unique(KeysOf(stateData))))| == |stateData|
    ensures forall i :: 0 <= i < |stateData| ==>
      var row := WithGeoNames(stateData, StateNameMap(features, Unique(KeysOf(stateData))))[i];
      && row.state == stateData[i].0 && row.totals == stateData[i].1
      && (row.geoName.None? <==>
           forall f :: 0 <= f < |features| ==> Target(features[f], Unique(KeysOf(stateData))) != Some(row.state))
      && (row.geoName.Some? ==>
           row.geoName.value in features && Target(row.geoName.value, Unique(KeysOf(stateData))) == Some(row.state))
  {
    var states := Unique(KeysOf(stateData));
    var m := StateNameMap(features, states);
    MapValuesAreFeatures(features, states);
    forall i | 0 <= i < |stateData|
      ensures var row := WithGeoNames(stateData, m)[i];
        && (row.geoName.None? <==> forall f :: 0 <= f < |features| ==> Target(features[f], states) != Some(row.state))
        && (row.geoName.Some? ==> row.geoName.value in features && Target(row.geoName.value, states) == Some(row.state))
    {
      LastWriteWins(features, states, stateData[i].0);
    }
  }
}
