/**
 * The five-way row filter (utils.py `filter_data`): within a column a row matches
 * any selected value, across columns every non-empty selection must hold, and a
 * missing or empty selection imposes nothing.
 */
module Filter {
  import opened Wrappers
  import opened Seqs
  import opened Table

  /** The values selected in the five multiselect widgets; `None` when the argument is omitted. */
  datatype Selection = Selection(
    states: Option<seq<string>>,
    districts: Option<seq<string>>,
    crops: Option<seq<string>>,
    seasons: Option<seq<string>>,
    years: Option<seq<int>>)

  /** `sel is not None and len(sel) > 0`: the selection restricts its column. */
  predicate Active<K>(sel: Option<seq<K>>)
  {
    sel.Some? && |sel.value| > 0
  }

  /** The column value `v` passes the selection. */
  predicate Admits<K(==)>(sel: Option<seq<K>>, v: K)
  {
    !Active(sel) || v in sel.value
  }

  /** The row passes every selection. */
  predicate Matches(s: Selection, r: Record)
  {
    && Admits(s.states, r.state)
    && Admits(s.districts, r.district)
    && Admits(s.crops, r.crop)
    && Admits(s.seasons, r.season)
    && Admits(s.years, r.year)
  }

  /** The reference meaning of the filter: the rows that match, in table order. */
  function Filtered(t: Table, s: Selection): Table
  {
    Where(t, (r: Record) => Matches(s, r))
  }

  /** `df[df[column].isin(sel)]` for a categorical column. */
  function KeepLabels(t: Table, c: Category, sel: seq<string>): Table
  {
    Where(t, (r: Record) => Label(r, c) in sel)
  }

  /** `df[df['Year'].isin(sel)]`. */
  function KeepYears(t: Table, sel: seq<int>): Table
  {
    Where(t, (r: Record) => r.year in sel)
  }

  /** `filter_data`: the copy is narrowed by each non-empty selection in turn. */
  method FilterData(df: Table, s: Selection) returns (filtered: Table)
    ensures filtered == Filtered(df, s)
  {
    ghost var p0 := (r: Record) => true;
    WhereAll(df, p0);
    filtered := df;

    if Active(s.states) {
      filtered := KeepLabels(filtered, State, s.states.value);
    }
    ghost var p1 := (r: Record) => p0(r) && Admits(s.states, r.state);
    LabelStep(df, p0, State, s.states, p1);

    if Active(s.districts) {
      filtered := KeepLabels(filtered, District, s.districts.value);
    }
    ghost var p2 := (r: Record) => p1(r) && Admits(s.districts, r.district);
    LabelStep(df, p1, District, s.districts, p2);

    if Active(s.crops) {
      filtered := KeepLabels(filtered, Crop, s.crops.value);
    }
    ghost var p3 := (r: Record) => p2(r) && Admits(s.crops, r.crop);
    LabelStep(df, p2, Crop, s.crops, p3);

    if Active(s.seasons) {
      filtered := KeepLabels(filtered, Season, s.seasons.value);
    }
    ghost var p4 := (r: Record) => p3(r) && Admits(s.seasons, r.season);
    LabelStep(df, p3, Season, s.seasons, p4);

    if Active(s.years) {
      filtered := KeepYears(filtered, s.years.value);
    }
    ghost var p5 := (r: Record) => p4(r) && Admits(s.years, r.year);
    YearStep(df, p4, s.years, p5);

    WhereExt(df, p5, (r: Record) => Matches(s, r));
  }

  /** One categorical narrowing step extends the conjunction of the selections applied so far. */
  lemma LabelStep(t: Table, prior: Record -> bool, c: Category, sel: Option<seq<string>>, both: Record -> bool)
    requires forall r :: both(r) == (prior(r) && Admits(sel, Label(r, c)))
    ensures (if Active(sel) then KeepLabels(Where(t, prior), c, sel.value) else Where(t, prior)) == Where(t, both)
  {
    if Active(sel) {
      WhereWhere(t, prior, (r: Record) => Label(r, c) in sel.value, both);
    } else {
      WhereExt(t, prior, both);
    }
  }

  /** The Year narrowing step, likewise. */
  lemma YearStep(t: Table, prior: Record -> bool, sel: Option<seq<int>>, both: Record -> bool)
    requires forall r :: both(r) == (prior(r) && Admits(sel, r.year))
    ensures (if Active(sel) then KeepYears(Where(t, prior), sel.value) else Where(t, prior)) == Where(t, both)
  {
    if Active(sel) {
      WhereWhere(t, prior, (r: Record) => r.year in sel.value, both);
    } else {
      WhereExt(t, prior, both);
    }
  }

  /**
   * The filter keeps exactly the matching rows: an order-preserving subsequence
   * of the input holding every copy of each matching row and no other row.
   */
  lemma FilteredSpec(t: Table, s: Selection)
    ensures SubsequenceOf(Filtered(t, s), t)
    ensures forall r :: r in Filtered(t, s) <==> r in t && Matches(s, r)
    ensures forall r :: multiset(Filtered(t, s))[r] == if Matches(s, r) then multiset(t)[r] else 0
  {
    WhereIsSubsequence(t, (r: Record) => Matches(s, r));
    WhereCounts(t, (r: Record) => Matches(s, r));
  }

  predicate NoSelection(s: Selection)
  {
    !Active(s.states) && !Active(s.districts) && !Active(s.crops) && !Active(s.seasons) && !Active(s.years)
  }

  /** With every selection missing or empty the input comes back unchanged. */
  lemma FilterWithoutSelection(t: Table, s: Selection)
    requires NoSelection(s)
    ensures Filtered(t, s) == t
  {
    WhereAll(t, (r: Record) => Matches(s, r));
  }

  /** Filtering a filtered table again with the same selections changes nothing. */
  lemma FilterIdempotent(t: Table, s: Selection)
    ensures Filtered(Filtered(t, s), s) == Filtered(t, s)
  {
    WhereIdempotent(t, (r: Record) => Matches(s, r));
  }

  /** Every value `narrow` lets through, `wide` lets through too. */
  predicate Covers<K(==)>(wide: Option<seq<K>>, narrow: Option<seq<K>>)
  {
    !Active(wide) || (Active(narrow) && forall v :: v in narrow.value ==> v in wide.value)
  }

  predicate Wider(wide: Selection, narrow: Selection)
  {
    && Covers(wide.states, narrow.states)
    && Covers(wide.districts, narrow.districts)
    && Covers(wide.crops, narrow.crops)
    && Covers(wide.seasons, narrow.seasons)
    && Covers(wide.years, narrow.years)
  }

  /** Filtering a filtered table again with the same or wider selections changes nothing. */
  lemma FilterAgainWider(t: Table, narrow: Selection, wide: Selection)
    requires Wider(wide, narrow)
    ensures Filtered(Filtered(t, narrow), wide) == Filtered(t, narrow)
  {
    var f := Filtered(t, narrow);
    forall r | r in f
      ensures Matches(wide, r)
    {
      assert Matches(narrow, r);
    }
    WhereAll(f, (r: Record) => Matches(wide, r));
  }
}
