/** The filter engine (Backend/app/Agent.py, `_filter_data`): the catalogue narrowed by the
    resolved manufacturer, the resolved model, the year and the parsed price range, in that
    order; an absent field applies no constraint. */
module Filter {
  import opened Options
  import opened Seqs
  import opened Text
  import opened Catalog
  import opened Resolver
  import opened PriceRange
  import opened IntentRecord

  /** The constraints one intent imposes, once its free text has been resolved. */
  datatype Criteria = Criteria(
    manufacturer: Option<string>,
    model: Option<string>,
    year: Option<string>,
    minPrice: Option<nat>,
    maxPrice: Option<nat>)

  /** Python treats a parsed bound of 0 as false, so such a bound is dropped. */
  function NonZero(b: Option<nat>): (r: Option<nat>)
    ensures r.Some? <==> b.Some? && b.value != 0
    ensures r.Some? ==> r == b
  {
    if b.Some? && b.value != 0 then b else None
  }

  /** A resolved key filters only when it is truthy: an index key can be the empty string a
      missing catalogue value was filled with, and the filter step skips it. */
  function KeyFilter(key: Option<string>): (r: Option<string>)
    ensures r.Some? <==> Truthy(key)
    ensures r.Some? ==> r == key
  {
    if Truthy(key) then key else None
  }

  /** Resolves an intent's fields into filter criteria. */
  function CriteriaOf(idx: Index, sim: Similarity, intent: Intent): (c: Criteria)
    ensures c.manufacturer.Some? ==>
      (Truthy(intent.manufacturer) && c.manufacturer.value != ""
       && IsFirstBest(sim, intent.manufacturer.value, idx.keys, c.manufacturer.value, ManufacturerThreshold))
    ensures c.manufacturer.None? && Truthy(intent.manufacturer) ==>
      (NoneAbove(sim, intent.manufacturer.value, idx.keys, ManufacturerThreshold)
       || IsFirstBest(sim, intent.manufacturer.value, idx.keys, "", ManufacturerThreshold))
    ensures c.model.Some? ==>
      (Truthy(intent.manufacturer) && Truthy(intent.model) && c.model.value != ""
       && c.manufacturer.Some? && c.manufacturer.value in idx.models
       && IsFirstBest(sim, intent.model.value, idx.models[c.manufacturer.value], c.model.value, ModelThreshold))
    ensures c.year.Some? <==> Truthy(intent.year)
    ensures c.year.Some? ==> c.year.value == Lower(intent.year.value)
    ensures c.minPrice.Some? ==>
      (c.minPrice.value != 0 && Truthy(intent.priceRange)
       && ParsePriceRange(intent.priceRange.value).min == c.minPrice)
    ensures c.maxPrice.Some? ==>
      (c.maxPrice.value != 0 && Truthy(intent.priceRange)
       && ParsePriceRange(intent.priceRange.value).max == c.maxPrice)
    ensures Truthy(intent.priceRange) && c.minPrice.None? ==>
      ParsePriceRange(intent.priceRange.value).min in {None, Some(0)}
    ensures Truthy(intent.priceRange) && c.maxPrice.None? ==>
      ParsePriceRange(intent.priceRange.value).max in {None, Some(0)}
  {
    var manufacturer :=
      if Truthy(intent.manufacturer) then KeyFilter(ResolveManufacturer(idx, sim, intent.manufacturer.value)) else None;
    var model :=
      if Truthy(intent.model) && Truthy(intent.manufacturer) then
        KeyFilter(ResolveModel(idx, sim, intent.model.value, ResolveManufacturer(idx, sim, intent.manufacturer.value)))
      else None;
    var year := if Truthy(intent.year) then Some(Lower(intent.year.value)) else None;
    var bounds := if Truthy(intent.priceRange) then ParsePriceRange(intent.priceRange.value) else Bounds(None, None);
    Criteria(manufacturer, model, year, NonZero(bounds.min), NonZero(bounds.max))
  }

  /** The other half of the model criterion: when the manufacturer resolves to a key of the
      index and both mentions are truthy, no model criterion means that no model listed under
      that manufacturer scores above the model threshold, or that the best one is the empty
      model name. */
  lemma UnresolvedModelScoresLow(idx: Index, sim: Similarity, intent: Intent)
    requires Truthy(intent.manufacturer) && Truthy(intent.model)
    requires CriteriaOf(idx, sim, intent).model.None?
    requires CriteriaOf(idx, sim, intent).manufacturer.Some?
    requires CriteriaOf(idx, sim, intent).manufacturer.value in idx.models
    ensures var models := idx.models[CriteriaOf(idx, sim, intent).manufacturer.value];
      NoneAbove(sim, intent.model.value, models, ModelThreshold)
      || IsFirstBest(sim, intent.model.value, models, "", ModelThreshold)
  {
  }

  /** The filtering steps, in the order the source applies them. */
  datatype Stage = ByManufacturer | ByModel | ByYear | ByMinPrice | ByMaxPrice

  const Stages: seq<Stage> := [ByManufacturer, ByModel, ByYear, ByMinPrice, ByMaxPrice]

  /** A row passes a step whose criterion is absent. */
  predicate Passes(c: Criteria, st: Stage, v: Vehicle) {
    match st
    case ByManufacturer => c.manufacturer.None? || v.manufacturer == c.manufacturer.value
    case ByModel => c.model.None? || v.model == c.model.value
    case ByYear => c.year.None? || Contains(v.year, c.year.value)
    case ByMinPrice => c.minPrice.None? || v.lowerBound >= c.minPrice.value as real
    case ByMaxPrice => c.maxPrice.None? || v.upperBound <= c.maxPrice.value as real
  }

  predicate PassesAll(c: Criteria, stages: seq<Stage>, v: Vehicle) {
    forall j :: 0 <= j < |stages| ==> Passes(c, stages[j], v)
  }

  /** Every present criterion holds of the row. */
  predicate Admits(c: Criteria, v: Vehicle) {
    && (c.manufacturer.Some? ==> v.manufacturer == c.manufacturer.value)
    && (c.model.Some? ==> v.model == c.model.value)
    && (c.year.Some? ==> Contains(v.year, c.year.value))
    && (c.minPrice.Some? ==> v.lowerBound >= c.minPrice.value as real)
    && (c.maxPrice.Some? ==> v.upperBound <= c.maxPrice.value as real)
  }

  lemma PassesAllStagesIsAdmits(c: Criteria, v: Vehicle)
    ensures PassesAll(c, Stages, v) <==> Admits(c, v)
  {
    assert Stages[0] == ByManufacturer && Stages[1] == ByModel && Stages[2] == ByYear;
    assert Stages[3] == ByMinPrice && Stages[4] == ByMaxPrice;
  }

  /** `r` holds every copy of each row of `rows` that passes the steps, and nothing else. */
  ghost predicate KeepsEveryCopy(r: seq<Vehicle>, rows: seq<Vehicle>, c: Criteria, stages: seq<Stage>) {
    forall v :: multiset(r)[v] == (if PassesAll(c, stages, v) then multiset(rows)[v] else 0)
  }

  /** `r` holds every copy of each catalogue row that meets the criteria, and nothing else. */
  ghost predicate KeepsEveryAdmittedCopy(r: seq<Vehicle>, catalog: seq<Vehicle>, c: Criteria) {
    forall v :: multiset(r)[v] == (if Admits(c, v) then multiset(catalog)[v] else 0)
  }

  /** One pass over the rows keeping those that pass every given step, in order. */
  function Select(rows: seq<Vehicle>, c: Criteria, stages: seq<Stage>): (r: seq<Vehicle>)
    ensures IsSubsequence(r, rows)
    ensures forall i :: 0 <= i < |r| ==> PassesAll(c, stages, r[i])
    ensures forall i :: 0 <= i < |rows| && PassesAll(c, stages, rows[i]) ==> rows[i] in r
  {
    if |rows| == 0 then []
    else
      var rest := Select(rows[1..], c, stages);
      assert forall i :: 1 <= i < |rows| ==> rows[i] == rows[1..][i - 1];
      if PassesAll(c, stages, rows[0]) then
        var r := [rows[0]] + rest;
        assert r[1..] == rest;
        r
      else
        assert |rest| == 0 || IsSubsequence(rest, rows[1..]);
        rest
  }

  /** The selection drops no copy of a passing row: each row occurs in the result exactly as
      often as in the input when it passes, and not at all otherwise. */
  lemma {:induction false} SelectKeepsEveryCopy(rows: seq<Vehicle>, c: Criteria, stages: seq<Stage>)
    ensures KeepsEveryCopy(Select(rows, c, stages), rows, c, stages)
  {
    if |rows| > 0 {
      SelectKeepsEveryCopy(rows[1..], c, stages);
      assert rows == [rows[0]] + rows[1..];
      if PassesAll(c, stages, rows[0]) {
        assert Select(rows, c, stages) == [rows[0]] + Select(rows[1..], c, stages);
      } else {
        assert Select(rows, c, stages) == Select(rows[1..], c, stages);
      }
    }
  }

  /** The staged filter: each step narrows the rows the previous steps kept. */
  function ApplyStages(rows: seq<Vehicle>, c: Criteria, stages: seq<Stage>): seq<Vehicle>
    decreases |stages|
  {
    if |stages| == 0 then rows else ApplyStages(Select(rows, c, [stages[0]]), c, stages[1..])
  }

  lemma {:induction false} SelectTwice(rows: seq<Vehicle>, c: Criteria, a: seq<Stage>, b: seq<Stage>)
    ensures Select(Select(rows, c, a), c, b) == Select(rows, c, a + b)
  {
    if |rows| > 0 {
      var v := rows[0];
      SelectTwice(rows[1..], c, a, b);
      assert PassesAll(c, a + b, v) <==> PassesAll(c, a, v) && PassesAll(c, b, v) by {
        assert forall j :: 0 <= j < |a| ==> (a + b)[j] == a[j];
        assert forall j :: 0 <= j < |b| ==> (a + b)[|a| + j] == b[j];
      }
      var s := Select(rows, c, a);
      if PassesAll(c, a, v) {
        assert s == [v] + Select(rows[1..], c, a);
        assert s[0] == v && s[1..] == Select(rows[1..], c, a);
      }
    }
  }

  lemma SelectNothing(rows: seq<Vehicle>, c: Criteria)
    ensures Select(rows, c, []) == rows
  {
    if |rows| > 0 {
      SelectNothing(rows[1..], c);
      assert [rows[0]] + rows[1..] == rows;
    }
  }

  /** Narrowing step by step keeps exactly the rows that pass all steps at once. */
  lemma {:induction false} StagedIsOnePass(rows: seq<Vehicle>, c: Criteria, stages: seq<Stage>)
    ensures ApplyStages(rows, c, stages) == Select(rows, c, stages)
    decreases |stages|
  {
    if |stages| == 0 {
      SelectNothing(rows, c);
    } else {
      StagedIsOnePass(Select(rows, c, [stages[0]]), c, stages[1..]);
      SelectTwice(rows, c, [stages[0]], stages[1..]);
      assert [stages[0]] + stages[1..] == stages;
    }
  }

  /** `_filter_data`: an order-preserving selection from the catalogue that keeps exactly the
      rows meeting every criterion the intent resolves to. */
  function FilterData(catalog: seq<Vehicle>, idx: Index, sim: Similarity, intent: Intent): (r: seq<Vehicle>)
    ensures IsSubsequence(r, catalog)
    ensures forall i :: 0 <= i < |r| ==> Admits(CriteriaOf(idx, sim, intent), r[i])
    ensures forall i :: 0 <= i < |catalog| && Admits(CriteriaOf(idx, sim, intent), catalog[i]) ==> catalog[i] in r
  {
    var c := CriteriaOf(idx, sim, intent);
    StagedIsOnePass(catalog, c, Stages);
    forall v: Vehicle
      ensures PassesAll(c, Stages, v) <==> Admits(c, v)
    {
      PassesAllStagesIsAdmits(c, v);
    }
    ApplyStages(catalog, c, Stages)
  }

  /** `_filter_data` drops no copy of a matching row: each catalogue row occurs in the result
      exactly as often as in the catalogue when it meets every criterion, and not at all
      otherwise. */
  lemma FilterKeepsEveryCopy(catalog: seq<Vehicle>, idx: Index, sim: Similarity, intent: Intent)
    ensures KeepsEveryAdmittedCopy(FilterData(catalog, idx, sim, intent), catalog, CriteriaOf(idx, sim, intent))
  {
    var c := CriteriaOf(idx, sim, intent);
    StagedIsOnePass(catalog, c, Stages);
    SelectKeepsEveryCopy(catalog, c, Stages);
    forall v: Vehicle
      ensures PassesAll(c, Stages, v) <==> Admits(c, v)
    {
      PassesAllStagesIsAdmits(c, v);
    }
  }

  /** An intent with no manufacturer, year or price range leaves the catalogue as it is. */
  lemma {:induction false} NoConstraintKeepsCatalog(catalog: seq<Vehicle>, idx: Index, sim: Similarity, intent: Intent)
    requires !Truthy(intent.manufacturer) && !Truthy(intent.year) && !Truthy(intent.priceRange)
    ensures FilterData(catalog, idx, sim, intent) == catalog
  {
    var c := CriteriaOf(idx, sim, intent);
    assert c == Criteria(None, None, None, None, None);
    AllAdmittedKept(catalog, c);
    StagedIsOnePass(catalog, c, Stages);
  }

  /** A manufacturer that resolves to the empty key, the value a missing catalogue entry was
      filled with, filters nothing: neither the manufacturer step nor the model step runs. */
  lemma {:induction false} EmptyKeyKeepsCatalog(catalog: seq<Vehicle>, idx: Index, sim: Similarity, intent: Intent)
    requires Truthy(intent.manufacturer)
    requires ResolveManufacturer(idx, sim, intent.manufacturer.value) == Some("")
    requires !Truthy(intent.year) && !Truthy(intent.priceRange)
    ensures FilterData(catalog, idx, sim, intent) == catalog
  {
    var c := CriteriaOf(idx, sim, intent);
    assert c == Criteria(None, None, None, None, None);
    AllAdmittedKept(catalog, c);
    StagedIsOnePass(catalog, c, Stages);
  }

  lemma {:induction false} AllAdmittedKept(rows: seq<Vehicle>, c: Criteria)
    requires c == Criteria(None, None, None, None, None)
    ensures Select(rows, c, Stages) == rows
  {
    if |rows| > 0 {
      AllAdmittedKept(rows[1..], c);
      PassesAllStagesIsAdmits(c, rows[0]);
      assert [rows[0]] + rows[1..] == rows;
    }
  }

  /** A price range of "under 0" parses to an upper bound of 0, which the source's
      truthiness test discards: it filters exactly like no price range at all. */
  lemma ZeroBoundIsIgnored(catalog: seq<Vehicle>, idx: Index, sim: Similarity, intent: Intent)
    ensures FilterData(catalog, idx, sim, intent.(priceRange := Some("under 0")))
         == FilterData(catalog, idx, sim, intent.(priceRange := None))
  {
    ParseUnder(0);
    assert NatToString(0) == "0";
    assert "under " + "0" == "under 0";
    assert CriteriaOf(idx, sim, intent.(priceRange := Some("under 0")))
        == CriteriaOf(idx, sim, intent.(priceRange := None));
  }
}
