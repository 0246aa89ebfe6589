/** The yearly table of `process_csv` (app.py lines 112-132): every selected
    tag gets one synthetic count per year, each year's counts are summed, and
    every count is turned into a percentage of its year's total. */
module Yearly {
  import opened Wrappers
  import opened Tables
  import opened Records
  import opened Growth

  /** The first year and the number of years of `range(2023, 2026)`. */
  const FirstYear: int := 2023
  const YearCount: nat := 3

  /** The year at index yi of `years`. */
  function Year(yi: nat): int {
    FirstYear + yi
  }

  /** `list(range(2023, 2026))`. */
  const Years: seq<int> := seq(YearCount, yi requires 0 <= yi => Year(yi))

  /** y is one of `years`. */
  predicate IsYear(y: int) {
    FirstYear <= y < FirstYear + YearCount
  }

  /** The keys of m are exactly the years. */
  ghost predicate ByYear<V>(m: map<int, V>) {
    && (forall yi :: 0 <= yi < YearCount ==> Year(yi) in m)
    && (forall y :: y in m ==> IsYear(y))
  }

  /** `years` lists the range in order. */
  lemma YearsInOrder()
    ensures Years == [2023, 2024, 2025]
    ensures |Years| == YearCount
    ensures forall yi :: 0 <= yi < YearCount ==> Years[yi] == Year(yi)
    ensures forall y :: y in Years <==> IsYear(y)
  {
    forall y | IsYear(y)
      ensures y in Years
    {
      assert Years[y - FirstYear] == y;
    }
    assert Years[0] == 2023 && Years[1] == 2024 && Years[2] == 2025;
  }

  /** The count of the i-th selected tag in year index yi. The i-th call of
      `generate_growth_pattern` starts at sample PatternLength * i of the random stream. */
  function Magnitude(top: seq<TagCount>, model: GrowthModel, i: nat, yi: nat): nat
    requires i < |top| && yi < YearCount
  {
    Pattern(top[i].count, model, PatternLength * i)[yi]
  }

  /** The sum of the selected tags' counts in year index yi. */
  function YearTotal(top: seq<TagCount>, model: GrowthModel, yi: nat): nat
    requires yi < YearCount
  {
    if top == [] then 0
    else YearTotal(top[..|top| - 1], model, yi) + Magnitude(top, model, |top| - 1, yi)
  }

  /** A year's total is 0 exactly when every selected tag's count is 0. */
  lemma {:induction false} YearTotalZero(top: seq<TagCount>, model: GrowthModel, yi: nat)
    requires yi < YearCount
    ensures YearTotal(top, model, yi) == 0 <==> forall i :: 0 <= i < |top| ==> Magnitude(top, model, i, yi) == 0
  {
    if top != [] {
      var init := top[..|top| - 1];
      YearTotalZero(init, model, yi);
      forall i | 0 <= i < |init| ensures Magnitude(init, model, i, yi) == Magnitude(top, model, i, yi) {
        assert init[i] == top[i];
      }
      assert YearTotal(top, model, yi) == YearTotal(init, model, yi) + Magnitude(top, model, |top| - 1, yi);
    }
  }

  /** `sum(yearly_data[year].values())` over a table filled from the
      selection is the year's total. */
  lemma {:induction false} SumOfEntries(top: seq<TagCount>, model: GrowthModel, yi: nat, m: map<string, nat>)
    requires yi < YearCount
    requires forall i :: 0 <= i < |top| ==> top[i].tag in m && m[top[i].tag] == Magnitude(top, model, i, yi)
    ensures SumOver(Tags(top), m) == YearTotal(top, model, yi)
  {
    if top != [] {
      var n := |top| - 1;
      var init := top[..n];
      var keys := Tags(top);
      assert keys[..n] == Tags(init);
      assert SumOver(keys[..n], m) == YearTotal(init, model, yi) by {
        forall i | 0 <= i < n ensures init[i].tag in m && m[init[i].tag] == Magnitude(init, model, i, yi) {
          assert init[i] == top[i];
        }
        SumOfEntries(init, model, yi, m);
      }
      assert m[keys[n]] == Magnitude(top, model, n, yi);
    }
  }

  /** The inner loop of the table: `yearly_data[year][tag] = counts[year_index]`
      for every year. */
  method StoreCounts(data: map<int, map<string, nat>>, tag: string, counts: seq<nat>)
    returns (data': map<int, map<string, nat>>)
    requires ByYear(data)
    requires |counts| == YearCount
    ensures ByYear(data')
    ensures forall yi :: 0 <= yi < YearCount ==> data'[Year(yi)] == data[Year(yi)][tag := counts[yi]]
  {
    data' := data;
    for yi := 0 to YearCount
      invariant ByYear(data')
      invariant forall z :: 0 <= z < yi ==> data'[Year(z)] == data[Year(z)][tag := counts[z]]
      invariant forall z :: yi <= z < YearCount ==> data'[Year(z)] == data[Year(z)]
    {
      var year := Year(yi);
      data' := data'[year := data'[year][tag := counts[yi]]];
    }
  }

  /** The table after i tags: each of them has its count in every year. */
  ghost predicate HoldsFirst(data: map<int, map<string, nat>>, top: seq<TagCount>, model: GrowthModel, i: nat)
    requires i <= |top|
  {
    && ByYear(data)
    && (forall yi :: 0 <= yi < YearCount ==> forall t :: t in data[Year(yi)] <==> t in Tags(top)[..i])
    && (forall yi, j :: 0 <= yi < YearCount && 0 <= j < i ==>
          data[Year(yi)][top[j].tag] == Magnitude(top, model, j, yi))
  }

  /** Adding the i-th tag's counts to every year extends the table by one tag. */
  lemma StoreNextTag(before: map<int, map<string, nat>>, after: map<int, map<string, nat>>,
                     top: seq<TagCount>, model: GrowthModel, i: nat)
    requires i < |top| && Distinct(Tags(top)) && HoldsFirst(before, top, model, i)
    requires ByYear(after)
    requires forall yi :: 0 <= yi < YearCount ==>
      after[Year(yi)] == before[Year(yi)][top[i].tag := Magnitude(top, model, i, yi)]
    ensures HoldsFirst(after, top, model, i + 1)
  {
    assert Tags(top)[..i + 1] == Tags(top)[..i] + [top[i].tag];
    assert forall j :: 0 <= j < i ==> Tags(top)[j] != Tags(top)[i];
  }

  /** The whole table: every year holds exactly the selected tags, each with
      its synthesised count for that year. */
  ghost predicate Filled(data: map<int, map<string, nat>>, top: seq<TagCount>, model: GrowthModel) {
    && ByYear(data)
    && (forall yi :: 0 <= yi < YearCount ==> forall tag :: tag in data[Year(yi)] <==> tag in Tags(top))
    && (forall yi, i :: 0 <= yi < YearCount && 0 <= i < |top| ==>
          top[i].tag in data[Year(yi)] && data[Year(yi)][top[i].tag] == Magnitude(top, model, i, yi))
  }

  /** `yearly_data`: for each year, the selected tags' counts. */
  method BuildYearlyData(top: seq<TagCount>, model: GrowthModel) returns (data: map<int, map<string, nat>>)
    requires Distinct(Tags(top))
    ensures Filled(data, top, model)
  {
    data := map yi | 0 <= yi < YearCount :: Year(yi) := map[];
    for i := 0 to |top|
      invariant HoldsFirst(data, top, model, i)
    {
      var counts := GenerateGrowthPattern(top[i].count, Years, model, PatternLength * i);
      ghost var before := data;
      data := StoreCounts(data, top[i].tag, counts);
      StoreNextTag(before, data, top, model, i);
    }
    assert Tags(top)[..|top|] == Tags(top);
  }

  /** The year totals and the percentages of every table entry. */
  datatype Normalized = Normalized(totals: map<int, nat>, percentages: map<int, map<string, int>>)

  /** The inner loop over one year's tags: fails at its first entry when the
      total is 0. */
  method YearPercentages(tags: seq<string>, counts: map<string, nat>, total: nat, percentOf: (nat, nat) -> int)
    returns (r: Option<map<string, int>>)
    requires forall t :: t in tags ==> t in counts
    ensures r.None? <==> |tags| > 0 && total == 0
    ensures r.Some? ==> r.value.Keys == set k | k in tags
    ensures r.Some? ==> forall k :: 0 <= k < |tags| ==> tags[k] in r.value && r.value[tags[k]] == percentOf(counts[tags[k]], total)
  {
    var out: map<string, int> := map[];
    for j := 0 to |tags|
      invariant j > 0 ==> total != 0
      invariant out.Keys == set k | k in tags[..j]
      invariant forall k :: 0 <= k < j ==> tags[k] in out && out[tags[k]] == percentOf(counts[tags[k]], total)
    {
      if total == 0 {
        return None;
      }
      assert tags[..j + 1] == tags[..j] + [tags[j]];
      out := out[tags[j] := percentOf(counts[tags[j]], total)];
    }
    assert tags[..|tags|] == tags;
    r := Some(out);
  }

  /** The second loop over the years. `tags` is the insertion order of
      every `yearly_data[year]`; `percentOf(count, total)` stands for
      `round(count / total * 100, 2)`. A year whose total is 0 raises at its
      first entry. */
  method ComputePercentages(tags: seq<string>, data: map<int, map<string, nat>>, percentOf: (nat, nat) -> int)
    returns (r: Result<Normalized, CsvError>)
    requires forall yi :: 0 <= yi < YearCount ==> Year(yi) in data && forall t :: t in tags ==> t in data[Year(yi)]
    ensures r.Failure? <==> |tags| > 0 && exists yi :: 0 <= yi < YearCount && SumOver(tags, data[Year(yi)]) == 0
    ensures r.Failure? ==> r.error == DivisionByZero
    ensures r.Success? ==> ByYear(r.value.totals) && ByYear(r.value.percentages)
    ensures r.Success? ==> forall yi :: 0 <= yi < YearCount ==> r.value.percentages[Year(yi)].Keys == set k | k in tags
    ensures r.Success? ==> forall yi :: 0 <= yi < YearCount ==>
      && r.value.totals[Year(yi)] == SumOver(tags, data[Year(yi)])
      && Year(yi) in r.value.percentages
      && forall k :: 0 <= k < |tags| ==>
           tags[k] in r.value.percentages[Year(yi)]
           && r.value.percentages[Year(yi)][tags[k]] == percentOf(data[Year(yi)][tags[k]], SumOver(tags, data[Year(yi)]))
  {
    var totals: map<int, nat> := map[];
    var percentages: map<int, map<string, int>> := map[];
    for yi := 0 to YearCount
      invariant forall y :: y in totals ==> FirstYear <= y < Year(yi)
      invariant forall y :: y in percentages ==> FirstYear <= y < Year(yi)
      invariant forall z :: 0 <= z < yi ==> Year(z) in percentages && percentages[Year(z)].Keys == set k | k in tags
      invariant forall z :: 0 <= z < yi ==> Year(z) in totals && Year(z) in percentages
      invariant |tags| > 0 ==> forall z :: 0 <= z < yi ==> SumOver(tags, data[Year(z)]) != 0
      invariant forall z :: 0 <= z < yi ==>
        && totals[Year(z)] == SumOver(tags, data[Year(z)])
        && forall k :: 0 <= k < |tags| ==>
             tags[k] in percentages[Year(z)]
             && percentages[Year(z)][tags[k]] == percentOf(data[Year(z)][tags[k]], SumOver(tags, data[Year(z)]))
    {
      var year := Year(yi);
      var total := SumOver(tags, data[year]);
      totals := totals[year := total];
      var yearPercentages := YearPercentages(tags, data[year], total, percentOf);
      if yearPercentages.None? {
        return Failure(DivisionByZero);
      }
      percentages := percentages[year := yearPercentages.value];
    }
    r := Success(Normalized(totals, percentages));
  }
}
