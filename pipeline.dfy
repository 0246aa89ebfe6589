/** `process_csv` (app.py lines 34-161) after the file has been read: the
    rows are counted, the ten most frequent tags selected, a three-year
    table synthesised, normalised to percentages and ranked by average. */
module Pipeline {
  import opened Wrappers
  import opened Tables
  import opened Records
  import opened StableSort
  import opened TagCounting
  import opened TopTags
  import opened Growth
  import opened Yearly
  import opened Ranking

  /** `top_tags`: the selection made from the tally of all rows. */
  function Top(rows: seq<Row>): (top: seq<TagCount>)
    ensures |top| == Min(TopCount, |TallyOf(rows).counts|)
  {
    TallyWellFormed(rows);
    SelectTopFromTally(TallyOf(rows));
    SelectTop(Items(TallyOf(rows)))
  }

  /** The percentages of the i-th selected tag, year by year. */
  function TrendData(top: seq<TagCount>, model: GrowthModel, percentOf: (nat, nat) -> int, i: nat): (p: seq<int>)
    requires i < |top|
    ensures |p| == YearCount
  {
    seq(YearCount, yi requires 0 <= yi < YearCount => percentOf(Magnitude(top, model, i, yi), YearTotal(top, model, yi)))
  }

  /** `tags_data` before the sort, in terms of the synthesised magnitudes. */
  function Trends(top: seq<TagCount>, model: GrowthModel, percentOf: (nat, nat) -> int, averageOf: seq<int> -> int)
    : (ts: seq<TagTrend>)
    ensures |ts| == |top|
    ensures forall i :: 0 <= i < |top| ==> ts[i].name == top[i].tag
  {
    seq(|top|, i requires 0 <= i < |top| =>
      TagTrend(top[i].tag, TrendData(top, model, percentOf, i), averageOf(TrendData(top, model, percentOf, i))))
  }

  /** `yearly_totals`. */
  function Totals(top: seq<TagCount>, model: GrowthModel): (m: map<int, nat>)
    ensures ByYear(m)
    ensures forall yi :: 0 <= yi < YearCount ==> m[Year(yi)] == YearTotal(top, model, yi)
  {
    map yi | 0 <= yi < YearCount :: Year(yi) := YearTotal(top, model, yi)
  }

  /** A year in which every selected tag's synthesised count is 0. */
  ghost predicate SilentYear(top: seq<TagCount>, model: GrowthModel, yi: nat)
    requires yi < YearCount
  {
    forall i :: 0 <= i < |top| ==> Magnitude(top, model, i, yi) == 0
  }

  /** Lines 112-151 for a given selection: the report, or the division by
      zero of line 131. */
  function ReportOf(top: seq<TagCount>, model: GrowthModel, percentOf: (nat, nat) -> int, averageOf: seq<int> -> int)
    : Result<Report, CsvError>
  {
    if |top| > 0 && exists yi :: 0 <= yi < YearCount && YearTotal(top, model, yi) == 0 then
      Failure(DivisionByZero)
    else
      Success(Report(Years, SortDesc(Trends(top, model, percentOf, averageOf), AverageKey), Totals(top, model)))
  }

  /** A map holding each year's total is `yearly_totals`. */
  lemma TotalsOf(m: map<int, nat>, top: seq<TagCount>, model: GrowthModel)
    requires ByYear(m)
    requires forall yi :: 0 <= yi < YearCount ==> m[Year(yi)] == YearTotal(top, model, yi)
    ensures m == Totals(top, model)
  {
    var t := Totals(top, model);
    forall y | y in m ensures y in t && m[y] == t[y] {
      var yi := y - FirstYear;
      assert y == Year(yi);
    }
    forall y | y in t ensures y in m {
      assert y == Year(y - FirstYear);
    }
  }

  /** What `process_csv` returns or raises for the given rows. */
  function ProcessSpec(rows: seq<Row>, model: GrowthModel, percentOf: (nat, nat) -> int, averageOf: seq<int> -> int)
    : Result<Report, CsvError>
  {
    var t := TallyOf(rows);
    if t.totalRows == 0 then Failure(EmptyCsv)
    else if t.processedRows == 0 then Failure(NoValidRows)
    else ReportOf(Top(rows), model, percentOf, averageOf)
  }

  /** The i-th selected tag's percentage in year index yi is its synthesised
      count as a share of the year's total. */
  ghost predicate PercentageAt(top: seq<TagCount>, model: GrowthModel, percentOf: (nat, nat) -> int,
                               percentages: map<int, map<string, int>>, yi: nat, i: nat)
    requires yi < YearCount && i < |top|
  {
    && Year(yi) in percentages && top[i].tag in percentages[Year(yi)]
    && percentages[Year(yi)][top[i].tag] == percentOf(Magnitude(top, model, i, yi), YearTotal(top, model, yi))
  }

  /** The percentages computed from the filled table have that form. */
  lemma PercentagesOfTable(top: seq<TagCount>, model: GrowthModel, percentOf: (nat, nat) -> int,
                           data: map<int, map<string, nat>>, percentages: map<int, map<string, int>>)
    requires Filled(data, top, model)
    requires forall yi :: 0 <= yi < YearCount ==>
      && Year(yi) in percentages
      && forall k :: 0 <= k < |Tags(top)| ==>
           Tags(top)[k] in percentages[Year(yi)]
           && percentages[Year(yi)][Tags(top)[k]] == percentOf(data[Year(yi)][Tags(top)[k]], SumOver(Tags(top), data[Year(yi)]))
    ensures forall yi, i :: 0 <= yi < YearCount && 0 <= i < |top| ==> PercentageAt(top, model, percentOf, percentages, yi, i)
  {
    forall yi, i | 0 <= yi < YearCount && 0 <= i < |top|
      ensures PercentageAt(top, model, percentOf, percentages, yi, i)
    {
      SumOfEntries(top, model, yi, data[Year(yi)]);
      assert Tags(top)[i] == top[i].tag;
    }
  }

  /** Such percentages cover every selected tag in every year. */
  lemma CoversOfPercentages(top: seq<TagCount>, model: GrowthModel, percentOf: (nat, nat) -> int,
                            percentages: map<int, map<string, int>>)
    requires forall yi :: 0 <= yi < YearCount ==> Year(yi) in percentages
    requires forall yi, i :: 0 <= yi < YearCount && 0 <= i < |top| ==> PercentageAt(top, model, percentOf, percentages, yi, i)
    ensures Covers(top, percentages)
  {
    forall yi, i | 0 <= yi < YearCount && 0 <= i < |top| ensures top[i].tag in percentages[Year(yi)] {
      assert PercentageAt(top, model, percentOf, percentages, yi, i);
    }
  }

  /** Percentages of that form give, tag by tag, the entries `Trends` describes. */
  lemma TrendsOfPercentages(top: seq<TagCount>, model: GrowthModel, percentOf: (nat, nat) -> int, averageOf: seq<int> -> int,
                            percentages: map<int, map<string, int>>)
    requires forall yi :: 0 <= yi < YearCount ==> Year(yi) in percentages
    requires forall yi, i :: 0 <= yi < YearCount && 0 <= i < |top| ==> PercentageAt(top, model, percentOf, percentages, yi, i)
    ensures Covers(top, percentages)
    ensures Unranked(top, percentages, averageOf) == Trends(top, model, percentOf, averageOf)
  {
    CoversOfPercentages(top, model, percentOf, percentages);
    forall i | 0 <= i < |top|
      ensures Unranked(top, percentages, averageOf)[i] == Trends(top, model, percentOf, averageOf)[i]
    {
      var d := TrendData(top, model, percentOf, i);
      var u := TrendOf(top[i].tag, percentages, averageOf);
      forall yi | 0 <= yi < YearCount ensures u.data[yi] == d[yi] {
        assert PercentageAt(top, model, percentOf, percentages, yi, i);
      }
      assert u.data == d;
    }
  }

  /** The year totals of the filled table are `yearly_totals`. */
  lemma TotalsOfTable(top: seq<TagCount>, model: GrowthModel, data: map<int, map<string, nat>>, totals: map<int, nat>)
    requires Filled(data, top, model)
    requires ByYear(totals)
    requires forall yi :: 0 <= yi < YearCount ==> totals[Year(yi)] == SumOver(Tags(top), data[Year(yi)])
    ensures totals == Totals(top, model)
  {
    forall yi | 0 <= yi < YearCount ensures totals[Year(yi)] == YearTotal(top, model, yi) {
      SumOfEntries(top, model, yi, data[Year(yi)]);
    }
    TotalsOf(totals, top, model);
  }

  /** The columns of the filled table sum to the year totals, so the table
      has a column summing to 0 exactly when some year's total is 0. */
  lemma ColumnTotals(top: seq<TagCount>, model: GrowthModel, data: map<int, map<string, nat>>)
    requires Filled(data, top, model)
    ensures forall yi :: 0 <= yi < YearCount ==>
      && Year(yi) in data
      && (forall t :: t in Tags(top) ==> t in data[Year(yi)])
      && SumOver(Tags(top), data[Year(yi)]) == YearTotal(top, model, yi)
    ensures (|Tags(top)| > 0 && exists yi :: 0 <= yi < YearCount && SumOver(Tags(top), data[Year(yi)]) == 0)
        <==> (|top| > 0 && exists yi :: 0 <= yi < YearCount && YearTotal(top, model, yi) == 0)
  {
    forall yi | 0 <= yi < YearCount ensures SumOver(Tags(top), data[Year(yi)]) == YearTotal(top, model, yi) {
      SumOfEntries(top, model, yi, data[Year(yi)]);
    }
  }

  /** Lines 112-151: table, percentages and ranking for a selection of
      distinct tags. */
  method BuildReport(top: seq<TagCount>, model: GrowthModel, percentOf: (nat, nat) -> int, averageOf: seq<int> -> int)
    returns (r: Result<Report, CsvError>)
    requires Distinct(Tags(top))
    ensures r == ReportOf(top, model, percentOf, averageOf)
  {
    var data := BuildYearlyData(top, model);
    ColumnTotals(top, model, data);
    var normalized := ComputePercentages(Tags(top), data, percentOf);
    if normalized.Failure? {
      return Failure(normalized.error);
    }
    var percentages := normalized.value.percentages;
    PercentagesOfTable(top, model, percentOf, data, percentages);
    TrendsOfPercentages(top, model, percentOf, averageOf, percentages);
    var tags := RankTags(top, percentages, averageOf);
    TotalsOfTable(top, model, data, normalized.value.totals);
    r := Success(Report(Years, tags, normalized.value.totals));
  }

  /** The function itself, step by step. */
  method ProcessCsv(rows: seq<Row>, model: GrowthModel, percentOf: (nat, nat) -> int, averageOf: seq<int> -> int)
    returns (r: Result<Report, CsvError>)
    ensures r == ProcessSpec(rows, model, percentOf, averageOf)
  {
    var tally := CountTags(rows);
    TallyWellFormed(rows);
    if tally.totalRows == 0 {
      return Failure(EmptyCsv);
    }
    if tally.processedRows == 0 {
      return Failure(NoValidRows);
    }
    var top := SelectTop(Items(tally));
    assert top == Top(rows);
    SelectTopDistinct(tally);
    r := BuildReport(top, model, percentOf, averageOf);
  }

  /** Some row was counted exactly when some tag was selected. */
  lemma TopNonEmpty(rows: seq<Row>)
    ensures |Top(rows)| > 0 <==> TallyOf(rows).processedRows > 0
  {
    var t := TallyOf(rows);
    TallyWellFormed(rows);
    if t.keys == [] {
      assert t.counts == map[];
    } else {
      assert t.keys[0] in t.counts;
      SumOverZero(t.keys, t.counts);
    }
  }

  /** "CSV file is empty" is raised exactly for a file without data rows. */
  lemma EmptyCsvIff(rows: seq<Row>, model: GrowthModel, percentOf: (nat, nat) -> int, averageOf: seq<int> -> int)
    ensures ProcessSpec(rows, model, percentOf, averageOf) == Failure(EmptyCsv) <==> |rows| == 0
  {
    TallyWellFormed(rows);
  }

  /** "No valid rows found" is raised exactly when there are rows and none
      of them yields a tag. */
  lemma NoValidRowsIff(rows: seq<Row>, model: GrowthModel, percentOf: (nat, nat) -> int, averageOf: seq<int> -> int)
    ensures ProcessSpec(rows, model, percentOf, averageOf) == Failure(NoValidRows) <==>
      |rows| > 0 && forall i :: 0 <= i < |rows| ==> TagOf(rows[i]) == None
  {
    TallyWellFormed(rows);
    NoneProcessed(rows);
  }

  /** The division of line 131 fails exactly when some row yields a tag and,
      in some year, every selected tag's synthesised count is 0. */
  lemma DivisionByZeroIff(rows: seq<Row>, model: GrowthModel, percentOf: (nat, nat) -> int, averageOf: seq<int> -> int)
    ensures ProcessSpec(rows, model, percentOf, averageOf) == Failure(DivisionByZero) <==>
      && (exists i :: 0 <= i < |rows| && TagOf(rows[i]) != None)
      && (exists yi :: 0 <= yi < YearCount && SilentYear(Top(rows), model, yi))
  {
    TallyWellFormed(rows);
    NoneProcessed(rows);
    TopNonEmpty(rows);
    forall yi | 0 <= yi < YearCount ensures YearTotal(Top(rows), model, yi) == 0 <==> SilentYear(Top(rows), model, yi) {
      YearTotalZero(Top(rows), model, yi);
    }
  }

  /** A successful run got past both error exits and the division: the
      selection is non-empty, every year's total is positive, and the report
      is built from the selection. */
  lemma SuccessOf(rows: seq<Row>, model: GrowthModel, percentOf: (nat, nat) -> int, averageOf: seq<int> -> int, rep: Report)
    requires ProcessSpec(rows, model, percentOf, averageOf) == Success(rep)
    ensures |rows| > 0 && TallyOf(rows).processedRows > 0 && |Top(rows)| > 0
    ensures forall yi :: 0 <= yi < YearCount ==> YearTotal(Top(rows), model, yi) > 0
    ensures rep == Report(Years, SortDesc(Trends(Top(rows), model, percentOf, averageOf), AverageKey), Totals(Top(rows), model))
  {
    TallyWellFormed(rows);
    TopNonEmpty(rows);
  }

  /** A report covers the three years; each year's total is the sum of the
      selected tags' counts and is positive; it ranks min(10, number of
      distinct tags) entries. */
  lemma ReportTotals(rows: seq<Row>, model: GrowthModel, percentOf: (nat, nat) -> int, averageOf: seq<int> -> int, rep: Report)
    requires ProcessSpec(rows, model, percentOf, averageOf) == Success(rep)
    ensures rep.years == [2023, 2024, 2025]
    ensures ByYear(rep.totalQuestions)
    ensures forall yi :: 0 <= yi < YearCount ==>
      rep.totalQuestions[Year(yi)] == YearTotal(Top(rows), model, yi) && rep.totalQuestions[Year(yi)] > 0
    ensures 0 < |rep.tags| == Min(TopCount, |TallyOf(rows).counts|)
  {
    YearsInOrder();
    SuccessOf(rows, model, percentOf, averageOf, rep);
  }

  /** The report's entries are the selected tags' entries, sorted by
      average, largest first, with equal averages in selection order. */
  lemma ReportRanking(rows: seq<Row>, model: GrowthModel, percentOf: (nat, nat) -> int, averageOf: seq<int> -> int, rep: Report)
    requires ProcessSpec(rows, model, percentOf, averageOf) == Success(rep)
    ensures multiset(rep.tags) == multiset(Trends(Top(rows), model, percentOf, averageOf))
    ensures NonIncreasing(rep.tags, AverageKey)
    ensures Stable(rep.tags, Trends(Top(rows), model, percentOf, averageOf), AverageKey)
  {
    SuccessOf(rows, model, percentOf, averageOf, rep);
    SortDescStable(Trends(Top(rows), model, percentOf, averageOf), AverageKey);
  }

  /** A selected tag's count is its number of rows, which is positive. */
  lemma TopOccurs(rows: seq<Row>, i: nat)
    requires i < |Top(rows)|
    ensures Top(rows)[i].count == |RowsTagged(rows, Top(rows)[i].tag)| > 0
  {
    TallyWellFormed(rows);
    SelectTopFromTally(TallyOf(rows));
    CountsAreOccurrences(rows, Top(rows)[i].tag);
  }

  /** A tag left out of the selection names no more rows than a selected one. */
  lemma TopLeftOut(rows: seq<Row>, tag: string, i: nat)
    requires i < |Top(rows)| && tag !in Tags(Top(rows))
    ensures |RowsTagged(rows, tag)| <= Top(rows)[i].count
  {
    TallyWellFormed(rows);
    SelectTopIsTop(TallyOf(rows));
    CountsAreOccurrences(rows, tag);
  }

  /** No tag is selected twice. */
  lemma TopDistinct(rows: seq<Row>)
    ensures Distinct(Tags(Top(rows)))
  {
    TallyWellFormed(rows);
    SelectTopDistinct(TallyOf(rows));
  }

  /** Each selected pair is a tag of the rows with its number of rows; no
      tag is selected twice, and no tag left out names more rows. */
  lemma TopFromRows(rows: seq<Row>)
    ensures forall i :: 0 <= i < |Top(rows)| ==> Top(rows)[i].count == |RowsTagged(rows, Top(rows)[i].tag)| > 0
    ensures Distinct(Tags(Top(rows)))
    ensures forall tag, i :: 0 <= i < |Top(rows)| && tag !in Tags(Top(rows)) ==>
      |RowsTagged(rows, tag)| <= Top(rows)[i].count
  {
    forall i | 0 <= i < |Top(rows)| ensures Top(rows)[i].count == |RowsTagged(rows, Top(rows)[i].tag)| > 0 {
      TopOccurs(rows, i);
    }
    TopDistinct(rows);
    forall tag, i | 0 <= i < |Top(rows)| && tag !in Tags(Top(rows)) ensures |RowsTagged(rows, tag)| <= Top(rows)[i].count {
      TopLeftOut(rows, tag, i);
    }
  }

  /** A rearrangement of one entry per distinct tag holds each tag once. */
  lemma RearrangedNames(tags: seq<string>, trends: seq<TagTrend>, ranked: seq<TagTrend>)
    requires |trends| == |tags| && forall i :: 0 <= i < |tags| ==> trends[i].name == tags[i]
    requires Distinct(tags) && multiset(ranked) == multiset(trends)
    ensures forall k :: 0 <= k < |ranked| ==> ranked[k].name in tags
    ensures forall i :: 0 <= i < |tags| ==> exists k :: 0 <= k < |ranked| && ranked[k].name == tags[i]
    ensures forall i, j :: 0 <= i < j < |ranked| ==> ranked[i].name != ranked[j].name
  {
    forall k | 0 <= k < |ranked| ensures ranked[k].name in tags {
      assert ranked[k] in multiset(trends);
      var i :| 0 <= i < |trends| && ranked[k] == trends[i];
    }
    forall i | 0 <= i < |tags| ensures exists k :: 0 <= k < |ranked| && ranked[k].name == tags[i] {
      assert trends[i] in multiset(ranked);
      var k :| 0 <= k < |ranked| && ranked[k] == trends[i];
    }
    assert Distinct(trends) by {
      forall i, j | 0 <= i < j < |trends| ensures trends[i] != trends[j] {
        assert tags[i] != tags[j];
      }
    }
    DistinctPermutation(trends, ranked);
    forall i, j | 0 <= i < j < |ranked| ensures ranked[i].name != ranked[j].name {
      assert ranked[i] in multiset(trends) && ranked[j] in multiset(trends);
      var p :| 0 <= p < |trends| && ranked[i] == trends[p];
      var q :| 0 <= q < |trends| && ranked[j] == trends[q];
      assert p != q;
      assert tags[p] != tags[q];
    }
  }

  /** The report holds exactly one entry per selected tag. */
  lemma ReportedAreSelected(rows: seq<Row>, model: GrowthModel, percentOf: (nat, nat) -> int, averageOf: seq<int> -> int, rep: Report)
    requires ProcessSpec(rows, model, percentOf, averageOf) == Success(rep)
    ensures forall k :: 0 <= k < |rep.tags| ==> rep.tags[k].name in Tags(Top(rows))
    ensures forall i :: 0 <= i < |Top(rows)| ==> exists k :: 0 <= k < |rep.tags| && rep.tags[k].name == Top(rows)[i].tag
    ensures forall i, j :: 0 <= i < j < |rep.tags| ==> rep.tags[i].name != rep.tags[j].name
  {
    ReportRanking(rows, model, percentOf, averageOf, rep);
    TopDistinct(rows);
    RearrangedNames(Tags(Top(rows)), Trends(Top(rows), model, percentOf, averageOf), rep.tags);
  }

  /** Entries that name each selected tag once name the most frequent tags. */
  lemma RankedMostFrequent(rows: seq<Row>, ranked: seq<TagTrend>)
    requires forall k :: 0 <= k < |ranked| ==> ranked[k].name in Tags(Top(rows))
    requires forall i :: 0 <= i < |Top(rows)| ==> exists k :: 0 <= k < |ranked| && ranked[k].name == Top(rows)[i].tag
    ensures forall k :: 0 <= k < |ranked| ==> |RowsTagged(rows, ranked[k].name)| > 0
    ensures forall k, tag :: 0 <= k < |ranked| && (forall j :: 0 <= j < |ranked| ==> ranked[j].name != tag) ==>
      |RowsTagged(rows, tag)| <= |RowsTagged(rows, ranked[k].name)|
  {
    var top := Top(rows);
    forall k | 0 <= k < |ranked| ensures |RowsTagged(rows, ranked[k].name)| > 0 {
      var i :| 0 <= i < |top| && Tags(top)[i] == ranked[k].name;
      TopOccurs(rows, i);
    }
    forall k, tag | 0 <= k < |ranked| && (forall j :: 0 <= j < |ranked| ==> ranked[j].name != tag)
      ensures |RowsTagged(rows, tag)| <= |RowsTagged(rows, ranked[k].name)|
    {
      var i :| 0 <= i < |top| && Tags(top)[i] == ranked[k].name;
      assert tag !in Tags(top) by {
        forall p | 0 <= p < |top| ensures Tags(top)[p] != tag {
          var j :| 0 <= j < |ranked| && ranked[j].name == top[p].tag;
        }
      }
      TopOccurs(rows, i);
      TopLeftOut(rows, tag, i);
    }
  }

  /** Each reported tag names at least one row, no tag is reported twice, and
      no tag left out of the report names more rows than a reported one. */
  lemma ReportMostFrequent(rows: seq<Row>, model: GrowthModel, percentOf: (nat, nat) -> int, averageOf: seq<int> -> int, rep: Report)
    requires ProcessSpec(rows, model, percentOf, averageOf) == Success(rep)
    ensures forall k :: 0 <= k < |rep.tags| ==> |RowsTagged(rows, rep.tags[k].name)| > 0
    ensures forall i, j :: 0 <= i < j < |rep.tags| ==> rep.tags[i].name != rep.tags[j].name
    ensures forall k, tag :: 0 <= k < |rep.tags| && (forall j :: 0 <= j < |rep.tags| ==> rep.tags[j].name != tag) ==>
      |RowsTagged(rows, tag)| <= |RowsTagged(rows, rep.tags[k].name)|
  {
    ReportedAreSelected(rows, model, percentOf, averageOf, rep);
    RankedMostFrequent(rows, rep.tags);
  }

  /** Tags of equal count are selected in the order the rows first name them. */
  lemma SelectedTieFirstSeen(rows: seq<Row>, i: nat, j: nat)
    requires i < j < |Top(rows)| && Top(rows)[i].count == Top(rows)[j].count
    ensures SeenBefore(rows, Top(rows)[i].tag, Top(rows)[j].tag)
  {
    TallyWellFormed(rows);
    var items := Items(TallyOf(rows));
    var p, q := SelectedTiePositions(items, i, j);
    KeysInFirstSeenOrder(rows);
    assert items[p].tag == TallyOf(rows).keys[p] && items[q].tag == TallyOf(rows).keys[q];
  }

  /** A tag left out at a selected tag's count stands after it in the key order. */
  lemma LeftOutTiePositions(t: Tally, i: nat, tag: string) returns (p: nat, q: nat)
    requires WellFormed(t)
    requires i < |SelectTop(Items(t))| && tag in t.counts && tag !in Tags(SelectTop(Items(t)))
    requires t.counts[tag] == SelectTop(Items(t))[i].count
    ensures p < q < |t.keys| && t.keys[p] == SelectTop(Items(t))[i].tag && t.keys[q] == tag
  {
    var items := Items(t);
    var top := SelectTop(items);
    var x := TagCount(tag, t.counts[tag]);
    assert x in items by {
      assert tag in t.keys;
      var p0 :| 0 <= p0 < |t.keys| && t.keys[p0] == tag;
      assert items[p0] == x;
    }
    assert x !in top by {
      forall k | 0 <= k < |top| ensures top[k] != x {
        assert Tags(top)[k] == top[k].tag;
      }
    }
    p, q := LeftOutTiePosition(items, i, x);
  }

  /** A tag left out at a selected tag's count was first named later. */
  lemma LeftOutTieFirstSeen(rows: seq<Row>, i: nat, tag: string)
    requires i < |Top(rows)| && tag in TallyOf(rows).counts && tag !in Tags(Top(rows))
    requires TallyOf(rows).counts[tag] == Top(rows)[i].count
    ensures SeenBefore(rows, Top(rows)[i].tag, tag)
  {
    TallyWellFormed(rows);
    var p, q := LeftOutTiePositions(TallyOf(rows), i, tag);
    KeysInFirstSeenOrder(rows);
  }
}
