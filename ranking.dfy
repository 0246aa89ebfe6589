/** The report's `tags` list (app.py lines 134-145): one entry per selected
    tag, in selection order, then sorted in place by average, largest first. */
module Ranking {
  import opened Records
  import opened StableSort
  import opened Yearly

  /** Every selected tag has a percentage in every year. */
  ghost predicate Covers(top: seq<TagCount>, percentages: map<int, map<string, int>>) {
    && (forall yi :: 0 <= yi < YearCount ==> Year(yi) in percentages)
    && (forall yi, i :: 0 <= yi < YearCount && 0 <= i < |top| ==> top[i].tag in percentages[Year(yi)])
  }

  /** The entry for one tag: `[yearly_percentages[year][tag] for year in years]`
      and their average. `averageOf(p)` stands for `round(sum(p) / len(p), 2)`. */
  function TrendOf(tag: string, percentages: map<int, map<string, int>>, averageOf: seq<int> -> int): (t: TagTrend)
    requires forall yi :: 0 <= yi < YearCount ==> Year(yi) in percentages && tag in percentages[Year(yi)]
    ensures t.name == tag && |t.data| == YearCount && t.average == averageOf(t.data)
    ensures forall yi :: 0 <= yi < YearCount ==> t.data[yi] == percentages[Year(yi)][tag]
  {
    var data := seq(YearCount, yi requires 0 <= yi < YearCount => percentages[Year(yi)][tag]);
    TagTrend(tag, data, averageOf(data))
  }

  /** `tags_data` before the sort: one entry per selected tag, in order. */
  function Unranked(top: seq<TagCount>, percentages: map<int, map<string, int>>, averageOf: seq<int> -> int): (ts: seq<TagTrend>)
    requires Covers(top, percentages)
    ensures |ts| == |top|
  {
    seq(|top|, i requires 0 <= i < |top| => TrendOf(top[i].tag, percentages, averageOf))
  }

  /** The loop that appends to `tags_data`, then `tags_data.sort(key=average,
      reverse=True)`. */
  method RankTags(top: seq<TagCount>, percentages: map<int, map<string, int>>, averageOf: seq<int> -> int)
    returns (tags: seq<TagTrend>)
    requires Covers(top, percentages)
    ensures tags == SortDesc(Unranked(top, percentages, averageOf), AverageKey)
  {
    var tagsData: seq<TagTrend> := [];
    for i := 0 to |top|
      invariant |tagsData| == i
      invariant forall k :: 0 <= k < i ==> tagsData[k] == TrendOf(top[k].tag, percentages, averageOf)
    {
      var tag := top[i].tag;
      var data := seq(YearCount, yi requires 0 <= yi < YearCount => percentages[Year(yi)][tag]);
      var average := averageOf(data);
      tagsData := tagsData + [TagTrend(tag, data, average)];
    }
    assert tagsData == Unranked(top, percentages, averageOf);
    tags := SortDesc(tagsData, AverageKey);
  }
}
