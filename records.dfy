/** The values that flow through `process_csv`: counted tags, per-tag trend
    rows, the returned report and the exceptions it can raise. */
module Records {

  /** One `(tag, count)` item of the tag-count dictionary. */
  datatype TagCount = TagCount(tag: string, count: nat)

  /** The sort key of `sorted(..., key=lambda x: x[1])`. */
  function CountKey(p: TagCount): int {
    p.count
  }

  function Tags(ps: seq<TagCount>): (r: seq<string>)
    ensures |r| == |ps| && forall i :: 0 <= i < |ps| ==> r[i] == ps[i].tag
  {
    seq(|ps|, i requires 0 <= i < |ps| => ps[i].tag)
  }

  /** One entry of the report's `tags` list: the tag, its three yearly
      percentages and their average. Percentages and averages are the
      rounded floating-point values of the program, kept here as opaque
      integers (see Ranking). */
  datatype TagTrend = TagTrend(name: string, data: seq<int>, average: int)

  /** The sort key of `tags_data.sort(key=lambda x: x['average'])`. */
  function AverageKey(t: TagTrend): int {
    t.average
  }

  /** The dictionary `process_csv` returns. */
  datatype Report = Report(years: seq<int>, tags: seq<TagTrend>, totalQuestions: map<int, nat>)

  /** The exceptions `process_csv` raises once the rows are read. */
  datatype CsvError =
    | EmptyCsv          // ValueError("CSV file is empty")
    | NoValidRows       // ValueError("No valid rows found in CSV file")
    | DivisionByZero    // ZeroDivisionError from a year whose total is 0
}
