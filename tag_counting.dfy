/** The row loop of `process_csv` (app.py lines 75-97): every row read from
    the CSV file is counted in `total_rows`; a row whose tag column resolves
    adds one to its tag's count in `tag_counts` and to `processed_rows`. */
module TagCounting {
  import opened Wrappers
  import opened Tables

  /** A row as `csv.DictReader` yields it: column name to cell. Columns that a
      short row lacks map to None (the reader's `restval`). */
  type Row = map<string, Option<string>>

  /** The column names tried for the tag, in order. */
  const TagColumns: seq<string> := ["Tag", "tag", "Tags", "tags", "TAG"]

  /** The cell of the first of `cols` the row has, or None when it has none. */
  function TagFrom(row: Row, cols: seq<string>): Option<string> {
    if cols == [] then None
    else if cols[0] in row then row[cols[0]]
    else TagFrom(row, cols[1..])
  }

  /** The row's tag, None when the row is to be skipped. */
  function TagOf(row: Row): Option<string> {
    TagFrom(row, TagColumns)
  }

  /** When the i-th column is the first the row has, the search takes its
      cell, even when that cell is missing. */
  lemma {:induction false} TagFromColumn(row: Row, cols: seq<string>, i: nat)
    requires i < |cols| && cols[i] in row && forall j :: 0 <= j < i ==> cols[j] !in row
    ensures TagFrom(row, cols) == row[cols[i]]
  {
    if i > 0 {
      assert cols[0] !in row;
      assert cols[1..][i - 1] == cols[i];
      forall j | 0 <= j < i - 1 ensures cols[1..][j] !in row {
        assert cols[1..][j] == cols[j + 1];
      }
      TagFromColumn(row, cols[1..], i - 1);
    }
  }

  /** A row that has none of the columns has no tag. */
  lemma {:induction false} TagFromAbsent(row: Row, cols: seq<string>)
    requires forall i :: 0 <= i < |cols| ==> cols[i] !in row
    ensures TagFrom(row, cols) == None
  {
    if cols != [] {
      assert cols[0] !in row;
      forall i | 0 <= i < |cols| - 1 ensures cols[1..][i] !in row {
        assert cols[1..][i] == cols[i + 1];
      }
      TagFromAbsent(row, cols[1..]);
    }
  }

  /** The tag is the cell of the first listed column present in the row; a
      row with none of the columns has no tag. A present first column whose
      cell is missing also yields None: the search stops at it. */
  lemma TagFromFirstPresent(row: Row, cols: seq<string>)
    ensures (forall i :: 0 <= i < |cols| ==> cols[i] !in row) ==> TagFrom(row, cols) == None
    ensures forall i :: 0 <= i < |cols| && cols[i] in row && (forall j :: 0 <= j < i ==> cols[j] !in row)
                        ==> TagFrom(row, cols) == row[cols[i]]
  {
    if forall i :: 0 <= i < |cols| ==> cols[i] !in row {
      TagFromAbsent(row, cols);
    }
    forall i | 0 <= i < |cols| && cols[i] in row && (forall j :: 0 <= j < i ==> cols[j] !in row)
      ensures TagFrom(row, cols) == row[cols[i]]
    {
      TagFromColumn(row, cols, i);
    }
  }

  /** The inner `for possible_column in [...]` loop with its `break`. */
  method ResolveTag(row: Row) returns (tag: Option<string>)
    ensures tag == TagOf(row)
  {
    tag := None;
    var i := 0;
    while i < |TagColumns|
      invariant 0 <= i <= |TagColumns|
      invariant tag == None
      invariant TagFrom(row, TagColumns[i..]) == TagOf(row)
    {
      if TagColumns[i] in row {
        tag := row[TagColumns[i]];
        break;
      }
      i := i + 1;
    }
  }

  /** The loop's state: `tag_counts` as its keys in insertion order (a
      dictionary's iteration order) and its values, plus the two counters. */
  datatype Tally = Tally(keys: seq<string>, counts: map<string, nat>, totalRows: nat, processedRows: nat)

  /** Consistency of the loop's state: the keys are the dictionary's, each
      once; every count is positive; the counts add up to `processed_rows`,
      which never exceeds `total_rows`. */
  ghost predicate WellFormed(t: Tally) {
    && Distinct(t.keys)
    && (forall k :: k in t.keys <==> k in t.counts)
    && (forall k :: k in t.counts ==> t.counts[k] >= 1)
    && SumOver(t.keys, t.counts) == t.processedRows
    && t.processedRows <= t.totalRows
  }

  /** One iteration of the row loop, given the row's resolved tag.
      `tag_counts[tag] += 1` on a defaultdict first inserts the missing key
      with 0, at the end of the key order. */
  function Step(t: Tally, found: Option<string>): Tally {
    match found
    case None => t.(totalRows := t.totalRows + 1)
    case Some(tag) =>
      Tally(if tag in t.counts then t.keys else t.keys + [tag],
            t.counts[tag := (if tag in t.counts then t.counts[tag] else 0) + 1],
            t.totalRows + 1, t.processedRows + 1)
  }

  /** Counting a tag already in the dictionary keeps the state consistent. */
  lemma CountOldKey(t: Tally, tag: string)
    requires WellFormed(t) && tag in t.counts
    ensures WellFormed(Tally(t.keys, t.counts[tag := t.counts[tag] + 1], t.totalRows + 1, t.processedRows + 1))
  {
    SumOverIncrement(t.keys, t.counts, tag);
  }

  /** Counting a new tag appends it to the key order and keeps the state
      consistent. */
  lemma CountNewKey(t: Tally, tag: string)
    requires WellFormed(t) && tag !in t.counts
    ensures WellFormed(Tally(t.keys + [tag], t.counts[tag := 1], t.totalRows + 1, t.processedRows + 1))
  {
    var keys, counts := t.keys + [tag], t.counts[tag := 1];
    assert keys[..|t.keys|] == t.keys;
    SumOverAgree(t.keys, t.counts, counts);
    forall i, j | 0 <= i < j < |keys| ensures keys[i] != keys[j] {
      if j == |t.keys| {
        assert keys[i] == t.keys[i];
      }
    }
  }

  /** Every iteration keeps the state consistent. */
  lemma StepWellFormed(t: Tally, found: Option<string>)
    requires WellFormed(t)
    ensures WellFormed(Step(t, found))
  {
    match found
    case None =>
    case Some(tag) =>
      if tag in t.counts {
        CountOldKey(t, tag);
      } else {
        CountNewKey(t, tag);
      }
  }

  /** The state after the row loop has read `rows`. */
  function TallyOf(rows: seq<Row>): Tally {
    if rows == [] then Tally([], map[], 0, 0)
    else Step(TallyOf(rows[..|rows| - 1]), TagOf(rows[|rows| - 1]))
  }

  /** The loop keeps its state consistent, and counts every row. */
  lemma {:induction false} TallyWellFormed(rows: seq<Row>)
    ensures WellFormed(TallyOf(rows)) && TallyOf(rows).totalRows == |rows|
  {
    if rows != [] {
      TallyWellFormed(rows[..|rows| - 1]);
      StepWellFormed(TallyOf(rows[..|rows| - 1]), TagOf(rows[|rows| - 1]));
    }
  }

  /** The row loop. */
  method CountTags(rows: seq<Row>) returns (t: Tally)
    ensures t == TallyOf(rows)
  {
    var keys: seq<string> := [];
    var counts: map<string, nat> := map[];
    var totalRows, processedRows := 0, 0;
    for n := 0 to |rows|
      invariant Tally(keys, counts, totalRows, processedRows) == TallyOf(rows[..n])
    {
      assert rows[..n + 1][..n] == rows[..n];
      totalRows := totalRows + 1;
      var tag := ResolveTag(rows[n]);
      if tag.Some? {
        if tag.value !in counts {
          keys := keys + [tag.value];
          counts := counts[tag.value := 0];
        }
        counts := counts[tag.value := counts[tag.value] + 1];
        processedRows := processedRows + 1;
      }
    }
    assert rows[..|rows|] == rows;
    t := Tally(keys, counts, totalRows, processedRows);
  }

  /** A row without a tag is counted in `total_rows` and changes nothing else. */
  lemma SkippedRow(rows: seq<Row>, row: Row)
    requires TagOf(row) == None
    ensures TallyOf(rows + [row]) == TallyOf(rows).(totalRows := |rows| + 1)
  {
    TallyWellFormed(rows);
    assert (rows + [row])[..|rows|] == rows;
  }

  /** A row with a tag adds one to that tag's count and to both counters. */
  lemma CountedRow(rows: seq<Row>, row: Row, tag: string)
    requires TagOf(row) == Some(tag)
    ensures TallyOf(rows + [row]).counts
      == TallyOf(rows).counts[tag := (if tag in TallyOf(rows).counts then TallyOf(rows).counts[tag] else 0) + 1]
    ensures TallyOf(rows + [row]).totalRows == TallyOf(rows).totalRows + 1
    ensures TallyOf(rows + [row]).processedRows == TallyOf(rows).processedRows + 1
  {
    assert (rows + [row])[..|rows|] == rows;
  }

  /** The rows whose tag is `tag`, by position. */
  function RowsTagged(rows: seq<Row>, tag: string): set<nat> {
    set i: nat | i < |rows| && TagOf(rows[i]) == Some(tag)
  }

  /** The rows that have a tag at all, by position. */
  function RowsWithTag(rows: seq<Row>): set<nat> {
    set i: nat | i < |rows| && TagOf(rows[i]) != None
  }

  /** One iteration adds one to its own tag's count and leaves the other
      counts. */
  lemma StepCount(t: Tally, found: Option<string>, tag: string)
    ensures tag in Step(t, found).counts <==> tag in t.counts || found == Some(tag)
    ensures tag in Step(t, found).counts ==>
      Step(t, found).counts[tag] == (if tag in t.counts then t.counts[tag] else 0) + (if found == Some(tag) then 1 else 0)
  {
  }

  /** The last row adds its own position to the rows of its tag. */
  lemma RowsTaggedLast(rows: seq<Row>, tag: string)
    requires rows != []
    ensures TagOf(rows[|rows| - 1]) == Some(tag) ==>
      RowsTagged(rows, tag) == RowsTagged(rows[..|rows| - 1], tag) + {|rows| - 1}
    ensures TagOf(rows[|rows| - 1]) == Some(tag) ==>
      |RowsTagged(rows, tag)| == |RowsTagged(rows[..|rows| - 1], tag)| + 1
    ensures TagOf(rows[|rows| - 1]) != Some(tag) ==>
      RowsTagged(rows, tag) == RowsTagged(rows[..|rows| - 1], tag)
  {
    var n := |rows| - 1;
    var init := rows[..n];
    var older := RowsTagged(init, tag);
    var hit: set<nat> := if TagOf(rows[n]) == Some(tag) then {n} else {};
    assert RowsTagged(rows, tag) == older + hit by {
      forall i: nat | i < n ensures rows[i] == init[i] { }
    }
    assert n !in older;
  }

  /** `tag_counts[tag]` is the number of rows whose tag is `tag`, and the
      dictionary holds exactly the tags that occur. */
  lemma {:induction false} CountsAreOccurrences(rows: seq<Row>, tag: string)
    ensures tag in TallyOf(rows).counts <==> |RowsTagged(rows, tag)| > 0
    ensures tag in TallyOf(rows).counts ==> TallyOf(rows).counts[tag] == |RowsTagged(rows, tag)|
  {
    if rows != [] {
      var n := |rows| - 1;
      var init := rows[..n];
      CountsAreOccurrences(init, tag);
      var before := TallyOf(init);
      assert TallyOf(rows) == Step(before, TagOf(rows[n]));
      StepCount(before, TagOf(rows[n]), tag);
      RowsTaggedLast(rows, tag);
    }
  }

  /** `processed_rows` is the number of rows that have a tag. */
  lemma {:induction false} ProcessedAreTagged(rows: seq<Row>)
    ensures TallyOf(rows).processedRows == |RowsWithTag(rows)|
  {
    if rows != [] {
      var n := |rows| - 1;
      var init := rows[..n];
      ProcessedAreTagged(init);
      assert RowsWithTag(rows) == RowsWithTag(init) + (if TagOf(rows[n]) != None then {n} else {}) by {
        forall i: nat | i < n ensures rows[i] == init[i] { }
      }
      assert n !in RowsWithTag(init);
    }
  }

  /** No row was processed exactly when no row has a tag. */
  lemma NoneProcessed(rows: seq<Row>)
    ensures TallyOf(rows).processedRows == 0 <==> forall i :: 0 <= i < |rows| ==> TagOf(rows[i]) == None
  {
    ProcessedAreTagged(rows);
    if TallyOf(rows).processedRows == 0 {
      assert RowsWithTag(rows) == {};
    } else {
      var i :| i in RowsWithTag(rows);
    }
  }

  /** Tag `a` was seen in some row before tag `b` was seen in any. */
  ghost predicate SeenBefore(rows: seq<Row>, a: string, b: string) {
    exists p :: 0 <= p < |rows| && TagOf(rows[p]) == Some(a)
      && forall q :: 0 <= q <= p ==> TagOf(rows[q]) != Some(b)
  }

  /** Reading one more row keeps every earlier "seen before". */
  lemma SeenBeforeLater(rows: seq<Row>, a: string, b: string)
    requires rows != [] && SeenBefore(rows[..|rows| - 1], a, b)
    ensures SeenBefore(rows, a, b)
  {
    var init := rows[..|rows| - 1];
    var p :| 0 <= p < |init| && TagOf(init[p]) == Some(a)
      && forall q :: 0 <= q <= p ==> TagOf(init[q]) != Some(b);
    forall q | 0 <= q <= p ensures TagOf(rows[q]) != Some(b) {
      assert rows[q] == init[q];
    }
    assert rows[p] == init[p];
  }

  /** A tag already counted was seen before the tag the last row adds. */
  lemma SeenBeforeNewKey(rows: seq<Row>, a: string, b: string)
    requires rows != [] && TagOf(rows[|rows| - 1]) == Some(b)
    requires a in TallyOf(rows[..|rows| - 1]).counts && b !in TallyOf(rows[..|rows| - 1]).counts
    ensures SeenBefore(rows, a, b)
  {
    var init := rows[..|rows| - 1];
    CountsAreOccurrences(init, a);
    CountsAreOccurrences(init, b);
    var p :| p in RowsTagged(init, a);
    forall q | 0 <= q <= p ensures TagOf(rows[q]) != Some(b) {
      assert q !in RowsTagged(init, b);
      assert rows[q] == init[q];
    }
    assert rows[p] == init[p];
  }

  /** The dictionary's key order is first-seen order. */
  lemma {:induction false} KeysInFirstSeenOrder(rows: seq<Row>)
    ensures forall i, j :: 0 <= i < j < |TallyOf(rows).keys| ==>
      SeenBefore(rows, TallyOf(rows).keys[i], TallyOf(rows).keys[j])
  {
    if rows != [] {
      var n := |rows| - 1;
      var init := rows[..n];
      KeysInFirstSeenOrder(init);
      TallyWellFormed(init);
      var prev := TallyOf(init);
      var before, keys := prev.keys, TallyOf(rows).keys;
      assert TallyOf(rows) == Step(prev, TagOf(rows[n]));
      forall i, j | 0 <= i < j < |before| ensures SeenBefore(rows, before[i], before[j]) {
        SeenBeforeLater(rows, before[i], before[j]);
      }
      if keys != before {
        var b := TagOf(rows[n]).value;
        assert keys == before + [b] && b !in prev.counts;
        forall i | 0 <= i < |before| ensures SeenBefore(rows, before[i], b) {
          SeenBeforeNewKey(rows, before[i], b);
        }
        forall i, j | 0 <= i < j < |keys| ensures SeenBefore(rows, keys[i], keys[j]) {
          if j < |before| {
            assert keys[i] == before[i] && keys[j] == before[j];
          } else {
            assert keys[i] == before[i] && keys[j] == b;
          }
        }
      }
    }
  }
}
