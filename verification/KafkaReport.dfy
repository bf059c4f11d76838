/** Merging the CSV files of the Kafka runs and the report's validation of the merged rows. */
module KafkaReport {
  import opened Wrappers

  const EXPECTED_ITERATIONS: int := 1_000_000
  const EXPECTED_REPETITIONS: nat := 10

  /** What identifies a configuration. */
  datatype Key = Key(mode: string, acks: string, compression: string, lingerMs: string, batchNumMessages: string)

  datatype Row = Row(key: Key, iterations: int, repetition: int)

  datatype CsvFile = CsvFile(fieldnames: seq<string>, rows: seq<Row>)

  datatype Error = NoFiles | HeaderMismatch(file: nat) | WrongCount | WrongIterations | WrongRepetitions

  // ---- One list of rows

  function Repetitions(rows: seq<Row>): seq<int> {
    seq(|rows|, i requires 0 <= i < |rows| => rows[i].repetition)
  }

  function OneTo(n: nat): seq<int> {
    seq(n, i => i + 1)
  }

  /** A complete series: the expected number of rows, in order, all with the expected iterations. */
  predicate ValidRows(rows: seq<Row>, iterations: int, repetitions: nat) {
    && |rows| == repetitions
    && (forall i :: 0 <= i < |rows| ==> rows[i].iterations == iterations)
    && (forall i :: 0 <= i < |rows| ==> rows[i].repetition == i + 1)
  }

  /** Repetition r is that of the r-th row and of no other. */
  predicate OccursOnce(rows: seq<Row>, r: nat) {
    1 <= r <= |rows| && forall i :: 0 <= i < |rows| ==> (rows[i].repetition == r <==> i == r - 1)
  }

  /** A complete series is a list of the right length whose repetition numbers ascend within 1 to that
    length; then each of these numbers occurs exactly once. */
  lemma SeriesIsComplete(rows: seq<Row>, iterations: int, repetitions: nat)
    ensures ValidRows(rows, iterations, repetitions) <==>
            && |rows| == repetitions && (forall row :: row in rows ==> row.iterations == iterations)
            && (forall i, j :: 0 <= i < j < |rows| ==> rows[i].repetition < rows[j].repetition)
            && (forall row :: row in rows ==> 1 <= row.repetition <= repetitions)
    ensures ValidRows(rows, iterations, repetitions) ==>
              forall r :: 1 <= r <= repetitions ==> OccursOnce(rows, r)
  {
    if |rows| == repetitions && (forall row :: row in rows ==> row.iterations == iterations)
       && (forall i, j :: 0 <= i < j < |rows| ==> rows[i].repetition < rows[j].repetition)
       && (forall row :: row in rows ==> 1 <= row.repetition <= repetitions)
    {
      forall i | 0 <= i < |rows| ensures rows[i].iterations == iterations && rows[i].repetition == i + 1 {
        assert rows[i] in rows;
        AscendingFromOne(rows, i);
        AscendingToEnd(rows, repetitions, i);
      }
    }
  }

  lemma {:induction false} AscendingFromOne(rows: seq<Row>, i: nat)
    requires i < |rows| && forall row :: row in rows ==> 1 <= row.repetition
    requires forall i, j :: 0 <= i < j < |rows| ==> rows[i].repetition < rows[j].repetition
    ensures rows[i].repetition >= i + 1
  {
    assert rows[i] in rows;
    if i > 0 {
      AscendingFromOne(rows, i - 1);
    }
  }

  lemma {:induction false} AscendingToEnd(rows: seq<Row>, repetitions: nat, i: nat)
    requires i < |rows| == repetitions && forall row :: row in rows ==> row.repetition <= repetitions
    requires forall i, j :: 0 <= i < j < |rows| ==> rows[i].repetition < rows[j].repetition
    ensures rows[i].repetition <= i + 1
    decreases |rows| - i
  {
    assert rows[i] in rows;
    if i + 1 < |rows| {
      AscendingToEnd(rows, repetitions, i + 1);
    }
  }

  method ValidateRows(rows: seq<Row>, iterations: int, repetitions: nat) returns (error: Option<Error>)
    ensures error == None <==> ValidRows(rows, iterations, repetitions)
    ensures error.Some? ==>
              error.value == WrongCount || error.value == WrongIterations || error.value == WrongRepetitions
    ensures error == Some(WrongCount) <==> |rows| != repetitions
    ensures error == Some(WrongIterations) <==>
              |rows| == repetitions && exists i :: 0 <= i < |rows| && rows[i].iterations != iterations
  {
    if |rows| != repetitions {
      return Some(WrongCount);
    }
    var seen: seq<int> := [];
    for i := 0 to |rows|
      invariant seen == Repetitions(rows[..i])
      invariant forall j :: 0 <= j < i ==> rows[j].iterations == iterations
    {
      if rows[i].iterations != iterations {
        return Some(WrongIterations);
      }
      seen := seen + [rows[i].repetition];
    }
    assert rows[..|rows|] == rows;
    if seen != OneTo(repetitions) {
      assert exists i :: 0 <= i < |rows| && seen[i] != OneTo(repetitions)[i];
      return Some(WrongRepetitions);
    }
    forall i | 0 <= i < |rows| ensures rows[i].repetition == i + 1 {
      assert seen[i] == OneTo(repetitions)[i];
    }
    error := None;
  }

  // ---- Merging

  function Concat(files: seq<CsvFile>): seq<Row> {
    if files == [] then [] else files[0].rows + Concat(files[1..])
  }

  /** Every file has these field names and holds a complete series. */
  predicate AllComplete(files: seq<CsvFile>, fieldnames: seq<string>) {
    forall f :: f in files ==>
      f.fieldnames == fieldnames && ValidRows(f.rows, EXPECTED_ITERATIONS, EXPECTED_REPETITIONS)
  }

  predicate Mergeable(files: seq<CsvFile>) {
    files != [] && AllComplete(files, files[0].fieldnames)
  }

  lemma {:induction false} ConcatAppend(files: seq<CsvFile>, f: CsvFile)
    ensures Concat(files + [f]) == Concat(files) + f.rows
  {
    if files == [] {
      assert [f][1..] == [];
    } else {
      assert (files + [f])[1..] == files[1..] + [f];
      ConcatAppend(files[1..], f);
    }
  }

  /** Merges exactly the file lists whose headers agree and whose every file is a complete series. */
  method Merge(files: seq<CsvFile>) returns (r: Result<seq<Row>, Error>)
    ensures r.Ok? <==> Mergeable(files)
    ensures r.Ok? ==> r.value == Concat(files)
    ensures r == Err(NoFiles) <==> files == []
    ensures r.Err? && r.error.HeaderMismatch? ==>
              && r.error.file < |files| && files[r.error.file].fieldnames != files[0].fieldnames
              && AllComplete(files[..r.error.file], files[0].fieldnames)
  {
    if files == [] {
      return Err(NoFiles);
    }
    var rows: seq<Row> := [];
    for i := 0 to |files|
      invariant rows == Concat(files[..i])
      invariant AllComplete(files[..i], files[0].fieldnames)
    {
      if files[i].fieldnames != files[0].fieldnames {
        return Err(HeaderMismatch(i));
      }
      var error := ValidateRows(files[i].rows, EXPECTED_ITERATIONS, EXPECTED_REPETITIONS);
      if error.Some? {
        return Err(error.value);
      }
      assert files[..i + 1] == files[..i] + [files[i]];
      ConcatAppend(files[..i], files[i]);
      rows := rows + files[i].rows;
    }
    assert files[..|files|] == files;
    r := Ok(rows);
  }

  lemma {:induction false} EqualFilesLength(files: seq<CsvFile>, size: nat)
    requires forall f :: f in files ==> |f.rows| == size
    ensures |Concat(files)| == |files| * size
  {
    if files != [] {
      var n := |files| - 1;
      assert files[0] in files;
      EqualFilesLength(files[1..], size);
      assert (n + 1) * size == size + n * size;
    }
  }

  /** The position of a row counts from its file on. */
  lemma {:induction false} EqualFilesAt(files: seq<CsvFile>, size: nat, i: nat, j: nat, position: nat)
    requires (forall f :: f in files ==> |f.rows| == size) && i < |files| && j < size && position == i * size + j
    ensures position < |Concat(files)| && Concat(files)[position] == files[i].rows[j]
    decreases |files|
  {
    assert files[0] in files;
    if i > 0 {
      assert position == size + ((i - 1) * size + j);
      EqualFilesAt(files[1..], size, i - 1, j, position - size);
    }
  }

  /** In merged files the ten rows of the i-th file are the rows from 10 * i on, in order. */
  lemma MergedRowsAt(files: seq<CsvFile>, i: nat, j: nat)
    requires Mergeable(files) && i < |files| && j < 10
    ensures |Concat(files)| == 10 * |files| && Concat(files)[10 * i + j] == files[i].rows[j]
  {
    assert forall f :: f in files ==> |f.rows| == 10;
    EqualFilesLength(files, 10);
    EqualFilesAt(files, 10, i, j, 10 * i + j);
  }

  // ---- Grouping

  /** The rows of one configuration, in their order. */
  function Filter(rows: seq<Row>, key: Key): seq<Row> {
    if rows == [] then [] else
      Filter(rows[..|rows| - 1], key) + if rows[|rows| - 1].key == key then [rows[|rows| - 1]] else []
  }

  ghost predicate Grouped(rows: seq<Row>, groups: map<Key, seq<Row>>) {
    && (forall row :: row in rows ==> row.key in groups)
    && (forall key :: key in groups ==> groups[key] == Filter(rows, key) && groups[key] != [])
  }

  method Group(rows: seq<Row>) returns (groups: map<Key, seq<Row>>)
    ensures Grouped(rows, groups)
  {
    groups := map[];
    for i := 0 to |rows|
      invariant Grouped(rows[..i], groups)
    {
      var row := rows[i];
      var before := if row.key in groups then groups[row.key] else [];
      assert rows[..i + 1][..i] == rows[..i] && rows[..i + 1][i] == row;
      if row.key !in groups {
        FilterNone(rows[..i], row.key);
      }
      assert rows[..i + 1] == rows[..i] + [row];
      groups := groups[row.key := before + [row]];
    }
    assert rows[..|rows|] == rows;
  }

  /** Grouping neither loses nor duplicates a row: each keeps its multiplicity in its own group and occurs
    in no other. */
  lemma {:induction false} GroupingPermutes(rows: seq<Row>, row: Row, key: Key)
    ensures multiset(Filter(rows, key))[row] == if row.key == key then multiset(rows)[row] else 0
  {
    if rows != [] {
      var init, last := rows[..|rows| - 1], rows[|rows| - 1];
      GroupingPermutes(init, row, key);
      assert rows == init + [last];
      assert multiset(rows) == multiset(init) + multiset{last};
    }
  }

  lemma {:induction false} FilterNone(rows: seq<Row>, key: Key)
    requires forall row :: row in rows ==> row.key != key
    ensures Filter(rows, key) == []
  {
    if rows != [] {
      assert rows[|rows| - 1] in rows;
      FilterNone(rows[..|rows| - 1], key);
    }
  }

  lemma {:induction false} FilterAll(rows: seq<Row>, key: Key)
    requires forall row :: row in rows ==> row.key == key
    ensures Filter(rows, key) == rows
  {
    if rows != [] {
      assert rows[|rows| - 1] in rows;
      FilterAll(rows[..|rows| - 1], key);
    }
  }

  lemma {:induction false} FilterConcat(a: seq<Row>, b: seq<Row>, key: Key)
    ensures Filter(a + b, key) == Filter(a, key) + Filter(b, key)
    decreases |b|
  {
    if b == [] {
      assert a + b == a;
    } else {
      var init := b[..|b| - 1];
      assert (a + b)[..|a + b| - 1] == a + init;
      FilterConcat(a, init, key);
    }
  }

  /** The report goes ahead: there are rows, and every configuration is a complete series. */
  predicate Accepts(rows: seq<Row>, iterations: int, repetitions: nat) {
    rows != [] && forall row :: row in rows ==> ValidRows(Filter(rows, row.key), iterations, repetitions)
  }

  method Report(rows: seq<Row>, iterations: int, repetitions: nat) returns (r: Result<map<Key, seq<Row>>, Error>)
    ensures r.Ok? <==> Accepts(rows, iterations, repetitions)
    ensures r.Ok? ==> Grouped(rows, r.value)
  {
    if rows == [] {
      return Err(NoFiles);
    }
    var groups := Group(rows);
    var keys := groups.Keys;
    while keys != {}
      invariant keys <= groups.Keys
      invariant forall key :: key in groups.Keys - keys ==> ValidRows(groups[key], iterations, repetitions)
      decreases keys
    {
      var key :| key in keys;
      var error := ValidateRows(groups[key], iterations, repetitions);
      if error.Some? {
        GroupHasRow(rows, key);
        return Err(error.value);
      }
      keys := keys - {key};
    }
    r := Ok(groups);
  }

  lemma {:induction false} GroupHasRow(rows: seq<Row>, key: Key)
    requires Filter(rows, key) != []
    ensures exists row :: row in rows && row.key == key
  {
    if forall row :: row in rows ==> row.key != key {
      FilterNone(rows, key);
    }
  }

  // ---- Merge, then report

  /** Every row of the file belongs to one configuration. */
  predicate SingleKey(f: CsvFile) {
    f.rows != [] && forall row :: row in f.rows ==> row.key == f.rows[0].key
  }

  function KeyOf(f: CsvFile): Key
    requires SingleKey(f)
  {
    f.rows[0].key
  }

  ghost predicate SingleKeys(files: seq<CsvFile>) {
    forall i :: 0 <= i < |files| ==> SingleKey(files[i])
  }

  ghost predicate DistinctKeys(files: seq<CsvFile>)
    requires SingleKeys(files)
  {
    forall i, j :: 0 <= i < j < |files| ==> KeyOf(files[i]) != KeyOf(files[j])
  }

  /** The merged rows of a configuration are those of the files that carry it. */
  lemma FilterMerged(files: seq<CsvFile>, key: Key)
    requires files != [] && SingleKeys(files)
    ensures Filter(Concat(files), key) ==
            (if KeyOf(files[0]) == key then files[0].rows else []) + Filter(Concat(files[1..]), key)
  {
    var first := files[0];
    FilterConcat(first.rows, Concat(files[1..]), key);
    if KeyOf(first) == key {
      FilterAll(first.rows, key);
    } else {
      FilterNone(first.rows, key);
    }
  }

  lemma {:induction false} AbsentKey(files: seq<CsvFile>, key: Key)
    requires SingleKeys(files) && forall i :: 0 <= i < |files| ==> KeyOf(files[i]) != key
    ensures Filter(Concat(files), key) == []
  {
    if files != [] {
      FilterMerged(files, key);
      AbsentKey(files[1..], key);
    }
  }

  lemma {:induction false} OnlyFileOfKey(files: seq<CsvFile>, i: nat)
    requires SingleKeys(files) && DistinctKeys(files) && i < |files|
    ensures Filter(Concat(files), KeyOf(files[i])) == files[i].rows
    decreases |files|
  {
    var key := KeyOf(files[i]);
    FilterMerged(files, key);
    if i == 0 {
      AbsentKey(files[1..], key);
    } else {
      OnlyFileOfKey(files[1..], i - 1);
    }
  }

  lemma {:induction false} FileOfKeyCounts(files: seq<CsvFile>, i: nat)
    requires SingleKeys(files) && i < |files|
    ensures |Filter(Concat(files), KeyOf(files[i]))| >= |files[i].rows|
    decreases |files|
  {
    FilterMerged(files, KeyOf(files[i]));
    if i > 0 {
      FileOfKeyCounts(files[1..], i - 1);
    }
  }

  lemma {:induction false} TwoFilesOfKeyCount(files: seq<CsvFile>, i: nat, j: nat)
    requires SingleKeys(files) && i < j < |files| && KeyOf(files[i]) == KeyOf(files[j])
    ensures |Filter(Concat(files), KeyOf(files[i]))| >= |files[i].rows| + |files[j].rows|
    decreases |files|
  {
    FilterMerged(files, KeyOf(files[i]));
    if i == 0 {
      FileOfKeyCounts(files[1..], j - 1);
    } else {
      TwoFilesOfKeyCount(files[1..], i - 1, j - 1);
    }
  }

  lemma {:induction false} RowHasFile(files: seq<CsvFile>, row: Row) returns (i: nat)
    requires row in Concat(files)
    ensures i < |files| && row in files[i].rows
  {
    if row in files[0].rows {
      i := 0;
    } else {
      i := RowHasFile(files[1..], row);
      i := i + 1;
    }
  }

  lemma {:induction false} FileRowsMerged(files: seq<CsvFile>, i: nat, row: Row)
    requires i < |files| && row in files[i].rows
    ensures row in Concat(files)
  {
    if i > 0 {
      FileRowsMerged(files[1..], i - 1, row);
    }
  }

  /** Under the metadata that merging writes, the report accepts merged files of one configuration each
    exactly when no two files carry the same configuration. */
  lemma MergedReportAccepts(files: seq<CsvFile>)
    requires Mergeable(files) && SingleKeys(files)
    ensures Accepts(Concat(files), EXPECTED_ITERATIONS, EXPECTED_REPETITIONS) <==> DistinctKeys(files)
  {
    var rows := Concat(files);
    assert files[0] in files;
    FileRowsMerged(files, 0, files[0].rows[0]);
    if DistinctKeys(files) {
      forall row | row in rows
        ensures ValidRows(Filter(rows, row.key), EXPECTED_ITERATIONS, EXPECTED_REPETITIONS)
      {
        var i := RowHasFile(files, row);
        OnlyFileOfKey(files, i);
        assert files[i] in files;
      }
    } else {
      var i, j :| 0 <= i < j < |files| && KeyOf(files[i]) == KeyOf(files[j]);
      assert files[i] in files && files[j] in files;
      TwoFilesOfKeyCount(files, i, j);
      FileRowsMerged(files, i, files[i].rows[0]);
    }
  }
}
