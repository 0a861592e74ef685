/** One pattern's pass in process_all: merge every matching file into one, fold the
    merged file into one entry per Title, then order the entries by count. */
module Pipeline {
  import opened CsvTable
  import opened Merge
  import opened Dedup
  import opened Rank

  /** How one pass ends: merge_duplicates exits with a status, or the ranked table
      (its field names and its entries, largest count first) is written. */
  datatype Run =
    | Aborted(status: int)
    | Ranked(fieldnames: seq<string>, entries: seq<Entry>)

  /** The pass over the files matching one pattern, in sorted path order. */
  function Process(files: seq<Source>): Run
  {
    match DedupFile(Merged(Reads(files)))
    case Exit(status) => Aborted(status)
    case Written(fieldnames, entries, _) => Ranked(fieldnames, SortByCount(entries))
  }

  /** The three calls of one pass, each stage reading what the previous one wrote. */
  method ProcessPattern(files: seq<Source>) returns (r: Run)
    ensures r == Process(files)
  {
    var merged, _ := MergeCsvFiles(files);
    var deduped := MergeDuplicates(merged);
    match deduped
    case Exit(status) =>
      r := Aborted(status);
    case Written(fieldnames, entries, _) =>
      r := Ranked(fieldnames, SortByCount(entries));
  }

  /** When no matching file has a header (in particular when nothing matches), the
      merged file is empty and the pass aborts with status 1. */
  lemma EmptyMergeAborts(files: seq<Source>)
    requires forall k :: 0 <= k < |files| ==> Read(files[k]) == []
    ensures Process(files) == Aborted(1)
  {
    MergedEmpty(Reads(files));
  }

  /** The ranked table keeps the header of the first file that has one, and the pass
      goes through exactly when that header has a Title column. */
  lemma HeaderOfFirstFile(files: seq<Source>, k: int)
    requires FirstWithHeader(Reads(files), k)
    ensures Process(files).Ranked? <==> TitleColumn in Read(files[k])[0]
    ensures Process(files).Ranked? ==> Process(files).fieldnames == Read(files[k])[0]
  {
    MergedShape(Reads(files), k);
  }

  /** The ranked table is the deduplication of every data row of every file, read
      under the first file's header: one entry per Title, ordered by count, and the
      counts add up to the number of non-blank data rows. */
  lemma RankedRows(files: seq<Source>, k: int)
    requires FirstWithHeader(Reads(files), k)
    requires TitleColumn in Read(files[k])[0]
    ensures var header := Read(files[k])[0];
      var rows := DictRows(Appended(Reads(files)));
      var r := Process(files);
      && r.Ranked?
      && ByCountDescending(r.entries)
      && multiset(r.entries) == multiset(Tally(header, rows))
      && Summarises(header, rows, Tally(header, rows))
      && TotalCount(r.entries) == |rows|
  {
    var read := Reads(files);
    var header := Read(files[k])[0];
    var rows := DictRows(Appended(read));
    assert Merged(read) == [header] + Appended(read) by {
      MergedShape(read, k);
    }
    DedupOfHeaderAndRows(header, Appended(read));
    SortKeepsTotal(Tally(header, rows));
  }

  /** A file of a header with a Title column and data records: the header is kept,
      and the entries are the fold of its non-blank records. */
  lemma DedupOfHeaderAndRows(header: Record, data: seq<Record>)
    requires TitleColumn in header
    ensures var rows := DictRows(data);
      && DedupFile([header] + data) == Written(header, Tally(header, rows), |rows|)
      && Summarises(header, rows, Tally(header, rows))
      && TotalCount(Tally(header, rows)) == |rows|
  {
    assert ([header] + data)[1..] == data;
    TallySummarises(header, DictRows(data));
    TallyTotal(header, DictRows(data));
  }

  /** A later file whose columns come in another order is read under the first file's
      header: its row for the same problem is folded, in first-occurrence order, as a
      Title of its own (its Difficulty), so the pass ranks two entries of count 1. */
  lemma ReorderedHeaderMisaligns()
    ensures var header: seq<string> := ["Difficulty", "Title"];
      var first := Source([header, ["Easy", "Two Sum"]], None);
      var second := Source([["Title", "Difficulty"], ["Two Sum", "Easy"]], None);
      var e0 := Entry(Some("Two Sum"), [Some("Easy"), Some("Two Sum")], 1);
      var e1 := Entry(Some("Easy"), [Some("Two Sum"), Some("Easy")], 1);
      var r := Process([first, second]);
      && DedupFile(Merged(Reads([first, second]))) == Written(header, [e0, e1], 2)
      && r.Ranked? && r.fieldnames == header && multiset(r.entries) == multiset{e0, e1}
  {
    var header: seq<string> := ["Difficulty", "Title"];
    var r0: Record := ["Easy", "Two Sum"];
    var r1: Record := ["Two Sum", "Easy"];
    assert TitleOf(header, r0) == Some("Two Sum") && TitleOf(header, r1) == Some("Easy");
    assert CellsOf(header, r0) == [Some("Easy"), Some("Two Sum")];
    assert CellsOf(header, r1) == [Some("Two Sum"), Some("Easy")];
    ProcessTwoFiles(Source([header, r0], None), Source([["Title", "Difficulty"], r1], None));
  }

  /** Two files read to their end, each of a header and one non-blank data row, whose
      rows carry different Titles under the first header: two entries, in file order. */
  lemma ProcessTwoFiles(first: Source, second: Source)
    requires first.failsAt == None && second.failsAt == None
    requires |first.records| == 2 && |second.records| == 2
    requires TitleColumn in first.records[0]
    requires first.records[1] != [] && second.records[1] != []
    requires TitleOf(first.records[0], first.records[1]) != TitleOf(first.records[0], second.records[1])
    ensures var header, r0, r1 := first.records[0], first.records[1], second.records[1];
      var e0 := Entry(TitleOf(header, r0), CellsOf(header, r0), 1);
      var e1 := Entry(TitleOf(header, r1), CellsOf(header, r1), 1);
      && DedupFile(Merged(Reads([first, second]))) == Written(header, [e0, e1], 2)
      && Process([first, second]) == Ranked(header, SortByCount([e0, e1]))
  {
    var header, r0, r1 := first.records[0], first.records[1], second.records[1];
    TwoFilesMerge(first, second);
    assert [header, r0, r1] == [header] + [r0, r1];
    DedupOfHeaderAndRows(header, [r0, r1]);
    TallyTwoTitles(header, r0, r1);
  }

  /** Two files read to their end, of one header and one data row each, merge into the
      first header and both rows. */
  lemma TwoFilesMerge(first: Source, second: Source)
    requires first.failsAt == None && second.failsAt == None
    requires |first.records| == 2 && |second.records| == 2
    ensures Merged(Reads([first, second])) == [first.records[0], first.records[1], second.records[1]]
  {
    var files := Reads([first, second]);
    assert files == [first.records, second.records];
    assert FirstWithHeader(files, 0);
    MergedShape(files, 0);
    assert files[1..] == [second.records] && [second.records][1..] == [];
    assert Appended([second.records]) == DataRows(second.records) + Appended([]);
  }

  /** Two non-blank rows with different Titles give two entries, in row order. */
  lemma TallyTwoTitles(header: seq<string>, r0: Record, r1: Record)
    requires TitleColumn in header
    requires r0 != [] && r1 != [] && TitleOf(header, r0) != TitleOf(header, r1)
    ensures DictRows([r0, r1]) == [r0, r1]
    ensures Tally(header, [r0, r1]) ==
      [Entry(TitleOf(header, r0), CellsOf(header, r0), 1), Entry(TitleOf(header, r1), CellsOf(header, r1), 1)]
  {
    assert [r0, r1][..1] == [r0] && [r0][..0] == [];
    assert Tally(header, [r0]) == [Entry(TitleOf(header, r0), CellsOf(header, r0), 1)];
  }
}
