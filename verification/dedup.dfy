/** merge_duplicates: fold the merged file's rows into one entry per Title, first
    row wins, with a count of the rows that carried that Title. */
module Dedup {
  import opened CsvTable

  const TitleColumn: string := "Title"
  const CountColumn: string := "count"

  /** `row["Title"]`: the title cell, or None when the record is too short to reach
      the Title column (csv.DictReader's restval). None is a key of its own. */
  type Title = Option<string>

  /** One value of the title map: the Title it is keyed by, the first row's value for
      every field name (in field-name order), and how many rows carried that Title. */
  datatype Entry = Entry(title: Title, cells: seq<Option<string>>, count: nat)

  /** What merge_duplicates leaves behind: exit status 1 before writing anything, or
      the written table (its field names, its entries in the title map's order) and
      the number of rows it read. */
  datatype Outcome =
    | Exit(status: int)
    | Written(fieldnames: seq<string>, entries: seq<Entry>, totalRows: nat)

  function TitleOf(fieldnames: seq<string>, row: Record): Title
    requires TitleColumn in fieldnames
  {
    Lookup(fieldnames, row, TitleColumn)
  }

  /** `{col: row[col] for col in fieldnames}`, in field-name order. */
  function CellsOf(fieldnames: seq<string>, row: Record): (cells: seq<Option<string>>)
    ensures |cells| == |fieldnames|
    ensures forall i :: 0 <= i < |fieldnames| ==> cells[i] == Lookup(fieldnames, row, fieldnames[i])
  {
    Project(fieldnames, fieldnames, row)
  }

  /** `row[col]` for every `col` of `cols`, in order. */
  function Project(fieldnames: seq<string>, cols: seq<string>, row: Record): (cells: seq<Option<string>>)
    requires forall i :: 0 <= i < |cols| ==> cols[i] in fieldnames
    ensures |cells| == |cols|
    ensures forall i :: 0 <= i < |cols| ==> cells[i] == Lookup(fieldnames, row, cols[i])
  {
    if cols == [] then []
    else Project(fieldnames, cols[..|cols| - 1], row) + [Lookup(fieldnames, row, cols[|cols| - 1])]
  }

  /** The Title of every row, in row order. */
  function Titles(fieldnames: seq<string>, rows: seq<Record>): (ts: seq<Title>)
    requires TitleColumn in fieldnames
    ensures |ts| == |rows|
    ensures forall i :: 0 <= i < |rows| ==> ts[i] == TitleOf(fieldnames, rows[i])
  {
    if rows == [] then []
    else Titles(fieldnames, rows[..|rows| - 1]) + [TitleOf(fieldnames, rows[|rows| - 1])]
  }

  /** The position of the first occurrence of `t` in `ts`, or |ts| when there is none. */
  function FirstIndex(ts: seq<Title>, t: Title): (i: nat)
    ensures i <= |ts|
    ensures i < |ts| <==> t in ts
    ensures i < |ts| ==> ts[i] == t
    ensures forall j :: 0 <= j < i ==> ts[j] != t
  {
    if ts == [] then 0
    else if ts[0] == t then 0
    else 1 + FirstIndex(ts[1..], t)
  }

  /** The position of the entry keyed by `t`, or |entries| when there is none. */
  function IndexOfTitle(entries: seq<Entry>, t: Title): (i: nat)
    ensures i <= |entries|
    ensures i < |entries| ==> entries[i].title == t
    ensures forall j :: 0 <= j < i ==> entries[j].title != t
  {
    if entries == [] then 0
    else if entries[0].title == t then 0
    else 1 + IndexOfTitle(entries[1..], t)
  }

  /** One row folded into the title map: a known Title only gains a count, a new one
      is appended with the row's cells and count 1. */
  function Add(fieldnames: seq<string>, entries: seq<Entry>, row: Record): seq<Entry>
    requires TitleColumn in fieldnames
  {
    Insert(entries, TitleOf(fieldnames, row), CellsOf(fieldnames, row))
  }

  /** The title map after a row with Title `t` and cells `cells`. */
  function Insert(entries: seq<Entry>, t: Title, cells: seq<Option<string>>): (entries': seq<Entry>)
    ensures AddedTo(entries, t, cells, entries')
  {
    var i := IndexOfTitle(entries, t);
    if i < |entries| then entries[i := entries[i].(count := entries[i].count + 1)]
    else entries + [Entry(t, cells, 1)]
  }

  /** The title map's values, in insertion order, after folding `rows` in. */
  function Tally(fieldnames: seq<string>, rows: seq<Record>): seq<Entry>
    requires TitleColumn in fieldnames
  {
    if rows == [] then []
    else Add(fieldnames, Tally(fieldnames, rows[..|rows| - 1]), rows[|rows| - 1])
  }

  /** The sum of the counts. */
  function TotalCount(entries: seq<Entry>): nat
  {
    if entries == [] then 0 else entries[0].count + TotalCount(entries[1..])
  }

  /** What a deduplicated table promises about the rows it came from: every Title of
      the rows has exactly one entry and no entry has another; an entry's count is the
      number of rows with its Title; its cells are those of the first such row; the
      entries stand in the order in which their Titles first occur. */
  ghost predicate Summarises(fieldnames: seq<string>, rows: seq<Record>, entries: seq<Entry>)
    requires TitleColumn in fieldnames
  {
    var ts := Titles(fieldnames, rows);
    && TitlesDistinct(entries)
    && SameTitles(ts, entries)
    && CountsOccurrences(ts, entries)
    && FirstRowCells(fieldnames, rows, ts, entries)
    && FirstOccurrenceOrder(ts, entries)
  }

  ghost predicate TitlesDistinct(entries: seq<Entry>)
  {
    forall i, j :: 0 <= i < j < |entries| ==> entries[i].title != entries[j].title
  }

  ghost predicate SameTitles(ts: seq<Title>, entries: seq<Entry>)
  {
    && (forall k :: 0 <= k < |ts| ==> IndexOfTitle(entries, ts[k]) < |entries|)
    && (forall i :: 0 <= i < |entries| ==> entries[i].title in ts)
  }

  ghost predicate CountsOccurrences(ts: seq<Title>, entries: seq<Entry>)
  {
    forall i :: 0 <= i < |entries| ==> entries[i].count == multiset(ts)[entries[i].title]
  }

  ghost predicate FirstRowCells(fieldnames: seq<string>, rows: seq<Record>, ts: seq<Title>, entries: seq<Entry>)
    requires |ts| == |rows|
  {
    forall i :: 0 <= i < |entries| ==>
      FirstIndex(ts, entries[i].title) < |rows| &&
      entries[i].cells == CellsOf(fieldnames, rows[FirstIndex(ts, entries[i].title)])
  }

  ghost predicate FirstOccurrenceOrder(ts: seq<Title>, entries: seq<Entry>)
  {
    forall i, j :: 0 <= i < j < |entries| ==>
      FirstIndex(ts, entries[i].title) < FirstIndex(ts, entries[j].title)
  }

  /** The file merge_duplicates reads, and what it leaves behind: without field names,
      or without a Title among them, it exits with status 1; otherwise it writes a
      table that summarises the rows read and whose counts add up to their number. */
  function DedupFile(input: CsvFile): (r: Outcome)
    ensures r.Exit? <==> input == [] || TitleColumn !in input[0]
    ensures r.Exit? ==> r.status == 1
    ensures r.Written? ==> r.fieldnames == input[0] && r.totalRows == |DictRows(input[1..])|
    ensures r.Written? ==> Summarises(r.fieldnames, DictRows(input[1..]), r.entries)
    ensures r.Written? ==> TotalCount(r.entries) == r.totalRows
    ensures r.Written? ==> forall i :: 0 <= i < |r.entries| ==>
      r.entries[i].count >= 1 && |r.entries[i].cells| == |r.fieldnames|
  {
    if input == [] || TitleColumn !in input[0] then Exit(1)
    else
      var rows := DictRows(input[1..]);
      TallySummarises(input[0], rows);
      TallyTotal(input[0], rows);
      Written(input[0], Tally(input[0], rows), |rows|)
  }

  /** The loop of merge_duplicates over a Python dict kept in insertion order
      (`titleMap` and the order of its keys, `order`). */
  method MergeDuplicates(input: CsvFile) returns (r: Outcome)
    ensures r == DedupFile(input)
  {
    if input == [] || TitleColumn !in input[0] {
      return Exit(1);
    }
    var fieldnames := input[0];
    var rows := DictRows(input[1..]);  // what `for row in reader` visits
    var titleMap: map<Title, Entry> := map[];
    var order: seq<Title> := [];
    var totalRows := 0;
    var i := 0;
    while i < |rows|
      invariant 0 <= i <= |rows|
      invariant totalRows == i
      invariant MapHolds(titleMap, order, Tally(fieldnames, rows[..i]))
    {
      var row := rows[i];
      totalRows := totalRows + 1;
      var title := TitleOf(fieldnames, row);
      ghost var before := Tally(fieldnames, rows[..i]);
      assert rows[..i + 1] == rows[..i] + [row];
      TallySnoc(fieldnames, rows[..i], row);
      if title in titleMap {
        AddKnown(titleMap, order, before, title, CellsOf(fieldnames, row));
        titleMap := titleMap[title := titleMap[title].(count := titleMap[title].count + 1)];
      } else {
        var entry := Entry(title, CellsOf(fieldnames, row), 1);
        AddNew(titleMap, order, before, title, entry.cells);
        titleMap := titleMap[title := entry];
        order := order + [title];
      }
      i := i + 1;
    }
    assert rows[..i] == rows;
    // the writer's loop over title_map.values()
    var entries := Values(titleMap, order);
    ValuesInOrder(titleMap, order, Tally(fieldnames, rows), entries);
    r := Written(fieldnames, entries, totalRows);
  }

  /** `title_map.values()`: the map's values in the order their keys were inserted. */
  method Values(titleMap: map<Title, Entry>, order: seq<Title>) returns (entries: seq<Entry>)
    requires forall j :: 0 <= j < |order| ==> order[j] in titleMap
    ensures |entries| == |order|
    ensures forall j :: 0 <= j < |order| ==> entries[j] == titleMap[order[j]]
  {
    entries := [];
    var k := 0;
    while k < |order|
      invariant 0 <= k <= |order|
      invariant |entries| == k
      invariant forall j :: 0 <= j < k ==> entries[j] == titleMap[order[j]]
    {
      entries := entries + [titleMap[order[k]]];
      k := k + 1;
    }
  }

  /** The dict `titleMap`, iterated in the insertion order `order`, gives `entries`. */
  ghost predicate MapHolds(titleMap: map<Title, Entry>, order: seq<Title>, entries: seq<Entry>)
  {
    && |order| == |entries|
    && (forall j :: 0 <= j < |order| ==> order[j] in titleMap && titleMap[order[j]] == entries[j])
    && (forall t :: t in titleMap ==> t in order && titleMap[t].title == t)
    && (forall j, k :: 0 <= j < k < |order| ==> order[j] != order[k])
  }

  lemma ValuesInOrder(titleMap: map<Title, Entry>, order: seq<Title>, entries: seq<Entry>, values: seq<Entry>)
    requires MapHolds(titleMap, order, entries)
    requires |values| == |order| && forall j :: 0 <= j < |order| ==> values[j] == titleMap[order[j]]
    ensures values == entries
  {
  }

  lemma AddKnown(titleMap: map<Title, Entry>, order: seq<Title>, entries: seq<Entry>,
                 t: Title, cells: seq<Option<string>>)
    requires MapHolds(titleMap, order, entries)
    requires t in titleMap
    ensures MapHolds(titleMap[t := titleMap[t].(count := titleMap[t].count + 1)], order, Insert(entries, t, cells))
  {
    var k := KnownIndex(titleMap, order, entries, t);
    var e := titleMap[t].(count := titleMap[t].count + 1);
    InsertKnown(entries, t, cells, k);
    MapHoldsUpdate(titleMap, order, entries, k, e);
  }

  /** A Title already in the map only bumps the count of its own entry. */
  lemma InsertKnown(entries: seq<Entry>, t: Title, cells: seq<Option<string>>, k: int)
    requires 0 <= k < |entries| && IndexOfTitle(entries, t) == k
    ensures Insert(entries, t, cells) == entries[k := entries[k].(count := entries[k].count + 1)]
  {
  }

  /** A key of the map sits at the position of its entry. */
  lemma KnownIndex(titleMap: map<Title, Entry>, order: seq<Title>, entries: seq<Entry>, t: Title)
    returns (k: int)
    requires MapHolds(titleMap, order, entries)
    requires t in titleMap
    ensures 0 <= k < |order| && order[k] == t
    ensures IndexOfTitle(entries, t) == k && entries[k] == titleMap[t]
  {
    k :| 0 <= k < |order| && order[k] == t;
    KeysAreTitles(titleMap, order, entries);
  }

  /** Replacing the value of a key that is present keeps its place in the order. */
  lemma MapHoldsUpdate(titleMap: map<Title, Entry>, order: seq<Title>, entries: seq<Entry>, k: int, e: Entry)
    requires MapHolds(titleMap, order, entries)
    requires 0 <= k < |order| && e.title == order[k]
    ensures MapHolds(titleMap[order[k] := e], order, entries[k := e])
  {
  }

  /** Each entry is keyed by its own Title. */
  lemma KeysAreTitles(titleMap: map<Title, Entry>, order: seq<Title>, entries: seq<Entry>)
    requires MapHolds(titleMap, order, entries)
    ensures forall j :: 0 <= j < |entries| ==> entries[j].title == order[j]
  {
    forall j | 0 <= j < |entries|
      ensures entries[j].title == order[j]
    {
      assert titleMap[order[j]] == entries[j];
    }
  }

  lemma AddNew(titleMap: map<Title, Entry>, order: seq<Title>, entries: seq<Entry>,
               t: Title, cells: seq<Option<string>>)
    requires MapHolds(titleMap, order, entries)
    requires t !in titleMap
    ensures MapHolds(titleMap[t := Entry(t, cells, 1)], order + [t], Insert(entries, t, cells))
  {
  }

  lemma {:induction false} TallySnoc(fieldnames: seq<string>, rows: seq<Record>, row: Record)
    requires TitleColumn in fieldnames
    ensures Tally(fieldnames, rows + [row]) == Add(fieldnames, Tally(fieldnames, rows), row)
  {
    assert (rows + [row])[..|rows|] == rows;
  }

  lemma {:induction false} FirstIndexSnoc(ts: seq<Title>, t: Title, x: Title)
    ensures FirstIndex(ts + [t], x) == if x in ts then FirstIndex(ts, x) else if x == t then |ts| else |ts| + 1
  {
    var i := FirstIndex(ts + [t], x);
    if x in ts {
      var i0 := FirstIndex(ts, x);
      assert (ts + [t])[i0] == x;
      assert i <= i0;
      assert i < |ts| ==> ts[i] == x;
    } else if x == t {
      assert (ts + [t])[|ts|] == x;
    }
  }

  /** Folding the rows one by one yields a table that summarises them. */
  lemma {:induction false} TallySummarises(fieldnames: seq<string>, rows: seq<Record>)
    requires TitleColumn in fieldnames
    ensures Summarises(fieldnames, rows, Tally(fieldnames, rows))
  {
    if rows != [] {
      var init := rows[..|rows| - 1];
      var row := rows[|rows| - 1];
      assert rows == init + [row];
      TallySummarises(fieldnames, init);
      AddSummarises(fieldnames, init, Tally(fieldnames, init), row);
    }
  }

  lemma AddSummarises(fieldnames: seq<string>, rows: seq<Record>, entries: seq<Entry>, row: Record)
    requires TitleColumn in fieldnames
    requires Summarises(fieldnames, rows, entries)
    ensures Summarises(fieldnames, rows + [row], Add(fieldnames, entries, row))
  {
    var ts := Titles(fieldnames, rows);
    var t := TitleOf(fieldnames, row);
    var rows' := rows + [row];
    var ts' := Titles(fieldnames, rows');
    assert ts' == ts + [t];
    var cells := CellsOf(fieldnames, row);
    var entries' := Add(fieldnames, entries, row);
    assert entries' == Insert(entries, t, cells);
    if IndexOfTitle(entries, t) == |entries| {
      NewTitleUnseen(ts, entries, t);
    }
    AddSameTitles(ts, entries, t, cells, entries');
    AddDistinct(entries, t, cells, entries');
    AddCounts(ts, entries, t, cells, entries');
    AddFirstRowCells(fieldnames, rows, ts, entries, row, entries');
    AddOrder(ts, entries, t, cells, entries');
  }

  /** A Title no entry carries does not occur among the rows. */
  lemma NewTitleUnseen(ts: seq<Title>, entries: seq<Entry>, t: Title)
    requires SameTitles(ts, entries)
    requires IndexOfTitle(entries, t) == |entries|
    ensures t !in ts
  {
    forall k | 0 <= k < |ts|
      ensures ts[k] != t
    {
      assert IndexOfTitle(entries, ts[k]) < |entries|;
    }
  }

  /** `entries'` is what Add makes of `entries` for a row with Title `t`. */
  ghost predicate AddedTo(entries: seq<Entry>, t: Title, cells: seq<Option<string>>, entries': seq<Entry>)
  {
    var i := IndexOfTitle(entries, t);
    if i < |entries| then
      |entries'| == |entries| &&
      entries'[i] == entries[i].(count := entries[i].count + 1) &&
      forall k :: 0 <= k < |entries| && k != i ==> entries'[k] == entries[k]
    else
      entries' == entries + [Entry(t, cells, 1)]
  }

  lemma AddSameTitles(ts: seq<Title>, entries: seq<Entry>, t: Title, cells: seq<Option<string>>, entries': seq<Entry>)
    requires SameTitles(ts, entries) && AddedTo(entries, t, cells, entries')
    requires IndexOfTitle(entries, t) == |entries| ==> t !in ts
    ensures SameTitles(ts + [t], entries')
  {
    var ts' := ts + [t];
    var i := IndexOfTitle(entries, t);
    forall k | 0 <= k < |ts'|
      ensures IndexOfTitle(entries', ts'[k]) < |entries'|
    {
      if k < |ts| {
        var m := IndexOfTitle(entries, ts[k]);
        assert entries'[m].title == ts'[k];
      } else if i < |entries| {
        assert entries'[i].title == ts'[k];
      } else {
        assert entries'[|entries|].title == ts'[k];
      }
    }
    forall m | 0 <= m < |entries'|
      ensures entries'[m].title in ts'
    {
      if m < |entries| {
        assert entries'[m].title == entries[m].title;
      } else {
        assert ts'[|ts|] == t;
      }
    }
  }

  lemma AddDistinct(entries: seq<Entry>, t: Title, cells: seq<Option<string>>, entries': seq<Entry>)
    requires TitlesDistinct(entries) && AddedTo(entries, t, cells, entries')
    ensures TitlesDistinct(entries')
  {
    AddedKeepsTitles(entries, t, cells, entries');
    forall a, b | 0 <= a < b < |entries'|
      ensures entries'[a].title != entries'[b].title
    {
      if b == |entries| {
        assert entries'[a].title == entries[a].title;
      }
    }
  }

  lemma AddCounts(ts: seq<Title>, entries: seq<Entry>, t: Title, cells: seq<Option<string>>, entries': seq<Entry>)
    requires TitlesDistinct(entries) && CountsOccurrences(ts, entries) && AddedTo(entries, t, cells, entries')
    requires IndexOfTitle(entries, t) == |entries| ==> t !in ts
    ensures CountsOccurrences(ts + [t], entries')
  {
    var ts' := ts + [t];
    var i := IndexOfTitle(entries, t);
    forall m | 0 <= m < |entries'|
      ensures entries'[m].count == multiset(ts')[entries'[m].title]
    {
      assert multiset(ts') == multiset(ts) + multiset{t};
      if m < |entries| && m != i {
        assert entries'[m] == entries[m];
        assert entries[m].title != t;
      } else if i < |entries| {
        assert entries'[m].count == entries[m].count + 1;
      } else {
        assert multiset(ts)[t] == 0;
      }
    }
  }

  lemma AddFirstRowCells(fieldnames: seq<string>, rows: seq<Record>, ts: seq<Title>,
                         entries: seq<Entry>, row: Record, entries': seq<Entry>)
    requires TitleColumn in fieldnames
    requires ts == Titles(fieldnames, rows)
    requires FirstRowCells(fieldnames, rows, ts, entries)
    requires AddedTo(entries, TitleOf(fieldnames, row), CellsOf(fieldnames, row), entries')
    requires IndexOfTitle(entries, TitleOf(fieldnames, row)) == |entries| ==> TitleOf(fieldnames, row) !in ts
    ensures Titles(fieldnames, rows + [row]) == ts + [TitleOf(fieldnames, row)]
    ensures FirstRowCells(fieldnames, rows + [row], ts + [TitleOf(fieldnames, row)], entries')
  {
    var t := TitleOf(fieldnames, row);
    var ts' := ts + [t];
    var rows' := rows + [row];
    assert Titles(fieldnames, rows') == ts';
    forall m | 0 <= m < |entries'|
      ensures FirstIndex(ts', entries'[m].title) < |rows'|
      ensures entries'[m].cells == CellsOf(fieldnames, rows'[FirstIndex(ts', entries'[m].title)])
    {
      var x := entries'[m].title;
      FirstIndexSnoc(ts, t, x);
      if m < |entries| {
        assert x == entries[m].title;
        assert FirstIndex(ts, x) < |rows|;
      } else {
        assert x == t;
      }
    }
  }

  lemma AddOrder(ts: seq<Title>, entries: seq<Entry>, t: Title, cells: seq<Option<string>>, entries': seq<Entry>)
    requires FirstOccurrenceOrder(ts, entries) && SameTitles(ts, entries) && AddedTo(entries, t, cells, entries')
    requires IndexOfTitle(entries, t) == |entries| ==> t !in ts
    ensures FirstOccurrenceOrder(ts + [t], entries')
  {
    var ts' := ts + [t];
    AddedKeepsTitles(entries, t, cells, entries');
    forall i, j | 0 <= i < j < |entries'|
      ensures FirstIndex(ts', entries'[i].title) < FirstIndex(ts', entries'[j].title)
    {
      var x, y := entries'[i].title, entries'[j].title;
      FirstIndexSnoc(ts, t, x);
      FirstIndexSnoc(ts, t, y);
      assert x == entries[i].title && x in ts;
      if j < |entries| {
        assert y == entries[j].title && y in ts;
      } else {
        assert j == |entries| && |entries'| == |entries| + 1;
        assert y == t && t !in ts;
      }
    }
  }

  /** Add keeps every entry's Title in place; an appended entry carries the new Title. */
  lemma AddedKeepsTitles(entries: seq<Entry>, t: Title, cells: seq<Option<string>>, entries': seq<Entry>)
    requires AddedTo(entries, t, cells, entries')
    ensures |entries| <= |entries'| <= |entries| + 1
    ensures forall m :: 0 <= m < |entries| ==> entries'[m].title == entries[m].title
    ensures |entries'| == |entries| + 1 <==> IndexOfTitle(entries, t) == |entries|
    ensures |entries'| == |entries| + 1 ==> entries'[|entries|].title == t
  {
    var i := IndexOfTitle(entries, t);
    if i == |entries| {
      forall m | 0 <= m < |entries|
        ensures entries'[m].title == entries[m].title
      {
        assert entries'[m] == entries'[..|entries|][m];
      }
    }
  }

  lemma {:induction false} TotalCountConcat(a: seq<Entry>, b: seq<Entry>)
    ensures TotalCount(a + b) == TotalCount(a) + TotalCount(b)
  {
    if a == [] {
      assert a + b == b;
    } else {
      assert (a + b)[1..] == a[1..] + b;
      TotalCountConcat(a[1..], b);
    }
  }

  /** Raising one entry's count by one raises the total by one. */
  lemma TotalCountBump(entries: seq<Entry>, i: nat)
    requires i < |entries|
    ensures TotalCount(entries[i := entries[i].(count := entries[i].count + 1)]) == TotalCount(entries) + 1
  {
    var e := entries[i];
    assert entries == entries[..i] + [e] + entries[i + 1..];
    assert entries[i := e.(count := e.count + 1)] == entries[..i] + [e.(count := e.count + 1)] + entries[i + 1..];
    TotalCountConcat(entries[..i] + [e], entries[i + 1..]);
    TotalCountConcat(entries[..i], [e]);
    TotalCountConcat(entries[..i] + [e.(count := e.count + 1)], entries[i + 1..]);
    TotalCountConcat(entries[..i], [e.(count := e.count + 1)]);
  }

  /** The counts add up to the number of rows read. */
  lemma {:induction false} TallyTotal(fieldnames: seq<string>, rows: seq<Record>)
    requires TitleColumn in fieldnames
    ensures TotalCount(Tally(fieldnames, rows)) == |rows|
  {
    if rows != [] {
      var init := rows[..|rows| - 1];
      var row := rows[|rows| - 1];
      var entries := Tally(fieldnames, init);
      TallyTotal(fieldnames, init);
      var i := IndexOfTitle(entries, TitleOf(fieldnames, row));
      if i < |entries| {
        TotalCountBump(entries, i);
      } else {
        TotalCountConcat(entries, [Entry(TitleOf(fieldnames, row), CellsOf(fieldnames, row), 1)]);
      }
    }
  }
}
