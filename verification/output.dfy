/** What merge_duplicates writes once the title map is built: a csv.DictWriter over
    the input field names followed by "count", one row per entry in the map's order. */
module Output {
  import opened CsvTable
  import opened Dedup

  /** A written cell: a text value, or the integer count. */
  datatype Cell = Text(text: string) | Number(n: nat)

  /** The written file: its header and its rows. */
  datatype Table = Table(header: seq<string>, rows: seq<seq<Cell>>)

  /** `out_fields`. */
  function OutFields(fieldnames: seq<string>): seq<string>
  {
    fieldnames + [CountColumn]
  }

  /** What DictWriter writes under column `col` for an entry whose value there is `v`:
      under a column named "count" the entry holds its count, because setting
      `entry["count"]` replaced any value of that name; a missing value is written as
      an empty cell. */
  function RenderCell(col: string, v: Option<string>, count: nat): Cell
  {
    if col == CountColumn then Number(count) else Text(v.GetOr(""))
  }

  function RenderCells(cols: seq<string>, cells: seq<Option<string>>, count: nat): (out: seq<Cell>)
    requires |cells| == |cols|
    ensures |out| == |cols|
    ensures forall i :: 0 <= i < |cols| ==> out[i] == RenderCell(cols[i], cells[i], count)
  {
    if cols == [] then []
    else
      var n := |cols| - 1;
      RenderCells(cols[..n], cells[..n], count) + [RenderCell(cols[n], cells[n], count)]
  }

  /** `writer.writerow(entry)`: one cell per column of `out_fields`. */
  function RenderEntry(fieldnames: seq<string>, e: Entry): seq<Cell>
    requires |e.cells| == |fieldnames|
  {
    RenderCells(fieldnames, e.cells, e.count) + [Number(e.count)]
  }

  ghost predicate FitsHeader(fieldnames: seq<string>, entries: seq<Entry>)
  {
    forall i :: 0 <= i < |entries| ==> |entries[i].cells| == |fieldnames|
  }

  /** `writeheader()` and then `writerow` for every value of the title map, in order. */
  function Render(fieldnames: seq<string>, entries: seq<Entry>): (t: Table)
    requires FitsHeader(fieldnames, entries)
    ensures t.header == OutFields(fieldnames)
    ensures |t.rows| == |entries|
    ensures forall i :: 0 <= i < |entries| ==> t.rows[i] == RenderEntry(fieldnames, entries[i])
  {
    if entries == [] then Table(OutFields(fieldnames), [])
    else
      var n := |entries| - 1;
      var t := Render(fieldnames, entries[..n]);
      Table(t.header, t.rows + [RenderEntry(fieldnames, entries[n])])
  }

  /** Reading a written row back by column name, as csv.DictReader would: the count
      column gives the count, and every other input column gives the value the entry
      holds for it (empty when it had none). */
  lemma ReadBack(fieldnames: seq<string>, e: Entry, col: string)
    requires |e.cells| == |fieldnames|
    requires col in OutFields(fieldnames)
    ensures Lookup(OutFields(fieldnames), RenderEntry(fieldnames, e), col) ==
      if col == CountColumn then Some(Number(e.count))
      else Some(Text(e.cells[LastIndexOf(fieldnames, col)].GetOr("")))
  {
    LastIndexOfSnoc(fieldnames, CountColumn, col);
  }

  /** What merge_duplicates writes, read back by column name: the row of each entry
      gives, under every input column other than "count", the value of the first input
      row with that entry's Title (empty when that row was too short), and its count
      under "count". */
  lemma WrittenReadsBack(input: CsvFile, i: int, col: string)
    requires DedupFile(input).Written?
    requires 0 <= i < |DedupFile(input).entries|
    requires col in OutFields(input[0])
    ensures var r := DedupFile(input);
      var rows := DictRows(input[1..]);
      var first := rows[FirstIndex(Titles(input[0], rows), r.entries[i].title)];
      Lookup(OutFields(input[0]), RenderEntry(input[0], r.entries[i]), col) ==
        if col == CountColumn then Some(Number(r.entries[i].count))
        else Some(Text(Lookup(input[0], first, col).GetOr("")))
  {
    var r := DedupFile(input);
    var e := r.entries[i];
    ReadBack(input[0], e, col);
    if col != CountColumn {
      assert col in input[0];
      var k := LastIndexOf(input[0], col);
      assert input[0][k] == col;
    }
  }
}
