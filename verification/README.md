# process_all.py, modelled in Dafny

`process_all.py` collects LeetCode-style company problem lists. There is one CSV
file per time window ("1. Thirty Days.csv", …), under any number of company
directories. For each window name, the script runs three steps:

- it merges every matching file into one CSV file;
- it folds that file into one row per problem `Title`, with a `count` column saying
  how many rows carried that Title;
- it sorts the result by `count`, largest first.

This project models those three steps and the pass that chains them:

- `merge.dfy`, module `Merge`: `merge_csv_files`.
  - A matching file is its records plus, when a read raises, the position of the
    record whose read raised. `Read` gives the records actually read from it.
  - `MergeCsvFiles` is the loop over the sorted matching files.
  - `CopyFile` is the loop body over one file. It stops copying at the record whose
    read raised.
  - Both are proved against the specification function `Merged`, applied to the
    records read from each file.
- `csv_table.dfy`, module `CsvTable`: records and files as `csv.reader` yields them.
  - It also models how `csv.DictReader` reads them: blank records are skipped, and
    the other records keep their order and multiplicity.
  - A row looked up by column name takes the cell under the last occurrence of that
    name, or `None` when the record is too short.
- `dedup.dfy`, module `Dedup`: `merge_duplicates`.
  - `MergeDuplicates` is the loop over the rows. It keeps a dict (a `map`) together
    with its insertion order (a `seq`).
  - It is proved equal to the specification function `DedupFile`.
  - `DedupFile` is proved to summarise its rows:
    - one entry per Title;
    - counts equal to the occurrences;
    - cells of the first row with that Title;
    - entries in order of first occurrence;
    - counts that add up to the number of rows read.
- `output.dfy`, module `Output`: the `csv.DictWriter` output of `merge_duplicates`,
  and how it reads back by column name.
- `rank.dfy`, module `Rank`: `sort_by_count`, as a sorted permutation. Any two such
  orderings have the same count column.
- `pipeline.dfy`, module `Pipeline`: one pattern's pass of `process_all`, which runs
  merge, then dedup, then sort.

Three behaviours of the code worth knowing:

- **Later headers.** Later files are appended by position. Their own header is
  dropped, whatever order its columns are in. They are not re-projected onto the
  first header by column name. `Pipeline.ReorderedHeaderMisaligns` shows the
  consequence.
- **No matching file.** The comment at `process_all.py:24` says "header-only if
  needed", but line 25 creates the merged file completely empty.
  `merge_duplicates` then finds no field names and exits with status 1
  (`Pipeline.EmptyMergeAborts`).
- **Sort order.** `DataFrame.sort_values` is called with its default, non-stable
  algorithm. The model therefore promises only a sorted permutation, not a stable
  order. Whatever order it picks, the count column is the same
  (`Rank.SortedCountsAgree`).

## Model

| member | source | states |
|---|---|---|
| Merge.MergeCsvFiles | process_all.py:19-51 | The output equals `Merged` of the records read from each file: the header of the first file from which a record was read, then every later record read, file by file. It is empty exactly when no record was read from any file. `totalRows` is the number of data rows written, i.e. the length of the output less its header. |
| Merge.CopyFile | process_all.py:33-49 | One file's visit: when no record is read (an empty file, or a raise on open or on the header) nothing changes. Otherwise its header is written only when no header has been written yet. Its later records are appended verbatim up to the end of the file or the record whose read raised. The number appended is its data-row count. |
| Merge.Read | process_all.py:33-36 | The records read from a file are a prefix of its records. They are fewer exactly when a read raises before the end, and then they are the records before the one whose read raised. |
| Merge.RaisedFileRows | process_all.py:44-49 | A file whose read raises at record `p`, after its header, contributes exactly its data rows before `p`. |
| Merge.FaultKeepsReadRecords | process_all.py:44-49 | A file whose read raised is read, and so merged, exactly like a file holding only the records read before the exception. The rows written before it stay written and later files are still visited. |
| Merge.MergedShape | process_all.py:36-46 | When file `k` is the first from which a header was read, the merged file is that header followed by the data rows of all files in order. |
| Merge.MergedEmptyIff | process_all.py:22-43 | The merged file is empty if and only if no record was read from any matching file. This includes having no matching file at all. |
| Merge.EmptyFileInvisible | process_all.py:36-39 | Removing a file from which no record was read leaves the merged file unchanged. |
| Merge.AppendedConcat | process_all.py:32-46 | The data rows of a concatenation of file lists are those of each list, in order. |
| CsvTable.LastIndexOf | process_all.py:66-70 | The position a column name resolves to: the last occurrence of the name, or -1 exactly when it is absent. |
| CsvTable.Lookup | process_all.py:66-70 | `row[col]` under `csv.DictReader`: present exactly when the record reaches the name's last position, and then it is that cell. Always present when the record is at least as long as the header. |
| CsvTable.DictRows | process_all.py:64 | The rows `for row in reader` visits: the non-blank records with their multiplicity (the multiset of records without the blank one), never more rows than records. |
| CsvTable.DictRowsInOrder | process_all.py:64 | The rows keep the records' order: row `k` is the record at increasing position `idx[k]`, and every non-blank record is at one of those positions. |
| Dedup.DedupFile | process_all.py:53-83 | Exits with status 1 exactly when there are no field names or no Title among them. Otherwise the table keeps the input header and counts the non-blank rows. It summarises them: distinct Titles, every row's Title present, counts equal to occurrences, first-row cells, order of first occurrence. The counts add up to the rows read, and every count is at least 1. |
| Dedup.MergeDuplicates | process_all.py:53-83 | The dict loop's result equals `DedupFile(input)`. This includes the early exit and `title_map.values()` in insertion order. |
| Dedup.Values | process_all.py:80 | `title_map.values()`: one value per key, in key insertion order. |
| Dedup.Insert | process_all.py:66-72 | One row folded into the map. A known Title only gains 1 on its own entry's count. A new Title is appended with the row's cells and count 1. |
| Dedup.TallySummarises | process_all.py:64-72 | Folding the rows in order yields a table that summarises them (the five properties above). |
| Dedup.TallyTotal | process_all.py:65-68 | The counts of the folded table add up to the number of rows read (`total_rows`). |
| Dedup.CellsOf | process_all.py:70 | `{col: row[col] for col in fieldnames}`: one value per field name, each being `row[col]`. |
| Dedup.FirstIndexSnoc | process_all.py:67-72 | Where a Title first occurs after one more row: unchanged when it was already seen, otherwise the new row or nowhere. |
| Output.Render | process_all.py:76-81 | The written table has header `fieldnames + ["count"]` and one row per entry, in order, each rendered by `writerow`. |
| Output.ReadBack | process_all.py:76-81 | A written row read back by name gives the count under "count". Every other column gives the entry's value, or an empty cell for `None`. |
| Output.WrittenReadsBack | process_all.py:64-81 | Each written row, read back by name, gives the value of the first input row with that Title under every input column, and the number of such rows under "count". |
| Rank.SortByCount | process_all.py:85-88 | The reordered table is ordered by count, largest first, and is a permutation of the input entries. |
| Rank.InsertByCount | process_all.py:87 | Placing one entry into a table ordered by count keeps it ordered and adds exactly that entry. |
| Rank.SortedCountsAgree | process_all.py:87 | Any two orderings by count of the same entries have the same count column, however ties are broken. |
| Rank.SortKeepsTotal | process_all.py:86-88 | Sorting keeps the total of the counts. |
| Pipeline.ProcessPattern | process_all.py:119-121 | The merge, dedup and sort calls chained equal `Process(files)`. |
| Pipeline.EmptyMergeAborts | process_all.py:22-26 | When no matching file has a record, the pass exits with status 1. |
| Pipeline.HeaderOfFirstFile | process_all.py:41-43 | The pass goes through exactly when the header of the first file from which records were read has a Title column, and the ranked table keeps that header. |
| Pipeline.RankedRows | process_all.py:119-121 | The ranked table is sorted by count and is a permutation of the fold of all files' non-blank data rows under the first header. That fold summarises them, and its counts add up to their number. |
| Pipeline.ReorderedHeaderMisaligns | process_all.py:41-46 | A second file whose columns are reordered is read under the first file's header. Its row for the same problem becomes an entry keyed by its Difficulty. Before sorting the two entries stand in first-occurrence order. The ranked table is some ordering of those two count-1 entries. |

## Left out

- Logging: the printed progress lines and the `[SKIP]`, `[OK]`, `[ERROR]` and `[WARN]` messages. They do not change any file.
- Globbing and the filesystem. The matching files are given as a sequence, already sorted by path. Each file is its records plus the position of the record whose read raised, if any. A raise on `open` is position 0. What the exception was is not modelled.
- CSV tokenising, quoting and encoding. Records are taken as the `csv` module's reader yields them. The writer and reader are assumed to round-trip a record.
- The output file of `merge_csv_files` is not a separate value: the merged records are passed straight to `merge_duplicates`.
- `create_initial_csvs` and the directory setup of `process_all`: it writes header-only files, then copies each result with `shutil.copy`. They are I/O around the modelled pass.
- The outer loop of `process_all` over the five window names: one pass is modelled. `sys.exit(1)` ends the whole script, so after an aborted pass no later pattern runs.
- `csv.DictReader`'s `restkey` list for records longer than the header. It never reaches a field name, so no cell or Title depends on it.
- Rank.SortByCount: pandas re-reads the written file and re-types its columns. It renames a duplicated column name (an input column named "count") and writes the numbers back in its own formatting. The model sorts the entries themselves by their integer count.
- Output.Render: the count is a `Number` cell, not its decimal text.
- Errors raised while writing the output files.
