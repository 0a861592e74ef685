/** merge_csv_files: concatenate every file matching one pattern into one CSV file.
    The list of paths comes from a recursive glob, sorted; here it is the sequence
    of files in that order. */
module Merge {
  import opened CsvTable

  /** One matching file: the records its csv reader would yield, and, when reading
      it raises, the position of the record whose read raised (0 when the open or the
      header's read raises). */
  datatype Source = Source(records: seq<Record>, failsAt: Option<nat>)

  /** The records actually read from a file: all of them, or those before the read
      that raised. */
  function Read(f: Source): (read: seq<Record>)
    ensures read <= f.records
    ensures |read| < |f.records| <==> f.failsAt.Some? && f.failsAt.value < |f.records|
    ensures f.failsAt.Some? && f.failsAt.value < |f.records| ==> |read| == f.failsAt.value
  {
    match f.failsAt
    case Some(p) => if p < |f.records| then f.records[..p] else f.records
    case None => f.records
  }

  /** The records read from every file, file by file. */
  function Reads(files: seq<Source>): (rs: seq<CsvFile>)
    ensures |rs| == |files|
    ensures forall k :: 0 <= k < |files| ==> rs[k] == Read(files[k])
  {
    if files == [] then []
    else Reads(files[..|files| - 1]) + [Read(files[|files| - 1])]
  }

  /** The data rows a file contributes: every record read after its own header. */
  function DataRows(f: CsvFile): seq<Record>
  {
    if f == [] then [] else f[1..]
  }

  /** The data rows of all files, file after file. */
  function Appended(files: seq<CsvFile>): seq<Record>
  {
    if files == [] then [] else DataRows(files[0]) + Appended(files[1..])
  }

  /** What visiting one file does to the output written so far, given the records
      read from it: a file without records is skipped; otherwise its header is
      written only when nothing was written yet, and its data rows are appended
      verbatim. */
  function Visit(out: CsvFile, f: CsvFile): CsvFile
  {
    if f == [] then out
    else (if out == [] then [f[0]] else out) + f[1..]
  }

  /** The merged file after visiting, in order, files from which `files` were read. */
  function Merged(files: seq<CsvFile>): CsvFile
  {
    if files == [] then [] else Visit(Merged(files[..|files| - 1]), files[|files| - 1])
  }

  /** File `k` is the first file from which a header was read. */
  ghost predicate FirstWithHeader(files: seq<CsvFile>, k: int)
  {
    0 <= k < |files| && files[k] != [] &&
    forall j :: 0 <= j < k ==> files[j] == []
  }

  /** The loop of merge_csv_files. The output is the header of the first file that
      has one, followed by the data rows of every file in order; a file's own header
      is never copied after the first, whatever its columns are, and a file whose
      read raised keeps the rows written before the exception. `totalRows` counts
      the data rows written. */
  method MergeCsvFiles(files: seq<Source>) returns (out: CsvFile, totalRows: nat)
    ensures out == Merged(Reads(files))
    ensures out == [] <==> forall k :: 0 <= k < |files| ==> Read(files[k]) == []
    ensures totalRows == |Appended(Reads(files))|
    ensures totalRows == if out == [] then 0 else |out| - 1
  {
    if |files| == 0 {
      // no match: the output file is created empty, without a header
      return [], 0;
    }
    ghost var read := Reads(files);
    out := [];
    var wroteHeader := false;  // the source's `writer is not None`
    totalRows := 0;
    var i := 0;
    while i < |files|
      invariant 0 <= i <= |files|
      invariant out == Merged(read[..i])
      invariant wroteHeader <==> out != []
      invariant totalRows == if out == [] then 0 else |out| - 1
      invariant totalRows == |Appended(read[..i])|
    {
      var added;
      out, wroteHeader, added := CopyFile(out, wroteHeader, files[i]);
      totalRows := totalRows + added;
      MergedStep(read, i);
      i := i + 1;
    }
    assert read[..i] == read;
    MergedEmptyIff(read);
  }

  /** The body of the loop over the matching files: read one file and copy it to the
      output. Its header is written only while no header has been written; every
      record after it is copied verbatim and counted, until the file ends or a read
      raises. The exception is logged, the records copied before it stay written, and
      the loop goes on with the next file. */
  method CopyFile(out: CsvFile, wroteHeader: bool, f: Source)
    returns (out': CsvFile, wroteHeader': bool, added: nat)
    requires wroteHeader <==> out != []
    ensures out' == Visit(out, Read(f))
    ensures wroteHeader' <==> out' != []
    ensures added == |DataRows(Read(f))|
  {
    out', wroteHeader', added := out, wroteHeader, 0;
    var recs := f.records;
    if recs == [] || f.failsAt == Some(0) {
      return;  // the source's "[SKIP] Empty file", or a raise before the header
    }
    var header := recs[0];
    if !wroteHeader {
      out' := [header];
      wroteHeader' := true;
    }
    ghost var start := out';
    var j := 1;
    while j < |recs| && f.failsAt != Some(j)
      invariant 1 <= j <= |recs|
      invariant f.failsAt.Some? ==> f.failsAt.value >= j
      invariant out' == start + recs[1..j]
      invariant added == j - 1
    {
      assert recs[1..j + 1] == recs[1..j] + [recs[j]];
      out' := out' + [recs[j]];
      added := added + 1;
      j := j + 1;
    }
    assert Read(f) == recs[..j];
    assert recs[..j][1..] == recs[1..j];
  }

  /** A file whose read raises at record `p`, after its header, contributes the data
      rows before `p` and no other. */
  lemma RaisedFileRows(f: Source, p: nat)
    requires f.failsAt == Some(p) && 1 <= p <= |f.records|
    ensures DataRows(Read(f)) == f.records[1..p]
  {
    assert Read(f) == f.records[..p];
  }

  /** The records read from a file whose read raised are those of a file holding only
      them and read to its end; so the merge treats the two alike, and the files after
      it are still visited. */
  lemma FaultKeepsReadRecords(files: seq<Source>, k: int)
    requires 0 <= k < |files|
    ensures Reads(files[k := Source(Read(files[k]), None)]) == Reads(files)
    ensures Merged(Reads(files[k := Source(Read(files[k]), None)])) == Merged(Reads(files))
  {
  }

  /** Visiting file `i` extends the merge of the files before it. */
  lemma MergedStep(files: seq<CsvFile>, i: int)
    requires 0 <= i < |files|
    ensures Merged(files[..i + 1]) == Visit(Merged(files[..i]), files[i])
    ensures Appended(files[..i + 1]) == Appended(files[..i]) + DataRows(files[i])
  {
    assert files[..i + 1] == files[..i] + [files[i]];
    assert files[..i + 1][..i] == files[..i];
    AppendedSnoc(files[..i], files[i]);
  }

  lemma {:induction false} AppendedSnoc(files: seq<CsvFile>, f: CsvFile)
    ensures Appended(files + [f]) == Appended(files) + DataRows(f)
  {
    if files == [] {
      assert [f][1..] == [];
    } else {
      assert (files + [f])[1..] == files[1..] + [f];
      AppendedSnoc(files[1..], f);
    }
  }

  /** The rows of a sequence of files are those of its parts, in order. */
  lemma {:induction false} AppendedConcat(a: seq<CsvFile>, b: seq<CsvFile>)
    ensures Appended(a + b) == Appended(a) + Appended(b)
  {
    if a == [] {
      assert a + b == b;
    } else {
      assert (a + b)[1..] == a[1..] + b;
      AppendedConcat(a[1..], b);
    }
  }

  /** When file `k` is the first from which a header was read, the merged file is
      that header followed by the data rows of all files in order. */
  lemma {:induction false} MergedShape(files: seq<CsvFile>, k: int)
    requires FirstWithHeader(files, k)
    ensures Merged(files) == [files[k][0]] + Appended(files)
  {
    var n := |files|;
    var init := files[..n - 1];
    assert files == init + [files[n - 1]];
    AppendedSnoc(init, files[n - 1]);
    assert Merged(files) == Visit(Merged(init), files[n - 1]);
    if k == n - 1 {
      MergedEmpty(init);
      NoHeaderNoRows(init);
    } else {
      assert FirstWithHeader(init, k);
      MergedShape(init, k);
    }
  }

  /** No file with a header: nothing is written. */
  lemma {:induction false} MergedEmpty(files: seq<CsvFile>)
    requires forall j :: 0 <= j < |files| ==> files[j] == []
    ensures Merged(files) == []
  {
    if files != [] {
      MergedEmpty(files[..|files| - 1]);
    }
  }

  /** The merged file is empty exactly when no file has a header. */
  lemma {:induction false} MergedEmptyIff(files: seq<CsvFile>)
    ensures Merged(files) == [] <==> forall j :: 0 <= j < |files| ==> files[j] == []
  {
    if files != [] {
      var init := files[..|files| - 1];
      MergedEmptyIff(init);
      assert forall j :: 0 <= j < |init| ==> init[j] == files[j];
    }
  }

  lemma {:induction false} NoHeaderNoRows(files: seq<CsvFile>)
    requires forall j :: 0 <= j < |files| ==> files[j] == []
    ensures Appended(files) == []
  {
    if files != [] {
      NoHeaderNoRows(files[1..]);
    }
  }

  /** A file from which no record was read (empty, or failing before its header)
      leaves the merged file exactly as if it had not matched. */
  lemma {:induction false} EmptyFileInvisible(files: seq<CsvFile>, k: int)
    requires 0 <= k < |files| && files[k] == []
    ensures Merged(files) == Merged(files[..k] + files[k + 1..])
  {
    var n := |files|;
    var rest := files[..k] + files[k + 1..];
    if k == n - 1 {
      assert rest == files[..n - 1];
    } else {
      assert rest[..|rest| - 1] == files[..n - 1][..k] + files[..n - 1][k + 1..];
      assert rest[|rest| - 1] == files[n - 1];
      EmptyFileInvisible(files[..n - 1], k);
    }
  }
}
