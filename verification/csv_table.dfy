/** Records and files as the csv module hands them to the script: already
    tokenised and unquoted, one sequence of cells per line. */
module CsvTable {

  datatype Option<+T> = None | Some(value: T) {
    /** The value, or `default` when there is none. */
    function GetOr(default: T): T {
      match this
      case Some(v) => v
      case None => default
    }
  }

  /** One record: the cells of one line. */
  type Record = seq<string>

  /** The records of one CSV file in file order; the first, when present, is its header. */
  type CsvFile = seq<Record>

  /** The last position at which `col` occurs in `names`, or -1 when it does not occur. */
  function LastIndexOf(names: seq<string>, col: string): (i: int)
    ensures -1 <= i < |names|
    ensures i == -1 <==> col !in names
    ensures 0 <= i ==> names[i] == col && forall j :: i < j < |names| ==> names[j] != col
  {
    if names == [] then -1
    else if names[|names| - 1] == col then |names| - 1
    else LastIndexOf(names[..|names| - 1], col)
  }

  /** A name appended after `names` is found there; any other name is found where it
      was before. */
  lemma LastIndexOfSnoc(names: seq<string>, last: string, col: string)
    ensures LastIndexOf(names + [last], col) == if last == col then |names| else LastIndexOf(names, col)
  {
    assert (names + [last])[..|names|] == names;
  }

  /** `row[col]` for a row that csv.DictReader built from `rec` under `fieldnames`:
      the record is zipped with the field names, so a name that occurs twice takes
      the cell under its last occurrence, and a record too short to reach that
      position gives the reader's `restval`, None. */
  function Lookup<T>(fieldnames: seq<string>, rec: seq<T>, col: string): (v: Option<T>)
    requires col in fieldnames
    ensures v.Some? <==> LastIndexOf(fieldnames, col) < |rec|
    ensures v.Some? ==> v.value == rec[LastIndexOf(fieldnames, col)]
    ensures |rec| >= |fieldnames| ==> v.Some?
  {
    var i := LastIndexOf(fieldnames, col);
    if i < |rec| then Some(rec[i]) else None
  }

  /** The records csv.DictReader turns into rows: it skips every record without cells
      (a blank line) and keeps the others in order. */
  function DictRows(recs: seq<Record>): (rows: seq<Record>)
    ensures |rows| <= |recs|
    ensures forall r :: r in rows <==> r in recs && r != []
    ensures multiset(rows) == multiset(recs)[[] := 0]
  {
    if recs == [] then []
    else
      var last := recs[|recs| - 1];
      assert recs == recs[..|recs| - 1] + [last];
      DictRows(recs[..|recs| - 1]) + (if last == [] then [] else [last])
  }

  /** `rows` are the records of `recs` at the increasing positions `idx`, and every
      non-blank record is at one of them. */
  ghost predicate Picks(recs: seq<Record>, rows: seq<Record>, idx: seq<int>)
  {
    && |idx| == |rows|
    && (forall k :: 0 <= k < |idx| ==> 0 <= idx[k] < |recs| && rows[k] == recs[idx[k]])
    && (forall k, l :: 0 <= k < l < |idx| ==> idx[k] < idx[l])
    && (forall i :: 0 <= i < |recs| && recs[i] != [] ==> i in idx)
  }

  /** The rows keep the order of the records they come from: row `k` is the record at
      position `idx[k]`, the positions increase, and every non-blank record is one of
      them. */
  lemma {:induction false} DictRowsInOrder(recs: seq<Record>) returns (idx: seq<int>)
    ensures Picks(recs, DictRows(recs), idx)
  {
    if recs == [] {
      idx := [];
    } else {
      var n := |recs| - 1;
      var before := DictRowsInOrder(recs[..n]);
      assert recs == recs[..n] + [recs[n]];
      idx := PicksSnoc(recs[..n], recs[n], DictRows(recs[..n]), before);
    }
  }

  /** One more record: a blank one is skipped, any other is picked at its position. */
  lemma PicksSnoc(init: seq<Record>, last: Record, rows: seq<Record>, before: seq<int>)
    returns (idx: seq<int>)
    requires Picks(init, rows, before)
    ensures idx == if last == [] then before else before + [|init|]
    ensures Picks(init + [last], rows + (if last == [] then [] else [last]), idx)
  {
    var recs := init + [last];
    var rows' := rows + (if last == [] then [] else [last]);
    idx := if last == [] then before else before + [|init|];
    forall k | 0 <= k < |idx|
      ensures 0 <= idx[k] < |recs| && rows'[k] == recs[idx[k]]
    {
      if k < |before| {
        assert idx[k] == before[k] && rows'[k] == rows[k];
      }
    }
    forall i | 0 <= i < |recs| && recs[i] != []
      ensures i in idx
    {
      if i < |init| {
        assert init[i] == recs[i];
        var j :| 0 <= j < |before| && before[j] == i;
        assert idx[j] == i;
      } else {
        assert idx[|idx| - 1] == i;
      }
    }
  }
}
