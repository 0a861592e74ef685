/** sort_by_count: reorder the deduplicated table by count, largest first. The
    library sort it calls is not stable, so all it promises is an ordering by count
    that keeps every entry: a sorted permutation. */
module Rank {
  import opened Dedup

  /** Counts never increase from an entry to a later one. */
  ghost predicate ByCountDescending(es: seq<Entry>)
  {
    forall i, j :: 0 <= i < j < |es| ==> es[i].count >= es[j].count
  }

  /** `e` placed into a table already ordered by count. */
  function InsertByCount(e: Entry, es: seq<Entry>): (r: seq<Entry>)
    requires ByCountDescending(es)
    ensures ByCountDescending(r)
    ensures multiset(r) == multiset(es) + multiset{e}
  {
    if es == [] || es[0].count <= e.count then
      [e] + es
    else
      var rest := InsertByCount(e, es[1..]);
      assert es == [es[0]] + es[1..];
      InsertedBelow(e, es, rest);
      HeadOnTop(es[0], rest);
      [es[0]] + rest
  }

  /** An entry at least as large as every entry of an ordered table goes on top of it. */
  lemma HeadOnTop(x: Entry, rest: seq<Entry>)
    requires ByCountDescending(rest)
    requires forall k :: 0 <= k < |rest| ==> rest[k].count <= x.count
    ensures ByCountDescending([x] + rest)
  {
  }

  /** What is inserted after the head of an ordered table stays below that head. */
  lemma InsertedBelow(e: Entry, es: seq<Entry>, rest: seq<Entry>)
    requires ByCountDescending(es) && es != [] && e.count < es[0].count
    requires multiset(rest) == multiset(es[1..]) + multiset{e}
    ensures forall k :: 0 <= k < |rest| ==> rest[k].count <= es[0].count
  {
    forall k | 0 <= k < |rest|
      ensures rest[k].count <= es[0].count
    {
      assert rest[k] in multiset(rest);
      if rest[k] != e {
        assert rest[k] in es[1..];
        var j :| 0 <= j < |es| - 1 && es[1..][j] == rest[k];
        assert es[j + 1] == rest[k];
      }
    }
  }

  /** The table reordered by count, largest first: one of the orders the library sort
      may produce. */
  function SortByCount(es: seq<Entry>): (r: seq<Entry>)
    ensures ByCountDescending(r)
    ensures multiset(r) == multiset(es)
  {
    if es == [] then []
    else
      assert es == [es[0]] + es[1..];
      InsertByCount(es[0], SortByCount(es[1..]))
  }

  /** The counts of a table, top to bottom. */
  function Counts(es: seq<Entry>): (cs: seq<int>)
    ensures |cs| == |es|
    ensures forall i :: 0 <= i < |es| ==> cs[i] == es[i].count
  {
    if es == [] then [] else [es[0].count] + Counts(es[1..])
  }

  ghost predicate Descending(xs: seq<int>)
  {
    forall i, j :: 0 <= i < j < |xs| ==> xs[i] >= xs[j]
  }

  /** Two orderings of the same entries by count, largest first, have the same count
      column: whichever way the sort breaks ties, the counts read top to bottom are
      the same. */
  lemma SortedCountsAgree(a: seq<Entry>, b: seq<Entry>)
    requires ByCountDescending(a) && ByCountDescending(b)
    requires multiset(a) == multiset(b)
    ensures Counts(a) == Counts(b)
  {
    CountsPermutation(a, b);
    DescendingUnique(Counts(a), Counts(b));
  }

  /** Sequences with the same elements, both in descending order, are equal. */
  lemma {:induction false} DescendingUnique(xs: seq<int>, ys: seq<int>)
    requires Descending(xs) && Descending(ys)
    requires multiset(xs) == multiset(ys)
    ensures xs == ys
  {
    if xs == [] {
      assert |ys| == |multiset(ys)| == 0;
    } else {
      assert |ys| == |multiset(ys)| == |multiset(xs)| > 0;
      assert xs[0] == ys[0] by {
        SameLargest(xs, ys);
        SameLargest(ys, xs);
      }
      assert multiset(xs[1..]) == multiset(ys[1..]) by {
        RemoveHead(xs);
        RemoveHead(ys);
      }
      DescendingTail(xs);
      DescendingTail(ys);
      DescendingUnique(xs[1..], ys[1..]);
      assert xs == [xs[0]] + xs[1..] && ys == [ys[0]] + ys[1..];
    }
  }

  lemma DescendingTail(xs: seq<int>)
    requires Descending(xs) && |xs| > 0
    ensures Descending(xs[1..])
  {
  }

  lemma RemoveHead<T>(s: seq<T>)
    requires |s| > 0
    ensures multiset(s[1..]) == multiset(s) - multiset{s[0]}
    ensures multiset(s) == multiset(s[1..]) + multiset{s[0]}
  {
    assert s == [s[0]] + s[1..];
  }

  /** The head of a descending sequence is at least every element of a sequence with
      the same elements. */
  lemma SameLargest(xs: seq<int>, ys: seq<int>)
    requires Descending(xs) && |xs| > 0 && |ys| > 0
    requires multiset(xs) == multiset(ys)
    ensures xs[0] >= ys[0]
  {
    assert ys[0] in multiset(xs);
    var j :| 0 <= j < |xs| && xs[j] == ys[0];
  }

  /** Taking one element out of a sequence takes it out of its multiset. */
  lemma RemoveOne<T>(s: seq<T>, j: int)
    requires 0 <= j < |s|
    ensures multiset(s[..j] + s[j + 1..]) == multiset(s) - multiset{s[j]}
    ensures multiset(s) == multiset(s[..j] + s[j + 1..]) + multiset{s[j]}
  {
    assert s == s[..j] + [s[j]] + s[j + 1..];
  }

  /** Entries that are a permutation of each other have count columns that are. */
  lemma {:induction false} CountsPermutation(a: seq<Entry>, b: seq<Entry>)
    requires multiset(a) == multiset(b)
    ensures multiset(Counts(a)) == multiset(Counts(b))
  {
    if a == [] {
      assert |b| == |multiset(b)| == 0;
    } else {
      assert a[0] in multiset(b);
      var j :| 0 <= j < |b| && b[j] == a[0];
      var b' := b[..j] + b[j + 1..];
      RemoveHead(a);
      RemoveOne(b, j);
      CountsPermutation(a[1..], b');
      var ca, cb := Counts(a), Counts(b);
      CountsRemove(b, j);
      assert Counts(a[1..]) == ca[1..];
      RemoveHead(ca);
      RemoveOne(cb, j);
      calc {
        multiset(ca);
        multiset(ca[1..]) + multiset{ca[0]};
        multiset(Counts(b')) + multiset{cb[j]};
        multiset(cb);
      }
    }
  }

  /** The count column without position `j` is that of the table without entry `j`. */
  lemma CountsRemove(b: seq<Entry>, j: int)
    requires 0 <= j < |b|
    ensures Counts(b[..j] + b[j + 1..]) == Counts(b)[..j] + Counts(b)[j + 1..]
  {
    var b' := b[..j] + b[j + 1..];
    var r, c := Counts(b'), Counts(b);
    var c' := c[..j] + c[j + 1..];
    assert |r| == |c'|;
    forall i | 0 <= i < |r|
      ensures r[i] == c'[i]
    {
      if i < j {
        assert b'[i] == b[i] && c'[i] == c[i];
      } else {
        assert b'[i] == b[i + 1] && c'[i] == c[i + 1];
      }
    }
  }

  /** Sorting keeps the sum of the counts. */
  lemma {:induction false} SortKeepsTotal(es: seq<Entry>)
    ensures TotalCount(SortByCount(es)) == TotalCount(es)
  {
    if es != [] {
      SortKeepsTotal(es[1..]);
      InsertKeepsTotal(es[0], SortByCount(es[1..]));
    }
  }

  lemma {:induction false} InsertKeepsTotal(e: Entry, es: seq<Entry>)
    requires ByCountDescending(es)
    ensures TotalCount(InsertByCount(e, es)) == e.count + TotalCount(es)
  {
    if es != [] && es[0].count > e.count {
      InsertKeepsTotal(e, es[1..]);
    }
  }
}
