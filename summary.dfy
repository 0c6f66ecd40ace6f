/** `summary_df`: the size of every launch-name group of `missing_df`, sorted by
    count, largest first. The sort is not stable, so the order of equal counts is
    left open: the summary is specified as some non-increasing arrangement of the
    group counts. */
module Summary {
  import opened Table
  import opened Grouping

  /** One row of the summary: a launch name and its Missing_UDISE_Count. */
  datatype Entry = Entry(key: Key, count: nat)

  /** The size of every group as a table of launch names and counts: one entry
      per group, in group order. */
  function Counts(gs: seq<Group>): (es: seq<Entry>)
    ensures |es| == |gs|
    ensures forall j :: 0 <= j < |gs| ==> es[j] == Entry(gs[j].key, |gs[j].rows|)
  {
    if gs == [] then [] else [Entry(gs[0].key, |gs[0].rows|)] + Counts(gs[1..])
  }

  predicate NonIncreasing(es: seq<Entry>) {
    forall i, j :: 0 <= i < j < |es| ==> es[i].count >= es[j].count
  }

  /** The sum of the counts. */
  function TotalCount(es: seq<Entry>): nat {
    if es == [] then 0 else es[0].count + TotalCount(es[1..])
  }

  /** How many entries carry key `k`. */
  function EntriesFor(es: seq<Entry>, k: Key): nat {
    if es == [] then 0 else (if es[0].key == k then 1 else 0) + EntriesFor(es[1..], k)
  }

  /** Inserts `e` before the first entry with a smaller count. */
  function InsertByCount(e: Entry, es: seq<Entry>): (r: seq<Entry>)
    ensures multiset(r) == multiset{e} + multiset(es)
  {
    if es == [] || e.count >= es[0].count then [e] + es
    else
      assert es == [es[0]] + es[1..];
      [es[0]] + InsertByCount(e, es[1..])
  }

  /** Inserting into a non-increasing list keeps it non-increasing. */
  lemma {:induction false} InsertSorted(e: Entry, es: seq<Entry>)
    requires NonIncreasing(es)
    ensures NonIncreasing(InsertByCount(e, es))
  {
    if es != [] && e.count < es[0].count {
      var rest := InsertByCount(e, es[1..]);
      InsertSorted(e, es[1..]);
      assert es[0].count >= rest[0].count by {
        if |es| > 1 && e.count < es[1].count {
          assert rest[0] == es[1];
        }
      }
      var r := [es[0]] + rest;
      forall i, j | 0 <= i < j < |r| ensures r[i].count >= r[j].count {
        assert r[j] == rest[j - 1];
        if i > 0 {
          assert r[i] == rest[i - 1];
        }
      }
    }
  }

  /** The sort by count, largest first: a rearrangement of
      the entries (SortSorted shows that it is non-increasing). */
  function SortByCount(es: seq<Entry>): (r: seq<Entry>)
    ensures multiset(r) == multiset(es)
  {
    if es == [] then []
    else
      assert es == [es[0]] + es[1..];
      InsertByCount(es[0], SortByCount(es[1..]))
  }

  /** The sorted entries are non-increasing in count. */
  lemma {:induction false} SortSorted(es: seq<Entry>)
    ensures NonIncreasing(SortByCount(es))
  {
    if es != [] {
      SortSorted(es[1..]);
      InsertSorted(es[0], SortByCount(es[1..]));
    }
  }

  /** The first entry of InsertByCount, and the rest. */
  lemma InsertByCountShape(e: Entry, es: seq<Entry>)
    ensures es == [] || e.count >= es[0].count ==> InsertByCount(e, es)[1..] == es
    ensures es != [] && e.count < es[0].count ==>
              InsertByCount(e, es)[0] == es[0] && InsertByCount(e, es)[1..] == InsertByCount(e, es[1..])
  {
    var r := InsertByCount(e, es);
    if es == [] || e.count >= es[0].count {
      assert r == [e] + es;
    } else {
      assert r == [es[0]] + InsertByCount(e, es[1..]);
    }
  }

  lemma {:induction false} InsertKeepsTotal(e: Entry, es: seq<Entry>)
    ensures TotalCount(InsertByCount(e, es)) == e.count + TotalCount(es)
  {
    InsertByCountShape(e, es);
    if es != [] && e.count < es[0].count {
      InsertKeepsTotal(e, es[1..]);
    }
  }

  lemma {:induction false} InsertKeepsEntries(e: Entry, es: seq<Entry>, k: Key)
    ensures EntriesFor(InsertByCount(e, es), k) == (if e.key == k then 1 else 0) + EntriesFor(es, k)
  {
    InsertByCountShape(e, es);
    if es != [] && e.count < es[0].count {
      InsertKeepsEntries(e, es[1..], k);
    }
  }

  /** Sorting changes neither the sum of the counts nor how often a key occurs. */
  lemma {:induction false} SortKeepsTotals(es: seq<Entry>, k: Key)
    ensures TotalCount(SortByCount(es)) == TotalCount(es)
    ensures EntriesFor(SortByCount(es), k) == EntriesFor(es, k)
  {
    if es != [] {
      SortKeepsTotals(es[1..], k);
      InsertKeepsTotal(es[0], SortByCount(es[1..]));
      InsertKeepsEntries(es[0], SortByCount(es[1..]), k);
    }
  }

  /** The summary table of the rows of `missing_df`. */
  function SummaryTable(rows: seq<Row>): seq<Entry> {
    SortByCount(Counts(Groups(rows)))
  }

  lemma {:induction false} CountsTotal(gs: seq<Group>)
    ensures TotalCount(Counts(gs)) == TotalRows(gs)
  {
    if gs != [] {
      CountsTotal(gs[1..]);
      assert Counts(gs)[1..] == Counts(gs[1..]);
    }
  }

  lemma {:induction false} CountsEntries(ks: seq<Key>, rows: seq<Row>, k: Key)
    ensures EntriesFor(Counts(GroupsFor(ks, rows)), k) == Occurrences(ks, k)
  {
    if ks != [] {
      CountsEntries(ks[1..], rows, k);
      assert GroupsFor(ks, rows)[1..] == GroupsFor(ks[1..], rows);
      assert Counts(GroupsFor(ks, rows))[1..] == Counts(GroupsFor(ks[1..], rows));
    }
  }

  /** The counts add up to the number of rows of `missing_df`. */
  lemma SummaryConservesRows(rows: seq<Row>)
    ensures TotalCount(SummaryTable(rows)) == |rows|
  {
    CountsTotal(Groups(rows));
    GroupsConserveRows(rows);
    SortKeepsTotals(Counts(Groups(rows)), None);
  }

  /** Each entry counts exactly the rows with its key, so every count is at least 1. */
  lemma SummaryCountsRows(rows: seq<Row>)
    ensures forall e :: e in SummaryTable(rows) ==> e.count == |RowsWithKey(rows, e.key)| && e.count >= 1
  {
    forall e | e in SummaryTable(rows) ensures e.count == |RowsWithKey(rows, e.key)| && e.count >= 1 {
      assert e in multiset(SummaryTable(rows));
      CountOfGroup(rows, e);
    }
  }

  /** An entry of the unsorted counts counts the rows of its group. */
  lemma CountOfGroup(rows: seq<Row>, e: Entry)
    requires e in multiset(Counts(Groups(rows)))
    ensures e.count == |RowsWithKey(rows, e.key)| && e.count >= 1
  {
    var cs := Counts(Groups(rows));
    assert e in cs;
    var j :| 0 <= j < |cs| && cs[j] == e;
    GroupHoldsItsRows(rows, j);
  }

  /** The summary has exactly one entry for the key of every row, a missing key
      included, and no entry for any other key. */
  lemma SummaryOneEntryPerKey(rows: seq<Row>, k: Key)
    ensures EntriesFor(SummaryTable(rows), k) == if exists i :: 0 <= i < |rows| && KeyOf(rows[i]) == k then 1 else 0
  {
    var ks := GroupKeys(rows);
    CountsEntries(ks, rows, k);
    OccurrencesInIncreasing(ks, k);
    SortKeepsTotals(Counts(Groups(rows)), k);
    if k in ks {
      var j :| 0 <= j < |ks| && ks[j] == k;
    }
  }

  /** The summary is sorted by count, largest first. */
  lemma SummarySorted(rows: seq<Row>)
    ensures NonIncreasing(SummaryTable(rows))
    ensures |SummaryTable(rows)| == |Groups(rows)|
  {
    var es := Counts(Groups(rows));
    SortSorted(es);
    assert |multiset(SummaryTable(rows))| == |multiset(es)|;
  }
}
