/** Grouping the rows of `missing_df` by launch name, keeping missing names: one
    group per distinct launch name, a missing name forming a group of its own,
    visited in ascending key order with the missing-name group last. */
module Grouping {
  import opened Seqs
  import opened Table

  /** A group key: a launch name, or `None` for the rows whose name is missing. */
  type Key = Option<string>

  function KeyOf(r: Row): Key {
    Cell(r, LaunchName)
  }

  /** Python's `<` on `str`: lexicographic by code point. */
  predicate StrLess(a: string, b: string) {
    if a == [] then b != []
    else if b == [] then false
    else if a[0] != b[0] then a[0] < b[0]
    else StrLess(a[1..], b[1..])
  }

  /** The order in which the groups are visited: names ascending, missing last. */
  predicate KeyLess(a: Key, b: Key) {
    match a
    case None => false
    case Some(x) => b.None? || StrLess(x, b.value)
  }

  lemma {:induction false} StrLessIrreflexive(a: string)
    ensures !StrLess(a, a)
    decreases |a|
  {
    if a != [] {
      StrLessIrreflexive(a[1..]);
    }
  }

  lemma {:induction false} StrLessTransitive(a: string, b: string, c: string)
    requires StrLess(a, b) && StrLess(b, c)
    ensures StrLess(a, c)
    decreases |a|
  {
    if a != [] && a[0] == b[0] && b[0] == c[0] {
      StrLessTransitive(a[1..], b[1..], c[1..]);
    }
  }

  lemma {:induction false} StrLessTotal(a: string, b: string)
    requires a != b
    ensures StrLess(a, b) || StrLess(b, a)
    decreases |a|
  {
    if a != [] && b != [] && a[0] == b[0] {
      assert a == [a[0]] + a[1..] && b == [b[0]] + b[1..];
      StrLessTotal(a[1..], b[1..]);
    }
  }

  /** KeyLess is a strict total order on keys. */
  lemma KeyLessStrictTotalOrder(a: Key, b: Key, c: Key)
    ensures !KeyLess(a, a)
    ensures KeyLess(a, b) && KeyLess(b, c) ==> KeyLess(a, c)
    ensures a != b ==> KeyLess(a, b) || KeyLess(b, a)
  {
    if a.Some? {
      StrLessIrreflexive(a.value);
      if b.Some? && c.Some? && KeyLess(a, b) && KeyLess(b, c) {
        StrLessTransitive(a.value, b.value, c.value);
      }
      if b.Some? && a != b {
        StrLessTotal(a.value, b.value);
      }
    }
  }

  predicate StrictlyIncreasing(ks: seq<Key>) {
    forall i, j :: 0 <= i < j < |ks| ==> KeyLess(ks[i], ks[j])
  }

  /** Adds `k` to a strictly increasing key list, keeping it strictly increasing. */
  function InsertKey(k: Key, ks: seq<Key>): (r: seq<Key>)
    requires StrictlyIncreasing(ks)
    ensures StrictlyIncreasing(r)
    ensures forall x :: x in r <==> x == k || x in ks
  {
    if ks == [] then [k]
    else if k == ks[0] then ks
    else if KeyLess(k, ks[0]) then
      assert forall j :: 0 < j < |ks| ==> KeyLess(k, ks[j]) by {
        forall j | 0 < j < |ks| ensures KeyLess(k, ks[j]) {
          KeyLessStrictTotalOrder(k, ks[0], ks[j]);
        }
      }
      [k] + ks
    else
      assert KeyLess(ks[0], k) by { KeyLessStrictTotalOrder(k, ks[0], ks[0]); }
      var rest := InsertKey(k, ks[1..]);
      assert forall j :: 0 <= j < |rest| ==> KeyLess(ks[0], rest[j]) by {
        forall j | 0 <= j < |rest| ensures KeyLess(ks[0], rest[j]) {
          assert rest[j] in rest;
        }
      }
      [ks[0]] + rest
  }

  /** `ks` holds the key of every row, and only keys some row has. */
  predicate KeysOf(rows: seq<Row>, ks: seq<Key>) {
    && (forall i :: 0 <= i < |rows| ==> KeyOf(rows[i]) in ks)
    && (forall j :: 0 <= j < |ks| ==> exists i :: 0 <= i < |rows| && KeyOf(rows[i]) == ks[j])
  }

  /** Adding the first row's key to the keys of the other rows gives the keys of all rows. */
  lemma KeysOfStep(rows: seq<Row>, rest: seq<Key>)
    requires rows != [] && StrictlyIncreasing(rest) && KeysOf(rows[1..], rest)
    ensures KeysOf(rows, InsertKey(KeyOf(rows[0]), rest))
  {
    var ks := InsertKey(KeyOf(rows[0]), rest);
    forall i | 0 < i < |rows| ensures KeyOf(rows[i]) in ks {
      assert rows[1..][i - 1] == rows[i];
    }
    forall j | 0 <= j < |ks| ensures exists i :: 0 <= i < |rows| && KeyOf(rows[i]) == ks[j] {
      assert ks[j] in ks;
      if ks[j] != KeyOf(rows[0]) {
        var j' :| 0 <= j' < |rest| && rest[j'] == ks[j];
        var i :| 0 <= i < |rows| - 1 && KeyOf(rows[1..][i]) == rest[j'];
        assert KeyOf(rows[i + 1]) == ks[j];
      }
    }
  }

  /** The distinct keys of `rows`, in the order the groups are visited. */
  function GroupKeys(rows: seq<Row>): (ks: seq<Key>)
    ensures StrictlyIncreasing(ks)
    ensures KeysOf(rows, ks)
  {
    if rows == [] then []
    else
      var rest := GroupKeys(rows[1..]);
      KeysOfStep(rows, rest);
      InsertKey(KeyOf(rows[0]), rest)
  }

  datatype Group = Group(key: Key, rows: seq<Row>)

  /** The rows whose launch name is `k`, in their order. */
  function RowsWithKey(rows: seq<Row>, k: Key): seq<Row> {
    Filter(rows, r => KeyOf(r) == k)
  }

  function GroupsFor(ks: seq<Key>, rows: seq<Row>): (gs: seq<Group>)
    ensures |gs| == |ks|
    ensures forall j :: 0 <= j < |gs| ==> gs[j] == Group(ks[j], RowsWithKey(rows, ks[j]))
  {
    if ks == [] then [] else [Group(ks[0], RowsWithKey(rows, ks[0]))] + GroupsFor(ks[1..], rows)
  }

  /** The groups, in the order the export loop visits them. */
  function Groups(rows: seq<Row>): seq<Group> {
    GroupsFor(GroupKeys(rows), rows)
  }

  /** The number of rows over all groups. */
  function TotalRows(gs: seq<Group>): nat {
    if gs == [] then 0 else |gs[0].rows| + TotalRows(gs[1..])
  }

  /** How many times `k` occurs in `ks`. */
  function Occurrences(ks: seq<Key>, k: Key): nat {
    if ks == [] then 0 else (if ks[0] == k then 1 else 0) + Occurrences(ks[1..], k)
  }

  lemma {:induction false} OccurrencesInIncreasing(ks: seq<Key>, k: Key)
    requires StrictlyIncreasing(ks)
    ensures Occurrences(ks, k) == if k in ks then 1 else 0
  {
    if ks != [] {
      OccurrencesInIncreasing(ks[1..], k);
      if ks[0] == k {
        forall j | 0 < j < |ks| ensures ks[j] != k {
          KeyLessStrictTotalOrder(ks[0], ks[j], ks[0]);
        }
      }
    }
  }

  /** Adding one row at the end adds it to the group of its key, once per
      occurrence of that key. */
  lemma {:induction false} TotalRowsStep(ks: seq<Key>, rows: seq<Row>)
    requires rows != []
    ensures TotalRows(GroupsFor(ks, rows))
         == TotalRows(GroupsFor(ks, rows[..|rows| - 1])) + Occurrences(ks, KeyOf(rows[|rows| - 1]))
  {
    if ks != [] {
      TotalRowsStep(ks[1..], rows);
      var init := rows[..|rows| - 1];
      assert GroupsFor(ks, rows)[1..] == GroupsFor(ks[1..], rows);
      assert GroupsFor(ks, init)[1..] == GroupsFor(ks[1..], init);
    }
  }

  /** Counting over a key list that lists each key of `rows` once counts every row once. */
  lemma {:induction false} TotalRowsCovers(ks: seq<Key>, rows: seq<Row>)
    requires StrictlyIncreasing(ks)
    requires forall i :: 0 <= i < |rows| ==> KeyOf(rows[i]) in ks
    ensures TotalRows(GroupsFor(ks, rows)) == |rows|
  {
    if rows == [] {
      EmptyGroupsHaveNoRows(ks);
    } else {
      var n := |rows| - 1;
      TotalRowsCovers(ks, rows[..n]);
      TotalRowsStep(ks, rows);
      OccurrencesInIncreasing(ks, KeyOf(rows[n]));
    }
  }

  lemma {:induction false} EmptyGroupsHaveNoRows(ks: seq<Key>)
    ensures TotalRows(GroupsFor(ks, [])) == 0
  {
    if ks != [] {
      EmptyGroupsHaveNoRows(ks[1..]);
      assert GroupsFor(ks, [])[1..] == GroupsFor(ks[1..], []);
    }
  }

  /** The groups are visited in strictly increasing key order, so each key once,
      the missing-name group last. */
  lemma GroupsOrdered(rows: seq<Row>)
    ensures var gs := Groups(rows);
            forall i, j :: 0 <= i < j < |gs| ==> KeyLess(gs[i].key, gs[j].key) && gs[i].key != gs[j].key
  {
    var ks := GroupKeys(rows);
    forall i, j | 0 <= i < j < |ks| ensures ks[i] != ks[j] {
      KeyLessStrictTotalOrder(ks[i], ks[i], ks[i]);
    }
  }

  /** Each group holds, in order, exactly the rows with its key, and at least one. */
  lemma GroupHoldsItsRows(rows: seq<Row>, j: nat)
    requires j < |Groups(rows)|
    ensures Groups(rows)[j].rows == RowsWithKey(rows, Groups(rows)[j].key)
    ensures Groups(rows)[j].rows != []
  {
    var ks := GroupKeys(rows);
    assert Groups(rows)[j] == Group(ks[j], RowsWithKey(rows, ks[j]));
    var i :| 0 <= i < |rows| && KeyOf(rows[i]) == ks[j];
    assert rows[i] in rows;
  }

  /** Every row lies in exactly one group, the one of its own key (a missing
      key included). */
  lemma RowInExactlyOneGroup(rows: seq<Row>, i: nat)
    requires i < |rows|
    ensures exists j :: 0 <= j < |Groups(rows)| && Groups(rows)[j].key == KeyOf(rows[i])
                     && rows[i] in Groups(rows)[j].rows
                     && forall j' :: 0 <= j' < |Groups(rows)| && rows[i] in Groups(rows)[j'].rows ==> j' == j
  {
    var gs := Groups(rows);
    var j := GroupOfRow(rows, i);
    GroupsOrdered(rows);
    forall j' | 0 <= j' < |gs| && rows[i] in gs[j'].rows ensures j' == j {
      RowHasGroupKey(rows, j', rows[i]);
    }
  }

  /** The group whose key is the key of row `i` holds that row. */
  lemma GroupOfRow(rows: seq<Row>, i: nat) returns (j: nat)
    requires i < |rows|
    ensures j < |Groups(rows)| && Groups(rows)[j].key == KeyOf(rows[i]) && rows[i] in Groups(rows)[j].rows
  {
    var ks := GroupKeys(rows);
    j :| 0 <= j < |ks| && ks[j] == KeyOf(rows[i]);
    assert Groups(rows)[j] == Group(ks[j], RowsWithKey(rows, ks[j]));
    assert rows[i] in rows;
  }

  /** A row in a group has that group's key. */
  lemma RowHasGroupKey(rows: seq<Row>, j: nat, r: Row)
    requires j < |Groups(rows)| && r in Groups(rows)[j].rows
    ensures KeyOf(r) == Groups(rows)[j].key
  {
    var ks := GroupKeys(rows);
    assert Groups(rows)[j] == Group(ks[j], RowsWithKey(rows, ks[j]));
  }

  /** The group sizes add up to the number of rows: no row is dropped or counted twice. */
  lemma GroupsConserveRows(rows: seq<Row>)
    ensures TotalRows(Groups(rows)) == |rows|
  {
    TotalRowsCovers(GroupKeys(rows), rows);
  }
}
