/** The two row filters: keep the adolescent rows (after stripping the category
    column in place), then keep those whose School UDISE is missing or blank. */
module Filters {
  import opened Text
  import opened Seqs
  import opened Table

  /** The category value the extractor keeps, spelled as the sheet spells it. */
  const AdolescentLabel: string := "ADOLOSCENT"

  /** The row after the category column is replaced by its stripped value. */
  function StripCategory(r: Row): (r': Row)
    ensures r'.Keys == r.Keys
    ensures forall c :: c in r && c != Category ==> r'[c] == r[c]
    ensures Cell(r', Category) == StripValue(Cell(r, Category))
  {
    if Category in r then r[Category := StripValue(r[Category])] else r
  }

  /** Stripping one cell: a missing cell stays missing. */
  function StripValue(v: Option<string>): Option<string> {
    match v
    case None => None
    case Some(s) => Some(Strip(s))
  }

  /** The mask applied to a row whose category is already stripped; a missing
      category never matches. */
  predicate IsAdolescent(r: Row) {
    Cell(r, Category).Some? && Upper(Cell(r, Category).value) == AdolescentLabel
  }

  /** The decision for a category value as uploaded. */
  predicate CategoryMatches(v: Option<string>) {
    v.Some? && Upper(Strip(v.value)) == AdolescentLabel
  }

  predicate RowMatches(r: Row) {
    CategoryMatches(Cell(r, Category))
  }

  /** `adol`: the adolescent rows, with their category stripped. */
  function AdolescentRows(rows: seq<Row>): seq<Row> {
    Filter(MapSeq(rows, StripCategory), IsAdolescent)
  }

  /** Whether a row's School UDISE is missing or blank after stripping. */
  predicate UdiseMissing(r: Row) {
    match Cell(r, Udise)
    case None => true
    case Some(v) => Strip(v) == []
  }

  /** `missing_df`: the rows of `adol` whose School UDISE is missing. */
  function MissingUdiseRows(adol: seq<Row>): seq<Row> {
    Filter(adol, UdiseMissing)
  }

  /** Links the two formulations of the category decision: testing the row
      whose category was stripped in place is testing the uploaded value. */
  lemma IsAdolescentAfterStrip(r: Row)
    ensures IsAdolescent(StripCategory(r)) == RowMatches(r)
  {
  }

  /** `adol` holds, in their original order, exactly the rows whose category
      matches, each with its category stripped and every other cell unchanged. */
  lemma AdolescentRowsSelect(rows: seq<Row>)
    ensures var adol := AdolescentRows(rows);
            var idx := KeptIndices(rows, RowMatches);
            |adol| == |idx| && forall j :: 0 <= j < |adol| ==> adol[j] == StripCategory(rows[idx[j]])
  {
    forall r ensures IsAdolescent(StripCategory(r)) == RowMatches(r) {
      IsAdolescentAfterStrip(r);
    }
    var mapped := MapSeq(rows, StripCategory);
    KeptIndicesAfterMap(rows, StripCategory, IsAdolescent, RowMatches);
    FilterSelects(mapped, IsAdolescent);
  }

  /** Whitespace around the category never changes the decision. */
  lemma CategoryIgnoresPadding(l: string, v: string, r: string)
    requires AllSpace(l) && AllSpace(r)
    ensures CategoryMatches(Some(l + v + r)) == CategoryMatches(Some(v))
  {
    StripIgnoresPadding(l, v, r);
  }

  /** Two strings that agree up to letter case. */
  predicate SameUpToCase(a: string, b: string) {
    |a| == |b| && forall i :: 0 <= i < |a| ==> UpperChar(a[i]) == UpperChar(b[i])
  }

  lemma UpperKeepsSpace(c: char)
    ensures IsSpace(UpperChar(c)) == IsSpace(c)
  {
  }

  lemma {:induction false} TrimStartSameUpToCase(a: string, b: string)
    requires SameUpToCase(a, b)
    ensures |TrimStart(a)| == |TrimStart(b)| && SameUpToCase(TrimStart(a), TrimStart(b))
    decreases |a|
  {
    if a != [] {
      UpperKeepsSpace(a[0]);
      UpperKeepsSpace(b[0]);
      assert SameUpToCase(a[1..], b[1..]);
      TrimStartSameUpToCase(a[1..], b[1..]);
    }
  }

  lemma {:induction false} TrimEndSameUpToCase(a: string, b: string)
    requires SameUpToCase(a, b)
    ensures |TrimEnd(a)| == |TrimEnd(b)| && SameUpToCase(TrimEnd(a), TrimEnd(b))
    decreases |a|
  {
    if a != [] {
      var n := |a| - 1;
      UpperKeepsSpace(a[n]);
      UpperKeepsSpace(b[n]);
      assert SameUpToCase(a[..n], b[..n]);
      TrimEndSameUpToCase(a[..n], b[..n]);
    }
  }

  /** Letter case never changes the decision. */
  lemma CategoryIgnoresCase(a: string, b: string)
    requires SameUpToCase(a, b)
    ensures CategoryMatches(Some(a)) == CategoryMatches(Some(b))
  {
    TrimStartSameUpToCase(a, b);
    TrimEndSameUpToCase(TrimStart(a), TrimStart(b));
    assert Upper(Strip(a)) == Upper(Strip(b));
  }

  /** A value is blank after stripping exactly when it is all whitespace. */
  lemma BlankIffAllSpace(v: string)
    ensures Strip(v) == [] <==> AllSpace(v)
  {
    TrimStartSpec(v);
    var t := TrimStart(v);
    TrimEndSpec(t);
  }

  /** `missing_df` holds, in order, exactly the rows of `adol` whose School UDISE
      is missing or consists of whitespace only. */
  lemma MissingUdiseRowsSelect(adol: seq<Row>)
    ensures forall r :: r in MissingUdiseRows(adol) <==>
              r in adol && (Cell(r, Udise).None? || AllSpace(Cell(r, Udise).value))
    ensures var m := MissingUdiseRows(adol);
            var idx := KeptIndices(adol, UdiseMissing);
            |m| == |idx| && forall j :: 0 <= j < |m| ==> m[j] == adol[idx[j]]
  {
    forall r ensures UdiseMissing(r) == (Cell(r, Udise).None? || AllSpace(Cell(r, Udise).value)) {
      if Cell(r, Udise).Some? {
        BlankIffAllSpace(Cell(r, Udise).value);
      }
    }
    FilterSelects(adol, UdiseMissing);
  }
}
