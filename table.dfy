/** The uploaded sheet as the extractor sees it: every column read as text, so a
    cell is either a string or missing (pandas' `<NA>`). */
module Table {
  import opened Seqs

  datatype Option<T> = None | Some(value: T)

  type Column = string

  /** One row of the sheet: the value of each column, `None` for a missing cell. */
  type Row = map<Column, Option<string>>

  datatype Table = Table(columns: seq<Column>, rows: seq<Row>)

  /** The value of column `c` in row `r`; a column the row lacks reads as missing. */
  function Cell(r: Row, c: Column): Option<string> {
    if c in r then r[c] else None
  }

  const Category: Column := "PROGRAMSUBTYPENAME"
  const Udise: Column := "School UDISE"
  const LaunchName: Column := "ProgramLaunchName"

  /** The columns without which nothing is processed. */
  const RequiredColumns: seq<Column> := [Category, Udise, LaunchName]

  /** The columns the sheet is expected to carry; a missing one only draws a warning. */
  const ExpectedColumns: seq<Column> := [
    "COUNTRYNAME", "REGIONNAME", "STATENAME", "DISTRICTNAME", "Community/School",
    "School Type", "School UDISE", "PROGRAMTYPENAME", "PROGRAMSUBTYPENAME",
    "Day Of Session", "Group Registration Date", "Session Timing", "YM NAME",
    "TMO NAME", "ProgramLaunchName", "FUNDERNAME", "ProjectName", "ProjectType",
    "GROUPID", "Group Status", "Child School Name", "CHILDID", "Intervention Year",
    "CHILDREGNO", "DATE OF JOINING", "FNAME", "MNAME", "LNAME", "GENDER",
    "ISDOBKNOWN", "DATE OF BIRTH", "AGE", "CHILDGOSCHOOL", "SCHOOLTYPENAME",
    "Class Of the Child Attending school", "CHILDDROPEDSCHOOL",
    "CLASSCHILDDROPEDSCHOOL", "REASONFORDROUPOUT", "CHILDDISABILITY",
    "DISABILITYNAME", "OTHERS", "WASPARTOFMBPROGRAM", "PREVIOUSCHILDREGNO",
    "REMARKS", "STATUS", "GUARDIAN", "P_Poverty Line(APL/BPL)", "CONTACTTYPE",
    "CONTACTNUMBER", "P_Do you Have Document?", "DOCUMENTTYPE", "DOCUMENTNO",
    "P_FName", "P_Age", "RELATION", "RELIGIONNAME", "CASTE", "TRIBE",
    "Previous year grade", "School Academic Cycle", "School HM/Teacher Contact",
    "Child Level", "Parent Consent"
  ]

  /** Whether every required column is present. */
  predicate HasRequiredColumns(columns: seq<Column>) {
    forall c :: c in RequiredColumns ==> c in columns
  }

  /** The required-column check fails exactly when one of the three required
      columns is absent, that is, when the list of missing required columns is
      not empty. */
  lemma RequiredColumnsCheck(columns: seq<Column>)
    ensures !HasRequiredColumns(columns) <==> Category !in columns || Udise !in columns || LaunchName !in columns
    ensures HasRequiredColumns(columns) <==> MissingColumns(RequiredColumns, columns) == []
  {
    MissingColumnsInOrder(RequiredColumns, columns);
  }

  /** The columns of `expected` that the sheet lacks, in the order of `expected`:
      the warning list built from ExpectedColumns. */
  function MissingColumns(expected: seq<Column>, columns: seq<Column>): (r: seq<Column>)
    ensures forall c :: c in r <==> c in expected && c !in columns
  {
    Filter(expected, c => c !in columns)
  }

  /** The warning list keeps the order of the expected list, and is empty exactly
      when every expected column is present. */
  lemma MissingColumnsInOrder(expected: seq<Column>, columns: seq<Column>)
    ensures var r := MissingColumns(expected, columns);
            var idx := KeptIndices(expected, c => c !in columns);
            |r| == |idx| && forall j :: 0 <= j < |r| ==> r[j] == expected[idx[j]]
    ensures MissingColumns(expected, columns) == [] <==> forall c :: c in expected ==> c in columns
  {
    FilterSelects(expected, c => c !in columns);
    var r := MissingColumns(expected, columns);
    if r != [] {
      assert r[0] in r;
    }
  }
}
