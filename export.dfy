/** One run of the extractor, and the export loop at its end: for every group of
    `missing_df`, in group order, write `<safe name>.xlsx` into the output folder,
    append its path to `saved_files`, and add an entry of the same name to the ZIP
    archive. The spreadsheet bytes are not modelled: a written file or archive
    entry is represented by the rows it holds. */
module Export {
  import opened Text
  import opened SafeName
  import opened Table
  import opened Filters
  import opened Grouping
  import opened Summary

  /** The text of the missing launch name when it is converted to a string:
      pandas prints its missing-value marker as `<NA>`. */
  const MissingKeyText: string := "<NA>"

  function KeyText(k: Key): string {
    match k
    case Some(s) => s
    case None => MissingKeyText
  }

  /** `safe_name` of the group with key `k`. */
  function FileStem(k: Key): string {
    SafeFilename(KeyText(k))
  }

  /** The file name, and ZIP entry name, of the group with key `k`. */
  function FileName(k: Key): string {
    FileStem(k) + ".xlsx"
  }

  /** The path of the group's file: the output folder joined with its file name. */
  function FilePath(dir: string, k: Key): string {
    dir + "/" + FileName(k)
  }

  /** Every file name is a safe name of 1 to 150 characters followed by `.xlsx`. */
  lemma FileNameShape(k: Key)
    ensures var n := FileName(k);
            && 5 < |n| <= MaxLength + 5
            && n[|n| - 5..] == ".xlsx"
            && IsSafeName(n[..|n| - 5])
  {
    var stem := SafeFilename(KeyText(k));
    assert FileName(k)[..|FileName(k)| - 5] == stem;
  }

  /** The rows with a missing launch name are written to `_NA_.xlsx`. */
  lemma MissingKeyFileName(k: Key)
    requires k.None?
    ensures FileStem(k) == "_NA_"
  {
    assert KeyText(k) == ['<', 'N', 'A', '>'];
    BracketedStem('<', 'N', 'A', '>');
  }

  /** Two name characters between two characters outside `[\w\-\s]`. */
  lemma BracketedStem(x: char, m: char, n: char, y: char)
    requires !Kept(x) && !Kept(y) && IsNameChar(m) && IsNameChar(n)
    ensures SafeFilename([x, m, n, y]) == ['_', m, n, '_']
  {
    var s := [x, m, n, y];
    assert NoSpace(s) by {
      forall i | 0 <= i < 4 ensures !IsSpace(s[i]) {
      }
    }
    SafeFilenameWithoutSpaces(s);
  }

  /** Different launch names can share a file: here `A B` and `A_B`. */
  lemma FileNamesCanCollide(a: Key, b: Key)
    requires a == Some("A B") && b == Some("A_B")
    ensures a != b && FileStem(a) == FileStem(b) == "A_B"
    ensures FileName(a) == FileName(b)
  {
    assert a.value == [a.value[0], ' ', a.value[2]];
    assert b.value == [a.value[0], '_', a.value[2]];
    SeparatedStem(a.value[0], ' ', a.value[2]);
    SeparatedStem(a.value[0], '_', a.value[2]);
  }

  /** Two name characters around one separator, a space or `_`, give the stem
      with `_` between them. */
  lemma SeparatedStem(x: char, sep: char, y: char)
    requires IsNameChar(x) && IsNameChar(y) && (sep == ' ' || sep == '_')
    ensures SafeFilename([x, sep, y]) == [x, '_', y]
  {
    var s := [x, sep, y];
    assert ReplaceUnsafe(s) == s by {
      assert Kept(x) && Kept(sep) && Kept(y);
    }
    StripNoEdgeSpace(s);
    var l, w, t := [x], [sep], [y];
    CollapseNoSpace(l);
    CollapseNoSpace(t);
    if sep == ' ' {
      assert s == l + (w + t);
      WhitespaceRunBecomesUnderscore(l, w, t);
    } else {
      CollapseNoSpace(s);
    }
  }

  /** An entry of the ZIP archive. */
  datatype ZipEntry = ZipEntry(name: string, rows: seq<Row>)

  /** `written[p]` holds what the last write to path `p` among `paths[..n]` wrote,
      and only the paths written are present. */
  predicate LastWriteWins(written: map<string, seq<Row>>, paths: seq<string>, groups: seq<Group>, n: nat)
    requires n <= |paths| && n <= |groups|
  {
    && (forall j :: 0 <= j < n ==> paths[j] in written)
    && (forall p :: p in written ==>
          exists j :: 0 <= j < n && paths[j] == p && written[p] == groups[j].rows
                      && forall j' :: j < j' < n ==> paths[j'] != p)
  }

  /** `paths` and `archive` hold one path and one archive entry for each of the
      first `n` groups, in group order, both named after the group's key. */
  predicate ExportedPrefix(dir: string, groups: seq<Group>, paths: seq<string>, archive: seq<ZipEntry>, n: nat)
    requires n <= |groups|
  {
    && |paths| == n && |archive| == n
    && (forall j :: 0 <= j < n ==> paths[j] == FilePath(dir, groups[j].key))
    && (forall j :: 0 <= j < n ==> archive[j] == ZipEntry(FileName(groups[j].key), groups[j].rows))
  }

  /** One path and one archive entry per group. */
  predicate OnePerGroup(dir: string, groups: seq<Group>, paths: seq<string>, archive: seq<ZipEntry>) {
    ExportedPrefix(dir, groups, paths, archive, |groups|)
  }

  /** Exporting one more group extends the prefix by its path and its entry. */
  lemma ExportStep(dir: string, groups: seq<Group>, paths: seq<string>, archive: seq<ZipEntry>, n: nat)
    requires n < |groups| && ExportedPrefix(dir, groups, paths, archive, n)
    ensures ExportedPrefix(dir, groups, paths + [FilePath(dir, groups[n].key)],
                           archive + [ZipEntry(FileName(groups[n].key), groups[n].rows)], n + 1)
  {
    var paths' := paths + [FilePath(dir, groups[n].key)];
    var archive' := archive + [ZipEntry(FileName(groups[n].key), groups[n].rows)];
    forall j | 0 <= j < n + 1
      ensures paths'[j] == FilePath(dir, groups[j].key)
      ensures archive'[j] == ZipEntry(FileName(groups[j].key), groups[j].rows)
    {
      if j < n {
        assert paths'[j] == paths[j] && archive'[j] == archive[j];
      }
    }
  }

  /** The export loop. `saved_files` gets one path per group, in group order, and
      the archive one entry per group under the same file name; a later group
      whose name sanitises to the same file overwrites the earlier file on disk,
      while the archive keeps both entries. */
  method ExportGroups(dir: string, groups: seq<Group>)
    returns (savedFiles: seq<string>, archive: seq<ZipEntry>, written: map<string, seq<Row>>)
    ensures OnePerGroup(dir, groups, savedFiles, archive)
    ensures LastWriteWins(written, savedFiles, groups, |groups|)
  {
    savedFiles, archive, written := [], [], map[];
    for n := 0 to |groups|
      invariant ExportedPrefix(dir, groups, savedFiles, archive, n)
      invariant LastWriteWins(written, savedFiles, groups, n)
    {
      var g := groups[n];
      var name := FileName(g.key);
      var path := FilePath(dir, g.key);
      LastWriteStep(written, savedFiles, groups, n, path);
      ExportStep(dir, groups, savedFiles, archive, n);
      // write the group's rows to its path, replacing whatever the path held
      written := written[path := g.rows];
      savedFiles := savedFiles + [path];
      // add the archive entry under the same file name
      archive := archive + [ZipEntry(name, g.rows)];
    }
  }

  /** One more write keeps the last-writer-wins description. */
  lemma LastWriteStep(written: map<string, seq<Row>>, paths: seq<string>, groups: seq<Group>, n: nat, path: string)
    requires n == |paths| && n < |groups|
    requires LastWriteWins(written, paths, groups, n)
    ensures LastWriteWins(written[path := groups[n].rows], paths + [path], groups, n + 1)
  {
    var written', paths' := written[path := groups[n].rows], paths + [path];
    forall p | p in written'
      ensures exists j :: 0 <= j < n + 1 && paths'[j] == p && written'[p] == groups[j].rows
                          && forall j' :: j < j' < n + 1 ==> paths'[j'] != p
    {
      if p == path {
        assert paths'[n] == p && written'[p] == groups[n].rows;
      } else {
        var j :| 0 <= j < n && paths[j] == p && written[p] == groups[j].rows
                 && forall j' :: j < j' < n ==> paths[j'] != p;
        assert paths'[j] == p;
        assert forall j' :: j < j' < n + 1 ==> paths'[j'] != p;
      }
    }
  }

  /** How a run ends. */
  datatype Status =
    | RequiredColumnsMissing
    | NothingToExport(adolescentCount: nat)
    | FolderUnavailable(adolescentCount: nat, missingCount: nat, summary: seq<Entry>)
    | Exported(adolescentCount: nat, missingCount: nat, summary: seq<Entry>,
               savedFiles: seq<string>, archive: seq<ZipEntry>, written: map<string, seq<Row>>)

  /** The expected columns found missing (a warning only), and how the run ended. */
  datatype Report = Report(missingExpected: seq<Column>, status: Status)

  /** One press of "Run and Save Files" with a sheet uploaded. `folderReady` says
      whether the output folder could be created or accessed. */
  method Run(sheet: Table, outputDir: string, folderReady: bool) returns (report: Report)
    ensures report.missingExpected == MissingColumns(ExpectedColumns, sheet.columns)
    ensures report.status.RequiredColumnsMissing? <==> !HasRequiredColumns(sheet.columns)
    ensures HasRequiredColumns(sheet.columns) ==>
              var adol := AdolescentRows(sheet.rows);
              var missing := MissingUdiseRows(adol);
              && report.status.adolescentCount == |adol|
              && (report.status.NothingToExport? <==> missing == [])
              && (report.status.FolderUnavailable? <==> missing != [] && !folderReady)
              && (!report.status.NothingToExport? ==>
                    report.status.missingCount == |missing| && report.status.summary == SummaryTable(missing))
    ensures report.status.Exported? ==>
              var missing := MissingUdiseRows(AdolescentRows(sheet.rows));
              var groups := Groups(missing);
              && |report.status.savedFiles| == |groups| == |report.status.summary|
              && TotalCount(report.status.summary) == report.status.missingCount
              && OnePerGroup(outputDir, groups, report.status.savedFiles, report.status.archive)
              && LastWriteWins(report.status.written, report.status.savedFiles, groups, |groups|)
  {
    var missingExpected := MissingColumns(ExpectedColumns, sheet.columns);
    if !HasRequiredColumns(sheet.columns) {
      return Report(missingExpected, RequiredColumnsMissing);
    }
    var adol := AdolescentRows(sheet.rows);
    var missing := MissingUdiseRows(adol);
    if missing == [] {
      return Report(missingExpected, NothingToExport(|adol|));
    }
    var summary := SummaryTable(missing);
    SummaryConservesRows(missing);
    SummarySorted(missing);
    if !folderReady {
      return Report(missingExpected, FolderUnavailable(|adol|, |missing|, summary));
    }
    var groups := Groups(missing);
    var savedFiles, archive, written := ExportGroups(outputDir, groups);
    report := Report(missingExpected, Exported(|adol|, |missing|, summary, savedFiles, archive, written));
    assert report.status.savedFiles == savedFiles && report.status.archive == archive;
  }
}
