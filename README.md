# UDISE-missing extractor: a Dafny model

The extractor is a small Streamlit tool (`app.py`). A user uploads a spreadsheet of
child/program records. The tool then:

- keeps the rows whose `PROGRAMSUBTYPENAME` is `ADOLOSCENT`, after trimming and
  ignoring case;
- picks from those the rows whose `School UDISE` is missing or blank;
- shows a summary of how many such rows each `ProgramLaunchName` has;
- writes one Excel file per launch name into an output folder, and puts the same
  files into a ZIP archive.

This project models that pipeline in Dafny and proves what it guarantees. The
modules are:

- `Text`: Python's whitespace test, `str.strip` and `str.upper`.
- `SafeName`: `safe_filename`, the function that turns a launch name into a file
  stem.
- `Table`: the sheet, the expected and required column checks.
- `Seqs`: order-preserving filtering, the model of a boolean row mask.
- `Filters`: the adolescent filter and the missing-UDISE filter.
- `Grouping`: `groupby("ProgramLaunchName", dropna=False)`.
- `Summary`: the per-launch-name counts, sorted by count.
- `Export`: the export loop and one whole run (`Export.Run`).

A sheet is a list of column names and a sequence of rows. Each row maps a column
name to a text cell. A missing cell (pandas' `<NA>`) is `None`.

## Model

| member | source | states |
|---|---|---|
| Text.IsSpace | app.py:44 | the characters Python's `str.isspace` accepts, which are also what `\s` matches; `strip` and the whitespace-run substitution use this set |
| Text.Strip | app.py:44 | `strip`: the leading and trailing whitespace removed; its result is no longer than its input, and `Text.TrimStartSpec`, `Text.TrimEndSpec` and `Text.StripSpec` pin it down |
| Text.TrimStartSpec | app.py:44 | the leading half of `strip` removes exactly the longest prefix of whitespace, in Python's `str.isspace` sense: what remains is a suffix of the input that does not start with whitespace |
| Text.TrimEndSpec | app.py:44 | the trailing half of `strip` removes exactly the longest suffix of whitespace: what remains is a prefix of the input that does not end with whitespace |
| Text.StripSpec | app.py:44 | the result of `strip` has no whitespace at either end |
| Text.StripIdempotent | app.py:176 | stripping a value that was already stripped changes nothing |
| Text.StripIgnoresPadding | app.py:44 | adding whitespace on either side of a value never changes what `strip` returns |
| Text.Upper | app.py:177 | upper-cases character by character: same length, and no `a`-`z` letter is left |
| SafeName.ReplaceUnsafe | app.py:46 | same length; each character outside `[\w\-\s]` becomes `_` and every other character is kept |
| SafeName.CollapseSpaces | app.py:48 | the result is never longer than the input, and it is empty only for empty input |
| SafeName.CollapseYieldsName | app.py:46-48 | after the whitespace runs are replaced no whitespace is left, and a string whose characters all survived the replacement of `[^\w\-\s]` becomes a name over `[\w-]` |
| SafeName.CollapseSplit | app.py:48 | replacing whitespace runs distributes over a concatenation whose left part does not end in whitespace or whose right part does not start with it |
| SafeName.WhitespaceRunBecomesUnderscore | app.py:48 | a whole whitespace run between non-space neighbours becomes exactly one `_` |
| SafeName.Truncate | app.py:51 | the result is the prefix of at most 150 characters |
| SafeName.SafeFilename | app.py:38-51 | the result has 1 to 150 characters, all from `[\w-]`; a name that strips to nothing gives `UnknownProgramLaunch` |
| SafeName.SafeNameUnchanged | app.py:38-51 | a safe name of 1 to 150 characters passes through unchanged |
| SafeName.SafeFilenameIdempotent | app.py:38-51 | applying `safe_filename` twice is the same as applying it once |
| SafeName.SafeFilenameWithoutSpaces | app.py:44-51 | a name without whitespace keeps its length, up to 150, and only its characters outside `[\w-]` become `_` |
| Table.HasRequiredColumns | app.py:169-170 | true exactly when the three required columns are all present (stated by `Table.RequiredColumnsCheck`) |
| Table.RequiredColumnsCheck | app.py:169-170 | the required-column error is raised exactly when `PROGRAMSUBTYPENAME`, `School UDISE` or `ProgramLaunchName` is absent, that is, exactly when the list of missing required columns is not empty |
| Table.MissingColumns | app.py:161 | a column is in the warning list exactly when it is expected and absent from the sheet |
| Table.MissingColumnsInOrder | app.py:161-166 | the warning list keeps the expected list's order; it is empty exactly when every expected column is present |
| Filters.StripCategory | app.py:176 | only the category cell changes, to its stripped value; a missing cell stays missing |
| Filters.IsAdolescentAfterStrip | app.py:176-177 | testing the stripped row gives the same answer as stripping and upper-casing the uploaded value and comparing it with `ADOLOSCENT` |
| Filters.AdolescentRows | app.py:176-177 | `adol`: strip the category of every row, then keep the rows whose upper-cased category is `ADOLOSCENT` (specified by `Filters.AdolescentRowsSelect`) |
| Filters.AdolescentRowsSelect | app.py:176-177 | `adol` is exactly the matching rows, in their original order, each with its category stripped |
| Filters.CategoryIgnoresPadding | app.py:176-177 | whitespace around the category never changes the decision |
| Filters.CategoryIgnoresCase | app.py:176-177 | two values equal up to letter case get the same decision |
| Filters.UdiseMissing | app.py:183 | the mask: the UDISE cell is missing, or strips to the empty string (by `Filters.BlankIffAllSpace`, exactly when it is all whitespace) |
| Filters.MissingUdiseRows | app.py:182-184 | `missing_df`: the rows of `adol` the mask keeps (specified by `Filters.MissingUdiseRowsSelect`) |
| Filters.BlankIffAllSpace | app.py:183 | a UDISE strips to `""` exactly when it is all whitespace |
| Filters.MissingUdiseRowsSelect | app.py:182-184 | `missing_df` is the rows of `adol` whose UDISE is missing or all whitespace, in their `adol` order |
| Grouping.KeyLessStrictTotalOrder | app.py:195 | the group order (code-point order, missing name last) is a strict total order |
| Grouping.GroupKeys | app.py:195 | the group keys are strictly increasing, cover every row's key, and each key belongs to some row |
| Grouping.RowsWithKey | app.py:211 | the rows of one group: those whose launch name is the key, in their order; a row is in it exactly when it is a row with that key |
| Grouping.GroupsFor | app.py:211 | one group per listed key, in the order of the list, each holding the rows with its key |
| Grouping.Groups | app.py:195 | the groups the summary counts and the export loop visits (specified by `Grouping.GroupsOrdered`, `Grouping.GroupHoldsItsRows`, `Grouping.RowInExactlyOneGroup` and `Grouping.GroupsConserveRows`) |
| Grouping.GroupsOrdered | app.py:211 | the groups come in strictly increasing key order, so no key appears twice |
| Grouping.GroupHoldsItsRows | app.py:211 | each group holds exactly the rows with its key, in order, and at least one |
| Grouping.RowInExactlyOneGroup | app.py:211 | every row, a missing-name row included, lies in exactly one group: the group of its own key |
| Grouping.GroupsConserveRows | app.py:195-196 | the group sizes add up to the number of rows |
| Summary.Counts | app.py:196-197 | one entry per group, in group order, counting that group's rows |
| Summary.SortByCount | app.py:198 | the result is a permutation of the input |
| Summary.SortSorted | app.py:198 | the sorted entries are non-increasing in count |
| Summary.SummaryTable | app.py:194-199 | `summary_df`: the group counts sorted by count (specified by `Summary.SummaryConservesRows`, `Summary.SummaryCountsRows`, `Summary.SummaryOneEntryPerKey` and `Summary.SummarySorted`) |
| Summary.SortKeepsTotals | app.py:198 | sorting keeps the total count and how often each key occurs |
| Summary.SummaryConservesRows | app.py:194-199 | the counts add up to `len(missing_df)` |
| Summary.SummaryCountsRows | app.py:194-199 | each entry's count is the number of rows with its key, so at least 1 |
| Summary.SummaryOneEntryPerKey | app.py:194-199 | there is exactly one entry for each key some row has, a missing key included, and none for any other key |
| Summary.SummarySorted | app.py:194-199 | the summary is sorted by count, largest first, and has one entry per group |
| Export.KeyText | app.py:222 | the text a group key is turned into before sanitising: the launch name itself, or `<NA>` for the missing-name group |
| Export.FileStem | app.py:222 | `safe_name`: `safe_filename` of the key's text; by `SafeName.SafeFilename` it is a safe name of 1 to 150 characters |
| Export.FileName | app.py:223 | the file name and the archive entry name: the stem followed by `.xlsx` (its shape is `Export.FileNameShape`) |
| Export.FilePath | app.py:223 | the saved path: the output folder, `/`, and the file name |
| Export.FileNameShape | app.py:222-223 | every file name is a safe stem of 1 to 150 characters followed by `.xlsx` |
| Export.MissingKeyFileName | app.py:221-223 | the group with a missing launch name gets the file stem `_NA_` |
| Export.FileNamesCanCollide | app.py:221-227 | two different launch names, `A B` and `A_B`, get the same stem `A_B` and so the same file name |
| Export.ExportStep | app.py:221-235 | exporting one more group appends that group's path to `saved_files` and its entry to the archive |
| Export.ExportGroups | app.py:211-235 | `saved_files` and the archive get one path and one entry per group, in group order, named after the group's key; on disk, each path holds the rows of the last group written to it |
| Export.LastWriteStep | app.py:226-227 | writing one more file keeps the rule that each path holds the rows of the last group written to it |
| Export.Run | app.py:161-239 | the warning list; the required-column error exactly when a required column is absent; the counts of `adol` and `missing_df`; "nothing to export" exactly when `missing_df` is empty; the folder error exactly when the folder is unavailable; otherwise one saved file per summary entry, with counts summing to `len(missing_df)` |

## Left out

- The Streamlit interface is not modelled: uploads, buttons, messages, the spinner, the download button, and the listing of the first ten saved paths. `Export.Run` starts once a file has been uploaded and the button pressed; the "please upload a file first" branch is not modelled.
- `load_excel_as_string` and Excel reading are not modelled. The sheet arrives already as text cells.
- Writing the Excel bytes, `ExcelWriter` and ZIP compression are not modelled. A written file and an archive entry are represented by the rows they hold.
- Creating the output folder is not modelled: whether it succeeded is the parameter `folderReady`.
- `Path.expanduser` and pathlib's path normalisation are not modelled. A path is the folder text, `/`, and the file name.
- Text.Upper: maps only `a`-`z`, dotless `ı` and long `ſ`, the only characters whose upper case is one ASCII letter; other characters are left as they are. Those other characters cannot make a value equal the all-ASCII label `ADOLOSCENT`, so the category decision is unaffected.
- Text.IsWordChar: `\w` is taken as ASCII letters, digits and `_`. Python's `re` also counts Unicode letters and digits as word characters, which the model does not.
- The text of the missing-name key: the model takes `str()` of pandas' missing marker to be `<NA>`. The rows with a missing launch name therefore go to the file `_NA_.xlsx` (`Export.MissingKeyFileName`). The fallback `UnknownProgramLaunch` is used only for names that strip to nothing.
- Summary.SummarySorted: the order among entries with equal counts is not stated. `sort_values` uses an unstable sort, so the source does not fix it either; the model proves only the non-increasing order and the permutation.
- Filename uniqueness is not claimed. Different launch names can sanitise to the same file (`Export.FileNamesCanCollide`). The later group then overwrites the earlier file on disk, while `saved_files` and the archive list both. The success message therefore counts groups, not distinct files.
- Export.ExportGroups: every write of a group's file and every addition to the archive is taken to succeed. The loop has no error handler, so a failing write would end the run after some of the groups, without the success message; `Export.Run` instead always ends in `Exported` once `folderReady` holds.
- Export.ExportGroups: two different path strings are taken to be two different files. On a file system that ignores letter case, the launch names `A` and `a` write one file, and the later write replaces the earlier one; `Export.LastWriteWins` would still list them as two files with different rows.
