# Salesforce / SharePoint exact-name reconciliation, modelled in Dafny

`compare_sf_sharepoint.py` reads two file inventories: a Salesforce export
whose file name is in the `Document Title` column, and a SharePoint export
whose file name is in `Name`, falling back to `FileLeafRef` and then to
`Title`. It sorts the file names into three groups: in both, only in
Salesforce and only in SharePoint. It writes one report per group (two for
"in both") and a summary of the counts.

This project models that engine with the CSV reading already done. An
inventory is a `seq<map<string, string>>`, one map per CSV row.

- `text.dfy` (module `Text`): Python's `str.strip()`, with `str.isspace()`
  written out character by character, and `str.lower()` restricted to ASCII.
- `ordering.dfy` (module `Ordering`): Python's `<` on `str`, and `sorted(...)`
  of a set of strings. A selection method produces the result, and it is
  proved equal to the unique strictly ascending sequence of the set's
  elements.
- `names.dfy` (module `Names`): `normalize_name` and the case folding of the
  name sets.
- `ingest.dfy` (module `Ingest`): the per-row title test of both loaders and
  the loop that builds `rows`, `names` and `by_name`. A Python dict keeps its
  insertion order, and `first_*_row` depends on that order, so `by_name` is a
  `Grouping`: the keys in insertion order plus the map.
- `reconcile.dfy` (module `Reconcile`): the rest of `main` up to the CSV
  writing:
  - the folded name sets;
  - the first-occurrence display maps;
  - the partition;
  - `first_sf_row` / `first_sp_row`;
  - the four report builders and the counts.

The Python functions keep their state in local containers that they update
in place: `rows.append` and `names.add` (lines 45, 47, 65, 67),
`by_name[key].append(row)` (lines 48, 68), `sf_display[k] = t` and
`sp_display[k] = n` (lines 139, 146), and the `*_rows.append` calls of the
report loops (lines 170-191). None of these containers escapes the function
that builds it before it is complete, and no alias of one is updated
elsewhere. The row dicts are shared between `rows`, `by_name` and the
reports, but they are never mutated: the "only" reports copy them with
`{**r, ...}`. Value semantics therefore loses nothing, so each container is
a local `seq`, `set` or `map` variable that its loop reassigns. Each loop is
a `method` proved equal to a reference `function` defined over the input,
and the reference functions carry the lemmas. `Reconcile.Compare`, the whole
pipeline, is proved equal to `Reconcile.Expected`, which spells out every
report row.

Two behaviours of the script are modelled as written:

- The SharePoint fallback goes to the next column only when a cell is
  **empty**. A `Name` cell that holds only spaces is not empty, so it hides a
  usable `FileLeafRef`, and then the row is skipped
  (`Ingest.BlankNameHidesFileLeafRef`).
- Every key of a report exists in its display map. Every lookup finds a
  non-empty row. So the `{"Name": display}` fallback rows and the key
  fallback of `display.get(k, k)` are never produced (`Reconcile.FirstRowFound`,
  `Reconcile.DisplayKeys`).
- When several case variants of a name were loaded (`Report.pdf` and
  `REPORT.pdf`, say), the row found for their common key and its display
  name both come from the first input row among them
  (`Reconcile.FirstOfKey`).

## Model

| member | source | states |
|---|---|---|
| Text.IsSpace | compare_sf_sharepoint.py:31 | reference definition of the characters `str.isspace()` accepts, which `strip()` removes |
| Text.Strip | compare_sf_sharepoint.py:31 | `str.strip()`; its result has no whitespace at either end |
| Text.LowerChar | compare_sf_sharepoint.py:130 | `str.lower()` on one character: the result is never an upper-case ASCII letter, is whitespace exactly when the input is, and is a lower-case ASCII letter exactly when the input is an ASCII letter |
| Text.Lower | compare_sf_sharepoint.py:130-131 | `str.lower()`: the result has the input's length, no upper-case ASCII letter, and whitespace exactly where the input has it |
| Text.StripEmptyIffBlank | compare_sf_sharepoint.py:42-43 | `s.strip()` is empty exactly when every character of `s` is whitespace, which is the loaders' skip test |
| Text.StripSlice | compare_sf_sharepoint.py:31 | `strip()` removes only whitespace, and only at the two ends: the result is a slice of the input with all-space margins |
| Text.StripStripped | compare_sf_sharepoint.py:31 | stripping a string with no whitespace at either end returns it unchanged |
| Text.LowerStripped | compare_sf_sharepoint.py:130-131 | lower-casing a stripped name leaves it stripped |
| Names.NormalizeName | compare_sf_sharepoint.py:27-31 | the empty name gives `""`; the result has no whitespace at either end; an already stripped name is returned as is; the result is empty exactly for blank names |
| Names.NormalizeIdempotent | compare_sf_sharepoint.py:27-31 | normalising twice equals normalising once, so the re-normalisation of the loaded names changes nothing |
| Names.FoldKey | compare_sf_sharepoint.py:126-131 | a folded key is stripped, has the length of the normalised name, is empty exactly for blank names, and has no upper-case ASCII letter when folding is case-insensitive |
| Names.CaseVariant | compare_sf_sharepoint.py:130 | reference definition of "same character up to ASCII letter case", stated without `lower()`: equal, or an upper-case letter and the code point 32 above it |
| Names.SameUpToCase | compare_sf_sharepoint.py:130-131 | reference definition of two names that differ only in ASCII letter case: same length, `CaseVariant` at every position |
| Names.LowerCharSame | compare_sf_sharepoint.py:130 | `lower()` maps two characters to the same character exactly when they are case variants |
| Names.CaseInsensitiveCollapse | compare_sf_sharepoint.py:130-131 | two names get the same case-insensitive key exactly when their normalised forms have the same length and, position by position, are equal or are the upper- and lower-case forms of one ASCII letter |
| Names.FoldNamesCaseSensitive | compare_sf_sharepoint.py:127-128 | in case-sensitive mode the folded set of loaded (stripped) names is the set itself |
| Names.FoldNamesCard | compare_sf_sharepoint.py:126-131 | folding never has more keys than there were names |
| Names.Fold | compare_sf_sharepoint.py:154 | the lookup's `k.lower() if not case_sensitive else k`: the result has the key's length, and is the key itself in case-sensitive mode |
| Names.FoldNames | compare_sf_sharepoint.py:126-131 | reference definition of the folded name set `{normalize_name(n)[.lower()] for n in names}` |
| Names.FoldOfNormalized | compare_sf_sharepoint.py:154 | on a normalised key, the lookup's `k.lower()` equals the folding used for the name sets |
| Ingest.Get | compare_sf_sharepoint.py:42 | reference definition of `row.get(column, "")` |
| Ingest.SharePointRawName | compare_sf_sharepoint.py:61 | reference definition of `row.get("Name") or row.get("FileLeafRef") or row.get("Title", "")`: the first non-empty of the three cells |
| Ingest.FileName | compare_sf_sharepoint.py:42-64 | the file name taken from a row (the `Document Title` cell, or the chosen `Name`/`FileLeafRef`/`Title` cell) has no whitespace at either end |
| Ingest.KeyOf | compare_sf_sharepoint.py:42-46 | a row is kept exactly when its stripped title is non-empty, and it is filed under that title, which is non-empty and stripped |
| Ingest.Kept | compare_sf_sharepoint.py:45 | reference definition of `rows`: the input rows the loader keeps, in input order |
| Ingest.NameSet | compare_sf_sharepoint.py:47 | reference definition of `names`: the keys of the kept rows |
| Ingest.RowsNamed | compare_sf_sharepoint.py:48 | reference definition of `by_name[key]`: the kept rows filed under `key`, in input order |
| Ingest.KeyOrder | compare_sf_sharepoint.py:48 | reference definition of the insertion order of `by_name`: each key where its first row is |
| Ingest.ByName | compare_sf_sharepoint.py:49 | reference definition of `dict(by_name)`: the insertion order with the map of groups |
| Ingest.SharePointNameFallback | compare_sf_sharepoint.py:61-64 | the name is taken from `Name` if that cell is non-empty, else from `FileLeafRef` if non-empty, else from `Title`; a row is dropped exactly when the chosen cell is blank, and in particular when all three are blank |
| Ingest.SalesforceSkip | compare_sf_sharepoint.py:42-44 | a Salesforce row is dropped exactly when its `Document Title` cell is blank or missing |
| Ingest.BlankNameHidesFileLeafRef | compare_sf_sharepoint.py:61-63 | a row whose `Name` is a single space is dropped even though its `FileLeafRef` is a usable name |
| Ingest.Load | compare_sf_sharepoint.py:34-69 | the loop shared by both loaders returns the kept rows in input order, their name set, and the grouping of kept rows by name in first-seen key order |
| Ingest.ByNameStep | compare_sf_sharepoint.py:46-48 | filing a kept row appends it to the group of its key; a new key goes to the end of the insertion order; a skipped row changes nothing |
| Ingest.GroupsSkip | compare_sf_sharepoint.py:42-44 | a skipped row leaves every group of `by_name` unchanged |
| Ingest.GroupsFile | compare_sf_sharepoint.py:48 | a row filed under `k` is appended to the group of `k`, a new group is created for a new `k`, and the other groups are unchanged |
| Ingest.NameSetFromRows | compare_sf_sharepoint.py:45-47 | a name is in the name set exactly when some input row is filed under it |
| Ingest.NamesNonEmpty | compare_sf_sharepoint.py:43-47 | every loaded name is non-empty and stripped |
| Ingest.ByNameValid | compare_sf_sharepoint.py:48-49 | the keys of `by_name` are listed once each, they are exactly the name set, and no group is empty |
| Ingest.KeyOrderLists | compare_sf_sharepoint.py:48 | the insertion order of `by_name` lists every name exactly once |
| Ingest.KeyOrderGrows | compare_sf_sharepoint.py:48 | reading more rows only appends keys to the insertion order; earlier keys keep their positions |
| Ingest.RowsNamedExactly | compare_sf_sharepoint.py:45-48 | `by_name[k]` holds exactly the input rows filed under `k` |
| Ingest.RowsNamedNonEmpty | compare_sf_sharepoint.py:47-48 | a group is non-empty exactly when its key is in the name set |
| Ingest.KeptAppend | compare_sf_sharepoint.py:45-48 | the kept rows and each group of a concatenation are the concatenation of the parts' rows, so input order is preserved |
| Ingest.GroupSizesSum | compare_sf_sharepoint.py:45-49 | the group sizes of `by_name` add up to `len(rows)` |
| Ordering.Less | compare_sf_sharepoint.py:166 | reference definition of Python's `<` on `str`: lexicographic by code point, a proper prefix first |
| Ordering.LessTransitive | compare_sf_sharepoint.py:166 | Python's string order is transitive |
| Ordering.LessTotal | compare_sf_sharepoint.py:166 | any two different strings are ordered one way or the other |
| Ordering.SortedUnique | compare_sf_sharepoint.py:166 | two strictly ascending sequences with the same elements are equal, so `sorted` of a set is determined by the set |
| Ordering.MinOf | compare_sf_sharepoint.py:166 | the scan returns the least element of a non-empty set |
| Ordering.SortKeys | compare_sf_sharepoint.py:166 | `sorted(s)` is strictly ascending, holds exactly the elements of `s`, and is the one such sequence |
| Ordering.SortedKeys | compare_sf_sharepoint.py:166 | reference definition of the value of `sorted(s)`: strictly ascending, with exactly the elements of `s` |
| Reconcile.EntryOf | compare_sf_sharepoint.py:135-146 | a kept row offers the display map its folded key and, as display name, its own non-empty stripped file name (`t` at line 139, `n` at line 146); a skipped row offers nothing |
| Reconcile.Display | compare_sf_sharepoint.py:134-146 | reference definition of the first-occurrence display map built by the display loops |
| Reconcile.DisplayMap | compare_sf_sharepoint.py:134-146 | reference definition of `sf_display` / `sp_display` for one inventory |
| Reconcile.BuildDisplay | compare_sf_sharepoint.py:134-146 | the display loop computes the first-occurrence display map of the kept rows |
| Reconcile.DisplayFirstOccurrence | compare_sf_sharepoint.py:134-146 | a key is in the display map exactly when some row offers it, and its display name is the title of the first such row |
| Reconcile.DisplayStable | compare_sf_sharepoint.py:138-139 | later rows never overwrite a display name |
| Reconcile.DisplayKeys | compare_sf_sharepoint.py:126-146 | the keys of the display map are exactly the folded name set |
| Reconcile.DisplayNamesNonEmpty | compare_sf_sharepoint.py:138-146 | every display name is non-empty |
| Reconcile.Split | compare_sf_sharepoint.py:148-150 | `in_both`, `only_salesforce` and `only_sharepoint` are pairwise disjoint; `in_both` with `only_salesforce` is exactly `sf_names`; `in_both` with `only_sharepoint` is exactly `sp_names` |
| Reconcile.Keys | compare_sf_sharepoint.py:126-131 | reference definition of the folded `sf_names` / `sp_names` of one inventory |
| Reconcile.SplitSymmetric | compare_sf_sharepoint.py:148-150 | swapping the inventories keeps `in_both` and swaps the two "only" sets |
| Reconcile.SplitCounts | compare_sf_sharepoint.py:208-212 | the summary counts add up: total = in both + only on that side, for each side |
| Reconcile.FirstRowFrom | compare_sf_sharepoint.py:152-162 | reference definition of the scan of `by_name.items()` from position `i` of the insertion order |
| Reconcile.FirstRowOf | compare_sf_sharepoint.py:152-162 | reference definition of `first_sf_row` / `first_sp_row` |
| Reconcile.FirstRowFromSpec | compare_sf_sharepoint.py:152-162 | the lookup returns the first row of the first-inserted group whose folded key equals the key, and None exactly when no non-empty group matches |
| Reconcile.FirstRow | compare_sf_sharepoint.py:152-162 | the early-return scan computes that lookup |
| Reconcile.EmptyRowSkipped | compare_sf_sharepoint.py:42-44 | an empty row has no file name and is skipped by both loaders |
| Reconcile.Truthy | compare_sf_sharepoint.py:169 | reference definition of `if r:` (also lines 178, 187, 190): a row was found and it is not an empty dict |
| Reconcile.KeptRowNonEmpty | compare_sf_sharepoint.py:169 | a row a loader keeps is never an empty dict, so `if r:` only tests whether a row was found |
| Reconcile.FirstRowMatches | compare_sf_sharepoint.py:152-162 | for every loaded name the lookup of its folded key finds an input row whose own name folds to that key |
| Reconcile.FirstRowFound | compare_sf_sharepoint.py:166-191 | for every key of a folded name set the lookup finds a non-empty input row whose name folds to that key |
| Reconcile.FirstFor | compare_sf_sharepoint.py:152-162 | reference definition of "the first input row whose name folds to `key`", stated over the input rows instead of `by_name` |
| Reconcile.FirstForExists | compare_sf_sharepoint.py:152-162 | a key that some input row folds to has a first such row |
| Reconcile.FirstForKey | compare_sf_sharepoint.py:126-131 | every key of the folded name set has a first input row that folds to it |
| Reconcile.NoKeyBefore | compare_sf_sharepoint.py:45-48 | no name loaded from the rows before that first row folds to the key |
| Reconcile.FirstGroup | compare_sf_sharepoint.py:48 | the name of that first row enters `by_name` right after the names of the earlier rows, and its group starts with that row |
| Reconcile.FirstMatch | compare_sf_sharepoint.py:152-156 | the scan returns the first row of the first matching group |
| Reconcile.NoEarlierMatch | compare_sf_sharepoint.py:153-154 | no group inserted before that first row was read matches the key |
| Reconcile.FirstRowIsFirst | compare_sf_sharepoint.py:152-162 | `first_sf_row(key)` / `first_sp_row(key)` returns exactly the first input row whose name folds to `key`, even when several case variants of a name were loaded |
| Reconcile.DisplayIsFirst | compare_sf_sharepoint.py:134-146 | the display name of `key` is the title offered by the first input row whose name folds to `key` |
| Reconcile.FirstOfKey | compare_sf_sharepoint.py:134-170 | for that first row, the lookup returns it, it is a non-empty dict, and the display name of `key` is its own file name, so the metadata and the display name come from the same row |
| Reconcile.KeyFound | compare_sf_sharepoint.py:166-191 | every key of a folded name set finds a non-empty row, namely the first input row whose name folds to it |
| Reconcile.DisplayName | compare_sf_sharepoint.py:167 | reference definition of `display.get(k, k)` |
| Reconcile.ReportRow | compare_sf_sharepoint.py:169-181 | a report row is the found row with the name column set to the display name and every other column unchanged, or only the name column when nothing was found |
| Reconcile.OnlyRows | compare_sf_sharepoint.py:165-181 | reference definition of an "only" report: row `i` is the report row of the `i`-th key in ascending order |
| Reconcile.OnlyReport | compare_sf_sharepoint.py:165-181 | the "only" loop returns one row per key, and row `i` is the report row of the `i`-th key in ascending order: the first row of that key with its name column set to the display name |
| Reconcile.Found | compare_sf_sharepoint.py:183-191 | reference definition of an "in both" report: the rows found for the keys, in key order, skipping keys whose lookup fails |
| Reconcile.FoundLength | compare_sf_sharepoint.py:183-191 | an "in both" report has at most one row per common key |
| Reconcile.FoundAll | compare_sf_sharepoint.py:183-191 | when every lookup succeeds, the report's row `i` is the row found for the `i`-th key |
| Reconcile.BothReport | compare_sf_sharepoint.py:183-191 | the "in both" loop collects the rows found for the common keys, in ascending key order, on each side |
| Reconcile.OnlyRowFromInput | compare_sf_sharepoint.py:166-170 | the report row of a loaded key is the first input row whose name folds to that key, with its name column replaced by that row's own non-empty file name |
| Reconcile.OnlyRowsFromInput | compare_sf_sharepoint.py:165-181 | row `i` of an "only" report is the first input row of the `i`-th key in ascending order, with its name column replaced by that row's own non-empty file name |
| Reconcile.BothRowsFromInput | compare_sf_sharepoint.py:183-191 | an "in both" report has exactly one row per common key, and row `i` is the first input row of the `i`-th key in ascending order |
| Reconcile.Expected | compare_sf_sharepoint.py:123-191 | reference definition of what `main` computes: each "only" report is `OnlyRows` over the sorted keys of its set with the display map and `by_name` of its inventory, each "in both" report is `Found` over the sorted common keys, and the counts are the sizes of the folded name sets and of the partition |
| Reconcile.Compare | compare_sf_sharepoint.py:123-191 | the pipeline (load, fold, display maps, partition, the four report loops) returns exactly `Expected`: every report row and every count |
| Reconcile.ExpectedCounts | compare_sf_sharepoint.py:208-212 | the counts are the sizes of the folded name sets and of the partition and they add up; each "only" report has one row per key of its set, and each "in both" report one row per common key |
| Reconcile.ExpectedDisplayKeys | compare_sf_sharepoint.py:126-146 | the keys of each display map are exactly the folded name set of its inventory, so `display.get(k, k)` never falls back to `k` |
| Reconcile.ExpectedOnlyRows | compare_sf_sharepoint.py:165-181 | row `i` of each "only" report is the first input row of the `i`-th key in ascending order, from the right inventory, with its name column set to that row's own non-empty file name |
| Reconcile.ExpectedBothRows | compare_sf_sharepoint.py:183-191 | each "in both" report has one row per common key, and row `i` is the first input row of the `i`-th common key, from the right inventory |

## Left out

- Reading and writing CSV files, argument parsing, the existence checks, the output directory and the summary text file are not modelled. The inputs are already-read sequences of rows, and the result is the four row sequences plus the counts.
- `csv.DictReader` gives `None` for the cells of a short row. `.strip()` on such a cell raises an error in the script. The model's rows are maps whose values are strings, and `Ingest.Get` reads a missing cell as `""`.
- The `isinstance` checks in `normalize_name` and the display loop never fail on the strings a reader produces, so they are not modelled.
- Text.Lower: models `str.lower()` only for ASCII letters. Other characters are left unchanged, and Python's full Unicode case mapping (including changes of length) is not modelled.
- Ordering.SortKeys: models only the sequence `sorted` returns, not Python's sorting algorithm.
- The approximate (codename / similarity) matching and the PowerShell inventory scripts are not part of this model.
