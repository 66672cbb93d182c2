# College results: ingest, merge and lookup

A Dafny model of the data path of the college-results backend (`app.py`).
An administrator uploads a CSV or Excel sheet of student results. The handler
picks a reader from the file's extension. It turns every row into a student
record: a stripped `studentId`, `name`, `academicYear`, `sgpa`, `cgpa` and a
subject list built from the `<Subject>_Marks` columns and an optional JSON list
in a `subjects` column. It drops records without an id and refuses an upload
that leaves none. It then writes each remaining record over whatever the store
held under the upper-cased id, so the last record wins. A student looks up
results by id in any letter case.

Modules, one per concern of the handler:

- `Optional`: the `Option` datatype.
- `Text`: the ASCII versions of `str.strip`, `str.upper` and `str.lower`, the
  substring test `p in s`, `str.replace(p, '')`, and the text after the last
  `.`.
- `Table`: a row as the reader hands it over. It is an ordered list of
  (column, cell) pairs. A cell is a string, a number or `None`. The module
  also gives `row.get` and `str(cell)`.
- `Ingest`: row normalisation, as the method `NormaliseRow` with its loop and
  the function `Normalised` that specifies it. Also the per-file loop
  `NormaliseAll` and the filter `Identified`.
- `Results`: the store (`map<string, StudentRecord>`). It has the merge loop
  `MergeBatch`, specified by `Merged`, and the key lookup `Lookup`. The
  reference `LastFor` ("the last record of the batch with this key") is what
  the lemmas compare the merge against.
- `Upload`: extension classification, and the whole handler as one method from
  the file name and rows to the reply and the new store.

The model follows `app.py` as written: a re-upload replaces the whole student
record, subjects come from `_Marks` columns, and the stored `studentId` keeps
its letter case.

Definitions that have no contract of their own have a row that names the
lemmas that specify them. The two proof helpers `Ingest.IdentifiedShorter` and
`Ingest.ParsedAreParsed` have no row.

## Model

| member | source | states |
|---|---|---|
| `Text.TrimStartSpec` | app.py:98 | the left trim keeps a suffix, cuts only whitespace, and what is left does not start with whitespace |
| `Text.TrimEndSpec` | app.py:98 | the right trim keeps a prefix, cuts only whitespace, and what is left does not end with whitespace |
| `Text.StripSpec` | app.py:98 | `strip()` gives a slice of the input with only whitespace outside it, no whitespace at either end, and it is empty exactly when the input is all whitespace |
| `Text.UpperIdempotent` | app.py:137 | upper-casing an upper-cased id changes nothing |
| `Text.UpperIgnoresCase` | app.py:151 | ids that differ only in ASCII letter case have the same upper-case form |
| `Text.LowerEqualIff` | app.py:68 | two strings have the same lower-case form exactly when they differ only in letter case |
| `Text.RemoveAll` | app.py:106 | `col.replace('_Marks', '')` returns the column unchanged exactly when it does not contain `_Marks`; otherwise the result is at least 6 characters shorter. Its value for an ordinary `<name>_Marks` column is given by `Ingest.RemoveTag` |
| `Text.ContainsAppended` | app.py:106 | a column name ending in `_Marks` passes the `'_Marks' in col` test |
| `Text.StartsWith` | app.py:106 | no contract of its own: `s` begins with `p`, the step of `Contains` and of `RemoveAll` |
| `Text.Contains` | app.py:106 | no contract of its own: `p in s` as a contiguous substring, used by `SubjectNamesFromColumns` and `ContainsAppended` |
| `Text.Strip` | app.py:98 | no contract of its own: `str.strip()`, specified by `StripSpec` |
| `Text.TrimStart` | app.py:98 | no contract of its own: the leading half of `strip()`, specified by `TrimStartSpec` |
| `Text.TrimEnd` | app.py:98 | no contract of its own: the trailing half of `strip()`, specified by `TrimEndSpec` |
| `Text.IsSpace` | app.py:98 | no contract of its own: the ASCII characters `str.strip()` removes (space, `\t` to `\r`, `\x1c` to `\x1f`) |
| `Text.AllSpace` | app.py:98 | no contract of its own: every character is whitespace; `StripSpec` shows `strip()` is empty exactly then |
| `Text.Upper` | app.py:137 | keeps the length; each character is upper-cased by `UpperChar` (`UpperAt`); its key properties are `UpperIdempotent` and `UpperIgnoresCase` (also used at app.py:151) |
| `Text.UpperAt` | app.py:137 | character `i` of `Upper(s)` is `UpperChar(s[i])`: `a` to `z` become `A` to `Z`, everything else is kept |
| `Text.UpperChar` | app.py:137 | no contract of its own: ASCII `a` to `z` shifted to `A` to `Z`, specified through `UpperAt` |
| `Text.Lower` | app.py:68 | keeps the length; each character is lower-cased by `LowerChar` (`LowerAt`); the comparison it serves is `LowerEqualIff` |
| `Text.LowerAt` | app.py:68 | character `i` of `Lower(s)` is `LowerChar(s[i])`: `A` to `Z` become `a` to `z`, everything else is kept |
| `Text.LowerChar` | app.py:68 | no contract of its own: ASCII `A` to `Z` shifted to `a` to `z`, specified through `LowerAt` |
| `Text.SameIgnoringCase` | app.py:68 | no contract of its own: equal length and equal after `LowerChar` at every position; `LowerEqualIff` shows this is `Lower(a) == Lower(b)` |
| `Text.AfterLastDot` | app.py:68 | there is no extension exactly when the name has no `.`; otherwise it is the `.`-free text after the last `.` |
| `Text.AfterLastDotOf` | app.py:68 | for `prefix + "." + ext` with `ext` free of `.`, the extension is `ext`, whatever the prefix holds |
| `Table.Get` | app.py:98-102 | no contract of its own: `row.get(column)`, specified by `GetSpec` |
| `Table.GetOr` | app.py:98-102 | no contract of its own: `row.get(column, default)`, the default exactly when `Get` finds nothing |
| `Table.Render` | app.py:98 | no contract of its own: `str(cell)`, a string as itself, `None` as `"None"`, a number by the `numText` parameter |
| `Table.DistinctColumns` | app.py:95 | no contract of its own: no two columns of a row share a name, as in the dicts `to_dict` produces; `GetSpec` uses it |
| `Table.GetSpec` | app.py:98-102 | `row.get` finds nothing exactly when no column has the name; what it finds is that column's cell, and with distinct columns it is the cell of the one such column |
| `Ingest.SubjectNames` | app.py:106 | at most one name per column; which names it lists and in which order is stated by `SubjectNamesFromColumns` and `SubjectNamesAppend` |
| `Ingest.MarksEntry` | app.py:108-110 | no contract of its own: one iteration of the `_Marks` loop, specified by `MarksEntriesOfOne` |
| `Ingest.MarksEntries` | app.py:107-110 | no contract of its own: what the `_Marks` loop appends, specified by `MarksEntriesSpec` (which entries), `MarksEntriesAppend` (in name order) and `MarksEntriesOfOne` (at most one per name) |
| `Ingest.ParsedEntries` | app.py:112-119 | no contract of its own: what the `subjects` cell adds, specified by `ParsedListAppended` (the whole decoded list, in order), `MarksOnlyUnlessJsonList` (when it adds anything) and `MarksBeforeParsed` |
| `Ingest.RecordOf` | app.py:97-103 | no contract of its own: the five scalar fields with their defaults and a given subject list, shared by `Normalised` and `NormaliseRow`; the id is specified by `StudentIdIsStripped`, the other four fields by `RecordFields` |
| `Ingest.RecordFields` | app.py:99-102 | `name` and `academicYear` are the row's cells, `""` when the column is missing; `sgpa` and `cgpa` are the row's cells, `0.0` when missing; a present cell is kept as it is, `None` included |
| `Ingest.Normalised` | app.py:96-121 | no contract of its own: the record a row becomes, which `NormaliseRow` is proved to build. Its id is specified by `StudentIdIsStripped`, its other scalar fields by `RecordFields`, the order of its `_Marks` subjects by `MarksSubjectsInColumnOrder`, their content by `MarksSubjectsTraceToColumns` and `MarksColumnYieldsSubject`, and the appended JSON list by `ParsedListAppended` and `MarksOnlyUnlessJsonList` |
| `Ingest.MarksEntriesAppend` | app.py:107-110 | the loop appends in the order of the names: the entries for `x + y` are those for `x` followed by those for `y` |
| `Ingest.MarksEntriesOfOne` | app.py:107-110 | for one name the loop appends `Marks(n, v)` exactly when the cell `n + "_Marks"` is a `v` other than `None`, and nothing otherwise |
| `Ingest.MarksEntriesSpec` | app.py:107-110 | the loop appends only `Marks(n, v)` for a listed name `n` whose cell `n + "_Marks"` is `v` and not `None`, and it appends one for every such name |
| `Ingest.NormaliseRow` | app.py:96-121 | the append/extend loop builds exactly the record `Normalised` describes |
| `Ingest.NormaliseAll` | app.py:95-121 | one record per row, in row order, each the normalised row |
| `Ingest.StudentIdIsStripped` | app.py:98 | the stored id never starts or ends with whitespace. A string cell `s` gives `Strip(s)` and nothing else changes, so letter case is kept. A `None` cell gives `"None"`, a number `x` gives `Strip(numText(x))`, and a missing column gives `""` |
| `Ingest.StudentIdKeepsCase` | app.py:98 | the cell `" 21cs07 "` is stored as `"21cs07"`: stripped, not upper-cased |
| `Ingest.SubjectNamesAppend` | app.py:106 | the name comprehension keeps column order: the names of `a + b` are the names of `a` followed by those of `b` |
| `Ingest.SubjectNamesFromColumns` | app.py:106 | a name is listed exactly when some column contains `_Marks` and becomes that name once every `_Marks` in it is removed |
| `Ingest.MarksSubjectsTraceToColumns` | app.py:106-110 | every `_Marks` subject comes from a column containing `_Marks`, and its marks are the non-`None` cell of the rebuilt column `<name>_Marks` |
| `Ingest.MarksColumnsYieldSubjects` | app.py:106-110 | conversely, each column containing `_Marks` whose rebuilt column holds a non-`None` value gives that subject |
| `Ingest.RemoveTag` | app.py:106 | `(n + '_Marks').replace('_Marks', '')` is `n` whenever `n` does not itself contain `_Marks` |
| `Ingest.MarksColumnYieldsSubject` | app.py:106-110 | a column `Math_Marks` (any name without `_Marks` in it) whose cell is not `None` gives the subject `Math` with exactly that cell |
| `Ingest.MarksSubjectsInColumnOrder` | app.py:106-117 | for a row split into columns `a` then `b`, the subject list is the `_Marks` subjects of `a`'s columns, then those of `b`'s, then the items from the `subjects` cell |
| `Ingest.ParsedListAppended` | app.py:112-117 | when the `subjects` cell is a string that decodes to a list `items`, the subject list is exactly the `_Marks` subjects followed by `Wrapped(items)`: every item of the list, whole and in order (`WrappedAfter`) |
| `Ingest.ParsedEntriesOfList` | app.py:113-117 | a string `subjects` cell that decodes to a list adds exactly that list's items |
| `Ingest.Wrapped` | app.py:117 | no contract of its own: the decoded items as subject entries, specified by `WrappedAfter` |
| `Ingest.WrappedAfter` | app.py:117 | `extend` after any list of subjects of length m: the result has m more entries than there are items, and item k is at position m + k, unchanged |
| `Ingest.MarksBeforeParsed` | app.py:106-117 | every `_Marks` subject comes before every item taken from the `subjects` cell |
| `Ingest.MarksOnlyUnlessJsonList` | app.py:112-119 | the subject list is exactly the `_Marks`-derived list unless the `subjects` cell is a string that decodes to a non-empty JSON list. So a non-string cell, a malformed document or a decoded non-list adds nothing |
| `Ingest.Batch` | app.py:95-124 | no contract of its own: the filtered records of one file, specified by `IdentifiedCounts`, `IdentifiedAppend` and `Upload.Upload` |
| `Ingest.Identified` | app.py:124 | every record the filter keeps has a non-empty `studentId` |
| `Ingest.IdentifiedCounts` | app.py:124 | each record with a non-empty id is kept exactly as often as it occurs, and records with an empty id are dropped |
| `Ingest.IdentifiedAppend` | app.py:124 | the filter keeps relative order: filtering `a + b` gives the kept records of `a` and then those of `b` |
| `Ingest.IdentifiedUnchangedIff` | app.py:124 | the filter changes nothing exactly when every record has an id |
| `Results.Writes` | app.py:136-137 | no contract of its own: the `if student_id:` test and the `student_id.upper()` key; `LastFor`, `MergedAt` and `LastForIsLast` are stated with it |
| `Results.Put` | app.py:135-137 | no contract of its own: one step of the merge loop, which writes only a record with a non-empty id |
| `Results.Merged` | app.py:134-137 | no contract of its own: the store after the merge loop, tied to the reference `LastFor` by `MergedAt` |
| `Results.LastFor` | app.py:134-137 | the reference record for a key is a batch record that writes that key; there is none exactly when no record writes it |
| `Results.WrittenKeys` | app.py:134-137 | the keys a batch writes are exactly those with a last writer |
| `Results.MergeBatch` | app.py:134-137 | the merge loop leaves exactly the store `Merged` describes |
| `Results.MergedAt` | app.py:134-137 | after a merge each written key holds the last record of the batch that writes it. Every other key keeps its old value, and it is present exactly when it was |
| `Results.MergedKeys` | app.py:134-137 | the keys after a merge are the old keys plus the written ones |
| `Results.MergeKeepsOthers` | app.py:134-137 | a student the batch does not write is untouched |
| `Results.MergeIdempotent` | app.py:134-137 | merging the same batch twice gives the same store as merging it once |
| `Results.MergedRecordsFromBatch` | app.py:134-137 | every record a merge adds comes from the batch and has a non-empty id |
| `Results.WrittenKeysAreUpper` | app.py:137 | every key written by a merge is already upper-case |
| `Results.WrittenKeysAtMost` | app.py:134-140 | a batch of n records writes at most n students, so the reported count can exceed the number of students written |
| `Results.DuplicateIdsShareOneKey` | app.py:134-140 | ids `"cs01"` then `"CS01"` in one batch are two records but one student: the second replaces the first |
| `Results.LastForIsLast` | app.py:134-137 | a record that writes a key and is not followed by another writer of that key is the reference record |
| `Results.Lookup` | app.py:150-155 | whichever letter case the id is asked in, a lookup finds a record exactly when the upper-cased form of that spelling is a key, and then it returns the record stored there |
| `Results.LookupIgnoresCase` | app.py:151 | ids that differ only in letter case find the same result |
| `Results.LookupAfterMerge` | app.py:137-151 | after a merge, looking up any batch record's id in any letter case finds the last batch record with that upper-cased id |
| `Upload.Classify` | app.py:68-79 | a name has no extension exactly when it has no `.` |
| `Upload.ClassifyByExtension` | app.py:68-79 | for `prefix.ext`, `csv` in any letter case selects the CSV reader, `xls` or `xlsx` in any case selects the Excel reader, and anything else is unsupported; the prefix never matters |
| `Upload.Upload` | app.py:63-140 | an empty name, a name without `.`, an unsupported extension and a file with no identified row are each refused, and the store is left unchanged. Otherwise the reply counts every surviving record, duplicates included, and the new store is those records merged into the old one |
| `Upload.SkippedRowsNeverStored` | app.py:124-137 | a row whose id is empty after stripping never reaches the store |

## Left out

- HTTP plumbing is not modelled. This covers Flask routing, request and
  response objects, CORS and `jsonify`, the `'file' not in request.files`
  check (app.py:60-61), the `if file:` test (always true once the name is
  non-empty) and its 500 reply (app.py:141), and the status codes.
- `admin_login` is not modelled. It is a fixed shared-secret comparison and is
  not part of the data path.
- `load_results`, `save_results` and the start-up file creation are not
  modelled; they are file I/O and JSON serialisation. The store is a map passed
  into `Upload.Upload` and returned from it. A refused upload returns the map
  unchanged, matching the source, which loads and saves only after the
  empty-batch check.
- The tabular readers (`pd.read_csv`, `pd.read_excel`, `to_dict`) are not
  modelled. They are the parameter `read`, which gives the rows for each file
  kind. Their exceptions, a UTF-8 decoding failure, and the `except` branch
  that logs and replies with an error (app.py:126-128) are not modelled.
- `json.loads` is the parameter `decode`. It returns `None` for a malformed
  document (`JSONDecodeError`). Other exceptions it might raise are not
  modelled.
- `str()` of a number is the parameter `numText`. A string prints as itself
  and `None` prints as `"None"`. A `None` id cell therefore gives the id
  `"None"`, which survives the filter, as in the source.
- Cells are strings, numbers (`real`) or `None`. pandas' NaN for an empty cell,
  booleans and timestamps are not modelled. So an empty id cell that pandas
  reads as NaN, which the source stores under `"NAN"`, is outside the model.
- `str.strip`, `str.upper` and `str.lower` are modelled on ASCII only. Whitespace
  is space, `\t` to `\r`, and `\x1c` to `\x1f`. Unicode case mapping and
  Unicode whitespace are not modelled.
- A row with a repeated column name does not occur (it comes from a dict).
  `Get` returns the first match, and the lemmas that need distinct columns
  require them.
- `Upload.Upload`: the name without `.` is modelled as the outcome
  `MissingExtension`, a refusal with the store unchanged. In the source,
  `rsplit('.', 1)[1]` raises `IndexError` outside the `try`, so the request
  fails with an unhandled error. In both cases nothing is stored.
- `Results.Lookup`: the source tests `if result:` on the stored dict. Every
  stored record is a non-empty dict, so this is the same as a key test, and
  the model uses the key test.
- `Text.RemoveAll`: its contract does not give the value for a column that
  contains `_Marks` other than once at its end (such as `A_Marks_B`). The
  value is stated only for the ordinary `<name>_Marks` column, by
  `Ingest.RemoveTag`. The body scans left to right and does not rescan text it
  has produced, as `str.replace` does.
- Subject entries parsed from the `subjects` cell are kept as opaque JSON
  values. Their content is not checked, as in the source.
