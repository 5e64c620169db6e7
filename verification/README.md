# FE_ledger result-sheet extraction and reconciliation, in Dafny

FE_ledger reads a university result ledger (a PDF holding one block per student) and writes a
spreadsheet with one row per student. This project models the core of `pdf_extractor.py` as pure
Dafny functions and proves what that core promises.

The model has three stages.

- **Segmentation and identity fields** (`extract_tables_from_pdf`). A page's text is cut at every
  student header match. Each block runs from its header to the next header, or to the end of the
  page. The block yields the eight identity columns. These are PRN, seat number, name and mother's
  name, taken from the header groups, and four labelled fields searched for inside the block:
  semester, SGPA, credits earned/total and total credit points. Then come the subject columns
  parsed from the block.
- **Subject lines** (`parse_subjects_from_text`). The block's stripped lines are kept when they
  start with a subject code. Each kept line is split on whitespace runs and decomposed into nine
  attributes by the source's positional rules, which are anchored on the first grade token. The
  nine values are stored under `<prefix>_<ATTR>` keys. A key already in use gets the next free
  `key_i` name, so nothing is ever overwritten.
- **Reconciliation** (`save_to_excel`). Every record is filled up to the union of all keys, with
  `None` for the gaps. The duplicate-column rename pass runs next. The columns are then put in
  output order:
  1. the identity columns first;
  2. the other columns grouped by subject code, using the source's `startswith` and suffix
     tests;
  3. only the columns the table actually has.

  Every record becomes a row, and a row that repeats an earlier row's PRN is dropped.

Modules, one per component:

| module | file | models |
|---|---|---|
| `Wrappers` | `wrappers.dfy` | `Option` |
| `Seqs` | `seqs.dfy` | filter, map, flatten, distinctness, keep-first deduplication |
| `Text` | `text.dfy` | `strip`, `split`, `re.split(r'\s+')`, `isdigit`, `replace`, `str(int)` |
| `LexOrder` | `lexorder.dfy` | Python string ordering and `sorted()` on distinct strings |
| `Records` | `records.dfy` | the cell value (`str` or `None`), the record, the fixed column lists |
| `Subjects` | `subjects.dfy` | `parse_subjects_from_text` |
| `Segmenter` | `segmenter.dfy` | `extract_tables_from_pdf`, without the PDF library |
| `Columns` | `columns.dfy` | the column order of `save_to_excel` |
| `Reconciler` | `reconciler.dfy` | `save_to_excel`, without pandas' I/O |
| `Pipeline` | `pipeline.dfy` | extraction followed by saving |

Some inputs are parameters because the source gets them from code outside this model:

- **Header matches.** A header match is a datatype holding its start offset and its four groups.
  A page is its text plus the header matches found in it. `WellPlaced` states the only thing the
  model relies on: the matches of a left-to-right scan start at strictly increasing offsets
  inside the text.
- **Labelled searches.** These are a function from block text to the optional first group of
  each search. The model applies that function to the student's own block, as the source does.
- **Column order.** The order pandas gives the data frame's columns is a parameter called
  `enumeration`. It must list the key set once each. `Reconciler.SaveTableIgnoresEnumeration`
  proves that the saved table does not depend on this order.

## Model

| member | source | states |
|---|---|---|
| `Segmenter.BlocksTile` | pdf_extractor.py:31-33 | The student blocks of a page, concatenated, are exactly the page text from the first header on. They are contiguous and never overlap. Text before the first header belongs to no student. |
| `Segmenter.BlockHoldsOneHeader` | pdf_extractor.py:31-33 | No other header starts inside a student's block, so each block describes one student. |
| `Segmenter.Block` | pdf_extractor.py:31-33 | A block is never empty. It runs from its header to the next header's start, or to the page end for the last header. |
| `Segmenter.Identify` | pdf_extractor.py:25-51 | PRN and seat number are taken as matched. The name and the mother's name are stripped, and an absent mother's name is empty. Each labelled field is its first group when the search matched. Otherwise it falls back to its default: empty, except SGPA, which falls back to `N/A`. |
| `Segmenter.IdentitySurvives` | pdf_extractor.py:57-67 | Merging the subject columns after the identity columns never shadows an identity value, because every subject key holds an underscore and no identity column name does. |
| `Segmenter.StudentRecord` | pdf_extractor.py:57-67 | A student record has exactly the identity columns and the subject keys, and every subject key holds its parsed value. |
| `Segmenter.StudentAtSubjects` | pdf_extractor.py:30-67 | Besides the identity columns, a student record holds exactly the subject columns parsed from its own block, each with its parsed value. |
| `Segmenter.StudentLineStored` | pdf_extractor.py:30-67 | Every subject line with data in a student's own block reaches that student's record: each of its nine values is the cell under the name the subject parser gave it. |
| `Segmenter.StudentAtIdentified` | pdf_extractor.py:23-67 | Every student record has all eight identity columns. Its PRN is its own header's PRN, and its SGPA is the value found in its own block, or `N/A`. |
| `Segmenter.ExtractPage` | pdf_extractor.py:21-69 | A page yields exactly one record per header match. |
| `Segmenter.PageIdentified` | pdf_extractor.py:23-69 | The records of a page carry, in order, the PRNs of its header matches. |
| `Segmenter.EveryRecordIdentified` | pdf_extractor.py:13-72 | Over the whole document, record `i` carries the identity columns and the PRN of the `i`-th header match, counted page after page. |
| `Subjects.StrippedLines` | pdf_extractor.py:82-87 | There is one line per newline-separated piece of the stripped block, in order. Line `i` is piece `i` stripped. |
| `Subjects.SubjectLines` | pdf_extractor.py:82-90 | A stripped line is kept exactly when it begins with three capitals, a hyphen and a digit. Every kept line is stripped and comes from the block. |
| `Subjects.SubjectLinesCounts` | pdf_extractor.py:82-90 | A line of subject-code shape occurs among the selected lines exactly as often as among the block's stripped lines. No other line occurs. |
| `Subjects.SubjectLinesOrder` | pdf_extractor.py:82-90 | The selected lines are the stripped lines at the increasing positions whose line has subject-code shape, and at no other position. |
| `Subjects.SelectedByHead` | pdf_extractor.py:89 | The subject-line test reads only the first five characters, since the pattern has no end anchor. Lines that agree on them are selected alike, and appending text never deselects a line. |
| `Subjects.ColumnPrefix` | pdf_extractor.py:104-114 | A code holding `_TW` anywhere has each non-overlapping `_TW` found scanning left to right removed, and one `_TW` put back at the end. Any other code is used verbatim. |
| `Subjects.TermWorkPrefix` | pdf_extractor.py:104-112 | A term-work code of the usual shape `<base>_TW` keeps its own name as the prefix. |
| `Subjects.Marked` | pdf_extractor.py:173-189 | A stored CCE, ESE or TW value has the same non-star characters as its token. It starts with a star exactly when the token does, and holds no other star. |
| `Subjects.DropStar` | pdf_extractor.py:156-159 | The total loses exactly one leading star, and is otherwise unchanged. |
| `Subjects.FirstGrade` | pdf_extractor.py:130-136 | The grade search finds the first token, counting from the subject code, that is one of the eleven grade tokens. It finds nothing when no token is a grade. |
| `Subjects.ValueIndicesSelect` | pdf_extractor.py:166-170 | The tokens at the collected value positions are exactly the value tokens of the window, in order. A value token is digits or `---` once its stars are removed. |
| `Subjects.Graded` | pdf_extractor.py:138-189 | With a grade at position `g > 0`, GRD is that token and ERN_CRD the token before it. The grade and credit points are digits or `N/A`. CCE, ESE and TW are value tokens or `N/A`. |
| `Subjects.Ungraded` | pdf_extractor.py:191-216 | The fallback passes the grade through, leaves TOT, CRD, ERN_CRD, GRD_PNT and CRD_PNT at `N/A`, and sets CCE, ESE and TW either all to value tokens or all to `N/A`. |
| `Subjects.Decompose` | pdf_extractor.py:117-216 | A grade attribute is a grade token or `N/A`. The grade and credit points are all digits or `N/A`. CCE, ESE and TW are value tokens or `N/A`. |
| `Subjects.GradeAnchored` | pdf_extractor.py:138-189 | With the first grade at position `g > 0`, the attributes are fixed as follows. GRD is that token. GRD_PNT and CRD_PNT are the next two tokens when they are digits. ERN_CRD, CRD and TOT are the three tokens before it, with TOT losing one leading star. CCE, ESE and TW are the first three value tokens of `parts[1..g]`. |
| `Subjects.CodeIsNotGrade` | pdf_extractor.py:130-138 | On a selected line the first token is never a grade, so a grade found on a selected line is always at a position `g > 0`. |
| `Subjects.NoGrade` | pdf_extractor.py:191-216 | Without a grade token, the six grade-anchored attributes stay `N/A`. CCE, ESE and TW are the first three value tokens of the whole line when there are three, and `N/A` otherwise. |
| `Subjects.TotalReadAsTermWork` | pdf_extractor.py:155-189 | On a nine-token line `code CCE ESE TOT CRD ERN GRD GP CP`, TW is read from the total's token, because value tokens are collected up to the grade. |
| `Subjects.FreshKey` | pdf_extractor.py:236-248 | The storage name is never already in use. It is the key itself whenever the key is unused. Otherwise it is `key_i` for an `i >= 1` such that every `key_j` with `1 <= j < i` is in use. |
| `Subjects.ClashIndex` | pdf_extractor.py:241-246 | A clashing key gets the least `i >= 1` whose name `key_i` is unused. |
| `Subjects.Store` | pdf_extractor.py:236-248 | Storing adds exactly one new key, holding the value, and keeps every earlier entry unchanged. The stored keys stay exactly the used keys, and every key holds an underscore. |
| `Subjects.StoredNames` | pdf_extractor.py:236-248 | The names a line's values are stored under, one per key, are pairwise distinct and none was in use before. |
| `Subjects.StoredNamesFresh` | pdf_extractor.py:236-248 | Name `j` is the fresh name of key `j` among the names in use before plus the names given to the earlier keys: the key itself when unused, otherwise the least unused `key_i`. |
| `Subjects.StoreAll` | pdf_extractor.py:236-248 | Storing a line's values adds one new name per key and keeps every earlier entry. Distinct keys that are all unused hold their values verbatim. |
| `Subjects.StoreAllAdds` | pdf_extractor.py:236-248 | The names added to the used keys are exactly the stored names, and nothing else. |
| `Subjects.StoreAllPlaces` | pdf_extractor.py:236-248 | Value `j` is stored under stored name `j`. |
| `Subjects.SubjectKeys` | pdf_extractor.py:223-233 | A line's nine keys are the prefix followed by each attribute suffix. They are pairwise distinct and each holds an underscore. |
| `Subjects.AddLine` | pdf_extractor.py:96-248 | A line with fewer than three tokens adds nothing. Any other line adds exactly nine new keys and keeps every earlier entry. Where each value goes is stated by `Subjects.LineStored`. |
| `Subjects.LineStored` | pdf_extractor.py:96-248 | A line with data stores its attribute `j` under the `j`-th stored name of its nine keys. |
| `Subjects.AddLines` | pdf_extractor.py:96-248 | Parsing the lines adds nine new keys per line with data and keeps every earlier entry. |
| `Subjects.AddLinesConcat` | pdf_extractor.py:96-248 | Parsing two batches of lines one after the other is parsing them all at once. |
| `Subjects.LinesKeepLine` | pdf_extractor.py:96-248 | A later line never overwrites an earlier one: the values of line `p` are still under their stored names after every line is parsed. |
| `Subjects.ParseSubjects` | pdf_extractor.py:78-250 | The result has exactly nine keys per selected line with at least three tokens, and every key holds an underscore. |
| `Subjects.ParsedLineStored` | pdf_extractor.py:78-250 | Every selected line with data has its nine values in the result, under the names the parser gave them after the lines before it. |
| `Subjects.FreshLineVerbatim` | pdf_extractor.py:235-239 | A line whose nine keys are unused stores its nine attributes under exactly those keys. |
| `Subjects.RepeatedLineSuffixed` | pdf_extractor.py:235-248 | A repeated subject line keeps the first copy under the plain keys and stores the second under `key_1`. Nothing is overwritten. |
| `Columns.OtherColumns` | pdf_extractor.py:303-309 | The non-identity columns of the table, strictly sorted, with none lost or added. |
| `Columns.SubjectOfPrefix` | pdf_extractor.py:313-316 | A column names a subject exactly when it holds an underscore. The code it names is a prefix of it. |
| `Columns.SubjectCodes` | pdf_extractor.py:311-320 | The codes are strictly sorted. Every underscored column contributes its code, and every code comes from some underscored column. |
| `Columns.SubjectGroup` | pdf_extractor.py:321 | A group holds exactly the columns that start with the code. This includes columns of a longer code that begins with it. |
| `Columns.Passes` | pdf_extractor.py:325-329 | The suffix passes take columns of the group only. |
| `Columns.PassesMembers` | pdf_extractor.py:325-329 | A column is taken by the suffix passes exactly when it is in the group and matches some suffix. |
| `Columns.PassesMultiplicity` | pdf_extractor.py:325-329 | In the suffix passes, a column occurs once per suffix it matches, times its occurrences in the group. |
| `Columns.GroupColumns` | pdf_extractor.py:325-333 | A laid-out group holds exactly the group's columns: no column is lost or invented. |
| `Columns.GroupMultiplicity` | pdf_extractor.py:323-333 | A column of a group without repeats is laid out once per attribute suffix it matches, or once if it matches none. |
| `Columns.FirstSuffix` | pdf_extractor.py:323-329 | The index of the first suffix a column matches, or the number of suffixes when it matches none. |
| `Columns.PassesBefore` | pdf_extractor.py:325-329 | A group column whose first matched suffix comes earlier is first taken before any take of a column whose first matched suffix comes later. |
| `Columns.GroupOrder` | pdf_extractor.py:323-333 | In a laid-out group, the first place of a column precedes every place of a column with a later first matched suffix, including a column matching none. |
| `Columns.UnmatchedLast` | pdf_extractor.py:325-333 | Every column matching no suffix comes after every column matching one. |
| `Columns.ZeroEndedUnmatched` | pdf_extractor.py:328 | The suffix test tries only the copy numbers 1 to 9. A column ending in `0`, such as a tenth copy `<key>_10`, matches no suffix and goes with the unmatched columns. |
| `Columns.FinalLayout` | pdf_extractor.py:337-341 | The final order is the identity columns the table has, in their fixed order, followed by the subject groups. |
| `Columns.FinalColumns` | pdf_extractor.py:303-341 | Every output column is a column of the table. |
| `Columns.FinalMembers` | pdf_extractor.py:303-341 | A column is in the final list exactly when the table has it, and it is an identity column or some subject code prefixes it. |
| `Columns.UnderscoredKept` | pdf_extractor.py:311-341 | A column holding an underscore is never dropped. |
| `Columns.UnprefixedDropped` | pdf_extractor.py:318-341 | A non-identity column that no subject code prefixes is silently dropped from the output. |
| `Columns.OrderIrrelevant` | pdf_extractor.py:306-341 | The final order depends only on which columns the table has, not on the order pandas lists them in. |
| `Columns.ErnCreditMatchesTwo` | pdf_extractor.py:323-329 | An earned-credits column also ends with the credits suffix, so it matches two suffixes. |
| `Columns.ErnCreditListedTwice` | pdf_extractor.py:318-341 | Every earned-credits column of the table appears at least twice in the final column list. |
| `Columns.SharedPrefixListedTwice` | pdf_extractor.py:320-335 | A column that two subject codes both prefix appears at least twice in the final column list. |
| `Reconciler.AllKeys` | pdf_extractor.py:259-261 | Every key of every record is in the union. |
| `Reconciler.Fill` | pdf_extractor.py:264-267 | A filled record has its own keys plus the union. It keeps its values, and every key it lacked holds `None`. |
| `Reconciler.FillAll` | pdf_extractor.py:263-267 | Every record is filled, and no record is added or lost. |
| `Reconciler.FillCorrect` | pdf_extractor.py:263-267 | After filling, every record has exactly the union of the keys. It keeps every value it had, and each added key holds `None`. |
| `Reconciler.FillIdempotent` | pdf_extractor.py:264-267 | Filling an already filled record changes nothing. |
| `Reconciler.RenameStep` | pdf_extractor.py:279-298 | A new column name changes only the seen set. A repeated name leaves the seen set as it was. |
| `Reconciler.RenamedIsIdentity` | pdf_extractor.py:273-298 | Over names that never repeat, the rename pass changes no record. The list it walks is built from a set, so it is a no-op. |
| `Reconciler.RepeatedNameMoved` | pdf_extractor.py:280-296 | Had a name repeated, its second sight would move every value under it to `<name>_2` and delete the name itself. This contradicts the "keep the first occurrence" comment beside it. |
| `Reconciler.Row` | pdf_extractor.py:341-342 | A row has one cell per column, and each cell is the record's value under that column. |
| `Reconciler.OutcomeCases` | pdf_extractor.py:253-356 | Nothing is saved exactly when there are no records. The PRN lookup of the deduplication fails exactly when there are records but none has a PRN. |
| `Reconciler.SaveTable` | pdf_extractor.py:253-356 | Nothing is saved exactly when there are no records. The PRN lookup fails exactly when there are records but no record has a PRN. Otherwise the built table is saved. |
| `Reconciler.BuildTable` | pdf_extractor.py:263-356 | The table's columns come from the data frame. It has at most one row per record, one cell per column in every row, and no two rows with the same PRN cell. |
| `Reconciler.PrnLeads` | pdf_extractor.py:304-341 | When the table has a PRN column, PRN is the first output column. |
| `Reconciler.SavedLayout` | pdf_extractor.py:263-356 | The saved table is the reordered columns, with one row per filled record and a row dropped when its PRN repeats an earlier one. |
| `Reconciler.SavedShape` | pdf_extractor.py:337-356 | The saved columns are the reordered columns, led by PRN. Every row has one cell per column, and no two rows share a PRN. |
| `Reconciler.SavedRowsFirst` | pdf_extractor.py:356 | Every saved row is the row of the first record with its PRN, so the first occurrence is the one kept. |
| `Reconciler.SavedRowsCover` | pdf_extractor.py:356 | No record's PRN is lost: some saved row carries it. |
| `Reconciler.SavedRowsPrns` | pdf_extractor.py:356 | Every saved row carries the PRN of some record. |
| `Reconciler.SavedRowsOrdered` | pdf_extractor.py:356 | The saved rows are, in record order, the rows of exactly the records that are the first with their PRN. |
| `Reconciler.KeptRowsOrdered` | pdf_extractor.py:356 | Deduplicating the record rows keeps, in order, the rows of exactly the records that are the first with their PRN. |
| `Reconciler.SaveTableIgnoresEnumeration` | pdf_extractor.py:270-342 | The saved table is the same whatever order the data frame lists its columns in. |
| `Reconciler.DedupStable` | pdf_extractor.py:356 | Deduplicating the saved rows again by PRN changes nothing. |
| `Pipeline.IdentifiedRecordsSaved` | pdf_extractor.py:253-356 | Records that all carry identity columns and PRNs are saved whenever there is at least one. The saved rows carry exactly their distinct PRNs. |
| `Pipeline.DocumentSaved` | pdf_extractor.py:9-72 | A document with a student header is always saved. Its rows carry exactly the distinct header PRNs, and a document without headers saves nothing. |
| `Text.Strip` | pdf_extractor.py:82-87 | A stripped string has no whitespace at either end. It is what remains once a whitespace-only head and tail are cut off. |
| `Text.StripIdempotent` | pdf_extractor.py:82-87 | Stripping twice is stripping once. |
| `Text.JoinSplit` | pdf_extractor.py:82 | Splitting at newlines and joining the pieces back gives the text again. |
| `Text.SplitWsKeepsText` | pdf_extractor.py:97 | The whitespace-split pieces of a line, concatenated, are exactly its non-whitespace characters. |
| `Text.SplitWsWords` | pdf_extractor.py:97-98 | On a non-empty stripped line every piece is non-empty, so the pieces are the line's words. |
| `Text.SplitWs` | pdf_extractor.py:97 | There is at least one piece, and no piece holds whitespace. |
| `Text.SplitWsSpaced` | pdf_extractor.py:97 | Non-empty words separated by non-empty whitespace runs split back into exactly those words. |
| `Text.Split` | pdf_extractor.py:82 | There is at least one piece, and no piece holds the separator. |
| `Text.SplitFirst` | pdf_extractor.py:314-316 | Splitting at `_` gives a second piece exactly when `_` occurs. The first piece is always a prefix of the string. |
| `Text.RemoveChar` | pdf_extractor.py:168 | The result lacks the removed character and holds every other character of the input. |
| `Text.RemoveCharCounts` | pdf_extractor.py:168 | Every character other than the removed one is kept as often as it occurs. |
| `Text.RemoveCharConcat` | pdf_extractor.py:168 | Removal works piece by piece: removing from `a + b` is removing from `a`, then from `b`, joined in that order. |
| `Text.RemoveCharSingle` | pdf_extractor.py:168 | A single character is dropped exactly when it is the removed one. With `RemoveCharConcat`, this fixes the order of the kept characters. |
| `Text.DeleteAllAbsent` | pdf_extractor.py:110 | Deleting a pattern that does not occur changes nothing. |
| `Text.DeleteAllSinglePass` | pdf_extractor.py:110 | The deletion is one left-to-right pass: it turns `X__TWTW` into `X_TW`, which still holds `_TW`. |
| `Text.DeleteAllTrailing` | pdf_extractor.py:110 | Removing `_TW` from `<base>_TW`, when the base holds none, gives back the base. |
| `Text.NatToStringInjective` | pdf_extractor.py:242-246 | Different collision numbers give different suffixes. |
| `LexOrder.SortUnique` | pdf_extractor.py:309 | Sorting gives a strictly sorted list with exactly the input's elements. On input without repeats, no element is lost. |
| `LexOrder.LessCharwise` | pdf_extractor.py:309 | One string sorts before another exactly when it is a proper prefix of it, or has the smaller character where they first differ. |
| `LexOrder.SortedUnique` | pdf_extractor.py:309-320 | Two strictly sorted lists with the same elements are equal, so `sorted()` is determined by the elements alone. |
| `LexOrder.SortUniqueIgnoresOrder` | pdf_extractor.py:306-309 | The sorted list depends only on which elements are listed. |
| `Seqs.DedupByCorrect` | pdf_extractor.py:356 | Keep-first deduplication leaves pairwise different keys. Every key of the input is kept. The result is the input taken at strictly increasing positions, each the first position of its key. |
| `Seqs.DedupByPositions` | pdf_extractor.py:356 | The kept elements are the input at its first-of-key positions, in order. |
| `Seqs.DedupByIdempotent` | pdf_extractor.py:356 | Deduplicating twice is deduplicating once. |

## Left out

- PDF reading (`pdfplumber`), the progress prints and the `try`/`except` wrappers are not
  modelled. The model takes each page's text as given. A page whose text extraction yields
  nothing is not modelled. Neither is the error path that returns an empty list, nor the
  per-line `except` that only prints.
- The regular expressions are not modelled as a regex engine:
  - The header pattern's matches are an input, the `HeaderMatch` list.
  - The four labelled searches are a function parameter.
  - The subject-line pattern is the predicate `Subjects.IsSubjectLine`, which is exact because
    every part after the first digit is optional.
- Whitespace and digits are the ASCII ones. Python's `str.isdigit`, `str.strip` and `\s` also
  accept other Unicode characters.
- The data frame's column order is a parameter, because pandas decides it. The saved table is
  proved not to depend on it.
- The data frame construction and the Excel write are not modelled. Nor is the caller's `None`
  return, beyond the `NoData` outcome.
- The in-place renaming of repeated output columns (lines 344-353) is not modelled. It writes
  into the array behind the pandas column index. As a result, the model's final column list
  keeps a column that the reordering lists twice, such as every earned-credits column.
- `save_to_excel` fills the callers' dictionaries in place. The model returns the table
  instead.
- Segmenter.ExtractPage: its own contract states only the number of records. The content of each
  record is stated by `Segmenter.PageIdentified` and `Segmenter.StudentAtIdentified`.
- Subjects.ParseSubjects: its own contract states the key count and the underscore in every key.
  The value under each name is stated per line by `Subjects.ParsedLineStored`.
- Segmenter.Identify: the SGPA search accepts runs of digits, dots and hyphens, so the
  placeholder `-----` is stored as it is, not replaced by a sentinel. The model follows the code.
