# grade-hub core in Dafny

grade-hub turns PDF grade sheets into database tables and spreadsheets:

- **Upload.** It reads the first pages of a document and pulls the
  department, class, semester and course session out of the text. It picks
  the largest table, decides whether its first row is a header, and names
  every column after a fixed keyword table. Collisions get `_2`, `_3`, …
  suffixes. It then builds a preview: the four metadata columns, then the
  data.
- **Confirmation.** It applies optional renames to the preview and types
  every column as FLOAT or VARCHAR from the share of numeric cells. It
  coerces every cell for the insert, then derives the table name, the
  original file name and the export title.
- **Validator.** A separate helper folds the keys of raw rows onto `Name`,
  `Roll No`, `Marks`, `Grade` and `Course`. It recovers a roll number from
  the row's text when the row names a student but has none.

The model follows that structure, one module per concern:

| module | models |
|---|---|
| `Text` | the string operations the code relies on (`strip`, `lower`, whitespace collapse, `replace`, `split`, decimal numbers) |
| `Optional` | `Option` and `Result` |
| `Identifier` | `sanitize_identifier` |
| `Headers` | `HEADER_MAP` and `normalize_headers`: text normalisation, first-rule-wins classification, suffixing, the raw-to-canonical mapping |
| `Metadata` | the metadata fields: search text, first alternative wins, clean-up of the captured value. The regular-expression search is a parameter. |
| `Extraction` | pages, grids and candidate tables; the separate and the combined extraction passes |
| `Upload` | `allowed_file`, the choice of table, the header test, row shaping, the preview, and `upload_pdf` |
| `Confirm` | `confirm_import`: renaming, `is_num`, column types, cell coercion, table name, original file name, export name and title |
| `Validator` | `normalize_header` and `clean_and_validate_rows` |

Details of the code that are easy to misread, modelled as the code behaves:

- The header test needs `max(1, int(n*0.5))` distinct cells, i.e. half rounded down.
- A missing first-row cell becomes the header `None`, because `astype(str)` runs before the `None` test.
- In the combined pass, a page whose text extraction raises aborts the pass. The metadata is then empty and so is the table list.
- `is_num` matches a number only at the start of the value, so `12abc` counts as numeric.
- Text cells are inserted as read from the preview, unstripped.
- The six forced-text columns get `VARCHAR(500)` and other text columns get `VARCHAR(1000)`. So the forced columns get the narrower bound.

## Model

| member | source | states |
|---|---|---|
| `Text.CollapseWhitespace` | backend/app/utils/extractor.py:111 | the result is empty iff the input is, and starts with whitespace iff the input does; a first character that is not whitespace is kept |
| `Text.CollapseShape` | backend/app/utils/extractor.py:111 | the only whitespace left is single blanks, never two in a row, and every other character comes from the input |
| `Text.CollapseAppend` | backend/app/utils/extractor.py:111 | collapsing two texts whose seam is not inside a whitespace run is collapsing each and concatenating |
| `Text.StripCollapseJoin` | backend/app/utils/extractor.py:111 | after collapse and strip, any whitespace run between two pieces of text is exactly one blank |
| `Text.StripCollapseDropsEnds` | backend/app/utils/extractor.py:111 | after collapse and strip, whitespace at either end of the text leaves no trace |
| `Text.CollapseKeepsContent` | backend/app/utils/extractor.py:111 | the non-whitespace characters survive, in order |
| `Identifier.SanitizeIdentifier` | backend/app/utils/extractor.py:8-14 | the result is always a usable identifier: 1 to 64 word characters, not starting with a digit; blank input gives `col` |
| `Identifier.SanitizeIdentifierKeepsText` | backend/app/utils/extractor.py:11-14 | the stripped text stays in place: `c_` goes in front of a leading digit, non-word characters become `_`, and the result is cut at 64 |
| `Identifier.SanitizeIdentifierFixpoint` | backend/app/utils/extractor.py:8-14 | an identifier is left unchanged |
| `Identifier.SanitizeIdentifierIdempotent` | backend/app/utils/extractor.py:8-14 | sanitizing twice is sanitizing once |
| `Headers.NormalizeText` | backend/app/utils/extractor.py:143-145 | the result holds only `[a-z0-9 ]`, single blanks and no blank at the ends, and has the same words as the lower-cased cell with other characters blanked |
| `Headers.NormalizeTextDropsEnds` | backend/app/utils/extractor.py:143-145 | characters other than letters and digits at either end of a header leave no trace in its normal text |
| `Headers.NormalizeTextOfWord` | backend/app/utils/extractor.py:143-145 | a word of lower-case letters and digits is its own normal text |
| `Headers.NormalizeTextSeparatesWords` | backend/app/utils/extractor.py:143-145 | any run of characters other than letters and digits between two words becomes exactly one blank, and each side is normalised on its own |
| `Headers.FirstMatchingRule` | backend/app/utils/extractor.py:147-152 | the rule found matches, and no earlier rule does |
| `Headers.ClassifyFirstMatch` | backend/app/utils/extractor.py:146-152 | the first matching rule in declaration order gives the canonical name |
| `Headers.ClassifyNone` | backend/app/utils/extractor.py:146-153 | there is no canonical name exactly when no rule matches |
| `Headers.BaseName` | backend/app/utils/extractor.py:143-154 | a header's base name is always an identifier |
| `Headers.CanonsAreIdentifiers` | backend/app/utils/extractor.py:130-138 | every canonical name of the keyword table is an identifier |
| `Headers.BaseNameFallback` | backend/app/utils/extractor.py:153-154 | with no rule matching, the base name is the sanitized normalised text with blanks as `_` |
| `Headers.SearchOneWord` | backend/app/utils/extractor.py:149 | in a one-word text, a whole-word search finds exactly that word |
| `Headers.ClassifyOneWord` | backend/app/utils/extractor.py:147-152 | a one-word header matches a rule iff one of the rule's alternatives is that word |
| `Headers.OneWordBaseName` | backend/app/utils/extractor.py:143-154 | an alphanumeric header that is no keyword is named by its lower-case form |
| `Headers.ClassIsNoKeyword` | backend/app/utils/extractor.py:130-138 | `class` matches none of the seven rules |
| `Headers.FirstFreeIndex` | backend/app/utils/extractor.py:156-159 | the suffix found is free, and every suffix before it is taken |
| `Headers.SuffixedInjective` | backend/app/utils/extractor.py:159 | different suffixes give different names |
| `Headers.Disambiguate` | backend/app/utils/extractor.py:155-159 | the name is unused; it is the base when the base is free, else the first free `base_j` with `j >= 2` |
| `Headers.AssignNames` | backend/app/utils/extractor.py:141-160 | one name per header, none reserved, all distinct |
| `Headers.AssignNamesPrefix` | backend/app/utils/extractor.py:141-160 | a header's name depends only on the headers before it |
| `Headers.AssignNamesAt` | backend/app/utils/extractor.py:155-160 | each name is the disambiguation of its base against the names given before it |
| `Headers.NextAfterRun` | backend/app/utils/extractor.py:155-159 | after `base, base_2, …, base_n` the next name is `base_{n+1}` |
| `Headers.RepeatedBaseSuffixes` | backend/app/utils/extractor.py:155-160 | n headers with one base are named `base, base_2, …, base_n` |
| `Headers.ReservedIrrelevant` | backend/app/utils/extractor.py:155-160 | reserving names that neither the plain names nor any suffixed name hit changes nothing |
| `Headers.Canonicalize` | backend/app/utils/extractor.py:142-160 | the canonical sequence has one name per header and no duplicates |
| `Headers.CanonicalizePrefix` | backend/app/utils/extractor.py:142-160 | naming is left to right: a prefix of the headers gets a prefix of the names |
| `Headers.CanonicalizeAt` | backend/app/utils/extractor.py:142-160 | each header keeps its base name unless it is taken, else takes the first free suffix from 2 |
| `Headers.RepeatedHeaderSuffixes` | backend/app/utils/extractor.py:142-160 | a repeated header is numbered `_2`, `_3`, … in order |
| `Headers.LastWinsAt` | backend/app/utils/extractor.py:161 | a raw cell maps to the name of its last occurrence |
| `Headers.HeaderMappingLastOccurrence` | backend/app/utils/extractor.py:140-162 | the mapping's keys are the stripped cells, and each maps to the canonical name of its last occurrence |
| `Headers.NormalizeHeaders` | backend/app/utils/extractor.py:140-162 | the canonical names are one per header and distinct; the mapping covers every stripped cell and only maps to canonical names |
| `Metadata.SearchText` | backend/app/utils/extractor.py:111 | the searched text has single blanks and no blank at the ends, and the same words as the page text |
| `Metadata.SearchTextDropsEnds` | backend/app/utils/extractor.py:111 | whitespace before and after the page text does not change the searched text |
| `Metadata.SearchTextOfWord` | backend/app/utils/extractor.py:111 | a word without whitespace is searched as it is |
| `Metadata.SearchTextSeparatesWords` | backend/app/utils/extractor.py:111 | a whitespace run of any kind between two pieces of text becomes one blank: the searched text is the two searched texts joined by a blank |
| `Metadata.DropTrailingSeparators` | backend/app/utils/extractor.py:123 | only a trailing run of separators goes, all of it |
| `Metadata.CleanCapture` | backend/app/utils/extractor.py:122-123 | a cleaned value has no blank at the ends and does not end in a separator |
| `Metadata.CleanCaptureIsSlice` | backend/app/utils/extractor.py:122-123 | the cleaned value is a piece of the capture: whitespace before it, separators after it |
| `Metadata.CleanCaptureIdempotent` | backend/app/utils/extractor.py:122-123 | cleaning a cleaned value changes nothing |
| `Metadata.FirstHit` | backend/app/utils/extractor.py:119-121 | the alternative found matches and no earlier one does |
| `Metadata.FieldValue` | backend/app/utils/extractor.py:118-125 | a field value is clean: no blank at the ends, no trailing separator |
| `Metadata.FieldValueFirstWins` | backend/app/utils/extractor.py:119-125 | the first matching alternative decides the field, even with an empty capture |
| `Metadata.FieldValueDefault` | backend/app/utils/extractor.py:118-125 | a field no alternative matches stays `""` |
| `Metadata.ExtractFields` | backend/app/utils/extractor.py:109-125 | every field of the record is clean: no whitespace at the ends and no trailing separator |
| `Metadata.ExtractFieldsEmpty` | backend/app/utils/extractor.py:109-125 | on empty text every field keeps its default |
| `Extraction.MaxWidth` | backend/app/utils/extractor.py:102 | the frame is as wide as the longest row, and some row has that width |
| `Extraction.PadRow` | backend/app/utils/extractor.py:102 | short rows are padded with missing cells; a row has a value iff its padded form has one |
| `Extraction.RowsWithValues` | backend/app/utils/extractor.py:103 | exactly the rows with at least one value are kept |
| `Extraction.RowsWithValuesAppend` | backend/app/utils/extractor.py:103 | the rows of two grids are filtered separately and stay in order |
| `Extraction.RowsWithValuesOne` | backend/app/utils/extractor.py:103 | one row is kept, once, exactly when it has a value |
| `Extraction.GridToTableKeepsRows` | backend/app/utils/extractor.py:100-105 | a candidate's rows are the padded rows with a value, in order and with repeats |
| `Extraction.GridToTable` | backend/app/utils/extractor.py:100-105 | a grid gives a candidate iff some row has a value; the candidate is as wide as the widest row |
| `Extraction.GridToTableRows` | backend/app/utils/extractor.py:101-105 | a candidate's rows are exactly the padded rows that have a value |
| `Extraction.GridsToTablesAppend` | backend/app/utils/extractor.py:100-105 | the candidates of two lists of grids are those of each, in order |
| `Extraction.GridsToTablesOne` | backend/app/utils/extractor.py:100-105 | one grid gives its candidate, once, or nothing |
| `Extraction.GridsToTablesMembers` | backend/app/utils/extractor.py:100-105 | a table is a candidate of a list of grids iff some grid of the list gives it |
| `Extraction.PageCandidates` | backend/app/utils/extractor.py:96-99 | a page whose table extraction raises contributes nothing |
| `Extraction.PageCandidatesMembers` | backend/app/utils/extractor.py:96-105 | a page's candidates are exactly the tables its readable grids give |
| `Extraction.DetectTablesOne` | backend/app/utils/extractor.py:95-105 | one page contributes exactly its own candidates |
| `Extraction.DetectTablesMembers` | backend/app/utils/extractor.py:95-105 | a table is detected iff some page's extraction succeeds and one of its grids gives it |
| `Extraction.ExtractTablesMembers` | backend/app/utils/extractor.py:94-105 | a table is extracted iff one of the first pages up to the limit yields it |
| `Extraction.DetectTablesAppend` | backend/app/utils/extractor.py:95-105 | candidates are collected page by page, in page order |
| `Extraction.FirstPages` | backend/app/utils/extractor.py:94 | the first `n` pages, or all when there are fewer |
| `Extraction.ExtractTables` | backend/app/utils/extractor.py:94-105 | every table is a candidate; an unreadable document gives none |
| `Extraction.ExtractTablesIgnoresLaterPages` | backend/app/utils/extractor.py:94 | pages after the limit never matter |
| `Extraction.FailingPageContributesNothing` | backend/app/utils/extractor.py:96-99 | a failing page is skipped and the others are kept |
| `Extraction.JoinPageTexts` | backend/app/utils/extractor.py:90-91 | every scanned page adds a line break and its text |
| `Extraction.JoinPageTextsAppend` | backend/app/utils/extractor.py:90-91 | the text of two runs of pages is the first run's text followed by the second's |
| `Extraction.JoinPageTextsOne` | backend/app/utils/extractor.py:90-91 | one page adds `"\n"` and its text, `""` when it has none |
| `Extraction.ExtractMetadata` | backend/app/utils/extractor.py:16-42 | an unreadable document, or a failing text extraction, gives empty metadata |
| `Extraction.ExtractAll` | backend/app/utils/extractor.py:73-127 | only candidates are returned; an unreadable document or a failing text extraction gives empty metadata and no tables |
| `Extraction.ExtractAllAgreesWithSeparatePasses` | backend/app/utils/extractor.py:86-127 | the combined pass gives the separate pass's metadata, and its tables when no text extraction fails |
| `Extraction.TextFailureLosesTables` | backend/app/utils/extractor.py:87-107 | one failing text extraction loses a table the separate pass finds |
| `Upload.Extension` | backend/app/api.py:16 | the extension is the text after the last dot, absent when there is no dot |
| `Upload.AllowedPdfFile` | backend/app/api.py:15-16 | a name is allowed iff it ends in `.pdf` in any case |
| `Upload.SelectLargest` | backend/app/api.py:51 | the table picked has the most rows, then the most columns, and is the first such table |
| `Upload.StableMaxUnique` | backend/app/api.py:51 | that choice is unique |
| `Upload.FirstRow` | backend/app/api.py:53 | the first row as strings, with a missing cell shown as `None` |
| `Upload.FilledCount` | backend/app/api.py:56 | the count is zero iff no cell is filled |
| `Upload.DistinctOfDistinct` | backend/app/api.py:57 | a row without repeats has as many distinct values as cells |
| `Upload.DistinctRowIsHeader` | backend/app/api.py:55-59 | a first row without repeats and with a filled cell is a header |
| `Upload.RepeatedCellRow` | backend/app/api.py:55-59 | a row repeating one filled value is a header iff it has at most 3 cells |
| `Upload.MissingCellsRowIsData` | backend/app/api.py:53-59 | a first row of missing cells is data |
| `Upload.DefaultHeaders` | backend/app/api.py:64 | without a header row the columns are named `col1 … coln` |
| `Upload.DefaultHeadersDistinct` | backend/app/api.py:64 | the default names are distinct |
| `Upload.SplitHeader` | backend/app/api.py:60-65 | the header row, when there is one, plus the data make up the table; the raw headers are the stripped first-row strings or the defaults |
| `Upload.ShapeRowCell` | backend/app/api.py:84-86 | a cell inside both the row and the header width is that cell's value, stripped |
| `Upload.ShapeRow` | backend/app/api.py:67-86 | a shaped row has exactly one stripped cell per column; missing columns are `""` |
| `Upload.ShapeRowSameWidth` | backend/app/api.py:84-86 | a full-width row keeps its cells, stripped |
| `Upload.MetadataValues` | backend/app/api.py:90-93 | one metadata value per metadata column |
| `Upload.PreviewRows` | backend/app/api.py:88-93 | every preview row is the metadata values followed by the shaped data row |
| `Upload.Assemble` | backend/app/api.py:69-99 | the columns are the metadata columns then the canonical names; the preview shows the first 10 rows |
| `Upload.AssembleIsPreview` | backend/app/api.py:67-99 | an assembled preview is a faithful preview of the table |
| `Upload.FirstClash` | backend/app/api.py:90-93 | a clash is a metadata column among the canonical names; there is none iff no canonical name is a metadata column |
| `Upload.ClashFreeDistinct` | backend/app/api.py:90-93 | without a clash the preview's columns are distinct |
| `Upload.ReservedNamesDistinct` | backend/app/api.py:90-93 | names assigned around the reserved metadata names keep all columns distinct |
| `Upload.BuildPreviewAsWritten` | backend/app/api.py:48-99 | as written: no tables is an error, and otherwise it fails exactly when a header is named like a metadata column; success gives a preview of the largest table whose names and mapping are those of `normalize_headers` |
| `Upload.ReservedSchema` | backend/app/api.py:69-93 | one name per header, and none repeats or equals a metadata column |
| `Upload.BuildPreview` | backend/app/api.py:48-99 | corrected: the only failure is a document without tables; otherwise the result is a preview of the largest table, named with the metadata names reserved |
| `Upload.Upload` | backend/app/api.py:33-99 | each error happens exactly in its case, in the code's order; it succeeds iff the file is an allowed one and tables are found, and then gives a preview of the largest extracted table, its headers named with the metadata column names reserved |
| `Upload.SuffixedIsNoMetadataColumn` | backend/app/utils/extractor.py:159 | a numbered name is never a metadata column |
| `Upload.ReservedAgreesWithoutClash` | backend/app/api.py:69-93 | reserving the metadata names changes nothing when no header clashes |
| `Upload.BuildPreviewAgrees` | backend/app/api.py:48-99 | the corrected preview equals the code's whenever the code succeeds |
| `Upload.ClassHeaderBaseName` | backend/app/utils/extractor.py:143-154 | the header `Class` is named `class` |
| `Upload.ClassHeaderCanonical` | backend/app/utils/extractor.py:140-162 | a lone header `Class` gets the canonical name `class` |
| `Upload.ClassHeaderClash` | backend/app/api.py:90-93 | that name clashes with the metadata column `class` |
| `Upload.ClassHeaderReserved` | backend/app/api.py:90-93 | with the metadata names reserved, the header is named `class_2` |
| `Confirm.RenameColumns` | backend/app/api.py:143-144 | a mapped column takes its new name and the others keep theirs, in order |
| `Confirm.RenameLeavesOthers` | backend/app/api.py:143-144 | a map that names no column changes nothing; unmapped columns are never touched |
| `Confirm.RenameKeepsDistinct` | backend/app/api.py:143-144 | distinct new names that take no existing column's place keep the columns distinct |
| `Confirm.StartsNumberIff` | backend/app/api.py:152-155 | the unanchored match succeeds iff some prefix is a whole number literal |
| `Confirm.IsNumMeansNumberPrefix` | backend/app/api.py:148-155 | a value is numeric iff, stripped and without commas, it starts with a whole number literal |
| `Confirm.NumberWithSuffix` | backend/app/api.py:152-155 | `12abc` counts as numeric |
| `Confirm.CommaBeforeDigit` | backend/app/api.py:150 | `,5` counts as numeric: commas go after the strip |
| `Confirm.CommaBeforeSpace` | backend/app/api.py:150 | `, 5` does not: the blank behind the comma stays |
| `Confirm.MinusAlone` | backend/app/api.py:148-155 | a lone `-` is not numeric |
| `Confirm.CountWhere` | backend/app/api.py:162 | the count is at most the length, full iff all cells qualify, zero iff none does |
| `Confirm.CountWhereUpdate` | backend/app/api.py:162 | making one cell qualify never lowers the count |
| `Confirm.NumericCount` | backend/app/api.py:161-162 | the numeric count is full iff all cells are numeric and zero iff none is |
| `Confirm.DecideType` | backend/app/api.py:156-165 | the six identifier and metadata columns are `VARCHAR(500)`; any other column is FLOAT iff at least 60% of its cells are numeric, else `VARCHAR(1000)` |
| `Confirm.NoNumbersIsText` | backend/app/api.py:160-164 | a column without numeric cells, the empty one included, is text |
| `Confirm.ThresholdIsInclusive` | backend/app/api.py:162-164 | 3 numeric cells of 5 make a FLOAT column; 2 of 5 do not |
| `Confirm.DecideTypeMonotone` | backend/app/api.py:162-164 | making a cell numeric never turns a FLOAT column into text |
| `Confirm.CoerceCell` | backend/app/api.py:193-203 | an empty cell is NULL; a FLOAT cell is its parsed number, NULL when the parse fails; a text cell is kept as read |
| `Confirm.ColumnTypes` | backend/app/api.py:156-165 | one type per column, decided on the column's name and cells |
| `Confirm.CoerceRow` | backend/app/api.py:190-204 | each cell of a row is coerced by its column's type |
| `Confirm.CommitRows` | backend/app/api.py:183-204 | row count, row order and column order are kept; the column types are decided per column; each cell is coerced by its column's type |
| `Confirm.TextColumnsKept` | backend/app/api.py:194-203 | in a text column, exactly the empty cells become NULL and every other cell is inserted unchanged |
| `Confirm.PathName` | backend/app/api.py:169 | the path's name has no `/` and is never `.` |
| `Confirm.PathNameOfFile` | backend/app/api.py:225 | a plain file name, alone or in a directory, is the path's name |
| `Confirm.Stem` | backend/app/api.py:169 | the stem is a prefix of the name |
| `Confirm.StemDropsExtension` | backend/app/api.py:233 | the stem of `n.ext` is `n` |
| `Confirm.StemWithoutSuffix` | backend/app/api.py:233 | a name with no dot, or only a leading or trailing dot, is its own stem |
| `Confirm.TableName` | backend/app/api.py:169 | the table name is `student_marks_` followed by an identifier |
| `Confirm.TableNameOfFile` | backend/app/api.py:169 | `n.ext`, in any directory or none, is stored in the table `student_marks_` followed by the sanitized `n`: only the last extension and the directory are dropped |
| `Confirm.SavedTableName` | backend/app/api.py:169 | a saved upload `timestamp_n.ext` (the name given at api.py:42) is stored in the table named after `timestamp_n`, and because the name starts with digits, that table name always begins `student_marks_c_` |
| `Confirm.StripTimestamp` | backend/app/api.py:227-230 | the result is a suffix of the name |
| `Confirm.StripTimestampOfSaved` | backend/app/api.py:227-230 | stripping undoes the `timestamp_` the upload puts in front |
| `Confirm.StripTimestampKeeps` | backend/app/api.py:227-230 | a name without a leading `digits_` is kept |
| `Confirm.OriginalFilenameRoundTrip` | backend/app/api.py:225-230 | the saved name, or the saved path alone, gives back the uploaded name |
| `Confirm.ExcelName` | backend/app/api.py:233 | the export name ends in `.xlsx` and has no directory part |
| `Confirm.ExcelNameOfFile` | backend/app/api.py:233 | `n.ext`, in any directory or none, is exported as `n.xlsx` |
| `Confirm.NonEmpty` | backend/app/api.py:247 | exactly the non-empty fields are kept |
| `Confirm.NonEmptyAppend` | backend/app/api.py:247 | filtering keeps the fields' order: a concatenation is filtered part by part |
| `Confirm.NonEmptyOne` | backend/app/api.py:247 | one field is kept exactly when it is not empty |
| `Confirm.TitleAllFields` | backend/app/api.py:244-248 | three non-empty fields give `d - c - s` |
| `Confirm.TitleSkipsMissing` | backend/app/api.py:244-248 | a missing class is skipped with its separator: `d - s` |
| `Confirm.TitleFallsBackToStem` | backend/app/api.py:244-248 | with every field missing or empty the title is the stem of the original name's last path component |
| `Confirm.TitleFromFields` | backend/app/api.py:244-248 | with some field given, the title is the given fields, in order, joined by ` - ` |
| `Confirm.TitleOfFile` | backend/app/api.py:225-248 | an upload of `dir/n.ext` with no fields is titled `n` |
| `Confirm.TitleStartsWithFirstField` | backend/app/api.py:244-248 | a title with a department starts with it |
| `Confirm.ConfirmImport` | backend/app/api.py:122-233 | a missing token or path is `missing_data`; otherwise it fails iff two renamed columns share a name; success commits the renamed frame's rows as `CommitRows` coerces them, with the table name, the original name, the export name and the title |
| `Validator.NormalizeHeader` | backend/app/utils/validator.py:4-7 | the result has no blank, no upper-case letter and no whitespace at the ends |
| `Validator.NormalizeHeaderDropsEnds` | backend/app/utils/validator.py:4-7 | whitespace around a header does not change its normal form |
| `Validator.NormalizeHeaderIdempotent` | backend/app/utils/validator.py:4-7 | normalising twice is normalising once |
| `Validator.NormalizeHeaderOnlyBlanks` | backend/app/utils/validator.py:7 | inside a header, only blanks become `_` and letters are lower-cased |
| `Validator.Cleaned` | backend/app/utils/validator.py:22 | strings are stripped, other values kept |
| `Validator.HasSubIsContains` | backend/app/utils/validator.py:23-31 | the substring test finds a word iff it occurs somewhere in the key |
| `Validator.KeyFor` | backend/app/utils/validator.py:19-35 | a key goes to one of the five common keys or stays itself |
| `Validator.Route` | backend/app/utils/validator.py:23-35 | the rules on the lower-cased key give a common key or the raw key |
| `Validator.RouteByContains` | backend/app/utils/validator.py:23-35 | the first rule whose word occurs in the key decides: `name`, then `roll`/`reg`, `mark`/`score`, `grade`, `course`/`subject`; a key with none of them stays the raw key |
| `Validator.KeyForByContains` | backend/app/utils/validator.py:18-35 | a raw key whose stripped lower-case form holds `name` becomes `Name`; one holding none of the words is kept as it is |
| `Validator.CommonKeysStay` | backend/app/utils/validator.py:23-31 | each of the five common keys maps to itself |
| `Validator.UnifyKeys` | backend/app/utils/validator.py:18-35 | the row's keys are exactly those that its non-empty raw keys map to |
| `Validator.UnifyLastWins` | backend/app/utils/validator.py:18-35 | the last pair mapped to a key decides that key's value |
| `Validator.FirstDigitRun` | backend/app/utils/validator.py:39-41 | the search finds the leftmost run of at least 3 digits, up to 10 of them, and fails iff there is no such run |
| `Validator.FirstDigitRunFinds` | backend/app/utils/validator.py:39-41 | a 3-to-10-digit number with no such run before it is what the search returns |
| `Validator.CleanRow` | backend/app/utils/validator.py:15-42 | only `Roll No` can differ from the key mapping, and only when the row names a student without a roll number, taking the number found in the row's text |
| `Validator.RecoveredRollIsDigits` | backend/app/utils/validator.py:37-41 | a recovered roll number is 3 to 10 digits; without a match the row is the key mapping |
| `Validator.ExtraKeyKept` | backend/app/utils/validator.py:33-35 | a key no rule claims is kept under its own name with its last value |
| `Validator.NoNameNoSearch` | backend/app/utils/validator.py:37 | a row without a name column gets no recovered roll number |
| `Validator.CleanAndValidateRows` | backend/app/utils/validator.py:9-43 | one cleaned row per raw row, in order |
| `Validator.CleanRowsAppend` | backend/app/utils/validator.py:14-43 | rows are cleaned independently of each other |

## Left out

- Characters are ASCII only. `lower`, `isalnum`, `isdigit`, `\s` and `\d` follow their ASCII meaning; Unicode case mapping and Unicode digits are not modelled.
- The regular-expression engine is out. Each metadata pattern is a `Matcher` parameter returning the first capture group. The keyword table's patterns are written out as their literal alternatives, matched as whole words on the normalised text.
- pdfplumber is out. A document is given as pages whose text and table extraction either succeed or raise.
- Python's `float()` is a parameter (`FloatParse`). No floating-point arithmetic is modelled.
- Flask request handling, file saving, the preview CSV, SQLite and the Excel writer are out. Their results are parameters, or they do not appear.
- `Confirm.DecideType`: the 0.6 threshold is compared exactly, as `5 * numeric >= 3 * max(1, n)`. Python divides in floating point; the two agree for every column shorter than about 10^15 cells.
- `Confirm.ExcelName`: the loop that numbers an existing export file (`_1`, `_2`, …) depends on the file system and is not modelled.
- `Confirm.ConfirmImport`: `rename_map` is taken as already parsed. JSON text that does not parse counts as no map; a map with non-string values is not modelled.
- `Confirm.ConfirmImport`: the database errors (`db_connect_failed`, `db_error`) and the export error are not modelled. An existing table with other columns is not modelled either.
- `Confirm.CommitRows`: requires distinct column names, so the two ways the code fails on a repeated name are not modelled apart. For a name outside the six forced-text names, `df[col]` is a frame with no `tolist`, and the type scan raises an uncaught error. For a forced-text name the scan never reads the column, and the `CREATE TABLE` of a new table fails with a duplicate column, which the code reports as `db_error`. `ConfirmImport` reports both as `DuplicateColumn`.
- `Confirm.PathName`: takes `/` as the only separator, as a POSIX path does. A Windows path is not modelled.
- `Headers.HeaderMapping`: the mapping is a Dafny `map`, so the insertion order of the returned dictionary is not modelled.
- `Upload.Upload`: models the upload with the metadata column names reserved, the corrected `Upload.BuildPreview`. The code as written can fail on a header named like a metadata column; `Upload.BuildPreviewAsWritten` models that failure.
- `Confirm.Stem`: follows `PurePath.stem` as in Python 3.13 and earlier, where a leading or a trailing dot makes no suffix.
- `Upload.Upload`: `secure_filename`, the timestamp, the saved path and the preview token are not modelled. The extraction runs on the given document.
- `Validator.CleanRow`: a row is a map, so key order is not modelled. Keys are strings; a non-string key of the dictionary is not modelled.
- `extract_tables_from_pdf` on its own is modelled by `Extraction.ExtractTables`. Its `getattr` on the configuration dictionary always falls back to 20, the same value as the configured one.

## Findings

| source | as written | input that shows it | evidently intended | confidence | as-written member | corrected member |
|---|---|---|---|---|---|---|
| backend/app/api.py:90-93 | The headers are named without reserving the metadata columns. The code then inserts `department`, `class`, `semester` and `course_session` with `DataFrame.insert`, which raises when the column exists, so the upload fails with a server error. | A largest table whose header row is `Class`, which is named `class`. `Department` or `Semester` do the same. | The upload produces a preview; a header named like a metadata column gets a `_2` suffix. | high, not executed | `Upload.BuildPreviewAsWritten`, `Upload.ClassHeaderClash` | `Upload.BuildPreview`, `Upload.ClassHeaderReserved`, `Upload.BuildPreviewAgrees` |
