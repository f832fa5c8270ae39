# Bulk CSV import: a Dafny model

This project models the bulk importer of UmaTools (`apps/bulkCore.php`). The
importer loads one CSV file into one MySQL table. It:

- checks that the file and the table exist;
- converts the file to UTF-8 when needed, working on a copy;
- reads it line by line and keeps only the cells that the table's format
  accepts;
- coerces each kept cell according to its column's SQL type;
- empties the table and inserts every record inside one transaction;
- reports how many rows went in.

The model has five modules:

- `Patterns`: the eight validation expressions the formats use (seven languages), as an
  enumeration with a matcher.
- `Schema`: the format registry (`get_csv_format`). It holds the columns of
  `races`, `courses`, `skills` and `characters`, in CSV order, each with its
  type, pattern and header label. Any other table has no columns.
- `Coercion`: the type switch. It covers the int family, `json`, `bit(1)`,
  float/double and text, including PHP's `(int)` cast on a 64-bit build.
- `Records`: the per-cell filter, the batch of records and array_combine.
  array_filter keeps keys, so a record is a list of entries that remember
  their CSV position.
- `Import`: the procedure itself.
  - `ImportRun` specifies one run as the events it causes on the file system
    and the database, plus the outcome it reports.
  - `Replay` gives the state those events leave.
  - The class `BulkCore` carries a run out step by step against the class
    `Host`, which stands for the file system and the database. Its method
    `ImportCsv` is proved to produce exactly the events and outcome of
    `ImportRun`.

`ImportRun` takes the table's format as a parameter, so the run lemmas hold for
any format. `ImportCsv` passes `SchemaFor(table)`. `ImportRun`, `ReadRecords` and
`ImportCsv` read with the corrected `<` bound of line 60 (`Records.Cells`); the
bound as written is modelled by `Records.CellsAsWritten` for the line-60 finding.

## Model

| member | source | states |
|---|---|---|
| Schema.SchemaFor | apps/bulkCore.php:166-256 | a table outside races, courses, skills and characters has the empty format (the `default` arm) |
| Schema.SchemaSizes | apps/bulkCore.php:166-256 | exactly the four supported tables have columns: 21, 10, 17 and 30 of them |
| Schema.ColumnNamesDistinct | apps/bulkCore.php:166-256 | no format names a column twice, so a column name identifies one CSV position |
| Schema.Names | apps/bulkCore.php:56 | the keys array_combine is given, one per column in format order. ColumnNamesDistinct proves them distinct in every format, and RowContents pairs each with the cell at its position |
| Schema.Labels | apps/bulkCore.php:61 | the label each cell is compared against, one per column in format order. HeaderRowIsDropped proves that a line made of them yields no record |
| Patterns.Matches | apps/bulkCore.php:168-216 | whether preg_match accepts a whole cell. IntegerPatternsAcceptNumerals and DecimalAcceptsFixedPoint state what the integer and float patterns accept |
| Patterns.IntegerPatternsAcceptNumerals | apps/bulkCore.php:168-215 | whatever `^[0-9]+$`, `^-?[0-9]+$` or `^\d{1,4}$` accepts is a non-empty digit run with at most a leading minus, and only the second admits the minus |
| Patterns.DecimalAcceptsFixedPoint | apps/bulkCore.php:216 | the float pattern, with `{,3}` read as `{0,3}`, accepts one or two integer digits, a point and up to three decimals, with or without a minus |
| Patterns.LegacyDecimalNeedsBrace | apps/bulkCore.php:216 | when PCRE2 reads `{,3}` as literal text, every cell the pattern accepts contains a `{` |
| Patterns.LegacyDecimalRejectsPlainValue | apps/bulkCore.php:216 | `0.5` passes the intended reading of the float pattern and fails the literal reading |
| Coercion.NotIntFamily | apps/bulkCore.php:72 | a type whose first letter is none of i, t, m, b is outside the int family (int, tinyint, mediumint, bigint as prefixes) |
| Coercion.IntRuleOnConcreteTypes | apps/bulkCore.php:71-74 | the integer types the formats use, `int(11) unsigned`, `int(11)`, `tinyint(4) unsigned`, `tinyint(2) unsigned` and `tinyint(1) unsigned`, select the integer cast, and so does `bigint(20)` |
| Coercion.OtherRulesOnConcreteTypes | apps/bulkCore.php:75-87 | `float(5,3)` selects the float cast, `bit(1)` the boolean test and `json` decoding |
| Coercion.StringRuleOnConcreteTypes | apps/bulkCore.php:71-87 | the text types the formats use, `varchar(255)`, `varchar(6)`, `varchar(1)` and `text`, match no arm and stay strings; so does `smallint(6)`, since `smallint` is not in the int family |
| Coercion.StringRuleByFirstLetter | apps/bulkCore.php:71-87 | a type starting with `v` or `s` matches no arm of the switch and stays a string |
| Coercion.CastFor | apps/bulkCore.php:69-88 | the switch arm a column type selects, first match wins. IntRuleOnConcreteTypes, OtherRulesOnConcreteTypes and StringRuleOnConcreteTypes state it for each of the twelve types the formats use (`bigint(20)` and `smallint(6)` are added for contrast), and NotIntFamily for the types outside the int family |
| Coercion.CapToLong | apps/bulkCore.php:73 | the cast result lies in the signed 64-bit range. Values inside are unchanged; values beyond it saturate at the nearer bound while they still fit a double; values that overflow a double to infinity give 0 |
| Coercion.IntCastOfNonNumericIsZero | apps/bulkCore.php:73 | a cell with no digit after its optional sign (the empty cell, `-`, `-abc`, `abc`) casts to 0, not to an error; leading whitespace aside |
| Coercion.IntCastOfNumeral | apps/bulkCore.php:73 | an optionally signed digit run casts to the number it spells, brought into the 64-bit range as CapToLong says |
| Coercion.HugeNumeralCastsToZero | apps/bulkCore.php:73 | a digit run too large for a double, with or without a minus, casts to 0 and not to a bound |
| Coercion.IntCast | apps/bulkCore.php:73 | PHP's `(int)` of a string. IntCastOfNumeral, IntCastOfNonNumericIsZero, HugeNumeralCastsToZero and IntCastRoundTrip state its values |
| Coercion.NatToString | apps/bulkCore.php:120 | `%d` of a count is a digit run whose value is that count, with no leading zero except for 0 itself |
| Coercion.IntCastRoundTrip | apps/bulkCore.php:73 | casting the `%d` text of a number, or its negation, gives the number back within the 64-bit range |
| Coercion.BitCastOfBoolWords | apps/bulkCore.php:78-79 | among the words the boolean pattern admits, the case-insensitive test for `true` or `1` holds for TRUE, true, True and 1 only |
| Coercion.BitCast | apps/bulkCore.php:78-79 | the case-insensitive test for `true`, or `1`. BitCastOfBoolWords states its value on every word the boolean pattern admits |
| Coercion.ReplaceQuotes | apps/bulkCore.php:76 | the replacement keeps the length and turns every `'` into `"`, leaving every other character unchanged |
| Coercion.Coerce | apps/bulkCore.php:69-88 | the value kind is decided by the type alone, in switch order (int family, then json, bit(1), float/double, text). An int cell gets IntCast of its text, a bit(1) cell BitCast of it, a json cell the decoded document of its quote-replaced text or null when decoding fails, and string and float cells keep their text |
| Coercion.JsonIgnoresQuoteStyle | apps/bulkCore.php:75-76 | a json cell written with single quotes coerces like the one written with double quotes. It becomes the document the decoder returns for the quote-replaced text, or null instead of failing when the decoder refuses it |
| Records.KeepAsWrittenAdmitsOneMore | apps/bulkCore.php:59-65 | the callback as written keeps exactly what the intended one keeps, plus any cell at the position equal to the column count |
| Records.KeepAsWritten | apps/bulkCore.php:59-65 | the filter callback with the `<=` bound as written. KeepAsWrittenAdmitsOneMore relates it to Keep, and CellsAsWritten gives the cells it keeps |
| Records.Keep | apps/bulkCore.php:59-65 | the filter callback with the corrected `<` bound. Cells gives the cells it keeps, and CellsAlwaysCombine proves they always combine |
| Records.Cells | apps/bulkCore.php:59-65 | a cell survives iff its position is a column, it differs from that column's label and the pattern accepts it; survivors keep their keys, in increasing order |
| Records.CellsAsWritten | apps/bulkCore.php:59-65 | with the `<=` bound, cells survive by the same rule, plus the cell at the position equal to the column count; keys still increase |
| Records.HeaderRowIsDropped | apps/bulkCore.php:61 | a header line (every cell equal to its column's label) keeps no cell under either bound, so it yields no record |
| Records.TypeAt | apps/bulkCore.php:70 | the type of a column position; past the last column the type is null, which selects the string cast |
| Records.CoerceEntry | apps/bulkCore.php:69-73 | one surviving cell under the type switch, keeping its key. The value it gets is the one Coerce states, and ValidatedIntegerCell and ValidatedBitCell give it for validated integer and bit(1) cells |
| Records.Coerced | apps/bulkCore.php:69-89 | the record of one line. BatchSelectsRows proves the k-th record is the coerced survivors of the k-th line that kept a cell, and CoerceRecord computes it by the loop |
| Records.ValidatedIntegerCell | apps/bulkCore.php:72-73 | a cell that passed an integer pattern in an int-family column becomes the signed number it spells, brought into the 64-bit range as CapToLong says |
| Records.ValidatedBitCell | apps/bulkCore.php:78-79 | a cell that passed the boolean pattern in a bit(1) column becomes true exactly for TRUE, true, True and 1 |
| Records.Batch | apps/bulkCore.php:58-91 | the batch never has more records than the file has lines |
| Records.BatchWellFormed | apps/bulkCore.php:66-90 | under the corrected `<` bound, every record of the batch is non-empty, and its keys increase and are positions of columns |
| Records.EmptySchemaKeepsNothing | apps/bulkCore.php:54-68 | under the corrected `<` bound, the empty format keeps no cell of any line, so the batch is empty |
| Records.Survivors | apps/bulkCore.php:66-68 | the positions of the lines that keep a cell, in increasing order: a line's position is listed iff a cell of it survives |
| Records.BatchSelectsRows | apps/bulkCore.php:58-91 | the k-th record is the coerced survivors of the k-th line that kept a cell, and there are as many records as such lines |
| Records.TargetColsOfWellFormed | apps/bulkCore.php:106-108 | for a record whose keys are columns, the target columns are the names at its keys, one per value, in key order |
| Records.TargetCols | apps/bulkCore.php:106-108 | the column names at the record's keys. TargetColsOfWellFormed states them for a record whose keys are columns |
| Records.ArrayCombine | apps/bulkCore.php:109 | array_combine succeeds iff there are as many keys as values |
| Records.CombineDistinct | apps/bulkCore.php:109 | with distinct keys, array_combine pairs the i-th key with the i-th value |
| Records.RowOf | apps/bulkCore.php:106-109 | the row array_combine returns for a record. RowContents proves it pairs the name at each kept position with that cell's value, in position order, and uses no other name |
| Records.RowContents | apps/bulkCore.php:106-109 | with distinct names, the row pairs the name at each kept position with that cell's value, in position order, and uses no other name |
| Records.TrailingCellBreaksCombine | apps/bulkCore.php:60 | under the `<=` bound, a line with more fields than columns makes array_combine fail: one more value than keys |
| Records.AsWrittenEmptySchemaKeepsFirstCell | apps/bulkCore.php:54-68 | under the `<=` bound, the empty format keeps the first cell of every non-empty line, and array_combine of no names and that one value fails |
| Records.CellsAlwaysCombine | apps/bulkCore.php:59-109 | under the `<` bound, every line of any length combines |
| Records.CoerceRecord | apps/bulkCore.php:69-89 | the coercion loop replaces every surviving cell by its coerced value under the same key |
| Records.ReadRecords | apps/bulkCore.php:58-91 | the read loop yields exactly the batch: lines without survivors skipped, the others coerced, in file order |
| Import.CommitOneTable | apps/bulkCore.php:114 | committing rows that all belong to one table appends them to it in order and leaves every other table alone |
| Import.Apply | apps/bulkCore.php:95-118 | the effect of one step on files and tables. Reload, ReplayInserts and CommitOneTable state what a run's steps do together |
| Import.Replay | apps/bulkCore.php:44-125 | the state a run's steps leave. ThrowRollsBack, CompletedStoresAcceptedRows and CopyIsDiscarded state it for each way a run can end |
| Import.WorkingPathRule | apps/bulkCore.php:132-150 | the input is read in place iff detected as UTF-8. ASCII, or a failed detection read as SJIS, gives the converted copy, and a write of zero bytes or a failed write stops the run |
| Import.Optimize | apps/bulkCore.php:132-150 | the encoding step and the path read afterwards. WorkingPathRule states which path is read, and PreambleRestoresFiles that the copy is discarded again |
| Import.Rows | apps/bulkCore.php:105-109 | the rows the loop inserts, one per record. InsertRunEvents proves the k-th insert carries the k-th record's row, and InsertRunAcceptsInOrder that the accepted ones are kept in batch order |
| Import.Answers | apps/bulkCore.php:110 | the answers the database gives the loop's calls, numbered on from the calls already made. FirstThrowEndsRun and InsertThrowRollsBack show the first throwing answer ends the loop, and CounterCountsAccepted that the counter counts the truthy ones |
| Import.InsertRun | apps/bulkCore.php:105-113 | the counter never exceeds the inserts made, and without a throw every record was inserted. InsertRunEvents, InsertRunThrown and InsertRunAcceptsInOrder tie its events to the rows and answers |
| Import.InsertRunTouchesOneTable | apps/bulkCore.php:105-113 | the loop only inserts, and only into the target table |
| Import.InsertRunStops | apps/bulkCore.php:103-117 | after the first insert that throws, no further record is inserted |
| Import.InsertRunEvents | apps/bulkCore.php:105-110 | the k-th insert of the loop is the k-th row, into the target table, with the k-th answer |
| Import.InsertRunThrown | apps/bulkCore.php:105-117 | the loop ends without a throw iff none of its answers throws. A throw is the last insert made, no answer before it throws, and its message is the loop's |
| Import.FirstThrowEndsRun | apps/bulkCore.php:105-117 | when the k-th answer is the first that throws, the loop makes k + 1 inserts and ends with that answer's message |
| Import.InsertRunAcceptsInOrder | apps/bulkCore.php:105-112 | without a throw, the accepted rows are exactly the rows answered truthy, in batch order |
| Import.CounterCountsAccepted | apps/bulkCore.php:110-112 | the counter equals the number of inserts answered truthy, and every accepted row belongs to the target table |
| Import.Reload | apps/bulkCore.php:99-118 | after truncate, begin, the inserts and commit, the table holds exactly the accepted rows; after rollback it is empty. Files and other tables are untouched |
| Import.Preamble | apps/bulkCore.php:95-98 | before the truncation a run only converts and discards files |
| Import.Data | apps/bulkCore.php:54-91 | under the corrected `<` bound, every record read for a table combines with its column names |
| Import.Loop | apps/bulkCore.php:105-113 | the insert loop of a run. LoopTouchesOneTable and LoopStopsAtFirstThrow state what it inserts and where it stops |
| Import.Load | apps/bulkCore.php:95-118 | the discard, the truncation and the transaction. RunShape gives its steps, and ThrowRollsBack and CompletedStoresAcceptedRows the state they leave |
| Import.LoopTouchesOneTable | apps/bulkCore.php:105-113 | the insert loop of a run writes only into the target table |
| Import.RunShape | apps/bulkCore.php:95-118 | a run that reaches the database is: file events, truncate, begin, the inserts, then commit, or rollback after a throw |
| Import.ReachedOutcomes | apps/bulkCore.php:44-125 | a run reaches the database iff its outcome is a finished load (whatever the count) or a database error |
| Import.ImportRun | apps/bulkCore.php:44-125 | one run, as its steps and outcome. ReachedOutcomes, EarlyFailuresChangeNothing and the lemmas after it state what each outcome leaves behind, and BulkCore.ImportCsv is proved to follow it |
| Import.EarlyFailuresChangeNothing | apps/bulkCore.php:45-50 | a missing file is reported first; a missing file or table stops the run before any effect |
| Import.UnknownFormatLeavesTablesAlone | apps/bulkCore.php:92-94 | under the corrected `<` bound, for a table the database has but the registry lacks, the run fails before truncating, and no table changes |
| Import.EmptyBatchTouchesNoTable | apps/bulkCore.php:92-94 | when no line keeps a cell, the run only converted the file: tables are untouched and a converted copy stays behind |
| Import.TruncateOnceBeforeBegin | apps/bulkCore.php:99-104 | a run that reaches the database truncates the table exactly once, immediately before beginning the transaction |
| Import.CounterWithinBatch | apps/bulkCore.php:119-120 | a completed run reports no more inserted rows than records, at least one record, and the target table |
| Import.ThrowRollsBack | apps/bulkCore.php:115-117 | a throwing insert ends in rollback and nothing is committed: the truncated table stays empty and the other tables are unchanged |
| Import.ThrowFailsRun | apps/bulkCore.php:115-117 | when the insert loop of a run that reaches the database throws, the run fails with the exception's message |
| Import.LoopStopsAtFirstThrow | apps/bulkCore.php:105-117 | the insert loop of a run stops after the first call the database throws on, with that exception's message |
| Import.InsertThrowRollsBack | apps/bulkCore.php:103-117 | when the k-th insert of a run is the first that throws, the run fails with its message after k + 1 inserts. The truncated table stays empty and every other table is unchanged |
| Import.CompletesUnlessInsertThrows | apps/bulkCore.php:103-124 | a run that reaches the database completes iff none of its inserts throws |
| Import.CompletedStoresAcceptedRows | apps/bulkCore.php:103-114 | a completed run leaves the table holding exactly the batch's rows answered truthy, in batch order, as many as reported. The transaction is closed and other tables are unchanged |
| Import.PreambleRestoresFiles | apps/bulkCore.php:95-98 | the conversion followed by the discard of the copy leaves the files as they were, and the copy is discarded iff the file was converted |
| Import.CopyIsDiscarded | apps/bulkCore.php:95-98 | a run that reaches the database leaves the file system as it found it |
| Import.CompletionTail | apps/bulkCore.php:120 | the success message continues after the count with `/` |
| Import.SuccessReportCarriesCount | apps/bulkCore.php:119-120 | the success report begins with the count: reading it as an integer gives the number of inserted rows |
| Import.ReportStartsWithDigitOnlyOnSuccess | apps/bulkCore.php:119-124 | the final message starts with a digit iff at least one row was inserted |
| Import.Message | apps/bulkCore.php:44-124 | the text each outcome ends the process with. ReportStartsWithDigitOnlyOnSuccess and SuccessReportCarriesCount state how the success report differs from the others |
| Import.Host.FileExists | apps/bulkCore.php:45 | true iff the path is in the modelled file set |
| Import.Host.TableExists | apps/bulkCore.php:48 | true iff the database has the table |
| Import.Host.DetectEncoding | apps/bulkCore.php:134-136 | the encoding the environment detects for the file, or none |
| Import.Host.ReadCsv | apps/bulkCore.php:52-53 | the CSV lines of the file |
| Import.Host.PutContents | apps/bulkCore.php:143-145 | the write reports the environment's result and creates the file only when it succeeds |
| Import.Host.Unlink | apps/bulkCore.php:158 | the file is gone afterwards, whether or not it existed |
| Import.Host.Truncate | apps/bulkCore.php:100 | the table is emptied |
| Import.Host.BeginTransaction | apps/bulkCore.php:104 | a transaction with no pending rows is open |
| Import.Host.InsertData | apps/bulkCore.php:110 | the answer is the database's answer to this call. An accepted row is queued inside a transaction and stored outside one |
| Import.Host.Commit | apps/bulkCore.php:114 | the pending rows are stored in order and the transaction is closed |
| Import.Host.RollBack | apps/bulkCore.php:116 | the pending rows are dropped and the transaction is closed |
| Import.CombineRecord | apps/bulkCore.php:106-109 | array_combine of a well-formed record's target columns and values succeeds and gives its row |
| Import.BulkCore.OptimizeFile | apps/bulkCore.php:132-150 | the method returns the working path of the encoding rule and leaves the state the conversion events give |
| Import.BulkCore.DiscardFile | apps/bulkCore.php:157-159 | the copy is removed and nothing else changes |
| Import.BulkCore.InsertAll | apps/bulkCore.php:105-113 | the loop's counter, its first throw and its effects are those of the insert-loop specification |
| Import.BulkCore.InsertNext | apps/bulkCore.php:105-113 | one turn extends the loop specification by one insert and its answer |
| Import.BulkCore.InsertRecord | apps/bulkCore.php:106-110 | one insert of the combined row, answered as the database answers this call |
| Import.BulkCore.InsertBatch | apps/bulkCore.php:102-118 | begin, the loop, then commit, or rollback after a throw, with the counter and effects of the specification |
| Import.BulkCore.LoadTable | apps/bulkCore.php:95-118 | discard, truncate and the transaction, with the outcome and effects of the load specification |
| Import.BulkCore.ImportCsv | apps/bulkCore.php:44-125 | the outcome, the final message and every effect on files and tables are those of ImportRun for the table's registered format |

## Left out

- The command-line entry point (`bulk.php`) is not part of this model.
- The database helper (`table_exists`, `truncate_table`, `insert_data` and the PDO handle) is not
  part of this model. Its behaviour is a parameter: the set of existing tables and the answer to
  the n-th insert (truthy, falsy or a thrown PDOException).
- Beginning, committing, truncating and rolling back never fail in the model. A PDOException from
  `beginTransaction` or `commit` would be caught like one from an insert; this is not modelled.
- `die` is modelled as the run's outcome plus the message it prints. Ending the process is not
  modelled.
- Encoding detection and conversion (`mb_detect_encoding`, `mb_convert_encoding`), `setlocale`,
  reading the file, and the md5-of-time name of the copy are parameters. The detected encoding,
  the copy's name and the write's byte count are given by the environment. The converted text
  itself is not modelled.
- CSV parsing by `SplFileObject` is a parameter that gives the lines of a file as lists of fields.
  Blank lines and the `[null]` row it yields for them are not modelled.
- `json_decode` is a parameter (a decoder that may fail). JSON syntax is not modelled.
- Coercion.Coerce: the float cast is not modelled, because floating point is out of scope.
  A float cell keeps its text.
- Coercion.IntCast: leading whitespace and exponent or fraction notation are not modelled. The
  cast reads a sign and the leading digits. Every integer column's pattern admits only digit runs.
  PHP reads a digit run beyond the 64-bit range as a double. The model keeps the exact value
  and applies to it the cap that double gets, or 0 when it overflows (CapToLong); the rounding
  itself is not modelled.
- Coercion.IntCastOfNonNumericIsZero: its requires admits a cell such as " 5", which PHP reads
  as 5 because it skips leading whitespace; the model's cast gives 0. Every integer column's
  pattern rejects whitespace, so no such cell reaches the cast.
- Import.Host.FileExists: `file_exists` is also true for a directory. The model's file set holds
  only regular files, so a directory path, which the source lets past line 45, is not modelled.
- Patterns.Matches: PCRE's `$` also matches before a final newline, so `^[0-9]+$` accepts "12\n".
  The model rejects every newline. The `.` of `^.*+$` and `^.*?$` likewise excludes a newline.
- Coercion.BitCast: `/^(true|1)$/i` also accepts "1\n" and "true\n", which the model's test
  rejects. No such cell gets past the model's filter, so the difference is never reached.
- Type against pattern coherence is not proved table-wide. It is stated per cell, with the
  column's pattern and type as preconditions (`ValidatedIntegerCell`, `ValidatedBitCell`).
- The header labels are kept as the source file carries them. Several coincide, which matters
  only for header detection.
- Import.ImportRun: models the program with the corrected `<` bound. As written, a line longer
  than the format, or any non-empty line of a table the registry does not know, keeps one cell
  too many. The program then truncates the table, begins the transaction and stops on
  array_combine's ValueError, which under PHP 8 is not a PDOException and escapes the catch,
  leaving the transaction open. That run is not modelled; the line-60 finding below covers it.
- Import.Host: the ghost `trace` records every effect for the proofs. It has no counterpart in
  the source.

## Findings

| source | as written | input that shows it | evidently intended | confidence | as-written member | corrected member |
|---|---|---|---|---|---|---|
| apps/bulkCore.php:60 | the bound `$index <= count($csv_format)` admits the position equal to the column count. That position has no column: its null label never equals the cell and its empty pattern matches everything, so the cell is kept | most damaging: a table the database has but the registry does not know. Its empty format keeps the first cell of every non-empty line, so the table is truncated and array_combine of no names and one value fails. Also a `races` line with 22 fields: its 22nd field is kept, and array_combine gets 21 names for 22 values and fails after the table was truncated | `$index < count($csv_format)`, so that only cells of real columns are kept | high, not executed | Records.AsWrittenEmptySchemaKeepsFirstCell and Records.TrailingCellBreaksCombine (with Records.CellsAsWritten) | Records.EmptySchemaKeepsNothing and Records.CellsAlwaysCombine (with Records.Cells) |
| apps/bulkCore.php:216 | the `fasten` pattern `^-?\d{1,2}\.?\d{,3}$` uses `{,3}`. PCRE2 before 10.43 (PHP 8.3 and earlier) reads it as four literal characters, not as a quantifier | the cell `0.5` is rejected, and only cells ending in `{,3}` are accepted | `\d{0,3}`: up to three decimals | medium (depends on the PCRE2 version), not executed | Patterns.LegacyDecimalRejectsPlainValue (with Patterns.MatchesDecimalLegacy) | Patterns.DecimalAcceptsFixedPoint (with Patterns.Matches) |
