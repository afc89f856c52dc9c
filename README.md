# Face-recognition attendance: database manager and CSV log formatter

This project models two parts of the face-recognition attendance application.

The data layer is `DatabaseManager`. It owns three SQLite tables:
- `students` (primary key `student_id`);
- the `vec_students` vector table, holding one 512-float face embedding per student row and joined to it by rowid;
- `attendance` (primary key `attend_id`, with a foreign key `student_id` into `students`).

The model covers enrolling a student, listing students a page at a time in a whitelisted order, finding the k students whose stored embedding is nearest to a query embedding, recording attendance, and listing attendance newest first.

The CSV log formatter turns each log record that carries a `csv_data` dictionary into one fully quoted CSV row. It writes a header row before the first record, when asked to.

The tables are the fields of the class `DatabaseManagement.DatabaseManager`:
- `students`, a sequence of rows in rowid order;
- `vec`, a map from rowid to embedding;
- `attendance`;
- `nextRowid`, the next rowid to assign.

`Valid()` holds the schema's constraints:
- primary keys are unique;
- rowids are increasing and below the counter;
- `vec` has exactly one 512-wide embedding per student row;
- every attendance row references a stored student;
- every stored timestamp is the text of a datetime.

Every mutating method preserves `Valid()`, and every query is specified by functions of the tables:
- `ORDER BY` is a stable insertion sort over a comparison (`Sorting.SortBy`);
- `LIMIT ? OFFSET ?` is `Pagination.Page`;
- text columns compare under SQLite's BINARY collation (`TextOrder.TextLe`);
- a stored datetime is the text `str(datetime)` writes (`DateTimes.DateTimeText`).

The vector extension's distance function is a parameter `dist`, of which only `dist(a, b) >= 0` is assumed. The score is `1 - d²/2` (`Scores.Similarity`). `DatabaseScenarios.EuclideanSelfMatch` uses `Scores.SelfQueryScoresOne` and `Scores.SquaredDistanceToSelf` to show that the L2 distance meets the premise of `DatabaseScenarios.ExactMatchFound`. `Scores.SquaredDistanceExpands` and `Scores.SimilarityIsCosineForUnitVectors` only record why the score is the cosine similarity of unit embeddings. No other member uses them.

What is proved, in the system's own terms:
- A duplicate student id, or an embedding that is not 512 wide, rolls back the whole enrolment.
- An attendance row for an unknown student, or with a repeated id, is refused and changes nothing.
- A listing is the requested page of all stored rows, in the requested order.
- Reading pages 1, 2, … in turn returns every row once.
- Ordering attendance by the stored text is ordering by time.
- A similarity search returns `min(k, #students)` distinct stored students, with their own embeddings, best score first. No student left out is nearer than a student returned.
- A CSV row reads back to exactly its cells.
- The header appears in the first formatted output only.

The files are:
- `wrappers.dfy`: `Option` and `Result`.
- `text_order.dfy`: the BINARY collation.
- `sorting.dfy`: `ORDER BY`.
- `pagination.dfy`: `LIMIT`/`OFFSET`.
- `date_time.dfy`: datetimes and their text form.
- `similarity.dfy`: the score.
- `db_models.dfy`: the pydantic models.
- `database_manager.dfy`: the database manager.
- `log_formatters.dfy`: the CSV formatter.
- `scenarios.dfy`: clients that replay the repository's database tests.

## Model

| member | source | states |
|---|---|---|
| TextOrder.TextLeReflexive | src/database/database_manager.py:93 | every text sorts at or before itself under BINARY collation |
| TextOrder.TextLeTotal | src/database/database_manager.py:93 | any two texts are comparable, so `ORDER BY` a text column is a total order |
| TextOrder.TextLeAntisymmetric | src/database/database_manager.py:93 | two texts that each sort at or before the other are equal |
| TextOrder.TextLeTransitive | src/database/database_manager.py:93 | the collation order is transitive |
| TextOrder.TextLeConcat | src/database/database_manager.py:130 | for equal-width prefixes, the order of two concatenations is decided by the prefixes unless they are equal, and then by the rest |
| Sorting.Insert | src/database/database_manager.py:93 | inserting into a sorted result adds exactly one copy of the row (multiset) |
| Sorting.SortBy | src/database/database_manager.py:93 | `ORDER BY` returns a permutation of the rows (same length, same multiset) |
| Sorting.InsertSorted | src/database/database_manager.py:93 | under a total preorder, inserting into a sorted sequence keeps it sorted |
| Sorting.SortBySorted | src/database/database_manager.py:93 | under a total preorder, the result of `ORDER BY` is sorted |
| Sorting.KeptPrecedeDropped | src/database/database_manager.py:101-109 | after sorting and keeping the first n rows, every kept row sorts at or before every dropped row |
| Sorting.PrefixPrecedesRest | src/database/database_manager.py:101-109 | in a sorted sequence every element of a prefix sorts at or before every element outside it |
| Sorting.InsertDistinct | src/database/database_manager.py:106 | inserting a row whose key is new keeps the keys distinct |
| Sorting.SortByDistinct | src/database/database_manager.py:106 | sorting preserves distinctness of a key |
| Pagination.Page | src/database/database_manager.py:93 | `LIMIT l OFFSET o` returns min(l, remaining) rows, or all remaining rows when l is negative, each the row at its position after the offset |
| Pagination.PageIsSlice | src/database/database_manager.py:93 | with a non-negative LIMIT a page is the contiguous slice starting at the offset, at most LIMIT rows long |
| Pagination.PageBounds | src/database/database_manager.py:87 | page count begins where pages 1 to count − 1 end and spans page_size rows, clamped to the table |
| Pagination.FirstPagesArePrefix | src/database/database_manager.py:86-96 | pages 1..count of a positive page size, laid end to end, are exactly the first count·page_size rows, so no row is skipped or repeated |
| Pagination.PagesPastTheEndAreEmpty | src/database/database_manager.py:87 | a page whose offset `(page - 1) * page_size` passes the last row is empty |
| DateTimes.Digits | src/database/database_manager.py:140 | a zero-padded numeric field of `str(datetime)` has exactly the given width, all digits |
| DateTimes.ParseDigits | src/database/database_manager.py:133 | a w-digit field reads back as a number below 10^w |
| DateTimes.DigitsRoundTrip | src/database/database_manager.py:133 | reading a zero-padded field back gives the number written |
| DateTimes.DigitsOrder | src/database/database_manager.py:130 | equal-width zero-padded fields sort as text exactly as their numbers sort |
| DateTimes.DecimalOrder | src/database/database_manager.py:130 | numbers compare by their leading digits and then by their last digit, which is why padded digit strings sort numerically |
| DateTimes.ParseDateTime | src/database/database_manager.py:133 | reading a stored timestamp yields, when it succeeds, a valid datetime (month 1-12, day within the month, leap years, time fields in range) |
| DateTimes.FieldOfDigits | src/database/database_manager.py:133 | a written field followed by its separator reads back as its number and the rest of the text |
| DateTimes.SecondsOfText | src/database/database_manager.py:133 | the seconds part, with or without its `.ffffff` fraction, reads back as the seconds and microseconds written |
| DateTimes.DateTimeTextRoundTrip | src/database/database_manager.py:140 | reading back the text `str(datetime)` stores gives the same datetime |
| DateTimes.DateTimeTextInjective | src/database/database_manager.py:140 | two datetimes with the same stored text are equal |
| DateTimes.FieldOrder | src/database/database_manager.py:130 | text order of two timestamps with a separator after a leading field is decided by that field when the fields differ |
| DateTimes.FractionOrder | src/database/database_manager.py:130 | the optional microsecond fraction (absent when zero) sorts as text as the microseconds sort |
| DateTimes.SecondsOrder | src/database/database_manager.py:130 | the seconds with their optional fraction sort as text as the seconds, then the microseconds, sort |
| DateTimes.TextOrderIsChronological | src/database/database_manager.py:130 | for stored timestamps, text order (`ORDER BY attend_datetime`) holds exactly when the datetimes are in chronological order, both directions |
| Scores.ExactMatchScoresOne | src/database/database_manager.py:114 | distance 0 scores exactly 1 |
| Scores.SimilarityStrictlyDecreasing | src/database/database_manager.py:113-114 | a strictly larger non-negative distance scores strictly lower |
| Scores.SimilarityAntitone | src/database/database_manager.py:113-114 | a larger or equal non-negative distance never scores higher |
| Scores.SimilarityBounded | src/database/database_manager.py:114 | distances in [0, 2], those of unit vectors, score within [-1, 1] |
| Scores.SquaredDistance | src/database/database_manager.py:113 | the squared L2 distance is non-negative |
| Scores.SquaredDistanceExpands | src/database/database_manager.py:113 | the squared distance is a·a − 2a·b + b·b |
| Scores.SquaredDistanceToSelf | src/database/database_manager.py:113 | a vector is at distance 0 from itself |
| Scores.SimilarityIsCosineForUnitVectors | src/database/database_manager.py:114 | for unit vectors, 1 − d²/2 equals their dot product, the cosine similarity |
| Scores.SelfQueryScoresOne | src/database/database_manager.py:113-114 | querying with a stored embedding itself scores 1 |
| DatabaseManagement.Records | src/database/database_manager.py:93-96 | the listing projects each row to its id, name and image path, one record per row in order |
| DatabaseManagement.OrderingIsTotalPreorder | src/database/database_manager.py:89-93 | ordering by either whitelisted column is a total preorder |
| DatabaseManagement.NewestFirstIsTotalPreorder | src/database/database_manager.py:130 | `ORDER BY attend_datetime DESC` is a total preorder |
| DatabaseManagement.ByDistanceIsTotalPreorder | src/database/database_manager.py:101-109 | ordering candidates by distance to the query is a total preorder |
| DatabaseManagement.Nearest | src/database/database_manager.py:101-109 | the k-nearest query returns min(k, #candidates) rows |
| DatabaseManagement.StoredTimestampParses | src/database/database_manager.py:133 | a stored timestamp reads back to a datetime whose text is the stored text |
| DatabaseManagement.ToAttendanceRecord | src/database/database_manager.py:133 | the record built from a row carries a datetime whose text is exactly the stored text |
| DatabaseManagement.AttendanceRecords | src/database/database_manager.py:133 | one record per row, in row order; each copies its row's id, student and frame, and its datetime, written back as text, is exactly the stored timestamp |
| DatabaseManagement.NearestAreCandidates | src/database/database_manager.py:101-109 | every row the k-nearest query returns is a joined student-embedding row |
| DatabaseManagement.NearestInDistanceOrder | src/database/database_manager.py:101-109 | the returned rows are nearest first |
| DatabaseManagement.NearestDistinct | src/database/database_manager.py:101-109 | distinct students in give distinct students out |
| DatabaseManagement.NearestAreNearest | src/database/database_manager.py:101-109 | no candidate left out is nearer to the query than a row returned |
| DatabaseManagement.SearchHits | src/database/database_manager.py:98-125 | the hits are stored students with their own embeddings, each student at most once, scores non-increasing, and none left out is nearer than one returned |
| DatabaseManagement.ScoreRows | src/database/database_manager.py:111-123 | the loop builds one hit per fetched row, in order, with that row's data and embedding and the score `1 − d²/2` of its distance |
| DatabaseManagement.RecordsNewestFirst | src/database/database_manager.py:127-133 | records read from rows in descending text order are in descending chronological order |
| DatabaseManagement.AttendancePageRowsStored | src/database/database_manager.py:127-133 | every row on a page of the attendance listing is a stored row |
| DatabaseManagement.AttendancePageSorted | src/database/database_manager.py:130 | a page of the attendance listing is newest first |
| DatabaseManagement.PageOfSortedIsFromRows | src/database/database_manager.py:93 | every row on a page of an ordered query is one of the table's rows |
| DatabaseManagement.DatabaseManager.Candidates | src/database/database_manager.py:105-106 | the join `vec_students JOIN students ON rowid` yields one row per student, paired with that student's own embedding; every stored embedding takes part, and the rows come in increasing rowid order |
| DatabaseManagement.DatabaseManager.constructor | src/database/database_manager.py:36-61 | after table creation all three tables are empty and the schema invariant holds |
| DatabaseManagement.DatabaseManager.AddStudent | src/database/database_manager.py:64-84 | succeeds exactly when the id is new and the embedding is 512 wide; on success appends the row under the next rowid and stores its embedding under that rowid; on failure rolls back both tables; attendance is untouched; the schema invariant is kept |
| DatabaseManagement.DatabaseManager.GetAllStudents | src/database/database_manager.py:86-96 | raises exactly when order_by is not whitelisted; otherwise returns the requested page of all student records ordered by that column, sorted, every record stored, with the page length min(page_size, remaining) |
| DatabaseManagement.DatabaseManager.FindSimilarStudents | src/database/database_manager.py:98-125 | fails exactly for a query not 512 wide or a negative k; otherwise returns min(k, #students) hits, each a stored student with its own embedding and score 1 − d²/2, no student twice, best score first, and no student left out nearer than one returned |
| DatabaseManagement.DatabaseManager.GetAllAttendance | src/database/database_manager.py:127-133 | returns the requested page of the attendance rows ordered by stored text descending, each read back into a record, with the page length min(page_size, remaining), in descending chronological order |
| DatabaseManagement.DatabaseManager.AddAttendanceRecord | src/database/database_manager.py:135-149 | succeeds exactly when the attendance id is new and the student is stored; on success appends the row with the timestamp as `str(datetime)`; on failure changes nothing; students, embeddings and the rowid counter are untouched; the invariant is kept |
| LogFormatters.TrimLeft | src/utils/log_formatters.py:41 | removes exactly the leading whitespace: what is dropped is all whitespace and what is kept is a suffix that does not start with whitespace |
| LogFormatters.TrimRight | src/utils/log_formatters.py:41 | removes exactly the trailing whitespace, keeping a prefix that does not end with whitespace |
| LogFormatters.StripTrailingSpace | src/utils/log_formatters.py:41 | stripping text that neither starts nor ends with whitespace, followed by whitespace, gives back that text |
| LogFormatters.StripTerminatedRow | src/utils/log_formatters.py:41 | a written row, which starts and ends with a quote, strips back to the row without its CRLF |
| LogFormatters.StripTwoRows | src/utils/log_formatters.py:33-41 | header and data rows, each with its CRLF, strip to the two rows joined by a single CRLF |
| LogFormatters.StripTrims | src/utils/log_formatters.py:41 | stripped text neither starts nor ends with whitespace |
| LogFormatters.EncodeRowQuoted | src/utils/log_formatters.py:29 | a written row of at least one cell starts and ends with a double quote |
| LogFormatters.UnquoteCell | src/utils/log_formatters.py:29 | reading a quoted cell consumes at least its closing quote |
| LogFormatters.UnquoteEscaped | src/utils/log_formatters.py:29 | a cell with its quotes doubled, then a closing quote, reads back as the cell and the text after it |
| LogFormatters.DecodeLastCell | src/utils/log_formatters.py:29 | a quoted cell on its own reads back as that single cell |
| LogFormatters.DecodeCellThenMore | src/utils/log_formatters.py:29 | a quoted cell, a comma and more text read back as that cell followed by whatever the text reads as |
| LogFormatters.DecodeCellsOfEncoded | src/utils/log_formatters.py:29 | a non-empty written row reads back as its cells |
| LogFormatters.RowRoundTrip | src/utils/log_formatters.py:29-39 | every row written under QUOTE_ALL reads back to exactly its cells, including cells holding quotes, commas or line breaks |
| LogFormatters.RowFor | src/utils/log_formatters.py:38 | the data row has one cell per field, the field's value when csv_data has it and the empty string otherwise |
| LogFormatters.FormattedTextShape | src/utils/log_formatters.py:22-41 | with a non-empty field list, the output is the header row and the data row joined by one CRLF, or just the one that is present, or empty, never with a trailing line terminator |
| LogFormatters.FormattedTextTrimmed | src/utils/log_formatters.py:41 | the output never starts or ends with whitespace |
| LogFormatters.CsvFormatter.constructor | src/utils/log_formatters.py:9-20 | keeps the fields and the header flag, and counts the header as already written exactly when header is false |
| LogFormatters.CsvFormatter.Format | src/utils/log_formatters.py:22-41 | returns the stripped header row (if still due) followed by the data row (if the record has a csv_data dictionary), and afterwards the header counts as written |
| LogFormatters.HeaderOnlyOnFirstCall | src/utils/log_formatters.py:20-34 | a formatter created with header=True puts the header into its first output only |
| DatabaseScenarios.DuplicateIdRejected | tests/test_database/test_database_manager.py:62-76 | a second student under the same id is refused and the listing holds only the first |
| DatabaseScenarios.SortThree | tests/test_database/test_database_manager.py:107-120 | three rows c, a, b with a before b and c before neither sort to a, b, c |
| DatabaseScenarios.AlphabeticalOrder | tests/test_database/test_database_manager.py:104-120 | the records enrolled as Charlie, Alice, Bob sort as Alice, Bob, Charlie by name and by id |
| DatabaseScenarios.StudentsListedInOrder | tests/test_database/test_database_manager.py:100-120 | with Charlie, Alice and Bob enrolled in that order, listing by name and by id both return Alice, Bob, Charlie |
| DatabaseScenarios.PagesOfTen | tests/test_database/test_database_manager.py:85-98 | with fifteen students, pages one to three of ten hold 10, 5 and 0 records |
| DatabaseScenarios.ExactMatchFound | tests/test_database/test_database_manager.py:129-140 | for a distance under which every vector scores 1 against itself, searching with an enrolled student's own embedding and k = 1 returns that student with score exactly 1 |
| DatabaseScenarios.EuclideanSelfMatch | src/database/database_manager.py:113-114 | under a non-negative distance whose square is the squared L2 distance, every vector scores 1 against itself, which is the premise of ExactMatchFound |
| DatabaseScenarios.UnknownStudentAttendanceRejected | tests/test_database/test_database_manager.py:196-213 | attendance for a student never enrolled is refused and the listing is empty |
| DatabaseScenarios.EnrolOne | tests/test_database/test_database_manager.py:179-180 | enrolling one student in a fresh database stores its id and leaves attendance empty |
| DatabaseScenarios.OnlyRowListed | tests/test_database/test_database_manager.py:190-194 | a table holding one attendance row lists exactly that row on its first page |
| DatabaseScenarios.RecordReadBack | src/database/database_manager.py:133-140 | a record written as a row, its datetime stored as `str(datetime)`, reads back as exactly the same record |
| DatabaseScenarios.AttendanceRecorded | tests/test_database/test_database_manager.py:175-194 | attendance for an enrolled student is accepted and is the one record listed, equal to the record added |

## Left out

- Opening the connection, loading the vector extension and `close` are not modelled. `check_same_thread=False` and sharing the connection between threads are left out too. The model is a single-threaded value of the tables.
- DatabaseManagement.DatabaseManager.constructor: only a new (or `:memory:`) database is modelled. Opened on an existing file, `CREATE TABLE IF NOT EXISTS` keeps the stored students, embeddings and attendance, and the model does not start from such a state.
- Logging calls are left out: they only write messages. `src/utils/logs.py` is not part of this model. Its `setup_logging` configures the application's standard logging: one `'standard'` format-string formatter for the console and file handlers. Its `save_attendance_log` is an empty stub. None of the source files shown installs `CsvFormatter`.
- The JSON and float32 encodings of embeddings are left out. The model keeps embeddings as sequences of reals and compares lengths where the column checks them. Rounding to float32 is therefore not modelled.
- FindSimilarStudents: the distance function is an abstract parameter, of which only non-negativity is assumed. Its being the L2 metric of the stored vectors is not modelled; the `Scores` lemmas state the L2 facts separately. `DatabaseScenarios.EuclideanSelfMatch` connects them to `DatabaseScenarios.ExactMatchFound`. The vector extension's upper bound on k is not modelled either. A negative k and a query that is not 512 wide are modelled as errors, which the extension raises as exceptions.
- FindSimilarStudents: the query has no `ORDER BY distance`. The nearest-first order of the results comes from the vector extension's k-nearest cursor. The model takes that order and assumes the join with `students` preserves it, which SQLite does not promise.
- FindSimilarStudents: the order among equally distant candidates is their rowid order. The extension does not specify its tie order.
- GetAllStudents, GetAllAttendance: SQL leaves the order of rows with equal sort keys unspecified. The model fixes it to table order, that is rowid order for students and insertion order for attendance.
- GetAllStudents, GetAllAttendance: LIMIT and OFFSET are unbounded integers. SQLite's 64-bit limit on them is not modelled.
- Scores.SimilarityBounded holds only for distances in [0, 2], the distances between unit vectors. Nothing in the code normalises embeddings, so other scores can fall outside [-1, 1].
- AddAttendanceRecord: only timezone-naive datetimes are modelled. The `+HH:MM` suffix `str` writes for aware datetimes is left out.
- AddStudent: an insertion failing other than by the primary key or the embedding width takes the same rollback path in the source, but besides those two causes the model has none (the disk is never full and the connection never breaks).
- LogFormatters.RowFor: csv_data values are modelled as strings. The `str()` conversion the csv writer applies to other types is left out, and so is its writing of `None` as an empty cell.
- `logging.Formatter` machinery other than `format` (time formatting, exception text) is not modelled. The formatter's base-class initialisation does nothing the model observes.
- Default parameter values (`order_by="student_name"`, `page=1`, `page_size=20`, `k=5`) are not modelled. Callers pass every argument.
- The vision, camera and Qt view modules and `src/main.py` are outside the modelled core.
