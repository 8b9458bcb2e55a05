# School-report PDF to SQLite extractor: a Dafny model

`pdf_extractor.py` reads school progress reports. For each document it does four things:

- finds the student's name and the reporting period in the page text, using two line-anchored regular expressions;
- finds the "Areas Of Assessment" table;
- turns every data row of that table into an 11-column row of `mesc_reports`;
- ingests a batch of files into a store that was first reset to empty.

This project models that pure core in Dafny 4.11 and proves what it computes.

PyMuPDF is replaced by abstract data (`Pdf`):

- a page text that either loads or raised;
- a table search that either found a sequence of tables or raised;
- each table either extracted a grid of cells or raised.

A cell is `Option<string>`, because the library yields `None` for empty cells. SQLite is replaced by a sequence of records. Whether one insert raises `sqlite3.Error` is an oracle, `accepts: Record -> bool`.

Modules, in dependency order:

- `Wrappers`: `Option`.
- `Pdf`: documents, pages, detected tables, rows and cells.
- `Scan`: the "first element that yields a value" scan behind both page loops.
- `Patterns`: hand-rolled matchers for the two regular expressions, and the search for the earliest line start (`re.MULTILINE` `^`) at which a pattern matches. Each matcher is proved equivalent to a regex-level description of the pattern's language and its greedy match.
- `MetadataExtraction`: `extract_metadata`.
- `TableExtraction`: `extract_tabledata`.
- `Assembly`: `extract_data`.
- `Ingestion`: the row mapping and error isolation of `write_sql`, the fold of `iterate_files`, and the reset of `setup_sql`.
- `Examples`: concrete inputs that pin down the edge cases.

## Behaviour worth noting

- Table marker. Line 129 tests list membership. A table qualifies when some cell of its first row equals "Areas Of Assessment" exactly, in any position. See `TableExtraction.IsAssessmentTable` and `Examples.MarkerIsCellMembership`.
- Empty row lists. Lines 78 and 80 test only `is None`. An empty `rows[2:]`, from a table of at most two rows, is therefore a result, and the document then writes nothing. See `Assembly.ExtractData` and `Examples.HeaderOnlyTableStoresNothing`.
- Short rows. For a row of fewer than six cells, `row[5]` at line 167 raises `IndexError`. That is not a `sqlite3.Error`, so neither handler at lines 170 and 173 catches it. It leaves the `with sqlite3.connect(...)` block of line 142, which rolls the document's transaction back. The whole document therefore contributes nothing, including the rows inserted before the short one. `iterate_files` catches the error at line 62 and goes on with the next file. See `Ingestion.WriteSql` and `Examples.ShortRowRollsBackDocument`.

## Model

| member | source | states |
|---|---|---|
| Scan.FirstSome | pdf_extractor.py:93-115 | The page loop returns nothing exactly when every page yields nothing. Otherwise it returns the value of the first page, in order, that yields one. |
| Scan.FirstSomeAppend | pdf_extractor.py:104-110 | Once an element yields a value, appending more elements does not change the result. |
| Patterns.Run | pdf_extractor.py:90 | A character-class run stays in bounds, every character in it is in the class, and it is maximal: it ends at the end of the text or at a character outside the class. |
| Patterns.DigitChar | pdf_extractor.py:103 | The digit character for n < 10 is an ASCII digit whose `int()` value is n. |
| Patterns.DigitRoundTrip | pdf_extractor.py:103 | Parsing an ASCII digit and rendering it back gives the same character. |
| Patterns.YearValue | pdf_extractor.py:103 | `int()` of a `\d{4}` capture is below 10000. |
| Patterns.YearText | pdf_extractor.py:91 | Rendering a year below 10000 gives four digits whose `int()` value is that year. |
| Patterns.YearRoundTrip | pdf_extractor.py:91 | Every four-digit text is the zero-padded rendering of its own value, so rendering and parsing are inverse. |
| Patterns.PeriodText | pdf_extractor.py:91 | A period line is exactly 36 characters up to its report digit. |
| Patterns.NameAt | pdf_extractor.py:90 | The name matcher at one position. `NameAtIff` characterises it as exactly the greedy match of the pattern there. |
| Patterns.NameAtSound | pdf_extractor.py:90 | Whatever the name matcher returns at a position is a greedy match of `([A-Z][a-z]+) ([A-Z]+)` there. |
| Patterns.NameAtComplete | pdf_extractor.py:90 | Any match of the name pattern at a position is found by the matcher. The firstname is the same, and the surname returned extends the given one. A greedy match is returned exactly. |
| Patterns.NameAtIff | pdf_extractor.py:90 | The name matcher returns (f, l) at a position if and only if (f, l) is the greedy match there: an uppercase letter, the maximal run of lowercase letters, one space, then the maximal uppercase run. No word boundary is required after the run. |
| Patterns.PeriodAt | pdf_extractor.py:91 | A matched period has semester ≤ 9, year ≤ 9999 and report ≤ 9. |
| Patterns.PeriodAtIff | pdf_extractor.py:91 | The period matcher returns (semester, year, report) at a position if and only if the text there starts with "Semester d, dddd - Progress Report d" for those values. |
| Patterns.SearchFrom | pdf_extractor.py:96 | The search reports the earliest line start, at or after the given position, where the pattern matches. If there is none, it reports nothing. |
| Patterns.FirstLineMatchUnique | pdf_extractor.py:96 | The earliest matching line start is unique. |
| Patterns.SearchName | pdf_extractor.py:96-102 | The captured firstname and surname belong to the languages of their groups. |
| Patterns.SearchNameIff | pdf_extractor.py:96-102 | `nm_search.search` yields (f, l) if and only if the earliest line start where the name pattern matches carries the greedy match (f, l). |
| Patterns.SearchNameNone | pdf_extractor.py:96-98 | The name search finds nothing if and only if the pattern matches at no line start, greedily or not. |
| Patterns.SearchPeriod | pdf_extractor.py:99-103 | The captured period values are in range. |
| Patterns.SearchPeriodIff | pdf_extractor.py:99-103 | `se_search.search` yields (semester, year, report) if and only if the earliest line start with a period line carries those values. |
| Patterns.SearchPeriodNone | pdf_extractor.py:99-101 | The period search finds nothing if and only if no line starts with a period line. |
| MetadataExtraction.PageMetadata | pdf_extractor.py:94-110 | A page's metadata satisfies both patterns' ranges: a valid firstname and surname, semester ≤ 9, year ≤ 9999, report ≤ 9. |
| MetadataExtraction.PageMetadataIff | pdf_extractor.py:94-110 | A page yields metadata m if and only if three things hold: its text loads; the earliest name-matching line carries m's names; and the earliest period-matching line carries m's period. |
| MetadataExtraction.PageMetadataNone | pdf_extractor.py:94-114 | A page is skipped if and only if its text raises, or one of the two patterns matches at no line start. |
| MetadataExtraction.ExtractMetadata | pdf_extractor.py:93-115 | The result is None if and only if no page qualifies. Otherwise it is the metadata of the first qualifying page in document order, and it is valid. |
| MetadataExtraction.ExtractMetadataIgnoresLaterPages | pdf_extractor.py:93-110 | Pages after the first qualifying page never affect the metadata. |
| TableExtraction.DropRows | pdf_extractor.py:130 | `rows[2:]` has max(0, N − 2) rows, and row i of the result is row i + 2 of the table. |
| TableExtraction.IsAssessmentTable | pdf_extractor.py:129 | A grid qualifies when it is non-empty and its first row has a cell equal to the marker. `Examples.MarkerIsCellMembership` pins the membership test down. |
| TableExtraction.ScanTables | pdf_extractor.py:127-130 | The loop over one page's tables. `ScanTablesSelects` characterises its result through the selected table. |
| TableExtraction.PageTable | pdf_extractor.py:124-133 | The body of the page loop. `FailedPageYieldsNothing` and `ExtractTableDataSelects` characterise it. |
| TableExtraction.ScanTablesSelects | pdf_extractor.py:127-130 | The inner loop returns rows if and only if some table is selected. That table qualifies, and every table before it extracted without raising and lacks the marker. The rows returned are that table's rows after the two header rows. |
| TableExtraction.ExtractTableData | pdf_extractor.py:119-134 | The result is None if and only if no page yields a table. Otherwise it comes from the first page that does. |
| TableExtraction.ExtractTableDataSelects | pdf_extractor.py:123-130 | Suppose table j of page i is selected and no earlier page yields a table. Then the result is that table's `rows[2:]`, with length max(0, N − 2). |
| TableExtraction.FailedPageYieldsNothing | pdf_extractor.py:124-133 | A page yields nothing when `find_tables` raises. It also yields nothing when some table raises before any table qualifies; later tables on that page are abandoned. |
| TableExtraction.ExtractTableDataIgnoresLaterPages | pdf_extractor.py:123-130 | Pages after the first page that yields a table never affect the result. |
| Assembly.ExtractData | pdf_extractor.py:72-83 | A result exists if and only if three things hold: the document opens, metadata is found, and a table is found. It holds exactly those metadata and rows; the rows may be empty. |
| Assembly.TablesIrrelevantWithoutMetadata | pdf_extractor.py:74-76 | Without metadata the document yields None, whatever its tables are. Table extraction is not attempted. |
| Ingestion.ToRecord | pdf_extractor.py:161-168 | An insert's parameters are the five metadata fields followed by `row[0]`..`row[5]`. Cells past index 5 are ignored. |
| Ingestion.Records | pdf_extractor.py:144-169 | There is one insert attempt per row, in row order. |
| Ingestion.Accepted | pdf_extractor.py:145-172 | The committed inserts are the attempted inserts that did not raise `sqlite3.Error`. Each record occurs as often as among the attempts when accepted, and not at all otherwise. |
| Ingestion.AcceptedSingleton | pdf_extractor.py:145-172 | A single attempt is kept exactly when its insert does not raise. |
| Ingestion.AcceptedAppend | pdf_extractor.py:144-172 | Filtering the attempts of two runs of rows gives the kept rows of the first run followed by those of the second. Together with the singleton case, this makes the committed rows the in-order filter of the attempts. |
| Ingestion.Contribution | pdf_extractor.py:141-174 | What a document's transaction keeps. Nothing is kept when a row is short. Otherwise there are at most as many records as rows, each accepted and carrying the document's metadata. `WriteSql` proves it equals what the writer commits. |
| Ingestion.WriteSql | pdf_extractor.py:141-174 | An `IndexError` escapes if and only if some row has fewer than six cells. Without one, every row is attempted in order and the inserts that did not raise are kept. With one, the rows before the short row were attempted and nothing is kept. |
| Ingestion.SetupSql | pdf_extractor.py:178-204 | Dropping and recreating the table leaves it empty. `RunBatch` states the consequence: the prior contents never reach the result. |
| Ingestion.FileRows | pdf_extractor.py:56-64 | What one file adds: nothing when extraction yields None; otherwise only accepted records carrying that file's metadata. |
| Ingestion.BatchRows | pdf_extractor.py:56-64 | What a sequence of files adds, file by file. `BatchRowsAppend`, `FailedFileSkipped` and `BatchAccepted` characterise it. |
| Ingestion.ExtractAll | pdf_extractor.py:56-58 | Every file is extracted, in order. |
| Ingestion.BatchRowsAppend | pdf_extractor.py:56-64 | Files are independent: a batch stores the rows of its first part, followed by the rows of the rest. |
| Ingestion.FailedFileSkipped | pdf_extractor.py:56-64 | A file that yields nothing, or whose writer raises `IndexError`, adds no rows. The batch then stores the same as if the file were absent. |
| Ingestion.IngestTwiceDuplicates | pdf_extractor.py:187-200 | The table has no key but the surrogate `id`. Ingesting the same file twice stores its rows twice. |
| Ingestion.BatchAccepted | pdf_extractor.py:145-172 | Only inserts that did not raise reach the store. |
| Ingestion.IngestFile | pdf_extractor.py:57-61 | One loop pass appends exactly what `write_sql` commits for the file, and nothing when extraction yields None. |
| Ingestion.IterateFiles | pdf_extractor.py:51-64 | The store after the loop is the prior store followed by each file's committed rows, in file order. |
| Ingestion.RunBatch | pdf_extractor.py:40-48 | After `setup_sql` and `iterate_files`, the store holds exactly the batch's committed rows, whatever it held before, and every stored row was accepted. |
| Examples.AreasOfYieldsSurnameO | pdf_extractor.py:90 | A line starting "Areas Of Assessment" yields the name ("Areas", "O"). |
| Examples.TwoDigitSemesterRejected | pdf_extractor.py:91 | "Semester 10, ..." does not match at that line. |
| Examples.TwoDigitReportReadsFirstDigit | pdf_extractor.py:91 | "... Progress Report 12" reads as report 1. |
| Examples.CoverPageMetadata | pdf_extractor.py:93-110 | A page with "Jane SMITH" on one line and "Semester 1, 2024 - Progress Report 2" on the next yields Jane, SMITH, 2024, semester 1, report 2. |
| Examples.MarkerIsCellMembership | pdf_extractor.py:129 | The marker qualifies a table in any cell of the first row. A cell that merely contains it does not qualify, and neither does the marker in a later row. |
| Examples.ReportYieldsOneRow | pdf_extractor.py:72-80 | A two-page report with a three-row assessment table yields the cover's metadata and the one data row. |
| Examples.ReportStoresOneRecord | pdf_extractor.py:144-169 | That report stores one record: the metadata followed by the row's six cells. |
| Examples.HeaderOnlyTableStoresNothing | pdf_extractor.py:78-80 | A two-row assessment table is still a result, with no rows, and the file stores nothing. |
| Examples.ShortRowRollsBackDocument | pdf_extractor.py:141-174 | A good row followed by a one-cell row stores nothing for the document. |

## Left out

- PyMuPDF (`pymupdf.open`, `get_text`, `find_tables`, `extract`) is abstract page data with failure flags. What text and tables a real PDF produces is not modelled.
- A page that fails to load while the document is iterated (lines 93 and 123 sit outside the per-page `try`) is not modelled. Such a failure would abandon the whole document through line 81; only `get_text`, `find_tables` and `extract` failures are per-page flags.
- The `TypeError` raised by the message-less `logging.exception()` at line 82 is not modelled as such. Its net effect, that the file is skipped by lines 62-64, is what `ExtractData` returning None gives.
- `Ingestion.WriteSql`: does not model a failure to open the connection, or a failure at commit (lines 142 and 173-174). Both abandon the document, like the short-row case.
- `Ingestion.SetupSql`: only its effect, an empty store, is modelled. A failure of the DDL script (lines 203-204) is not modelled, and the DDL text is not modelled.
- The oracle `accepts` is a fixed function of the record. An insert whose success depends on earlier inserts or on database state is not modelled; with only a surrogate `id` key, the schema gives no such dependence.
- Commit and rollback are modelled only as their outcome: a document either keeps its accepted rows or, when an exception escapes, none.
- File discovery and ordering in `main` (glob and reverse sort, lines 45-48) are filesystem I/O. `RunBatch` takes the files in the order given.
- Logging throughout.
- Python's `\d` also matches non-ASCII Unicode digits, and `int()` parses them. The model restricts digits to ASCII '0'-'9'.
- Python text is a sequence of code points; the model uses Dafny `char`, with no normalisation.
