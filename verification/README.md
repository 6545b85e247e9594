# xl-reader in Dafny

A model of the reading core of xl-reader, a PHP library that reads
spreadsheet rows from `.xlsx`/`.xlsm`/`.xltx`/`.xltm` archives and from
delimiter-separated text (`.csv`, `.tsv`). The model follows the source
file by file:

- `factory.dfy` (module `Factory`) is `Factory::createReader`. It dispatches on
  the file extension. For `.csv` files, `detectCommaOrSemicolon` scans the first
  line for the first unescaped `,` or `;` and skips quoted spans.
- `csv_reader.dfy` (module `CsvReader`) is the text reader. It holds the
  bijective base-26 column labels with the static label cache, a class with
  the reader's settings, `load`, `readRow` and `read` with its
  start/end row window.
- `xml_cursor.dfy` (module `XmlCursor`) is the `XmlReader` helper. A `Cursor`
  class stands over a sequence of XML reader events and provides `read`,
  `find` and `readValue`. A reference definition of the balancing end tag
  comes with it.
- `xlsx_formats.dfy`, `xlsx_cell.dfy`, `xlsx_parts.dfy` and `xlsx_reader.dfy`
  (modules `XlsxFormats`, `XlsxCell`, `XlsxParts`, `XlsxReader`) are the
  spreadsheet reader:
  - the built-in number formats, and the bracket-removing date classification
    of a cell format;
  - per-cell decoding: column, type, shared strings, dates, booleans and
    numbers;
  - scan functions for the workbook, shared-string, styles and worksheet parts;
  - the `XlsxReader` class, whose loaders, sheet selection and `read` are
    loops over a `Cursor`, each proved equal to its scan function.

`common.dfy` (module `Common`) holds the values the readers share. These are
PHP's nullable strings, the exceptions, decimal text, the `(int)` cast, and
PHP's insertion-ordered arrays as association lists.

Inputs that the source reads from the file system or a zip archive are
parameters:
- a `TextFile` (present, readable, lines);
- an `Archive` (what `ZipArchive::open` returns for it — true, false or an
  error code — the events of each present part, and the rows of each
  worksheet part);
- for the text reader, the `fgetcsv` tokenizer as a function.

The text reader's label cache (src/Reader/CsvReader.php:137-150) stores each
label under the index its loop ends with. That index is -1 for every
position, so the cache never answers a lookup. The model keeps this
(`CsvReader.LabelCache.Convert`). It changes no result, only the cost.

## Model

| member | source | states |
|---|---|---|
| Factory.LastDot | src/Factory.php:24 | `strrpos`: the last '.' of the name, no '.' after it, or -1 exactly when the name has no '.' |
| Factory.ExtensionSpec | src/Factory.php:24 | the extension holds no '.'; whenever the name has a '.', the name is exactly what precedes its last '.', then '.', then the extension; a name without '.' has the empty extension (corrected behaviour) |
| Factory.ExtensionWithoutDot | src/Factory.php:24 | as written, the name "xcsv" is dispatched as "csv" though it has no extension |
| Factory.ExtensionAgrees | src/Factory.php:24 | the written and the corrected extension agree on every name containing '.' |
| Factory.SkipEnd | src/Factory.php:76 | the quoted-span skip stops at the line end, at a '"' or after a backslash, and passes no '"' and no backslash before that |
| Factory.DetectFrom | src/Factory.php:64-80 | the detector always decides on "," or ";" |
| Factory.FirstDelimiterDecides | src/Factory.php:64-73 | without quotes, the first unescaped ',' or ';' decides the delimiter |
| Factory.NoDelimiterMeansComma | src/Factory.php:64-80 | from any position, a rest of the line with neither ',' nor ';' gives the comma, so the fallback also follows a skipped quoted span |
| Factory.AllQuotedExample | src/Factory.php:64-80 | a line whose only delimiters lie inside one quoted field, `"a,b;c"`, gives the comma |
| Factory.SkipReachesQuote | src/Factory.php:76 | the skip after an opening quote ends at the closing quote when no backslash comes between |
| Factory.QuotedSpanSkipped | src/Factory.php:74-77 | the ',' and ';' inside a quoted span do not count; detection resumes after the closing quote |
| Factory.CommaExample | src/Factory.php:64-80 | `a,b,"c;d",e` gives "," |
| Factory.SemicolonExample | src/Factory.php:64-80 | `a;b;"c,d";e` gives ";" |
| Factory.QuotedFieldExample | src/Factory.php:64-80 | `"a,b";c` gives ";" |
| Factory.EscapedCommaExample | src/Factory.php:64-80 | an escaped comma is passed over: `a\,b;c` gives ";" |
| Factory.DetectCommaOrSemicolon | src/Factory.php:48-84 | missing file, then unreadable file, are errors; otherwise the single loop builds a text reader with the delimiter `DetectFrom` decides on the first line |
| Factory.CreateReader | src/Factory.php:22-56 | the four spreadsheet extensions give the spreadsheet reader, tsv a tab reader, csv the detector's reader, or `FileMissing` for a file that does not exist and `FileUnreadable` for one that exists but is not readable, any other extension `UnsupportedFileFormat`; the extension is the corrected `Extension` (corrected behaviour), so a name without '.' is unsupported |
| CsvReader.LabelRoundTrip | src/Reader/CsvReader.php:145-147 | every position gets a non-empty 'A'..'Z' label that decodes back to the position |
| CsvReader.LabelOnto | src/Reader/CsvReader.php:145-147 | every non-empty 'A'..'Z' string is the label of the position it decodes to |
| CsvReader.LabelInjective | src/Reader/CsvReader.php:145-147 | distinct positions get distinct labels |
| CsvReader.LabelExamples | src/Reader/CsvReader.php:145-147 | 0 is A, 25 Z, 26 AA, 51 AZ, 701 ZZ, 702 AAA |
| CsvReader.ColumnIndexToString | src/Reader/CsvReader.php:145-147 | the loop builds `ColumnLabel(index)` and ends with index -1 for every non-negative position |
| CsvReader.LabelCache.Convert | src/Reader/CsvReader.php:139-150 | the label of a non-negative position, with the cache written only under the post-loop index |
| CsvReader.Labelled | src/Reader/CsvReader.php:126-135 | a row has as many entries as the record has fields |
| CsvReader.LabelledKeepsFields | src/Reader/CsvReader.php:126-135 | field i stays unchanged under the label of i, and the labels are pairwise distinct |
| CsvReader.WindowLength | src/Reader/CsvReader.php:114-120 | records are taken while non-empty and while their index stays within `end`, and the first one not taken breaks one of the two |
| CsvReader.Window | src/Reader/CsvReader.php:109-120 | row k has index start + k and record k labelled; no index passes `end`; rows exist exactly when the first record is non-empty and start <= end |
| CsvReader.CsvReader.constructor | src/Reader/CsvReader.php:41-48 | the reader keeps the file, the delimiter, the enclosure and the escape, defaulting to `,`, `"` and backslash |
| CsvReader.CsvReader.SetDelimiter | src/Reader/CsvReader.php:53-56 | sets the delimiter, nothing else |
| CsvReader.CsvReader.SetEnclosure | src/Reader/CsvReader.php:61-64 | sets the enclosure, nothing else |
| CsvReader.CsvReader.SetEscape | src/Reader/CsvReader.php:69-72 | sets the escape, nothing else |
| CsvReader.CsvReader.Load | src/Reader/CsvReader.php:77-86 | passes exactly when the file exists and is readable, with the missing-file error first |
| CsvReader.CsvReader.ReadRow | src/Reader/CsvReader.php:126-135 | the loop builds the labelled row of the record |
| CsvReader.CsvReader.YieldRows | src/Reader/CsvReader.php:112-120 | the do-while loop over the records yields exactly `Window` of them, labelled |
| CsvReader.CsvReader.Read | src/Reader/CsvReader.php:94-124 | a bad window is rejected exactly when start <= 0 or start > end; `read` makes no file check, so a file `fopen` cannot open ends in PHP's TypeError (`StreamTypeError`), not a `ReaderException`; it succeeds exactly on a valid window over a present, readable file, and then the rows are `Window` of the records after the `start - 1` skipped lines |
| XmlCursor.FindStop | src/Helper/XmlReader.php:21-34 | `find` reads at least one node and stops at the first NONE node or element of that name, or at the end |
| XmlCursor.Collect | src/Helper/XmlReader.php:52-70 | gathering text never moves the cursor back and stays within the events |
| XmlCursor.ReadValueAt | src/Helper/XmlReader.php:36-71 | `readValue` never moves the cursor back |
| XmlCursor.CollectBalanced | src/Helper/XmlReader.php:52-70 | the depth-counting loop stops at the end tag that balances the element and returns the text nodes before it, or null when none balances it |
| XmlCursor.ReadValueBalanced | src/Helper/XmlReader.php:36-71 | `readValue` on a non-empty element returns the text up to its balancing end tag and stands there, or null at the end |
| XmlCursor.Cursor.Read | src/Helper/XmlReader.php:28 | moves to the next node, reporting false once the events are exhausted |
| XmlCursor.Cursor.Find | src/Helper/XmlReader.php:21-34 | the loop leaves the cursor at `FindStop` and reports whether the current name is the one sought |
| XmlCursor.Cursor.ReadValue | src/Helper/XmlReader.php:36-71 | returns what `ReadValueAt` gives and leaves the cursor where it says |
| XlsxFormats.KeyOfInjective | src/Reader/XlsxReader.php:402 | two attribute values select the same style key exactly when they are the same text |
| XlsxFormats.KeyOfDecimal | src/Reader/XlsxReader.php:404-405 | the decimal text of n selects the integer key n |
| XlsxFormats.StyleOfDecimal | src/Reader/XlsxReader.php:405 | an `xf` with `numFmtId` n finds the code declared under key n, or null |
| XlsxFormats.CloseFrom | src/Reader/XlsxReader.php:408 | the run closes at a ']' not preceded by a backslash, with no line break before it |
| XlsxFormats.StripKeeps | src/Reader/XlsxReader.php:408 | removing runs keeps only characters of the code, so it adds no date character |
| XlsxFormats.StripExamples | src/Reader/XlsxReader.php:408 | "[Red]0" gives "0", "[h]:mm" gives ":mm", an escaped "\[h]" and an empty "[]" stay |
| XlsxFormats.StripPlain | src/Reader/XlsxReader.php:408 | a stretch without '[' is copied unchanged |
| XlsxFormats.PlainCode | src/Reader/XlsxReader.php:408 | a code without '[' is unchanged |
| XlsxFormats.CloseAt | src/Reader/XlsxReader.php:408 | the first unescaped ']' on the line closes the run |
| XlsxFormats.OneRun | src/Reader/XlsxReader.php:408 | a code with one bracketed run loses exactly that run |
| XlsxFormats.PlainNonDate | src/Reader/XlsxReader.php:407-415 | a code with no '[' and none of e, d, h, m, s, y is not a date |
| XlsxFormats.XfFormat | src/Reader/XlsxReader.php:403-421 | an `xf` records the code of its `numFmtId` and is typed "d" or null |
| XlsxFormats.ColourRunIgnored | src/Reader/XlsxReader.php:35 | code 38 is not a date: its e and d only occur inside "[Red]" |
| XlsxFormats.ElapsedHoursIsDate | src/Reader/XlsxReader.php:39 | code 46 "[h]:mm:ss" is a date by its minutes and seconds |
| XlsxFormats.ExponentIsNotDate | src/Reader/XlsxReader.php:22 | code 11 is not a date: 'E' is not a date character |
| XlsxFormats.MonthDayYearIsDate | src/Reader/XlsxReader.php:25 | code 14 is a date |
| XlsxFormats.GeneralIsNotDate | src/Reader/XlsxReader.php:407 | "General" contains 'e', yet an `xf` with `numFmtId` "0" is never a date |
| XlsxCell.Saturate | src/Reader/XlsxReader.php:318 | `(int)` keeps a 64-bit value and clamps anything outside |
| XlsxCell.ColumnOf | src/Reader/XlsxReader.php:282 | the reference minus as many trailing characters as the row text has; "" for a null reference, one no longer than the row text, or an empty row text (`substr` with length `-0`) |
| XlsxCell.IntegerRoundTrip | src/Reader/XlsxReader.php:311-323 | an integer cell's decimal text reads back as that integer |
| XlsxCell.DecimalBodyIff | src/Reader/XlsxReader.php:316 | the character-by-character scan that `is_numeric` is modelled by accepts exactly the strings with a digit, only digits and '.', and at most one '.' |
| XlsxCell.PlainCoercion | src/Reader/XlsxReader.php:311-323 | text becomes a float exactly when numeric with '.', an integer exactly when numeric without, and stays text exactly when not numeric |
| XlsxCell.SharedRoundTrip | src/Reader/XlsxReader.php:302-304 | shared index i yields entry i |
| XlsxCell.SharedOnlyByIndex | src/Reader/XlsxReader.php:302-304 | a shared cell is non-null only when its text is the decimal index of a non-null entry |
| XlsxCell.DateRoundTrip | src/Reader/XlsxReader.php:339-353 | a whole serial becomes the timestamp of that day |
| XlsxCell.DateExamples | src/Reader/XlsxReader.php:339-353 | 25569 is the epoch, 44166 and 1904-system 42704 are 2020-12-01, an empty date is timestamp 0 |
| XlsxCell.Date1904Shift | src/Reader/XlsxReader.php:344-346 | a 1904 serial is the 1900 serial 1462 days later |
| XlsxCell.BooleanCells | src/Reader/XlsxReader.php:308-310 | null, "" and "0" are false, any other text true |
| XlsxCell.SampleCells | src/Reader/XlsxReader.php:299-323 | "123" is 123, "123.456" a float, shared "0" the first string |
| XlsxCell.SampleInteger | src/Reader/XlsxReader.php:316-320 | a cell without type holding "123" is the integer 123 |
| XlsxCell.SampleFloat | src/Reader/XlsxReader.php:316-318 | a cell without type holding "123.456" is the float "123.456" |
| XlsxCell.SampleShared | src/Reader/XlsxReader.php:299-301 | shared index "0" is the first shared string |
| XlsxCell.ColumnOfRoundTrip | src/Reader/XlsxReader.php:282 | stripping the row number from a reference gives its column label back |
| XlsxCell.ColumnOfExample | src/Reader/XlsxReader.php:282 | "C4" with row "4" is "C", "AB12" with row "12" is "AB" |
| XlsxCell.ResolveRoundTrip | src/Reader/XlsxReader.php:284-289 | without `t`, the type of the format its `s` selects; a `t` attribute always wins |
| XlsxParts.TrimStartSpec | src/Reader/XlsxReader.php:445 | the left-trimmed text is a suffix of the text, every character dropped is one of `trim`'s six, and it does not start with one |
| XlsxParts.TrimEndSpec | src/Reader/XlsxReader.php:445 | the right-trimmed text is a prefix of the text, every character dropped is one of `trim`'s six, and it does not end with one |
| XlsxParts.TrimExample | src/Reader/XlsxReader.php:445 | " true\n" trims to "true" |
| XlsxParts.WorkbookSheets | src/Reader/XlsxReader.php:433-457 | without `date1904` elements the flag is kept and every `sheet` is appended in file order |
| XlsxParts.WorkbookFlag | src/Reader/XlsxReader.php:444-447 | a `date1904` element holding x sets the 1904 system exactly when x trims to "1" or "true" |
| XlsxParts.SharedNone | src/Reader/XlsxReader.php:364-366 | events with no `t` element add no shared string |
| XlsxParts.SharedItems | src/Reader/XlsxReader.php:360-369 | items `<si><t>s</t></si>` load as their texts, in order |
| XlsxParts.NumFmtPhase | src/Reader/XlsxReader.php:401-402 | each `numFmt` overrides the code of its id, in order |
| XlsxParts.XfPhase | src/Reader/XlsxReader.php:403-421 | inside `cellXfs`, each `xf` appends its classified format, in order |
| XlsxParts.StylesScan | src/Reader/XlsxReader.php:376-426 | from any starting table, a styles part of `numFmt` declarations then cell formats appends one format per `xf`, in order, each classified against the starting table overridden by the declarations |
| XlsxParts.StylesLoad | src/Reader/XlsxReader.php:376-426 | the same for the rendered styles part |
| XlsxParts.OverrideWins | src/Reader/XlsxReader.php:402 | the last declaration of an id decides its code |
| XlsxParts.OverrideKeeps | src/Reader/XlsxReader.php:402 | a built-in code no declaration touches is kept |
| XlsxParts.CellHeader | src/Reader/XlsxReader.php:282-289 | a written cell gives back its column and its `t` type |
| XlsxParts.CellRead | src/Reader/XlsxReader.php:291-297 | the value of `<v>` or of an inline `<is><t>` is the cell's text |
| XlsxParts.ScanCell | src/Reader/XlsxReader.php:281-326 | a non-empty `c` element stores its coerced value under its column and moves past its value |
| XlsxParts.ScanEnd | src/Reader/XlsxReader.php:277-279 | an end tag other than the row's is passed over |
| XlsxParts.CellStep | src/Reader/XlsxReader.php:281-326 | a whole written cell stores its decoded value under its column |
| XlsxParts.RowCells | src/Reader/XlsxReader.php:269-330 | a written row stores its cells' values one after the other |
| Common.PutSemantics | src/Reader/XlsxReader.php:325 | storing under an existing column keeps its place and the length, a new column is appended at the end, the column is present afterwards, entries under other columns are unchanged and the columns stay distinct |
| XlsxParts.SkipSelects | src/Reader/XlsxReader.php:230-232 | over increasing row indices, the skip passes exactly the rows whose index is below `start` |
| XlsxParts.TakeSelects | src/Reader/XlsxReader.php:234-242 | over increasing row indices, a row from the take's start is taken exactly when its index is at most `end`, and every row is taken without an end |
| XlsxParts.ScanStop | src/Reader/XlsxReader.php:269-279 | the `row` end tag, or the end of the events, finishes the row with the values collected so far |
| XlsxParts.PutAllFresh | src/Reader/XlsxReader.php:325 | values under new, distinct columns are appended in order |
| XlsxParts.RowRoundTrip | src/Reader/XlsxReader.php:256-330 | a row of cells with distinct columns reads as those columns, in document order, each with its decoded value (for a non-empty row text, which the reader always passes: the decimal row number) |
| XlsxParts.LastCellWins | src/Reader/XlsxReader.php:325 | a later cell of the same column replaces the earlier value in place (for a non-empty row text, as the reader always passes) |
| XlsxParts.SkipTo | src/Reader/XlsxReader.php:230-232 | the first row whose index reaches `start`, every row before it below `start`, or the end of the sheet (corrected behaviour) |
| XlsxParts.TakeTo | src/Reader/XlsxReader.php:234-242 | the first row whose index exceeds `end`, every row before it within `end` |
| XlsxParts.Entry | src/Reader/XlsxReader.php:241 | a yielded entry carries the row's index, and a self-closing row has no values |
| XlsxParts.WindowBounds | src/Reader/XlsxReader.php:230-242 | every yielded index is within `end` and the first reaches `start` |
| XlsxParts.WindowSelects | src/Reader/XlsxReader.php:230-242 | with increasing row indices, a row is yielded exactly when start <= index <= end, in sheet order |
| XlsxParts.SkipAgrees | src/Reader/XlsxReader.php:230-232 | when some row reaches `start`, the skip as written ends where the corrected one does |
| XlsxParts.SkipNeverEnds | src/Reader/XlsxReader.php:230-232 | as written, when `start` exceeds every row index the skip never ends, for any number of iterations |
| XlsxParts.SkipPastLastRow | src/Reader/XlsxReader.php:230-232 | one row numbered 1, read from row 2: the written skip never ends, the corrected window is empty |
| XlsxReader.IdIndex | src/Reader/XlsxReader.php:143-149 | the first worksheet with that id, or -1 when there is none |
| XlsxReader.NameIndex | src/Reader/XlsxReader.php:163-169 | the first worksheet with that name, or -1; a nameless sheet never matches |
| XlsxReader.SkipRows | src/Reader/XlsxReader.php:230-232 | the bounded skip loop ends at `SkipTo` |
| XlsxReader.XlsxReader.constructor | src/Reader/XlsxReader.php:83-86 | a new reader has empty tables, the 1900 system and no selection |
| XlsxReader.LoadChecksAsWritten | src/Reader/XlsxReader.php:97-103 | as written, only a falsy open result gives "Can't open file"; an error code passes that check, and the load passes only for an archive that opened and holds the workbook part |
| XlsxReader.LoadChecks | src/Reader/XlsxReader.php:97-103 | as intended, any open result but true gives "Can't open file", an opened archive without the workbook part gives the workbook error, and only an opened archive with it passes |
| XlsxReader.MissingArchivePassesOpenCheck | src/Reader/XlsxReader.php:97-103 | open code 9 (no such file) gets the workbook error as written, and "Can't open file" as intended |
| XlsxReader.LoadChecksAgree | src/Reader/XlsxReader.php:97-103 | the written and intended checks differ exactly on non-zero error codes |
| XlsxReader.XlsxReader.Load | src/Reader/XlsxReader.php:93-116 | with the intended open check: an archive that did not open, then a missing workbook, fail with nothing changed; otherwise the three parts present are scanned into the existing tables and the selection is kept |
| XlsxReader.XlsxReader.LoadWorkbook | src/Reader/XlsxReader.php:433-457 | the cursor loop computes `WorkbookScan` |
| XlsxReader.XlsxReader.LoadSharedString | src/Reader/XlsxReader.php:360-369 | the cursor loop computes `SharedScan` |
| XlsxReader.XlsxReader.LoadFormats | src/Reader/XlsxReader.php:376-426 | the cursor loop computes `FormatsScan` from the built-in table |
| XlsxReader.XlsxReader.SelectSheetByIndex | src/Reader/XlsxReader.php:125-132 | selects the sheet at that position, or fails and keeps the selection |
| XlsxReader.XlsxReader.SelectSheetById | src/Reader/XlsxReader.php:141-152 | selects the first sheet with that id, or fails and keeps the selection |
| XlsxReader.XlsxReader.SelectSheetByName | src/Reader/XlsxReader.php:161-172 | selects the first sheet with that name, or fails and keeps the selection |
| XlsxReader.XlsxReader.GetSelectedWorksheet | src/Reader/XlsxReader.php:189-196 | the selection, else the first sheet now selected, else the not-found error |
| XlsxReader.XlsxReader.ReadRow | src/Reader/XlsxReader.php:256-330 | the cursor loop over a row computes `RowValues` |
| XlsxReader.XlsxReader.YieldRow | src/Reader/XlsxReader.php:241 | appends the entry (index and values) of one more row to those before it |
| XlsxReader.XlsxReader.TakeRows | src/Reader/XlsxReader.php:234-242 | the entries (index and values) of the rows from `k` up to `TakeTo`, in order |
| XlsxReader.ReadCell | src/Reader/XlsxReader.php:281-325 | reading one `c` element moves the row scan past that cell: what remains to be collected after it, with the cell's coerced value stored under its column, is what remained before |
| XlsxReader.XlsxReader.ReadRows | src/Reader/XlsxReader.php:230-242 | the entries of exactly the rows of `Window`, in order |
| XlsxReader.XlsxReader.Read | src/Reader/XlsxReader.php:207-246 | checks in order: start < 1, start > end, default selection, missing part, no row; otherwise the entries of the window |

## Left out

- Zip archives, file access and XML parsing are not modelled. Files, archives
  and parts are parameters: a `TextFile`, an `Archive`, and sequences of
  reader events.
- `fgetcsv` (quoting, escapes, multi-line records) is not modelled. It is a
  function parameter of `CsvReader.CsvReader.Read`.
- Both `read` methods are generators. The model returns all entries at once.
  So it does not capture:
  - that the `BadMethodCall` checks run only on the first iteration;
  - that a consumer can stop early.
- `CsvReader.CsvReader.Read` and `XlsxReader.XlsxReader.Read` do not model
  the closing of the file or reader in `finally`.
- `CsvReader.CsvReader.Read`: a file `fopen` cannot open is one error,
  `StreamTypeError`, which is what PHP 8 raises when `fgets` or `fgetcsv` gets
  `false`. The model does not capture PHP 7, where the generator then yields
  no rows after a warning.
- `XlsxReader.XlsxReader.Load` models the intended open check (see Findings).
  As written, an archive that fails to open goes on to `locateName`; the
  model takes that to report the missing workbook, as PHP 7 does, and does
  not capture PHP 8's `ValueError` there.
- `XlsxReader.XlsxReader.Read`: a worksheet is modelled as its list of
  `row` elements, each with the events up to its end tag, and `next('row')`
  as the next element of that list. The model therefore does not capture:
  - a cell without a `v` (or `t`) child, which makes the source's `find` run
    on into the following rows;
  - rows nested below other elements.
- `XlsxParts.RowRoundTrip` and `XlsxParts.LastCellWins` are stated for a
  non-empty row text only. The reader always passes the decimal row number;
  with an empty row text every column would be "" (see `XlsxCell.ColumnOf`).
- `Factory.CreateReader` dispatches on the corrected `Factory.Extension`, so a
  name without a '.' gets `UnsupportedFileFormat`; as written, the source
  drops its first character and may build a reader for it (see Findings).
- `XlsxReader.XlsxReader.Read` and `XlsxReader.XlsxReader.ReadRows` model the
  corrected start-row skip, which stops at the end of the sheet; the source
  as written loops forever (see Findings).
- `Factory.DetectCommaOrSemicolon`: the skip loop checks the bound before it
  reads a character, where the source reads one past the end of the line. That
  read yields null, so the loop ends at the same position.
- `getWorksheets` (src/Reader/XlsxReader.php:179-182) is the `worksheets`
  field of `XlsxReader.XlsxReader` and has no member of its own.
- Float values are not computed:
  - a numeric cell with '.' keeps its text (`Float`);
  - a date cell whose text is not a plain digit string, with an optional
    sign, keeps its text (`OtherDate`), even a whole serial written as
    `44166.0` or `4.4166e4`, which `parseDate` turns into a date;
    since `floor`, `round` and the fraction of a day are floating point;
  - a whole serial gives the timestamp in seconds rather than its
    `Y-m-d H:i:s` rendering (`date` depends on the time zone).
- `XlsxCell.PlainCoercion` states PHP's `is_numeric` only for decimal text
  with an optional sign. Leading or trailing whitespace and exponents are not
  recognised.
- `XlsxCell.Saturate` and `Common.IntCast` do not model PHP's `(int)`
  skipping of leading whitespace, nor its reading of a numeric string with an
  exponent or fraction (`(int)"1e2"` is 100, the model gives 1).
  `Common.IntCast`, used for a row's `r` and a sheet's `sheetId`, does not
  saturate at the 64-bit bounds either.
- `XlsxFormats.CloseFrom` models the pattern `(?<!\\)\[.+?(?<!\\)]` directly,
  not a general regular-expression engine.
- The date classification of the built-in formats is proved for codes 0, 11,
  14, 38 and 46 only. Evaluating the whole table at once exceeds the
  verifier's resource limit.
- `XlsxParts.SkipAsWritten` bounds the source's unbounded loop by a fuel
  parameter, so that non-termination can be stated as "no result for any
  fuel".

## Findings

| source | as written | input that shows it | evidently intended | confidence | as-written member | corrected member |
|---|---|---|---|---|---|---|
| src/Factory.php:24 | `strrpos` gives false for a name without '.', which counts as 0, so the extension is the name minus its first character | the file name `xcsv` is dispatched as a `.csv` file | a name without '.' has no extension and gets `UnsupportedFileFormat` | medium, not executed | Factory.ExtensionWithoutDot | Factory.ExtensionSpec |
| src/Reader/XlsxReader.php:230-232 | the skip loops while `start` exceeds the current row's `r`; past the last row `next('row')` fails, `r` reads null, which casts to 0 | a sheet whose only row is numbered 1, read from row 2 | the skip stops at the end of the sheet and nothing is yielded | high, not executed | XlsxParts.SkipPastLastRow | XlsxParts.SkipTo |
| src/Reader/XlsxReader.php:97 | `ZipArchive::open` returns true or an integer error code, and a non-zero code is truthy, so `!$zip->open(...)` never catches a failed open | a path to a missing file (code 9) reaches `locateName` and is reported as lacking the workbook part (PHP 7), or raises a `ValueError` (PHP 8) | any result but true throws "Can't open file" | medium, not executed | XlsxReader.MissingArchivePassesOpenCheck | XlsxReader.LoadChecks |
