/** The spreadsheet reader of src/Reader/XlsxReader.php: an object that
    loads the workbook, shared-string and style parts of an archive into
    its tables, keeps the selected worksheet, and reads the rows of that
    worksheet between a start and an end row. */
module XlsxReader {
  import opened Common
  import opened XmlCursor
  import opened XlsxFormats
  import opened XlsxCell
  import opened XlsxParts

  /** What `ZipArchive::open` returns: true, false, or an error code such
      as 9 for a file that does not exist. */
  datatype OpenResult = Opened | OpenFalse | OpenCode(code: int)

  /** PHP truthiness of an open result: true and every non-zero code. */
  predicate OpenTruthy(res: OpenResult)
  {
    res.Opened? || (res.OpenCode? && res.code != 0)
  }

  /** The two checks of `load` as written: `!$zip->open(...)` rejects only
      a falsy result, so an error code passes it, and `locateName` on the
      archive that did not open finds no workbook part. */
  function LoadChecksAsWritten(res: OpenResult, hasWorkbook: bool): (o: Outcome)
    ensures o == Fail(ReaderException(ArchiveUnopenable)) <==> !OpenTruthy(res)
    ensures o == Pass <==> res.Opened? && hasWorkbook
  {
    if !OpenTruthy(res) then Fail(ReaderException(ArchiveUnopenable))
    else if !res.Opened? || !hasWorkbook then Fail(ReaderException(WorkbookMissing))
    else Pass
  }

  /** The two checks of `load` as intended: any result but true means the
      archive did not open; an open archive must hold the workbook part. */
  function LoadChecks(res: OpenResult, hasWorkbook: bool): (o: Outcome)
    ensures o == Fail(ReaderException(ArchiveUnopenable)) <==> !res.Opened?
    ensures o == Fail(ReaderException(WorkbookMissing)) <==> res.Opened? && !hasWorkbook
    ensures o == Pass <==> res.Opened? && hasWorkbook
  {
    if !res.Opened? then Fail(ReaderException(ArchiveUnopenable))
    else if !hasWorkbook then Fail(ReaderException(WorkbookMissing))
    else Pass
  }

  /** A missing file (code 9) passes the written open check and is reported
      as an archive without a workbook; the intended check reports it as an
      archive that does not open. */
  lemma MissingArchivePassesOpenCheck(hasWorkbook: bool)
    ensures LoadChecksAsWritten(OpenCode(9), hasWorkbook) == Fail(ReaderException(WorkbookMissing))
    ensures LoadChecks(OpenCode(9), hasWorkbook) == Fail(ReaderException(ArchiveUnopenable))
  {
  }

  /** The written and the intended checks differ exactly on non-zero error codes. */
  lemma LoadChecksAgree(res: OpenResult, hasWorkbook: bool)
    ensures LoadChecksAsWritten(res, hasWorkbook) == LoadChecks(res, hasWorkbook)
            <==> !(res.OpenCode? && res.code != 0)
  {
  }

  /** What the archive at the reader's path holds: what opening it returns,
      the events of each metadata part that is present, and the rows of
      each worksheet part, by sheet id. */
  datatype Archive = Archive(
    openResult: OpenResult,
    workbook: Option<seq<Node>>,
    sharedStrings: Option<seq<Node>>,
    styles: Option<seq<Node>>,
    sheets: map<int, seq<Row>>)

  /** The position of the first worksheet with the given id, or -1. */
  function IdIndex(ws: seq<Worksheet>, id: int): (k: int)
    ensures -1 <= k < |ws|
    ensures k >= 0 ==> ws[k].id == id && forall j :: 0 <= j < k ==> ws[j].id != id
    ensures k < 0 ==> forall j :: 0 <= j < |ws| ==> ws[j].id != id
    decreases |ws|
  {
    if ws == [] then -1
    else if ws[|ws| - 1].id == id && IdIndex(ws[..|ws| - 1], id) < 0 then |ws| - 1
    else IdIndex(ws[..|ws| - 1], id)
  }

  /** The position of the first worksheet with the given name, or -1; a
      sheet without a name never matches. */
  function NameIndex(ws: seq<Worksheet>, name: string): (k: int)
    ensures -1 <= k < |ws|
    ensures k >= 0 ==> ws[k].name == Some(name) && forall j :: 0 <= j < k ==> ws[j].name != Some(name)
    ensures k < 0 ==> forall j :: 0 <= j < |ws| ==> ws[j].name != Some(name)
    decreases |ws|
  {
    if ws == [] then -1
    else if ws[|ws| - 1].name == Some(name) && NameIndex(ws[..|ws| - 1], name) < 0 then |ws| - 1
    else NameIndex(ws[..|ws| - 1], name)
  }

  /** The entry of row `m`, appended to those of the rows from `k`, gives
      the entries of the rows from `k` through `m`. */
  lemma TakeStep(rows: seq<Row>, k: nat, m: nat, out: seq<(int, Assoc<Value>)>,
                 e: (int, Assoc<Value>), tables: Tables)
    requires k <= m < |rows| && out == Entries(rows[k..m], tables)
    requires e == Entry(rows[m], tables)
    ensures out + [e] == Entries(rows[k..m + 1], tables)
  {
    EntriesSnoc(rows, k, m, tables);
  }

  /** The skip of `read` to the first row whose index reaches `start`. */
  method SkipRows(rows: seq<Row>, start: int) returns (k: nat)
    ensures k == SkipTo(Indices(rows), start, 0)
  {
    ghost var ix := Indices(rows);
    k := 0;
    while k < |rows| && start > RowIndex(rows[k])
      invariant 0 <= k <= |rows| && SkipTo(ix, start, k) == SkipTo(ix, start, 0)
      decreases |rows| - k
    {
      k := k + 1;
    }
  }

  /** The `c` branch of `readRow`: the column is the cell reference less
      the row number, the type comes from `t` or the `s` format, the value
      is the text of the value element, coerced to that type, and it is
      stored under the column. */
  method ReadCell(c: Cursor, rowText: string, tables: Tables, values: Assoc<Value>) returns (out: Assoc<Value>)
    requires c.Valid() && 0 <= c.pos < |c.events|
    requires c.Current().nodeType == Element && c.Current().name == "c"
    modifies c
    ensures c.Valid() && old(c.pos) <= c.pos
    ensures RowScan(c.events, old(c.pos) - 1, rowText, tables, values) == RowScan(c.events, c.pos, rowText, tables, out)
  {
    var n := c.Current();
    ghost var p := c.pos - 1;
    var column := ColumnOf(Attribute(n, "r"), rowText);
    var t := ResolveType(Attribute(n, "t"), Attribute(n, "s"), tables.formats);
    var v: Text := None;
    if !n.isEmpty {
      var found := c.Find(ValueElement(t));
      v := c.ReadValue();
      ScanCell(c.events, p, rowText, tables, values, column, t, v, c.pos);
    } else {
      ScanEmptyCell(c.events, p, rowText, tables, values, column, t);
    }
    out := Put(values, column, Coerce(t, v, tables.shared, tables.date1904));
  }

  class XlsxReader {
    const archive: Archive
    var date1904: bool
    var shared: seq<Text>
    var formats: seq<Format>
    var worksheets: seq<Worksheet>
    var worksheet: Option<Worksheet>

    /** The tables a row is decoded against. */
    function Tables(): Tables
      reads this
    {
      XlsxParts.Tables(shared, formats, date1904)
    }

    /** A reader over the archive, with empty tables and no sheet selected. */
    constructor (archive: Archive)
      ensures this.archive == archive
      ensures !date1904 && shared == [] && formats == [] && worksheets == [] && worksheet == None
    {
      this.archive := archive;
      date1904 := false;
      shared := [];
      formats := [];
      worksheets := [];
      worksheet := None;
    }

    /** `load`, with the intended open check of `LoadChecks`: fails when
        the archive does not open or has no workbook part;
        otherwise adds the workbook's sheets and date system, then the shared
        strings and the cell formats of the parts that are present, to what
        the reader already holds. */
    method Load() returns (o: Outcome)
      modifies this
      ensures !archive.openResult.Opened? ==> o == Fail(ReaderException(ArchiveUnopenable))
      ensures archive.openResult.Opened? && archive.workbook.None? ==> o == Fail(ReaderException(WorkbookMissing))
      ensures o.Fail? ==> date1904 == old(date1904) && shared == old(shared) && formats == old(formats)
                          && worksheets == old(worksheets)
      ensures archive.openResult.Opened? && archive.workbook.Some? ==>
        && o == Pass
        && (date1904, worksheets) == WorkbookScan(archive.workbook.value, -1, old(date1904), old(worksheets))
        && shared == (if archive.sharedStrings.Some? then SharedScan(archive.sharedStrings.value, -1, old(shared))
                      else old(shared))
        && formats == (if archive.styles.Some? then FormatsScan(archive.styles.value, -1, false, Builtin, old(formats))
                       else old(formats))
      ensures worksheet == old(worksheet)
    {
      var checked := LoadChecks(archive.openResult, archive.workbook.Some?);
      if checked.Fail? {
        return checked;
      }
      LoadWorkbook(archive.workbook.value);
      if archive.sharedStrings.Some? {
        LoadSharedString(archive.sharedStrings.value);
      }
      if archive.styles.Some? {
        LoadFormats(archive.styles.value);
      }
      return Pass;
    }

    /** `loadWorkbook`: each `sheet` element adds a worksheet, each
        `date1904` element sets the date system from its trimmed text. */
    method LoadWorkbook(ev: seq<Node>)
      modifies this`date1904, this`worksheets
      ensures (date1904, worksheets) == WorkbookScan(ev, -1, old(date1904), old(worksheets))
    {
      ghost var target := WorkbookScan(ev, -1, date1904, worksheets);
      var c := new Cursor(ev);
      var ok := c.Read();
      while ok
        invariant c.Valid() && c.events == ev && 0 <= c.pos && (ok <==> c.pos < |ev|)
        invariant ok ==> target == WorkbookScan(ev, c.pos - 1, date1904, worksheets)
        invariant !ok ==> target == (date1904, worksheets)
        decreases |ev| - c.pos
      {
        var n := c.Current();
        if n.nodeType == Element {
          if n.name == "date1904" {
            var v := c.ReadValue();
            date1904 := Flag1904(v);
          } else if n.name == "sheet" {
            worksheets := worksheets + [SheetOf(n)];
          }
        }
        ok := c.Read();
      }
    }

    /** `loadSharedString`: the value of every `t` element, in order. */
    method LoadSharedString(ev: seq<Node>)
      modifies this`shared
      ensures shared == SharedScan(ev, -1, old(shared))
    {
      ghost var target := SharedScan(ev, -1, shared);
      var c := new Cursor(ev);
      ghost var before := -1;
      var found := c.Find("t");
      while found
        invariant c.Valid() && c.events == ev && -1 <= before <= |ev|
        invariant c.pos == FindStop(ev, before, "t")
        invariant found <==> NodeAt(ev, c.pos).name == "t"
        invariant target == SharedScan(ev, before, shared)
        decreases |ev| - c.pos
      {
        var v := c.ReadValue();
        shared := shared + [v];
        before := c.pos;
        found := c.Find("t");
      }
    }

    /** `loadFormats`: the cell formats of the styles part, classified
        against the built-in codes and the part's own `numFmt` codes. */
    method LoadFormats(ev: seq<Node>)
      modifies this`formats
      ensures formats == FormatsScan(ev, -1, false, Builtin, old(formats))
    {
      ghost var target := FormatsScan(ev, -1, false, Builtin, formats);
      var inXfs := false;
      var styles := Builtin;
      var c := new Cursor(ev);
      var ok := c.Read();
      while ok
        invariant c.Valid() && c.events == ev && 0 <= c.pos && (ok <==> c.pos < |ev|)
        invariant ok ==> target == FormatsScan(ev, c.pos - 1, inXfs, styles, formats)
        invariant !ok ==> target == formats
        decreases |ev| - c.pos
      {
        var n := c.Current();
        if n.name == "cellXfs" {
          if n.nodeType == Element {
            inXfs := !n.isEmpty;
          } else if n.nodeType == EndElement {
            inXfs := false;
          }
        } else if n.nodeType == Element {
          if n.name == "numFmt" {
            styles := styles[KeyOf(Attribute(n, "numFmtId")) := Attribute(n, "formatCode")];
          } else if n.name == "xf" && inXfs {
            formats := formats + [XfFormat(Attribute(n, "numFmtId"), styles)];
          }
        }
        ok := c.Read();
      }
    }

    /** `selectSheetByIndex`: selects the worksheet at that position, and
        fails, keeping the selection, when there is none. */
    method SelectSheetByIndex(index: int) returns (o: Outcome)
      modifies this`worksheet
      ensures 0 <= index < |worksheets| ==> o == Pass && worksheet == Some(worksheets[index])
      ensures !(0 <= index < |worksheets|) ==> o == Fail(ReaderException(WorksheetNotFound)) && worksheet == old(worksheet)
    {
      if !(0 <= index < |worksheets|) {
        return Fail(ReaderException(WorksheetNotFound));
      }
      worksheet := Some(worksheets[index]);
      return Pass;
    }

    /** `selectSheetById`: selects the first worksheet with that id, and
        fails, keeping the selection, when there is none. */
    method SelectSheetById(id: int) returns (o: Outcome)
      modifies this`worksheet
      ensures IdIndex(worksheets, id) >= 0 ==> o == Pass && worksheet == Some(worksheets[IdIndex(worksheets, id)])
      ensures IdIndex(worksheets, id) < 0 ==> o == Fail(ReaderException(WorksheetNotFound)) && worksheet == old(worksheet)
    {
      for k := 0 to |worksheets|
        invariant worksheet == old(worksheet)
        invariant forall j :: 0 <= j < k ==> worksheets[j].id != id
      {
        if worksheets[k].id == id {
          worksheet := Some(worksheets[k]);
          return Pass;
        }
      }
      return Fail(ReaderException(WorksheetNotFound));
    }

    /** `selectSheetByName`: selects the first worksheet with that name, and
        fails, keeping the selection, when there is none. */
    method SelectSheetByName(name: string) returns (o: Outcome)
      modifies this`worksheet
      ensures NameIndex(worksheets, name) >= 0 ==> o == Pass && worksheet == Some(worksheets[NameIndex(worksheets, name)])
      ensures NameIndex(worksheets, name) < 0 ==> o == Fail(ReaderException(WorksheetNotFound)) && worksheet == old(worksheet)
    {
      for k := 0 to |worksheets|
        invariant worksheet == old(worksheet)
        invariant forall j :: 0 <= j < k ==> worksheets[j].name != Some(name)
      {
        if worksheets[k].name == Some(name) {
          worksheet := Some(worksheets[k]);
          return Pass;
        }
      }
      return Fail(ReaderException(WorksheetNotFound));
    }

    /** `getSelectedWorksheet`: the selected worksheet, selecting the first
        one when none is; fails when there is no worksheet at all. */
    method GetSelectedWorksheet() returns (r: Result<Worksheet>)
      modifies this`worksheet
      ensures old(worksheet).Some? ==> r == Ok(old(worksheet).value) && worksheet == old(worksheet)
      ensures old(worksheet).None? && worksheets != [] ==> r == Ok(worksheets[0]) && worksheet == Some(worksheets[0])
      ensures old(worksheet).None? && worksheets == [] ==> r == Err(ReaderException(WorksheetNotFound)) && worksheet == None
    {
      if worksheet.None? {
        var o := SelectSheetByIndex(0);
        if o.Fail? {
          return Err(o.error);
        }
      }
      return Ok(worksheet.value);
    }

    /** `readRow`: the values of the cells of one row, keyed by column. */
    method ReadRow(row: Row, rowText: string) returns (values: Assoc<Value>)
      ensures values == RowValues(row, rowText, Tables())
    {
      if row.isEmpty {
        return [];
      }
      var body := row.body;
      var tables := Tables();
      ghost var target := RowScan(body, -1, rowText, tables, []);
      values := [];
      var c := new Cursor(body);
      var ok := c.Read();
      while ok
        invariant c.Valid() && c.events == body && 0 <= c.pos && (ok <==> c.pos < |body|)
        invariant ok ==> target == RowScan(body, c.pos - 1, rowText, tables, values)
        invariant !ok ==> target == values
        decreases |body| - c.pos
      {
        var n := c.Current();
        ghost var p := c.pos - 1;
        if n.nodeType == EndElement && n.name == "row" {
          ScanStop(body, p, rowText, tables, values);
          return;
        }
        if n.nodeType == Element && n.name == "c" {
          values := ReadCell(c, rowText, tables, values);
        } else {
          ScanOther(body, p, rowText, tables, values);
        }
        ghost var q := c.pos;
        ok := c.Read();
        if !ok {
          ScanStop(body, q, rowText, tables, values);
        }
      }
    }

    /** The rows of a worksheet part from `start` to `end`: skips to the
        first row whose index reaches `start`, then yields rows until one's
        index exceeds `end`. The skip stops at the end of the sheet. */
    method ReadRows(rows: seq<Row>, start: int, end: Option<int>) returns (out: seq<(int, Assoc<Value>)>)
      ensures out == Entries(Window(rows, start, end), Tables())
    {
      var k := SkipRows(rows, start);
      out := TakeRows(rows, k, end);
    }

    /** The yielding loop from row `k`: an entry per row until one's index
        exceeds `end`. */
    method TakeRows(rows: seq<Row>, k: nat, end: Option<int>) returns (out: seq<(int, Assoc<Value>)>)
      requires k <= |rows|
      ensures out == Entries(rows[k..TakeTo(Indices(rows), end, k)], Tables())
    {
      ghost var ix := Indices(rows);
      ghost var last := TakeTo(ix, end, k);
      ghost var tables := Tables();
      out := [];
      var m := k;
      // the `break` once a row's index exceeds `end` is the guard's second half
      while m < |rows| && (end.None? || RowIndex(rows[m]) <= end.value)
        invariant k <= m <= last && TakeTo(ix, end, m) == last
        invariant out == Entries(rows[k..m], tables)
        decreases |rows| - m
      {
        out := YieldRow(rows, k, m, out);
        m := m + 1;
      }
      assert m < |rows| ==> ix[m] == RowIndex(rows[m]);
    }

    /** `yield $row_index => $this->readRow(...)`: appends the entry of row
        `m` to those of the rows from `k`. */
    method YieldRow(rows: seq<Row>, k: nat, m: nat, out: seq<(int, Assoc<Value>)>)
      returns (out': seq<(int, Assoc<Value>)>)
      requires k <= m < |rows| && out == Entries(rows[k..m], Tables())
      ensures out' == Entries(rows[k..m + 1], Tables())
    {
      var index := RowIndex(rows[m]);
      var values := ReadRow(rows[m], IntToDecimal(index));
      TakeStep(rows, k, m, out, (index, values), Tables());
      out' := out + [(index, values)];
    }

    /** `read(start, end)`: rejects a start below 1 or above `end`, selects
        the first worksheet when none is selected, fails when the sheet's
        part is missing or has no row, and otherwise yields the entries of
        the rows in the window. */
    method Read(start: int, end: Option<int>) returns (r: Result<seq<(int, Assoc<Value>)>>)
      modifies this`worksheet
      ensures start <= 0 ==> r == Err(BadMethodCall) && worksheet == old(worksheet)
      ensures start > 0 && end.Some? && start > end.value ==> r == Err(BadMethodCall) && worksheet == old(worksheet)
      ensures start > 0 && (end.None? || start <= end.value) ==>
        && (old(worksheet).Some? ==> worksheet == old(worksheet))
        && (old(worksheet).None? && worksheets != [] ==> worksheet == Some(worksheets[0]))
        && (old(worksheet).None? && worksheets == [] ==> r == Err(ReaderException(WorksheetNotFound)))
        && (worksheet.Some? && worksheet.value.id !in archive.sheets ==> r == Err(ReaderException(PartUnopenable)))
        && (worksheet.Some? && worksheet.value.id in archive.sheets && archive.sheets[worksheet.value.id] == []
            ==> r == Err(ReaderException(NoRow)))
        && (worksheet.Some? && worksheet.value.id in archive.sheets && archive.sheets[worksheet.value.id] != [] ==>
              r == Ok(Entries(Window(archive.sheets[worksheet.value.id], start, end), Tables())))
    {
      if start <= 0 {
        return Err(BadMethodCall);
      }
      if end.Some? && start > end.value {
        return Err(BadMethodCall);
      }
      var selected := GetSelectedWorksheet();
      if selected.Err? {
        return Err(selected.error);
      }
      var id := selected.value.id;
      if id !in archive.sheets {
        return Err(ReaderException(PartUnopenable));
      }
      var rows := archive.sheets[id];
      if rows == [] {
        return Err(ReaderException(NoRow));
      }
      var out := ReadRows(rows, start, end);
      return Ok(out);
    }
  }
}
