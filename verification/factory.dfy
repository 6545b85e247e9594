/** Reader selection of src/Factory.php: dispatch on the file extension and,
    for `.csv` files, the comma-or-semicolon detector over the first line. */
module Factory {
  import opened Common
  import opened CsvReader

  /** The reader `createReader` builds: a spreadsheet reader, or a text
      reader with the given delimiter and the default enclosure and escape. */
  datatype ReaderChoice =
    | XlsxReaderOf(path: string)
    | CsvReaderOf(path: string, delimiter: string)

  // ---------------------------------------------------------------------
  // Extensions

  /** `strrpos($file, '.')`: the position of the last '.', or -1 when there is none. */
  function LastDot(s: string): (i: int)
    ensures -1 <= i < |s|
    ensures i >= 0 ==> s[i] == '.' && forall k :: i < k < |s| ==> s[k] != '.'
    ensures i < 0 ==> forall k :: 0 <= k < |s| ==> s[k] != '.'
    decreases |s|
  {
    if s == [] then -1
    else if s[|s| - 1] == '.' then |s| - 1
    else LastDot(s[..|s| - 1])
  }

  /** The extension as `substr($file, strrpos($file, '.') + 1)` computes it:
      without a '.', `strrpos` gives false, which counts as 0, so everything
      after the first character is taken. */
  function ExtensionAsWritten(path: string): string
  {
    var dot := LastDot(path);
    if dot < 0 then (if |path| >= 1 then path[1..] else "") else path[dot + 1..]
  }

  /** The extension: the text after the last '.', and no extension at all
      when the name has no '.'. */
  function Extension(path: string): string
  {
    var dot := LastDot(path);
    if dot < 0 then "" else path[dot + 1..]
  }

  /** The extension holds no '.'; when the name has a '.', the name is what
      comes before its last '.', that '.', and the extension; without one
      the extension is empty. */
  lemma ExtensionSpec(path: string)
    ensures forall k :: 0 <= k < |Extension(path)| ==> Extension(path)[k] != '.'
    ensures LastDot(path) >= 0 ==>
      |Extension(path)| < |path| && path == path[..|path| - |Extension(path)| - 1] + "." + Extension(path)
    ensures (forall k :: 0 <= k < |path| ==> path[k] != '.') ==> Extension(path) == ""
  {
    var dot := LastDot(path);
    if dot >= 0 {
      DotSplit(path, dot);
      assert |path| - |Extension(path)| - 1 == dot;
    }
  }

  /** A name is what comes before a '.' in it, the '.', and what follows. */
  lemma DotSplit(path: string, dot: nat)
    requires dot < |path| && path[dot] == '.'
    ensures path == path[..dot] + "." + path[dot + 1..]
  {
    assert path[dot..] == "." + path[dot + 1..];
    assert path == path[..dot] + path[dot..];
  }

  /** A name without '.' is dispatched on all but its first character: "xcsv"
      is taken for a .csv file, while it has no extension at all. */
  lemma ExtensionWithoutDot()
    ensures ExtensionAsWritten("xcsv") == "csv"
    ensures Extension("xcsv") == ""
  {
    var name := "xcsv";
    assert forall k :: 0 <= k < |name| ==> name[k] != '.';
    assert LastDot(name) == -1;
  }

  /** Both definitions agree on every name that contains a '.'. */
  lemma ExtensionAgrees(path: string)
    requires exists k :: 0 <= k < |path| && path[k] == '.'
    ensures ExtensionAsWritten(path) == Extension(path)
  {
  }

  // ---------------------------------------------------------------------
  // The comma-or-semicolon detector

  /** True when the character at `i` is not preceded by a backslash. */
  predicate Unescaped(s: string, i: nat)
    requires i < |s|
  {
    i == 0 || s[i - 1] != '\\'
  }

  /** Where the skip after an opening quote stops, trying position `j`
      next: at the end of the line, at a '"', or at a character whose
      predecessor is a backslash. */
  function SkipEnd(s: string, j: nat): (e: nat)
    requires 0 < j <= |s|
    ensures j <= e <= |s|
    ensures e < |s| ==> s[e] == '"' || s[e - 1] == '\\'
    ensures forall k :: j <= k < e ==> s[k] != '"'
    ensures forall k :: j - 1 <= k < e - 1 ==> s[k] != '\\'
    decreases |s| - j
  {
    if j >= |s| || s[j] == '"' || s[j - 1] == '\\' then j else SkipEnd(s, j + 1)
  }

  /** The delimiter the scan decides on from position `i` of the first line:
      the first unescaped ',' or ';' outside the skipped quoted spans, and
      ',' when there is none. */
  function DetectFrom(s: string, i: nat): (d: string)
    ensures d == "," || d == ";"
    decreases |s| - i
  {
    if i >= |s| then ","
    else if s[i] == ',' && Unescaped(s, i) then ","
    else if s[i] == ';' && Unescaped(s, i) then ";"
    else if s[i] == '"' && Unescaped(s, i) then DetectFrom(s, SkipEnd(s, i + 1) + 1)
    else DetectFrom(s, i + 1)
  }

  /** What `fgets` returns first: the first line, or nothing for an empty file. */
  function FirstLine(file: TextFile): string
  {
    if file.lines == [] then "" else file.lines[0]
  }

  /** Without a quote, the first unescaped ',' or ';' decides. */
  lemma {:induction false} FirstDelimiterDecides(s: string, i: nat, k: nat)
    requires i <= k < |s| && (s[k] == ',' || s[k] == ';') && Unescaped(s, k)
    requires forall j :: i <= j < k ==> s[j] != ',' && s[j] != ';' && s[j] != '"'
    ensures DetectFrom(s, i) == [s[k]]
    decreases k - i
  {
    if i < k {
      FirstDelimiterDecides(s, i + 1, k);
    }
  }

  /** A rest of the line with neither ',' nor ';' falls back to the comma;
      after a skipped quoted span this is the rest after its closing quote. */
  lemma {:induction false} NoDelimiterMeansComma(s: string, i: nat)
    requires forall j :: i <= j < |s| ==> s[j] != ',' && s[j] != ';'
    ensures DetectFrom(s, i) == ","
    decreases |s| - i
  {
    if i < |s| {
      if s[i] == '"' && Unescaped(s, i) {
        NoDelimiterMeansComma(s, SkipEnd(s, i + 1) + 1);
      } else {
        NoDelimiterMeansComma(s, i + 1);
      }
    }
  }

  lemma {:induction false} SkipReachesQuote(s: string, j: nat, q: nat)
    requires 0 < j <= q < |s| && s[q] == '"' && s[j - 1] != '\\'
    requires forall k :: j <= k < q ==> s[k] != '"' && s[k] != '\\'
    ensures SkipEnd(s, j) == q
    decreases q - j
  {
    if j < q {
      SkipReachesQuote(s, j + 1, q);
    }
  }

  /** A quoted span without backslashes is skipped whole: the ',' and ';'
      inside it do not count, and the scan resumes after its closing quote. */
  lemma QuotedSpanSkipped(s: string, i: nat, q: nat)
    requires i < q < |s| && s[i] == '"' && s[q] == '"' && Unescaped(s, i)
    requires forall k :: i < k < q ==> s[k] != '"' && s[k] != '\\'
    ensures DetectFrom(s, i) == DetectFrom(s, q + 1)
  {
    SkipReachesQuote(s, i + 1, q);
  }

  /** A comma before a quoted field with a ';' inside decides for the comma. */
  lemma CommaExample()
    ensures DetectFrom("a,b,\"c;d\",e", 0) == ","
  {
    FirstDelimiterDecides("a,b,\"c;d\",e", 0, 1);
  }

  /** A semicolon before a quoted field with a ',' inside decides for the semicolon. */
  lemma SemicolonExample()
    ensures DetectFrom("a;b;\"c,d\";e", 0) == ";"
  {
    FirstDelimiterDecides("a;b;\"c,d\";e", 0, 1);
  }

  /** The delimiters inside a leading quoted field do not count. */
  lemma QuotedFieldExample()
    ensures DetectFrom("\"a,b\";c", 0) == ";"
  {
    var s := "\"a,b\";c";
    QuotedSpanSkipped(s, 0, 4);
    FirstDelimiterDecides(s, 5, 5);
  }

  /** A line whose only delimiters are inside a quoted field falls back to
      the comma. */
  lemma AllQuotedExample()
    ensures DetectFrom("\"a,b;c\"", 0) == ","
  {
    var s := "\"a,b;c\"";
    QuotedSpanSkipped(s, 0, 6);
    NoDelimiterMeansComma(s, 7);
  }

  /** An escaped comma does not count. */
  lemma EscapedCommaExample()
    ensures DetectFrom("a\\,b;c", 0) == ";"
  {
    var s := "a\\,b;c";
    assert DetectFrom(s, 0) == DetectFrom(s, 1) == DetectFrom(s, 2) == DetectFrom(s, 3);
    FirstDelimiterDecides(s, 3, 4);
  }

  /** `detectCommaOrSemicolon`: fails when the file is missing or unreadable;
      otherwise scans the first line once and builds a text reader with the
      delimiter the scan decides on. The skip loop checks the bound before
      reading a character, where the source reads one past the end. */
  method DetectCommaOrSemicolon(path: string, file: TextFile) returns (r: Result<ReaderChoice>)
    ensures !file.present ==> r == Err(ReaderException(FileMissing))
    ensures file.present && !file.readable ==> r == Err(ReaderException(FileUnreadable))
    ensures file.present && file.readable ==> r == Ok(CsvReaderOf(path, DetectFrom(FirstLine(file), 0)))
  {
    if !file.present {
      return Err(ReaderException(FileMissing));
    }
    if !file.readable {
      return Err(ReaderException(FileUnreadable));
    }
    var chars := FirstLine(file);
    var n := |chars|;
    var i := 0;
    while i < n
      invariant 0 <= i <= n + 1
      invariant DetectFrom(chars, i) == DetectFrom(chars, 0)
      decreases n + 1 - i
    {
      var last: Option<char> := if i > 0 then Some(chars[i - 1]) else None;
      var c := chars[i];
      if c == ',' && last != Some('\\') {
        return Ok(CsvReaderOf(path, ","));
      }
      if c == ';' && last != Some('\\') {
        return Ok(CsvReaderOf(path, ";"));
      }
      if c == '"' && last != Some('\\') {
        ghost var open := i;
        i := i + 1;
        while i < n && chars[i] != '"' && chars[i - 1] != '\\'
          invariant open < i <= n
          invariant SkipEnd(chars, i) == SkipEnd(chars, open + 1)
          decreases n - i
        {
          i := i + 1;
        }
      }
      i := i + 1;
    }
    return Ok(CsvReaderOf(path, ","));
  }

  /** `createReader`: xlsx, xlsm, xltx and xltm give a spreadsheet reader,
      tsv a tab-delimited text reader, csv the reader the detector builds
      (or its error), and every other extension `UnsupportedFileFormat`
      before the file is looked at. */
  method CreateReader(path: string, file: TextFile) returns (r: Result<ReaderChoice>)
    ensures Extension(path) in {"xlsx", "xlsm", "xltx", "xltm"} ==> r == Ok(XlsxReaderOf(path))
    ensures Extension(path) == "tsv" ==> r == Ok(CsvReaderOf(path, "\t"))
    ensures Extension(path) == "csv" ==> r != Err(UnsupportedFileFormat)
    ensures Extension(path) == "csv" && file.present && file.readable
      ==> r == Ok(CsvReaderOf(path, DetectFrom(FirstLine(file), 0)))
    ensures Extension(path) == "csv" && !file.present ==> r == Err(ReaderException(FileMissing))
    ensures Extension(path) == "csv" && file.present && !file.readable ==> r == Err(ReaderException(FileUnreadable))
    ensures Extension(path) !in {"xlsx", "xlsm", "xltx", "xltm", "tsv", "csv"} ==> r == Err(UnsupportedFileFormat)
  {
    var ext := Extension(path);
    if ext == "xlsx" || ext == "xlsm" || ext == "xltx" || ext == "xltm" {
      return Ok(XlsxReaderOf(path));
    } else if ext == "tsv" {
      return Ok(CsvReaderOf(path, "\t"));
    } else if ext == "csv" {
      r := DetectCommaOrSemicolon(path, file);
      return;
    }
    return Err(UnsupportedFileFormat);
  }
}
