/** The delimiter-separated-values reader of src/Reader/CsvReader.php. The
    file is a sequence of lines; PHP's `fgetcsv` tokenizer is not modelled
    and is passed in as a function from the remaining lines to records. */
module CsvReader {
  import opened Common

  // ---------------------------------------------------------------------
  // Column labels: bijective base 26 ("A".."Z", "AA", ...)

  /** The letter for a digit 0..25. */
  function Letter(d: nat): (c: char)
    requires d < 26
  {
    ('A' as int + d) as char
  }

  predicate IsUpper(c: char) { 'A' <= c <= 'Z' }

  predicate IsLabelText(s: string) { |s| > 0 && forall i :: 0 <= i < |s| ==> IsUpper(s[i]) }

  /** The label `convertColumnIndexToString` builds for a field position:
      the empty string for a negative position, where its loop never runs. */
  function ColumnLabel(index: int): (s: string)
    decreases if index < 0 then 0 else index + 1
  {
    if index < 0 then "" else ColumnLabel(index / 26 - 1) + [Letter(index % 26)]
  }

  /** The number a label denotes read as bijective base 26 ("A" = 1, "Z" = 26, "AA" = 27). */
  function LabelValue(s: string): int
    requires forall i :: 0 <= i < |s| ==> IsUpper(s[i])
    decreases |s|
  {
    if s == [] then 0
    else LabelValue(s[..|s| - 1]) * 26 + (s[|s| - 1] as int - 'A' as int + 1)
  }

  /** The inverse of `ColumnLabel`: the field position a label names. */
  function ColumnIndex(s: string): int
    requires forall i :: 0 <= i < |s| ==> IsUpper(s[i])
  {
    LabelValue(s) - 1
  }

  /** Appending a letter multiplies the value by 26 and adds the letter's digit. */
  lemma LabelValueSnoc(t: string, c: char)
    requires forall i :: 0 <= i < |t| ==> IsUpper(t[i])
    requires IsUpper(c)
    ensures forall i :: 0 <= i < |t + [c]| ==> IsUpper((t + [c])[i])
    ensures LabelValue(t + [c]) == LabelValue(t) * 26 + (c as int - 'A' as int + 1)
  {
    assert (t + [c])[..|t|] == t;
  }

  /** Every position gets a non-empty label over 'A'..'Z', and decoding it
      gives the position back. */
  lemma {:induction false} LabelRoundTrip(index: nat)
    ensures IsLabelText(ColumnLabel(index))
    ensures ColumnIndex(ColumnLabel(index)) == index
    decreases index
  {
    var high := index / 26 - 1;
    var d := index % 26;
    var t := ColumnLabel(high);
    if high >= 0 {
      LabelRoundTrip(high);
    }
    assert LabelValue(t) == high + 1;
    assert ColumnLabel(index) == t + [Letter(d)];
    LabelValueSnoc(t, Letter(d));
    assert (high + 1) * 26 + d == index;
  }

  /** Every non-empty string over 'A'..'Z' is the label of exactly the
      position it decodes to: the labelling is onto the label texts. */
  lemma {:induction false} LabelOnto(s: string)
    requires IsLabelText(s)
    ensures ColumnIndex(s) >= 0 && ColumnLabel(ColumnIndex(s)) == s
    decreases |s|
  {
    var t := s[..|s| - 1];
    var c := s[|s| - 1];
    var d := c as int - 'A' as int;
    assert s == t + [c];
    LabelValueSnoc(t, c);
    if t != [] {
      LabelOnto(t);
    }
    var high := LabelValue(t) - 1;
    LabelStep(LabelValue(s) - 1, high, d);
    assert Letter(d) == c;
  }

  /** Distinct field positions get distinct labels, so `readRow` never
      overwrites one field with another. */
  lemma LabelInjective(i: nat, j: nat)
    requires i != j
    ensures ColumnLabel(i) != ColumnLabel(j)
  {
    LabelRoundTrip(i);
    LabelRoundTrip(j);
  }

  /** One letter of a label: position `(high + 1) * 26 + d` is the label of
      `high` followed by the letter of `d`. */
  lemma LabelStep(index: nat, high: int, d: nat)
    requires d < 26 && high >= -1 && index == (high + 1) * 26 + d
    ensures ColumnLabel(index) == ColumnLabel(high) + [Letter(d)]
  {
    assert index / 26 == high + 1 && index % 26 == d;
  }

  /** The labels of the first columns and of the one- to three-letter boundaries. */
  lemma LabelExamples()
    ensures ColumnLabel(0) == "A" && ColumnLabel(25) == "Z"
    ensures ColumnLabel(26) == "AA" && ColumnLabel(51) == "AZ"
    ensures ColumnLabel(701) == "ZZ" && ColumnLabel(702) == "AAA"
  {
    LabelStep(0, -1, 0);
    LabelStep(25, -1, 25);
    LabelStep(26, 0, 0);
    LabelStep(51, 0, 25);
    LabelStep(701, 25, 25);
    LabelStep(702, 26, 0);
  }

  /** The loop of `convertColumnIndexToString`: prepend the letter of
      `index % 26`, then continue with `(int)(index / 26) - 1`, while the
      index is non-negative. Also returns the index the loop ends with. */
  method ColumnIndexToString(index: int) returns (s: string, after: int)
    ensures s == ColumnLabel(index)
    ensures after == if index < 0 then index else -1
  {
    s := "";
    after := index;
    while after >= 0
      invariant after >= -1 || after == index
      invariant ColumnLabel(after) + s == ColumnLabel(index)
      decreases after + 1
    {
      s := [Letter(after % 26)] + s;
      after := after / 26 - 1;
    }
  }

  /** The static `$column_string_cache`. The source stores each label under
      the index its loop ends with, which is -1 for every non-negative
      position, so only negative keys are ever written. */
  class LabelCache {
    var cache: map<int, string>

    ghost predicate Valid()
      reads this
    {
      forall k :: k in cache ==> k < 0
    }

    constructor ()
      ensures Valid() && cache == map[]
    {
      cache := map[];
    }

    /** `convertColumnIndexToString`: a cached label when the index is a key,
      otherwise the computed label, stored under the post-loop index. */
    method Convert(index: int) returns (text: string)
      requires Valid()
      modifies this
      ensures Valid()
      ensures index >= 0 ==> text == ColumnLabel(index)
      ensures index < 0 ==> text == if index in old(cache) then old(cache)[index] else ""
      ensures index in old(cache) ==> cache == old(cache)
      ensures index !in old(cache) ==> cache == old(cache)[if index < 0 then index else -1 := text]
    {
      if index in cache {
        return cache[index];
      }
      var after;
      text, after := ColumnIndexToString(index);
      cache := cache[after := text];
    }
  }

  // ---------------------------------------------------------------------
  // Rows

  /** The row `readRow` builds from one record: field `i` under the label of `i`. */
  function Labelled(record: seq<Text>): (row: Assoc<Text>)
    ensures |row| == |record|
  {
    seq(|record|, i requires 0 <= i < |record| => (ColumnLabel(i), record[i]))
  }

  /** The labelled row keeps every field, in order, unchanged (no type
      coercion: the text "123" stays text), under pairwise distinct labels. */
  lemma LabelledKeepsFields(record: seq<Text>)
    ensures DistinctKeys(Labelled(record))
    ensures forall i :: 0 <= i < |record| ==> Labelled(record)[i] == (ColumnLabel(i), record[i])
  {
    forall i, j | 0 <= i < j < |record|
      ensures Labelled(record)[i].0 != Labelled(record)[j].0
    {
      LabelInjective(i, j);
    }
  }

  /** The three characters handed to `fgetcsv`. */
  datatype Dialect = Dialect(delimiter: string, enclosure: string, escape: string)

  /** `fgetcsv` applied repeatedly to the lines after the skipped ones: the
      records it returns, one per call. An empty record stands for `false`
      (end of file), since PHP treats an empty array as false too. */
  type Tokenizer = (seq<string>, Dialect) -> seq<seq<Text>>

  /** A file as the reader sees it: whether it is present, whether it is readable, its lines. */
  datatype TextFile = TextFile(present: bool, readable: bool, lines: seq<string>)

  /** Number of records read: records are taken while they are non-empty and
      while their row index `start + k` does not exceed `end` (no `end` is INF). */
  function WindowLength(records: seq<seq<Text>>, start: int, end: Option<int>): (n: nat)
    ensures n <= |records|
    ensures forall k :: 0 <= k < n ==> records[k] != []
    ensures n > 0 && end.Some? ==> start + n - 1 <= end.value
    ensures n < |records| ==> records[n] == [] || (end.Some? && start + n > end.value)
    decreases |records|
  {
    if records == [] || records[0] == [] || (end.Some? && start > end.value) then 0
    else
      var m := WindowLength(records[1..], start + 1, end);
      assert records[0] != [];
      1 + m
  }

  /** The rows `read(start, end)` yields from the records `fgetcsv` returns:
      row indices start at `start` and go up by one per record, never exceed
      `end`, each row is its record labelled, and reading stops at the first
      `false` record or once the next index would pass `end`. */
  function Window(records: seq<seq<Text>>, start: int, end: Option<int>): (rows: seq<(int, Assoc<Text>)>)
    ensures |rows| <= |records|
    ensures forall k :: 0 <= k < |rows| ==> rows[k] == (start + k, Labelled(records[k])) && records[k] != []
    ensures forall k :: 0 <= k < |rows| ==> end.Some? ==> rows[k].0 <= end.value
    ensures |rows| > 0 <==> records != [] && records[0] != [] && (end.None? || start <= end.value)
    ensures |rows| < |records| ==> records[|rows|] == [] || (end.Some? && start + |rows| > end.value)
  {
    var n := WindowLength(records, start, end);
    seq(n, k requires 0 <= k < n => (start + k, Labelled(records[k])))
  }

  /** The reader; `labels` stands for the class-wide label cache. */
  class CsvReader {
    const file: TextFile
    var delimiter: string
    var enclosure: string
    var escape: string

    constructor (file: TextFile, delimiter: string := ",", enclosure: string := "\"", escape: string := "\\")
      ensures this.file == file
      ensures this.delimiter == delimiter && this.enclosure == enclosure && this.escape == escape
    {
      this.file := file;
      this.delimiter := delimiter;
      this.enclosure := enclosure;
      this.escape := escape;
    }

    method SetDelimiter(delimiter: string)
      modifies this`delimiter
      ensures this.delimiter == delimiter
      ensures enclosure == old(enclosure) && escape == old(escape)
    {
      this.delimiter := delimiter;
    }

    method SetEnclosure(enclosure: string)
      modifies this`enclosure
      ensures this.enclosure == enclosure
      ensures delimiter == old(delimiter) && escape == old(escape)
    {
      this.enclosure := enclosure;
    }

    method SetEscape(escape: string)
      modifies this`escape
      ensures this.escape == escape
      ensures delimiter == old(delimiter) && enclosure == old(enclosure)
    {
      this.escape := escape;
    }

    /** `load()`: only checks that the file exists and then that it is readable. */
    method Load() returns (r: Outcome)
      ensures r.Pass? <==> file.present && file.readable
      ensures !file.present ==> r == Fail(ReaderException(FileMissing))
      ensures file.present && !file.readable ==> r == Fail(ReaderException(FileUnreadable))
    {
      if !file.present {
        return Fail(ReaderException(FileMissing));
      }
      if !file.readable {
        return Fail(ReaderException(FileUnreadable));
      }
      return Pass;
    }

    /** `readRow`: each field under the label of its position. */
    method ReadRow(record: seq<Text>, labels: LabelCache) returns (data: Assoc<Text>)
      requires labels.Valid()
      modifies labels
      ensures labels.Valid()
      ensures data == Labelled(record)
    {
      LabelledKeepsFields(record);
      data := [];
      for i := 0 to |record|
        invariant labels.Valid()
        invariant data == Labelled(record[..i])
      {
        var key := labels.Convert(i);
        assert !HasKey(data, key) by {
          forall j | 0 <= j < |data| ensures data[j].0 != key {
            LabelInjective(j, i);
          }
        }
        data := Put(data, key, record[i]);
        assert record[..i + 1] == record[..i] + [record[i]];
      }
      assert record[..|record|] == record;
    }

    /** `read(start, end)`: rejects a bad window before touching the file,
      makes no file check of its own (a file `fopen` cannot open ends in
      PHP's TypeError, not a `ReaderException`), skips `start - 1` lines, then yields each record `fgetcsv` returns
      under row indices `start`, `start + 1`, ... up to `end`. */
    method Read(start: int, end: Option<int>, fgetcsv: Tokenizer, labels: LabelCache)
      returns (r: Result<seq<(int, Assoc<Text>)>>)
      requires labels.Valid()
      modifies labels
      ensures labels.Valid()
      ensures start <= 0 || (end.Some? && start > end.value) <==> r == Err(BadMethodCall)
      ensures r.Ok? <==> start > 0 && (end.None? || start <= end.value) && file.present && file.readable
      ensures start > 0 && (end.None? || start <= end.value) && !(file.present && file.readable)
        ==> r == Err(StreamTypeError)
      ensures r.Ok? ==> var skipped := if start - 1 < |file.lines| then start - 1 else |file.lines|;
        r.value == Window(fgetcsv(file.lines[skipped..], Dialect(delimiter, enclosure, escape)), start, end)
    {
      if start <= 0 {
        return Err(BadMethodCall);
      }
      if end.Some? && start > end.value {
        return Err(BadMethodCall);
      }
      // `fopen` fails on a missing or unreadable file and gives `false`,
      // which the first `fgets` or `fgetcsv` rejects with a TypeError.
      if !(file.present && file.readable) {
        return Err(StreamTypeError);
      }
      // while (--$start && fgets($ptr));
      var line := 0;
      var remaining := start - 1;
      while remaining > 0 && line < |file.lines|
        invariant 0 <= line <= |file.lines| && remaining == start - 1 - line
      {
        line := line + 1;
        remaining := remaining - 1;
      }
      var records := fgetcsv(file.lines[line..], Dialect(delimiter, enclosure, escape));
      var rows := YieldRows(records, start, end, labels);
      return Ok(rows);
    }

    /** The do-while of `read`: yields each non-empty record under the next
        row index, and stops at the first empty record or once the next
        index passes `end`. */
    method YieldRows(records: seq<seq<Text>>, start: int, end: Option<int>, labels: LabelCache)
      returns (rows: seq<(int, Assoc<Text>)>)
      requires end.None? || start <= end.value
      requires labels.Valid()
      modifies labels
      ensures labels.Valid()
      ensures rows == Window(records, start, end)
    {
      ghost var window := Window(records, start, end);
      rows := [];
      var rowIndex := start;
      var record: seq<Text>;
      // do { $row = fgetcsv(...); if ($row) yield $row_index++ => ...; } while ($end >= $row_index && $row);
      while true
        invariant |rows| <= |window| && rowIndex == start + |rows|
        invariant rows == window[..|rows|]
        invariant end.Some? ==> rowIndex <= end.value
        invariant labels.Valid()
        decreases |records| - |rows|
      {
        var k := |rows|;
        record := if k < |records| then records[k] else [];
        if record != [] {
          var data := ReadRow(record, labels);
          assert window[k] == (rowIndex, data);
          rows := rows + [(rowIndex, data)];
          rowIndex := rowIndex + 1;
        }
        if !((end.None? || end.value >= rowIndex) && record != []) {
          break;
        }
      }
    }
  }
}
