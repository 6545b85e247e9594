/** Per-cell decoding of src/Reader/XlsxReader.php: the column a cell
    reference names, the type a cell resolves to, and the value its text is
    turned into. */
module XlsxCell {
  import opened Common
  import opened XlsxFormats
  import CsvReader

  /** A decoded cell value. `Float` keeps the decimal text PHP converts to a
      float; `Date` stands for the date-time text of a timestamp in seconds;
      `OtherDate` is a date cell whose text is not a whole serial number. */
  datatype Value =
    | Null
    | Str(text: string)
    | Int(number: int)
    | Float(literal: string)
    | Bool(truth: bool)
    | Date(seconds: int)
    | OtherDate(serial: string)

  const Int64Max: int := 0x7FFF_FFFF_FFFF_FFFF
  const Int64Min: int := -0x8000_0000_0000_0000

  /** PHP's `(int)` of a numeric string saturates at the 64-bit bounds. */
  function Saturate(i: int): (r: int)
    ensures Int64Min <= r <= Int64Max
    ensures Int64Min <= i <= Int64Max ==> r == i
  {
    if i < Int64Min then Int64Min else if i > Int64Max then Int64Max else i
  }

  function TextValue(t: Text): Value
  {
    if t.Some? then Str(t.value) else Null
  }

  /** The digits and at most one '.' of a decimal number, with at least
      one digit; `DecimalBodyIff` shows it is `DecimalBodyChars`. */
  predicate IsDecimalBody(b: string)
  {
    HasDigit(b) && DecimalChars(b, false)
  }

  predicate HasDigit(b: string)
  {
    b != [] && (IsDigit(b[0]) || HasDigit(b[1..]))
  }

  /** Only digits and '.', and no '.' at all once `dot` has been seen. */
  predicate DecimalChars(b: string, dot: bool)
  {
    b == [] || (IsDigit(b[0]) && DecimalChars(b[1..], dot)) || (b[0] == '.' && !dot && DecimalChars(b[1..], true))
  }

  /** The same set of strings, stated character by character. */
  ghost predicate DecimalBodyChars(b: string)
  {
    (exists k :: 0 <= k < |b| && IsDigit(b[k]))
    && (forall k :: 0 <= k < |b| ==> IsDigit(b[k]) || b[k] == '.')
    && (forall i, j :: 0 <= i < j < |b| && b[i] == '.' ==> b[j] != '.')
  }

  /** `is_numeric` on decimal text: an optional sign and a decimal number. */
  predicate IsNumeric(s: string)
  {
    if s != [] && (s[0] == '-' || s[0] == '+') then IsDecimalBody(s[1..]) else IsDecimalBody(s)
  }

  /** The cell types with a branch of their own. */
  predicate SpecialType(t: Text)
  {
    t == Some("inlineStr") || t == Some("s") || t == Some("d") || t == Some("b")
  }

  /** `$shared[$node_value]`: the entry at the integer key the text denotes,
      null for any other text. */
  function SharedValue(v: Text, shared: seq<Text>): Value
  {
    match KeyOf(v)
    case Index(n) => if n < |shared| then TextValue(shared[n]) else Null
    case Name(_) => Null
  }

  /** The whole days of `(float)$node_value` when the text is a whole
      number: null and "" count as 0; any other text gives None. */
  function Serial(v: Text): Option<int>
  {
    if v.None? || v.value == "" then Some(0)
    else
      var s := v.value;
      if s[0] == '-' && |s| > 1 && AllDigits(s[1..]) then Some(-(DigitsValue(s[1..]) as int))
      else if s[0] == '+' && |s| > 1 && AllDigits(s[1..]) then Some(DigitsValue(s[1..]))
      else if AllDigits(s) then Some(DigitsValue(s))
      else None
  }

  /** `parseDate` for a whole serial `d`: the Unix timestamp of day `d` of
      the 1900 system, after shifting 1904-system serials by 1462 days;
      serial 0 stays at timestamp 0. */
  function DateSeconds(d: int, date1904: bool): int
  {
    var day := if date1904 then d + 1462 else d;
    if day != 0 then (day - 25569) * 86400 else 0
  }

  /** The value of a cell of the resolved type `t` with the text `v`. */
  function Coerce(t: Text, v: Text, shared: seq<Text>, date1904: bool): Value
  {
    if t == Some("inlineStr") then TextValue(v)
    else if t == Some("s") then SharedValue(v, shared)
    else if t == Some("d") then
      match Serial(v)
      case Some(d) => Date(DateSeconds(d, date1904))
      case None => OtherDate(if v.Some? then v.value else "")
    else if t == Some("b") then Bool(Truthy(v))
    else if v.Some? && IsNumeric(v.value) then
      if '.' in v.value then Float(v.value) else Int(Saturate(IntCast(v)))
    else TextValue(v)
  }

  /** `substr($ref, 0, -strlen($row))`: the reference without as many
      trailing characters as the row number has, and "" when nothing is left;
      an empty row text makes the length 0, which also gives "". */
  function ColumnOf(ref: Text, rowText: string): (c: string)
    ensures ref.Some? && rowText != "" && |ref.value| > |rowText| ==> |c| == |ref.value| - |rowText| && c <= ref.value
    ensures ref.None? || rowText == "" || |ref.value| <= |rowText| ==> c == ""
  {
    if ref.Some? && rowText != "" && |ref.value| > |rowText| then ref.value[..|ref.value| - |rowText|] else ""
  }

  /** The type of a cell: its `t` attribute, or else the type of the format
      its `s` attribute selects, or null. */
  function ResolveType(t: Text, s: Text, formats: seq<Format>): Text
  {
    if t.Some? then t
    else match KeyOf(s)
      case Index(n) => if n < |formats| then formats[n].cellType else None
      case Name(_) => None
  }

  // ---------------------------------------------------------------------
  // Properties

  lemma {:induction false} HasDigitIff(b: string)
    ensures HasDigit(b) <==> exists k :: 0 <= k < |b| && IsDigit(b[k])
    decreases |b|
  {
    if b != [] {
      HasDigitIff(b[1..]);
      if IsDigit(b[0]) {
        assert 0 < |b| && IsDigit(b[0]);
      } else if exists k :: 0 <= k < |b| && IsDigit(b[k]) {
        var k :| 0 <= k < |b| && IsDigit(b[k]);
        assert b[1..][k - 1] == b[k];
      }
    }
  }

  lemma {:induction false} DecimalCharsIff(b: string, dot: bool)
    ensures DecimalChars(b, dot) <==>
      (forall k :: 0 <= k < |b| ==> IsDigit(b[k]) || b[k] == '.')
      && (forall i, j :: 0 <= i < j < |b| && b[i] == '.' ==> b[j] != '.')
      && (dot ==> forall k :: 0 <= k < |b| ==> b[k] != '.')
    decreases |b|
  {
    if b != [] {
      var t := b[1..];
      assert forall k :: 1 <= k < |b| ==> b[k] == t[k - 1];
      DecimalCharsIff(t, dot);
      DecimalCharsIff(t, true);
    }
  }

  lemma DecimalBodyIff(b: string)
    ensures IsDecimalBody(b) <==> DecimalBodyChars(b)
  {
    HasDigitIff(b);
    DecimalCharsIff(b, false);
  }

  lemma DecimalIsNumeric(n: nat)
    ensures IsDecimalBody(NatToDecimal(n)) && '.' !in NatToDecimal(n)
  {
    var s := NatToDecimal(n);
    assert IsDigit(s[0]);
    DecimalBodyIff(s);
  }

  /** An integer written in decimal is read back as that integer. */
  lemma IntegerRoundTrip(n: int, t: Text, shared: seq<Text>, date1904: bool)
    requires Int64Min <= n <= Int64Max && !SpecialType(t)
    ensures Coerce(t, Some(IntToDecimal(n)), shared, date1904) == Int(n)
  {
    var m: nat := if n < 0 then -n else n;
    DecimalIsNumeric(m);
    IntCastOfDecimal(n);
    var s := IntToDecimal(n);
    if n < 0 {
      assert s[1..] == NatToDecimal(m);
      assert s[0] == '-';
    } else {
      assert IsDigit(s[0]);
    }
  }

  /** Text of another type becomes a number exactly when it is numeric:
      with a '.' a float, otherwise an integer; all else stays text. */
  lemma PlainCoercion(t: Text, s: string, shared: seq<Text>, date1904: bool)
    requires !SpecialType(t)
    ensures Coerce(t, Some(s), shared, date1904) == Str(s) <==> !IsNumeric(s)
    ensures Coerce(t, Some(s), shared, date1904).Float? <==> IsNumeric(s) && '.' in s
    ensures Coerce(t, Some(s), shared, date1904).Int? <==> IsNumeric(s) && '.' !in s
  {
  }

  /** A shared-string cell holding index `i` yields entry `i` of the table. */
  lemma SharedRoundTrip(i: nat, shared: seq<Text>, date1904: bool)
    requires i < |shared|
    ensures Coerce(Some("s"), Some(NatToDecimal(i)), shared, date1904) == TextValue(shared[i])
  {
    KeyOfDecimal(i);
  }

  /** A shared-string cell is non-null only when its text is the decimal
      index of a non-null entry of the table. */
  lemma SharedOnlyByIndex(v: Text, shared: seq<Text>, date1904: bool)
    requires Coerce(Some("s"), v, shared, date1904) != Null
    ensures exists i :: 0 <= i < |shared| && v == Some(NatToDecimal(i)) && shared[i].Some?
  {
    var s := if v.Some? then v.value else "";
    assert IsCanonicalNat(s);
    var i := DigitsValue(s);
    CanonicalRoundTrip(s);
    assert v == Some(NatToDecimal(i));
  }

  /** A date cell holding a whole serial `d` becomes the timestamp of that day. */
  lemma DateRoundTrip(d: int, shared: seq<Text>, date1904: bool)
    ensures Coerce(Some("d"), Some(IntToDecimal(d)), shared, date1904) == Date(DateSeconds(d, date1904))
  {
    var m: nat := if d < 0 then -d else d;
    NatToDecimalRoundTrip(m);
    var s := IntToDecimal(d);
    if d < 0 {
      assert s[1..] == NatToDecimal(m);
    } else {
      assert IsDigit(s[0]);
    }
  }

  /** Serial 25569 is the Unix epoch, 44166 is 2020-12-01 in the 1900
      system and 42704 the same day in the 1904 system; an empty date cell
      gives timestamp 0. */
  lemma DateExamples(shared: seq<Text>)
    ensures DateSeconds(25569, false) == 0
    ensures DateSeconds(44166, false) == 1606780800
    ensures DateSeconds(42704, true) == 1606780800
    ensures Coerce(Some("d"), None, shared, false) == Date(0)
  {
  }

  /** A 1904-system serial is the 1900-system serial 1462 days later. */
  lemma Date1904Shift(d: int)
    ensures DateSeconds(d, true) == DateSeconds(d + 1462, false)
  {
  }

  /** Boolean cells: "0", "" and an absent value are false, any other text true. */
  lemma BooleanCells(s: string, shared: seq<Text>, date1904: bool)
    ensures Coerce(Some("b"), None, shared, date1904) == Bool(false)
    ensures Coerce(Some("b"), Some(s), shared, date1904) == Bool(s != "" && s != "0")
  {
  }

  /** The cells of the sample sheet: "123" is the integer 123, "123.456"
      the float 123.456, shared index "0" the first shared string. */
  lemma SampleCells(date1904: bool)
    ensures Coerce(None, Some("123"), [], date1904) == Int(123)
    ensures Coerce(None, Some("123.456"), [], date1904) == Float("123.456")
    ensures Coerce(Some("s"), Some("0"), [Some("test"), Some("abc")], date1904) == Str("test")
  {
    SampleInteger(date1904);
    SampleFloat(date1904);
    SampleShared(date1904);
  }

  lemma SampleInteger(date1904: bool)
    ensures Coerce(None, Some("123"), [], date1904) == Int(123)
  {
    IntegerRoundTrip(123, None, [], date1904);
    assert IntToDecimal(123) == "123";
  }

  lemma SampleFloat(date1904: bool)
    ensures Coerce(None, Some("123.456"), [], date1904) == Float("123.456")
  {
    assert "123.456"[3] == '.';
    assert IsNumeric("123.456");
  }

  lemma SampleShared(date1904: bool)
    ensures Coerce(Some("s"), Some("0"), [Some("test"), Some("abc")], date1904) == Str("test")
  {
    KeyOfDecimal(0);
    assert NatToDecimal(0) == "0";
  }

  /** Stripping the row number from a reference gives the column label back. */
  lemma ColumnOfRoundTrip(k: nat, r: int)
    ensures ColumnOf(Some(CsvReader.ColumnLabel(k) + IntToDecimal(r)), IntToDecimal(r)) == CsvReader.ColumnLabel(k)
  {
    CsvReader.LabelRoundTrip(k);
    var name := CsvReader.ColumnLabel(k);
    assert (name + IntToDecimal(r))[..|name|] == name;
  }

  lemma ColumnOfExample()
    ensures ColumnOf(Some("C4"), "4") == "C"
    ensures ColumnOf(Some("AB12"), "12") == "AB"
    ensures ColumnOf(None, "4") == "" && ColumnOf(Some("4"), "4") == ""
  {
  }

  /** A cell without `t` takes the type of the format its `s` index selects,
      and a `t` attribute always wins. */
  lemma ResolveRoundTrip(t: string, i: nat, formats: seq<Format>)
    requires i < |formats|
    ensures ResolveType(None, Some(NatToDecimal(i)), formats) == formats[i].cellType
    ensures ResolveType(Some(t), Some(NatToDecimal(i)), formats) == Some(t)
  {
    KeyOfDecimal(i);
  }
}
