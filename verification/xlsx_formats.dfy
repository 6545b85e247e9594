/** The number-format side of src/Reader/XlsxReader.php: the built-in format
    codes, the removal of bracketed runs from a code, and the classification
    of a cell format (`xf`) as date-typed or not. */
module XlsxFormats {
  import opened Common

  /** One entry of the format table: the format code the `xf` refers to, and
      the cell type it implies, "d" for a date and null otherwise. */
  datatype Format = Format(style: Text, cellType: Text)

  /** A PHP array key: a decimal text without leading zero becomes an
      integer key, any other text stays a string key. */
  datatype Key = Index(n: nat) | Name(text: string)

  /** The key PHP uses for an attribute value; null counts as "". */
  function KeyOf(t: Text): Key
  {
    var s := if t.Some? then t.value else "";
    if IsCanonicalNat(s) then Index(DigitsValue(s)) else Name(s)
  }

  /** Two attribute values give the same key exactly when they are the same
      text, so the integer keys lose nothing. */
  lemma KeyOfInjective(a: Text, b: Text)
    ensures KeyOf(a) == KeyOf(b) <==> (if a.Some? then a.value else "") == (if b.Some? then b.value else "")
  {
    var sa := if a.Some? then a.value else "";
    var sb := if b.Some? then b.value else "";
    if IsCanonicalNat(sa) && IsCanonicalNat(sb) && DigitsValue(sa) == DigitsValue(sb) {
      CanonicalRoundTrip(sa);
      CanonicalRoundTrip(sb);
    }
  }

  /** The key of the decimal text of `n` is the integer key `n`. */
  lemma KeyOfDecimal(n: nat)
    ensures KeyOf(Some(NatToDecimal(n))) == Index(n)
  {
    NatToDecimalRoundTrip(n);
  }

  /** The code of built-in number format `id`, or null for an id with none. */
  function BuiltinCode(id: nat): Text
  {
    match id
    case 0 => Some("General")
    case 1 => Some("0")
    case 2 => Some("0.00")
    case 3 => Some("#,##0")
    case 4 => Some("#,##0.00")
    case 9 => Some("0%")
    case 10 => Some("0.00%")
    case 11 => Some("0.00E+00")
    case 12 => Some("# ?/?")
    case 13 => Some("# ??/??")
    case 14 => Some("mm-dd-yy")
    case 15 => Some("d-mmm-yy")
    case 16 => Some("d-mmm")
    case 17 => Some("mmm-yy")
    case 18 => Some("h:mm AM/PM")
    case 19 => Some("h:mm:ss AM/PM")
    case 20 => Some("h:mm")
    case 21 => Some("h:mm:ss")
    case 22 => Some("m/d/yy h:mm")
    case 37 => Some("#,##0 ;(#,##0)")
    case 38 => Some("#,##0 ;[Red](#,##0)")
    case 39 => Some("#,##0.00;(#,##0.00)")
    case 40 => Some("#,##0.00;[Red](#,##0.00)")
    case 45 => Some("mm:ss")
    case 46 => Some("[h]:mm:ss")
    case 47 => Some("mmss.0")
    case 48 => Some("##0.0E+0")
    case 49 => Some("@")
    case _ => None
  }

  /** The built-in number formats, by id. */
  const Builtin: map<Key, Text> :=
    map k | k in (set id: nat | id < 50 && BuiltinCode(id).Some? :: Index(id)) :: BuiltinCode(k.n)

  /** `$styles[$nfi] ?? null`. */
  function StyleOf(nfi: Text, styles: map<Key, Text>): Text
  {
    var key := KeyOf(nfi);
    if key in styles then styles[key] else None
  }

  // ---------------------------------------------------------------------
  // Removing bracketed runs: the pattern (?<!\\)\[.+?(?<!\\)]

  /** The first position from `k` on that closes a bracketed run: a ']'
      not preceded by a backslash, with no line break before it; -1 when the
      code ends or a line break comes first. */
  function CloseFrom(s: string, k: nat): (j: int)
    requires 1 <= k
    ensures j == -1 || (k <= j < |s| && s[j] == ']' && s[j - 1] != '\\')
    ensures j >= 0 ==> forall m :: k - 1 <= m < j ==> s[m] != '\n'
    decreases |s| - k
  {
    if k >= |s| || s[k - 1] == '\n' then -1
    else if s[k] == ']' && s[k - 1] != '\\' then k
    else CloseFrom(s, k + 1)
  }

  /** `preg_replace` of the pattern by "" on `s` from position `i`: an
      unescaped '[' followed by at least one character and the nearest
      closing ']' is dropped with everything between. */
  function StripFrom(s: string, i: nat): (r: string)
    decreases |s| - i
  {
    if i >= |s| then ""
    else if s[i] == '[' && (i == 0 || s[i - 1] != '\\') && CloseFrom(s, i + 2) >= 0 then
      StripFrom(s, CloseFrom(s, i + 2) + 1)
    else [s[i]] + StripFrom(s, i + 1)
  }

  function StripBrackets(s: string): string
  {
    StripFrom(s, 0)
  }

  /** True when `s` contains "yy". */
  predicate HasYY(s: string)
    decreases |s|
  {
    |s| >= 2 && ((s[0] == 'y' && s[1] == 'y') || HasYY(s[1..]))
  }

  /** A code denotes a date or time when it contains one of e, d, h, m, s or yy. */
  predicate IsDateCode(s: string)
  {
    'e' in s || 'd' in s || 'h' in s || 'm' in s || 's' in s || HasYY(s)
  }

  /** A format code that marks its cells as dates: a truthy code that
      still holds a date character once its bracketed runs are removed. */
  predicate DateStyle(style: Text)
  {
    Truthy(style) && IsDateCode(StripBrackets(style.value))
  }

  /** The entry appended for an `xf` with the given `numFmtId`. */
  function XfFormat(nfi: Text, styles: map<Key, Text>): (f: Format)
    ensures f.style == StyleOf(nfi, styles)
    ensures f.cellType == None || f.cellType == Some("d")
  {
    var style := StyleOf(nfi, styles);
    if nfi != Some("0") && DateStyle(style) then Format(style, Some("d")) else Format(style, None)
  }

  // ---------------------------------------------------------------------
  // Properties

  /** Every character the stripping keeps is one of the code's characters,
      so stripping never brings in a date character. */
  lemma {:induction false} StripKeeps(s: string, i: nat, c: char)
    requires c in StripFrom(s, i)
    ensures c in s
    decreases |s| - i
  {
    if i < |s| {
      if s[i] == '[' && (i == 0 || s[i - 1] != '\\') && CloseFrom(s, i + 2) >= 0 {
        StripKeeps(s, CloseFrom(s, i + 2) + 1, c);
      } else if c != s[i] {
        StripKeeps(s, i + 1, c);
      }
    }
  }

  /** An unescaped bracketed run is dropped, an escaped one is kept. */
  lemma StripExamples()
    ensures StripBrackets("[Red]0") == "0"
    ensures StripBrackets("[h]:mm") == ":mm"
    ensures StripBrackets("\\[h]") == "\\[h]"
    ensures StripBrackets("[]") == "[]"
  {
  }

  lemma StripStep(s: string, i: nat)
    requires i < |s| && s[i] != '['
    ensures StripFrom(s, i) == [s[i]] + StripFrom(s, i + 1)
  {
  }

  /** A stretch without '[' is copied as it is. */
  lemma {:induction false} StripPlain(s: string, i: nat, j: nat)
    requires i <= j <= |s|
    requires forall k :: i <= k < j ==> s[k] != '['
    ensures StripFrom(s, i) == s[i..j] + StripFrom(s, j)
    decreases j - i
  {
    if i < j {
      StripStep(s, i);
      StripPlain(s, i + 1, j);
      assert s[i..j] == [s[i]] + s[i + 1..j];
    }
  }

  lemma PlainCode(c: string)
    requires '[' !in c
    ensures StripBrackets(c) == c
  {
    StripPlain(c, 0, |c|);
    assert c[0..|c|] == c;
  }

  lemma {:induction false} CloseAt(s: string, k: nat, j: nat)
    requires 1 <= k <= j < |s| && s[j] == ']' && s[j - 1] != '\\'
    requires forall m :: k - 1 <= m < j ==> s[m] != '\n'
    requires forall m :: k <= m < j ==> s[m] != ']'
    ensures CloseFrom(s, k) == j
    decreases j - k
  {
    if k < j {
      CloseAt(s, k + 1, j);
    }
  }

  /** A code whose only '[' opens the run `s[i..j+1]` loses exactly that run. */
  lemma OneRun(s: string, i: nat, j: nat)
    requires i + 2 <= j < |s| && s[i] == '[' && (i == 0 || s[i - 1] != '\\') && s[j] == ']'
    requires forall k :: 0 <= k < |s| && k != i ==> s[k] != '['
    requires CloseFrom(s, i + 2) == j
    ensures StripBrackets(s) == s[..i] + s[j + 1..]
  {
    StripPlain(s, 0, i);
    StripPlain(s, j + 1, |s|);
    assert s[j + 1..|s|] == s[j + 1..];
  }

  lemma {:induction false} NoYY(s: string)
    requires 'y' !in s
    ensures !HasYY(s)
    decreases |s|
  {
    if |s| >= 2 {
      NoYY(s[1..]);
    }
  }

  /** A code with no '[' and none of the date characters is not a date. */
  lemma PlainNonDate(c: string)
    requires '[' !in c && 'e' !in c && 'd' !in c && 'h' !in c && 'm' !in c && 's' !in c && 'y' !in c
    ensures !IsDateCode(c) && !DateStyle(Some(c))
  {
    PlainCode(c);
    NoYY(c);
  }

  /** The `numFmtId` of an `xf` finds the code declared under the integer
      key it denotes. */
  lemma StyleOfDecimal(n: nat, styles: map<Key, Text>)
    ensures StyleOf(Some(NatToDecimal(n)), styles) == if Index(n) in styles then styles[Index(n)] else None
  {
    KeyOfDecimal(n);
  }

  lemma ColourRunStrip(code: string)
    requires code == "#,##0 ;[Red](#,##0)"
    ensures StripBrackets(code) == code[..7] + code[12..]
  {
    CloseAt(code, 9, 11);
    OneRun(code, 7, 11);
  }

  /** Built-in code 38 holds 'e' and 'd' only inside its "[Red]" run, so
      it is not a date. */
  lemma ColourRunIgnored(code: string)
    requires code == "#,##0 ;[Red](#,##0)"
    ensures !DateStyle(Some(code))
  {
    ColourRunStrip(code);
    var kept := code[..7] + code[12..];
    assert kept == "#,##0 ;(#,##0)";
    PlainNonDate(kept);
  }

  /** Built-in code 46 keeps its minutes and seconds once "[h]" is removed,
      so it is a date. */
  lemma ElapsedHoursIsDate(code: string)
    requires code == "[h]:mm:ss"
    ensures Index(46) in Builtin && Builtin[Index(46)] == Some(code)
    ensures DateStyle(Some(code))
  {
    CloseAt(code, 2, 2);
    OneRun(code, 0, 2);
    assert (code[..0] + code[3..])[1] == 'm';
  }

  /** Built-in code 11 has only an upper-case 'E', which is not a date character. */
  lemma ExponentIsNotDate(code: string)
    requires code == "0.00E+00"
    ensures Index(11) in Builtin && Builtin[Index(11)] == Some(code)
    ensures !DateStyle(Some(code))
  {
    PlainNonDate(code);
  }

  /** Built-in code 14 is a date. */
  lemma MonthDayYearIsDate(code: string)
    requires code == "mm-dd-yy"
    ensures Index(14) in Builtin && Builtin[Index(14)] == Some(code)
    ensures DateStyle(Some(code))
  {
    PlainCode(code);
    assert code[0] == 'm';
  }

  /** The code "General" of id 0 holds an 'e', but an `xf` with `numFmtId`
      "0" is never a date, whatever the table holds. */
  lemma GeneralIsNotDate(code: string, styles: map<Key, Text>)
    requires code == "General"
    ensures Index(0) in Builtin && Builtin[Index(0)] == Some(code)
    ensures DateStyle(Some(code))
    ensures XfFormat(Some("0"), styles).cellType == None
  {
    PlainCode(code);
    assert code[1] == 'e';
  }
}
