/** Values shared by the readers: PHP's nullable strings, the exceptions the
    readers raise, decimal text and PHP's insertion-ordered string-keyed arrays. */
module Common {

  datatype Option<+T> = None | Some(value: T)

  /** A PHP `?string`: a string or null. */
  type Text = Option<string>

  /** Why a `ReaderException` is raised. */
  datatype ReaderFailure =
    | FileMissing          // "File ... doesn't exists."
    | FileUnreadable       // "File ... isn't readable."
    | ArchiveUnopenable    // "Can't open file : ..."
    | WorkbookMissing      // "File not contains xL/workbook.xml"
    | PartUnopenable       // "Can't open part ..."
    | NoRow                // "Can't find any row"
    | WorksheetNotFound    // "Worksheet index/id/name: ... not found."

  /** The exceptions of the library: `BadMethodCallException` for a bad row
      window, `ReaderException`, and `UnsupportedFileFormat`; `StreamTypeError`
      is PHP's own `TypeError`, raised when a stream function is handed the
      `false` of a failed `fopen`. */
  datatype Error =
    | BadMethodCall
    | ReaderException(reason: ReaderFailure)
    | UnsupportedFileFormat
    | StreamTypeError

  datatype Result<+T> = Ok(value: T) | Err(error: Error)

  datatype Outcome = Pass | Fail(error: Error)

  /** PHP truthiness of a nullable string: null, "" and "0" are false. */
  predicate Truthy(t: Text)
  {
    t.Some? && t.value != "" && t.value != "0"
  }

  // ---------------------------------------------------------------------
  // Decimal text

  predicate IsDigit(c: char) { '0' <= c <= '9' }

  predicate AllDigits(s: string) { forall i :: 0 <= i < |s| ==> IsDigit(s[i]) }

  function DigitValue(c: char): nat
    requires IsDigit(c)
  {
    c as int - '0' as int
  }

  function DigitChar(d: nat): (c: char)
    requires d < 10
    ensures IsDigit(c) && DigitValue(c) == d
  {
    ('0' as int + d) as char
  }

  /** The number a string of decimal digits denotes. */
  function DigitsValue(s: string): nat
    requires AllDigits(s)
    decreases |s|
  {
    if s == [] then 0 else DigitsValue(s[..|s| - 1]) * 10 + DigitValue(s[|s| - 1])
  }

  /** Decimal rendering of a natural number, as PHP's string conversion does. */
  function NatToDecimal(n: nat): (s: string)
    ensures |s| > 0 && AllDigits(s)
    decreases n
  {
    if n < 10 then [DigitChar(n)] else NatToDecimal(n / 10) + [DigitChar(n % 10)]
  }

  /** Decimal rendering of an integer, with a leading '-' when negative. */
  function IntToDecimal(i: int): string
  {
    if i < 0 then "-" + NatToDecimal(-i) else NatToDecimal(i)
  }

  /** A digit string PHP turns into an integer array key: no leading zero. */
  predicate IsCanonicalNat(s: string)
  {
    |s| > 0 && AllDigits(s) && (s[0] == '0' ==> |s| == 1)
  }

  lemma {:induction false} NatToDecimalRoundTrip(n: nat)
    ensures DigitsValue(NatToDecimal(n)) == n
    ensures IsCanonicalNat(NatToDecimal(n))
    decreases n
  {
    var s := NatToDecimal(n);
    if n >= 10 {
      NatToDecimalRoundTrip(n / 10);
      assert s[..|s| - 1] == NatToDecimal(n / 10);
      assert s[0] == NatToDecimal(n / 10)[0];
    }
  }

  lemma {:induction false} LeadingNonZero(s: string)
    requires AllDigits(s) && s != [] && s[0] != '0'
    ensures DigitsValue(s) >= 1
    decreases |s|
  {
    if |s| > 1 {
      LeadingNonZero(s[..|s| - 1]);
    }
  }

  /** A decimal text without leading zero is the rendering of its value. */
  lemma {:induction false} CanonicalRoundTrip(s: string)
    requires IsCanonicalNat(s)
    ensures NatToDecimal(DigitsValue(s)) == s
    decreases |s|
  {
    if |s| > 1 {
      var init := s[..|s| - 1];
      assert init[0] == s[0];
      LeadingNonZero(init);
      CanonicalRoundTrip(init);
      assert s == init + [s[|s| - 1]];
    } else {
      assert s == [s[0]];
    }
  }

  /** The longest prefix of `s` made of digits. */
  function LeadingDigits(s: string): (r: string)
    ensures AllDigits(r) && r <= s
    ensures |r| < |s| ==> !IsDigit(s[|r|])
    decreases |s|
  {
    if s != [] && IsDigit(s[0]) then [s[0]] + LeadingDigits(s[1..]) else []
  }

  /** PHP's `(int)` cast of a nullable string: an optional sign followed by
      the leading digits; null and text without leading digits give 0. */
  function IntCast(t: Text): int
  {
    match t
    case None => 0
    case Some(s) =>
      if s != [] && s[0] == '-' then -(DigitsValue(LeadingDigits(s[1..]) ) as int)
      else if s != [] && s[0] == '+' then DigitsValue(LeadingDigits(s[1..]))
      else DigitsValue(LeadingDigits(s))
  }

  lemma {:induction false} LeadingDigitsOfDigits(s: string)
    requires AllDigits(s)
    ensures LeadingDigits(s) == s
    decreases |s|
  {
    if s != [] {
      LeadingDigitsOfDigits(s[1..]);
    }
  }

  /** `(int)(string)$i == $i`: casting the decimal rendering back gives the integer. */
  lemma IntCastOfDecimal(i: int)
    ensures IntCast(Some(IntToDecimal(i))) == i
  {
    var n: nat := if i < 0 then -i else i;
    NatToDecimalRoundTrip(n);
    LeadingDigitsOfDigits(NatToDecimal(n));
    if i < 0 {
      assert IntToDecimal(i)[1..] == NatToDecimal(n);
    } else {
      assert IsDigit(NatToDecimal(n)[0]);
    }
  }

  // ---------------------------------------------------------------------
  // PHP arrays with string keys, which keep their insertion order

  type Assoc<V> = seq<(string, V)>

  predicate HasKey<V>(a: Assoc<V>, k: string)
  {
    exists j :: 0 <= j < |a| && a[j].0 == k
  }

  predicate DistinctKeys<V>(a: Assoc<V>)
  {
    forall i, j :: 0 <= i < j < |a| ==> a[i].0 != a[j].0
  }

  /** Position of key `k`, or -1 when absent. */
  function KeyIndex<V>(a: Assoc<V>, k: string): (i: int)
    ensures -1 <= i < |a|
    ensures i >= 0 ==> a[i].0 == k && forall j :: 0 <= j < i ==> a[j].0 != k
    ensures i < 0 ==> !HasKey(a, k)
    decreases |a|
  {
    if a == [] then -1
    else if a[0].0 == k then 0
    else
      var i := KeyIndex(a[1..], k);
      if i < 0 then -1 else i + 1
  }

  /** `$a[$k] = $v`: overwrite in place when the key exists, append otherwise. */
  function Put<V>(a: Assoc<V>, k: string, v: V): Assoc<V>
  {
    var i := KeyIndex(a, k);
    if i < 0 then a + [(k, v)] else a[i := (k, v)]
  }

  /** An assignment to an existing key keeps the length and the place of
      every entry, a new key is appended, the key is present afterwards, no
      other entry changes, and distinct keys stay distinct. */
  lemma PutSemantics<V>(a: Assoc<V>, k: string, v: V)
    ensures HasKey(a, k) ==> |Put(a, k, v)| == |a|
    ensures !HasKey(a, k) ==> Put(a, k, v) == a + [(k, v)]
    ensures HasKey(Put(a, k, v), k)
    ensures forall j :: 0 <= j < |a| && a[j].0 != k ==> Put(a, k, v)[j] == a[j]
    ensures DistinctKeys(a) ==> DistinctKeys(Put(a, k, v))
  {
    var i := KeyIndex(a, k);
    var r := Put(a, k, v);
    if i < 0 {
      assert r[|a|].0 == k;
    } else {
      assert r[i].0 == k;
    }
  }
}
