/** What src/Reader/XlsxReader.php extracts from the parts of a workbook,
    stated as functions of each part's node events: the workbook's sheet list
    and date system, the shared-string table, the format table, the cells of
    a row and the window of rows `read` yields. The reader class follows
    these step by step. */
module XlsxParts {
  import opened Common
  import opened XmlCursor
  import opened XlsxFormats
  import opened XlsxCell

  /** A worksheet declaration: its name and its integer `sheetId`. */
  datatype Worksheet = Worksheet(name: Text, id: int)

  /** One `row` element of a worksheet part: its attributes, whether it is
      self-closing, and the node events after its start tag, up to and
      including its end tag. */
  datatype Row = Row(attrs: map<string, string>, isEmpty: bool, body: seq<Node>)

  /** The tables a row is decoded against. */
  datatype Tables = Tables(shared: seq<Text>, formats: seq<Format>, date1904: bool)

  // ---------------------------------------------------------------------
  // Node events of well-formed parts

  function Open(name: string, attrs: map<string, string>): Node
  {
    Node(Element, name, attrs, false, "")
  }

  function Leaf(name: string, attrs: map<string, string>): Node
  {
    Node(Element, name, attrs, true, "")
  }

  function Close(name: string): Node
  {
    Node(EndElement, name, map[], false, "")
  }

  function TextOf(value: string): Node
  {
    Node(TextNode, "", map[], false, value)
  }

  // ---------------------------------------------------------------------
  // The workbook part

  /** The characters PHP's `trim` removes. */
  predicate IsTrimmed(c: char)
  {
    c == ' ' || c == '\t' || c == '\n' || c == '\r' || c == '\0' || c == '\U{000B}'
  }

  /** `ltrim`: drops the leading trimmed characters. */
  function TrimStart(s: string): string
    decreases |s|
  {
    if s != [] && IsTrimmed(s[0]) then TrimStart(s[1..]) else s
  }

  /** `rtrim`: drops the trailing trimmed characters. */
  function TrimEnd(s: string): string
    decreases |s|
  {
    if s != [] && IsTrimmed(s[|s| - 1]) then TrimEnd(s[..|s| - 1]) else s
  }

  /** `ltrim` leaves a suffix of the text; everything before it is a
      trimmed character, and it does not start with one. */
  lemma {:induction false} TrimStartSpec(s: string)
    ensures |TrimStart(s)| <= |s| && TrimStart(s) == s[|s| - |TrimStart(s)|..]
    ensures forall k :: 0 <= k < |s| - |TrimStart(s)| ==> IsTrimmed(s[k])
    ensures TrimStart(s) != [] ==> !IsTrimmed(TrimStart(s)[0])
    decreases |s|
  {
    if s != [] && IsTrimmed(s[0]) {
      TrimStartSpec(s[1..]);
      assert forall k :: 1 <= k < |s| ==> s[k] == s[1..][k - 1];
    }
  }

  /** `rtrim` leaves a prefix of the text; everything after it is a
      trimmed character, and it does not end with one. */
  lemma {:induction false} TrimEndSpec(s: string)
    ensures TrimEnd(s) <= s
    ensures forall k :: |TrimEnd(s)| <= k < |s| ==> IsTrimmed(s[k])
    ensures TrimEnd(s) != [] ==> !IsTrimmed(TrimEnd(s)[|TrimEnd(s)| - 1])
    decreases |s|
  {
    if s != [] && IsTrimmed(s[|s| - 1]) {
      TrimEndSpec(s[..|s| - 1]);
    }
  }

  /** `trim` of a nullable string; null counts as "". */
  function Trim(t: Text): string
  {
    TrimEnd(TrimStart(if t.Some? then t.value else ""))
  }

  /** The date system flag the `date1904` element's text sets. */
  predicate Flag1904(v: Text)
  {
    Trim(v) == "1" || Trim(v) == "true"
  }

  /** The declaration a `sheet` element adds. */
  function SheetOf(n: Node): Worksheet
  {
    Worksheet(Attribute(n, "name"), IntCast(Attribute(n, "sheetId")))
  }

  /** `loadWorkbook` from a cursor at `p`: every element named `date1904`
      sets the flag from its trimmed text (reading past that text), and every
      element named `sheet` appends its declaration. */
  function WorkbookScan(ev: seq<Node>, p: int, flag: bool, sheets: seq<Worksheet>): (bool, seq<Worksheet>)
    requires -1 <= p <= |ev|
    decreases |ev| - p
  {
    var next := p + 1;
    if next >= |ev| then (flag, sheets)
    else
      var n := ev[next];
      if n.nodeType != Element then WorkbookScan(ev, next, flag, sheets)
      else if n.name == "date1904" then
        var (v, q) := ReadValueAt(ev, next);
        WorkbookScan(ev, q, Flag1904(v), sheets)
      else if n.name == "sheet" then WorkbookScan(ev, next, flag, sheets + [SheetOf(n)])
      else WorkbookScan(ev, next, flag, sheets)
  }

  predicate IsSheet(n: Node)
  {
    n.nodeType == Element && n.name == "sheet"
  }

  /** The declarations of the `sheet` elements of `s`, in order. */
  function SheetsOf(s: seq<Node>): seq<Worksheet>
    decreases |s|
  {
    if s == [] then []
    else (if IsSheet(s[0]) then [SheetOf(s[0])] else []) + SheetsOf(s[1..])
  }

  predicate IsFlagElement(n: Node)
  {
    n.nodeType == Element && n.name == "date1904"
  }

  /** Without a `date1904` element, the flag is kept and every `sheet`
      element is appended, in file order. */
  lemma {:induction false} WorkbookSheets(ev: seq<Node>, p: int, flag: bool, sheets: seq<Worksheet>)
    requires -1 <= p < |ev|
    requires forall k :: p < k < |ev| ==> !IsFlagElement(ev[k])
    ensures WorkbookScan(ev, p, flag, sheets) == (flag, sheets + SheetsOf(ev[p + 1..]))
    decreases |ev| - p
  {
    var next := p + 1;
    if next >= |ev| {
      assert ev[p + 1..] == [];
      assert sheets + SheetsOf([]) == sheets;
    } else {
      var n := ev[next];
      assert ev[p + 1..][0] == n && ev[p + 1..][1..] == ev[next + 1..];
      assert SheetsOf(ev[p + 1..]) == (if IsSheet(n) then [SheetOf(n)] else []) + SheetsOf(ev[next + 1..]);
      assert !IsFlagElement(n);
      if IsSheet(n) {
        assert WorkbookScan(ev, p, flag, sheets) == WorkbookScan(ev, next, flag, sheets + [SheetOf(n)]);
        WorkbookSheets(ev, next, flag, sheets + [SheetOf(n)]);
        assert sheets + [SheetOf(n)] + SheetsOf(ev[next + 1..]) == sheets + ([SheetOf(n)] + SheetsOf(ev[next + 1..]));
      } else {
        assert WorkbookScan(ev, p, flag, sheets) == WorkbookScan(ev, next, flag, sheets);
        WorkbookSheets(ev, next, flag, sheets);
        assert [] + SheetsOf(ev[next + 1..]) == SheetsOf(ev[next + 1..]);
      }
    }
  }

  /** A workbook that opens with a `date1904` element holding text `x` uses
      the 1904 system exactly when `x` trims to "1" or "true", and lists the
      `sheet` elements that follow, in order. */
  lemma WorkbookFlag(x: string, rest: seq<Node>, flag: bool, sheets: seq<Worksheet>)
    requires forall k :: 0 <= k < |rest| ==> !IsFlagElement(rest[k])
    ensures var ev := [Open("date1904", map[]), TextOf(x), Close("date1904")] + rest;
      WorkbookScan(ev, -1, flag, sheets) == (Flag1904(Some(x)), sheets + SheetsOf(rest))
  {
    var ev := [Open("date1904", map[]), TextOf(x), Close("date1904")] + rest;
    assert ev[1] == TextOf(x) && ev[2] == Close("date1904");
    assert Collect(ev, 1, 0, x) == (Some(x), 2);
    assert "" + x == x;
    assert ReadValueAt(ev, 0) == (Some(x), 2);
    assert WorkbookScan(ev, -1, flag, sheets) == WorkbookScan(ev, 2, Flag1904(Some(x)), sheets);
    if |rest| == 0 {
      assert SheetsOf(rest) == [] && sheets + [] == sheets;
    } else {
      WorkbookSheets(ev, 2, Flag1904(Some(x)), sheets);
      assert ev[3..] == rest;
    }
  }

  lemma TrimExample(s: string)
    requires s == " true\n"
    ensures Trim(Some(s)) == "true"
  {
    assert s[1..] == "true\n" && !IsTrimmed('t');
    assert TrimStart(s) == "true\n";
    assert "true\n"[..4] == "true";
    assert TrimEnd("true\n") == TrimEnd("true");
  }

  // ---------------------------------------------------------------------
  // The shared-string part

  /** `loadSharedString` from a cursor at `p`: each `find('t')` that lands
      on a `t` element appends that element's text. */
  function SharedScan(ev: seq<Node>, p: int, acc: seq<Text>): seq<Text>
    requires -1 <= p <= |ev|
    decreases |ev| - p
  {
    var q := FindStop(ev, p, "t");
    if NodeAt(ev, q).name != "t" then acc
    else
      var (v, q2) := ReadValueAt(ev, q);
      SharedScan(ev, q2, acc + [v])
  }

  /** The events of one shared-string item `<si><t>s</t></si>`. */
  function Item(s: string): seq<Node>
  {
    [Open("si", map[]), Open("t", map[]), TextOf(s), Close("t"), Close("si")]
  }

  function Items(strs: seq<string>): (ev: seq<Node>)
    ensures |ev| == 5 * |strs|
    decreases |strs|
  {
    if strs == [] then [] else Item(strs[0]) + Items(strs[1..])
  }

  /** The texts as non-null values, in order. */
  function Somes(strs: seq<string>): (r: seq<Text>)
    ensures |r| == |strs|
    decreases |strs|
  {
    if strs == [] then [] else [Some(strs[0])] + Somes(strs[1..])
  }

  lemma AppendAssoc(a: seq<Text>, b: seq<Text>, c: seq<Text>)
    ensures a + b + c == a + (b + c)
  {
  }

  /** A node that cannot stop `find(name)` is passed over. */
  lemma SharedSkip(ev: seq<Node>, p: int, acc: seq<Text>)
    requires -1 <= p && p + 1 < |ev| && !StopsFind(ev[p + 1], "t")
    ensures SharedScan(ev, p, acc) == SharedScan(ev, p + 1, acc)
  {
  }

  /** No shared string comes from events that cannot stop `find('t')`. */
  lemma {:induction false} SharedNone(ev: seq<Node>, p: int, acc: seq<Text>)
    requires -1 <= p <= |ev|
    requires forall k :: p < k < |ev| ==> !StopsFind(ev[k], "t")
    ensures SharedScan(ev, p, acc) == acc
    decreases |ev| - p
  {
    if p + 1 < |ev| {
      SharedSkip(ev, p, acc);
      SharedNone(ev, p + 1, acc);
    }
  }

  /** One item `<si><t>s</t></si>` appends its text and leaves the cursor on
      its last event. */
  lemma SharedItemStep(ev: seq<Node>, p: int, s: string, acc: seq<Text>)
    requires -1 <= p && p + 6 <= |ev|
    requires forall k :: 0 <= k < 5 ==> ev[p + 1 + k] == Item(s)[k]
    ensures SharedScan(ev, p, acc) == SharedScan(ev, p + 5, acc + [Some(s)])
  {
    var e := Item(s);
    assert ev[p + 1] == e[0] == Open("si", map[]);
    assert ev[p + 2] == e[1] == Open("t", map[]);
    assert FindStop(ev, p, "t") == p + 2;
    assert ev[p + 3] == e[2] == TextOf(s);
    assert ev[p + 4] == e[3] == Close("t");
    assert "" + s == s;
    assert Collect(ev, p + 3, 0, s) == (Some(s), p + 4);
    assert ReadValueAt(ev, p + 2) == (Some(s), p + 4);
    assert ev[p + 5] == e[4] == Close("si");
    SharedSkip(ev, p + 4, acc + [Some(s)]);
  }

  lemma SlicePieces(ev: seq<Node>, i: nat, j: nat, a: seq<Node>, b: seq<Node>)
    requires i <= j <= |ev| && ev[i..j] == a + b
    ensures i + |a| <= j
    ensures forall k :: 0 <= k < |a| ==> ev[i + k] == a[k]
    ensures ev[i + |a|..j] == b
  {
    forall k | 0 <= k < |a|
      ensures ev[i + k] == a[k]
    {
      assert ev[i..j][k] == (a + b)[k];
    }
    assert ev[i + |a|..j] == ev[i..j][|a|..];
  }

  /** The first item of a table of items is loaded, and the rest of the
      table follows it. */
  lemma SharedHead(ev: seq<Node>, p: int, strs: seq<string>, acc: seq<Text>)
    requires strs != []
    requires -1 <= p && p + 1 + 5 * |strs| <= |ev|
    requires ev[p + 1..p + 1 + 5 * |strs|] == Items(strs)
    ensures ev[p + 6..p + 6 + 5 * (|strs| - 1)] == Items(strs[1..])
    ensures SharedScan(ev, p, acc) == SharedScan(ev, p + 5, acc + [Some(strs[0])])
  {
    SlicePieces(ev, p + 1, p + 1 + 5 * |strs|, Item(strs[0]), Items(strs[1..]));
    SharedItemStep(ev, p, strs[0], acc);
  }

  /** One entry per `t`, in order: a table of items `<si><t>s</t></si>`
      loads as the list of their texts. */
  lemma {:induction false} SharedItems(ev: seq<Node>, p: int, strs: seq<string>, acc: seq<Text>)
    requires -1 <= p && p + 1 + 5 * |strs| <= |ev|
    requires ev[p + 1..p + 1 + 5 * |strs|] == Items(strs)
    requires forall k :: p + 1 + 5 * |strs| <= k < |ev| ==> !StopsFind(ev[k], "t")
    ensures SharedScan(ev, p, acc) == acc + Somes(strs)
    decreases |strs|
  {
    if strs == [] {
      SharedNone(ev, p, acc);
      assert acc + Somes(strs) == acc;
    } else {
      var s := strs[0];
      var rest := strs[1..];
      SharedHead(ev, p, strs, acc);
      SharedItems(ev, p + 5, rest, acc + [Some(s)]);
      AppendAssoc(acc, [Some(s)], Somes(rest));
    }
  }

  // ---------------------------------------------------------------------
  // The styles part

  /** `loadFormats` from a cursor at `p`: `cellXfs` start and end tags open
      and close the cell-format list (a self-closing one leaves it closed),
      each `numFmt` element overrides a code in `styles`, and each `xf`
      element inside an open list appends its classified format. */
  function FormatsScan(ev: seq<Node>, p: int, inXfs: bool, styles: map<Key, Text>, acc: seq<Format>): seq<Format>
    requires -1 <= p <= |ev|
    decreases |ev| - p
  {
    var next := p + 1;
    if next >= |ev| then acc
    else
      var n := ev[next];
      if n.name == "cellXfs" then
        var open := if n.nodeType == Element then !n.isEmpty
                    else if n.nodeType == EndElement then false
                    else inXfs;
        FormatsScan(ev, next, open, styles, acc)
      else if n.nodeType != Element then FormatsScan(ev, next, inXfs, styles, acc)
      else if n.name == "numFmt" then
        FormatsScan(ev, next, inXfs, styles[KeyOf(Attribute(n, "numFmtId")) := Attribute(n, "formatCode")], acc)
      else if n.name == "xf" && inXfs then
        FormatsScan(ev, next, inXfs, styles, acc + [XfFormat(Attribute(n, "numFmtId"), styles)])
      else FormatsScan(ev, next, inXfs, styles, acc)
  }

  /** The table after the `numFmt` declarations `fmts` (id, code), in order. */
  function Overrides(styles: map<Key, Text>, fmts: seq<(string, string)>): map<Key, Text>
    decreases |fmts|
  {
    if fmts == [] then styles
    else
      var last := fmts[|fmts| - 1];
      Overrides(styles, fmts[..|fmts| - 1])[KeyOf(Some(last.0)) := Some(last.1)]
  }

  function NumFmt(f: (string, string)): Node
  {
    Leaf("numFmt", map["numFmtId" := f.0, "formatCode" := f.1])
  }

  function Xf(id: string): Node
  {
    Leaf("xf", map["numFmtId" := id])
  }

  /** The styles part `<numFmts>...</numFmts><cellXfs>...</cellXfs>` with the
      given declarations and cell formats. */
  function StylesEvents(fmts: seq<(string, string)>, xfs: seq<string>): seq<Node>
  {
    [Open("numFmts", map[])] + seq(|fmts|, k requires 0 <= k < |fmts| => NumFmt(fmts[k])) + [Close("numFmts")]
    + [Open("cellXfs", map[])] + seq(|xfs|, k requires 0 <= k < |xfs| => Xf(xfs[k])) + [Close("cellXfs")]
  }

  lemma {:induction false} NumFmtPhase(ev: seq<Node>, p: int, fmts: seq<(string, string)>, j: nat,
                                        inXfs: bool, styles: map<Key, Text>, acc: seq<Format>)
    requires -1 <= p && j <= |fmts| && p + |fmts| < |ev|
    requires forall k :: 0 <= k < |fmts| ==> ev[p + 1 + k] == NumFmt(fmts[k])
    ensures FormatsScan(ev, p, inXfs, styles, acc) == FormatsScan(ev, p + j, inXfs, Overrides(styles, fmts[..j]), acc)
    decreases j
  {
    if j == 0 {
      assert fmts[..0] == [];
    } else {
      NumFmtPhase(ev, p, fmts, j - 1, inXfs, styles, acc);
      assert fmts[..j][..j - 1] == fmts[..j - 1];
      var n := ev[p + j];
      assert n == NumFmt(fmts[j - 1]);
      assert Attribute(n, "numFmtId") == Some(fmts[j - 1].0);
      assert Attribute(n, "formatCode") == Some(fmts[j - 1].1);
    }
  }

  function Classified(xfs: seq<string>, styles: map<Key, Text>): (r: seq<Format>)
    ensures |r| == |xfs|
  {
    seq(|xfs|, k requires 0 <= k < |xfs| => XfFormat(Some(xfs[k]), styles))
  }

  lemma {:induction false} XfPhase(ev: seq<Node>, p: int, xfs: seq<string>, j: nat,
                                    styles: map<Key, Text>, acc: seq<Format>)
    requires -1 <= p && j <= |xfs| && p + |xfs| < |ev|
    requires forall k :: 0 <= k < |xfs| ==> ev[p + 1 + k] == Xf(xfs[k])
    ensures FormatsScan(ev, p, true, styles, acc) == FormatsScan(ev, p + j, true, styles, acc + Classified(xfs[..j], styles))
    decreases j
  {
    if j == 0 {
      assert acc + Classified(xfs[..0], styles) == acc;
    } else {
      XfPhase(ev, p, xfs, j - 1, styles, acc);
      var n := ev[p + j];
      assert n == Xf(xfs[j - 1]);
      assert Attribute(n, "numFmtId") == Some(xfs[j - 1]);
      assert acc + Classified(xfs[..j], styles)
          == acc + Classified(xfs[..j - 1], styles) + [XfFormat(Some(xfs[j - 1]), styles)];
    }
  }

  predicate StylesLayout(ev: seq<Node>, fmts: seq<(string, string)>, xfs: seq<string>)
  {
    && |ev| == |fmts| + |xfs| + 4
    && ev[0] == Open("numFmts", map[])
    && (forall k :: 0 <= k < |fmts| ==> ev[1 + k] == NumFmt(fmts[k]))
    && ev[|fmts| + 1] == Close("numFmts")
    && ev[|fmts| + 2] == Open("cellXfs", map[])
    && (forall k :: 0 <= k < |xfs| ==> ev[|fmts| + 3 + k] == Xf(xfs[k]))
    && ev[|fmts| + |xfs| + 3] == Close("cellXfs")
  }

  lemma StylesShape(fmts: seq<(string, string)>, xfs: seq<string>)
    ensures StylesLayout(StylesEvents(fmts, xfs), fmts, xfs)
  {
  }

  /** An element other than `cellXfs`, `numFmt` and `xf` is passed over. */
  lemma FormatsOther(ev: seq<Node>, p: int, inXfs: bool, styles: map<Key, Text>, acc: seq<Format>, name: string)
    requires -1 <= p && p + 1 < |ev| && ev[p + 1] == Open(name, map[])
    requires name != "cellXfs" && name != "numFmt" && name != "xf"
    ensures FormatsScan(ev, p, inXfs, styles, acc) == FormatsScan(ev, p + 1, inXfs, styles, acc)
  {
  }

  /** An end tag other than that of `cellXfs` is passed over. */
  lemma FormatsEnd(ev: seq<Node>, p: int, inXfs: bool, styles: map<Key, Text>, acc: seq<Format>, name: string)
    requires -1 <= p && p + 1 < |ev| && ev[p + 1] == Close(name) && name != "cellXfs"
    ensures FormatsScan(ev, p, inXfs, styles, acc) == FormatsScan(ev, p + 1, inXfs, styles, acc)
  {
  }

  /** A `cellXfs` start tag opens the cell-format list, its end tag closes it. */
  lemma FormatsList(ev: seq<Node>, p: int, inXfs: bool, styles: map<Key, Text>, acc: seq<Format>)
    requires -1 <= p && p + 1 < |ev| && (ev[p + 1] == Open("cellXfs", map[]) || ev[p + 1] == Close("cellXfs"))
    ensures FormatsScan(ev, p, inXfs, styles, acc) == FormatsScan(ev, p + 1, ev[p + 1].nodeType == Element, styles, acc)
  {
  }

  lemma StylesScan(ev: seq<Node>, fmts: seq<(string, string)>, xfs: seq<string>, base: map<Key, Text>, acc: seq<Format>)
    requires StylesLayout(ev, fmts, xfs)
    ensures FormatsScan(ev, -1, false, base, acc) == acc + Classified(xfs, Overrides(base, fmts))
  {
    var a := |fmts|;
    var b := |xfs|;
    var styles := Overrides(base, fmts);
    var out := acc + Classified(xfs, styles);
    FormatsOther(ev, -1, false, base, acc, "numFmts");
    NumFmtPhase(ev, 0, fmts, a, false, base, acc);
    assert fmts[..a] == fmts;
    FormatsEnd(ev, a, false, styles, acc, "numFmts");
    FormatsList(ev, a + 1, false, styles, acc);
    XfPhase(ev, a + 2, xfs, b, styles, acc);
    assert xfs[..b] == xfs;
    FormatsList(ev, a + b + 2, true, styles, out);
  }

  /** One format per `xf` inside `cellXfs`, in file order, each classified
      against the built-in codes as the preceding `numFmt` declarations
      override them. */
  lemma StylesLoad(fmts: seq<(string, string)>, xfs: seq<string>, acc: seq<Format>)
    ensures FormatsScan(StylesEvents(fmts, xfs), -1, false, Builtin, acc)
         == acc + Classified(xfs, Overrides(Builtin, fmts))
  {
    StylesShape(fmts, xfs);
    StylesScan(StylesEvents(fmts, xfs), fmts, xfs, Builtin, acc);
  }

  /** The last declaration of an id decides its code. */
  lemma OverrideWins(styles: map<Key, Text>, fmts: seq<(string, string)>, id: string, code: string)
    ensures StyleOf(Some(id), Overrides(styles, fmts + [(id, code)])) == Some(code)
  {
    assert (fmts + [(id, code)])[..|fmts|] == fmts;
  }

  /** A code no declaration touches keeps its built-in value. */
  lemma {:induction false} OverrideKeeps(styles: map<Key, Text>, fmts: seq<(string, string)>, key: Key)
    requires forall k :: 0 <= k < |fmts| ==> KeyOf(Some(fmts[k].0)) != key
    ensures key in Overrides(styles, fmts) <==> key in styles
    ensures key in styles ==> Overrides(styles, fmts)[key] == styles[key]
    decreases |fmts|
  {
    if fmts != [] {
      OverrideKeeps(styles, fmts[..|fmts| - 1], key);
    }
  }

  // ---------------------------------------------------------------------
  // Rows

  /** The element `readRow` looks for the value of a cell of type `t` in. */
  function ValueElement(t: Text): string
  {
    if t == Some("inlineStr") then "t" else "v"
  }

  /** `readRow` from a cursor at `p` in the events of a row: every `c`
      element is decoded and stored under its column, a later cell of the
      same column replacing the earlier one, until the row's end tag. */
  function RowScan(body: seq<Node>, p: int, rowText: string, tables: Tables, values: Assoc<Value>): Assoc<Value>
    requires -1 <= p <= |body|
    decreases |body| - p
  {
    var next := p + 1;
    if next >= |body| then values
    else
      var n := body[next];
      if n.nodeType == EndElement && n.name == "row" then values
      else if n.nodeType != Element || n.name != "c" then RowScan(body, next, rowText, tables, values)
      else
        var t := ResolveType(Attribute(n, "t"), Attribute(n, "s"), tables.formats);
        var read := if n.isEmpty then (None, next) else ReadValueAt(body, FindStop(body, next, ValueElement(t)));
        var value := Coerce(t, read.0, tables.shared, tables.date1904);
        RowScan(body, read.1, rowText, tables, Put(values, ColumnOf(Attribute(n, "r"), rowText), value))
  }

  /** The values of a row, keyed by column; a self-closing row has none. */
  function RowValues(row: Row, rowText: string, tables: Tables): Assoc<Value>
  {
    if row.isEmpty then [] else RowScan(row.body, -1, rowText, tables, [])
  }

  /** A cell as a sheet writes it: its column, its `t` attribute and its text. */
  datatype CellXml = CellXml(column: string, cellType: Text, text: string)

  function CellAttrs(c: CellXml, rowText: string): map<string, string>
  {
    if c.cellType.Some? then map["r" := c.column + rowText, "t" := c.cellType.value]
    else map["r" := c.column + rowText]
  }

  /** `<c><v>text</v></c>`, or `<c><is><t>text</t></is></c>` for an inline string. */
  function CellEvents(c: CellXml, rowText: string): seq<Node>
  {
    if c.cellType == Some("inlineStr") then
      [Open("c", CellAttrs(c, rowText)), Open("is", map[]), Open("t", map[]), TextOf(c.text),
       Close("t"), Close("is"), Close("c")]
    else
      [Open("c", CellAttrs(c, rowText)), Open("v", map[]), TextOf(c.text), Close("v"), Close("c")]
  }

  /** The events of a row after its start tag. */
  function RowBody(cells: seq<CellXml>, rowText: string): seq<Node>
    decreases |cells|
  {
    if cells == [] then [Close("row")] else CellEvents(cells[0], rowText) + RowBody(cells[1..], rowText)
  }

  /** The value a cell decodes to when its `t` attribute is its type. */
  function Decoded(c: CellXml, tables: Tables): (string, Value)
  {
    (c.column, Coerce(c.cellType, Some(c.text), tables.shared, tables.date1904))
  }

  /** Stores the entries one after the other, as the `$values[$column]`
      assignments do. */
  function PutAll(values: Assoc<Value>, entries: seq<(string, Value)>): Assoc<Value>
    decreases |entries|
  {
    if entries == [] then values else PutAll(Put(values, entries[0].0, entries[0].1), entries[1..])
  }

  lemma CellHeader(c: CellXml, rowText: string, formats: seq<Format>)
    requires rowText != ""
    requires c.column != []
    ensures var n := Open("c", CellAttrs(c, rowText));
      && ColumnOf(Attribute(n, "r"), rowText) == c.column
      && ResolveType(Attribute(n, "t"), Attribute(n, "s"), formats) == c.cellType
  {
    var n := Open("c", CellAttrs(c, rowText));
    assert Attribute(n, "t") == c.cellType;
    assert (c.column + rowText)[..|c.column|] == c.column;
    if c.cellType.None? {
      assert Attribute(n, "s") == None;
      assert !IsCanonicalNat("");
    }
  }

  /** Inside a cell starting at `next`, the value is the cell's text and the
      cursor is left on the end tag that closes it. */
  lemma CellRead(ev: seq<Node>, next: nat, c: CellXml, rowText: string)
    requires next + |CellEvents(c, rowText)| <= |ev|
    requires forall k :: 0 <= k < |CellEvents(c, rowText)| ==> ev[next + k] == CellEvents(c, rowText)[k]
    ensures ReadValueAt(ev, FindStop(ev, next, ValueElement(c.cellType)))
         == (Some(c.text), next + |CellEvents(c, rowText)| - 3 + (if c.cellType == Some("inlineStr") then 0 else 1))
  {
    var e := CellEvents(c, rowText);
    assert "" + c.text == c.text;
    if c.cellType == Some("inlineStr") {
      assert ev[next + 1] == e[1] == Open("is", map[]);
      assert ev[next + 2] == e[2] == Open("t", map[]);
      assert FindStop(ev, next, "t") == next + 2;
      assert ev[next + 3] == e[3] == TextOf(c.text);
      assert ev[next + 4] == e[4] == Close("t");
      assert Collect(ev, next + 2, 0, "") == Collect(ev, next + 3, 0, c.text);
    } else {
      assert ev[next + 1] == e[1] == Open("v", map[]);
      assert FindStop(ev, next, "v") == next + 1;
      assert ev[next + 2] == e[2] == TextOf(c.text);
      assert ev[next + 3] == e[3] == Close("v");
      assert Collect(ev, next + 1, 0, "") == Collect(ev, next + 2, 0, c.text);
    }
  }

  /** One step of `readRow` at a non-empty `c` element. */
  lemma ScanCell(body: seq<Node>, p: int, rowText: string, tables: Tables, values: Assoc<Value>,
                 column: string, t: Text, v: Text, q: int)
    requires -1 <= p && p + 1 < |body|
    requires body[p + 1].nodeType == Element && body[p + 1].name == "c" && !body[p + 1].isEmpty
    requires column == ColumnOf(Attribute(body[p + 1], "r"), rowText)
    requires t == ResolveType(Attribute(body[p + 1], "t"), Attribute(body[p + 1], "s"), tables.formats)
    requires (v, q) == ReadValueAt(body, FindStop(body, p + 1, ValueElement(t)))
    ensures -1 <= q <= |body|
    ensures RowScan(body, p, rowText, tables, values)
         == RowScan(body, q, rowText, tables, Put(values, column, Coerce(t, v, tables.shared, tables.date1904)))
  {
  }

  /** `readRow` stops at the row's end tag and at the end of the events. */
  lemma ScanStop(body: seq<Node>, p: int, rowText: string, tables: Tables, values: Assoc<Value>)
    requires -1 <= p <= |body|
    requires p + 1 < |body| ==> body[p + 1].nodeType == EndElement && body[p + 1].name == "row"
    ensures RowScan(body, p, rowText, tables, values) == values
  {
  }

  /** One step of `readRow` at a node that is neither a `c` element nor the
      row's end tag. */
  lemma ScanOther(body: seq<Node>, p: int, rowText: string, tables: Tables, values: Assoc<Value>)
    requires -1 <= p && p + 1 < |body|
    requires !(body[p + 1].nodeType == EndElement && body[p + 1].name == "row")
    requires !(body[p + 1].nodeType == Element && body[p + 1].name == "c")
    ensures RowScan(body, p, rowText, tables, values) == RowScan(body, p + 1, rowText, tables, values)
  {
  }

  /** One step of `readRow` at a self-closing `c` element: a null value. */
  lemma ScanEmptyCell(body: seq<Node>, p: int, rowText: string, tables: Tables, values: Assoc<Value>,
                      column: string, t: Text)
    requires -1 <= p && p + 1 < |body|
    requires body[p + 1].nodeType == Element && body[p + 1].name == "c" && body[p + 1].isEmpty
    requires column == ColumnOf(Attribute(body[p + 1], "r"), rowText)
    requires t == ResolveType(Attribute(body[p + 1], "t"), Attribute(body[p + 1], "s"), tables.formats)
    ensures RowScan(body, p, rowText, tables, values)
         == RowScan(body, p + 1, rowText, tables, Put(values, column, Coerce(t, None, tables.shared, tables.date1904)))
  {
  }

  /** One step of `readRow` at an end tag other than the row's. */
  lemma ScanEnd(body: seq<Node>, p: int, rowText: string, tables: Tables, values: Assoc<Value>, name: string)
    requires -1 <= p && p + 1 < |body| && body[p + 1] == Close(name) && name != "row"
    ensures RowScan(body, p, rowText, tables, values) == RowScan(body, p + 1, rowText, tables, values)
  {
  }

  lemma CellStep(ev: seq<Node>, p: int, c: CellXml, rowText: string, tables: Tables, values: Assoc<Value>)
    requires rowText != ""
    requires -1 <= p && p + |CellEvents(c, rowText)| < |ev|
    requires c.column != []
    requires ev[p + 1..p + 1 + |CellEvents(c, rowText)|] == CellEvents(c, rowText)
    ensures RowScan(ev, p, rowText, tables, values)
         == RowScan(ev, p + |CellEvents(c, rowText)|, rowText, tables, Put(values, c.column, Decoded(c, tables).1))
  {
    var e := CellEvents(c, rowText);
    var next := p + 1;
    assert forall k :: 0 <= k < |e| ==> ev[next + k] == e[k];
    assert ev[next] == e[0] == Open("c", CellAttrs(c, rowText));
    CellHeader(c, rowText, tables.formats);
    CellRead(ev, next, c, rowText);
    var v := Put(values, c.column, Decoded(c, tables).1);
    var inline := c.cellType == Some("inlineStr");
    var q := next + |e| - 3 + (if inline then 0 else 1);
    ScanCell(ev, p, rowText, tables, values, c.column, c.cellType, Some(c.text), q);
    if inline {
      assert ev[next + 5] == e[5] == Close("is");
      ScanEnd(ev, next + 4, rowText, tables, v, "is");
      assert ev[next + 6] == e[6] == Close("c");
      ScanEnd(ev, next + 5, rowText, tables, v, "c");
    } else {
      assert ev[next + 4] == e[4] == Close("c");
      ScanEnd(ev, next + 3, rowText, tables, v, "c");
    }
  }

  /** The entries the cells decode to, in document order. */
  function DecodedAll(cells: seq<CellXml>, tables: Tables): (r: seq<(string, Value)>)
    ensures |r| == |cells|
    ensures forall k :: 0 <= k < |cells| ==> r[k] == Decoded(cells[k], tables)
    decreases |cells|
  {
    if cells == [] then [] else [Decoded(cells[0], tables)] + DecodedAll(cells[1..], tables)
  }

  lemma SliceSplit(ev: seq<Node>, i: nat, a: seq<Node>, b: seq<Node>)
    requires i <= |ev| && ev[i..] == a + b
    ensures i + |a| <= |ev| && ev[i..i + |a|] == a && ev[i + |a|..] == b
  {
    assert ev[i..][..|a|] == a;
    assert ev[i..][|a|..] == b;
  }

  /** The first cell of a written row is stored, and the rest of the row follows it. */
  lemma RowHead(ev: seq<Node>, p: int, cells: seq<CellXml>, rowText: string, tables: Tables, values: Assoc<Value>)
    requires rowText != ""
    requires cells != [] && cells[0].column != []
    requires -1 <= p < |ev| && ev[p + 1..] == RowBody(cells, rowText)
    ensures p + |CellEvents(cells[0], rowText)| < |ev|
    ensures ev[p + |CellEvents(cells[0], rowText)| + 1..] == RowBody(cells[1..], rowText)
    ensures RowScan(ev, p, rowText, tables, values)
         == RowScan(ev, p + |CellEvents(cells[0], rowText)|, rowText, tables,
                    Put(values, cells[0].column, Decoded(cells[0], tables).1))
  {
    var e := CellEvents(cells[0], rowText);
    SliceSplit(ev, p + 1, e, RowBody(cells[1..], rowText));
    assert RowBody(cells[1..], rowText) != [];
    CellStep(ev, p, cells[0], rowText, tables, values);
  }

  lemma PutAllCons(values: Assoc<Value>, cells: seq<CellXml>, tables: Tables)
    requires cells != []
    ensures PutAll(values, DecodedAll(cells, tables))
         == PutAll(Put(values, cells[0].column, Decoded(cells[0], tables).1), DecodedAll(cells[1..], tables))
  {
    var entries := DecodedAll(cells, tables);
    assert entries[0] == Decoded(cells[0], tables) && entries[1..] == DecodedAll(cells[1..], tables);
  }

  /** Two equal association lists equal to a third, chained apart from
      the row lemma's own facts. */
  lemma Chain(a: Assoc<Value>, b: Assoc<Value>, c: Assoc<Value>, d: Assoc<Value>)
    requires a == b
    requires b == c
    requires d == c
    ensures a == d
  {
  }

  /** A row without cells decodes to nothing more. */
  lemma RowEnd(ev: seq<Node>, p: int, cells: seq<CellXml>, rowText: string, tables: Tables, values: Assoc<Value>)
    requires -1 <= p < |ev| && ev[p + 1..] == RowBody(cells, rowText) && cells == []
    ensures RowScan(ev, p, rowText, tables, values) == PutAll(values, DecodedAll(cells, tables))
  {
    assert ev[p + 1..][0] == Close("row");
    ScanStop(ev, p, rowText, tables, values);
  }

  /** Every cell names a column. */
  predicate Named(cells: seq<CellXml>)
    decreases |cells|
  {
    cells == [] || (cells[0].column != [] && Named(cells[1..]))
  }

  lemma {:induction false} AllNamed(cells: seq<CellXml>)
    requires forall k :: 0 <= k < |cells| ==> cells[k].column != []
    ensures Named(cells)
    decreases |cells|
  {
    if cells != [] {
      assert forall k :: 0 <= k < |cells| - 1 ==> cells[1..][k] == cells[k + 1];
      AllNamed(cells[1..]);
    }
  }

  lemma {:induction false} RowCells(ev: seq<Node>, p: int, cells: seq<CellXml>, rowText: string,
                                     tables: Tables, values: Assoc<Value>)
    requires rowText != ""
    requires -1 <= p < |ev| && ev[p + 1..] == RowBody(cells, rowText)
    requires Named(cells)
    ensures RowScan(ev, p, rowText, tables, values) == PutAll(values, DecodedAll(cells, tables))
    decreases |cells|
  {
    if cells == [] {
      RowEnd(ev, p, cells, rowText, tables, values);
    } else {
      RowHead(ev, p, cells, rowText, tables, values);
      RowCells(ev, p + |CellEvents(cells[0], rowText)|, cells[1..], rowText, tables,
               Put(values, cells[0].column, Decoded(cells[0], tables).1));
      PutAllCons(values, cells, tables);
      Chain(RowScan(ev, p, rowText, tables, values),
            RowScan(ev, p + |CellEvents(cells[0], rowText)|, rowText, tables,
                    Put(values, cells[0].column, Decoded(cells[0], tables).1)),
            PutAll(Put(values, cells[0].column, Decoded(cells[0], tables).1), DecodedAll(cells[1..], tables)),
            PutAll(values, DecodedAll(cells, tables)));
    }
  }

  /** A key stays absent when an entry under another key is appended. */
  lemma FreshAfterAppend(a: Assoc<Value>, e: (string, Value), k: string)
    requires !HasKey(a, k) && e.0 != k
    ensures !HasKey(a + [e], k)
  {
    forall j | 0 <= j < |a| + 1
      ensures (a + [e])[j].0 != k
    {
      if j < |a| {
        assert (a + [e])[j] == a[j];
      }
    }
  }

  /** Distinct keys none of which `values` holds: after the first is
      appended, the rest are still distinct and still absent. */
  lemma FreshRest(values: Assoc<Value>, entries: seq<(string, Value)>)
    requires entries != []
    requires forall i, j :: 0 <= i < j < |entries| ==> entries[i].0 != entries[j].0
    requires forall k :: 0 <= k < |entries| ==> !HasKey(values, entries[k].0)
    ensures forall i, j :: 0 <= i < j < |entries| - 1 ==> entries[1..][i].0 != entries[1..][j].0
    ensures forall k :: 0 <= k < |entries| - 1 ==> !HasKey(values + [entries[0]], entries[1..][k].0)
  {
    var rest := entries[1..];
    forall k | 0 <= k < |rest|
      ensures !HasKey(values + [entries[0]], rest[k].0)
    {
      assert rest[k] == entries[k + 1];
      FreshAfterAppend(values, entries[0], rest[k].0);
    }
    forall i, j | 0 <= i < j < |rest|
      ensures rest[i].0 != rest[j].0
    {
      assert rest[i] == entries[i + 1] && rest[j] == entries[j + 1];
    }
  }

  /** Each entry's key is absent from what precedes it. */
  predicate FreshKeys(values: Assoc<Value>, entries: seq<(string, Value)>)
    decreases |entries|
  {
    entries == [] || (!HasKey(values, entries[0].0) && FreshKeys(values + [entries[0]], entries[1..]))
  }

  /** Distinct keys, none of them in `values`, are fresh one after the other. */
  lemma {:induction false} DistinctFresh(values: Assoc<Value>, entries: seq<(string, Value)>)
    requires forall i, j :: 0 <= i < j < |entries| ==> entries[i].0 != entries[j].0
    requires forall k :: 0 <= k < |entries| ==> !HasKey(values, entries[k].0)
    ensures FreshKeys(values, entries)
    decreases |entries|
  {
    if entries != [] {
      FreshRest(values, entries);
      DistinctFresh(values + [entries[0]], entries[1..]);
    }
  }

  /** Entries under fresh keys are appended in order. */
  lemma {:induction false} PutAllFresh(values: Assoc<Value>, entries: seq<(string, Value)>)
    requires FreshKeys(values, entries)
    ensures PutAll(values, entries) == values + entries
    decreases |entries|
  {
    if entries != [] {
      var first := entries[0];
      assert Put(values, first.0, first.1) == values + [first];
      PutAllFresh(values + [first], entries[1..]);
      assert values + [first] + entries[1..] == values + entries;
    }
  }

  /** A row whose cells name distinct columns decodes to those columns, in
      document order, each with the value its text and type give. */
  lemma RowRoundTrip(attrs: map<string, string>, cells: seq<CellXml>, rowText: string, tables: Tables)
    requires rowText != ""
    requires forall k :: 0 <= k < |cells| ==> cells[k].column != []
    requires forall i, j :: 0 <= i < j < |cells| ==> cells[i].column != cells[j].column
    ensures RowValues(Row(attrs, false, RowBody(cells, rowText)), rowText, tables)
         == DecodedAll(cells, tables)
  {
    var ev := RowBody(cells, rowText);
    assert ev[0..] == ev;
    AllNamed(cells);
    RowCells(ev, -1, cells, rowText, tables, []);
    var entries := DecodedAll(cells, tables);
    DistinctFresh([], entries);
    PutAllFresh([], entries);
    assert [] + entries == entries;
  }

  /** A later cell of the same column replaces the earlier value in place. */
  lemma LastCellWins(a: CellXml, b: CellXml, rowText: string, tables: Tables)
    requires rowText != ""
    requires a.column != [] && a.column == b.column
    ensures RowValues(Row(map[], false, RowBody([a, b], rowText)), rowText, tables) == [Decoded(b, tables)]
  {
    var ev := RowBody([a, b], rowText);
    assert ev[0..] == ev;
    RowCells(ev, -1, [a, b], rowText, tables, []);
    var entries := DecodedAll([a, b], tables);
    assert entries == [Decoded(a, tables), Decoded(b, tables)];
    var v := Put([], a.column, Decoded(a, tables).1);
    assert v == [Decoded(a, tables)];
    assert PutAll([], entries) == PutAll(v, entries[1..]);
    assert entries[1..] == [Decoded(b, tables)];
    assert HasKey(v, b.column);
    assert PutAll(v, entries[1..]) == Put(v, b.column, Decoded(b, tables).1);
  }

  // ---------------------------------------------------------------------
  // The rows `read` yields

  /** `(int)$reader->getAttribute('r')` on a row. */
  function RowIndex(row: Row): int
  {
    IntCast(if "r" in row.attrs then Some(row.attrs["r"]) else None)
  }

  /** The indices of the rows of a sheet, in order. */
  function Indices(rows: seq<Row>): (ix: seq<int>)
    ensures |ix| == |rows|
  {
    seq(|rows|, i requires 0 <= i < |rows| => RowIndex(rows[i]))
  }

  /** The index of the row the cursor stands on; past the last row the
      attribute is null, which casts to 0. */
  function IndexAt(ix: seq<int>, k: nat): int
  {
    if k < |ix| then ix[k] else 0
  }

  /** The skip to the first row at or after `start` as written, over the row
      indices `ix`: it moves on while `start` exceeds the current index, and
      `next('row')` past the last row leaves the cursor where the index reads
      0. `fuel` bounds the number of iterations; None means the loop has not
      ended. */
  function SkipAsWritten(ix: seq<int>, start: int, k: nat, fuel: nat): Option<nat>
    decreases fuel
  {
    if start <= IndexAt(ix, k) then Some(k)
    else if fuel == 0 then None
    else SkipAsWritten(ix, start, if k < |ix| then k + 1 else k, fuel - 1)
  }

  /** The skip as intended: the first row from `k` on whose index is at
      least `start`, or the end of the sheet. */
  function SkipTo(ix: seq<int>, start: int, k: nat): (j: nat)
    requires k <= |ix|
    ensures k <= j <= |ix|
    ensures j < |ix| ==> ix[j] >= start
    ensures forall m :: k <= m < j ==> ix[m] < start
    decreases |ix| - k
  {
    if k == |ix| || ix[k] >= start then k else SkipTo(ix, start, k + 1)
  }

  /** Where the yielding loop stops: at the first row from `k` on whose
      index exceeds `end`, or the end of the sheet. */
  function TakeTo(ix: seq<int>, end: Option<int>, k: nat): (j: nat)
    requires k <= |ix|
    ensures k <= j <= |ix|
    ensures j < |ix| ==> end.Some? && ix[j] > end.value
    ensures forall m :: k <= m < j ==> end.None? || ix[m] <= end.value
    decreases |ix| - k
  {
    if k == |ix| || (end.Some? && ix[k] > end.value) then k else TakeTo(ix, end, k + 1)
  }

  /** What `read` yields for a row: its index and its values, the row
      number text being the decimal of the index. */
  function Entry(row: Row, tables: Tables): (e: (int, Assoc<Value>))
    ensures e.0 == RowIndex(row)
    ensures row.isEmpty ==> e.1 == []
  {
    (RowIndex(row), RowValues(row, IntToDecimal(RowIndex(row)), tables))
  }

  /** The entries of the given rows, in order. */
  function Entries(rows: seq<Row>, tables: Tables): (es: seq<(int, Assoc<Value>)>)
    ensures |es| == |rows|
    decreases |rows|
  {
    if rows == [] then [] else Entries(rows[..|rows| - 1], tables) + [Entry(rows[|rows| - 1], tables)]
  }

  /** Extending a stretch of rows by the next one adds that row's entry. */
  lemma EntriesSnoc(rows: seq<Row>, k: nat, m: nat, tables: Tables)
    requires k <= m < |rows|
    ensures Entries(rows[k..m + 1], tables) == Entries(rows[k..m], tables) + [Entry(rows[m], tables)]
  {
    var w := rows[k..m + 1];
    assert w[..|w| - 1] == rows[k..m] && w[|w| - 1] == rows[m];
  }

  /** The rows `read` yields an entry for, in sheet order: from the first row
      whose index reaches `start` up to the first one after it whose index
      exceeds `end`. */
  function Window(rows: seq<Row>, start: int, end: Option<int>): seq<Row>
  {
    var ix := Indices(rows);
    var k := SkipTo(ix, start, 0);
    rows[k..TakeTo(ix, end, k)]
  }

  /** Every yielded index is at most `end`, and the first is at least `start`. */
  lemma WindowBounds(rows: seq<Row>, start: int, end: Option<int>)
    ensures var w := Window(rows, start, end);
      (forall m :: 0 <= m < |w| ==> end.None? || RowIndex(w[m]) <= end.value)
      && (|w| > 0 ==> start <= RowIndex(w[0]))
  {
    var ix := Indices(rows);
    var k := SkipTo(ix, start, 0);
    var w := Window(rows, start, end);
    forall m | 0 <= m < |w|
      ensures end.None? || RowIndex(w[m]) <= end.value
    {
      assert w[m] == rows[k + m] && ix[k + m] == RowIndex(rows[k + m]);
    }
    if |w| > 0 {
      assert w[0] == rows[k] && ix[k] == RowIndex(rows[k]);
    }
  }

  predicate Increasing(ix: seq<int>)
  {
    forall i, j :: 0 <= i < j < |ix| ==> ix[i] < ix[j]
  }

  /** With increasing indices, the skip passes exactly the rows below `start`. */
  lemma SkipSelects(ix: seq<int>, start: int, m: nat)
    requires Increasing(ix) && m < |ix|
    ensures m < SkipTo(ix, start, 0) <==> ix[m] < start
  {
    var k := SkipTo(ix, start, 0);
    if k <= m {
      assert ix[k] <= ix[m];
    }
  }

  /** With increasing indices, the yielding loop from `k` passes exactly the
      rows from `k` on within `end`. */
  lemma TakeSelects(ix: seq<int>, end: Option<int>, k: nat, m: nat)
    requires Increasing(ix) && k <= m < |ix|
    ensures m < TakeTo(ix, end, k) <==> end.None? || ix[m] <= end.value
  {
    var j := TakeTo(ix, end, k);
    if j <= m {
      assert ix[j] <= ix[m];
    }
  }

  /** With row indices increasing through the sheet, a row is yielded
      exactly when its index lies between `start` and `end`, and the rows
      yielded keep their order. */
  lemma WindowSelects(rows: seq<Row>, start: int, end: Option<int>, m: nat)
    requires Increasing(Indices(rows)) && m < |rows|
    ensures var ix := Indices(rows); var k := SkipTo(ix, start, 0);
      (k <= m < TakeTo(ix, end, k)) <==> (start <= RowIndex(rows[m]) && (end.None? || RowIndex(rows[m]) <= end.value))
    ensures var ix := Indices(rows); var k := SkipTo(ix, start, 0);
      k <= m < TakeTo(ix, end, k) ==> Window(rows, start, end)[m - k] == rows[m]
  {
    var ix := Indices(rows);
    var k := SkipTo(ix, start, 0);
    assert ix[m] == RowIndex(rows[m]);
    SkipSelects(ix, start, m);
    if k <= m {
      TakeSelects(ix, end, k, m);
    }
  }

  /** When some row reaches `start`, the skip as written ends where the
      intended one does. */
  lemma {:induction false} SkipAgrees(ix: seq<int>, start: int, k: nat, fuel: nat)
    requires k <= |ix| && SkipTo(ix, start, k) < |ix| && fuel >= SkipTo(ix, start, k) - k
    ensures SkipAsWritten(ix, start, k, fuel) == Some(SkipTo(ix, start, k))
    decreases fuel
  {
    if start > IndexAt(ix, k) {
      SkipAgrees(ix, start, k + 1, fuel - 1);
    }
  }

  /** When `start` is positive and exceeds every index, the skip as written
      never ends, whatever the number of iterations. */
  lemma {:induction false} SkipNeverEnds(ix: seq<int>, start: int, k: nat, fuel: nat)
    requires 0 < start && k <= |ix|
    requires forall m :: 0 <= m < |ix| ==> ix[m] < start
    ensures SkipAsWritten(ix, start, k, fuel) == None
    decreases fuel
  {
    if fuel > 0 {
      SkipNeverEnds(ix, start, if k < |ix| then k + 1 else k, fuel - 1);
    }
  }

  /** A row numbered 1 and asked for from row 2: the skip as written does
      not end, the intended one yields nothing. */
  lemma SkipPastLastRow(fuel: nat)
    ensures var rows := [Row(map["r" := "1"], true, [])];
      SkipAsWritten(Indices(rows), 2, 0, fuel) == None && Window(rows, 2, None) == []
  {
    var rows := [Row(map["r" := "1"], true, [])];
    assert RowIndex(rows[0]) == 1 by {
      assert LeadingDigits("1") == "1";
    }
    assert Indices(rows) == [1];
    SkipNeverEnds([1], 2, 0, fuel);
  }
}
