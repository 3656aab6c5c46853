/** The CSV writer for rows and rowsets: field selection, value formatting
    and quoting, and the header and row lines it appends to a text writer. */
module CsvWriter {
  import R = Results

  // ---------------------------------------------------------------------------
  // Data

  const INT32_MIN: int := -0x8000_0000
  const INT64_MIN: int := -0x8000_0000_0000_0000

  type Int32 = x: int | INT32_MIN <= x < -INT32_MIN
  type Int64 = x: int | INT64_MIN <= x < -INT64_MIN

  /** Whether a field is loaded from and/or stored to the backend. */
  datatype StoreFlag = LoadAndStore | OnlyLoad | OnlyStore | None

  /** A schema field definition together with its attribute for the null
      target (def[null]): its name, its position in the row, and the NonUI
      and StoreFlag settings the writer consults. */
  datatype FieldDef = FieldDef(name: string, order: nat, nonUI: bool, storeFlag: StoreFlag)

  datatype Schema = Schema(fieldDefs: seq<FieldDef>)

  /** The run-time type of a field value, as writeValue dispatches on it.
      Floating-point, decimal and DateTime values carry the text their
      invariant-culture ToString produces; OtherValue carries ToString of any
      other object. */
  datatype Value =
    | NullValue
    | StringValue(s: string)
    | BoolValue(b: bool)
    | IntValue(i: Int32)
    | LongValue(l: Int64)
    | FloatValue(floatText: string)
    | DateTimeValue(dateText: string)
    | TimeSpanValue(ticks: Int64)
    | OtherValue(text: string)

  /** A row: its schema (None for null) and its field values by order. */
  datatype Row = Row(schema: R.Option<Schema>, values: seq<Value>)

  /** An element of a rowset's list: a Row, or an object that is not one. */
  datatype RowsetItem = RowItem(row: Row) | NonRowItem

  datatype Rowset = Rowset(schema: R.Option<Schema>, items: seq<RowsetItem>)

  datatype CsvOptions = CsvOptions(fieldDelimiter: char, nullValue: string, includeHeader: bool, loadAllFields: bool)

  /** NFXSerializationException from getAcceptableDefs. */
  datatype CsvError = SchemaIsNull

  // ---------------------------------------------------------------------------
  // Quoting

  /** IndexOfAny(['\n', '\r', '"', del]) >= 0. */
  predicate NeedsQuotes(s: string, del: char)
  {
    '\n' in s || '\r' in s || '"' in s || del in s
  }

  /** str.Replace("\"", "\"\""). */
  function DoubleQuotes(s: string): string
  {
    if s == [] then "" else (if s[0] == '"' then "\"\"" else [s[0]]) + DoubleQuotes(s[1..])
  }

  function QuoteCount(s: string): nat
  {
    if s == [] then 0 else (if s[0] == '"' then 1 else 0) + QuoteCount(s[1..])
  }

  /** escape: every quote doubled, and the whole wrapped in quotes exactly when
      it holds a line break, a quote or the delimiter. */
  function Escape(s: string, del: char): (r: string)
    ensures |r| == |s| + QuoteCount(s) + (if NeedsQuotes(s, del) then 2 else 0)
    ensures !NeedsQuotes(s, del) ==> r == s
    ensures NeedsQuotes(s, del) ==> |r| >= 2 && r[0] == '"' && r[|r| - 1] == '"'
  {
    DoubleQuotesLength(s);
    if !NeedsQuotes(s, del) then NoQuotesUnchanged(s); s
    else "\"" + DoubleQuotes(s) + "\""
  }

  /** The reader's side: each doubled quote collapsed to one. */
  function CollapseQuotes(s: string): string
  {
    if |s| >= 2 && s[0] == '"' && s[1] == '"' then "\"" + CollapseQuotes(s[2..])
    else if s == [] then ""
    else [s[0]] + CollapseQuotes(s[1..])
  }

  /** The outer quotes removed, when present, and the doubled quotes collapsed. */
  function Unescape(r: string): string
  {
    if |r| >= 2 && r[0] == '"' && r[|r| - 1] == '"' then CollapseQuotes(r[1..|r| - 1]) else r
  }

  lemma {:induction false} DoubleQuotesLength(s: string)
    ensures |DoubleQuotes(s)| == |s| + QuoteCount(s)
  {
    if s != [] {
      DoubleQuotesLength(s[1..]);
    }
  }

  lemma {:induction false} NoQuotesUnchanged(s: string)
    requires '"' !in s
    ensures DoubleQuotes(s) == s && QuoteCount(s) == 0
  {
    if s != [] {
      assert '"' !in s[1..];
      NoQuotesUnchanged(s[1..]);
      assert s == [s[0]] + s[1..];
    }
  }

  /** Collapsing undoes doubling. */
  lemma {:induction false} CollapseDoubled(s: string)
    ensures CollapseQuotes(DoubleQuotes(s)) == s
  {
    if s != [] {
      var rest := DoubleQuotes(s[1..]);
      CollapseDoubled(s[1..]);
      if s[0] == '"' {
        assert DoubleQuotes(s) == "\"\"" + rest;
        assert ("\"\"" + rest)[2..] == rest;
      } else {
        assert DoubleQuotes(s) == [s[0]] + rest;
        assert ([s[0]] + rest)[1..] == rest;
      }
      assert s == [s[0]] + s[1..];
    }
  }

  /** The escaping round trip: removing the outer quotes, when present, and
      collapsing each doubled quote gives the original string back. */
  lemma UnescapeEscape(s: string, del: char)
    ensures Unescape(Escape(s, del)) == s
  {
    if NeedsQuotes(s, del) {
      var d := DoubleQuotes(s);
      var r := "\"" + d + "\"";
      assert r[1..|r| - 1] == d;
      CollapseDoubled(s);
    } else {
      assert '"' !in s;
      if |s| >= 2 {
        assert s[0] in s;
      }
    }
  }

  // ---------------------------------------------------------------------------
  // Joining and splitting cells

  /** The cells written one after another, the delimiter before every cell
      but the first. */
  function Join(cells: seq<string>, del: char): string
  {
    if cells == [] then ""
    else if |cells| == 1 then cells[0]
    else Join(cells[..|cells| - 1], del) + [del] + cells[|cells| - 1]
  }

  /** A line cut at every delimiter (the reading of a line with no quoting). */
  function Split(s: string, del: char): (r: seq<string>)
    ensures |r| >= 1
  {
    if s == [] then [""]
    else
      var rest := Split(s[1..], del);
      if s[0] == del then [""] + rest else [[s[0]] + rest[0]] + rest[1..]
  }

  lemma {:induction false} SplitNoDelimiter(s: string, del: char)
    requires del !in s
    ensures Split(s, del) == [s]
  {
    if s != [] {
      assert del !in s[1..];
      SplitNoDelimiter(s[1..], del);
      assert s == [s[0]] + s[1..];
    }
  }

  lemma {:induction false} SplitAtDelimiter(a: string, b: string, del: char)
    ensures Split(a + [del] + b, del) == Split(a, del) + Split(b, del)
  {
    if a == [] {
      assert a + [del] + b == [del] + b;
      assert ([del] + b)[1..] == b;
    } else {
      var s := a + [del] + b;
      assert s[0] == a[0] && s[1..] == a[1..] + [del] + b;
      SplitAtDelimiter(a[1..], b, del);
    }
  }

  /** Cells free of the delimiter are recovered by cutting the joined line. */
  lemma {:induction false} SplitJoin(cells: seq<string>, del: char)
    requires |cells| >= 1
    requires forall i :: 0 <= i < |cells| ==> del !in cells[i]
    ensures Split(Join(cells, del), del) == cells
  {
    var n := |cells| - 1;
    SplitNoDelimiter(cells[n], del);
    if n > 0 {
      SplitJoin(cells[..n], del);
      SplitAtDelimiter(Join(cells[..n], del), cells[n], del);
      assert cells == cells[..n] + [cells[n]];
    }
  }

  /** Header cells are not escaped: a field name holding the delimiter reads
      back as two cells. */
  lemma HeaderNameNotEscaped()
    ensures Join(["a,b"], ',') == "a,b"
    ensures Split(Join(["a,b"], ','), ',') == ["a", "b"]
  {
    assert "a,b" == "a" + [','] + "b";
    SplitAtDelimiter("a", "b", ',');
    SplitNoDelimiter("a", ',');
    SplitNoDelimiter("b", ',');
  }

  /** A whole line: the joined cells and one newline, or nothing at all when
      there are no cells. */
  function Line(cells: seq<string>, del: char, newLine: string): string
  {
    if cells == [] then "" else Join(cells, del) + newLine
  }

  // ---------------------------------------------------------------------------
  // Field selection

  /** isWritable: neither NonUI nor stored as None or OnlyLoad. */
  predicate IsWritable(def: FieldDef)
  {
    !(def.nonUI || def.storeFlag == StoreFlag.None || def.storeFlag == OnlyLoad)
  }

  function Writable(defs: seq<FieldDef>): seq<FieldDef>
  {
    if defs == [] then []
    else Writable(defs[..|defs| - 1]) + (if IsWritable(defs[|defs| - 1]) then [defs[|defs| - 1]] else [])
  }

  /** getAcceptableDefs. */
  function AcceptableDefs(schema: R.Option<Schema>, allFields: bool): R.Result<seq<FieldDef>, CsvError>
  {
    if schema.None? then R.Err(SchemaIsNull)
    else if allFields then R.Ok(schema.value.fieldDefs)
    else R.Ok(Writable(schema.value.fieldDefs))
  }

  /** Filtering distributes over concatenation: the selection keeps the
      schema's order. */
  lemma {:induction false} WritableAppend(a: seq<FieldDef>, b: seq<FieldDef>)
    ensures Writable(a + b) == Writable(a) + Writable(b)
  {
    if b != [] {
      var n := |b| - 1;
      assert (a + b)[..|a + b| - 1] == a + b[..n];
      WritableAppend(a, b[..n]);
    } else {
      assert a + b == a;
    }
  }

  /** Exactly the writable definitions are selected. */
  lemma {:induction false} WritableMembers(defs: seq<FieldDef>)
    ensures forall d :: d in Writable(defs) <==> d in defs && IsWritable(d)
  {
    if defs != [] {
      var n := |defs| - 1;
      WritableMembers(defs[..n]);
      assert defs == defs[..n] + [defs[n]];
    }
  }

  /** Selection never adds definitions and keeps all of them when all are writable. */
  lemma {:induction false} WritableLength(defs: seq<FieldDef>)
    ensures |Writable(defs)| <= |defs|
    ensures (forall i :: 0 <= i < |defs| ==> IsWritable(defs[i])) ==> Writable(defs) == defs
  {
    if defs != [] {
      var n := |defs| - 1;
      WritableLength(defs[..n]);
      if forall i :: 0 <= i < |defs| ==> IsWritable(defs[i]) {
        assert forall i :: 0 <= i < n ==> IsWritable(defs[..n][i]);
        assert defs == defs[..n] + [defs[n]];
      }
    }
  }

  /** getAcceptableDefs: a null schema throws; with allFields every definition
      is returned; otherwise the loop keeps the writable ones in order. */
  method GetAcceptableDefs(schema: R.Option<Schema>, allFields: bool) returns (r: R.Result<seq<FieldDef>, CsvError>)
    ensures r.Err? <==> schema.None?
    ensures r.Ok? && allFields ==> r.value == schema.value.fieldDefs
    ensures r.Ok? && !allFields ==> forall d :: d in r.value <==> d in schema.value.fieldDefs && IsWritable(d)
    ensures r == AcceptableDefs(schema, allFields)
  {
    if schema.None? {
      return R.Err(SchemaIsNull);
    }
    var defs := schema.value.fieldDefs;
    if allFields {
      return R.Ok(defs);
    }
    var res: seq<FieldDef> := [];
    var i := 0;
    while i < |defs|
      invariant 0 <= i <= |defs|
      invariant res == Writable(defs[..i])
    {
      assert defs[..i + 1][..i] == defs[..i];
      if IsWritable(defs[i]) {
        res := res + [defs[i]];
      }
      i := i + 1;
    }
    assert defs[..i] == defs;
    WritableMembers(defs);
    r := R.Ok(res);
  }

  // ---------------------------------------------------------------------------
  // Value formatting

  function DigitChar(d: nat): char
    requires d < 10
  {
    ('0' as int + d) as char
  }

  /** The decimal digits of n, most significant first. */
  function Digits(n: nat): string
  {
    if n < 10 then [DigitChar(n)] else Digits(n / 10) + [DigitChar(n % 10)]
  }

  /** Invariant-culture ToString of an integer: an optional minus sign and its digits. */
  function DecimalText(n: int): (r: string)
    ensures |r| >= 1
  {
    if n < 0 then "-" + Digits(-n) else Digits(n)
  }

  predicate IsDigit(c: char)
  {
    '0' <= c <= '9'
  }

  function ParseDigits(s: string): int
  {
    if s == [] then 0 else ParseDigits(s[..|s| - 1]) * 10 + (s[|s| - 1] as int - '0' as int)
  }

  function ParseDecimal(s: string): int
  {
    if |s| > 0 && s[0] == '-' then -ParseDigits(s[1..]) else ParseDigits(s)
  }

  lemma {:induction false} DigitsShape(n: nat)
    ensures |Digits(n)| >= 1 && forall i :: 0 <= i < |Digits(n)| ==> IsDigit(Digits(n)[i])
    ensures ParseDigits(Digits(n)) == n
  {
    if n >= 10 {
      DigitsShape(n / 10);
      var d := Digits(n);
      assert d[..|d| - 1] == Digits(n / 10);
      forall i | 0 <= i < |d| ensures IsDigit(d[i]) {
        if i < |d| - 1 { assert d[i] == Digits(n / 10)[i]; }
      }
    }
  }

  /** Integer cells read back as the same number. */
  lemma DecimalRoundTrip(n: int)
    ensures ParseDecimal(DecimalText(n)) == n
  {
    if n < 0 {
      DigitsShape(-n);
      assert ("-" + Digits(-n))[1..] == Digits(-n);
    } else {
      DigitsShape(n);
    }
  }

  /** Integer cells are made of digits and at most a leading minus sign, so a
      delimiter that is neither never needs quoting. */
  lemma DecimalNeedsNoQuotes(n: int, del: char)
    requires !IsDigit(del) && del != '-'
    ensures !NeedsQuotes(DecimalText(n), del)
  {
    var m: nat := if n < 0 then -n else n;
    DigitsShape(m);
    var d := Digits(m);
    var r := DecimalText(n);
    forall i | 0 <= i < |r| ensures IsDigit(r[i]) || r[i] == '-' {
      if n < 0 && i > 0 { assert r[i] == d[i - 1]; }
    }
  }

  /** writeValue's text for a value. */
  function FormatValue(v: Value, options: CsvOptions): (r: string)
    // text values are wrapped in quotes exactly when they hold the delimiter, a quote or a line break
    ensures (v.StringValue? || v.FloatValue? || v.OtherValue?) ==>
      var t := if v.StringValue? then v.s else if v.FloatValue? then v.floatText else v.text;
      (NeedsQuotes(t, options.fieldDelimiter) <==> |r| >= 2 && r[0] == '"' && r[|r| - 1] == '"')
      && (!NeedsQuotes(t, options.fieldDelimiter) ==> r == t)
    // a null value is written as the configured null text
    ensures v.NullValue? ==> r == options.nullValue
  {
    match v
    case NullValue => options.nullValue
    case StringValue(s) => Escape(s, options.fieldDelimiter)
    case BoolValue(b) => if b then "true" else "false"
    case IntValue(i) => DecimalText(i)
    case LongValue(l) => DecimalText(l)
    case FloatValue(t) => Escape(t, options.fieldDelimiter)
    case DateTimeValue(t) => t
    case TimeSpanValue(ticks) => DecimalText(ticks)
    case OtherValue(t) => Escape(t, options.fieldDelimiter)
  }

  /** String, floating-point and other values are escaped, so each cell reads
      back as the text it came from. */
  lemma FormatValueUnescapes(v: Value, options: CsvOptions)
    requires v.StringValue? || v.FloatValue? || v.OtherValue?
    ensures Unescape(FormatValue(v, options)) ==
      match v
      case StringValue(s) => s
      case FloatValue(t) => t
      case OtherValue(t) => t
  {
    match v
    case StringValue(s) => UnescapeEscape(s, options.fieldDelimiter);
    case FloatValue(t) => UnescapeEscape(t, options.fieldDelimiter);
    case OtherValue(t) => UnescapeEscape(t, options.fieldDelimiter);
  }

  /** int, long and TimeSpan values are written as their decimal numbers
      (a TimeSpan as its tick count), unquoted when the delimiter is not a
      digit or a minus sign. */
  lemma FormatValueNumbers(v: Value, options: CsvOptions)
    requires v.IntValue? || v.LongValue? || v.TimeSpanValue?
    requires !IsDigit(options.fieldDelimiter) && options.fieldDelimiter != '-'
    ensures ParseDecimal(FormatValue(v, options)) ==
      match v
      case IntValue(i) => i as int
      case LongValue(l) => l as int
      case TimeSpanValue(t) => t as int
    ensures !NeedsQuotes(FormatValue(v, options), options.fieldDelimiter)
  {
    var n: int := match v
      case IntValue(i) => i as int
      case LongValue(l) => l as int
      case TimeSpanValue(t) => t as int;
    DecimalRoundTrip(n);
    DecimalNeedsNoQuotes(n, options.fieldDelimiter);
  }

  // ---------------------------------------------------------------------------
  // Header and row lines

  function Names(defs: seq<FieldDef>): (r: seq<string>)
    ensures |r| == |defs|
  {
    if defs == [] then [] else Names(defs[..|defs| - 1]) + [defs[|defs| - 1].name]
  }

  /** Every definition indexes one of the row's values. */
  predicate Fits(row: Row, defs: seq<FieldDef>)
  {
    forall j :: 0 <= j < |defs| ==> defs[j].order < |row.values|
  }

  /** Row.GetFieldValue, by the definition's order. */
  function FieldValue(row: Row, def: FieldDef): Value
    requires def.order < |row.values|
  {
    row.values[def.order]
  }

  function Cells(row: Row, defs: seq<FieldDef>, options: CsvOptions): (r: seq<string>)
    requires Fits(row, defs)
    ensures |r| == |defs|
  {
    if defs == [] then []
    else
      var n := |defs| - 1;
      assert Fits(row, defs[..n]) by {
        forall j | 0 <= j < n ensures defs[..n][j].order < |row.values| { assert defs[..n][j] == defs[j]; }
      }
      Cells(row, defs[..n], options) + [FormatValue(FieldValue(row, defs[n]), options)]
  }

  lemma FitsPrefix(row: Row, defs: seq<FieldDef>, n: nat)
    requires Fits(row, defs) && n <= |defs|
    ensures Fits(row, defs[..n])
  {
    forall j | 0 <= j < n ensures defs[..n][j].order < |row.values| { assert defs[..n][j] == defs[j]; }
  }

  /** Each cell is the formatted value of its field, in the definitions' order. */
  lemma {:induction false} CellsAt(row: Row, defs: seq<FieldDef>, options: CsvOptions, j: nat)
    requires Fits(row, defs) && j < |defs|
    ensures Cells(row, defs, options)[j] == FormatValue(FieldValue(row, defs[j]), options)
  {
    var n := |defs| - 1;
    if j < n {
      FitsPrefix(row, defs, n);
      CellsAt(row, defs[..n], options, j);
    }
  }

  function HeaderLine(defs: seq<FieldDef>, options: CsvOptions, newLine: string): string
  {
    Line(Names(defs), options.fieldDelimiter, newLine)
  }

  function RowLine(row: Row, defs: seq<FieldDef>, options: CsvOptions, newLine: string): string
    requires Fits(row, defs)
  {
    Line(Cells(row, defs, options), options.fieldDelimiter, newLine)
  }

  /** The row lines of a rowset's elements: one per Row, none for the others. */
  function RowLines(items: seq<RowsetItem>, defs: seq<FieldDef>, options: CsvOptions, newLine: string): string
    requires forall k :: 0 <= k < |items| && items[k].RowItem? ==> Fits(items[k].row, defs)
  {
    if items == [] then ""
    else
      var n := |items| - 1;
      var last := if items[n].RowItem? then RowLine(items[n].row, defs, options, newLine) else "";
      RowLines(items[..n], defs, options, newLine) + last
  }

  predicate RowsFit(items: seq<RowsetItem>, defs: seq<FieldDef>)
  {
    forall k :: 0 <= k < |items| && items[k].RowItem? ==> Fits(items[k].row, defs)
  }

  /** A rowset's text: the header line when asked for, then the row lines. */
  function RowsetText(items: seq<RowsetItem>, defs: seq<FieldDef>, options: CsvOptions, newLine: string): string
    requires RowsFit(items, defs)
  {
    (if options.includeHeader then HeaderLine(defs, options, newLine) else "") + RowLines(items, defs, options, newLine)
  }

  /** A single row's text: the header line when asked for, then its line. */
  function RowText(row: Row, defs: seq<FieldDef>, options: CsvOptions, newLine: string): string
    requires Fits(row, defs)
  {
    (if options.includeHeader then HeaderLine(defs, options, newLine) else "") + RowLine(row, defs, options, newLine)
  }

  lemma RowsFitPrefix(items: seq<RowsetItem>, defs: seq<FieldDef>, n: nat)
    requires RowsFit(items, defs) && n <= |items|
    ensures RowsFit(items[..n], defs)
  {
    forall k | 0 <= k < n && items[..n][k].RowItem? ensures Fits(items[..n][k].row, defs) {
      assert items[..n][k] == items[k];
    }
  }

  /** One more element adds its row line, or nothing when it is not a row. */
  lemma RowLinesNext(items: seq<RowsetItem>, i: nat, defs: seq<FieldDef>, options: CsvOptions, newLine: string)
    requires RowsFit(items, defs) && i < |items|
    ensures RowsFit(items[..i], defs) && RowsFit(items[..i + 1], defs)
    ensures RowLines(items[..i + 1], defs, options, newLine) ==
      RowLines(items[..i], defs, options, newLine) + (if items[i].RowItem? then RowLine(items[i].row, defs, options, newLine) else "")
  {
    RowsFitPrefix(items, defs, i);
    RowsFitPrefix(items, defs, i + 1);
    assert items[..i + 1][..i] == items[..i] && items[..i + 1][i] == items[i];
  }

  /** Rows are written in rowset order: the lines of two runs of elements are
      the lines of the first followed by those of the second. */
  lemma {:induction false} RowLinesAppend(a: seq<RowsetItem>, b: seq<RowsetItem>, defs: seq<FieldDef>, options: CsvOptions, newLine: string)
    requires RowsFit(a, defs) && RowsFit(b, defs)
    ensures RowsFit(a + b, defs)
    ensures RowLines(a + b, defs, options, newLine) == RowLines(a, defs, options, newLine) + RowLines(b, defs, options, newLine)
  {
    assert RowsFit(a + b, defs) by {
      forall k | 0 <= k < |a + b| && (a + b)[k].RowItem? ensures Fits((a + b)[k].row, defs) {
        if k >= |a| { assert (a + b)[k] == b[k - |a|]; }
      }
    }
    if b == [] {
      assert a + b == a;
    } else {
      var n := |b| - 1;
      RowsFitPrefix(b, defs, n);
      assert (a + b)[..|a + b| - 1] == a + b[..n];
      RowLinesAppend(a, b[..n], defs, options, newLine);
    }
  }

  /** Elements that are not rows contribute nothing. */
  lemma NonRowsSkipped(items: seq<RowsetItem>, defs: seq<FieldDef>, options: CsvOptions, newLine: string)
    requires forall k :: 0 <= k < |items| ==> items[k].NonRowItem?
    ensures RowLines(items, defs, options, newLine) == ""
  {
    if items != [] {
      var n := |items| - 1;
      NonRowsSkipped(items[..n], defs, options, newLine);
    }
  }

  /** With no definitions selected nothing at all is written, header included. */
  lemma {:induction false} NoDefsNothingWritten(items: seq<RowsetItem>, options: CsvOptions, newLine: string)
    requires RowsFit(items, [])
    ensures RowsetText(items, [], options, newLine) == ""
  {
    if items != [] {
      var n := |items| - 1;
      RowsFitPrefix(items, [], n);
      NoDefsNothingWritten(items[..n], options, newLine);
    }
  }

  /** A rowset holding one row is written exactly as that row on its own. */
  lemma SingleRowRowset(row: Row, defs: seq<FieldDef>, options: CsvOptions, newLine: string)
    requires Fits(row, defs)
    ensures RowsFit([RowItem(row)], defs)
    ensures RowsetText([RowItem(row)], defs, options, newLine) == RowText(row, defs, options, newLine)
  {
    assert [RowItem(row)][..0] == [];
    assert RowLines([RowItem(row)], defs, options, newLine) == "" + RowLine(row, defs, options, newLine);
  }

  /** Cells free of the delimiter are recovered from a row line by cutting it
      at the delimiters once the newline is dropped. */
  lemma RowLineCells(row: Row, defs: seq<FieldDef>, options: CsvOptions, newLine: string)
    requires Fits(row, defs) && defs != []
    requires forall j :: 0 <= j < |defs| ==> options.fieldDelimiter !in Cells(row, defs, options)[j]
    ensures var line := RowLine(row, defs, options, newLine);
      |line| >= |newLine| && line[|line| - |newLine|..] == newLine
      && Split(line[..|line| - |newLine|], options.fieldDelimiter) == Cells(row, defs, options)
  {
    var cells := Cells(row, defs, options);
    var line := RowLine(row, defs, options, newLine);
    assert line == Join(cells, options.fieldDelimiter) + newLine;
    assert line[..|line| - |newLine|] == Join(cells, options.fieldDelimiter);
    SplitJoin(cells, options.fieldDelimiter);
  }

  /** Each header cell is the raw name of its definition. */
  lemma {:induction false} NamesAt(defs: seq<FieldDef>, j: nat)
    requires j < |defs|
    ensures Names(defs)[j] == defs[j].name
  {
    var n := |defs| - 1;
    if j < n {
      NamesAt(defs[..n], j);
    }
  }

  /** The header line, newline dropped and cut at the delimiters, gives the
      field names back when none of them holds the delimiter. */
  lemma HeaderLineCells(defs: seq<FieldDef>, options: CsvOptions, newLine: string)
    requires defs != []
    requires forall j :: 0 <= j < |defs| ==> options.fieldDelimiter !in defs[j].name
    ensures var line := HeaderLine(defs, options, newLine);
      |line| >= |newLine| && line[|line| - |newLine|..] == newLine
      && Split(line[..|line| - |newLine|], options.fieldDelimiter) == Names(defs)
  {
    var names := Names(defs);
    forall j | 0 <= j < |names| ensures options.fieldDelimiter !in names[j] {
      NamesAt(defs, j);
    }
    var line := HeaderLine(defs, options, newLine);
    assert line == Join(names, options.fieldDelimiter) + newLine;
    assert line[..|line| - |newLine|] == Join(names, options.fieldDelimiter);
    SplitJoin(names, options.fieldDelimiter);
  }

  /** Writing one more cell: the delimiter first unless it is the first cell. */
  lemma JoinSnoc(cells: seq<string>, c: string, del: char)
    ensures Join(cells + [c], del) == (if cells == [] then c else Join(cells, del) + [del] + c)
  {
    assert (cells + [c])[..|cells|] == cells;
  }

  lemma NamesStep(defs: seq<FieldDef>, i: nat)
    requires i < |defs|
    ensures Names(defs[..i + 1]) == Names(defs[..i]) + [defs[i].name]
  {
    assert defs[..i + 1][..i] == defs[..i];
  }

  lemma CellsStep(row: Row, defs: seq<FieldDef>, options: CsvOptions, i: nat)
    requires Fits(row, defs) && i < |defs|
    ensures Fits(row, defs[..i]) && Fits(row, defs[..i + 1])
    ensures Cells(row, defs[..i + 1], options) == Cells(row, defs[..i], options) + [FormatValue(FieldValue(row, defs[i]), options)]
  {
    FitsPrefix(row, defs, i);
    FitsPrefix(row, defs, i + 1);
    assert defs[..i + 1][..i] == defs[..i] && defs[..i + 1][i] == defs[i];
  }

  // ---------------------------------------------------------------------------
  // The text writer

  /** A TextWriter: the text written so far and the newline WriteLine appends. */
  class TextSink {
    var text: string
    const newLine: string

    constructor (newLine: string)
      ensures text == "" && this.newLine == newLine
    {
      text := "";
      this.newLine := newLine;
    }

    method Write(s: string)
      modifies this
      ensures text == old(text) + s
    {
      text := text + s;
    }

    method WriteLine()
      modifies this
      ensures text == old(text) + newLine
    {
      text := text + newLine;
    }
  }

  /** writeHeader: the raw field names separated by the delimiter, then one
      newline if any name was written. */
  method WriteHeader(defs: seq<FieldDef>, wri: TextSink, options: CsvOptions)
    modifies wri
    ensures wri.text == old(wri.text) + HeaderLine(defs, options, wri.newLine)
  {
    ghost var start := wri.text;
    var first := true;
    var newline := false;
    var i := 0;
    while i < |defs|
      invariant 0 <= i <= |defs|
      invariant first == (i == 0) && newline == (i > 0)
      invariant wri.text == start + Join(Names(defs[..i]), options.fieldDelimiter)
    {
      ghost var written := Join(Names(defs[..i]), options.fieldDelimiter);
      NamesStep(defs, i);
      JoinSnoc(Names(defs[..i]), defs[i].name, options.fieldDelimiter);
      if !first {
        wri.Write([options.fieldDelimiter]);
      }
      wri.Write(defs[i].name);
      assert wri.text == start + (if i == 0 then "" else written + [options.fieldDelimiter]) + defs[i].name;
      first := false;
      newline := true;
      i := i + 1;
    }
    assert defs[..i] == defs;
    if newline {
      wri.WriteLine();
    }
  }

  /** writeRow: the formatted values of the selected fields separated by the
      delimiter, then one newline if any value was written. */
  method WriteRow(row: Row, defs: seq<FieldDef>, wri: TextSink, options: CsvOptions)
    requires Fits(row, defs)
    modifies wri
    ensures wri.text == old(wri.text) + RowLine(row, defs, options, wri.newLine)
  {
    ghost var start := wri.text;
    var first := true;
    var newline := false;
    var i := 0;
    while i < |defs|
      invariant 0 <= i <= |defs|
      invariant first == (i == 0) && newline == (i > 0)
      invariant Fits(row, defs[..i])
      invariant wri.text == start + Join(Cells(row, defs[..i], options), options.fieldDelimiter)
    {
      ghost var cells := Cells(row, defs[..i], options);
      CellsStep(row, defs, options, i);
      if !first {
        wri.Write([options.fieldDelimiter]);
      }
      var val := FieldValue(row, defs[i]);
      var cell := FormatValue(val, options);
      JoinSnoc(cells, cell, options.fieldDelimiter);
      ghost var before := wri.text;
      wri.Write(cell);
      assert before + cell == start + Join(cells + [cell], options.fieldDelimiter);
      first := false;
      newline := true;
      i := i + 1;
    }
    assert defs[..i] == defs;
    if newline {
      wri.WriteLine();
    }
  }

  /** The options in force: a null options object (None) means the default. */
  function Effective(options: R.Option<CsvOptions>, defaultOptions: CsvOptions): CsvOptions
  {
    if options.Some? then options.value else defaultOptions
  }

  /** Write(rowset, TextWriter, options): nothing for a null rowset; a null
      schema throws before anything is written; otherwise the optional header
      and one line per Row element, in order. */
  method WriteRowset(rowset: R.Option<Rowset>, wri: TextSink, options: R.Option<CsvOptions>, defaultOptions: CsvOptions)
    returns (err: R.Option<CsvError>)
    requires rowset.Some? && rowset.value.schema.Some? ==> RowsFit(rowset.value.items, rowset.value.schema.value.fieldDefs)
    modifies wri
    ensures rowset.None? ==> err == R.None && wri.text == old(wri.text)
    ensures rowset.Some? ==>
      var opts := Effective(options, defaultOptions);
      match AcceptableDefs(rowset.value.schema, opts.loadAllFields)
      case Err(e) => err == R.Some(e) && wri.text == old(wri.text)
      case Ok(defs) => err == R.None && RowsFit(rowset.value.items, defs)
                       && wri.text == old(wri.text) + RowsetText(rowset.value.items, defs, opts, wri.newLine)
  {
    if rowset.None? {
      return R.None;
    }
    var opts := if options.None? then defaultOptions else options.value;
    var acceptable := GetAcceptableDefs(rowset.value.schema, opts.loadAllFields);
    if acceptable.Err? {
      return R.Some(acceptable.error);
    }
    var defs := acceptable.value;
    var items := rowset.value.items;
    SelectedFit(items, rowset.value.schema.value.fieldDefs, opts.loadAllFields);
    ghost var start := wri.text;
    ghost var header := if opts.includeHeader then HeaderLine(defs, opts, wri.newLine) else "";
    if opts.includeHeader {
      WriteHeader(defs, wri, opts);
    }
    assert wri.text == start + header;
    WriteRows(items, defs, wri, opts);
    assert wri.text == start + RowsetText(items, defs, opts, wri.newLine);
    err := R.None;
  }

  /** The foreach of Write(rowset): a line for each element that is a Row, in order. */
  method WriteRows(items: seq<RowsetItem>, defs: seq<FieldDef>, wri: TextSink, options: CsvOptions)
    requires RowsFit(items, defs)
    modifies wri
    ensures wri.text == old(wri.text) + RowLines(items, defs, options, wri.newLine)
  {
    ghost var start := wri.text;
    ghost var nl := wri.newLine;
    var i := 0;
    while i < |items|
      invariant 0 <= i <= |items|
      invariant RowsFit(items[..i], defs)
      invariant wri.text == start + RowLines(items[..i], defs, options, nl)
    {
      RowLinesNext(items, i, defs, options, nl);
      if items[i].RowItem? {
        WriteRow(items[i].row, defs, wri, options);
      }
      i := i + 1;
    }
    assert items[..i] == items;
  }

  /** The definitions selected from a schema index every value of a row that
      fits the whole schema. */
  lemma SelectedFit(items: seq<RowsetItem>, fieldDefs: seq<FieldDef>, allFields: bool)
    requires RowsFit(items, fieldDefs)
    ensures RowsFit(items, AcceptableDefs(R.Some(Schema(fieldDefs)), allFields).value)
  {
    if !allFields {
      var w := Writable(fieldDefs);
      WritableMembers(fieldDefs);
      forall k, j | 0 <= k < |items| && items[k].RowItem? && 0 <= j < |w| ensures w[j].order < |items[k].row.values| {
        assert w[j] in fieldDefs;
        var m :| 0 <= m < |fieldDefs| && fieldDefs[m] == w[j];
      }
    }
  }

  /** Write(row, TextWriter, options): nothing for a null row; a null schema
      throws before anything is written; otherwise the optional header and
      exactly one row line. */
  method WriteSingleRow(row: R.Option<Row>, wri: TextSink, options: R.Option<CsvOptions>, defaultOptions: CsvOptions)
    returns (err: R.Option<CsvError>)
    requires row.Some? && row.value.schema.Some? ==> Fits(row.value, row.value.schema.value.fieldDefs)
    modifies wri
    ensures row.None? ==> err == R.None && wri.text == old(wri.text)
    ensures row.Some? ==>
      var opts := Effective(options, defaultOptions);
      match AcceptableDefs(row.value.schema, opts.loadAllFields)
      case Err(e) => err == R.Some(e) && wri.text == old(wri.text)
      case Ok(defs) => err == R.None && Fits(row.value, defs)
                       && wri.text == old(wri.text) + RowText(row.value, defs, opts, wri.newLine)
  {
    if row.None? {
      return R.None;
    }
    var opts := if options.None? then defaultOptions else options.value;
    var acceptable := GetAcceptableDefs(row.value.schema, opts.loadAllFields);
    if acceptable.Err? {
      return R.Some(acceptable.error);
    }
    var defs := acceptable.value;
    SelectedFit([RowItem(row.value)], row.value.schema.value.fieldDefs, opts.loadAllFields);
    assert Fits([RowItem(row.value)][0].row, defs);
    if opts.includeHeader {
      WriteHeader(defs, wri, opts);
    }
    WriteRow(row.value, defs, wri, opts);
    err := R.None;
  }
}
