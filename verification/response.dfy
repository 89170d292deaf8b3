/** Row ingestion: recovering the JSON object from a noisy response body and
    flattening the three response shapes the spreadsheet service may send into one
    sequence of rows. JSON decoding itself is not modelled: a decoded body is a
    `Payload`. */
module Response {
  import opened Optional
  import opened Cells

  // ---------------------------------------------------------------------------
  // Locating the JSON object in the response text

  /** String.prototype.indexOf for one character: -1 when absent. */
  function IndexOfChar(s: string, c: char): (r: int)
    ensures -1 <= r < |s|
    ensures r == -1 <==> c !in s
    ensures r >= 0 ==> s[r] == c && c !in s[..r]
  {
    if s == [] then -1
    else if s[0] == c then 0
    else
      var k := IndexOfChar(s[1..], c);
      assert s[1..][..k + 1] == s[1..k + 2];
      if k == -1 then -1 else k + 1
  }

  /** String.prototype.lastIndexOf for one character: -1 when absent. */
  function LastIndexOfChar(s: string, c: char): (r: int)
    ensures -1 <= r < |s|
    ensures r == -1 <==> c !in s
    ensures r >= 0 ==> s[r] == c && c !in s[r + 1..]
  {
    if s == [] then -1
    else if s[|s| - 1] == c then |s| - 1
    else
      var k := LastIndexOfChar(s[..|s| - 1], c);
      assert s == s[..|s| - 1] + [s[|s| - 1]];
      k
  }

  /** String.prototype.substring: both ends clamped to the string, and swapped
      when the start lies after the end. */
  function Substring(s: string, start: int, end: int): string {
    var a := if start < 0 then 0 else if start > |s| then |s| else start;
    var b := if end < 0 then 0 else if end > |s| then |s| else end;
    if a <= b then s[a..b] else s[b..a]
  }

  /** The fallback taken when the whole body is not JSON: the text from the first
      "{" to the last "}", or None when either brace is missing. */
  function ExtractJsonObject(text: string): (r: Option<string>)
    ensures r.None? <==> '{' !in text || '}' !in text
  {
    var jsonStart := IndexOfChar(text, '{');
    var jsonEnd := LastIndexOfChar(text, '}');
    if jsonStart != -1 && jsonEnd != -1 then Some(Substring(text, jsonStart, jsonEnd + 1))
    else None
  }

  /** What the extraction yields: when the first "{" precedes the last "}", the
      widest span from one to the other, braces included; otherwise `substring`
      swaps its bounds and yields the text strictly between the "}" and the "{". */
  lemma ExtractJsonObjectSpan(text: string)
    requires '{' in text && '}' in text
    ensures var r := ExtractJsonObject(text).value;
      var i := IndexOfChar(text, '{');
      var j := LastIndexOfChar(text, '}');
      && 0 <= i && 0 <= j
      && (i <= j ==>
            && r == text[i..j + 1]
            && r[0] == '{' && r[|r| - 1] == '}'
            && '{' !in text[..i] && '}' !in text[j + 1..])
      && (j < i ==> r == text[j + 1..i])
  {
    var i := IndexOfChar(text, '{');
    var j := LastIndexOfChar(text, '}');
    assert 0 <= i < |text| && 0 <= j < |text|;
    var r := Substring(text, i, j + 1);
    assert ExtractJsonObject(text) == Some(r);
    if i <= j {
      assert r == text[i..j + 1];
      assert r[0] == text[i] && r[|r| - 1] == text[j];
    } else {
      assert r == text[j + 1..i];
    }
  }

  // ---------------------------------------------------------------------------
  // Response shapes

  /** One entry of a row's `c` array: a null entry, or a cell object whose `v`
      property may be missing (None). */
  datatype RawCell = NullEntry | CellObject(v: Option<Cell>)

  /** A row in the shape it arrives: an object with a `c` array, a bare array of
      values, or anything else. */
  datatype RawRow = CellRow(c: seq<RawCell>) | ArrayRow(values: seq<Cell>) | OtherRow

  /** The decoded response: a `table.rows` object, a bare array of rows, a `values`
      grid, or none of these. */
  datatype Payload =
    | Table(rows: seq<RawRow>)
    | RowList(rows: seq<RawRow>)
    | ValuesGrid(values: seq<seq<Cell>>)
    | Unrecognised

  /** A cell's value: what its `v` holds, or "" for a missing cell or a cell without `v`. */
  function CellValue(c: RawCell): Cell {
    match c
    case CellObject(Some(v)) => v
    case _ => Str("")
  }

  /** The cell values of one row, or None for a row of unknown shape (which the
      page skips). */
  function RowValues(row: RawRow): (r: Option<seq<Cell>>)
    ensures row.CellRow? ==> r.Some? && |r.value| == |row.c|
    ensures row.CellRow? ==> forall i :: 0 <= i < |row.c| ==>
      (row.c[i].CellObject? && row.c[i].v.Some? ==> r.value[i] == row.c[i].v.value)
      && (!(row.c[i].CellObject? && row.c[i].v.Some?) ==> r.value[i] == Str(""))
    ensures row.ArrayRow? ==> r == Some(row.values)
    ensures row.OtherRow? <==> r.None?
  {
    match row
    case CellRow(c) => Some(seq(|c|, i requires 0 <= i < |c| => CellValue(c[i])))
    case ArrayRow(values) => Some(values)
    case OtherRow => None
  }

  /** A grid row wrapped into cell objects, one per value. */
  function WrapValues(values: seq<Cell>): RawRow {
    CellRow(seq(|values|, i requires 0 <= i < |values| => CellObject(Some(values[i]))))
  }

  /** The rows of a payload, header row included, all in one shape. */
  function PayloadRows(p: Payload): (rows: seq<RawRow>)
    ensures p.Table? || p.RowList? ==> rows == p.rows
    ensures p.Unrecognised? ==> rows == []
    ensures p.ValuesGrid? ==> |rows| == |p.values|
  {
    match p
    case Table(rows) => rows
    case RowList(rows) => rows
    case ValuesGrid(values) => seq(|values|, i requires 0 <= i < |values| => WrapValues(values[i]))
    case Unrecognised => []
  }

  /** Wrapping a grid row and reading it back gives the row unchanged, so all three
      shapes deliver the same cell values to the classifier. */
  lemma GridRowsReadBack(values: seq<seq<Cell>>)
    ensures forall i :: 0 <= i < |values| ==> RowValues(PayloadRows(ValuesGrid(values))[i]) == Some(values[i])
  {
    forall i | 0 <= i < |values|
      ensures RowValues(PayloadRows(ValuesGrid(values))[i]) == Some(values[i])
    {
      var r := RowValues(WrapValues(values[i]));
      assert r.value == values[i];
    }
  }
}
