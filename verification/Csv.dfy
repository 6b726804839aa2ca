/** The CSV text of a reconciliation report, and a reader for section 2 of RFC 4180 that also accepts LF
    line ends. */
module Csv {
  import opened Outcomes
  import opened Json

  /** What a report cell can hold: nothing, a string, or a structured value printed as JSON. */
  datatype Cell = Blank | Text(s: string) | Structured(v: Json)

  function CellText(c: Cell): string {
    match c
    case Blank => ""
    case Text(s) => s
    case Structured(v) => Stringify(v)
  }

  predicate Special(c: char) { c == '\"' || c == ',' || c == '\r' || c == '\n' }

  predicate NeedsQuotes(s: string) { exists i :: 0 <= i < |s| && Special(s[i]) }

  function DoubleQuotes(s: string): string {
    if s == [] then []
    else (if s[0] == '\"' then "\"\"" else [s[0]]) + DoubleQuotes(s[1..])
  }

  function EncodeField(s: string): string {
    if NeedsQuotes(s) then "\"" + DoubleQuotes(s) + "\"" else s
  }

  /** A field is written as it is exactly if it holds no quote, comma, carriage return or line feed. */
  lemma PlainExactly(s: string)
    ensures EncodeField(s) == s <==> forall c :: c in s ==> c != '\"' && c != ',' && c != '\r' && c != '\n'
  {
    hide DoubleQuotes;
    if NeedsQuotes(s) {
      var i :| 0 <= i < |s| && Special(s[i]);
      assert s[i] in s;
      DoubledLength(s);
      assert |EncodeField(s)| > |s|;
    }
  }

  lemma {:induction false} DoubledLength(s: string)
    ensures |DoubleQuotes(s)| >= |s|
  {
    if s != [] { DoubledLength(s[1..]); }
  }

  function EncodeRow(row: seq<string>): string
    requires |row| > 0
  {
    if |row| == 1 then EncodeField(row[0]) else EncodeField(row[0]) + "," + EncodeRow(row[1..])
  }

  /** Every row followed by a line feed. */
  function EncodeTable(rows: seq<seq<string>>): string
    requires forall r :: r in rows ==> |r| > 0
  {
    if rows == [] then "" else EncodeRow(rows[0]) + "\n" + EncodeTable(rows[1..])
  }

  function RowTexts(row: seq<Cell>): (r: seq<string>)
    ensures |r| == |row| && forall i :: 0 <= i < |r| ==> r[i] == CellText(row[i])
  {
    seq(|row|, i requires 0 <= i < |row| => CellText(row[i]))
  }

  // ---- reader ----------------------------------------------------------------------------------

  datatype Parsed<T> = Parsed(value: T, rest: string)

  /** The characters up to the closing quote, with doubled quotes undone. */
  function ReadQuoted(s: string): (r: Option<Parsed<string>>)
    ensures r.Some? ==> |r.value.rest| < |s|
  {
    if s == [] then None
    else if s[0] == '\"' && !(|s| > 1 && s[1] == '\"') then Some(Parsed("", s[1..]))
    else
      var next := if s[0] == '\"' then s[2..] else s[1..];
      match ReadQuoted(next)
      case None => None
      case Some(p) => Some(Parsed([s[0]] + p.value, p.rest))
  }

  function ReadPlain(s: string): (r: Parsed<string>)
    ensures |r.rest| <= |s|
  {
    if s == [] || Special(s[0]) then Parsed("", s)
    else
      var p := ReadPlain(s[1..]);
      Parsed([s[0]] + p.value, p.rest)
  }

  function ReadField(s: string): (r: Option<Parsed<string>>)
    ensures r.Some? ==> |r.value.rest| <= |s|
  {
    if s != [] && s[0] == '\"' then ReadQuoted(s[1..]) else Some(ReadPlain(s))
  }

  /** One record: fields separated by commas, ended by LF, CRLF or the end of the text. */
  function ReadRecord(s: string): (r: Option<Parsed<seq<string>>>)
    ensures r.Some? && s != [] ==> |r.value.rest| < |s|
    decreases |s|
  {
    match ReadField(s)
    case None => None
    case Some(Parsed(field, rest)) =>
      if rest == [] then Some(Parsed([field], []))
      else if rest[0] == ',' then
        (match ReadRecord(rest[1..])
         case None => None
         case Some(p) => Some(Parsed([field] + p.value, p.rest)))
      else if rest[0] == '\n' then Some(Parsed([field], rest[1..]))
      else if rest[0] == '\r' && |rest| > 1 && rest[1] == '\n' then Some(Parsed([field], rest[2..]))
      else None
  }

  function ReadTable(s: string): Option<seq<seq<string>>>
    decreases |s|
  {
    if s == [] then Some([])
    else
      match ReadRecord(s)
      case None => None
      case Some(Parsed(row, rest)) =>
        match ReadTable(rest)
        case None => None
        case Some(rows) => Some([row] + rows)
  }

  // ---- round trip ------------------------------------------------------------------------------

  lemma ReadDoubled(tail: string)
    ensures ReadQuoted("\"\"" + tail) ==
              match ReadQuoted(tail) case None => None case Some(p) => Some(Parsed("\"" + p.value, p.rest))
  {
    var t := "\"\"" + tail;
    assert t[2..] == tail;
  }

  lemma ReadOther(c: char, tail: string)
    requires c != '\"'
    ensures ReadQuoted([c] + tail) ==
              match ReadQuoted(tail) case None => None case Some(p) => Some(Parsed([c] + p.value, p.rest))
  {
    var t := [c] + tail;
    assert t[1..] == tail;
  }

  lemma ClosingQuote(rest: string)
    requires rest == [] || rest[0] != '\"'
    ensures ReadQuoted(DoubleQuotes("") + ("\"" + rest)) == Some(Parsed("", rest))
  {
    var end := "\"" + rest;
    assert DoubleQuotes("") + end == end && end[1..] == rest;
  }

  lemma DoubleFirst(s: string, end: string)
    requires s != []
    ensures DoubleQuotes(s) + end == (if s[0] == '\"' then "\"\"" else [s[0]]) + (DoubleQuotes(s[1..]) + end)
  {
  }

  lemma {:induction false} QuotedRoundTrip(s: string, rest: string)
    requires rest == [] || rest[0] != '\"'
    ensures ReadQuoted(DoubleQuotes(s) + ("\"" + rest)) == Some(Parsed(s, rest))
  {
    hide ReadQuoted, DoubleQuotes;
    var end := "\"" + rest;
    if s == [] {
      ClosingQuote(rest);
    } else {
      QuotedRoundTrip(s[1..], rest);
      var tail := DoubleQuotes(s[1..]) + end;
      DoubleFirst(s, end);
      if s[0] == '\"' { ReadDoubled(tail); } else { ReadOther(s[0], tail); }
      assert s == [s[0]] + s[1..];
    }
  }

  lemma {:induction false} PlainRoundTrip(s: string, rest: string)
    requires !NeedsQuotes(s) && (rest == [] || Special(rest[0]))
    ensures ReadPlain(s + rest) == Parsed(s, rest)
  {
    if s == [] {
      assert s + rest == rest;
    } else {
      assert !Special(s[0]);
      assert forall i :: 0 <= i < |s[1..]| ==> s[1..][i] == s[i + 1];
      PlainRoundTrip(s[1..], rest);
      assert (s + rest)[1..] == s[1..] + rest;
      assert s == [s[0]] + s[1..];
    }
  }

  lemma FieldRoundTrip(s: string, rest: string)
    requires rest != [] && (rest[0] == ',' || rest[0] == '\n')
    ensures ReadField(EncodeField(s) + rest) == Some(Parsed(s, rest))
  {
    hide ReadQuoted, ReadPlain, DoubleQuotes;
    var t := EncodeField(s) + rest;
    if NeedsQuotes(s) {
      assert t[1..] == DoubleQuotes(s) + ("\"" + rest);
      QuotedRoundTrip(s, rest);
    } else {
      assert t[0] == if s == [] then rest[0] else s[0];
      assert t[0] != '\"' by { if s != [] { assert !Special(s[0]); } }
      PlainRoundTrip(s, rest);
    }
  }

  lemma {:induction false} RowRoundTrip(row: seq<string>, rest: string)
    requires |row| > 0
    ensures ReadRecord(EncodeRow(row) + "\n" + rest) == Some(Parsed(row, rest))
  {
    hide ReadField, EncodeField;
    var t := EncodeRow(row) + "\n" + rest;
    if |row| == 1 {
      assert t == EncodeField(row[0]) + ("\n" + rest);
      FieldRoundTrip(row[0], "\n" + rest);
      assert ("\n" + rest)[1..] == rest;
      assert row == [row[0]];
    } else {
      var tail := EncodeRow(row[1..]) + "\n" + rest;
      RowRoundTrip(row[1..], rest);
      assert t == EncodeField(row[0]) + ("," + tail);
      FieldRoundTrip(row[0], "," + tail);
      assert ("," + tail)[1..] == tail;
      assert row == [row[0]] + row[1..];
    }
  }

  /** Reading the exported text recovers every row and every field text, whatever the fields contain. */
  lemma {:induction false} TableRoundTrip(rows: seq<seq<string>>)
    requires forall r :: r in rows ==> |r| > 0
    ensures ReadTable(EncodeTable(rows)) == Some(rows)
  {
    if rows != [] {
      hide ReadRecord, EncodeRow;
      assert rows[0] in rows;
      RowRoundTrip(rows[0], EncodeTable(rows[1..]));
      TableRoundTrip(rows[1..]);
      assert rows == [rows[0]] + rows[1..];
    }
  }
}
