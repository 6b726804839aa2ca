/** The paged usage export: pages of a thousand rows after the last exported identifier, from a table
    that may change between pages and may hold an identifier more than once. */
module UsageExport {
  import opened Outcomes
  import opened Ordering

  const PAGE_SIZE: nat := 1_000
  const MAX_ROWS: nat := 1_000_000
  const MAX_BYTES: nat := 256 * 1024 * 1024

  /** A row that matches the application and time range, with the line written for it; `exact` says that its
      two rating counts are exact integers. */
  datatype Row = Row(id: string, line: string, exact: bool)

  datatype Export = Export(rows: seq<Row>, bytes: nat)

  datatype ExportError = InvalidCount | RowLimit | ByteLimit | InvalidCursor | CountChanged

  function Ids(rows: seq<Row>): (r: seq<string>)
    ensures |r| == |rows| && forall i :: 0 <= i < |r| ==> r[i] == rows[i].id
  {
    seq(|rows|, i requires 0 <= i < |rows| => rows[i].id)
  }

  ghost predicate UniqueIds(rows: seq<Row>) {
    forall i, j :: 0 <= i < j < |rows| ==> rows[i].id != rows[j].id
  }

  /** Identifiers never descend; rows with the same identifier may come in any order. */
  ghost predicate InOrder(less: TextOrder, rows: seq<Row>) { NonDescending(less, Ids(rows)) }

  ghost predicate StrictlyAscends(less: TextOrder, rows: seq<Row>) {
    forall i, j :: 0 <= i < j < |rows| ==> less(rows[i].id, rows[j].id)
  }

  // ---- the page query --------------------------------------------------------------------------

  predicate After(less: TextOrder, row: Row, after: string) { after == "" || less(after, row.id) }

  function Matching(less: TextOrder, table: seq<Row>, after: string): (r: seq<Row>)
    ensures forall x :: multiset(r)[x] == if After(less, x, after) then multiset(table)[x] else 0
  {
    if table == [] then []
    else
      assert table == [table[0]] + table[1..];
      (if After(less, table[0], after) then [table[0]] else []) + Matching(less, table[1..], after)
  }

  /** `all` lists exactly these rows in the order of the query. */
  ghost predicate Lists(less: TextOrder, rows: seq<Row>, all: seq<Row>) {
    multiset(all) == multiset(rows) && InOrder(less, all)
  }

  function FirstPage(all: seq<Row>): (r: seq<Row>)
    ensures r <= all && |r| <= PAGE_SIZE && (|r| < PAGE_SIZE ==> r == all)
  {
    if |all| <= PAGE_SIZE then all else all[..PAGE_SIZE]
  }

  // ---- the page loop ---------------------------------------------------------------------------

  function Total(size: string -> nat, rows: seq<Row>): nat {
    if rows == [] then 0 else Total(size, rows[..|rows| - 1]) + size(rows[|rows| - 1].line)
  }

  lemma {:induction false} TotalAppend(size: string -> nat, a: seq<Row>, b: seq<Row>)
    ensures Total(size, a + b) == Total(size, a) + Total(size, b)
    decreases |b|
  {
    if b == [] {
      assert a + b == a;
    } else {
      var n := |b| - 1;
      TotalAppend(size, a, b[..n]);
      assert (a + b)[..|a| + n] == a + b[..n];
    }
  }

  lemma TotalOne(size: string -> nat, x: Row)
    ensures Total(size, [x]) == size(x.line)
  {
    assert [x][..0] == [];
  }

  /** What the export reads and writes: the rows that query `k` lists after a cursor, the size of a line,
      which is never empty because it ends with a line feed, and the size of the header line. */
  datatype Input = Input(listing: (nat, string) -> seq<Row>, size: string -> nat, header: nat)

  ghost predicate LinesCount(input: Input) { forall line :: input.size(line) >= 1 }

  lemma TotalGrows(size: string -> nat, rows: seq<Row>, page: seq<Row>)
    requires page != [] && forall line :: size(line) >= 1
    ensures Total(size, rows + page) > Total(size, rows)
  {
    TotalAppend(size, rows, page);
  }

  ghost predicate AllExact(rows: seq<Row>) { forall i :: 0 <= i < |rows| ==> rows[i].exact }

  /** The rows of one page, appended line by line until a count is refused or the byte limit is passed. */
  ghost function Write(input: Input, rows: seq<Row>, page: seq<Row>): Result<seq<Row>, ExportError>
    decreases |page|
  {
    if page == [] then Ok(rows)
    else if !page[0].exact then Err(InvalidCount)
    else if input.header + Total(input.size, rows + [page[0]]) > MAX_BYTES then Err(ByteLimit)
    else Write(input, rows + [page[0]], page[1..])
  }

  /** A page is written, as a whole, if and only if its counts are exact and the total stays within the
      limit. */
  lemma {:induction false} WriteExact(input: Input, rows: seq<Row>, page: seq<Row>)
    requires input.header + Total(input.size, rows) <= MAX_BYTES
    ensures Write(input, rows, page).Ok? <==> AllExact(page) && input.header + Total(input.size, rows + page) <= MAX_BYTES
    ensures Write(input, rows, page).Ok? ==> Write(input, rows, page).value == rows + page
    decreases |page|
  {
    hide Total;
    if page == [] {
      assert rows + page == rows;
    } else {
      var first, rest := [page[0]], page[1..];
      assert page == first + rest;
      assert rows + page == (rows + first) + rest;
      TotalAppend(input.size, rows + first, rest);
      if input.header + Total(input.size, rows + first) <= MAX_BYTES { WriteExact(input, rows + first, rest); }
      assert forall i :: 0 <= i < |rest| ==> rest[i] == page[i + 1];
      assert AllExact(page) <==> page[0].exact && AllExact(rest) by { ExactSplit(page); }
    }
  }

  lemma ExactSplit(page: seq<Row>)
    requires page != []
    ensures AllExact(page) <==> page[0].exact && AllExact(page[1..])
  {
    if page[0].exact && AllExact(page[1..]) {
      forall i | 0 <= i < |page| ensures page[i].exact { if i > 0 { assert page[1..][i - 1].exact; } }
    }
  }

  /** The export from the point where `rows` are written and query `k` is next. */
  ghost function Continue(input: Input, counted: nat, rows: seq<Row>, after: string, k: nat): Result<Export, ExportError>
    requires LinesCount(input) && input.header + Total(input.size, rows) <= MAX_BYTES
    decreases MAX_BYTES - Total(input.size, rows)
  {
    var page := FirstPage(input.listing(k, after));
    var written := Write(input, rows, page);
    if written.Err? then Err(written.error)
    else
      WriteExact(input, rows, page);
      var all := rows + page;
      if |page| != PAGE_SIZE then
        if |all| != counted then Err(CountChanged) else Ok(Export(all, input.header + Total(input.size, all)))
      else if page[PAGE_SIZE - 1].id == "" then Err(InvalidCursor)
      else
        TotalGrows(input.size, rows, page);
        Continue(input, counted, all, page[PAGE_SIZE - 1].id, k + 1)
  }

  /** The count is absent when the count query returned no exact integer. */
  ghost function Generate(input: Input, counted: Option<nat>): Result<Export, ExportError>
    requires LinesCount(input)
  {
    if counted.None? then Err(InvalidCount)
    else if counted.value > MAX_ROWS then Err(RowLimit)
    else if input.header > MAX_BYTES then Err(ByteLimit)
    else Continue(input, counted.value, [], "", 0)
  }

  /** The loop over the rows of one page. */
  method WritePage(input: Input, page: seq<Row>, rows: seq<Row>, bytes: nat) returns (r: Result<Export, ExportError>)
    requires bytes == input.header + Total(input.size, rows) <= MAX_BYTES
    ensures r.Ok? <==> AllExact(page) && input.header + Total(input.size, rows + page) <= MAX_BYTES
    ensures r.Ok? ==> r.value == Export(rows + page, input.header + Total(input.size, rows + page))
    ensures r.Err? ==> Write(input, rows, page) == Err(r.error)
  {
    hide Total, Write;
    var written, total := rows, bytes;
    assert page[0..] == page;
    for i := 0 to |page|
      invariant total == input.header + Total(input.size, written) <= MAX_BYTES
      invariant Write(input, rows, page) == Write(input, written, page[i..])
    {
      WriteFirst(input, written, page[i..]);
      assert page[i..][0] == page[i] && page[i..][1..] == page[i + 1..];
      if !page[i].exact { WriteExact(input, rows, page); return Err(InvalidCount); }
      TotalAppend(input.size, written, [page[i]]);
      TotalOne(input.size, page[i]);
      total := total + input.size(page[i].line);
      written := written + [page[i]];
      if total > MAX_BYTES { WriteExact(input, rows, page); return Err(ByteLimit); }
    }
    WriteNothing(input, written);
    assert page[|page|..] == [];
    WriteExact(input, rows, page);
    r := Ok(Export(written, total));
  }

  lemma WriteFirst(input: Input, rows: seq<Row>, page: seq<Row>)
    requires page != []
    ensures Write(input, rows, page) ==
      if !page[0].exact then Err(InvalidCount)
      else if input.header + Total(input.size, rows + [page[0]]) > MAX_BYTES then Err(ByteLimit)
      else Write(input, rows + [page[0]], page[1..])
  {
    hide Total;
  }

  lemma WriteNothing(input: Input, rows: seq<Row>)
    ensures Write(input, rows, []) == Ok(rows)
  {
  }

  /** The page loop. */
  method GenerateExport(input: Input, counted: Option<nat>) returns (r: Result<Export, ExportError>)
    requires LinesCount(input)
    ensures r == Generate(input, counted)
  {
    hide Total, Write;
    if counted.None? { return Err(InvalidCount); }
    if counted.value > MAX_ROWS { return Err(RowLimit); }
    var rows, bytes, after, k := [], input.header, "", 0;
    assert Total(input.size, []) == 0 by { EmptyTotal(input.size); }
    if bytes > MAX_BYTES { return Err(ByteLimit); }
    while true
      invariant bytes == input.header + Total(input.size, rows) <= MAX_BYTES
      invariant Generate(input, counted) == Continue(input, counted.value, rows, after, k)
      decreases MAX_BYTES - bytes
    {
      var page := FirstPage(input.listing(k, after));
      WriteExact(input, rows, page);
      var written := WritePage(input, page, rows, bytes);
      if written.Err? { return Err(written.error); }
      if |page| == PAGE_SIZE { TotalGrows(input.size, rows, page); }
      rows, bytes := written.value.rows, written.value.bytes;
      if |page| != PAGE_SIZE { break; }
      if page[PAGE_SIZE - 1].id == "" { return Err(InvalidCursor); }
      after := page[PAGE_SIZE - 1].id;
      k := k + 1;
    }
    if |rows| != counted.value { return Err(CountChanged); }
    r := Ok(Export(rows, bytes));
  }

  lemma EmptyTotal(size: string -> nat)
    ensures Total(size, []) == 0
  {
  }
}
