/** What an export holds: for any history of the table, and exactly when the export of a table that does
    not change succeeds. */
module UsageExportProperties {
  import opened Outcomes
  import opened Ordering
  import opened UsageExport

  /** Query `k` reads `tables(k)` and lists its matching rows in identifier order, ties in any order. */
  ghost predicate Reads(less: TextOrder, tables: nat -> seq<Row>, input: Input) {
    forall k, after :: Lists(less, Matching(less, tables(k), after), input.listing(k, after))
  }

  /** No run of equal identifiers crosses from one page to the next. */
  ghost predicate PagesSeparate(less: TextOrder, ids: seq<string>) {
    forall k :: 0 <= k < |ids| - 1 && (k + 1) % 1_000 == 0 ==> less(ids[k], ids[k + 1])
  }

  /** No full page ends with the empty identifier. */
  ghost predicate PagesEndNamed(ids: seq<string>) {
    forall k :: 0 <= k < |ids| && (k + 1) % 1_000 == 0 ==> ids[k] != ""
  }

  /** The rows of full pages, with the cursor that comes after them. */
  ghost predicate AtCursor(less: TextOrder, rows: seq<Row>, after: string) {
    && |rows| % PAGE_SIZE == 0 && InOrder(less, rows) && PagesSeparate(less, Ids(rows)) && PagesEndNamed(Ids(rows))
    && if rows == [] then after == "" else after != "" && after == rows[|rows| - 1].id
  }

  // ---- one page --------------------------------------------------------------------------------

  ghost predicate AllAfter(less: TextOrder, page: seq<Row>, after: string) {
    forall x :: x in page ==> After(less, x, after)
  }

  lemma PageOf(less: TextOrder, table: seq<Row>, after: string, all: seq<Row>)
    requires Lists(less, Matching(less, table, after), all)
    ensures InOrder(less, FirstPage(all)) && AllAfter(less, FirstPage(all), after)
    ensures forall x :: multiset(FirstPage(all))[x] <= if After(less, x, after) then multiset(table)[x] else 0
  {
    hide After, FirstPage, Matching;
    var page := FirstPage(all);
    assert all == page + all[|page|..];
    assert multiset(all) == multiset(page) + multiset(all[|page|..]);
    assert InOrder(less, page) by { PrefixInOrder(less, all, page); }
    forall x | x in page ensures After(less, x, after) { assert x in multiset(page); }
  }

  lemma PrefixInOrder(less: TextOrder, all: seq<Row>, page: seq<Row>)
    requires InOrder(less, all) && page <= all
    ensures InOrder(less, page)
  {
    assert forall i :: 0 <= i < |page| ==> Ids(page)[i] == Ids(all)[i];
  }

  /** Above the cursor, so above everything before it. */
  lemma AboveAll(less: TextOrder, rows: seq<Row>, after: string, x: Row, i: nat)
    requires InOrder(less, rows) && i < |rows| && after == rows[|rows| - 1].id && after != "" && After(less, x, after)
    ensures less(rows[i].id, x.id)
  {
    assert rows[i].id == Ids(rows)[i] && after == Ids(rows)[|rows| - 1];
    assert i == |rows| - 1 || !less(after, rows[i].id);
    Chain(less, rows[i].id, after, x.id);
  }

  lemma JoinInOrder(less: TextOrder, rows: seq<Row>, page: seq<Row>, after: string)
    requires AtCursor(less, rows, after) && InOrder(less, page) && AllAfter(less, page, after)
    ensures InOrder(less, rows + page)
    ensures rows != [] && page != [] ==> less(rows[|rows| - 1].id, page[0].id)
  {
    hide After, PagesSeparate, PagesEndNamed;
    forall i, j | 0 <= i < |rows| && 0 <= j < |page| ensures less(Ids(rows)[i], Ids(page)[j]) {
      assert page[j] in page;
      AboveAll(less, rows, after, page[j], i);
    }
    assert Ids(rows + page) == Ids(rows) + Ids(page);
    AppendAbove(less, Ids(rows), Ids(page));
  }

  lemma AppendAbove(less: TextOrder, a: seq<string>, b: seq<string>)
    requires NonDescending(less, a) && NonDescending(less, b)
    requires forall i, j :: 0 <= i < |a| && 0 <= j < |b| ==> less(a[i], b[j])
    ensures NonDescending(less, a + b)
  {
    var all := a + b;
    forall i, j | 0 <= i < j < |all| ensures !less(all[j], all[i]) {
      if i < |a| <= j { assert less(a[i], b[j - |a|]); }
    }
  }

  lemma JoinPages(less: TextOrder, rows: seq<Row>, page: seq<Row>, after: string)
    requires AtCursor(less, rows, after) && InOrder(less, page) && AllAfter(less, page, after) && |page| <= PAGE_SIZE
    ensures InOrder(less, rows + page) && PagesSeparate(less, Ids(rows + page))
    ensures |page| < PAGE_SIZE ==> PagesEndNamed(Ids(rows + page))
    ensures |page| == PAGE_SIZE && page[PAGE_SIZE - 1].id != "" ==> AtCursor(less, rows + page, page[PAGE_SIZE - 1].id)
  {
    hide After, InOrder, AllAfter;
    JoinInOrder(less, rows, page, after);
    var ids, all := Ids(rows), Ids(rows + page);
    assert forall k :: 0 <= k < |rows| ==> all[k] == ids[k];
    forall k | 0 <= k < |all| - 1 && (k + 1) % PAGE_SIZE == 0 ensures less(all[k], all[k + 1]) {
      NextMultiple(|rows|, |page|, k);
      if k < |rows| - 1 { assert less(ids[k], ids[k + 1]); }
    }
    forall k | 0 <= k < |all| && (k + 1) % PAGE_SIZE == 0 && (|page| < PAGE_SIZE || page[PAGE_SIZE - 1].id != "")
      ensures all[k] != ""
    {
      NextMultiple(|rows|, |page|, k);
    }
  }

  /** A page boundary among `n + m` rows lies among the first `n`, or at the very end of a full page. */
  lemma NextMultiple(n: nat, m: nat, k: nat)
    requires n % PAGE_SIZE == 0 && m <= PAGE_SIZE && k < n + m && (k + 1) % PAGE_SIZE == 0
    ensures k < n || (m == PAGE_SIZE && k == n + m - 1)
  {
  }

  // ---- any history -----------------------------------------------------------------------------

  ghost predicate Seen(tables: nat -> seq<Row>, rows: seq<Row>) {
    forall x :: x in rows ==> exists k :: x in tables(k)
  }

  lemma SeenAppend(less: TextOrder, tables: nat -> seq<Row>, k: nat, after: string, rows: seq<Row>, page: seq<Row>)
    requires Seen(tables, rows)
    requires forall x :: multiset(page)[x] <= if After(less, x, after) then multiset(tables(k))[x] else 0
    ensures Seen(tables, rows + page)
  {
    hide After;
    forall x | x in rows + page ensures exists j :: x in tables(j) {
      if x in page {
        assert x in multiset(page);
        assert x in multiset(tables(k));
        assert x in tables(k);
      }
    }
  }

  lemma {:induction false} ContinueShape(less: TextOrder, tables: nat -> seq<Row>, input: Input, counted: nat,
                                         rows: seq<Row>, after: string, k: nat)
    requires Reads(less, tables, input) && LinesCount(input) && input.header + Total(input.size, rows) <= MAX_BYTES
    requires AtCursor(less, rows, after) && Seen(tables, rows) && AllExact(rows)
    requires Continue(input, counted, rows, after, k).Ok?
    ensures var out := Continue(input, counted, rows, after, k).value;
      && |out.rows| == counted && out.bytes == input.header + Total(input.size, out.rows) <= MAX_BYTES
      && InOrder(less, out.rows) && PagesSeparate(less, Ids(out.rows)) && PagesEndNamed(Ids(out.rows)) && Seen(tables, out.rows)
      && AllExact(out.rows)
    decreases MAX_BYTES - Total(input.size, rows)
  {
    hide After, InOrder, AllAfter, PagesSeparate, PagesEndNamed, Seen, Total, Lists, Matching, Write;
    var listing := input.listing(k, after);
    var page := FirstPage(listing);
    assert Lists(less, Matching(less, tables(k), after), listing);
    PageOf(less, tables(k), after, listing);
    JoinPages(less, rows, page, after);
    SeenAppend(less, tables, k, after, rows, page);
    WriteExact(input, rows, page);
    assert AllExact(page) ==> AllExact(rows + page);
    if |page| == PAGE_SIZE {
      TotalGrows(input.size, rows, page);
      ContinueShape(less, tables, input, counted, rows + page, page[PAGE_SIZE - 1].id, k + 1);
    }
  }

  lemma NothingWritten(less: TextOrder, tables: nat -> seq<Row>, size: string -> nat)
    ensures AtCursor(less, [], "") && Seen(tables, []) && AllExact([]) && Total(size, []) == 0
  {
  }

  /** Whatever happens to the table between pages, a successful export has the counted rows, all of them
      read from the table, within the limits, never descending, and repeats an identifier only within one
      page. */
  lemma ExportShape(less: TextOrder, tables: nat -> seq<Row>, input: Input, counted: Option<nat>)
    requires Reads(less, tables, input) && LinesCount(input) && Generate(input, counted).Ok?
    ensures var out := Generate(input, counted).value;
      && counted == Some(|out.rows|) && |out.rows| <= 1_000_000
      && out.bytes == input.header + Total(input.size, out.rows) <= 268_435_456
      && Seen(tables, out.rows) && AllExact(out.rows) && InOrder(less, out.rows)
      && PagesSeparate(less, Ids(out.rows)) && PagesEndNamed(Ids(out.rows))
      && forall i, j :: 0 <= i < j < |out.rows| && out.rows[i].id == out.rows[j].id ==> i / 1_000 == j / 1_000
  {
    hide Reads, Continue, Seen, AtCursor, Total, AllExact;
    NothingWritten(less, tables, input.size);
    ContinueShape(less, tables, input, counted.value, [], "", 0);
    var rows := Generate(input, counted).value.rows;
    forall i, j | 0 <= i < j < |rows| && rows[i].id == rows[j].id ensures i / PAGE_SIZE == j / PAGE_SIZE {
      RepeatWithinPage(less, Ids(rows), i, j);
    }
  }

  lemma RepeatWithinPage(less: TextOrder, ids: seq<string>, i: nat, j: nat)
    requires NonDescending(less, ids) && PagesSeparate(less, ids) && i < j < |ids| && ids[i] == ids[j]
    ensures i / PAGE_SIZE == j / PAGE_SIZE
  {
    var k := j - j % PAGE_SIZE;
    if i < k {
      assert (k - 1 + 1) % PAGE_SIZE == 0;
      assert less(ids[k - 1], ids[k]);
      Between(less, ids, i, k - 1, j);
    }
  }

  lemma Between(less: TextOrder, ids: seq<string>, i: nat, k: nat, j: nat)
    requires NonDescending(less, ids) && i <= k < j < |ids| && less(ids[k], ids[k + 1])
    ensures less(ids[i], ids[j])
  {
    assert i == k || !less(ids[k], ids[i]);
    assert j == k + 1 || !less(ids[j], ids[k + 1]);
    Chain(less, ids[i], ids[k], ids[k + 1]);
    Chain(less, ids[i], ids[k + 1], ids[j]);
  }

  // ---- strict ascent ---------------------------------------------------------------------------

  /** At the cursor, rows and page ascend strictly together if and only if each does. */
  lemma JoinStrict(less: TextOrder, rows: seq<Row>, page: seq<Row>, after: string)
    requires AtCursor(less, rows, after) && AllAfter(less, page, after)
    ensures StrictlyAscends(less, rows + page) <==> StrictlyAscends(less, rows) && StrictlyAscends(less, page)
  {
    hide After, PagesSeparate, PagesEndNamed;
    var all := rows + page;
    forall i, j | 0 <= i < |rows| && 0 <= j < |page| ensures less(rows[i].id, page[j].id) {
      assert page[j] in page;
      AboveAll(less, rows, after, page[j], i);
    }
    if StrictlyAscends(less, all) {
      assert forall i :: 0 <= i < |rows| ==> all[i] == rows[i];
      forall i, j | 0 <= i < j < |page| ensures less(page[i].id, page[j].id) {
        assert less(all[|rows| + i].id, all[|rows| + j].id);
      }
    }
  }

  /** No page that the export reads from query `k` on holds an identifier twice. */
  ghost predicate PagesUnique(input: Input, rows: seq<Row>, after: string, k: nat)
    requires LinesCount(input) && input.header + Total(input.size, rows) <= MAX_BYTES
    decreases MAX_BYTES - Total(input.size, rows)
  {
    var page := FirstPage(input.listing(k, after));
    && UniqueIds(page)
    && (Write(input, rows, page).Ok? && |page| == PAGE_SIZE && page[PAGE_SIZE - 1].id != "" ==>
          (WriteExact(input, rows, page);
           TotalGrows(input.size, rows, page);
           PagesUnique(input, rows + page, page[PAGE_SIZE - 1].id, k + 1)))
  }

  lemma {:induction false} ContinueStrict(less: TextOrder, tables: nat -> seq<Row>, input: Input, counted: nat,
                                          rows: seq<Row>, after: string, k: nat)
    requires Reads(less, tables, input) && LinesCount(input) && input.header + Total(input.size, rows) <= MAX_BYTES
    requires AtCursor(less, rows, after) && Continue(input, counted, rows, after, k).Ok?
    ensures StrictlyAscends(less, Continue(input, counted, rows, after, k).value.rows) <==>
            StrictlyAscends(less, rows) && PagesUnique(input, rows, after, k)
    decreases MAX_BYTES - Total(input.size, rows)
  {
    hide After, InOrder, AllAfter, PagesSeparate, PagesEndNamed, Total, Lists, Matching, Write, StrictlyAscends, UniqueIds;
    var listing := input.listing(k, after);
    var page := FirstPage(listing);
    assert Lists(less, Matching(less, tables(k), after), listing);
    PageOf(less, tables(k), after, listing);
    JoinPages(less, rows, page, after);
    JoinStrict(less, rows, page, after);
    StrictIfUnique(less, page);
    WriteExact(input, rows, page);
    if |page| == PAGE_SIZE {
      TotalGrows(input.size, rows, page);
      ContinueStrict(less, tables, input, counted, rows + page, page[PAGE_SIZE - 1].id, k + 1);
    }
  }

  /** Whatever happens to the table, a successful export ascends strictly if and only if no page it read
      holds an identifier twice. */
  lemma StrictByPages(less: TextOrder, tables: nat -> seq<Row>, input: Input, counted: Option<nat>)
    requires Reads(less, tables, input) && LinesCount(input) && Generate(input, counted).Ok?
    ensures input.header + Total(input.size, []) <= MAX_BYTES
    ensures StrictlyAscends(less, Generate(input, counted).value.rows) <==> PagesUnique(input, [], "", 0)
  {
    hide Reads, Continue, Seen, AtCursor, Total, AllExact, PagesUnique;
    NothingWritten(less, tables, input.size);
    ContinueStrict(less, tables, input, counted.value, [], "", 0);
  }

  /** Rows taken from a table with unique identifiers have unique identifiers. */
  lemma TakenUnique(page: seq<Row>, table: seq<Row>)
    requires multiset(page) <= multiset(table) && UniqueIds(table)
    ensures UniqueIds(page)
  {
    forall i, j | 0 <= i < j < |page| ensures page[i].id != page[j].id {
      var x, y := page[i], page[j];
      assert x in multiset(page) && y in multiset(page);
      assert x in multiset(table) && y in multiset(table);
      var a, b := Position(table, x), Position(table, y);
      if x.id == y.id {
        assert a == b;
        var rest := Without(page, j);
        assert rest[i] == x && x in multiset(rest);
        assert multiset(page)[x] == multiset(rest)[x] + 1;
        CountDistinct(table, x);
      }
    }
  }

  lemma {:induction false} UniqueTablesPages(less: TextOrder, tables: nat -> seq<Row>, input: Input, rows: seq<Row>, after: string, k: nat)
    requires Reads(less, tables, input) && (forall j :: UniqueIds(tables(j)))
    requires LinesCount(input) && input.header + Total(input.size, rows) <= MAX_BYTES
    ensures PagesUnique(input, rows, after, k)
    decreases MAX_BYTES - Total(input.size, rows)
  {
    hide After, InOrder, AllAfter, Total, Lists, Matching, Write, UniqueIds;
    var listing := input.listing(k, after);
    var page := FirstPage(listing);
    assert Lists(less, Matching(less, tables(k), after), listing);
    PageOf(less, tables(k), after, listing);
    assert multiset(page) <= multiset(tables(k));
    TakenUnique(page, tables(k));
    if Write(input, rows, page).Ok? && |page| == PAGE_SIZE && page[PAGE_SIZE - 1].id != "" {
      WriteExact(input, rows, page);
      TotalGrows(input.size, rows, page);
      UniqueTablesPages(less, tables, input, rows + page, page[PAGE_SIZE - 1].id, k + 1);
    }
  }

  /** Identifiers unique in every table that is read are enough for strict ascent, even if the table changes
      between pages. */
  lemma UniqueTablesAscend(less: TextOrder, tables: nat -> seq<Row>, input: Input, counted: Option<nat>)
    requires Reads(less, tables, input) && LinesCount(input) && Generate(input, counted).Ok?
    requires forall k :: UniqueIds(tables(k))
    ensures StrictlyAscends(less, Generate(input, counted).value.rows)
  {
    hide Generate, Total, PagesUnique, Reads, UniqueIds, StrictlyAscends;
    StrictByPages(less, tables, input, counted);
    UniqueTablesPages(less, tables, input, [], "", 0);
  }

  // ---- a table that does not change ------------------------------------------------------------

  /** A sequence without one of its elements. */
  function Without<T>(s: seq<T>, i: nat): (r: seq<T>)
    requires i < |s|
    ensures |r| == |s| - 1 && multiset(s) == multiset(r) + multiset{s[i]} && multiset(r) == multiset(s) - multiset{s[i]}
  {
    assert s == s[..i] + [s[i]] + s[i + 1..];
    s[..i] + s[i + 1..]
  }

  ghost function Position<T>(s: seq<T>, x: T): (i: nat)
    requires x in s
    ensures i < |s| && s[i] == x
  {
    var i :| 0 <= i < |s| && s[i] == x;
    i
  }

  lemma TotalSplit(size: string -> nat, a: seq<Row>, x: Row, b: seq<Row>)
    ensures Total(size, a + [x] + b) == Total(size, a + b) + size(x.line)
  {
    hide Total;
    TotalAppend(size, a + [x], b);
    TotalAppend(size, a, [x]);
    TotalAppend(size, a, b);
    TotalOne(size, x);
  }

  lemma {:induction false} TotalWithout(size: string -> nat, rows: seq<Row>, i: nat)
    requires i < |rows|
    ensures Total(size, rows) == Total(size, Without(rows, i)) + size(rows[i].line)
  {
    hide Total;
    var a, b := rows[..i], rows[i + 1..];
    assert rows == a + [rows[i]] + b;
    TotalSplit(size, a, rows[i], b);
  }

  /** Rows taken from a table are no larger than the table. */
  lemma {:induction false} TotalWithin(size: string -> nat, rows: seq<Row>, table: seq<Row>)
    requires multiset(rows) <= multiset(table)
    ensures Total(size, rows) <= Total(size, table)
    decreases |rows|
  {
    hide Without;
    if rows != [] {
      var n := |rows| - 1;
      assert rows == rows[..n] + [rows[n]];
      assert rows[n] in multiset(table);
      var i := Position(table, rows[n]);
      TotalWithin(size, rows[..n], Without(table, i));
      TotalWithout(size, table, i);
    }
  }

  lemma IdsWithout(rows: seq<Row>, i: nat)
    requires i < |rows|
    ensures multiset(Ids(rows)) == multiset(Ids(Without(rows, i))) + multiset{rows[i].id}
  {
    assert Ids(Without(rows, i)) == Without(Ids(rows), i);
  }

  lemma {:induction false} SameIds(rows: seq<Row>, table: seq<Row>)
    requires multiset(rows) == multiset(table)
    ensures multiset(Ids(rows)) == multiset(Ids(table))
    decreases |rows|
  {
    hide Ids, Without;
    SameMultisetSameElements(rows, table);
    if rows == [] {
      assert table == [];
    } else {
      assert rows[0] in table;
      var i := Position(table, rows[0]);
      SameIds(Without(rows, 0), Without(table, i));
      IdsWithout(rows, 0);
      IdsWithout(table, i);
    }
  }

  /** The identifiers of a table in order. */
  function SortedIds(less: TextOrder, table: seq<Row>): (r: seq<string>)
    ensures |r| == |table| && multiset(r) == multiset(Ids(table))
  {
    Sort(less, Ids(table))
  }

  /** Rows in order that are a whole table have its sorted identifiers. */
  lemma WholeTable(less: TextOrder, rows: seq<Row>, table: seq<Row>)
    requires InOrder(less, rows) && multiset(rows) == multiset(table)
    ensures Ids(rows) == SortedIds(less, table)
  {
    hide Sort;
    SameIds(rows, table);
    SortNonDescending(less, Ids(table));
    NonDescendingUnique(less, Ids(rows), SortedIds(less, table));
  }

  predicate IdAfter(less: TextOrder, id: string, after: string) { after == "" || less(after, id) }

  lemma {:induction false} MatchingIds(less: TextOrder, table: seq<Row>, after: string, id: string)
    ensures multiset(Ids(Matching(less, table, after)))[id] == if IdAfter(less, id, after) then multiset(Ids(table))[id] else 0
  {
    hide Ids, Matching;
    MatchingStep(less, table, after);
    if table != [] {
      MatchingIds(less, table[1..], after, id);
      assert table == [table[0]] + table[1..];
      IdsCons(table[0], table[1..]);
      IdsCons(table[0], Matching(less, table[1..], after));
    }
  }

  lemma MatchingStep(less: TextOrder, table: seq<Row>, after: string)
    ensures Matching(less, table, after) ==
      if table == [] then []
      else if IdAfter(less, table[0].id, after) then [table[0]] + Matching(less, table[1..], after)
      else Matching(less, table[1..], after)
  {
  }

  lemma IdsCons(x: Row, rest: seq<Row>)
    ensures multiset(Ids([x] + rest)) == multiset{x.id} + multiset(Ids(rest))
  {
    assert Ids([x] + rest) == [x.id] + Ids(rest);
  }

  /** The cursor splits sorted identifiers where a page ends. */
  lemma {:induction false} CursorSplits(less: TextOrder, ids: seq<string>, n: nat, after: string, id: string)
    requires NonDescending(less, ids) && n <= |ids|
    requires if n == 0 then after == "" else after != "" && after == ids[n - 1] && (n < |ids| ==> less(ids[n - 1], ids[n]))
    ensures multiset(ids[n..])[id] == if IdAfter(less, id, after) then multiset(ids)[id] else 0
  {
    assert ids == ids[..n] + ids[n..];
    if n > 0 {
      if id in ids[..n] {
        var i :| 0 <= i < n && ids[..n][i] == id;
        assert ids[i] == id;
        assert i == n - 1 || !less(ids[n - 1], ids[i]);
      }
      if id in ids[n..] {
        var i :| 0 <= i < |ids[n..]| && ids[n..][i] == id;
        Between(less, ids, n - 1, n - 1, n + i);
      }
    }
  }

  /** On an unchanged table the query after the first `n` sorted identifiers lists the rest of them. */
  lemma {:induction false} ListingContinues(less: TextOrder, table: seq<Row>, n: nat, after: string, all: seq<Row>)
    requires Lists(less, Matching(less, table, after), all) && n <= |table|
    requires var ids := SortedIds(less, table);
      if n == 0 then after == "" else after != "" && after == ids[n - 1] && (n < |ids| ==> less(ids[n - 1], ids[n]))
    ensures Ids(all) == SortedIds(less, table)[n..]
  {
    hide Sort, Matching, SortedIds, Ids, Lists, NonDescending;
    var ids := SortedIds(less, table);
    SortedInOrder(less, table);
    SuffixInOrder(less, ids, n);
    ListsParts(less, Matching(less, table, after), all);
    SameRest(less, table, n, after, all);
    NonDescendingUnique(less, Ids(all), ids[n..]);
  }

  lemma SuffixInOrder(less: TextOrder, ids: seq<string>, n: nat)
    requires NonDescending(less, ids) && n <= |ids|
    ensures NonDescending(less, ids[n..])
  {
  }

  lemma ListsParts(less: TextOrder, rows: seq<Row>, all: seq<Row>)
    requires Lists(less, rows, all)
    ensures multiset(all) == multiset(rows) && NonDescending(less, Ids(all))
  {
  }

  lemma SameRest(less: TextOrder, table: seq<Row>, n: nat, after: string, all: seq<Row>)
    requires multiset(all) == multiset(Matching(less, table, after)) && n <= |table| && NonDescending(less, SortedIds(less, table))
    requires var ids := SortedIds(less, table);
      if n == 0 then after == "" else after != "" && after == ids[n - 1] && (n < |ids| ==> less(ids[n - 1], ids[n]))
    ensures multiset(Ids(all)) == multiset(SortedIds(less, table)[n..])
  {
    hide Sort, Matching, IdAfter, SortedIds, Ids, NonDescending;
    var ids := SortedIds(less, table);
    SameIds(all, Matching(less, table, after));
    forall id ensures multiset(Ids(all))[id] == multiset(ids[n..])[id] {
      MatchingIds(less, table, after, id);
      CursorSplits(less, ids, n, after, id);
    }
  }

  lemma SortedInOrder(less: TextOrder, table: seq<Row>)
    ensures NonDescending(less, SortedIds(less, table))
  {
    SortNonDescending(less, Ids(table));
  }

  /** Nothing written so far comes after the cursor, and all of it is from the table. */
  ghost predicate Taken(less: TextOrder, table: seq<Row>, rows: seq<Row>, after: string) {
    multiset(rows) <= multiset(table) && forall x :: x in rows ==> !After(less, x, after)
  }

  lemma TakePage(less: TextOrder, table: seq<Row>, rows: seq<Row>, page: seq<Row>, after: string)
    requires Taken(less, table, rows, after)
    requires forall x :: multiset(page)[x] <= if After(less, x, after) then multiset(table)[x] else 0
    ensures multiset(rows + page) <= multiset(table)
  {
    hide After;
    forall x ensures multiset(rows + page)[x] <= multiset(table)[x] {
      assert multiset(rows + page)[x] == multiset(rows)[x] + multiset(page)[x];
      assert x in rows <==> x in multiset(rows);
    }
  }

  lemma NoneAfterLast(less: TextOrder, rows: seq<Row>, after: string)
    requires InOrder(less, rows) && rows != [] && after == rows[|rows| - 1].id && after != ""
    ensures forall x :: x in rows ==> !After(less, x, after)
  {
    forall x | x in rows ensures !After(less, x, after) {
      var i :| 0 <= i < |rows| && rows[i] == x;
      assert Ids(rows)[i] == x.id && Ids(rows)[|rows| - 1] == after;
    }
  }

  ghost predicate Fixed(less: TextOrder, table: seq<Row>, input: Input) {
    forall k, after :: Lists(less, Matching(less, table, after), input.listing(k, after))
  }

  /** A successful run takes the whole table. */
  lemma {:induction false} ContinueTakesAll(less: TextOrder, table: seq<Row>, input: Input, rows: seq<Row>, after: string, k: nat)
    requires Fixed(less, table, input) && LinesCount(input) && input.header + Total(input.size, rows) <= MAX_BYTES
    requires AtCursor(less, rows, after) && Taken(less, table, rows, after)
    requires Continue(input, |table|, rows, after, k).Ok?
    ensures multiset(Continue(input, |table|, rows, after, k).value.rows) == multiset(table)
    decreases MAX_BYTES - Total(input.size, rows)
  {
    hide After, InOrder, AllAfter, PagesSeparate, PagesEndNamed, Total, Lists, Matching, Write;
    var listing := input.listing(k, after);
    var page := FirstPage(listing);
    assert Lists(less, Matching(less, table, after), listing);
    WriteExact(input, rows, page);
    PageOf(less, table, after, listing);
    JoinPages(less, rows, page, after);
    TakePage(less, table, rows, page, after);
    if |page| == PAGE_SIZE {
      TotalGrows(input.size, rows, page);
      NoneAfterLast(less, rows + page, page[PAGE_SIZE - 1].id);
      ContinueTakesAll(less, table, input, rows + page, page[PAGE_SIZE - 1].id, k + 1);
    } else {
      AllOfIt(rows + page, table);
    }
  }

  lemma AllOfIt(rows: seq<Row>, table: seq<Row>)
    requires multiset(rows) <= multiset(table) && |rows| == |table|
    ensures multiset(rows) == multiset(table)
  {
    var rest := multiset(table) - multiset(rows);
    assert multiset(table) == multiset(rows) + rest;
    assert |rest| == 0;
  }

  /** What is written is the start of the sorted table. */
  ghost predicate OnTrack(less: TextOrder, table: seq<Row>, rows: seq<Row>, after: string) {
    && AtCursor(less, rows, after) && Taken(less, table, rows, after)
    && |rows| <= |table| && Ids(rows) == SortedIds(less, table)[..|rows|]
  }

  /** The next page keeps on track, and is the last if it is short. */
  lemma {:induction false} PageOnTrack(less: TextOrder, table: seq<Row>, rows: seq<Row>, after: string, listing: seq<Row>)
    requires OnTrack(less, table, rows, after) && Lists(less, Matching(less, table, after), listing)
    requires PagesSeparate(less, SortedIds(less, table)) && PagesEndNamed(SortedIds(less, table))
    ensures var page := FirstPage(listing);
      && multiset(rows + page) <= multiset(table)
      && (|page| != PAGE_SIZE ==> |rows + page| == |table|)
      && (|page| == PAGE_SIZE ==>
            page[PAGE_SIZE - 1].id != "" && OnTrack(less, table, rows + page, page[PAGE_SIZE - 1].id))
  {
    hide After, InOrder, AllAfter, Lists, Matching, SortedIds, PagesSeparate;
    var ids, n, page := SortedIds(less, table), |rows|, FirstPage(listing);
    CursorInSorted(less, ids, rows, after);
    ListingContinues(less, table, n, after, listing);
    PageOf(less, table, after, listing);
    JoinPages(less, rows, page, after);
    TakePage(less, table, rows, page, after);
    JoinIds(rows, page, listing, ids);
    if |page| == PAGE_SIZE {
      assert ids[n + PAGE_SIZE - 1] == Ids(rows + page)[n + PAGE_SIZE - 1] == page[PAGE_SIZE - 1].id;
      NoneAfterLast(less, rows + page, page[PAGE_SIZE - 1].id);
    }
  }

  /** When the sorted identifiers allow it, the run goes through to the end. */
  lemma {:induction false} ContinueSucceeds(less: TextOrder, table: seq<Row>, input: Input, rows: seq<Row>, after: string, k: nat)
    requires Fixed(less, table, input) && LinesCount(input) && input.header + Total(input.size, table) <= MAX_BYTES
    requires PagesSeparate(less, SortedIds(less, table)) && PagesEndNamed(SortedIds(less, table)) && AllExact(table)
    requires OnTrack(less, table, rows, after)
    requires input.header + Total(input.size, rows) <= MAX_BYTES
    ensures Continue(input, |table|, rows, after, k).Ok?
    decreases MAX_BYTES - Total(input.size, rows)
  {
    hide OnTrack, Total, Lists, Matching, SortedIds, PagesSeparate, PagesEndNamed, Write, AllExact;
    var listing := input.listing(k, after);
    var page := FirstPage(listing);
    assert Lists(less, Matching(less, table, after), listing);
    PageOnTrack(less, table, rows, after, listing);
    TotalWithin(input.size, rows + page, table);
    ExactWithin(rows, page, table);
    WriteExact(input, rows, page);
    if |page| == PAGE_SIZE {
      TotalGrows(input.size, rows, page);
      ContinueSucceeds(less, table, input, rows + page, page[PAGE_SIZE - 1].id, k + 1);
    }
  }

  lemma ExactWithin(rows: seq<Row>, page: seq<Row>, table: seq<Row>)
    requires multiset(rows + page) <= multiset(table) && AllExact(table)
    ensures AllExact(page)
  {
    forall i | 0 <= i < |page| ensures page[i].exact {
      assert (rows + page)[|rows| + i] == page[i];
      assert page[i] in multiset(rows + page);
      assert page[i] in multiset(table);
    }
  }

  lemma CursorInSorted(less: TextOrder, ids: seq<string>, rows: seq<Row>, after: string)
    requires AtCursor(less, rows, after) && |rows| <= |ids| && Ids(rows) == ids[..|rows|] && PagesSeparate(less, ids)
    ensures var n := |rows|;
      if n == 0 then after == "" else after != "" && after == ids[n - 1] && (n < |ids| ==> less(ids[n - 1], ids[n]))
  {
    hide InOrder, PagesEndNamed;
    var n := |rows|;
    if n > 0 {
      assert Ids(rows)[n - 1] == ids[n - 1];
      assert (n - 1 + 1) % PAGE_SIZE == 0;
    }
  }

  lemma JoinIds(rows: seq<Row>, page: seq<Row>, listing: seq<Row>, ids: seq<string>)
    requires |rows| <= |ids| && Ids(rows) == ids[..|rows|] && Ids(listing) == ids[|rows|..] && page == FirstPage(listing)
    ensures |rows + page| <= |ids| && Ids(rows + page) == ids[..|rows + page|]
    ensures |page| != PAGE_SIZE ==> |rows + page| == |ids|
  {
    assert forall i :: 0 <= i < |page| ==> page[i].id == Ids(listing)[i] == ids[|rows| + i];
    assert forall i :: 0 <= i < |rows| ==> rows[i].id == Ids(rows)[i] == ids[i];
  }

  /** The export of a table that does not change succeeds if and only if its counts are exact, it is within
      the limits, no run of equal identifiers crosses a page boundary and no full page ends with the empty identifier. It
      then holds every row once, in order, and ascends strictly if and only if identifiers are unique. */
  lemma UnchangedExactly(less: TextOrder, table: seq<Row>, input: Input)
    requires Fixed(less, table, input) && LinesCount(input)
    ensures Generate(input, Some(|table|)).Ok? <==>
      && AllExact(table) && |table| <= 1_000_000 && input.header + Total(input.size, table) <= 268_435_456
      && PagesSeparate(less, SortedIds(less, table)) && PagesEndNamed(SortedIds(less, table))
    ensures Generate(input, Some(|table|)).Ok? ==>
      var rows := Generate(input, Some(|table|)).value.rows;
      && multiset(rows) == multiset(table) && Ids(rows) == SortedIds(less, table)
      && (StrictlyAscends(less, rows) <==> UniqueIds(table))
  {
    hide Continue, Total, AtCursor, SortedIds, Fixed, PagesSeparate, PagesEndNamed, StrictlyAscends, UniqueIds, Reads, InOrder, AllExact;
    var tables: nat -> seq<Row> := (_: nat) => table;
    assert Reads(less, tables, input) by { FixedReads(less, table, tables, input); }
    NothingWritten(less, tables, input.size);
    if Generate(input, Some(|table|)).Ok? {
      var rows := Generate(input, Some(|table|)).value.rows;
      ExportShape(less, tables, input, Some(|table|));
      ContinueTakesAll(less, table, input, [], "", 0);
      WholeTable(less, rows, table);
      TotalWithin(input.size, table, rows);
      assert rows + [] == rows && [] + table == table;
      ExactWithin([], table, rows);
      StrictExactly(less, rows, table);
    } else if AllExact(table) && |table| <= MAX_ROWS && input.header + Total(input.size, table) <= MAX_BYTES
           && PagesSeparate(less, SortedIds(less, table)) && PagesEndNamed(SortedIds(less, table)) {
      ContinueSucceeds(less, table, input, [], "", 0);
    }
  }

  lemma FixedReads(less: TextOrder, table: seq<Row>, tables: nat -> seq<Row>, input: Input)
    requires Fixed(less, table, input) && forall k :: tables(k) == table
    ensures Reads(less, tables, input)
  {
    hide Lists;
  }

  lemma StrictExactly(less: TextOrder, rows: seq<Row>, table: seq<Row>)
    requires InOrder(less, rows) && multiset(rows) == multiset(table)
    ensures StrictlyAscends(less, rows) <==> UniqueIds(table)
  {
    hide InOrder;
    SameIds(rows, table);
    UniqueByCount(rows);
    UniqueByCount(table);
    assert StrictlyAscends(less, rows) <==> UniqueIds(rows) by { StrictIfUnique(less, rows); }
  }

  lemma StrictIfUnique(less: TextOrder, rows: seq<Row>)
    requires InOrder(less, rows)
    ensures StrictlyAscends(less, rows) <==> UniqueIds(rows)
  {
    assert forall i :: 0 <= i < |rows| ==> Ids(rows)[i] == rows[i].id;
  }

  lemma {:induction false} UniqueByCount(rows: seq<Row>)
    ensures UniqueIds(rows) <==> forall id :: multiset(Ids(rows))[id] <= 1
  {
    var ids := Ids(rows);
    if UniqueIds(rows) {
      forall id ensures multiset(ids)[id] <= 1 { CountDistinct(ids, id); }
    } else {
      var i, j :| 0 <= i < j < |rows| && rows[i].id == rows[j].id;
      var rest := Without(ids, j);
      assert rest[i] == ids[i] && ids[i] in rest;
      assert ids[i] in multiset(rest);
      assert multiset(ids)[ids[i]] == multiset(rest)[ids[i]] + 1;
    }
  }

  lemma {:induction false} CountDistinct<T(!new)>(ids: seq<T>, id: T)
    requires forall i, j :: 0 <= i < j < |ids| ==> ids[i] != ids[j]
    ensures multiset(ids)[id] <= 1
  {
    if ids != [] {
      var n := |ids| - 1;
      assert ids == ids[..n] + [ids[n]];
      CountDistinct(ids[..n], id);
      if id == ids[n] { assert id !in multiset(ids[..n]); }
    }
  }

  // ---- inputs on which it fails ----------------------------------------------------------------

  /** A table of rows that all have one identifier. */
  function Repeated(id: string, n: nat): (r: seq<Row>)
    ensures |r| == n && AllExact(r) && forall x :: x in r ==> x.id == id
  {
    seq(n, _ => Row(id, "", true))
  }

  function Ones(): string -> nat { (_: string) => 1 }

  function RepeatedInput(less: TextOrder, id: string, n: nat): Input {
    Input((_: nat, after: string) => Matching(less, Repeated(id, n), after), Ones(), 0)
  }

  lemma {:induction false} MatchingRepeated(less: TextOrder, id: string, n: nat, after: string)
    ensures Lists(less, Matching(less, Repeated(id, n), after), Matching(less, Repeated(id, n), after))
    ensures after == id != "" ==> Matching(less, Repeated(id, n), after) == []
  {
    hide Matching, Repeated;
    var r := Matching(less, Repeated(id, n), after);
    forall x | x in r ensures x.id == id && After(less, x, after) {
      assert x in multiset(r);
      assert x in multiset(Repeated(id, n));
    }
    assert forall i :: 0 <= i < |r| ==> r[i] in r && Ids(r)[i] == id;
    assert after == id != "" ==> forall x :: x in r ==> !After(less, x, after);
  }

  lemma {:induction false} TotalOnes(rows: seq<Row>)
    ensures Total(Ones(), rows) == |rows|
  {
    if rows != [] { TotalOnes(rows[..|rows| - 1]); }
  }

  lemma {:induction false} SortedRepeated(less: TextOrder, id: string, n: nat)
    ensures forall k :: 0 <= k < n ==> SortedIds(less, Repeated(id, n))[k] == id
  {
    hide SortedIds, Repeated;
    var table := Repeated(id, n);
    var ids := SortedIds(less, table);
    forall k | 0 <= k < n ensures ids[k] == id {
      assert ids[k] in multiset(Ids(table));
      var i := Position(Ids(table), ids[k]);
      assert table[i] in table;
    }
  }

  lemma {:induction false} RepeatedIsRead(less: TextOrder, id: string, n: nat)
    ensures var input := RepeatedInput(less, id, n);
      Fixed(less, Repeated(id, n), input) && LinesCount(input) && Total(input.size, Repeated(id, n)) == n
  {
    hide Matching, Repeated, Lists;
    forall after ensures Lists(less, Matching(less, Repeated(id, n), after), Matching(less, Repeated(id, n), after)) {
      MatchingRepeated(less, id, n, after);
    }
    TotalOnes(Repeated(id, n));
  }

  /** The export of `n` rows that share an identifier succeeds only if they fit on one page, and on
      exactly one page only if the identifier is not empty; from two rows on it does not ascend strictly. */
  lemma {:induction false} RepeatedIdentifier(less: TextOrder, id: string, n: nat)
    requires n <= 1_000_000
    ensures var r := (RepeatedIsRead(less, id, n); Generate(RepeatedInput(less, id, n), Some(n)));
      && (r.Ok? <==> n < 1_000 || (n == 1_000 && id != ""))
      && (r.Ok? && n >= 2 ==> !StrictlyAscends(less, r.value.rows))
  {
    hide Generate, SortedIds, Repeated, RepeatedInput, Fixed, Ones;
    RepeatedIsRead(less, id, n);
    var input, table := RepeatedInput(less, id, n), Repeated(id, n);
    var ids := SortedIds(less, table);
    UnchangedExactly(less, table, input);
    SortedRepeated(less, id, n);
    RepeatedSizes(less, id, n);
    if n >= 2 { assert table[0] in table && table[1] in table; }
    assert n > PAGE_SIZE ==> !PagesSeparate(less, ids) by {
      if n > PAGE_SIZE { assert ids[PAGE_SIZE - 1] == ids[PAGE_SIZE] == id; }
    }
    assert n >= PAGE_SIZE ==> ids[PAGE_SIZE - 1] == id;
  }

  lemma RepeatedSizes(less: TextOrder, id: string, n: nat)
    ensures RepeatedInput(less, id, n).header == 0 && RepeatedInput(less, id, n).size == Ones()
  {
    hide Ones;
  }

  /** The first query lists the whole table. */
  lemma {:induction false} ListsAll(less: TextOrder, table: seq<Row>)
    ensures |Matching(less, table, "")| == |table|
  {
    hide Matching;
    var r := Matching(less, table, "");
    assert multiset(r) == multiset(table);
    SameMultisetSameElements(r, table);
  }

  /** How it fails: a full page of empty identifiers is refused as a cursor, and rows cut off by a page
      boundary are never listed again, so that the count differs. */
  lemma {:induction false} RepeatedError(less: TextOrder, id: string, n: nat)
    requires 1_000 <= n <= 1_000_000
    ensures var r := (RepeatedIsRead(less, id, n); Generate(RepeatedInput(less, id, n), Some(n)));
      && (id == "" ==> r == Err(InvalidCursor))
      && (id != "" && n > 1_000 ==> r == Err(CountChanged))
  {
    hide Generate, RepeatedInput;
    FirstTurn(less, id, n);
    if id != "" && n > PAGE_SIZE { SecondTurn(less, id, n); }
  }

  /** After the first turn: the cursor is refused, or the loop goes on behind the full page. */
  lemma {:induction false} FirstTurn(less: TextOrder, id: string, n: nat)
    requires PAGE_SIZE <= n <= MAX_ROWS
    ensures var input := (RepeatedIsRead(less, id, n); RepeatedInput(less, id, n));
      var page := FirstPage(input.listing(0, ""));
      && (id == "" ==> Generate(input, Some(n)) == Err(InvalidCursor))
      && (id != "" ==> input.header + Total(input.size, page) <= MAX_BYTES
                       && Generate(input, Some(n)) == Continue(input, n, page, id, 1))
  {
    hide RepeatedInput, Total, Write, Continue, AllExact, Ones, Generate;
    RepeatedIsRead(less, id, n);
    RepeatedSizes(less, id, n);
    var input := RepeatedInput(less, id, n);
    FullPage(less, id, n);
    PageFits(FirstPage(input.listing(0, "")), input);
    OneTurn(input, n);
  }

  lemma {:induction false} OneTurn(input: Input, n: nat)
    requires LinesCount(input) && n <= MAX_ROWS && input.header == 0 && Total(input.size, []) == 0
    requires var page := FirstPage(input.listing(0, "")); |page| == PAGE_SIZE && Write(input, [], page).Ok?
    ensures var page := FirstPage(input.listing(0, ""));
      && (page[PAGE_SIZE - 1].id == "" ==> Generate(input, Some(n)) == Err(InvalidCursor))
      && (page[PAGE_SIZE - 1].id != "" ==>
            && input.header + Total(input.size, page) <= MAX_BYTES
            && Generate(input, Some(n)) == Continue(input, n, page, page[PAGE_SIZE - 1].id, 1))
  {
    hide Total, Write, Continue;
    var page := FirstPage(input.listing(0, ""));
    assert [] + page == page;
    ContinueOnce(input, n, [], "", 0);
  }

  /** A page of small rows is written. */
  lemma {:induction false} PageFits(page: seq<Row>, input: Input)
    requires |page| <= PAGE_SIZE && AllExact(page) && input.size == Ones() && input.header == 0
    ensures Total(input.size, []) == 0 && Write(input, [], page).Ok? && [] + page == page
  {
    hide Total, Write, Ones;
    TotalOnes([]);
    TotalOnes(page);
    assert [] + page == page;
    WriteExact(input, [], page);
  }

  /** Behind the cursor nothing is listed any more, so the count differs. */
  lemma {:induction false} SecondTurn(less: TextOrder, id: string, n: nat)
    requires PAGE_SIZE < n <= MAX_ROWS && id != ""
    ensures var input := (RepeatedIsRead(less, id, n); RepeatedInput(less, id, n));
      var page := FirstPage(input.listing(0, ""));
      input.header + Total(input.size, page) <= MAX_BYTES && Continue(input, n, page, id, 1) == Err(CountChanged)
  {
    hide Matching, Repeated, Total, Write, Continue, AllExact;
    FirstTurn(less, id, n);
    RepeatedIsRead(less, id, n);
    var input := RepeatedInput(less, id, n);
    var page := FirstPage(input.listing(0, ""));
    FullPage(less, id, n);
    MatchingRepeated(less, id, n, id);
    assert input.listing(1, id) == [];
    assert page + [] == page;
    NoRows();
    WriteExact(input, page, []);
    ContinueOnce(input, n, page, id, 1);
  }

  lemma NoRows()
    ensures AllExact([])
  {
  }

  lemma {:induction false} FullPage(less: TextOrder, id: string, n: nat)
    requires PAGE_SIZE <= n
    ensures var page := FirstPage(RepeatedInput(less, id, n).listing(0, ""));
      |page| == PAGE_SIZE && AllExact(page) && page[PAGE_SIZE - 1].id == id
  {
    hide Matching, Repeated;
    var table := Repeated(id, n);
    var all := Matching(less, table, "");
    ListsAll(less, table);
    forall i | 0 <= i < |all| ensures all[i].id == id && all[i].exact {
      assert all[i] in multiset(all);
      assert all[i] in multiset(table);
    }
  }

  /** One turn of the page loop. */
  lemma {:induction false} ContinueOnce(input: Input, counted: nat, rows: seq<Row>, after: string, k: nat)
    requires LinesCount(input) && input.header + Total(input.size, rows) <= MAX_BYTES
    ensures var page := FirstPage(input.listing(k, after));
      var all := rows + page;
      Write(input, rows, page).Ok? ==>
        && (|page| != PAGE_SIZE && |all| != counted ==> Continue(input, counted, rows, after, k) == Err(CountChanged))
        && (|page| == PAGE_SIZE && page[PAGE_SIZE - 1].id == "" ==> Continue(input, counted, rows, after, k) == Err(InvalidCursor))
        && (|page| == PAGE_SIZE && page[PAGE_SIZE - 1].id != "" ==>
              && input.header + Total(input.size, all) <= MAX_BYTES
              && Continue(input, counted, rows, after, k) == Continue(input, counted, all, page[PAGE_SIZE - 1].id, k + 1))
  {
    hide Total, Write;
    WriteExact(input, rows, FirstPage(input.listing(k, after)));
  }
}
