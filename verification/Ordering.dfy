/** Strict orders and sorting. The service sorts object keys, dimension keys, sample identifiers and
    policy rows; all of them go through this module. */
module Ordering {

  /** Some element of a set. */
  ghost function Member<T>(s: set<T>): (x: T)
    requires s != {}
    ensures x in s
  {
    var x :| x in s;
    x
  }

  ghost predicate StrictOrder<T(!new)>(less: (T, T) -> bool) {
    && (forall x :: !less(x, x))
    && (forall x, y, z :: less(x, y) && less(y, z) ==> less(x, z))
  }

  /** Strictly ascending, so in particular without repeats when `less` is irreflexive. */
  ghost predicate Ascending<T>(less: (T, T) -> bool, s: seq<T>) {
    forall i, j :: 0 <= i < j < |s| ==> less(s[i], s[j])
  }

  /** Any two positions hold comparable, hence different, elements. */
  ghost predicate Comparable<T>(less: (T, T) -> bool, s: seq<T>) {
    forall i, j :: 0 <= i < j < |s| ==> less(s[i], s[j]) || less(s[j], s[i])
  }

  ghost predicate SameElements<T(!new)>(a: seq<T>, b: seq<T>) {
    forall x :: x in a <==> x in b
  }

  function Insert<T>(less: (T, T) -> bool, x: T, s: seq<T>): (r: seq<T>)
    ensures |r| == |s| + 1
    ensures multiset(r) == multiset(s) + multiset{x}
  {
    if s == [] then [x]
    else if less(x, s[0]) then [x] + s
    else
      assert s == [s[0]] + s[1..];
      [s[0]] + Insert(less, x, s[1..])
  }

  function Sort<T>(less: (T, T) -> bool, s: seq<T>): (r: seq<T>)
    ensures multiset(r) == multiset(s)
    ensures |r| == |s|
  {
    if s == [] then []
    else
      assert s == [s[0]] + s[1..];
      Insert(less, s[0], Sort(less, s[1..]))
  }

  lemma SameMultisetSameElements<T(!new)>(a: seq<T>, b: seq<T>)
    requires multiset(a) == multiset(b)
    ensures SameElements(a, b) && |a| == |b|
  {
    forall x ensures x in a <==> x in b {
      assert x in a <==> x in multiset(a);
      assert x in b <==> x in multiset(b);
    }
    assert |multiset(a)| == |multiset(b)|;
  }

  lemma {:induction false} InsertAscending<T(!new)>(less: (T, T) -> bool, x: T, s: seq<T>)
    requires StrictOrder(less) && Ascending(less, s)
    requires forall y :: y in s ==> less(x, y) || less(y, x)
    ensures Ascending(less, Insert(less, x, s))
  {
    if s == [] {
    } else if less(x, s[0]) {
      var r := [x] + s;
      forall i, j | 0 <= i < j < |r| ensures less(r[i], r[j]) {
        if i == 0 && j > 1 { assert less(s[0], s[j - 1]); }
      }
    } else {
      InsertAscending(less, x, s[1..]);
      var t := Insert(less, x, s[1..]);
      forall y | y in t ensures less(s[0], y) {
        assert y in multiset(t);
        if y != x { assert y in s[1..]; var k :| 0 <= k < |s[1..]| && s[1..][k] == y; assert y == s[k + 1]; }
      }
      var r := [s[0]] + t;
      forall i, j | 0 <= i < j < |r| ensures less(r[i], r[j]) {
        if i == 0 { assert r[j] in t; }
      }
    }
  }

  lemma {:induction false} SortAscending<T(!new)>(less: (T, T) -> bool, s: seq<T>)
    requires StrictOrder(less) && Comparable(less, s)
    ensures Ascending(less, Sort(less, s))
  {
    if s != [] {
      var rest := s[1..];
      SortAscending(less, rest);
      SameMultisetSameElements(Sort(less, rest), rest);
      forall y | y in Sort(less, rest) ensures less(s[0], y) || less(y, s[0]) {
        assert y in rest;
        var k :| 0 <= k < |rest| && rest[k] == y;
        assert y == s[k + 1];
      }
      InsertAscending(less, s[0], Sort(less, rest));
    }
  }

  /** An ascending sequence is determined by its set of elements. */
  lemma {:induction false} AscendingUnique<T(!new)>(less: (T, T) -> bool, a: seq<T>, b: seq<T>)
    requires StrictOrder(less) && Ascending(less, a) && Ascending(less, b) && SameElements(a, b)
    ensures a == b
  {
    assert b != [] ==> b[0] in a;
    if a != [] {
      assert a[0] in b;
      var j :| 0 <= j < |b| && b[j] == a[0];
      var i :| 0 <= i < |a| && a[i] == b[0];
      assert a[0] == b[0];
      forall x ensures x in a[1..] <==> x in b[1..] {
        if x in a[1..] {
          var k :| 0 <= k < |a[1..]| && a[1..][k] == x;
          assert less(a[0], a[k + 1]);
          assert a[k + 1] in b;
          var l :| 0 <= l < |b| && b[l] == x;
          assert b[1..][l - 1] == x;
        }
        if x in b[1..] {
          var k :| 0 <= k < |b[1..]| && b[1..][k] == x;
          assert less(b[0], b[k + 1]);
          assert b[k + 1] in a;
          var l :| 0 <= l < |a| && a[l] == x;
          assert a[1..][l - 1] == x;
        }
      }
      AscendingUnique(less, a[1..], b[1..]);
      assert a == [a[0]] + a[1..] && b == [b[0]] + b[1..];
    }
  }

  /** Sorting forgets the input order. */
  lemma SortCanonical<T(!new)>(less: (T, T) -> bool, a: seq<T>, b: seq<T>)
    requires StrictOrder(less) && Comparable(less, a) && Comparable(less, b) && SameElements(a, b)
    ensures Sort(less, a) == Sort(less, b)
  {
    SortAscending(less, a);
    SortAscending(less, b);
    SameMultisetSameElements(Sort(less, a), a);
    SameMultisetSameElements(Sort(less, b), b);
    AscendingUnique(less, Sort(less, a), Sort(less, b));
  }

  /** The position a character takes when JavaScript compares strings by UTF-16 code units: the
      supplementary planes start with a surrogate, which is below U+E000. */
  function UnitRank(c: char): (r: int)
    ensures r >= 0
  {
    if 0xE000 <= c as int <= 0xFFFF then c as int + 0x110000 else c as int
  }

  /** The JavaScript `<` on strings. */
  predicate TextLess(a: string, b: string) {
    if b == [] then false
    else if a == [] then true
    else if a[0] != b[0] then UnitRank(a[0]) < UnitRank(b[0])
    else TextLess(a[1..], b[1..])
  }

  lemma {:induction false} TextLessTotal(a: string, b: string)
    ensures a == b || TextLess(a, b) || TextLess(b, a)
    ensures !(TextLess(a, b) && TextLess(b, a))
    ensures !TextLess(a, a)
  {
    if a != [] { TextLessTotal(a[1..], a[1..]); }
    if a != [] && b != [] && a[0] == b[0] {
      TextLessTotal(a[1..], b[1..]);
      assert a == [a[0]] + a[1..] && b == [b[0]] + b[1..];
    }
  }

  lemma {:induction false} TextLessTransitive(a: string, b: string, c: string)
    requires TextLess(a, b) && TextLess(b, c)
    ensures TextLess(a, c)
  {
    if a != [] && a[0] == b[0] && b[0] == c[0] {
      TextLessTransitive(a[1..], b[1..], c[1..]);
    }
  }

  lemma TextLessStrictOrder()
    ensures StrictOrder(TextLess)
  {
    forall x ensures !TextLess(x, x) { TextLessTotal(x, x); }
    forall x, y, z | TextLess(x, y) && TextLess(y, z) ensures TextLess(x, z) {
      TextLessTransitive(x, y, z);
    }
  }

  ghost predicate Distinct<T>(s: seq<T>) {
    forall i, j :: 0 <= i < j < |s| ==> s[i] != s[j]
  }

  lemma DistinctTextComparable(s: seq<string>)
    requires Distinct(s)
    ensures Comparable(TextLess, s)
  {
    forall i, j | 0 <= i < j < |s| ensures TextLess(s[i], s[j]) || TextLess(s[j], s[i]) {
      TextLessTotal(s[i], s[j]);
    }
  }

  // ---- orders of a database --------------------------------------------------------------------

  ghost predicate TotalOrder(less: (string, string) -> bool) {
    StrictOrder(less) && forall a, b :: a == b || less(a, b) || less(b, a)
  }

  lemma TextLessTotalOrder()
    ensures TotalOrder(TextLess)
  {
    hide TextLess;
    TextLessStrictOrder();
    forall a, b ensures a == b || TextLess(a, b) || TextLess(b, a) { TextLessTotal(a, b); }
  }

  /** How a database compares texts: any strict total order, whatever its collation. */
  type TextOrder = less: (string, string) -> bool | TotalOrder(less) ghost witness (TextLessTotalOrder(); TextLess)

  lemma Chain(less: TextOrder, a: string, b: string, c: string)
    ensures !less(b, a) && less(b, c) ==> less(a, c)
    ensures less(a, b) && !less(c, b) ==> less(a, c)
  {
  }

  ghost predicate NonDescending(less: TextOrder, s: seq<string>) {
    forall i, j :: 0 <= i < j < |s| ==> !less(s[j], s[i])
  }

  lemma {:induction false} InsertNonDescending(less: TextOrder, x: string, s: seq<string>)
    requires NonDescending(less, s)
    ensures NonDescending(less, Insert(less, x, s))
  {
    if s == [] {
    } else if less(x, s[0]) {
      var r := [x] + s;
      forall i, j | 0 <= i < j < |r| ensures !less(r[j], r[i]) {
        if i == 0 && j > 1 { assert !less(s[j - 1], s[0]); }
      }
    } else {
      InsertNonDescending(less, x, s[1..]);
      var t := Insert(less, x, s[1..]);
      forall y | y in t ensures !less(y, s[0]) {
        assert y in multiset(t);
        if y != x {
          assert y in s[1..];
          var k :| 0 <= k < |s[1..]| && s[1..][k] == y;
          assert y == s[k + 1];
        }
      }
      var r := [s[0]] + t;
      forall i, j | 0 <= i < j < |r| ensures !less(r[j], r[i]) {
        if i == 0 { assert r[j] in t; }
      }
    }
  }

  lemma {:induction false} SortNonDescending(less: TextOrder, s: seq<string>)
    ensures NonDescending(less, Sort(less, s))
  {
    if s != [] {
      SortNonDescending(less, s[1..]);
      InsertNonDescending(less, s[0], Sort(less, s[1..]));
    }
  }

  lemma LeastFirst(less: TextOrder, s: seq<string>, x: string)
    requires NonDescending(less, s) && x in s
    ensures !less(x, s[0])
  {
    var k :| 0 <= k < |s| && s[k] == x;
  }

  lemma DropFirst<T>(s: seq<T>)
    requires s != []
    ensures multiset(s[1..]) == multiset(s) - multiset{s[0]}
  {
    assert s == [s[0]] + s[1..];
  }

  lemma SameFirst(less: TextOrder, a: seq<string>, b: seq<string>)
    requires a != [] && NonDescending(less, a) && NonDescending(less, b) && multiset(a) == multiset(b)
    ensures b != [] && a[0] == b[0] && multiset(a[1..]) == multiset(b[1..])
  {
    hide NonDescending;
    SameMultisetSameElements(a, b);
    assert a[0] in b && b[0] in a;
    LeastFirst(less, a, b[0]);
    LeastFirst(less, b, a[0]);
    DropFirst(a);
    DropFirst(b);
  }

  /** A non-descending sequence is determined by its multiset. */
  lemma {:induction false} NonDescendingUnique(less: TextOrder, a: seq<string>, b: seq<string>)
    requires NonDescending(less, a) && NonDescending(less, b) && multiset(a) == multiset(b)
    ensures a == b
  {
    hide NonDescending;
    if a == [] {
      SameMultisetSameElements(a, b);
    } else {
      SameFirst(less, a, b);
      RestNonDescending(less, a);
      RestNonDescending(less, b);
      NonDescendingUnique(less, a[1..], b[1..]);
      assert a == [a[0]] + a[1..] && b == [b[0]] + b[1..];
    }
  }

  lemma RestNonDescending(less: TextOrder, s: seq<string>)
    requires s != [] && NonDescending(less, s)
    ensures NonDescending(less, s[1..])
  {
  }
}
