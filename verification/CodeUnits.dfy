/** The text order is that of UTF-16 code units, in which JavaScript compares strings. */
module CodeUnits {
  import opened Ordering

  /** The one or two code units of a character. */
  function Units(c: char): (r: seq<int>)
    ensures |r| > 0
  {
    var n := c as int;
    if n < 0x10000 then [n] else [0xD800 + (n - 0x10000) / 0x400, 0xDC00 + (n - 0x10000) % 0x400]
  }

  function AllUnits(s: string): seq<int> { if s == [] then [] else Units(s[0]) + AllUnits(s[1..]) }

  /** Lexicographic comparison of numbers. */
  predicate UnitsLess(a: seq<int>, b: seq<int>) {
    b != [] && (a == [] || a[0] < b[0] || (a[0] == b[0] && UnitsLess(a[1..], b[1..])))
  }

  lemma {:induction false} CommonPrefix(p: seq<int>, a: seq<int>, b: seq<int>)
    ensures UnitsLess(p + a, p + b) <==> UnitsLess(a, b)
  {
    if p == [] {
      assert p + a == a && p + b == b;
    } else {
      assert (p + a)[1..] == p[1..] + a && (p + b)[1..] == p[1..] + b;
      CommonPrefix(p[1..], a, b);
    }
  }

  lemma Surrogates(n: int, m: int)
    requires 0x10000 <= n < 0x110000 && 0x10000 <= m < 0x110000
    ensures 0 <= (n - 0x10000) / 0x400 < 0x400
    ensures n < m <==> (n - 0x10000) / 0x400 < (m - 0x10000) / 0x400
                       || ((n - 0x10000) / 0x400 == (m - 0x10000) / 0x400 && (n - 0x10000) % 0x400 < (m - 0x10000) % 0x400)
    ensures n == m <==> (n - 0x10000) / 0x400 == (m - 0x10000) / 0x400 && (n - 0x10000) % 0x400 == (m - 0x10000) % 0x400
  {
  }

  /** Two different characters are ordered by their units, whatever follows. */
  lemma FirstDifference(c: char, d: char, x: seq<int>, y: seq<int>)
    requires c != d
    ensures UnitsLess(Units(c) + x, Units(d) + y) <==> UnitRank(c) < UnitRank(d)
  {
    var n, m := c as int, d as int;
    var a, b := Units(c) + x, Units(d) + y;
    assert a[0] == Units(c)[0] && b[0] == Units(d)[0];
    if n >= 0x10000 && m >= 0x10000 {
      Surrogates(n, m);
      assert a[1..][0] == Units(c)[1] && b[1..][0] == Units(d)[1];
    } else if n >= 0x10000 {
      Surrogates(n, n);
    } else if m >= 0x10000 {
      Surrogates(m, m);
    }
  }

  lemma {:induction false} TextLessByUnits(a: string, b: string)
    ensures TextLess(a, b) <==> UnitsLess(AllUnits(a), AllUnits(b))
  {
    hide Units, UnitRank;
    if a != [] && b != [] {
      if a[0] == b[0] {
        TextLessByUnits(a[1..], b[1..]);
        CommonPrefix(Units(a[0]), AllUnits(a[1..]), AllUnits(b[1..]));
      } else {
        FirstDifference(a[0], b[0], AllUnits(a[1..]), AllUnits(b[1..]));
      }
    }
  }
}
