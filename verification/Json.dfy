/** JSON values and the text `JSON.stringify` gives them. */
module Json {
  import opened Outcomes
  import opened Ordering
  import opened Numerals

  /** A number is represented by the text JavaScript prints for it. */
  datatype Json =
    | Null
    | Bool(b: bool)
    | Num(text: string)
    | Str(s: string)
    | Arr(items: seq<Json>)
    | Obj(fields: seq<Field>)

  /** Own enumerable properties in enumeration order. */
  datatype Field = Field(key: string, value: Json)

  predicate IsNumberChar(c: char) { IsDigit(c) || c == '-' || c == '+' || c == '.' || c == 'e' }

  predicate IsNumberText(s: string) {
    && |s| > 0 && (IsDigit(s[0]) || s[0] == '-')
    && forall i :: 0 <= i < |s| ==> IsNumberChar(s[i])
  }

  ghost predicate DistinctKeys(fields: seq<Field>) {
    forall i, j :: 0 <= i < j < |fields| ==> fields[i].key != fields[j].key
  }

  /** Object keys are unique and numbers have number text, at every depth. */
  ghost predicate Valid(v: Json) {
    match v
    case Num(text) => IsNumberText(text)
    case Arr(items) => forall x :: x in items ==> Valid(x)
    case Obj(fields) => DistinctKeys(fields) && forall f :: f in fields ==> Valid(f.value)
    case _ => true
  }

  // ---- objects ---------------------------------------------------------------------------------

  /** Keys that JavaScript enumerates first, in numeric order, whatever order they were added in. */
  predicate IsIndexKey(k: string) { Canonical(k) && Value(k) <= 4_294_967_294 }

  predicate IndexLess(a: Field, b: Field) {
    IsIndexKey(a.key) && IsIndexKey(b.key) && Value(a.key) < Value(b.key)
  }

  function Select(fields: seq<Field>, index: bool): (r: seq<Field>) {
    if fields == [] then []
    else (if IsIndexKey(fields[0].key) == index then [fields[0]] else []) + Select(fields[1..], index)
  }

  lemma {:induction false} SelectBoth(fields: seq<Field>)
    ensures multiset(Select(fields, true)) + multiset(Select(fields, false)) == multiset(fields)
  {
    if fields != [] {
      SelectBoth(fields[1..]);
      assert fields == [fields[0]] + fields[1..];
    }
  }

  /** `Object.fromEntries`: the enumeration order of an object built from these entries. */
  function FromEntries(fields: seq<Field>): (r: seq<Field>)
    ensures multiset(r) == multiset(fields)
  {
    SelectBoth(fields);
    Sort(IndexLess, Select(fields, true)) + Select(fields, false)
  }

  /** Reading a property. */
  function FindField(fields: seq<Field>, k: string): (r: Option<Json>)
    ensures r == None <==> forall f :: f in fields ==> f.key != k
    ensures r.Some? ==> Field(k, r.value) in fields
  {
    if fields == [] then None
    else if fields[0].key == k then Some(fields[0].value)
    else
      assert forall f :: f in fields <==> f == fields[0] || f in fields[1..];
      FindField(fields[1..], k)
  }

  lemma SameKeySameField(fields: seq<Field>, f: Field, g: Field)
    requires DistinctKeys(fields) && f in fields && g in fields && f.key == g.key
    ensures f == g
  {
    var i :| 0 <= i < |fields| && fields[i] == f;
    var j :| 0 <= j < |fields| && fields[j] == g;
    assert i == j;
  }

  // ---- text ------------------------------------------------------------------------------------

  function HexDigit(d: nat): char
    requires d < 16
  {
    if d < 10 then '0' + d as char else 'a' + (d - 10) as char
  }

  function Escape(c: char): (r: string)
    ensures |r| > 0
  {
    if c == '\"' then ['\\', '\"']
    else if c == '\\' then ['\\', '\\']
    else if c as int == 8 then ['\\', 'b']
    else if c as int == 12 then ['\\', 'f']
    else if c as int == 10 then ['\\', 'n']
    else if c as int == 13 then ['\\', 'r']
    else if c as int == 9 then ['\\', 't']
    else if c as int < 32 then ['\\', 'u', '0', '0', HexDigit(c as int / 16), HexDigit(c as int % 16)]
    else [c]
  }

  function EscapeAll(s: string): string {
    if s == [] then [] else Escape(s[0]) + EscapeAll(s[1..])
  }

  function Quote(s: string): string { ['\"'] + EscapeAll(s) + ['\"'] }

  function Stringify(v: Json): string
    decreases v, 1
  {
    match v
    case Null => "null"
    case Bool(b) => if b then "true" else "false"
    case Num(text) => text
    case Str(s) => Quote(s)
    case Arr(items) => "[" + Items(items) + "]"
    case Obj(fields) => "{" + Members(fields) + "}"
  }

  function Items(items: seq<Json>): string
    decreases items, 0
  {
    if |items| == 0 then []
    else if |items| == 1 then Stringify(items[0])
    else Stringify(items[0]) + "," + Items(items[1..])
  }

  function Members(fields: seq<Field>): string
    decreases fields, 0
  {
    if |fields| == 0 then []
    else
      var member := Quote(fields[0].key) + ":" + Stringify(fields[0].value);
      if |fields| == 1 then member else member + "," + Members(fields[1..])
  }
}
