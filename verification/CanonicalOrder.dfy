/** The key order of canonical JSON: at every depth, keys that are array indices come first by value, then
    all others in text order. */
module CanonicalOrder {
  import opened Ordering
  import opened Numerals
  import opened Json
  import opened CanonicalJson

  predicate KeyBefore(a: string, b: string) {
    if IsIndexKey(a) then IsIndexKey(b) ==> Value(a) < Value(b)
    else !IsIndexKey(b) && TextLess(a, b)
  }

  ghost predicate KeysOrdered(fields: seq<Field>) {
    forall i, j :: 0 <= i < j < |fields| ==> KeyBefore(fields[i].key, fields[j].key)
  }

  ghost predicate OrderedInside(v: Json) {
    match v
    case Arr(items) => forall x :: x in items ==> OrderedInside(x)
    case Obj(fields) => KeysOrdered(fields) && forall f :: f in fields ==> OrderedInside(f.value)
    case _ => true
  }

  lemma {:induction false} SelectExact(fields: seq<Field>, index: bool)
    requires Ascending(FieldLess, fields)
    ensures Ascending(FieldLess, Select(fields, index))
    ensures forall f :: f in Select(fields, index) <==> f in fields && IsIndexKey(f.key) == index
  {
    hide IsIndexKey, FieldLess;
    if fields != [] {
      var rest := fields[1..];
      SelectExact(rest, index);
      assert fields == [fields[0]] + rest;
      forall f | f in rest ensures FieldLess(fields[0], f) {
        var i :| 0 <= i < |rest| && rest[i] == f;
        assert fields[i + 1] == f;
      }
      var tail := Select(rest, index);
      assert forall i :: 0 <= i < |tail| ==> tail[i] in tail;
    }
  }

  lemma IndexLessStrict()
    ensures StrictOrder(IndexLess)
  {
  }

  lemma IndicesComparable(s: seq<Field>)
    requires Ascending(FieldLess, s) && forall f :: f in s ==> IsIndexKey(f.key)
    ensures Comparable(IndexLess, s)
  {
    hide Value;
    forall i, j | 0 <= i < j < |s| ensures IndexLess(s[i], s[j]) || IndexLess(s[j], s[i]) {
      assert FieldLess(s[i], s[j]) && s[i] in s && s[j] in s;
      TextLessTotal(s[i].key, s[j].key);
      if Value(s[i].key) == Value(s[j].key) { CanonicalInjective(s[i].key, s[j].key); }
    }
  }

  /** Enumeration order of fields that were added in ascending order. */
  lemma EntriesOrdered(fields: seq<Field>)
    requires Ascending(FieldLess, fields)
    ensures KeysOrdered(FromEntries(fields))
  {
    hide Sort, Select, IsIndexKey, Value, TextLess;
    var indices, names := Select(fields, true), Select(fields, false);
    SelectExact(fields, true);
    SelectExact(fields, false);
    IndexLessStrict();
    IndicesComparable(indices);
    SortAscending(IndexLess, indices);
    var first := Sort(IndexLess, indices);
    SameMultisetSameElements(first, indices);
    var r := first + names;
    forall i, j | 0 <= i < j < |r| ensures KeyBefore(r[i].key, r[j].key) {
      OrderedPair(first, names, i, j);
    }
  }

  lemma OrderedPair(first: seq<Field>, names: seq<Field>, i: int, j: int)
    requires Ascending(IndexLess, first) && Ascending(FieldLess, names) && 0 <= i < j < |first| + |names|
    requires (forall f :: f in first ==> IsIndexKey(f.key)) && (forall f :: f in names ==> !IsIndexKey(f.key))
    ensures KeyBefore((first + names)[i].key, (first + names)[j].key)
  {
    hide IsIndexKey, Value, TextLess;
    if j < |first| {
      assert IndexLess(first[i], first[j]) && first[i] in first && first[j] in first;
    } else if i < |first| {
      assert first[i] in first && names[j - |first|] in names;
    } else {
      assert FieldLess(names[i - |first|], names[j - |first|]);
      assert names[i - |first|] in names && names[j - |first|] in names;
    }
  }

  /** A canonical value has its keys in that order at every depth. */
  lemma {:induction false} CanonicalOrdered(v: Json)
    requires Valid(v)
    ensures OrderedInside(Canonicalize(v))
    decreases v
  {
    hide FromEntries, Sort, CanonicalizeFields, KeysOrdered;
    match v
    case Arr(items) =>
      forall x | x in CanonicalizeItems(items) ensures OrderedInside(x) {
        var i :| 0 <= i < |items| && CanonicalizeItems(items)[i] == x;
        CanonicalOrdered(items[i]);
      }
    case Obj(fields) =>
      forall f | f in fields ensures OrderedInside(Canonicalize(f.value)) {
        CanonicalOrdered(f.value);
      }
      ObjectOrdered(v);
    case _ =>
  }

  lemma ObjectOrdered(v: Json)
    requires v.Obj? && DistinctKeys(v.fields) && forall f :: f in v.fields ==> OrderedInside(Canonicalize(f.value))
    ensures OrderedInside(Canonicalize(v))
  {
    hide Canonicalize, FromEntries, Sort, CanonicalizeFields, KeysOrdered, DistinctKeys;
    CanonicalFields(v);
    EntriesOrdered(CanonicalizeFields(v, Sort(FieldLess, v.fields)));
    forall g | g in CanonicalSet(v.fields) ensures OrderedInside(g.value) {
      var f :| f in v.fields && g == Field(f.key, Canonicalize(f.value));
    }
  }

  predicate FieldBefore(a: Field, b: Field) { KeyBefore(a.key, b.key) }

  lemma FieldBeforeStrict()
    ensures StrictOrder(FieldBefore)
  {
    hide TextLess, IsIndexKey, Value;
    TextLessStrictOrder();
  }

  /** A value whose keys are in order is its own canonical form. */
  lemma {:induction false} OrderedFixed(w: Json)
    requires Valid(w) && OrderedInside(w)
    ensures Canonicalize(w) == w
    decreases w
  {
    hide FromEntries, Sort, CanonicalizeFields, KeysOrdered;
    match w
    case Arr(items) =>
      forall i | 0 <= i < |items| ensures CanonicalizeItems(items)[i] == items[i] {
        OrderedFixed(items[i]);
      }
      assert CanonicalizeItems(items) == items;
    case Obj(fields) =>
      forall f | f in fields ensures Canonicalize(f.value) == f.value {
        OrderedFixed(f.value);
      }
      ObjectFixed(w);
    case _ =>
  }

  lemma ObjectFixed(w: Json)
    requires w.Obj? && DistinctKeys(w.fields) && KeysOrdered(w.fields)
    requires forall f :: f in w.fields ==> Canonicalize(f.value) == f.value
    ensures Canonicalize(w) == w
  {
    hide Canonicalize, FromEntries, Sort, CanonicalizeFields, DistinctKeys, KeyBefore;
    CanonicalFields(w);
    EntriesOrdered(CanonicalizeFields(w, Sort(FieldLess, w.fields)));
    var c := Canonicalize(w).fields;
    forall f ensures f in c <==> f in w.fields {
      if f in w.fields { assert f == Field(f.key, Canonicalize(f.value)); }
    }
    FieldBeforeStrict();
    AscendingUnique(FieldBefore, c, w.fields);
  }

  /** The canonical form is the one reordering of a value that has its keys in order at every depth. */
  lemma CanonicalUnique(v: Json, w: Json)
    requires Valid(v) && Valid(w)
    ensures w == Canonicalize(v) <==> SameUpToKeyOrder(w, v) && OrderedInside(w)
  {
    hide Canonicalize, OrderedInside, SameUpToKeyOrder, Valid;
    CanonicalReorders(v);
    CanonicalOrdered(v);
    if SameUpToKeyOrder(w, v) && OrderedInside(w) {
      SameCanonical(w, v);
      OrderedFixed(w);
    }
  }
}
