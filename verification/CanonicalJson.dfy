/** Canonical JSON: object keys sorted at every depth. Its text is what payload hashes are taken of. */
module CanonicalJson {
  import opened Outcomes
  import opened Ordering
  import opened Json
  import JsonReader

  predicate FieldLess(a: Field, b: Field) { TextLess(a.key, b.key) }

  function Canonicalize(v: Json): Json
    decreases v, 1, 0
  {
    match v
    case Arr(items) => Arr(CanonicalizeItems(items))
    case Obj(fields) =>
      SortedInside(fields);
      Obj(FromEntries(CanonicalizeFields(v, Sort(FieldLess, fields))))
    case _ => v
  }

  function CanonicalizeItems(items: seq<Json>): (r: seq<Json>)
    ensures |r| == |items|
    ensures forall i :: 0 <= i < |r| ==> r[i] == Canonicalize(items[i])
    decreases items, 0, 0
  {
    if items == [] then [] else [Canonicalize(items[0])] + CanonicalizeItems(items[1..])
  }

  function CanonicalizeFields(whole: Json, fields: seq<Field>): (r: seq<Field>)
    requires whole.Obj? && forall f :: f in fields ==> f in whole.fields
    ensures |r| == |fields|
    ensures forall i :: 0 <= i < |r| ==> fields[i] in whole.fields && r[i] == Field(fields[i].key, Canonicalize(fields[i].value))
    decreases whole, 0, |fields|
  {
    if fields == [] then []
    else
      assert fields[0] in whole.fields;
      [Field(fields[0].key, Canonicalize(fields[0].value))] + CanonicalizeFields(whole, fields[1..])
  }

  lemma SortedInside(fields: seq<Field>)
    ensures forall f :: f in Sort(FieldLess, fields) <==> f in fields
  {
    SameMultisetSameElements(Sort(FieldLess, fields), fields);
  }

  function CanonicalText(v: Json): string { Stringify(Canonicalize(v)) }

  // ---- equality up to key order ----------------------------------------------------------------

  /** The values differ at most in the order of object keys, at any depth. */
  ghost predicate SameUpToKeyOrder(a: Json, b: Json)
    decreases a
  {
    match a
    case Arr(items) =>
      && b.Arr? && |items| == |b.items|
      && forall i :: 0 <= i < |items| ==> SameUpToKeyOrder(items[i], b.items[i])
    case Obj(fields) =>
      && b.Obj?
      && (forall g :: g in b.fields ==> exists f :: f in fields && f.key == g.key)
      && (forall f :: f in fields ==> exists g :: g in b.fields && f.key == g.key && SameUpToKeyOrder(f.value, g.value))
    case _ => a == b
  }

  lemma FieldLessStrictOrder()
    ensures StrictOrder(FieldLess)
  {
    forall f ensures !FieldLess(f, f) { TextLessTotal(f.key, f.key); }
    forall f, g, h | FieldLess(f, g) && FieldLess(g, h) ensures FieldLess(f, h) {
      TextLessTransitive(f.key, g.key, h.key);
    }
  }

  lemma DistinctComparable(fields: seq<Field>)
    requires DistinctKeys(fields)
    ensures Comparable(FieldLess, fields)
  {
    forall i, j | 0 <= i < j < |fields| ensures FieldLess(fields[i], fields[j]) || FieldLess(fields[j], fields[i]) {
      TextLessTotal(fields[i].key, fields[j].key);
    }
  }

  /** The fields of the canonical object, as a set. */
  ghost function CanonicalSet(fields: seq<Field>): set<Field> {
    set f | f in fields :: Field(f.key, Canonicalize(f.value))
  }

  /** Before enumeration order is applied the canonical fields are ascending, one for each field. */
  lemma CanonicalFields(v: Json)
    requires v.Obj? && DistinctKeys(v.fields)
    ensures forall f :: f in Sort(FieldLess, v.fields) ==> f in v.fields
    ensures var r := CanonicalizeFields(v, Sort(FieldLess, v.fields));
      && Ascending(FieldLess, r)
      && (forall g :: g in r <==> g in CanonicalSet(v.fields))
      && Canonicalize(v) == Obj(FromEntries(r))
      && (forall g :: g in FromEntries(r) <==> g in CanonicalSet(v.fields))
  {
    hide Canonicalize, FromEntries, Sort, CanonicalSet, CanonicalizeFields, DistinctKeys, FieldLess;
    FieldLessStrictOrder();
    DistinctComparable(v.fields);
    SortAscending(FieldLess, v.fields);
    SortedInside(v.fields);
    var r := CanonicalizeFields(v, Sort(FieldLess, v.fields));
    KeysAscending(v, Sort(FieldLess, v.fields));
    FieldsAsSet(v, Sort(FieldLess, v.fields));
    CanonicalizeObject(v);
    SameMultisetSameElements(FromEntries(r), r);
  }

  lemma KeysAscending(v: Json, sorted: seq<Field>)
    requires v.Obj? && (forall f :: f in sorted ==> f in v.fields) && Ascending(FieldLess, sorted)
    ensures Ascending(FieldLess, CanonicalizeFields(v, sorted))
  {
    hide Canonicalize;
    var r := CanonicalizeFields(v, sorted);
    forall i, j | 0 <= i < j < |r| ensures FieldLess(r[i], r[j]) {
      assert FieldLess(sorted[i], sorted[j]);
    }
  }

  lemma FieldsAsSet(v: Json, sorted: seq<Field>)
    requires v.Obj? && (forall f :: f in sorted <==> f in v.fields)
    ensures forall g :: g in CanonicalizeFields(v, sorted) <==> g in CanonicalSet(v.fields)
  {
    hide Canonicalize;
    var r := CanonicalizeFields(v, sorted);
    forall g | g in r ensures g in CanonicalSet(v.fields) {
      var i :| 0 <= i < |r| && r[i] == g;
      assert sorted[i] in v.fields;
    }
    forall g | g in CanonicalSet(v.fields) ensures g in r {
      var f :| f in v.fields && g == Field(f.key, Canonicalize(f.value));
      var i :| 0 <= i < |sorted| && sorted[i] == f;
      assert r[i] == g;
    }
  }

  /** The fields alone: canonical objects are equal when the sets are. */
  lemma ObjectsEqual(a: Json, b: Json)
    requires a.Obj? && b.Obj? && DistinctKeys(a.fields) && DistinctKeys(b.fields)
    ensures Canonicalize(a) == Canonicalize(b) <==> CanonicalSet(a.fields) == CanonicalSet(b.fields)
  {
    hide Canonicalize, FromEntries, Sort, CanonicalSet, CanonicalizeFields, DistinctKeys;
    CanonicalFields(a);
    CanonicalFields(b);
    if CanonicalSet(a.fields) == CanonicalSet(b.fields) {
      FieldLessStrictOrder();
      AscendingUnique(FieldLess, CanonicalizeFields(a, Sort(FieldLess, a.fields)),
                      CanonicalizeFields(b, Sort(FieldLess, b.fields)));
    }
    if Canonicalize(a) == Canonicalize(b) {
      assert forall g :: g in CanonicalSet(a.fields) <==> g in Canonicalize(a).fields;
      assert forall g :: g in CanonicalSet(b.fields) <==> g in Canonicalize(b).fields;
    }
  }

  lemma CanonicalizeObject(v: Json)
    requires v.Obj?
    ensures forall f :: f in Sort(FieldLess, v.fields) ==> f in v.fields
    ensures Canonicalize(v) == Obj(FromEntries(CanonicalizeFields(v, Sort(FieldLess, v.fields))))
  {
    SortedInside(v.fields);
  }

  /** Values that differ only in key order have one canonical form. */
  lemma {:induction false} SameCanonical(a: Json, b: Json)
    requires Valid(a) && Valid(b) && SameUpToKeyOrder(a, b)
    ensures Canonicalize(a) == Canonicalize(b)
    decreases a
  {
    hide Canonicalize, SameUpToKeyOrder;
    SameParts(a, b);
    match a
    case Arr(items) =>
      forall i | 0 <= i < |items| ensures Canonicalize(items[i]) == Canonicalize(b.items[i]) {
        SameCanonical(items[i], b.items[i]);
      }
      ArraysEqual(a, b);
    case Obj(fields) =>
      forall f, g | f in fields && g in b.fields && SameUpToKeyOrder(f.value, g.value)
        ensures Canonicalize(f.value) == Canonicalize(g.value)
      {
        SameCanonical(f.value, g.value);
      }
      MatchingFields(a, b);
      ObjectsEqual(a, b);
    case _ =>
  }

  lemma SameParts(a: Json, b: Json)
    requires SameUpToKeyOrder(a, b)
    ensures a.Obj? ==> b.Obj?
    ensures a.Arr? ==> b.Arr? && |a.items| == |b.items| && forall i :: 0 <= i < |a.items| ==> SameUpToKeyOrder(a.items[i], b.items[i])
    ensures !a.Obj? && !a.Arr? ==> a == b
  {
  }

  lemma SameForward(a: Json, b: Json)
    requires a.Obj? && SameUpToKeyOrder(a, b)
    ensures b.Obj?
    ensures forall f :: f in a.fields ==> exists g :: g in b.fields && f.key == g.key && SameUpToKeyOrder(f.value, g.value)
  {
  }

  lemma SameBackward(a: Json, b: Json, g: Field)
    requires a.Obj? && SameUpToKeyOrder(a, b) && b.Obj? && g in b.fields
    ensures exists f :: f in a.fields && f.key == g.key
  {
  }

  lemma ArraysEqual(a: Json, b: Json)
    requires a.Arr? && b.Arr? && |a.items| == |b.items|
    requires forall i :: 0 <= i < |a.items| ==> Canonicalize(a.items[i]) == Canonicalize(b.items[i])
    ensures Canonicalize(a) == Canonicalize(b)
  {
    assert CanonicalizeItems(a.items) == CanonicalizeItems(b.items);
  }

  /** `f` and `g` have one key and one canonical value. */
  ghost predicate Agree(f: Field, g: Field) {
    f.key == g.key && Canonicalize(f.value) == Canonicalize(g.value)
  }

  lemma MatchingFields(a: Json, b: Json)
    requires a.Obj? && b.Obj? && DistinctKeys(b.fields) && SameUpToKeyOrder(a, b)
    requires forall f, g :: f in a.fields && g in b.fields && SameUpToKeyOrder(f.value, g.value) ==>
                              Canonicalize(f.value) == Canonicalize(g.value)
    ensures CanonicalSet(a.fields) == CanonicalSet(b.fields)
  {
    hide Canonicalize, DistinctKeys, CanonicalSet, SameUpToKeyOrder;
    SameForward(a, b);
    forall f | f in a.fields ensures exists g :: g in b.fields && Agree(f, g) {
      var g :| g in b.fields && f.key == g.key && SameUpToKeyOrder(f.value, g.value);
      assert Agree(f, g);
    }
    forall g | g in b.fields ensures exists f :: f in a.fields && Agree(g, f) {
      SameBackward(a, b, g);
      var f :| f in a.fields && f.key == g.key;
      var h :| h in b.fields && f.key == h.key && SameUpToKeyOrder(f.value, h.value);
      SameKeySameField(b.fields, g, h);
      assert Agree(g, f);
    }
    CanonicalSubset(a.fields, b.fields);
    CanonicalSubset(b.fields, a.fields);
  }

  lemma CanonicalSubset(a: seq<Field>, b: seq<Field>)
    requires forall f :: f in a ==> exists g :: g in b && Agree(f, g)
    ensures CanonicalSet(a) <= CanonicalSet(b)
  {
    hide Canonicalize;
    forall x | x in CanonicalSet(a) ensures x in CanonicalSet(b) {
      var f :| f in a && x == Field(f.key, Canonicalize(f.value));
      var g :| g in b && Agree(f, g);
    }
  }

  lemma MatchedFields(a: Json, b: Json)
    requires a.Obj? && b.Obj? && CanonicalSet(a.fields) == CanonicalSet(b.fields)
    requires forall f, g :: f in a.fields && g in b.fields && Canonicalize(f.value) == Canonicalize(g.value) ==>
                              SameUpToKeyOrder(f.value, g.value)
    ensures SameUpToKeyOrder(a, b)
  {
    hide Canonicalize;
    forall f | f in a.fields
      ensures exists g :: g in b.fields && f.key == g.key && SameUpToKeyOrder(f.value, g.value)
    {
      assert Field(f.key, Canonicalize(f.value)) in CanonicalSet(b.fields);
      var g :| g in b.fields && Field(f.key, Canonicalize(f.value)) == Field(g.key, Canonicalize(g.value));
      assert SameUpToKeyOrder(f.value, g.value);
    }
    forall g | g in b.fields ensures exists f :: f in a.fields && f.key == g.key {
      assert Field(g.key, Canonicalize(g.value)) in CanonicalSet(a.fields);
      var f :| f in a.fields && Field(g.key, Canonicalize(g.value)) == Field(f.key, Canonicalize(f.value));
    }
  }

  /** One canonical form means the values differ only in key order. */
  lemma {:induction false} CanonicalSame(a: Json, b: Json)
    requires Valid(a) && Valid(b) && Canonicalize(a) == Canonicalize(b)
    ensures SameUpToKeyOrder(a, b)
    decreases a
  {
    hide FromEntries, Sort, CanonicalizeFields;
    CanonicalKind(a);
    CanonicalKind(b);
    match a
    case Arr(items) =>
      assert CanonicalizeItems(items) == CanonicalizeItems(b.items);
      forall i | 0 <= i < |items| ensures SameUpToKeyOrder(items[i], b.items[i]) {
        assert CanonicalizeItems(items)[i] == CanonicalizeItems(b.items)[i];
        CanonicalSame(items[i], b.items[i]);
      }
    case Obj(fields) =>
      ObjectsEqual(a, b);
      forall f, g | f in fields && g in b.fields && Canonicalize(f.value) == Canonicalize(g.value)
        ensures SameUpToKeyOrder(f.value, g.value)
      {
        CanonicalSame(f.value, g.value);
      }
      MatchedFields(a, b);
    case _ =>
  }

  lemma CanonicalKind(v: Json)
    ensures Canonicalize(v).Arr? == v.Arr? && Canonicalize(v).Obj? == v.Obj?
    ensures !v.Arr? && !v.Obj? ==> Canonicalize(v) == v
  {
  }

  lemma {:induction false} CanonicalValid(v: Json)
    requires Valid(v)
    ensures Valid(Canonicalize(v))
    decreases v
  {
    hide FromEntries, Sort, CanonicalizeFields;
    match v
    case Arr(items) =>
      forall x | x in CanonicalizeItems(items) ensures Valid(x) {
        var i :| 0 <= i < |items| && CanonicalizeItems(items)[i] == x;
        CanonicalValid(items[i]);
      }
    case Obj(fields) =>
      forall f | f in fields ensures Valid(Canonicalize(f.value)) {
        CanonicalValid(f.value);
      }
      CanonicalObjectValid(v);
    case _ =>
  }

  lemma CanonicalObjectValid(v: Json)
    requires v.Obj? && DistinctKeys(v.fields) && forall f :: f in v.fields ==> Valid(Canonicalize(f.value))
    ensures Valid(Canonicalize(v))
  {
    hide Canonicalize, FromEntries, Sort, CanonicalizeFields;
    CanonicalFields(v);
    CanonicalDistinct(v);
    forall g | g in CanonicalSet(v.fields) ensures Valid(g.value) {
      var f :| f in v.fields && g == Field(f.key, Canonicalize(f.value));
    }
  }

  lemma CanonicalDistinct(v: Json)
    requires v.Obj? && DistinctKeys(v.fields)
    ensures Canonicalize(v).Obj? && DistinctKeys(Canonicalize(v).fields)
  {
    hide Canonicalize, FromEntries, Sort, CanonicalizeFields, DistinctKeys, CanonicalSet;
    CanonicalFields(v);
    var r := CanonicalizeFields(v, Sort(FieldLess, v.fields));
    AscendingDistinct(r);
    DistinctPermuted(r, FromEntries(r));
  }

  lemma AscendingDistinct(r: seq<Field>)
    requires Ascending(FieldLess, r)
    ensures DistinctKeys(r)
  {
    forall i, j | 0 <= i < j < |r| ensures r[i].key != r[j].key {
      assert FieldLess(r[i], r[j]);
      TextLessTotal(r[i].key, r[j].key);
    }
  }

  lemma {:induction false} DistinctPermuted(r: seq<Field>, s: seq<Field>)
    requires DistinctKeys(r) && multiset(r) == multiset(s)
    ensures DistinctKeys(s)
  {
    forall i, j | 0 <= i < j < |s| ensures s[i].key != s[j].key {
      TwiceInMultiset(s, i, j);
      SameMultisetSameElements(r, s);
      assert s[i] in r && s[j] in r;
      var k :| 0 <= k < |r| && r[k] == s[i];
      var l :| 0 <= l < |r| && r[l] == s[j];
      if k == l { OnceInMultiset(r, k); }
    }
  }

  lemma TwiceInMultiset(s: seq<Field>, i: int, j: int)
    requires 0 <= i < j < |s|
    ensures s[i] == s[j] ==> multiset(s)[s[i]] >= 2
  {
    assert s == s[..i] + [s[i]] + s[i + 1..j] + [s[j]] + s[j + 1..];
  }

  lemma OnceInMultiset(r: seq<Field>, k: int)
    requires 0 <= k < |r| && DistinctKeys(r)
    ensures multiset(r)[r[k]] == 1
  {
    assert r == r[..k] + [r[k]] + r[k + 1..];
    assert r[k] !in r[..k] && r[k] !in r[k + 1..];
    assert r[k] !in multiset(r[..k]) && r[k] !in multiset(r[k + 1..]);
  }

  /** Two payloads have the same canonical text exactly when they differ only in key order. */
  lemma CanonicalTextExact(a: Json, b: Json)
    requires Valid(a) && Valid(b)
    ensures CanonicalText(a) == CanonicalText(b) <==> SameUpToKeyOrder(a, b)
  {
    hide Canonicalize, Stringify, SameUpToKeyOrder;
    if CanonicalText(a) == CanonicalText(b) {
      CanonicalValid(a);
      CanonicalValid(b);
      JsonReader.StringifyInjective(Canonicalize(a), Canonicalize(b));
      CanonicalSame(a, b);
    }
    if SameUpToKeyOrder(a, b) { SameCanonical(a, b); }
  }

  lemma {:induction false} CanonicalReorders(v: Json)
    requires Valid(v)
    ensures SameUpToKeyOrder(Canonicalize(v), v)
    decreases v
  {
    hide FromEntries, Sort, CanonicalizeFields;
    CanonicalKind(v);
    match v
    case Arr(items) =>
      forall i | 0 <= i < |items| ensures SameUpToKeyOrder(CanonicalizeItems(items)[i], items[i]) {
        CanonicalReorders(items[i]);
      }
    case Obj(fields) =>
      forall f | f in fields ensures SameUpToKeyOrder(Canonicalize(f.value), f.value) {
        CanonicalReorders(f.value);
      }
      ReorderedObject(v);
    case _ =>
  }

  lemma ReorderedObject(v: Json)
    requires v.Obj? && DistinctKeys(v.fields)
    requires forall f :: f in v.fields ==> SameUpToKeyOrder(Canonicalize(f.value), f.value)
    ensures SameUpToKeyOrder(Canonicalize(v), v)
  {
    hide Canonicalize, FromEntries, Sort, CanonicalizeFields, DistinctKeys;
    CanonicalFields(v);
    var c := Canonicalize(v);
    forall g | g in c.fields
      ensures exists f :: f in v.fields && g.key == f.key && SameUpToKeyOrder(g.value, f.value)
    {
      var f :| f in v.fields && g == Field(f.key, Canonicalize(f.value));
    }
    forall f | f in v.fields ensures exists g :: g in c.fields && g.key == f.key {
      assert Field(f.key, Canonicalize(f.value)) in c.fields;
    }
  }

  /** Canonicalising twice changes nothing more. */
  lemma CanonicalIdempotent(v: Json)
    requires Valid(v)
    ensures Canonicalize(Canonicalize(v)) == Canonicalize(v)
  {
    hide Canonicalize;
    CanonicalValid(v);
    CanonicalReorders(v);
    SameCanonical(Canonicalize(v), v);
  }

  // ---- lookups ---------------------------------------------------------------------------------

  datatype Step = Key(k: string) | Index(i: nat)

  function Lookup(v: Json, path: seq<Step>): Option<Json>
    decreases |path|
  {
    if path == [] then Some(v)
    else match path[0]
      case Key(k) =>
        if !v.Obj? then None
        else
          (match FindField(v.fields, k)
           case None => None
           case Some(child) => Lookup(child, path[1..]))
      case Index(i) => if v.Arr? && i < |v.items| then Lookup(v.items[i], path[1..]) else None
  }

  /** Every lookup path keeps its value, up to canonicalisation of that value. */
  lemma {:induction false} CanonicalLookup(v: Json, path: seq<Step>)
    requires Valid(v)
    ensures Lookup(Canonicalize(v), path) ==
              match Lookup(v, path) case None => None case Some(x) => Some(Canonicalize(x))
    decreases |path|
  {
    hide FromEntries, Sort;
    CanonicalKind(v);
    if path != [] {
      match path[0]
      case Index(i) =>
        if v.Arr? && i < |v.items| { CanonicalLookup(v.items[i], path[1..]); }
      case Key(k) =>
        if v.Obj? {
          hide Canonicalize, CanonicalizeFields;
          CanonicalFields(v);
          CanonicalDistinct(v);
          var c := Canonicalize(v).fields;
          match FindField(v.fields, k)
          case None =>
            forall g | g in c ensures g.key != k {
              var f :| f in v.fields && g == Field(f.key, Canonicalize(f.value));
            }
          case Some(child) =>
            assert Field(k, Canonicalize(child)) in c;
            SameKeySameField(c, Field(k, Canonicalize(child)), Field(k, FindField(c, k).value));
            assert Field(k, child) in v.fields;
            CanonicalLookup(child, path[1..]);
        }
    }
  }
}
