/** What an inlined schema says: reading a key of an expanded object gives the expanded child, and for a
    reference the sibling's value before the definition's. */
module SchemaMeaning {
  import opened Outcomes
  import opened Ordering
  import opened Numerals
  import opened Json
  import opened SchemaInliner
  import CanonicalJson

  ghost predicate ValidDefinitions(defs: seq<Field>) {
    forall f :: f in defs ==> Valid(f.value)
  }

  // ---- merging ---------------------------------------------------------------------------------

  lemma FoundField(fields: seq<Field>, f: Field)
    requires DistinctKeys(fields) && f in fields
    ensures FindField(fields, f.key) == Some(f.value)
  {
    hide FindField, DistinctKeys;
    var v := FindField(fields, f.key).value;
    SameKeySameField(fields, f, Field(f.key, v));
  }

  /** Lookups do not depend on the order of distinct keys. */
  lemma SameLookup(a: seq<Field>, b: seq<Field>, k: string)
    requires DistinctKeys(a) && DistinctKeys(b) && multiset(a) == multiset(b)
    ensures FindField(a, k) == FindField(b, k)
  {
    hide FindField, DistinctKeys;
    SameMultisetSameElements(a, b);
    if FindField(b, k).Some? { FoundField(a, Field(k, FindField(b, k).value)); }
  }

  lemma {:induction false} AddedExact(base: seq<Field>, extra: seq<Field>)
    requires DistinctKeys(extra)
    ensures DistinctKeys(Added(base, extra))
    ensures forall f :: f in Added(base, extra) <==> f in extra && FindField(base, f.key) == None
  {
    hide FindField;
    if extra != [] {
      AddedExact(base, extra[1..]);
      assert extra == [extra[0]] + extra[1..];
      forall f | f in Added(base, extra[1..]) ensures f.key != extra[0].key { assert f in extra[1..]; }
    }
  }

  lemma MergedDistinct(base: seq<Field>, extra: seq<Field>)
    requires DistinctKeys(base) && DistinctKeys(extra)
    ensures DistinctKeys(Overridden(base, extra) + Added(base, extra)) && DistinctKeys(Merge(base, extra))
  {
    hide FindField, FromEntries, Added, Overridden;
    AddedExact(base, extra);
    var o, a := Overridden(base, extra), Added(base, extra);
    assert forall i :: 0 <= i < |o| ==> o[i].key == base[i].key && base[i] in base;
    var all := o + a;
    forall i, j | 0 <= i < j < |all| ensures all[i].key != all[j].key {
      if i < |o| <= j { assert all[j] in a; }
    }
    CanonicalJson.DistinctPermuted(all, FromEntries(all));
  }

  /** `{...base, ...extra}`: the second wins. */
  lemma MergeLookup(base: seq<Field>, extra: seq<Field>, k: string)
    requires DistinctKeys(base) && DistinctKeys(extra)
    ensures FindField(Merge(base, extra), k) == if FindField(extra, k).Some? then FindField(extra, k) else FindField(base, k)
  {
    hide FindField, FromEntries, DistinctKeys, Added, Overridden;
    MergedDistinct(base, extra);
    AddedExact(base, extra);
    var o, a := Overridden(base, extra), Added(base, extra);
    SameLookup(Merge(base, extra), o + a, k);
    if FindField(base, k).Some? {
      var i :| 0 <= i < |base| && base[i] == Field(k, FindField(base, k).value);
      assert o[i] in o + a && o[i].key == k;
      FoundField(o + a, o[i]);
    } else if FindField(extra, k).Some? {
      var f := Field(k, FindField(extra, k).value);
      assert f in a && f in o + a;
      FoundField(o + a, f);
    } else {
      assert forall f :: f in o + a ==> f.key != k by {
        assert forall f :: f in a ==> f in extra;
        assert forall i :: 0 <= i < |o| ==> o[i].key == base[i].key && base[i] in base;
      }
    }
  }

  // ---- expanding fields ------------------------------------------------------------------------

  /** The expanded fields are the kept fields with their values expanded. */
  lemma {:induction false} ExpandFieldsLookup(defs: seq<Field>, decode: Decoder, fields: seq<Field>, skip: string, stack: seq<string>, k: string)
    requires ExpandFields(defs, decode, fields, skip, stack).Ok?
    ensures FindField(ExpandFields(defs, decode, fields, skip, stack).value, k) ==
            if k == skip || FindField(fields, k) == None then None
            else Some(ExpandedValue(defs, decode, FindField(fields, k).value, stack))
    ensures k != skip && FindField(fields, k).Some? ==> Expand(defs, decode, FindField(fields, k).value, stack).Ok?
    decreases |fields|
  {
    hide Expand;
    if fields != [] { ExpandFieldsLookup(defs, decode, fields[1..], skip, stack, k); }
  }

  ghost function ExpandedValue(defs: seq<Field>, decode: Decoder, v: Json, stack: seq<string>): Json {
    var r := Expand(defs, decode, v, stack);
    if r.Ok? then r.value else Null
  }

  lemma {:induction false} ExpandFieldsDistinct(defs: seq<Field>, decode: Decoder, fields: seq<Field>, skip: string, stack: seq<string>)
    requires DistinctKeys(fields) && ExpandFields(defs, decode, fields, skip, stack).Ok?
    ensures DistinctKeys(ExpandFields(defs, decode, fields, skip, stack).value)
    decreases |fields|
  {
    hide Expand, FindField;
    if fields != [] {
      ExpandFieldsDistinct(defs, decode, fields[1..], skip, stack);
      if fields[0].key != skip {
        var rest := ExpandFields(defs, decode, fields[1..], skip, stack).value;
        var k := fields[0].key;
        ExpandFieldsLookup(defs, decode, fields[1..], skip, stack, k);
        assert forall f :: f in fields[1..] ==> f.key != k;
        assert FindField(rest, k) == None;
        forall f | f in rest ensures f.key != k { }
      }
    }
  }

  // ---- validity --------------------------------------------------------------------------------

  lemma SpreadDistinct(v: Json)
    requires Valid(v)
    ensures DistinctKeys(Spread(v)) && forall f :: f in Spread(v) ==> Valid(f.value)
  {
    hide ToText;
    var r := Spread(v);
    if v.Arr? || v.Str? {
      forall i, j | 0 <= i < j < |r| ensures r[i].key != r[j].key {
        ToTextCanonical(i);
        ToTextCanonical(j);
      }
    }
  }

  /** What the spread of a value has under a key: a field of an object, an element of an array or a character
      of a string under its position, and nothing of any other value. */
  lemma SpreadLookup(v: Json, k: string)
    requires Valid(v)
    ensures v.Obj? ==> FindField(Spread(v), k) == FindField(v.fields, k)
    ensures v.Arr? ==> forall i :: 0 <= i < |v.items| && ToText(i) == k ==> FindField(Spread(v), k) == Some(v.items[i])
    ensures v.Str? ==> forall i :: 0 <= i < |v.s| && ToText(i) == k ==> FindField(Spread(v), k) == Some(Str([v.s[i]]))
    ensures !v.Obj? && FindField(Spread(v), k).Some? ==>
              exists i: nat :: ToText(i) == k && ((v.Arr? && i < |v.items|) || (v.Str? && i < |v.s|))
  {
    hide ToText, FindField, Valid;
    SpreadDistinct(v);
    var r := Spread(v);
    forall i | 0 <= i < |r| ensures FindField(r, r[i].key) == Some(r[i].value) { FoundField(r, r[i]); }
    if v.Arr? { assert forall i :: 0 <= i < |v.items| ==> r[i] == Field(ToText(i), v.items[i]); }
    if v.Str? { assert forall i :: 0 <= i < |v.s| ==> r[i] == Field(ToText(i), Str([v.s[i]])); }
    if !v.Obj? && FindField(r, k).Some? {
      var i :| 0 <= i < |r| && r[i] == Field(k, FindField(r, k).value);
      assert ToText(i) == k;
    }
  }

  lemma MergedValid(base: seq<Field>, extra: seq<Field>)
    requires DistinctKeys(base) && DistinctKeys(extra)
    requires (forall f :: f in base ==> Valid(f.value)) && (forall f :: f in extra ==> Valid(f.value))
    ensures Valid(Obj(Merge(base, extra)))
  {
    hide DistinctKeys;
    MergedDistinct(base, extra);
    var r := Merge(base, extra);
    forall f | f in r ensures Valid(f.value) { MergedField(base, extra, f); }
  }

  lemma MergedField(base: seq<Field>, extra: seq<Field>, f: Field)
    requires f in Merge(base, extra)
    ensures f in base || f in extra
  {
    hide FromEntries, FindField;
    var o, a := Overridden(base, extra), Added(base, extra);
    assert f in multiset(Merge(base, extra)) && f in multiset(o + a) && f in o + a;
    if f in o {
      var i :| 0 <= i < |o| && o[i] == f;
      assert base[i] in base;
    }
  }

  /** Expansion keeps object keys unique. */
  lemma {:induction false} ExpandValid(defs: seq<Field>, decode: Decoder, v: Json, stack: seq<string>)
    requires ValidDefinitions(defs) && Valid(v) && Expand(defs, decode, v, stack).Ok?
    ensures Valid(Expand(defs, decode, v, stack).value)
    decreases Unvisited(defs, stack), v, 1
  {
    hide Unvisited, FindField, Merge, Spread, DistinctKeys;
    match v {
      case Arr(items) => ExpandItemsValid(defs, decode, items, stack);
      case Obj(fields) =>
        match LocalReference(fields) {
          case None => ExpandFieldsValid(defs, decode, fields, DEFS, stack);
          case Some(raw) =>
            var name := decode(raw).value;
            var definition := FindField(defs, name).value;
            assert Field(name, definition) in defs;
            UnvisitedShrinks(defs, stack, name);
            ExpandValid(defs, decode, definition, stack + [name]);
            ExpandFieldsValid(defs, decode, fields, REF, stack);
            var expanded := Expand(defs, decode, definition, stack + [name]).value;
            SpreadDistinct(expanded);
            MergedValid(Spread(expanded), ExpandFields(defs, decode, fields, REF, stack).value);
        }
      case _ =>
    }
  }

  lemma {:induction false} ExpandItemsValid(defs: seq<Field>, decode: Decoder, items: seq<Json>, stack: seq<string>)
    requires ValidDefinitions(defs) && (forall x :: x in items ==> Valid(x)) && ExpandItems(defs, decode, items, stack).Ok?
    ensures forall x :: x in ExpandItems(defs, decode, items, stack).value ==> Valid(x)
    decreases Unvisited(defs, stack), items, 0
  {
    hide Unvisited, Expand, Valid;
    if items != [] {
      assert items[0] in items;
      ExpandValid(defs, decode, items[0], stack);
      ExpandItemsValid(defs, decode, items[1..], stack);
    }
  }

  lemma {:induction false} ExpandFieldsValid(defs: seq<Field>, decode: Decoder, fields: seq<Field>, skip: string, stack: seq<string>)
    requires ValidDefinitions(defs) && DistinctKeys(fields) && (forall f :: f in fields ==> Valid(f.value))
    requires ExpandFields(defs, decode, fields, skip, stack).Ok?
    ensures DistinctKeys(ExpandFields(defs, decode, fields, skip, stack).value)
    ensures forall f :: f in ExpandFields(defs, decode, fields, skip, stack).value ==> Valid(f.value)
    decreases Unvisited(defs, stack), fields, 0
  {
    hide Unvisited, Expand, Valid;
    ExpandFieldsDistinct(defs, decode, fields, skip, stack);
    if fields != [] {
      assert fields[0] in fields;
      if fields[0].key != skip { ExpandValid(defs, decode, fields[0].value, stack); }
      ExpandFieldsValid(defs, decode, fields[1..], skip, stack);
    }
  }

  // ---- reading an inlined schema ---------------------------------------------------------------

  /** Reading key `k` of an expanded object: without a local reference, the expanded child, except
      `$defs`; with one, the expanded sibling if there is one, else key `k` of the expanded definition. */
  lemma ExpandedField(defs: seq<Field>, decode: Decoder, fields: seq<Field>, stack: seq<string>, k: string)
    requires ValidDefinitions(defs) && Valid(Obj(fields)) && Expand(defs, decode, Obj(fields), stack).Ok?
    ensures var r := Expand(defs, decode, Obj(fields), stack).value;
      && r.Obj?
      && (LocalReference(fields) == None ==>
            FindField(r.fields, k) ==
              if k == DEFS || FindField(fields, k) == None then None
              else Some(ExpandedValue(defs, decode, FindField(fields, k).value, stack)))
      && (LocalReference(fields).Some? ==>
            var raw := LocalReference(fields).value;
            && Resolves(defs, decode, raw)
            && FindField(r.fields, k) ==
                 if k != REF && FindField(fields, k).Some? then Some(ExpandedValue(defs, decode, FindField(fields, k).value, stack))
                 else FindField(Spread(ExpandedValue(defs, decode, Definition(defs, decode, raw), stack + [decode(raw).value])), k))
  {
    hide FindField, Merge, Spread, DistinctKeys, ExpandFields;
    match LocalReference(fields) {
      case None => ExpandFieldsLookup(defs, decode, fields, DEFS, stack, k);
      case Some(raw) =>
        var name := decode(raw).value;
        var definition := FindField(defs, name).value;
        assert Field(name, definition) in defs;
        ExpandFieldsLookup(defs, decode, fields, REF, stack, k);
        ExpandFieldsDistinct(defs, decode, fields, REF, stack);
        var expanded := Expand(defs, decode, definition, stack + [name]).value;
        ExpandValid(defs, decode, definition, stack + [name]);
        SpreadDistinct(expanded);
        MergeLookup(Spread(expanded), ExpandFields(defs, decode, fields, REF, stack).value, k);
    }
  }

  /** Arrays expand element by element. */
  lemma {:induction false} ExpandedItem(defs: seq<Field>, decode: Decoder, items: seq<Json>, stack: seq<string>, i: nat)
    requires ExpandItems(defs, decode, items, stack).Ok? && i < |items|
    ensures var r := ExpandItems(defs, decode, items, stack).value;
      |r| == |items| && Expand(defs, decode, items[i], stack) == Ok(r[i])
    decreases |items|
  {
    hide Expand;
    if |items| > 1 { ExpandedItem(defs, decode, items[1..], stack, if i == 0 then 0 else i - 1); }
  }
}
