/** What inlining leaves behind: never a local reference, and `$defs` exactly where a reference object
    brings it along. */
module SchemaRemnants {
  import opened Outcomes
  import opened Numerals
  import opened Json
  import opened SchemaInliner
  import opened SchemaMeaning

  /** No object has a local `$ref`, at any depth. */
  ghost predicate NoLocalRef(v: Json) {
    match v
    case Arr(items) => forall x :: x in items ==> NoLocalRef(x)
    case Obj(fields) => forall f :: f in fields ==> Foreign(f) && NoLocalRef(f.value)
    case _ => true
  }

  predicate Foreign(f: Field) { !(f.key == REF && IsLocalReference(f.value)) }

  /** Some object has a `$defs` key, at any depth. */
  ghost predicate HasDefs(v: Json) {
    match v
    case Arr(items) => exists i :: 0 <= i < |items| && HasDefs(items[i])
    case Obj(fields) => exists i :: 0 <= i < |fields| && (fields[i].key == DEFS || HasDefs(fields[i].value))
    case _ => false
  }

  // ---- no local reference ----------------------------------------------------------------------

  lemma {:induction false} ExpandNoLocalRef(defs: seq<Field>, decode: Decoder, v: Json, stack: seq<string>)
    requires ValidDefinitions(defs) && Valid(v) && Expand(defs, decode, v, stack).Ok?
    ensures NoLocalRef(Expand(defs, decode, v, stack).value)
    ensures Expand(defs, decode, v, stack).value.Str? <==> v.Str?
    ensures v.Str? ==> Expand(defs, decode, v, stack).value == v
    decreases Unvisited(defs, stack), v, 1
  {
    hide FindField, Merge, Spread, FromEntries;
    match v
    case Arr(items) => ItemsNoLocalRef(defs, decode, items, stack);
    case Obj(fields) =>
      match LocalReference(fields) {
        case Some(raw) =>
          var name := decode(raw).value;
          FieldsNoLocalRef(defs, decode, fields, REF, stack);
          UnvisitedShrinks(defs, stack, name);
          var definition := FindField(defs, name).value;
          assert Field(name, definition) in defs;
          ExpandNoLocalRef(defs, decode, definition, stack + [name]);
          MergeNoLocalRef(Expand(defs, decode, definition, stack + [name]).value,
                          ExpandFields(defs, decode, fields, REF, stack).value);
        case None =>
          NoLocalReference(fields);
          FieldsNoLocalRef(defs, decode, fields, DEFS, stack);
      }
    case _ =>
  }

  lemma NoLocalReference(fields: seq<Field>)
    requires DistinctKeys(fields) && LocalReference(fields) == None
    ensures forall f :: f in fields && f.key == REF ==> !IsLocalReference(f.value)
  {
    hide DistinctKeys;
    forall f | f in fields && f.key == REF ensures !IsLocalReference(f.value) {
      SameKeySameField(fields, f, Field(REF, FindField(fields, REF).value));
    }
  }

  lemma MergeNoLocalRef(expanded: Json, siblings: seq<Field>)
    requires NoLocalRef(expanded) && forall f :: f in siblings ==> f.key != REF && NoLocalRef(f.value)
    ensures NoLocalRef(Obj(Merge(Spread(expanded), siblings)))
  {
    hide Merge, Spread;
    SpreadNoLocalRef(expanded);
    var r := Merge(Spread(expanded), siblings);
    forall f | f in r ensures Foreign(f) && NoLocalRef(f.value) { MergedField(Spread(expanded), siblings, f); }
  }

  lemma SpreadNoLocalRef(v: Json)
    requires NoLocalRef(v)
    ensures forall f :: f in Spread(v) ==> Foreign(f) && NoLocalRef(f.value)
  {
    forall f | f in Spread(v) ensures Foreign(f) && NoLocalRef(f.value) {
      var i :| 0 <= i < |Spread(v)| && Spread(v)[i] == f;
      if !v.Obj? { IndexKey(i); }
    }
  }

  /** The index keys of a spread array or string are not keywords. */
  lemma IndexKey(i: nat)
    ensures ToText(i) != REF && ToText(i) != DEFS
  {
    ToTextCanonical(i);
    assert IsDigit(ToText(i)[0]);
  }

  lemma {:induction false} ItemsNoLocalRef(defs: seq<Field>, decode: Decoder, items: seq<Json>, stack: seq<string>)
    requires ValidDefinitions(defs) && (forall x :: x in items ==> Valid(x))
    requires ExpandItems(defs, decode, items, stack).Ok?
    ensures forall x :: x in ExpandItems(defs, decode, items, stack).value ==> NoLocalRef(x)
    decreases Unvisited(defs, stack), items, 0
  {
    hide Expand, NoLocalRef, ValidDefinitions, Valid;
    if items != [] {
      ExpandNoLocalRef(defs, decode, items[0], stack);
      ItemsNoLocalRef(defs, decode, items[1..], stack);
    }
  }

  /** A surviving `$ref` cannot become local by expansion, because only strings expand to strings and they
      do not change. */
  lemma {:induction false} FieldsNoLocalRef(defs: seq<Field>, decode: Decoder, fields: seq<Field>, skip: string, stack: seq<string>)
    requires ValidDefinitions(defs) && (forall f :: f in fields ==> Valid(f.value))
    requires ExpandFields(defs, decode, fields, skip, stack).Ok?
    ensures forall g :: g in ExpandFields(defs, decode, fields, skip, stack).value ==>
              && g.key != skip && NoLocalRef(g.value)
              && exists f :: f in fields && f.key == g.key && (g.value.Str? ==> f.value == g.value)
    decreases Unvisited(defs, stack), fields, 0
  {
    hide Expand, NoLocalRef, ValidDefinitions, Valid;
    if fields != [] {
      FieldsNoLocalRef(defs, decode, fields[1..], skip, stack);
      if fields[0].key != skip { ExpandNoLocalRef(defs, decode, fields[0].value, stack); }
      forall g | g in ExpandFields(defs, decode, fields, skip, stack).value
        ensures g.key != skip && NoLocalRef(g.value)
        ensures exists f :: f in fields && f.key == g.key && (g.value.Str? ==> f.value == g.value)
      {
        var rest := ExpandFields(defs, decode, fields[1..], skip, stack).value;
        if g in rest {
          var f :| f in fields[1..] && f.key == g.key && (g.value.Str? ==> f.value == g.value);
          assert f in fields;
        } else {
          assert fields[0] in fields;
        }
      }
    }
  }

  // ---- where `$defs` stays ---------------------------------------------------------------------

  ghost function SiblingKeys(fields: seq<Field>): set<string> {
    set f | f in fields && f.key != REF :: f.key
  }

  /** Expanding the term leaves `$defs` in it, at a key that is not hidden. A reference object keeps its
      own `$defs`, what its siblings keep, and what its definition keeps at keys the siblings do not
      override; any other object drops its own. */
  ghost predicate Keeps(defs: seq<Field>, decode: Decoder, v: Json, stack: seq<string>, hidden: set<string>)
    decreases Unvisited(defs, stack), v, 1
  {
    match v
    case Arr(items) => exists i :: 0 <= i < |items| && ToText(i) !in hidden && Keeps(defs, decode, items[i], stack, {})
    case Obj(fields) =>
      (match LocalReference(fields)
       case None => FieldsKeep(defs, decode, fields, DEFS, stack, hidden)
       case Some(raw) =>
         && Resolves(defs, decode, raw) && decode(raw).value !in stack
         && (|| FieldsKeep(defs, decode, fields, REF, stack, hidden)
             || (UnvisitedShrinks(defs, stack, decode(raw).value);
                 Keeps(defs, decode, Definition(defs, decode, raw), stack + [decode(raw).value], hidden + SiblingKeys(fields)))))
    case _ => false
  }

  ghost predicate FieldsKeep(defs: seq<Field>, decode: Decoder, fields: seq<Field>, skip: string, stack: seq<string>, hidden: set<string>)
    decreases Unvisited(defs, stack), fields, 0
  {
    exists i :: 0 <= i < |fields| && fields[i].key != skip && fields[i].key !in hidden
      && (fields[i].key == DEFS || Keeps(defs, decode, fields[i].value, stack, {}))
  }

  /** `$defs` is at or below a key that is not hidden. */
  ghost predicate DefsAt(fields: seq<Field>, hidden: set<string>) {
    exists i :: 0 <= i < |fields| && fields[i].key !in hidden && (fields[i].key == DEFS || HasDefs(fields[i].value))
  }

  lemma DefsAtTop(v: Json)
    ensures HasDefs(v) <==> DefsAt(Spread(v), {})
  {
    if v.Arr? || v.Str? {
      forall i: nat ensures ToText(i) != DEFS { IndexKey(i); }
      if v.Arr? { assert forall i :: 0 <= i < |v.items| ==> Spread(v)[i].value == v.items[i]; }
    }
  }

  /** Reading by key instead of by position. */
  lemma DefsAtKey(fields: seq<Field>, hidden: set<string>)
    requires DistinctKeys(fields)
    ensures DefsAt(fields, hidden) <==> exists k :: KeyedDefs(fields, hidden, k)
  {
    hide FindField, HasDefs;
    if DefsAt(fields, hidden) {
      var i :| 0 <= i < |fields| && fields[i].key !in hidden && (fields[i].key == DEFS || HasDefs(fields[i].value));
      FoundField(fields, fields[i]);
      assert KeyedDefs(fields, hidden, fields[i].key);
    }
    if k :| KeyedDefs(fields, hidden, k) {
      var f := Field(k, FindField(fields, k).value);
      var i :| 0 <= i < |fields| && fields[i] == f;
    }
  }

  ghost predicate KeyedDefs(fields: seq<Field>, hidden: set<string>, k: string) {
    k !in hidden && FindField(fields, k).Some? && (k == DEFS || HasDefs(FindField(fields, k).value))
  }

  lemma MergedDefs(base: seq<Field>, extra: seq<Field>, hidden: set<string>, keys: set<string>)
    requires DistinctKeys(base) && DistinctKeys(extra) && forall k :: k in keys <==> FindField(extra, k).Some?
    ensures DefsAt(Merge(base, extra), hidden) <==> DefsAt(extra, hidden) || DefsAt(base, hidden + keys)
  {
    hide FindField, HasDefs, DistinctKeys, Merge, DefsAt;
    MergedDistinct(base, extra);
    var r := Merge(base, extra);
    DefsAtKey(base, hidden + keys);
    DefsAtKey(extra, hidden);
    DefsAtKey(r, hidden);
    forall k ensures KeyedDefs(r, hidden, k) <==> KeyedDefs(extra, hidden, k) || KeyedDefs(base, hidden + keys, k) {
      MergeLookup(base, extra, k);
    }
  }

  lemma {:induction false} KeepsExactly(defs: seq<Field>, decode: Decoder, v: Json, stack: seq<string>, hidden: set<string>)
    requires ValidDefinitions(defs) && Valid(v) && Expand(defs, decode, v, stack).Ok?
    ensures Keeps(defs, decode, v, stack, hidden) <==> DefsAt(Spread(Expand(defs, decode, v, stack).value), hidden)
    decreases Unvisited(defs, stack), v, 1
  {
    hide FindField, Merge, HasDefs, DistinctKeys, FieldsKeep, DefsAt;
    match v {
      case Arr(items) => ItemsKeepExactly(defs, decode, items, stack, hidden);
      case Obj(fields) =>
        match LocalReference(fields) {
          case None => FieldsKeepExactly(defs, decode, fields, DEFS, stack, hidden);
          case Some(raw) =>
            FieldsKeepExactly(defs, decode, fields, REF, stack, hidden);
            ReferenceKeepsExactly(defs, decode, fields, raw, stack, hidden);
        }
      case _ => NothingAt(v, hidden);
    }
  }

  lemma NothingAt(v: Json, hidden: set<string>)
    requires !v.Arr? && !v.Obj?
    ensures !DefsAt(Spread(v), hidden)
  {
    forall i: nat ensures ToText(i) != DEFS { IndexKey(i); }
  }

  lemma {:induction false} ReferenceKeepsExactly(defs: seq<Field>, decode: Decoder, fields: seq<Field>, raw: string,
                                                 stack: seq<string>, hidden: set<string>)
    requires ValidDefinitions(defs) && Valid(Obj(fields)) && LocalReference(fields) == Some(raw)
    requires Expand(defs, decode, Obj(fields), stack).Ok? && ExpandFields(defs, decode, fields, REF, stack).Ok?
    requires FieldsKeep(defs, decode, fields, REF, stack, hidden) <==>
             DefsAt(ExpandFields(defs, decode, fields, REF, stack).value, hidden)
    ensures Keeps(defs, decode, Obj(fields), stack, hidden) <==>
            DefsAt(Spread(Expand(defs, decode, Obj(fields), stack).value), hidden)
    decreases Unvisited(defs, stack), fields, 0
  {
    hide FindField, Merge, HasDefs, DistinctKeys, FieldsKeep, DefsAt;
    var name, definition := decode(raw).value, Definition(defs, decode, raw);
    assert Field(name, definition) in defs;
    UnvisitedShrinks(defs, stack, name);
    KeepsExactly(defs, decode, definition, stack + [name], hidden + SiblingKeys(fields));
    var expanded := Expand(defs, decode, definition, stack + [name]).value;
    var siblings := ExpandFields(defs, decode, fields, REF, stack).value;
    ExpandValid(defs, decode, definition, stack + [name]);
    SpreadDistinct(expanded);
    ExpandFieldsDistinct(defs, decode, fields, REF, stack);
    forall k ensures k in SiblingKeys(fields) <==> FindField(siblings, k).Some? {
      ExpandFieldsLookup(defs, decode, fields, REF, stack, k);
      KeyListed(fields, k);
    }
    MergedDefs(Spread(expanded), siblings, hidden, SiblingKeys(fields));
  }

  lemma KeyListed(fields: seq<Field>, k: string)
    ensures k in SiblingKeys(fields) <==> k != REF && FindField(fields, k).Some?
  {
    hide FindField;
    if FindField(fields, k).Some? { assert Field(k, FindField(fields, k).value) in fields; }
  }

  lemma {:induction false} ItemsKeepExactly(defs: seq<Field>, decode: Decoder, items: seq<Json>, stack: seq<string>, hidden: set<string>)
    requires ValidDefinitions(defs) && Valid(Arr(items)) && ExpandItems(defs, decode, items, stack).Ok?
    ensures Keeps(defs, decode, Arr(items), stack, hidden) <==>
            DefsAt(Spread(Arr(ExpandItems(defs, decode, items, stack).value)), hidden)
    decreases Unvisited(defs, stack), items, 0
  {
    hide Expand, HasDefs, ExpandItems;
    var r := ExpandItems(defs, decode, items, stack).value;
    assert |r| == |items| by { if |items| > 0 { ExpandedItem(defs, decode, items, stack, 0); } else { NoItems(defs, decode, stack); } }
    forall i | 0 <= i < |items| ensures Keeps(defs, decode, items[i], stack, {}) <==> HasDefs(r[i]) {
      assert items[i] in items;
      ExpandedItem(defs, decode, items, stack, i);
      KeepsExactly(defs, decode, items[i], stack, {});
      DefsAtTop(r[i]);
    }
    forall i: nat ensures ToText(i) != DEFS { IndexKey(i); }
    var spread := Spread(Arr(r));
    assert forall i :: 0 <= i < |items| ==> spread[i] == Field(ToText(i), r[i]);
  }

  lemma NoItems(defs: seq<Field>, decode: Decoder, stack: seq<string>)
    ensures ExpandItems(defs, decode, [], stack) == Ok([])
  {
  }

  lemma {:induction false} FieldsKeepExactly(defs: seq<Field>, decode: Decoder, fields: seq<Field>, skip: string,
                                             stack: seq<string>, hidden: set<string>)
    requires ValidDefinitions(defs) && DistinctKeys(fields) && (forall f :: f in fields ==> Valid(f.value))
    requires ExpandFields(defs, decode, fields, skip, stack).Ok?
    ensures FieldsKeep(defs, decode, fields, skip, stack, hidden) <==>
            DefsAt(ExpandFields(defs, decode, fields, skip, stack).value, hidden)
    decreases Unvisited(defs, stack), fields, 0
  {
    hide Expand, ExpandFields, HasDefs, Keeps, FindField, DefsAt;
    var r := ExpandFields(defs, decode, fields, skip, stack).value;
    ExpandFieldsDistinct(defs, decode, fields, skip, stack);
    DefsAtKey(r, hidden);
    forall i | 0 <= i < |fields| && fields[i].key != skip
      ensures FindField(r, fields[i].key).Some?
      ensures Keeps(defs, decode, fields[i].value, stack, {}) <==> HasDefs(FindField(r, fields[i].key).value)
    {
      assert fields[i] in fields;
      FoundField(fields, fields[i]);
      ExpandFieldsLookup(defs, decode, fields, skip, stack, fields[i].key);
      KeepsExactly(defs, decode, fields[i].value, stack, {});
      DefsAtTop(Expand(defs, decode, fields[i].value, stack).value);
    }
    if FieldsKeep(defs, decode, fields, skip, stack, hidden) {
      var i :| 0 <= i < |fields| && fields[i].key != skip && fields[i].key !in hidden
        && (fields[i].key == DEFS || Keeps(defs, decode, fields[i].value, stack, {}));
      assert KeyedDefs(r, hidden, fields[i].key);
    }
    if k :| KeyedDefs(r, hidden, k) {
      ExpandFieldsLookup(defs, decode, fields, skip, stack, k);
      var i :| 0 <= i < |fields| && fields[i] == Field(k, FindField(fields, k).value);
    }
  }

  // ---- the schema ------------------------------------------------------------------------------

  lemma SchemaDefinitionsValid(schema: Json)
    requires Valid(schema)
    ensures ValidDefinitions(Definitions(schema))
  {
    if schema.Obj? && FindField(schema.fields, DEFS).Some? {
      var d := Field(DEFS, FindField(schema.fields, DEFS).value);
      assert d in schema.fields;
      assert Valid(d.value);
    }
  }

  /** An inlined schema never has a local `$ref`, and has `$defs` if and only if the schema keeps it. */
  lemma InlinedExactly(schema: Json, decode: Decoder)
    requires Valid(schema) && InlineLocalDefinitions(schema, decode).Ok?
    ensures NoLocalRef(InlineLocalDefinitions(schema, decode).value)
    ensures HasDefs(InlineLocalDefinitions(schema, decode).value) <==> Keeps(Definitions(schema), decode, schema, [], {})
  {
    hide Expand, Keeps, Spread, Definitions;
    SchemaDefinitionsValid(schema);
    ExpandNoLocalRef(Definitions(schema), decode, schema, []);
    KeepsExactly(Definitions(schema), decode, schema, [], {});
    DefsAtTop(InlineLocalDefinitions(schema, decode).value);
  }

  /** Every schema whose root is a local reference keeps its `$defs`. */
  lemma RootReferenceKeepsDefs(schema: Json, decode: Decoder)
    requires Valid(schema) && schema.Obj? && LocalReference(schema.fields).Some? && InlineLocalDefinitions(schema, decode).Ok?
    ensures HasDefs(InlineLocalDefinitions(schema, decode).value)
  {
    hide FindField, Merge, HasDefs, IsLocalReference;
    InlinedExactly(schema, decode);
    var fields := schema.fields;
    var raw := LocalReference(fields).value;
    var defs := Definitions(schema);
    SchemaDefinitionsValid(schema);
    ExpandedField(defs, decode, fields, [], REF);
    assert Field(decode(raw).value, Definition(defs, decode, raw)) in defs;
    assert FindField(fields, DEFS).Some?;
    var i :| 0 <= i < |fields| && fields[i] == Field(DEFS, FindField(fields, DEFS).value);
    assert FieldsKeep(defs, decode, fields, REF, [], {});
  }

  // ---- a simple sufficient condition -----------------------------------------------------------

  /** No object with a local `$ref` also carries `$defs`. */
  ghost predicate NoDefsBesideRef(v: Json) {
    match v
    case Arr(items) => forall x :: x in items ==> NoDefsBesideRef(x)
    case Obj(fields) =>
      && (LocalReference(fields).Some? ==> forall f :: f in fields ==> f.key != DEFS)
      && forall f :: f in fields ==> NoDefsBesideRef(f.value)
    case _ => true
  }

  lemma {:induction false} NoneKept(defs: seq<Field>, decode: Decoder, v: Json, stack: seq<string>, hidden: set<string>)
    requires (forall f :: f in defs ==> NoDefsBesideRef(f.value)) && NoDefsBesideRef(v)
    ensures !Keeps(defs, decode, v, stack, hidden)
    decreases Unvisited(defs, stack), v, 1
  {
    hide FindField, Unvisited;
    match v {
      case Arr(items) =>
        forall i | 0 <= i < |items| ensures !Keeps(defs, decode, items[i], stack, {}) {
          assert items[i] in items;
          NoneKept(defs, decode, items[i], stack, {});
        }
      case Obj(fields) =>
        forall i | 0 <= i < |fields| ensures !Keeps(defs, decode, fields[i].value, stack, {}) {
          assert fields[i] in fields;
          NoneKept(defs, decode, fields[i].value, stack, {});
        }
        match LocalReference(fields) {
          case None =>
          case Some(raw) =>
            assert forall i :: 0 <= i < |fields| ==> fields[i] in fields;
            if Resolves(defs, decode, raw) && decode(raw).value !in stack {
              assert Field(decode(raw).value, Definition(defs, decode, raw)) in defs;
              UnvisitedShrinks(defs, stack, decode(raw).value);
              NoneKept(defs, decode, Definition(defs, decode, raw), stack + [decode(raw).value], hidden + SiblingKeys(fields));
            }
        }
      case _ =>
    }
  }

  /** When no reference object has a `$defs` sibling, inlining leaves no local `$ref` and no `$defs`. */
  lemma InlineLeavesNothingLocal(schema: Json, decode: Decoder)
    requires Valid(schema) && NoDefsBesideRef(schema) && InlineLocalDefinitions(schema, decode).Ok?
    ensures NoLocalRef(InlineLocalDefinitions(schema, decode).value) && !HasDefs(InlineLocalDefinitions(schema, decode).value)
  {
    hide Expand, Keeps, HasDefs, NoLocalRef;
    InlinedExactly(schema, decode);
    if schema.Obj? && FindField(schema.fields, DEFS).Some? {
      var d := Field(DEFS, FindField(schema.fields, DEFS).value);
      assert d in schema.fields;
      assert NoDefsBesideRef(d.value);
    }
    NoneKept(Definitions(schema), decode, schema, [], {});
  }
}
