/** Why inlining fails: every error names the reference at the end of a path of references from the schema. */
module SchemaErrors {
  import opened Outcomes
  import opened Json
  import opened SchemaInliner

  /** An object refers to a local definition exactly by a `$ref` with the local prefix before its name. */
  lemma LocalReferenceExact(fields: seq<Field>, raw: string)
    ensures LocalReference(fields) == Some(raw) <==> FindField(fields, "$ref") == Some(Str("#/$defs/" + raw))
  {
    hide FindField;
    match FindField(fields, "$ref") {
      case Some(Str(s)) => if PREFIX <= s { assert s == PREFIX + s[|PREFIX|..]; }
      case _ =>
    }
    assert (PREFIX + raw)[|PREFIX|..] == raw;
  }

  /** The last reference of the path is the reason: it cannot be decoded, names no definition, or names one
      that is being expanded already, at the start or further up the path. */
  ghost predicate Blames(defs: seq<Field>, decode: Decoder, p: seq<string>, stack: seq<string>, e: ExpandError) {
    && p != []
    && var raw := p[|p| - 1];
       match e
       case MalformedReference(text) => text == raw && decode(raw) == None
       case MissingDefinition(name) => decode(raw) == Some(name) && FindField(defs, name) == None
       case RecursiveDefinition(name) =>
         && decode(raw) == Some(name) && FindField(defs, name).Some?
         && (name in stack || exists i :: 0 <= i < |p| - 1 && decode(p[i]) == Some(name))
  }

  lemma WiderPath(defs: seq<Field>, decode: Decoder, a: set<string>, b: set<string>, p: seq<string>)
    requires Path(defs, decode, a, p) && a <= b
    ensures Path(defs, decode, b, p)
  {
    hide References, Resolves;
  }

  lemma {:induction false} ExpandBlames(defs: seq<Field>, decode: Decoder, v: Json, stack: seq<string>) returns (p: seq<string>)
    requires Expand(defs, decode, v, stack).Err?
    ensures Path(defs, decode, References(v), p) && Blames(defs, decode, p, stack, Expand(defs, decode, v, stack).error)
    decreases Unvisited(defs, stack), v, 1
  {
    hide FindField, Merge, Spread, Path, Blames, ExpandReference, ExpandFields, ExpandItems;
    match v {
      case Arr(items) => p := ItemsBlame(defs, decode, items, stack);
      case Obj(fields) =>
        match LocalReference(fields) {
          case Some(raw) => p := ReferenceBlames(defs, decode, fields, raw, stack);
          case None => p := FieldsBlame(defs, decode, fields, DEFS, stack);
        }
    }
  }

  lemma {:induction false} ReferenceBlames(defs: seq<Field>, decode: Decoder, fields: seq<Field>, raw: string, stack: seq<string>)
    returns (p: seq<string>)
    requires ExpandReference(defs, decode, fields, raw, stack).Err?
    ensures Path(defs, decode, {raw} + FieldReferences(fields, REF), p)
    ensures Blames(defs, decode, p, stack, ExpandReference(defs, decode, fields, raw, stack).error)
    decreases Unvisited(defs, stack), fields, 1
  {
    hide FindField, Merge, Spread, Path, Blames, ExpandFields, Expand, References, FieldReferences;
    var from := {raw} + FieldReferences(fields, REF);
    if !Resolves(defs, decode, raw) || decode(raw).value in stack {
      p := [raw];
      LastReference(defs, decode, from, raw, stack);
    } else if ExpandFields(defs, decode, fields, REF, stack).Err? {
      p := FieldsBlame(defs, decode, fields, REF, stack);
      WiderPath(defs, decode, FieldReferences(fields, REF), from, p);
    } else {
      var name := decode(raw).value;
      UnvisitedShrinks(defs, stack, name);
      var q := ExpandBlames(defs, decode, Definition(defs, decode, raw), stack + [name]);
      p := [raw] + q;
      LongerPath(defs, decode, from, raw, q, stack, ExpandReference(defs, decode, fields, raw, stack).error);
    }
  }

  lemma LastReference(defs: seq<Field>, decode: Decoder, from: set<string>, raw: string, stack: seq<string>)
    requires raw in from && (!Resolves(defs, decode, raw) || decode(raw).value in stack)
    ensures Path(defs, decode, from, [raw])
    ensures decode(raw) == None ==> Blames(defs, decode, [raw], stack, MalformedReference(raw))
    ensures decode(raw).Some? && FindField(defs, decode(raw).value) == None ==>
              Blames(defs, decode, [raw], stack, MissingDefinition(decode(raw).value))
    ensures Resolves(defs, decode, raw) ==> Blames(defs, decode, [raw], stack, RecursiveDefinition(decode(raw).value))
  {
    hide FindField, References;
    assert [raw][1..] == [];
  }

  lemma LongerPath(defs: seq<Field>, decode: Decoder, from: set<string>, raw: string, q: seq<string>, stack: seq<string>, e: ExpandError)
    requires raw in from && Resolves(defs, decode, raw)
    requires Path(defs, decode, References(Definition(defs, decode, raw)), q)
    requires Blames(defs, decode, q, stack + [decode(raw).value], e)
    ensures Path(defs, decode, from, [raw] + q) && Blames(defs, decode, [raw] + q, stack, e)
  {
    hide FindField, References, Definition;
    var p := [raw] + q;
    assert p[1..] == q && p[|p| - 1] == q[|q| - 1];
    if e.RecursiveDefinition? && e.name !in stack {
      if e.name == decode(raw).value {
        assert decode(p[0]) == Some(e.name);
      } else {
        var i :| 0 <= i < |q| - 1 && decode(q[i]) == Some(e.name);
        assert p[i + 1] == q[i];
      }
    }
  }

  lemma {:induction false} ItemsBlame(defs: seq<Field>, decode: Decoder, items: seq<Json>, stack: seq<string>) returns (p: seq<string>)
    requires ExpandItems(defs, decode, items, stack).Err?
    ensures Path(defs, decode, ItemReferences(items), p) && Blames(defs, decode, p, stack, ExpandItems(defs, decode, items, stack).error)
    decreases Unvisited(defs, stack), items, 0
  {
    hide Path, Blames, Expand, References;
    if Expand(defs, decode, items[0], stack).Err? {
      p := ExpandBlames(defs, decode, items[0], stack);
      WiderPath(defs, decode, References(items[0]), ItemReferences(items), p);
    } else {
      p := ItemsBlame(defs, decode, items[1..], stack);
      WiderPath(defs, decode, ItemReferences(items[1..]), ItemReferences(items), p);
    }
  }

  lemma {:induction false} FieldsBlame(defs: seq<Field>, decode: Decoder, fields: seq<Field>, skip: string, stack: seq<string>)
    returns (p: seq<string>)
    requires ExpandFields(defs, decode, fields, skip, stack).Err?
    ensures Path(defs, decode, FieldReferences(fields, skip), p)
    ensures Blames(defs, decode, p, stack, ExpandFields(defs, decode, fields, skip, stack).error)
    decreases Unvisited(defs, stack), fields, 0
  {
    hide Path, Blames, Expand, References;
    if fields[0].key != skip && Expand(defs, decode, fields[0].value, stack).Err? {
      p := ExpandBlames(defs, decode, fields[0].value, stack);
      WiderPath(defs, decode, References(fields[0].value), FieldReferences(fields, skip), p);
    } else {
      p := FieldsBlame(defs, decode, fields[1..], skip, stack);
      WiderPath(defs, decode, FieldReferences(fields[1..], skip), FieldReferences(fields, skip), p);
    }
  }

  /** When inlining a schema fails, a path of references leads from it to the one the error names. */
  lemma InlineBlames(schema: Json, decode: Decoder) returns (p: seq<string>)
    requires InlineLocalDefinitions(schema, decode).Err?
    ensures Path(Definitions(schema), decode, References(schema), p)
    ensures Blames(Definitions(schema), decode, p, [], InlineLocalDefinitions(schema, decode).error)
  {
    p := ExpandBlames(Definitions(schema), decode, schema, []);
  }
}
