/** Inlining of local JSON Schema definitions: `$ref` objects that point into `$defs` are replaced by the
    expanded definition (sections 8.2.3.1 and 8.2.4 of JSON Schema Core 2020-12). */
module SchemaInliner {
  import opened Outcomes
  import opened Numerals
  import opened Json

  /** `decodeURIComponent`, which fails on malformed percent sequences. */
  type Decoder = string -> Option<string>

  datatype ExpandError = MalformedReference(text: string) | MissingDefinition(name: string) | RecursiveDefinition(name: string)

  const PREFIX := "#/$defs/"
  const REF := "$ref"
  const DEFS := "$defs"

  function Definitions(schema: Json): seq<Field> {
    if !schema.Obj? then []
    else match FindField(schema.fields, DEFS)
      case Some(Obj(fields)) => fields
      case _ => []
  }

  predicate IsLocalReference(v: Json) { v.Str? && PREFIX <= v.s }

  /** The undecoded name an object refers to, when its `$ref` is local. */
  function LocalReference(fields: seq<Field>): Option<string> {
    match FindField(fields, REF)
    case Some(v) => if IsLocalReference(v) then Some(v.s[|PREFIX|..]) else None
    case None => None
  }

  ghost function Unvisited(defs: seq<Field>, stack: seq<string>): nat {
    |(set f | f in defs :: f.key) - (set n | n in stack)|
  }

  lemma UnvisitedShrinks(defs: seq<Field>, stack: seq<string>, name: string)
    requires FindField(defs, name).Some? && name !in stack
    ensures Unvisited(defs, stack + [name]) < Unvisited(defs, stack)
  {
    var names := set f | f in defs :: f.key;
    assert Field(name, FindField(defs, name).value).key in names;
    var old' := names - (set n | n in stack);
    var new' := names - (set n | n in stack + [name]);
    assert name in old' && new' == old' - {name};
  }

  /** Object spread: what `{...v}` copies from a value. */
  function Spread(v: Json): seq<Field> {
    match v
    case Obj(fields) => fields
    case Arr(items) => seq(|items|, i requires 0 <= i < |items| => Field(ToText(i), items[i]))
    case Str(s) => seq(|s|, i requires 0 <= i < |s| => Field(ToText(i), Str([s[i]])))
    case _ => []
  }

  function Overridden(base: seq<Field>, extra: seq<Field>): (r: seq<Field>)
    ensures |r| == |base|
    ensures forall i :: 0 <= i < |r| ==>
              r[i] == match FindField(extra, base[i].key) case Some(v) => Field(base[i].key, v) case None => base[i]
  {
    if base == [] then []
    else
      [match FindField(extra, base[0].key) case Some(v) => Field(base[0].key, v) case None => base[0]]
      + Overridden(base[1..], extra)
  }

  function Added(base: seq<Field>, extra: seq<Field>): (r: seq<Field>)
    ensures forall f :: f in r ==> f in extra
  {
    if extra == [] then []
    else (if FindField(base, extra[0].key) == None then [extra[0]] else []) + Added(base, extra[1..])
  }

  /** `{...base, ...extra}` */
  function Merge(base: seq<Field>, extra: seq<Field>): seq<Field> {
    FromEntries(Overridden(base, extra) + Added(base, extra))
  }

  function Expand(defs: seq<Field>, decode: Decoder, v: Json, stack: seq<string>): Result<Json, ExpandError>
    decreases Unvisited(defs, stack), v, 1
  {
    match v
    case Arr(items) =>
      (match ExpandItems(defs, decode, items, stack)
       case Err(e) => Err(e)
       case Ok(r) => Ok(Arr(r)))
    case Obj(fields) =>
      (match LocalReference(fields)
       case Some(raw) => ExpandReference(defs, decode, fields, raw, stack)
       case None =>
         match ExpandFields(defs, decode, fields, DEFS, stack)
         case Err(e) => Err(e)
         case Ok(r) => Ok(Obj(r)))
    case _ => Ok(v)
  }

  function ExpandReference(defs: seq<Field>, decode: Decoder, fields: seq<Field>, raw: string, stack: seq<string>): Result<Json, ExpandError>
    decreases Unvisited(defs, stack), fields, 1
  {
    match decode(raw)
    case None => Err(MalformedReference(raw))
    case Some(name) =>
      match FindField(defs, name)
      case None => Err(MissingDefinition(name))
      case Some(definition) =>
        if name in stack then Err(RecursiveDefinition(name))
        else
          match ExpandFields(defs, decode, fields, REF, stack)
          case Err(e) => Err(e)
          case Ok(siblings) =>
            UnvisitedShrinks(defs, stack, name);
            match Expand(defs, decode, definition, stack + [name])
            case Err(e) => Err(e)
            case Ok(expanded) => Ok(Obj(Merge(Spread(expanded), siblings)))
  }

  function ExpandItems(defs: seq<Field>, decode: Decoder, items: seq<Json>, stack: seq<string>): Result<seq<Json>, ExpandError>
    decreases Unvisited(defs, stack), items, 0
  {
    if items == [] then Ok([])
    else
      match Expand(defs, decode, items[0], stack)
      case Err(e) => Err(e)
      case Ok(x) =>
        match ExpandItems(defs, decode, items[1..], stack)
        case Err(e) => Err(e)
        case Ok(rest) => Ok([x] + rest)
  }

  /** Expands every field but those with key `skip`, which are dropped. */
  function ExpandFields(defs: seq<Field>, decode: Decoder, fields: seq<Field>, skip: string, stack: seq<string>): Result<seq<Field>, ExpandError>
    decreases Unvisited(defs, stack), fields, 0
  {
    if fields == [] then Ok([])
    else if fields[0].key == skip then ExpandFields(defs, decode, fields[1..], skip, stack)
    else
      match Expand(defs, decode, fields[0].value, stack)
      case Err(e) => Err(e)
      case Ok(x) =>
        match ExpandFields(defs, decode, fields[1..], skip, stack)
        case Err(e) => Err(e)
        case Ok(rest) => Ok([Field(fields[0].key, x)] + rest)
  }

  function InlineLocalDefinitions(schema: Json, decode: Decoder): Result<Json, ExpandError> {
    Expand(Definitions(schema), decode, schema, [])
  }

  // ---- the reference graph ---------------------------------------------------------------------

  /** The local references met in a term before any is followed. */
  ghost function References(v: Json): set<string>
    decreases v, 1
  {
    match v
    case Arr(items) => ItemReferences(items)
    case Obj(fields) =>
      (match LocalReference(fields)
       case Some(raw) => {raw} + FieldReferences(fields, REF)
       case None => FieldReferences(fields, DEFS))
    case _ => {}
  }

  ghost function ItemReferences(items: seq<Json>): set<string>
    decreases items, 0
  {
    if items == [] then {} else References(items[0]) + ItemReferences(items[1..])
  }

  ghost function FieldReferences(fields: seq<Field>, skip: string): set<string>
    decreases fields, 0
  {
    if fields == [] then {}
    else (if fields[0].key == skip then {} else References(fields[0].value)) + FieldReferences(fields[1..], skip)
  }

  ghost predicate Resolves(defs: seq<Field>, decode: Decoder, raw: string) {
    decode(raw).Some? && FindField(defs, decode(raw).value).Some?
  }

  ghost function Definition(defs: seq<Field>, decode: Decoder, raw: string): Json
    requires Resolves(defs, decode, raw)
  {
    FindField(defs, decode(raw).value).value
  }

  /** A path of references: each is met in the definition the one before it names. */
  ghost predicate Path(defs: seq<Field>, decode: Decoder, from: set<string>, p: seq<string>)
    decreases |p|
  {
    p == [] ||
    (&& p[0] in from
     && (if Resolves(defs, decode, p[0]) then Path(defs, decode, References(Definition(defs, decode, p[0])), p[1..])
         else |p| == 1))
  }

  /** Every reference on the path resolves, to a definition that is neither on the stack nor earlier on
      the path. */
  ghost predicate GoodPath(defs: seq<Field>, decode: Decoder, p: seq<string>, stack: seq<string>)
    decreases |p|
  {
    p == [] ||
    (&& Resolves(defs, decode, p[0]) && decode(p[0]).value !in stack
     && GoodPath(defs, decode, p[1..], stack + [decode(p[0]).value]))
  }

  ghost predicate Clear(defs: seq<Field>, decode: Decoder, from: set<string>, stack: seq<string>) {
    forall p :: Path(defs, decode, from, p) ==> GoodPath(defs, decode, p, stack)
  }

  lemma ClearUnion(defs: seq<Field>, decode: Decoder, a: set<string>, b: set<string>, stack: seq<string>)
    ensures Clear(defs, decode, a + b, stack) <==> Clear(defs, decode, a, stack) && Clear(defs, decode, b, stack)
  {
    hide GoodPath;
    forall p ensures Path(defs, decode, a + b, p) <==> Path(defs, decode, a, p) || Path(defs, decode, b, p) {
    }
  }

  lemma ClearEmpty(defs: seq<Field>, decode: Decoder, stack: seq<string>)
    ensures Clear(defs, decode, {}, stack)
  {
    forall p | Path(defs, decode, {}, p) ensures GoodPath(defs, decode, p, stack) {
      assert p == [];
    }
  }

  lemma ClearOne(defs: seq<Field>, decode: Decoder, raw: string, stack: seq<string>)
    ensures Clear(defs, decode, {raw}, stack) <==>
              && Resolves(defs, decode, raw) && decode(raw).value !in stack
              && Clear(defs, decode, References(Definition(defs, decode, raw)), stack + [decode(raw).value])
  {
    hide Definition, References;
    if Clear(defs, decode, {raw}, stack) {
      assert [raw][1..] == [];
      assert Path(defs, decode, {raw}, [raw]);
      assert GoodPath(defs, decode, [raw], stack);
      forall q | Path(defs, decode, References(Definition(defs, decode, raw)), q)
        ensures GoodPath(defs, decode, q, stack + [decode(raw).value])
      {
        assert ([raw] + q)[1..] == q;
        assert Path(defs, decode, {raw}, [raw] + q);
        assert GoodPath(defs, decode, [raw] + q, stack);
      }
    } else {
      var p :| Path(defs, decode, {raw}, p) && !GoodPath(defs, decode, p, stack);
      assert p != [] && p[0] == raw;
      if Resolves(defs, decode, raw) {
        assert Path(defs, decode, References(Definition(defs, decode, raw)), p[1..]);
      }
    }
  }

  /** Expansion succeeds exactly when every path of references from the term is good. */
  lemma {:induction false} ExpandSucceeds(defs: seq<Field>, decode: Decoder, v: Json, stack: seq<string>)
    ensures Expand(defs, decode, v, stack).Ok? <==> Clear(defs, decode, References(v), stack)
    decreases Unvisited(defs, stack), v, 1
  {
    hide Clear, FindField, Merge, Spread;
    match v
    case Arr(items) => ExpandItemsSucceeds(defs, decode, items, stack);
    case Obj(fields) =>
      match LocalReference(fields) {
        case Some(raw) => ExpandReferenceSucceeds(defs, decode, fields, raw, stack);
        case None => ExpandFieldsSucceeds(defs, decode, fields, DEFS, stack);
      }
    case _ => ClearEmpty(defs, decode, stack);
  }

  lemma {:induction false} ExpandReferenceSucceeds(defs: seq<Field>, decode: Decoder, fields: seq<Field>, raw: string, stack: seq<string>)
    ensures ExpandReference(defs, decode, fields, raw, stack).Ok? <==>
              Clear(defs, decode, {raw} + FieldReferences(fields, REF), stack)
    decreases Unvisited(defs, stack), fields, 1
  {
    hide Clear, FindField, Merge, Spread, References, FieldReferences, ExpandFields;
    ClearUnion(defs, decode, {raw}, FieldReferences(fields, REF), stack);
    ClearOne(defs, decode, raw, stack);
    ExpandFieldsSucceeds(defs, decode, fields, REF, stack);
    if Resolves(defs, decode, raw) && decode(raw).value !in stack {
      var name := decode(raw).value;
      UnvisitedShrinks(defs, stack, name);
      ExpandSucceeds(defs, decode, Definition(defs, decode, raw), stack + [name]);
    }
  }

  lemma {:induction false} ExpandItemsSucceeds(defs: seq<Field>, decode: Decoder, items: seq<Json>, stack: seq<string>)
    ensures ExpandItems(defs, decode, items, stack).Ok? <==> Clear(defs, decode, ItemReferences(items), stack)
    decreases Unvisited(defs, stack), items, 0
  {
    hide Clear, Expand, References;
    if items == [] {
      ClearEmpty(defs, decode, stack);
    } else {
      ExpandSucceeds(defs, decode, items[0], stack);
      ExpandItemsSucceeds(defs, decode, items[1..], stack);
      ClearUnion(defs, decode, References(items[0]), ItemReferences(items[1..]), stack);
    }
  }

  lemma {:induction false} ExpandFieldsSucceeds(defs: seq<Field>, decode: Decoder, fields: seq<Field>, skip: string, stack: seq<string>)
    ensures ExpandFields(defs, decode, fields, skip, stack).Ok? <==> Clear(defs, decode, FieldReferences(fields, skip), stack)
    decreases Unvisited(defs, stack), fields, 0
  {
    hide Clear, Expand, References;
    if fields == [] {
      ClearEmpty(defs, decode, stack);
    } else {
      ExpandFieldsSucceeds(defs, decode, fields[1..], skip, stack);
      if fields[0].key == skip {
        assert FieldReferences(fields, skip) == FieldReferences(fields[1..], skip);
      } else {
        ExpandSucceeds(defs, decode, fields[0].value, stack);
        ClearUnion(defs, decode, References(fields[0].value), FieldReferences(fields[1..], skip), stack);
      }
    }
  }

  ghost predicate AllResolve(defs: seq<Field>, decode: Decoder, p: seq<string>) {
    forall i :: 0 <= i < |p| ==> Resolves(defs, decode, p[i])
  }

  ghost predicate NoRepeat(decode: Decoder, p: seq<string>) {
    forall i, j :: 0 <= i < j < |p| ==> decode(p[i]) != decode(p[j])
  }

  lemma {:induction false} GoodPathExact(defs: seq<Field>, decode: Decoder, p: seq<string>, stack: seq<string>)
    ensures GoodPath(defs, decode, p, stack) <==>
              && AllResolve(defs, decode, p) && NoRepeat(decode, p)
              && forall i :: 0 <= i < |p| ==> decode(p[i]).value !in stack
    decreases |p|
  {
    hide FindField;
    if p != [] && Resolves(defs, decode, p[0]) {
      var name, q := decode(p[0]).value, p[1..];
      GoodPathExact(defs, decode, q, stack + [name]);
      assert forall i :: 0 <= i < |q| ==> q[i] == p[i + 1];
      assert forall i :: 0 < i < |p| ==> p[i] == q[i - 1];
      if GoodPath(defs, decode, p, stack) {
        forall i, j | 0 <= i < j < |p| ensures decode(p[i]) != decode(p[j]) {
          if i > 0 { assert decode(q[i - 1]) != decode(q[j - 1]); } else { assert decode(q[j - 1]).value !in stack + [name]; }
        }
      }
      if AllResolve(defs, decode, p) && NoRepeat(decode, p) && forall i :: 0 <= i < |p| ==> decode(p[i]).value !in stack {
        forall i | 0 <= i < |q| ensures decode(q[i]).value !in stack + [name] {
          assert decode(p[0]) != decode(p[i + 1]);
        }
      }
    }
  }

  /** Inlining succeeds exactly when every reference reachable from the schema resolves and no path of
      references meets a definition twice. */
  lemma InlineSucceeds(schema: Json, decode: Decoder)
    ensures var defs := Definitions(schema);
      InlineLocalDefinitions(schema, decode).Ok? <==>
        forall p :: Path(defs, decode, References(schema), p) ==> AllResolve(defs, decode, p) && NoRepeat(decode, p)
  {
    hide Expand, References, Path, AllResolve, NoRepeat, Definitions, GoodPath;
    var defs := Definitions(schema);
    ExpandSucceeds(defs, decode, schema, []);
    forall p ensures GoodPath(defs, decode, p, []) <==> AllResolve(defs, decode, p) && NoRepeat(decode, p) {
      GoodPathExact(defs, decode, p, []);
    }
  }

  // ---- the stack only guards -------------------------------------------------------------------

  /** Two stacks under which a term expands give it the same expansion. */
  lemma {:induction false} StackIndependent(defs: seq<Field>, decode: Decoder, v: Json, s: seq<string>, t: seq<string>)
    requires Expand(defs, decode, v, s).Ok? && Expand(defs, decode, v, t).Ok?
    ensures Expand(defs, decode, v, s) == Expand(defs, decode, v, t)
    decreases Unvisited(defs, s), v, 1
  {
    hide FindField, Merge, Spread;
    match v
    case Arr(items) => ItemsStackIndependent(defs, decode, items, s, t);
    case Obj(fields) =>
      match LocalReference(fields) {
        case Some(raw) =>
          var name := decode(raw).value;
          FieldsStackIndependent(defs, decode, fields, REF, s, t);
          UnvisitedShrinks(defs, s, name);
          StackIndependent(defs, decode, FindField(defs, name).value, s + [name], t + [name]);
        case None => FieldsStackIndependent(defs, decode, fields, DEFS, s, t);
      }
    case _ =>
  }

  lemma {:induction false} ItemsStackIndependent(defs: seq<Field>, decode: Decoder, items: seq<Json>, s: seq<string>, t: seq<string>)
    requires ExpandItems(defs, decode, items, s).Ok? && ExpandItems(defs, decode, items, t).Ok?
    ensures ExpandItems(defs, decode, items, s) == ExpandItems(defs, decode, items, t)
    decreases Unvisited(defs, s), items, 0
  {
    hide Expand;
    if items != [] {
      StackIndependent(defs, decode, items[0], s, t);
      ItemsStackIndependent(defs, decode, items[1..], s, t);
    }
  }

  lemma {:induction false} FieldsStackIndependent(defs: seq<Field>, decode: Decoder, fields: seq<Field>, skip: string, s: seq<string>, t: seq<string>)
    requires ExpandFields(defs, decode, fields, skip, s).Ok? && ExpandFields(defs, decode, fields, skip, t).Ok?
    ensures ExpandFields(defs, decode, fields, skip, s) == ExpandFields(defs, decode, fields, skip, t)
    decreases Unvisited(defs, s), fields, 0
  {
    hide Expand;
    if fields != [] {
      FieldsStackIndependent(defs, decode, fields[1..], skip, s, t);
      if fields[0].key != skip { StackIndependent(defs, decode, fields[0].value, s, t); }
    }
  }
}
