/**
  What hoisting preserves: unfolding the references of a stored schema through the
  component map gives, to every depth, what unfolding the generated schema through
  its own `$defs` gave.
 */
module SchemaMeaning {
  import opened JsonModel
  import opened SchemaHoist

  // ---------------------------------------------------------------- unfolding

  /** A schema apart from its definitions: every member but `$defs`. */
  ghost function Rest(v: Json): Json {
    if v.Obj? then Obj(v.fields - {"$defs"}) else v
  }

  /**
    `v` with every resolvable reference replaced by what it names, `depth` levels
    deep.  `#/$defs/N` is looked up in `defs`, `#/components/schemas/N` in
    `components`; a reference to anything else stays as it is written.
   */
  ghost function Unfold(v: Json, defs: map<string, Json>, components: map<string, Json>, depth: nat): Json
    decreases depth, v
  {
    match v
    case Arr(items) =>
      Arr(seq(|items|, i requires 0 <= i < |items| => Unfold(items[i], defs, components, depth)))
    case Obj(fields) =>
      Obj(map key | key in fields ::
            if key == "$ref" && fields[key].Str?
            then UnfoldRef(fields[key], defs, components, depth)
            else Unfold(fields[key], defs, components, depth))
    case _ => v
  }

  ghost function UnfoldRef(ref: Json, defs: map<string, Json>, components: map<string, Json>, depth: nat): Json
    decreases depth, ref
  {
    if IsDefsRef(ref) && DefsName(ref) in defs then
      if depth == 0 then Null else Unfold(Rest(defs[DefsName(ref)]), defs, components, depth - 1)
    else if IsComponentRef(ref) && ComponentName(ref) in components then
      if depth == 0 then Null else Unfold(components[ComponentName(ref)], map[], components, depth - 1)
    else
      ref
  }

  /** The meaning of a schema as it was generated, placed in a document with `components`. */
  ghost function GeneratedMeaning(schema: Json, components: map<string, Json>, depth: nat): Json {
    Unfold(Rest(schema), Defs(schema), components, depth)
  }

  /** The meaning of a stored component. */
  ghost function ComponentMeaning(name: string, components: map<string, Json>, depth: nat): Json
    requires name in components
  {
    Unfold(components[name], map[], components, depth)
  }

  /** Every `#/$defs/N` in the schema, also inside its definitions, names one of its `$defs`. */
  ghost predicate RefsResolve(schema: Json) {
    DefsRefsWithin(schema, Defs(schema).Keys)
  }

  lemma StoredIsRewriteOfRest(v: Json)
    ensures Stored(v) == Rewrite(Rest(v))
  {
    if v.Obj? {
      assert Stored(v).fields == Rewrite(Rest(v)).fields;
    }
  }

  lemma DefsResolveWithin(schema: Json, name: string, names: set<string>)
    requires DefsRefsWithin(schema, names) && name in Defs(schema)
    ensures DefsRefsWithin(Defs(schema)[name], names)
    ensures DefsRefsWithin(Rest(Defs(schema)[name]), names)
  {
    assert DefsRefsWithin(schema.fields["$defs"], names);
  }

  lemma {:induction false} RewriteKeepsMeaning(v: Json, defs: map<string, Json>, components: map<string, Json>,
                                               depth: nat)
    requires DefsRefsWithin(v, defs.Keys)
    requires forall n :: n in defs ==> DefsRefsWithin(Rest(defs[n]), defs.Keys)
    requires forall n :: n in defs ==> n in components && components[n] == Stored(defs[n])
    ensures Unfold(v, defs, components, depth) == Unfold(Rewrite(v), map[], components, depth)
    decreases depth, v
  {
    match v
    case Arr(items) =>
      forall i | 0 <= i < |items| { RewriteKeepsMeaning(items[i], defs, components, depth); }
      assert Unfold(v, defs, components, depth).items == Unfold(Rewrite(v), map[], components, depth).items;
    case Obj(fields) =>
      var before := Unfold(v, defs, components, depth).fields;
      var after := Unfold(Rewrite(v), map[], components, depth).fields;
      forall key | key in fields ensures before[key] == after[key] {
        if key == "$ref" && fields[key].Str? {
          RewriteRefKeepsMeaning(fields[key], defs, components, depth);
        } else {
          RewriteKeepsMeaning(fields[key], defs, components, depth);
          assert Rewrite(fields[key]).Str? <==> fields[key].Str?;
        }
      }
      assert before == after;
    case _ =>
  }

  lemma {:induction false} RewriteRefKeepsMeaning(ref: Json, defs: map<string, Json>, components: map<string, Json>,
                                                  depth: nat)
    requires ref.Str? && (IsDefsRef(ref) ==> DefsName(ref) in defs)
    requires forall n :: n in defs ==> DefsRefsWithin(Rest(defs[n]), defs.Keys)
    requires forall n :: n in defs ==> n in components && components[n] == Stored(defs[n])
    ensures UnfoldRef(ref, defs, components, depth) ==
            UnfoldRef(if IsDefsRef(ref) then ComponentRef(DefsName(ref)) else ref, map[], components, depth)
    decreases depth, ref
  {
    hide Unfold, Rewrite, DefsRefsWithin, Stored, Rest;
    if IsDefsRef(ref) {
      var name := DefsName(ref);
      NamedUnfolds(ref, ComponentRef(name), name, defs, components, depth);
      if depth > 0 {
        RewriteKeepsMeaning(Rest(defs[name]), defs, components, depth - 1);
        StoredIsRewriteOfRest(defs[name]);
      }
    }
  }

  /** What a reference to a definition, and one to the component of that name, unfold to. */
  lemma NamedUnfolds(ref: Json, component: Json, name: string, defs: map<string, Json>,
                     components: map<string, Json>, depth: nat)
    requires IsDefsRef(ref) && DefsName(ref) == name && component == ComponentRef(name) && name in defs &&
      name in components
    ensures UnfoldRef(ref, defs, components, depth) ==
            if depth == 0 then Null else Unfold(Rest(defs[name]), defs, components, depth - 1)
    ensures UnfoldRef(component, map[], components, depth) ==
            if depth == 0 then Null else Unfold(components[name], map[], components, depth - 1)
  {
  }

  /** The component map represents a schema and each of its definitions under its own name. */
  ghost predicate Represents(components: map<string, Json>, name: string, schema: Json) {
    name in components && components[name] == Stored(schema) &&
    forall n :: n in Defs(schema) ==> n in components && components[n] == Stored(Defs(schema)[n])
  }

  /** Reference meaning survives the move, to every depth. */
  lemma RepresentedMeansTheSame(components: map<string, Json>, name: string, schema: Json, depth: nat)
    requires RefsResolve(schema) && Represents(components, name, schema)
    ensures ComponentMeaning(name, components, depth) == GeneratedMeaning(schema, components, depth)
  {
    var defs := Defs(schema);
    forall n | n in defs ensures DefsRefsWithin(Rest(defs[n]), defs.Keys) {
      DefsResolveWithin(schema, n, defs.Keys);
    }
    RewriteKeepsMeaning(Rest(schema), defs, components, depth);
    StoredIsRewriteOfRest(schema);
  }

  // ------------------------------------------------------------ one insertion

  /** Equal names carry equal definitions: within the schema and against the entries already there. */
  ghost predicate NoClash(before: map<string, Json>, name: string, schema: Json) {
    forall n, stored :: Hoisted(schema, n, stored) ==>
      (n == name ==> stored == Stored(schema)) &&
      (n != name && n in before ==> stored == before[n]) &&
      forall other :: Hoisted(schema, n, other) ==> other == stored
  }

  ghost predicate StoresAll(schema: Json, after: map<string, Json>) {
    forall n, stored :: Hoisted(schema, n, stored) ==> n in after && after[n] == stored
  }

  /** Insertion stores every definition as it was exactly when no name clashes. */
  lemma InsertStoresAllIffNoClash(before: map<string, Json>, name: string, schema: Json, after: map<string, Json>)
    requires InsertOutcome(before, name, schema, after)
    ensures NoClash(before, name, schema) <==> StoresAll(schema, after)
  {
    if NoClash(before, name, schema) {
      forall n, stored | Hoisted(schema, n, stored) ensures n in after && after[n] == stored {
        if n != name && n !in before {
          assert Hoisted(schema, n, after[n]);
        }
      }
    }
    if StoresAll(schema, after) {
      forall n, stored | Hoisted(schema, n, stored)
        ensures n == name ==> stored == Stored(schema)
        ensures n != name && n in before ==> stored == before[n]
        ensures forall other :: Hoisted(schema, n, other) ==> other == stored
      {
        assert after[n] == stored;
      }
    }
  }

  lemma DefinitionsAreHoisted(schema: Json)
    ensures forall n :: n in Defs(schema) ==> Hoisted(schema, n, Stored(Defs(schema)[n]))
  {
    forall n | n in Defs(schema) ensures Hoisted(schema, n, Stored(Defs(schema)[n])) {
      assert FromDef(Defs(schema)[n], n, n, Stored(Defs(schema)[n]));
    }
  }

  ghost predicate NoDefsRefs(components: map<string, Json>) {
    forall n :: n in components ==> DefsRefsWithin(components[n], {})
  }

  lemma {:induction false} HoistedHasNoDefsRef(schema: Json, name: string, stored: Json)
    requires Hoisted(schema, name, stored)
    ensures DefsRefsWithin(stored, {})
    decreases schema
  {
    var key :| key in Defs(schema) && FromDef(Defs(schema)[key], key, name, stored);
    if Hoisted(Defs(schema)[key], name, stored) {
      HoistedHasNoDefsRef(Defs(schema)[key], name, stored);
    } else {
      StoredHasNoDefsRef(Defs(schema)[key]);
    }
  }

  lemma StoredHasNoDefsRef(schema: Json)
    ensures DefsRefsWithin(Stored(schema), {})
  {
    RewriteLeavesNoDefsRef(schema);
  }

  /** After an insertion no `#/$defs/` reference is left. */
  lemma InsertLeavesNoDefsRef(before: map<string, Json>, name: string, schema: Json, after: map<string, Json>)
    requires InsertOutcome(before, name, schema, after) && NoDefsRefs(before)
    ensures NoDefsRefs(after)
  {
    StoredHasNoDefsRef(schema);
    forall n | n in after ensures DefsRefsWithin(after[n], {}) {
      if n != name && n !in before {
        HoistedHasNoDefsRef(schema, n, after[n]);
      }
    }
  }

  lemma InsertRepresents(before: map<string, Json>, name: string, schema: Json, after: map<string, Json>)
    requires InsertOutcome(before, name, schema, after) && NoClash(before, name, schema)
    ensures Represents(after, name, schema)
  {
    InsertStoresAllIffNoClash(before, name, schema, after);
    forall n | n in Defs(schema) ensures n in after && after[n] == Stored(Defs(schema)[n]) {
      assert FromDef(Defs(schema)[n], n, n, Stored(Defs(schema)[n]));
      assert Hoisted(schema, n, Stored(Defs(schema)[n]));
    }
  }

  /** The inserted schema means what it meant when it was generated. */
  lemma InsertKeepsMeaning(before: map<string, Json>, name: string, schema: Json, after: map<string, Json>, depth: nat)
    requires InsertOutcome(before, name, schema, after)
    requires RefsResolve(schema) && NoClash(before, name, schema)
    ensures name in after
    ensures ComponentMeaning(name, after, depth) == GeneratedMeaning(schema, after, depth)
  {
    InsertRepresents(before, name, schema, after);
    RepresentedMeansTheSame(after, name, schema, depth);
  }

  // ------------------------------------------------- components stay closed

  /** Every `#/components/schemas/N` in `v`, at any depth, names a member of `names`. */
  ghost predicate ComponentRefsWithin(v: Json, names: set<string>) {
    match v
    case Arr(items) => forall i :: 0 <= i < |items| ==> ComponentRefsWithin(items[i], names)
    case Obj(fields) =>
      ("$ref" in fields && IsComponentRef(fields["$ref"]) ==> ComponentName(fields["$ref"]) in names) &&
      forall key :: key in fields ==> ComponentRefsWithin(fields[key], names)
    case _ => true
  }

  /** Every component reference resolves. */
  ghost predicate Closed(components: map<string, Json>) {
    forall n :: n in components ==> ComponentRefsWithin(components[n], components.Keys)
  }

  lemma {:induction false} RewriteResolvesWithin(v: Json, defs: set<string>, names: set<string>)
    requires DefsRefsWithin(v, defs) && ComponentRefsWithin(v, names) && defs <= names
    ensures ComponentRefsWithin(Rewrite(v), names)
  {
    match v
    case Arr(items) =>
      forall i | 0 <= i < |items| { RewriteResolvesWithin(items[i], defs, names); }
    case Obj(fields) =>
      forall key | key in fields ensures ComponentRefsWithin(Rewrite(fields[key]), names) {
        RewriteResolvesWithin(fields[key], defs, names);
      }
    case _ =>
  }

  lemma {:induction false} MoreNamesResolve(v: Json, fewer: set<string>, more: set<string>)
    requires ComponentRefsWithin(v, fewer) && fewer <= more
    ensures ComponentRefsWithin(v, more)
  {
    match v
    case Arr(items) =>
      forall i | 0 <= i < |items| { MoreNamesResolve(items[i], fewer, more); }
    case Obj(fields) =>
      forall key | key in fields ensures ComponentRefsWithin(fields[key], more) {
        MoreNamesResolve(fields[key], fewer, more);
      }
    case _ =>
  }

  lemma {:induction false} HoistedResolves(schema: Json, name: string, stored: Json, defs: set<string>,
                                           names: set<string>)
    requires Hoisted(schema, name, stored)
    requires DefsRefsWithin(schema, defs) && ComponentRefsWithin(schema, names) && defs <= names
    ensures ComponentRefsWithin(stored, names)
    decreases schema
  {
    var key :| key in Defs(schema) && FromDef(Defs(schema)[key], key, name, stored);
    assert ComponentRefsWithin(schema.fields["$defs"], names);
    DefsResolveWithin(schema, key, defs);
    if Hoisted(Defs(schema)[key], name, stored) {
      HoistedResolves(Defs(schema)[key], name, stored, defs, names);
    } else {
      RewriteResolvesWithin(Defs(schema)[key], defs, names);
    }
  }

  /** Inserting a schema whose own references resolve keeps the component map closed. */
  lemma InsertKeepsClosed(before: map<string, Json>, name: string, schema: Json, after: map<string, Json>)
    requires InsertOutcome(before, name, schema, after)
    requires Closed(before) && RefsResolve(schema) && ComponentRefsWithin(schema, after.Keys)
    ensures Closed(after)
  {
    DefinitionsAreHoisted(schema);
    assert Defs(schema).Keys <= after.Keys;
    forall n | n in after ensures ComponentRefsWithin(after[n], after.Keys) {
      if n == name {
        RewriteResolvesWithin(schema, Defs(schema).Keys, after.Keys);
      } else if n in before {
        MoreNamesResolve(before[n], before.Keys, after.Keys);
      } else {
        HoistedResolves(schema, n, after[n], Defs(schema).Keys, after.Keys);
      }
    }
  }

  lemma {:induction false} UnfoldAgrees(v: Json, small: map<string, Json>, large: map<string, Json>, depth: nat)
    requires ComponentRefsWithin(v, small.Keys) && Closed(small)
    requires forall n :: n in small ==> n in large && large[n] == small[n]
    ensures Unfold(v, map[], small, depth) == Unfold(v, map[], large, depth)
    decreases depth, v
  {
    match v
    case Arr(items) =>
      forall i | 0 <= i < |items| { UnfoldAgrees(items[i], small, large, depth); }
      assert Unfold(v, map[], small, depth).items == Unfold(v, map[], large, depth).items;
    case Obj(fields) =>
      var before, after := Unfold(v, map[], small, depth).fields, Unfold(v, map[], large, depth).fields;
      forall key | key in fields ensures before[key] == after[key] {
        if key == "$ref" && IsComponentRef(fields[key]) {
          if depth > 0 {
            UnfoldAgrees(small[ComponentName(fields[key])], small, large, depth - 1);
          }
        } else if !(key == "$ref" && fields[key].Str?) {
          UnfoldAgrees(fields[key], small, large, depth);
        }
      }
      assert before == after;
    case _ =>
  }

  /** Earlier entries under other names are untouched, and so is what they mean. */
  lemma InsertKeepsEarlierMeaning(before: map<string, Json>, name: string, schema: Json, after: map<string, Json>,
                                  earlier: string, depth: nat)
    requires InsertOutcome(before, name, schema, after) && Closed(before)
    requires name in before ==> before[name] == Stored(schema)
    requires earlier in before
    ensures earlier in after && ComponentMeaning(earlier, after, depth) == ComponentMeaning(earlier, before, depth)
  {
    UnfoldAgrees(before[earlier], before, after, depth);
  }

  // ------------------------------------------------------------- whole document

  /** `stored` is what one of the inputs contributes, or could contribute, under `name`. */
  ghost predicate Offers(input: (string, Json), name: string, stored: Json) {
    (input.0 == name && stored == Stored(input.1)) || Hoisted(input.1, name, stored)
  }

  ghost predicate Offered(inputs: seq<(string, Json)>, name: string, stored: Json) {
    exists i :: 0 <= i < |inputs| && Offers(inputs[i], name, stored)
  }

  ghost predicate BuildOutcome(inputs: seq<(string, Json)>, schemas: map<string, Json>) {
    (forall n :: n in schemas ==> Offered(inputs, n, schemas[n])) &&
    (forall n, stored :: Offered(inputs, n, stored) ==> n in schemas)
  }

  ghost predicate NamesAgree(inputs: seq<(string, Json)>) {
    forall n, a, b :: Offered(inputs, n, a) && Offered(inputs, n, b) ==> a == b
  }

  lemma BuildStep(inputs: seq<(string, Json)>, i: nat, before: map<string, Json>, after: map<string, Json>)
    requires i < |inputs| && BuildOutcome(inputs[..i], before)
    requires InsertOutcome(before, inputs[i].0, inputs[i].1, after)
    ensures BuildOutcome(inputs[..i + 1], after)
  {
    var fewer, more := inputs[..i], inputs[..i + 1];
    forall n | n in after ensures Offered(more, n, after[n]) {
      if n == inputs[i].0 || n !in before {
        assert Offers(more[i], n, after[n]);
      } else {
        var j :| 0 <= j < |fewer| && Offers(fewer[j], n, before[n]);
        assert Offers(more[j], n, after[n]);
      }
    }
    forall n, stored | Offered(more, n, stored) ensures n in after {
      var j :| 0 <= j < |more| && Offers(more[j], n, stored);
      if j < i {
        assert Offers(fewer[j], n, stored);
        assert Offered(fewer, n, stored);
      }
    }
  }

  /** `openapi_components`: every data-transfer type's schema, inserted in turn. */
  method OpenApiComponents(inputs: seq<(string, Json)>) returns (schemas: map<string, Json>)
    requires forall i :: 0 <= i < |inputs| ==> SchemaShaped(inputs[i].1)
    ensures BuildOutcome(inputs, schemas)
  {
    var components := new ComponentMap();
    for i := 0 to |inputs|
      invariant fresh(components)
      invariant BuildOutcome(inputs[..i], components.schemas)
    {
      ghost var before := components.schemas;
      components.InsertSchema(inputs[i].0, inputs[i].1);
      BuildStep(inputs, i, before, components.schemas);
    }
    assert inputs[..|inputs|] == inputs;
    schemas := components.schemas;
  }

  /** The finished document has no `#/$defs/` reference left. */
  lemma DocumentHasNoDefsRef(inputs: seq<(string, Json)>, schemas: map<string, Json>)
    requires BuildOutcome(inputs, schemas)
    ensures NoDefsRefs(schemas)
  {
    forall n | n in schemas ensures DefsRefsWithin(schemas[n], {}) {
      var i :| 0 <= i < |inputs| && Offers(inputs[i], n, schemas[n]);
      if Hoisted(inputs[i].1, n, schemas[n]) {
        HoistedHasNoDefsRef(inputs[i].1, n, schemas[n]);
      } else {
        StoredHasNoDefsRef(inputs[i].1);
      }
    }
  }

  /** The finished document is closed when the generated schemas' own references resolve. */
  lemma DocumentIsClosed(inputs: seq<(string, Json)>, schemas: map<string, Json>)
    requires BuildOutcome(inputs, schemas)
    requires forall i :: 0 <= i < |inputs| ==>
      RefsResolve(inputs[i].1) && ComponentRefsWithin(inputs[i].1, schemas.Keys)
    ensures Closed(schemas)
  {
    forall n | n in schemas ensures ComponentRefsWithin(schemas[n], schemas.Keys) {
      var i :| 0 <= i < |inputs| && Offers(inputs[i], n, schemas[n]);
      var schema := inputs[i].1;
      DefinitionsAreStored(inputs, schemas, i);
      if Hoisted(schema, n, schemas[n]) {
        HoistedResolves(schema, n, schemas[n], Defs(schema).Keys, schemas.Keys);
      } else {
        RewriteResolvesWithin(schema, Defs(schema).Keys, schemas.Keys);
      }
    }
  }

  lemma DefinitionsAreStored(inputs: seq<(string, Json)>, schemas: map<string, Json>, i: nat)
    requires BuildOutcome(inputs, schemas) && i < |inputs|
    ensures Defs(inputs[i].1).Keys <= schemas.Keys
  {
    var schema := inputs[i].1;
    DefinitionsAreHoisted(schema);
    forall n | n in Defs(schema) ensures n in schemas {
      assert Offers(inputs[i], n, Stored(Defs(schema)[n]));
      assert Offered(inputs, n, Stored(Defs(schema)[n]));
    }
  }

  /** Each definition is stored as its schema had it exactly when equal names agree. */
  lemma DocumentStoresAllIffNamesAgree(inputs: seq<(string, Json)>, schemas: map<string, Json>)
    requires BuildOutcome(inputs, schemas)
    ensures NamesAgree(inputs) <==>
      (forall n, stored :: Offered(inputs, n, stored) ==> n in schemas && schemas[n] == stored)
  {
  }

  /** When equal names agree, every schema of the document still means what it meant. */
  lemma DocumentKeepsMeaning(inputs: seq<(string, Json)>, schemas: map<string, Json>, i: nat, depth: nat)
    requires BuildOutcome(inputs, schemas) && NamesAgree(inputs)
    requires i < |inputs| && RefsResolve(inputs[i].1)
    ensures inputs[i].0 in schemas
    ensures ComponentMeaning(inputs[i].0, schemas, depth) == GeneratedMeaning(inputs[i].1, schemas, depth)
  {
    AgreedInputIsRepresented(inputs, schemas, i);
    RepresentedMeansTheSame(schemas, inputs[i].0, inputs[i].1, depth);
  }

  lemma AgreedInputIsRepresented(inputs: seq<(string, Json)>, schemas: map<string, Json>, i: nat)
    requires BuildOutcome(inputs, schemas) && NamesAgree(inputs) && i < |inputs|
    ensures Represents(schemas, inputs[i].0, inputs[i].1)
  {
    var (name, schema) := inputs[i];
    assert Offers(inputs[i], name, Stored(schema));
    assert Offered(inputs, name, Stored(schema));
    DefinitionsAreHoisted(schema);
    forall n | n in Defs(schema) ensures n in schemas && schemas[n] == Stored(Defs(schema)[n]) {
      assert Offers(inputs[i], n, Stored(Defs(schema)[n]));
      assert Offered(inputs, n, Stored(Defs(schema)[n]));
    }
  }

  function DefsRef(name: string): (ref: Json)
    ensures IsDefsRef(ref) && DefsName(ref) == name
  {
    Str(DEFS_PREFIX + name)
  }

  function ClashingSchema(): Json {
    Obj(map["$ref" := DefsRef("Money"), "$defs" := Obj(map["Money" := Bool(false)])])
  }

  lemma ClashingSchemaForms()
    ensures Defs(ClashingSchema()) == map["Money" := Bool(false)]
    ensures Rest(ClashingSchema()) == Obj(map["$ref" := DefsRef("Money")])
    ensures Stored(ClashingSchema()) == Obj(map["$ref" := ComponentRef("Money")])
    ensures RefsResolve(ClashingSchema())
  {
    var schema := ClashingSchema();
    assert Rest(schema).fields == map["$ref" := DefsRef("Money")];
    assert Stored(schema).fields == map["$ref" := ComponentRef("Money")];
  }

  lemma UnfoldLoneRef(ref: Json, defs: map<string, Json>, components: map<string, Json>, depth: nat)
    requires ref.Str?
    ensures Unfold(Obj(map["$ref" := ref]), defs, components, depth) ==
            Obj(map["$ref" := UnfoldRef(ref, defs, components, depth)])
  {
    assert Unfold(Obj(map["$ref" := ref]), defs, components, depth).fields ==
           map["$ref" := UnfoldRef(ref, defs, components, depth)];
  }

  /**
    Two schemas that define one name differently: the definition stored first is the
    one the second schema's reference now reaches.
   */
  lemma ClashChangesMeaning(after: map<string, Json>)
    requires InsertOutcome(map["Money" := Bool(true)], "Total", ClashingSchema(), after)
    ensures RefsResolve(ClashingSchema())
    ensures ComponentMeaning("Total", after, 1) == Obj(map["$ref" := Bool(true)])
    ensures GeneratedMeaning(ClashingSchema(), after, 1) == Obj(map["$ref" := Bool(false)])
  {
    ClashingSchemaForms();
    UnfoldLoneRef(DefsRef("Money"), map["Money" := Bool(false)], after, 1);
    UnfoldLoneRef(ComponentRef("Money"), map[], after, 1);
  }
}
