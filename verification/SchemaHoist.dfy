/**
  Component schemas of the OpenAPI document (REST shim): hoisting `$defs` into
  `components/schemas` and rewriting the references that named them.
 */
module SchemaHoist {
  import opened JsonModel

  const DEFS_PREFIX: string := "#/$defs/"
  const COMPONENTS_PREFIX: string := "#/components/schemas/"

  predicate IsDefsRef(v: Json) {
    v.Str? && DEFS_PREFIX <= v.text
  }

  predicate IsComponentRef(v: Json) {
    v.Str? && COMPONENTS_PREFIX <= v.text
  }

  function DefsName(v: Json): string
    requires IsDefsRef(v)
  {
    v.text[|DEFS_PREFIX|..]
  }

  function ComponentName(v: Json): string
    requires IsComponentRef(v)
  {
    v.text[|COMPONENTS_PREFIX|..]
  }

  function ComponentRef(name: string): (v: Json)
    ensures IsComponentRef(v) && ComponentName(v) == name && !IsDefsRef(v)
  {
    var v := Str(COMPONENTS_PREFIX + name);
    assert v.text[2] == 'c' && DEFS_PREFIX[2] == '$';
    v
  }

  // ---------------------------------------------------------------- rewriting

  /** What `rewrite_schema_refs` leaves behind. */
  function Rewrite(v: Json): Json {
    match v
    case Arr(items) => Arr(seq(|items|, i requires 0 <= i < |items| => Rewrite(items[i])))
    case Obj(fields) =>
      Obj(map key | key in fields ::
            if key == "$ref" && IsDefsRef(fields[key])
            then ComponentRef(DefsName(fields[key]))
            else Rewrite(fields[key]))
    case _ => v
  }

  /** Every `#/$defs/N` in `v`, at any depth, names a member of `names`. */
  ghost predicate DefsRefsWithin(v: Json, names: set<string>) {
    match v
    case Arr(items) => forall i :: 0 <= i < |items| ==> DefsRefsWithin(items[i], names)
    case Obj(fields) =>
      ("$ref" in fields && IsDefsRef(fields["$ref"]) ==> DefsName(fields["$ref"]) in names) &&
      forall key :: key in fields ==> DefsRefsWithin(fields[key], names)
    case _ => true
  }

  lemma {:induction false} RewriteIdempotent(v: Json)
    ensures Rewrite(Rewrite(v)) == Rewrite(v)
  {
    match v
    case Arr(items) =>
      forall i | 0 <= i < |items| { RewriteIdempotent(items[i]); }
      assert Rewrite(Rewrite(v)).items == Rewrite(v).items;
    case Obj(fields) =>
      forall key | key in fields ensures Rewrite(Rewrite(fields[key])) == Rewrite(fields[key]) {
        RewriteIdempotent(fields[key]);
      }
      assert Rewrite(Rewrite(v)).fields == Rewrite(v).fields;
    case _ =>
  }

  lemma {:induction false} RewriteLeavesNoDefsRef(v: Json)
    ensures DefsRefsWithin(Rewrite(v), {})
  {
    match v
    case Arr(items) =>
      forall i | 0 <= i < |items| { RewriteLeavesNoDefsRef(items[i]); }
    case Obj(fields) =>
      forall key | key in fields ensures DefsRefsWithin(Rewrite(fields[key]), {}) {
        RewriteLeavesNoDefsRef(fields[key]);
      }
    case _ =>
  }

  /** The recursive rewrite itself, child by child. */
  method RewriteSchemaRefs(value: Json) returns (rewritten: Json)
    ensures rewritten == Rewrite(value)
    decreases value
  {
    match value
    case Obj(fields) =>
      var members := fields;
      var isRef := "$ref" in fields && IsDefsRef(fields["$ref"]);
      if isRef {
        members := members["$ref" := ComponentRef(DefsName(fields["$ref"]))];
      }
      var remaining := fields.Keys;
      while remaining != {}
        invariant remaining <= fields.Keys == members.Keys
        invariant forall key :: key in fields && key !in remaining ==> members[key] == Rewrite(value).fields[key]
        invariant forall key :: key in remaining && !(isRef && key == "$ref") ==> members[key] == fields[key]
        invariant isRef ==> members["$ref"] == ComponentRef(DefsName(fields["$ref"]))
        decreases remaining
      {
        var key :| key in remaining;
        // A replaced reference is a string, which rewriting leaves alone.
        if !(isRef && key == "$ref") {
          var child := RewriteSchemaRefs(fields[key]);
          members := members[key := child];
        }
        remaining := remaining - {key};
      }
      assert members == Rewrite(value).fields;
      rewritten := Obj(members);
    case Arr(items) =>
      var done := [];
      for i := 0 to |items|
        invariant |done| == i
        invariant forall j :: 0 <= j < i ==> done[j] == Rewrite(items[j])
      {
        var item := RewriteSchemaRefs(items[i]);
        done := done + [item];
      }
      assert done == Rewrite(value).items;
      rewritten := Arr(done);
    case _ =>
      rewritten := value;
  }

  // ----------------------------------------------------------------- hoisting

  /** The definitions hoisting looks at: the object under the root's `$defs`. */
  function Defs(v: Json): (defs: map<string, Json>)
    ensures forall name :: name in defs ==> defs[name] < v
  {
    if v.Obj? && "$defs" in v.fields && v.fields["$defs"].Obj? then v.fields["$defs"].fields else map[]
  }

  /** A schema is an object or a boolean, and so is every definition in it. */
  ghost predicate SchemaShaped(v: Json) {
    (v.Obj? || v.Bool?) && forall name :: name in Defs(v) ==> SchemaShaped(Defs(v)[name])
  }

  /** The form in which a schema is stored: rewritten, and without its definitions. */
  function Stored(v: Json): Json {
    var rewritten := Rewrite(v);
    if rewritten.Obj? then Obj(rewritten.fields - {"$defs"}) else rewritten
  }

  /** Storing loses `$defs` and nothing else; what is kept is rewritten. */
  lemma StoredKeepsMembers(v: Json)
    requires v.Obj?
    ensures Stored(v).Obj? && Stored(v).fields.Keys == v.fields.Keys - {"$defs"}
    ensures forall k :: k in v.fields && k != "$defs" && !(k == "$ref" && IsDefsRef(v.fields[k])) ==>
      Stored(v).fields[k] == Rewrite(v.fields[k])
  {
  }

  /** How references are written, and where the definitions of a schema stand. */
  lemma WrittenForms(v: Json, name: string)
    ensures ComponentRef(name) == Str("#/components/schemas/" + name)
    ensures IsDefsRef(Str("#/$defs/" + name)) && DefsName(Str("#/$defs/" + name)) == name
    ensures v.Obj? && "$defs" in v.fields && v.fields["$defs"].Obj? ==> Defs(v) == v.fields["$defs"].fields
    ensures !v.Obj? || "$defs" !in v.fields || !v.fields["$defs"].Obj? ==> Defs(v) == map[]
  {
  }

  /** `(name, stored)` is one of the definitions nested, at any level, in `v`. */
  ghost predicate Hoisted(v: Json, name: string, stored: Json)
    decreases v, 0
  {
    exists key :: key in Defs(v) && FromDef(Defs(v)[key], key, name, stored)
  }

  ghost predicate FromDef(def: Json, key: string, name: string, stored: Json)
    decreases def, 1
  {
    (key == name && stored == Stored(def)) || Hoisted(def, name, stored)
  }

  /** What hoisting may do to the component map, whatever order it visits definitions in. */
  ghost predicate HoistOutcome(before: map<string, Json>, schema: Json, after: map<string, Json>) {
    (forall n :: n in before ==> n in after && after[n] == before[n]) &&
    (forall n :: n in after && n !in before ==> Hoisted(schema, n, after[n])) &&
    (forall n, stored :: Hoisted(schema, n, stored) ==> n in after)
  }

  ghost predicate InsertOutcome(before: map<string, Json>, name: string, schema: Json, after: map<string, Json>) {
    name in after && after[name] == Stored(schema) &&
    (forall n :: n in before && n != name ==> n in after && after[n] == before[n]) &&
    (forall n :: n in after && n !in before && n != name ==> Hoisted(schema, n, after[n])) &&
    (forall n, stored :: Hoisted(schema, n, stored) ==> n in after)
  }

  /** The outcome of hoisting the definitions named in `done`, and no others yet. */
  ghost predicate HoistedSoFar(before: map<string, Json>, schema: Json, done: set<string>, now: map<string, Json>)
    requires done <= Defs(schema).Keys
  {
    (forall n :: n in before ==> n in now && now[n] == before[n]) &&
    (forall n :: n in now && n !in before ==> Hoisted(schema, n, now[n])) &&
    (forall key, n, stored :: key in done && FromDef(Defs(schema)[key], key, n, stored) ==> n in now)
  }

  lemma HoistOneMore(before: map<string, Json>, schema: Json, done: set<string>, now: map<string, Json>, key: string,
                     nested: map<string, Json>)
    requires done <= Defs(schema).Keys && HoistedSoFar(before, schema, done, now)
    requires key in Defs(schema) && HoistOutcome(now, Defs(schema)[key], nested)
    ensures var next := if key in nested then nested else nested[key := Stored(Defs(schema)[key])];
      HoistedSoFar(before, schema, done + {key}, next)
  {
    var def := Defs(schema)[key];
    var after := if key in nested then nested else nested[key := Stored(def)];
    assert forall n :: n in now ==> n in after && after[n] == now[n];
    forall n | n in after && n !in before ensures Hoisted(schema, n, after[n]) {
      if n !in now {
        assert FromDef(def, key, n, after[n]);
      }
    }
    forall k, n, stored | k in done + {key} && FromDef(Defs(schema)[k], k, n, stored) ensures n in after {
      if k !in done && n != key {
        assert Hoisted(def, n, stored);
      }
    }
  }

  lemma HoistNothing(now: map<string, Json>, schema: Json)
    ensures HoistedSoFar(now, schema, {}, now)
  {
  }

  lemma HoistedAll(before: map<string, Json>, schema: Json, now: map<string, Json>)
    requires HoistedSoFar(before, schema, Defs(schema).Keys, now)
    ensures HoistOutcome(before, schema, now)
  {
  }

  lemma RewriteKeepsDefs(v: Json)
    requires SchemaShaped(v)
    ensures Defs(Rewrite(v)).Keys == Defs(v).Keys
    ensures forall name :: name in Defs(v) ==> Defs(Rewrite(v))[name] == Rewrite(Defs(v)[name])
  {
    if v.Obj? && "$defs" in v.fields {
      assert Rewrite(v).fields["$defs"] == Rewrite(v.fields["$defs"]);
    }
  }

  /** The component map while it is being filled. */
  class ComponentMap {
    var schemas: map<string, Json>

    constructor ()
      ensures schemas == map[]
    {
      schemas := map[];
    }

    /** `origin` is the schema as it stood before an enclosing call rewrote it. */
    method HoistSchemaDefs(schema: Json, ghost origin: Json) returns (stored: Json)
      requires SchemaShaped(origin) && (schema == origin || schema == Rewrite(origin))
      modifies this
      ensures stored == Stored(origin)
      ensures HoistOutcome(old(schemas), origin, schemas)
      decreases origin, 1
    {
      var rewritten := RewriteSchemaRefs(schema);
      RewriteIdempotent(origin);
      RewriteKeepsDefs(origin);
      if !rewritten.Obj? || "$defs" !in rewritten.fields {
        return rewritten;
      }
      var removed := rewritten.fields["$defs"];
      stored := Obj(rewritten.fields - {"$defs"});
      if removed.Obj? {
        HoistEach(removed.fields, origin);
      }
    }

    /** The definitions one by one; each is hoisted in turn, and the first of a name stays. */
    method HoistEach(defs: map<string, Json>, ghost origin: Json)
      requires SchemaShaped(origin) && defs.Keys == Defs(origin).Keys
      requires forall name :: name in defs ==> defs[name] == Rewrite(Defs(origin)[name])
      modifies this
      ensures HoistOutcome(old(schemas), origin, schemas)
      decreases origin, 0
    {
      hide Rewrite, Stored, HoistedSoFar, HoistOutcome, Hoisted;
      HoistNothing(schemas, origin);
      var remaining := defs.Keys;
      assert defs.Keys - remaining == {};
      while remaining != {}
        invariant remaining <= defs.Keys
        invariant HoistedSoFar(old(schemas), origin, defs.Keys - remaining, schemas)
        decreases remaining
      {
        var name :| name in remaining;
        ghost var before := schemas;
        var def := HoistSchemaDefs(defs[name], Defs(origin)[name]);
        HoistOneMore(old(schemas), origin, defs.Keys - remaining, before, name, schemas);
        assert defs.Keys - remaining + {name} == defs.Keys - (remaining - {name});
        if name !in schemas {
          schemas := schemas[name := def];
        }
        remaining := remaining - {name};
      }
      assert defs.Keys - remaining == Defs(origin).Keys;
      HoistedAll(old(schemas), origin, schemas);
    }

    /** `insert_schema`, with the generated schema as an argument. */
    method InsertSchema(name: string, schema: Json)
      requires SchemaShaped(schema)
      modifies this
      ensures InsertOutcome(old(schemas), name, schema, schemas)
    {
      var stored := HoistSchemaDefs(schema, schema);
      schemas := schemas[name := stored];
    }
  }
}
