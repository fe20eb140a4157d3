// What a registered schema accepts and what `register` refuses, read off the JSON itself.
module SchemaVerdicts {
  import opened Common
  import opened Json
  import opened SchemaRegistryObject

  // ----- What is written in a schema -----

  // The type names that fit a value: section 6.1.1 of JSON Schema Validation, draft 2020-12.
  function TypesOf(v: Value): set<string> {
    match v
    case Null => {"null"}
    case Bool(_) => {"boolean"}
    case Unsigned(_) => {"integer", "number"}
    case Negative(_) => {"integer", "number"}
    case Float(_) => {"number"}
    case Str(_) => {"string"}
    case Arr(_) => {"array"}
    case Obj(_) => {"object"}
  }

  predicate Has(schema: Value, key: string) {
    schema.Obj? && key in schema.fields
  }

  // The schema lists this property.
  predicate Lists(schema: Value, f: string) {
    Has(schema, "properties") && schema.fields["properties"].Obj? && f in schema.fields["properties"].fields
  }

  function Listed(schema: Value, f: string): Value
    requires Lists(schema, f)
  {
    schema.fields["properties"].fields[f]
  }

  predicate Demands(schema: Value, f: string) {
    Has(schema, "required") && schema.fields["required"].Arr? && Str(f) in schema.fields["required"].elements
  }

  predicate RefusesType(schema: Value, v: Value) {
    Has(schema, "type") && schema.fields["type"].Str? && schema.fields["type"].s !in TypesOf(v)
  }

  // additionalProperties is the literal false.
  predicate Closed(schema: Value) {
    Has(schema, "additionalProperties") && schema.fields["additionalProperties"] == Bool(false)
  }

  // ----- Payloads -----

  lemma TypeTable(name: string, v: Value)
    ensures TypeMatches(name, v) <==> name in TypesOf(v)
  {
  }

  lemma ReadOff(schema: Value)
    ensures forall v :: TypeAllows(schema, v) <==> !RefusesType(schema, v)
    ensures forall f :: f in RequiredFields(schema) <==> Demands(schema, f)
    ensures forall f :: f in Properties(schema) <==> Lists(schema, f)
    ensures forall f :: Lists(schema, f) ==> Properties(schema)[f] == Listed(schema, f)
    ensures IsOpen(schema) <==> !Closed(schema)
  {
    forall v ensures TypeAllows(schema, v) <==> !RefusesType(schema, v) {
      if Has(schema, "type") && schema.fields["type"].Str? {
        TypeTable(schema.fields["type"].s, v);
      }
    }
    forall f ensures f in RequiredFields(schema) <==> Demands(schema, f) {
    }
  }

  // A payload is invalid under a registered schema exactly when it has the wrong type or is
  // an object that lacks a required field, has a listed one of the wrong type, or has an
  // unlisted one although additionalProperties is false.
  lemma PayloadRefusedExactly(schemas: Schemas, eventType: string, version: Version, payload: Value)
    requires version != 0 && (eventType, version) in schemas
    ensures
      var schema, verdict := schemas[(eventType, version)], Validated(schemas, eventType, version, payload);
      && verdict in {Ok(Unit), Err(PayloadInvalid)}
      && (verdict == Err(PayloadInvalid) <==>
            || RefusesType(schema, payload)
            || (payload.Obj? &&
                  (|| (exists f :: Demands(schema, f) && f !in payload.fields)
                   || (exists f :: Lists(schema, f) && f in payload.fields
                                   && RefusesType(Listed(schema, f), payload.fields[f]))
                   || (Closed(schema) && exists f :: f in payload.fields && !Lists(schema, f)))))
  {
    var schema := schemas[(eventType, version)];
    ReadOff(schema);
    forall f | Lists(schema, f)
      ensures forall v :: TypeAllows(Listed(schema, f), v) <==> !RefusesType(Listed(schema, f), v)
    {
      ReadOff(Listed(schema, f));
    }
    if payload.Obj? {
      assert HasRequired(schema, payload.fields) <==> forall f :: Demands(schema, f) ==> f in payload.fields.Keys;
      assert FieldsMatch(schema, payload.fields) <==>
             forall f :: Lists(schema, f) && f in payload.fields ==> TypeAllows(Listed(schema, f), payload.fields[f]);
      assert NothingExtra(schema, payload.fields) <==>
             !Closed(schema) || forall f :: f in payload.fields ==> Lists(schema, f);
    }
  }

  lemma UnknownVersionIsRefused(schemas: Schemas, eventType: string, version: Version, payload: Value)
    ensures version == 0 ==> Validated(schemas, eventType, version, payload) == Err(InvalidVersion)
    ensures version != 0 && (eventType, version) !in schemas ==>
      Validated(schemas, eventType, version, payload) == Err(SchemaNotFound(eventType, version))
  {
  }

  // Under a closed schema no object with an unlisted field is valid.
  lemma ClosedRefusesUnlisted(schemas: Schemas, eventType: string, version: Version,
                              fields: map<string, Value>, f: string)
    requires version != 0 && (eventType, version) in schemas && Closed(schemas[(eventType, version)])
    requires f in fields && !Lists(schemas[(eventType, version)], f)
    ensures Validated(schemas, eventType, version, Obj(fields)) == Err(PayloadInvalid)
  {
    PayloadRefusedExactly(schemas, eventType, version, Obj(fields));
  }

  // Under any other, additionalProperties being absent, true or no boolean at all, an
  // unlisted field never makes an object invalid; and it makes one valid only by being
  // required.
  lemma OpenIgnoresUnlisted(schemas: Schemas, eventType: string, version: Version,
                            fields: map<string, Value>, f: string, v: Value)
    requires version != 0 && (eventType, version) in schemas && !Closed(schemas[(eventType, version)])
    requires f !in fields && !Lists(schemas[(eventType, version)], f)
    ensures
      var before := Validated(schemas, eventType, version, Obj(fields));
      var after := Validated(schemas, eventType, version, Obj(fields[f := v]));
      && (before.Ok? ==> after.Ok?)
      && (!Demands(schemas[(eventType, version)], f) ==> before == after)
  {
    var schema := schemas[(eventType, version)];
    ReadOff(schema);
    assert HasRequired(schema, fields) ==> HasRequired(schema, fields[f := v]);
    if !Demands(schema, f) && HasRequired(schema, fields[f := v]) {
      forall g | g in RequiredFields(schema) ensures g in fields.Keys {
        assert g in fields[f := v].Keys;
      }
    }
    forall g | g in Properties(schema) ensures g in fields <==> g in fields[f := v] {
    }
    assert FieldsMatch(schema, fields) <==> FieldsMatch(schema, fields[f := v]);
  }

  // ----- Registration -----

  // A schema must be an object, with an object under "properties" and an array of strings
  // under "required" if it has these keys.
  lemma ShapeRefusedExactly(schemas: Schemas, eventType: string, version: Version, schema: Value)
    ensures Registered(schemas, eventType, version, schema).1 == Err(InvalidVersion) <==> version == 0
    ensures Registered(schemas, eventType, version, schema).1 == Err(InvalidSchema) <==>
      && version != 0
      && (|| !schema.Obj?
          || ("properties" in schema.fields && !schema.fields["properties"].Obj?)
          || ("required" in schema.fields && !schema.fields["required"].Arr?)
          || ("required" in schema.fields && schema.fields["required"].Arr?
              && exists v :: v in schema.fields["required"].elements && !v.Str?))
  {
  }

  // With nothing registered below it, any well-formed schema is accepted, also in place of
  // another of the same version.
  lemma NothingBelowIsAccepted(schemas: Schemas, eventType: string, version: Version, schema: Value)
    requires version != 0 && Registered(schemas, eventType, version, schema).1 != Err(InvalidSchema)
    requires forall k :: k in schemas && k.0 == eventType ==> version <= k.1
    ensures Registered(schemas, eventType, version, schema) == (schemas[(eventType, version) := schema], Ok(Unit))
  {
    assert VersionsBelow(schemas, eventType, version) == {};
  }

  // Otherwise it is compared with the next version below, and refused exactly when it lost a
  // property of that, changed one or newly requires a name.
  lemma BreakingExactly(schemas: Schemas, eventType: string, version: Version, schema: Value, below: Version)
    requires version != 0 && Registered(schemas, eventType, version, schema).1 != Err(InvalidSchema)
    requires (eventType, below) in schemas && below < version
    requires forall k :: k in schemas && k.0 == eventType && k.1 < version ==> k.1 <= below
    ensures
      var previous, result := schemas[(eventType, below)], Registered(schemas, eventType, version, schema);
      var breaking :=
        || (exists f :: Lists(previous, f) && !Lists(schema, f))
        || (exists f :: Lists(previous, f) && Lists(schema, f) && Listed(schema, f) != Listed(previous, f))
        || (exists f :: Demands(schema, f) && !Demands(previous, f));
      result == if breaking then (schemas, Err(BreakingChange))
                else (schemas[(eventType, version) := schema], Ok(Unit))
  {
    var previous := schemas[(eventType, below)];
    assert LatestSchemaFor(schemas, eventType, version) == Some(previous) by {
      assert below in VersionsBelow(schemas, eventType, version);
      var v :| IsLatestBelow(schemas, eventType, version, v)
               && LatestSchemaFor(schemas, eventType, version).value == schemas[(eventType, v)];
      assert (eventType, v).1 == v && (eventType, below).1 == below;
    }
    ReadOff(previous);
    ReadOff(schema);
    assert KeepsAll(Properties(previous), Properties(schema)) <==>
           forall f :: Lists(previous, f) ==> Keeps(Properties(previous), Properties(schema), f);
    assert forall f :: Lists(previous, f) ==>
      (Keeps(Properties(previous), Properties(schema), f) <==>
         Lists(schema, f) && Listed(schema, f) == Listed(previous, f));
  }
}
