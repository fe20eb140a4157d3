// `SchemaRegistry`: versioned schemas per event type, the additive-evolution check and the
// payload validator. Which offending field an error names first depends on hash order, so
// errors carry their kind only.
module SchemaRegistryObject {
  import opened Common
  import opened Json

  type Version = n: int | 0 <= n < 0x1_0000_0000 // u32
  type SchemaKey = (string, Version)
  type Schemas = map<SchemaKey, Value>

  datatype ValidationError =
    | InvalidVersion
    | SchemaNotFound(eventType: string, version: Version)
    | InvalidSchema
    | PayloadInvalid
    | BreakingChange

  type Verdict = Result<Unit, ValidationError>

  // ----- What a schema says -----

  function Properties(schema: Value): map<string, Value> {
    match schema.Get("properties")
    case Some(Obj(fields)) => fields
    case _ => map[]
  }

  function RequiredFields(schema: Value): set<string> {
    match schema.Get("required")
    case Some(Arr(names)) => set v | v in names && v.Str? :: v.s
    case _ => {}
  }

  function TypeName(schema: Value): Option<string> {
    match schema.Get("type")
    case Some(v) => v.AsStr()
    case None => None
  }

  predicate IsOpen(schema: Value) {
    match schema.Get("additionalProperties")
    case Some(Bool(b)) => b
    case _ => true
  }

  predicate ShapeOk(schema: Value) {
    && schema.Obj?
    && (schema.Get("properties").Some? ==> schema.Get("properties").value.Obj?)
    && (schema.Get("required").Some? ==>
          schema.Get("required").value.Arr?
          && forall v :: v in schema.Get("required").value.elements ==> v.Str?)
  }

  predicate TypeMatches(expected: string, v: Value) {
    match expected
    case "array" => v.Arr?
    case "boolean" => v.Bool?
    case "integer" => v.Unsigned? || v.Negative?
    case "null" => v.Null?
    case "number" => v.Unsigned? || v.Negative? || v.Float?
    case "object" => v.Obj?
    case "string" => v.Str?
    case _ => false // unsupported schema type
  }

  // ----- What the checks decide -----

  predicate TypeAllows(schema: Value, v: Value) {
    TypeName(schema).Some? ==> TypeMatches(TypeName(schema).value, v)
  }

  predicate HasRequired(schema: Value, fields: map<string, Value>) {
    RequiredFields(schema) <= fields.Keys
  }

  predicate FieldsMatch(schema: Value, fields: map<string, Value>) {
    forall f :: f in Properties(schema) && f in fields ==> TypeAllows(Properties(schema)[f], fields[f])
  }

  predicate NothingExtra(schema: Value, fields: map<string, Value>) {
    IsOpen(schema) || fields.Keys <= Properties(schema).Keys
  }

  predicate Accepts(schema: Value, payload: Value) {
    && TypeAllows(schema, payload)
    && (payload.Obj? ==>
          && HasRequired(schema, payload.fields)
          && FieldsMatch(schema, payload.fields)
          && NothingExtra(schema, payload.fields))
  }

  predicate Keeps(previous: map<string, Value>, next: map<string, Value>, f: string)
    requires f in previous
  {
    f in next && next[f] == previous[f]
  }

  predicate KeepsAll(previous: map<string, Value>, next: map<string, Value>) {
    forall f :: f in previous ==> Keeps(previous, next, f)
  }

  // `next` keeps every property of `previous` as it is and requires nothing new.
  predicate Additive(previous: Value, next: Value) {
    && KeepsAll(Properties(previous), Properties(next))
    && RequiredFields(next) <= RequiredFields(previous)
  }

  function VersionsBelow(schemas: Schemas, eventType: string, version: Version): set<Version> {
    set k | k in schemas && k.0 == eventType && k.1 < version :: k.1
  }

  lemma {:induction false} GreatestExists(s: set<Version>) returns (v: Version)
    requires s != {}
    ensures v in s && forall u :: u in s ==> u <= v
  {
    var x :| x in s;
    if s == {x} {
      v := x;
    } else {
      var rest := GreatestExists(s - {x});
      v := if rest < x then x else rest;
      assert forall u :: u in s ==> u == x || u in s - {x};
    }
  }

  predicate IsLatestBelow(schemas: Schemas, eventType: string, version: Version, v: Version) {
    && (eventType, v) in schemas && v < version
    && forall k :: k in schemas && k.0 == eventType && k.1 < version ==> k.1 <= v
  }

  // The schema of the greatest version below `version`, if there is any.
  function LatestSchemaFor(schemas: Schemas, eventType: string, version: Version): (r: Option<Value>)
    ensures r.None? <==> VersionsBelow(schemas, eventType, version) == {}
    ensures r.Some? ==>
      exists v :: IsLatestBelow(schemas, eventType, version, v) && r.value == schemas[(eventType, v)]
  {
    var below := VersionsBelow(schemas, eventType, version);
    if below == {} then None
    else
      assert exists v :: v in below && forall u :: u in below ==> u <= v by {
        var v := GreatestExists(below);
      }
      var v :| v in below && forall u :: u in below ==> u <= v;
      assert IsLatestBelow(schemas, eventType, version, v) by {
        forall k | k in schemas && k.0 == eventType && k.1 < version ensures k.1 <= v {
          assert k.1 in below;
        }
      }
      Some(schemas[(eventType, v)])
  }

  // What `register` does to the table and answers.
  function Registered(schemas: Schemas, eventType: string, version: Version, schema: Value): (Schemas, Verdict) {
    var previous := LatestSchemaFor(schemas, eventType, version);
    if version == 0 then (schemas, Err(InvalidVersion))
    else if !ShapeOk(schema) then (schemas, Err(InvalidSchema))
    else if previous.Some? && !Additive(previous.value, schema) then (schemas, Err(BreakingChange))
    else (schemas[(eventType, version) := schema], Ok(Unit))
  }

  function Validated(schemas: Schemas, eventType: string, version: Version, payload: Value): Verdict {
    if version == 0 then Err(InvalidVersion)
    else if (eventType, version) !in schemas then Err(SchemaNotFound(eventType, version))
    else if Accepts(schemas[(eventType, version)], payload) then Ok(Unit)
    else Err(PayloadInvalid)
  }

  // ----- The checks as the loops they are -----

  method EnforceAdditivePolicy(previous: Value, next: Value) returns (ok: bool)
    ensures ok <==> Additive(previous, next)
  {
    var previousProperties, nextProperties := Properties(previous), Properties(next);
    var left := previousProperties.Keys;
    while left != {}
      invariant left <= previousProperties.Keys
      invariant forall f :: f in previousProperties && f !in left ==> Keeps(previousProperties, nextProperties, f)
      decreases |left|
    {
      var name :| name in left;
      if !(name in nextProperties && nextProperties[name] == previousProperties[name]) {
        assert !Keeps(previousProperties, nextProperties, name);
        return false;
      }
      left := left - {name};
    }
    assert KeepsAll(previousProperties, nextProperties);
    var unexpected := RequiredFields(next) - RequiredFields(previous);
    assert unexpected == {} <==> forall f :: f in RequiredFields(next) ==> f !in unexpected;
    return unexpected == {};
  }

  method ValidateRequired(schema: Value, fields: map<string, Value>) returns (ok: bool)
    ensures ok <==> HasRequired(schema, fields)
  {
    var left := RequiredFields(schema);
    while left != {}
      invariant left <= RequiredFields(schema)
      invariant RequiredFields(schema) - left <= fields.Keys
      decreases |left|
    {
      var field :| field in left;
      if field !in fields {
        return false;
      }
      left := left - {field};
    }
    return true;
  }

  method ValidateProperties(schema: Value, fields: map<string, Value>) returns (ok: bool)
    ensures ok <==> FieldsMatch(schema, fields)
  {
    var properties := Properties(schema);
    var left := properties.Keys;
    while left != {}
      invariant left <= properties.Keys
      invariant forall f :: f in properties && f !in left && f in fields ==> TypeAllows(properties[f], fields[f])
      decreases |left|
    {
      var field :| field in left;
      left := left - {field};
      if field in fields {
        var expected := TypeName(properties[field]);
        if expected.Some? && !TypeMatches(expected.value, fields[field]) {
          return false;
        }
      }
    }
    return true;
  }

  method ValidateAdditionalProperties(schema: Value, fields: map<string, Value>) returns (ok: bool)
    ensures ok <==> NothingExtra(schema, fields)
  {
    if IsOpen(schema) {
      return true;
    }
    var left := fields.Keys;
    while left != {}
      invariant left <= fields.Keys
      invariant fields.Keys - left <= Properties(schema).Keys
      decreases |left|
    {
      var field :| field in left;
      if field !in Properties(schema) {
        return false;
      }
      left := left - {field};
    }
    return true;
  }

  method ValidateAgainstSchema(schema: Value, payload: Value) returns (ok: bool)
    ensures ok <==> Accepts(schema, payload)
  {
    if !TypeAllows(schema, payload) {
      return false;
    }
    if !payload.Obj? {
      return true;
    }
    ok := ValidateRequired(schema, payload.fields);
    if ok {
      ok := ValidateProperties(schema, payload.fields);
    }
    if ok {
      ok := ValidateAdditionalProperties(schema, payload.fields);
    }
  }

  class SchemaRegistry {
    var schemas: Schemas

    constructor ()
      ensures schemas == map[]
    {
      schemas := map[];
    }

    // A rejected call changes nothing.
    method Register(eventType: string, version: Version, schema: Value) returns (verdict: Verdict)
      modifies this
      ensures (schemas, verdict) == Registered(old(schemas), eventType, version, schema)
      ensures verdict.Err? ==> schemas == old(schemas)
    {
      if version == 0 {
        return Err(InvalidVersion);
      }
      if !ShapeOk(schema) {
        return Err(InvalidSchema);
      }
      var previous := LatestSchemaFor(schemas, eventType, version);
      if previous.Some? {
        var ok := EnforceAdditivePolicy(previous.value, schema);
        if !ok {
          return Err(BreakingChange);
        }
      }
      schemas := schemas[(eventType, version) := schema];
      return Ok(Unit);
    }

    method Validate(eventType: string, version: Version, payload: Value) returns (verdict: Verdict)
      ensures verdict == Validated(schemas, eventType, version, payload)
    {
      if version == 0 {
        return Err(InvalidVersion);
      }
      if (eventType, version) !in schemas {
        return Err(SchemaNotFound(eventType, version));
      }
      var ok := ValidateAgainstSchema(schemas[(eventType, version)], payload);
      return if ok then Ok(Unit) else Err(PayloadInvalid);
    }
  }
}
