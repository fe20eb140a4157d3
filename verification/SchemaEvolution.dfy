// What the additive policy guarantees about chains of versions and about payloads.
module SchemaEvolution {
  import opened Common
  import opened Json
  import opened SchemaRegistryObject
  import opened SchemaVerdicts

  // ----- Chains of versions -----

  // Additivity is a preorder.
  lemma AdditiveIsPreorder(a: Value, b: Value, c: Value)
    ensures Additive(a, a)
    ensures Additive(a, b) && Additive(b, c) ==> Additive(a, c)
  {
    if Additive(a, b) && Additive(b, c) {
      forall f | f in Properties(a) ensures Keeps(Properties(a), Properties(c), f) {
        assert Keeps(Properties(a), Properties(b), f);
        assert Keeps(Properties(b), Properties(c), f);
      }
    }
  }

  // Every earlier version is additively extended by every later one, neighbours or not.
  ghost predicate AllAdditive(schemas: Schemas) {
    forall k, l :: k in schemas && l in schemas && k.0 == l.0 && k.1 < l.1 ==> Additive(schemas[k], schemas[l])
  }

  predicate IsNextAbove(schemas: Schemas, eventType: string, version: Version, w: Version) {
    && (eventType, w) in schemas && version < w
    && forall k :: k in schemas && k.0 == eventType && version < k.1 ==> w <= k.1
  }

  // The check `register` does not make: against the next registered version above.
  predicate FitsNextAbove(schemas: Schemas, eventType: string, version: Version, schema: Value) {
    forall k :: k in schemas && k.0 == eventType && IsNextAbove(schemas, eventType, version, k.1)
                ==> Additive(schema, schemas[k])
  }

  lemma {:induction false} LeastExists(s: set<Version>) returns (v: Version)
    requires s != {}
    ensures v in s && forall u :: u in s ==> v <= u
  {
    var x :| x in s;
    if s == {x} {
      v := x;
    } else {
      var rest := LeastExists(s - {x});
      v := if x < rest then x else rest;
      assert forall u :: u in s ==> u == x || u in s - {x};
    }
  }

  lemma FitsAllAbove(schemas: Schemas, eventType: string, version: Version, schema: Value, l: SchemaKey)
    requires AllAdditive(schemas) && FitsNextAbove(schemas, eventType, version, schema)
    requires l in schemas && l.0 == eventType && version < l.1
    ensures Additive(schema, schemas[l])
  {
    var above := set k | k in schemas && k.0 == eventType && version < k.1 :: k.1;
    assert l.1 in above;
    var w := LeastExists(above);
    assert IsNextAbove(schemas, eventType, version, w) by {
      forall k | k in schemas && k.0 == eventType && version < k.1 ensures w <= k.1 {
        assert k.1 in above;
      }
    }
    assert (eventType, w).0 == eventType && (eventType, w).1 == w;
    AdditiveIsPreorder(schema, schemas[(eventType, w)], schemas[l]);
  }

  lemma FitsAllBelow(schemas: Schemas, eventType: string, version: Version, schema: Value, k: SchemaKey)
    requires AllAdditive(schemas) && Registered(schemas, eventType, version, schema).1.Ok?
    requires k in schemas && k.0 == eventType && k.1 < version
    ensures Additive(schemas[k], schema)
  {
    assert k.1 in VersionsBelow(schemas, eventType, version);
    var latest := LatestSchemaFor(schemas, eventType, version).value;
    var v :| IsLatestBelow(schemas, eventType, version, v) && latest == schemas[(eventType, v)];
    assert (eventType, v).0 == eventType && (eventType, v).1 == v;
    AdditiveIsPreorder(schemas[k], latest, schema);
  }

  // An accepted registration keeps all versions of all types additive exactly when the new
  // schema also fits the next version above it, which `register` never looks at: a version
  // may be added below others, or overwritten.
  lemma RegisterExact(schemas: Schemas, eventType: string, version: Version, schema: Value)
    requires AllAdditive(schemas)
    requires Registered(schemas, eventType, version, schema).1.Ok?
    ensures AllAdditive(Registered(schemas, eventType, version, schema).0)
            <==> FitsNextAbove(schemas, eventType, version, schema)
  {
    var key, after := (eventType, version), schemas[(eventType, version) := schema];
    if FitsNextAbove(schemas, eventType, version, schema) {
      forall k, l | k in after && l in after && k.0 == l.0 && k.1 < l.1 ensures Additive(after[k], after[l]) {
        if k == key {
          FitsAllAbove(schemas, eventType, version, schema, l);
        } else if l == key {
          FitsAllBelow(schemas, eventType, version, schema, k);
        }
      }
    }
    if AllAdditive(after) {
      forall k | k in schemas && k.0 == eventType && IsNextAbove(schemas, eventType, version, k.1)
        ensures Additive(schema, schemas[k])
      {
        assert key in after && k in after && after[key] == schema && after[k] == schemas[k];
      }
    }
  }

  datatype Call = Call(eventType: string, version: Version, schema: Value)

  function After(calls: seq<Call>): Schemas {
    if calls == [] then map[]
    else
      var c := calls[|calls| - 1];
      Registered(After(calls[..|calls| - 1]), c.eventType, c.version, c.schema).0
  }

  predicate Increasing(calls: seq<Call>) {
    forall i, j :: 0 <= i < j < |calls| && calls[i].eventType == calls[j].eventType
                   ==> calls[i].version < calls[j].version
  }

  lemma {:induction false} RegisteredWasCalled(calls: seq<Call>, k: SchemaKey)
    requires k in After(calls)
    ensures exists i :: 0 <= i < |calls| && (calls[i].eventType, calls[i].version) == k
  {
    if calls != [] {
      var before, c := calls[..|calls| - 1], calls[|calls| - 1];
      if k in After(before) {
        RegisteredWasCalled(before, k);
        var i :| 0 <= i < |before| && (before[i].eventType, before[i].version) == k;
        assert calls[i] == before[i];
      } else {
        assert (calls[|calls| - 1].eventType, calls[|calls| - 1].version) == k;
      }
    }
  }

  // Any run of `register` calls, accepted or rejected, whose versions increase per event
  // type leaves every earlier/later pair of registered versions additive.
  lemma {:induction false} IncreasingRunsStayAdditive(calls: seq<Call>)
    requires Increasing(calls)
    ensures AllAdditive(After(calls))
  {
    if calls != [] {
      var before, c := calls[..|calls| - 1], calls[|calls| - 1];
      IncreasingRunsStayAdditive(before);
      var schemas := After(before);
      if Registered(schemas, c.eventType, c.version, c.schema).1.Ok? {
        forall k | k in schemas && k.0 == c.eventType ensures k.1 < c.version {
          RegisteredWasCalled(before, k);
          var i :| 0 <= i < |before| && (before[i].eventType, before[i].version) == k;
          assert calls[i] == before[i];
        }
        RegisterExact(schemas, c.eventType, c.version, c.schema);
      }
    }
  }

  // A schema with one string property.
  function OneString(name: string): Value {
    Obj(map["properties" := Obj(map[name := Obj(map["type" := Str("string")])])])
  }

  // Out of order the guarantee fails: version 1 is registered after version 2, and accepted,
  // although version 2 dropped its property.
  lemma OutOfOrderBreaksTheChain(eventType: string)
    ensures
      var calls := [Call(eventType, 2, OneString("b")), Call(eventType, 1, OneString("a"))];
      && (eventType, 1) in After(calls) && (eventType, 2) in After(calls)
      && !AllAdditive(After(calls))
  {
    var calls := [Call(eventType, 2, OneString("b")), Call(eventType, 1, OneString("a"))];
    assert calls[..1] == [calls[0]] && calls[..1][..0] == [];
    assert After(calls[..1][..0]) == map[];
    assert VersionsBelow(map[], eventType, 2) == {};
    var first := After(calls[..1]);
    assert first == map[(eventType, 2) := OneString("b")];
    assert VersionsBelow(first, eventType, 1) == {};
    assert After(calls) == first[(eventType, 1) := OneString("a")];
    assert "a" in Properties(OneString("a")) && "a" !in Properties(OneString("b"));
    assert !Keeps(Properties(OneString("a")), Properties(OneString("b")), "a");
    var k, l := (eventType, 1), (eventType, 2);
    assert !Additive(After(calls)[k], After(calls)[l]);
  }

  // ----- Payloads -----

  // Between closed schemas of one type, whatever the earlier version accepts the later one
  // accepts too.
  lemma ClosedAndAdditiveIsCompatible(previous: Value, next: Value, payload: Value)
    requires Additive(previous, next) && TypeName(previous) == TypeName(next)
    requires Closed(previous)
    requires Accepts(previous, payload)
    ensures Accepts(next, payload)
  {
    ReadOff(previous);
    if payload.Obj? {
      var fields := payload.fields;
      forall f | f in Properties(next) && f in fields ensures TypeAllows(Properties(next)[f], fields[f]) {
        assert Keeps(Properties(previous), Properties(next), f);
      }
      forall f | f in fields.Keys ensures f in Properties(next).Keys {
        assert Keeps(Properties(previous), Properties(next), f);
      }
    }
  }

  // Across a whole chain: if the versions of a type were registered in increasing order,
  // share their top-level type and are all closed, a payload valid under one version is
  // valid under every later version.
  lemma ClosedChainIsCompatible(calls: seq<Call>, eventType: string, v: Version, w: Version, payload: Value)
    requires Increasing(calls) && v < w
    requires forall k, l :: k in After(calls) && l in After(calls) && k.0 == l.0 == eventType ==>
      Closed(After(calls)[k]) && TypeName(After(calls)[k]) == TypeName(After(calls)[l])
    requires (eventType, w) in After(calls)
    requires Validated(After(calls), eventType, v, payload).Ok?
    ensures Validated(After(calls), eventType, w, payload).Ok?
  {
    IncreasingRunsStayAdditive(calls);
    var schemas, k, l := After(calls), (eventType, v), (eventType, w);
    assert k.0 == l.0 == eventType && k.1 < l.1;
    ClosedAndAdditiveIsCompatible(schemas[k], schemas[l], payload);
  }

  // ----- The exact condition, for any two schemas -----

  // One payload of every kind that is not an object.
  const SAMPLES: seq<Value> := [Null, Bool(true), Unsigned(0), Float(0.5), Str(""), Arr([])]

  function SampleOf(v: Value): Value
    requires !v.Obj?
  {
    match v
    case Null => SAMPLES[0]
    case Bool(_) => SAMPLES[1]
    case Unsigned(_) => SAMPLES[2]
    case Negative(_) => SAMPLES[2]
    case Float(_) => SAMPLES[3]
    case Str(_) => SAMPLES[4]
    case Arr(_) => SAMPLES[5]
  }

  // The type keyword of `next` still allows what that of `previous` allows.
  predicate WidensType(previous: Value, next: Value) {
    forall s :: s in SAMPLES && TypeAllows(previous, s) ==> TypeAllows(next, s)
  }

  predicate Supported(name: string) {
    name in ["array", "boolean", "integer", "null", "number", "object", "string"]
  }

  // Some object is valid under the schema: its required fields can all be filled.
  predicate AcceptsSomeObject(schema: Value) {
    && TypeAllows(schema, Obj(map[]))
    && forall f :: f in RequiredFields(schema) ==>
         && (f in Properties(schema) ==>
               TypeName(Properties(schema)[f]).Some? ==> Supported(TypeName(Properties(schema)[f]).value))
         && (!IsOpen(schema) ==> f in Properties(schema))
  }

  ghost predicate AcceptsWhatever(previous: Value, next: Value) {
    forall p :: Accepts(previous, p) ==> Accepts(next, p)
  }

  lemma SameKindSameVerdict(schema: Value, v: Value)
    ensures v.Obj? ==> TypeAllows(schema, v) == TypeAllows(schema, Obj(map[]))
    ensures !v.Obj? ==> TypeAllows(schema, v) == TypeAllows(schema, SampleOf(v)) && SampleOf(v) in SAMPLES
  {
  }

  // What the schema says of a field: nothing, if it does not list it.
  function PropertyOf(schema: Value, f: string): Value {
    if f in Properties(schema) then Properties(schema)[f] else Obj(map[])
  }

  // Payloads may have this field, its type permitting.
  predicate MayOccur(schema: Value, f: string) {
    f in Properties(schema) || IsOpen(schema)
  }

  // One value of every kind.
  const KINDS: seq<Value> := SAMPLES + [Obj(map[])]

  predicate Widens(previous: Value, next: Value) {
    forall s :: s in KINDS && TypeAllows(previous, s) ==> TypeAllows(next, s)
  }

  predicate Fillable(property: Value) {
    exists s :: s in KINDS && TypeAllows(property, s)
  }

  // What holds of some object that the earlier schema accepts holds under the later one:
  // nothing new is required, no field is refused, and no type is narrower.
  predicate WidensObjects(previous: Value, next: Value) {
    && TypeAllows(next, Obj(map[]))
    && RequiredFields(next) <= RequiredFields(previous)
    && (IsOpen(previous) ==> IsOpen(next))
    && (!IsOpen(next) ==>
          forall f :: f in Properties(previous) && Fillable(Properties(previous)[f]) ==> f in Properties(next))
    && (forall f :: f in Properties(next) && MayOccur(previous, f) ==>
          Widens(PropertyOf(previous, f), Properties(next)[f]))
  }

  predicate WidensSchema(previous: Value, next: Value) {
    && WidensType(previous, next)
    && (AcceptsSomeObject(previous) ==> WidensObjects(previous, next))
  }

  lemma KindDecides(v: Value) returns (s: Value)
    ensures s in KINDS && forall schema :: TypeAllows(schema, s) == TypeAllows(schema, v)
  {
    s := if v.Obj? then Obj(map[]) else SampleOf(v);
    assert v.Obj? ==> KINDS[|SAMPLES|] == s;
    forall schema ensures TypeAllows(schema, s) == TypeAllows(schema, v) {
      SameKindSameVerdict(schema, v);
    }
  }

  lemma AcceptedObjectShows(schema: Value, p: Value)
    requires p.Obj? && Accepts(schema, p)
    ensures AcceptsSomeObject(schema)
  {
    SameKindSameVerdict(schema, p);
    forall f | f in RequiredFields(schema) && f in Properties(schema) && TypeName(Properties(schema)[f]).Some?
      ensures Supported(TypeName(Properties(schema)[f]).value)
    {
      assert f in p.fields && TypeAllows(Properties(schema)[f], p.fields[f]);
    }
  }

  lemma WiderIsEnough(previous: Value, next: Value, p: Value)
    requires WidensSchema(previous, next) && Accepts(previous, p)
    ensures Accepts(next, p)
  {
    SameKindSameVerdict(previous, p);
    SameKindSameVerdict(next, p);
    if p.Obj? {
      AcceptedObjectShows(previous, p);
      var fields := p.fields;
      forall f | f in Properties(next) && f in fields ensures TypeAllows(Properties(next)[f], fields[f]) {
        var s := KindDecides(fields[f]);
        assert f in fields.Keys && MayOccur(previous, f);
      }
      if !IsOpen(next) {
        forall f | f in fields.Keys ensures f in Properties(next).Keys {
          var s := KindDecides(fields[f]);
        }
      }
    }
  }

  // ----- Payloads that witness the necessity -----

  function Example(name: string): Value {
    match name
    case "array" => Arr([])
    case "boolean" => Bool(true)
    case "integer" => Unsigned(0)
    case "number" => Unsigned(0)
    case "object" => Obj(map[])
    case "string" => Str("")
    case _ => Null
  }

  function Fill(schema: Value, f: string): Value {
    if f in Properties(schema) && TypeName(Properties(schema)[f]).Some?
    then Example(TypeName(Properties(schema)[f]).value) else Null
  }

  // An object with just the required fields.
  function Filled(schema: Value): map<string, Value> {
    map f | f in RequiredFields(schema) :: Fill(schema, f)
  }

  lemma FilledIsAccepted(schema: Value, f: string, v: Value)
    requires AcceptsSomeObject(schema)
    ensures Accepts(schema, Obj(Filled(schema)))
    ensures MayOccur(schema, f) && TypeAllows(PropertyOf(schema, f), v) ==>
      Accepts(schema, Obj(Filled(schema)[f := v]))
  {
    SameKindSameVerdict(schema, Obj(Filled(schema)));
    SameKindSameVerdict(schema, Obj(Filled(schema)[f := v]));
    forall g | g in RequiredFields(schema) && g in Properties(schema)
      ensures TypeAllows(Properties(schema)[g], Fill(schema, g))
    {
    }
  }

  lemma {:induction false} LongerThanAll(names: set<string>) returns (n: nat)
    ensures forall f :: f in names ==> |f| < n
  {
    if names == {} {
      n := 0;
    } else {
      var x :| x in names;
      var rest := LongerThanAll(names - {x});
      n := Max(rest, |x| + 1);
      assert forall f :: f in names ==> f == x || f in names - {x};
    }
  }

  lemma FreshName(names: set<string>) returns (f: string)
    ensures f !in names
  {
    var n := LongerThanAll(names);
    f := seq(n, i => 'x');
  }

  lemma WiderIsNecessary(previous: Value, next: Value)
    requires AcceptsWhatever(previous, next)
    ensures WidensSchema(previous, next)
  {
    forall s | s in SAMPLES && TypeAllows(previous, s) ensures TypeAllows(next, s) {
      assert Accepts(previous, s);
    }
    if AcceptsSomeObject(previous) {
      FilledIsAccepted(previous, "", Null);
      var p := Obj(Filled(previous));
      assert Accepts(next, p);
      SameKindSameVerdict(next, p);
      if IsOpen(previous) && !IsOpen(next) {
        var extra := FreshName(Properties(previous).Keys + Properties(next).Keys);
        FieldIsTaken(previous, next, extra, Null);
      }
      forall f | f in RequiredFields(next) ensures f in RequiredFields(previous) {
        assert f in Filled(previous).Keys;
      }
      forall f | f in Properties(previous) && Fillable(Properties(previous)[f]) && !IsOpen(next)
        ensures f in Properties(next)
      {
        var s :| s in KINDS && TypeAllows(Properties(previous)[f], s);
        FieldIsTaken(previous, next, f, s);
      }
      forall f | f in Properties(next) && MayOccur(previous, f)
        ensures Widens(PropertyOf(previous, f), Properties(next)[f])
      {
        forall s | s in KINDS && TypeAllows(PropertyOf(previous, f), s) ensures TypeAllows(Properties(next)[f], s) {
          FieldIsTaken(previous, next, f, s);
        }
      }
    }
  }

  // A field value that the earlier schema accepts in some object the later one accepts.
  lemma FieldIsTaken(previous: Value, next: Value, f: string, v: Value)
    requires AcceptsWhatever(previous, next) && AcceptsSomeObject(previous)
    requires MayOccur(previous, f) && TypeAllows(PropertyOf(previous, f), v)
    ensures f in Properties(next) ==> TypeAllows(Properties(next)[f], v)
    ensures !IsOpen(next) ==> f in Properties(next)
  {
    FilledIsAccepted(previous, f, v);
    var q := Obj(Filled(previous)[f := v]);
    assert Accepts(next, q) && f in q.fields.Keys && q.fields[f] == v;
  }

  // For any two schemas, additive or not: the later accepts whatever the earlier accepts
  // exactly when it widens it, which is read off the two schemas.
  lemma AcceptanceExact(previous: Value, next: Value)
    ensures AcceptsWhatever(previous, next) <==> WidensSchema(previous, next)
  {
    if WidensSchema(previous, next) {
      forall p | Accepts(previous, p) ensures Accepts(next, p) {
        WiderIsEnough(previous, next, p);
      }
    }
    if AcceptsWhatever(previous, next) {
      WiderIsNecessary(previous, next);
    }
  }

  // ----- And for additive versions -----

  // An open schema must stay open, and its new properties may not constrain their type.
  predicate KeepsOpen(previous: Value, next: Value) {
    && IsOpen(next)
    && forall f :: f in Properties(next) && f !in Properties(previous) ==> TypeName(Properties(next)[f]).None?
  }

  predicate CompatibleSchemas(previous: Value, next: Value) {
    && WidensType(previous, next)
    && (AcceptsSomeObject(previous) ==>
          && TypeAllows(next, Obj(map[]))
          && (IsOpen(previous) ==> KeepsOpen(previous, next)))
  }

  lemma UntypedTakesEveryKind(property: Value)
    ensures TypeName(property).None? <==> forall s :: s in KINDS ==> TypeAllows(property, s)
  {
    assert KINDS[0] == Null && KINDS[1] == Bool(true);
    assert Null in KINDS && Bool(true) in KINDS;
  }

  lemma AdditiveWidensObjects(previous: Value, next: Value)
    requires Additive(previous, next)
    ensures WidensObjects(previous, next) <==>
            TypeAllows(next, Obj(map[])) && (IsOpen(previous) ==> KeepsOpen(previous, next))
  {
    forall f | f in Properties(previous) ensures Keeps(Properties(previous), Properties(next), f) {
    }
    assert forall f :: f in Properties(previous) ==> Widens(PropertyOf(previous, f), Properties(next)[f]);
    forall f | f in Properties(next) && f !in Properties(previous)
      ensures Widens(PropertyOf(previous, f), Properties(next)[f]) <==> TypeName(Properties(next)[f]).None?
    {
      UntypedTakesEveryKind(PropertyOf(previous, f));
      UntypedTakesEveryKind(Properties(next)[f]);
    }
  }

  // Between additive versions, the later one accepts whatever the earlier one accepts
  // exactly when the type keyword is no narrower and, if any object is valid at all, an
  // open schema stays open and adds no typed property.
  lemma CompatibilityExact(previous: Value, next: Value)
    requires Additive(previous, next)
    ensures AcceptsWhatever(previous, next) <==> CompatibleSchemas(previous, next)
  {
    AcceptanceExact(previous, next);
    AdditiveWidensObjects(previous, next);
  }

  // The policy alone does not give compatibility: an open schema gains a typed property,
  // additively, and a payload that used that name for something else is now refused.
  lemma AdditiveIsNotCompatible()
    ensures
      var previous, next, payload := Obj(map[]), OneString("a"), Obj(map["a" := Null]);
      && ShapeOk(previous) && ShapeOk(next) && Additive(previous, next)
      && Accepts(previous, payload) && !Accepts(next, payload)
  {
    var next, payload := OneString("a"), Obj(map["a" := Null]);
    assert "a" in Properties(next) && "a" in payload.fields;
    assert !TypeAllows(Properties(next)["a"], payload.fields["a"]);
  }

  // ----- Overwriting a version -----

  // Registering a version again may take back verdicts already given for it. An accepted
  // overwrite keeps every earlier Ok of that version exactly when the new schema widens the
  // one it replaces, which `register` does not look at.
  lemma OverwriteExact(schemas: Schemas, eventType: string, version: Version, schema: Value)
    requires (eventType, version) in schemas
    requires Registered(schemas, eventType, version, schema).1.Ok?
    ensures
      var after := Registered(schemas, eventType, version, schema).0;
      (forall p :: Validated(schemas, eventType, version, p).Ok? ==> Validated(after, eventType, version, p).Ok?)
      <==> WidensSchema(schemas[(eventType, version)], schema)
  {
    var previous, after := schemas[(eventType, version)], Registered(schemas, eventType, version, schema).0;
    forall p ensures Validated(schemas, eventType, version, p).Ok? <==> Accepts(previous, p)
      ensures Validated(after, eventType, version, p).Ok? <==> Accepts(schema, p)
    {
    }
    AcceptanceExact(previous, schema);
  }

  // Two accepted calls for one version, with all pairs of versions additive throughout, and
  // a payload valid after the first and invalid after the second.
  lemma OverwriteRefusesOldPayload(eventType: string)
    ensures
      var first := [Call(eventType, 1, Obj(map[]))];
      var both := first + [Call(eventType, 1, OneString("a"))];
      var payload := Obj(map["a" := Null]);
      && AllAdditive(After(first)) && AllAdditive(After(both))
      && Registered(After(first), eventType, 1, OneString("a")).1.Ok?
      && Validated(After(first), eventType, 1, payload) == Ok(Unit)
      && Validated(After(both), eventType, 1, payload) == Err(PayloadInvalid)
  {
    var key := (eventType, 1);
    var first := [Call(eventType, 1, Obj(map[]))];
    var both := first + [Call(eventType, 1, OneString("a"))];
    assert first[..0] == [] && both[..1] == first;
    assert After([]) == map[];
    assert VersionsBelow(map[], eventType, 1) == {};
    assert After(first) == map[key := Obj(map[])];
    assert VersionsBelow(After(first), eventType, 1) == {};
    assert After(both) == map[key := OneString("a")];
    AdditiveIsNotCompatible();
  }

  // What is refused, exactly: with a version below, a well-formed schema is a breaking change
  // if and only if it lost a property, changed one or newly requires a name. And it does not
  // matter which names it no longer requires.
  lemma RefusedExactly(schemas: Schemas, eventType: string, version: Version, schema: Value)
    requires version != 0 && ShapeOk(schema)
    requires VersionsBelow(schemas, eventType, version) != {}
    ensures LatestSchemaFor(schemas, eventType, version).Some?
    ensures
      var previous := LatestSchemaFor(schemas, eventType, version).value;
      Registered(schemas, eventType, version, schema).1 == Err(BreakingChange) <==>
        || (exists f :: f in Properties(previous) && f !in Properties(schema))
        || (exists f :: f in Properties(previous) && f in Properties(schema)
                        && Properties(schema)[f] != Properties(previous)[f])
        || (exists name :: name in RequiredFields(schema) && name !in RequiredFields(previous))
  {
    var previous := LatestSchemaFor(schemas, eventType, version).value;
    if !KeepsAll(Properties(previous), Properties(schema)) {
      var f :| f in Properties(previous) && !Keeps(Properties(previous), Properties(schema), f);
    } else {
      forall f | f in Properties(previous)
        ensures f in Properties(schema) && Properties(schema)[f] == Properties(previous)[f]
      {
        assert Keeps(Properties(previous), Properties(schema), f);
      }
    }
  }

  lemma DroppingRequirementsIsNeverRefused(schemas: Schemas, eventType: string, version: Version,
                                           schema: Value, fewer: Value)
    requires Registered(schemas, eventType, version, schema).1.Ok?
    requires ShapeOk(fewer) && Properties(fewer) == Properties(schema)
    requires RequiredFields(fewer) <= RequiredFields(schema)
    ensures Registered(schemas, eventType, version, fewer).1.Ok?
  {
  }

  // A later version may drop a name from `required`: the registry refuses only additions.
  lemma DroppingARequirementIsAccepted(eventType: string, f: string)
    ensures
      var strict := Obj(map["required" := Arr([Str(f)])]);
      var first := [Call(eventType, 1, strict)];
      && (eventType, 1) in After(first) && f in RequiredFields(strict) && f !in RequiredFields(Obj(map[]))
      && Registered(After(first), eventType, 2, Obj(map[])).1.Ok?
      && (eventType, 2) in After(first + [Call(eventType, 2, Obj(map[]))])
  {
    var strict := Obj(map["required" := Arr([Str(f)])]);
    var first := [Call(eventType, 1, strict)];
    var both := first + [Call(eventType, 2, Obj(map[]))];
    assert first[..0] == [] && both[..1] == first;
    assert After([]) == map[];
    assert VersionsBelow(map[], eventType, 1) == {};
    assert After(first) == map[(eventType, 1) := strict];
    assert strict.fields["required"].elements[0] == Str(f);
  }
}
