/** The schema contract checker (`app/schema_contracts.py`) against a flat, location-based
    reading of the JSON Schema subset it supports. */
module SchemaContracts {
  import opened Basics
  import opened Json

  datatype Step = Key(key: string) | Index(index: nat)
  type Location = seq<Step>

  datatype Keyword =
    | TypeKw
    | EnumKw
    | RequiredKw(missing: string)
    | AdditionalKw(unexpected: string)
    | MinItems | MaxItems
    | MinLength | MaxLength
    | Minimum | Maximum | ExclusiveMinimum | ExclusiveMaximum

  datatype Violation = Violation(at: Location, keyword: Keyword)

  // ---------- What one keyword of one subschema says about one value ----------

  /** The `_TYPE_CHECKS` table; a type name it does not know accepts every value. */
  predicate HasType(name: string, v: Value) {
    if name == "object" then v.Obj?
    else if name == "array" then v.Arr?
    else if name == "string" then v.Str?
    else if name == "number" then v.IsNumber()
    else if name == "integer" then v.Int?
    else if name == "boolean" then v.Bool?
    else if name == "null" then v.Null?
    else true
  }

  /** A bound that is an `int`; Python counts a boolean as one. */
  function IntBound(s: Value, name: string): Option<int> {
    match s.Get(name)
    case Int(i) => Some(i)
    case Bool(b) => Some(if b then 1 else 0)
    case _ => None
  }

  function Required(s: Value): seq<Value> {
    var r := s.Get("required");
    if r.Arr? then r.items else []
  }

  /** `schema.get("properties") or {}`, when the outcome is a dictionary. */
  function Properties(s: Value): Option<map<string, Value>> {
    var p := s.Get("properties");
    if !p.Truthy() then Some(map[]) else if p.Obj? then Some(p.fields) else None
  }

  predicate InEnum(v: Value, allowed: seq<Value>) {
    exists i | 0 <= i < |allowed| :: PyEq(v, allowed[i])
  }

  /** Keyword `kw` of subschema `s` is violated by `v` itself, children not considered. */
  predicate Breaks(v: Value, s: Value, kw: Keyword) {
    match kw
    case TypeKw => s.Get("type").Str? && !HasType(s.Get("type").s, v)
    case EnumKw => s.Get("enum").Arr? && !InEnum(v, s.Get("enum").items)
    case RequiredKw(k) => v.Obj? && Str(k) in Required(s) && k !in v.fields
    case AdditionalKw(k) =>
      && v.Obj? && k in v.fields
      && s.Get("additionalProperties") == Bool(false)
      && Properties(s).Some? && k !in Properties(s).value
    case MinItems => v.Arr? && IntBound(s, "minItems").Some? && |v.items| < IntBound(s, "minItems").value
    case MaxItems => v.Arr? && IntBound(s, "maxItems").Some? && |v.items| > IntBound(s, "maxItems").value
    case MinLength => v.Str? && IntBound(s, "minLength").Some? && |v.s| < IntBound(s, "minLength").value
    case MaxLength => v.Str? && IntBound(s, "maxLength").Some? && |v.s| > IntBound(s, "maxLength").value
    case Minimum => HasBound(v, s, "minimum") && Gap(v, s, "minimum") < 0.0
    case Maximum => HasBound(v, s, "maximum") && Gap(v, s, "maximum") > 0.0
    case ExclusiveMinimum => HasBound(v, s, "exclusiveMinimum") && Gap(v, s, "exclusiveMinimum") <= 0.0
    case ExclusiveMaximum => HasBound(v, s, "exclusiveMaximum") && Gap(v, s, "exclusiveMaximum") >= 0.0
  }

  /** A number meets a numeric bound; the bound, unlike the number, may be a boolean. */
  predicate HasBound(v: Value, s: Value, name: string) {
    v.IsNumber() && s.Get(name).Numeric().Some?
  }

  /** How far the number lies above the bound. */
  function Gap(v: Value, s: Value, name: string): real
    requires HasBound(v, s, name)
  {
    v.Numeric().value - s.Get(name).Numeric().value
  }

  // ---------- The specification: every location reachable in value and schema ----------

  /** One step down, taken in the value and in the schema together. */
  function Child(v: Value, s: Value, step: Step): (r: Option<(Value, Value)>)
    ensures r.Some? ==> r.value.0 < v && r.value.1 < s
  {
    match step
    case Key(k) =>
      var p := Properties(s);
      if v.Obj? && k in v.fields && p.Some? && k in p.value && p.value[k].Obj?
      then Some((v.fields[k], p.value[k])) else None
    case Index(i) =>
      if v.Arr? && i < |v.items| && s.Get("items").Obj?
      then Some((v.items[i], s.Get("items"))) else None
  }

  /** The value and the subschema paired with a location, if it is reachable. */
  function Resolve(v: Value, s: Value, loc: Location): Option<(Value, Value)>
    decreases |loc|
  {
    if loc == [] then Some((v, s))
    else
      match Child(v, s, loc[0])
      case None => None
      case Some((v', s')) => Resolve(v', s', loc[1..])
  }

  predicate BreaksAt(v: Value, s: Value, loc: Location, kw: Keyword) {
    var r := Resolve(v, s, loc);
    r.Some? && Breaks(r.value.0, r.value.1, kw)
  }

  /** No reachable location violates any supported keyword. */
  ghost predicate Conforms(v: Value, s: Value) {
    forall loc, kw :: !BreaksAt(v, s, loc, kw)
  }

  /** Every node strictly above the location has the type its subschema asks for. */
  ghost predicate AncestorsTyped(v: Value, s: Value, loc: Location) {
    forall n | 0 <= n < |loc| :: !BreaksAt(v, s, loc[..n], TypeKw)
  }

  /** What is worth reporting: a violation none of whose ancestors has the wrong type, and
      at a node of the wrong type nothing but that. */
  ghost predicate Reported(v: Value, s: Value, loc: Location, kw: Keyword) {
    && BreaksAt(v, s, loc, kw)
    && AncestorsTyped(v, s, loc)
    && (kw == TypeKw || !BreaksAt(v, s, loc, TypeKw))
  }

  /** The violations a caller sees when `path` names the root. */
  ghost predicate ReportedUnder(v: Value, s: Value, path: Location, e: Violation) {
    path <= e.at && Reported(v, s, e.at[|path|..], e.keyword)
  }

  lemma BreaksAtStep(v: Value, s: Value, step: Step, rest: Location, kw: Keyword)
    ensures BreaksAt(v, s, [step] + rest, kw) <==>
            Child(v, s, step).Some? && BreaksAt(Child(v, s, step).value.0, Child(v, s, step).value.1, rest, kw)
  {
    assert ([step] + rest)[1..] == rest;
  }

  lemma AncestorsTypedStep(v: Value, s: Value, step: Step, rest: Location)
    requires Child(v, s, step).Some?
    ensures AncestorsTyped(v, s, [step] + rest) <==>
            !BreaksAt(v, s, [], TypeKw) && AncestorsTyped(Child(v, s, step).value.0, Child(v, s, step).value.1, rest)
  {
    var loc := [step] + rest;
    var (v', s') := Child(v, s, step).value;
    assert loc[..0] == [];
    forall n | 0 <= n < |rest| ensures BreaksAt(v, s, loc[..n + 1], TypeKw) == BreaksAt(v', s', rest[..n], TypeKw) {
      assert loc[..n + 1] == [step] + rest[..n];
      BreaksAtStep(v, s, step, rest[..n], TypeKw);
    }
    if AncestorsTyped(v, s, loc) {
      forall n | 0 <= n < |rest| ensures !BreaksAt(v', s', rest[..n], TypeKw) {
        assert !BreaksAt(v, s, loc[..n + 1], TypeKw);
      }
    } else {
      var n :| 0 <= n < |loc| && BreaksAt(v, s, loc[..n], TypeKw);
      assert n > 0 ==> loc[..n] == loc[..(n - 1) + 1] && BreaksAt(v', s', rest[..n - 1], TypeKw);
    }
  }

  /** Reportable violations below a child are the child's own, if the node has its type. */
  lemma ReportedStep(v: Value, s: Value, step: Step, rest: Location, kw: Keyword)
    ensures Reported(v, s, [step] + rest, kw) <==>
            && !BreaksAt(v, s, [], TypeKw)
            && Child(v, s, step).Some?
            && Reported(Child(v, s, step).value.0, Child(v, s, step).value.1, rest, kw)
  {
    BreaksAtStep(v, s, step, rest, kw);
    BreaksAtStep(v, s, step, rest, TypeKw);
    if Child(v, s, step).Some? {
      AncestorsTypedStep(v, s, step, rest);
    }
  }

  /** A value with any violation at all has a reportable one, on the way to it. */
  lemma {:induction false} SomethingIsReported(v: Value, s: Value, loc: Location, kw: Keyword)
    requires BreaksAt(v, s, loc, kw)
    ensures exists loc', kw' :: Reported(v, s, loc', kw')
    decreases |loc|, kw != TypeKw
  {
    if kw != TypeKw && BreaksAt(v, s, loc, TypeKw) {
      SomethingIsReported(v, s, loc, TypeKw);
    } else if n :| 0 <= n < |loc| && BreaksAt(v, s, loc[..n], TypeKw) {
      SomethingIsReported(v, s, loc[..n], TypeKw);
    } else {
      assert Reported(v, s, loc, kw);
    }
  }

  // ---------- The checker ----------

  /** `e` is a violation at `path` itself. */
  predicate Own(v: Value, s: Value, path: Location, e: Violation) {
    e.at == path && Breaks(v, s, e.keyword)
  }

  /** `e` is reportable for a child of the node at `path`. */
  ghost predicate Below(v: Value, s: Value, path: Location, e: Violation) {
    && path < e.at
    && var c := Child(v, s, e.at[|path|]);
    && c.Some?
    && ReportedUnder(c.value.0, c.value.1, path + [e.at[|path|]], e)
  }

  lemma ReportedAtRoot(v: Value, s: Value, path: Location, e: Violation)
    requires e.at == path
    ensures ReportedUnder(v, s, path, e) <==>
            Breaks(v, s, e.keyword) && (e.keyword == TypeKw || !Breaks(v, s, TypeKw))
  {
    assert e.at[|path|..] == [];
    assert BreaksAt(v, s, [], e.keyword) == Breaks(v, s, e.keyword);
    assert BreaksAt(v, s, [], TypeKw) == Breaks(v, s, TypeKw);
  }

  lemma ReportedBelowRoot(v: Value, s: Value, path: Location, e: Violation)
    requires path < e.at
    ensures ReportedUnder(v, s, path, e) <==> !Breaks(v, s, TypeKw) && Below(v, s, path, e)
  {
    var step, rest := e.at[|path|], e.at[|path| + 1..];
    assert e.at[|path|..] == [step] + rest;
    assert BreaksAt(v, s, [], TypeKw) == Breaks(v, s, TypeKw);
    ReportedStep(v, s, step, rest, e.keyword);
    assert path + [step] <= e.at && e.at[|path + [step]|..] == rest;
  }

  lemma ReportedUnderSplits(v: Value, s: Value, path: Location, e: Violation)
    ensures ReportedUnder(v, s, path, e) <==>
            if Breaks(v, s, TypeKw) then e == Violation(path, TypeKw)
            else Own(v, s, path, e) || Below(v, s, path, e)
  {
    if e.at == path {
      ReportedAtRoot(v, s, path, e);
    } else if path < e.at {
      ReportedBelowRoot(v, s, path, e);
    }
  }

  /** Errors exactly the reportable violations under `path`, so none exactly for a value
      that conforms. Dictionary keys are visited in an arbitrary order. */
  method ValidateSchemaContract(value: Value, schema: Value, path: Location) returns (errors: seq<Violation>)
    ensures forall e :: e in errors <==> ReportedUnder(value, schema, path, e)
    ensures errors == [] <==> Conforms(value, schema)
    decreases schema, 1
  {
    if !schema.Obj? || schema.fields == map[] {
      errors := [];
      EmptySchemaAcceptsAll(value, schema, path);
    } else if Breaks(value, schema, TypeKw) {
      errors := [Violation(path, TypeKw)];
    } else {
      errors := KeywordErrors(value, schema, path);
    }
    ReportedUnderSplitsAll(value, schema, path);
    NoErrorsIffConforms(value, schema, path, errors);
  }

  lemma ReportedUnderSplitsAll(v: Value, s: Value, path: Location)
    ensures Breaks(v, s, TypeKw) ==> forall e :: ReportedUnder(v, s, path, e) <==> e == Violation(path, TypeKw)
    ensures !Breaks(v, s, TypeKw) ==>
              forall e :: ReportedUnder(v, s, path, e) <==> Own(v, s, path, e) || Below(v, s, path, e)
  {
    forall e {
      ReportedUnderSplits(v, s, path, e);
    }
  }

  lemma EmptySchemaAcceptsAll(v: Value, s: Value, path: Location)
    requires !s.Obj? || s.fields == map[]
    ensures !Breaks(v, s, TypeKw)
    ensures forall e :: !Own(v, s, path, e) && !Below(v, s, path, e)
  {
    assert forall name :: s.Get(name) == Null;
    EmptySchemaBreaksNothing(v, s, TypeKw);
    forall e ensures !Own(v, s, path, e) && !Below(v, s, path, e) {
      EmptySchemaBreaksNothing(v, s, e.keyword);
      if path < e.at {
        assert Properties(s) == Some(map[]);
        assert Child(v, s, e.at[|path|]) == None;
      }
    }
  }

  lemma EmptySchemaBreaksNothing(v: Value, s: Value, kw: Keyword)
    requires forall name :: s.Get(name) == Null
    ensures !Breaks(v, s, kw)
  {
  }

  /** The part of the check that runs once the value has its declared type. */
  method KeywordErrors(value: Value, schema: Value, path: Location) returns (errors: seq<Violation>)
    requires !Breaks(value, schema, TypeKw)
    ensures forall e :: e in errors <==> Own(value, schema, path, e) || Below(value, schema, path, e)
    decreases schema, 0, 1
  {
    var enumErrors, objectErrors, arrayErrors, stringErrors, numberErrors := [], [], [], [], [];
    if schema.Get("enum").Arr? && !InEnum(value, schema.Get("enum").items) {
      enumErrors := [Violation(path, EnumKw)];
    }
    if value.Obj? {
      objectErrors := ObjectErrors(value, schema, path);
    }
    if value.Arr? {
      arrayErrors := ArrayErrors(value, schema, path);
    }
    if value.Str? {
      stringErrors := StringErrors(value, schema, path);
    }
    if value.IsNumber() {
      numberErrors := NumberErrors(value, schema, path);
    }
    errors := enumErrors + objectErrors + arrayErrors + stringErrors + numberErrors;
    forall e ensures e in errors <==> Own(value, schema, path, e) || Below(value, schema, path, e) {
      assert e in enumErrors <==> e.keyword.EnumKw? && Own(value, schema, path, e);
      assert e in numberErrors <==> NumericKeyword(e.keyword) && Own(value, schema, path, e);
      assert e in stringErrors <==> (e.keyword.MinLength? || e.keyword.MaxLength?) && Own(value, schema, path, e);
    }
  }

  lemma NoErrorsIffConforms(value: Value, schema: Value, path: Location, errors: seq<Violation>)
    requires forall e :: e in errors <==> ReportedUnder(value, schema, path, e)
    ensures errors == [] <==> Conforms(value, schema)
  {
    if errors != [] {
      assert errors[0] in errors;
      assert BreaksAt(value, schema, errors[0].at[|path|..], errors[0].keyword);
    } else if !Conforms(value, schema) {
      var loc, kw :| BreaksAt(value, schema, loc, kw);
      SomethingIsReported(value, schema, loc, kw);
      var loc', kw' :| Reported(value, schema, loc', kw');
      assert (path + loc')[|path|..] == loc';
      assert ReportedUnder(value, schema, path, Violation(path + loc', kw'));
      assert false;
    }
  }

  method ObjectErrors(value: Value, schema: Value, path: Location) returns (errors: seq<Violation>)
    requires value.Obj?
    ensures forall e :: e in errors <==>
              || ((e.keyword.RequiredKw? || e.keyword.AdditionalKw?) && Own(value, schema, path, e))
              || Below(value, schema, path, e)
    decreases schema, 0, 0
  {
    errors := [];
    var required := Required(schema);
    for i := 0 to |required|
      invariant forall e :: e in errors <==>
                  e.keyword.RequiredKw? && Own(value, schema, path, e) && Str(e.keyword.missing) in required[..i]
    {
      assert required[..i + 1] == required[..i] + [required[i]];
      if required[i].Str? && required[i].s !in value.fields {
        errors := errors + [Violation(path, RequiredKw(required[i].s))];
      }
    }
    assert required[..|required|] == required;
    ghost var missing := errors;
    var properties := Properties(schema);
    if properties.Some? {
      var pending := properties.value.Keys;
      while pending != {}
        invariant pending <= properties.value.Keys
        invariant forall e :: e in errors <==>
                    || e in missing
                    || (Below(value, schema, path, e) && e.at[|path|].key !in pending)
      {
        var key :| key in pending;
        var child := Child(value, schema, Key(key));
        if child.Some? {
          var more := ValidateSchemaContract(child.value.0, child.value.1, path + [Key(key)]);
          errors := errors + more;
        }
        pending := pending - {key};
      }
      if schema.Get("additionalProperties") == Bool(false) {
        var extra := AdditionalErrors(value, schema, path);
        errors := errors + extra;
      }
    }
  }

  method AdditionalErrors(value: Value, schema: Value, path: Location) returns (errors: seq<Violation>)
    requires value.Obj? && Properties(schema).Some? && schema.Get("additionalProperties") == Bool(false)
    ensures forall e :: e in errors <==> e.keyword.AdditionalKw? && Own(value, schema, path, e)
  {
    errors := [];
    var unexpected := value.fields.Keys - Properties(schema).value.Keys;
    ghost var all := unexpected;
    while unexpected != {}
      invariant unexpected <= all
      invariant forall e :: e in errors <==>
                  e.at == path && e.keyword.AdditionalKw? && e.keyword.unexpected in all - unexpected
    {
      var key :| key in unexpected;
      errors := errors + [Violation(path, AdditionalKw(key))];
      unexpected := unexpected - {key};
    }
  }

  method SizeErrors(value: Value, schema: Value, path: Location) returns (errors: seq<Violation>)
    requires value.Arr?
    ensures forall e :: e in errors <==>
              (e.keyword.MinItems? || e.keyword.MaxItems?) && Own(value, schema, path, e)
  {
    errors := [];
    var minItems, maxItems := IntBound(schema, "minItems"), IntBound(schema, "maxItems");
    if minItems.Some? && |value.items| < minItems.value {
      errors := errors + [Violation(path, MinItems)];
    }
    if maxItems.Some? && |value.items| > maxItems.value {
      errors := errors + [Violation(path, MaxItems)];
    }
  }

  method ArrayErrors(value: Value, schema: Value, path: Location) returns (errors: seq<Violation>)
    requires value.Arr?
    ensures forall e :: e in errors <==>
              || ((e.keyword.MinItems? || e.keyword.MaxItems?) && Own(value, schema, path, e))
              || Below(value, schema, path, e)
    decreases schema, 0, 0
  {
    errors := SizeErrors(value, schema, path);
    ghost var sized := errors;
    if schema.Get("items").Obj? {
      for i := 0 to |value.items|
        invariant forall e :: e in errors <==>
                    || e in sized
                    || (Below(value, schema, path, e) && e.at[|path|].index < i)
      {
        var child := Child(value, schema, Index(i));
        var more := ValidateSchemaContract(child.value.0, child.value.1, path + [Index(i)]);
        errors := errors + more;
      }
    }
  }

  method StringErrors(value: Value, schema: Value, path: Location) returns (errors: seq<Violation>)
    requires value.Str?
    ensures forall e :: e in errors <==>
              (e.keyword.MinLength? || e.keyword.MaxLength?) && Own(value, schema, path, e)
  {
    errors := [];
    var minLength, maxLength := IntBound(schema, "minLength"), IntBound(schema, "maxLength");
    if minLength.Some? && |value.s| < minLength.value {
      errors := errors + [Violation(path, MinLength)];
    }
    if maxLength.Some? && |value.s| > maxLength.value {
      errors := errors + [Violation(path, MaxLength)];
    }
  }

  predicate NumericKeyword(kw: Keyword) {
    kw.Minimum? || kw.Maximum? || kw.ExclusiveMinimum? || kw.ExclusiveMaximum?
  }

  method NumberErrors(value: Value, schema: Value, path: Location) returns (errors: seq<Violation>)
    requires value.IsNumber()
    ensures forall e :: e in errors <==> NumericKeyword(e.keyword) && Own(value, schema, path, e)
  {
    errors := [];
    if HasBound(value, schema, "minimum") && Gap(value, schema, "minimum") < 0.0 {
      errors := errors + [Violation(path, Minimum)];
    }
    if HasBound(value, schema, "maximum") && Gap(value, schema, "maximum") > 0.0 {
      errors := errors + [Violation(path, Maximum)];
    }
    var exclusive := ExclusiveErrors(value, schema, path);
    errors := errors + exclusive;
  }

  method ExclusiveErrors(value: Value, schema: Value, path: Location) returns (errors: seq<Violation>)
    requires value.IsNumber()
    ensures forall e :: e in errors <==>
              (e.keyword.ExclusiveMinimum? || e.keyword.ExclusiveMaximum?) && Own(value, schema, path, e)
  {
    errors := [];
    if HasBound(value, schema, "exclusiveMinimum") && Gap(value, schema, "exclusiveMinimum") <= 0.0 {
      errors := errors + [Violation(path, ExclusiveMinimum)];
    }
    if HasBound(value, schema, "exclusiveMaximum") && Gap(value, schema, "exclusiveMaximum") >= 0.0 {
      errors := errors + [Violation(path, ExclusiveMaximum)];
    }
  }

  // ---------- What is reached ----------

  /** The schema that applies to the items of an array, if there is one. */
  predicate ChecksItems(v: Value, s: Value) {
    v.Arr? && s.Get("items").Obj?
  }

  /** The schema gives an object subschema to member `k` of the object. */
  predicate ChecksMember(v: Value, s: Value, k: string) {
    && v.Obj? && k in v.fields
    && s.Get("properties").Obj? && k in s.Get("properties").fields && s.Get("properties").fields[k].Obj?
  }

  /** One step leads to each item, and to each member with a subschema, and nowhere else. */
  lemma ChildExactly(v: Value, s: Value, step: Step)
    ensures step.Index? ==>
              Child(v, s, step) == if ChecksItems(v, s) && step.index < |v.items|
                                   then Some((v.items[step.index], s.Get("items"))) else None
    ensures step.Key? ==>
              Child(v, s, step) == if ChecksMember(v, s, step.key)
                                   then Some((v.fields[step.key], s.Get("properties").fields[step.key])) else None
  {
  }

  /** Conformance, node by node: a value conforms if and only if it breaks no keyword itself, each
      item of an array conforms to the schema of the items, and each member of an object that has
      a subschema conforms to it. */
  lemma ConformsExactly(v: Value, s: Value)
    ensures Conforms(v, s) <==>
            && (forall kw :: !Breaks(v, s, kw))
            && (ChecksItems(v, s) ==> forall i | 0 <= i < |v.items| :: Conforms(v.items[i], s.Get("items")))
            && (forall k | ChecksMember(v, s, k) :: Conforms(v.fields[k], s.Get("properties").fields[k]))
  {
    if Conforms(v, s) {
      forall kw ensures !Breaks(v, s, kw) {
        assert !BreaksAt(v, s, [], kw);
      }
      if ChecksItems(v, s) {
        forall i | 0 <= i < |v.items| ensures Conforms(v.items[i], s.Get("items")) {
          ChildConforms(v, s, Index(i));
        }
      }
      forall k | ChecksMember(v, s, k) ensures Conforms(v.fields[k], s.Get("properties").fields[k]) {
        ChildConforms(v, s, Key(k));
      }
    }
    if !Conforms(v, s) && forall kw :: !Breaks(v, s, kw) {
      var step := SomethingBelow(v, s);
      ChildExactly(v, s, step);
    }
  }

  lemma SomethingBelow(v: Value, s: Value) returns (step: Step)
    requires !Conforms(v, s) && forall kw :: !Breaks(v, s, kw)
    ensures Child(v, s, step).Some? && !Conforms(Child(v, s, step).value.0, Child(v, s, step).value.1)
  {
    var loc, kw :| BreaksAt(v, s, loc, kw);
    assert loc != [];
    step := loc[0];
    assert loc == [step] + loc[1..];
    BreaksAtStep(v, s, step, loc[1..], kw);
  }

  lemma ChildConforms(v: Value, s: Value, step: Step)
    requires Conforms(v, s) && Child(v, s, step).Some?
    ensures Conforms(Child(v, s, step).value.0, Child(v, s, step).value.1)
  {
    var (v', s') := Child(v, s, step).value;
    forall loc, kw ensures !BreaksAt(v', s', loc, kw) {
      BreaksAtStep(v, s, step, loc, kw);
      assert !BreaksAt(v, s, [step] + loc, kw);
    }
  }

  /** `e` is a reportable violation of some item, at the place of that item. */
  ghost predicate ReportedOfItem(v: Value, s: Value, path: Location, e: Violation) {
    && ChecksItems(v, s)
    && exists i: nat :: i < |v.items| && ReportedUnder(v.items[i], s.Get("items"), path + [Index(i)], e)
  }

  /** `e` is a reportable violation of some member, at the place of that member. */
  ghost predicate ReportedOfMember(v: Value, s: Value, path: Location, e: Violation) {
    exists k ::
      ChecksMember(v, s, k) && ReportedUnder(v.fields[k], s.Get("properties").fields[k], path + [Key(k)], e)
  }

  /** The report, node by node: a wrong type alone; or else the node's own violations, and those of
      each item and each member that has a subschema, at their own places. */
  lemma ReportExactly(v: Value, s: Value, path: Location, e: Violation)
    ensures ReportedUnder(v, s, path, e) <==>
            if Breaks(v, s, TypeKw) then e == Violation(path, TypeKw)
            else
              || (e.at == path && Breaks(v, s, e.keyword))
              || ReportedOfItem(v, s, path, e)
              || ReportedOfMember(v, s, path, e)
  {
    ReportedUnderSplits(v, s, path, e);
    BelowExactly(v, s, path, e);
  }

  lemma BelowExactly(v: Value, s: Value, path: Location, e: Violation)
    ensures Below(v, s, path, e) <==> ReportedOfItem(v, s, path, e) || ReportedOfMember(v, s, path, e)
  {
    if Below(v, s, path, e) {
      BelowIsReported(v, s, path, e);
    }
    if ReportedOfItem(v, s, path, e) {
      ItemIsBelow(v, s, path, e);
    }
    if ReportedOfMember(v, s, path, e) {
      MemberIsBelow(v, s, path, e);
    }
  }

  lemma ItemIsBelow(v: Value, s: Value, path: Location, e: Violation)
    requires ReportedOfItem(v, s, path, e)
    ensures Below(v, s, path, e)
  {
    var i: nat :| i < |v.items| && ReportedUnder(v.items[i], s.Get("items"), path + [Index(i)], e);
    ReportedIsBelow(v, s, path, Index(i), e);
  }

  lemma MemberIsBelow(v: Value, s: Value, path: Location, e: Violation)
    requires ReportedOfMember(v, s, path, e)
    ensures Below(v, s, path, e)
  {
    var k :| ChecksMember(v, s, k) && ReportedUnder(v.fields[k], s.Get("properties").fields[k], path + [Key(k)], e);
    ChildExactly(v, s, Key(k));
    ReportedIsBelow(v, s, path, Key(k), e);
  }

  lemma BelowIsReported(v: Value, s: Value, path: Location, e: Violation)
    requires Below(v, s, path, e)
    ensures ReportedOfItem(v, s, path, e) || ReportedOfMember(v, s, path, e)
  {
    var step := e.at[|path|];
    ChildExactly(v, s, step);
    match step {
      case Index(i) => assert ReportedUnder(v.items[i], s.Get("items"), path + [Index(i)], e);
      case Key(k) => assert ChecksMember(v, s, k);
    }
  }

  lemma ReportedIsBelow(v: Value, s: Value, path: Location, step: Step, e: Violation)
    requires Child(v, s, step).Some?
    requires ReportedUnder(Child(v, s, step).value.0, Child(v, s, step).value.1, path + [step], e)
    ensures Below(v, s, path, e)
  {
    assert (path + [step])[|path|] == step && path < path + [step];
  }

  // ---------- Bounds that are booleans ----------

  /** The number a bound stands for: a boolean bound is 0 or 1, and for counts a float is none. */
  predicate BoundIs(s: Value, name: string, bound: int) {
    s.Get(name) == Int(bound) || (s.Get(name) == Bool(true) && bound == 1) || (s.Get(name) == Bool(false) && bound == 0)
  }

  /** A schema whose bounds are integers or booleans breaks exactly where the numbers they stand
      for do. */
  lemma BoundsExactly(v: Value, s: Value, bound: int)
    ensures BoundIs(s, "minItems", bound) ==> (Breaks(v, s, MinItems) <==> v.Arr? && |v.items| < bound)
    ensures BoundIs(s, "maxItems", bound) ==> (Breaks(v, s, MaxItems) <==> v.Arr? && |v.items| > bound)
    ensures BoundIs(s, "minLength", bound) ==> (Breaks(v, s, MinLength) <==> v.Str? && |v.s| < bound)
    ensures BoundIs(s, "maxLength", bound) ==> (Breaks(v, s, MaxLength) <==> v.Str? && |v.s| > bound)
  {
  }

  /** So do the bounds of a number, which is an int or a float and not a boolean. */
  lemma NumericBoundsExactly(x: real, v: Value, s: Value, bound: int)
    requires v == Float(x) || (v.Int? && v.i as real == x)
    ensures BoundIs(s, "minimum", bound) ==> (Breaks(v, s, Minimum) <==> x < bound as real)
    ensures BoundIs(s, "maximum", bound) ==> (Breaks(v, s, Maximum) <==> x > bound as real)
    ensures BoundIs(s, "exclusiveMinimum", bound) ==> (Breaks(v, s, ExclusiveMinimum) <==> x <= bound as real)
    ensures BoundIs(s, "exclusiveMaximum", bound) ==> (Breaks(v, s, ExclusiveMaximum) <==> x >= bound as real)
  {
  }

  // ---------- Consequences ----------

  /** The value found by following a location through the value alone. */
  function ValueAt(v: Value, loc: Location): Option<Value>
    decreases |loc|
  {
    if loc == [] then Some(v)
    else if loc[0].Key? && v.Obj? && loc[0].key in v.fields then ValueAt(v.fields[loc[0].key], loc[1..])
    else if loc[0].Index? && v.Arr? && loc[0].index < |v.items| then ValueAt(v.items[loc[0].index], loc[1..])
    else None
  }

  /** Every reported location is a real place in the value, whatever the schema. */
  lemma {:induction false} ReportedLocationExists(v: Value, s: Value, loc: Location)
    requires Resolve(v, s, loc).Some?
    ensures ValueAt(v, loc) == Some(Resolve(v, s, loc).value.0)
    decreases |loc|
  {
    if loc != [] {
      var (v', s') := Child(v, s, loc[0]).value;
      ReportedLocationExists(v', s', loc[1..]);
    }
  }

  /** Where an error message points: at the node, or at the key it lacks or should not have. */
  function Target(e: Violation): Location {
    match e.keyword
    case RequiredKw(k) => e.at + [Key(k)]
    case AdditionalKw(k) => e.at + [Key(k)]
    case _ => e.at
  }

  /** Every message extends the given path by the place of the violation, and by the key if one is
      missing or unexpected. What it points at is in the value, except that a missing property is
      missing and only its parent is there. */
  lemma TargetsResolve(v: Value, s: Value, path: Location, e: Violation)
    requires ReportedUnder(v, s, path, e)
    ensures path <= e.at <= Target(e)
    ensures forall k | e.keyword == RequiredKw(k) || e.keyword == AdditionalKw(k) :: Target(e) == e.at + [Key(k)]
    ensures !e.keyword.RequiredKw? && !e.keyword.AdditionalKw? ==> Target(e) == e.at
    ensures ValueAt(v, Target(e)[|path|..]).Some? <==> !e.keyword.RequiredKw?
    ensures e.keyword.RequiredKw? ==> ValueAt(v, e.at[|path|..]).Some? && ValueAt(v, e.at[|path|..]).value.Obj?
  {
    var rel := e.at[|path|..];
    ReportedLocationExists(v, s, rel);
    if e.keyword.RequiredKw? || e.keyword.AdditionalKw? {
      var k := Target(e)[|e.at|];
      assert Target(e)[|path|..] == rel + [k];
      KeyTargetResolves(v, s, rel, e.keyword, k);
    }
  }

  lemma KeyTargetResolves(v: Value, s: Value, loc: Location, kw: Keyword, k: Step)
    requires BreaksAt(v, s, loc, kw)
    requires k.Key? && (kw == RequiredKw(k.key) || kw == AdditionalKw(k.key))
    ensures ValueAt(v, loc).Some? && ValueAt(v, loc).value.Obj?
    ensures ValueAt(v, loc + [k]).Some? <==> kw.AdditionalKw?
  {
    ReportedLocationExists(v, s, loc);
    ValueAtSnoc(v, loc, k);
  }

  lemma {:induction false} ValueAtSnoc(v: Value, loc: Location, step: Step)
    requires ValueAt(v, loc).Some?
    ensures ValueAt(v, loc + [step]) == ValueAt(ValueAt(v, loc).value, [step])
    decreases |loc|
  {
    if loc == [] {
      assert loc + [step] == [step];
    } else {
      assert (loc + [step])[1..] == loc[1..] + [step];
      var child := if loc[0].Key? then v.fields[loc[0].key] else v.items[loc[0].index];
      ValueAtSnoc(child, loc[1..], step);
    }
  }
}
