/** Where the schema checker and JSON Schema (draft 2020-12) part ways on the keywords both know.
    The standard's reading is that of section 6 of JSON Schema Validation and, for additional
    properties and equality, of sections 10.3.2.3 and 4.2.2 of JSON Schema Core; it is written
    without reference to the checker's. */
module SchemaStandard {
  import opened Basics
  import opened Json
  import opened SchemaContracts

  // ---------- The standard's reading ----------

  const TYPE_NAMES: set<string> := {"object", "array", "string", "number", "integer", "boolean", "null"}

  /** A number without a fractional part is an integer, however it is written. */
  predicate Integral(v: Value) {
    v.Int? || (v.Float? && v.r.Floor as real == v.r)
  }

  /** Section 6.1.1. A name that is not one of the seven accepts everything, as in the checker. */
  predicate StandardType(name: string, v: Value) {
    if name == "object" then v.Obj?
    else if name == "array" then v.Arr?
    else if name == "string" then v.Str?
    else if name == "number" then v.Int? || v.Float?
    else if name == "integer" then Integral(v)
    else if name == "boolean" then v.Bool?
    else if name == "null" then v.Null?
    else true
  }

  /** A list of types is met by meeting one of them. */
  predicate MeetsSomeType(names: seq<Value>, v: Value) {
    exists i | 0 <= i < |names| :: names[i].Str? && StandardType(names[i].s, v)
  }

  /** Numbers are equal by magnitude, booleans only to booleans, arrays and objects member by
      member. */
  predicate StandardEq(a: Value, b: Value)
    decreases a
  {
    match a
    case Int(_) => b.IsNumber() && a.Numeric() == b.Numeric()
    case Float(_) => b.IsNumber() && a.Numeric() == b.Numeric()
    case Arr(items) =>
      && b.Arr? && |items| == |b.items|
      && forall i | 0 <= i < |items| :: StandardEq(items[i], b.items[i])
    case Obj(fields) =>
      && b.Obj? && fields.Keys == b.fields.Keys
      && forall k | k in fields :: StandardEq(fields[k], b.fields[k])
    case _ => a == b
  }

  predicate InStandardEnum(v: Value, allowed: seq<Value>) {
    exists i | 0 <= i < |allowed| :: StandardEq(v, allowed[i])
  }

  /** A count: a non-negative integer, however it is written. */
  function Count(s: Value, name: string): Option<nat> {
    match s.Get(name)
    case Int(i) => if i >= 0 then Some(i) else None
    case Float(r) => if r >= 0.0 && Integral(s.Get(name)) then Some(r.Floor) else None
    case _ => None
  }

  /** The magnitude of a number; a boolean is none. */
  function Magnitude(v: Value): Option<real> {
    match v
    case Int(i) => Some(i as real)
    case Float(r) => Some(r)
    case _ => None
  }

  predicate Less(x: Option<real>, y: Option<real>) {
    x.Some? && y.Some? && x.value < y.value
  }

  predicate AtMost(x: Option<real>, y: Option<real>) {
    x.Some? && y.Some? && x.value <= y.value
  }

  predicate Fewer(n: int, bound: Option<nat>) {
    bound.Some? && n < bound.value
  }

  predicate More(n: int, bound: Option<nat>) {
    bound.Some? && n > bound.value
  }

  predicate Listed(s: Value, name: string, v: Value) {
    s.Get(name).Arr? && v in s.Get(name).items
  }

  /** Keyword `kw` of subschema `s` is violated, as the standard reads it. */
  predicate StandardBreaks(v: Value, s: Value, kw: Keyword) {
    match kw
    case TypeKw =>
      || (s.Get("type").Str? && !StandardType(s.Get("type").s, v))
      || (s.Get("type").Arr? && !MeetsSomeType(s.Get("type").items, v))
    case EnumKw => s.Get("enum").Arr? && !InStandardEnum(v, s.Get("enum").items)
    case RequiredKw(k) => v.Obj? && Listed(s, "required", Str(k)) && k !in v.fields
    case AdditionalKw(k) =>
      && v.Obj? && k in v.fields && s.Get("additionalProperties") == Bool(false)
      && k !in Members(s.Get("properties"))
    case MinItems => v.Arr? && Fewer(|v.items|, Count(s, "minItems"))
    case MaxItems => v.Arr? && More(|v.items|, Count(s, "maxItems"))
    case MinLength => v.Str? && Fewer(|v.s|, Count(s, "minLength"))
    case MaxLength => v.Str? && More(|v.s|, Count(s, "maxLength"))
    case Minimum => Less(Magnitude(v), Magnitude(s.Get("minimum")))
    case Maximum => Less(Magnitude(s.Get("maximum")), Magnitude(v))
    case ExclusiveMinimum => AtMost(Magnitude(v), Magnitude(s.Get("exclusiveMinimum")))
    case ExclusiveMaximum => AtMost(Magnitude(s.Get("exclusiveMaximum")), Magnitude(v))
  }

  function Members(s: Value): set<string> {
    if s.Obj? then s.fields.Keys else {}
  }

  // ---------- The forms that are compared ----------

  predicate Absent(s: Value, name: string) {
    name !in Members(s)
  }

  predicate IsTypeName(v: Value) {
    v.Str? && v.s in TYPE_NAMES
  }

  predicate CountOrAbsent(s: Value, name: string) {
    Absent(s, name) || Count(s, name).Some?
  }

  predicate NumberOrAbsent(s: Value, name: string) {
    Absent(s, name) || Magnitude(s.Get(name)).Some?
  }

  /** The keyword is absent or in a form that the standard allows; additional properties are
      allowed or not, without patterns or a schema of their own. */
  predicate Form(s: Value, kw: Keyword) {
    match kw
    case TypeKw =>
      || Absent(s, "type") || IsTypeName(s.Get("type"))
      || (s.Get("type").Arr? && forall i | 0 <= i < |s.Get("type").items| :: IsTypeName(s.Get("type").items[i]))
    case EnumKw => Absent(s, "enum") || s.Get("enum").Arr?
    case RequiredKw(_) =>
      || Absent(s, "required")
      || (s.Get("required").Arr? && forall i | 0 <= i < |s.Get("required").items| :: s.Get("required").items[i].Str?)
    case AdditionalKw(_) =>
      && Absent(s, "patternProperties") && (Absent(s, "properties") || s.Get("properties").Obj?)
      && (Absent(s, "additionalProperties") || s.Get("additionalProperties").Bool?)
    case MinItems => CountOrAbsent(s, "minItems")
    case MaxItems => CountOrAbsent(s, "maxItems")
    case MinLength => CountOrAbsent(s, "minLength")
    case MaxLength => CountOrAbsent(s, "maxLength")
    case Minimum => NumberOrAbsent(s, "minimum")
    case Maximum => NumberOrAbsent(s, "maximum")
    case ExclusiveMinimum => NumberOrAbsent(s, "exclusiveMinimum")
    case ExclusiveMaximum => NumberOrAbsent(s, "exclusiveMaximum")
  }

  /** A subschema in these forms whose own subschemas are objects, so that its keywords apply to
      the places that `Child` leads to. */
  ghost predicate Covered(s: Value) {
    && s.Obj? && (forall kw :: Form(s, kw))
    && (forall k | k in Members(s.Get("properties")) :: s.Get("properties").fields[k].Obj?)
    && Absent(s, "prefixItems") && (Absent(s, "items") || s.Get("items").Obj?)
  }

  // ---------- Types ----------

  /** The type test differs from the standard's for a float without a fractional part under
      `integer`, which the checker refuses, and for nothing else. */
  lemma TypesAgreeIff(name: string, v: Value)
    ensures (HasType(name, v) <==> StandardType(name, v)) <==> !(name == "integer" && v.Float? && Integral(v))
    ensures HasType(name, v) ==> StandardType(name, v)
  {
  }

  // ---------- Equality ----------

  /** At this place, in both values, one holds a boolean and the other a number. */
  predicate BooleanMeetsNumber(a: Value, b: Value, loc: Location) {
    var x, y := ValueAt(a, loc), ValueAt(b, loc);
    && x.Some? && y.Some?
    && ((x.value.Bool? && y.value.IsNumber()) || (x.value.IsNumber() && y.value.Bool?))
  }

  ghost predicate KeepsBooleansApart(a: Value, b: Value) {
    forall loc :: !BooleanMeetsNumber(a, b, loc)
  }

  lemma ItemsApart(a: Value, b: Value, i: nat)
    requires a.Arr? && b.Arr? && i < |a.items| && i < |b.items| && KeepsBooleansApart(a, b)
    ensures KeepsBooleansApart(a.items[i], b.items[i])
  {
    forall loc ensures !BooleanMeetsNumber(a.items[i], b.items[i], loc) {
      assert ([Index(i)] + loc)[1..] == loc;
      assert !BooleanMeetsNumber(a, b, [Index(i)] + loc);
    }
  }

  lemma FieldsApart(a: Value, b: Value, k: string)
    requires a.Obj? && b.Obj? && k in a.fields && k in b.fields && KeepsBooleansApart(a, b)
    ensures KeepsBooleansApart(a.fields[k], b.fields[k])
  {
    forall loc ensures !BooleanMeetsNumber(a.fields[k], b.fields[k], loc) {
      assert ([Key(k)] + loc)[1..] == loc;
      assert !BooleanMeetsNumber(a, b, [Key(k)] + loc);
    }
  }

  lemma {:induction false} ApartEqualIsStandard(a: Value, b: Value)
    requires PyEq(a, b) && KeepsBooleansApart(a, b)
    ensures StandardEq(a, b)
    decreases a
  {
    assert !BooleanMeetsNumber(a, b, []);
    if a.Arr? && b.Arr? {
      forall i | 0 <= i < |a.items| ensures StandardEq(a.items[i], b.items[i]) {
        ItemsApart(a, b, i);
        ApartEqualIsStandard(a.items[i], b.items[i]);
      }
    } else if a.Obj? && b.Obj? {
      forall k | k in a.fields ensures StandardEq(a.fields[k], b.fields[k]) {
        FieldsApart(a, b, k);
        ApartEqualIsStandard(a.fields[k], b.fields[k]);
      }
    }
  }

  lemma {:induction false} StandardEqualIsEqual(a: Value, b: Value)
    requires StandardEq(a, b)
    ensures PyEq(a, b)
    decreases a
  {
    if a.Arr? {
      forall i | 0 <= i < |a.items| ensures PyEq(a.items[i], b.items[i]) {
        StandardEqualIsEqual(a.items[i], b.items[i]);
      }
    } else if a.Obj? {
      forall k | k in a.fields ensures PyEq(a.fields[k], b.fields[k]) {
        StandardEqualIsEqual(a.fields[k], b.fields[k]);
      }
    }
  }

  lemma {:induction false} StandardEqualIsApart(a: Value, b: Value, loc: Location)
    requires StandardEq(a, b)
    ensures !BooleanMeetsNumber(a, b, loc)
    decreases |loc|
  {
    if loc != [] && ValueAt(a, loc).Some? && ValueAt(b, loc).Some? {
      if a.Arr? {
        StandardEqualIsApart(a.items[loc[0].index], b.items[loc[0].index], loc[1..]);
      } else {
        StandardEqualIsApart(a.fields[loc[0].key], b.fields[loc[0].key], loc[1..]);
      }
    }
  }

  /** Two values are equal by the standard if and only if Python finds them equal and nowhere in
      them a boolean stands where the other has a number. */
  lemma StandardEqualityExactly(a: Value, b: Value)
    ensures StandardEq(a, b) <==> PyEq(a, b) && KeepsBooleansApart(a, b)
  {
    if StandardEq(a, b) {
      StandardEqualIsEqual(a, b);
      forall loc ensures !BooleanMeetsNumber(a, b, loc) {
        StandardEqualIsApart(a, b, loc);
      }
    } else if PyEq(a, b) && KeepsBooleansApart(a, b) {
      ApartEqualIsStandard(a, b);
    }
  }

  /** A value that the checker finds in an enum, but only by taking a boolean for a number. */
  ghost predicate OnlyByBoolean(v: Value, allowed: seq<Value>) {
    && InEnum(v, allowed)
    && forall i | 0 <= i < |allowed| && PyEq(v, allowed[i]) :: !KeepsBooleansApart(v, allowed[i])
  }

  lemma EnumsAgreeIff(v: Value, allowed: seq<Value>)
    ensures (InEnum(v, allowed) <==> InStandardEnum(v, allowed)) <==> !OnlyByBoolean(v, allowed)
    ensures InStandardEnum(v, allowed) ==> InEnum(v, allowed)
  {
    forall i | 0 <= i < |allowed|
      ensures StandardEq(v, allowed[i]) <==> PyEq(v, allowed[i]) && KeepsBooleansApart(v, allowed[i])
    {
      StandardEqualityExactly(v, allowed[i]);
    }
  }

  // ---------- Keyword by keyword ----------

  /** A count written as a float, which the checker does not take for a bound. */
  function FloatCount(s: Value, name: string): Option<nat> {
    if s.Get(name).Float? then Count(s, name) else None
  }

  /** What the standard finds wrong and the checker lets pass: a value of none of a list of types,
      one found in an enum only by taking a boolean for a number, a size outside a bound
      written as a float. */
  ghost predicate Misses(v: Value, s: Value, kw: Keyword) {
    match kw
    case TypeKw => s.Get("type").Arr? && !MeetsSomeType(s.Get("type").items, v)
    case EnumKw => s.Get("enum").Arr? && OnlyByBoolean(v, s.Get("enum").items)
    case MinItems => v.Arr? && Fewer(|v.items|, FloatCount(s, "minItems"))
    case MaxItems => v.Arr? && More(|v.items|, FloatCount(s, "maxItems"))
    case MinLength => v.Str? && Fewer(|v.s|, FloatCount(s, "minLength"))
    case MaxLength => v.Str? && More(|v.s|, FloatCount(s, "maxLength"))
    case _ => false
  }

  /** What the checker refuses and the standard does not: a float without a fractional part as an
      integer. */
  predicate Refuses(v: Value, s: Value, kw: Keyword) {
    kw == TypeKw && s.Get("type") == Str("integer") && v.Float? && Integral(v)
  }

  lemma TypeKeywordExactly(v: Value, s: Value)
    ensures Misses(v, s, TypeKw) == (StandardBreaks(v, s, TypeKw) && !Breaks(v, s, TypeKw))
    ensures Refuses(v, s, TypeKw) == (Breaks(v, s, TypeKw) && !StandardBreaks(v, s, TypeKw))
  {
    if s.Get("type").Str? {
      TypesAgreeIff(s.Get("type").s, v);
    }
  }

  lemma EnumKeywordExactly(v: Value, s: Value)
    ensures Misses(v, s, EnumKw) == (StandardBreaks(v, s, EnumKw) && !Breaks(v, s, EnumKw))
    ensures Refuses(v, s, EnumKw) == (Breaks(v, s, EnumKw) && !StandardBreaks(v, s, EnumKw))
  {
    if s.Get("enum").Arr? {
      EnumsAgreeIff(v, s.Get("enum").items);
    }
  }

  predicate CountKeyword(kw: Keyword) {
    kw.MinItems? || kw.MaxItems? || kw.MinLength? || kw.MaxLength?
  }

  lemma CountKeywordsExactly(v: Value, s: Value, kw: Keyword)
    requires CountKeyword(kw) && Form(s, kw)
    ensures Misses(v, s, kw) == (StandardBreaks(v, s, kw) && !Breaks(v, s, kw))
    ensures Refuses(v, s, kw) == (Breaks(v, s, kw) && !StandardBreaks(v, s, kw))
  {
  }

  lemma NumericKeywordsExactly(v: Value, s: Value, kw: Keyword)
    requires NumericKeyword(kw) && Form(s, kw)
    ensures Misses(v, s, kw) == (StandardBreaks(v, s, kw) && !Breaks(v, s, kw))
    ensures Refuses(v, s, kw) == (Breaks(v, s, kw) && !StandardBreaks(v, s, kw))
  {
  }

  lemma MemberKeywordsExactly(v: Value, s: Value, kw: Keyword)
    requires (kw.RequiredKw? || kw.AdditionalKw?) && Form(s, kw)
    ensures Misses(v, s, kw) == (StandardBreaks(v, s, kw) && !Breaks(v, s, kw))
    ensures Refuses(v, s, kw) == (Breaks(v, s, kw) && !StandardBreaks(v, s, kw))
  {
  }

  /** Keyword by keyword, in both directions: what the checker misses, and what it refuses in
      excess of the standard. */
  lemma KeywordsAgreeIff(v: Value, s: Value, kw: Keyword)
    requires Form(s, kw)
    ensures Misses(v, s, kw) == (StandardBreaks(v, s, kw) && !Breaks(v, s, kw))
    ensures Refuses(v, s, kw) == (Breaks(v, s, kw) && !StandardBreaks(v, s, kw))
  {
    if kw == TypeKw {
      TypeKeywordExactly(v, s);
    } else if kw == EnumKw {
      EnumKeywordExactly(v, s);
    } else if CountKeyword(kw) {
      CountKeywordsExactly(v, s, kw);
    } else if NumericKeyword(kw) {
      NumericKeywordsExactly(v, s, kw);
    } else {
      MemberKeywordsExactly(v, s, kw);
    }
  }

  // ---------- Whole values ----------

  predicate StandardBreaksAt(v: Value, s: Value, loc: Location, kw: Keyword) {
    var r := Resolve(v, s, loc);
    r.Some? && StandardBreaks(r.value.0, r.value.1, kw)
  }

  ghost predicate StandardConforms(v: Value, s: Value) {
    forall loc, kw :: !StandardBreaksAt(v, s, loc, kw)
  }

  ghost predicate CoveredThroughout(v: Value, s: Value) {
    forall loc | Resolve(v, s, loc).Some? :: Covered(Resolve(v, s, loc).value.1)
  }

  ghost predicate MissesAt(v: Value, s: Value, loc: Location, kw: Keyword) {
    var r := Resolve(v, s, loc);
    r.Some? && Misses(r.value.0, r.value.1, kw)
  }

  predicate RefusesAt(v: Value, s: Value, loc: Location, kw: Keyword) {
    var r := Resolve(v, s, loc);
    r.Some? && Refuses(r.value.0, r.value.1, kw)
  }

  lemma CoveredKeywordsAgreeIff(v: Value, s: Value, kw: Keyword)
    requires Covered(s)
    ensures Misses(v, s, kw) == (StandardBreaks(v, s, kw) && !Breaks(v, s, kw))
    ensures Refuses(v, s, kw) == (Breaks(v, s, kw) && !StandardBreaks(v, s, kw))
  {
    assert Form(s, kw);
    KeywordsAgreeIff(v, s, kw);
  }

  /** A place that is reached is its value and subschema. */
  lemma AtPlace(v: Value, s: Value, loc: Location, kw: Keyword, v': Value, s': Value)
    requires Resolve(v, s, loc) == Some((v', s'))
    ensures BreaksAt(v, s, loc, kw) == Breaks(v', s', kw)
    ensures StandardBreaksAt(v, s, loc, kw) == StandardBreaks(v', s', kw)
  {
  }

  lemma DifferenceAtPlace(v: Value, s: Value, loc: Location, kw: Keyword, v': Value, s': Value)
    requires Resolve(v, s, loc) == Some((v', s'))
    ensures MissesAt(v, s, loc, kw) == Misses(v', s', kw)
    ensures RefusesAt(v, s, loc, kw) == Refuses(v', s', kw)
  {
  }

  lemma PlacesAgreeIff(v: Value, s: Value, loc: Location, kw: Keyword)
    requires Resolve(v, s, loc).Some? ==> Covered(Resolve(v, s, loc).value.1)
    ensures MissesAt(v, s, loc, kw) == (StandardBreaksAt(v, s, loc, kw) && !BreaksAt(v, s, loc, kw))
    ensures RefusesAt(v, s, loc, kw) == (BreaksAt(v, s, loc, kw) && !StandardBreaksAt(v, s, loc, kw))
  {
    match Resolve(v, s, loc) {
      case None =>
      case Some((v', s')) =>
        AtPlace(v, s, loc, kw, v', s');
        DifferenceAtPlace(v, s, loc, kw, v', s');
        CoveredKeywordsAgreeIff(v', s', kw);
    }
  }

  /** Whole values, exactly: one that the checker passes conforms to the standard if and only if
      nothing is missed anywhere in it, and one that conforms to the standard passes the
      checker if and only if nothing in it is refused in excess. */
  lemma ConformanceAgreesIff(v: Value, s: Value)
    requires CoveredThroughout(v, s)
    ensures Conforms(v, s) ==> (StandardConforms(v, s) <==> forall loc, kw :: !MissesAt(v, s, loc, kw))
    ensures StandardConforms(v, s) ==> (Conforms(v, s) <==> forall loc, kw :: !RefusesAt(v, s, loc, kw))
  {
    forall loc, kw
      ensures MissesAt(v, s, loc, kw) == (StandardBreaksAt(v, s, loc, kw) && !BreaksAt(v, s, loc, kw))
      ensures RefusesAt(v, s, loc, kw) == (BreaksAt(v, s, loc, kw) && !StandardBreaksAt(v, s, loc, kw))
    {
      PlacesAgreeIff(v, s, loc, kw);
    }
  }

  // ---------- Values on which they differ ----------

  /** A value without parts can only go wrong at its root. */
  lemma OnlyTheRoot(v: Value, s: Value, loc: Location)
    requires !v.Obj? && !v.Arr?
    ensures Resolve(v, s, loc) == if loc == [] then Some((v, s)) else None
  {
    if loc != [] {
      assert Child(v, s, loc[0]) == None;
    }
  }

  lemma PassesAtRoot(v: Value, s: Value)
    requires !v.Obj? && !v.Arr? && forall kw :: !Breaks(v, s, kw)
    ensures Conforms(v, s)
  {
    forall loc, kw ensures !BreaksAt(v, s, loc, kw) {
      OnlyTheRoot(v, s, loc);
    }
  }

  /** `1.0` is refused as an integer. */
  lemma IntegralFloatIsRefused()
    ensures var s := Obj(map["type" := Str("integer")]);
            !Conforms(Float(1.0), s) && StandardConforms(Float(1.0), s)
  {
    var s := Obj(map["type" := Str("integer")]);
    assert BreaksAt(Float(1.0), s, [], TypeKw);
    forall loc, kw ensures !StandardBreaksAt(Float(1.0), s, loc, kw) {
      OnlyTheRoot(Float(1.0), s, loc);
    }
  }

  /** `true` is accepted where only `1` is allowed. */
  lemma TrueIsAcceptedAsOne()
    ensures var s := Obj(map["enum" := Arr([Int(1)])]);
            Conforms(Bool(true), s) && !StandardConforms(Bool(true), s)
  {
    var allowed := [Int(1)];
    var s := Obj(map["enum" := Arr(allowed)]);
    assert PyEq(Bool(true), allowed[0]) && !StandardEq(Bool(true), allowed[0]);
    PassesAtRoot(Bool(true), s);
    assert StandardBreaksAt(Bool(true), s, [], EnumKw);
  }

  /** A string of one character is accepted under a least length of `2.0`. */
  lemma FloatBoundIsIgnored(c: char)
    ensures var s := Obj(map["minLength" := Float(2.0)]);
            Conforms(Str([c]), s) && !StandardConforms(Str([c]), s)
  {
    var s := Obj(map["minLength" := Float(2.0)]);
    PassesAtRoot(Str([c]), s);
    assert StandardBreaksAt(Str([c]), s, [], MinLength);
  }

  /** An integer is accepted where a string or null is asked for. */
  lemma TypeListIsIgnored(i: int)
    ensures var s := Obj(map["type" := Arr([Str("string"), Str("null")])]);
            Conforms(Int(i), s) && !StandardConforms(Int(i), s)
  {
    var s := Obj(map["type" := Arr([Str("string"), Str("null")])]);
    PassesAtRoot(Int(i), s);
    assert StandardBreaksAt(Int(i), s, [], TypeKw);
  }
}
