/** The JSON-like Python values that schemas, inputs, outputs and database rows are made of.
    Dictionaries have string keys; floats are exact reals. */
module Json {
  import opened Basics

  datatype Value =
    | Null
    | Bool(b: bool)
    | Int(i: int)
    | Float(r: real)
    | Str(s: string)
    | Arr(items: seq<Value>)
    | Obj(fields: map<string, Value>)
  {
    /** Python truthiness. */
    predicate Truthy()
      ensures Truthy() <==>
              && this != Null && this != Bool(false) && this != Int(0) && this != Float(0.0)
              && this != Str("") && this != Arr([]) && this != Obj(map[])
    {
      match this
      case Null => false
      case Bool(b) => b
      case Int(i) => i != 0
      case Float(r) => r != 0.0
      case Str(s) => s != ""
      case Arr(items) => items != []
      case Obj(fields) => fields != map[]
    }

    /** `value.get(name)` on a dictionary; None, here Null, when it is absent. */
    function Get(name: string): Value {
      if Obj? && name in fields then fields[name] else Null
    }

    /** The number behind an `int`, a `float` or a `bool` (a bool is an int in Python). */
    function Numeric(): Option<real> {
      match this
      case Bool(b) => Some(if b then 1.0 else 0.0)
      case Int(i) => Some(i as real)
      case Float(r) => Some(r)
      case _ => None
    }

    /** `isinstance(value, (int, float)) and not isinstance(value, bool)`. */
    predicate IsNumber() {
      Int? || Float?
    }
  }

  /** Python's `==`: numbers and booleans compare by magnitude, dictionaries without order. */
  predicate PyEq(a: Value, b: Value)
    decreases a
  {
    if a.Numeric().Some? && b.Numeric().Some? then a.Numeric() == b.Numeric()
    else if a.Arr? && b.Arr? then
      && |a.items| == |b.items|
      && forall i | 0 <= i < |a.items| :: PyEq(a.items[i], b.items[i])
    else if a.Obj? && b.Obj? then
      && a.fields.Keys == b.fields.Keys
      && forall k | k in a.fields :: PyEq(a.fields[k], b.fields[k])
    else a == b
  }

  /** The magnitude a scalar compares by: a boolean counts as 0 or 1. */
  predicate ComparesAs(v: Value, x: real) {
    v == Float(x) || (v.Int? && v.i as real == x) || (v == Bool(true) && x == 1.0) || (v == Bool(false) && x == 0.0)
  }

  /** Scalars that compare by magnitude are equal when these are; arrays of them item by item. */
  lemma MagnitudesExactly(a: Value, b: Value, x: real, y: real)
    requires ComparesAs(a, x) && ComparesAs(b, y)
    ensures PyEq(a, b) <==> x == y
    ensures PyEq(Arr([a]), Arr([b])) <==> x == y
  {
    assert Arr([a]).items[0] == a && Arr([b]).items[0] == b;
  }
}
