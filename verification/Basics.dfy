/** Small value types and number functions shared by every module of the model. */
module Basics {

  datatype Option<+T> = None | Some(value: T)

  datatype Result<+T, +E> = Ok(value: T) | Err(error: E)

  function Min(a: int, b: int): int {
    if a <= b then a else b
  }

  function Max(a: int, b: int): int {
    if a >= b then a else b
  }

  lemma Associative<T>(a: seq<T>, b: seq<T>, c: seq<T>)
    ensures a + (b + c) == (a + b) + c
  {
  }

  /** Python's `x or default` for an optional string: the empty string is falsy too. */
  function Or(x: Option<string>, default: string): (r: string)
    ensures x == None || x == Some("") ==> r == default
    ensures x != None && x != Some("") ==> x == Some(r)
  {
    if x.Some? && x.value != "" then x.value else default
  }

  /** The number of the unit interval that is nearest to `x`. */
  predicate Nearest(x: real, r: real) {
    && 0.0 <= r <= 1.0
    && (0.0 <= x <= 1.0 ==> r == x) && (x < 0.0 ==> r == 0.0) && (x > 1.0 ==> r == 1.0)
  }

  /** Clamp to the unit interval, `max(0.0, min(1.0, x))`. */
  function Clamp01(x: real): (r: real)
    ensures Nearest(x, r)
  {
    if x < 0.0 then 0.0 else if x > 1.0 then 1.0 else x
  }

  /** `int(x)` on a float: truncation toward zero. */
  function Truncate(x: real): int {
    if x >= 0.0 then x.Floor else -((-x).Floor)
  }

  /** Python's `round(x, 6)`: to the nearest millionth, ties to even. */
  function Round6(x: real): real {
    RoundHalfEven(x * 1000000.0) as real / 1000000.0
  }

  function RoundHalfEven(x: real): int {
    var n := x.Floor;
    var rest := x - n as real;
    if rest < 0.5 || (rest == 0.5 && n % 2 == 0) then n else n + 1
  }

  /** Rounding keeps order and keeps the unit interval. */
  lemma Round6Monotone(x: real, y: real)
    requires x <= y
    ensures Round6(x) <= Round6(y)
    ensures 0.0 <= x ==> 0.0 <= Round6(x)
    ensures y <= 1.0 ==> Round6(y) <= 1.0
  {
    RoundMonotone(x * 1000000.0, y * 1000000.0);
  }

  /** The rounded value is within half a millionth, so a millionth is kept as it is. */
  lemma Round6IsNear(x: real)
    ensures Near(Round6(x), x)
  {
    var y := x * 1000000.0;
    var n := RoundHalfEven(y) as real;
    assert -0.5 <= n - y <= 0.5;
    Millionths(n, x);
  }

  predicate Near(rounded: real, x: real) {
    x - 0.0000005 <= rounded <= x + 0.0000005
  }

  lemma Millionths(n: real, x: real)
    requires -0.5 <= n - x * 1000000.0 <= 0.5
    ensures Near(n / 1000000.0, x)
  {
  }

  /** A value halfway between two integers goes to the even one. */
  lemma TiesGoToEven(n: int)
    ensures RoundHalfEven(n as real + 0.5) % 2 == 0
  {
    assert (n as real + 0.5).Floor == n;
  }

  lemma RoundMonotone(x: real, y: real)
    requires x <= y
    ensures RoundHalfEven(x) <= RoundHalfEven(y)
  {
    if x.Floor < y.Floor {
      assert x.Floor + 1 <= y.Floor;
    }
  }

  /** `w / total` against a threshold, without division. */
  lemma ShareAtLeast(w: real, total: real, share: real)
    requires total > 0.0
    ensures w / total >= share <==> w >= share * total
  {
    var q := w / total;
    assert q * total == w;
    if q >= share {
      assert q * total >= share * total;
    } else {
      assert (share - q) * total > 0.0;
    }
  }
}
