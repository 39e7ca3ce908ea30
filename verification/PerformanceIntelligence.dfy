/** Confidence calibration and decay assessment (`app/performance_intelligence.py`), in exact
    real arithmetic. */
module PerformanceIntelligence {
  import opened Basics
  import opened Json

  /** Python's `float` on a string and `str` on a value. */
  datatype Parsing = Parsing(parseFloat: string -> Option<real>, render: Value -> string)

  const SAMPLE_KEYS := [
    "sample_size", "total_executions", "execution_count", "observations", "trade_count", "closed_trades"]
  const RELIABILITY_KEYS := ["precision", "accuracy", "hit_rate", "win_rate", "success_rate"]
  const SCORE_KEYS := ["skill_score", "performance_score", "score"]
  const PROFIT_FACTOR_KEYS := ["profit_factor", "latest_profit_factor"]

  /** `float(value)`; None when it raises. */
  function AsFloat(parse: Parsing, v: Value): Option<real> {
    if v.Str? then parse.parseFloat(v.s) else v.Numeric()
  }

  /** The first of the keys that holds a number: booleans and absent values do not count, and
      neither does what `float` cannot read. */
  function FirstNumber(parse: Parsing, payload: Value, keys: seq<string>): Option<real> {
    if keys == [] then None
    else
      var v := payload.Get(keys[0]);
      if v.Bool? || AsFloat(parse, v).None? then FirstNumber(parse, payload, keys[1..]) else AsFloat(parse, v)
  }

  /** A percentage between 1 and 100 counts as a fraction; then clamp. */
  function NormalizeRate(x: Option<real>): (r: Option<real>)
    ensures r.Some? <==> x.Some?
    ensures r.Some? ==> 0.0 <= r.value <= 1.0
  {
    if x.None? then None
    else if x.value > 1.0 && x.value <= 100.0 then Some(Clamp01(x.value / 100.0))
    else Some(Clamp01(x.value))
  }

  function SampleSize(parse: Parsing, performance: Value): nat {
    var x := FirstNumber(parse, performance, SAMPLE_KEYS);
    if x.None? || Truncate(x.value) < 0 then 0 else Truncate(x.value)
  }

  function Reliability(parse: Parsing, performance: Value): Option<real> {
    NormalizeRate(FirstNumber(parse, performance, RELIABILITY_KEYS))
  }

  /** The first row of the ranking that names the skill. */
  function FindRow(parse: Parsing, rows: seq<Value>, skillId: string): Value {
    if rows == [] then Obj(map[])
    else if rows[0].Obj? && parse.render(rows[0].Get("skill_id")) == skillId then rows[0]
    else FindRow(parse, rows[1..], skillId)
  }

  function ExtractSkillPerformance(parse: Parsing, response: Value, skillId: string): Value {
    if response.Get("data").Arr? then FindRow(parse, response.Get("data").items, skillId) else Obj(map[])
  }

  // ---------- Calibration ----------

  datatype Calibration =
    | RawNotNumeric
    | NoHistory(raw: real, samples: nat, known: Option<real>)
    | Calibrated(raw: real, calibrated: real, samples: nat, reliability: real, evidence: real)

  /** The weight of n observations against a prior worth p. */
  function EvidenceWeight(n: nat, p: nat): real
    requires n + p > 0
  {
    n as real / (n + p) as real
  }

  /** The shrinkage estimate, before clamping and rounding. */
  function Blend(raw: real, reliability: real, n: nat, p: nat): real
    requires n + p > 0
  {
    raw * (1.0 - EvidenceWeight(n, p)) + reliability * EvidenceWeight(n, p)
  }

  function PriorOf(strength: int): nat {
    if strength < 1 then 1 else strength
  }

  function CalibrateConfidence(parse: Parsing, rawConfidence: Value, performance: Value,
                               priorStrength: int): Calibration {
    var parsed := AsFloat(parse, rawConfidence);
    if parsed.None? then RawNotNumeric
    else
      var raw := Clamp01(parsed.value);
      var n := SampleSize(parse, performance);
      var reliability := Reliability(parse, performance);
      if reliability.None? || n == 0 then NoHistory(raw, n, reliability)
      else
        var p := PriorOf(priorStrength);
        Calibrated(Round6(raw), Round6(Clamp01(Blend(raw, reliability.value, n, p))), n,
                   Round6(reliability.value), Round6(EvidenceWeight(n, p)))
  }

  lemma EvidenceBounds(n: nat, p: nat)
    requires p > 0
    ensures 0.0 <= EvidenceWeight(n, p) < 1.0
    ensures 1.0 - EvidenceWeight(n, p) == p as real / (n + p) as real
  {
    var d := (n + p) as real;
    assert EvidenceWeight(n, p) * d == n as real;
    assert (1.0 - EvidenceWeight(n, p)) * d == p as real;
    assert (p as real / d) * d == p as real;
    Cancel(1.0 - EvidenceWeight(n, p), p as real / d, d);
  }

  lemma Cancel(a: real, b: real, d: real)
    requires d > 0.0 && a * d == b * d
    ensures a == b
  {
    assert (a - b) * d == 0.0;
  }

  /** The estimate written from either end. */
  lemma BlendAsSteps(raw: real, reliability: real, n: nat, p: nat)
    requires p > 0
    ensures Blend(raw, reliability, n, p) == raw + (reliability - raw) * EvidenceWeight(n, p)
    ensures Blend(raw, reliability, n, p) == reliability + (raw - reliability) * (1.0 - EvidenceWeight(n, p))
  {
  }

  lemma ScaledDown(x: real, w: real)
    requires 0.0 <= w <= 1.0
    ensures x >= 0.0 ==> 0.0 <= x * w <= x
    ensures x <= 0.0 ==> x <= x * w <= 0.0
  {
    if x >= 0.0 {
      assert 0.0 * w <= x * w;
      assert x * w + x * (1.0 - w) == x;
    } else {
      assert 0.0 * w <= (-x) * w;
      assert (-x) * w + (-x) * (1.0 - w) == -x;
    }
  }

  /** The calibrated confidence lies between raw confidence and reliability, so the final clamp
      never fires on rates; its distance to reliability is exactly |raw - reliability| scaled
      by p / (n + p). */
  lemma CalibrationIsShrinkage(raw: real, reliability: real, n: nat, p: nat)
    requires p > 0
    ensures var b := Blend(raw, reliability, n, p);
            && (raw <= reliability ==> raw <= b <= reliability)
            && (reliability <= raw ==> reliability <= b <= raw)
            && b - reliability == (raw - reliability) * (p as real / (n + p) as real)
            && (0.0 <= raw <= 1.0 && 0.0 <= reliability <= 1.0 ==> Clamp01(b) == b)
  {
    EvidenceBounds(n, p);
    BlendAsSteps(raw, reliability, n, p);
    ScaledDown(reliability - raw, EvidenceWeight(n, p));
    ScaledDown(raw - reliability, 1.0 - EvidenceWeight(n, p));
  }

  /** More observations bring the estimate closer to reliability. */
  lemma MoreEvidenceIsCloser(raw: real, reliability: real, n: nat, m: nat, p: nat)
    requires p > 0 && n <= m
    ensures raw <= reliability ==> Blend(raw, reliability, n, p) <= Blend(raw, reliability, m, p)
    ensures reliability <= raw ==> Blend(raw, reliability, m, p) <= Blend(raw, reliability, n, p)
  {
    MoreEvidence(n, m, p);
    BlendAsSteps(raw, reliability, n, p);
    BlendAsSteps(raw, reliability, m, p);
    StepsGrow(reliability - raw, EvidenceWeight(n, p), EvidenceWeight(m, p));
  }

  lemma StepsGrow(x: real, v: real, w: real)
    requires v <= w
    ensures x >= 0.0 ==> x * v <= x * w
    ensures x <= 0.0 ==> x * w <= x * v
  {
    assert x * w - x * v == x * (w - v);
    if x >= 0.0 {
      assert x * (w - v) >= 0.0 * (w - v);
    } else {
      assert (-x) * (w - v) >= 0.0 * (w - v);
    }
  }

  lemma MoreEvidence(n: nat, m: nat, p: nat)
    requires p > 0 && n <= m
    ensures EvidenceWeight(n, p) <= EvidenceWeight(m, p)
  {
    EvidenceBounds(n, p);
    var v, d := EvidenceWeight(n, p), (m + p) as real;
    assert v * (n + p) as real == n as real;
    assert v * d == v * (n + p) as real + v * (m - n) as real;
    assert v * (m - n) as real <= 1.0 * (m - n) as real;
    ShareAtLeast(m as real, d, v);
  }

  /** The estimate is monotone in raw confidence and in reliability. */
  lemma CalibrationIsMonotone(raw: real, raw': real, reliability: real, reliability': real, n: nat, p: nat)
    requires p > 0 && raw <= raw' && reliability <= reliability'
    ensures Blend(raw, reliability, n, p) <= Blend(raw', reliability', n, p)
  {
    EvidenceBounds(n, p);
    var w := EvidenceWeight(n, p);
    assert raw * (1.0 - w) <= raw' * (1.0 - w);
    assert reliability * w <= reliability' * w;
  }

  /** What a caller reads: the reported confidence lies between the reported raw confidence
      and the reported reliability, all three rates. */
  lemma ReportedCalibrationIsBetween(parse: Parsing, rawConfidence: Value, performance: Value, priorStrength: int)
    requires CalibrateConfidence(parse, rawConfidence, performance, priorStrength).Calibrated?
    ensures var c := CalibrateConfidence(parse, rawConfidence, performance, priorStrength);
            && 0.0 <= c.calibrated <= 1.0
            && (c.raw <= c.calibrated <= c.reliability || c.reliability <= c.calibrated <= c.raw)
  {
    var raw := Clamp01(AsFloat(parse, rawConfidence).value);
    var n, p := SampleSize(parse, performance), PriorOf(priorStrength);
    var reliability := Reliability(parse, performance).value;
    var b := Blend(raw, reliability, n, p);
    CalibrationIsShrinkage(raw, reliability, n, p);
    if raw <= reliability {
      Round6Monotone(raw, b);
      Round6Monotone(b, reliability);
    } else {
      Round6Monotone(reliability, b);
      Round6Monotone(b, raw);
    }
    Round6Monotone(0.0, b);
    Round6Monotone(b, 1.0);
  }

  // ---------- What the metrics and the calibration are, read off the data ----------

  /** The number a metric entry states; booleans and what is no number state none. */
  function Stated(parse: Parsing, v: Value): Option<real> {
    match v
    case Int(i) => Some(i as real)
    case Float(r) => Some(r)
    case Str(s) => parse.parseFloat(s)
    case _ => None
  }

  /** The first of the named entries that states a number states `x`, or none does. */
  ghost predicate FirstStated(parse: Parsing, payload: Value, names: seq<string>, x: Option<real>) {
    match x
    case None => forall i | 0 <= i < |names| :: Stated(parse, payload.Get(names[i])).None?
    case Some(_) =>
      exists i | 0 <= i < |names| ::
        && Stated(parse, payload.Get(names[i])) == x
        && forall j | 0 <= j < i :: Stated(parse, payload.Get(names[j])).None?
  }

  lemma {:induction false} FirstNumberIsFirst(parse: Parsing, payload: Value, keys: seq<string>)
    ensures FirstStated(parse, payload, keys, FirstNumber(parse, payload, keys))
  {
    if keys != [] {
      var x := FirstNumber(parse, payload, keys);
      if Stated(parse, payload.Get(keys[0])).None? {
        FirstNumberIsFirst(parse, payload, keys[1..]);
        if x.Some? {
          var i :| 0 <= i < |keys[1..]| && Stated(parse, payload.Get(keys[1..][i])) == x
                   && forall j | 0 <= j < i :: Stated(parse, payload.Get(keys[1..][j])).None?;
          assert Stated(parse, payload.Get(keys[i + 1])) == x;
          forall j | 0 <= j < i + 1 ensures Stated(parse, payload.Get(keys[j])).None? {
            assert j > 0 ==> keys[j] == keys[1..][j - 1];
          }
        } else {
          forall i | 0 <= i < |keys| ensures Stated(parse, payload.Get(keys[i])).None? {
            assert i > 0 ==> keys[i] == keys[1..][i - 1];
          }
        }
      }
    }
  }

  /** The rate a stated number is: itself up to one, a percentage above one and up to 100, and no
      less than zero and no more than one. */
  predicate RateOf(x: Option<real>, rate: Option<real>) {
    match x
    case None => rate == None
    case Some(n) => rate.Some? && Nearest(if 1.0 < n <= 100.0 then n / 100.0 else n, rate.value)
  }

  /** The whole observations in a stated number, none if there is none. */
  predicate CountOf(x: Option<real>, n: nat) {
    if x.None? || x.value < 1.0 then n == 0 else n as real <= x.value < (n + 1) as real
  }

  /** The four metrics: which entries they are read from, in order of preference, and what is made
      of them. */
  lemma MetricsExactly(parse: Parsing, performance: Value)
    ensures exists x ::
              FirstStated(parse, performance,
                          ["sample_size", "total_executions", "execution_count", "observations", "trade_count",
                           "closed_trades"], x)
              && CountOf(x, SampleSize(parse, performance))
    ensures exists x ::
              FirstStated(parse, performance, ["precision", "accuracy", "hit_rate", "win_rate", "success_rate"], x)
              && RateOf(x, Reliability(parse, performance))
    ensures exists x ::
              FirstStated(parse, performance, ["skill_score", "performance_score", "score"], x)
              && RateOf(x, Score(parse, performance))
    ensures FirstStated(parse, performance, ["profit_factor", "latest_profit_factor"], ProfitFactor(parse, performance))
  {
    FirstNumberIsFirst(parse, performance, SAMPLE_KEYS);
    FirstNumberIsFirst(parse, performance, RELIABILITY_KEYS);
    FirstNumberIsFirst(parse, performance, SCORE_KEYS);
    FirstNumberIsFirst(parse, performance, PROFIT_FACTOR_KEYS);
    assert CountOf(FirstNumber(parse, performance, SAMPLE_KEYS), SampleSize(parse, performance));
    assert RateOf(FirstNumber(parse, performance, RELIABILITY_KEYS), Reliability(parse, performance));
    assert RateOf(FirstNumber(parse, performance, SCORE_KEYS), Score(parse, performance));
  }

  predicate Names(parse: Parsing, row: Value, skillId: string) {
    row.Obj? && parse.render(row.Get("skill_id")) == skillId
  }

  lemma {:induction false} FirstRowNamed(parse: Parsing, rows: seq<Value>, skillId: string, i: nat)
    requires i < |rows| && Names(parse, rows[i], skillId)
    requires forall j | 0 <= j < i :: !Names(parse, rows[j], skillId)
    ensures FindRow(parse, rows, skillId) == rows[i]
  {
    if i > 0 {
      assert !Names(parse, rows[0], skillId);
      assert forall j | 0 <= j < i - 1 :: rows[1..][j] == rows[j + 1];
      FirstRowNamed(parse, rows[1..], skillId, i - 1);
    }
  }

  lemma {:induction false} NoRowNamed(parse: Parsing, rows: seq<Value>, skillId: string)
    requires forall i | 0 <= i < |rows| :: !Names(parse, rows[i], skillId)
    ensures FindRow(parse, rows, skillId) == Obj(map[])
  {
    if rows != [] {
      assert !Names(parse, rows[0], skillId);
      NoRowNamed(parse, rows[1..], skillId);
    }
  }

  /** A skill's performance is the first row of the ranking that names it, and empty if none does
      or there is no list of rows. */
  lemma PerformanceExactly(parse: Parsing, response: Value, skillId: string)
    ensures var data, found := response.Get("data"), ExtractSkillPerformance(parse, response, skillId);
            if data.Arr? && exists i :: 0 <= i < |data.items| && Names(parse, data.items[i], skillId)
            then exists i | 0 <= i < |data.items| && Names(parse, data.items[i], skillId) ::
                   found == data.items[i] && forall j | 0 <= j < i :: !Names(parse, data.items[j], skillId)
            else found == Obj(map[])
  {
    var data := response.Get("data");
    if data.Arr? {
      if i :| 0 <= i < |data.items| && Names(parse, data.items[i], skillId) {
        var first := FirstThatNames(parse, data.items, skillId, i);
        FirstRowNamed(parse, data.items, skillId, first);
      } else {
        NoRowNamed(parse, data.items, skillId);
      }
    }
  }

  lemma {:induction false} FirstThatNames(parse: Parsing, rows: seq<Value>, skillId: string, i: nat)
      returns (first: nat)
    requires i < |rows| && Names(parse, rows[i], skillId)
    ensures first < |rows| && Names(parse, rows[first], skillId)
    ensures forall j | 0 <= j < first :: !Names(parse, rows[j], skillId)
  {
    if j :| 0 <= j < i && Names(parse, rows[j], skillId) {
      first := FirstThatNames(parse, rows, skillId, j);
    } else {
      first := i;
    }
  }

  /** The number a confidence is: unlike in a metric, a boolean counts as 0 or 1. */
  function ConfidenceNumber(parse: Parsing, v: Value): Option<real> {
    if v == Bool(true) then Some(1.0) else if v == Bool(false) then Some(0.0) else Stated(parse, v)
  }

  /** The reported values, up to rounding: the confidence is the reliability plus the prior's share
      p / (n + p) of its distance to the raw confidence. */
  predicate Shrunk(raw: real, reliability: real, n: nat, p: nat, c: Calibration)
    requires n + p > 0
  {
    && c.Calibrated? && c.samples == n
    && Near(c.calibrated, reliability + (raw - reliability) * (p as real / (n + p) as real))
    && Near(c.raw, raw) && Near(c.reliability, reliability) && Near(c.evidence, n as real / (n + p) as real)
  }

  /** What is reported of a confidence: nothing if it is no number; the confidence as it is, in the
      unit interval, without a known reliability or observations; else the shrunk one. */
  ghost predicate CalibrationFits(parse: Parsing, confidence: Value, n: nat, reliability: Option<real>,
                                  priorStrength: int, c: Calibration) {
    var x := ConfidenceNumber(parse, confidence);
    if x.None? then c == RawNotNumeric
    else
      exists raw | Nearest(x.value, raw) ::
        if reliability.None? || n == 0 then c == NoHistory(raw, n, reliability)
        else Shrunk(raw, reliability.value, n, if priorStrength >= 1 then priorStrength else 1, c)
  }

  lemma CalibrationExactly(parse: Parsing, confidence: Value, performance: Value, priorStrength: int)
    ensures CalibrationFits(parse, confidence, SampleSize(parse, performance), Reliability(parse, performance),
                            priorStrength, CalibrateConfidence(parse, confidence, performance, priorStrength))
  {
    var x := ConfidenceNumber(parse, confidence);
    assert x == AsFloat(parse, confidence);
    if x.Some? {
      var raw, n, reliability := Clamp01(x.value), SampleSize(parse, performance), Reliability(parse, performance);
      assert Nearest(x.value, raw);
      if reliability.Some? && n > 0 {
        ReportedIsShrunk(raw, reliability.value, n, PriorOf(priorStrength));
      }
    }
  }

  lemma ReportedIsShrunk(raw: real, reliability: real, n: nat, p: nat)
    requires p > 0 && 0.0 <= raw <= 1.0 && 0.0 <= reliability <= 1.0
    ensures Shrunk(raw, reliability, n, p,
                   Calibrated(Round6(raw), Round6(Clamp01(Blend(raw, reliability, n, p))), n, Round6(reliability),
                              Round6(EvidenceWeight(n, p))))
  {
    CalibrationIsShrinkage(raw, reliability, n, p);
    Round6IsNear(raw);
    Round6IsNear(reliability);
    Round6IsNear(Blend(raw, reliability, n, p));
    Round6IsNear(EvidenceWeight(n, p));
  }

  // ---------- Decay ----------

  datatype Health = InsufficientData | Critical | Degraded | Healthy

  datatype Reason =
    | Reliability35 | Reliability48 | Score35 | Score50 | Profit80 | Profit100
    | WithinGuardrails | TooFewObservations

  datatype Decay = Decay(health: Health, samples: nat, reasons: seq<Reason>)

  predicate Under(x: Option<real>, bound: real) {
    x.Some? && x.value < bound
  }

  function Score(parse: Parsing, performance: Value): Option<real> {
    NormalizeRate(FirstNumber(parse, performance, SCORE_KEYS))
  }

  function ProfitFactor(parse: Parsing, performance: Value): Option<real> {
    FirstNumber(parse, performance, PROFIT_FACTOR_KEYS)
  }

  predicate Severe(reliability: Option<real>, score: Option<real>, profit: Option<real>) {
    Under(reliability, 0.35) || Under(score, 0.35) || Under(profit, 0.80)
  }

  predicate Weak(reliability: Option<real>, score: Option<real>, profit: Option<real>) {
    Under(reliability, 0.48) || Under(score, 0.50) || Under(profit, 1.00)
  }

  /** The reason a metric gives: severe below its first bound, weak below its second. */
  function ReasonFor(x: Option<real>, severeBound: real, weakBound: real, severeReason: Reason, weakReason: Reason):
      seq<Reason> {
    if Under(x, severeBound) then [severeReason] else if Under(x, weakBound) then [weakReason] else []
  }

  /** The reasons of the three metrics, in order. */
  function MetricReasons(reliability: Option<real>, score: Option<real>, profit: Option<real>): seq<Reason> {
    ReasonFor(reliability, 0.35, 0.48, Reliability35, Reliability48)
    + ReasonFor(score, 0.35, 0.50, Score35, Score50)
    + ReasonFor(profit, 0.80, 1.00, Profit80, Profit100)
  }

  /** The verdict on a skill's performance: too few observations, else critical with any severe
      metric, else degraded with any weak one, else healthy; with the reasons of the metrics. */
  ghost predicate Assessed(parse: Parsing, performance: Value, minimumSampleSize: int, d: Decay) {
    var r, s, f := Reliability(parse, performance), Score(parse, performance), ProfitFactor(parse, performance);
    && d.samples == SampleSize(parse, performance)
    && match d.health
       case InsufficientData => d.samples < minimumSampleSize && d.reasons == [TooFewObservations]
       case Critical => d.samples >= minimumSampleSize && Severe(r, s, f) && d.reasons == MetricReasons(r, s, f)
       case Degraded =>
         && d.samples >= minimumSampleSize && Weak(r, s, f) && !Severe(r, s, f)
         && d.reasons == MetricReasons(r, s, f)
       case Healthy => d.samples >= minimumSampleSize && !Weak(r, s, f) && d.reasons == [WithinGuardrails]
  }

  /** No metric gives a reason exactly when none is weak, and a severe metric is weak. */
  lemma NoReasonIffNotWeak(r: Option<real>, s: Option<real>, f: Option<real>)
    ensures MetricReasons(r, s, f) == [] <==> !Weak(r, s, f)
    ensures Severe(r, s, f) ==> Weak(r, s, f)
  {
  }

  /** A metric is severe below its first bound and weak below its second. */
  method Grade(x: Option<real>, severeBound: real, weakBound: real, severeReason: Reason, weakReason: Reason,
               severe: bool, degraded: bool, reasons: seq<Reason>)
      returns (severe': bool, degraded': bool, reasons': seq<Reason>)
    requires severeBound <= weakBound
    ensures severe' <==> severe || Under(x, severeBound)
    ensures degraded' <==> degraded || (Under(x, weakBound) && !Under(x, severeBound))
    ensures reasons' == reasons + ReasonFor(x, severeBound, weakBound, severeReason, weakReason)
  {
    severe', degraded', reasons' := severe, degraded, reasons;
    if x.Some? {
      if x.value < severeBound {
        severe', reasons' := true, reasons' + [severeReason];
      } else if x.value < weakBound {
        degraded', reasons' := true, reasons' + [weakReason];
      }
    }
  }

  method AssessPerformanceDecay(parse: Parsing, performance: Value, minimumSampleSize: int) returns (d: Decay)
    ensures Assessed(parse, performance, minimumSampleSize, d)
    ensures d.reasons != []
  {
    var n := SampleSize(parse, performance);
    if n < minimumSampleSize {
      return Decay(InsufficientData, n, [TooFewObservations]);
    }
    var severe, degraded, reasons := false, false, [];
    var reliability, score, profit :=
      Reliability(parse, performance), Score(parse, performance), ProfitFactor(parse, performance);
    severe, degraded, reasons :=
      Grade(reliability, 0.35, 0.48, Reliability35, Reliability48, severe, degraded, reasons);
    severe, degraded, reasons := Grade(score, 0.35, 0.50, Score35, Score50, severe, degraded, reasons);
    severe, degraded, reasons := Grade(profit, 0.80, 1.00, Profit80, Profit100, severe, degraded, reasons);
    assert reasons == MetricReasons(reliability, score, profit);
    NoReasonIffNotWeak(reliability, score, profit);
    if severe {
      return Decay(Critical, n, reasons);
    } else if degraded {
      return Decay(Degraded, n, reasons);
    }
    return Decay(Healthy, n, reasons + [WithinGuardrails]);
  }
}
