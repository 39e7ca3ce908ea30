/** The executor decorators (`app/schema_enforcing_executor.py`,
    `app/performance_aware_executor.py`): what a final success guarantees. */
module Executors {
  import opened Basics
  import opened Json
  import opened SchemaContracts
  import opened PerformanceIntelligence

  /** The registered input and output schemas, by skill. */
  datatype Contract = Contract(input: Value, output: Value)

  datatype Call = Call(skillId: string, code: string, inputs: Value, functionName: Option<string>, timeout: real)

  /** The `schema_contract` entry; None for a side that was not judged. */
  datatype SchemaReport = SchemaReport(inputValid: bool, outputValid: Option<bool>, errors: seq<Violation>,
                                       inputEnforced: bool, outputEnforced: bool)

  datatype Intelligence =
    | NotApplied
    | Applied(hasHistory: bool, calibration: Calibration, decay: Decay)

  /** A result dictionary, mutable and shared as Python's are: the two entries the decorators
      write, and every other entry. */
  class ResultDict {
    var fields: map<string, Value>
    var schema: Option<SchemaReport>
    var intelligence: Option<Intelligence>

    constructor (fields: map<string, Value>)
      ensures this.fields == fields && schema == None && intelligence == None
    {
      this.fields, schema, intelligence := fields, None, None;
    }

    function Get(name: string): Value
      reads this
    {
      Obj(fields).Get(name)
    }
  }

  /** The isolated executor being decorated: an arbitrary behaviour, and the calls made to it. */
  class Delegate {
    const behaviour: Call -> map<string, Value>
    var calls: seq<Call>

    constructor (behaviour: Call -> map<string, Value>)
      ensures this.behaviour == behaviour && calls == []
    {
      this.behaviour, calls := behaviour, [];
    }

    method Execute(call: Call) returns (result: ResultDict)
      modifies this
      ensures fresh(result) && result.fields == behaviour(call) && result.schema == None && result.intelligence == None
      ensures calls == old(calls) + [call]
    {
      calls := calls + [call];
      result := new ResultDict(behaviour(call));
    }
  }

  const SUCCESS := Str("success")

  /** How the schema layer answers a call, given what the delegate would return. */
  datatype Answer = UnknownSkill | InputRejected | NotSuccessful | OutputRejected | Succeeded

  ghost function AnswerTo(contracts: map<string, Contract>, behaviour: Call -> map<string, Value>, call: Call): Answer {
    if call.skillId !in contracts then UnknownSkill
    else if !Conforms(call.inputs, contracts[call.skillId].input) then InputRejected
    else if Obj(behaviour(call)).Get("execution_status") != SUCCESS then NotSuccessful
    else if !Conforms(Obj(behaviour(call)).Get("output"), contracts[call.skillId].output) then OutputRejected
    else Succeeded
  }

  /** The listed errors are exactly the reportable violations. */
  ghost predicate AllReported(errors: seq<Violation>, value: Value, schema: Value) {
    forall e :: e in errors <==> ReportedUnder(value, schema, [], e)
  }

  /** The dictionary a rejected input is answered with. */
  function InputRejection(skillId: string): map<string, Value> {
    map["skill_id" := Str(skillId),
        "execution_status" := Str("input_schema_rejected"),
        "error" := Str("skill_input_schema_validation_failed"),
        "output" := Obj(map[]),
        "safety" := Obj(map[
          "broker_access" := Bool(false), "network_access" := Bool(false),
          "file_access" := Bool(false), "order_placement" := Bool(false)])]
  }

  /** A result whose output is withheld: moved aside, every entry but these four kept. */
  function OutputRejection(fields: map<string, Value>): map<string, Value> {
    fields + map["execution_status" := Str("output_schema_rejected"),
                 "error" := Str("skill_output_schema_validation_failed"),
                 "output" := Obj(map[]),
                 "rejected_output" := Obj(fields).Get("output")]
  }

  /** What the schema layer gives back for a known skill: the delegate's dictionary as it is
      unless something was rejected, and a report that lists exactly the reportable violations
      of what was. */
  ghost predicate SchemaResult(contract: Contract, call: Call, returned: map<string, Value>, a: Answer,
                               fields: map<string, Value>, report: SchemaReport) {
    && report.inputEnforced == contract.input.Truthy() && report.outputEnforced == contract.output.Truthy()
    && match a
       case UnknownSkill => false
       case InputRejected =>
         && fields == InputRejection(call.skillId)
         && !report.inputValid && report.outputValid == None && report.errors != []
         && AllReported(report.errors, call.inputs, contract.input)
       case NotSuccessful =>
         fields == returned && report.inputValid && report.outputValid == None && report.errors == []
       case OutputRejected =>
         && fields == OutputRejection(returned)
         && report.inputValid && report.outputValid == Some(false) && report.errors != []
         && AllReported(report.errors, Obj(returned).Get("output"), contract.output)
       case Succeeded =>
         fields == returned && report.inputValid && report.outputValid == Some(true) && report.errors == []
  }

  /** The status entry of what is given back tells success apart. */
  lemma StatusTellsSuccess(contracts: map<string, Contract>, behaviour: Call -> map<string, Value>, call: Call,
                           fields: map<string, Value>, report: SchemaReport)
    requires call.skillId in contracts
    requires SchemaResult(contracts[call.skillId], call, behaviour(call), AnswerTo(contracts, behaviour, call),
                          fields, report)
    ensures Obj(fields).Get("execution_status") == SUCCESS <==> AnswerTo(contracts, behaviour, call) == Succeeded
  {
  }

  /** The calls a delegate has had after one more request. */
  function CallsAfter(calls: seq<Call>, a: Answer, call: Call): seq<Call> {
    if a == UnknownSkill || a == InputRejected then calls else calls + [call]
  }

  class SchemaEnforcingExecutor {
    const contracts: map<string, Contract>
    const delegate: Delegate

    constructor (contracts: map<string, Contract>, delegate: Delegate)
      ensures this.contracts == contracts && this.delegate == delegate
    {
      this.contracts, this.delegate := contracts, delegate;
    }

    function Report(skillId: string, inputValid: bool, outputValid: Option<bool>, errors: seq<Violation>): SchemaReport
      requires skillId in contracts
    {
      SchemaReport(inputValid, outputValid, errors,
                   contracts[skillId].input.Truthy(), contracts[skillId].output.Truthy())
    }

    /** The delegate runs exactly when the inputs conform; its result is passed on with its
        output untouched exactly when that conforms too, and is withheld otherwise. */
    method Execute(call: Call) returns (r: Option<ResultDict>)
      modifies delegate
      ensures var a := AnswerTo(contracts, delegate.behaviour, call);
              && (r.None? <==> a == UnknownSkill)
              && delegate.calls == CallsAfter(old(delegate.calls), a, call)
              && (r.Some? ==>
                    && fresh(r.value) && r.value.intelligence == None && r.value.schema.Some?
                    && SchemaResult(contracts[call.skillId], call, delegate.behaviour(call), a,
                                    r.value.fields, r.value.schema.value))
    {
      if call.skillId !in contracts {
        return None;
      }
      var contract := contracts[call.skillId];
      var inputErrors := ValidateSchemaContract(call.inputs, contract.input, []);
      if inputErrors != [] {
        var rejected := RejectInput(call, inputErrors);
        return Some(rejected);
      }
      var result := delegate.Execute(call);
      var output := result.Get("output");
      if result.Get("execution_status") != SUCCESS {
        result.schema := Some(Report(call.skillId, true, None, []));
        return Some(result);
      }
      var outputErrors := ValidateSchemaContract(output, contract.output, []);
      if outputErrors != [] {
        var rejected := RejectOutput(call, result, output, outputErrors);
        return Some(rejected);
      }
      result.schema := Some(Report(call.skillId, true, Some(true), []));
      return Some(result);
    }

    method RejectInput(call: Call, errors: seq<Violation>) returns (result: ResultDict)
      requires call.skillId in contracts
      ensures fresh(result) && result.fields == InputRejection(call.skillId)
      ensures result.schema == Some(Report(call.skillId, false, None, errors)) && result.intelligence == None
    {
      result := new ResultDict(map[
        "skill_id" := Str(call.skillId),
        "execution_status" := Str("input_schema_rejected"),
        "error" := Str("skill_input_schema_validation_failed"),
        "output" := Obj(map[]),
        "safety" := Obj(map[
          "broker_access" := Bool(false), "network_access" := Bool(false),
          "file_access" := Bool(false), "order_placement" := Bool(false)])]);
      result.schema := Some(Report(call.skillId, false, None, errors));
    }

    /** A new dictionary; the delegate's result object is not changed. */
    method RejectOutput(call: Call, from: ResultDict, output: Value, errors: seq<Violation>)
        returns (result: ResultDict)
      requires call.skillId in contracts && output == from.Get("output")
      ensures fresh(result) && result.fields == OutputRejection(from.fields)
      ensures result.schema == Some(Report(call.skillId, true, Some(false), errors)) && result.intelligence == None
      ensures result.Get("execution_status") == Str("output_schema_rejected") && result.Get("output") == Obj(map[])
      ensures result.Get("rejected_output") == output
      ensures forall k | k in from.fields && k !in {"execution_status", "error", "output", "rejected_output"} ::
                k in result.fields && result.fields[k] == from.fields[k]
    {
      result := new ResultDict(from.fields + map[
        "execution_status" := Str("output_schema_rejected"),
        "error" := Str("skill_output_schema_validation_failed"),
        "output" := Obj(map[]),
        "rejected_output" := output]);
      result.schema := Some(Report(call.skillId, true, Some(false), errors));
    }
  }

  function AsObject(v: Value): Value {
    if v.Obj? then v else Obj(map[])
  }

  /** What the advisory layer gives back: everything the schema layer did, except that the
      output of a success that is no object becomes the empty object. */
  ghost predicate AdvisedResult(contract: Contract, call: Call, returned: map<string, Value>, a: Answer,
                                fields: map<string, Value>, report: SchemaReport, advice: Intelligence) {
    if a == Succeeded then
      && SchemaResult(contract, call, returned, a, returned, report)
      && fields == returned["output" := AsObject(Obj(returned).Get("output"))]
      && advice.Applied?
    else
      SchemaResult(contract, call, returned, a, fields, report) && advice == NotApplied
  }

  /** The advice on an output: the calibration of the confidence it states against the skill's
      row of the ranking, and the assessment of that row. */
  ghost predicate Advises(parse: Parsing, ranking: Value, skillId: string, output: Value, advice: Intelligence) {
    var performance := ExtractSkillPerformance(parse, ranking, skillId);
    && advice.Applied? && advice.hasHistory == performance.Truthy()
    && advice.calibration == CalibrateConfidence(parse, output.Get("confidence"), performance, 30)
    && CalibrationFits(parse, output.Get("confidence"), SampleSize(parse, performance), Reliability(parse, performance),
                       30, advice.calibration)
    && Assessed(parse, performance, 30, advice.decay)
  }

  class PerformanceAwareExecutor {
    const delegate: SchemaEnforcingExecutor
    const rankSkills: () -> Value
    const parse: Parsing

    constructor (delegate: SchemaEnforcingExecutor, rankSkills: () -> Value, parse: Parsing)
      ensures this.delegate == delegate && this.rankSkills == rankSkills && this.parse == parse
    {
      this.delegate, this.rankSkills, this.parse := delegate, rankSkills, parse;
    }

    /** End to end, for any delegate: a final success means the inputs conformed, the delegate
        was called with them and succeeded, and its output conformed; every entry a caller then
        sees is the delegate's, the output too if it is an object. What was rejected or failed
        is passed on as the schema layer left it. */
    method Execute(call: Call) returns (r: Option<ResultDict>)
      modifies delegate.delegate
      ensures var d, contracts := delegate.delegate, delegate.contracts;
              var a := AnswerTo(contracts, d.behaviour, call);
              && (r.None? <==> a == UnknownSkill)
              && d.calls == CallsAfter(old(d.calls), a, call)
              && (r.Some? ==>
                    && fresh(r.value) && r.value.schema.Some? && r.value.intelligence.Some?
                    && (r.value.Get("execution_status") == SUCCESS <==> a == Succeeded)
                    && AdvisedResult(contracts[call.skillId], call, d.behaviour(call), a,
                                     r.value.fields, r.value.schema.value, r.value.intelligence.value)
                    && (a == Succeeded ==> Advises(parse, rankSkills(), call.skillId, r.value.Get("output"),
                                                   r.value.intelligence.value)))
    {
      r := delegate.Execute(call);
      if r.None? {
        return;
      }
      var result := r.value;
      StatusTellsSuccess(delegate.contracts, delegate.delegate.behaviour, call, result.fields, result.schema.value);
      if result.Get("execution_status") != SUCCESS {
        result.intelligence := Some(NotApplied);
        return;
      }
      Annotate(result, call.skillId);
    }

    /** Make the output an object and attach the advice on it. */
    method Annotate(result: ResultDict, skillId: string)
      modifies result
      ensures result.fields == old(result.fields)["output" := AsObject(old(result.Get("output")))]
      ensures result.schema == old(result.schema) && result.intelligence.Some?
      ensures Advises(parse, rankSkills(), skillId, result.Get("output"), result.intelligence.value)
    {
      var output := AsObject(result.Get("output"));
      var advice := Advise(output, skillId);
      result.fields := result.fields["output" := output];
      result.intelligence := Some(advice);
    }

    /** The advisory metadata of a successful execution. */
    method Advise(output: Value, skillId: string) returns (advice: Intelligence)
      ensures Advises(parse, rankSkills(), skillId, output, advice)
    {
      var rankResponse := rankSkills();
      var performance := ExtractSkillPerformance(parse, rankResponse, skillId);
      var calibration := CalibrateConfidence(parse, output.Get("confidence"), performance, 30);
      CalibrationExactly(parse, output.Get("confidence"), performance, 30);
      var decay := AssessPerformanceDecay(parse, performance, 30);
      return Applied(performance.Truthy(), calibration, decay);
    }
  }

  /** A schema that the empty object meets: it may be an object, is not barred by an enum, and
      nothing is required. */
  predicate AllowsEmptyObject(schema: Value) {
    && !Breaks(Obj(map[]), schema, TypeKw)
    && !Breaks(Obj(map[]), schema, EnumKw)
    && forall i | 0 <= i < |Required(schema)| :: !Required(schema)[i].Str?
  }

  lemma EmptyObjectConforms(schema: Value)
    ensures Conforms(Obj(map[]), schema) <==> AllowsEmptyObject(schema)
  {
    var v := Obj(map[]);
    assert BreaksAt(v, schema, [], TypeKw) == Breaks(v, schema, TypeKw);
    assert BreaksAt(v, schema, [], EnumKw) == Breaks(v, schema, EnumKw);
    if i :| 0 <= i < |Required(schema)| && Required(schema)[i].Str? {
      assert BreaksAt(v, schema, [], RequiredKw(Required(schema)[i].s));
    } else if AllowsEmptyObject(schema) {
      forall loc: Location, kw ensures !BreaksAt(v, schema, loc, kw) {
        if loc != [] {
          assert Child(v, schema, loc[0]) == None;
        } else if kw.RequiredKw? {
          assert Str(kw.missing) !in Required(schema);
        }
      }
    }
  }

  /** When the output of a final success meets the declared output schema: exactly when the
      delegate returned an object, or the schema allows the empty object put in its place. */
  lemma AdvisoryLayerKeepsContract(output: Value, schema: Value)
    requires Conforms(output, schema)
    ensures Conforms(AsObject(output), schema) <==> output.Obj? || AllowsEmptyObject(schema)
  {
    EmptyObjectConforms(schema);
  }

  /** A contract under which a successful array output is replaced by something that violates
      it, while the report still says that the output is valid. */
  lemma ArrayOutputLosesItsContract(items: seq<Value>)
    ensures var schema := Obj(map["type" := Str("array")]);
            Conforms(Arr(items), schema) && !Conforms(AsObject(Arr(items)), schema)
  {
    var schema := Obj(map["type" := Str("array")]);
    assert BreaksAt(Obj(map[]), schema, [], TypeKw);
    forall loc: Location, kw ensures !BreaksAt(Arr(items), schema, loc, kw) {
      if loc != [] {
        assert Child(Arr(items), schema, loc[0]) == None;
      }
    }
  }
}
