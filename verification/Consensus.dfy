/** The weighted vote (`_consensus` in `app/shadow_ensemble.py`), in exact real arithmetic. */
module Consensus {
  import opened Basics
  import opened Json
  import opened Sorting

  // ---------- Ballots ----------

  const SIGNALS: set<string> := {"buy", "hold", "sell"}

  datatype Vote = Vote(signal: string, weight: real)

  function LowerChar(c: char): char {
    if 'A' <= c <= 'Z' then (c as int + 32) as char else c
  }

  /** `lower` on ASCII letters; no other character lowers to a letter of a signal. */
  function Lower(s: string): string {
    seq(|s|, i requires 0 <= i < |s| => LowerChar(s[i]))
  }

  function StageWeight(stage: Value): real {
    if stage == Str("champion") then 1.0
    else if stage == Str("challenger") then 0.8
    else if stage == Str("shadow") then 0.6
    else 0.5
  }

  /** `float(confidence)`, clamped, and one half when that raises; `parseFloat` is Python's
      reading of a string. */
  function ConfidenceOf(parseFloat: string -> Option<real>, output: Value): real {
    var c := if "calibrated_confidence" in Fields(output) then output.Get("calibrated_confidence")
             else if "confidence" in Fields(output) then output.Get("confidence")
             else Float(0.5);
    var parsed := if c.Str? then parseFloat(c.s) else c.Numeric();
    if parsed.Some? then Clamp01(parsed.value) else 0.5
  }

  function Fields(v: Value): set<string> {
    if v.Obj? then v.fields.Keys else {}
  }

  /** The vote an execution casts, if it casts one. */
  function Ballot(parseFloat: string -> Option<real>, item: Value): (r: Option<Vote>)
    ensures r.Some? ==> ValidVote(r.value)
  {
    var output := if item.Get("output").Obj? then item.Get("output") else Obj(map[]);
    var signal := output.Get("signal");
    if item.Get("execution_status") != Str("success") || !signal.Str? || Lower(signal.s) !in SIGNALS then None
    else
      var weight := StageWeight(item.Get("deployment_stage"));
      var confidence := ConfidenceOf(parseFloat, output);
      UnitProduct(weight, confidence);
      Some(Vote(Lower(signal.s), weight * confidence))
  }

  lemma UnitProduct(a: real, b: real)
    requires 0.0 <= a <= 1.0 && 0.0 <= b <= 1.0
    ensures 0.0 <= a * b <= 1.0
  {
    assert 0.0 * b <= a * b <= 1.0 * b;
  }

  predicate ValidVote(v: Vote) {
    v.signal in SIGNALS && 0.0 <= v.weight <= 1.0
  }

  /** The votes of one execution, none or one, as a sequence. */
  function BallotOf(parseFloat: string -> Option<real>): Value -> seq<Vote> {
    (item: Value) => var b := Ballot(parseFloat, item); if b.Some? then [b.value] else []
  }

  function Ballots(parseFloat: string -> Option<real>, items: seq<Value>): seq<Vote> {
    Collect(BallotOf(parseFloat), items)
  }

  lemma {:induction false} BallotsAreValid(parseFloat: string -> Option<real>, items: seq<Value>)
    ensures forall v | v in Ballots(parseFloat, items) :: ValidVote(v)
  {
    if items != [] {
      BallotsAreValid(parseFloat, items[..|items| - 1]);
    }
  }

  /** With the same output, a champion's vote weighs more than a challenger's, that more than
      a shadow's, and that more than any other stage's, unless there is no confidence. */
  lemma VotesRankByStage(parseFloat: string -> Option<real>, item: Value, other: Value)
    requires item.Get("output") == other.Get("output")
    requires Ballot(parseFloat, item).Some? && Ballot(parseFloat, other).Some?
    ensures var a, b := Ballot(parseFloat, item).value, Ballot(parseFloat, other).value;
            var confidence := ConfidenceOf(parseFloat, item.Get("output"));
            && a.signal == b.signal
            && (Rank(item) > Rank(other) ==> a.weight > b.weight || confidence == 0.0)
            && (Rank(item) == Rank(other) ==> a.weight == b.weight)
  {
  }

  /** The standing of an execution's stage. */
  function Rank(item: Value): nat {
    var stage := item.Get("deployment_stage");
    if stage == Str("champion") then 3
    else if stage == Str("challenger") then 2
    else if stage == Str("shadow") then 1
    else 0
  }

  // ---------- What an execution's vote is, read off the execution ----------

  /** `s` is the name, in whatever mixture of capital and small letters. */
  predicate Spells(s: string, name: string) {
    && |s| == |name|
    && forall i | 0 <= i < |s| :: s[i] == name[i] || ('A' <= s[i] <= 'Z' && s[i] as int + 32 == name[i] as int)
  }

  /** A successful execution whose output object gives this signal. */
  predicate Says(item: Value, name: string)
  {
    && item.Get("execution_status") == Str("success") && item.Get("output").Obj?
    && item.Get("output").Get("signal").Str? && Spells(item.Get("output").Get("signal").s, name)
  }

  lemma LowerSpells(s: string, name: string)
    requires forall i | 0 <= i < |name| :: 'a' <= name[i] <= 'z'
    ensures Lower(s) == name <==> Spells(s, name)
  {
    if Spells(s, name) {
      assert forall i | 0 <= i < |s| :: LowerChar(s[i]) == name[i];
    } else if Lower(s) == name {
      forall i | 0 <= i < |s| ensures s[i] == name[i] || ('A' <= s[i] <= 'Z' && s[i] as int + 32 == name[i] as int) {
        assert Lower(s)[i] == LowerChar(s[i]);
      }
    }
  }

  /** Who votes, and for what: the successful executions that give one of the three signals, each
      for the signal it gives. */
  lemma BallotSignal(parseFloat: string -> Option<real>, item: Value)
    ensures Ballot(parseFloat, item).Some? <==> Says(item, "buy") || Says(item, "hold") || Says(item, "sell")
    ensures forall name | name in {"buy", "hold", "sell"} ::
              Says(item, name) <==> Ballot(parseFloat, item).Some? && Ballot(parseFloat, item).value.signal == name
  {
    var output := item.Get("output");
    if output.Obj? && output.Get("signal").Str? {
      var signal := output.Get("signal").s;
      LowerSpells(signal, "buy");
      LowerSpells(signal, "hold");
      LowerSpells(signal, "sell");
    }
  }

  /** The confidence a stated value counts as: the nearest number of the unit interval, a boolean
      as 0 or 1, and one half for what is no number. */
  predicate CountsAs(parseFloat: string -> Option<real>, v: Value, c: real) {
    match v
    case Int(i) => Nearest(i as real, c)
    case Float(r) => Nearest(r, c)
    case Bool(b) => c == if b then 1.0 else 0.0
    case Str(s) => if parseFloat(s).Some? then Nearest(parseFloat(s).value, c) else c == 0.5
    case _ => c == 0.5
  }

  /** The confidence of an output: its calibrated confidence if it has that entry, else its
      confidence if it has that, else one half. */
  predicate HasConfidence(parseFloat: string -> Option<real>, output: map<string, Value>, c: real) {
    && ("calibrated_confidence" in output ==> CountsAs(parseFloat, output["calibrated_confidence"], c))
    && ("calibrated_confidence" !in output && "confidence" in output ==> CountsAs(parseFloat, output["confidence"], c))
    && ("calibrated_confidence" !in output && "confidence" !in output ==> c == 0.5)
  }

  /** What a vote weighs: its confidence, in full for a champion, at 0.8 for a challenger, at 0.6
      for a shadow, and by half for any other stage. */
  lemma BallotWeight(parseFloat: string -> Option<real>, item: Value) returns (c: real)
    requires Ballot(parseFloat, item).Some?
    ensures item.Get("output").Obj? && HasConfidence(parseFloat, item.Get("output").fields, c)
    ensures var stage, weight := item.Get("deployment_stage"), Ballot(parseFloat, item).value.weight;
            && (stage == Str("champion") ==> weight == c)
            && (stage == Str("challenger") ==> weight == 0.8 * c)
            && (stage == Str("shadow") ==> weight == 0.6 * c)
            && (stage !in {Str("champion"), Str("challenger"), Str("shadow")} ==> weight == 0.5 * c)
  {
    c := ConfidenceOf(parseFloat, item.Get("output"));
  }

  // ---------- Tallies ----------

  function Weight(v: Vote, signal: string): real {
    if v.signal == signal then v.weight else 0.0
  }

  function WeightFor(votes: seq<Vote>, signal: string): real {
    if votes == [] then 0.0 else WeightFor(votes[..|votes| - 1], signal) + Weight(votes[|votes| - 1], signal)
  }

  function Total(votes: seq<Vote>): real {
    if votes == [] then 0.0 else Total(votes[..|votes| - 1]) + votes[|votes| - 1].weight
  }

  predicate Voted(votes: seq<Vote>, signal: string) {
    exists i | 0 <= i < |votes| :: votes[i].signal == signal
  }

  /** The `votes` dictionary. */
  function Tally(votes: seq<Vote>): map<string, real> {
    map s | s in SIGNALS && Voted(votes, s) :: WeightFor(votes, s)
  }

  /** `votes[signal] += weight` on a dictionary that defaults to zero. */
  function Added(tally: map<string, real>, v: Vote): map<string, real> {
    tally[v.signal := (if v.signal in tally then tally[v.signal] else 0.0) + v.weight]
  }

  /** `max` by weight, then by name. */
  predicate Outranks(tally: map<string, real>, a: string, b: string)
    requires a in tally && b in tally
  {
    tally[a] > tally[b] || (tally[a] == tally[b] && StrLe(b, a))
  }

  function Better(tally: map<string, real>, best: Option<string>, s: string): Option<string>
    requires best.Some? ==> best.value in tally
  {
    if s in tally && (best.None? || Outranks(tally, s, best.value)) then Some(s) else best
  }

  function Leader(tally: map<string, real>): (r: Option<string>)
    requires tally.Keys <= SIGNALS
    ensures r.None? <==> tally == map[]
    ensures r.Some? ==> r.value in tally && forall s | s in tally :: Outranks(tally, r.value, s)
  {
    StrLeSelf("buy"); StrLeSelf("hold"); StrLeSelf("sell");
    SignalNames();
    Better(tally, Better(tally, Better(tally, None, "buy"), "hold"), "sell")
  }

  lemma {:induction false} StrLeSelf(s: string)
    ensures StrLe(s, s)
  {
    StrLeTotal(s, s);
  }

  lemma SignalNames()
    ensures StrLe("buy", "hold") && StrLe("hold", "sell") && StrLe("buy", "sell")
    ensures !StrLe("hold", "buy") && !StrLe("sell", "hold") && !StrLe("sell", "buy")
  {
  }

  datatype State = NoValidVotes | Agreed | InsufficientAgreement

  datatype Result = Result(
    signal: string, leading: Option<string>, agreement: real, state: State,
    voteWeights: map<string, real>, successful: nat)

  /** What the function returns for a finished tally. */
  function Conclude(tally: map<string, real>, total: real, successful: nat, minimum: real): Result
    requires tally.Keys <= SIGNALS
  {
    if tally == map[] || total <= 0.0 then Result("hold", None, 0.0, NoValidVotes, tally, successful)
    else
      var leader := Leader(tally).value;
      var agreement := tally[leader] / total;
      var accepted := agreement >= minimum;
      Result(if accepted then leader else "hold", Some(leader), Round6(agreement),
             if accepted then Agreed else InsufficientAgreement,
             map s | s in tally :: Round6(tally[s]), successful)
  }

  /** The outcome of the votes. */
  function Outcome(votes: seq<Vote>, minimum: real): Result {
    Conclude(Tally(votes), Total(votes), |votes|, minimum)
  }

  lemma VotedSnoc(votes: seq<Vote>, v: Vote, s: string)
    ensures Voted(votes + [v], s) <==> Voted(votes, s) || v.signal == s
  {
    var all := votes + [v];
    assert all[|votes|] == v;
    assert forall i | 0 <= i < |votes| :: all[i] == votes[i];
  }

  /** The loop's variables after counting some votes. */
  ghost predicate Counted(cast: seq<Vote>, votes: map<string, real>, total: real, successful: nat) {
    votes == Tally(cast) && total == Total(cast) && successful == |cast|
  }

  method ComputeConsensus(parseFloat: string -> Option<real>, executions: seq<Value>, minimumAgreement: real)
      returns (r: Result)
    ensures r == Outcome(Ballots(parseFloat, executions), minimumAgreement)
    ensures Concluded(Ballots(parseFloat, executions), minimumAgreement, r)
  {
    var votes: map<string, real> := map[];
    var totalWeight, successful := 0.0, 0;
    ghost var cast: seq<Vote> := [];
    for i := 0 to |executions|
      invariant cast == Ballots(parseFloat, executions[..i])
      invariant Counted(cast, votes, totalWeight, successful)
    {
      var ballot := Ballot(parseFloat, executions[i]);
      OneMoreExecution(parseFloat, executions, i);
      if ballot.Some? {
        votes, totalWeight, successful := AddVote(cast, votes, totalWeight, successful, ballot.value);
        cast := cast + [ballot.value];
      }
    }
    assert executions[..|executions|] == executions;
    BallotsAreValid(parseFloat, executions);
    OutcomeExactly(Ballots(parseFloat, executions), minimumAgreement);
    return Conclude(votes, totalWeight, successful, minimumAgreement);
  }

  lemma OneMoreExecution(parseFloat: string -> Option<real>, executions: seq<Value>, i: nat)
    requires i < |executions|
    ensures var ballot := Ballot(parseFloat, executions[i]);
            Ballots(parseFloat, executions[..i + 1]) ==
            if ballot.Some? then Ballots(parseFloat, executions[..i]) + [ballot.value]
            else Ballots(parseFloat, executions[..i])
  {
    CollectSnoc(BallotOf(parseFloat), executions[..i], executions[i]);
    assert executions[..i + 1] == executions[..i] + [executions[i]];
  }

  /** One turn of the loop, for an execution that votes. */
  method AddVote(ghost cast: seq<Vote>, votes: map<string, real>, total: real, successful: nat, v: Vote)
      returns (votes': map<string, real>, total': real, successful': nat)
    requires Counted(cast, votes, total, successful) && ValidVote(v)
    ensures Counted(cast + [v], votes', total', successful')
  {
    TallySnoc(cast, v);
    votes' := votes;
    if v.signal !in votes {
      votes' := votes'[v.signal := 0.0];
    }
    votes' := votes'[v.signal := votes'[v.signal] + v.weight];
    total', successful' := total + v.weight, successful + 1;
    assert votes' == Added(votes, v);
  }

  lemma SumsSnoc(votes: seq<Vote>, v: Vote)
    ensures Total(votes + [v]) == Total(votes) + v.weight
    ensures forall s :: WeightFor(votes + [v], s) == WeightFor(votes, s) + Weight(v, s)
  {
    assert (votes + [v])[..|votes|] == votes;
  }

  lemma TallySnoc(votes: seq<Vote>, v: Vote)
    requires v.signal in SIGNALS
    ensures Tally(votes + [v]) == Added(Tally(votes), v)
    ensures Total(votes + [v]) == Total(votes) + v.weight
  {
    SumsSnoc(votes, v);
    var t, t' := Added(Tally(votes), v), Tally(votes + [v]);
    forall s ensures (s in t <==> s in t') && (s in t ==> t[s] == t'[s]) {
      VotedSnoc(votes, v, s);
      if !Voted(votes, s) {
        NoVotesNoWeight(votes, s);
      }
    }
    assert t.Keys == t'.Keys;
  }

  lemma {:induction false} NoVotesNoWeight(votes: seq<Vote>, s: string)
    requires !Voted(votes, s)
    ensures WeightFor(votes, s) == 0.0
  {
    if votes != [] {
      var n := |votes| - 1;
      assert votes == votes[..n] + [votes[n]];
      VotedSnoc(votes[..n], votes[n], s);
      NoVotesNoWeight(votes[..n], s);
    }
  }

  // ---------- Conservation and bounds ----------

  lemma {:induction false} WeightsSumToTotal(votes: seq<Vote>)
    requires forall v | v in votes :: ValidVote(v)
    ensures WeightFor(votes, "buy") + WeightFor(votes, "hold") + WeightFor(votes, "sell") == Total(votes)
    ensures forall s :: 0.0 <= WeightFor(votes, s) <= Total(votes)
  {
    if votes != [] {
      var n := |votes| - 1;
      WeightsSumToTotal(votes[..n]);
      assert ValidVote(votes[n]);
      forall s ensures 0.0 <= WeightFor(votes, s) <= Total(votes) {
        assert WeightFor(votes, s) == WeightFor(votes[..n], s) + Weight(votes[n], s);
      }
    }
  }

  lemma LeaderHasMost(votes: seq<Vote>)
    requires forall v | v in votes :: ValidVote(v)
    requires Total(votes) > 0.0
    ensures Tally(votes) != map[]
    ensures forall s :: WeightFor(votes, s) <= WeightFor(votes, Leader(Tally(votes)).value)
  {
    SomeoneVoted(votes);
    WeightsSumToTotal(votes);
    var leader := Leader(Tally(votes)).value;
    forall s ensures WeightFor(votes, s) <= WeightFor(votes, leader) {
      if !Voted(votes, s) {
        NoVotesNoWeight(votes, s);
      } else {
        SignalsOnly(votes, s);
      }
    }
  }

  /** Whenever there is weight at all, the leader's share lies between a third and one. */
  lemma LeaderShare(votes: seq<Vote>)
    requires forall v | v in votes :: ValidVote(v)
    requires Total(votes) > 0.0
    ensures Tally(votes) != map[]
    ensures 1.0 / 3.0 <= WeightFor(votes, Leader(Tally(votes)).value) / Total(votes) <= 1.0
  {
    LeaderHasMost(votes);
    WeightsSumToTotal(votes);
    ShareOfThree(WeightFor(votes, "buy"), WeightFor(votes, "hold"), WeightFor(votes, "sell"),
                 WeightFor(votes, Leader(Tally(votes)).value), Total(votes));
  }

  lemma ShareOfThree(a: real, b: real, c: real, most: real, total: real)
    requires total > 0.0 && a + b + c == total && most <= total
    requires a <= most && b <= most && c <= most
    ensures 1.0 / 3.0 <= most / total <= 1.0
  {
    ShareAtLeast(most, total, 1.0 / 3.0);
    ShareAtMostOne(most, total);
  }

  /** Above one half, no second signal could also reach the threshold. */
  lemma MajorityIsUnique(votes: seq<Vote>, minimum: real, a: string, b: string)
    requires forall v | v in votes :: ValidVote(v)
    requires Total(votes) > 0.0 && minimum > 0.5 && a != b
    requires WeightFor(votes, a) / Total(votes) >= minimum
    ensures WeightFor(votes, b) / Total(votes) < minimum
  {
    TwoWeightsFit(votes, a, b);
    TwoMajorities(WeightFor(votes, a), WeightFor(votes, b), Total(votes), minimum);
  }

  lemma TimesKeepsOrder(a: real, b: real, c: real)
    requires a < b && c > 0.0
    ensures a * c < b * c
  {
    assert (b - a) * c == b * c - a * c;
  }

  lemma TwoMajorities(x: real, y: real, total: real, minimum: real)
    requires total > 0.0 && minimum > 0.5 && x + y <= total && x / total >= minimum
    ensures y / total < minimum
  {
    ShareAtLeast(x, total, minimum);
    ShareAtLeast(y, total, minimum);
    TimesKeepsOrder(0.5, minimum, total);
  }

  lemma ShareAtMostOne(w: real, total: real)
    requires total > 0.0 && w <= total
    ensures w / total <= 1.0
  {
  }

  lemma {:induction false} TwoWeightsFit(votes: seq<Vote>, a: string, b: string)
    requires a != b && forall v | v in votes :: ValidVote(v)
    ensures WeightFor(votes, a) + WeightFor(votes, b) <= Total(votes)
  {
    if votes != [] {
      TwoWeightsFit(votes[..|votes| - 1], a, b);
      assert ValidVote(votes[|votes| - 1]);
    }
  }

  lemma SomeoneVoted(votes: seq<Vote>)
    requires Total(votes) > 0.0 && forall v | v in votes :: ValidVote(v)
    ensures Tally(votes) != map[]
  {
    assert votes != [];
    assert votes[0] in votes && Voted(votes, votes[0].signal);
    assert votes[0].signal in Tally(votes);
  }

  lemma SignalsOnly(votes: seq<Vote>, s: string)
    requires Voted(votes, s) && forall v | v in votes :: ValidVote(v)
    ensures s in SIGNALS && s in Tally(votes)
  {
    var i :| 0 <= i < |votes| && votes[i].signal == s;
    assert votes[i] in votes;
  }

  // ---------- The conclusion, read off the votes ----------

  /** `max` prefers the later name when two signals weigh the same. */
  predicate LaterName(a: string, b: string) {
    (a == "hold" && b == "buy") || (a == "sell" && (b == "buy" || b == "hold"))
  }

  /** `leader` was voted for, and every other signal voted for weighs less, or as much and has an
      earlier name. */
  ghost predicate Leads(votes: seq<Vote>, leader: string) {
    && Voted(votes, leader)
    && forall s | Voted(votes, s) && s != leader ::
         || WeightFor(votes, leader) > WeightFor(votes, s)
         || (WeightFor(votes, leader) == WeightFor(votes, s) && LaterName(leader, s))
  }

  /** The weights reported, one for each signal voted for. */
  ghost predicate Reports(votes: seq<Vote>, weights: map<string, real>, rounded: bool) {
    && (forall s :: s in weights <==> Voted(votes, s))
    && forall s | s in weights :: weights[s] == if rounded then Round6(WeightFor(votes, s)) else WeightFor(votes, s)
  }

  /** The outcome of the votes: without weight, hold; else the leading signal if its share of the
      weight reaches the minimum, and hold if it does not. */
  ghost predicate Concluded(votes: seq<Vote>, minimum: real, r: Result) {
    && r.successful == |votes|
    && if Total(votes) <= 0.0 then
         && r.state == NoValidVotes && r.signal == "hold" && r.leading == None && r.agreement == 0.0
         && Reports(votes, r.voteWeights, false)
       else
         && r.leading.Some? && Leads(votes, r.leading.value)
         && var share := WeightFor(votes, r.leading.value) / Total(votes);
         && r.agreement == Round6(share) && Reports(votes, r.voteWeights, true)
         && r.state == (if share >= minimum then Agreed else InsufficientAgreement)
         && r.signal == (if share >= minimum then r.leading.value else "hold")
  }

  lemma {:induction false} VotedSignals(votes: seq<Vote>, s: string)
    requires forall v | v in votes :: ValidVote(v)
    ensures s in Tally(votes) <==> Voted(votes, s)
  {
    if Voted(votes, s) {
      SignalsOnly(votes, s);
    }
  }

  lemma LeaderLeads(votes: seq<Vote>)
    requires (forall v | v in votes :: ValidVote(v)) && Tally(votes) != map[]
    ensures Leads(votes, Leader(Tally(votes)).value)
  {
    var t := Tally(votes);
    var leader := Leader(t).value;
    VotedSignals(votes, leader);
    SignalNames();
    forall s | Voted(votes, s) && s != leader
      ensures || WeightFor(votes, leader) > WeightFor(votes, s)
              || (WeightFor(votes, leader) == WeightFor(votes, s) && LaterName(leader, s))
    {
      VotedSignals(votes, s);
      assert Outranks(t, leader, s);
    }
  }

  lemma OutcomeExactly(votes: seq<Vote>, minimum: real)
    requires forall v | v in votes :: ValidVote(v)
    ensures Concluded(votes, minimum, Outcome(votes, minimum))
  {
    forall s ensures s in Tally(votes) <==> Voted(votes, s) {
      VotedSignals(votes, s);
    }
    if Total(votes) > 0.0 {
      SomeoneVoted(votes);
      LeaderLeads(votes);
    }
  }

  // ---------- Order independence ----------

  lemma {:induction false} TakeOut(votes: seq<Vote>, i: nat, s: string)
    requires i < |votes|
    ensures Total(votes) == Total(RemoveAt(votes, i)) + votes[i].weight
    ensures WeightFor(votes, s) == WeightFor(RemoveAt(votes, i), s) + Weight(votes[i], s)
  {
    var n := |votes| - 1;
    var rest := RemoveAt(votes, i);
    if i == n {
      assert rest == votes[..n];
    } else {
      TakeOut(votes[..n], i, s);
      assert rest[..|rest| - 1] == RemoveAt(votes[..n], i) && rest[|rest| - 1] == votes[n];
    }
  }

  lemma {:induction false} SumsIgnoreOrder(a: seq<Vote>, b: seq<Vote>, s: string)
    requires multiset(a) == multiset(b)
    ensures Total(a) == Total(b) && WeightFor(a, s) == WeightFor(b, s)
    decreases |a|
  {
    assert |multiset(a)| == |a| && |multiset(b)| == |b|;
    if a != [] {
      var i := MatchLast(a, b);
      SumsIgnoreOrder(a[..|a| - 1], RemoveAt(b, i), s);
      TakeOut(b, i, s);
    }
  }

  /** The result is the same for every order of the votes. */
  lemma OutcomeIgnoresOrder(a: seq<Vote>, b: seq<Vote>, minimum: real)
    requires multiset(a) == multiset(b)
    ensures Outcome(a, minimum) == Outcome(b, minimum)
  {
    SumsIgnoreOrder(a, b, "");
    assert |multiset(a)| == |a| && |multiset(b)| == |b|;
    forall s ensures (Voted(a, s) <==> Voted(b, s)) && WeightFor(a, s) == WeightFor(b, s) {
      SumsIgnoreOrder(a, b, s);
      SameVoters(a, b, s);
      SameVoters(b, a, s);
    }
    assert Tally(a) == Tally(b);
  }

  lemma SameVoters(a: seq<Vote>, b: seq<Vote>, s: string)
    requires multiset(a) == multiset(b)
    ensures Voted(a, s) ==> Voted(b, s)
  {
    if i :| 0 <= i < |a| && a[i].signal == s {
      assert a[i] in multiset(b);
    }
  }

  /** So is the consensus for every order of the executions. */
  lemma ConsensusIgnoresOrder(parseFloat: string -> Option<real>, a: seq<Value>, b: seq<Value>, minimum: real)
    requires multiset(a) == multiset(b)
    ensures Outcome(Ballots(parseFloat, a), minimum) == Outcome(Ballots(parseFloat, b), minimum)
  {
    CollectIgnoresOrder(BallotOf(parseFloat), a, b);
    OutcomeIgnoresOrder(Ballots(parseFloat, a), Ballots(parseFloat, b), minimum);
  }

  // ---------- Monotonicity ----------

  /** One more vote for the leader keeps it leading and does not lower its share. */
  lemma MoreOfTheSame(votes: seq<Vote>, v: Vote, minimum: real)
    requires ValidVote(v) && forall u | u in votes :: ValidVote(u)
    requires Outcome(votes, minimum).state == Agreed && v.signal == Outcome(votes, minimum).signal
    ensures var r, r' := Outcome(votes, minimum), Outcome(votes + [v], minimum);
            r'.state == Agreed && r'.signal == r.signal && r'.agreement >= r.agreement
  {
    WeightsSumToTotal(votes);
    TallySnoc(votes, v);
    MoreForTheLeader(Tally(votes), Tally(votes + [v]), v, Total(votes), Total(votes + [v]), |votes|, minimum);
  }

  /** Before rounding: a signal's share of the weight never falls with one more vote for it. */
  lemma ShareDoesNotFall(votes: seq<Vote>, v: Vote)
    requires ValidVote(v) && (forall u | u in votes :: ValidVote(u)) && Total(votes) > 0.0
    ensures WeightFor(votes + [v], v.signal) / Total(votes + [v]) >= WeightFor(votes, v.signal) / Total(votes)
  {
    WeightsSumToTotal(votes);
    var w, total := WeightFor(votes, v.signal), Total(votes);
    var w', total' := WeightFor(votes + [v], v.signal), Total(votes + [v]);
    assert (votes + [v])[..|votes|] == votes;
    assert w' == w + v.weight && total' == total + v.weight;
    ShareGrows(w, total, v.weight);
  }

  /** When a finished tally reaches consensus, on what, and with what share. */
  lemma AgreementMeaning(t: map<string, real>, total: real, n: nat, minimum: real)
    requires t.Keys <= SIGNALS && t != map[] && total > 0.0
    ensures var leader := Leader(t).value; var r := Conclude(t, total, n, minimum);
            && r.agreement == Round6(t[leader] / total)
            && (r.state == Agreed <==> t[leader] / total >= minimum)
            && (r.state == Agreed ==> r.signal == leader)
  {
  }

  lemma MoreForTheLeader(t: map<string, real>, t': map<string, real>, v: Vote, total: real, total': real, n: nat,
                         minimum: real)
    requires t.Keys <= SIGNALS && ValidVote(v) && t' == Added(t, v) && total' == total + v.weight
    requires Conclude(t, total, n, minimum).state == Agreed && Conclude(t, total, n, minimum).signal == v.signal
    requires v.signal in t ==> 0.0 <= t[v.signal] <= total
    ensures var r, r' := Conclude(t, total, n, minimum), Conclude(t', total', n + 1, minimum);
            r'.state == Agreed && r'.signal == v.signal && r'.agreement >= r.agreement
  {
    AgreementMeaning(t, total, n, minimum);
    AgreementMeaning(t', total', n + 1, minimum);
    SameLeader(t, t', v.signal, v.weight);
    LargerShare(t[v.signal], total, v.weight);
  }

  lemma LargerShare(w: real, total: real, extra: real)
    requires 0.0 <= w <= total && total > 0.0 && extra >= 0.0
    ensures (w + extra) / (total + extra) >= w / total
    ensures Round6((w + extra) / (total + extra)) >= Round6(w / total)
  {
    ShareGrows(w, total, extra);
    Round6Monotone(w / total, (w + extra) / (total + extra));
  }

  lemma SameLeader(t: map<string, real>, t': map<string, real>, leader: string, extra: real)
    requires t.Keys <= SIGNALS && leader in t && Leader(t).value == leader
    requires extra >= 0.0 && t' == t[leader := t[leader] + extra]
    ensures Leader(t').Some? && Leader(t').value == leader
  {
    var other := Leader(t').value;
    assert Outranks(t', other, leader) && Outranks(t, leader, other);
    StrLeTotal(leader, other);
  }

  lemma ShareGrows(w: real, total: real, extra: real)
    requires 0.0 <= w <= total && total > 0.0 && extra >= 0.0
    ensures (w + extra) / (total + extra) >= w / total
  {
    var share := w / total;
    ShareAtMostOne(w, total);
    assert share * total == w;
    assert share * extra <= 1.0 * extra;
    assert share * (total + extra) == share * total + share * extra;
    ShareAtLeast(w + extra, total + extra, share);
  }

  /** Inserting, anywhere, another successful execution that votes for the agreed signal keeps
      the signal and the consensus, and the agreement does not fall. */
  lemma ConsensusIsMonotone(parseFloat: string -> Option<real>, before: seq<Value>, extra: Value, after: seq<Value>,
                            minimum: real)
    requires Outcome(Ballots(parseFloat, before + after), minimum).state == Agreed
    requires Ballot(parseFloat, extra).Some?
    requires Ballot(parseFloat, extra).value.signal == Outcome(Ballots(parseFloat, before + after), minimum).signal
    ensures var r := Outcome(Ballots(parseFloat, before + after), minimum);
            var r' := Outcome(Ballots(parseFloat, before + [extra] + after), minimum);
            r'.state == Agreed && r'.signal == r.signal && r'.agreement >= r.agreement
  {
    var v := Ballot(parseFloat, extra).value;
    assert multiset(before + [extra] + after) == multiset(before + after + [extra]);
    ConsensusIgnoresOrder(parseFloat, before + [extra] + after, before + after + [extra], minimum);
    CollectSnoc(BallotOf(parseFloat), before + after, extra);
    BallotsAreValid(parseFloat, before + after);
    MoreOfTheSame(Ballots(parseFloat, before + after), v, minimum);
  }
}
