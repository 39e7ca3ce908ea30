/** Recommendation ranking (`app/recommendations.py`): conservation, top-k and stability. */
module Recommendations {
  import opened Basics
  import opened Json
  import opened Sorting
  import opened Registry
  import opened Governance
  import opened PerformanceIntelligence

  datatype Request = Request(
    tags: seq<string>, assetClass: string, strategyBucket: Option<string>, marketRegime: Option<string>,
    topK: nat, requireBacktestPassed: bool)

  /** The outside world: Python's string functions, and what Database_Agent answers. */
  datatype World = World(parse: Parsing, lower: string -> string, rank: Value, backtest: string -> Value)

  datatype Recommended = Recommended(skill: Skill, score: real, performance: Value, passed: bool)

  datatype State = Ranked | FallbackNoDatabase | NoApprovedSkills | NoBacktestPassed

  datatype Response = Response(state: State, skills: seq<Recommended>, rejectedCount: int)

  // ---------- Matching and scoring one skill ----------

  function Lowered(w: World, tags: seq<string>): set<string> {
    set i | 0 <= i < |tags| :: w.lower(tags[i])
  }

  predicate SharesTag(w: World, req: Request, k: Skill) {
    Lowered(w, req.tags) * Lowered(w, k.row.meta.tags) != {}
  }

  /** A context entry that is set and contradicts the requested value. */
  predicate Contradicts(k: Skill, key: string, wanted: Option<string>) {
    var v := k.row.meta.marketContext.Get(key);
    wanted.Some? && wanted.value != "" && v.Truthy() && v != Str(wanted.value)
  }

  predicate ContextMatches(w: World, req: Request, k: Skill) {
    && (req.tags == [] || SharesTag(w, req, k))
    && !Contradicts(k, "asset_class", Some(req.assetClass))
    && !Contradicts(k, "strategy_bucket", req.strategyBucket)
    && !Contradicts(k, "regime", req.marketRegime)
  }

  function EligibleFor(w: World, req: Request): Skill -> bool {
    (k: Skill) => k.row.validated && k.row.approval == Approved && k.row.stage != Retired && ContextMatches(w, req, k)
  }

  predicate Confirms(k: Skill, key: string, wanted: Option<string>) {
    wanted.Some? && wanted.value != "" && k.row.meta.marketContext.Get(key) == Str(wanted.value)
  }

  function Points(earned: bool, points: real): real {
    if earned then points else 0.0
  }

  function FallbackScore(w: World, req: Request, k: Skill): (score: real)
    ensures 0.5 <= score <= 0.8
  {
    var score := 0.5
                 + Points(req.tags != [] && SharesTag(w, req, k), 0.1)
                 + Points(Confirms(k, "strategy_bucket", req.strategyBucket), 0.1)
                 + Points(Confirms(k, "regime", req.marketRegime), 0.1)
                 + Points(k.row.stage == Champion, 0.05);
    if score < 0.8 then score else 0.8
  }

  /** The ranking's row for a skill: of several, the last. */
  function LookUp(parse: Parsing, rows: seq<Value>, id: string): Value {
    if rows == [] then Obj(map[])
    else
      var item := rows[|rows| - 1];
      if item.Obj? && item.Get("skill_id").Truthy() && parse.render(item.Get("skill_id")) == id then item
      else LookUp(parse, rows[..|rows| - 1], id)
  }

  function RankRows(w: World): seq<Value> {
    if w.rank.Get("data").Arr? then w.rank.Get("data").items else []
  }

  /** Some row of the ranking names a skill. */
  predicate HasRanking(rows: seq<Value>) {
    exists i | 0 <= i < |rows| :: rows[i].Obj? && rows[i].Get("skill_id").Truthy()
  }

  predicate BacktestPassed(w: World, id: string) {
    w.backtest(id).Get("data").Get("passed").Truthy()
  }

  /** The score before bonuses: the database's, if set, else the fallback; None when the
      database's is not a number, which raises. */
  function BaseScore(w: World, req: Request, k: Skill): Option<real> {
    var v := LookUp(w.parse, RankRows(w), k.id).Get("skill_score");
    if v.Truthy() then AsFloat(w.parse, v) else Some(FallbackScore(w, req, k))
  }

  function Bonus(score: real, earned: bool, points: real): real {
    if !earned then score else if score + points < 1.0 then score + points else 1.0
  }

  function Recommend(w: World, req: Request, k: Skill): (r: Recommended)
    requires BaseScore(w, req, k).Some?
    ensures r.skill == k && 0.0 <= r.score <= 1.0
  {
    var base := BaseScore(w, req, k).value;
    var passed := BacktestPassed(w, k.id);
    var score := Bonus(Bonus(base, passed, 0.05), k.row.stage == Champion, 0.03);
    Recommended(k, Clamp01(score), LookUp(w.parse, RankRows(w), k.id), passed)
  }

  predicate Rejected(w: World, req: Request, k: Skill) {
    req.requireBacktestPassed && !BacktestPassed(w, k.id)
  }

  /** What becomes of one eligible skill in the loop. */
  datatype Scored = Raised | Skipped | Kept(rec: Recommended)

  function ScoreOf(w: World, req: Request): Skill -> Scored {
    (k: Skill) =>
      if Rejected(w, req, k) then Skipped
      else if BaseScore(w, req, k).None? then Raised
      else Kept(Recommend(w, req, k))
  }

  predicate Raises(w: World, req: Request, k: Skill) {
    ScoreOf(w, req)(k) == Raised
  }

  /** The recommendations made, in order. */
  function KeptOf(f: Skill -> Scored, s: seq<Skill>): seq<Recommended> {
    if s == [] then []
    else KeptOf(f, s[..|s| - 1]) + if f(s[|s| - 1]).Kept? then [f(s[|s| - 1]).rec] else []
  }

  // ---------- Ranking ----------

  /** The sort key, champion first, then score, then version; `reverse=True` keeps ties. */
  predicate RanksAtLeast(a: Recommended, b: Recommended) {
    var ca, cb := a.skill.row.stage == Champion, b.skill.row.stage == Champion;
    if ca != cb then ca
    else if a.score != b.score then a.score > b.score
    else StrLe(b.skill.row.version, a.skill.row.version)
  }

  lemma RankingIsTotal()
    ensures Preorder(RanksAtLeast)
  {
    forall a: Recommended, b: Recommended ensures RanksAtLeast(a, b) || RanksAtLeast(b, a) {
      StrLeTotal(a.skill.row.version, b.skill.row.version);
    }
    forall a: Recommended, b: Recommended, c: Recommended | RanksAtLeast(a, b) && RanksAtLeast(b, c)
      ensures RanksAtLeast(a, c)
    {
      if StrLe(b.skill.row.version, a.skill.row.version) && StrLe(c.skill.row.version, b.skill.row.version) {
        StrLeTransitive(c.skill.row.version, b.skill.row.version, a.skill.row.version);
      }
    }
  }

  function Eligible(t: Table, w: World, req: Request): seq<Skill> {
    Listing(t, EligibleFor(w, req))
  }

  function Ranking(t: Table, w: World, req: Request): seq<Recommended> {
    Sort(KeptOf(ScoreOf(w, req), Eligible(t, w, req)), RanksAtLeast)
  }

  /** No eligible skill has passed its backtest, where that is required. */
  ghost predicate AllRejected(t: Table, w: World, req: Request) {
    && Eligible(t, w, req) != [] && req.requireBacktestPassed
    && forall k | k in Eligible(t, w, req) :: !w.backtest(k.id).Get("data").Get("passed").Truthy()
  }

  /** The database's ranking names some skill. */
  ghost predicate DatabaseRanks(w: World) {
    && w.rank.Get("data").Arr?
    && exists row | row in w.rank.Get("data").items :: row.Obj? && row.Get("skill_id").Truthy()
  }

  /** Which state a response reports; the four exclude each other. */
  ghost predicate StateFits(t: Table, w: World, req: Request, state: State) {
    match state
    case NoApprovedSkills => Eligible(t, w, req) == []
    case NoBacktestPassed => AllRejected(t, w, req)
    case Ranked => Eligible(t, w, req) != [] && !AllRejected(t, w, req) && DatabaseRanks(w)
    case FallbackNoDatabase => Eligible(t, w, req) != [] && !AllRejected(t, w, req) && !DatabaseRanks(w)
  }

  lemma RanksMeaning(w: World)
    ensures HasRanking(RankRows(w)) <==> DatabaseRanks(w)
  {
    var rows := RankRows(w);
    if HasRanking(rows) {
      var i :| 0 <= i < |rows| && rows[i].Obj? && rows[i].Get("skill_id").Truthy();
      assert rows[i] in rows;
    }
  }

  /** On every return path what is returned and what is counted as rejected add up to the
      eligible skills; what is returned is the front of the ranking; the state is the one that
      fits. The call raises exactly when an eligible skill that is not rejected has a database
      score that is no number. */
  method RecommendSkills(t: Table, w: World, req: Request) returns (r: Option<Response>)
    requires WellFormed(t)
    ensures r.None? <==> exists k :: k in Eligible(t, w, req) && Raises(w, req, k)
    ensures r.Some? ==>
              && |r.value.skills| + r.value.rejectedCount == |Eligible(t, w, req)|
              && r.value.skills == Ranking(t, w, req)[..Min(req.topK, |Ranking(t, w, req)|)]
              && StateFits(t, w, req, r.value.state)
  {
    var eligible := Eligible(t, w, req);
    if eligible == [] {
      return Some(Response(NoApprovedSkills, [], 0));
    }
    var scored := ScoreAll(ScoreOf(w, req), eligible);
    if scored.None? {
      return None;
    }
    var (recommendations, rejectedForBacktest) := scored.value;
    NothingKeptIff(w, req, eligible);
    RanksMeaning(w);
    if req.requireBacktestPassed && recommendations == [] {
      return Some(Response(NoBacktestPassed, [], rejectedForBacktest));
    }
    RankingIsTotal();
    SortSorts(recommendations, RanksAtLeast);
    var ranked := Sort(recommendations, RanksAtLeast);
    var selected := ranked[..Min(req.topK, |ranked|)];
    return Some(Response(if HasRanking(RankRows(w)) then Ranked else FallbackNoDatabase,
                         selected, |recommendations| - |selected| + rejectedForBacktest));
  }

  /** Unless the call raises, nothing is recommended exactly when every eligible skill is
      rejected. */
  lemma {:induction false} NothingKeptIff(w: World, req: Request, eligible: seq<Skill>)
    requires forall k | k in eligible :: !Raises(w, req, k)
    ensures KeptOf(ScoreOf(w, req), eligible) == [] <==> forall k | k in eligible :: Rejected(w, req, k)
  {
    if eligible != [] {
      var n := |eligible| - 1;
      assert eligible == eligible[..n] + [eligible[n]];
      assert !Raises(w, req, eligible[n]);
      NothingKeptIff(w, req, eligible[..n]);
    }
  }

  /** The loop over the eligible skills; None when it raises. */
  method ScoreAll(f: Skill -> Scored, eligible: seq<Skill>) returns (r: Option<(seq<Recommended>, int)>)
    ensures r.None? <==> exists k :: k in eligible && f(k) == Raised
    ensures r.Some? ==> r.value.0 == KeptOf(f, eligible) && |r.value.0| + r.value.1 == |eligible|
  {
    var recommendations: seq<Recommended>, rejectedForBacktest := [], 0;
    for i := 0 to |eligible|
      invariant recommendations == KeptOf(f, eligible[..i]) && |recommendations| + rejectedForBacktest == i
      invariant forall j | 0 <= j < i :: f(eligible[j]) != Raised
    {
      assert eligible[..i + 1][..i] == eligible[..i];
      match f(eligible[i]) {
        case Raised =>
          assert eligible[i] in eligible;
          return None;
        case Skipped => rejectedForBacktest := rejectedForBacktest + 1;
        case Kept(rec) => recommendations := recommendations + [rec];
      }
    }
    assert eligible[..|eligible|] == eligible;
    return Some((recommendations, rejectedForBacktest));
  }

  // ---------- What the ranking is ----------

  /** Top-k: nothing further down the ranking outranks anything in front of it, and elements
      that tie stand in listing order. */
  lemma RankingIsTopKAndStable(t: Table, w: World, req: Request, tie: Recommended)
    ensures Ordered(Ranking(t, w, req), RanksAtLeast)
    ensures multiset(Ranking(t, w, req)) == multiset(KeptOf(ScoreOf(w, req), Eligible(t, w, req)))
    ensures TiesWith(Ranking(t, w, req), tie, RanksAtLeast) ==
            TiesWith(KeptOf(ScoreOf(w, req), Eligible(t, w, req)), tie, RanksAtLeast)
  {
    RankingIsTotal();
    SortSorts(KeptOf(ScoreOf(w, req), Eligible(t, w, req)), RanksAtLeast);
    SortStable(KeptOf(ScoreOf(w, req), Eligible(t, w, req)), tie, RanksAtLeast);
  }

  /** Each skill contributes at most one recommendation, of itself. */
  lemma {:induction false} ContributionsAreDistinct(w: World, req: Request, eligible: seq<Skill>)
    requires Distinct(eligible)
    ensures Distinct(KeptOf(ScoreOf(w, req), eligible))
    ensures forall r | r in KeptOf(ScoreOf(w, req), eligible) ::
              r.skill in eligible && BaseScore(w, req, r.skill).Some? && r == Recommend(w, req, r.skill)
  {
    if eligible != [] {
      var n := |eligible| - 1;
      ContributionsAreDistinct(w, req, eligible[..n]);
      assert eligible == eligible[..n] + [eligible[n]];
      assert eligible[n] !in eligible[..n];
    }
  }

  /** In a governed registry no two recommendations are champions of the same family, and
      every recommendation is of a live, approved skill with a score between 0 and 1. */
  lemma RecommendedChampionsAreUnique(t: Table, w: World, req: Request)
    requires WellFormed(t) && OneChampion(t)
    ensures var r := Ranking(t, w, req);
            && Distinct(r)
            && (forall a | a in r :: a.skill.id in t.rows && t.rows[a.skill.id] == a.skill.row
                                     && a.skill.row.approval == Approved && a.skill.row.stage != Retired)
            && forall i, j | 0 <= i < j < |r| && r[i].skill.row.stage == Champion && r[j].skill.row.stage == Champion ::
                 r[i].skill.row.family != r[j].skill.row.family
  {
    var eligible := Eligible(t, w, req);
    ListingHasExactly(t, EligibleFor(w, req));
    ContributionsAreDistinct(w, req, eligible);
    RankingIsTotal();
    SortSorts(KeptOf(ScoreOf(w, req), eligible), RanksAtLeast);
    DistinctByCount(KeptOf(ScoreOf(w, req), eligible), Ranking(t, w, req));
    var r := Ranking(t, w, req);
    forall i, j | 0 <= i < j < |r| && r[i].skill.row.stage == Champion && r[j].skill.row.stage == Champion
      ensures r[i].skill.row.family != r[j].skill.row.family
    {
      var a, b := r[i], r[j];
      assert a in r && b in r && a != b;
      assert a.skill == b.skill ==> a == b;
    }
  }

  // ---------- Eligibility, scores and order, read off the rows ----------

  /** A requested and a declared tag are the same in small letters. */
  predicate TagsMeet(w: World, requested: seq<string>, declared: seq<string>) {
    exists i, j | 0 <= i < |requested| && 0 <= j < |declared| :: w.lower(requested[i]) == w.lower(declared[j])
  }

  /** Nothing is wanted of a context entry, or it is not set, or it is what is wanted. */
  predicate Compatible(entry: Value, wanted: Option<string>) {
    wanted == None || wanted == Some("") || !entry.Truthy() || entry == Str(wanted.value)
  }

  /** A skill that can be recommended: stored, validated, approved and not retired, with a requested
      tag, if tags were requested, and a compatible context. */
  predicate Suits(t: Table, w: World, req: Request, k: Skill) {
    && k.id in t.rows && t.rows[k.id] == k.row
    && k.row.validated && k.row.approval == Approved && k.row.stage != Retired
    && (|req.tags| > 0 ==> TagsMeet(w, req.tags, k.row.meta.tags))
    && var context := k.row.meta.marketContext;
    && Compatible(context.Get("asset_class"), Some(req.assetClass))
    && Compatible(context.Get("strategy_bucket"), req.strategyBucket)
    && Compatible(context.Get("regime"), req.marketRegime)
  }

  lemma SharedTags(w: World, req: Request, k: Skill)
    ensures SharesTag(w, req, k) <==> TagsMeet(w, req.tags, k.row.meta.tags)
  {
    var a, b := Lowered(w, req.tags), Lowered(w, k.row.meta.tags);
    if SharesTag(w, req, k) {
      var x :| x in a * b;
      var i :| 0 <= i < |req.tags| && w.lower(req.tags[i]) == x;
      var j :| 0 <= j < |k.row.meta.tags| && w.lower(k.row.meta.tags[j]) == x;
    }
    if TagsMeet(w, req.tags, k.row.meta.tags) {
      var i, j :| 0 <= i < |req.tags| && 0 <= j < |k.row.meta.tags|
                  && w.lower(req.tags[i]) == w.lower(k.row.meta.tags[j]);
      assert w.lower(req.tags[i]) in a * b;
    }
  }

  lemma CompatibleMeaning(k: Skill, key: string, wanted: Option<string>)
    ensures !Contradicts(k, key, wanted) <==> Compatible(k.row.meta.marketContext.Get(key), wanted)
  {
  }

  lemma ContextMeaning(w: World, req: Request, k: Skill)
    ensures var context := k.row.meta.marketContext;
            ContextMatches(w, req, k) <==>
              && (|req.tags| > 0 ==> TagsMeet(w, req.tags, k.row.meta.tags))
              && Compatible(context.Get("asset_class"), Some(req.assetClass))
              && Compatible(context.Get("strategy_bucket"), req.strategyBucket)
              && Compatible(context.Get("regime"), req.marketRegime)
  {
    SharedTags(w, req, k);
    CompatibleMeaning(k, "asset_class", Some(req.assetClass));
    CompatibleMeaning(k, "strategy_bucket", req.strategyBucket);
    CompatibleMeaning(k, "regime", req.marketRegime);
  }

  /** Who is eligible. */
  lemma EligibleExactly(t: Table, w: World, req: Request, k: Skill)
    requires WellFormed(t)
    ensures k in Eligible(t, w, req) <==> Suits(t, w, req, k)
  {
    ListingHasExactly(t, EligibleFor(w, req));
    ContextMeaning(w, req, k);
  }

  /** The entry is what is wanted, and something is. */
  predicate Matches(entry: Value, wanted: Option<string>) {
    wanted.Some? && wanted.value != "" && entry == Str(wanted.value)
  }

  /** The score of a skill the database does not score: one half, a tenth for each of a shared tag,
      a matching strategy and a matching regime, a twentieth for a champion, 0.8 at most. */
  lemma FallbackExactly(w: World, req: Request, k: Skill)
    ensures var context := k.row.meta.marketContext;
            var score := 0.5
              + (if |req.tags| > 0 && TagsMeet(w, req.tags, k.row.meta.tags) then 0.1 else 0.0)
              + (if Matches(context.Get("strategy_bucket"), req.strategyBucket) then 0.1 else 0.0)
              + (if Matches(context.Get("regime"), req.marketRegime) then 0.1 else 0.0)
              + (if k.row.stage == Champion then 0.05 else 0.0);
            FallbackScore(w, req, k) == if score <= 0.8 then score else 0.8
  {
    SharedTags(w, req, k);
  }

  predicate NamesSkill(parse: Parsing, row: Value, id: string) {
    row.Obj? && row.Get("skill_id").Truthy() && parse.render(row.Get("skill_id")) == id
  }

  /** A skill's performance is the last row of the ranking that names it. */
  lemma {:induction false} LastRowNamed(parse: Parsing, rows: seq<Value>, id: string, i: nat)
    requires i < |rows| && NamesSkill(parse, rows[i], id)
    requires forall j | i < j < |rows| :: !NamesSkill(parse, rows[j], id)
    ensures LookUp(parse, rows, id) == rows[i]
  {
    if i < |rows| - 1 {
      assert !NamesSkill(parse, rows[|rows| - 1], id);
      LastRowNamed(parse, rows[..|rows| - 1], id, i);
    }
  }

  /** It is empty if no row does. */
  lemma {:induction false} NoRowNamed(parse: Parsing, rows: seq<Value>, id: string)
    requires forall i | 0 <= i < |rows| :: !NamesSkill(parse, rows[i], id)
    ensures LookUp(parse, rows, id) == Obj(map[])
  {
    if rows != [] {
      assert !NamesSkill(parse, rows[|rows| - 1], id);
      NoRowNamed(parse, rows[..|rows| - 1], id);
    }
  }

  /** What a recommendation says: the skill's row of the ranking, whether its backtest passed, and
      the nearest number of the unit interval to its score and bonuses. The score is the
      database's if that is set and a number, and the fallback if it is not set. */
  lemma RecommendExactly(w: World, req: Request, k: Skill)
    requires BaseScore(w, req, k).Some?
    ensures var r, rows := Recommend(w, req, k), if w.rank.Get("data").Arr? then w.rank.Get("data").items else [];
            && r.skill == k && r.performance == LookUp(w.parse, rows, k.id)
            && r.passed == w.backtest(k.id).Get("data").Get("passed").Truthy()
            && var stated := r.performance.Get("skill_score");
            && (stated.Truthy() ==> ConfidenceNumber(w.parse, stated).Some?)
            && var score :=
              (if stated.Truthy() then ConfidenceNumber(w.parse, stated).value else FallbackScore(w, req, k))
              + (if r.passed then 0.05 else 0.0) + (if k.row.stage == Champion then 0.03 else 0.0);
            Nearest(score, r.score)
  {
    var v := LookUp(w.parse, RankRows(w), k.id).Get("skill_score");
    assert v.Truthy() ==> ConfidenceNumber(w.parse, v) == AsFloat(w.parse, v);
  }

  /** The call raises for an eligible skill exactly if it is not rejected and the database's score
      of it is set and no number. */
  lemma RaisesExactly(w: World, req: Request, k: Skill)
    ensures var rows := if w.rank.Get("data").Arr? then w.rank.Get("data").items else [];
            var stated := LookUp(w.parse, rows, k.id).Get("skill_score");
            Raises(w, req, k) <==>
              && !(req.requireBacktestPassed && !w.backtest(k.id).Get("data").Get("passed").Truthy())
              && stated.Truthy() && ConfidenceNumber(w.parse, stated).None?
  {
  }

  /** The ranking's order: champions first, then by score, then by version, later versions first. */
  lemma RankingOrder(t: Table, w: World, req: Request, i: nat, j: nat)
    requires i < j < |Ranking(t, w, req)|
    ensures var a, b := Ranking(t, w, req)[i], Ranking(t, w, req)[j];
            var crowned := (r: Recommended) => r.skill.row.stage == Champion;
            && (crowned(b) ==> crowned(a))
            && (crowned(a) == crowned(b) ==> a.score >= b.score)
            && (crowned(a) == crowned(b) && a.score == b.score ==> StrLe(b.skill.row.version, a.skill.row.version))
  {
    RankingIsTopKAndStable(t, w, req, Ranking(t, w, req)[i]);
    assert RanksAtLeast(Ranking(t, w, req)[i], Ranking(t, w, req)[j]);
  }
}
