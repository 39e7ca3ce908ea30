/** Greedy diversity selection (`_select_skills` in `app/shadow_ensemble.py`): what it picks is
    optimal, and does not depend on the order of the registry's listing. */
module EnsembleSelection {
  import opened Basics
  import opened Json
  import opened Sorting
  import opened Registry

  datatype Request = Request(families: seq<string>, skillIds: seq<string>, maxSkills: nat)

  function Family(k: Skill): string {
    FamilyOf(k.id, k.row)
  }

  /** `_diversity_group`; `render` is Python's `str` on a context value. */
  function DiversityGroup(render: Value -> string, k: Skill): string {
    var context := k.row.meta.marketContext;
    if context.Get("correlation_group").Truthy() then render(context.Get("correlation_group"))
    else if context.Get("feature_family").Truthy() then render(context.Get("feature_family"))
    else if context.Get("strategy_family").Truthy() then render(context.Get("strategy_family"))
    else Family(k)
  }

  function DiversityBy(render: Value -> string): Skill -> string {
    (k: Skill) => DiversityGroup(render, k)
  }

  predicate Eligible(req: Request, k: Skill) {
    && k.row.validated && k.row.approval == Approved
    && (k.row.stage == Champion || k.row.stage == Challenger || k.row.stage == Shadow)
    && (req.families == [] || Family(k) in req.families)
    && (req.skillIds == [] || k.id in req.skillIds)
  }

  function EligibleFor(req: Request): Skill -> bool {
    (k: Skill) => Eligible(req, k)
  }

  function StageRank(stage: Stage): int {
    match stage
    case Champion => 0
    case Challenger => 1
    case Shadow => 2
    case _ => 9
  }

  /** The sort key: stage, family, version, id. */
  predicate RankedBefore(a: Skill, b: Skill) {
    if StageRank(a.row.stage) != StageRank(b.row.stage) then StageRank(a.row.stage) < StageRank(b.row.stage)
    else if Family(a) != Family(b) then StrLe(Family(a), Family(b))
    else if a.row.version != b.row.version then StrLe(a.row.version, b.row.version)
    else StrLe(a.id, b.id)
  }

  lemma RankIsTotal()
    ensures Preorder(RankedBefore)
    ensures forall a, b :: RankedBefore(a, b) && RankedBefore(b, a) ==> a.id == b.id
  {
    forall a: Skill, b: Skill
      ensures RankedBefore(a, b) || RankedBefore(b, a)
      ensures RankedBefore(a, b) && RankedBefore(b, a) ==> a.id == b.id
    {
      StrLeTotal(Family(a), Family(b));
      StrLeTotal(a.row.version, b.row.version);
      StrLeTotal(a.id, b.id);
    }
    forall a: Skill, b: Skill, c: Skill | RankedBefore(a, b) && RankedBefore(b, c) ensures RankedBefore(a, c) {
      RankTransitive(a, b, c);
    }
  }

  lemma StrLeChain(a: string, b: string, c: string)
    ensures StrLe(a, b) && StrLe(b, c) ==> StrLe(a, c) && (a == c ==> a == b)
  {
    StrLeTotal(a, b);
    if StrLe(a, b) && StrLe(b, c) {
      StrLeTransitive(a, b, c);
    }
  }

  lemma RankTransitive(a: Skill, b: Skill, c: Skill)
    requires RankedBefore(a, b) && RankedBefore(b, c)
    ensures RankedBefore(a, c)
  {
    StrLeChain(Family(a), Family(b), Family(c));
    StrLeChain(a.row.version, b.row.version, c.row.version);
    StrLeChain(a.id, b.id, c.id);
  }

  /** The eligible skills, best ranked first. */
  function Ranked(t: Table, req: Request): seq<Skill> {
    Sort(Listing(t, EligibleFor(req)), RankedBefore)
  }

  // ---------- The picks ----------

  /** The groups of some skills. */
  function Groups(group: Skill -> string, s: seq<Skill>): set<string> {
    set i | 0 <= i < |s| :: group(s[i])
  }

  /** The skills that are the first of their group. */
  function Firsts(group: Skill -> string, s: seq<Skill>): seq<Skill> {
    if s == [] then []
    else
      var n := |s| - 1;
      Firsts(group, s[..n]) + if group(s[n]) in Groups(group, s[..n]) then [] else [s[n]]
  }

  /** The skills that are not. */
  function Repeats(group: Skill -> string, s: seq<Skill>): seq<Skill> {
    if s == [] then []
    else
      var n := |s| - 1;
      Repeats(group, s[..n]) + if group(s[n]) in Groups(group, s[..n]) then [s[n]] else []
  }

  /** The first maxSkills of: one skill of every group, then the rest. */
  function Selection(group: Skill -> string, s: seq<Skill>, maxSkills: nat): seq<Skill> {
    var all := Firsts(group, s) + Repeats(group, s);
    all[..Min(maxSkills, |all|)]
  }

  lemma {:induction false} FirstsGrow(group: Skill -> string, s: seq<Skill>, n: nat)
    requires n <= |s|
    ensures Firsts(group, s[..n]) <= Firsts(group, s)
  {
    if n < |s| {
      FirstsGrow(group, s[..|s| - 1], n);
      assert s[..|s| - 1][..n] == s[..n];
    } else {
      assert s[..n] == s;
    }
  }

  lemma FullAfterPrefix(group: Skill -> string, s: seq<Skill>, n: nat, maxSkills: nat)
    requires n <= |s| && |Firsts(group, s[..n])| == maxSkills
    ensures Selection(group, s, maxSkills) == Firsts(group, s[..n])
  {
    FirstsGrow(group, s, n);
  }

  /** The first loop: the first skill of each group, until the selection is full; then the
      second. */
  method PickDiverse(group: Skill -> string, candidates: seq<Skill>, maxSkills: nat) returns (selected: seq<Skill>)
    requires maxSkills >= 1
    ensures selected == Selection(group, candidates, maxSkills)
  {
    var seenGroups: set<string>, deferred: seq<Skill> := {}, [];
    selected := [];
    for i := 0 to |candidates|
      invariant selected == Firsts(group, candidates[..i]) && deferred == Repeats(group, candidates[..i])
      invariant seenGroups == Groups(group, candidates[..i])
      invariant |selected| < maxSkills
    {
      var skill := candidates[i];
      assert candidates[..i + 1][..i] == candidates[..i];
      assert candidates[..i + 1] == candidates[..i] + [skill];
      GroupsSnoc(group, candidates[..i], skill);
      if group(skill) in seenGroups {
        deferred := deferred + [skill];
      } else {
        selected := selected + [skill];
        seenGroups := seenGroups + {group(skill)};
        if |selected| >= maxSkills {
          FullAfterPrefix(group, candidates, i + 1, maxSkills);
          return;
        }
      }
    }
    assert candidates[..|candidates|] == candidates;
    selected := FillUp(selected, deferred, maxSkills);
  }

  /** The second loop: deferred skills until the selection is full. */
  method FillUp(firsts: seq<Skill>, deferred: seq<Skill>, maxSkills: nat) returns (selected: seq<Skill>)
    requires |firsts| < maxSkills
    ensures selected == (firsts + deferred)[..Min(maxSkills, |firsts + deferred|)]
  {
    selected := firsts;
    for i := 0 to |deferred|
      invariant selected == firsts + deferred[..i] && |selected| < maxSkills
    {
      selected := selected + [deferred[i]];
      if |selected| >= maxSkills {
        return;
      }
    }
  }

  lemma GroupsSnoc(group: Skill -> string, s: seq<Skill>, k: Skill)
    ensures Groups(group, s + [k]) == Groups(group, s) + {group(k)}
  {
    assert forall i | 0 <= i < |s| :: (s + [k])[i] == s[i];
    assert (s + [k])[|s|] == k;
    forall g | g in Groups(group, s) ensures g in Groups(group, s + [k]) {
      var i :| 0 <= i < |s| && group(s[i]) == g;
      assert group((s + [k])[i]) == g;
    }
  }

  // ---------- Optimality ----------

  /** No two of the skills share a group. */
  ghost predicate Diverse(group: Skill -> string, s: seq<Skill>) {
    forall i, j | 0 <= i < j < |s| :: group(s[i]) != group(s[j])
  }

  lemma {:induction false} FirstsCoverAllGroups(group: Skill -> string, s: seq<Skill>)
    ensures Diverse(group, Firsts(group, s))
    ensures Groups(group, Firsts(group, s)) == Groups(group, s)
    ensures |Firsts(group, s)| + |Repeats(group, s)| == |s|
  {
    if s != [] {
      var n := |s| - 1;
      var firsts := Firsts(group, s[..n]);
      FirstsCoverAllGroups(group, s[..n]);
      assert s == s[..n] + [s[n]];
      GroupsSnoc(group, s[..n], s[n]);
      GroupsSnoc(group, firsts, s[n]);
      assert forall i | 0 <= i < |firsts| :: group(firsts[i]) in Groups(group, firsts);
      if group(s[n]) in Groups(group, s[..n]) {
        assert firsts + [] == firsts;
      }
    }
  }

  lemma {:induction false} DiverseCountsGroups(group: Skill -> string, s: seq<Skill>)
    requires Diverse(group, s)
    ensures |Groups(group, s)| == |s|
  {
    if s != [] {
      var n := |s| - 1;
      DiverseCountsGroups(group, s[..n]);
      assert s == s[..n] + [s[n]];
      GroupsSnoc(group, s[..n], s[n]);
    }
  }

  lemma {:induction false} GroupsAtMostSkills(group: Skill -> string, s: seq<Skill>)
    ensures |Groups(group, s)| <= |s|
  {
    if s != [] {
      GroupsAtMostSkills(group, s[..|s| - 1]);
      assert s == s[..|s| - 1] + [s[|s| - 1]];
      GroupsSnoc(group, s[..|s| - 1], s[|s| - 1]);
    }
  }

  lemma SubsetSize<T>(a: set<T>, b: set<T>)
    requires a <= b
    ensures |a| <= |b|
  {
    assert |b| == |a| + |b - a| by {
      assert b == a + (b - a);
    }
  }

  /** Which elements the picks are: the firsts and the repeats together are the candidates. */
  lemma {:induction false} PicksAreCandidates(group: Skill -> string, s: seq<Skill>)
    ensures multiset(Firsts(group, s) + Repeats(group, s)) == multiset(s)
  {
    if s != [] {
      var n := |s| - 1;
      var firsts, repeats := Firsts(group, s[..n]), Repeats(group, s[..n]);
      PicksAreCandidates(group, s[..n]);
      assert s == s[..n] + [s[n]];
      OneMore(firsts, repeats, s[n]);
      if group(s[n]) in Groups(group, s[..n]) {
        assert Firsts(group, s) == firsts;
      } else {
        assert Repeats(group, s) == repeats;
      }
    }
  }

  lemma OneMore<T>(a: seq<T>, b: seq<T>, x: T)
    ensures multiset(a + (b + [x])) == multiset(a + b) + multiset{x} == multiset((a + [x]) + b)
  {
    assert multiset(a + (b + [x])) == multiset(a) + multiset(b) + multiset{x};
  }

  lemma SelectionMembers(group: Skill -> string, s: seq<Skill>, maxSkills: nat)
    requires Distinct(s)
    ensures var r := Selection(group, s, maxSkills);
            |r| == Min(maxSkills, |s|) && Distinct(r) && forall k | k in r :: k in s
  {
    var all := Firsts(group, s) + Repeats(group, s);
    FirstsCoverAllGroups(group, s);
    PicksAreCandidates(group, s);
    DistinctByCount(s, all);
    forall k | k in Selection(group, s, maxSkills) ensures k in s {
      assert k in multiset(all);
    }
  }

  lemma SelectionCoverage(group: Skill -> string, s: seq<Skill>, maxSkills: nat)
    requires Distinct(s)
    ensures |Groups(group, Selection(group, s, maxSkills))| == Min(maxSkills, |Groups(group, s)|)
  {
    var firsts, r := Firsts(group, s), Selection(group, s, maxSkills);
    FirstsCoverAllGroups(group, s);
    DiverseCountsGroups(group, firsts);
    if maxSkills <= |firsts| {
      assert r == firsts[..maxSkills];
      DiverseCountsGroups(group, r);
    } else {
      SelectionMembers(group, s, maxSkills);
      GroupsOfSome(group, r, s);
      forall k | k in firsts ensures k in r {
        var i :| 0 <= i < |firsts| && firsts[i] == k;
        assert r[i] == k;
      }
      GroupsOfSome(group, firsts, r);
      assert Groups(group, r) == Groups(group, s);
    }
  }

  /** A choice of min(maxSkills, candidates) distinct candidates that covers min(maxSkills,
      groups) groups; no choice of at most maxSkills candidates covers more. */
  ghost predicate Optimal(group: Skill -> string, s: seq<Skill>, maxSkills: nat, r: seq<Skill>) {
    && |r| == Min(maxSkills, |s|) && Distinct(r) && (forall k | k in r :: k in s)
    && |Groups(group, r)| == Min(maxSkills, |Groups(group, s)|)
    && forall other: seq<Skill> | |other| <= maxSkills && (forall k | k in other :: k in s) ::
         |Groups(group, other)| <= |Groups(group, r)|
  }

  lemma SelectionIsOptimal(group: Skill -> string, s: seq<Skill>, maxSkills: nat)
    requires Distinct(s)
    ensures Optimal(group, s, maxSkills, Selection(group, s, maxSkills))
  {
    SelectionMembers(group, s, maxSkills);
    SelectionCoverage(group, s, maxSkills);
    forall other: seq<Skill> | |other| <= maxSkills && (forall k | k in other :: k in s)
      ensures |Groups(group, other)| <= |Groups(group, Selection(group, s, maxSkills))|
    {
      GroupsAtMostSkills(group, other);
      GroupsOfSome(group, other, s);
      SubsetSize(Groups(group, other), Groups(group, s));
    }
  }

  lemma GroupsOfSome(group: Skill -> string, some: seq<Skill>, s: seq<Skill>)
    requires forall k | k in some :: k in s
    ensures Groups(group, some) <= Groups(group, s)
  {
    forall g | g in Groups(group, some) ensures g in Groups(group, s) {
      var i :| 0 <= i < |some| && group(some[i]) == g;
      assert some[i] in s;
    }
  }

  /** A covered group is represented by its best-ranked member. */
  lemma {:induction false} BestOfGroupIsFirst(group: Skill -> string, s: seq<Skill>, i: nat)
    requires i < |s| && group(s[i]) !in Groups(group, s[..i])
    ensures s[i] in Firsts(group, s)
  {
    if i < |s| - 1 {
      assert s[..|s| - 1][..i] == s[..i] && s[..|s| - 1][i] == s[i];
      BestOfGroupIsFirst(group, s[..|s| - 1], i);
    }
  }

  lemma SelectionTakesTheBest(group: Skill -> string, s: seq<Skill>, maxSkills: nat, i: nat)
    requires i < |s| && group(s[i]) !in Groups(group, s[..i])
    requires group(s[i]) in Groups(group, Selection(group, s, maxSkills))
    ensures s[i] in Selection(group, s, maxSkills)
  {
    var firsts, r := Firsts(group, s), Selection(group, s, maxSkills);
    FirstsCoverAllGroups(group, s);
    BestOfGroupIsFirst(group, s, i);
    var p :| 0 <= p < |firsts| && firsts[p] == s[i];
    var q :| 0 <= q < |r| && group(r[q]) == group(s[i]);
    if q < |firsts| {
      assert r[q] == firsts[q];
      assert q == p;
    }
    assert r[p] == firsts[p];
  }

  // ---------- Independence of the listing order ----------

  lemma {:induction false} SameElementsSameCounts<T(!new)>(a: seq<T>, b: seq<T>)
    requires Distinct(a) && Distinct(b) && forall x :: x in a <==> x in b
    ensures multiset(a) == multiset(b)
  {
    forall x ensures multiset(a)[x] == multiset(b)[x] {
      OnceInDistinct(a, x);
      OnceInDistinct(b, x);
      assert x in multiset(a) <==> x in a;
      assert x in multiset(b) <==> x in b;
    }
  }

  lemma RankedHasExactly(t: Table, req: Request)
    requires WellFormed(t)
    ensures Distinct(Ranked(t, req)) && Ordered(Ranked(t, req), RankedBefore)
    ensures forall k :: k in Ranked(t, req) <==> k.id in t.rows && t.rows[k.id] == k.row && Eligible(req, k)
  {
    var listed := Listing(t, EligibleFor(req));
    ListingHasExactly(t, EligibleFor(req));
    RankIsTotal();
    SortSorts(listed, RankedBefore);
    DistinctByCount(listed, Ranked(t, req));
  }

  // ---------- Candidates, order and groups, read off the rows ----------

  function FamilyName(k: Skill): string {
    if k.row.family == "" then k.id else k.row.family
  }

  /** A stored skill that may be selected: validated, approved, at one of three stages, and of a
      family and with an id that were asked for, if any were. */
  predicate Candidate(t: Table, req: Request, k: Skill) {
    && k.id in t.rows && t.rows[k.id] == k.row
    && k.row.validated && k.row.approval == Approved && k.row.stage in {Champion, Challenger, Shadow}
    && (|req.families| > 0 ==> FamilyName(k) in req.families) && (|req.skillIds| > 0 ==> k.id in req.skillIds)
  }

  /** `a` stands before `b`: champions before challengers before shadows, then by family, version
      and id. */
  predicate StandsBefore(a: Skill, b: Skill) {
    || (a.row.stage == Champion && b.row.stage != Champion)
    || (a.row.stage == Challenger && b.row.stage == Shadow)
    || (&& a.row.stage == b.row.stage && StrLe(FamilyName(a), FamilyName(b))
        && (FamilyName(a) == FamilyName(b) ==> StrLe(a.row.version, b.row.version))
        && (FamilyName(a) == FamilyName(b) && a.row.version == b.row.version ==> StrLe(a.id, b.id)))
  }

  lemma RankMeaning(t: Table, req: Request, a: Skill, b: Skill)
    requires Candidate(t, req, a) && Candidate(t, req, b) && RankedBefore(a, b)
    ensures StandsBefore(a, b)
  {
    StrLeTotal(FamilyName(a), FamilyName(b));
    StrLeTotal(a.row.version, b.row.version);
  }

  /** The candidates, each once, in that order. */
  lemma RankedExactly(t: Table, req: Request)
    requires WellFormed(t)
    ensures forall k :: k in Ranked(t, req) <==> Candidate(t, req, k)
    ensures Distinct(Ranked(t, req))
    ensures forall i, j | 0 <= i < j < |Ranked(t, req)| :: StandsBefore(Ranked(t, req)[i], Ranked(t, req)[j])
  {
    RankedHasExactly(t, req);
    var ranked := Ranked(t, req);
    forall k ensures k in ranked <==> Candidate(t, req, k) {
      assert k.id in t.rows && t.rows[k.id] == k.row ==> (Eligible(req, k) <==> Candidate(t, req, k));
    }
    forall i, j | 0 <= i < j < |ranked| ensures StandsBefore(ranked[i], ranked[j]) {
      assert ranked[i] in ranked && ranked[j] in ranked;
      RankMeaning(t, req, ranked[i], ranked[j]);
    }
  }

  /** A skill's group is its correlation group, else its feature family, else its strategy family,
      else its family, the first of them that is set. */
  lemma GroupExactly(render: Value -> string, k: Skill)
    ensures var context, group := k.row.meta.marketContext, DiversityBy(render)(k);
            var a, b, c :=
              context.Get("correlation_group"), context.Get("feature_family"), context.Get("strategy_family");
            && (a.Truthy() ==> group == render(a))
            && (!a.Truthy() && b.Truthy() ==> group == render(b))
            && (!a.Truthy() && !b.Truthy() && c.Truthy() ==> group == render(c))
            && (!a.Truthy() && !b.Truthy() && !c.Truthy() ==> group == FamilyName(k))
  {
  }

  /** What the service selects: of the eligible skills, by their diversity groups, an optimal
      choice. */
  method SelectSkills(t: Table, req: Request, render: Value -> string) returns (selected: seq<Skill>)
    requires WellFormed(t) && req.maxSkills >= 1
    ensures selected == Selection(DiversityBy(render), Ranked(t, req), req.maxSkills)
    ensures Optimal(DiversityBy(render), Ranked(t, req), req.maxSkills, selected)
    ensures forall k | k in selected :: Candidate(t, req, k)
    ensures |selected| == Min(req.maxSkills, |Ranked(t, req)|)
  {
    RankedExactly(t, req);
    SelectionIsOptimal(DiversityBy(render), Ranked(t, req), req.maxSkills);
    selected := PickDiverse(DiversityBy(render), Ranked(t, req), req.maxSkills);
  }

  /** The selection depends on the rows alone: whatever order the registry lists them in, the
      same skills are picked in the same order. */
  lemma SelectionIgnoresListingOrder(t: Table, u: Table, req: Request, group: Skill -> string)
    requires WellFormed(t) && WellFormed(u) && t.rows == u.rows
    ensures Selection(group, Ranked(t, req), req.maxSkills) == Selection(group, Ranked(u, req), req.maxSkills)
  {
    RankedHasExactly(t, req);
    RankedHasExactly(u, req);
    RankIsTotal();
    SameElementsSameCounts(Ranked(t, req), Ranked(u, req));
    OrderedIsUnique(Ranked(t, req), Ranked(u, req), RankedBefore);
  }
}
