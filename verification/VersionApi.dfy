/** The version lifecycle handlers (`app/version_api.py`): family summaries and rollback. */
module VersionApi {
  import opened Basics
  import opened Sorting
  import opened Registry
  import opened Governance

  /** The filters the handlers list with. */
  function InFamily(family: string): Skill -> bool {
    Columns(Query(None, None, None, Some(family), None))
  }

  function ChampionOf(family: string): Skill -> bool {
    Columns(Query(None, None, None, Some(family), Some("champion")))
  }

  // ---------- Family summaries ----------

  /** The sort key of `_family_summary`: creation time, version, id. */
  predicate SummaryOrder(a: Skill, b: Skill) {
    if a.row.createdAt != b.row.createdAt then a.row.createdAt < b.row.createdAt
    else if a.row.version != b.row.version then StrLe(a.row.version, b.row.version)
    else StrLe(a.id, b.id)
  }

  /** The summary's order: by creation time, then by version, then by id. */
  lemma SummaryOrderExactly(a: Skill, b: Skill)
    ensures SummaryOrder(a, b) <==>
            && a.row.createdAt <= b.row.createdAt
            && (a.row.createdAt == b.row.createdAt ==> StrLe(a.row.version, b.row.version))
            && (a.row.createdAt == b.row.createdAt && a.row.version == b.row.version ==> StrLe(a.id, b.id))
  {
    StrLeTotal(a.row.version, b.row.version);
  }

  lemma SummaryOrderIsTotal()
    ensures Preorder(SummaryOrder)
  {
    forall a: Skill, b: Skill ensures SummaryOrder(a, b) || SummaryOrder(b, a) {
      StrLeTotal(a.row.version, b.row.version);
      StrLeTotal(a.id, b.id);
    }
    forall a: Skill, b: Skill, c: Skill | SummaryOrder(a, b) && SummaryOrder(b, c) ensures SummaryOrder(a, c) {
      StrLeTotal(a.row.version, b.row.version);
      StrLeTotal(b.row.version, c.row.version);
      if StrLe(a.row.version, b.row.version) && StrLe(b.row.version, c.row.version) {
        StrLeTransitive(a.row.version, b.row.version, c.row.version);
      }
      if StrLe(a.id, b.id) && StrLe(b.id, c.id) {
        StrLeTransitive(a.id, b.id, c.id);
      }
    }
  }

  /** A family id selects the rows of that family; the empty id, which `list` skips, all. */
  predicate InScope(family: string, row: Row) {
    family == "" || row.family == family
  }

  datatype Summary = Summary(versions: seq<Skill>, champion: Option<Skill>, latest: Skill)

  /** The last champion in the given order, `champions[-1]`. */
  function LastChampion(s: seq<Skill>): Option<Skill> {
    if s == [] then None
    else if s[|s| - 1].row.stage == Champion then Some(s[|s| - 1])
    else LastChampion(s[..|s| - 1])
  }

  function Versions(t: Table, family: string): seq<Skill> {
    Sort(Listing(t, InFamily(family)), SummaryOrder)
  }

  function FamilySummary(t: Table, family: string): Result<Summary, Error> {
    var ordered := Versions(t, family);
    if ordered == [] then Err(KeyError)
    else Ok(Summary(ordered, LastChampion(ordered), ordered[|ordered| - 1]))
  }

  lemma {:induction false} LastChampionIsLast(s: seq<Skill>)
    requires Ordered(s, SummaryOrder)
    ensures LastChampion(s).Some? ==> LastChampion(s).value in s && LastChampion(s).value.row.stage == Champion
    ensures forall k | k in s && k.row.stage == Champion ::
              LastChampion(s).Some? && (k == LastChampion(s).value || SummaryOrder(k, LastChampion(s).value))
  {
    if s != [] {
      var n := |s| - 1;
      LastChampionIsLast(s[..n]);
      assert s == s[..n] + [s[n]];
    }
  }

  lemma VersionsHasExactly(t: Table, family: string)
    requires WellFormed(t)
    ensures forall k :: k in Versions(t, family) <==> k.id in t.rows && t.rows[k.id] == k.row && InScope(family, k.row)
    ensures Distinct(Versions(t, family)) && Ordered(Versions(t, family), SummaryOrder)
  {
    var listed := Listing(t, InFamily(family));
    ListingHasExactly(t, InFamily(family));
    assert forall k :: InFamily(family)(k) <==> InScope(family, k.row);
    SummaryOrderIsTotal();
    SortSorts(listed, SummaryOrder);
    DistinctByCount(listed, Sort(listed, SummaryOrder));
  }

  /** A summary lists each version in scope once, in the order of creation time, version and
      id; the latest is the last in that order, and the champion the last among champions. */
  ghost predicate SummaryFits(t: Table, family: string, s: Summary) {
    && (forall k :: k in s.versions <==> k.id in t.rows && t.rows[k.id] == k.row && InScope(family, k.row))
    && Distinct(s.versions) && Ordered(s.versions, SummaryOrder)
    && s.latest in s.versions && (forall k | k in s.versions :: k == s.latest || SummaryOrder(k, s.latest))
    && (s.champion.Some? ==> s.champion.value in s.versions && s.champion.value.row.stage == Champion)
    && forall k | k in s.versions && k.row.stage == Champion ::
         s.champion.Some? && (k == s.champion.value || SummaryOrder(k, s.champion.value))
  }

  /** A family's summary fails exactly when no version is in scope. */
  lemma SummaryMeaning(t: Table, family: string)
    requires WellFormed(t)
    ensures FamilySummary(t, family).Err? <==> forall id | id in t.rows :: !InScope(family, t.rows[id])
    ensures FamilySummary(t, family).Ok? ==>
              SummaryFits(t, family, FamilySummary(t, family).value)
              && |FamilySummary(t, family).value.versions| == |InScopeIds(t, family)|
  {
    var ordered := Versions(t, family);
    VersionsHasExactly(t, family);
    LastChampionIsLast(ordered);
    SummaryCounts(t, family, ordered);
    forall id | id in t.rows && InScope(family, t.rows[id]) ensures Skill(id, t.rows[id]) in ordered {
    }
    if ordered != [] {
      assert ordered[0] in ordered;
      LastIsGreatest(ordered);
    }
  }

  lemma LastIsGreatest(ordered: seq<Skill>)
    requires ordered != [] && Ordered(ordered, SummaryOrder)
    ensures forall k | k in ordered :: k == ordered[|ordered| - 1] || SummaryOrder(k, ordered[|ordered| - 1])
  {
  }

  function InScopeIds(t: Table, family: string): set<string> {
    set id | id in t.rows && InScope(family, t.rows[id])
  }

  /** The version count is the number of rows in scope. */
  lemma SummaryCounts(t: Table, family: string, versions: seq<Skill>)
    requires forall k :: k in versions <==> k.id in t.rows && t.rows[k.id] == k.row && InScope(family, k.row)
    requires Distinct(versions)
    ensures |versions| == |InScopeIds(t, family)|
  {
    forall i, j | 0 <= i < j < |versions| ensures versions[i].id != versions[j].id {
      assert versions[i] in versions && versions[j] in versions;
    }
    DistinctIds(versions);
    assert IdsOf(versions) == InScopeIds(t, family) by {
      forall id | id in InScopeIds(t, family) ensures id in IdsOf(versions) {
        assert Skill(id, t.rows[id]) in versions;
      }
    }
  }

  function IdsOf(s: seq<Skill>): set<string> {
    set k | k in s :: k.id
  }

  lemma {:induction false} DistinctIds(s: seq<Skill>)
    requires forall i, j | 0 <= i < j < |s| :: s[i].id != s[j].id
    ensures |IdsOf(s)| == |s|
  {
    if s != [] {
      var n := |s| - 1;
      DistinctIds(s[..n]);
      assert s == s[..n] + [s[n]];
      assert IdsOf(s) == IdsOf(s[..n]) + {s[n].id};
    }
  }

  // ---------- Rollback ----------

  datatype Rollback = Rollback(restored: Skill, replaced: Option<string>, family: Summary)

  /** The first listed champion other than the target. */
  function FirstOther(s: seq<Skill>, id: string): Option<string> {
    if s == [] then None else if s[0].id != id then Some(s[0].id) else FirstOther(s[1..], id)
  }

  /** In a listing it is the newest of them, and there is none only if there is no other. */
  lemma {:induction false} FirstOtherIsNewest(s: seq<Skill>, id: string)
    requires Ordered(s, NewestFirst)
    ensures FirstOther(s, id).Some? ==>
              exists k | k in s && k.id == FirstOther(s, id).value && k.id != id ::
                forall o | o in s && o.id != id :: k.row.createdAt >= o.row.createdAt
    ensures FirstOther(s, id).None? ==> forall k | k in s :: k.id == id
  {
    if s != [] {
      assert s == [s[0]] + s[1..];
      if s[0].id == id {
        FirstOtherIsNewest(s[1..], id);
      } else {
        forall o | o in s && o.id != id ensures s[0].row.createdAt >= o.row.createdAt {
          HeadIsLeast(s, o, NewestFirst);
        }
      }
    }
  }

  /** The newest of the other champions of a family. */
  ghost predicate NewestRival(t: Table, family: string, id: string, prior: string) {
    && IsOtherChampion(t.rows, family, id, prior)
    && forall o | o in t.rows && IsOtherChampion(t.rows, family, id, o) ::
         t.rows[prior].createdAt >= t.rows[o].createdAt
  }

  /** A completed rollback: the target is its family's only champion; the skill it says it
      replaced was the newest other champion and is now retired, and it names one whenever there
      was one; the family summary it returns shows the target. */
  ghost predicate RolledBack(before: Table, after: Table, id: string, actor: Option<string>, why: Option<string>,
                             now: int, report: Rollback)
    requires id in before.rows
  {
    var family := before.rows[id].family;
    && Crowned(before, after, id, actor, why, now)
    && OnlyChampion(after, family, id)
    && report.restored == Skill(id, after.rows[id])
    && SummaryFits(after, family, report.family)
    && report.family.champion == Some(report.restored)
    && (report.replaced.None? ==> forall o :: !IsOtherChampion(before.rows, family, id, o))
    && (report.replaced.Some? ==>
          && NewestRival(before, family, id, report.replaced.value)
          && after.rows[report.replaced.value].stage == Retired)
  }

  /** The skill id is a segment of the request's path, so it is not empty. */
  method RollbackFamilyToSkill(registry: SkillRegistry, id: string, actor: Option<string>, reason: Option<string>,
                               now: int)
      returns (r: Result<Rollback, Error>)
    requires registry.Valid() && id != ""
    modifies registry
    ensures registry.Valid()
    ensures r.Err? ==> registry.State() == old(registry.State())
    ensures r.Ok? <==>
              && id in old(registry.rows)
              && old(registry.rows[id]).validated && old(registry.rows[id]).approval == Approved
    ensures r.Err? ==> r.error == if id in old(registry.rows) then NotDeployable else KeyError
    ensures r.Ok? ==> RolledBack(old(registry.State()), registry.State(), id, actor,
                                 Some(Or(reason, "manual_champion_rollback")), now, r.value)
  {
    if id !in registry.rows {
      return Err(KeyError);
    }
    ghost var before := registry.State();
    var family := FamilyOf(id, registry.rows[id]);
    var champions := Listing(registry.State(), ChampionOf(family));
    var prior := FirstOther(champions, id);
    var why := Some(Or(reason, "manual_champion_rollback"));
    CanCrown(before, id, actor, why, now);
    var restored := registry.Promote(id, "champion", actor, why, now);
    if restored.Err? {
      return Err(restored.error);
    }
    RollbackOutcome(before, id, actor, why, now);
    return Ok(Rollback(restored.value, prior, FamilySummary(registry.State(), family).value));
  }

  lemma RollbackOutcome(before: Table, id: string, actor: Option<string>, why: Option<string>, now: int)
    requires WellFormed(before) && id in before.rows && before.rows[id].family != ""
    requires DecidePromote(before, id, "champion", actor, why, now).answer.Ok?
    ensures var family := before.rows[id].family;
            var after := ApplyAll(before, DecidePromote(before, id, "champion", actor, why, now).writes);
            var prior := FirstOther(Listing(before, ChampionOf(family)), id);
            && id in after.rows && FamilySummary(after, family).Ok?
            && RolledBack(before, after, id, actor, why, now,
                          Rollback(Skill(id, after.rows[id]), prior, FamilySummary(after, family).value))
  {
    var family := before.rows[id].family;
    var writes := DecidePromote(before, id, "champion", actor, why, now).writes;
    PromotionCrownsExactlyOne(before, id, actor, why, now);
    ApplyAllKeepsWellFormed(before, writes);
    SummaryShowsTheChampion(ApplyAll(before, writes), family, id);
    PriorChampion(before, family, id);
  }

  lemma SummaryShowsTheChampion(t: Table, family: string, id: string)
    requires WellFormed(t) && id in t.rows && t.rows[id].family == family && family != ""
    requires OnlyChampion(t, family, id)
    ensures FamilySummary(t, family).Ok? && SummaryFits(t, family, FamilySummary(t, family).value)
    ensures FamilySummary(t, family).value.champion == Some(Skill(id, t.rows[id]))
  {
    SummaryMeaning(t, family);
    assert InScope(family, t.rows[id]);
    assert Skill(id, t.rows[id]) in FamilySummary(t, family).value.versions;
  }

  lemma ChampionsListed(family: string, k: Skill)
    requires family != ""
    ensures ChampionOf(family)(k) <==> k.row.family == family && k.row.stage == Champion
  {
  }

  lemma PriorChampion(t: Table, family: string, id: string)
    requires WellFormed(t) && family != ""
    ensures var prior := FirstOther(Listing(t, ChampionOf(family)), id);
            && (prior.None? ==> forall o :: !IsOtherChampion(t.rows, family, id, o))
            && (prior.Some? ==> NewestRival(t, family, id, prior.value))
  {
    var champions := Listing(t, ChampionOf(family));
    ListingHasExactly(t, ChampionOf(family));
    FirstOtherIsNewest(champions, id);
    forall o | IsOtherChampion(t.rows, family, id, o)
      ensures Skill(o, t.rows[o]) in champions && FirstOther(champions, id).Some?
    {
      ChampionsListed(family, Skill(o, t.rows[o]));
    }
    if FirstOther(champions, id).Some? {
      var k :| k in champions && k.id == FirstOther(champions, id).value && k.id != id
               && forall o | o in champions && o.id != id :: k.row.createdAt >= o.row.createdAt;
      ChampionsListed(family, k);
    }
  }
}
