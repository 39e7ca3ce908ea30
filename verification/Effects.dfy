/** What each operation of the registry does to the table, row by row, and when it is refused, in
    terms of the request and the table alone. */
module Effects {
  import opened Basics
  import opened Json
  import opened Registry
  import opened Lifecycle

  /** The actor a note names. */
  predicate Acts(note: Note, actor: Option<string>) {
    note.actor == if actor.Some? && actor.value != "" then actor.value else "system"
  }

  /** One note more, of this action, by this actor, for this reason, at this time. */
  ghost predicate NoteAdded(row: Row, row': Row, action: Action, actor: Option<string>, reason: Option<string>,
                            now: int) {
    && |row'.notes| == |row.notes| + 1 && row'.notes[..|row.notes|] == row.notes
    && var note := row'.notes[|row.notes|];
    && note.action == action && Acts(note, actor) && note.reason == reason && note.timestamp == now
    && row'.updatedAt == now
  }

  /** The columns that no operation on a stored row changes. */
  predicate SameSkill(row: Row, row': Row) {
    && row'.family == row.family && row'.version == row.version && row'.parent == row.parent
    && row'.code == row.code && row'.codeHash == row.codeHash && row'.validated == row.validated
    && row'.meta == row.meta && row'.createdAt == row.createdAt
  }

  ghost predicate SameIds(t: Table, t': Table) {
    t'.order == t.order && t'.rows.Keys == t.rows.Keys
  }

  /** The rows other than `id` are as they were. */
  ghost predicate OthersKept(t: Table, t': Table, id: string)
    requires SameIds(t, t')
  {
    forall o | o in t.rows && o != id :: t'.rows[o] == t.rows[o]
  }

  // ---------- Promotion ----------

  /** A champion of the family of `id` other than `id`. */
  predicate RivalChampion(t: Table, id: string, o: string)
    requires id in t.rows && o in t.rows
  {
    && o != id && t.rows[o].stage == Champion
    && t.rows[o].family == (if t.rows[id].family != "" then t.rows[id].family else id)
  }

  ghost predicate Replaced(row: Row, row': Row, successor: string, actor: Option<string>, reason: Option<string>,
                           now: int) {
    && SameSkill(row, row') && row'.stage == Retired && row'.approval == row.approval && row'.immutable == row.immutable
    && NoteAdded(row, row', MarkReplaced(successor), actor, reason, now)
  }

  /** What a promotion of `id` to the stage named `to` leaves: the target at that stage, frozen
      unless the stage is candidate; the other champions of its family retired if the stage is
      champion; every other row as it was. */
  ghost predicate Promoted(t: Table, t': Table, id: string, to: string, actor: Option<string>, reason: Option<string>,
                           now: int)
    requires id in t.rows
  {
    && SameIds(t, t')
    && var row, row' := t.rows[id], t'.rows[id];
    && SameSkill(row, row') && StageName(row'.stage) == to && row'.approval == row.approval
    && row'.immutable == (row.immutable || to != "candidate")
    && NoteAdded(row, row', MarkStaged(row'.stage), actor, reason, now)
    && forall o | o in t.rows && o != id ::
         if to == "champion" && RivalChampion(t, id, o) then Replaced(t.rows[o], t'.rows[o], id, actor, reason, now)
         else t'.rows[o] == t.rows[o]
  }

  lemma StageHasName(name: string)
    ensures forall stage :: StageNamed(name) == Some(stage) <==> StageName(stage) == name
  {
  }

  lemma LastWriteStages(t: Table, before: Table, id: string, stage: Stage, actor: Option<string>,
                        reason: Option<string>, now: int)
    requires id in t.rows && SameIds(t, before) && before.rows[id] == t.rows[id]
    requires forall o | o in t.rows && o != id ::
               if stage == Champion && RivalChampion(t, id, o)
               then Replaced(t.rows[o], before.rows[o], id, actor, reason, now)
               else before.rows[o] == t.rows[o]
    ensures Promoted(t, Apply(before, CrownWrite(id, t.rows[id], stage, actor, reason, now)), id, StageName(stage),
                     actor, reason, now)
  {
    var t' := Apply(before, CrownWrite(id, t.rows[id], stage, actor, reason, now));
    assert forall o | o in t.rows && o != id :: t'.rows[o] == before.rows[o];
    assert t'.rows[id].notes[..|t.rows[id].notes|] == t.rows[id].notes;
  }

  lemma RetirementReplaces(row: Row, successor: string, actor: Option<string>, reason: Option<string>, now: int)
    ensures Replaced(row, Touch(row, RetireChange(successor, actor, reason, now)), successor, actor, reason, now)
  {
    assert Touch(row, RetireChange(successor, actor, reason, now)).notes[..|row.notes|] == row.notes;
  }

  lemma WhoIsRetired(t: Table, id: string, stage: Stage, o: string)
    requires WellFormed(t) && id in t.rows && o in t.rows
    ensures o in Others(t, id, stage) <==> stage == Champion && RivalChampion(t, id, o)
  {
  }

  lemma StagingEffect(t: Table, id: string, stage: Stage, actor: Option<string>, reason: Option<string>, now: int)
    requires WellFormed(t) && id in t.rows
    ensures Promoted(t, ApplyAll(t, StageWrites(t, id, stage, actor, reason, now)), id, StageName(stage),
                     actor, reason, now)
  {
    var others, ws := Others(t, id, stage), StageWrites(t, id, stage, actor, reason, now);
    DuringPromotion(t, id, stage, actor, reason, now, |others|);
    assert others[..|others|] == others && ws[..|ws| - 1] == ws[..|others|];
    var before := ApplyAll(t, ws[..|others|]);
    WhoIsRetired(t, id, stage, id);
    forall o | o in t.rows && o != id
      ensures if stage == Champion && RivalChampion(t, id, o)
              then Replaced(t.rows[o], before.rows[o], id, actor, reason, now)
              else before.rows[o] == t.rows[o]
    {
      WhoIsRetired(t, id, stage, o);
      RetirementReplaces(t.rows[o], id, actor, reason, now);
    }
    LastWriteStages(t, before, id, stage, actor, reason, now);
  }

  lemma StagingDecision(t: Table, id: string, to: string, actor: Option<string>, reason: Option<string>, now: int)
    requires DecidePromote(t, id, to, actor, reason, now).answer.Ok?
    ensures id in t.rows && StageNamed(to).Some?
    ensures DecidePromote(t, id, to, actor, reason, now) ==
            Decision(StageWrites(t, id, StageNamed(to).value, actor, reason, now), Ok(id))
  {
  }

  /** Every promotion that is not refused, to whatever stage. */
  lemma PromotionEffect(t: Table, id: string, to: string, actor: Option<string>, reason: Option<string>, now: int)
    requires WellFormed(t) && DecidePromote(t, id, to, actor, reason, now).answer.Ok?
    ensures var d := DecidePromote(t, id, to, actor, reason, now);
            && d.answer == Ok(id) && id in t.rows
            && Promoted(t, ApplyAll(t, d.writes), id, to, actor, reason, now)
  {
    StagingDecision(t, id, to, actor, reason, now);
    StageHasName(to);
    StagingEffect(t, id, StageNamed(to).value, actor, reason, now);
  }

  predicate IsStageName(name: string) {
    name in {"candidate", "shadow", "challenger", "champion", "degraded", "quarantined", "retired"}
  }

  /** Which promotion gets which answer, for every stage name; a refused one writes nothing. */
  lemma PromotionAnswer(t: Table, id: string, to: string, actor: Option<string>, reason: Option<string>, now: int)
    ensures var d := DecidePromote(t, id, to, actor, reason, now);
            var fit := id in t.rows && t.rows[id].validated && t.rows[id].approval == Approved;
            var free := to == "candidate" || to == "retired";
            && (d.answer == Err(InvalidStage) <==> !IsStageName(to))
            && (d.answer == Err(KeyError) <==> IsStageName(to) && id !in t.rows)
            && (d.answer == Err(NotDeployable) <==> IsStageName(to) && id in t.rows && !free && !fit)
            && (d.answer == Ok(id) <==> IsStageName(to) && id in t.rows && (free || fit))
            && (d.answer != Ok(id) ==> d.writes == [])
  {
  }

  // ---------- Approval and deprecation ----------

  /** An approval is refused exactly for an absent or unvalidated skill, and otherwise approves
      and freezes that row alone, at the stage it had. */
  lemma ApprovalEffect(t: Table, id: string, actor: Option<string>, reason: Option<string>, now: int)
    ensures var d := DecideApprove(t, id, actor, reason, now); var t' := ApplyAll(t, d.writes);
            && (d.answer == Err(KeyError) <==> id !in t.rows)
            && (d.answer == Err(NotValidated) <==> id in t.rows && !t.rows[id].validated)
            && (d.answer.Err? ==> d.writes == [])
            && (d.answer.Ok? ==>
                  && d.answer.value == id && SameIds(t, t') && OthersKept(t, t', id)
                  && var row, row' := t.rows[id], t'.rows[id];
                  && SameSkill(row, row') && row'.stage == row.stage && row'.approval == Approved && row'.immutable
                  && NoteAdded(row, row', MarkApproved, actor, reason, now))
  {
    var d := DecideApprove(t, id, actor, reason, now);
    if d.answer.Ok? {
      ApplyAllOne(t, d.writes[0]);
      assert d.writes == [d.writes[0]];
      assert ApplyAll(t, d.writes).rows[id].notes[..|t.rows[id].notes|] == t.rows[id].notes;
    }
  }

  /** A deprecation is refused exactly for an absent skill, and otherwise deprecates, retires and
      freezes that row alone. */
  lemma DeprecationEffect(t: Table, id: string, actor: Option<string>, reason: Option<string>, now: int)
    ensures var d := DecideDeprecate(t, id, actor, reason, now); var t' := ApplyAll(t, d.writes);
            && (if id !in t.rows then d == Decision([], Err(KeyError)) else d.answer == Ok(id))
            && (id in t.rows ==>
                  && SameIds(t, t') && OthersKept(t, t', id)
                  && var row, row' := t.rows[id], t'.rows[id];
                  && SameSkill(row, row') && row'.stage == Retired && row'.approval == Deprecated && row'.immutable
                  && NoteAdded(row, row', MarkDeprecated, actor, reason, now))
  {
    var d := DecideDeprecate(t, id, actor, reason, now);
    if id in t.rows {
      ApplyAllOne(t, d.writes[0]);
      assert d.writes == [d.writes[0]];
      assert ApplyAll(t, d.writes).rows[id].notes[..|t.rows[id].notes|] == t.rows[id].notes;
    }
  }

  // ---------- Registration ----------

  /** The row a registration stores: the request's, of the computed hash and verdict, a draft
      without notes. */
  ghost predicate StoredRow(env: Env, req: CreateRequest, id: string, now: int, row: Row) {
    && row.family == (if req.family.Some? && req.family.value != "" then req.family.value else id)
    && row.version == req.version && row.parent == req.parent && row.stage == req.stage && row.meta == req.meta
    && row.code == req.code && row.codeHash == env.hash(req.code) && row.validated == env.approves(req.code)
    && row.approval == Draft && !row.immutable && row.notes == [] && row.createdAt == now && row.updatedAt == now
  }

  /** A registration that writes adds one row at the end, under the requested id or, if there is
      none, the fresh one, and is answered with it. One that does not leaves the table. */
  lemma RegistrationEffect(env: Env, t: Table, req: CreateRequest, freshId: string, now: int)
    ensures var d := DecideRegister(env, t, req, freshId, now); var t' := ApplyAll(t, d.writes);
            var id := if req.skillId.Some? && req.skillId.value != "" then req.skillId.value else freshId;
            if d.writes == [] then t' == t
            else
              && d.answer == Ok(id) && id !in t.rows && t'.order == t.order + [id]
              && t'.rows.Keys == t.rows.Keys + {id} && (forall o | o in t.rows :: t'.rows[o] == t.rows[o])
              && StoredRow(env, req, id, now, t'.rows[id])
  {
    var d := DecideRegister(env, t, req, freshId, now);
    if d.writes != [] {
      ApplyAllOne(t, d.writes[0]);
      assert d.writes == [d.writes[0]];
    }
  }

  /** A version request for an absent parent is refused; any other is the registration of a
      candidate of the parent's family, named after it. */
  lemma VersionIsRegistration(env: Env, t: Table, of: string, req: VersionRequest, freshId: string, now: int)
    ensures of !in t.rows ==> DecideVersion(env, t, of, req, freshId, now) == Decision([], Err(KeyError))
    ensures of in t.rows ==>
              exists create: CreateRequest ::
                && DecideVersion(env, t, of, req, freshId, now) == DecideRegister(env, t, create, freshId, now)
                && create.skillId == None && create.parent == Some(of) && create.stage == Candidate
                && create.family == Some(if t.rows[of].family != "" then t.rows[of].family else of)
                && create.version == req.version && create.code == req.code
                && create.meta.name == t.rows[of].meta.name
  {
    if of in t.rows {
      var create := VersionOf(of, t.rows[of], req);
      assert DecideVersion(env, t, of, req, freshId, now) == DecideRegister(env, t, create, freshId, now);
    }
  }

  // ---------- Repairs ----------

  /** Opening a database names each unnamed family after its skill, freezes what has been approved
      or deprecated, and leaves the rest. */
  lemma RepairEffect(t: Table)
    ensures var t' := Apply(t, Migrate);
            && SameIds(t, t')
            && forall id | id in t.rows ::
                 && t'.rows[id] == t.rows[id].(family := t'.rows[id].family, immutable := t'.rows[id].immutable)
                 && t'.rows[id].family == (if t.rows[id].family == "" then id else t.rows[id].family)
                 && (t'.rows[id].immutable <==> t.rows[id].immutable || t.rows[id].approval in {Approved, Deprecated})
  {
  }
}
