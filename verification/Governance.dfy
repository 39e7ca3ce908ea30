/** Champions, deployments, growth, lineage and idempotence over the registry's runs. */
module Governance {
  import opened Basics
  import opened Registry
  import opened Lifecycle

  // ---------- One champion per family, nothing deployed without approval ----------

  ghost predicate OneChampion(t: Table) {
    forall a, b | a in t.rows && b in t.rows && t.rows[a].family == t.rows[b].family
                  && t.rows[a].stage == Champion && t.rows[b].stage == Champion :: a == b
  }

  ghost predicate DeployedApproved(t: Table) {
    forall id | id in t.rows && Deployed(t.rows[id].stage) :: t.rows[id].validated && t.rows[id].approval == Approved
  }

  ghost predicate Governed(t: Table) {
    OneChampion(t) && DeployedApproved(t)
  }

  ghost predicate InsertsUndeployed(ws: seq<Write>) {
    forall k | 0 <= k < |ws| && ws[k].Insert? :: !Deployed(ws[k].row.stage)
  }

  lemma InsertKeepsGoverned(t: Table, id: string, row: Row)
    requires Governed(t) && id !in t.rows && !Deployed(row.stage)
    ensures Governed(Apply(t, Insert(id, row)))
  {
  }

  lemma UpdateKeepsDeployedApproved(env: Env, t: Table, id: string, c: Change)
    requires DeployedApproved(t) && Legal(env, t, Update(id, c))
    ensures DeployedApproved(Apply(t, Update(id, c)))
  {
  }

  lemma UpdateKeepsOneChampion(env: Env, t: Table, id: string, c: Change)
    requires OneChampion(t) && Legal(env, t, Update(id, c)) && FamilyOf(id, t.rows[id]) == t.rows[id].family
    ensures OneChampion(Apply(t, Update(id, c)))
  {
    var t', family := Apply(t, Update(id, c)), t.rows[id].family;
    if t'.rows[id].stage == Champion {
      forall o | o in t.rows && o != id && t.rows[o].family == family ensures t.rows[o].stage != Champion {
        assert t.rows[id].stage == Champion || !IsOtherChampion(t.rows, family, id, o);
      }
    }
  }

  lemma LegalKeepsGoverned(env: Env, t: Table, origin: map<string, Stage>, w: Write)
    requires Sound(env, t, origin) && Governed(t) && Legal(env, t, w)
    requires w.Insert? ==> !Deployed(w.row.stage)
    ensures Governed(Apply(t, w))
  {
    match w {
      case Insert(id, row) => InsertKeepsGoverned(t, id, row);
      case Update(id, c) =>
        UpdateKeepsDeployedApproved(env, t, id, c);
        UpdateKeepsOneChampion(env, t, id, c);
      case Migrate => ReopenChangesNothing(env, t, origin);
    }
  }

  lemma {:induction false} LegalSequenceKeepsGoverned(env: Env, t: Table, origin: map<string, Stage>, ws: seq<Write>)
    requires Sound(env, t, origin) && Governed(t)
    requires LegalSequence(env, t, ws) && InsertsUndeployed(ws)
    ensures Governed(ApplyAll(t, ws))
  {
    if ws != [] {
      var n := |ws| - 1;
      LegalPrefix(env, t, ws, n);
      LegalSequenceKeepsGoverned(env, t, origin, ws[..n]);
      LegalSequenceKeepsSound(env, t, origin, ws[..n]);
      LegalKeepsGoverned(env, ApplyAll(t, ws[..n]), Origins(origin, ws[..n]), ws[n]);
    }
  }

  ghost predicate GovernedThroughout(ws: seq<Write>) {
    forall k | 0 <= k <= |ws| :: Governed(ApplyAll(EMPTY, ws[..k]))
  }

  /** Exactly when governance holds after every row write of a run: when no row is inserted
      at a deployed stage. `register` stores any stage it is asked to, unapproved. */
  lemma GovernedIffInsertsUndeployed(env: Env, ops: seq<Op>)
    ensures GovernedThroughout(RunWrites(env, EMPTY, ops)) <==> InsertsUndeployed(RunWrites(env, EMPTY, ops))
  {
    RunIsLegal(env, EMPTY, ops);
    LegalWritesGovernedIff(env, RunWrites(env, EMPTY, ops));
  }

  lemma LegalWritesGovernedIff(env: Env, ws: seq<Write>)
    requires LegalSequence(env, EMPTY, ws)
    ensures GovernedThroughout(ws) <==> InsertsUndeployed(ws)
  {
    if InsertsUndeployed(ws) {
      forall k | 0 <= k <= |ws| ensures Governed(ApplyAll(EMPTY, ws[..k])) {
        GovernedSoFar(env, ws, k);
      }
    } else {
      var k :| 0 <= k < |ws| && ws[k].Insert? && Deployed(ws[k].row.stage);
      UngovernedAfter(env, ws, k);
    }
  }

  lemma GovernedSoFar(env: Env, ws: seq<Write>, k: nat)
    requires k <= |ws| && LegalSequence(env, EMPTY, ws) && InsertsUndeployed(ws)
    ensures Governed(ApplyAll(EMPTY, ws[..k]))
  {
    LegalPrefix(env, EMPTY, ws, k);
    LegalSequenceKeepsGoverned(env, EMPTY, map[], ws[..k]);
  }

  lemma UngovernedAfter(env: Env, ws: seq<Write>, k: nat)
    requires k < |ws| && ws[k].Insert? && Deployed(ws[k].row.stage)
    requires Legal(env, ApplyAll(EMPTY, ws[..k]), ws[k])
    ensures !Governed(ApplyAll(EMPTY, ws[..k + 1]))
  {
    assert ws[..k + 1][..k] == ws[..k];
    assert ApplyAll(EMPTY, ws[..k + 1]).rows[ws[k].id] == ws[k].row;
  }

  lemma ReachableIsSound(env: Env, ops: seq<Op>)
    ensures var ws := RunWrites(env, EMPTY, ops); Sound(env, ApplyAll(EMPTY, ws), Origins(map[], ws))
  {
    var ws := RunWrites(env, EMPTY, ops);
    assert ws[..|ws|] == ws;
    EveryReachableRegistryIsSound(env, ops, |ws|);
  }

  // ---------- Registration, case by case ----------

  ghost predicate VersionExists(t: Table, family: string, version: string) {
    exists o :: o in t.rows && t.rows[o].family == family && t.rows[o].version == version
  }

  ghost predicate VersionDiffers(t: Table, family: string, version: string, hash: string) {
    exists o :: o in t.rows && t.rows[o].family == family && t.rows[o].version == version && t.rows[o].codeHash != hash
  }

  /** Which registration gets which answer, without reference to the search it makes: a known
      id or a known family and version is answered with that skill if its code has the same
      hash and refused otherwise; a new one needs its parent to be in the family. */
  lemma RegistrationCaseByCase(env: Env, t: Table, req: CreateRequest, freshId: string, now: int)
    requires WellFormed(t) && UniqueVersions(t)
    ensures var d := DecideRegister(env, t, req, freshId, now);
            var id := Or(req.skillId, freshId);
            var family, hash := Or(req.family, id), env.hash(req.code);
            var isNew := id !in t.rows && !VersionExists(t, family, req.version);
            && (d.answer == Err(HashMismatch) <==> id in t.rows && t.rows[id].codeHash != hash)
            && (d.answer == Err(VersionTaken) <==> id !in t.rows && VersionDiffers(t, family, req.version, hash))
            && (d.answer == Err(ParentNotFound) <==> isNew && Or(req.parent, "") != "" && req.parent.value !in t.rows)
            && (d.answer == Err(ParentFamilyMismatch) <==>
                  && isNew && Or(req.parent, "") != ""
                  && req.parent.value in t.rows && t.rows[req.parent.value].family != family)
            && (d.writes != [] <==> isNew && d.answer.Ok?)
            && (d.answer.Ok? && d.writes == [] ==> d.answer.value in t.rows && t.rows[d.answer.value].codeHash == hash)
  {
    var id := Or(req.skillId, freshId);
    var family, hash := Or(req.family, id), env.hash(req.code);
    if id !in t.rows {
      var twin := FindVersion(t.rows, t.order, family, req.version);
      assert twin.Some? <==> VersionExists(t, family, req.version);
      assert twin.Some? ==>
          (VersionDiffers(t, family, req.version, hash) <==> t.rows[twin.value].codeHash != hash);
    }
  }

  // ---------- Which requests break governance ----------

  /** A test on a request and the table it meets: a registration that asks for a deployed stage
      under an unknown id, family and version, with no parent or one in its family. */
  ghost predicate StoresDeployed(t: Table, op: Op) {
    && op.Register? && Deployed(op.create.stage)
    && var id := Or(op.create.skillId, op.freshId);
    var family, parent := Or(op.create.family, id), Or(op.create.parent, "");
    && id !in t.rows && !VersionExists(t, family, op.create.version)
    && (parent == "" || (parent in t.rows && t.rows[parent].family == family))
  }

  lemma RegistrationStores(env: Env, t: Table, req: CreateRequest, freshId: string, now: int)
    requires WellFormed(t) && UniqueVersions(t)
    ensures InsertsUndeployed(DecideRegister(env, t, req, freshId, now).writes) <==>
            !StoresDeployed(t, Register(req, freshId, now))
  {
    RegistrationCaseByCase(env, t, req, freshId, now);
    var ws := DecideRegister(env, t, req, freshId, now).writes;
    if ws != [] {
      RegisterIsLegal(env, t, req, freshId, now);
      assert ws[0].Insert?;
    }
  }

  /** The only operation that stores a deployed row is such a registration. */
  lemma OperationStores(env: Env, t: Table, op: Op)
    requires WellFormed(t) && UniqueVersions(t)
    ensures InsertsUndeployed(Decide(env, t, op).writes) <==> !StoresDeployed(t, op)
  {
    match op {
      case Register(req, freshId, now) => RegistrationStores(env, t, req, freshId, now);
      case CreateVersion(of, req, freshId, now) =>
        if of in t.rows {
          RegistrationStores(env, t, VersionOf(of, t.rows[of], req), freshId, now);
        }
      case _ =>
    }
  }

  /** The request made after k operations of a run is one. */
  ghost predicate StoresDeployedAt(env: Env, ops: seq<Op>, k: nat)
    requires k < |ops|
  {
    StoresDeployed(StateAfter(env, EMPTY, ops, k), ops[k])
  }

  ghost predicate NeverStoresDeployed(env: Env, ops: seq<Op>) {
    forall k | 0 <= k < |ops| :: !StoresDeployedAt(env, ops, k)
  }

  /** No row inserted by the first n operations of a run is at a deployed stage. */
  ghost predicate StoredNone(env: Env, ops: seq<Op>, n: nat)
    requires n <= |ops|
  {
    InsertsUndeployed(RunWrites(env, EMPTY, ops[..n]))
  }

  lemma StoredNoneAtFirst(env: Env, ops: seq<Op>)
    ensures StoredNone(env, ops, 0)
  {
    assert RunWrites(env, EMPTY, ops[..0]) == [];
  }

  lemma StoredNoneStep(env: Env, ops: seq<Op>, k: nat)
    requires k < |ops|
    ensures StoredNone(env, ops, k + 1) <==> StoredNone(env, ops, k) && !StoresDeployedAt(env, ops, k)
  {
    var t := StateAfter(env, EMPTY, ops, k);
    StateStep(env, EMPTY, ops, k);
    ReachableIsSound(env, ops[..k]);
    OperationStores(env, t, ops[k]);
    UndeployedConcat(RunWrites(env, EMPTY, ops[..k]), Decide(env, t, ops[k]).writes);
  }

  lemma StoredNoneIff(env: Env, ops: seq<Op>)
    ensures StoredNone(env, ops, |ops|) <==> NeverStoresDeployed(env, ops)
  {
    var p := (k: int) => 0 <= k <= |ops| && StoredNone(env, ops, k);
    var q := (k: int) => 0 <= k < |ops| && !StoresDeployedAt(env, ops, k);
    StoredNoneAtFirst(env, ops);
    forall k | 0 <= k < |ops| ensures p(k + 1) <==> p(k) && q(k) {
      StoredNoneStep(env, ops, k);
    }
    StepByStep(p, q, |ops|);
    assert forall k | 0 <= k < |ops| :: q(k) <==> !StoresDeployedAt(env, ops, k);
  }

  /** What holds at first, and one step later exactly if it held and the step is good, holds
      after n steps exactly if all of them are good. */
  lemma {:induction false} StepByStep(p: int -> bool, good: int -> bool, n: nat)
    requires p(0) && forall k | 0 <= k < n :: p(k + 1) <==> p(k) && good(k)
    ensures p(n) <==> forall k | 0 <= k < n :: good(k)
  {
    if n > 0 {
      StepByStep(p, good, n - 1);
      assert p(n - 1 + 1) <==> p(n - 1) && good(n - 1);
    }
  }

  lemma UndeployedConcat(a: seq<Write>, b: seq<Write>)
    ensures InsertsUndeployed(a + b) <==> InsertsUndeployed(a) && InsertsUndeployed(b)
  {
    if InsertsUndeployed(a + b) {
      assert forall k | 0 <= k < |a| :: (a + b)[k] == a[k];
      assert forall k | 0 <= k < |b| :: (a + b)[|a| + k] == b[k];
    }
  }

  /** Exactly when governance holds after every row write of a run: when no request is, at the
      moment it is made, a registration that stores a deployed skill. */
  lemma GovernedIffNeverStoresDeployed(env: Env, ops: seq<Op>)
    ensures GovernedThroughout(RunWrites(env, EMPTY, ops)) <==> NeverStoresDeployed(env, ops)
  {
    GovernedIffInsertsUndeployed(env, ops);
    StoredNoneIff(env, ops);
    assert ops[..|ops|] == ops;
  }

  /** In particular when no registration asks for a deployed stage. */
  lemma UndeployedRequestsStayGoverned(env: Env, ops: seq<Op>)
    requires forall op | op in ops && op.Register? :: !Deployed(op.create.stage)
    ensures GovernedThroughout(RunWrites(env, EMPTY, ops))
  {
    GovernedIffNeverStoresDeployed(env, ops);
    forall k | 0 <= k < |ops| ensures !StoresDeployedAt(env, ops, k) {
      assert ops[k] in ops;
    }
  }

  /** The same for a live registry object that started from an empty database: between
      operations it is sound, and governed if it never stored a deployed registration. */
  lemma LiveRegistryIsSound(r: SkillRegistry)
    requires r.Valid() && r.initial == EMPTY
    ensures Sound(r.env, r.State(), Origins(map[], r.journal))
    ensures NeverStoresDeployed(r.env, r.history) ==> Governed(r.State())
  {
    ReachableIsSound(r.env, r.history);
    GovernedIffNeverStoresDeployed(r.env, r.history);
    assert r.journal[..|r.journal|] == r.journal;
  }

  /** A registration request at a deployed stage, and the ungoverned registry it leaves. */
  lemma RegisteringAChampionIsUngoverned(env: Env, req: CreateRequest, id: string, now: int)
    requires req.stage == Champion
    requires req.skillId == Some(id) && id != "" && req.parent == None
    ensures var t' := ApplyAll(EMPTY, RunWrites(env, EMPTY, [Register(req, id, now)]));
            id in t'.rows && t'.rows[id].stage == Champion && t'.rows[id].approval == Draft && !Governed(t')
  {
    var ws := Decide(env, EMPTY, Register(req, id, now)).writes;
    assert |ws| == 1 && ws[0].Insert?;
    RunOfOne(env, EMPTY, Register(req, id, now));
    ApplyAllOne(EMPTY, ws[0]);
    assert ws == [ws[0]];
  }

  // ---------- Promotion to champion, from any state ----------

  ghost predicate OnlyChampion(t: Table, family: string, id: string) {
    forall o | o in t.rows && t.rows[o].family == family :: t.rows[o].stage == Champion <==> o == id
  }

  /** What a promotion of `id` to champion leaves in every row: the target crowned and frozen,
      the champions it replaced retired with a note naming it, all other rows untouched. */
  ghost predicate Crowned(t: Table, t': Table, id: string, actor: Option<string>, reason: Option<string>, now: int)
    requires id in t.rows
  {
    && t'.order == t.order && t'.rows.Keys == t.rows.Keys
    && t'.rows[id] == t.rows[id].(
                        stage := Champion, immutable := true, updatedAt := now,
                        notes := t.rows[id].notes + [Note(MarkStaged(Champion), Or(actor, "system"), reason, now)])
    && forall o | o in t.rows && o != id ::
         t'.rows[o] == if IsOtherChampion(t.rows, FamilyOf(id, t.rows[id]), id, o)
                       then t.rows[o].(
                            stage := Retired, updatedAt := now,
                            notes := t.rows[o].notes + [Note(MarkReplaced(id), Or(actor, "system"), reason, now)])
                       else t.rows[o]
  }

  lemma LastWriteCrowns(t: Table, before: Table, id: string, actor: Option<string>, reason: Option<string>, now: int)
    requires id in t.rows && before.order == t.order && before.rows.Keys == t.rows.Keys
    requires before.rows[id] == t.rows[id]
    requires forall o | o in t.rows && o != id ::
               before.rows[o] == if IsOtherChampion(t.rows, FamilyOf(id, t.rows[id]), id, o)
                                 then Touch(t.rows[o], RetireChange(id, actor, reason, now)) else t.rows[o]
    ensures Crowned(t, Apply(before, CrownWrite(id, t.rows[id], Champion, actor, reason, now)), id, actor, reason, now)
  {
  }

  lemma ChampionWritesCrown(t: Table, id: string, actor: Option<string>, reason: Option<string>, now: int)
    requires WellFormed(t) && id in t.rows
    ensures Crowned(t, ApplyAll(t, StageWrites(t, id, Champion, actor, reason, now)), id, actor, reason, now)
  {
    var others := Others(t, id, Champion);
    var ws := StageWrites(t, id, Champion, actor, reason, now);
    DuringPromotion(t, id, Champion, actor, reason, now, |others|);
    assert others[..|others|] == others;
    LastWriteCrowns(t, ApplyAll(t, ws[..|others|]), id, actor, reason, now);
  }

  /** A promotion to champion is refused exactly for an absent, unvalidated or unapproved
      skill. */
  lemma CanCrown(t: Table, id: string, actor: Option<string>, reason: Option<string>, now: int)
    ensures DecidePromote(t, id, "champion", actor, reason, now).answer.Ok? <==>
            id in t.rows && t.rows[id].validated && t.rows[id].approval == Approved
  {
  }

  lemma CrowningDecision(t: Table, id: string, actor: Option<string>, reason: Option<string>, now: int)
    requires DecidePromote(t, id, "champion", actor, reason, now).answer.Ok?
    ensures id in t.rows
    ensures DecidePromote(t, id, "champion", actor, reason, now) ==
            Decision(StageWrites(t, id, Champion, actor, reason, now), Ok(id))
  {
  }

  /** From every state, however ungoverned, a promotion to champion that is not refused ends
      with the target as its family's only champion and every other family as it was. */
  lemma PromotionCrownsExactlyOne(t: Table, id: string, actor: Option<string>, reason: Option<string>, now: int)
    requires WellFormed(t)
    requires DecidePromote(t, id, "champion", actor, reason, now).answer.Ok?
    ensures var d := DecidePromote(t, id, "champion", actor, reason, now); var t' := ApplyAll(t, d.writes);
            && d.answer == Ok(id)
            && Crowned(t, t', id, actor, reason, now)
            && OnlyChampion(t', FamilyOf(id, t.rows[id]), id)
  {
    CrowningDecision(t, id, actor, reason, now);
    ChampionWritesCrown(t, id, actor, reason, now);
    CrownedIsOnlyChampion(t, ApplyAll(t, StageWrites(t, id, Champion, actor, reason, now)), id, actor, reason, now);
  }

  lemma CrownedIsOnlyChampion(t: Table, t': Table, id: string, actor: Option<string>, reason: Option<string>, now: int)
    requires id in t.rows && Crowned(t, t', id, actor, reason, now)
    ensures OnlyChampion(t', FamilyOf(id, t.rows[id]), id)
  {
    forall o | o in t'.rows && t'.rows[o].family == FamilyOf(id, t.rows[id])
      ensures t'.rows[o].stage == Champion <==> o == id
    {
      assert o != id ==> o in t.rows;
    }
  }

  // ---------- Growth: what can never be undone ----------

  /** `later` is what `t` may have become. */
  ghost predicate GrewInto(t: Table, later: Table) {
    && t.order <= later.order
    && forall id | id in t.rows :: id in later.rows && RowGrewInto(t.rows[id], later.rows[id])
  }

  ghost predicate RowGrewInto(row: Row, later: Row) {
    && later.family == row.family && later.version == row.version && later.parent == row.parent
    && later.code == row.code && later.codeHash == row.codeHash
    && later.validated == row.validated && later.meta == row.meta && later.createdAt == row.createdAt
    && row.notes <= later.notes
    && (row.immutable ==> later.immutable)
    && (row.approval != Draft ==> later.approval != Draft)
  }

  /** No write of any run removes a row, rewrites its code or identity, rewrites its notes or
      thaws it. */
  lemma {:induction false} WritesOnlyGrow(env: Env, t: Table, origin: map<string, Stage>, ws: seq<Write>)
    requires Sound(env, t, origin) && LegalSequence(env, t, ws)
    ensures GrewInto(t, ApplyAll(t, ws))
  {
    if ws != [] {
      var n := |ws| - 1;
      LegalPrefix(env, t, ws, n);
      WritesOnlyGrow(env, t, origin, ws[..n]);
      LegalSequenceKeepsSound(env, t, origin, ws[..n]);
      var t' := ApplyAll(t, ws[..n]);
      OneWriteGrows(env, t', Origins(origin, ws[..n]), ws[n]);
      GrowthChains(t, t', Apply(t', ws[n]));
    }
  }

  lemma GrowthChains(t: Table, u: Table, v: Table)
    requires GrewInto(t, u) && GrewInto(u, v)
    ensures GrewInto(t, v)
  {
    forall id | id in t.rows ensures id in v.rows && RowGrewInto(t.rows[id], v.rows[id]) {
      assert RowGrewInto(t.rows[id], u.rows[id]) && RowGrewInto(u.rows[id], v.rows[id]);
    }
  }

  lemma OneWriteGrows(env: Env, t: Table, origin: map<string, Stage>, w: Write)
    requires Sound(env, t, origin) && Legal(env, t, w)
    ensures GrewInto(t, Apply(t, w))
  {
    match w {
      case Insert(id, row) => InsertGrows(t, id, row);
      case Update(id, c) => UpdateGrows(t, id, c);
      case Migrate => ReopenChangesNothing(env, t, origin);
    }
  }

  lemma InsertGrows(t: Table, id: string, row: Row)
    ensures GrewInto(t, Apply(t, Insert(id, row)))
  {
  }

  lemma UpdateGrows(t: Table, id: string, c: Change)
    requires id in t.rows && StatusOf(Touch(t.rows[id], c)) == Effect(StatusOf(t.rows[id]), c.note.action)
    ensures GrewInto(t, Apply(t, Update(id, c)))
  {
    TouchGrows(t.rows[id], c);
  }

  lemma TouchGrows(row: Row, c: Change)
    requires StatusOf(Touch(row, c)) == Effect(StatusOf(row), c.note.action)
    ensures RowGrewInto(row, Touch(row, c))
  {
  }

  /** Over whole runs: from any reachable registry, any further run only grows it. */
  lemma RunsOnlyGrow(env: Env, earlier: seq<Op>, more: seq<Op>)
    ensures var t := ApplyAll(EMPTY, RunWrites(env, EMPTY, earlier));
            GrewInto(t, ApplyAll(t, RunWrites(env, t, more)))
  {
    var ws := RunWrites(env, EMPTY, earlier);
    ReachableIsSound(env, earlier);
    var t := ApplyAll(EMPTY, ws);
    RunIsLegal(env, t, more);
    WritesOnlyGrow(env, t, Origins(map[], ws), RunWrites(env, t, more));
  }

  // ---------- Idempotence ----------

  /** The skill id and the family a registration stands for. */
  function IdOf(req: CreateRequest, freshId: string): string {
    Or(req.skillId, freshId)
  }

  function FamilyFor(req: CreateRequest, freshId: string): string {
    Or(req.family, IdOf(req, freshId))
  }

  /** What an accepted registration is answered with: the row of its id if there was one, else
      one of its family and version; in both cases one with the hash of its code. */
  lemma RegistrationAnswer(env: Env, t: Table, req: CreateRequest, f: string, n: int)
    requires WellFormed(t) && DecideRegister(env, t, req, f, n).answer.Ok?
    ensures var d := DecideRegister(env, t, req, f, n); var t', id := ApplyAll(t, d.writes), d.answer.value;
            && id in t'.rows && t'.rows[id].codeHash == env.hash(req.code)
            && (forall o | o in t.rows :: o in t'.rows && t'.rows[o] == t.rows[o])
            && (IdOf(req, f) in t.rows ==> id == IdOf(req, f))
            && (IdOf(req, f) !in t.rows ==>
                  t'.rows[id].family == FamilyFor(req, f) && t'.rows[id].version == req.version)
  {
    var d := DecideRegister(env, t, req, f, n);
    if d.writes != [] {
      assert d.writes == [d.writes[0]];
      ApplyAllOne(t, d.writes[0]);
    }
  }

  /** Registering the id of a stored row of the same code is answered with that row. */
  lemma FoundId(env: Env, t: Table, req: CreateRequest, f: string, n: int)
    requires IdOf(req, f) in t.rows
    ensures DecideRegister(env, t, req, f, n).writes == []
    ensures DecideRegister(env, t, req, f, n).answer == Ok(IdOf(req, f)) <==>
            t.rows[IdOf(req, f)].codeHash == env.hash(req.code)
    ensures forall other | other != IdOf(req, f) :: DecideRegister(env, t, req, f, n).answer != Ok(other)
  {
  }

  lemma FoundVersion(env: Env, t: Table, req: CreateRequest, f: string, n: int, id: string)
    requires WellFormed(t) && UniqueVersions(t)
    requires IdOf(req, f) !in t.rows
    requires id in t.rows && t.rows[id].family == FamilyFor(req, f) && t.rows[id].version == req.version
    requires t.rows[id].codeHash == env.hash(req.code)
    ensures DecideRegister(env, t, req, f, n) == Decision([], Ok(id))
  {
    assert id in t.order;
    var twin := FindVersion(t.rows, t.order, FamilyFor(req, f), req.version);
    assert twin.Some? && SameVersion(t, id, twin.value);
  }

  /** A repeated registration: the same id, family, version and code, whatever it says of name,
      parent, stage and description. */
  predicate Repeats(again: CreateRequest, req: CreateRequest) {
    again.skillId == req.skillId && again.family == req.family && again.version == req.version && again.code == req.code
  }

  /** Repeating an accepted registration, exactly. Whatever the registry has become since, the
      repeat writes nothing, and it is answered with the same skill if and only if that skill has
      the requested id, or no skill has it yet. A registration without an explicit id repeats
      under a fresh one, and needs a family. */
  lemma RegisteringAgainIff(env: Env, t: Table, req: CreateRequest, f0: string, n0: int,
                            later: Table, again: CreateRequest, f1: string, n1: int)
    requires WellFormed(t) && WellFormed(later) && UniqueVersions(later) && Repeats(again, req)
    requires Or(req.skillId, "") == "" ==> Or(req.family, "") != "" && f0 !in t.rows
    requires DecideRegister(env, t, req, f0, n0).answer.Ok?
    requires GrewInto(ApplyAll(t, DecideRegister(env, t, req, f0, n0).writes), later)
    ensures var first, second := DecideRegister(env, t, req, f0, n0), DecideRegister(env, later, again, f1, n1);
            && second.writes == []
            && (second.answer == first.answer <==>
                  first.answer.value == IdOf(again, f1) || IdOf(again, f1) !in later.rows)
  {
    RegistrationAnswer(env, t, req, f0, n0);
    var d := DecideRegister(env, t, req, f0, n0);
    var t', id := ApplyAll(t, d.writes), d.answer.value;
    assert RowGrewInto(t'.rows[id], later.rows[id]);
    if IdOf(again, f1) in later.rows {
      FoundId(env, later, again, f1, n1);
    } else {
      FoundVersion(env, later, again, f1, n1, id);
    }
  }

  /** In particular, a skill registered under an explicit id is answered again whenever that id
      and that code are, whatever else the request says. */
  lemma RegisteringAgain(env: Env, t: Table, req: CreateRequest, f0: string, n0: int,
                         later: Table, again: CreateRequest, f1: string, n1: int)
    requires WellFormed(t) && req.skillId.Some? && req.skillId.value != ""
    requires again.skillId == req.skillId && again.code == req.code
    requires DecideRegister(env, t, req, f0, n0).answer == Ok(req.skillId.value)
    requires GrewInto(ApplyAll(t, DecideRegister(env, t, req, f0, n0).writes), later)
    ensures DecideRegister(env, later, again, f1, n1) == Decision([], Ok(req.skillId.value))
  {
    RegistrationAnswer(env, t, req, f0, n0);
    var t' := ApplyAll(t, DecideRegister(env, t, req, f0, n0).writes);
    assert RowGrewInto(t'.rows[req.skillId.value], later.rows[req.skillId.value]);
    FoundId(env, later, again, f1, n1);
  }

  /** A registration of an unknown id in a family without skills inserts it. In particular one
      that gives neither id nor family is a new skill every time it is repeated. */
  lemma FirstOfFamilyInserts(env: Env, t: Table, req: CreateRequest, f: string, n: int)
    requires IdOf(req, f) !in t.rows && Or(req.parent, "") == ""
    requires forall o | o in t.rows :: t.rows[o].family != FamilyFor(req, f)
    ensures DecideRegister(env, t, req, f, n) ==
            Decision([Insert(IdOf(req, f), NewRow(env, req, FamilyFor(req, f), n))], Ok(IdOf(req, f)))
  {
    var twin := FindVersion(t.rows, t.order, FamilyFor(req, f), req.version);
    assert twin.None?;
  }

  /** A registration of skill `id` in the given family, version 1. */
  function Registration(id: string, family: string, code: string, meta: Meta): CreateRequest {
    CreateRequest(Some(id), Some(family), "1", None, Candidate, code, meta)
  }

  /** A run after which the same registration is answered differently: first with its twin, and,
      once its own id has been registered in another family, with that. */
  lemma RepeatAnswersAnother(env: Env, code: string, meta: Meta, now: int)
    ensures var twin, elsewhere := Registration("a", "F", code, meta), Registration("b", "G", code, meta);
            var repeated := Registration("b", "F", code, meta);
            var t1 := ApplyAll(EMPTY, DecideRegister(env, EMPTY, twin, "", now).writes);
            var t2 := ApplyAll(t1, DecideRegister(env, t1, elsewhere, "", now).writes);
            && DecideRegister(env, t1, repeated, "", now) == Decision([], Ok("a"))
            && DecideRegister(env, t2, repeated, "", now) == Decision([], Ok("b"))
  {
    var twin, elsewhere := Registration("a", "F", code, meta), Registration("b", "G", code, meta);
    var ws := DecideRegister(env, EMPTY, twin, "", now).writes;
    var t1 := ApplyAll(EMPTY, ws);
    assert ws == [Insert("a", NewRow(env, twin, "F", now))];
    ApplyAllOne(EMPTY, ws[0]);
    assert t1.order == ["a"] && t1.rows == map["a" := NewRow(env, twin, "F", now)];
    FoundVersion(env, t1, Registration("b", "F", code, meta), "", now, "a");
    FirstOfFamilyInserts(env, t1, elsewhere, "", now);
    ApplyAllOne(t1, Insert("b", NewRow(env, elsewhere, "G", now)));
    FoundId(env, ApplyAll(t1, DecideRegister(env, t1, elsewhere, "", now).writes),
            Registration("b", "F", code, meta), "", now);
  }

  /** However the registry has grown since, creating the same version with the same code
      again writes nothing and answers with the same skill, under any unused fresh id. */
  lemma CreatingAVersionAgain(env: Env, t: Table, of: string, req: VersionRequest, f0: string, n0: int, later: Table,
                              f1: string, n1: int)
    requires WellFormed(t) && f0 != "" && f0 !in t.rows && f1 != "" && f1 !in later.rows
    requires of in t.rows && t.rows[of].family != ""
    requires DecideVersion(env, t, of, req, f0, n0).answer.Ok?
    requires GrewInto(ApplyAll(t, DecideVersion(env, t, of, req, f0, n0).writes), later)
    requires WellFormed(later) && UniqueVersions(later)
    ensures DecideVersion(env, later, of, req, f1, n1) == Decision([], DecideVersion(env, t, of, req, f0, n0).answer)
  {
    var create := VersionOf(of, t.rows[of], req);
    RegistrationAnswer(env, t, create, f0, n0);
    var t' := ApplyAll(t, DecideRegister(env, t, create, f0, n0).writes);
    assert RowGrewInto(t'.rows[of], later.rows[of]);
    RegisteringAgainIff(env, t, create, f0, n0, later, create, f1, n1);
    assert VersionOf(of, later.rows[of], req) == create;
  }

  /** A refused operation writes nothing. */
  lemma RefusalWritesNothing(env: Env, t: Table, op: Op)
    requires Decide(env, t, op).answer.Err?
    ensures Decide(env, t, op).writes == []
  {
  }

  // ---------- New versions ----------

  /** A field of a new version: the request's if it is given, else the parent's. */
  predicate GivenOr<T(==)>(field: T, given: Option<T>, parents: T) {
    field == if given.Some? then given.value else parents
  }

  /** The same where an empty string counts as not given. */
  predicate NamedOr(field: string, given: Option<string>, parents: string) {
    field == if given.Some? && given.value != "" then given.value else parents
  }

  ghost predicate Inherits(meta: Meta, req: VersionRequest, parent: Meta) {
    && meta.name == parent.name
    && NamedOr(meta.description, req.description, parent.description)
    && GivenOr(meta.tags, req.tags, parent.tags)
    && GivenOr(meta.marketContext, req.marketContext, parent.marketContext)
    && GivenOr(meta.inputSchema, req.inputSchema, parent.inputSchema)
    && GivenOr(meta.outputSchema, req.outputSchema, parent.outputSchema)
    && meta.sourceAgent == (if Or(req.sourceAgent, "") != "" then req.sourceAgent else parent.sourceAgent)
  }

  /** A new version is one new row: a draft candidate of its parent's family that points at its
      parent, each descriptive field taken from the request if given there and from the parent
      if not. */
  lemma NewVersionInherits(env: Env, t: Table, of: string, req: VersionRequest, freshId: string, now: int)
    requires WellFormed(t) && of in t.rows && of != "" && t.rows[of].family != ""
    requires DecideVersion(env, t, of, req, freshId, now).writes != []
    ensures var t' := ApplyAll(t, DecideVersion(env, t, of, req, freshId, now).writes);
            && t'.order == t.order + [freshId] && t'.rows == t.rows[freshId := t'.rows[freshId]]
            && var row, parent := t'.rows[freshId], t.rows[of];
            && row.HasParent() && row.parent == Some(of) && row.family == parent.family
            && row.version == req.version && row.code == req.code
            && row.stage == Candidate && row.approval == Draft && !row.immutable && row.notes == []
            && Inherits(row.meta, req, parent.meta)
  {
    var d := DecideVersion(env, t, of, req, freshId, now);
    assert d.writes == [d.writes[0]];
    ApplyAllOne(t, d.writes[0]);
  }

  // ---------- Approval over a run ----------

  predicate ApprovesSkill(op: Op, id: string) {
    op.Approve? && op.id == id
  }

  predicate DeprecatesSkill(op: Op, id: string) {
    op.Deprecate? && op.id == id
  }

  lemma {:induction false} OtherWritesKeepApproval(t: Table, ws: seq<Write>, id: string)
    requires id in t.rows
    requires forall k | 0 <= k < |ws| && ws[k].Update? && ws[k].id == id :: ws[k].change.approval == None
    ensures var t' := ApplyAll(t, ws);
            && id in t'.rows
            && t'.rows[id].approval == t.rows[id].approval && t'.rows[id].validated == t.rows[id].validated
  {
    if ws != [] {
      OtherWritesKeepApproval(t, ws[..|ws| - 1], id);
    }
  }

  /** What each operation does to the approval of a skill that is there: approving a validated
      skill approves it, whatever it was before, deprecating it deprecates it, and nothing else
      changes it. */
  lemma ApprovalStep(env: Env, t: Table, op: Op, id: string)
    requires id in t.rows
    ensures var row, t' := t.rows[id], ApplyAll(t, Decide(env, t, op).writes);
            && id in t'.rows && t'.rows[id].validated == row.validated
            && t'.rows[id].approval == (if ApprovesSkill(op, id) && row.validated then Approved
                                        else if DeprecatesSkill(op, id) then Deprecated
                                        else row.approval)
  {
    var ws := Decide(env, t, op).writes;
    if (ApprovesSkill(op, id) && t.rows[id].validated) || DeprecatesSkill(op, id) {
      ApplyAllOne(t, ws[0]);
      assert ws == [ws[0]];
    } else {
      OtherWritesKeepApproval(t, ws, id);
    }
  }

  lemma ApprovalAt(env: Env, t: Table, ops: seq<Op>, id: string, k: nat)
    requires k < |ops| && id in StateAfter(env, t, ops, k).rows
    ensures var row, t' := StateAfter(env, t, ops, k).rows[id], StateAfter(env, t, ops, k + 1);
            && id in t'.rows && t'.rows[id].validated == row.validated
            && t'.rows[id].approval == (if ApprovesSkill(ops[k], id) && row.validated then Approved
                                        else if DeprecatesSkill(ops[k], id) then Deprecated
                                        else row.approval)
  {
    StateStep(env, t, ops, k);
    ApprovalStep(env, StateAfter(env, t, ops, k), ops[k], id);
  }

  /** The skill is there after k operations, as validated as it was. */
  predicate StillThere(env: Env, t: Table, ops: seq<Op>, id: string, k: nat)
    requires k <= |ops| && id in t.rows
  {
    var s := StateAfter(env, t, ops, k);
    id in s.rows && s.rows[id].validated == t.rows[id].validated
  }

  lemma SkillStays(env: Env, t: Table, ops: seq<Op>, id: string, n: nat)
    requires n <= |ops| && id in t.rows
    ensures StillThere(env, t, ops, id, n)
  {
    var p := (k: int) => 0 <= k <= |ops| && StillThere(env, t, ops, id, k);
    StateAtFirst(env, t, ops);
    forall k | 0 <= k < n && p(k) ensures p(k + 1) {
      ApprovalAt(env, t, ops, id, k);
    }
    AfterAnySteps(p, n);
  }

  /** The skill is deprecated after k operations. */
  predicate DeprecatedAt(env: Env, t: Table, ops: seq<Op>, id: string, k: nat)
    requires k <= |ops|
  {
    var s := StateAfter(env, t, ops, k);
    id in s.rows && s.rows[id].approval == Deprecated
  }

  lemma DeprecatedNext(env: Env, t: Table, ops: seq<Op>, id: string, k: nat)
    requires k < |ops| && id in t.rows && DeprecatedAt(env, t, ops, id, k)
    requires t.rows[id].validated ==> !ApprovesSkill(ops[k], id)
    ensures DeprecatedAt(env, t, ops, id, k + 1)
  {
    SkillStays(env, t, ops, id, k);
    ApprovalAt(env, t, ops, id, k);
  }

  lemma DeprecatedWhileUnapproved(env: Env, t: Table, ops: seq<Op>, id: string)
    requires id in t.rows && t.rows[id].approval == Deprecated
    requires t.rows[id].validated ==> forall j | 0 <= j < |ops| :: !ApprovesSkill(ops[j], id)
    ensures forall k | 0 <= k <= |ops| :: DeprecatedAt(env, t, ops, id, k)
  {
    var p := (k: int) => 0 <= k <= |ops| && DeprecatedAt(env, t, ops, id, k);
    StateAtFirst(env, t, ops);
    forall k | 0 <= k < |ops| && p(k) ensures p(k + 1) {
      DeprecatedNext(env, t, ops, id, k);
    }
    forall k | 0 <= k <= |ops| ensures DeprecatedAt(env, t, ops, id, k) {
      AfterAnySteps(p, k);
    }
  }

  /** What holds at first and is kept by every step holds after any number of them. */
  lemma {:induction false} AfterAnySteps(p: int -> bool, n: nat)
    requires p(0) && forall k | 0 <= k < n && p(k) :: p(k + 1)
    ensures p(n)
  {
    if n > 0 {
      AfterAnySteps(p, n - 1);
      assert p(n - 1 + 1);
    }
  }

  /** Deprecation is final for exactly the skills that are not validated: over any run from any
      table a deprecated skill stays deprecated if and only if it is not validated or the run
      does not approve it. */
  lemma DeprecatedStaysIff(env: Env, t: Table, ops: seq<Op>, id: string)
    requires id in t.rows && t.rows[id].approval == Deprecated
    ensures (forall k | 0 <= k <= |ops| :: DeprecatedAt(env, t, ops, id, k)) <==>
            !t.rows[id].validated || forall k | 0 <= k < |ops| :: !ApprovesSkill(ops[k], id)
  {
    if !t.rows[id].validated || forall k | 0 <= k < |ops| :: !ApprovesSkill(ops[k], id) {
      DeprecatedWhileUnapproved(env, t, ops, id);
    } else {
      var k :| 0 <= k < |ops| && ApprovesSkill(ops[k], id);
      SkillStays(env, t, ops, id, k);
      ApprovalAt(env, t, ops, id, k);
      assert !DeprecatedAt(env, t, ops, id, k + 1);
    }
  }

  /** A deprecated skill whose approval and promotion make it its family's champion again. */
  lemma DeprecatedSkillReturns(env: Env, t: Table, id: string, now: int)
    requires WellFormed(t) && id in t.rows && t.rows[id].approval == Deprecated && t.rows[id].validated
    ensures var t1 := ApplyAll(t, Decide(env, t, Approve(id, None, None, now)).writes);
            var t2 := ApplyAll(t1, DecidePromote(t1, id, "champion", None, None, now).writes);
            && id in t1.rows && t1.rows[id].approval == Approved
            && id in t2.rows && t2.rows[id].stage == Champion && t2.rows[id].approval == Approved
  {
    var t1 := ApplyAll(t, Decide(env, t, Approve(id, None, None, now)).writes);
    ApprovalStep(env, t, Approve(id, None, None, now), id);
    ApplyAllKeepsWellFormed(t, Decide(env, t, Approve(id, None, None, now)).writes);
    CanCrown(t1, id, None, None, now);
    PromotionCrownsExactlyOne(t1, id, None, None, now);
  }

  // ---------- Lineage is a forest ----------

  function PositionOf(t: Table, id: string): (i: nat)
    requires id in t.order
    ensures i < |t.order| && t.order[i] == id && id !in t.order[..i]
  {
    FirstAt(t.order, id)
  }

  function FirstAt(order: seq<string>, id: string): (i: nat)
    requires id in order
    ensures i < |order| && order[i] == id && id !in order[..i]
  {
    if order[0] == id then 0
    else
      assert order == [order[0]] + order[1..];
      var i := 1 + FirstAt(order[1..], id);
      assert order[..i] == [order[0]] + order[1..][..i - 1];
      i
  }

  lemma ParentIsEarlier(t: Table, id: string)
    requires WellFormed(t) && Lineage(t) && id in t.rows && t.rows[id].HasParent()
    ensures var p := t.rows[id].parent.value;
            p in t.rows && t.rows[p].family == t.rows[id].family && PositionOf(t, p) < PositionOf(t, id)
  {
    var i, p := PositionOf(t, id), t.rows[id].parent.value;
    assert ParentBefore(t, i, p);
    var j :| 0 <= j < i && t.order[..i][j] == p;
    assert t.order[j] == p && t.order[PositionOf(t, p)] == p;
  }

  /** The skill, its parent, its parent's parent, and so on to a root. */
  function Ancestry(t: Table, id: string): (r: seq<string>)
    requires WellFormed(t) && Lineage(t) && id in t.rows
    decreases PositionOf(t, id)
  {
    if !t.rows[id].HasParent() then [id]
    else
      ParentIsEarlier(t, id);
      [id] + Ancestry(t, t.rows[id].parent.value)
  }

  ghost predicate FamilyPath(t: Table, r: seq<string>, family: string) {
    && r != []
    && (forall i | 0 <= i < |r| :: r[i] in t.rows && t.rows[r[i]].family == family)
    && (forall i | 0 <= i < |r| - 1 :: ChildOf(t, r[i], r[i + 1]))
    && r[|r| - 1] in t.rows && !t.rows[r[|r| - 1]].HasParent()
  }

  predicate ChildOf(t: Table, id: string, parent: string) {
    id in t.rows && t.rows[id].parent == Some(parent)
  }

  lemma PathExtends(t: Table, id: string, r: seq<string>, family: string)
    requires FamilyPath(t, r, family) && id in t.rows && t.rows[id].family == family && ChildOf(t, id, r[0])
    ensures FamilyPath(t, [id] + r, family)
  {
    var path := [id] + r;
    forall i | 0 <= i < |path| - 1 ensures ChildOf(t, path[i], path[i + 1]) {
      assert i > 0 ==> ChildOf(t, r[i - 1], r[i]);
    }
  }

  lemma {:induction false} AncestryGoesBack(t: Table, id: string)
    requires WellFormed(t) && Lineage(t) && id in t.rows
    ensures |Ancestry(t, id)| <= PositionOf(t, id) + 1 && Ancestry(t, id)[0] == id
    ensures forall a | a in Ancestry(t, id) :: a in t.rows && PositionOf(t, a) <= PositionOf(t, id)
    ensures forall i, j | 0 <= i < j < |Ancestry(t, id)| :: Ancestry(t, id)[i] != Ancestry(t, id)[j]
    decreases PositionOf(t, id)
  {
    if t.rows[id].HasParent() {
      ParentIsEarlier(t, id);
      var p := t.rows[id].parent.value;
      AncestryGoesBack(t, p);
      assert Ancestry(t, id) == [id] + Ancestry(t, p);
      assert id !in Ancestry(t, p);
    }
  }

  lemma {:induction false} AncestryFollowsParents(t: Table, id: string)
    requires WellFormed(t) && Lineage(t) && id in t.rows
    ensures FamilyPath(t, Ancestry(t, id), t.rows[id].family) && Ancestry(t, id)[0] == id
    decreases PositionOf(t, id)
  {
    if t.rows[id].HasParent() {
      ParentIsEarlier(t, id);
      var p := t.rows[id].parent.value;
      AncestryFollowsParents(t, p);
      PathExtends(t, id, Ancestry(t, p), t.rows[id].family);
    }
  }

  /** Following parents never repeats, stays in the family, and reaches a root in fewer steps
      than there are skills. */
  lemma AncestryIsAFinitePath(t: Table, id: string)
    requires WellFormed(t) && Lineage(t) && id in t.rows
    ensures var r := Ancestry(t, id);
            && FamilyPath(t, r, t.rows[id].family) && r[0] == id
            && |r| <= |t.rows|
            && forall i, j | 0 <= i < j < |r| :: r[i] != r[j]
  {
    OrderCountsRows(t);
    AncestryGoesBack(t, id);
    AncestryFollowsParents(t, id);
  }

  lemma OrderCountsRows(t: Table)
    requires WellFormed(t)
    ensures |t.order| == |t.rows|
  {
    DistinctCount(t.order);
    assert (set id | id in t.order) == t.rows.Keys;
  }

  lemma {:induction false} DistinctCount(s: seq<string>)
    requires forall i, j | 0 <= i < j < |s| :: s[i] != s[j]
    ensures |set x | x in s| == |s|
  {
    if s != [] {
      DistinctCount(s[1..]);
      assert (set x | x in s) == (set x | x in s[1..]) + {s[0]};
    }
  }
}
