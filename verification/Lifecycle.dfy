/** What every run of the registry keeps, after every single row write. */
module Lifecycle {
  import opened Basics
  import opened Registry

  const EMPTY := Table(map[], [])

  // ---------- Event sourcing: the columns are what the notes say ----------

  datatype Status = Status(approval: Approval, stage: Stage, immutable: bool)

  function StatusOf(row: Row): Status {
    Status(row.approval, row.stage, row.immutable)
  }

  function Effect(s: Status, a: Action): Status {
    match a
    case MarkApproved => s.(approval := Approved, immutable := true)
    case MarkDeprecated => Status(Deprecated, Retired, true)
    case MarkReplaced(_) => s.(stage := Retired)
    case MarkStaged(stage) => s.(stage := stage, immutable := s.immutable || stage != Candidate)
  }

  /** The status a skill registered at stage `origin` has after the given notes. */
  function Replay(origin: Stage, notes: seq<Note>): Status {
    if notes == [] then Status(Draft, origin, false)
    else Effect(Replay(origin, notes[..|notes| - 1]), notes[|notes| - 1].action)
  }

  lemma {:induction false} ReplayFreezes(origin: Stage, notes: seq<Note>)
    ensures Replay(origin, notes).approval != Draft ==> Replay(origin, notes).immutable
  {
    if notes != [] {
      ReplayFreezes(origin, notes[..|notes| - 1]);
    }
  }

  /** The stage each skill was registered at, read off the inserts. */
  function Origins(origin: map<string, Stage>, ws: seq<Write>): map<string, Stage> {
    if ws == [] then origin
    else
      var m := Origins(origin, ws[..|ws| - 1]);
      var w := ws[|ws| - 1];
      if w.Insert? && w.id !in m then m[w.id := w.row.stage] else m
  }

  ghost predicate Ledger(t: Table, origin: map<string, Stage>) {
    && origin.Keys == t.rows.Keys
    && forall id | id in t.rows :: Replay(origin[id], t.rows[id].notes) == StatusOf(t.rows[id])
  }

  // ---------- The structural invariants ----------

  /** Every parent was inserted before its child, in the same family. */
  ghost predicate Lineage(t: Table) {
    forall i | 0 <= i < |t.order| && t.order[i] in t.rows && t.rows[t.order[i]].HasParent() ::
      ParentBefore(t, i, t.rows[t.order[i]].parent.value)
  }

  ghost predicate ParentBefore(t: Table, i: nat, parent: string)
    requires i < |t.order| && t.order[i] in t.rows
  {
    parent in t.order[..i] && parent in t.rows && t.rows[parent].family == t.rows[t.order[i]].family
  }

  ghost predicate FaithfulRows(env: Env, t: Table) {
    forall id | id in t.rows ::
      && t.rows[id].codeHash == env.hash(t.rows[id].code)
      && t.rows[id].validated == env.approves(t.rows[id].code)
      && (t.rows[id].family == "" ==> id == "")
  }

  /** What holds in every registry that operations alone have built. */
  ghost predicate Sound(env: Env, t: Table, origin: map<string, Stage>) {
    WellFormed(t) && UniqueVersions(t) && Lineage(t) && FaithfulRows(env, t) && Ledger(t, origin)
  }

  // ---------- Writes that keep them ----------

  /** What an operation may write in a state: a fresh draft whose version is new and whose
      parent is there, or an update that does what its note says, deploys only what is
      validated and approved, and crowns only when no other champion is left. */
  ghost predicate Legal(env: Env, t: Table, w: Write) {
    match w
    case Insert(id, row) =>
      && id !in t.rows
      && row.notes == [] && row.approval == Draft && !row.immutable
      && row.codeHash == env.hash(row.code) && row.validated == env.approves(row.code)
      && (row.family == "" ==> id == "")
      && (forall o | o in t.rows :: !(t.rows[o].family == row.family && t.rows[o].version == row.version))
      && (row.HasParent() ==> row.parent.value in t.rows && t.rows[row.parent.value].family == row.family)
    case Update(id, c) =>
      && id in t.rows
      && StatusOf(Touch(t.rows[id], c)) == Effect(StatusOf(t.rows[id]), c.note.action)
      && (Deployed(Touch(t.rows[id], c).stage) ==> t.rows[id].validated && Touch(t.rows[id], c).approval == Approved)
      && (Touch(t.rows[id], c).stage == Champion ==>
            || t.rows[id].stage == Champion
            || forall o :: !IsOtherChampion(t.rows, FamilyOf(id, t.rows[id]), id, o))
    case Migrate => true
  }

  /** Whatever has been approved or deprecated is immutable. */
  lemma SettledIsImmutable(env: Env, t: Table, origin: map<string, Stage>, id: string)
    requires Sound(env, t, origin) && id in t.rows && t.rows[id].approval != Draft
    ensures t.rows[id].immutable
  {
    ReplayFreezes(origin[id], t.rows[id].notes);
  }

  /** Reopening a registry that operations have built repairs nothing: no row changes. */
  lemma ReopenChangesNothing(env: Env, t: Table, origin: map<string, Stage>)
    requires Sound(env, t, origin)
    ensures Apply(t, Migrate) == t
  {
    forall id | id in t.rows ensures MigrateRow(id, t.rows[id]) == t.rows[id] {
      ReplayFreezes(origin[id], t.rows[id].notes);
    }
  }

  lemma InsertKeepsLineage(t: Table, id: string, row: Row)
    requires WellFormed(t) && Lineage(t) && id !in t.rows
    requires row.HasParent() ==> row.parent.value in t.rows && t.rows[row.parent.value].family == row.family
    ensures Lineage(Apply(t, Insert(id, row)))
  {
    var t' := Apply(t, Insert(id, row));
    forall i | 0 <= i < |t'.order| && t'.order[i] in t'.rows && t'.rows[t'.order[i]].HasParent()
      ensures ParentBefore(t', i, t'.rows[t'.order[i]].parent.value)
    {
      if i < |t.order| {
        assert t'.order[i] == t.order[i] && t'.order[..i] == t.order[..i];
        assert ParentBefore(t, i, t.rows[t.order[i]].parent.value);
      } else {
        assert t'.order[..i] == t.order;
      }
    }
  }

  lemma InsertKeepsColumns(env: Env, t: Table, origin: map<string, Stage>, id: string, row: Row)
    requires Sound(env, t, origin) && Legal(env, t, Insert(id, row))
    ensures var t' := Apply(t, Insert(id, row)); FaithfulRows(env, t') && Ledger(t', origin[id := row.stage])
  {
  }

  lemma InsertKeepsSound(env: Env, t: Table, origin: map<string, Stage>, id: string, row: Row)
    requires Sound(env, t, origin) && Legal(env, t, Insert(id, row))
    ensures Sound(env, Apply(t, Insert(id, row)), origin[id := row.stage])
  {
    ApplyKeepsWellFormed(t, Insert(id, row));
    InsertKeepsLineage(t, id, row);
    InsertKeepsColumns(env, t, origin, id, row);
    ApplyKeepsUniqueVersions(t, Insert(id, row));
  }

  lemma UpdateKeepsLineage(t: Table, id: string, c: Change)
    requires WellFormed(t) && Lineage(t) && id in t.rows
    ensures Lineage(Apply(t, Update(id, c)))
  {
    var t' := Apply(t, Update(id, c));
    forall i | 0 <= i < |t'.order| && t'.order[i] in t'.rows && t'.rows[t'.order[i]].HasParent()
      ensures ParentBefore(t', i, t'.rows[t'.order[i]].parent.value)
    {
      assert ParentBefore(t, i, t.rows[t.order[i]].parent.value);
    }
  }

  lemma UpdateKeepsColumns(env: Env, t: Table, id: string, c: Change)
    requires FaithfulRows(env, t) && UniqueVersions(t) && id in t.rows
    ensures var t' := Apply(t, Update(id, c)); FaithfulRows(env, t') && UniqueVersions(t')
  {
  }

  lemma UpdateKeepsLedger(t: Table, origin: map<string, Stage>, id: string, c: Change)
    requires Ledger(t, origin) && id in t.rows
    requires StatusOf(Touch(t.rows[id], c)) == Effect(StatusOf(t.rows[id]), c.note.action)
    ensures Ledger(Apply(t, Update(id, c)), origin)
  {
    var notes := Touch(t.rows[id], c).notes;
    assert notes[..|notes| - 1] == t.rows[id].notes;
    assert Replay(origin[id], notes) == Effect(Replay(origin[id], t.rows[id].notes), c.note.action);
  }

  lemma UpdateKeepsSound(env: Env, t: Table, origin: map<string, Stage>, id: string, c: Change)
    requires Sound(env, t, origin) && Legal(env, t, Update(id, c))
    ensures Sound(env, Apply(t, Update(id, c)), origin)
  {
    ApplyKeepsWellFormed(t, Update(id, c));
    UpdateKeepsLineage(t, id, c);
    UpdateKeepsColumns(env, t, id, c);
    UpdateKeepsLedger(t, origin, id, c);
  }

  lemma RegisterIsLegal(env: Env, t: Table, req: CreateRequest, freshId: string, now: int)
    requires WellFormed(t)
    requires DecideRegister(env, t, req, freshId, now).writes != []
    ensures var ws := DecideRegister(env, t, req, freshId, now).writes;
            |ws| == 1 && ws[0].Insert? && ws[0].row.stage == req.stage && Legal(env, t, ws[0])
  {
  }

  /** The table before the k-th write of a promotion: the target still untouched, the first
      k of the other champions retired. */
  lemma DuringPromotion(t: Table, id: string, stage: Stage, actor: Option<string>, reason: Option<string>, now: int,
                        k: nat)
    requires WellFormed(t) && id in t.rows
    requires k <= |Others(t, id, stage)|
    ensures var ws := StageWrites(t, id, stage, actor, reason, now);
            var t' := ApplyAll(t, ws[..k]);
            && |ws| == |Others(t, id, stage)| + 1
            && ws[k] == (if k < |Others(t, id, stage)|
                         then Update(Others(t, id, stage)[k], RetireChange(id, actor, reason, now))
                         else CrownWrite(id, t.rows[id], stage, actor, reason, now))
            && t'.order == t.order && t'.rows.Keys == t.rows.Keys
            && (forall o | o in t.rows && o !in Others(t, id, stage)[..k] :: t'.rows[o] == t.rows[o])
            && (forall o | o in t.rows && o in Others(t, id, stage)[..k] ::
                  t'.rows[o] == Touch(t.rows[o], RetireChange(id, actor, reason, now)))
  {
    var ws := StageWrites(t, id, stage, actor, reason, now);
    var c := RetireChange(id, actor, reason, now);
    AfterRetirements(t, Others(t, id, stage), c, k);
    assert ws[..k] == Retirements(Others(t, id, stage), c)[..k];
  }

  lemma RetiringWriteIsLegal(env: Env, t: Table, id: string, stage: Stage, actor: Option<string>,
                             reason: Option<string>, now: int, k: nat)
    requires WellFormed(t) && id in t.rows && k < |Others(t, id, stage)|
    ensures var ws := StageWrites(t, id, stage, actor, reason, now); k < |ws| && Legal(env, ApplyAll(t, ws[..k]), ws[k])
  {
    DuringPromotion(t, id, stage, actor, reason, now, k);
    var ws := StageWrites(t, id, stage, actor, reason, now);
    var o := Others(t, id, stage)[k];
    assert o in Others(t, id, stage);
    assert ws[k] == Update(o, RetireChange(id, actor, reason, now));
    RetirementIsLegal(env, ApplyAll(t, ws[..k]), o, RetireChange(id, actor, reason, now));
  }

  lemma CrowningWriteIsLegal(env: Env, t: Table, id: string, stage: Stage, actor: Option<string>,
                             reason: Option<string>, now: int)
    requires WellFormed(t) && id in t.rows
    requires Deployed(stage) ==> t.rows[id].validated && t.rows[id].approval == Approved
    ensures var ws, k := StageWrites(t, id, stage, actor, reason, now), |Others(t, id, stage)|;
            k < |ws| && Legal(env, ApplyAll(t, ws[..k]), ws[k])
  {
    var ws, others := StageWrites(t, id, stage, actor, reason, now), Others(t, id, stage);
    DuringPromotion(t, id, stage, actor, reason, now, |others|);
    assert others[..|others|] == others;
    CrownIsLegal(env, t, ApplyAll(t, ws[..|others|]), id, stage, actor, reason, now);
  }

  lemma StageWriteIsLegal(env: Env, t: Table, id: string, stage: Stage, actor: Option<string>, reason: Option<string>,
                          now: int, k: nat)
    requires WellFormed(t) && id in t.rows
    requires Deployed(stage) ==> t.rows[id].validated && t.rows[id].approval == Approved
    requires k < |StageWrites(t, id, stage, actor, reason, now)|
    ensures var ws := StageWrites(t, id, stage, actor, reason, now); Legal(env, ApplyAll(t, ws[..k]), ws[k])
  {
    if k < |Others(t, id, stage)| {
      RetiringWriteIsLegal(env, t, id, stage, actor, reason, now, k);
    } else {
      CrowningWriteIsLegal(env, t, id, stage, actor, reason, now);
    }
  }

  lemma RetirementIsLegal(env: Env, t: Table, id: string, c: Change)
    requires id in t.rows && c.approval == None && c.stage == Some(Retired) && c.immutable == None
    requires c.note.action.MarkReplaced?
    ensures Legal(env, t, Update(id, c))
  {
  }

  lemma CrownDoesWhatItSays(id: string, row: Row, stage: Stage, actor: Option<string>, reason: Option<string>, now: int)
    ensures var w := CrownWrite(id, row, stage, actor, reason, now);
            && w.Update? && w.id == id
            && StatusOf(Touch(row, w.change)) == Effect(StatusOf(row), w.change.note.action)
            && Touch(row, w.change).stage == stage && Touch(row, w.change).approval == row.approval
  {
  }

  lemma CrownIsLegal(env: Env, t: Table, before: Table, id: string, stage: Stage, actor: Option<string>,
                     reason: Option<string>, now: int)
    requires WellFormed(t) && id in t.rows && before.rows.Keys == t.rows.Keys
    requires Deployed(stage) ==> t.rows[id].validated && t.rows[id].approval == Approved
    requires forall o | o in t.rows && o !in Others(t, id, stage) :: before.rows[o] == t.rows[o]
    requires forall o | o in t.rows && o in Others(t, id, stage) :: before.rows[o].stage == Retired
    ensures Legal(env, before, CrownWrite(id, t.rows[id], stage, actor, reason, now))
  {
    assert id !in Others(t, id, stage);
    CrownDoesWhatItSays(id, t.rows[id], stage, actor, reason, now);
    forall o ensures stage == Champion ==> !IsOtherChampion(before.rows, FamilyOf(id, before.rows[id]), id, o) {
    }
  }

  /** Every write an operation issues is legal in the state in which it is issued. */
  lemma WriteIsLegal(env: Env, t: Table, op: Op, k: nat)
    requires WellFormed(t)
    requires k < |Decide(env, t, op).writes|
    ensures Legal(env, ApplyAll(t, Decide(env, t, op).writes[..k]), Decide(env, t, op).writes[k])
  {
    var ws := Decide(env, t, op).writes;
    assert k == 0 ==> ws[..k] == [];
    match op {
      case Register(req, freshId, now) => RegisterIsLegal(env, t, req, freshId, now);
      case CreateVersion(of, req, freshId, now) =>
        RegisterIsLegal(env, t, VersionOf(of, t.rows[of], req), freshId, now);
      case Promote(id, to, actor, reason, now) =>
        StageWriteIsLegal(env, t, id, StageNamed(to).value, actor, reason, now, k);
      case _ =>
    }
  }

  lemma LegalKeepsSound(env: Env, t: Table, origin: map<string, Stage>, w: Write)
    requires Sound(env, t, origin) && Legal(env, t, w)
    ensures Sound(env, Apply(t, w), if w.Insert? && w.id !in origin then origin[w.id := w.row.stage] else origin)
  {
    match w {
      case Insert(id, row) => InsertKeepsSound(env, t, origin, id, row);
      case Update(id, c) => UpdateKeepsSound(env, t, origin, id, c);
      case Migrate => ReopenChangesNothing(env, t, origin);
    }
  }

  ghost predicate LegalSequence(env: Env, t: Table, ws: seq<Write>) {
    forall k | 0 <= k < |ws| :: Legal(env, ApplyAll(t, ws[..k]), ws[k])
  }

  lemma LegalPrefix(env: Env, t: Table, ws: seq<Write>, k: nat)
    requires LegalSequence(env, t, ws) && k <= |ws|
    ensures LegalSequence(env, t, ws[..k])
  {
    assert forall i | 0 <= i < k :: ws[..k][..i] == ws[..i];
  }

  lemma {:induction false} LegalSequenceKeepsSound(env: Env, t: Table, origin: map<string, Stage>, ws: seq<Write>)
    requires Sound(env, t, origin) && LegalSequence(env, t, ws)
    ensures Sound(env, ApplyAll(t, ws), Origins(origin, ws))
  {
    if ws != [] {
      var n := |ws| - 1;
      LegalPrefix(env, t, ws, n);
      LegalSequenceKeepsSound(env, t, origin, ws[..n]);
      LegalKeepsSound(env, ApplyAll(t, ws[..n]), Origins(origin, ws[..n]), ws[n]);
    }
  }

  lemma LegalConcat(env: Env, t: Table, a: seq<Write>, b: seq<Write>)
    requires LegalSequence(env, t, a) && LegalSequence(env, ApplyAll(t, a), b)
    ensures LegalSequence(env, t, a + b)
  {
    forall k | 0 <= k < |a + b| ensures Legal(env, ApplyAll(t, (a + b)[..k]), (a + b)[k]) {
      if k < |a| {
        assert (a + b)[..k] == a[..k];
      } else {
        assert (a + b)[..k] == a + b[..k - |a|];
        ApplyAllConcat(t, a, b[..k - |a|]);
      }
    }
  }

  /** Every write of every run is legal where it happens. */
  lemma {:induction false} RunIsLegal(env: Env, t: Table, ops: seq<Op>)
    requires WellFormed(t)
    ensures LegalSequence(env, t, RunWrites(env, t, ops))
    decreases |ops|
  {
    if ops != [] {
      var ws := Decide(env, t, ops[0]).writes;
      forall k | 0 <= k < |ws| {
        WriteIsLegal(env, t, ops[0], k);
      }
      ApplyAllKeepsWellFormed(t, ws);
      RunIsLegal(env, ApplyAll(t, ws), ops[1..]);
      LegalConcat(env, t, ws, RunWrites(env, ApplyAll(t, ws), ops[1..]));
    }
  }

  /** After every single row write of every run from the empty database, the registry is
      sound; in particular replaying a skill's notes from its registration gives exactly its
      current approval, stage and immutable flag. */
  lemma EveryReachableRegistryIsSound(env: Env, ops: seq<Op>, k: nat)
    requires k <= |RunWrites(env, EMPTY, ops)|
    ensures var ws := RunWrites(env, EMPTY, ops)[..k]; Sound(env, ApplyAll(EMPTY, ws), Origins(map[], ws))
  {
    var ws := RunWrites(env, EMPTY, ops);
    RunIsLegal(env, EMPTY, ops);
    LegalPrefix(env, EMPTY, ws, k);
    LegalSequenceKeepsSound(env, EMPTY, map[], ws[..k]);
  }
}
