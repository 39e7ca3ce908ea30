/** The skill registry (`app/registry.py`): a table of skill versions, the SQL statement each
    operation issues, and the registry object that issues them. */
module Registry {
  import opened Basics
  import opened Json
  import opened Sorting

  datatype Approval = Draft | Approved | Deprecated
  datatype Stage = Candidate | Shadow | Challenger | Champion | Degraded | Quarantined | Retired

  /** The stage with the given name, if it is one of `DEPLOYMENT_STAGES`. */
  function StageNamed(name: string): Option<Stage> {
    if name == "candidate" then Some(Candidate)
    else if name == "shadow" then Some(Shadow)
    else if name == "challenger" then Some(Challenger)
    else if name == "champion" then Some(Champion)
    else if name == "degraded" then Some(Degraded)
    else if name == "quarantined" then Some(Quarantined)
    else if name == "retired" then Some(Retired)
    else None
  }

  /** A stage that needs validation and approval. */
  predicate Deployed(stage: Stage) {
    stage != Candidate && stage != Retired
  }

  datatype Action = MarkApproved | MarkDeprecated | MarkReplaced(successor: string) | MarkStaged(stage: Stage)
  datatype Note = Note(action: Action, actor: string, reason: Option<string>, timestamp: int)

  /** The descriptive columns, written once when the row is inserted. */
  datatype Meta = Meta(
    name: string, description: string, tags: seq<string>, marketContext: Value,
    inputSchema: Value, outputSchema: Value, sourceAgent: Option<string>)

  datatype Row = Row(
    family: string, version: string, parent: Option<string>,
    code: string, codeHash: string, validated: bool, meta: Meta,
    stage: Stage, approval: Approval, immutable: bool, notes: seq<Note>,
    createdAt: int, updatedAt: int)
  {
    predicate HasParent() {
      parent.Some? && parent.value != ""
    }
  }

  datatype Skill = Skill(id: string, row: Row)

  /** The `skills` table: its rows by primary key, and the keys in insertion order. */
  datatype Table = Table(rows: map<string, Row>, order: seq<string>)

  ghost predicate WellFormed(t: Table) {
    && (forall i, j | 0 <= i < j < |t.order| :: t.order[i] != t.order[j])
    && (forall id :: id in t.order <==> id in t.rows)
  }

  /** No family column is empty, as `_init_db` leaves it. */
  ghost predicate Named(t: Table) {
    forall id | id in t.rows :: t.rows[id].family == "" ==> id == ""
  }

  predicate SameVersion(t: Table, a: string, b: string) {
    && a in t.rows && b in t.rows
    && t.rows[a].family == t.rows[b].family && t.rows[a].version == t.rows[b].version
  }

  /** What the index on family and version asks for. */
  predicate UniqueVersions(t: Table) {
    forall a, b | a in t.rows && b in t.rows && SameVersion(t, a, b) :: a == b
  }

  /** What lies outside the registry: the hash of a piece of code and the static validator. */
  datatype Env = Env(hash: string -> string, approves: string -> bool)

  // ---------- Row writes ----------

  /** The arguments of `_transition`: None leaves a column as it is. */
  datatype Change = Change(approval: Option<Approval>, stage: Option<Stage>, immutable: Option<bool>, note: Note)

  /** One SQL statement that writes. */
  datatype Write = Insert(id: string, row: Row) | Update(id: string, change: Change) | Migrate

  function Touch(row: Row, c: Change): Row {
    row.(approval := if c.approval.Some? then c.approval.value else row.approval,
         stage := if c.stage.Some? then c.stage.value else row.stage,
         immutable := if c.immutable.Some? then c.immutable.value else row.immutable,
         notes := row.notes + [c.note],
         updatedAt := c.note.timestamp)
  }

  /** The two repair statements of `_init_db`. */
  function MigrateRow(id: string, row: Row): Row {
    row.(family := if row.family == "" then id else row.family,
         immutable := row.immutable || row.approval != Draft)
  }

  function Apply(t: Table, w: Write): Table {
    match w
    case Insert(id, row) => if id in t.rows then t else Table(t.rows[id := row], t.order + [id])
    case Update(id, c) => if id in t.rows then t.(rows := t.rows[id := Touch(t.rows[id], c)]) else t
    case Migrate => t.(rows := map id | id in t.rows :: MigrateRow(id, t.rows[id]))
  }

  function ApplyAll(t: Table, ws: seq<Write>): Table {
    if ws == [] then t else Apply(ApplyAll(t, ws[..|ws| - 1]), ws[|ws| - 1])
  }

  // ---------- What each operation decides to write and to answer ----------

  datatype CreateRequest = CreateRequest(
    skillId: Option<string>, family: Option<string>, version: string,
    parent: Option<string>, stage: Stage, code: string, meta: Meta)

  datatype VersionRequest = VersionRequest(
    version: string, code: string, description: Option<string>, tags: Option<seq<string>>,
    marketContext: Option<Value>, inputSchema: Option<Value>, outputSchema: Option<Value>,
    sourceAgent: Option<string>)

  datatype Error =
    | KeyError
    | HashMismatch | VersionTaken | ParentNotFound | ParentFamilyMismatch
    | NotValidated | InvalidStage | NotDeployable

  datatype Op =
    | Register(create: CreateRequest, freshId: string, now: int)
    | CreateVersion(of: string, version: VersionRequest, freshId: string, now: int)
    | Approve(id: string, actor: Option<string>, reason: Option<string>, now: int)
    | Deprecate(id: string, actor: Option<string>, reason: Option<string>, now: int)
    | Promote(id: string, to: string, actor: Option<string>, reason: Option<string>, now: int)
    | Reopen

  datatype Decision = Decision(writes: seq<Write>, answer: Result<string, Error>)

  function Refuse(e: Error): Decision {
    Decision([], Err(e))
  }

  /** The family column as `_to_record` presents it. */
  function FamilyOf(id: string, row: Row): string {
    if row.family != "" then row.family else id
  }

  /** SELECT by family and version: at most one row where versions are unique. */
  function FindVersion(rows: map<string, Row>, order: seq<string>, family: string, version: string): (r: Option<string>)
    ensures r.Some? ==>
              r.value in order && r.value in rows && rows[r.value].family == family && rows[r.value].version == version
    ensures r.None? ==>
              forall id | id in order && id in rows :: !(rows[id].family == family && rows[id].version == version)
  {
    if order == [] then None
    else if order[0] in rows && rows[order[0]].family == family && rows[order[0]].version == version then Some(order[0])
    else FindVersion(rows, order[1..], family, version)
  }

  function ParentError(t: Table, parent: Option<string>, family: string): Option<Error> {
    if parent.None? || parent.value == "" then None
    else if parent.value !in t.rows then Some(ParentNotFound)
    else if t.rows[parent.value].family != family then Some(ParentFamilyMismatch)
    else None
  }

  function NewRow(env: Env, req: CreateRequest, family: string, now: int): Row {
    Row(family, req.version, req.parent, req.code, env.hash(req.code), env.approves(req.code), req.meta,
        req.stage, Draft, false, [], now, now)
  }

  function DecideRegister(env: Env, t: Table, req: CreateRequest, freshId: string, now: int): Decision {
    var id := Or(req.skillId, freshId);
    var family := Or(req.family, id);
    var hash := env.hash(req.code);
    if id in t.rows then
      if t.rows[id].codeHash != hash then Refuse(HashMismatch) else Decision([], Ok(id))
    else
      match FindVersion(t.rows, t.order, family, req.version)
      case Some(twin) => if t.rows[twin].codeHash != hash then Refuse(VersionTaken) else Decision([], Ok(twin))
      case None =>
        var e := ParentError(t, req.parent, family);
        if e.Some? then Refuse(e.value)
        else Decision([Insert(id, NewRow(env, req, family, now))], Ok(id))
  }

  /** The registration a new version amounts to: omitted fields are its parent's. */
  function VersionOf(parentId: string, parent: Row, req: VersionRequest): CreateRequest {
    CreateRequest(
      None, Some(FamilyOf(parentId, parent)), req.version, Some(parentId), Candidate, req.code,
      Meta(parent.meta.name,
           Or(req.description, parent.meta.description),
           if req.tags.Some? then req.tags.value else parent.meta.tags,
           if req.marketContext.Some? then req.marketContext.value else parent.meta.marketContext,
           if req.inputSchema.Some? then req.inputSchema.value else parent.meta.inputSchema,
           if req.outputSchema.Some? then req.outputSchema.value else parent.meta.outputSchema,
           if req.sourceAgent.Some? && req.sourceAgent.value != "" then req.sourceAgent else parent.meta.sourceAgent))
  }

  function DecideVersion(env: Env, t: Table, parentId: string, req: VersionRequest, freshId: string,
                         now: int): Decision {
    if parentId !in t.rows then Refuse(KeyError)
    else DecideRegister(env, t, VersionOf(parentId, t.rows[parentId], req), freshId, now)
  }

  function DecideApprove(t: Table, id: string, actor: Option<string>, reason: Option<string>, now: int): Decision {
    if id !in t.rows then Refuse(KeyError)
    else if !t.rows[id].validated then Refuse(NotValidated)
    else
      var note := Note(MarkApproved, Or(actor, "system"), reason, now);
      Decision([Update(id, Change(Some(Approved), None, Some(true), note))], Ok(id))
  }

  function DecideDeprecate(t: Table, id: string, actor: Option<string>, reason: Option<string>, now: int): Decision {
    if id !in t.rows then Refuse(KeyError)
    else
      var note := Note(MarkDeprecated, Or(actor, "system"), reason, now);
      Decision([Update(id, Change(Some(Deprecated), Some(Retired), Some(true), note))], Ok(id))
  }

  predicate IsOtherChampion(rows: map<string, Row>, family: string, id: string, c: string) {
    c in rows && rows[c].family == family && rows[c].stage == Champion && c != id
  }

  /** SELECT of the other champions of a family. */
  function OtherChampions(rows: map<string, Row>, order: seq<string>, family: string, id: string): (r: seq<string>)
    ensures forall c :: c in r <==> c in order && IsOtherChampion(rows, family, id, c)
    ensures (forall i, j | 0 <= i < j < |order| :: order[i] != order[j]) ==>
              forall i, j | 0 <= i < j < |r| :: r[i] != r[j]
  {
    if order == [] then []
    else
      (if IsOtherChampion(rows, family, id, order[0]) then [order[0]] else [])
      + OtherChampions(rows, order[1..], family, id)
  }

  function RetireChange(successor: string, actor: Option<string>, reason: Option<string>, now: int): Change {
    Change(None, Some(Retired), None, Note(MarkReplaced(successor), Or(actor, "system"), reason, now))
  }

  function Retirements(ids: seq<string>, c: Change): (r: seq<Write>)
    ensures |r| == |ids|
    ensures forall i | 0 <= i < |ids| :: r[i] == Update(ids[i], c)
  {
    seq(|ids|, i requires 0 <= i < |ids| => Update(ids[i], c))
  }

  function CrownWrite(id: string, row: Row, stage: Stage, actor: Option<string>, reason: Option<string>,
                      now: int): Write {
    var note := Note(MarkStaged(stage), Or(actor, "system"), reason, now);
    Update(id, Change(None, Some(stage), Some(row.immutable || stage != Candidate), note))
  }

  /** The rows a promotion of `id` to `stage` retires first. */
  function Others(t: Table, id: string, stage: Stage): seq<string>
    requires id in t.rows
  {
    if stage == Champion then OtherChampions(t.rows, t.order, FamilyOf(id, t.rows[id]), id) else []
  }

  function StageWrites(t: Table, id: string, stage: Stage, actor: Option<string>, reason: Option<string>,
                       now: int): seq<Write>
    requires id in t.rows
  {
    Retirements(Others(t, id, stage), RetireChange(id, actor, reason, now))
    + [CrownWrite(id, t.rows[id], stage, actor, reason, now)]
  }

  /** The checks of `promote`, in order. */
  function PromoteError(t: Table, id: string, to: string): Option<Error> {
    var stage := StageNamed(to);
    if stage.None? then Some(InvalidStage)
    else if id !in t.rows then Some(KeyError)
    else if Deployed(stage.value) && !(t.rows[id].validated && t.rows[id].approval == Approved) then Some(NotDeployable)
    else None
  }

  function DecidePromote(t: Table, id: string, to: string, actor: Option<string>, reason: Option<string>,
                         now: int): Decision {
    var e := PromoteError(t, id, to);
    if e.Some? then Refuse(e.value)
    else Decision(StageWrites(t, id, StageNamed(to).value, actor, reason, now), Ok(id))
  }

  /** The statements an operation issues in a given state, and its answer. */
  function Decide(env: Env, t: Table, op: Op): Decision {
    match op
    case Register(req, freshId, now) => DecideRegister(env, t, req, freshId, now)
    case CreateVersion(of, req, freshId, now) => DecideVersion(env, t, of, req, freshId, now)
    case Approve(id, actor, reason, now) => DecideApprove(t, id, actor, reason, now)
    case Deprecate(id, actor, reason, now) => DecideDeprecate(t, id, actor, reason, now)
    case Promote(id, to, actor, reason, now) => DecidePromote(t, id, to, actor, reason, now)
    case Reopen => Decision([Migrate], Ok(""))
  }

  /** The writes of a run, for any way of deciding what an operation writes. */
  function WritesOf(decide: (Table, Op) -> seq<Write>, t: Table, ops: seq<Op>): seq<Write>
    decreases |ops|
  {
    if ops == [] then []
    else decide(t, ops[0]) + WritesOf(decide, ApplyAll(t, decide(t, ops[0])), ops[1..])
  }

  function Decider(env: Env): (Table, Op) -> seq<Write> {
    (t: Table, op: Op) => Decide(env, t, op).writes
  }

  /** The row writes of a run of operations, in order. */
  function RunWrites(env: Env, t: Table, ops: seq<Op>): seq<Write> {
    WritesOf(Decider(env), t, ops)
  }

  // ---------- Reading ----------

  function Matching(rows: map<string, Row>, order: seq<string>, keep: Skill -> bool): (r: seq<Skill>)
    ensures forall k :: k in r <==> k.id in order && k.id in rows && rows[k.id] == k.row && keep(k)
  {
    if order == [] then []
    else
      (if order[0] in rows && keep(Skill(order[0], rows[order[0]])) then [Skill(order[0], rows[order[0]])] else [])
      + Matching(rows, order[1..], keep)
  }

  predicate NewestFirst(a: Skill, b: Skill) {
    a.row.createdAt >= b.row.createdAt
  }

  /** The rows that pass a filter, newest first. */
  function Listing(t: Table, keep: Skill -> bool): seq<Skill> {
    Sort(Matching(t.rows, t.order, keep), NewestFirst)
  }

  function ValidationName(validated: bool): string {
    if validated then "validated" else "rejected"
  }

  function ApprovalName(approval: Approval): string {
    match approval
    case Draft => "draft"
    case Approved => "approved"
    case Deprecated => "deprecated"
  }

  function StageName(stage: Stage): string {
    match stage
    case Candidate => "candidate"
    case Shadow => "shadow"
    case Challenger => "challenger"
    case Champion => "champion"
    case Degraded => "degraded"
    case Quarantined => "quarantined"
    case Retired => "retired"
  }

  /** The optional filters of `list`. */
  datatype Query = Query(
    tag: Option<string>, validation: Option<string>, approval: Option<string>,
    family: Option<string>, stage: Option<string>)

  /** A filter that is absent or empty is skipped. */
  predicate Asks(filter: Option<string>, column: string) {
    filter.None? || filter.value == "" || filter.value == column
  }

  /** The WHERE clause. */
  function Columns(q: Query): Skill -> bool {
    (k: Skill) =>
      && Asks(q.validation, ValidationName(k.row.validated)) && Asks(q.approval, ApprovalName(k.row.approval))
      && Asks(q.family, k.row.family) && Asks(q.stage, StageName(k.row.stage))
  }

  /** Python's `lower` and `strip`. */
  datatype Text = Text(lower: string -> string, strip: string -> string)

  predicate HasTag(text: Text, tag: string, k: Skill) {
    exists i | 0 <= i < |k.row.meta.tags| :: text.lower(k.row.meta.tags[i]) == text.strip(text.lower(tag))
  }

  function Tagged(text: Text, tag: string, s: seq<Skill>): seq<Skill> {
    if s == [] then [] else (if HasTag(text, tag, s[0]) then [s[0]] else []) + Tagged(text, tag, s[1..])
  }

  /** `list`: the columns are filtered by the database, the tag afterwards. */
  function List(text: Text, t: Table, q: Query): seq<Skill> {
    var rows := Listing(t, Columns(q));
    if Or(q.tag, "") == "" then rows else Tagged(text, q.tag.value, rows)
  }

  lemma {:induction false} MatchingIsDistinct(rows: map<string, Row>, order: seq<string>, keep: Skill -> bool)
    requires forall i, j | 0 <= i < j < |order| :: order[i] != order[j]
    ensures Distinct(Matching(rows, order, keep))
  {
    if order != [] {
      MatchingIsDistinct(rows, order[1..], keep);
    }
  }

  /** Each row that passes the filter, once, newest first. */
  lemma ListingHasExactly(t: Table, keep: Skill -> bool)
    requires WellFormed(t)
    ensures forall k :: k in Listing(t, keep) <==> k.id in t.rows && t.rows[k.id] == k.row && keep(k)
    ensures Distinct(Listing(t, keep)) && Ordered(Listing(t, keep), NewestFirst)
  {
    SortSorts(Matching(t.rows, t.order, keep), NewestFirst);
    MatchingIsDistinct(t.rows, t.order, keep);
    DistinctByCount(Matching(t.rows, t.order, keep), Listing(t, keep));
  }

  lemma {:induction false} TaggedKeepsOrder(text: Text, tag: string, s: seq<Skill>)
    requires Distinct(s) && Ordered(s, NewestFirst)
    ensures forall k :: k in Tagged(text, tag, s) <==> k in s && HasTag(text, tag, k)
    ensures Distinct(Tagged(text, tag, s)) && Ordered(Tagged(text, tag, s), NewestFirst)
  {
    if s != [] {
      TaggedKeepsOrder(text, tag, s[1..]);
      TailElements(s);
      assert s[0] !in s[1..];
      forall k | k in Tagged(text, tag, s[1..]) ensures NewestFirst(s[0], k) {
        HeadIsLeast(s, k, NewestFirst);
      }
    }
  }

  predicate Given(filter: Option<string>) {
    filter.Some? && filter.value != ""
  }

  /** What a listed skill must have: each column asked for, and one tag that is the tag asked for
      once both are lower case and the latter is stripped. */
  predicate Wanted(text: Text, q: Query, k: Skill) {
    && (Given(q.validation) ==> q.validation.value == if k.row.validated then "validated" else "rejected")
    && (Given(q.approval) ==>
          || (q.approval.value == "draft" && k.row.approval == Draft)
          || (q.approval.value == "approved" && k.row.approval == Approved)
          || (q.approval.value == "deprecated" && k.row.approval == Deprecated))
    && (Given(q.family) ==> q.family.value == k.row.family)
    && (Given(q.stage) ==> StageNamed(q.stage.value) == Some(k.row.stage))
    && (Given(q.tag) ==>
          exists i | 0 <= i < |k.row.meta.tags| ::
            text.lower(k.row.meta.tags[i]) == text.strip(text.lower(q.tag.value)))
  }

  /** `list` answers with exactly the rows that pass every filter given, each once, newest
      first. */
  lemma ListHasExactly(text: Text, t: Table, q: Query)
    requires WellFormed(t)
    ensures forall k :: k in List(text, t, q) <==> k.id in t.rows && t.rows[k.id] == k.row && Wanted(text, q, k)
    ensures Distinct(List(text, t, q))
    ensures forall i, j | 0 <= i < j < |List(text, t, q)| ::
              List(text, t, q)[i].row.createdAt >= List(text, t, q)[j].row.createdAt
  {
    ListingHasExactly(t, Columns(q));
    if Given(q.tag) {
      TaggedKeepsOrder(text, q.tag.value, Listing(t, Columns(q)));
    }
    forall k ensures Columns(q)(k) && (Given(q.tag) ==> HasTag(text, q.tag.value, k)) <==> Wanted(text, q, k) {
      ColumnsMeaning(text, q, k);
    }
    ListedNewestFirst(List(text, t, q));
  }

  lemma ListedNewestFirst(s: seq<Skill>)
    requires Ordered(s, NewestFirst)
    ensures forall i, j | 0 <= i < j < |s| :: s[i].row.createdAt >= s[j].row.createdAt
  {
    forall i, j | 0 <= i < j < |s| ensures s[i].row.createdAt >= s[j].row.createdAt {
      assert NewestFirst(s[i], s[j]);
    }
  }

  lemma ColumnsMeaning(text: Text, q: Query, k: Skill)
    ensures Columns(q)(k) && (Given(q.tag) ==> HasTag(text, q.tag.value, k)) <==> Wanted(text, q, k)
  {
  }

  // ---------- Lemmas about sequences of writes ----------

  lemma {:induction false} ApplyAllConcat(t: Table, a: seq<Write>, b: seq<Write>)
    ensures ApplyAll(t, a + b) == ApplyAll(ApplyAll(t, a), b)
  {
    if b == [] {
      assert a + b == a;
    } else {
      var n := |b| - 1;
      assert (a + b)[..|a + b| - 1] == a + b[..n];
      ApplyAllConcat(t, a, b[..n]);
    }
  }

  lemma ApplyKeepsWellFormed(t: Table, w: Write)
    requires WellFormed(t)
    ensures WellFormed(Apply(t, w))
    ensures forall id | id in t.rows :: id in Apply(t, w).rows
  {
  }

  lemma ApplyKeepsNamed(t: Table, w: Write)
    requires Named(t) && (w.Insert? ==> (w.row.family == "" ==> w.id == ""))
    ensures Named(Apply(t, w))
  {
  }

  /** No row has the family and version of `row`. */
  ghost predicate NewVersion(t: Table, row: Row) {
    forall o | o in t.rows :: !(t.rows[o].family == row.family && t.rows[o].version == row.version)
  }

  lemma ApplyKeepsUniqueVersions(t: Table, w: Write)
    requires UniqueVersions(t) && Named(t)
    requires w.Insert? && w.id !in t.rows ==> NewVersion(t, w.row)
    ensures UniqueVersions(Apply(t, w))
  {
    var t' := Apply(t, w);
    forall a, b | SameVersion(t', a, b) ensures a == b {
      assert a in t.rows ==> t'.rows[a].family == t.rows[a].family && t'.rows[a].version == t.rows[a].version;
      assert b in t.rows ==> t'.rows[b].family == t.rows[b].family && t'.rows[b].version == t.rows[b].version;
      assert a in t.rows && b in t.rows ==> SameVersion(t, a, b);
    }
  }

  lemma {:induction false} ApplyAllKeepsWellFormed(t: Table, ws: seq<Write>)
    requires WellFormed(t)
    ensures WellFormed(ApplyAll(t, ws))
    ensures forall id | id in t.rows :: id in ApplyAll(t, ws).rows
  {
    if ws != [] {
      ApplyAllKeepsWellFormed(t, ws[..|ws| - 1]);
      ApplyKeepsWellFormed(ApplyAll(t, ws[..|ws| - 1]), ws[|ws| - 1]);
    }
  }

  /** While champions are being retired one by one: those reached so far carry the change,
      every other row is as it was. */
  lemma {:induction false} AfterRetirements(t: Table, ids: seq<string>, c: Change, k: nat)
    requires k <= |ids|
    requires forall i | 0 <= i < |ids| :: ids[i] in t.rows
    requires forall i, j | 0 <= i < j < |ids| :: ids[i] != ids[j]
    ensures var t' := ApplyAll(t, Retirements(ids, c)[..k]);
            && t'.order == t.order && t'.rows.Keys == t.rows.Keys
            && forall id | id in t.rows :: t'.rows[id] == if id in ids[..k] then Touch(t.rows[id], c) else t.rows[id]
  {
    var ws := Retirements(ids, c);
    if k > 0 {
      AfterRetirements(t, ids, c, k - 1);
      assert ws[..k][..k - 1] == ws[..k - 1];
      assert ids[..k] == ids[..k - 1] + [ids[k - 1]];
      assert ids[k - 1] !in ids[..k - 1];
    }
  }

  lemma RunOfOne(env: Env, t: Table, op: Op)
    ensures RunWrites(env, t, [op]) == Decide(env, t, op).writes
  {
    var rest := [op][1..];
    assert rest == [];
    assert WritesOf(Decider(env), ApplyAll(t, Decider(env)(t, op)), rest) == [];
  }

  lemma {:induction false} WritesOfSnoc(decide: (Table, Op) -> seq<Write>, t: Table, ops: seq<Op>, op: Op)
    ensures WritesOf(decide, t, ops + [op]) ==
            WritesOf(decide, t, ops) + decide(ApplyAll(t, WritesOf(decide, t, ops)), op)
    decreases |ops|
  {
    if ops == [] {
      assert [op][1..] == [] && ops + [op] == [op];
    } else {
      var ws := decide(t, ops[0]);
      assert (ops + [op])[1..] == ops[1..] + [op];
      WritesOfSnoc(decide, ApplyAll(t, ws), ops[1..], op);
      ApplyAllConcat(t, ws, WritesOf(decide, ApplyAll(t, ws), ops[1..]));
    }
  }

  /** The table after the first k operations of a run. */
  function StateAfter(env: Env, t: Table, ops: seq<Op>, k: nat): Table
    requires k <= |ops|
  {
    ApplyAll(t, RunWrites(env, t, ops[..k]))
  }

  lemma StateAtFirst(env: Env, t: Table, ops: seq<Op>)
    ensures StateAfter(env, t, ops, 0) == t
  {
    assert RunWrites(env, t, ops[..0]) == [];
  }

  lemma StateStep(env: Env, t: Table, ops: seq<Op>, k: nat)
    requires k < |ops|
    ensures var s := StateAfter(env, t, ops, k);
            && RunWrites(env, t, ops[..k + 1]) == RunWrites(env, t, ops[..k]) + Decide(env, s, ops[k]).writes
            && StateAfter(env, t, ops, k + 1) == ApplyAll(s, Decide(env, s, ops[k]).writes)
  {
    assert ops[..k + 1] == ops[..k] + [ops[k]];
    WritesOfSnoc(Decider(env), t, ops[..k], ops[k]);
    ApplyAllConcat(t, RunWrites(env, t, ops[..k]), Decide(env, StateAfter(env, t, ops, k), ops[k]).writes);
  }

  // ---------- The registry object ----------

  function Reply(t: Table, answer: Result<string, Error>): Result<Skill, Error>
    requires answer.Ok? ==> answer.value in t.rows
  {
    match answer
    case Ok(id) => Ok(Skill(id, t.rows[id]))
    case Err(e) => Err(e)
  }

  class SkillRegistry {
    const env: Env
    var rows: map<string, Row>
    var order: seq<string>
    ghost const initial: Table
    ghost var journal: seq<Write>
    ghost var history: seq<Op>

    function State(): Table
      reads this
    {
      Table(rows, order)
    }

    /** The table is what the journal of row writes makes of the table that was opened, and
        meets the constraints the database enforces. */
    ghost predicate Journaled()
      reads this
    {
      && WellFormed(State()) && Named(State()) && UniqueVersions(State())
      && WellFormed(initial) && State() == ApplyAll(initial, journal)
    }

    /** Between operations the journal is that of a run. */
    ghost predicate Valid()
      reads this
    {
      Journaled() && journal == RunWrites(env, initial, history)
    }

    /** Run the `_init_db` repairs on a stored table that then meets its unique index. */
    constructor (env: Env, stored: Table)
      requires WellFormed(stored) && UniqueVersions(Apply(stored, Migrate))
      ensures Valid()
      ensures this.env == env && initial == stored && history == [Op.Reopen]
      ensures State() == Apply(stored, Migrate)
    {
      this.env := env;
      rows, order := map id | id in stored.rows :: MigrateRow(id, stored.rows[id]), stored.order;
      initial, journal, history := stored, [Migrate], [Op.Reopen];
      new;
      ApplyAllOne(stored, Migrate);
      RunOfOne(env, stored, Op.Reopen);
    }

    /** Every row write goes through here; the index refuses a second row of a family and
        version. */
    method Execute(w: Write)
      requires Journaled()
      requires w.Insert? ==> (w.row.family == "" ==> w.id == "") && NewVersion(State(), w.row)
      modifies `rows, `order, `journal
      ensures Journaled()
      ensures journal == old(journal) + [w] && State() == Apply(old(State()), w)
    {
      ghost var before := State();
      match w {
        case Insert(id, row) =>
          if id !in rows {
            rows, order := rows[id := row], order + [id];
          }
        case Update(id, c) =>
          if id in rows {
            rows := rows[id := Touch(rows[id], c)];
          }
        case Migrate =>
          rows := map id | id in rows :: MigrateRow(id, rows[id]);
      }
      assert State() == Apply(before, w);
      ApplyKeepsWellFormed(before, w);
      ApplyKeepsNamed(before, w);
      ApplyKeepsUniqueVersions(before, w);
      ApplyAllSnoc(initial, journal, w);
      journal := journal + [w];
    }

    /** An operation is complete: its writes, and nothing else, followed the recorded run. */
    ghost method Remember(op: Op, before: Table, ws: seq<Write>)
      requires Journaled() && before == ApplyAll(initial, RunWrites(env, initial, history))
      requires ws == Decide(env, before, op).writes
      requires journal == RunWrites(env, initial, history) + ws
      modifies `history
      ensures Valid()
    {
      WritesOfSnoc(Decider(env), initial, history, op);
      history := history + [op];
    }

    /** An operation that writes one row, once its checks have passed. */
    method ExecuteOne(op: Op, w: Write)
      requires Valid() && Decide(env, State(), op).writes == [w]
      requires w.Insert? ==> (w.row.family == "" ==> w.id == "") && NewVersion(State(), w.row)
      modifies this
      ensures Valid()
      ensures journal == old(journal) + [w]
      ensures State() == Apply(old(State()), w) == ApplyAll(old(State()), [w])
    {
      ghost var before := State();
      ApplyAllOne(before, w);
      Execute(w);
      Remember(op, before, [w]);
    }

    method Register(req: CreateRequest, freshId: string, now: int) returns (r: Result<Skill, Error>)
      requires Valid()
      modifies this
      ensures Valid()
      ensures var d := DecideRegister(env, old(State()), req, freshId, now);
              && journal == old(journal) + d.writes
              && State() == ApplyAll(old(State()), d.writes)
              && (d.answer.Ok? ==> d.answer.value in rows) && r == Reply(State(), d.answer)
    {
      var id := Or(req.skillId, freshId);
      var family := Or(req.family, id);
      var hash := env.hash(req.code);
      if id in rows {
        if rows[id].codeHash != hash {
          return Err(HashMismatch);
        }
        return Ok(Skill(id, rows[id]));
      }
      var twin := FindVersion(rows, order, family, req.version);
      if twin.Some? {
        if rows[twin.value].codeHash != hash {
          return Err(VersionTaken);
        }
        return Ok(Skill(twin.value, rows[twin.value]));
      }
      if req.parent.Some? && req.parent.value != "" {
        if req.parent.value !in rows {
          return Err(ParentNotFound);
        }
        if rows[req.parent.value].family != family {
          return Err(ParentFamilyMismatch);
        }
      }
      ExecuteOne(Op.Register(req, freshId, now), Insert(id, NewRow(env, req, family, now)));
      return Ok(Skill(id, rows[id]));
    }

    method CreateVersion(parentId: string, req: VersionRequest, freshId: string, now: int)
        returns (r: Result<Skill, Error>)
      requires Valid()
      modifies this
      ensures Valid()
      ensures var d := DecideVersion(env, old(State()), parentId, req, freshId, now);
              && journal == old(journal) + d.writes
              && State() == ApplyAll(old(State()), d.writes)
              && (d.answer.Ok? ==> d.answer.value in rows) && r == Reply(State(), d.answer)
    {
      if parentId !in rows {
        return Err(KeyError);
      }
      r := Register(VersionOf(parentId, rows[parentId], req), freshId, now);
    }

    method Approve(id: string, actor: Option<string>, reason: Option<string>, now: int)
        returns (r: Result<Skill, Error>)
      requires Valid()
      modifies this
      ensures Valid()
      ensures var d := DecideApprove(old(State()), id, actor, reason, now);
              && journal == old(journal) + d.writes
              && State() == ApplyAll(old(State()), d.writes)
              && (d.answer.Ok? ==> d.answer.value in rows) && r == Reply(State(), d.answer)
    {
      if id !in rows {
        return Err(KeyError);
      }
      if !rows[id].validated {
        return Err(NotValidated);
      }
      var note := Note(MarkApproved, Or(actor, "system"), reason, now);
      ExecuteOne(Op.Approve(id, actor, reason, now), Update(id, Change(Some(Approved), None, Some(true), note)));
      return Ok(Skill(id, rows[id]));
    }

    method Deprecate(id: string, actor: Option<string>, reason: Option<string>, now: int)
        returns (r: Result<Skill, Error>)
      requires Valid()
      modifies this
      ensures Valid()
      ensures var d := DecideDeprecate(old(State()), id, actor, reason, now);
              && journal == old(journal) + d.writes
              && State() == ApplyAll(old(State()), d.writes)
              && (d.answer.Ok? ==> d.answer.value in rows) && r == Reply(State(), d.answer)
    {
      if id !in rows {
        return Err(KeyError);
      }
      var note := Note(MarkDeprecated, Or(actor, "system"), reason, now);
      ExecuteOne(Op.Deprecate(id, actor, reason, now),
                 Update(id, Change(Some(Deprecated), Some(Retired), Some(true), note)));
      return Ok(Skill(id, rows[id]));
    }

    /** Retire every other champion, one row at a time, then stage the target. */
    method Promote(id: string, to: string, actor: Option<string>, reason: Option<string>, now: int)
        returns (r: Result<Skill, Error>)
      requires Valid()
      modifies this
      ensures Valid()
      ensures var d := DecidePromote(old(State()), id, to, actor, reason, now);
              && journal == old(journal) + d.writes
              && State() == ApplyAll(old(State()), d.writes)
              && (d.answer.Ok? ==> d.answer.value in rows) && r == Reply(State(), d.answer)
    {
      var e := PromoteError(State(), id, to);
      if e.Some? {
        return Err(e.value);
      }
      DecidesToStage(env, State(), id, to, actor, reason, now);
      Deploy(id, StageNamed(to).value, Op.Promote(id, to, actor, reason, now));
      return Ok(Skill(id, rows[id]));
    }

    /** A promotion whose checks have passed. */
    method Deploy(id: string, stage: Stage, op: Op)
      requires Valid() && id in rows && op.Promote?
      requires Decide(env, State(), op).writes == StageWrites(State(), id, stage, op.actor, op.reason, op.now)
      modifies this
      ensures Valid() && id in rows
      ensures var ws := StageWrites(old(State()), id, stage, op.actor, op.reason, op.now);
              journal == old(journal) + ws && State() == ApplyAll(old(State()), ws)
    {
      ghost var before := State();
      SetStage(id, stage, op.actor, op.reason, op.now);
      Remember(op, before, StageWrites(before, id, stage, op.actor, op.reason, op.now));
    }

    /** The writes of `promote`, once its checks have passed. */
    method SetStage(id: string, stage: Stage, actor: Option<string>, reason: Option<string>, now: int)
      requires Journaled() && id in rows
      modifies `rows, `order, `journal
      ensures Journaled() && id in rows
      ensures var ws := StageWrites(old(State()), id, stage, actor, reason, now);
              journal == old(journal) + ws && State() == ApplyAll(old(State()), ws)
    {
      RetireThenStage(Others(State(), id, stage), RetireChange(id, actor, reason, now),
                      CrownWrite(id, rows[id], stage, actor, reason, now));
    }

    method RetireThenStage(ids: seq<string>, c: Change, crown: Write)
      requires Journaled() && crown.Update?
      modifies `rows, `order, `journal
      ensures Journaled()
      ensures var ws := Retirements(ids, c) + [crown];
              journal == old(journal) + ws && State() == ApplyAll(old(State()), ws)
      ensures forall id | id in old(rows) :: id in rows
    {
      ApplyAllSnoc(State(), Retirements(ids, c), crown);
      Associative(journal, Retirements(ids, c), [crown]);
      RetireAll(ids, c);
      Execute(crown);
    }

    /** The loop of `promote` over the champions it found. */
    method RetireAll(ids: seq<string>, c: Change)
      requires Journaled()
      modifies `rows, `order, `journal
      ensures Journaled()
      ensures journal == old(journal) + Retirements(ids, c)
      ensures State() == ApplyAll(old(State()), Retirements(ids, c))
      ensures forall id | id in old(rows) :: id in rows
    {
      ghost var ws := Retirements(ids, c);
      for i := 0 to |ids|
        invariant Journaled()
        invariant journal == old(journal) + ws[..i]
        invariant State() == ApplyAll(old(State()), ws[..i])
        invariant forall id | id in old(rows) :: id in rows
      {
        assert ws[..i + 1][..i] == ws[..i];
        ApplyKeepsWellFormed(State(), Update(ids[i], c));
        Execute(Update(ids[i], c));
      }
      assert ws[..|ids|] == ws;
    }

    /** A new process opens the same database file. */
    method Reopen()
      requires Valid()
      modifies this
      ensures Valid()
      ensures journal == old(journal) + [Migrate] && State() == ApplyAll(old(State()), [Migrate])
    {
      ExecuteOne(Op.Reopen, Migrate);
    }
  }

  /** Opening a stored table: creating the unique index raises when the repaired rows hold a
      family and version twice. */
  method OpenRegistry(env: Env, stored: Table) returns (r: Option<SkillRegistry>)
    requires WellFormed(stored)
    ensures r.None? <==> !UniqueVersions(Apply(stored, Migrate))
    ensures r.Some? ==>
              && fresh(r.value) && r.value.Valid() && r.value.env == env && r.value.initial == stored
              && r.value.history == [Op.Reopen] && r.value.State() == Apply(stored, Migrate)
  {
    if !UniqueVersions(Apply(stored, Migrate)) {
      return None;
    }
    var registry := new SkillRegistry(env, stored);
    return Some(registry);
  }

  lemma DecidesToStage(env: Env, t: Table, id: string, to: string, actor: Option<string>, reason: Option<string>,
                       now: int)
    requires PromoteError(t, id, to).None?
    ensures id in t.rows && StageNamed(to).Some?
    ensures var d := Decision(StageWrites(t, id, StageNamed(to).value, actor, reason, now), Ok(id));
            && DecidePromote(t, id, to, actor, reason, now) == d
            && Decide(env, t, Op.Promote(id, to, actor, reason, now)) == d
  {
  }

  lemma ApplyAllSnoc(t: Table, ws: seq<Write>, w: Write)
    ensures ApplyAll(t, ws + [w]) == Apply(ApplyAll(t, ws), w)
  {
    assert (ws + [w])[..|ws|] == ws;
  }

  lemma ApplyAllOne(t: Table, w: Write)
    ensures ApplyAll(t, [w]) == Apply(t, w)
  {
    assert [w][..0] == [];
  }
}
