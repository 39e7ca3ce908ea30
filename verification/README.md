# Curator Agent: verified model

Curator keeps a registry of trading-analysis skills and controls their execution. This project
models its stateful and algorithmic core in Dafny 4.11 and proves what that core keeps, over
all inputs and all runs. `dafny verify dfyconfig.toml` checks everything.

| file | what it models |
|---|---|
| `Registry.dfy` | the skills table, the SQL statement each operation issues, and the registry object that issues them |
| `Lifecycle.dfy` | invariants after every single row write of every run; event sourcing from the lifecycle notes |
| `Governance.dfy` | one champion per family, deployment needs approval, growth, idempotence, lineage |
| `Effects.dfy` | what each registry operation does to every row, and when it is refused |
| `VersionApi.dfy` | family summaries and the rollback handler |
| `ReplayGuard.dfy` | the nonce cache, refined to a sliding window over the history of accepted nonces |
| `WorkerProtocol.dfy` | signed message framing over bytes, UTF-8 and ASCII encodings, signature verification |
| `WorkerAdmission.dfy` | freshness check, signature and nonce cache together: at-most-once admission |
| `WorkerConcurrency.dfy` | the bounded semaphore protocol in every interleaving |
| `SchemaContracts.dfy` | the schema checker against a flat reading over all reachable locations |
| `SchemaStandard.dfy` | where the checker and JSON Schema part ways on the keywords both know |
| `Executors.dfy` | the two executor decorators around an arbitrary delegate |
| `EnsembleSelection.dfy`, `Consensus.dfy` | greedy diversity selection and the weighted vote |
| `Recommendations.dfy`, `PerformanceIntelligence.dfy` | ranking, confidence calibration, decay assessment |
| `Basics.dfy`, `Json.dfy`, `Sorting.dfy` | options and rounding, JSON-like Python values, Python's stable sort and string order |

## How to read it

*Registry.* An operation first decides, as a function of the table, which statements it issues
and what it answers (`Decide`); the object `SkillRegistry` issues exactly those, one row at a
time, and records them in a ghost journal. A run is any sequence of operations, reopening the
database included. Lemmas speak of every prefix of a run's row writes, so also of the states in
the middle of a promotion. The hash function and the static validator are parameters; all
claims about code are claims about its hash where the code compares hashes.

*Worker.* `Worker` judges each request as a function of the run so far. The clock is read twice
per request, as in the source, and never goes back. HMAC-SHA256 is a parameter; where a claim
needs it, `Ideal` assumes that for each key it is injective. Where a claim depends on the framing,
`OneLine` assumes that no signed part before the body holds a line break.

*Schemas.* `Conforms` says that no location reachable through `properties` and `items` violates a
keyword. `Reported` says which violations are reported. Neither follows the checker's recursion.
As in the source a boolean is never a number as a value but counts as one as a bound, a count bound
must be an int, and keywords in other forms are ignored. `SchemaStandard.StandardBreaks` is the
standard's reading of the same keywords, written without reference to the checker's.

*Arithmetic.* Floats are exact reals. `Round6` is `round(x, 6)` with ties to even.

## Where the code does not keep what its documentation says

- `docs/SANDBOX_WORKER.md` says that replayed requests are rejected. `WorkerAdmission.AdmittedExactly`
  says which arrivals of a run are admitted, and there are three ways to be admitted again. *Edge:*
  a request whose timestamp is the full skew ahead of the worker's clock is still fresh at the
  instant its cache entry expires. *Delay:* the freshness check and the cache read the clock
  separately, and a delay between the two readings of the second presentation widens that edge by
  as much; `AdmittedAgainIff` is the exact condition after any run, `AdmittedAgainOnTheEdge` its
  form without delay. *Capacity:* `max_entries` later admissions evict the entry whatever the
  timestamp; `LatestAdmissionDecides` is the exact condition, `EvictedIsAdmittedAgain` an example.
- The docstring of `PerformanceAwareExecutor` says that validated output is preserved exactly. An
  output that is not an object is replaced by the empty object, which may violate the schema it
  was validated against (`Executors.AdvisoryLayerKeepsContract`, `Executors.ArrayOutputLosesItsContract`).
  Both executors of this repository refuse such an output (app/executor.py:117,
  sandbox/runner.py:57); it can only arrive in the unvalidated `data` of a remote worker's answer
  (app/remote_sandbox.py:245-254).
- `register` stores any deployment stage it is asked for, unapproved, so that a family can get a
  second champion. `Governance.GovernedIffNeverStoresDeployed` says, by a test on each request and
  the table it meets, exactly which runs stay governed; those do in which no registration asks for
  a deployed stage (`Governance.UndeployedRequestsStayGoverned`).
- The repository's README.md describes the lifecycle as draft, approved, deprecated. The code
  approves a deprecated skill again if it is validated, after which it can be champion again
  (`Governance.DeprecatedSkillReturns`). `Governance.DeprecatedStaysIff`: over any run a deprecated
  skill stays deprecated if and only if it is not validated or the run does not approve it.
- A test of the repository is named for registration being idempotent for an existing skill id
  (tests/test_deterministic_skill_seed.py:33), and it is for a skill answered under its own id. A
  registration first answered with a skill of the same family, version and code is answered
  differently once its own id has been taken (`Governance.RepeatAnswersAnother`);
  `Governance.RegisteringAgainIff` is the exact condition. It never writes.
- The schema checker's docstring says that it validates a subset of JSON Schema. Compared with
  section 6 of JSON Schema Validation, draft 2020-12, it refuses `1.0` as an `integer` (6.1.1) and
  lets pass a value of none of a list of types (6.1.1), `true` where an `enum` has only `1` (6.1.2),
  and any size under a count bound written as a float, such as `2.0` (6.3.1, 6.3.2, 6.4.1, 6.4.2).
  For the twelve keywords, in the forms listed by `SchemaStandard.Form`, these are the only differences:
  `SchemaStandard.KeywordsAgreeIff` says exactly when they occur, `ConformanceAgreesIff` what follows
  for whole values, and `IntegralFloatIsRefused`, `TypeListIsIgnored`, `TrueIsAcceptedAsOne` and
  `FloatBoundIsIgnored` are values on which they do. The forms that are not compared are left out below.

## Model

| member | source | states |
|---|---|---|
| Registry.SkillRegistry.constructor | app/registry.py:58-121 | the repaired table of a stored one that then meets the unique index, as the start of a run |
| Registry.OpenRegistry | app/registry.py:104-121 | opening fails exactly when the repaired rows repeat a family and version, and otherwise repairs the table and starts a run |
| Registry.SkillRegistry.Execute | app/registry.py:349-378 | one row write: the whole new table and journal, with the database's constraints kept |
| Registry.SkillRegistry.ExecuteOne | app/registry.py:349-378 | an operation of one statement adds exactly that statement to the run |
| Registry.SkillRegistry.Register | app/registry.py:129-195 | issues the decided insert or none, answers or refuses as decided |
| Registry.SkillRegistry.CreateVersion | app/registry.py:197-230 | registers a child of the parent, or refuses when there is no parent |
| Registry.SkillRegistry.Approve | app/registry.py:286-295 | one update for a validated skill, refusal otherwise |
| Registry.SkillRegistry.Deprecate | app/registry.py:297-305 | one update that retires and freezes |
| Registry.SkillRegistry.Promote | app/registry.py:307-347 | the sequence of row writes of a promotion, in order, or a refusal that writes nothing; `Effects.PromotionEffect` and `Effects.PromotionAnswer` say what they do |
| Registry.SkillRegistry.Deploy | app/registry.py:321-347 | a promotion that passed its checks adds exactly its row writes to the run |
| Registry.SkillRegistry.SetStage | app/registry.py:321-347 | other champions retired one at a time, then the target staged |
| Registry.SkillRegistry.RetireAll | app/registry.py:328-337 | the loop over the champions found |
| Registry.SkillRegistry.Reopen | app/registry.py:105-112 | the two repair statements run on the current table |
| Registry.FindVersion | app/registry.py:144-147 | finds a row of the family and version, or there is none |
| Registry.OtherChampions | app/registry.py:323-327 | exactly the other champions of the family, each once |
| Registry.AfterRetirements | app/registry.py:328-337 | midway through a promotion the champions reached are retired and every other row is as before |
| Effects.PromotionEffect | app/registry.py:321-347 | a promotion to any stage, row by row: the target at the named stage, frozen unless that is candidate, with one note more; other champions of the family retired with a note if and only if the stage is champion; every other row unchanged |
| Effects.PromotionAnswer | app/registry.py:315-320 | for every stage name and skill, which answer a promotion gets; a refused one writes nothing |
| Effects.ApprovalEffect | app/registry.py:286-295 | when an approval is refused, and otherwise the one row it changes and how |
| Effects.DeprecationEffect | app/registry.py:297-305 | when a deprecation is refused, and otherwise the one row it changes and how |
| Effects.RegistrationEffect | app/registry.py:129-195 | a registration that writes adds one row at the end, with every column given; one that does not leaves the table |
| Effects.VersionIsRegistration | app/registry.py:197-230 | a version request for an absent parent is refused; any other is a registration in the parent's family |
| Effects.RepairEffect | app/registry.py:105-112 | the repairs name unnamed families, freeze what was approved or deprecated, and change nothing else |
| Lifecycle.WriteIsLegal | app/registry.py:129-378 | every write is legal where it is issued: fresh drafts with a new version and a present parent, updates that do what their note says, deployment only of approved skills, crowning only with no other champion left |
| Lifecycle.RunIsLegal | app/registry.py:129-378 | so is every write of every run |
| Lifecycle.DuringPromotion | app/registry.py:321-347 | the table before each write of a promotion |
| Lifecycle.LegalSequenceKeepsSound | app/registry.py:129-378 | legal writes keep all structural invariants and the ledger |
| Lifecycle.EveryReachableRegistryIsSound | app/registry.py:138-195 | after every row write of every run: unique (family, version), parents before children in one family, hashes match code, and replaying a skill's notes from its registration gives its approval, stage and immutable flag |
| Lifecycle.ReopenChangesNothing | app/registry.py:105-112 | reopening a registry built by operations changes no row |
| Lifecycle.SettledIsImmutable | app/registry.py:109-112 | approved or deprecated implies immutable |
| Governance.LegalKeepsGoverned | app/registry.py:307-378 | a legal write that inserts nothing deployed keeps one champion per family and deployment only of validated, approved skills |
| Governance.GovernedIffInsertsUndeployed | app/registry.py:161-177 | governance holds after every row write of a run if and only if no row was inserted at a deployed stage |
| Governance.OperationStores | app/registry.py:138-177 | an operation inserts such a row if and only if it is a registration that asks for a deployed stage, with unknown id, unknown (family, version) and an acceptable parent |
| Governance.GovernedIffNeverStoresDeployed | app/registry.py:138-177 | governance holds after every row write of a run if and only if no request, tested against the table it meets, is such a registration |
| Governance.UndeployedRequestsStayGoverned | app/registry.py:161-177 | in particular when no registration asks for a deployed stage |
| Governance.LiveRegistryIsSound | app/registry.py:57-378 | the same for the registry object itself, between operations |
| Governance.ApprovalStep | app/registry.py:286-305 | what each operation does to a skill's approval |
| Governance.DeprecatedStaysIff | app/registry.py:286-305 | over any run from any table a deprecated skill stays deprecated if and only if it is not validated or the run does not approve it |
| Governance.DeprecatedSkillReturns | app/registry.py:286-347 | a deprecated, validated skill approved and promoted to champion again |
| Governance.RegisteringAChampionIsUngoverned | app/registry.py:176 | a concrete run that breaks governance |
| Governance.PromotionCrownsExactlyOne | app/registry.py:307-347 | from any state, the promoted skill ends as its family's only champion; replaced champions are retired with a note; no other row changes |
| Governance.CanCrown | app/registry.py:318-320 | a promotion to champion is refused exactly for an absent, unvalidated or unapproved skill |
| Governance.WritesOnlyGrow | app/registry.py:349-378 | no write removes a row, changes its code, hash or identity, rewrites its notes or thaws it |
| Governance.RunsOnlyGrow | app/registry.py:129-378 | nor does any run from any reachable registry |
| Governance.RegisteringAgainIff | app/registry.py:138-151 | repeating the id, family, version and code of an accepted registration, with an explicit id or with a family and a fresh id, after any growth writes nothing, and is answered with the same skill if and only if that skill has the requested id or no skill has it yet |
| Governance.RegisteringAgain | app/registry.py:139-143 | in particular a registration answered with its own explicit id is answered with it again whenever that id and code are registered, whatever else the request says |
| Governance.RepeatAnswersAnother | app/registry.py:139-151 | a run after which a repeated registration is answered with another skill |
| Governance.FirstOfFamilyInserts | app/registry.py:131-193 | a registration of an unknown id in a family without skills inserts it, so one without id and family is a new skill every time |
| Governance.CreatingAVersionAgain | app/registry.py:144-151 | repeating a version request, after any growth, writes nothing and answers with the same skill |
| Governance.RefusalWritesNothing | app/registry.py:138-160 | a refused operation writes nothing |
| Governance.RegistrationCaseByCase | app/registry.py:138-160 | which registration gets which answer, as conditions on the table |
| Governance.NewVersionInherits | app/registry.py:202-229 | a new version is one new draft candidate of its parent's family; each descriptive field is the request's if given there and the parent's if not |
| Governance.ParentIsEarlier | app/registry.py:152-160 | parent links go back in insertion order |
| Governance.AncestryIsAFinitePath | app/registry.py:152-160 | following parents reaches a root without repeating, in one family, in fewer steps than there are skills |
| Registry.ListHasExactly | app/registry.py:232-261 | `list` answers with exactly the rows that pass every filter given, tag included, each once, newest first |
| Registry.ListingHasExactly | app/registry.py:251-257 | the same for any filter on rows |
| VersionApi.SummaryMeaning | app/version_api.py:21-42 | a summary fails exactly when no version is in scope (the empty family id selects all); otherwise it lists each version once by creation time, version and id, counts them, and names the last one and the last champion |
| VersionApi.SummaryOrderExactly | app/version_api.py:25-28 | the order is by creation time, then version, then id |
| VersionApi.RollbackFamilyToSkill | app/version_api.py:137-175 | refuses, with which error, and changes nothing, or crowns exactly the target, reports the newest champion it replaced if and only if there was one, and returns a summary showing the target |
| ReplayGuard.NonceReplayGuard.constructor | app/sandbox_worker.py:28-32 | an empty cache over an empty history, for any time to live and capacity |
| ReplayGuard.NonceReplayGuard.Purge | app/sandbox_worker.py:37-43 | what is left is exactly the window over the whole history |
| ReplayGuard.NonceReplayGuard.Consume | app/sandbox_worker.py:34-50 | refuses exactly the nonces in the window, and the cache is the window afterwards; raises exactly with a capacity below one |
| ReplayGuard.Unexpired | app/sandbox_worker.py:37-43 | the two expiry loops keep exactly the unexpired entries, in order, wherever they stand |
| ReplayGuard.AliveIsTheWindow | app/sandbox_worker.py:37-43 | with a clock that never goes back these are the window over the whole history |
| ReplayGuard.MakeRoom | app/sandbox_worker.py:47-48 | capacity eviction keeps the newest entries; it raises exactly with a capacity below one |
| ReplayGuard.LiveCountMeaning | app/sandbox_worker.py:37-41 | with a clock that never goes back the unexpired acceptances are the last ones |
| ReplayGuard.InWindowMeaning | app/sandbox_worker.py:45-49 | a nonce is refused if and only if it was accepted, has not expired and fewer than max_entries were accepted since |
| ReplayGuard.EvictionDropsEarliestExpiring | app/sandbox_worker.py:47-48 | a live entry is dropped only at capacity, and nothing kept expires before it |
| WorkerProtocol.Utf8IsInjective | app/worker_protocol.py:40 | UTF-8 encoding loses nothing |
| WorkerProtocol.OctetsAreShortest | app/worker_protocol.py:40 | the encoding is the shortest, with the lead and continuation octets of section 3 of RFC 3629 |
| WorkerProtocol.SplitInvertsJoin | app/worker_protocol.py:37-45 | a joined message splits back into its parts if and only if none before the body holds a newline |
| WorkerProtocol.MessageIsDecodable | app/worker_protocol.py:29-45 | the message determines method, path, timestamp, nonce and body |
| WorkerProtocol.MessageIsUnambiguous | app/worker_protocol.py:29-45 | two requests have the same message if and only if they bind the same parts |
| WorkerProtocol.MessageLayout | app/worker_protocol.py:37-45 | the message octet by octet, and when encoding it raises |
| WorkerProtocol.UpperExactly | app/worker_protocol.py:39 | small letters become capital, nothing else changes |
| WorkerProtocol.VerifyCaseByCase | app/worker_protocol.py:70-90 | when a signature verifies and when encoding raises, for every secret, signature and digest |
| WorkerProtocol.AsciiOnlyPiecewise | app/worker_protocol.py:88 | of a supplied signature the ASCII characters count, each by itself |
| WorkerProtocol.AsciiOnlyDrops | app/worker_protocol.py:88 | and the others are dropped |
| WorkerProtocol.VerifyAcceptsExactly | app/worker_protocol.py:48-90 | a built signature verifies; it verifies for another request if and only if that binds the same parts |
| WorkerAdmission.Worker.Authenticate | app/sandbox_worker.py:105-196 | the verdict is that of the run so far, and the nonce history is that run's admissions |
| WorkerAdmission.ScreenAdmitsExactly | app/sandbox_worker.py:107-188 | what a request must satisfy to reach the nonce cache, whatever the order of the checks |
| WorkerAdmission.AdmittedIsRecorded | app/sandbox_worker.py:49 | an admission stays in the history at its own place |
| WorkerAdmission.RecordedWasAdmitted | app/sandbox_worker.py:49 | each entry of the history is one arrival's admission |
| WorkerAdmission.AdmittedExactly | app/sandbox_worker.py:105-196 | over whole runs: an arrival is admitted if and only if it passes the screen, the cache has room for an entry, and no earlier admission of its nonce is both unexpired and among the last max_entries |
| WorkerAdmission.LatestAdmissionDecides | app/sandbox_worker.py:189-195 | a screened nonce is admitted again if and only if its most recent admission has expired or been evicted |
| WorkerAdmission.VerdictExactly | app/sandbox_worker.py:105-196 | over whole runs, each verdict is given if and only if its own condition on the request, the clock and the earlier admissions holds |
| WorkerAdmission.PassedOnExactly | app/sandbox_worker.py:107-108 | what reaches a handler: the health check, and genuine requests in good form that no earlier admission blocks |
| WorkerAdmission.LiveNonceIsRefused | app/sandbox_worker.py:189-195 | an admitted nonce stays refused while live and within capacity |
| WorkerAdmission.AdmittedAtMostOnce | app/sandbox_worker.py:92-94 | over whole runs, same timestamp and nonce are never admitted twice while the timestamp leaves room for rounding and the second presentation's delay and the entry is not evicted |
| WorkerAdmission.SignatureHonouredOnce | app/sandbox_worker.py:167-196 | under the same conditions no captured signature is honoured twice, on whatever request it is presented |
| WorkerAdmission.SignatureHonouredOnceInsideTheEdge | app/sandbox_worker.py:167-196 | the same for a second presentation without delay and a timestamp inside the edge |
| WorkerAdmission.AdmittedAgainIff | app/sandbox_worker.py:92-94 | after any run, the request just admitted at time t can be admitted again by a presentation with delay d and nothing in between if and only if t + skew < timestamp + 1 + d and t < timestamp + skew + 1 |
| WorkerAdmission.AdmittedAgainOnTheEdge | app/sandbox_worker.py:167 | without delay: if and only if its timestamp lies on the future edge of the skew window |
| WorkerAdmission.EvictedIsAdmittedAgain | app/sandbox_worker.py:47-48 | with capacity one, a request is admitted again after any other, whatever its timestamp |
| WorkerConcurrency.StepConserves | app/sandbox_worker.py:236-259 | every step keeps permits plus executions in flight |
| WorkerConcurrency.WorkerNeverLeaksPermits | app/sandbox_worker.py:236-259 | in every interleaving: the limit holds, release never raises, a request can start exactly below the limit, idle means all permits back |
| WorkerConcurrency.AnswerExactly | app/sandbox_worker.py:236-259 | in every interleaving a request is answered busy, with success or with failure if and only if it timed out, returned or raised |
| SchemaContracts.ValidateSchemaContract | app/schema_contracts.py:17-107 | reports exactly the reportable violations, and none if and only if the value conforms |
| SchemaContracts.KeywordErrors | app/schema_contracts.py:39-107 | the same past the type check |
| SchemaContracts.ObjectErrors | app/schema_contracts.py:43-65 | required, properties and additionalProperties |
| SchemaContracts.ArrayErrors | app/schema_contracts.py:67-83 | item counts and items |
| SchemaContracts.NumberErrors | app/schema_contracts.py:93-105 | the four numeric bounds |
| SchemaContracts.StringErrors | app/schema_contracts.py:85-91 | the two length bounds |
| SchemaContracts.NoErrorsIffConforms | app/schema_contracts.py:29-37 | an empty report means conformance at every location, whatever the path |
| SchemaContracts.ConformsExactly | app/schema_contracts.py:43-83 | a value conforms if and only if it breaks no keyword itself, every item conforms to the items schema, and every member with a subschema conforms to that |
| SchemaContracts.ReportExactly | app/schema_contracts.py:29-107 | what is reported: a wrong type alone, or the node's own violations and those of every item and every member with a subschema, at their own paths |
| SchemaContracts.ChildExactly | app/schema_contracts.py:51-83 | one step leads to every item and every member with a subschema, and nowhere else |
| SchemaContracts.BoundsExactly | app/schema_contracts.py:68-91 | the four count bounds, an integer or a boolean that counts as one |
| SchemaContracts.NumericBoundsExactly | app/schema_contracts.py:93-105 | the four numeric bounds, likewise |
| Json.MagnitudesExactly | app/schema_contracts.py:40 | booleans and numbers are equal by magnitude, in arrays too |
| SchemaContracts.SomethingIsReported | app/schema_contracts.py:33-37 | stopping at a wrong type never hides that something is wrong |
| SchemaContracts.ReportedStep | app/schema_contracts.py:51-60 | violations below a child are the child's own |
| SchemaContracts.TargetsResolve | app/schema_contracts.py:37-65 | every message extends the given path and points into the value, or at a missing key of an object in it |
| SchemaStandard.TypesAgreeIff | app/schema_contracts.py:6-14 | the type test agrees with section 6.1.1 of JSON Schema Validation except on a float without a fractional part under `integer`, and is never laxer |
| SchemaStandard.StandardEqualityExactly | app/schema_contracts.py:40 | two values are equal by section 4.2.2 of JSON Schema Core if and only if Python finds them equal and no boolean in one stands where the other has a number |
| SchemaStandard.EnumsAgreeIff | app/schema_contracts.py:39-41 | the enum test agrees with section 6.1.2 except on a value found only by taking a boolean for a number, and is never stricter |
| SchemaStandard.KeywordsAgreeIff | app/schema_contracts.py:29-107 | for each of the twelve keywords in a compared form, read as section 6 of JSON Schema Validation and section 10.3.2.3 of JSON Schema Core do: the checker misses exactly values of none of a list of types, enum matches by boolean only, and sizes outside a bound written as a float; it refuses in excess exactly an integral float as an integer |
| SchemaStandard.CountKeywordsExactly | app/schema_contracts.py:67-91 | the four count bounds, where a bound such as `2.0` is an integer by the standard and no bound for the checker |
| SchemaStandard.ConformanceAgreesIff | app/schema_contracts.py:17-107 | a value that passes the checker conforms to the standard if and only if nothing is missed anywhere in it, and one that conforms to the standard passes the checker if and only if nothing in it is refused in excess |
| SchemaStandard.IntegralFloatIsRefused | app/schema_contracts.py:11 | `1.0` is refused as an integer |
| SchemaStandard.TrueIsAcceptedAsOne | app/schema_contracts.py:40 | `true` is accepted where only `1` is allowed |
| SchemaStandard.FloatBoundIsIgnored | app/schema_contracts.py:86-89 | a string of one character is accepted under a least length of `2.0` |
| SchemaStandard.TypeListIsIgnored | app/schema_contracts.py:33-37 | an integer is accepted where a list of types asks for a string or null |
| Executors.SchemaEnforcingExecutor.Execute | app/schema_enforcing_executor.py:22-104 | the delegate runs exactly on conforming inputs; success exactly with conforming output; for each outcome every entry of the result and of its report; a rejection lists exactly the reportable violations |
| Executors.SchemaEnforcingExecutor.RejectOutput | app/schema_enforcing_executor.py:81-95 | a rejected output is moved aside and the other entries kept |
| Executors.PerformanceAwareExecutor.Execute | app/performance_aware_executor.py:27-75 | end to end: final success exactly when inputs conformed, the delegate succeeded and its output conformed; every other entry and the report passed on unchanged, for every outcome |
| Executors.PerformanceAwareExecutor.Annotate | app/performance_aware_executor.py:50-75 | only the output, made an object, and the advice change |
| Executors.PerformanceAwareExecutor.Advise | app/performance_aware_executor.py:51-54 | the confidence reported is, up to rounding, the shrinkage of the output's confidence toward the reliability in the skill's ranking row, and the row is assessed |
| Executors.AdvisoryLayerKeepsContract | app/performance_aware_executor.py:50-59 | the final output meets its schema if and only if the delegate returned an object or the schema allows the empty one |
| Executors.EmptyObjectConforms | app/performance_aware_executor.py:50 | when the empty object conforms, as a check on the schema |
| Executors.ArrayOutputLosesItsContract | app/performance_aware_executor.py:50-59 | a schema and outputs for which it does not |
| EnsembleSelection.PickDiverse | app/shadow_ensemble.py:63-79 | the two loops compute the selection, for any grouping |
| EnsembleSelection.SelectSkills | app/shadow_ensemble.py:22-79 | of the candidates, by their diversity groups, an optimal choice |
| EnsembleSelection.RankedExactly | app/shadow_ensemble.py:37-61 | the candidates are exactly the stored skills that are validated, approved, at an eligible stage and asked for, each once; champions first, then challengers, then shadows, each by family, version and id |
| EnsembleSelection.GroupExactly | app/shadow_ensemble.py:28-34 | which entry of the context decides a skill's group |
| EnsembleSelection.SelectionIsOptimal | app/shadow_ensemble.py:63-79 | size, distinctness, groups covered, and no other choice covers more |
| EnsembleSelection.SelectionTakesTheBest | app/shadow_ensemble.py:66-72 | a covered group is represented by its best-ranked member |
| EnsembleSelection.RankIsTotal | app/shadow_ensemble.py:53-61 | the sort key is a total order that ties only on equal ids |
| Sorting.StrLeExactly | app/shadow_ensemble.py:54-61 | strings compare at the first place where they differ |
| EnsembleSelection.SelectionIgnoresListingOrder | app/shadow_ensemble.py:38-79 | the selection depends on the rows, not on the order they are listed in |
| Consensus.ComputeConsensus | app/shadow_ensemble.py:82-123 | the loop computes the outcome of the ballots, which is concluded as `OutcomeExactly` says |
| Consensus.BallotSignal | app/shadow_ensemble.py:87-92 | which executions vote, and for which signal |
| Consensus.BallotWeight | app/shadow_ensemble.py:93-98 | a vote weighs its stated confidence, calibrated if that is given, clamped, one half if it is no number, times 1.0, 0.8, 0.6 or 0.5 by stage |
| Consensus.OutcomeExactly | app/shadow_ensemble.py:102-123 | hold without weight; else the leader by weight and then name, its share, the rounded weights, and hold below the minimum |
| Consensus.Leader | app/shadow_ensemble.py:112 | the leader outranks every voted signal by weight, then name |
| Consensus.VotesRankByStage | app/shadow_ensemble.py:14 | champions' votes weigh more than challengers', these more than shadows', these more than others' |
| Consensus.WeightsSumToTotal | app/shadow_ensemble.py:98-100 | vote weights add up to the total |
| Consensus.LeaderShare | app/shadow_ensemble.py:112-113 | the leader's agreement lies between one third and one |
| Consensus.MajorityIsUnique | app/shadow_ensemble.py:113-114 | above one half no second signal could meet the threshold |
| Consensus.ConsensusIgnoresOrder | app/shadow_ensemble.py:86-123 | the same result for every order of the executions |
| Consensus.ConsensusIsMonotone | app/shadow_ensemble.py:86-115 | one more vote for the agreed signal, inserted anywhere, keeps signal and consensus and does not lower the agreement |
| Consensus.ShareDoesNotFall | app/shadow_ensemble.py:113 | nor the unrounded agreement |
| Basics.Round6Monotone | app/shadow_ensemble.py:118 | rounding keeps order and the unit interval |
| Basics.Round6IsNear | app/shadow_ensemble.py:118 | a rounded value is within half a millionth |
| Basics.TiesGoToEven | app/shadow_ensemble.py:118 | halfway values go to the even neighbour |
| Recommendations.RecommendSkills | app/recommendations.py:60-173 | returned plus rejected are the eligible skills on every path; what is returned is the front of the ranking; which of the four states is reported; when the call raises |
| Recommendations.NothingKeptIff | app/recommendations.py:89-135 | nothing is recommended exactly when every eligible skill fails a required backtest |
| Recommendations.ScoreAll | app/recommendations.py:89-133 | the scoring loop |
| Recommendations.Recommend | app/recommendations.py:100-124 | a recommendation is of its own skill, scored between 0 and 1 |
| Recommendations.FallbackScore | app/recommendations.py:46-57 | the fallback score lies between 0.5 and 0.8 |
| Recommendations.EligibleExactly | app/recommendations.py:10-25 | which skills are eligible, as conditions on the row and the request |
| Recommendations.FallbackExactly | app/recommendations.py:46-57 | the fallback score, bonus by bonus |
| Recommendations.LastRowNamed | app/recommendations.py:26-34 | a skill's performance is the last row that names it |
| Recommendations.NoRowNamed | app/recommendations.py:101 | and empty without one |
| Recommendations.RecommendExactly | app/recommendations.py:96-124 | the score is the nearest number of the unit interval to the database's or the fallback score plus bonuses |
| Recommendations.RaisesExactly | app/recommendations.py:96-102 | which eligible skill makes the call raise |
| Recommendations.RankingOrder | app/recommendations.py:150-157 | champions first, then by score, then by version |
| Recommendations.RankingIsTopKAndStable | app/recommendations.py:150-158 | nothing omitted outranks what is returned, nothing is lost, ties keep listing order |
| Recommendations.RecommendedChampionsAreUnique | app/recommendations.py:66-70 | under the registry's invariant at most one recommended champion per family, and only live approved skills |
| PerformanceIntelligence.NormalizeRate | app/performance_intelligence.py:37-42 | a rate in the unit interval, absent only if the input is |
| PerformanceIntelligence.MetricsExactly | app/performance_intelligence.py:6-42 | from which entry each of the four metrics is read, and what is made of it |
| PerformanceIntelligence.PerformanceExactly | app/performance_intelligence.py:45-55 | a skill's performance is the first ranking row that names it, or empty |
| PerformanceIntelligence.CalibrationExactly | app/performance_intelligence.py:58-100 | what is reported of any confidence: nothing, the confidence itself, or, up to rounding, reliability + (raw - reliability) * p / (n + p) |
| PerformanceIntelligence.CalibrationIsShrinkage | app/performance_intelligence.py:91-95 | between raw and reliability, at distance exactly scaled by p/(n+p); the clamp never fires |
| PerformanceIntelligence.MoreEvidenceIsCloser | app/performance_intelligence.py:91-92 | more observations bring it closer to reliability |
| PerformanceIntelligence.CalibrationIsMonotone | app/performance_intelligence.py:91-92 | monotone in raw confidence and in reliability |
| PerformanceIntelligence.ReportedCalibrationIsBetween | app/performance_intelligence.py:93-100 | the reported, rounded values keep that order |
| PerformanceIntelligence.AssessPerformanceDecay | app/performance_intelligence.py:103-173 | too few observations, else critical exactly with a severe metric, else degraded exactly with a weak one, else healthy; with exactly the reasons of the metrics, and some reason always |
| PerformanceIntelligence.NoReasonIffNotWeak | app/performance_intelligence.py:130-150 | the metrics give no reason exactly when none is weak |

## Left out

- Registry.SkillRegistry.constructor: adding missing columns to a database written by an older release is not modelled; the table already has all columns.
- Registry.SkillRegistry.Promote: one clock reading serves all row writes of an operation, and the champions found are taken in insertion order; the reason text of a replacement note is kept as the caller's reason plus the successor's id.
- ReplayGuard.NonceReplayGuard.constructor: the lock is not modelled since the worker calls the cache from one event loop.
- WorkerProtocol.MessageIsDecodable: a method with letters outside ASCII whose upper case is ASCII is treated as an encoding error; method, path and header values are assumed to hold no line break.
- WorkerAdmission.AdmittedAtMostOnce: holds under the stated bounds on timestamp, delay and admissions in between; without them a request can be admitted again, exactly as `AdmittedExactly` says.
- VersionApi.RollbackFamilyToSkill: the empty skill id, which cannot be a segment of a request's path.
- SchemaStandard.KeywordsAgreeIff: not compared are forms that the standard does not allow (a boolean or negative bound, an unknown type name, `required` with other than strings), and of those it allows boolean subschemas, `additionalProperties` with a schema, and nodes with `patternProperties` or `prefixItems`; keywords other than the twelve, such as `const` or `allOf`, are outside both readings.
- Executors.SchemaEnforcingExecutor.Execute: an entry named `schema_contract` or `performance_intelligence` in the delegate's own dictionary stays in the model's `fields`, where the source overwrites it with the report and the advice that the model holds apart.
- WorkerConcurrency.WorkerNeverLeaksPermits: cancellation of a request by its client is not modelled.
- SchemaContracts.ValidateSchemaContract: the order of the reported errors and their wording; dictionary keys are visited in any order. NaN and infinities.
- Consensus.ConsensusIgnoresOrder: float rounding, which makes sums depend on their order in the last digits.
- Recommendations.RecommendSkills: the explanatory text and metadata of a response; the four-digit rounding of the fallback score, which is exact on its values.
- `SandboxWorkerLimits.from_env`: four independent range checks on settings; the theorems hold for any settings.
- Free-text search, health and readiness endpoints, response envelopes, routing and request parsing.
- API key roles, performance policy curation, runtime readiness, skill seeding: flat case splits.
- The static validator, containers, processes, the network and Database_Agent: parameters of the model.
