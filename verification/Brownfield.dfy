/** The migration engine as a protocol. A cluster is a timeline of snapshots chosen by somebody
    else, Argo included; every call the engine makes is answered by the snapshot of that tick and
    adds one event to the log, so the length of the log is the time. */
module Brownfield {
  import opened Values
  import opened AttemptRecord
  import opened OverlayFields
  import OwnerGuard

  // ── the tables the engine is compiled with ──

  datatype Strategy = OrphanRecreate | OtherStrategy(name: string)

  datatype Migration = Migration(id: string, strategy: Strategy, auto: bool)

  datatype ObjectKey = ObjectKey(kind: string, namespace: string, name: string)

  datatype OverlayField = OverlayField(
    app: string,
    value: seq<string>,
    target: ObjectKey,
    live: seq<Segment>,
    how: OverlayMatch,
    ownerApp: string,
    createOnly: bool,
    migration: string)

  /** The registry, the field map, the declared overlay, each row's patch builder (None when it
      fails or its output does not decode), and the %v printer. */
  datatype Tables = Tables(
    registry: seq<Migration>,
    fields: seq<OverlayField>,
    raw: map<string, Fields>,
    patch: (OverlayField, Fields) -> Option<Fields>,
    show: Value -> string)

  function MigrationFor(registry: seq<Migration>, id: string): Option<Migration> {
    if registry == [] then None
    else if registry[0].id == id then Some(registry[0])
    else MigrationFor(registry[1..], id)
  }

  function RawValues(tb: Tables, app: string): Fields {
    if app in tb.raw then tb.raw[app] else map[]
  }

  function Declared(tb: Tables, f: OverlayField): Option<Value> {
    Lookup(Map(RawValues(tb, f.app)), f.value)
  }

  // ── what the cluster answers at one tick ──

  datatype ObjectAnswer = NoAnswer | NotThere | Undecodable | Object(fields: Fields)

  datatype AppAnswer = AppNotRead | AppNotParsed | App(app: OwnerGuard.Application)

  datatype ProbeAnswer = Accepted | Refused(immutable: bool, transient: bool)

  /** A write that reports failure may still have been applied; a failed delete has deleted
      nothing. `pause` is the time a call takes, in seconds. */
  datatype World = World(
    objects: ObjectKey -> ObjectAnswer,
    recordAnswers: bool,
    apps: string -> AppAnswer,
    probe: (ObjectKey, Fields) -> ProbeAnswer,
    writeOk: bool,
    writeApplied: bool,
    deleteOk: bool,
    pause: nat)

  type Timeline = nat -> World

  // ── what the engine does ──

  /** A read of a record notes whether it was answered and whether there was one to read. */
  datatype Event =
    | ReadObject(key: ObjectKey)
    | ReadRecord(id: string, answered: bool, there: bool)
    | ReadApp(name: string)
    | Probed(key: ObjectKey)
    | Recorded(id: string)
    | Cleared(id: string, forced: bool)
    | Deleted(id: string, key: ObjectKey, recorded: bool)
    | DeleteFailed(id: string)

  /** The record store and the log; the log is a history, no engine decision reads it. */
  datatype St = St(store: Store, log: seq<Event>)

  function Now(st: St): nat {
    |st.log|
  }

  function Tick(st: St, e: Event): St {
    st.(log := st.log + [e])
  }

  // ── one migration's status ──

  datatype State = Done | Pending | NotHere | Unknown

  datatype Status = Status(migration: Migration, field: OverlayField, state: State, advisory: bool, declared: Value)

  predicate LacksValue(tb: Tables, f: OverlayField, declared: Value, live: Fields) {
    Delivered(f.how, LiveAt(Map(live), f.live), declared, tb.show) == Verdict(false, true)
  }

  /** migrationStatus: the record is read only for an object that demonstrably lacks the value,
      and a record that cannot be read counts as none. */
  function ReadStatus(w: Timeline, tb: Tables, m: Migration, f: OverlayField, st: St): (Status, St) {
    var unknown := Status(m, f, Unknown, false, Null);
    if Declared(tb, f).None? then (unknown, st)
    else
      var declared := Declared(tb, f).value;
      var asked := Tick(st, ReadObject(f.target));
      var plain := (state: State) => Status(m, f, state, false, declared);
      match w(Now(st)).objects(f.target)
      case NoAnswer => (plain(Unknown), asked)
      case Undecodable => (plain(Unknown), asked)
      case NotThere => (plain(NotHere), asked)
      case Object(live) =>
        var v := Delivered(f.how, LiveAt(Map(live), f.live), declared, tb.show);
        if !v.readable then (plain(Unknown), asked)
        else if v.matched then (plain(Done), asked)
        else
          var answered := w(Now(asked)).recordAnswers;
          var looked := Tick(asked, ReadRecord(m.id, answered, m.id in st.store.data));
          if answered && m.id in st.store.data then (Status(m, f, Unknown, true, declared), looked)
          else (plain(Pending), looked)
  }

  /** MigrationStatuses walks the field map, not the registry. */
  function Statuses(w: Timeline, tb: Tables, fields: seq<OverlayField>, st: St): (seq<Status>, St)
    decreases |fields|
  {
    if fields == [] then ([], st)
    else
      var f := fields[0];
      if !f.createOnly || f.migration == "" then Statuses(w, tb, fields[1..], st)
      else
        var (first, next) := StatusOf(w, tb, f, st);
        var (rest, last) := Statuses(w, tb, fields[1..], next);
        ([first] + rest, last)
  }

  function StatusOf(w: Timeline, tb: Tables, f: OverlayField, st: St): (Status, St) {
    var m := MigrationFor(tb.registry, f.migration);
    if m.None? then (Status(Migration(f.migration, OtherStrategy(""), false), f, Unknown, false, Null), st)
    else ReadStatus(w, tb, m.value, f, st)
  }

  // ── the guards in front of the delete ──

  /** ownerCanRecreate. */
  function OwnerCheck(w: Timeline, tb: Tables, f: OverlayField, declared: Value, st: St): (OwnerGuard.Readiness, St) {
    if f.ownerApp == "" then (OwnerGuard.NoOwnerNamed, st)
    else
      var asked := Tick(st, ReadApp(f.ownerApp));
      match w(Now(st)).apps(f.ownerApp)
      case AppNotRead => (OwnerGuard.NotRead, asked)
      case AppNotParsed => (OwnerGuard.NotParsed, asked)
      case App(app) => (OwnerGuard.Verdict(app, f.value, declared, tb.show), asked)
  }

  /** The probe createOnlyStillHolds may send: built from the row and about the row's field. */
  function ProbePatch(tb: Tables, f: OverlayField): Option<Fields> {
    if f.app !in tb.raw || Declared(tb, f).None? then None
    else
      var p := tb.patch(f, tb.raw[f.app]);
      if p.Some? && PatchTargetsField(p.value, f.live, f.how, Declared(tb, f).value, tb.show) == OnTarget then p else None
  }

  datatype Outcome = Gone | NotRecorded | Refusal(inconclusive: bool)

  /** recreate: the probe must be refused for immutability, and then the object is deleted. */
  function Recreate(w: Timeline, tb: Tables, m: Migration, f: OverlayField, st: St): (Outcome, St) {
    if !m.strategy.OrphanRecreate? || ProbePatch(tb, f).None? then (Refusal(false), st)
    else
      var probed := Tick(st, Probed(f.target));
      match w(Now(st)).probe(f.target, ProbePatch(tb, f).value)
      case Accepted => (Refusal(false), probed)
      case Refused(immutable, transient) =>
        if !immutable then (Refusal(transient), probed)
        else if w(Now(probed)).deleteOk then (Gone, Tick(probed, Deleted(m.id, f.target, m.id in st.store.data)))
        else (Refusal(false), Tick(probed, DeleteFailed(m.id)))
  }

  function RecordAttempt(w: Timeline, id: string, st: St): (bool, St) {
    var now := w(Now(st));
    var after := if now.writeOk || now.writeApplied then Record(st.store, id, Now(st)) else st.store;
    (now.writeOk, Tick(st.(store := after), Recorded(id)))
  }

  function ClearAttempt(w: Timeline, id: string, forced: bool, st: St): St {
    var now := w(Now(st));
    var after := if now.writeOk || now.writeApplied then Clear(st.store, id) else st.store;
    Tick(st.(store := after), Cleared(id, forced))
  }

  /** Both drivers: record, then recreate, and take the record back when nothing was deleted. */
  function Attempt(w: Timeline, tb: Tables, m: Migration, f: OverlayField, st: St): (Outcome, St) {
    var (ok, recorded) := RecordAttempt(w, m.id, st);
    if !ok then (NotRecorded, recorded)
    else
      var (outcome, after) := Recreate(w, tb, m, f, recorded);
      (outcome, if outcome.Gone? then after else ClearAttempt(w, m.id, false, after))
  }

  // ── the unattended driver ──

  datatype Failure = StrategyUnsupported(id: string) | AttemptFailed(id: string, outcome: Outcome)

  datatype ApplyResult = ApplyResult(
    applied: seq<string>,
    deferred: seq<string>,
    inconclusive: seq<string>,
    notHere: seq<string>,
    errs: seq<Failure>)

  const NOTHING := ApplyResult([], [], [], [], [])

  function Warned(id: string): string {
    "warned:" + id
  }

  /** A pass in progress: what the run has tried so far, what it reports, where the cluster is. */
  datatype Pass = Pass(attempted: set<string>, result: ApplyResult, st: St)

  function PassStep(w: Timeline, tb: Tables, s: Status, p: Pass): Pass {
    var id, r := s.migration.id, p.result;
    if id in p.attempted then p
    else if s.state == NotHere then p.(result := r.(notHere := r.notHere + [id]))
    else if s.state == Unknown then
      p.(result := r.(inconclusive := r.inconclusive + [id]), attempted := p.attempted + {Warned(id)})
    else if s.state == Done then p
    else if !s.migration.auto then
      p.(result := r.(deferred := r.deferred + [id]), attempted := p.attempted + {Warned(id)})
    else
      var (ready, asked) := OwnerCheck(w, tb, s.field, s.declared, p.st);
      if !ready.Ready? then
        Pass(p.attempted + {Warned(id)}, r.(inconclusive := r.inconclusive + [id]), asked)
      else if !s.migration.strategy.OrphanRecreate? then
        Pass(p.attempted + {id}, r.(errs := r.errs + [StrategyUnsupported(id)]), asked)
      else
        var (outcome, after) := Attempt(w, tb, s.migration, s.field, asked);
        var report :=
          if outcome.Gone? then r.(applied := r.applied + [id])
          else if outcome.Refusal? && outcome.inconclusive then r.(inconclusive := r.inconclusive + [id])
          else r.(errs := r.errs + [AttemptFailed(id, outcome)]);
        Pass(p.attempted + {id}, report, after)
  }

  function PassOver(w: Timeline, tb: Tables, statuses: seq<Status>, p: Pass): Pass
    decreases |statuses|
  {
    if statuses == [] then p else PassOver(w, tb, statuses[1..], PassStep(w, tb, statuses[0], p))
  }

  /** ApplyPending: every status is computed before the first attempt. */
  function ApplyPending(w: Timeline, tb: Tables, attempted: set<string>, st: St): Pass {
    var (statuses, read) := Statuses(w, tb, tb.fields, st);
    PassOver(w, tb, statuses, Pass(attempted, NOTHING, read))
  }

  /** One converge run: a pass per poll over the same record of attempts, to which the caller may
      add marks of its own between polls. */
  function Converge(w: Timeline, tb: Tables, marks: seq<set<string>>, attempted: set<string>, st: St): Pass
    decreases |marks|
  {
    if marks == [] then Pass(attempted, NOTHING, st)
    else
      var p := ApplyPending(w, tb, attempted + marks[0], st);
      Converge(w, tb, marks[1..], p.attempted, p.st)
  }

  // ── the operator's driver ──

  datatype Answer =
    | NoSuchMigration
    | NothingToDo
    | Planned
    | NotAnswered
    | NeedsForce
    | NotConfirmed
    | OwnerNotReady
    | Unsupported
    | Withdrawn(outcome: Outcome)
    | Landed
    | NotBackInTime

  function FirstFor(statuses: seq<Status>, id: string): Option<Status> {
    if statuses == [] then None
    else if statuses[0].migration.id == id then Some(statuses[0])
    else FirstFor(statuses[1..], id)
  }

  const RECREATE_BUDGET := 360
  const RECREATE_INTERVAL := 10

  /** The wait for Argo: read, give up once the budget is spent, else sleep and read again. */
  function Await(w: Timeline, tb: Tables, m: Migration, f: OverlayField, elapsed: nat, st: St): (Answer, St)
    decreases RECREATE_BUDGET - elapsed
  {
    var (s, read) := ReadStatus(w, tb, m, f, st);
    var now := elapsed + w(Now(st)).pause;
    if s.state == Done then (Landed, read)
    else if now >= RECREATE_BUDGET then (NotBackInTime, read)
    else Await(w, tb, m, f, now + RECREATE_INTERVAL, read)
  }

  /** RunMigration from the point where the plan has been printed. */
  function Execute(w: Timeline, tb: Tables, s: Status, confirmed: bool, dryRun: bool, force: bool, st: St): (Answer, St) {
    var (ready, asked) := OwnerCheck(w, tb, s.field, s.declared, st);
    if dryRun then (Planned, asked)
    else if !confirmed then (NotConfirmed, asked)
    else if !ready.Ready? then (OwnerNotReady, asked)
    else if !s.migration.strategy.OrphanRecreate? then (Unsupported, asked)
    else
      var clean := if force then ClearAttempt(w, s.migration.id, true, asked) else asked;
      var (outcome, after) := Attempt(w, tb, s.migration, s.field, clean);
      if outcome.Gone? then Await(w, tb, s.migration, s.field, 0, after) else (Withdrawn(outcome), after)
  }

  function RunMigration(w: Timeline, tb: Tables, id: string, confirmed: bool, dryRun: bool, force: bool, st: St): (Answer, St) {
    var (statuses, read) := Statuses(w, tb, tb.fields, st);
    var found := FirstFor(statuses, id);
    if found.None? then (NoSuchMigration, read)
    else
      var s := found.value;
      if s.state == Done || s.state == NotHere then (NothingToDo, read)
      else if s.state == Unknown && dryRun then (Planned, read)
      else if s.state == Unknown && !s.advisory then (NotAnswered, read)
      else if s.state == Unknown && !force then (NeedsForce, read)
      else Execute(w, tb, s, confirmed, dryRun, force, read)
  }

  // ── whole histories ──

  datatype Run =
    | ConvergeRun(marks: seq<set<string>>)
    | OperatorRun(id: string, confirmed: bool, dryRun: bool, force: bool)

  function RunOnce(w: Timeline, tb: Tables, run: Run, st: St): St {
    match run
    case ConvergeRun(marks) => Converge(w, tb, marks, {}, st).st
    case OperatorRun(id, confirmed, dryRun, force) => RunMigration(w, tb, id, confirmed, dryRun, force, st).1
  }

  function RunAll(w: Timeline, tb: Tables, runs: seq<Run>, st: St): St
    decreases |runs|
  {
    if runs == [] then st else RunAll(w, tb, runs[1..], RunOnce(w, tb, runs[0], st))
  }
}
