/** The engine as it runs: methods that call the cluster one request at a time, each proved to do
    what the protocol's specification function says. */
module BrownfieldEngine {
  import opened Values
  import opened AttemptRecord
  import opened OverlayFields
  import opened Brownfield
  import OwnerGuard

  /** The caller's record of what a run has tried, shared by every pass of that run. */
  class Attempts {
    var ids: set<string>

    constructor ()
      ensures ids == {}
    {
      ids := {};
    }
  }

  class Engine {
    const w: Timeline
    const tb: Tables
    var store: Store
    var log: seq<Event>

    constructor (w: Timeline, tb: Tables, store: Store)
      ensures this.w == w && this.tb == tb && Here() == St(store, [])
    {
      this.w, this.tb, this.store, this.log := w, tb, store, [];
    }

    function Here(): St
      reads this
    {
      St(store, log)
    }

    method FindMigration(id: string) returns (m: Option<Migration>)
      ensures m == MigrationFor(tb.registry, id)
    {
      var i := 0;
      while i < |tb.registry|
        invariant i <= |tb.registry| && MigrationFor(tb.registry, id) == MigrationFor(tb.registry[i..], id)
      {
        if tb.registry[i].id == id {
          return Some(tb.registry[i]);
        }
        i := i + 1;
      }
      m := None;
    }

    /** migrationStatus. */
    method MigrationStatus(m: Migration, f: OverlayField) returns (s: Status)
      modifies this
      ensures (s, Here()) == ReadStatus(w, tb, m, f, old(Here()))
    {
      hide Delivered;
      hide LiveAt;
      hide Lookup;
      var declared := RawValue(RawValues(tb, f.app), f.value);
      if declared.None? {
        return Status(m, f, Unknown, false, Null);
      }
      s := Status(m, f, Unknown, false, declared.value);
      var answer := w(|log|).objects(f.target);
      log := log + [ReadObject(f.target)];
      match answer {
        case NoAnswer =>
        case Undecodable =>
        case NotThere => s := s.(state := NotHere);
        case Object(fields) =>
          var found := LiveValue(fields, f.live);
          var v := Delivered(f.how, found, declared.value, tb.show);
          if v.readable && v.matched {
            s := s.(state := Done);
          } else if v.readable {
            var attempted := AttemptRecorded(m.id);
            s := if attempted then s.(advisory := true) else s.(state := Pending);
          }
      }
    }

    /** attemptRecord: a read that fails answers "no record". */
    method AttemptRecorded(id: string) returns (found: bool)
      modifies this
      ensures var answered := old(w(|log|)).recordAnswers;
              found == (answered && id in old(store.data)) && Here() == Tick(old(Here()), ReadRecord(id, answered, id in old(store.data)))
    {
      var answered := w(|log|).recordAnswers;
      log := log + [ReadRecord(id, answered, id in store.data)];
      found := answered && id in store.data;
    }

    method MigrationStatuses() returns (out: seq<Status>)
      modifies this
      ensures (out, Here()) == Statuses(w, tb, tb.fields, old(Here()))
    {
      hide StatusOf;
      out := [];
      ghost var whole := Statuses(w, tb, tb.fields, Here());
      assert tb.fields[0..] == tb.fields;
      for i := 0 to |tb.fields|
        invariant whole.0 == out + Statuses(w, tb, tb.fields[i..], Here()).0
        invariant whole.1 == Statuses(w, tb, tb.fields[i..], Here()).1
      {
        var f := tb.fields[i];
        ghost var here, seen := Here(), out;
        assert tb.fields[i..][1..] == tb.fields[i + 1..];
        if f.createOnly && f.migration != "" {
          var s := StatusFor(f);
          out := out + [s];
          assert whole.0 == seen + ([s] + Statuses(w, tb, tb.fields[i + 1..], Here()).0);
        }
      }
      assert Statuses(w, tb, tb.fields[|tb.fields|..], Here()) == ([], Here());
      assert whole == (whole.0, whole.1) && whole.0 == out;
    }

    method StatusFor(f: OverlayField) returns (s: Status)
      modifies this
      ensures (s, Here()) == StatusOf(w, tb, f, old(Here()))
    {
      hide ReadStatus;
      var m := FindMigration(f.migration);
      if m.None? {
        return Status(Migration(f.migration, OtherStrategy(""), false), f, Unknown, false, Null);
      }
      s := MigrationStatus(m.value, f);
    }

    method OwnerCanRecreate(f: OverlayField, declared: Value) returns (ready: OwnerGuard.Readiness)
      modifies this
      ensures (ready, Here()) == OwnerCheck(w, tb, f, declared, old(Here()))
    {
      if f.ownerApp == "" {
        return OwnerGuard.NoOwnerNamed;
      }
      var answer := w(|log|).apps(f.ownerApp);
      log := log + [ReadApp(f.ownerApp)];
      ready := match answer
        case AppNotRead => OwnerGuard.NotRead
        case AppNotParsed => OwnerGuard.NotParsed
        case App(app) => OwnerGuard.Verdict(app, f.value, declared, tb.show);
    }

    /** createOnlyStillHolds, then DeleteOrphan. */
    method RecreateObject(m: Migration, f: OverlayField) returns (outcome: Outcome)
      modifies this
      ensures (outcome, Here()) == Recreate(w, tb, m, f, old(Here()))
    {
      hide ProbePatch;
      var patch := ProbePatch(tb, f);
      if !m.strategy.OrphanRecreate? || patch.None? {
        return Refusal(false);
      }
      var answer := w(|log|).probe(f.target, patch.value);
      log := log + [Probed(f.target)];
      if answer.Accepted? {
        return Refusal(false);
      }
      if !answer.immutable {
        return Refusal(answer.transient);
      }
      if w(|log|).deleteOk {
        log := log + [Deleted(m.id, f.target, m.id in store.data)];
        return Gone;
      }
      log := log + [DeleteFailed(m.id)];
      outcome := Refusal(false);
    }

    method WriteRecord(id: string) returns (ok: bool)
      modifies this
      ensures (ok, Here()) == RecordAttempt(w, id, old(Here()))
    {
      var now := w(|log|);
      if now.writeOk || now.writeApplied {
        store := Record(store, id, |log|);
      }
      log := log + [Recorded(id)];
      ok := now.writeOk;
    }

    method ClearRecord(id: string, forced: bool)
      modifies this
      ensures Here() == ClearAttempt(w, id, forced, old(Here()))
    {
      var now := w(|log|);
      if now.writeOk || now.writeApplied {
        store := Clear(store, id);
      }
      log := log + [Cleared(id, forced)];
    }

    /** One status of ApplyPending's loop. */
    method ApplyOne(s: Status, attempted: Attempts, r: ApplyResult) returns (report: ApplyResult)
      modifies this, attempted
      ensures Pass(attempted.ids, report, Here()) == PassStep(w, tb, s, Pass(old(attempted.ids), r, old(Here())))
    {
      hide OwnerCheck;
      hide Recreate;
      report := r;
      var id := s.migration.id;
      if id in attempted.ids {
        return;
      }
      if s.state == NotHere {
        report := r.(notHere := r.notHere + [id]);
        return;
      }
      if s.state == Unknown {
        report := r.(inconclusive := r.inconclusive + [id]);
        attempted.ids := attempted.ids + {Warned(id)};
        return;
      }
      if s.state != Pending {
        return;
      }
      if !s.migration.auto {
        report := r.(deferred := r.deferred + [id]);
        attempted.ids := attempted.ids + {Warned(id)};
        return;
      }
      var ready := OwnerCanRecreate(s.field, s.declared);
      if !ready.Ready? {
        report := r.(inconclusive := r.inconclusive + [id]);
        attempted.ids := attempted.ids + {Warned(id)};
        return;
      }
      attempted.ids := attempted.ids + {id};
      if !s.migration.strategy.OrphanRecreate? {
        report := r.(errs := r.errs + [StrategyUnsupported(id)]);
        return;
      }
      var ok := WriteRecord(id);
      if !ok {
        report := r.(errs := r.errs + [AttemptFailed(id, NotRecorded)]);
        return;
      }
      var outcome := RecreateObject(s.migration, s.field);
      if outcome.Gone? {
        report := r.(applied := r.applied + [id]);
        return;
      }
      ClearRecord(id, false);
      if outcome.Refusal? && outcome.inconclusive {
        report := r.(inconclusive := r.inconclusive + [id]);
      } else {
        report := r.(errs := r.errs + [AttemptFailed(id, outcome)]);
      }
    }

    /** ApplyPending. A caller that passes no record gets a fresh one, and no memory of the pass. */
    method ApplyPendingMigrations(caller: Attempts?) returns (r: ApplyResult)
      modifies this, caller
      ensures var p := ApplyPending(w, tb, if caller == null then {} else old(caller.ids), old(Here()));
              Here() == p.st && r == p.result && (caller != null ==> caller.ids == p.attempted)
    {
      hide PassStep;
      hide Statuses;
      var attempted: Attempts;
      if caller == null {
        attempted := new Attempts();
      } else {
        attempted := caller;
      }
      r := NOTHING;
      ghost var first := attempted.ids;
      var statuses := MigrationStatuses();
      ghost var start := Pass(first, NOTHING, Here());
      for i := 0 to |statuses|
        invariant PassOver(w, tb, statuses, start) == PassOver(w, tb, statuses[i..], Pass(attempted.ids, r, Here()))
      {
        assert statuses[i..][1..] == statuses[i + 1..];
        r := ApplyOne(statuses[i], attempted, r);
      }
    }

    /** A converge run's polls, with one record of attempts for all of them. */
    method RunConverge(marks: seq<set<string>>)
      modifies this
      ensures Here() == Converge(w, tb, marks, {}, old(Here())).st
    {
      hide ApplyPending;
      var attempted := new Attempts();
      ghost var before := Here();
      for i := 0 to |marks|
        invariant fresh(attempted)
        invariant Converge(w, tb, marks, {}, before).st == Converge(w, tb, marks[i..], attempted.ids, Here()).st
      {
        assert marks[i..][1..] == marks[i + 1..];
        attempted.ids := attempted.ids + marks[i];
        var _ := ApplyPendingMigrations(attempted);
      }
    }

    /** The poll loop that ends RunMigration. */
    method AwaitRecreate(m: Migration, f: OverlayField) returns (answer: Answer)
      modifies this
      ensures (answer, Here()) == Await(w, tb, m, f, 0, old(Here()))
    {
      hide ReadStatus;
      var elapsed := 0;
      ghost var before := Here();
      while true
        invariant 0 <= elapsed && Await(w, tb, m, f, 0, before) == Await(w, tb, m, f, elapsed, Here())
        decreases RECREATE_BUDGET - elapsed
      {
        var pause := w(|log|).pause;
        var s := MigrationStatus(m, f);
        elapsed := elapsed + pause;
        if s.state == Done {
          return Landed;
        }
        if elapsed >= RECREATE_BUDGET {
          return NotBackInTime;
        }
        elapsed := elapsed + RECREATE_INTERVAL;
      }
    }

    method ExecutePlan(s: Status, confirmed: bool, dryRun: bool, force: bool) returns (answer: Answer)
      modifies this
      ensures (answer, Here()) == Execute(w, tb, s, confirmed, dryRun, force, old(Here()))
    {
      hide OwnerCheck;
      hide Recreate;
      hide Await;
      var ready := OwnerCanRecreate(s.field, s.declared);
      if dryRun {
        return Planned;
      }
      if !confirmed {
        return NotConfirmed;
      }
      if !ready.Ready? {
        return OwnerNotReady;
      }
      if !s.migration.strategy.OrphanRecreate? {
        return Unsupported;
      }
      if force {
        ClearRecord(s.migration.id, true);
      }
      var ok := WriteRecord(s.migration.id);
      if !ok {
        return Withdrawn(NotRecorded);
      }
      var outcome := RecreateObject(s.migration, s.field);
      if !outcome.Gone? {
        ClearRecord(s.migration.id, false);
        return Withdrawn(outcome);
      }
      answer := AwaitRecreate(s.migration, s.field);
    }

    /** RunMigration. */
    method RunMigrationById(id: string, confirmed: bool, dryRun: bool, force: bool) returns (answer: Answer)
      modifies this
      ensures (answer, Here()) == RunMigration(w, tb, id, confirmed, dryRun, force, old(Here()))
    {
      hide Statuses;
      hide Execute;
      var statuses := MigrationStatuses();
      var i := 0;
      while i < |statuses| && statuses[i].migration.id != id
        invariant i <= |statuses| && FirstFor(statuses, id) == FirstFor(statuses[i..], id)
      {
        i := i + 1;
      }
      if i == |statuses| {
        return NoSuchMigration;
      }
      var s := statuses[i];
      match s.state {
        case Done => return NothingToDo;
        case NotHere => return NothingToDo;
        case Unknown =>
          if dryRun {
            return Planned;
          }
          if !s.advisory {
            return NotAnswered;
          }
          if !force {
            return NeedsForce;
          }
        case Pending =>
      }
      answer := ExecutePlan(s, confirmed, dryRun, force);
    }
  }
}
