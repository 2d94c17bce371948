/** What a converge pass reports, by the events of the pass. */
module BrownfieldReports {
  import opened Values
  import opened AttemptRecord
  import opened OverlayFields
  import opened Brownfield
  import opened BrownfieldSafety
  import opened BrownfieldAnswers
  import OwnerGuard

  /** The migrations deleted for, in order. */
  function DeletedIds(log: seq<Event>): seq<string> {
    if log == [] then []
    else DeletedIds(log[..|log| - 1]) + if log[|log| - 1].Deleted? then [log[|log| - 1].id] else []
  }

  lemma {:induction false} DeletedIdsConcat(a: seq<Event>, b: seq<Event>)
    ensures DeletedIds(a + b) == DeletedIds(a) + DeletedIds(b)
    decreases |b|
  {
    if b == [] {
      assert a + b == a;
    } else {
      assert (a + b)[..|a + b| - 1] == a + b[..|b| - 1];
      DeletedIdsConcat(a, b[..|b| - 1]);
    }
  }

  lemma {:induction false} NoneDeleted(log: seq<Event>)
    requires forall k | 0 <= k < |log| :: !log[k].Deleted?
    ensures DeletedIds(log) == []
    decreases |log|
  {
    if log != [] {
      NoneDeleted(log[..|log| - 1]);
    }
  }

  /** The owner was read at this tick and is in a state to put the object back. */
  ghost predicate OwnerReadyAt(w: Timeline, tb: Tables, log: seq<Event>, b: nat, s: Status) {
    s.field.ownerApp != "" && ReadyAt(w, tb, log, b, s.field)
  }

  /** Why a status ends in an error: nothing recreates such a migration, or it was attempted and
      nothing was deleted. */
  ghost predicate ErrWhy(w: Timeline, tb: Tables, s: Status, start: nat, log: seq<Event>, e: Failure) {
    && s.state == Pending && s.migration.auto && OwnerReadyAt(w, tb, log, start, s)
    && (forall k | start <= k < |log| :: !log[k].Deleted?)
    && match e
       case StrategyUnsupported(id) =>
         id == s.migration.id && !s.migration.strategy.OrphanRecreate? && forall k | start <= k < |log| :: log[k].ReadApp?
       case AttemptFailed(id, outcome) =>
         id == s.migration.id && outcome != Refusal(true) && WithdrawnBecause(w, tb, s.migration, s.field, start, log, outcome)
  }

  /** Why a status is inconclusive: it is unknown, its owner is not ready, or the probe was refused
      for a passing reason. */
  ghost predicate InconclusiveWhy(w: Timeline, tb: Tables, s: Status, start: nat, log: seq<Event>) {
    && (forall k | start <= k < |log| :: !log[k].Deleted?)
    && (|| (s.state == Unknown && |log| == start)
        || (s.state == Pending && s.migration.auto && !OwnerReadyAt(w, tb, log, start, s) && forall k | start <= k < |log| :: log[k].ReadApp?)
        || (s.state == Pending && s.migration.auto && OwnerReadyAt(w, tb, log, start, s)
            && WithdrawnBecause(w, tb, s.migration, s.field, start, log, Refusal(true))))
  }

  /** What one status adds to the report. */
  ghost predicate Adds(w: Timeline, tb: Tables, s: Status, p: Pass, q: Pass) {
    var id, start, log := s.migration.id, |p.st.log|, q.st.log;
    && p.st.log <= log
    && if id in p.attempted || s.state == Done then q.result == p.result && log == p.st.log
       else if s.state == NotHere then q.result == p.result.(notHere := p.result.notHere + [id]) && log == p.st.log
       else if s.state == Pending && !s.migration.auto then
         q.result == p.result.(deferred := p.result.deferred + [id]) && log == p.st.log
       else
         || (q.result == p.result.(applied := p.result.applied + [id]) && s.state == Pending
             && |log| > start && DeletedAt(w, log, |log| - 1, id, s.field) && forall k | start <= k < |log| - 1 :: !log[k].Deleted?)
         || (q.result == p.result.(inconclusive := p.result.inconclusive + [id]) && InconclusiveWhy(w, tb, s, start, log))
         || exists e :: q.result == p.result.(errs := p.result.errs + [e]) && ErrWhy(w, tb, s, start, log, e)
  }

  lemma WithdrawnSince(w: Timeline, tb: Tables, m: Migration, f: OverlayField, start: nat, later: nat, log: seq<Event>, outcome: Outcome)
    requires WithdrawnBecause(w, tb, m, f, later, log, outcome) && start <= later
    ensures WithdrawnBecause(w, tb, m, f, start, log, outcome)
  {
    hide ProbedAt;
  }

  lemma StepAdds(w: Timeline, tb: Tables, s: Status, p: Pass)
    requires s.state == Pending ==> Declared(tb, s.field) == Some(s.declared)
    ensures Adds(w, tb, s, p, PassStep(w, tb, s, p))
  {
    hide OwnerCheck;
    hide Attempt;
    hide WithdrawnBecause;
    hide ReadyAt;
    hide Declared;
    var q := PassStep(w, tb, s, p);
    if s.migration.id !in p.attempted && s.state == Pending && s.migration.auto {
      var (ready, asked) := OwnerCheck(w, tb, s.field, s.declared, p.st);
      OwnerMeans(w, tb, s.field, s.declared, p.st);
      if ready.Ready? && s.migration.strategy.OrphanRecreate? {
        AttemptAdds(w, tb, s, p, asked);
      } else if ready.Ready? {
        assert ErrWhy(w, tb, s, |p.st.log|, q.st.log, StrategyUnsupported(s.migration.id));
      }
    }
  }

  lemma AttemptAdds(w: Timeline, tb: Tables, s: Status, p: Pass, asked: St)
    requires s.migration.id !in p.attempted && s.state == Pending && s.migration.auto && s.migration.strategy.OrphanRecreate?
    requires OwnerCheck(w, tb, s.field, s.declared, p.st) == (OwnerGuard.Ready, asked)
    requires OwnerReadyAt(w, tb, asked.log, |p.st.log|, s) && |asked.log| > |p.st.log|
    requires p.st.log <= asked.log && forall k | |p.st.log| <= k < |asked.log| :: asked.log[k].ReadApp?
    ensures Adds(w, tb, s, p, PassStep(w, tb, s, p))
  {
    hide OwnerCheck;
    hide Attempt;
    hide WithdrawnBecause;
    hide ReadyAt;
    var q, start := PassStep(w, tb, s, p), |p.st.log|;
    var (outcome, after) := Attempt(w, tb, s.migration, s.field, asked);
    AttemptMeans(w, tb, s.migration, s.field, asked);
    ReadyStays(w, tb, asked.log, after.log, start, s.field);
    assert q.st == after;
    if !outcome.Gone? {
      WithdrawnSince(w, tb, s.migration, s.field, start, |asked.log|, after.log, outcome);
      if outcome != Refusal(true) {
        assert ErrWhy(w, tb, s, start, after.log, AttemptFailed(s.migration.id, outcome));
      } else {
        assert InconclusiveWhy(w, tb, s, start, after.log);
      }
    } else {
      LastDelete(w, tb, s, asked);
    }
  }

  lemma LastDelete(w: Timeline, tb: Tables, s: Status, st: St)
    requires Attempt(w, tb, s.migration, s.field, st).0.Gone?
    ensures var log := Attempt(w, tb, s.migration, s.field, st).1.log;
            && DeletedAt(w, log, |log| - 1, s.migration.id, s.field)
            && forall k | |st.log| <= k < |log| - 1 :: !log[k].Deleted?
  {
    hide Recreate;
    var recorded := RecordAttempt(w, s.migration.id, st).1;
    RecreateMeans(w, tb, s.migration, s.field, recorded);
  }

  // ── a whole pass ──

  /** A stretch of the log, from tick n on up to a tick, explains an entry of the report. */
  ghost predicate ErrExplained(w: Timeline, tb: Tables, statuses: seq<Status>, start: nat, log: seq<Event>, e: Failure) {
    exists s, n: nat, m: nat :: s in statuses && start <= n <= m <= |log| && ErrWhy(w, tb, s, n, log[..m], e)
  }

  ghost predicate InconclusiveExplained(w: Timeline, tb: Tables, statuses: seq<Status>, start: nat, log: seq<Event>, id: string) {
    exists s, n: nat, m: nat :: s in statuses && s.migration.id == id && start <= n <= m <= |log| && InconclusiveWhy(w, tb, s, n, log[..m])
  }

  predicate Deferred(statuses: seq<Status>, id: string) {
    exists s | s in statuses :: s.migration.id == id && s.state == Pending && !s.migration.auto
  }

  predicate Absent(statuses: seq<Status>, id: string) {
    exists s | s in statuses :: s.migration.id == id && s.state == NotHere
  }

  /** Everything that was added to a report between two points of a pass. */
  ghost predicate Explained(w: Timeline, tb: Tables, statuses: seq<Status>, p: Pass, q: Pass) {
    var start, log, a, b := |p.st.log|, q.st.log, p.result, q.result;
    && p.st.log <= log
    && b.applied == a.applied + DeletedIds(log[start..])
    && a.errs <= b.errs && (forall e | e in b.errs[|a.errs|..] :: ErrExplained(w, tb, statuses, start, log, e))
    && a.inconclusive <= b.inconclusive
    && (forall id | id in b.inconclusive[|a.inconclusive|..] :: InconclusiveExplained(w, tb, statuses, start, log, id))
    && a.deferred <= b.deferred && (forall id | id in b.deferred[|a.deferred|..] :: Deferred(statuses, id))
    && a.notHere <= b.notHere && (forall id | id in b.notHere[|a.notHere|..] :: Absent(statuses, id))
  }

  lemma DeletesWhenApplied(w: Timeline, tb: Tables, s: Status, p: Pass, q: Pass)
    requires Adds(w, tb, s, p, q)
    ensures q.result.applied == p.result.applied + DeletedIds(q.st.log[|p.st.log|..])
  {
    hide WithdrawnBecause;
    hide OwnerReadyAt;
    var events := q.st.log[|p.st.log|..];
    if q.result.applied != p.result.applied {
      var n := |events| - 1;
      NoneDeleted(events[..n]);
      assert DeletedIds(events) == DeletedIds(events[..n]) + [events[n].id];
    } else {
      NoneDeleted(events);
    }
  }

  lemma StepExplained(w: Timeline, tb: Tables, s: Status, p: Pass, q: Pass)
    requires Adds(w, tb, s, p, q)
    ensures Explained(w, tb, [s], p, q)
  {
    DeletesWhenApplied(w, tb, s, p, q);
    hide ErrWhy;
    hide InconclusiveWhy;
    hide DeletedIds;
    assert q.st.log[..|q.st.log|] == q.st.log && s in [s];
  }

  lemma ExplainedMore(w: Timeline, tb: Tables, statuses: seq<Status>, all: seq<Status>, p: Pass, q: Pass, start: nat, log: seq<Event>)
    requires Explained(w, tb, statuses, p, q) && (forall s | s in statuses :: s in all) && start <= |p.st.log| && q.st.log <= log
    ensures forall e | e in q.result.errs[|p.result.errs|..] :: ErrExplained(w, tb, all, start, log, e)
    ensures forall id | id in q.result.inconclusive[|p.result.inconclusive|..] :: InconclusiveExplained(w, tb, all, start, log, id)
    ensures forall id | id in q.result.deferred[|p.result.deferred|..] :: Deferred(all, id)
    ensures forall id | id in q.result.notHere[|p.result.notHere|..] :: Absent(all, id)
  {
    hide ErrWhy;
    hide InconclusiveWhy;
    hide DeletedIds;
    forall e | e in q.result.errs[|p.result.errs|..] ensures ErrExplained(w, tb, all, start, log, e) {
      var s, n: nat, m: nat :| s in statuses && |p.st.log| <= n <= m <= |q.st.log| && ErrWhy(w, tb, s, n, q.st.log[..m], e);
      assert log[..m] == q.st.log[..m];
    }
    forall id | id in q.result.inconclusive[|p.result.inconclusive|..] ensures InconclusiveExplained(w, tb, all, start, log, id) {
      var s, n: nat, m: nat :| s in statuses && s.migration.id == id && |p.st.log| <= n <= m <= |q.st.log| && InconclusiveWhy(w, tb, s, n, q.st.log[..m]);
      assert log[..m] == q.st.log[..m];
    }
  }

  lemma ExplainedThen(w: Timeline, tb: Tables, first: Status, rest: seq<Status>, p: Pass, q: Pass, r: Pass)
    requires Explained(w, tb, [first], p, q) && Explained(w, tb, rest, q, r)
    ensures Explained(w, tb, [first] + rest, p, r)
  {
    hide ErrExplained;
    hide InconclusiveExplained;
    hide Deferred;
    hide Absent;
    hide DeletedIds;
    var all, start := [first] + rest, |p.st.log|;
    var a, b, c := p.result, q.result, r.result;
    assert c.applied == a.applied + DeletedIds(r.st.log[start..]) by {
      DeletedBetween(p.st.log, q.st.log, r.st.log);
      assert c.applied == a.applied + (DeletedIds(q.st.log[start..]) + DeletedIds(r.st.log[|q.st.log|..]));
    }
    ExplainedMore(w, tb, [first], all, p, q, start, r.st.log);
    ExplainedMore(w, tb, rest, all, q, r, start, r.st.log);
    NewInTwo(a.errs, b.errs, c.errs);
    NewInTwo(a.inconclusive, b.inconclusive, c.inconclusive);
    NewInTwo(a.deferred, b.deferred, c.deferred);
    NewInTwo(a.notHere, b.notHere, c.notHere);
  }

  lemma DeletedBetween(p: seq<Event>, q: seq<Event>, r: seq<Event>)
    requires p <= q <= r
    ensures DeletedIds(r[|p|..]) == DeletedIds(q[|p|..]) + DeletedIds(r[|q|..])
  {
    hide DeletedIds;
    assert r[|p|..] == q[|p|..] + r[|q|..];
    DeletedIdsConcat(q[|p|..], r[|q|..]);
  }

  lemma NewInTwo<T>(a: seq<T>, b: seq<T>, c: seq<T>)
    requires a <= b <= c
    ensures a <= c && forall x | x in c[|a|..] :: x in b[|a|..] || x in c[|b|..]
  {
    assert c[|a|..] == b[|a|..] + c[|b|..];
  }

  lemma {:induction false} PassExplained(w: Timeline, tb: Tables, statuses: seq<Status>, p: Pass)
    requires forall s | s in statuses && s.state == Pending :: Declared(tb, s.field) == Some(s.declared)
    ensures Explained(w, tb, statuses, p, PassOver(w, tb, statuses, p))
    decreases |statuses|
  {
    hide PassStep;
    hide Adds;
    if statuses == [] {
      assert p.st.log[|p.st.log|..] == [];
    } else {
      var s, q := statuses[0], PassStep(w, tb, statuses[0], p);
      StepAdds(w, tb, s, p);
      StepExplained(w, tb, s, p, q);
      PassExplained(w, tb, statuses[1..], q);
      ExplainedThen(w, tb, s, statuses[1..], p, q, PassOver(w, tb, statuses[1..], q));
      assert [s] + statuses[1..] == statuses;
      hide Explained;
    }
  }

  lemma {:induction false} StatusesDeclare(w: Timeline, tb: Tables, fields: seq<OverlayField>, st: St)
    ensures var (out, after) := Statuses(w, tb, fields, st);
            && OnlyLooks(st.log, after.log)
            && forall s | s in out && s.state == Pending :: Declared(tb, s.field) == Some(s.declared)
    decreases |fields|
  {
    hide StatusOf;
    hide Declared;
    if fields != [] {
      var f := fields[0];
      if !f.createOnly || f.migration == "" {
        StatusesDeclare(w, tb, fields[1..], st);
      } else {
        StatusDeclares(w, tb, f, st);
        StatusLooks(w, tb, f, st);
        StatusesDeclare(w, tb, fields[1..], StatusOf(w, tb, f, st).1);
      }
    }
  }

  lemma StatusDeclares(w: Timeline, tb: Tables, f: OverlayField, st: St)
    ensures var s := StatusOf(w, tb, f, st).0; s.state == Pending ==> Declared(tb, s.field) == Some(s.declared)
  {
    StatusMeans(w, tb, f, st);
    hide StatusOf;
    hide LackedAt;
    hide CarriesAt;
    hide BlindAt;
  }

  lemma AppliedReads(w: Timeline, tb: Tables, statuses: seq<Status>, attempted: set<string>, st: St, read: St)
    requires OnlyLooks(st.log, read.log) && Explained(w, tb, statuses, Pass(attempted, NOTHING, read), PassOver(w, tb, statuses, Pass(attempted, NOTHING, read)))
    ensures var q := PassOver(w, tb, statuses, Pass(attempted, NOTHING, read)); q.result.applied == DeletedIds(q.st.log[|st.log|..])
  {
    hide ErrExplained;
    hide InconclusiveExplained;
    var q := PassOver(w, tb, statuses, Pass(attempted, NOTHING, read));
    hide PassOver;
    NoneDeleted(read.log[|st.log|..]);
    DeletedBetween(st.log, read.log, q.st.log);
    hide DeletedIds;
  }

  /** One pass of the unattended driver: `applied` lists the deletes it made, in order, and every
      other entry has its reason in the pass: the statuses it read, the owner it read, and the
      attempt it withdrew. */
  lemma PassReports(w: Timeline, tb: Tables, attempted: set<string>, st: St)
    ensures var (statuses, read) := Statuses(w, tb, tb.fields, st);
            var q := ApplyPending(w, tb, attempted, st);
            && OnlyLooks(st.log, read.log) && Explained(w, tb, statuses, Pass(attempted, NOTHING, read), q)
            && q.result.applied == DeletedIds(q.st.log[|st.log|..])
  {
    hide Explained;
    hide Evidence;
    var (statuses, read) := Statuses(w, tb, tb.fields, st);
    StatusesDeclare(w, tb, tb.fields, st);
    PassExplained(w, tb, statuses, Pass(attempted, NOTHING, read));
    AppliedReads(w, tb, statuses, attempted, st, read);
  }

  // ── nothing goes unreported ──

  function IdOf(e: Failure): string {
    e.id
  }

  predicate Told(r: ApplyResult, id: string) {
    id in r.applied || id in r.deferred || id in r.inconclusive || id in r.notHere || exists e | e in r.errs :: IdOf(e) == id
  }

  lemma StepTells(w: Timeline, tb: Tables, s: Status, p: Pass)
    requires s.state == Pending ==> Declared(tb, s.field) == Some(s.declared)
    ensures var q := PassStep(w, tb, s, p);
            && (forall id :: Told(p.result, id) ==> Told(q.result, id))
            && (s.migration.id !in p.attempted && s.state != Done ==> Told(q.result, s.migration.id))
            && (forall x | x in q.attempted :: x in p.attempted || Told(q.result, x) || x == Warned(s.migration.id))
  {
    StepAdds(w, tb, s, p);
    Marks(w, tb, s, p);
    var q := PassStep(w, tb, s, p);
    hide PassStep;
    hide WithdrawnBecause;
    hide OwnerReadyAt;
    forall id | Told(p.result, id) ensures Told(q.result, id) {
      if e :| e in p.result.errs && IdOf(e) == id {
        assert e in q.result.errs;
      }
    }
    if e :| q.result == p.result.(errs := p.result.errs + [e]) && ErrWhy(w, tb, s, |p.st.log|, q.st.log, e) {
      assert e in q.result.errs && IdOf(e) == s.migration.id;
    }
  }

  lemma Marks(w: Timeline, tb: Tables, s: Status, p: Pass)
    ensures PassStep(w, tb, s, p).attempted <= p.attempted + {s.migration.id, Warned(s.migration.id)}
    ensures s.state == Done || s.migration.id in p.attempted ==> PassStep(w, tb, s, p).attempted == p.attempted
  {
    hide OwnerCheck;
    hide Attempt;
  }

  /** Every status that is not done, and that the run has not tried before, is in the report,
      provided no migration is called like the mark of another one's warning. */
  lemma {:induction false} EveryStatusIsTold(w: Timeline, tb: Tables, statuses: seq<Status>, p: Pass)
    requires forall s | s in statuses && s.state == Pending :: Declared(tb, s.field) == Some(s.declared)
    requires forall s, t | s in statuses && t in statuses :: s.migration.id != Warned(t.migration.id)
    ensures var q := PassOver(w, tb, statuses, p);
            && (forall id :: Told(p.result, id) ==> Told(q.result, id))
            && (forall s | s in statuses && s.state != Done && s.migration.id !in p.attempted :: Told(q.result, s.migration.id))
    decreases |statuses|
  {
    hide PassStep;
    hide Told;
    if statuses != [] {
      var s, q := statuses[0], PassStep(w, tb, statuses[0], p);
      StepTells(w, tb, s, p);
      EveryStatusIsTold(w, tb, statuses[1..], q);
    }
  }

  /** The proviso is needed: warnings and attempts share one map of marks, so once `a` has been warned
      about, a migration called "warned:a" is passed over without a word. */
  lemma WarningNameIsSkipped(w: Timeline, tb: Tables, a: Status, b: Status, st: St)
    requires a.state == Unknown && b.migration.id == "warned:" + a.migration.id && b.state != Done
    ensures var q := PassOver(w, tb, [a, b], Pass({}, NOTHING, st));
            !Told(q.result, b.migration.id) && q.st == st
  {
    hide OwnerCheck;
    hide Attempt;
    var p := Pass({}, NOTHING, st);
    var q := PassStep(w, tb, a, p);
    assert q.attempted == {Warned(a.migration.id)} && q.result == NOTHING.(inconclusive := [a.migration.id]);
    assert [a, b][1..] == [b] && [b][1..] == [];
    assert PassStep(w, tb, b, q) == q;
    hide PassStep;
    assert PassOver(w, tb, [b], q) == PassOver(w, tb, [], q) == q;
    assert |b.migration.id| > |a.migration.id|;
  }

  /** Only an attempt, or a migration nothing recreates, is struck from the rest of the run: whatever
      else a status says, the next poll looks again. */
  lemma StepLatches(w: Timeline, tb: Tables, s: Status, p: Pass)
    requires s.state == Pending ==> Declared(tb, s.field) == Some(s.declared)
    requires s.migration.id !in p.attempted
    ensures var q := PassStep(w, tb, s, p);
            s.migration.id in q.attempted <==>
            s.state == Pending && s.migration.auto && OwnerReadyAt(w, tb, q.st.log, |p.st.log|, s)
  {
    hide OwnerCheck;
    hide Attempt;
    hide ReadyAt;
    hide Declared;
    assert |Warned(s.migration.id)| > |s.migration.id|;
    var (ready, asked) := OwnerCheck(w, tb, s.field, s.declared, p.st);
    if s.state == Pending && s.migration.auto {
      OwnerMeans(w, tb, s.field, s.declared, p.st);
      AttemptMeans(w, tb, s.migration, s.field, asked);
      if s.field.ownerApp != "" {
        ReadyStays(w, tb, asked.log, PassStep(w, tb, s, p).st.log, |p.st.log|, s.field);
      }
    }
  }
}
