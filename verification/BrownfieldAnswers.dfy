/** What each answer of the operator's run stands for: the reads and writes of this run, and what the
    cluster answered to them. */
module BrownfieldAnswers {
  import opened Values
  import opened AttemptRecord
  import opened OverlayFields
  import opened Brownfield
  import opened BrownfieldSafety
  import OwnerGuard

  // ── what one read of a row's object showed ──

  ghost predicate ReadsAt(log: seq<Event>, a: nat, f: OverlayField) {
    a < |log| && log[a] == ReadObject(f.target)
  }

  /** The object was there and carried the declared value. */
  ghost predicate CarriesAt(w: Timeline, tb: Tables, log: seq<Event>, a: nat, f: OverlayField) {
    ReadsAt(log, a, f) && w(a).objects(f.target).Object? && Declared(tb, f).Some? &&
    Delivered(f.how, LiveAt(Map(w(a).objects(f.target).fields), f.live), Declared(tb, f).value, tb.show) == Verdict(true, true)
  }

  /** There was no such object. */
  ghost predicate GoneAt(w: Timeline, log: seq<Event>, a: nat, f: OverlayField) {
    ReadsAt(log, a, f) && w(a).objects(f.target).NotThere?
  }

  /** The read said nothing: no answer, no object in it, or a path that leads nowhere. */
  ghost predicate BlindAt(w: Timeline, tb: Tables, log: seq<Event>, a: nat, f: OverlayField) {
    ReadsAt(log, a, f) && Declared(tb, f).Some? &&
    match w(a).objects(f.target)
    case NoAnswer => true
    case Undecodable => true
    case NotThere => false
    case Object(live) => !Delivered(f.how, LiveAt(Map(live), f.live), Declared(tb, f).value, tb.show).readable
  }

  /** Right after the read the run found this migration's record. */
  ghost predicate TriedAt(log: seq<Event>, a: nat, id: string) {
    a + 1 < |log| && log[a + 1] == ReadRecord(id, true, true)
  }

  /** The migration is registered and its row declares a value. */
  ghost predicate Known(tb: Tables, f: OverlayField) {
    MigrationFor(tb.registry, f.migration).Some? && Declared(tb, f).Some?
  }

  ghost predicate Evidence(w: Timeline, tb: Tables, log: seq<Event>, a: nat, s: Status) {
    var f := s.field;
    && (Known(tb, f) ==> ReadsAt(log, a, f) && s.declared == Declared(tb, f).value)
    && (MigrationFor(tb.registry, f.migration).Some? ==> MigrationFor(tb.registry, f.migration) == Some(s.migration))
    && (s.state == Done <==> Known(tb, f) && CarriesAt(w, tb, log, a, f))
    && (s.state == NotHere <==> Known(tb, f) && GoneAt(w, log, a, f))
    && (s.state == Pending <==> Known(tb, f) && LackedAt(w, tb, log, a, f) && !TriedAt(log, a, f.migration))
    && (s.state == Unknown && s.advisory <==> Known(tb, f) && LackedAt(w, tb, log, a, f) && TriedAt(log, a, f.migration))
    && (s.state == Unknown && !s.advisory <==> !Known(tb, f) || BlindAt(w, tb, log, a, f))
    && (s.state == Pending ==> a + 1 < |log|)
  }

  lemma EvidenceStays(w: Timeline, tb: Tables, log: seq<Event>, longer: seq<Event>, a: nat, s: Status)
    requires log <= longer && Evidence(w, tb, log, a, s)
    ensures Evidence(w, tb, longer, a, s)
  {
    hide Delivered;
    hide LiveAt;
    hide Declared;
    hide MigrationFor;
  }

  /** migrationStatus, by what it read: delivered, gone, lacking without or with a record, or no
      answer that says anything. */
  lemma StatusMeans(w: Timeline, tb: Tables, f: OverlayField, st: St)
    ensures var (s, after) := StatusOf(w, tb, f, st);
            && s.field == f && s.migration.id == f.migration && st.log <= after.log
            && Evidence(w, tb, after.log, |st.log|, s)
  {
    hide Delivered;
    hide LiveAt;
    hide Declared;
    MigrationForHasItsId(tb.registry, f.migration);
    hide MigrationFor;
  }

  // ── the wait, by its own reads ──

  /** The time the cluster took over the reads of objects from a tick on. */
  function Paused(w: Timeline, log: seq<Event>, start: nat): nat
    decreases |log|
  {
    if |log| <= start then 0
    else Paused(w, log[..|log| - 1], start) + (if log[|log| - 1].ReadObject? then w(|log| - 1).pause else 0)
  }

  /** How often the run has looked at an object from a tick on. */
  function Looks(log: seq<Event>, start: nat): nat
    decreases |log|
  {
    if |log| <= start then 0 else Looks(log[..|log| - 1], start) + (if log[|log| - 1].ReadObject? then 1 else 0)
  }

  /** What has passed when the last look came back: every look's own time, and ten seconds' sleep
      between two looks. */
  function Waited(w: Timeline, log: seq<Event>, start: nat): int {
    Paused(w, log, start) + RECREATE_INTERVAL * (Looks(log, start) - 1)
  }

  lemma LooksAppend(w: Timeline, log: seq<Event>, e: Event, start: nat)
    requires start <= |log|
    ensures Paused(w, log + [e], start) == Paused(w, log, start) + if e.ReadObject? then w(|log|).pause else 0
    ensures Looks(log + [e], start) == Looks(log, start) + if e.ReadObject? then 1 else 0
  {
    assert (log + [e])[..|log|] == log;
  }

  /** One look: the object, and its record when the value is lacking. */
  lemma OneLook(w: Timeline, tb: Tables, m: Migration, f: OverlayField, st: St, start: nat)
    requires Declared(tb, f).Some? && start <= |st.log|
    ensures var (s, read) := ReadStatus(w, tb, m, f, st);
            && st.log + [ReadObject(f.target)] <= read.log && |read.log| <= |st.log| + 2
            && (forall k | |st.log| < k < |read.log| :: read.log[k].ReadRecord?)
            && (s.state == Done <==> CarriesAt(w, tb, read.log, |st.log|, f))
            && (s.state == Done ==> |read.log| == |st.log| + 1)
            && Paused(w, read.log, start) == Paused(w, st.log, start) + w(|st.log|).pause
            && Looks(read.log, start) == Looks(st.log, start) + 1
  {
    hide Delivered;
    hide LiveAt;
    hide Declared;
    var read := ReadStatus(w, tb, m, f, st).1;
    var looked := st.log + [ReadObject(f.target)];
    LooksAppend(w, st.log, ReadObject(f.target), start);
    if |read.log| > |looked| {
      assert read.log == looked + [read.log[|looked|]];
      LooksAppend(w, looked, read.log[|looked|], start);
    }
  }

  /** The object came back with the value at this tick. */
  ghost predicate BackAt(w: Timeline, tb: Tables, log: seq<Event>, start: nat, a: nat, f: OverlayField) {
    start <= a && CarriesAt(w, tb, log, a, f)
  }

  lemma CarriesStays(w: Timeline, tb: Tables, log: seq<Event>, longer: seq<Event>, a: nat, f: OverlayField)
    requires log <= longer
    ensures a < |log| ==> (CarriesAt(w, tb, longer, a, f) <==> CarriesAt(w, tb, log, a, f))
    ensures a < |longer| && !longer[a].ReadObject? ==> !CarriesAt(w, tb, longer, a, f)
  {
    hide Delivered;
    hide LiveAt;
    hide Declared;
  }

  lemma OutOfLog(w: Timeline, tb: Tables, log: seq<Event>, a: nat, f: OverlayField)
    ensures |log| <= a ==> !CarriesAt(w, tb, log, a, f)
  {
  }

  /** The wait ends with success exactly when one of its looks finds the declared value, which is
      then its last event; it gives up exactly when none does and six minutes are over, and it looks
      again only before they are. */
  lemma {:induction false} AwaitMeans(w: Timeline, tb: Tables, m: Migration, f: OverlayField, elapsed: nat, st: St, start: nat)
    requires Declared(tb, f).Some? && start <= |st.log|
    requires elapsed == Paused(w, st.log, start) + RECREATE_INTERVAL * Looks(st.log, start)
    requires Looks(st.log, start) > 0 ==> elapsed < RECREATE_BUDGET + RECREATE_INTERVAL
    ensures var (answer, last) := Await(w, tb, m, f, elapsed, st);
            && st.log < last.log && answer in {Landed, NotBackInTime}
            && (answer == Landed <==> exists a :: BackAt(w, tb, last.log, |st.log|, a, f))
            && (answer == Landed ==> CarriesAt(w, tb, last.log, |last.log| - 1, f))
            && (answer == NotBackInTime ==> Waited(w, last.log, start) >= RECREATE_BUDGET)
            && (forall k | |st.log| <= k < |last.log| :: last.log[k].ReadObject? || last.log[k].ReadRecord?)
            && (forall k | |st.log| <= k < |last.log| && last.log[k].ReadObject? && Looks(last.log[..k], start) > 0 ::
                  Waited(w, last.log[..k], start) < RECREATE_BUDGET)
    decreases RECREATE_BUDGET - elapsed
  {
    hide ReadStatus;
    hide CarriesAt;
    hide Paused;
    hide Looks;
    var (s, read) := ReadStatus(w, tb, m, f, st);
    OneLook(w, tb, m, f, st, start);
    var now := elapsed + w(Now(st)).pause;
    assert now == Waited(w, read.log, start);
    var last := Await(w, tb, m, f, elapsed, st).1;
    if s.state == Done {
      assert BackAt(w, tb, read.log, |st.log|, |st.log|, f);
    } else if now < RECREATE_BUDGET {
      AwaitMeans(w, tb, m, f, now + RECREATE_INTERVAL, read, start);
      forall a: nat ensures BackAt(w, tb, last.log, |st.log|, a, f) <==> BackAt(w, tb, last.log, |read.log|, a, f) {
        CarriesStays(w, tb, read.log, last.log, a, f);
        CarriesStays(w, tb, read.log, read.log, a, f);
      }
    } else {
      forall a: nat ensures !BackAt(w, tb, last.log, |st.log|, a, f) {
        CarriesStays(w, tb, read.log, read.log, a, f);
        OutOfLog(w, tb, read.log, a, f);
      }
    }
    assert last.log[..|st.log|] == st.log;
  }

  // ── one attempt, by its events ──

  /** Why nothing was deleted: the record could not be written; or it was taken back after the
      probe, which could not be built, was accepted, or was refused for another reason than
      immutability; or after the delete itself failed. Only a transient refusal is inconclusive. */
  ghost predicate WithdrawnBecause(w: Timeline, tb: Tables, m: Migration, f: OverlayField, start: nat, log: seq<Event>, outcome: Outcome) {
    var n := |log| - 1;
    match outcome
    case Gone => false
    case NotRecorded => start <= n && log[n] == Recorded(m.id) && !w(n).writeOk
    case Refusal(inconclusive) =>
      && start < n && log[n] == Cleared(m.id, false)
      && if inconclusive then ProbedAt(w, tb, log, n - 1, f, Refused(false, true))
         else
           || (log[n - 1] == Recorded(m.id) && (ProbePatch(tb, f).None? || !m.strategy.OrphanRecreate?))
           || ProbedAt(w, tb, log, n - 1, f, Accepted)
           || ProbedAt(w, tb, log, n - 1, f, Refused(false, false))
           || (log[n - 1] == DeleteFailed(m.id) && !w(n - 1).deleteOk)
  }

  ghost predicate ProbedAt(w: Timeline, tb: Tables, log: seq<Event>, c: int, f: OverlayField, answer: ProbeAnswer) {
    0 <= c < |log| && log[c] == Probed(f.target) && ProbePatch(tb, f).Some? && w(c).probe(f.target, ProbePatch(tb, f).value) == answer
  }

  lemma AttemptMeans(w: Timeline, tb: Tables, m: Migration, f: OverlayField, st: St)
    ensures var (outcome, after) := Attempt(w, tb, m, f, st);
            && st.log < after.log
            && (forall k | |st.log| <= k < |after.log| :: !after.log[k].ReadObject? && !after.log[k].ReadApp? && !after.log[k].ReadRecord?)
            && (outcome.Gone? <==> exists d | |st.log| <= d < |after.log| :: after.log[d].Deleted?)
            && (outcome.Gone? ==> var n := |after.log| - 1; after.log[n].Deleted? && after.log[n].id == m.id && after.log[n].key == f.target && w(n).deleteOk)
            && (!outcome.Gone? ==> WithdrawnBecause(w, tb, m, f, |st.log|, after.log, outcome))
  {
    hide ProbePatch;
    var (ok, recorded) := RecordAttempt(w, m.id, st);
    assert recorded.log == st.log + [Recorded(m.id)];
    if ok {
      var (outcome, after) := Recreate(w, tb, m, f, recorded);
      RecreateMeans(w, tb, m, f, recorded);
      hide Recreate;
      if outcome.Gone? {
        assert after.log[|st.log| + 2].Deleted?;
      } else {
        TakenBack(w, tb, m, f, st, recorded, outcome, after);
      }
      hide WithdrawnBecause;
      hide ProbedAt;
    }
  }

  lemma TakenBack(w: Timeline, tb: Tables, m: Migration, f: OverlayField, st: St, recorded: St, outcome: Outcome, after: St)
    requires recorded.log == st.log + [Recorded(m.id)] && outcome.Refusal?
    requires Refusing(w, tb, m, f, recorded.log, outcome.inconclusive, after.log)
    ensures var all := ClearAttempt(w, m.id, false, after).log;
            && WithdrawnBecause(w, tb, m, f, |st.log|, all, outcome) && st.log < all
            && forall k | |st.log| <= k < |all| :: !all[k].Deleted? && !all[k].ReadObject? && !all[k].ReadApp? && !all[k].ReadRecord?
  {
    hide ProbePatch;
    assert ClearAttempt(w, m.id, false, after).log == after.log + [Cleared(m.id, false)];
    hide ClearAttempt;
  }

  /** How recreate refuses. */
  ghost predicate Refusing(w: Timeline, tb: Tables, m: Migration, f: OverlayField, before: seq<Event>, inconclusive: bool, after: seq<Event>) {
    var n, probed := |before|, before + [Probed(f.target)];
    || (!inconclusive && after == before && (ProbePatch(tb, f).None? || !m.strategy.OrphanRecreate?))
    || (!inconclusive && after == probed && ProbedAt(w, tb, probed, n, f, Accepted))
    || (after == probed && ProbedAt(w, tb, probed, n, f, Refused(false, inconclusive)))
    || (!inconclusive && after == probed + [DeleteFailed(m.id)] && !w(n + 1).deleteOk)
  }

  lemma RecreateMeans(w: Timeline, tb: Tables, m: Migration, f: OverlayField, st: St)
    ensures var (outcome, after) := Recreate(w, tb, m, f, st);
            var n, probed := |st.log|, st.log + [Probed(f.target)];
            match outcome
            case Gone => after.log == probed + [Deleted(m.id, f.target, m.id in st.store.data)] && w(n + 1).deleteOk
            case NotRecorded => false
            case Refusal(inconclusive) => Refusing(w, tb, m, f, st.log, inconclusive, after.log)
  {
    hide ProbePatch;
  }

  // ── the row a run is about ──

  predicate Rows(f: OverlayField, id: string) {
    f.createOnly && f.migration == id && id != ""
  }

  /** The first row of the map that names the migration. */
  predicate FirstRow(fields: seq<OverlayField>, id: string, i: int) {
    0 <= i < |fields| && Rows(fields[i], id) && forall j | 0 <= j < i :: !Rows(fields[j], id)
  }

  /** Only objects and records are read for the statuses. */
  ghost predicate OnlyLooks(before: seq<Event>, after: seq<Event>) {
    before <= after && forall k | |before| <= k < |after| :: after[k].ReadObject? || after[k].ReadRecord?
  }

  lemma StatusLooks(w: Timeline, tb: Tables, f: OverlayField, st: St)
    ensures OnlyLooks(st.log, StatusOf(w, tb, f, st).1.log)
  {
    hide Delivered;
    hide LiveAt;
    hide Declared;
    hide MigrationFor;
  }

  /** The status a run acts on is that of the first row naming the migration, with the evidence
      this run has read for it. */
  lemma {:induction false} FirstMeans(w: Timeline, tb: Tables, fields: seq<OverlayField>, id: string, st: St)
    ensures var (out, after) := Statuses(w, tb, fields, st);
            && OnlyLooks(st.log, after.log)
            && (FirstFor(out, id).None? <==> forall i | 0 <= i < |fields| :: !Rows(fields[i], id))
            && (FirstFor(out, id).Some? ==>
                  var s := FirstFor(out, id).value;
                  && (exists i :: FirstRow(fields, id, i) && fields[i] == s.field)
                  && s.migration.id == id
                  && exists a: nat :: |st.log| <= a && Evidence(w, tb, after.log, a, s))
    decreases |fields|
  {
    hide StatusOf;
    hide Evidence;
    if fields != [] {
      var f, more := fields[0], fields[1..];
      assert forall i | 0 < i < |fields| :: fields[i] == more[i - 1];
      if !f.createOnly || f.migration == "" {
        FirstMeans(w, tb, more, id, st);
        RowsLater(fields, id);
      } else {
        var (first, next) := StatusOf(w, tb, f, st);
        StatusMeans(w, tb, f, st);
        StatusLooks(w, tb, f, st);
        FirstMeans(w, tb, more, id, next);
        var (rest, last) := Statuses(w, tb, more, next);
        EvidenceStays(w, tb, next.log, last.log, |st.log|, first);
        if f.migration == id {
          assert FirstRow(fields, id, 0);
        } else {
          RowsLater(fields, id);
        }
      }
    }
  }

  lemma RowsLater(fields: seq<OverlayField>, id: string)
    requires fields != [] && !Rows(fields[0], id)
    ensures forall i :: FirstRow(fields[1..], id, i) ==> FirstRow(fields, id, i + 1)
    ensures (forall i | 0 <= i < |fields| :: !Rows(fields[i], id)) <==> forall i | 0 <= i < |fields| - 1 :: !Rows(fields[1..][i], id)
  {
    assert forall i | 0 < i < |fields| :: fields[i] == fields[1..][i - 1];
  }

  // ── how a run that wrote something ended ──

  ghost predicate DeletedAt(w: Timeline, log: seq<Event>, d: nat, id: string, f: OverlayField) {
    d < |log| && log[d].Deleted? && log[d].id == id && log[d].key == f.target && w(d).deleteOk
  }

  /** After the delete at tick d the run has only looked, and looked again only within the budget. */
  ghost predicate LookedSince(w: Timeline, log: seq<Event>, d: nat) {
    && d + 1 < |log|
    && (forall k | d < k < |log| :: log[k].ReadObject? || log[k].ReadRecord?)
    && (forall k | d < k < |log| && log[k].ReadObject? && Looks(log[..k], d + 1) > 0 :: Waited(w, log[..k], d + 1) < RECREATE_BUDGET)
  }

  /** Landed: the object was deleted by this run, and its last look found it back with the declared
      value. Not back in time: it was deleted, no look since has found the value, and six minutes
      have passed. Withdrawn: nothing was deleted, for the reason given. */
  ghost predicate Ended(w: Timeline, tb: Tables, m: Migration, f: OverlayField, start: nat, log: seq<Event>, answer: Answer) {
    match answer
    case Withdrawn(outcome) =>
      (forall d | start <= d < |log| :: !log[d].Deleted?) && WithdrawnBecause(w, tb, m, f, start, log, outcome)
    case Landed =>
      exists d: nat :: start <= d && DeletedAt(w, log, d, m.id, f) && LookedSince(w, log, d) && CarriesAt(w, tb, log, |log| - 1, f)
    case NotBackInTime =>
      exists d: nat :: start <= d && DeletedAt(w, log, d, m.id, f) && LookedSince(w, log, d)
                       && (forall a: nat | d < a :: !CarriesAt(w, tb, log, a, f)) && Waited(w, log, d + 1) >= RECREATE_BUDGET
    case _ => false
  }

  lemma NoLooksYet(w: Timeline, log: seq<Event>)
    ensures Paused(w, log, |log|) == 0 && Looks(log, |log|) == 0
  {
  }

  /** From the attempt on. */
  lemma AttemptEnds(w: Timeline, tb: Tables, m: Migration, f: OverlayField, st: St)
    requires Declared(tb, f).Some?
    ensures var (outcome, tried) := Attempt(w, tb, m, f, st);
            var (answer, after) := if outcome.Gone? then Await(w, tb, m, f, 0, tried) else (Withdrawn(outcome), tried);
            && st.log < after.log && Ended(w, tb, m, f, |st.log|, after.log, answer)
            && (forall k | |st.log| <= k < |after.log| :: !after.log[k].ReadApp?)
  {
    hide Attempt;
    hide Await;
    hide CarriesAt;
    hide WithdrawnBecause;
    hide Declared;
    var (outcome, tried) := Attempt(w, tb, m, f, st);
    AttemptMeans(w, tb, m, f, st);
    if outcome.Gone? {
      var (answer, after) := Await(w, tb, m, f, 0, tried);
      var d := |tried.log| - 1;
      NoLooksYet(w, tried.log);
      AwaitMeans(w, tb, m, f, 0, tried, d + 1);
      hide Waited;
      hide Looks;
      hide Paused;
      assert DeletedAt(w, after.log, d, m.id, f);
      assert LookedSince(w, after.log, d);
      forall a: nat | d < a && answer == NotBackInTime ensures !CarriesAt(w, tb, after.log, a, f) {
        assert !BackAt(w, tb, after.log, d + 1, a, f);
      }
    }
  }

  lemma EndedSince(w: Timeline, tb: Tables, m: Migration, f: OverlayField, start: nat, later: nat, log: seq<Event>, answer: Answer)
    requires Ended(w, tb, m, f, later, log, answer) && start <= later <= |log|
    requires forall d | start <= d < later :: !log[d].Deleted?
    ensures Ended(w, tb, m, f, start, log, answer)
  {
    hide CarriesAt;
    hide ProbedAt;
    hide LookedSince;
    hide Waited;
    if answer == Landed {
      var d: nat :| later <= d && DeletedAt(w, log, d, m.id, f) && LookedSince(w, log, d) && CarriesAt(w, tb, log, |log| - 1, f);
      assert start <= d;
    } else if answer == NotBackInTime {
      var d: nat :| later <= d && DeletedAt(w, log, d, m.id, f) && LookedSince(w, log, d)
                    && (forall a: nat | d < a :: !CarriesAt(w, tb, log, a, f)) && Waited(w, log, d + 1) >= RECREATE_BUDGET;
      assert start <= d;
    }
  }

  /** The owner is read at the next tick, and is ready exactly when that answer says so. */
  lemma OwnerMeans(w: Timeline, tb: Tables, f: OverlayField, declared: Value, st: St)
    requires Declared(tb, f) == Some(declared)
    ensures var (ready, asked) := OwnerCheck(w, tb, f, declared, st);
            && asked.log == (if f.ownerApp == "" then st.log else st.log + [ReadApp(f.ownerApp)])
            && (ready.Ready? <==> f.ownerApp != "" && ReadyAt(w, tb, asked.log, |st.log|, f))
  {
    hide OwnerGuard.Verdict;
    hide Declared;
  }

  lemma ReadyStays(w: Timeline, tb: Tables, log: seq<Event>, longer: seq<Event>, b: nat, f: OverlayField)
    requires log <= longer && b < |log|
    ensures ReadyAt(w, tb, longer, b, f) <==> ReadyAt(w, tb, log, b, f)
  {
    hide OwnerGuard.Verdict;
    hide Declared;
  }

  /** The run from its plan on, by the owner it read at its next tick. */
  ghost predicate Executed(w: Timeline, tb: Tables, m: Migration, f: OverlayField, confirmed: bool, dryRun: bool, n: nat, log: seq<Event>, answer: Answer) {
    var acts, able := confirmed && !dryRun, m.strategy.OrphanRecreate?;
    var ready := f.ownerApp != "" && ReadyAt(w, tb, log, n, f);
    && n <= |log| && (forall k | n < k < |log| :: !log[k].ReadApp?)
    && if acts && ready && able then Ended(w, tb, m, f, n, log, answer)
       else
         && (forall k | n <= k < |log| :: log[k].ReadApp?)
         && answer == if dryRun then Planned else if !confirmed then NotConfirmed else if !ready then OwnerNotReady else Unsupported
  }

  lemma ExecuteMeans(w: Timeline, tb: Tables, s: Status, confirmed: bool, dryRun: bool, force: bool, st: St)
    requires Declared(tb, s.field) == Some(s.declared)
    ensures var (answer, after) := Execute(w, tb, s, confirmed, dryRun, force, st);
            st.log <= after.log && Executed(w, tb, s.migration, s.field, confirmed, dryRun, |st.log|, after.log, answer)
  {
    hide OwnerCheck;
    hide ReadyAt;
    hide Ended;
    hide Attempt;
    hide Await;
    hide Declared;
    var m, f := s.migration, s.field;
    var (ready, asked) := OwnerCheck(w, tb, f, s.declared, st);
    OwnerMeans(w, tb, f, s.declared, st);
    if confirmed && !dryRun && ready.Ready? && m.strategy.OrphanRecreate? {
      ExecuteShape(w, tb, s, force, st);
      var clean := if force then ClearAttempt(w, m.id, true, asked) else asked;
      assert clean.log == asked.log || clean.log == asked.log + [Cleared(m.id, true)];
      hide ClearAttempt;
      AttemptEnds(w, tb, m, f, clean);
      var (answer, after) := Execute(w, tb, s, true, false, force, st);
      hide Execute;
      EndedSince(w, tb, m, f, |st.log|, |clean.log|, after.log, answer);
      ReadyStays(w, tb, asked.log, after.log, |st.log|, f);
    }
  }

  // ── the whole run ──

  /** The answer, by this run's own read of the row at tick a, by the owner read at tick n after all
      the statuses, and by how the attempt ended. */
  ghost predicate Answered(w: Timeline, tb: Tables, f: OverlayField, confirmed: bool, dryRun: bool, force: bool,
      start: nat, a: nat, n: nat, log: seq<Event>, answer: Answer)
  {
    && start <= a && start <= n <= |log| && OnlyLooks(log[..start], log[..n]) && (Known(tb, f) ==> ReadsAt(log, a, f))
    && if !Known(tb, f) || BlindAt(w, tb, log, a, f) then n == |log| && answer == if dryRun then Planned else NotAnswered
       else if CarriesAt(w, tb, log, a, f) || GoneAt(w, log, a, f) then n == |log| && answer == NothingToDo
       else
         && LackedAt(w, tb, log, a, f)
         && if TriedAt(log, a, f.migration) && !force && !dryRun then n == |log| && answer == NeedsForce
            else Executed(w, tb, MigrationFor(tb.registry, f.migration).value, f, confirmed, dryRun, n, log, answer)
  }

  lemma ExecutedAnswers(w: Timeline, tb: Tables, m: Migration, f: OverlayField, confirmed: bool, dryRun: bool, n: nat, log: seq<Event>, answer: Answer)
    requires Executed(w, tb, m, f, confirmed, dryRun, n, log, answer)
    ensures answer !in {NoSuchMigration, NothingToDo, NotAnswered, NeedsForce}
    ensures dryRun ==> answer == Planned
  {
    hide WithdrawnBecause;
    hide ReadyAt;
    hide CarriesAt;
    hide LookedSince;
  }

  lemma PlannedAlready(w: Timeline, tb: Tables, m: Migration, f: OverlayField, confirmed: bool, log: seq<Event>)
    ensures Executed(w, tb, m, f, confirmed, true, |log|, log, Planned)
  {
  }

  /** From the status on. */
  lemma ActsOn(w: Timeline, tb: Tables, s: Status, confirmed: bool, dryRun: bool, force: bool, st: St, read: St, a: nat)
    requires OnlyLooks(st.log, read.log) && |st.log| <= a && Evidence(w, tb, read.log, a, s)
    requires s.migration.id == s.field.migration
    ensures var (answer, after) := Act(w, tb, s, confirmed, dryRun, force, read);
            && answer != NoSuchMigration
            && Answered(w, tb, s.field, confirmed, dryRun, force, |st.log|, a, |read.log|, after.log, answer)
  {
    hide Execute;
    hide Executed;
    hide LackedAt;
    hide BlindAt;
    hide CarriesAt;
    hide GoneAt;
    hide TriedAt;
    hide ReadsAt;
    hide Declared;
    hide MigrationFor;
    var (answer, after) := Act(w, tb, s, confirmed, dryRun, force, read);
    if s.state == Pending || (s.state == Unknown && s.advisory && !dryRun && force) {
      ExecuteMeans(w, tb, s, confirmed, dryRun, force, read);
      ExecutedAnswers(w, tb, s.migration, s.field, confirmed, dryRun, |read.log|, after.log, answer);
    } else if dryRun {
      PlannedAlready(w, tb, s.migration, s.field, confirmed, read.log);
    }
    EvidenceStays(w, tb, read.log, after.log, a, s);
    assert after.log[..|st.log|] == st.log && after.log[..|read.log|] == read.log;
  }

  /** RunMigration once the status is known. */
  function Act(w: Timeline, tb: Tables, s: Status, confirmed: bool, dryRun: bool, force: bool, read: St): (Answer, St) {
    if s.state == Done || s.state == NotHere then (NothingToDo, read)
    else if s.state == Unknown && dryRun then (Planned, read)
    else if s.state == Unknown && !s.advisory then (NotAnswered, read)
    else if s.state == Unknown && !force then (NeedsForce, read)
    else Execute(w, tb, s, confirmed, dryRun, force, read)
  }

  /** What the operator is told, over any run: no such migration exactly when no row names it, and
      otherwise what the first row that does was read as, and what the run then did. */
  lemma RunAnswers(w: Timeline, tb: Tables, id: string, confirmed: bool, dryRun: bool, force: bool, st: St)
    ensures var (answer, after) := RunMigration(w, tb, id, confirmed, dryRun, force, st);
            && (answer == NoSuchMigration <==> forall i | 0 <= i < |tb.fields| :: !Rows(tb.fields[i], id))
            && (answer != NoSuchMigration ==>
                  exists i, a: nat, n: nat :: FirstRow(tb.fields, id, i) &&
                    Answered(w, tb, tb.fields[i], confirmed, dryRun, force, |st.log|, a, n, after.log, answer))
  {
    hide Statuses;
    hide FirstFor;
    hide Execute;
    hide Answered;
    hide Evidence;
    var (statuses, read) := Statuses(w, tb, tb.fields, st);
    FirstMeans(w, tb, tb.fields, id, st);
    var (answer, after) := RunMigration(w, tb, id, confirmed, dryRun, force, st);
    if FirstFor(statuses, id).Some? {
      var s := FirstFor(statuses, id).value;
      var i :| FirstRow(tb.fields, id, i) && tb.fields[i] == s.field;
      var a: nat :| |st.log| <= a && Evidence(w, tb, read.log, a, s);
      ActsOn(w, tb, s, confirmed, dryRun, force, st, read, a);
      assert (answer, after) == Act(w, tb, s, confirmed, dryRun, force, read);
    }
  }

  /** This run deleted the row's object, and its last look found it back with the declared value. */
  ghost predicate CameBack(w: Timeline, tb: Tables, f: OverlayField, start: nat, log: seq<Event>) {
    exists d: nat :: start <= d < |log| - 1 && DeletedAt(w, log, d, f.migration, f) && CarriesAt(w, tb, log, |log| - 1, f)
  }

  /** This run deleted the row's object, has not seen the declared value since, and has waited out
      the budget. */
  ghost predicate StayedAway(w: Timeline, tb: Tables, f: OverlayField, start: nat, log: seq<Event>) {
    exists d: nat :: start <= d && DeletedAt(w, log, d, f.migration, f) &&
                     (forall a: nat | d < a :: !CarriesAt(w, tb, log, a, f)) && Waited(w, log, d + 1) >= RECREATE_BUDGET
  }

  lemma AnsweredDeletes(w: Timeline, tb: Tables, f: OverlayField, confirmed: bool, dryRun: bool, force: bool,
      start: nat, a: nat, n: nat, log: seq<Event>, answer: Answer)
    requires Answered(w, tb, f, confirmed, dryRun, force, start, a, n, log, answer)
    ensures answer in {Landed, NotBackInTime} <==> exists d | start <= d < |log| :: log[d].Deleted?
    ensures answer == Landed ==> CameBack(w, tb, f, start, log)
    ensures answer == NotBackInTime ==> StayedAway(w, tb, f, start, log)
  {
    hide LackedAt;
    hide BlindAt;
    hide CarriesAt;
    hide GoneAt;
    hide TriedAt;
    hide WithdrawnBecause;
    hide ReadyAt;
    hide Waited;
    hide Looks;
    hide Declared;
    MigrationForHasItsId(tb.registry, f.migration);
    hide MigrationFor;
    assert forall d | start <= d < n :: log[..n][d] == log[d];
  }

  lemma NoSuchLooks(w: Timeline, tb: Tables, id: string, confirmed: bool, dryRun: bool, force: bool, st: St)
    ensures var (answer, after) := RunMigration(w, tb, id, confirmed, dryRun, force, st);
            answer == NoSuchMigration ==> OnlyLooks(st.log, after.log)
  {
    RunAnswers(w, tb, id, confirmed, dryRun, force, st);
    FirstMeans(w, tb, tb.fields, id, st);
    hide Execute;
    hide Statuses;
    hide FirstFor;
    hide Answered;
    hide Evidence;
    hide OnlyLooks;
  }

  /** In short: success is reported exactly by a run that deleted the row's object and whose last
      look found it back with the declared value; a timeout exactly by one that deleted it, never
      found the value since and has waited six minutes; and under every other answer this run has
      deleted nothing. */
  lemma DeletingRunsSay(w: Timeline, tb: Tables, id: string, confirmed: bool, dryRun: bool, force: bool, st: St)
    ensures var (answer, after) := RunMigration(w, tb, id, confirmed, dryRun, force, st);
            && (answer in {Landed, NotBackInTime} <==> exists d | |st.log| <= d < |after.log| :: after.log[d].Deleted?)
            && (answer == Landed ==>
                  exists i :: FirstRow(tb.fields, id, i) && CameBack(w, tb, tb.fields[i], |st.log|, after.log))
            && (answer == NotBackInTime ==>
                  exists i :: FirstRow(tb.fields, id, i) && StayedAway(w, tb, tb.fields[i], |st.log|, after.log))
  {
    RunAnswers(w, tb, id, confirmed, dryRun, force, st);
    NoSuchLooks(w, tb, id, confirmed, dryRun, force, st);
    var (answer, after) := RunMigration(w, tb, id, confirmed, dryRun, force, st);
    hide RunMigration;
    if answer != NoSuchMigration {
      var i, a: nat, n: nat :| FirstRow(tb.fields, id, i) && Answered(w, tb, tb.fields[i], confirmed, dryRun, force, |st.log|, a, n, after.log, answer);
      AnsweredDeletes(w, tb, tb.fields[i], confirmed, dryRun, force, |st.log|, a, n, after.log, answer);
      hide Answered;
    }
    hide *;
  }

  // ── what the probe may write ──

  /** The probe that is sent writes the row's own field, to the declared value, and nothing else: it
      is sent exactly when the row's builder makes such a patch out of the declared overlay. */
  lemma ProbeMeans(tb: Tables, f: OverlayField, p: Fields)
    ensures ProbePatch(tb, f) == Some(p) <==>
            && f.app in tb.raw && tb.patch(f, tb.raw[f.app]) == Some(p)
            && Lookup(Map(tb.raw[f.app]), f.value).Some? && LiveAt(Map(p), f.live).Found?
            && Delivered(f.how, LiveAt(Map(p), f.live), Lookup(Map(tb.raw[f.app]), f.value).value, tb.show) == Verdict(true, true)
            && WritesOnly(Map(p), f.live, "", false)
  {
    if f.app in tb.raw && Lookup(Map(tb.raw[f.app]), f.value).Some? {
      AcceptedExactlyWhen(p, f.live, f.how, Lookup(Map(tb.raw[f.app]), f.value).value, tb.show);
    }
    hide WritesOnly;
    hide LiveAt;
    hide Delivered;
    hide PatchTargetsField;
    hide Lookup;
  }
}
