/** What a converge run leaves in the attempt records, poll after poll. */
module BrownfieldRecords {
  import opened Values
  import opened AttemptRecord
  import opened Brownfield
  import opened BrownfieldSafety

  /** The run wrote a record for this migration. */
  ghost predicate Wrote(start: nat, log: seq<Event>, id: string) {
    exists k | start <= k < |log| :: log[k] == Recorded(id)
  }

  /** The run took the record back and the write went through. */
  ghost predicate TookItBack(w: Timeline, start: nat, log: seq<Event>, id: string) {
    exists n: nat | start <= n < |log| :: log[n] == Cleared(id, false) && w(n).writeOk
  }

  ghost predicate SameEntry<T>(a: map<string, T>, b: map<string, T>, id: string) {
    (id in a <==> id in b) && (id in a ==> a[id] == b[id])
  }

  /** What holds of the records at every point of a converge run that began with `start`. */
  ghost predicate Books(w: Timeline, start: St, p: Pass) {
    && start.log <= p.st.log && OneManagerPerKey(p.st.store)
    && (forall id | !Wrote(|start.log|, p.st.log, id) :: SameEntry(start.store.data, p.st.store.data, id))
    && (forall id | TookItBack(w, |start.log|, p.st.log, id) :: id in p.attempted && id !in p.st.store.data)
    && (forall id | Wrote(|start.log|, p.st.log, id) ::
          id in p.attempted && (id in start.store.data ==> RecordReadFailed(|start.log|, p.st.log, id)))
  }

  lemma EventsStay(w: Timeline, start: nat, log: seq<Event>, longer: seq<Event>, id: string)
    requires log <= longer
    ensures Wrote(start, log, id) ==> Wrote(start, longer, id)
    ensures TookItBack(w, start, log, id) ==> TookItBack(w, start, longer, id)
    ensures RecordReadFailed(start, log, id) ==> RecordReadFailed(start, longer, id)
  {
    if Wrote(start, log, id) {
      var k :| start <= k < |log| && log[k] == Recorded(id);
      assert longer[k] == Recorded(id);
    }
    if TookItBack(w, start, log, id) {
      var n: nat :| start <= n < |log| && log[n] == Cleared(id, false) && w(n).writeOk;
      assert longer[n] == Cleared(id, false);
    }
    if RecordReadFailed(start, log, id) {
      RecordReadStays(start, log, longer, id);
    }
  }

  /** Between the two logs, records are written and taken back for one migration at most. */
  ghost predicate WritesOnly(before: seq<Event>, after: seq<Event>, ids: set<string>) {
    before <= after &&
    forall k | |before| <= k < |after| :: (after[k].Recorded? ==> after[k].id in ids) && (after[k].Cleared? ==> after[k].id in ids)
  }

  lemma NewsIsAbout(w: Timeline, start: nat, before: seq<Event>, after: seq<Event>, ids: set<string>, id: string)
    requires WritesOnly(before, after, ids) && id !in ids
    ensures Wrote(start, after, id) <==> Wrote(start, before, id)
    ensures TookItBack(w, start, after, id) <==> TookItBack(w, start, before, id)
  {
    EventsStay(w, start, before, after, id);
    if Wrote(start, after, id) {
      var k :| start <= k < |after| && after[k] == Recorded(id);
      assert k < |before| && before[k] == Recorded(id);
    }
    if TookItBack(w, start, after, id) {
      var n: nat :| start <= n < |after| && after[n] == Cleared(id, false) && w(n).writeOk;
      assert n < |before| && before[n] == Cleared(id, false);
    }
  }

  lemma BooksReads(w: Timeline, start: St, p: Pass, q: Pass)
    requires Books(w, start, p) && OnlyReads(p.st, q.st) && p.attempted <= q.attempted
    ensures Books(w, start, q)
  {
    hide Wrote;
    hide TookItBack;
    hide RecordReadFailed;
    assert WritesOnly(p.st.log, q.st.log, {});
    forall id
      ensures Wrote(|start.log|, q.st.log, id) <==> Wrote(|start.log|, p.st.log, id)
      ensures TookItBack(w, |start.log|, q.st.log, id) <==> TookItBack(w, |start.log|, p.st.log, id)
      ensures RecordReadFailed(|start.log|, p.st.log, id) ==> RecordReadFailed(|start.log|, q.st.log, id)
    {
      NewsIsAbout(w, |start.log|, p.st.log, q.st.log, {}, id);
      EventsStay(w, |start.log|, p.st.log, q.st.log, id);
    }
  }

  /** What one attempt writes: its record first, and its own record only. */
  ghost predicate Attempted(w: Timeline, id: string, before: St, after: St) {
    && WritesOnly(before.log, after.log, {id})
    && |before.log| < |after.log| && after.log[|before.log|] == Recorded(id)
    && after.store.data - {id} == before.store.data - {id}
    && (TookItBack(w, |before.log|, after.log, id) ==> id !in after.store.data)
    && OneManagerPerKey(after.store)
  }

  lemma AttemptWrites(w: Timeline, tb: Tables, m: Migration, f: OverlayField, st: St)
    requires OneManagerPerKey(st.store)
    ensures Attempted(w, m.id, st, Attempt(w, tb, m, f, st).1)
  {
    hide Recreate;
    hide Record;
    hide Clear;
    hide OneManagerPerKey;
    hide RefusedAt;
    RecordKeepsOthers(st.store, m.id, Now(st));
    var (ok, recorded) := RecordAttempt(w, m.id, st);
    ClearKeepsOthers(recorded.store, m.id);
    RecreateShape(w, tb, m, f, recorded);
  }

  lemma BooksAttempt(w: Timeline, start: St, p: Pass, q: Pass, id: string)
    requires Books(w, start, p) && id !in p.attempted && q.attempted == p.attempted + {id}
    requires Attempted(w, id, p.st, q.st)
    requires id in start.store.data ==> RecordReadFailed(|start.log|, p.st.log, id)
    ensures Books(w, start, q)
  {
    hide RecordReadFailed;
    forall other
      ensures other != id ==> (Wrote(|start.log|, q.st.log, other) <==> Wrote(|start.log|, p.st.log, other))
      ensures other != id ==> (TookItBack(w, |start.log|, q.st.log, other) <==> TookItBack(w, |start.log|, p.st.log, other))
      ensures RecordReadFailed(|start.log|, p.st.log, other) ==> RecordReadFailed(|start.log|, q.st.log, other)
      ensures other != id ==> SameEntry(p.st.store.data, q.st.store.data, other)
    {
      if other != id {
        NewsIsAbout(w, |start.log|, p.st.log, q.st.log, {id}, other);
        SameButOne(p.st.store.data, q.st.store.data, id, other);
      }
      EventsStay(w, |start.log|, p.st.log, q.st.log, other);
    }
    assert Wrote(|start.log|, q.st.log, id);
    if TookItBack(w, |start.log|, q.st.log, id) {
      BeforeOrAfter(w, |start.log|, p.st.log, q.st.log, id);
    }
  }

  lemma BeforeOrAfter(w: Timeline, start: nat, before: seq<Event>, after: seq<Event>, id: string)
    requires before <= after && TookItBack(w, start, after, id)
    ensures TookItBack(w, start, before, id) || TookItBack(w, |before|, after, id)
  {
    var n: nat :| start <= n < |after| && after[n] == Cleared(id, false) && w(n).writeOk;
    if n < |before| {
      assert before[n] == Cleared(id, false);
    }
  }

  lemma SameButOne<T>(a: map<string, T>, b: map<string, T>, id: string, other: string)
    requires a - {id} == b - {id} && other != id
    ensures SameEntry(a, b, other)
  {
    assert other in a <==> other in a - {id};
    assert other in b <==> other in b - {id};
  }

  /** A pending status whose record was there all along rests on a read of it that failed. */
  ghost predicate Excused(start: St, log: seq<Event>, s: Status) {
    s.state == Pending && s.migration.id in start.store.data ==> RecordReadFailed(|start.log|, log, s.migration.id)
  }

  lemma StepBooks(w: Timeline, tb: Tables, start: St, s: Status, p: Pass)
    requires Books(w, start, p) && (s.migration.id !in p.attempted ==> Excused(start, p.st.log, s))
    ensures var q := PassStep(w, tb, s, p); Books(w, start, q) && p.st.log <= q.st.log && p.attempted <= q.attempted
  {
    hide OwnerCheck;
    hide Attempt;
    hide Wrote;
    hide TookItBack;
    hide RecordReadFailed;
    var q, asked := PassStep(w, tb, s, p), OwnerCheck(w, tb, s.field, s.declared, p.st).1;
    OwnerCheckReads(w, tb, s.field, s.declared, p.st);
    if q.st == p.st || q.st == asked {
      BooksReads(w, start, p, q);
    } else {
      var between := p.(st := asked);
      BooksReads(w, start, p, between);
      EventsStay(w, |start.log|, p.st.log, asked.log, s.migration.id);
      AttemptWrites(w, tb, s.migration, s.field, asked);
      BooksAttempt(w, start, between, q, s.migration.id);
    }
  }

  lemma {:induction false} PassBooks(w: Timeline, tb: Tables, start: St, statuses: seq<Status>, p: Pass)
    requires Books(w, start, p) && forall s | s in statuses && s.migration.id !in p.attempted :: Excused(start, p.st.log, s)
    ensures Books(w, start, PassOver(w, tb, statuses, p))
    decreases |statuses|
  {
    hide PassStep;
    hide Books;
    hide RecordReadFailed;
    if statuses != [] {
      var q := PassStep(w, tb, statuses[0], p);
      StepBooks(w, tb, start, statuses[0], p);
      forall s | s in statuses[1..] && s.migration.id !in q.attempted ensures Excused(start, q.st.log, s) {
        EventsStay(w, |start.log|, p.st.log, q.st.log, s.migration.id);
      }
      PassBooks(w, tb, start, statuses[1..], q);
    }
  }

  lemma ApplyPendingBooks(w: Timeline, tb: Tables, start: St, attempted: set<string>, st: St)
    requires Books(w, start, Pass(attempted, NOTHING, st))
    ensures Books(w, start, ApplyPending(w, tb, attempted, st))
  {
    hide RecordReadFailed;
    var (statuses, read) := Statuses(w, tb, tb.fields, st);
    PendingHadNoRecord(w, tb, tb.fields, st);
    StatusesRead(w, tb, tb.fields, st);
    BooksReads(w, start, Pass(attempted, NOTHING, st), Pass(attempted, NOTHING, read));
    forall s | s in statuses && s.migration.id !in attempted ensures Excused(start, read.log, s) {
      if s.state == Pending && s.migration.id in start.store.data {
        assert !Wrote(|start.log|, st.log, s.migration.id);
        assert SameEntry(start.store.data, st.store.data, s.migration.id);
        EarlierStart(|start.log|, |st.log|, read.log, s.migration.id);
      }
    }
    hide Books;
    PassBooks(w, tb, start, statuses, Pass(attempted, NOTHING, read));
  }

  lemma EarlierStart(start: nat, later: nat, log: seq<Event>, id: string)
    requires start <= later && RecordReadFailed(later, log, id)
    ensures RecordReadFailed(start, log, id)
  {
  }

  lemma {:induction false} ConvergeBooks(w: Timeline, tb: Tables, start: St, marks: seq<set<string>>, attempted: set<string>, st: St)
    requires Books(w, start, Pass(attempted, NOTHING, st))
    ensures Books(w, start, Converge(w, tb, marks, attempted, st))
    decreases |marks|
  {
    hide Wrote;
    hide TookItBack;
    hide RecordReadFailed;
    if marks != [] {
      assert Books(w, start, Pass(attempted + marks[0], NOTHING, st));
      ApplyPendingBooks(w, tb, start, attempted + marks[0], st);
      var p := ApplyPending(w, tb, attempted + marks[0], st);
      ConvergeBooks(w, tb, start, marks[1..], p.attempted, p.st);
    }
  }

  /** A converge run's records, whatever happens between its polls: a migration it never recorded
      keeps its entry; one it took back is gone at the end, and no later poll brings it back; and
      a record it overwrote is one it had failed to read. */
  lemma ConvergeRecords(w: Timeline, tb: Tables, marks: seq<set<string>>, st: St, id: string)
    requires OneManagerPerKey(st.store)
    ensures var after := RunOnce(w, tb, ConvergeRun(marks), st);
            && st.log <= after.log
            && (!Wrote(|st.log|, after.log, id) ==> SameEntry(st.store.data, after.store.data, id))
            && (TookItBack(w, |st.log|, after.log, id) ==> id !in after.store.data)
            && (Wrote(|st.log|, after.log, id) && id in st.store.data ==> RecordReadFailed(|st.log|, after.log, id))
  {
    ConvergeBooks(w, tb, st, marks, {}, st);
  }

  /** A converge run that took back everything it wrote leaves the records as it found them,
      exactly when it had found none of its own. */
  lemma FailedConvergeRestores(w: Timeline, tb: Tables, marks: seq<set<string>>, st: St)
    requires OneManagerPerKey(st.store)
    ensures var after := RunOnce(w, tb, ConvergeRun(marks), st);
            (forall id | Wrote(|st.log|, after.log, id) :: TookItBack(w, |st.log|, after.log, id)) ==>
              (after.store.data == st.store.data <==> forall id | Wrote(|st.log|, after.log, id) :: id !in st.store.data)
  {
    hide RunOnce;
    hide Wrote;
    hide TookItBack;
    hide RecordReadFailed;
    var after := RunOnce(w, tb, ConvergeRun(marks), st);
    forall id
      ensures !Wrote(|st.log|, after.log, id) ==> SameEntry(st.store.data, after.store.data, id)
      ensures TookItBack(w, |st.log|, after.log, id) ==> id !in after.store.data
    {
      ConvergeRecords(w, tb, marks, st, id);
    }
    if (forall id | Wrote(|st.log|, after.log, id) :: TookItBack(w, |st.log|, after.log, id) && id !in st.store.data) {
      assert forall id :: SameEntry(st.store.data, after.store.data, id);
      assert after.store.data.Keys == st.store.data.Keys;
    }
  }
}
