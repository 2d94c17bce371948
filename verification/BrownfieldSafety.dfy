/** What the migration engine guarantees over every history, whatever the cluster answers. */
module BrownfieldSafety {
  import opened Values
  import opened AttemptRecord
  import opened OverlayFields
  import opened Brownfield
  import OwnerGuard

  // ── counting events ──

  datatype Kind = Deletes | Forced | FailedReads

  predicate Counts(e: Event, kind: Kind, id: string) {
    match kind
    case Deletes => e.Deleted? && e.id == id
    case Forced => e == Cleared(id, true)
    case FailedReads => e == ReadRecord(id, false, true)
  }

  function Tally(log: seq<Event>, kind: Kind, id: string): nat {
    if log == [] then 0
    else Tally(log[..|log| - 1], kind, id) + (if Counts(log[|log| - 1], kind, id) then 1 else 0)
  }

  lemma TallyAppend(log: seq<Event>, e: Event, kind: Kind, id: string)
    ensures Tally(log + [e], kind, id) == Tally(log, kind, id) + (if Counts(e, kind, id) then 1 else 0)
  {
    assert (log + [e])[..|log|] == log;
  }

  /** Deletes still allowed: one, plus one per forced run and per failed read of a record that was there. */
  function Credit(log: seq<Event>, id: string): int {
    1 + Tally(log, Forced, id) + Tally(log, FailedReads, id) - Tally(log, Deletes, id)
  }

  /** The invariant: an absent record is a delete still to come. */
  ghost predicate Bounded(st: St) {
    OneManagerPerKey(st.store) &&
    forall id :: Credit(st.log, id) >= if id in st.store.data then 0 else 1
  }

  // ── evidence in the log ──

  ghost predicate LackedAt(w: Timeline, tb: Tables, log: seq<Event>, a: nat, f: OverlayField) {
    a < |log| && log[a] == ReadObject(f.target) && w(a).objects(f.target).Object? &&
    Declared(tb, f).Some? && LacksValue(tb, f, Declared(tb, f).value, w(a).objects(f.target).fields)
  }

  ghost predicate ReadyAt(w: Timeline, tb: Tables, log: seq<Event>, b: nat, f: OverlayField) {
    b < |log| && log[b] == ReadApp(f.ownerApp) && w(b).apps(f.ownerApp).App? && Declared(tb, f).Some? &&
    OwnerGuard.Verdict(w(b).apps(f.ownerApp).app, f.value, Declared(tb, f).value, tb.show).Ready?
  }

  ghost predicate RefusedAt(w: Timeline, tb: Tables, log: seq<Event>, c: nat, f: OverlayField) {
    c < |log| && log[c] == Probed(f.target) && ProbePatch(tb, f).Some? &&
    var answer := w(c).probe(f.target, ProbePatch(tb, f).value);
    answer.Refused? && answer.immutable
  }

  /** A row of the table the run may act for, and what this run has read about it. */
  ghost predicate Lacking(w: Timeline, tb: Tables, start: nat, log: seq<Event>, f: OverlayField) {
    exists a | start <= a < |log| :: LackedAt(w, tb, log, a, f)
  }

  ghost predicate OwnerReady(w: Timeline, tb: Tables, start: nat, log: seq<Event>, f: OverlayField) {
    exists b | start <= b < |log| :: ReadyAt(w, tb, log, b, f)
  }

  /** The delete at tick k, with everything that came before it in the same run: the object read
      as present and lacking the declared value, its owner read as ready, the record written, and
      the probe refused for immutability. */
  ghost predicate Justified(w: Timeline, tb: Tables, start: nat, log: seq<Event>, k: nat) {
    start + 2 <= k < |log| && log[k].Deleted? && log[k].recorded && w(k).deleteOk &&
    log[k - 2] == Recorded(log[k].id) && w(k - 2).writeOk &&
    exists f | f in tb.fields ::
      f.migration == log[k].id && f.createOnly && f.target == log[k].key && RefusedAt(w, tb, log, k - 1, f) &&
      Lacking(w, tb, start, log[..k - 2], f) && OwnerReady(w, tb, start, log[..k - 2], f)
  }

  ghost predicate DeletesJustified(w: Timeline, tb: Tables, start: nat, log: seq<Event>) {
    forall k: nat | start <= k < |log| && log[k].Deleted? :: Justified(w, tb, start, log, k)
  }

  /** Evidence only looks back, so it survives whatever is appended. */
  lemma LackingStays(w: Timeline, tb: Tables, start: nat, log: seq<Event>, longer: seq<Event>, f: OverlayField)
    requires log <= longer
    ensures Lacking(w, tb, start, log, f) ==> Lacking(w, tb, start, longer, f)
    ensures OwnerReady(w, tb, start, log, f) ==> OwnerReady(w, tb, start, longer, f)
  {
    hide LacksValue;
    if Lacking(w, tb, start, log, f) {
      var a :| start <= a < |log| && LackedAt(w, tb, log, a, f);
      assert LackedAt(w, tb, longer, a, f);
    }
    if OwnerReady(w, tb, start, log, f) {
      var b :| start <= b < |log| && ReadyAt(w, tb, log, b, f);
      assert ReadyAt(w, tb, longer, b, f);
    }
  }

  lemma JustifiedStays(w: Timeline, tb: Tables, start: nat, log: seq<Event>, e: Event, k: nat)
    requires Justified(w, tb, start, log, k)
    ensures Justified(w, tb, start, log + [e], k)
  {
    hide Lacking;
    hide OwnerReady;
    assert (log + [e])[..k - 2] == log[..k - 2];
    var f :| f in tb.fields && f.migration == log[k].id && f.createOnly && f.target == log[k].key &&
      RefusedAt(w, tb, log, k - 1, f) && Lacking(w, tb, start, log[..k - 2], f) && OwnerReady(w, tb, start, log[..k - 2], f);
    assert RefusedAt(w, tb, log + [e], k - 1, f);
  }

  lemma DeletesStayJustified(w: Timeline, tb: Tables, start: nat, log: seq<Event>, e: Event)
    requires DeletesJustified(w, tb, start, log)
    requires e.Deleted? && start <= |log| ==> Justified(w, tb, start, log + [e], |log|)
    ensures DeletesJustified(w, tb, start, log + [e])
  {
    hide Justified;
    forall k: nat | start <= k < |log| + 1 && (log + [e])[k].Deleted?
      ensures Justified(w, tb, start, log + [e], k)
    {
      if k < |log| {
        JustifiedStays(w, tb, start, log, e, k);
      }
    }
  }

  // ── reads ──

  predicate IsRead(e: Event) {
    e.ReadObject? || e.ReadRecord? || e.ReadApp? || e.Probed?
  }

  /** Nothing was written between the two states. */
  ghost predicate OnlyReads(before: St, after: St) {
    after.store == before.store && before.log <= after.log &&
    forall k | |before.log| <= k < |after.log| :: IsRead(after.log[k])
  }

  /** Reading changes no count but the failed reads, and needs no justification. */
  lemma {:induction false} ReadsAreSafe(w: Timeline, tb: Tables, start: nat, before: St, after: St)
    requires OnlyReads(before, after)
    ensures forall id :: Tally(after.log, Deletes, id) == Tally(before.log, Deletes, id)
    ensures forall id :: Tally(after.log, Forced, id) == Tally(before.log, Forced, id)
    ensures forall id :: Credit(after.log, id) >= Credit(before.log, id)
    ensures Bounded(before) ==> Bounded(after)
    ensures DeletesJustified(w, tb, start, before.log) ==> DeletesJustified(w, tb, start, after.log)
    decreases |after.log|
  {
    hide DeletesJustified;
    if |before.log| == |after.log| {
      assert before == after;
    } else {
      var n := |after.log| - 1;
      var prior := after.(log := after.log[..n]);
      assert prior.log + [after.log[n]] == after.log;
      ReadsAreSafe(w, tb, start, before, prior);
      forall id
        ensures Credit(after.log, id) >= Credit(prior.log, id)
        ensures Tally(after.log, Deletes, id) == Tally(prior.log, Deletes, id)
        ensures Tally(after.log, Forced, id) == Tally(prior.log, Forced, id)
      {
        TallyAppend(prior.log, after.log[n], Deletes, id);
        TallyAppend(prior.log, after.log[n], Forced, id);
        TallyAppend(prior.log, after.log[n], FailedReads, id);
      }
      if DeletesJustified(w, tb, start, before.log) {
        DeletesStayJustified(w, tb, start, prior.log, after.log[n]);
      }
    }
  }

  lemma OwnerCheckReads(w: Timeline, tb: Tables, f: OverlayField, declared: Value, st: St)
    ensures var (ready, after) := OwnerCheck(w, tb, f, declared, st);
            && OnlyReads(st, after)
            && (ready.Ready? && Declared(tb, f) == Some(declared) ==> OwnerReady(w, tb, |st.log|, after.log, f))
  {
    var (ready, after) := OwnerCheck(w, tb, f, declared, st);
    if ready.Ready? && Declared(tb, f) == Some(declared) {
      assert ReadyAt(w, tb, after.log, |st.log|, f);
    }
  }

  /** What a status rests on. */
  ghost predicate Fresh(w: Timeline, tb: Tables, start: nat, st: St, s: Status) {
    && s.field in tb.fields && s.field.createOnly && s.migration.id == s.field.migration
    && (s.advisory ==> s.state == Unknown)
    && (s.state == Pending || s.advisory ==> Declared(tb, s.field) == Some(s.declared) && Lacking(w, tb, start, st.log, s.field))
    && (s.state == Pending ==> Credit(st.log, s.migration.id) >= 1)
  }

  lemma MigrationForHasItsId(registry: seq<Migration>, id: string)
    ensures MigrationFor(registry, id).Some? ==> MigrationFor(registry, id).value.id == id
  {
  }

  lemma ReadStatusReads(w: Timeline, tb: Tables, m: Migration, f: OverlayField, st: St)
    ensures OnlyReads(st, ReadStatus(w, tb, m, f, st).1)
  {
    hide Delivered;
    hide LiveAt;
    hide Lookup;
  }

  lemma TwoReadsCredit(log: seq<Event>, key: ObjectKey, id: string, answered: bool, there: bool)
    ensures Credit(log + [ReadObject(key)] + [ReadRecord(id, answered, there)], id) == Credit(log, id) + if there && !answered then 1 else 0
  {
    forall kind
      ensures Tally(log + [ReadObject(key)] + [ReadRecord(id, answered, there)], kind, id) ==
              Tally(log, kind, id) + (if kind == FailedReads && there && !answered then 1 else 0)
    {
      TallyAppend(log, ReadObject(key), kind, id);
      TallyAppend(log + [ReadObject(key)], ReadRecord(id, answered, there), kind, id);
    }
  }

  /** When migrationStatus says pending, or already tried, and what it has read by then. */
  lemma ReadStatusSays(w: Timeline, tb: Tables, m: Migration, f: OverlayField, st: St)
    ensures var (s, after) := ReadStatus(w, tb, m, f, st);
            && s.migration == m && s.field == f && (s.advisory ==> s.state == Unknown)
            && (s.state == Pending || s.advisory ==>
                  && Declared(tb, f) == Some(s.declared) && LackedAt(w, tb, after.log, |st.log|, f)
                  && var answered := w(|st.log| + 1).recordAnswers;
                     && after.log == st.log + [ReadObject(f.target)] + [ReadRecord(m.id, answered, m.id in st.store.data)]
                     && (s.state == Pending ==> !answered || m.id !in st.store.data))
  {
    hide Delivered;
    hide LiveAt;
    hide Declared;
  }

  /** A pending status needs a record that is absent or could not be read, and either way there is
      a delete left. */
  lemma ReadStatusIsFresh(w: Timeline, tb: Tables, m: Migration, f: OverlayField, st: St)
    requires Bounded(st) && f in tb.fields && f.createOnly && m.id == f.migration
    ensures var (s, after) := ReadStatus(w, tb, m, f, st); Fresh(w, tb, |st.log|, after, s)
  {
    hide ReadStatus;
    hide LackedAt;
    hide Declared;
    var (s, after) := ReadStatus(w, tb, m, f, st);
    ReadStatusSays(w, tb, m, f, st);
    TwoReadsCredit(st.log, f.target, m.id, w(|st.log| + 1).recordAnswers, m.id in st.store.data);
    assert Credit(st.log, m.id) >= if m.id in st.store.data then 0 else 1;
    hide Credit;
    if s.state == Pending || s.advisory {
      assert Lacking(w, tb, |st.log|, after.log, f);
    }
  }

  lemma FreshStays(w: Timeline, tb: Tables, start: nat, later: nat, before: St, after: St, s: Status)
    requires start <= later <= |before.log| && before.log <= after.log
    requires Fresh(w, tb, later, before, s)
    requires s.state == Pending ==> Credit(after.log, s.migration.id) >= Credit(before.log, s.migration.id)
    ensures Fresh(w, tb, start, after, s)
  {
    if s.state == Pending || s.advisory {
      LackingStays(w, tb, later, before.log, after.log, s.field);
      var a :| later <= a < |after.log| && LackedAt(w, tb, after.log, a, s.field);
    }
  }

  lemma {:induction false} StatusesRead(w: Timeline, tb: Tables, fields: seq<OverlayField>, st: St)
    ensures OnlyReads(st, Statuses(w, tb, fields, st).1)
    decreases |fields|
  {
    hide ReadStatus;
    if fields != [] {
      var f := fields[0];
      var next := if !f.createOnly || f.migration == "" then st else StatusOf(w, tb, f, st).1;
      var m := MigrationFor(tb.registry, f.migration);
      if m.Some? {
        ReadStatusReads(w, tb, m.value, f, st);
      }
      StatusesRead(w, tb, fields[1..], next);
    }
  }

  lemma {:induction false} StatusesAreFresh(w: Timeline, tb: Tables, fields: seq<OverlayField>, st: St)
    requires Bounded(st) && forall f | f in fields :: f in tb.fields
    ensures var (out, after) := Statuses(w, tb, fields, st);
            OnlyReads(st, after) && forall s | s in out :: Fresh(w, tb, |st.log|, after, s)
    decreases |fields|
  {
    hide Fresh;
    hide Bounded;
    if fields != [] {
      var f := fields[0];
      if !f.createOnly || f.migration == "" {
        StatusesAreFresh(w, tb, fields[1..], st);
      } else {
        var (first, next) := StatusOf(w, tb, f, st);
        StatusOfIsFresh(w, tb, f, st);
        ReadsAreSafe(w, tb, 0, st, next);
        StatusesAreFresh(w, tb, fields[1..], next);
        var (rest, last) := Statuses(w, tb, fields[1..], next);
        ReadsAreSafe(w, tb, 0, next, last);
        FreshStays(w, tb, |st.log|, |st.log|, next, last, first);
        forall s | s in rest
          ensures Fresh(w, tb, |st.log|, last, s)
        {
          FreshStays(w, tb, |st.log|, |next.log|, last, last, s);
        }
      }
    }
  }

  lemma StatusOfIsFresh(w: Timeline, tb: Tables, f: OverlayField, st: St)
    requires Bounded(st) && f in tb.fields && f.createOnly
    ensures var (s, after) := StatusOf(w, tb, f, st); OnlyReads(st, after) && Fresh(w, tb, |st.log|, after, s)
  {
    hide ReadStatus;
    var m := MigrationFor(tb.registry, f.migration);
    if m.Some? {
      MigrationForHasItsId(tb.registry, f.migration);
      ReadStatusReads(w, tb, m.value, f, st);
      ReadStatusIsFresh(w, tb, m.value, f, st);
    }
  }

  // ── writes ──

  /** Between the two logs, `deletes` deletes of one migration and nothing else that counts. */
  ghost predicate Moved(before: seq<Event>, after: seq<Event>, id: string, deletes: nat) {
    && before <= after
    && (forall other :: Tally(after, Deletes, other) == Tally(before, Deletes, other) + if other == id then deletes else 0)
    && (forall other :: Tally(after, Forced, other) == Tally(before, Forced, other))
    && (forall other :: Tally(after, FailedReads, other) == Tally(before, FailedReads, other))
  }

  lemma MovedTwice(a: seq<Event>, b: seq<Event>, c: seq<Event>, id: string, i: nat, j: nat)
    requires Moved(a, b, id, i) && Moved(b, c, id, j)
    ensures Moved(a, c, id, i + j)
  {
  }

  lemma MovedCredit(a: seq<Event>, b: seq<Event>, id: string, deletes: nat)
    requires Moved(a, b, id, deletes)
    ensures forall other :: Credit(b, other) == Credit(a, other) - if other == id then deletes else 0
  {
  }

  /** Anything but a delete, a forced clear or a failed read. */
  lemma MovedByOne(log: seq<Event>, e: Event, id: string)
    requires forall kind, other :: Counts(e, kind, other) ==> kind == Deletes && other == id
    ensures Moved(log, log + [e], id, if e.Deleted? then 1 else 0)
  {
    forall kind, other
      ensures Tally(log + [e], kind, other) == Tally(log, kind, other) + (if Counts(e, kind, other) then 1 else 0)
    {
      TallyAppend(log, e, kind, other);
    }
    assert e.Deleted? ==> Counts(e, Deletes, e.id);
  }

  lemma RecordIsSafe(w: Timeline, tb: Tables, start: nat, id: string, st: St)
    requires Bounded(st) && DeletesJustified(w, tb, start, st.log)
    ensures var (ok, after) := RecordAttempt(w, id, st);
            && Bounded(after) && DeletesJustified(w, tb, start, after.log)
            && after.log == st.log + [Recorded(id)] && Moved(st.log, after.log, id, 0)
            && (ok ==> id in after.store.data && w(|st.log|).writeOk)
            && after.store.data - {id} == st.store.data - {id}
  {
    hide DeletesJustified;
    RecordKeepsOthers(st.store, id, |st.log|);
    MovedByOne(st.log, Recorded(id), id);
    MovedCredit(st.log, st.log + [Recorded(id)], id, 0);
    assert forall other :: Credit(st.log, other) >= if other in st.store.data then 0 else 1;
    DeletesStayJustified(w, tb, start, st.log, Recorded(id));
  }

  /** A record may be taken back while a delete is still allowed. */
  lemma ClearIsSafe(w: Timeline, tb: Tables, start: nat, id: string, st: St)
    requires Bounded(st) && DeletesJustified(w, tb, start, st.log)
    requires Credit(st.log, id) >= 1
    ensures var after := ClearAttempt(w, id, false, st);
            && Bounded(after) && DeletesJustified(w, tb, start, after.log)
            && after.log == st.log + [Cleared(id, false)] && Moved(st.log, after.log, id, 0)
            && (w(|st.log|).writeOk ==> after.store.data == st.store.data - {id})
            && after.store.data - {id} == st.store.data - {id}
  {
    hide DeletesJustified;
    ClearKeepsOthers(st.store, id);
    MovedByOne(st.log, Cleared(id, false), id);
    MovedCredit(st.log, st.log + [Cleared(id, false)], id, 0);
    assert forall other :: Credit(st.log, other) >= if other in st.store.data then 0 else 1;
    DeletesStayJustified(w, tb, start, st.log, Cleared(id, false));
  }

  /** Forcing allows one more delete. */
  lemma ForcedClearIsSafe(w: Timeline, tb: Tables, start: nat, id: string, st: St)
    requires Bounded(st) && DeletesJustified(w, tb, start, st.log)
    ensures var after := ClearAttempt(w, id, true, st);
            && Bounded(after) && DeletesJustified(w, tb, start, after.log)
            && after.log == st.log + [Cleared(id, true)] && Credit(after.log, id) >= 1
            && (forall other :: Tally(after.log, Deletes, other) == Tally(st.log, Deletes, other))
            && (forall other :: Tally(after.log, Forced, other) == Tally(st.log, Forced, other) + if other == id then 1 else 0)
  {
    hide DeletesJustified;
    ClearKeepsOthers(st.store, id);
    forall kind, other
      ensures Tally(st.log + [Cleared(id, true)], kind, other) ==
              Tally(st.log, kind, other) + (if kind == Forced && other == id then 1 else 0)
    {
      TallyAppend(st.log, Cleared(id, true), kind, other);
    }
    assert forall other :: Credit(st.log, other) >= if other in st.store.data then 0 else 1;
    assert forall other :: Credit(st.log + [Cleared(id, true)], other) == Credit(st.log, other) + if other == id then 1 else 0;
    DeletesStayJustified(w, tb, start, st.log, Cleared(id, true));
  }

  /** What recreate does: a read or two, and at most one delete, with the probe right before it. */
  lemma RecreateShape(w: Timeline, tb: Tables, m: Migration, f: OverlayField, st: St)
    ensures var (outcome, after) := Recreate(w, tb, m, f, st);
            && after.store == st.store && !outcome.NotRecorded?
            && (outcome.Gone? ==>
                  && after.log == st.log + [Probed(f.target)] + [Deleted(m.id, f.target, m.id in st.store.data)]
                  && w(|st.log| + 1).deleteOk && RefusedAt(w, tb, after.log, |st.log|, f))
            && (!outcome.Gone? ==>
                  || after.log == st.log
                  || after.log == st.log + [Probed(f.target)]
                  || after.log == st.log + [Probed(f.target)] + [DeleteFailed(m.id)])
  {
    hide ProbePatch;
  }

  lemma DeleteIsJustified(w: Timeline, tb: Tables, start: nat, f: OverlayField, before: seq<Event>, log: seq<Event>)
    requires f in tb.fields && f.createOnly
    requires start <= |before| && Lacking(w, tb, start, before, f) && OwnerReady(w, tb, start, before, f)
    requires log == before + [Recorded(f.migration), Probed(f.target), Deleted(f.migration, f.target, true)]
    requires w(|before|).writeOk && RefusedAt(w, tb, log, |before| + 1, f) && w(|before| + 2).deleteOk
    ensures Justified(w, tb, start, log, |before| + 2)
  {
    hide Lacking;
    hide OwnerReady;
    hide RefusedAt;
    assert log[..|before|] == before;
  }

  /** The run has what it needs before it attempts a migration. */
  ghost predicate Ready(w: Timeline, tb: Tables, start: nat, f: OverlayField, m: Migration, st: St) {
    && f in tb.fields && f.createOnly && m.id == f.migration && start <= |st.log|
    && Lacking(w, tb, start, st.log, f) && OwnerReady(w, tb, start, st.log, f)
  }

  lemma DeleteIsSafe(w: Timeline, tb: Tables, start: nat, m: Migration, f: OverlayField, before: St, st: St)
    requires Ready(w, tb, start, f, m, before)
    requires Bounded(st) && DeletesJustified(w, tb, start, st.log)
    requires st.log == before.log + [Recorded(m.id)] && w(|before.log|).writeOk && m.id in st.store.data
    requires Recreate(w, tb, m, f, st).0.Gone? && Credit(st.log, m.id) >= 1
    ensures var after := Recreate(w, tb, m, f, st).1;
            && Bounded(after) && DeletesJustified(w, tb, start, after.log)
            && Moved(st.log, after.log, m.id, 1)
  {
    hide DeletesJustified;
    hide Recreate;
    hide RefusedAt;
    hide Lacking;
    hide OwnerReady;
    hide Justified;
    hide Moved;
    hide Credit;
    var after := Recreate(w, tb, m, f, st).1;
    RecreateShape(w, tb, m, f, st);
    var probed, delete := Probed(f.target), Deleted(m.id, f.target, true);
    MovedByOne(st.log, probed, m.id);
    MovedByOne(st.log + [probed], delete, m.id);
    MovedTwice(st.log, st.log + [probed], after.log, m.id, 0, 1);
    MovedCredit(st.log, after.log, m.id, 1);
    assert forall id :: Credit(st.log, id) >= if id in st.store.data then 0 else 1;
    DeletesStayJustified(w, tb, start, st.log, probed);
    assert after.log == before.log + [Recorded(m.id), probed, delete];
    DeleteIsJustified(w, tb, start, f, before.log, after.log);
    DeletesStayJustified(w, tb, start, st.log + [probed], delete);
  }

  /** A refused recreate has written nothing. */
  lemma RefusalIsSafe(w: Timeline, tb: Tables, start: nat, m: Migration, f: OverlayField, st: St)
    requires Bounded(st) && DeletesJustified(w, tb, start, st.log)
    requires !Recreate(w, tb, m, f, st).0.Gone?
    ensures var after := Recreate(w, tb, m, f, st).1;
            && after.store == st.store && Moved(st.log, after.log, m.id, 0)
            && Bounded(after) && DeletesJustified(w, tb, start, after.log)
  {
    hide DeletesJustified;
    hide Recreate;
    hide RefusedAt;
    hide Credit;
    var after := Recreate(w, tb, m, f, st).1;
    RecreateShape(w, tb, m, f, st);
    var probed, failed := Probed(f.target), DeleteFailed(m.id);
    MovedByOne(st.log, probed, m.id);
    MovedByOne(st.log + [probed], failed, m.id);
    MovedTwice(st.log, st.log + [probed], st.log + [probed] + [failed], m.id, 0, 0);
    MovedCredit(st.log, after.log, m.id, 0);
    assert forall id :: Credit(st.log, id) >= if id in st.store.data then 0 else 1;
    DeletesStayJustified(w, tb, start, st.log, probed);
    DeletesStayJustified(w, tb, start, st.log + [probed], failed);
  }

  /** One attempt, from either driver: at most one delete, only of this migration, justified and
      paid for; and when nothing was deleted and the record could be taken back, this migration's
      record is gone and every other is as it was. */
  lemma AttemptIsSafe(w: Timeline, tb: Tables, start: nat, m: Migration, f: OverlayField, st: St)
    requires Ready(w, tb, start, f, m, st)
    requires Bounded(st) && DeletesJustified(w, tb, start, st.log) && Credit(st.log, m.id) >= 1
    ensures var (outcome, after) := Attempt(w, tb, m, f, st);
            && Bounded(after) && DeletesJustified(w, tb, start, after.log)
            && Moved(st.log, after.log, m.id, if outcome.Gone? then 1 else 0)
            && after.store.data - {m.id} == st.store.data - {m.id}
            && (outcome.Gone? ==> m.id in after.store.data)
            && (outcome.Refusal? ==> TookBack(w, m.id, st, after))
  {
    hide DeletesJustified;
    hide Bounded;
    hide Recreate;
    hide Ready;
    hide Moved;
    hide Credit;
    hide RecordAttempt;
    hide ClearAttempt;
    hide RefusedAt;
    var (ok, recorded) := RecordAttempt(w, m.id, st);
    RecordIsSafe(w, tb, start, m.id, st);
    MovedCredit(st.log, recorded.log, m.id, 0);
    if ok {
      var (outcome, after) := Recreate(w, tb, m, f, recorded);
      RecreateShape(w, tb, m, f, recorded);
      if outcome.Gone? {
        DeleteIsSafe(w, tb, start, m, f, st, recorded);
        MovedTwice(st.log, recorded.log, after.log, m.id, 0, 1);
      } else {
        RefusalIsSafe(w, tb, start, m, f, recorded);
        MovedTwice(st.log, recorded.log, after.log, m.id, 0, 0);
        MovedCredit(st.log, after.log, m.id, 0);
        ClearIsSafe(w, tb, start, m.id, after);
        MovedTwice(st.log, after.log, ClearAttempt(w, m.id, false, after).log, m.id, 0, 0);
      }
    }
  }

  /** The last thing done was to take the record back, and if that write went through this
      migration's record is gone and every other one is as it was found. */
  ghost predicate TookBack(w: Timeline, id: string, before: St, after: St) {
    var n := |after.log| - 1;
    n >= |before.log| && after.log[n] == Cleared(id, false) &&
    (w(n).writeOk ==> after.store.data == before.store.data - {id})
  }

  // ── a converge run ──

  /** What holds at every point of a converge run that began with `start`. */
  ghost predicate RunInv(w: Timeline, tb: Tables, start: St, p: Pass) {
    && start.log <= p.st.log && Bounded(p.st) && DeletesJustified(w, tb, |start.log|, p.st.log)
    && (forall id :: Tally(p.st.log, Deletes, id) <= Tally(start.log, Deletes, id) + if id in p.attempted then 1 else 0)
    && (forall id :: Tally(p.st.log, Forced, id) == Tally(start.log, Forced, id))
  }

  lemma RunInvReads(w: Timeline, tb: Tables, start: St, p: Pass, q: Pass)
    requires RunInv(w, tb, start, p) && OnlyReads(p.st, q.st) && p.attempted <= q.attempted
    ensures RunInv(w, tb, start, q)
  {
    hide DeletesJustified;
    hide Bounded;
    ReadsAreSafe(w, tb, |start.log|, p.st, q.st);
  }

  lemma DoneStep(w: Timeline, tb: Tables, start: St, s: Status, p: Pass)
    requires RunInv(w, tb, start, p)
    requires s.migration.id in p.attempted || s.state != Pending || !s.migration.auto
    ensures var q := PassStep(w, tb, s, p); RunInv(w, tb, start, q) && q.st == p.st && p.attempted <= q.attempted
  {
    hide DeletesJustified;
    hide Bounded;
    hide OwnerCheck;
    hide Attempt;
  }

  lemma AskedStep(w: Timeline, tb: Tables, start: St, s: Status, p: Pass)
    requires RunInv(w, tb, start, p) && s.migration.id !in p.attempted && s.state == Pending && s.migration.auto
    requires !OwnerCheck(w, tb, s.field, s.declared, p.st).0.Ready? || !s.migration.strategy.OrphanRecreate?
    ensures var q := PassStep(w, tb, s, p); RunInv(w, tb, start, q) && OnlyReads(p.st, q.st) && p.attempted <= q.attempted
  {
    hide RunInv;
    hide OwnerCheck;
    hide Attempt;
    OwnerCheckReads(w, tb, s.field, s.declared, p.st);
    RunInvReads(w, tb, start, p, PassStep(w, tb, s, p));
  }

  /** With the owner's answer in hand the run may attempt what the status says is lacking. */
  lemma OwnerAnswered(w: Timeline, tb: Tables, start: nat, s: Status, st: St)
    requires Fresh(w, tb, start, st, s) && (s.state == Pending || s.advisory) && start <= |st.log|
    requires OwnerCheck(w, tb, s.field, s.declared, st).0.Ready?
    ensures var asked := OwnerCheck(w, tb, s.field, s.declared, st).1;
            OnlyReads(st, asked) && Ready(w, tb, start, s.field, s.migration, asked)
  {
    hide ReadyAt;
    hide LackedAt;
    var asked := OwnerCheck(w, tb, s.field, s.declared, st).1;
    OwnerCheckReads(w, tb, s.field, s.declared, st);
    hide OwnerCheck;
    LackingStays(w, tb, start, st.log, asked.log, s.field);
  }

  lemma AttemptStepShape(w: Timeline, tb: Tables, s: Status, p: Pass)
    requires s.migration.id !in p.attempted && s.state == Pending && s.migration.auto
    requires OwnerCheck(w, tb, s.field, s.declared, p.st).0.Ready? && s.migration.strategy.OrphanRecreate?
    ensures var q := PassStep(w, tb, s, p);
            && q.attempted == p.attempted + {s.migration.id}
            && q.st == Attempt(w, tb, s.migration, s.field, OwnerCheck(w, tb, s.field, s.declared, p.st).1).1
  {
    hide OwnerCheck;
    hide Attempt;
  }

  lemma AttemptStep(w: Timeline, tb: Tables, start: St, s: Status, p: Pass)
    requires RunInv(w, tb, start, p) && s.migration.id !in p.attempted && s.state == Pending && s.migration.auto
    requires OwnerCheck(w, tb, s.field, s.declared, p.st).0.Ready? && s.migration.strategy.OrphanRecreate?
    requires Fresh(w, tb, |start.log|, p.st, s)
    ensures var q := PassStep(w, tb, s, p);
            && RunInv(w, tb, start, q) && p.st.log <= q.st.log
            && q.attempted == p.attempted + {s.migration.id}
            && (forall id | id != s.migration.id :: Credit(q.st.log, id) >= Credit(p.st.log, id))
  {
    hide PassStep;
    hide OwnerCheck;
    hide Attempt;
    hide DeletesJustified;
    hide Lacking;
    hide Ready;
    hide Credit;
    hide Bounded;
    var id := s.migration.id;
    var asked := OwnerCheck(w, tb, s.field, s.declared, p.st).1;
    OwnerAnswered(w, tb, |start.log|, s, p.st);
    ReadsAreSafe(w, tb, |start.log|, p.st, asked);
    AttemptIsSafe(w, tb, |start.log|, s.migration, s.field, asked);
    AttemptStepShape(w, tb, s, p);
    var (outcome, after) := Attempt(w, tb, s.migration, s.field, asked);
    MovedCredit(asked.log, after.log, id, if outcome.Gone? then 1 else 0);
    RunInvReads(w, tb, start, p, p.(st := asked));
  }

  /** One status of the pass; the ones still to come stay fresh unless this run has tried them. */
  lemma StepIsSafe(w: Timeline, tb: Tables, start: St, s: Status, p: Pass)
    requires RunInv(w, tb, start, p)
    requires s.migration.id !in p.attempted ==> Fresh(w, tb, |start.log|, p.st, s)
    ensures var q := PassStep(w, tb, s, p);
            && RunInv(w, tb, start, q) && p.st.log <= q.st.log && p.attempted <= q.attempted
            && (forall id | id !in q.attempted :: Credit(q.st.log, id) >= Credit(p.st.log, id))
  {
    hide RunInv;
    hide Fresh;
    if s.migration.id in p.attempted || s.state != Pending || !s.migration.auto {
      DoneStep(w, tb, start, s, p);
    } else if !OwnerCheck(w, tb, s.field, s.declared, p.st).0.Ready? || !s.migration.strategy.OrphanRecreate? {
      AskedStep(w, tb, start, s, p);
      ReadsAreSafe(w, tb, |start.log|, p.st, PassStep(w, tb, s, p).st);
    } else {
      AttemptStep(w, tb, start, s, p);
    }
  }

  lemma {:induction false} PassIsSafe(w: Timeline, tb: Tables, start: St, statuses: seq<Status>, p: Pass)
    requires RunInv(w, tb, start, p)
    requires forall s | s in statuses && s.migration.id !in p.attempted :: Fresh(w, tb, |start.log|, p.st, s)
    ensures var q := PassOver(w, tb, statuses, p); RunInv(w, tb, start, q) && p.attempted <= q.attempted
    decreases |statuses|
  {
    hide Fresh;
    hide PassStep;
    hide Credit;
    if statuses != [] {
      var q := PassStep(w, tb, statuses[0], p);
      StepIsSafe(w, tb, start, statuses[0], p);
      forall s | s in statuses[1..] && s.migration.id !in q.attempted
        ensures Fresh(w, tb, |start.log|, q.st, s)
      {
        FreshStays(w, tb, |start.log|, |start.log|, p.st, q.st, s);
      }
      hide RunInv;
      PassIsSafe(w, tb, start, statuses[1..], q);
    }
  }

  lemma ApplyPendingIsSafe(w: Timeline, tb: Tables, start: St, attempted: set<string>, st: St)
    requires RunInv(w, tb, start, Pass(attempted, NOTHING, st))
    ensures var q := ApplyPending(w, tb, attempted, st); RunInv(w, tb, start, q) && attempted <= q.attempted
  {
    var (statuses, read) := Statuses(w, tb, tb.fields, st);
    StatusesAreFresh(w, tb, tb.fields, st);
    RunInvReads(w, tb, start, Pass(attempted, NOTHING, st), Pass(attempted, NOTHING, read));
    forall s | s in statuses
      ensures Fresh(w, tb, |start.log|, read, s)
    {
      FreshStays(w, tb, |start.log|, |st.log|, read, read, s);
    }
    PassIsSafe(w, tb, start, statuses, Pass(attempted, NOTHING, read));
  }

  lemma {:induction false} ConvergeIsSafe(w: Timeline, tb: Tables, start: St, marks: seq<set<string>>, attempted: set<string>, st: St)
    requires RunInv(w, tb, start, Pass(attempted, NOTHING, st))
    ensures RunInv(w, tb, start, Converge(w, tb, marks, attempted, st))
    decreases |marks|
  {
    if marks != [] {
      hide Bounded;
      hide DeletesJustified;
      assert RunInv(w, tb, start, Pass(attempted + marks[0], NOTHING, st));
      ApplyPendingIsSafe(w, tb, start, attempted + marks[0], st);
      var p := ApplyPending(w, tb, attempted + marks[0], st);
      assert RunInv(w, tb, start, Pass(p.attempted, NOTHING, p.st));
      ConvergeIsSafe(w, tb, start, marks[1..], p.attempted, p.st);
    }
  }

  /** A converge run deletes for a migration at most once, however many polls it makes, and every
      delete is justified by what this same run read. */
  lemma ConvergeDeletesAtMostOnce(w: Timeline, tb: Tables, marks: seq<set<string>>, st: St, id: string)
    requires Bounded(st)
    ensures var after := Converge(w, tb, marks, {}, st).st;
            && st.log <= after.log && Bounded(after)
            && Tally(after.log, Deletes, id) <= Tally(st.log, Deletes, id) + 1
            && Tally(after.log, Forced, id) == Tally(st.log, Forced, id)
            && DeletesJustified(w, tb, |st.log|, after.log)
  {
    ConvergeIsSafe(w, tb, st, marks, {}, st);
  }

  // ── an operator run ──

  lemma {:induction false} AwaitReads(w: Timeline, tb: Tables, m: Migration, f: OverlayField, elapsed: nat, st: St)
    ensures OnlyReads(st, Await(w, tb, m, f, elapsed, st).1)
    decreases RECREATE_BUDGET - elapsed
  {
    hide ReadStatus;
    var (s, read) := ReadStatus(w, tb, m, f, st);
    ReadStatusReads(w, tb, m, f, st);
    var now := elapsed + w(Now(st)).pause;
    if s.state != Done && now < RECREATE_BUDGET {
      AwaitReads(w, tb, m, f, now + RECREATE_INTERVAL, read);
    }
  }

  lemma ReadStatusIsShort(w: Timeline, tb: Tables, m: Migration, f: OverlayField, st: St)
    ensures |ReadStatus(w, tb, m, f, st).1.log| <= |st.log| + 2
  {
    hide Delivered;
    hide LiveAt;
    hide Lookup;
  }

  /** The wait is bounded: at most 37 reads of the object, ten seconds or more apart. */
  lemma {:induction false} AwaitIsBounded(w: Timeline, tb: Tables, m: Migration, f: OverlayField, elapsed: nat, st: St)
    ensures |Await(w, tb, m, f, elapsed, st).1.log| <= |st.log| + 2 * (1 + (if elapsed < RECREATE_BUDGET then (RECREATE_BUDGET + 9 - elapsed) / 10 else 0))
    decreases RECREATE_BUDGET - elapsed
  {
    hide ReadStatus;
    ReadStatusIsShort(w, tb, m, f, st);
    var (s, read) := ReadStatus(w, tb, m, f, st);
    var now := elapsed + w(Now(st)).pause;
    if s.state != Done && now < RECREATE_BUDGET {
      AwaitIsBounded(w, tb, m, f, now + RECREATE_INTERVAL, read);
    }
  }

  /** What an operator run did, seen from its start. */
  ghost predicate OperatorInv(w: Timeline, tb: Tables, start: St, id: string, force: bool, after: St) {
    && start.log <= after.log && Bounded(after) && DeletesJustified(w, tb, |start.log|, after.log)
    && (forall other :: Tally(after.log, Deletes, other) <= Tally(start.log, Deletes, other) + if other == id then 1 else 0)
    && (forall other :: Tally(after.log, Forced, other) <= Tally(start.log, Forced, other) + if force && other == id then 1 else 0)
  }

  lemma OperatorReads(w: Timeline, tb: Tables, start: St, id: string, force: bool, st: St, after: St)
    requires OperatorInv(w, tb, start, id, force, st) && OnlyReads(st, after)
    ensures OperatorInv(w, tb, start, id, force, after)
  {
    hide DeletesJustified;
    hide Bounded;
    ReadsAreSafe(w, tb, |start.log|, st, after);
  }

  lemma FirstForIsThere(statuses: seq<Status>, id: string)
    ensures FirstFor(statuses, id).Some? ==> FirstFor(statuses, id).value in statuses && FirstFor(statuses, id).value.migration.id == id
  {
  }

  /** What a run may act on: a status that says the object lacks the value, and a delete left to
      spend, or a force that grants one. */
  ghost predicate Actionable(w: Timeline, tb: Tables, start: nat, st: St, s: Status, force: bool) {
    Fresh(w, tb, start, st, s) && (s.state == Pending || (s.advisory && force))
  }

  lemma ExecuteShape(w: Timeline, tb: Tables, s: Status, force: bool, st: St)
    requires OwnerCheck(w, tb, s.field, s.declared, st).0.Ready? && s.migration.strategy.OrphanRecreate?
    ensures var asked := OwnerCheck(w, tb, s.field, s.declared, st).1;
            var clean := if force then ClearAttempt(w, s.migration.id, true, asked) else asked;
            var (outcome, after) := Attempt(w, tb, s.migration, s.field, clean);
            Execute(w, tb, s, true, false, force, st) ==
            if outcome.Gone? then Await(w, tb, s.migration, s.field, 0, after) else (Withdrawn(outcome), after)
  {
    hide OwnerCheck;
    hide Attempt;
    hide Await;
    hide ClearAttempt;
  }

  /** An attempt on behalf of an operator, after the record was cleared if it was forced. */
  lemma OperatorAttempt(w: Timeline, tb: Tables, start: St, m: Migration, f: OverlayField, force: bool, asked: St)
    requires Bounded(start) && OnlyReads(start, asked) && Ready(w, tb, |start.log|, f, m, asked)
    requires force || Credit(asked.log, m.id) >= 1
    ensures var clean := if force then ClearAttempt(w, m.id, true, asked) else asked;
            var (outcome, after) := Attempt(w, tb, m, f, clean);
            && OperatorInv(w, tb, start, m.id, force, after)
            && (!force && outcome.Refusal? ==> TookBack(w, m.id, start, after))
  {
    hide DeletesJustified;
    hide Bounded;
    hide Lacking;
    hide OwnerReady;
    hide Attempt;
    hide Credit;
    ReadsAreSafe(w, tb, |start.log|, start, asked);
    NoneYet(w, tb, start.log);
    var clean := if force then ClearAttempt(w, m.id, true, asked) else asked;
    if force {
      ForcedClearIsSafe(w, tb, |start.log|, m.id, asked);
    }
    hide ClearAttempt;
    LackingStays(w, tb, |start.log|, asked.log, clean.log, f);
    AttemptIsSafe(w, tb, |start.log|, m, f, clean);
  }

  lemma NoneYet(w: Timeline, tb: Tables, log: seq<Event>)
    ensures DeletesJustified(w, tb, |log|, log)
  {
  }

  lemma ExecuteIsSafe(w: Timeline, tb: Tables, start: St, s: Status, force: bool, st: St)
    requires Bounded(start) && OnlyReads(start, st) && Actionable(w, tb, |start.log|, st, s, force)
    requires OwnerCheck(w, tb, s.field, s.declared, st).0.Ready? && s.migration.strategy.OrphanRecreate?
    ensures var (answer, after) := Execute(w, tb, s, true, false, force, st);
            && OperatorInv(w, tb, start, s.migration.id, force, after)
            && (!force && answer.Withdrawn? && answer.outcome.Refusal? ==> TookBack(w, s.migration.id, start, after))
  {
    hide OwnerCheck;
    hide Attempt;
    hide Await;
    hide ClearAttempt;
    hide Execute;
    hide OperatorInv;
    hide TookBack;
    hide Ready;
    hide Bounded;
    hide Lacking;
    hide Credit;
    var id := s.migration.id;
    var asked := OwnerCheck(w, tb, s.field, s.declared, st).1;
    OwnerAnswered(w, tb, |start.log|, s, st);
    ReadsAreSafe(w, tb, |start.log|, st, asked);
    OperatorAttempt(w, tb, start, s.migration, s.field, force, asked);
    ExecuteShape(w, tb, s, force, st);
    AwaitIsShort(w, tb, s.migration, s.field, force, start, if force then ClearAttempt(w, id, true, asked) else asked);
  }

  lemma AwaitIsShort(w: Timeline, tb: Tables, m: Migration, f: OverlayField, force: bool, start: St, clean: St)
    requires OperatorInv(w, tb, start, m.id, force, Attempt(w, tb, m, f, clean).1)
    ensures var after := Attempt(w, tb, m, f, clean).1;
            var (answer, last) := Await(w, tb, m, f, 0, after);
            OperatorInv(w, tb, start, m.id, force, last) && !answer.Withdrawn?
  {
    hide OperatorInv;
    hide Attempt;
    var after := Attempt(w, tb, m, f, clean).1;
    AwaitReads(w, tb, m, f, 0, after);
    AwaitAnswers(w, tb, m, f, 0, after);
    OperatorReads(w, tb, start, m.id, force, after, Await(w, tb, m, f, 0, after).1);
  }

  lemma {:induction false} AwaitAnswers(w: Timeline, tb: Tables, m: Migration, f: OverlayField, elapsed: nat, st: St)
    ensures var answer := Await(w, tb, m, f, elapsed, st).0; answer.Landed? || answer.NotBackInTime?
    decreases RECREATE_BUDGET - elapsed
  {
    hide ReadStatus;
    var (s, read) := ReadStatus(w, tb, m, f, st);
    var now := elapsed + w(Now(st)).pause;
    if s.state != Done && now < RECREATE_BUDGET {
      AwaitAnswers(w, tb, m, f, now + RECREATE_INTERVAL, read);
    }
  }

  /** Everything but an attempt: the plan, the refusals, and the runs with nothing to do. */
  lemma NoAttemptReads(w: Timeline, tb: Tables, s: Status, confirmed: bool, dryRun: bool, force: bool, st: St)
    requires dryRun || !confirmed || !OwnerCheck(w, tb, s.field, s.declared, st).0.Ready? || !s.migration.strategy.OrphanRecreate?
    ensures var (answer, after) := Execute(w, tb, s, confirmed, dryRun, force, st); OnlyReads(st, after) && !answer.Withdrawn?
  {
    hide Attempt;
    hide Await;
    OwnerCheckReads(w, tb, s.field, s.declared, st);
    hide OwnerCheck;
  }

  lemma RunMigrationShape(w: Timeline, tb: Tables, id: string, confirmed: bool, dryRun: bool, force: bool, st: St)
    ensures var (statuses, read) := Statuses(w, tb, tb.fields, st);
            var found := FirstFor(statuses, id);
            var (answer, after) := RunMigration(w, tb, id, confirmed, dryRun, force, st);
            if found.Some? && (found.value.state == Pending || (found.value.state == Unknown && found.value.advisory && force && !dryRun)) then
              (answer, after) == Execute(w, tb, found.value, confirmed, dryRun, force, read)
            else after == read && !answer.Withdrawn? && !answer.Landed? && !answer.NotBackInTime?
  {
    hide Statuses;
    hide FirstFor;
    hide Execute;
  }

  /** An operator run deletes at most once, only for the migration it names, justified by what it
      read itself; it forces only when told to; and an unforced run whose delete failed takes its
      record back. */
  lemma RunMigrationIsSafe(w: Timeline, tb: Tables, id: string, confirmed: bool, dryRun: bool, force: bool, st: St)
    requires Bounded(st)
    ensures var (answer, after) := RunMigration(w, tb, id, confirmed, dryRun, force, st);
            && OperatorInv(w, tb, st, id, force, after)
            && (!force && answer.Withdrawn? && answer.outcome.Refusal? ==> TookBack(w, id, st, after))
  {
    hide Statuses;
    hide FirstFor;
    hide Execute;
    hide RunMigration;
    hide OwnerCheck;
    hide TookBack;
    hide Bounded;
    var (statuses, read) := Statuses(w, tb, tb.fields, st);
    StatusesAreFresh(w, tb, tb.fields, st);
    FirstForIsThere(statuses, id);
    NoneYet(w, tb, st.log);
    assert OperatorInv(w, tb, st, id, force, st);
    hide OperatorInv;
    OperatorReads(w, tb, st, id, force, st, read);
    RunMigrationShape(w, tb, id, confirmed, dryRun, force, st);
    var found := FirstFor(statuses, id);
    if found.Some? {
      var s := found.value;
      if confirmed && !dryRun && OwnerCheck(w, tb, s.field, s.declared, read).0.Ready? && s.migration.strategy.OrphanRecreate? {
        if s.state == Pending || (s.state == Unknown && s.advisory && force) {
          ExecuteIsSafe(w, tb, st, s, force, read);
        }
      } else {
        NoAttemptReads(w, tb, s, confirmed, dryRun, force, read);
        OperatorReads(w, tb, st, id, force, read, Execute(w, tb, s, confirmed, dryRun, force, read).1);
      }
    }
  }

  /** Without --yes, and on a dry run, nothing is written: the store is untouched and the run's
      events are all reads. */
  lemma PlanWritesNothing(w: Timeline, tb: Tables, id: string, confirmed: bool, dryRun: bool, force: bool, st: St)
    requires dryRun || !confirmed
    ensures OnlyReads(st, RunMigration(w, tb, id, confirmed, dryRun, force, st).1)
  {
    hide Statuses;
    hide FirstFor;
    hide Execute;
    hide RunMigration;
    StatusesRead(w, tb, tb.fields, st);
    RunMigrationShape(w, tb, id, confirmed, dryRun, force, st);
    var (statuses, read) := Statuses(w, tb, tb.fields, st);
    var found := FirstFor(statuses, id);
    if found.Some? {
      NoAttemptReads(w, tb, found.value, confirmed, dryRun, force, read);
    }
  }

  // ── whole histories ──

  function ForcedRunsOf(runs: seq<Run>, id: string): nat {
    if runs == [] then 0
    else (if runs[0].OperatorRun? && runs[0].force && runs[0].id == id then 1 else 0) + ForcedRunsOf(runs[1..], id)
  }

  /** One run of either driver keeps the invariant, deletes at most once per migration, and every
      delete it makes is justified by its own reads. */
  lemma RunIsSafe(w: Timeline, tb: Tables, run: Run, st: St, id: string)
    requires Bounded(st)
    ensures var after := RunOnce(w, tb, run, st);
            && Bounded(after) && st.log <= after.log && DeletesJustified(w, tb, |st.log|, after.log)
            && Tally(after.log, Deletes, id) <= Tally(st.log, Deletes, id) + 1
            && Tally(after.log, Forced, id) <= Tally(st.log, Forced, id) + ForcedRunsOf([run], id)
  {
    hide Bounded;
    hide DeletesJustified;
    hide Converge;
    hide RunMigration;
    assert ForcedRunsOf([run], id) == (if run.OperatorRun? && run.force && run.id == id then 1 else 0) + ForcedRunsOf([], id);
    match run {
      case ConvergeRun(marks) => ConvergeDeletesAtMostOnce(w, tb, marks, st, id);
      case OperatorRun(target, confirmed, dryRun, force) => RunMigrationIsSafe(w, tb, target, confirmed, dryRun, force, st);
    }
  }

  lemma {:induction false} HistoryKeeps(w: Timeline, tb: Tables, runs: seq<Run>, st: St, id: string)
    requires Bounded(st)
    ensures var after := RunAll(w, tb, runs, st);
            Bounded(after) && Tally(after.log, Forced, id) <= Tally(st.log, Forced, id) + ForcedRunsOf(runs, id)
    decreases |runs|
  {
    hide Bounded;
    hide RunOnce;
    if runs != [] {
      RunIsSafe(w, tb, runs[0], st, id);
      HistoryKeeps(w, tb, runs[1..], RunOnce(w, tb, runs[0], st), id);
      assert [runs[0]][1..] == [];
    }
  }

  /** The bound. Over every sequence of converge and operator runs, against any cluster: the
      deletes made for a migration, plus one when it has no record, never exceed one plus the
      forced runs of it plus the reads that failed although its record was there. */
  lemma DeletesAreBounded(w: Timeline, tb: Tables, runs: seq<Run>, store: Store, id: string)
    requires OneManagerPerKey(store)
    ensures var after := RunAll(w, tb, runs, St(store, []));
            Tally(after.log, Deletes, id) + (if id in after.store.data then 0 else 1)
              <= 1 + ForcedRunsOf(runs, id) + Tally(after.log, FailedReads, id)
  {
    hide RunAll;
    assert Bounded(St(store, []));
    HistoryKeeps(w, tb, runs, St(store, []), id);
    assert Credit(RunAll(w, tb, runs, St(store, [])).log, id) >= if id in RunAll(w, tb, runs, St(store, [])).store.data then 0 else 1;
  }

  // ── what a failed run leaves behind ──

  predicate LastWriteOk(w: Timeline, st: St) {
    st.log != [] && w(|st.log| - 1).writeOk
  }

  ghost predicate RecordReadFailed(start: nat, log: seq<Event>, id: string) {
    exists j | start <= j < |log| :: log[j] == ReadRecord(id, false, true)
  }

  lemma StatusHadNoRecord(w: Timeline, tb: Tables, f: OverlayField, st: St)
    ensures var (s, after) := StatusOf(w, tb, f, st);
            && after.store == st.store && st.log <= after.log
            && (s.state == Pending && s.migration.id in st.store.data ==> RecordReadFailed(|st.log|, after.log, s.migration.id))
  {
    hide Delivered;
    hide LiveAt;
    hide Lookup;
    var (s, after) := StatusOf(w, tb, f, st);
    if s.state == Pending && s.migration.id in st.store.data {
      MigrationForHasItsId(tb.registry, f.migration);
      assert after.log[|st.log| + 1] == ReadRecord(s.migration.id, false, true);
    }
  }

  lemma {:induction false} PendingHadNoRecord(w: Timeline, tb: Tables, fields: seq<OverlayField>, st: St)
    ensures var (out, after) := Statuses(w, tb, fields, st);
            && after.store == st.store && st.log <= after.log
            && forall s | s in out && s.state == Pending && s.migration.id in st.store.data ::
                 RecordReadFailed(|st.log|, after.log, s.migration.id)
    decreases |fields|
  {
    hide StatusOf;
    if fields != [] {
      var f := fields[0];
      if !f.createOnly || f.migration == "" {
        PendingHadNoRecord(w, tb, fields[1..], st);
      } else {
        var (first, next) := StatusOf(w, tb, f, st);
        StatusHadNoRecord(w, tb, f, st);
        PendingHadNoRecord(w, tb, fields[1..], next);
        var (rest, last) := Statuses(w, tb, fields[1..], next);
        if RecordReadFailed(|st.log|, next.log, first.migration.id) {
          var j :| |st.log| <= j < |next.log| && next.log[j] == ReadRecord(first.migration.id, false, true);
          assert last.log[j] == ReadRecord(first.migration.id, false, true);
        }
      }
    }
  }

  /** An unforced operator run whose delete did not happen and whose record was taken back leaves
      the records as it found them, exactly when it found none of its own. It can only have found
      one that it failed to read. */
  lemma FailedRunRestores(w: Timeline, tb: Tables, id: string, st: St)
    requires Bounded(st)
    ensures var (answer, after) := RunMigration(w, tb, id, true, false, false, st);
            answer.Withdrawn? && answer.outcome.Refusal? && LastWriteOk(w, after) ==>
              && after.store.data == st.store.data - {id}
              && (after.store.data == st.store.data <==> id !in st.store.data)
              && (id in st.store.data ==> RecordReadFailed(|st.log|, after.log, id))
  {
    hide RecordReadFailed;
    hide Bounded;
    hide RunMigration;
    hide OperatorInv;
    hide Statuses;
    hide FirstFor;
    hide Execute;
    RunMigrationIsSafe(w, tb, id, true, false, false, st);
    RunMigrationShape(w, tb, id, true, false, false, st);
    PendingHadNoRecord(w, tb, tb.fields, st);
    var (statuses, read) := Statuses(w, tb, tb.fields, st);
    FirstForIsThere(statuses, id);
    var (answer, after) := RunMigration(w, tb, id, true, false, false, st);
    if answer.Withdrawn? && answer.outcome.Refusal? && LastWriteOk(w, after) && id in st.store.data {
      RecordReadStays(|st.log|, read.log, after.log, id);
      ExecuteExtends(w, tb, FirstFor(statuses, id).value, read);
    }
  }

  lemma RecordReadStays(start: nat, log: seq<Event>, longer: seq<Event>, id: string)
    requires RecordReadFailed(start, log, id)
    ensures log <= longer ==> RecordReadFailed(start, longer, id)
  {
    var j :| start <= j < |log| && log[j] == ReadRecord(id, false, true);
    assert log <= longer ==> longer[j] == ReadRecord(id, false, true);
  }

  lemma ExecuteExtends(w: Timeline, tb: Tables, s: Status, st: St)
    ensures st.log <= Execute(w, tb, s, true, false, false, st).1.log
  {
    hide Await;
    OwnerCheckReads(w, tb, s.field, s.declared, st);
    var asked := OwnerCheck(w, tb, s.field, s.declared, st).1;
    hide OwnerCheck;
    var (ok, recorded) := RecordAttempt(w, s.migration.id, asked);
    RecreateShape(w, tb, s.migration, s.field, recorded);
    hide Recreate;
    var after := Attempt(w, tb, s.migration, s.field, asked).1;
    assert asked.log <= after.log;
    AwaitReads(w, tb, s.migration, s.field, 0, after);
  }

  // ── the bound is reached ──

  /** A cluster on which Argo always puts the old shape back and every write goes through, and
      whose record can be read only in the first two ticks. */
  ghost predicate Hostile(w: Timeline, tb: Tables, m: Migration, f: OverlayField) {
    && tb.registry == [m] && tb.fields == [f] && m.auto && m.strategy.OrphanRecreate?
    && f.createOnly && f.migration == m.id != "" && f.ownerApp != ""
    && ProbePatch(tb, f).Some?
    && forall t :: HostileAt(w(t), tb, f) && (w(t).recordAnswers <==> t < 2)
  }

  ghost predicate HostileAt(now: World, tb: Tables, f: OverlayField) {
    && Declared(tb, f).Some? && ProbePatch(tb, f).Some?
    && now.objects(f.target).Object? && LacksValue(tb, f, Declared(tb, f).value, now.objects(f.target).fields)
    && now.apps(f.ownerApp).App?
    && OwnerGuard.Verdict(now.apps(f.ownerApp).app, f.value, Declared(tb, f).value, tb.show).Ready?
    && now.probe(f.target, ProbePatch(tb, f).value) == Refused(true, false)
    && now.writeOk && now.deleteOk
  }

  lemma HostileStatus(w: Timeline, tb: Tables, m: Migration, f: OverlayField, st: St)
    requires Hostile(w, tb, m, f) && (st.log == [] <==> m.id !in st.store.data)
    ensures var read := st.(log := st.log + [ReadObject(f.target)] + [ReadRecord(m.id, st.log == [], m.id in st.store.data)]);
            Statuses(w, tb, tb.fields, st) == ([Status(m, f, Pending, false, Declared(tb, f).value)], read)
  {
    hide Delivered;
    hide LiveAt;
    hide ProbePatch;
    hide Lookup;
    assert HostileAt(w(|st.log|), tb, f);
    assert w(|st.log| + 1).recordAnswers <==> |st.log| + 1 < 2;
    var s := Status(m, f, Pending, false, Declared(tb, f).value);
    var read := st.(log := st.log + [ReadObject(f.target)] + [ReadRecord(m.id, st.log == [], m.id in st.store.data)]);
    assert ReadStatus(w, tb, m, f, st) == (s, read);
    assert MigrationFor(tb.registry, f.migration) == Some(m);
    hide ReadStatus;
    assert StatusOf(w, tb, f, st) == (s, read);
    hide StatusOf;
    assert tb.fields[1..] == [];
    assert Statuses(w, tb, [], read) == ([], read);
    assert [s] + [] == [s];
  }

  lemma HostileAttempt(w: Timeline, tb: Tables, m: Migration, f: OverlayField, s: Status, read: St)
    requires Hostile(w, tb, m, f) && s == Status(m, f, Pending, false, Declared(tb, f).value)
    requires OneManagerPerKey(read.store)
    ensures var p := PassStep(w, tb, s, Pass({}, NOTHING, read));
            && p.st.log == read.log + [ReadApp(f.ownerApp)] + [Recorded(m.id)] + [Probed(f.target)] + [Deleted(m.id, f.target, true)]
            && OneManagerPerKey(p.st.store) && m.id in p.st.store.data
  {
    hide Delivered;
    hide LiveAt;
    hide ProbePatch;
    hide OwnerGuard.Verdict;
    var t := |read.log|;
    assert HostileAt(w(t), tb, f) && HostileAt(w(t + 1), tb, f) && HostileAt(w(t + 2), tb, f) && HostileAt(w(t + 3), tb, f);
    RecordKeepsOthers(read.store, m.id, t + 1);
    hide Record;
    var asked := Tick(read, ReadApp(f.ownerApp));
    assert OwnerCheck(w, tb, f, s.declared, read) == (OwnerGuard.Ready, asked);
    var recorded := Tick(asked.(store := Record(read.store, m.id, t + 1)), Recorded(m.id));
    assert RecordAttempt(w, m.id, asked) == (true, recorded);
    var probed := Tick(recorded, Probed(f.target));
    assert Recreate(w, tb, m, f, recorded) == (Gone, Tick(probed, Deleted(m.id, f.target, true)));
  }

  lemma HostileTally(m: Migration, f: OverlayField, log: seq<Event>, kind: Kind)
    ensures var later := log + [ReadObject(f.target)] + [ReadRecord(m.id, log == [], log != [])] + [ReadApp(f.ownerApp)]
                         + [Recorded(m.id)] + [Probed(f.target)] + [Deleted(m.id, f.target, true)];
            Tally(later, kind, m.id) == Tally(log, kind, m.id) + if kind == Deletes || (kind == FailedReads && log != []) then 1 else 0
  {
    hide Tally;
    var a := log + [ReadObject(f.target)];
    var b := a + [ReadRecord(m.id, log == [], log != [])];
    var c := b + [ReadApp(f.ownerApp)];
    var d := c + [Recorded(m.id)];
    var e := d + [Probed(f.target)];
    TallyAppend(log, ReadObject(f.target), kind, m.id);
    TallyAppend(a, ReadRecord(m.id, log == [], log != []), kind, m.id);
    TallyAppend(b, ReadApp(f.ownerApp), kind, m.id);
    TallyAppend(c, Recorded(m.id), kind, m.id);
    TallyAppend(d, Probed(f.target), kind, m.id);
    TallyAppend(e, Deleted(m.id, f.target, true), kind, m.id);
  }

  /** One converge run of a single poll. */
  function OnePoll(): Run {
    ConvergeRun([{}])
  }

  function Polls(n: nat): seq<Run> {
    if n == 0 then [] else [OnePoll()] + Polls(n - 1)
  }

  lemma OnePollIsOnePass(w: Timeline, tb: Tables, st: St)
    ensures RunOnce(w, tb, OnePoll(), st) == ApplyPending(w, tb, {}, st).st
  {
    hide ApplyPending;
    var marks := OnePoll().marks;
    var none: set<string> := {};
    assert none + marks[0] == none && marks[1..] == [];
    var p := ApplyPending(w, tb, none, st);
    assert Converge(w, tb, marks[1..], p.attempted, p.st).st == p.st;
    assert Converge(w, tb, marks, none, st) == Converge(w, tb, marks[1..], p.attempted, p.st);
  }

  lemma HostileRun(w: Timeline, tb: Tables, m: Migration, f: OverlayField, st: St)
    requires Hostile(w, tb, m, f) && OneManagerPerKey(st.store) && (st.log == [] <==> m.id !in st.store.data)
    ensures var after := RunOnce(w, tb, OnePoll(), st);
            && after.log != [] && OneManagerPerKey(after.store) && m.id in after.store.data
            && Tally(after.log, Deletes, m.id) == Tally(st.log, Deletes, m.id) + 1
            && Tally(after.log, FailedReads, m.id) == Tally(st.log, FailedReads, m.id) + if st.log == [] then 0 else 1
  {
    var s := Status(m, f, Pending, false, Declared(tb, f).value);
    HostileStatus(w, tb, m, f, st);
    var read := Statuses(w, tb, tb.fields, st).1;
    HostileAttempt(w, tb, m, f, s, read);
    hide Hostile;
    hide PassStep;
    hide Statuses;
    hide OneManagerPerKey;
    hide Tally;
    hide RunOnce;
    var p := PassStep(w, tb, s, Pass({}, NOTHING, read));
    assert [s][1..] == [] && PassOver(w, tb, [], p) == p && PassOver(w, tb, [s], Pass({}, NOTHING, read)) == p;
    OnePollIsOnePass(w, tb, st);
    HostileTally(m, f, st.log, Deletes);
    HostileTally(m, f, st.log, FailedReads);
  }

  lemma {:induction false} HostileRuns(w: Timeline, tb: Tables, m: Migration, f: OverlayField, n: nat, st: St)
    requires Hostile(w, tb, m, f) && OneManagerPerKey(st.store) && (st.log == [] <==> m.id !in st.store.data)
    ensures var after := RunAll(w, tb, Polls(n), st);
            && Tally(after.log, Deletes, m.id) == Tally(st.log, Deletes, m.id) + n
            && Tally(after.log, FailedReads, m.id) == Tally(st.log, FailedReads, m.id) + if st.log == [] && n > 0 then n - 1 else n
  {
    hide Hostile;
    hide RunOnce;
    hide Tally;
    hide OneManagerPerKey;
    if n > 0 {
      HostileRun(w, tb, m, f, st);
      HostileRuns(w, tb, m, f, n - 1, RunOnce(w, tb, OnePoll(), st));
      assert Polls(n)[0] == OnePoll() && Polls(n)[1..] == Polls(n - 1);
    }
  }

  /** The bound is exact: on such a cluster n + 1 unforced runs delete n + 1 times, with n failed
      record reads. */
  lemma BoundIsReached(w: Timeline, tb: Tables, m: Migration, f: OverlayField, n: nat)
    requires Hostile(w, tb, m, f)
    ensures var after := RunAll(w, tb, Polls(n + 1), St(Store(map[], map[]), []));
            Tally(after.log, Deletes, m.id) == n + 1 && Tally(after.log, FailedReads, m.id) == n
  {
    hide Hostile;
    hide RunAll;
    HostileRuns(w, tb, m, f, n + 1, St(Store(map[], map[]), []));
  }
}
