/** One row, one Application and two clusters, on which the bounds of BrownfieldSafety.dfy are met
    and its exceptions happen. */
module BrownfieldExamples {
  import opened Values
  import opened AttemptRecord
  import opened OverlayFields
  import opened Brownfield
  import opened BrownfieldSafety
  import OwnerGuard
  import HelmValues

  function Row(): OverlayField {
    OverlayField("app", ["v"], ObjectKey("StatefulSet", "ns", "loki"), [Key("spec")], MatchScalar, "owner", true, "m")
  }

  function Auto(): Migration {
    Migration("m", OrphanRecreate, true)
  }

  /** A row whose builder writes the declared value under `spec`. */
  function OneRow(show: Value -> string): Tables {
    Tables([Auto()], [Row()], map["app" := map["v" := Str("x")]], (f, overlay) => Some(map["spec" := Str("x")]), show)
  }

  /** A synced, self-healing Application whose values carry the declared value. */
  function Owner(): OwnerGuard.Application {
    OwnerGuard.Application("", "Synced", true, Some(true), [OwnerGuard.Source(Some(map["v" := Str("x")]), map[], [], [])])
  }

  /** The object is there without the value, its owner would put it back, and the probe is refused
      for immutability. */
  function Cluster(recordAnswers: bool, deleteOk: bool): World {
    World(key => Object(map[]), recordAnswers, name => App(Owner()), (key, patch) => Refused(true, false), true, true, deleteOk, 0)
  }

  lemma RowIsProbed(show: Value -> string)
    ensures Declared(OneRow(show), Row()) == Some(Str("x"))
    ensures ProbePatch(OneRow(show), Row()) == Some(map["spec" := Str("x")])
  {
    var patch: Fields := map["spec" := Str("x")];
    assert Lookup(Map(map["v" := Str("x")]), ["v"]) == Some(Str("x")) by {
      assert ["v"][1..] == [];
    }
    assert [Key("spec")][1..] == [];
    assert LiveAt(Map(patch), [Key("spec")]) == Found(Str("x"));
    assert Delivered(MatchScalar, Found(Str("x")), Str("x"), show) == Verdict(true, true);
    assert ExtraUnder(Str("x"), "spec", [Key("spec")], [Field("spec")], "", false) == {};
    assert ExtraWrites(Map(patch), [Key("spec")], [], "", false) == {};
  }

  lemma OwnerIsReady(show: Value -> string)
    ensures OwnerGuard.Verdict(Owner(), ["v"], Str("x"), show) == OwnerGuard.Ready
  {
    var doc: Fields := map["v" := Str("x")];
    var sources := Owner().sources;
    assert sources[..0] == [] && OwnerGuard.Docs([]) == [] && OwnerGuard.Docs(sources) == [doc];
    assert Lookup(Map(doc), ["v"]) == Some(Str("x")) by {
      assert ["v"][1..] == [];
    }
    assert HelmValues.LastCarried([doc], ["v"]) == Some(Str("x"));
  }

  function RecordsUnreadAfterTwo(t: nat): World {
    Cluster(t < 2, true)
  }

  /** Such a cluster exists, so the bound is reached. */
  lemma HostileExists(show: Value -> string)
    ensures Hostile(RecordsUnreadAfterTwo, OneRow(show), Auto(), Row())
  {
    RowIsProbed(show);
    OwnerIsReady(show);
    hide OwnerGuard.Verdict;
    hide ProbePatch;
    hide Declared;
    assert LiveAt(Map(map[]), [Key("spec")]) == Absent;
    forall t ensures HostileAt(RecordsUnreadAfterTwo(t), OneRow(show), Row()) {
    }
  }

  function RecordsUnreadDeletesFail(t: nat): World {
    Cluster(false, false)
  }

  function Before(): St {
    St(Store(map["m" := 7], map[]), [])
  }

  function Unrecorded(): Status {
    Status(Auto(), Row(), Pending, false, Str("x"))
  }

  function AfterReads(): St {
    Tick(Tick(Before(), ReadObject(Row().target)), ReadRecord("m", false, true))
  }

  lemma UnreadIsPending(show: Value -> string)
    ensures Statuses(RecordsUnreadDeletesFail, OneRow(show), OneRow(show).fields, Before()) == ([Unrecorded()], AfterReads())
  {
    var w, tb := RecordsUnreadDeletesFail, OneRow(show);
    RowIsProbed(show);
    hide Declared;
    assert LiveAt(Map(map[]), [Key("spec")]) == Absent;
    assert ReadStatus(w, tb, Auto(), Row(), Before()) == (Unrecorded(), AfterReads());
    hide ReadStatus;
    assert StatusOf(w, tb, Row(), Before()) == (Unrecorded(), AfterReads());
    hide StatusOf;
    assert tb.fields[1..] == [] && Statuses(w, tb, [], AfterReads()) == ([], AfterReads());
    assert [Unrecorded()] + [] == [Unrecorded()];
  }

  lemma UnreadIsWithdrawn(show: Value -> string)
    ensures var (answer, after) := Execute(RecordsUnreadDeletesFail, OneRow(show), Unrecorded(), true, false, false, AfterReads());
            answer == Withdrawn(Refusal(false)) && after.store.data == map[]
  {
    RowIsProbed(show);
    OwnerIsReady(show);
    hide OwnerGuard.Verdict;
    hide ProbePatch;
    hide Declared;
    hide Await;
  }

  /** A record found but not read is lost: the run overwrites it, fails to delete, and takes it back. */
  lemma UnreadRecordIsLost(show: Value -> string)
    ensures var (answer, after) := RunMigration(RecordsUnreadDeletesFail, OneRow(show), "m", true, false, false, Before());
            answer == Withdrawn(Refusal(false)) && after.store.data == map[] && Before().store.data == map["m" := 7]
  {
    hide Statuses;
    hide Execute;
    UnreadIsPending(show);
    UnreadIsWithdrawn(show);
    assert FirstFor([Unrecorded()], "m") == Some(Unrecorded());
  }

  // ── the bound is reached by forced runs too ──

  /** As Hostile, but the record can always be read. */
  ghost predicate Stubborn(w: Timeline, tb: Tables, m: Migration, f: OverlayField) {
    && tb.registry == [m] && tb.fields == [f] && m.strategy.OrphanRecreate?
    && f.createOnly && f.migration == m.id != "" && f.ownerApp != "" && ProbePatch(tb, f).Some?
    && forall t :: HostileAt(w(t), tb, f) && w(t).recordAnswers
  }

  function RecordsRead(t: nat): World {
    Cluster(true, true)
  }

  lemma StubbornExists(show: Value -> string)
    ensures Stubborn(RecordsRead, OneRow(show), Auto(), Row())
  {
    RowIsProbed(show);
    OwnerIsReady(show);
    hide OwnerGuard.Verdict;
    hide ProbePatch;
    hide Declared;
    assert LiveAt(Map(map[]), [Key("spec")]) == Absent;
    forall t ensures HostileAt(RecordsRead(t), OneRow(show), Row()) {
    }
  }

  /** Already tried when there is a record, pending when there is none. */
  function StubbornFinds(tb: Tables, m: Migration, f: OverlayField, st: St): Status
    requires Declared(tb, f).Some?
  {
    Status(m, f, if m.id in st.store.data then Unknown else Pending, m.id in st.store.data, Declared(tb, f).value)
  }

  lemma StubbornStatus(w: Timeline, tb: Tables, m: Migration, f: OverlayField, st: St)
    requires Stubborn(w, tb, m, f)
    ensures HostileAt(w(0), tb, f)
    ensures Statuses(w, tb, tb.fields, st) ==
            ([StubbornFinds(tb, m, f, st)], st.(log := st.log + [ReadObject(f.target)] + [ReadRecord(m.id, true, m.id in st.store.data)]))
  {
    hide Delivered;
    hide LiveAt;
    hide ProbePatch;
    hide Lookup;
    assert HostileAt(w(|st.log|), tb, f) && HostileAt(w(0), tb, f) && w(|st.log| + 1).recordAnswers;
    var s := StubbornFinds(tb, m, f, st);
    var read := st.(log := st.log + [ReadObject(f.target)] + [ReadRecord(m.id, true, m.id in st.store.data)]);
    assert ReadStatus(w, tb, m, f, st) == (s, read);
    assert MigrationFor(tb.registry, f.migration) == Some(m);
    hide ReadStatus;
    assert StatusOf(w, tb, f, st) == (s, read);
    hide StatusOf;
    assert tb.fields[1..] == [] && Statuses(w, tb, [], read) == ([], read);
    assert [s] + [] == [s];
  }

  lemma StubbornAttempt(w: Timeline, tb: Tables, m: Migration, f: OverlayField, st: St)
    requires Stubborn(w, tb, m, f) && OneManagerPerKey(st.store)
    ensures var (outcome, after) := Attempt(w, tb, m, f, st);
            && outcome.Gone? && m.id in after.store.data && OneManagerPerKey(after.store)
            && after.log == st.log + [Recorded(m.id)] + [Probed(f.target)] + [Deleted(m.id, f.target, true)]
  {
    hide ProbePatch;
    hide Delivered;
    hide LiveAt;
    var t := |st.log|;
    assert HostileAt(w(t), tb, f) && HostileAt(w(t + 1), tb, f) && HostileAt(w(t + 2), tb, f);
    RecordKeepsOthers(st.store, m.id, t);
    hide Record;
    var recorded := Tick(st.(store := Record(st.store, m.id, t)), Recorded(m.id));
    assert RecordAttempt(w, m.id, st) == (true, recorded);
    var probed := Tick(recorded, Probed(f.target));
    assert Recreate(w, tb, m, f, recorded) == (Gone, Tick(probed, Deleted(m.id, f.target, true)));
  }

  lemma StubbornOwner(w: Timeline, tb: Tables, m: Migration, f: OverlayField, st: St)
    requires Stubborn(w, tb, m, f)
    ensures Declared(tb, f).Some?
    ensures OwnerCheck(w, tb, f, Declared(tb, f).value, st) == (OwnerGuard.Ready, Tick(st, ReadApp(f.ownerApp)))
  {
    hide ProbePatch;
    hide Delivered;
    hide LiveAt;
    hide OwnerGuard.Verdict;
    assert HostileAt(w(|st.log|), tb, f);
  }

  function ForcedTally(kind: Kind, forced: bool): nat {
    match kind
    case Deletes => 1
    case Forced => if forced then 1 else 0
    case FailedReads => 0
  }

  /** The log of one run, up to the delete. */
  function RunLog(f: OverlayField, id: string, log: seq<Event>, forced: bool): seq<Event> {
    log + [ReadObject(f.target)] + [ReadRecord(id, true, forced)] + [ReadApp(f.ownerApp)]
    + (if forced then [Cleared(id, true)] else []) + [Recorded(id)] + [Probed(f.target)] + [Deleted(id, f.target, true)]
  }

  lemma AttemptTally(f: OverlayField, id: string, log: seq<Event>, forced: bool, kind: Kind)
    ensures Tally(RunLog(f, id, log, forced), kind, id) == Tally(log, kind, id) + ForcedTally(kind, forced)
  {
    hide Tally;
    var a := log + [ReadObject(f.target)];
    var b := a + [ReadRecord(id, true, forced)];
    var c := b + [ReadApp(f.ownerApp)];
    var d := c + (if forced then [Cleared(id, true)] else []);
    TallyAppend(log, ReadObject(f.target), kind, id);
    TallyAppend(a, ReadRecord(id, true, forced), kind, id);
    TallyAppend(b, ReadApp(f.ownerApp), kind, id);
    TallyAppend(c, Cleared(id, true), kind, id);
    assert c + [] == c;
    TallyAppend(d, Recorded(id), kind, id);
    TallyAppend(d + [Recorded(id)], Probed(f.target), kind, id);
    TallyAppend(d + [Recorded(id)] + [Probed(f.target)], Deleted(id, f.target, true), kind, id);
  }

  /** The wait fails no record read. */
  lemma {:induction false} AwaitReadsRecords(w: Timeline, tb: Tables, m: Migration, f: OverlayField, elapsed: nat, st: St)
    requires forall t :: w(t).recordAnswers
    ensures Tally(Await(w, tb, m, f, elapsed, st).1.log, FailedReads, m.id) == Tally(st.log, FailedReads, m.id)
    decreases RECREATE_BUDGET - elapsed
  {
    hide Tally;
    StatusReadsRecord(w, tb, m, f, st);
    hide ReadStatus;
    var (s, read) := ReadStatus(w, tb, m, f, st);
    var now := elapsed + w(Now(st)).pause;
    if s.state != Done && now < RECREATE_BUDGET {
      AwaitReadsRecords(w, tb, m, f, now + RECREATE_INTERVAL, read);
    }
  }

  lemma StatusReadsRecord(w: Timeline, tb: Tables, m: Migration, f: OverlayField, st: St)
    requires forall t :: w(t).recordAnswers
    ensures Tally(ReadStatus(w, tb, m, f, st).1.log, FailedReads, m.id) == Tally(st.log, FailedReads, m.id)
  {
    hide Delivered;
    hide LiveAt;
    hide Lookup;
    hide Tally;
    TallyAppend(st.log, ReadObject(f.target), FailedReads, m.id);
    TallyAppend(st.log + [ReadObject(f.target)], ReadRecord(m.id, true, m.id in st.store.data), FailedReads, m.id);
  }

  /** The attempt of one run, after the clear if it is forced. */
  lemma StubbornExecute(w: Timeline, tb: Tables, m: Migration, f: OverlayField, forced: bool, log: seq<Event>, read: St)
    requires Stubborn(w, tb, m, f) && OneManagerPerKey(read.store) && Declared(tb, f).Some?
    requires read.log == log + [ReadObject(f.target)] + [ReadRecord(m.id, true, forced)]
    ensures var s := Status(m, f, if forced then Unknown else Pending, forced, Declared(tb, f).value);
            var after := Execute(w, tb, s, true, false, forced, read).1;
            && m.id in after.store.data && OneManagerPerKey(after.store)
            && (forall kind :: Tally(after.log, kind, m.id) == Tally(RunLog(f, m.id, log, forced), kind, m.id))
  {
    StubbornOwner(w, tb, m, f, read);
    hide Declared;
    hide Stubborn;
    hide OwnerCheck;
    hide Attempt;
    hide Await;
    hide Execute;
    hide ClearAttempt;
    hide OneManagerPerKey;
    hide Tally;
    hide DeletesJustified;
    hide Bounded;
    var s := Status(m, f, if forced then Unknown else Pending, forced, Declared(tb, f).value);
    var asked := Tick(read, ReadApp(f.ownerApp));
    var clean := if forced then ClearAttempt(w, m.id, true, asked) else asked;
    assert asked.log + [] == asked.log;
    StubbornAttempt(w, tb, m, f, clean);
    var after := Attempt(w, tb, m, f, clean).1;
    assert after.log == RunLog(f, m.id, log, forced);
    ExecuteShape(w, tb, s, forced, read);
    AwaitReads(w, tb, m, f, 0, after);
    AwaitReadsRecords(w, tb, m, f, 0, after);
    ReadsAreSafe(w, tb, 0, after, Await(w, tb, m, f, 0, after).1);
    forall kind
      ensures Tally(Await(w, tb, m, f, 0, after).1.log, kind, m.id) == Tally(after.log, kind, m.id)
    {
      match kind
      case Deletes =>
      case Forced =>
      case FailedReads =>
    }
  }

  /** One run, forced when there is a record to force. */
  lemma StubbornRun(w: Timeline, tb: Tables, m: Migration, f: OverlayField, st: St)
    requires Stubborn(w, tb, m, f) && OneManagerPerKey(st.store)
    ensures var forced := m.id in st.store.data;
            var after := RunOnce(w, tb, OperatorRun(m.id, true, false, forced), st);
            && m.id in after.store.data && OneManagerPerKey(after.store)
            && forall kind :: Tally(after.log, kind, m.id) == Tally(st.log, kind, m.id) + ForcedTally(kind, forced)
  {
    StubbornOwner(w, tb, m, f, st);
    hide Declared;
    hide Stubborn;
    hide Statuses;
    hide RunMigration;
    hide Execute;
    hide OneManagerPerKey;
    hide Tally;
    hide RunLog;
    hide ForcedTally;
    var forced := m.id in st.store.data;
    StubbornStatus(w, tb, m, f, st);
    var read := Statuses(w, tb, tb.fields, st).1;
    var s := StubbornFinds(tb, m, f, st);
    assert FirstFor([s], m.id) == Some(s);
    RunMigrationShape(w, tb, m.id, true, false, forced, st);
    StubbornExecute(w, tb, m, f, forced, st.log, read);
    var after := Execute(w, tb, s, true, false, forced, read).1;
    assert RunOnce(w, tb, OperatorRun(m.id, true, false, forced), st) == after;
    forall kind ensures Tally(after.log, kind, m.id) == Tally(st.log, kind, m.id) + ForcedTally(kind, forced) {
      AttemptTally(f, m.id, st.log, forced, kind);
    }
  }

  function ForcedRuns(id: string, n: nat): seq<Run> {
    if n == 0 then [] else [OperatorRun(id, true, false, true)] + ForcedRuns(id, n - 1)
  }

  lemma {:induction false} StubbornRuns(w: Timeline, tb: Tables, m: Migration, f: OverlayField, n: nat, st: St)
    requires Stubborn(w, tb, m, f) && OneManagerPerKey(st.store) && m.id in st.store.data
    ensures var after := RunAll(w, tb, ForcedRuns(m.id, n), st);
            && Tally(after.log, Deletes, m.id) == Tally(st.log, Deletes, m.id) + n
            && Tally(after.log, FailedReads, m.id) == Tally(st.log, FailedReads, m.id)
            && ForcedRunsOf(ForcedRuns(m.id, n), m.id) == n
  {
    hide Stubborn;
    hide RunOnce;
    hide Tally;
    hide OneManagerPerKey;
    if n > 0 {
      StubbornRun(w, tb, m, f, st);
      var run := OperatorRun(m.id, true, false, true);
      assert ForcedRuns(m.id, n)[0] == run && ForcedRuns(m.id, n)[1..] == ForcedRuns(m.id, n - 1);
      StubbornRuns(w, tb, m, f, n - 1, RunOnce(w, tb, run, st));
    }
  }

  /** One unforced run and n forced ones delete n + 1 times although every record was read. */
  lemma ForcedBoundIsReached(w: Timeline, tb: Tables, m: Migration, f: OverlayField, n: nat)
    requires Stubborn(w, tb, m, f)
    ensures var runs := [OperatorRun(m.id, true, false, false)] + ForcedRuns(m.id, n);
            var after := RunAll(w, tb, runs, St(Store(map[], map[]), []));
            && ForcedRunsOf(runs, m.id) == n && Tally(after.log, FailedReads, m.id) == 0
            && Tally(after.log, Deletes, m.id) == n + 1
  {
    hide Stubborn;
    hide RunOnce;
    var first := OperatorRun(m.id, true, false, false);
    var runs := [first] + ForcedRuns(m.id, n);
    var empty := St(Store(map[], map[]), []);
    StubbornRun(w, tb, m, f, empty);
    assert runs[0] == first && runs[1..] == ForcedRuns(m.id, n);
    StubbornRuns(w, tb, m, f, n, RunOnce(w, tb, first, empty));
    assert Tally([], Deletes, m.id) == 0 && Tally([], FailedReads, m.id) == 0;
  }
}
