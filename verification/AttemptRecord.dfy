/** The ConfigMap of attempt records, with the field ownership server-side apply keeps on it. */
module AttemptRecord {

  type Time = nat

  /** The recorded times by migration id, and which field manager owns which keys. */
  datatype Store = Store(data: map<string, Time>, owned: map<string, set<string>>)

  function OwnedBy(s: Store, manager: string): set<string> {
    if manager in s.owned then s.owned[manager] else {}
  }

  /** `kubectl apply --server-side --force-conflicts` of exactly the keys in `sent`: keys the
      manager owned, no longer sends and nobody else owns are pruned; a key sent with a new value
      is taken over from every other manager. */
  function ServerSideApply(s: Store, manager: string, sent: map<string, Time>): Store {
    var pruned := set k | k in OwnedBy(s, manager) && k !in sent &&
                          (forall m | m in s.owned && m != manager :: k !in s.owned[m]);
    var taken := set k | k in sent && !(k in s.data && s.data[k] == sent[k]);
    Store((s.data - pruned) + sent, (map m | m in s.owned :: s.owned[m] - taken)[manager := sent.Keys])
  }

  /** A merge patch that sets one data key to null. */
  function PatchNull(s: Store, key: string): Store {
    Store(s.data - {key}, map m | m in s.owned :: s.owned[m] - {key})
  }

  /** recordAttempt applies with one manager per migration. */
  function ManagerOf(id: string): string {
    "llz-brownfield-" + id
  }

  function Record(s: Store, id: string, now: Time): Store {
    ServerSideApply(s, ManagerOf(id), map[id := now])
  }

  function Clear(s: Store, id: string): Store {
    PatchNull(s, id)
  }

  /** Nobody owns a key except the manager named after it. */
  ghost predicate OneManagerPerKey(s: Store) {
    forall m | m in s.owned :: forall k | k in s.owned[m] :: m == ManagerOf(k)
  }

  lemma ManagersAreDistinct(a: string, b: string)
    requires ManagerOf(a) == ManagerOf(b)
    ensures a == b
  {
    assert ManagerOf(a)[15..] == a && ManagerOf(b)[15..] == b;
  }

  /** Recording one migration adds its key and disturbs no other. */
  lemma RecordKeepsOthers(s: Store, id: string, now: Time)
    requires OneManagerPerKey(s)
    ensures Record(s, id, now).data == s.data[id := now]
    ensures OneManagerPerKey(Record(s, id, now))
  {
    forall k | k in OwnedBy(s, ManagerOf(id))
      ensures k == id
    {
      ManagersAreDistinct(k, id);
    }
  }

  /** Clearing one migration removes its key and disturbs no other. */
  lemma ClearKeepsOthers(s: Store, id: string)
    requires OneManagerPerKey(s)
    ensures Clear(s, id).data == s.data - {id}
    ensures OneManagerPerKey(Clear(s, id))
  {
  }

  /** A shared manager would not do: recording a second migration prunes the first one's record. */
  lemma SharedManagerForgets(s: Store, manager: string, a: string, b: string, t: Time, u: Time)
    requires a != b && a !in s.data
    requires forall m | m in s.owned && m != manager :: a !in s.owned[m]
    ensures a in ServerSideApply(s, manager, map[a := t]).data
    ensures a !in ServerSideApply(ServerSideApply(s, manager, map[a := t]), manager, map[b := u]).data
  {
    var once := ServerSideApply(s, manager, map[a := t]);
    assert a in OwnedBy(once, manager);
    assert forall m | m in once.owned && m != manager :: a !in once.owned[m];
  }
}
