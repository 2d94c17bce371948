/** mergeAsserted and mergeNamedSeq as they run: Go maps are references, the base is updated in
    place, and a key or entry the base lacks is filled with the asserted reference itself. */
module AssertedMergeHeap {
  import opened Values
  import opened AssertedMerge

  /** A Go `any`: a reference to a map, a slice of such references, or any other value (which
      the merge only ever compares and replaces whole). */
  datatype Ref = Leaf(v: Value) | Obj(node: Node) | Slice(nodes: seq<Node>)

  function Under(r: Ref): seq<Node> {
    match r
    case Leaf(_) => []
    case Obj(n) => [n]
    case Slice(ns) => ns
  }

  class Node {
    var fields: map<string, Ref>
    ghost var model: Fields    // the tree this map stands for
    ghost var repr: set<Node>  // this map and every map below it

    /** The map is a tree: no map below one key is reachable from another key, or from itself. */
    ghost predicate Valid()
      reads this, repr
      decreases repr, 0
    {
      && this in repr
      && model.Keys == fields.Keys
      && (forall k | k in fields :: Ok(fields[k], repr - {this}) && model[k] == ValueOf(fields[k]))
      && (forall j, k | j in fields && k in fields && j != k :: Foot(fields[j]) !! Foot(fields[k]))
    }
  }

  /** Values never held as references: neither a map nor a list of maps. */
  predicate PlainLeaf(v: Value) {
    !v.Map? && !(v.List? && forall i | 0 <= i < |v.items| :: v.items[i].Map?)
  }

  ghost predicate Ok(r: Ref, bound: set<Node>)
    reads bound
    decreases bound, 1
  {
    && (r.Leaf? ==> PlainLeaf(r.v))
    && (forall n | n in Under(r) :: n in bound && n.repr <= bound && n.Valid())
    && (r.Slice? ==> forall i, j | 0 <= i < j < |r.nodes| :: r.nodes[i].repr !! r.nodes[j].repr)
  }

  ghost function Foot(r: Ref): set<Node>
    reads Under(r)
  {
    set n, x | n in Under(r) && x in n.repr :: x
  }

  ghost function ValueOf(r: Ref): Value
    reads Under(r)
  {
    match r
    case Leaf(v) => v
    case Obj(n) => assert n in Under(r); Map(n.model)
    case Slice(ns) => List(Models(ns))
  }

  ghost function Models(ns: seq<Node>): (vs: seq<Value>)
    reads ns
    ensures |vs| == |ns| && forall i | 0 <= i < |ns| :: vs[i] == Map(ns[i].model)
  {
    if ns == [] then [] else Models(ns[..|ns| - 1]) + [Map(ns[|ns| - 1].model)]
  }

  twostate lemma Unmoved(new r: Ref, new bound: set<Node>)
    requires old(allocated(r) && allocated(bound))
    requires old(Ok(r, bound)) && unchanged(old(Foot(r)))
    ensures Ok(r, bound) && Foot(r) == old(Foot(r)) && ValueOf(r) == old(ValueOf(r))
  {
    forall n | n in Under(r)
      ensures n.Valid() && n.repr == old(n.repr) && n.model == old(n.model)
    {
      assert old(n.repr) <= old(Foot(r));
      NodeUnmoved(n);
    }
    hide Node.Valid;
    if r.Slice? {
      assert Models(r.nodes) == old(Models(r.nodes));
    }
  }

  twostate lemma NodeUnmoved(n: Node)
    requires old(n.Valid()) && unchanged(old(n.repr))
    ensures n.Valid() && n.repr == old(n.repr) && n.model == old(n.model) && n.fields == old(n.fields)
  {
  }

  lemma OkGrows(r: Ref, small: set<Node>, large: set<Node>)
    requires small <= large && Ok(r, small)
    ensures Ok(r, large)
  {
  }

  lemma OkNarrows(r: Ref, large: set<Node>, small: set<Node>)
    requires Ok(r, large) && Foot(r) <= small
    ensures Ok(r, small)
  {
    assert forall n | n in Under(r) :: n in n.repr && n.repr <= Foot(r);
  }

  /** Writing to one map does not disturb a reference that cannot reach it. */
  twostate lemma Undisturbed(n: Node, new r: Ref, new bound: set<Node>)
    requires old(allocated(r) && allocated(bound))
    requires old(Ok(r, bound)) && n !in bound && unchanged(bound)
    ensures Ok(r, bound) && Foot(r) == old(Foot(r)) && ValueOf(r) == old(ValueOf(r))
  {
    assert old(Foot(r)) <= bound;
    Unmoved(r, bound);
  }

  ghost function FootAt(n: Node, k: string): set<Node>
    reads n, if k in n.fields then Under(n.fields[k]) else []
  {
    if k in n.fields then Foot(n.fields[k]) else {}
  }

  lemma FieldOk(n: Node, k: string)
    requires n.Valid() && k in n.fields
    ensures Ok(n.fields[k], n.repr - {n}) && n.model[k] == ValueOf(n.fields[k])
    ensures FootAt(n, k) == Foot(n.fields[k]) && FootAt(n, k) < n.repr
  {
  }

  lemma FootsWithin(n: Node)
    requires n.Valid()
    ensures forall k :: FootAt(n, k) <= n.repr - {n}
    ensures forall j, k | j != k :: FootAt(n, j) !! FootAt(n, k)
    ensures n in n.repr && n.fields.Keys == n.model.Keys
  {
  }

  lemma DistinctAt(over: Fields, k: string)
    requires Distinct(over) && k in over
    ensures DistinctValue(over[k])
  {
  }

  /** Replacing what is under one key, with maps from outside the tree or from under that key,
      leaves a tree in which every other key is as it was. */
  twostate lemma Rebuilt(n: Node, new k: string, new r: Ref, new extra: set<Node>)
    requires old(allocated(extra))
    requires old(n.Valid()) && extra !! old(n.repr)
    requires unchanged(old(n.repr) - {n} - old(FootAt(n, k)))
    requires n.fields == old(n.fields)[k := r] && n.repr == old(n.repr) + extra
    requires n.model == old(n.model)[k := ValueOf(r)]
    requires Ok(r, n.repr - {n}) && Foot(r) <= old(FootAt(n, k)) + extra
    ensures n.Valid()
    ensures forall j | j != k :: FootAt(n, j) == old(FootAt(n, j))
  {
    forall j | j in n.fields && j != k
      ensures Ok(n.fields[j], n.repr - {n}) && n.model[j] == ValueOf(n.fields[j]) && FootAt(n, j) == old(FootAt(n, j))
    {
      assert old(FootAt(n, j)) !! old(FootAt(n, k)) by {
        if k in old(n.fields) {
          assert old(Foot(n.fields[j])) !! old(Foot(n.fields[k]));
        }
      }
      Unmoved(n.fields[j], old(n.repr) - {n});
      OkGrows(n.fields[j], old(n.repr) - {n}, n.repr - {n});
    }
    forall i, j | i in n.fields && j in n.fields && i != j
      ensures Foot(n.fields[i]) !! Foot(n.fields[j])
    {
      assert FootAt(n, i) <= (if i == k then old(FootAt(n, k)) + extra else old(FootAt(n, i)));
      assert FootAt(n, j) <= (if j == k then old(FootAt(n, k)) + extra else old(FootAt(n, j)));
      if i != k { assert old(FootAt(n, i)) <= old(n.repr); }
      if j != k { assert old(FootAt(n, j)) <= old(n.repr); }
    }
  }

  /** The merge of the visited keys only. */
  ghost function MergeKeys(base: Fields, over: Fields, keys: set<string>): Fields
    requires keys <= over.Keys
  {
    map k | k in base.Keys + keys ::
      if k !in keys then base[k] else if k !in base then over[k] else MergeValue(base[k], over[k])
  }

  ghost predicate ChangesKeys(base: Fields, over: Fields, keys: set<string>)
    requires keys <= over.Keys
  {
    exists k | k in keys :: k !in base || ChangesValue(base[k], over[k])
  }

  lemma OneMoreKey(base: Fields, over: Fields, keys: set<string>, k: string)
    requires keys <= over.Keys && k in over && k !in keys
    ensures k in MergeKeys(base, over, keys) <==> k in base
    ensures k in base ==> MergeKeys(base, over, keys)[k] == base[k]
    ensures MergeKeys(base, over, keys + {k}) ==
            MergeKeys(base, over, keys)[k := if k in base then MergeValue(base[k], over[k]) else over[k]]
    ensures ChangesKeys(base, over, keys + {k}) ==
            (ChangesKeys(base, over, keys) || k !in base || ChangesValue(base[k], over[k]))
  {
  }

  lemma FieldsOk(n: Node)
    requires n.Valid()
    ensures forall k | k in n.fields :: Ok(n.fields[k], n.repr - {n}) && n.model[k] == ValueOf(n.fields[k]) && FootAt(n, k) == Foot(n.fields[k])
  {
    forall k | k in n.fields
      ensures Ok(n.fields[k], n.repr - {n}) && n.model[k] == ValueOf(n.fields[k]) && FootAt(n, k) == Foot(n.fields[k])
    {
      FieldOk(n, k);
    }
  }

  lemma UnderWithin(n: Node)
    requires n.Valid()
    ensures forall k, m | k in n.fields && m in Under(n.fields[k]) :: m in n.repr
  {
    forall k, m | k in n.fields && m in Under(n.fields[k]) ensures m in n.repr {
      FieldOk(n, k);
    }
  }

  /** What sharing the merge sets up: a key the base lacked holds the asserted reference itself,
      and a map under a key stays the map it was. */
  ghost predicate Adopted(before: map<string, Ref>, over: map<string, Ref>, after: map<string, Ref>) {
    AdoptedBut(before, over, after, {})
  }

  ghost predicate AdoptedBut(before: map<string, Ref>, over: map<string, Ref>, after: map<string, Ref>, todo: set<string>) {
    (forall k | k in before && (k !in over || k in todo || (before[k].Obj? && over[k].Obj?)) :: k in after && after[k] == before[k])
    && (forall k | k in over && k !in todo && k !in before :: k in after && after[k] == over[k])
    && (forall k | k in after :: k in before || (k in over && k !in todo))
  }

  /** Both maps at the start of the loop. */
  datatype Begun = Begun(fields: map<string, Ref>, model: Fields, over: map<string, Ref>, asserted: Fields)

  ghost predicate Merging(b: Begun, fields: map<string, Ref>, model: Fields, changed: bool, todo: set<string>) {
    && todo <= b.asserted.Keys == b.over.Keys && fields.Keys == model.Keys
    && model == MergeKeys(b.model, b.asserted, b.asserted.Keys - todo)
    && changed == ChangesKeys(b.model, b.asserted, b.asserted.Keys - todo)
    && AdoptedBut(b.fields, b.over, fields, todo)
  }

  lemma MergingStart(b: Begun)
    requires b.asserted.Keys == b.over.Keys && b.fields.Keys == b.model.Keys
    ensures Merging(b, b.fields, b.model, false, b.over.Keys)
  {
    assert b.asserted.Keys - b.asserted.Keys == {};
  }

  lemma AdoptOne(before: map<string, Ref>, over: map<string, Ref>, here: map<string, Ref>, r: Ref, todo: set<string>, k: string)
    requires AdoptedBut(before, over, here, todo) && k in todo && k in over
    requires k !in here ==> r == over[k]
    requires k in here && here[k].Obj? && over[k].Obj? ==> r == here[k]
    ensures AdoptedBut(before, over, here[k := r], todo - {k})
  {
  }

  lemma MergingNext(b: Begun, fields: map<string, Ref>, model: Fields, changed: bool, todo: set<string>, k: string, r: Ref)
    requires Merging(b, fields, model, changed, todo) && k in todo && k in b.over && k in b.asserted
    requires k !in fields ==> r == b.over[k]
    requires k in fields && fields[k].Obj? && b.over[k].Obj? ==> r == fields[k]
    ensures var v := if k in model then MergeValue(model[k], b.asserted[k]) else b.asserted[k];
            Merging(b, fields[k := r], model[k := v], changed || k !in model || ChangesValue(model[k], b.asserted[k]), todo - {k})
  {
    hide MergeKeys;
    hide ChangesKeys;
    hide MergeValue;
    hide ChangesValue;
    hide AdoptedBut;
    AdoptOne(b.fields, b.over, fields, r, todo, k);
    OneMoreKey(b.model, b.asserted, b.asserted.Keys - todo, k);
    assert b.asserted.Keys - (todo - {k}) == b.asserted.Keys - todo + {k};
  }

  lemma MergingEnd(b: Begun, fields: map<string, Ref>, model: Fields, changed: bool)
    requires Merging(b, fields, model, changed, {})
    ensures model == Merge(b.model, b.asserted) && changed == Changes(b.model, b.asserted)
    ensures Adopted(b.fields, b.over, fields)
  {
    assert b.asserted.Keys - {} == b.asserted.Keys;
  }

  // ── what an entry hands over by reference ──

  /** A list entry at one moment: what it holds and which maps it reaches. */
  datatype Entry = Entry(fields: map<string, Ref>, repr: set<Node>)

  ghost function Entries(ns: seq<Node>): seq<Entry>
    reads ns
  {
    seq(|ns|, i requires 0 <= i < |ns| reads ns => Entry(ns[i].fields, ns[i].repr))
  }

  lemma EntriesAre(ns: seq<Node>)
    ensures |Entries(ns)| == |ns| && forall i | 0 <= i < |ns| :: Entries(ns)[i] == Entry(ns[i].fields, ns[i].repr)
  {
  }

  /** A field the first asserted entry brings and base entry `i` lacks, holding a map in every
      asserted entry that has it, ends up under that base entry as the first one's own map. */
  ghost predicate Hands(before: seq<Entry>, os: seq<Entry>, after: seq<Entry>, i: nat) {
    i < |before| <= |after| && os != [] &&
    forall k | k in os[0].fields && k !in before[i].fields && (forall t | 0 <= t < |os| && k in os[t].fields :: os[t].fields[k].Obj?) ::
      k in after[i].fields && after[i].fields[k] == os[0].fields[k]
  }

  /** One entry took another in, and no other entry changed. */
  ghost predicate OnlyEntry(before: seq<Entry>, i: int, e: map<string, Ref>, after: seq<Entry>) {
    && i < |before| <= |after| && (i >= 0 ==> Adopted(before[i].fields, e, after[i].fields))
    && forall j | 0 <= j < |before| && j != i :: after[j] == before[j]
  }

  /** Two named sequences before they are merged: the base entries, the one the first asserted
      entry goes to (or -1), and what both sides held. */
  datatype Meeting = Meeting(bs: seq<Node>, goes: int, had: seq<Entry>, brought: seq<Entry>)

  ghost function Meet(bv: Ref, ov: Ref): Option<Meeting>
    reads Under(bv), Under(ov)
  {
    if !NamedMapSeqs(bv, ov) || !AllNamed(Models(bv.nodes)) || !AllNamed(Models(ov.nodes)) then None
    else
      Some(Meeting(bv.nodes, Target(Models(bv.nodes), Models(ov.nodes)[0]), Entries(bv.nodes), Entries(ov.nodes)))
  }

  /** The base entry the first asserted one goes to takes its maps in, and they stay in both. */
  ghost predicate HandsOver(met: Option<Meeting>, ov: Ref, r: Ref)
    reads Under(ov), Under(r)
  {
    met.Some? ==>
      && ov.Slice? && r.Slice? && ov.nodes != [] && met.value.bs <= r.nodes
      && (met.value.goes >= 0 && met.value.brought != [] ==>
            && ov.nodes[0].fields == met.value.brought[0].fields
            && Hands(met.value.had, met.value.brought, Entries(r.nodes), met.value.goes))
  }

  /** The only key of the second map, when the first has it too. */
  ghost function LoneKey(before: map<string, Ref>, over: map<string, Ref>): (k: Option<string>)
    ensures k.Some? ==> k.value in before && over.Keys == {k.value}
    ensures forall j | over.Keys == {j} && j in before :: k == Some(j)
  {
    if exists j :: j in before && over.Keys == {j} then (var j :| j in before && over.Keys == {j}; Some(j)) else None
  }

  ghost function FeetOf(n: Node): map<string, set<Node>>
    requires n.Valid()
    reads n, n.repr
  {
    UnderWithin(n);
    map k | k in n.fields :: Foot(n.fields[k])
  }

  /** The maps below the keys still to be visited are among those left, `n` itself aside. */
  ghost predicate Unspent(feet: map<string, set<Node>>, todo: set<string>, left: set<Node>, n: Node) {
    && n in left && (forall k | k in todo :: k in feet && feet[k] <= left - {n})
    && forall j, k | j in todo && k in todo && j != k :: feet[j] !! feet[k]
  }

  lemma NothingSpent(n: Node)
    requires n.Valid()
    ensures Unspent(FeetOf(n), n.fields.Keys, n.repr, n) && forall k | k in n.fields :: FeetOf(n)[k] == Foot(n.fields[k])
  {
    forall k | k in n.fields ensures Foot(n.fields[k]) <= n.repr - {n} {
      FieldOk(n, k);
    }
  }

  lemma SpendOne(feet: map<string, set<Node>>, todo: set<string>, left: set<Node>, n: Node, k: string)
    requires Unspent(feet, todo, left, n) && k in todo
    ensures k in feet && feet[k] <= left && Unspent(feet, todo - {k}, left - feet[k], n) && n in left - feet[k]
  {
  }

  /** mergeAsserted on a non-nil base. The merged tree and the flag are right for every assertion.
      The result comes to share maps with `over`; the map `over` itself is never written to, and
      with distinct names nothing below it is either. */
  method MergeAsserted(base: Node, over: Node) returns (changed: bool)
    requires base.Valid() && over.Valid() && base.repr !! over.repr
    modifies base.repr, over.repr
    ensures base.Valid() && base.repr <= old(base.repr + over.repr) - {over}
    ensures base.model == old(Merge(base.model, over.model))
    ensures changed == old(Changes(base.model, over.model))
    ensures unchanged(over) && (old(Distinct(over.model)) ==> unchanged(old(over.repr)))
    ensures Adopted(old(base.fields), over.fields, base.fields)
    ensures forall k | over.fields.Keys == {k} && k in old(base.fields) ::
              k in base.fields && HandsOver(old(Meet(base.fields[k], over.fields[k])), over.fields[k], base.fields[k])
    decreases over.repr, 0
  {
    hide HandsOver;
    hide Meet;
    hide Ok;
    hide Foot;
    hide FootAt;
    hide ValueOf;
    hide Distinct;
    hide DistinctValue;
    hide Node.Valid;
    hide Merge;
    hide Changes;
    hide MergeValue;
    hide ChangesValue;
    hide Merging;
    hide Adopted;
    hide LoneKey;
    hide Unspent;
    hide FeetOf;
    ghost var asserted, begun := over.model, Begun(base.fields, base.model, over.fields, over.model);
    FootsWithin(base);
    FootsWithin(over);
    FieldsOk(over);
    changed := false;
    var todo := over.fields.Keys;
    MergingStart(begun);
    ghost var lone := LoneKey(base.fields, over.fields);
    ghost var met := if lone.Some? then Meet(base.fields[lone.value], over.fields[lone.value]) else None;
    ghost var feet := FeetOf(over);
    NothingSpent(over);
    ghost var left, kept := over.repr, if Distinct(asserted) then over.repr else {};
    while todo != {}
      invariant todo <= over.fields.Keys
      invariant left <= old(over.repr) && over in left && left !! base.repr && unchanged(left) && unchanged(kept)
      invariant Unspent(feet, todo, left, over)
      invariant base.Valid() && base.repr <= old(base.repr + over.repr)
      invariant Merging(begun, base.fields, base.model, changed, todo)
      invariant forall k | k in todo :: FootAt(base, k) <= old(base.repr)
      invariant lone.Some? && todo != {} ==>
                  todo == {lone.value} && lone.value in base.fields && Meet(base.fields[lone.value], over.fields[lone.value]) == met
      invariant lone.Some? && todo == {} ==> lone.value in base.fields && HandsOver(met, over.fields[lone.value], base.fields[lone.value])
      decreases todo
    {
      var k :| k in todo;
      SpendOne(feet, todo, left, over, k);
      Unmoved(over.fields[k], old(over.repr) - {over});
      FootsWithin(base);
      if Distinct(asserted) {
        DistinctAt(asserted, k);
      }
      left := left - feet[k];
      ghost var fields, model := base.fields, base.model;
      assert lone.Some? ==> k == lone.value;
      var sub := MergeTurn(base, k, over.fields[k], old(over.repr) - {over}, left, kept);
      MergingNext(begun, fields, model, changed, todo, k, base.fields[k]);
      changed := changed || sub;
      todo := todo - {k};
    }
    MergingEnd(begun, base.fields, base.model, changed);
  }

  /** One turn of the loop, with what it leaves alone: maps neither side can reach, and for
      distinct names every asserted map. */
  method MergeTurn(base: Node, k: string, ov: Ref, ghost bound: set<Node>, ghost left: set<Node>, ghost kept: set<Node>)
    returns (changed: bool)
    requires base.Valid() && Ok(ov, bound) && Foot(ov) !! base.repr
    requires base !in bound
    requires left !! base.repr && left !! Foot(ov)
    requires kept != {} ==> DistinctValue(ValueOf(ov)) && base !in kept && FootAt(base, k) !! kept
    modifies base, FootAt(base, k), Foot(ov)
    ensures base.Valid() && base.repr == old(base.repr + Foot(ov)) && left !! base.repr
    ensures k in base.fields && base.fields == old(base.fields)[k := base.fields[k]]
    ensures old(k !in base.fields) ==> base.fields[k] == ov
    ensures old(k in base.fields && base.fields[k].Obj? && ov.Obj?) ==> base.fields[k] == old(base.fields)[k]
    ensures base.model == old(base.model[k := if k in base.model then MergeValue(base.model[k], ValueOf(ov)) else ValueOf(ov)])
    ensures changed == old(k !in base.model || ChangesValue(base.model[k], ValueOf(ov)))
    ensures forall j | j != k :: FootAt(base, j) == old(FootAt(base, j))
    ensures unchanged(left) && unchanged(kept)
    ensures old(k in base.fields) ==> HandsOver(old(Meet(base.fields[k], ov)), ov, base.fields[k])
    decreases Foot(ov), 9
  {
    hide HandsOver;
    hide Meet;
    hide Ok;
    hide Foot;
    hide FootAt;
    hide ValueOf;
    hide Node.Valid;
    hide MergeValue;
    hide ChangesValue;
    hide DistinctValue;
    FootsWithin(base);
    changed := MergeKey(base, k, ov, bound);
  }

  /** One turn of the loop. */
  method MergeKey(base: Node, k: string, ov: Ref, ghost bound: set<Node>) returns (changed: bool)
    requires base.Valid() && Ok(ov, bound) && Foot(ov) !! base.repr
    requires base !in bound
    modifies base, FootAt(base, k), Foot(ov)
    ensures base.Valid() && base.repr == old(base.repr + Foot(ov))
    ensures k in base.fields && base.fields == old(base.fields)[k := base.fields[k]]
    ensures old(k !in base.fields) ==> base.fields[k] == ov
    ensures old(k in base.fields && base.fields[k].Obj? && ov.Obj?) ==> base.fields[k] == old(base.fields)[k]
    ensures base.model == old(base.model[k := if k in base.model then MergeValue(base.model[k], ValueOf(ov)) else ValueOf(ov)])
    ensures changed == old(k !in base.model || ChangesValue(base.model[k], ValueOf(ov)))
    ensures forall j | j != k :: FootAt(base, j) == old(FootAt(base, j))
    ensures old(DistinctValue(ValueOf(ov))) ==> unchanged(old(Foot(ov)))
    ensures old(k in base.fields) ==> HandsOver(old(Meet(base.fields[k], ov)), ov, base.fields[k])
    decreases Foot(ov), 8
  {
    hide HandsOver;
    hide Meet;
    hide Node.Valid;
    hide FootAt;
    hide Foot;
    hide ValueOf;
    hide Ok;
    hide MergeValue;
    hide ChangesValue;
    hide DistinctValue;
    var r := ov;
    changed := true;
    FootsWithin(base);
    ghost var all := base.repr - {base} + bound;
    OkGrows(ov, bound, all);
    if k in base.fields {
      FieldOk(base, k);
      OkGrows(base.fields[k], base.repr - {base}, all);
      r, changed := MergeRef(base.fields[k], ov, all);
    }
    ghost var grown := base.repr + old(Foot(ov));
    OkNarrows(r, all, grown - {base});
    assert base !in Under(r) && base !in Under(ov);
    label Merged:
    base.fields, base.model, base.repr := base.fields[k := r], base.model[k := ValueOf(r)], grown;
    Undisturbed@Merged(base, r, grown - {base});
    Rebuilt(base, k, r, old(Foot(ov)));
  }

  lemma ObjOk(n: Node)
    requires n.Valid()
    ensures Ok(Obj(n), n.repr) && Foot(Obj(n)) == n.repr && ValueOf(Obj(n)) == Map(n.model)
    ensures DistinctValue(Map(n.model)) <==> Distinct(n.model)
  {
  }

  lemma ObjIs(n: Node)
    ensures ValueOf(Obj(n)) == Map(n.model) && Foot(Obj(n)) == n.repr
  {
  }

  /** One key both sides carry: nested maps and named sequences merge, everything else is
      compared whole and replaced. */
  method MergeRef(bv: Ref, ov: Ref, ghost bound: set<Node>) returns (r: Ref, changed: bool)
    requires Ok(bv, bound) && Ok(ov, bound) && Foot(bv) !! Foot(ov)
    modifies Foot(bv), Foot(ov)
    ensures Ok(r, bound) && Foot(r) <= old(Foot(bv) + Foot(ov))
    ensures ValueOf(r) == old(MergeValue(ValueOf(bv), ValueOf(ov)))
    ensures changed == old(ChangesValue(ValueOf(bv), ValueOf(ov)))
    ensures bv.Obj? && ov.Obj? ==> r == bv
    ensures old(DistinctValue(ValueOf(ov))) ==> unchanged(old(Foot(ov)))
    ensures HandsOver(old(Meet(bv, ov)), ov, r)
    decreases Foot(ov), 7
  {
    hide Ok;
    hide Foot;
    hide ValueOf;
    hide Node.Valid;
    hide Merge;
    hide Changes;
    hide MergeValue;
    hide ChangesValue;
    hide Distinct;
    hide DistinctValue;
    hide Meet;
    hide HandsOver;
    hide Adopted;
    if bv.Obj? && ov.Obj? {
      ObjMeets(bv, ov);
      FieldOfObj(bv.node, bound);
      FieldOfObj(ov.node, bound);
      MapsMerge(bv.node.model, ov.node.model);
      changed := MergeAsserted(bv.node, ov.node);
      r := bv;
      NothingHanded(ov, r);
      ObjOk(bv.node);
      OkGrows(r, bv.node.repr, bound);
      return;
    }
    r, changed := MergeOther(bv, ov, bound);
  }

  lemma FieldOfObj(n: Node, bound: set<Node>)
    requires Ok(Obj(n), bound)
    ensures n.Valid() && n.repr <= bound && Foot(Obj(n)) == n.repr && ValueOf(Obj(n)) == Map(n.model)
  {
    assert n in Under(Obj(n));
  }

  lemma MapsMerge(b: Fields, o: Fields)
    ensures MergeValue(Map(b), Map(o)) == Map(Merge(b, o)) && ChangesValue(Map(b), Map(o)) == Changes(b, o)
    ensures DistinctValue(Map(o)) == Distinct(o)
  {
  }

  lemma ObjMeets(bv: Ref, ov: Ref)
    requires bv.Obj?
    ensures Meet(bv, ov).None?
  {
  }

  lemma NothingHanded(ov: Ref, r: Ref)
    ensures HandsOver(None, ov, r)
  {
  }

  /** Neither two maps. */
  method MergeOther(bv: Ref, ov: Ref, ghost bound: set<Node>) returns (r: Ref, changed: bool)
    requires Ok(bv, bound) && Ok(ov, bound) && Foot(bv) !! Foot(ov)
    requires !(bv.Obj? && ov.Obj?)
    modifies Foot(bv), Foot(ov)
    ensures Ok(r, bound) && Foot(r) <= old(Foot(bv) + Foot(ov))
    ensures ValueOf(r) == old(MergeValue(ValueOf(bv), ValueOf(ov)))
    ensures changed == old(ChangesValue(ValueOf(bv), ValueOf(ov)))
    ensures old(DistinctValue(ValueOf(ov))) ==> unchanged(old(Foot(ov)))
    ensures HandsOver(old(Meet(bv, ov)), ov, r)
    decreases Foot(ov), 6
  {
    hide Merge;
    hide MergeEntries;
    hide Changes;
    hide ChangesEntries;
    hide Distinct;
    hide Ok;
    hide Models;
    hide Node.Valid;
    NamedMapSeqsMeansNamedSeqs(bv, ov, bound);
    if NamedMapSeqs(bv, ov) {
      var out;
      out, changed := MergeNamedSeq(bv.nodes, ov.nodes, bound);
      r := Slice(out);
      return;
    }
    r, changed := ReplaceWhole(bv, ov, bound);
  }

  /** Neither two maps nor two named sequences. */
  method ReplaceWhole(bv: Ref, ov: Ref, ghost bound: set<Node>) returns (r: Ref, changed: bool)
    requires Ok(bv, bound) && Ok(ov, bound)
    requires !(bv.Obj? && ov.Obj?) && !NamedSeqs(ValueOf(bv), ValueOf(ov))
    ensures r == if changed then ov else bv
    ensures ValueOf(r) == old(MergeValue(ValueOf(bv), ValueOf(ov)))
    ensures changed == old(ChangesValue(ValueOf(bv), ValueOf(ov)))
  {
    hide Foot;
    hide Models;
    hide Node.Valid;
    hide NamedSeqs;
    hide MergeValue;
    hide ChangesValue;
    OnlyMapsMerge(bv, ov);
    changed := Differ(bv, ov, bound);
    r := if changed then ov else bv;
  }

  /** yamlEqual on two references, negated. */
  method Differ(bv: Ref, ov: Ref, ghost bound: set<Node>) returns (differ: bool)
    requires Ok(bv, bound) && Ok(ov, bound)
    ensures differ <==> ValueOf(bv) != ValueOf(ov)
  {
    hide Node.Valid;
    var b := Encode(bv, bound);
    var o := Encode(ov, bound);
    differ := b != o;
  }

  lemma OnlyMapsMerge(bv: Ref, ov: Ref)
    requires !(bv.Obj? && ov.Obj?) && !NamedSeqs(ValueOf(bv), ValueOf(ov))
    requires (bv.Leaf? ==> PlainLeaf(bv.v)) && (ov.Leaf? ==> PlainLeaf(ov.v))
    ensures var b, o := ValueOf(bv), ValueOf(ov); MergeValue(b, o) == o && (ChangesValue(b, o) <==> b != o)
  {
    hide Merge;
    hide MergeEntries;
    hide Changes;
    hide ChangesEntries;
  }

  lemma SlicePart(ns: seq<Node>, i: nat, bound: set<Node>)
    requires Ok(Slice(ns), bound) && i < |ns|
    ensures ns[i] in bound && ns[i].repr <= bound && ns[i].Valid() && ns[i].repr <= Foot(Slice(ns)) <= bound
    ensures Models(ns)[i] == Map(ns[i].model)
  {
    assert ns[i] in Under(Slice(ns));
  }

  /** A legal slice, entry by entry. */
  ghost predicate Parts(ns: seq<Node>, bound: set<Node>)
    reads bound
  {
    && (forall i | 0 <= i < |ns| :: ns[i] in bound && ns[i].repr <= bound && ns[i].Valid())
    && (forall i, j | 0 <= i < |ns| && 0 <= j < |ns| && i != j :: ns[i].repr !! ns[j].repr)
  }

  lemma OkIsParts(ns: seq<Node>, bound: set<Node>)
    ensures Ok(Slice(ns), bound) <==> Parts(ns, bound)
    ensures forall i | 0 <= i < |ns| :: ns[i].repr <= Foot(Slice(ns))
  {
    hide Node.Valid;
    assert forall i | 0 <= i < |ns| :: ns[i] in Under(Slice(ns));
  }

  lemma SliceGrows(ns: seq<Node>, n: Node, bound: set<Node>)
    requires Ok(Slice(ns), bound) && n in bound && n.repr <= bound && n.Valid() && n.repr !! Foot(Slice(ns))
    ensures Ok(Slice(ns + [n]), bound) && Foot(Slice(ns + [n])) == Foot(Slice(ns)) + n.repr
    ensures Models(ns + [n]) == Models(ns) + [Map(n.model)]
  {
    hide Node.Valid;
    hide Ok;
    hide Foot;
    hide Models;
    var grown := ns + [n];
    OkIsParts(ns, bound);
    OkIsParts(grown, bound);
    assert forall i | 0 <= i < |ns| :: grown[i] == ns[i] && ns[i].repr <= Foot(Slice(grown));
    assert grown[|ns|] == n;
    FootBound(grown, Foot(Slice(ns)) + n.repr);
    FootBound(ns, Foot(Slice(grown)));
  }

  lemma PartsOf(ns: seq<Node>, bound: set<Node>)
    requires Ok(Slice(ns), bound)
    ensures forall i | 0 <= i < |ns| ::
      ns[i] in bound && ns[i].repr <= bound && ns[i].Valid() && ns[i] in ns[i].repr && ns[i].repr <= Foot(Slice(ns))
    ensures forall i, j | 0 <= i < j < |ns| :: ns[i].repr !! ns[j].repr
  {
    OkIsParts(ns, bound);
  }

  lemma FootBound(ns: seq<Node>, whole: set<Node>)
    requires forall i | 0 <= i < |ns| :: ns[i].repr <= whole
    ensures Foot(Slice(ns)) <= whole
  {
  }

  /** Merging into one entry, with maps from outside the slice, touches no other entry. */
  twostate lemma PartMerged(new ns: seq<Node>, i: nat, new bound: set<Node>, new extra: set<Node>)
    requires old(allocated(ns) && allocated(bound) && allocated(extra))
    requires old(Parts(ns, bound)) && i < |ns|
    requires extra <= bound && forall j | 0 <= j < |ns| :: extra !! old(ns[j].repr)
    requires unchanged(bound - old(ns[i].repr) - extra)
    requires ns[i].Valid() && ns[i].repr <= old(ns[i].repr) + extra
    ensures Parts(ns, bound)
    ensures Models(ns) == old(Models(ns))[i := Map(ns[i].model)]
    ensures forall j | 0 <= j < |ns| && j != i :: ns[j].repr == old(ns[j].repr) && ns[j].fields == old(ns[j].fields)
  {
    hide Node.Valid;
    hide Models;
    forall j | 0 <= j < |ns| && j != i
      ensures ns[j].Valid() && ns[j].repr == old(ns[j].repr) && ns[j].model == old(ns[j].model) && ns[j].fields == old(ns[j].fields)
    {
      assert old(ns[j].repr !! ns[i].repr);
      NodeUnmoved(ns[j]);
    }
    assert Models(ns) == old(Models(ns))[i := Map(ns[i].model)];
  }

  lemma NoEntries(bs: seq<Value>, os: seq<Value>)
    requires AllNamed(bs) && AllNamed(os)
    ensures MergeEntries(bs, os[..0]) == bs && !ChangesEntries(bs, os[..0])
  {
  }

  lemma EntriesNext(bs: seq<Value>, os: seq<Value>, j: nat)
    requires AllNamed(bs) && AllNamed(os) && j < |os|
    ensures var prior, i := MergeEntries(bs, os[..j]), Target(bs, os[j]);
            && MergeEntries(bs, os[..j + 1]) ==
               (if i < 0 then prior + [os[j]] else prior[i := Map(Merge(prior[i].fields, os[j].fields))])
            && ChangesEntries(bs, os[..j + 1]) ==
               (ChangesEntries(bs, os[..j]) || i < 0 || Changes(prior[i].fields, os[j].fields))
  {
    assert os[..j + 1][..j] == os[..j];
  }

  lemma DistinctEntries(items: seq<Value>)
    requires AllNamed(items) && DistinctValue(List(items))
    ensures forall i, j | 0 <= i < j < |items| :: NameOf(items[i]) != NameOf(items[j])
    ensures forall i | 0 <= i < |items| :: Distinct(items[i].fields)
  {
    forall i | 0 <= i < |items| ensures Distinct(items[i].fields) {
      assert items[i] in items;
    }
  }

  ghost function Target(bs: seq<Value>, e: Value): int
    requires AllNamed(bs) && Named(e)
  {
    LastNamed(bs, NameOf(e))
  }

  /** One asserted entry: appended by reference when `i` is negative, merged in place otherwise. */
  method MergeEntryInto(ns: seq<Node>, i: int, e: Node, ghost bound: set<Node>) returns (out: seq<Node>, changed: bool)
    requires Ok(Slice(ns), bound) && i < |ns| && e.Valid()
    requires e in bound && e.repr <= bound && e.repr !! Foot(Slice(ns))
    modifies if i >= 0 then ns[i].repr + e.repr else {}
    ensures Ok(Slice(out), bound) && Foot(Slice(out)) <= old(Foot(Slice(ns)) + e.repr)
    ensures out == if i < 0 then ns + [e] else ns
    ensures Models(out) == old(if i < 0 then Models(ns) + [Map(e.model)]
                               else Models(ns)[i := Map(Merge(Models(ns)[i].fields, e.model))])
    ensures changed == old(i < 0 || Changes(Models(ns)[i].fields, e.model))
    ensures forall j | 0 <= j < |ns| && j != i :: ns[j].repr == old(ns[j].repr) && ns[j].fields == old(ns[j].fields)
    ensures unchanged(e) && (old(Distinct(e.model)) ==> unchanged(old(e.repr)))
    ensures i >= 0 ==> Adopted(old(ns[i].fields), e.fields, ns[i].fields) && e !in Foot(Slice(out))
    decreases e.repr, 1
  {
    hide Node.Valid;
    hide Ok;
    hide Foot;
    hide Models;
    hide Merge;
    hide Changes;
    out, changed := ns, true;
    if i < 0 {
      SliceGrows(ns, e, bound);
      out := ns + [e];
    } else {
      OkIsParts(ns, bound);
      SlicePart(ns, i, bound);
      FootsWithin(e);
      changed := MergeAsserted(ns[i], e);
      PartMerged(ns, i, bound, old(e.repr));
      OkIsParts(ns, bound);
      FootBound(ns, old(Foot(Slice(ns)) + e.repr) - {e});
    }
  }

  /** The same entry, seen from outside: what the slice and the entry cannot reach is left alone,
      and so is whatever the target cannot reach when the entry's names are distinct. */
  method MergeNext(ns: seq<Node>, i: int, e: Node, ghost bound: set<Node>, ghost left: set<Node>, ghost kept: set<Node>)
    returns (out: seq<Node>, changed: bool, ghost still: set<Node>)
    requires Ok(Slice(ns), bound) && i < |ns| && e.Valid()
    requires e in bound && e.repr <= bound && e.repr !! Foot(Slice(ns))
    requires left <= bound && left !! Foot(Slice(ns)) && left !! e.repr
    requires kept <= bound && (kept != {} ==> Distinct(e.model) && (i >= 0 ==> ns[i].repr !! kept))
    modifies Foot(Slice(ns)), e.repr
    ensures Ok(Slice(out), bound) && Foot(Slice(out)) <= old(Foot(Slice(ns)) + e.repr)
    ensures out == if i < 0 then ns + [e] else ns
    ensures Models(out) == old(if i < 0 then Models(ns) + [Map(e.model)]
                               else Models(ns)[i := Map(Merge(Models(ns)[i].fields, e.model))])
    ensures changed == old(i < 0 || Changes(Models(ns)[i].fields, e.model))
    ensures OnlyEntry(old(Entries(ns)), i, e.fields, Entries(out)) && unchanged(kept) && unchanged(e)
    ensures still == (if i >= 0 then left + {e} else left) && unchanged(left) && still !! Foot(Slice(out))
    decreases e.repr, 2
  {
    hide Node.Valid;
    hide Ok;
    hide Foot;
    hide Models;
    hide Merge;
    hide Changes;
    hide Distinct;
    hide AdoptedBut;
    hide Entries;
    OkIsParts(ns, bound);
    EntriesAre(ns);
    out, changed := MergeEntryInto(ns, i, e, bound);
    still := if i >= 0 then left + {e} else left;
    EntriesAre(out);
  }

  lemma SeqFacts(bs: seq<Node>, os: seq<Node>, before: seq<Value>, asserted: seq<Value>, bound: set<Node>)
    requires before == Models(bs) && asserted == Models(os)
    requires Ok(Slice(bs), bound) && Ok(Slice(os), bound) && Foot(Slice(bs)) !! Foot(Slice(os))
    requires NamedMapSeqs(Slice(bs), Slice(os)) && AllNamed(before) && AllNamed(asserted)
    ensures forall t | 0 <= t < |os| ::
      && os[t].Valid() && os[t] in os[t].repr && os[t].repr <= bound && os[t].repr <= Foot(Slice(os)) && os[t].repr !! Foot(Slice(bs))
      && Map(os[t].model) == asserted[t]
      && HasName(os[t]) && NameText(os[t]) == NameOf(asserted[t])
    ensures forall s, t | 0 <= s < t < |os| :: os[s].repr !! os[t].repr
    ensures forall i | 0 <= i < |bs| :: bs[i].repr <= Foot(Slice(bs))
    ensures Foot(Slice(bs)) <= bound && Foot(Slice(os)) <= bound
  {
    hide Node.Valid;
    hide Ok;
    hide Foot;
    hide Models;
    hide HasName;
    PartsOf(bs, bound);
    PartsOf(os, bound);
    FootBound(bs, bound);
    FootBound(os, bound);
    forall t | 0 <= t < |os|
      ensures os[t].Valid() && os[t] in os[t].repr && Map(os[t].model) == asserted[t] && NameText(os[t]) == NameOf(asserted[t])
    {
      HasNameMeansNamed(os[t]);
    }
  }

  /** Distinct names: no two asserted entries go to the same base entry. */
  lemma DistinctTargets(before: seq<Value>, asserted: seq<Value>)
    requires AllNamed(before) && AllNamed(asserted) && DistinctValue(List(asserted))
    ensures forall s, t | 0 <= s < t < |asserted| ::
              Target(before, asserted[t]) < 0 || Target(before, asserted[s]) != Target(before, asserted[t])
    ensures forall t | 0 <= t < |asserted| :: Distinct(asserted[t].fields)
  {
    hide Distinct;
    DistinctEntries(asserted);
  }

  /** Every entry has a base entry of its own to go to, or none. */
  ghost predicate Aims(targets: seq<int>, n: nat) {
    (forall t | 0 <= t < |targets| :: targets[t] < n) &&
    forall s, t | 0 <= s < t < |targets| :: targets[t] < 0 || targets[s] != targets[t]
  }

  /** The loop's ghost constants: where each asserted entry goes, what the base entries and the
      asserted ones were at the start. */
  datatype Trace = Trace(before: seq<Value>, asserted: seq<Value>, targets: seq<int>, distinct: bool,
                         mine: set<Node>, had: seq<Entry>, brought: seq<Entry>)

  ghost function TargetsOf(before: seq<Value>, asserted: seq<Value>): seq<int>
    requires AllNamed(before) && AllNamed(asserted)
  {
    seq(|asserted|, t requires 0 <= t < |asserted| => Target(before, asserted[t]))
  }

  /** The base entries still to be merged into have not taken anything in. */
  ghost predicate Waiting(trace: Trace, now: seq<Entry>, j: nat) {
    && Aims(trace.targets, |trace.had|)
    && forall t | j <= t < |trace.targets| && 0 <= trace.targets[t] < |now| :: now[trace.targets[t]].repr <= trace.mine
  }

  ghost predicate Handing(trace: Trace, now: seq<Entry>, j: nat)
    requires trace.targets != []
  {
    var i := trace.targets[0];
    0 <= i < |trace.had| <= |now| ==> if j == 0 then now[i] == trace.had[i] else Hands(trace.had, trace.brought, now, i)
  }

  ghost predicate OnTrack(trace: Trace, now: seq<Entry>, j: nat) {
    && |trace.targets| == |trace.brought| > 0 && |trace.had| <= |now|
    && (trace.distinct ==> Waiting(trace, now, j)) && Handing(trace, now, j)
    && forall t | 0 <= t < |trace.targets| :: trace.targets[t] < |trace.had|
  }

  lemma TargetsAre(before: seq<Value>, asserted: seq<Value>)
    requires AllNamed(before) && AllNamed(asserted)
    ensures |TargetsOf(before, asserted)| == |asserted|
    ensures forall t | 0 <= t < |asserted| :: TargetsOf(before, asserted)[t] == Target(before, asserted[t]) < |before|
  {
  }

  lemma OnTrackStart(trace: Trace, before: seq<Value>, asserted: seq<Value>)
    requires AllNamed(before) && AllNamed(asserted) && asserted != []
    requires trace.targets == TargetsOf(before, asserted) && trace.distinct == DistinctValue(List(asserted))
    requires |trace.had| == |before| && |trace.brought| == |asserted|
    requires forall i | 0 <= i < |before| :: trace.had[i].repr <= trace.mine
    ensures OnTrack(trace, trace.had, 0) && trace.targets != [] && trace.targets[0] == Target(before, asserted[0])
  {
    hide DistinctValue;
    hide Target;
    hide TargetsOf;
    hide Hands;
    TargetsAre(before, asserted);
    if trace.distinct {
      DistinctTargets(before, asserted);
      assert Aims(trace.targets, |trace.had|);
    }
  }

  lemma NextTarget(trace: Trace, before: seq<Value>, asserted: seq<Value>, now: seq<Entry>, j: nat)
    requires AllNamed(before) && AllNamed(asserted) && trace.targets == TargetsOf(before, asserted) && j < |asserted|
    requires OnTrack(trace, now, j) && trace.distinct == DistinctValue(List(asserted))
    ensures |trace.targets| == |asserted| && trace.targets[j] == Target(before, asserted[j]) == LastNamed(before, NameOf(asserted[j])) < |now|
    ensures trace.distinct && trace.targets[j] >= 0 ==> now[trace.targets[j]].repr <= trace.mine
    ensures trace.distinct ==> Distinct(asserted[j].fields)
  {
    hide DistinctValue;
    if trace.distinct {
      DistinctTargets(before, asserted);
    }
  }

  lemma OnTrackNext(trace: Trace, now: seq<Entry>, next: seq<Entry>, j: nat)
    requires OnTrack(trace, now, j) && j < |trace.targets|
    requires OnlyEntry(now, trace.targets[j], trace.brought[j].fields, next)
    ensures OnTrack(trace, next, j + 1)
  {
    hide Adopted;
    assert trace.distinct ==> Waiting(trace, next, j + 1);
    HandingNext(trace, now, next, j);
  }

  lemma HandingNext(trace: Trace, now: seq<Entry>, next: seq<Entry>, j: nat)
    requires OnTrack(trace, now, j) && j < |trace.targets|
    requires OnlyEntry(now, trace.targets[j], trace.brought[j].fields, next)
    ensures Handing(trace, next, j + 1)
  {
    hide Waiting;
  }

  lemma HandedOver(trace: Trace, now: seq<Entry>, j: nat)
    requires OnTrack(trace, now, j) && j > 0
    ensures trace.targets[0] >= 0 ==> Hands(trace.had, trace.brought, now, trace.targets[0])
  {
    hide Waiting;
  }

  ghost predicate Indexed(idx: map<string, nat>, before: seq<Value>)
    requires AllNamed(before)
  {
    forall name :: (name in idx <==> LastNamed(before, name) >= 0) && (name in idx ==> idx[name] == LastNamed(before, name))
  }

  lemma IndexedAt(idx: map<string, nat>, before: seq<Value>, name: string)
    requires AllNamed(before) && Indexed(idx, before)
    ensures LastNamed(before, name) == if name in idx then idx[name] else -1
  {
  }

  /** What the first `j` asserted entries have come to. */
  ghost predicate Along(trace: Trace, ns: seq<Node>, changed: bool, j: nat)
    reads ns
  {
    && AllNamed(trace.before) && AllNamed(trace.asserted) && j <= |trace.asserted|
    && trace.targets == TargetsOf(trace.before, trace.asserted) && trace.distinct == DistinctValue(List(trace.asserted))
    && Models(ns) == MergeEntries(trace.before, trace.asserted[..j])
    && changed == ChangesEntries(trace.before, trace.asserted[..j])
    && OnTrack(trace, Entries(ns), j)
  }

  lemma AlongStart(trace: Trace, bs: seq<Node>)
    requires AllNamed(trace.before) && AllNamed(trace.asserted) && trace.asserted != []
    requires trace.targets == TargetsOf(trace.before, trace.asserted) && trace.distinct == DistinctValue(List(trace.asserted))
    requires trace.before == Models(bs) && trace.had == Entries(bs) && |trace.brought| == |trace.asserted|
    requires forall i | 0 <= i < |bs| :: bs[i].repr <= trace.mine
    ensures Along(trace, bs, false, 0) && |trace.targets| == |trace.asserted| && trace.targets[0] == Target(trace.before, trace.asserted[0])
  {
    hide DistinctValue;
    hide TargetsOf;
    hide Target;
    hide Models;
    hide OnTrack;
    TargetsAre(trace.before, trace.asserted);
    NoEntries(trace.before, trace.asserted);
    EntriesAre(bs);
    OnTrackStart(trace, trace.before, trace.asserted);
  }

  lemma AlongEnd(trace: Trace, ns: seq<Node>, changed: bool)
    requires Along(trace, ns, changed, |trace.asserted|) && trace.asserted != []
    ensures AllNamed(trace.before) && AllNamed(trace.asserted) && trace.targets != []
    ensures Models(ns) == MergeEntries(trace.before, trace.asserted) && changed == ChangesEntries(trace.before, trace.asserted)
    ensures trace.targets[0] >= 0 ==> Hands(trace.had, trace.brought, Entries(ns), trace.targets[0])
  {
    hide Models;
    hide Entries;
    hide TargetsOf;
    hide DistinctValue;
    assert trace.asserted[..|trace.asserted|] == trace.asserted;
    HandedOver(trace, Entries(ns), |trace.asserted|);
  }

  /** The entry that comes next, as it was at the start. */
  ghost predicate Comes(trace: Trace, e: Node, j: nat)
    reads e
  {
    && j < |trace.asserted| == |trace.targets| == |trace.brought|
    && HasName(e) && Map(e.model) == trace.asserted[j] && e.fields == trace.brought[j].fields
  }

  lemma AllCome(trace: Trace, os: seq<Node>)
    requires |trace.asserted| == |trace.targets| == |os| && trace.brought == Entries(os)
    requires forall t | 0 <= t < |os| :: HasName(os[t]) && Map(os[t].model) == trace.asserted[t]
    ensures forall t | 0 <= t < |os| :: Comes(trace, os[t], t)
  {
    hide HasName;
  }

  /** One turn of the loop. */
  method MergeNth(ns: seq<Node>, e: Node, idx: map<string, nat>, so: bool, ghost trace: Trace, ghost j: nat,
                  ghost bound: set<Node>, ghost left: set<Node>, ghost kept: set<Node>)
    returns (out: seq<Node>, changed: bool, ghost still: set<Node>)
    requires Comes(trace, e, j) && e.Valid() && AllNamed(trace.before) && Indexed(idx, trace.before)
    requires Along(trace, ns, so, j)
    requires Ok(Slice(ns), bound) && e in bound && e.repr <= bound && e.repr !! Foot(Slice(ns))
    requires left <= bound && left !! Foot(Slice(ns)) && left !! e.repr
    requires kept <= bound && (kept != {} ==> trace.distinct && trace.mine !! kept)
    modifies Foot(Slice(ns)), e.repr
    ensures Ok(Slice(out), bound) && Foot(Slice(out)) <= old(Foot(Slice(ns)) + e.repr) && ns <= out
    ensures Along(trace, out, changed, j + 1) && unchanged(kept) && unchanged(left) && unchanged(e)
    ensures still == (if trace.targets[j] >= 0 then left + {e} else left) && still !! Foot(Slice(out))
    decreases e.repr, 3
  {
    hide Node.Valid;
    hide Ok;
    hide Foot;
    hide Models;
    hide MergeEntries;
    hide MergeEntry;
    hide ChangesEntries;
    hide Changes;
    hide Merge;
    hide LastNamed;
    hide HasName;
    hide NameText;
    hide DistinctValue;
    hide Distinct;
    hide OnTrack;
    hide OnlyEntry;
    hide Entries;
    hide TargetsOf;
    hide Target;
    hide Indexed;
    EntriesNext(trace.before, trace.asserted, j);
    NextTarget(trace, trace.before, trace.asserted, Entries(ns), j);
    HasNameMeansNamed(e);
    EntriesAre(ns);
    ghost var now := Entries(ns);
    var name := NameText(e);
    IndexedAt(idx, trace.before, name);
    var i := if name in idx then idx[name] else -1;
    var sub;
    out, sub, still := MergeNext(ns, i, e, bound, left, kept);
    changed := so || sub;
    OnTrackNext(trace, now, Entries(out), j);
  }

  lemma MeetIs(bs: seq<Node>, os: seq<Node>)
    requires NamedMapSeqs(Slice(bs), Slice(os)) && AllNamed(Models(bs)) && AllNamed(Models(os))
    ensures Meet(Slice(bs), Slice(os)) == Some(Meeting(bs, Target(Models(bs), Models(os)[0]), Entries(bs), Entries(os)))
  {
    hide Models;
    hide Target;
    hide Entries;
  }

  lemma HandsOverIs(met: Meeting, os: seq<Node>, out: seq<Node>)
    requires os != [] && met.bs <= out
    requires met.goes >= 0 && met.brought != [] ==>
               os[0].fields == met.brought[0].fields && Hands(met.had, met.brought, Entries(out), met.goes)
    ensures HandsOver(Some(met), Slice(os), Slice(out))
  {
    hide Hands;
    hide Entries;
  }

  /** Where the loop starts from: nothing of either side is reachable from the other. */
  ghost predicate Apart(trace: Trace, bs: seq<Node>, os: seq<Node>, bound: set<Node>)
    requires Foot(Slice(os)) <= bound
    reads bs, os, bound
  {
    && trace.mine == Foot(Slice(bs)) && trace.mine !! Foot(Slice(os))
    && (forall t | 0 <= t < |os| ::
          os[t].Valid() && os[t] in os[t].repr && os[t].repr <= Foot(Slice(os)) && os[t].repr !! trace.mine && Comes(trace, os[t], t))
    && forall s, t | 0 <= s < t < |os| :: os[s].repr !! os[t].repr
  }

  /** The loop over the asserted entries. */
  method MergeInTurn(bs: seq<Node>, os: seq<Node>, idx: map<string, nat>, ghost trace: Trace, ghost bound: set<Node>)
    returns (out: seq<Node>, changed: bool)
    requires Ok(Slice(bs), bound) && Foot(Slice(os)) <= bound && Apart(trace, bs, os, bound)
    requires os != [] && |trace.asserted| == |os| == |trace.targets| && AllNamed(trace.before) && Indexed(idx, trace.before)
    requires Along(trace, bs, false, 0)
    modifies Foot(Slice(bs)), Foot(Slice(os))
    ensures Ok(Slice(out), bound) && Foot(Slice(out)) <= old(Foot(Slice(bs)) + Foot(Slice(os))) && bs <= out
    ensures Along(trace, out, changed, |os|)
    ensures trace.distinct ==> unchanged(old(Foot(Slice(os))))
    ensures trace.targets[0] >= 0 ==> os[0].fields == old(os[0].fields)
    decreases Foot(Slice(os)), 4
  {
    hide Node.Valid;
    hide Ok;
    hide Foot;
    hide Models;
    hide MergeEntries;
    hide ChangesEntries;
    hide LastNamed;
    hide HasName;
    hide DistinctValue;
    hide OnTrack;
    hide Indexed;
    hide Along;
    hide Comes;
    hide Entries;
    hide TargetsOf;
    hide Target;
    ghost var theirs := Foot(Slice(os));
    ghost var left, kept := theirs, if trace.distinct then theirs else {};
    changed := false;
    out := bs;
    for j := 0 to |os|
      invariant Ok(Slice(out), bound) && Foot(Slice(out)) <= trace.mine + theirs && bs <= out
      invariant Along(trace, out, changed, j)
      invariant left <= theirs && left !! Foot(Slice(out)) && unchanged(left) && unchanged(kept)
      invariant forall t | j <= t < |os| :: old(os[t].repr) <= left
      invariant j > 0 && trace.targets[0] >= 0 ==> os[0] in left
    {
      NodeUnmoved(os[j]);
      ghost var prior := left;
      assert os[j] in prior && old(Comes(trace, os[j], j));
      left := left - old(os[j].repr);
      out, changed, left := MergeNth(out, os[j], idx, changed, trace, j, bound, left, kept);
      assert left <= prior;
    }
  }

  method MergeNamedSeq(bs: seq<Node>, os: seq<Node>, ghost bound: set<Node>) returns (out: seq<Node>, changed: bool)
    requires Ok(Slice(bs), bound) && Ok(Slice(os), bound) && Foot(Slice(bs)) !! Foot(Slice(os))
    requires NamedMapSeqs(Slice(bs), Slice(os)) && AllNamed(Models(bs)) && AllNamed(Models(os))
    modifies Foot(Slice(bs)), Foot(Slice(os))
    ensures Ok(Slice(out), bound) && Foot(Slice(out)) <= old(Foot(Slice(bs)) + Foot(Slice(os)))
    ensures Models(out) == old(MergeEntries(Models(bs), Models(os)))
    ensures changed == old(ChangesEntries(Models(bs), Models(os)))
    ensures old(DistinctValue(List(Models(os)))) ==> unchanged(old(Foot(Slice(os))))
    ensures HandsOver(old(Meet(Slice(bs), Slice(os))), Slice(os), Slice(out))
    decreases Foot(Slice(os)), 5
  {
    hide Node.Valid;
    hide Ok;
    hide Foot;
    hide Models;
    hide MergeEntries;
    hide MergeEntry;
    hide ChangesEntries;
    hide Changes;
    hide Merge;
    hide LastNamed;
    hide HasName;
    hide NameText;
    hide DistinctValue;
    hide Distinct;
    hide OnTrack;
    hide Indexed;
    hide Along;
    hide Comes;
    hide Entries;
    hide TargetsOf;
    hide Target;
    hide Hands;
    hide Meet;
    hide HandsOver;
    ghost var before, asserted := Models(bs), Models(os);
    SeqFacts(bs, os, before, asserted, bound);
    ghost var mine, theirs := Foot(Slice(bs)), Foot(Slice(os));
    ghost var trace := Trace(before, asserted, TargetsOf(before, asserted), DistinctValue(List(asserted)), mine, Entries(bs), Entries(os));
    ghost var goes := Target(before, asserted[0]);
    EntriesAre(os);
    AlongStart(trace, bs);
    AllCome(trace, os);
    MeetIs(bs, os);
    var idx := IndexNames(bs, bound);
    Unmoved(Slice(os), bound);
    out, changed := MergeInTurn(bs, os, idx, trace, bound);
    AlongEnd(trace, out, changed);
    HandsOverIs(Meeting(bs, goes, trace.had, trace.brought), os, out);
  }

  lemma IndexNone()
    ensures Indexed(map[], [])
  {
  }

  lemma IndexNext(idx: map<string, nat>, vs: seq<Value>, i: nat)
    requires AllNamed(vs) && i < |vs| && Indexed(idx, vs[..i])
    ensures Indexed(idx[NameOf(vs[i]) := i], vs[..i + 1])
  {
    assert vs[..i + 1][..i] == vs[..i];
  }

  method IndexNames(bs: seq<Node>, ghost bound: set<Node>) returns (idx: map<string, nat>)
    requires Ok(Slice(bs), bound) && forall n | n in bs :: HasName(n)
    ensures AllNamed(Models(bs))
    ensures Indexed(idx, Models(bs))
    ensures Foot(Slice(bs)) == old(Foot(Slice(bs))) && Models(bs) == old(Models(bs))
  {
    idx := map[];
    ghost var vs := Models(bs);
    forall i | 0 <= i < |bs| ensures Named(vs[i]) && NameOf(vs[i]) == NameText(bs[i]) {
      assert bs[i] in Under(Slice(bs));
      HasNameMeansNamed(bs[i]);
    }
    hide Ok;
    hide Models;
    hide HasName;
    hide Indexed;
    assert vs[..0] == [];
    IndexNone();
    for i := 0 to |bs|
      invariant Indexed(idx, vs[..i])
    {
      IndexNext(idx, vs, i);
      idx := idx[NameText(bs[i]) := i];
    }
    assert vs[..|bs|] == vs;
  }

  method EncodeAll(ns: seq<Node>, ghost bound: set<Node>) returns (vs: seq<Value>)
    requires forall n | n in ns :: n.Valid() && n.repr <= bound
    ensures vs == Models(ns)
    decreases bound, 1
  {
    hide Node.Valid;
    hide Models;
    vs := [];
    for i := 0 to |ns|
      invariant vs == Models(ns)[..i]
    {
      var m := EncodeMap(ns[i]);
      vs := vs + [Map(m)];
    }
  }

  /** The tree a reference encodes to; yamlEqual compares two of them. */
  method Encode(r: Ref, ghost bound: set<Node>) returns (v: Value)
    requires Ok(r, bound)
    ensures v == ValueOf(r)
    decreases bound, 2
  {
    match r
    case Leaf(x) =>
      v := x;
    case Obj(n) =>
      var m := EncodeMap(n);
      v := Map(m);
    case Slice(ns) =>
      var vs := EncodeAll(ns, bound);
      v := List(vs);
  }

  method EncodeMap(n: Node) returns (m: Fields)
    requires n.Valid()
    ensures m == n.model
    decreases n.repr, 0
  {
    hide Ok;
    hide ValueOf;
    m := map[];
    var todo := n.fields.Keys;
    while todo != {}
      invariant todo <= n.fields.Keys == m.Keys + todo
      invariant forall k | k in m :: k !in todo && m[k] == n.model[k]
      decreases todo
    {
      var k :| k in todo;
      FieldOk(n, k);
      var v := Encode(n.fields[k], n.repr - {n});
      m := m[k := v];
      todo := todo - {k};
    }
  }

  predicate HasName(n: Node)
    reads n
  {
    "name" in n.fields && n.fields["name"].Leaf? && n.fields["name"].v.Str?
  }

  function NameText(n: Node): string
    requires HasName(n)
    reads n
  {
    n.fields["name"].v.s
  }

  predicate NamedMapSeqs(bv: Ref, ov: Ref)
    reads Under(bv), Under(ov)
  {
    && bv.Slice? && ov.Slice? && |ov.nodes| > 0
    && (forall i | 0 <= i < |bv.nodes| :: HasName(bv.nodes[i]))
    && (forall i | 0 <= i < |ov.nodes| :: HasName(ov.nodes[i]))
  }

  lemma HasNameMeansNamed(n: Node)
    requires n.Valid()
    ensures HasName(n) <==> Named(Map(n.model))
    ensures HasName(n) ==> NameOf(Map(n.model)) == NameText(n)
  {
  }

  lemma NamedMapSeqsMeansNamedSeqs(bv: Ref, ov: Ref, bound: set<Node>)
    requires Ok(bv, bound) && Ok(ov, bound)
    ensures NamedMapSeqs(bv, ov) <==> NamedSeqs(ValueOf(bv), ValueOf(ov))
  {
    forall n | n in Under(bv) || n in Under(ov)
      ensures HasName(n) <==> Named(Map(n.model))
    {
      HasNameMeansNamed(n);
    }
  }

  /** A new map over references with disjoint footprints. */
  method NewMap(fields: map<string, Ref>, ghost bound: set<Node>) returns (n: Node)
    requires forall k | k in fields :: Ok(fields[k], bound)
    requires forall j, k | j in fields && k in fields && j != k :: Foot(fields[j]) !! Foot(fields[k])
    ensures fresh(n) && n.Valid() && n.fields == fields && n.repr == bound + {n}
    ensures n.model.Keys == fields.Keys && forall k | k in fields :: n.model[k] == ValueOf(fields[k])
  {
    hide Ok;
    hide Foot;
    hide ValueOf;
    n := new Node;
    label Made:
    n.fields, n.repr, n.model := fields, bound + {n}, map k | k in fields :: ValueOf(fields[k]);
    forall k | k in fields
      ensures Ok(fields[k], bound) && Foot(fields[k]) == old(Foot(fields[k])) && ValueOf(fields[k]) == n.model[k]
    {
      Undisturbed@Made(n, fields[k], bound);
    }
    assert n.repr - {n} == bound;
  }
}
