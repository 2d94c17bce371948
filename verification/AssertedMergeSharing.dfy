/** What sharing costs mergeAsserted: a name asserted twice rewrites the assertion itself. */
module AssertedMergeSharing {
  import opened Values
  import opened AssertedMerge
  import opened AssertedMergeHeap

  /** A field the first asserted entry brings to the base entry it goes to, holding a map in every
      asserted entry that has it. */
  ghost predicate Brings(met: Meeting, f: string) {
    && 0 <= met.goes < |met.had| && met.brought != [] && f in met.brought[0].fields && f !in met.had[met.goes].fields
    && forall t | 0 <= t < |met.brought| && f in met.brought[t].fields :: met.brought[t].fields[f].Obj?
  }

  /** The entry's own map is under both entries. */
  ghost predicate SharesMap(ov: Ref, r: Ref, i: nat, f: string)
    reads Under(ov), Under(r)
  {
    && ov.Slice? && ov.nodes != [] && f in ov.nodes[0].fields && ov.nodes[0].fields[f].Obj?
    && r.Slice? && i < |r.nodes| && f in r.nodes[i].fields && r.nodes[i].fields[f] == ov.nodes[0].fields[f]
  }

  lemma BringsIsShared(met: Meeting, ov: Ref, r: Ref, f: string)
    requires Brings(met, f) && HandsOver(Some(met), ov, r)
    ensures SharesMap(ov, r, met.goes, f) && ov.nodes[0].fields == met.brought[0].fields
  {
    EntriesAre(r.nodes);
  }

  /** After the merge the first asserted entry's own map is the one in the written tree. */
  method MergeSharesEntryMap(base: Node, over: Node, k: string, f: string) returns (changed: bool, ghost met: Meeting)
    requires base.Valid() && over.Valid() && base.repr !! over.repr
    requires over.fields.Keys == {k} && k in base.fields
    requires Meet(base.fields[k], over.fields[k]).Some? && Brings(Meet(base.fields[k], over.fields[k]).value, f)
    modifies base.repr, over.repr
    ensures base.Valid() && base.model == old(Merge(base.model, over.model)) && changed == old(Changes(base.model, over.model))
    ensures over.fields == old(over.fields) && k in base.fields && Some(met) == old(Meet(base.fields[k], over.fields[k]))
    ensures 0 <= met.goes && SharesMap(over.fields[k], base.fields[k], met.goes, f)
    ensures over.fields[k].nodes[0].fields == old(over.fields[k].nodes[0].fields)
  {
    hide HandsOver;
    hide Node.Valid;
    hide Merge;
    hide Changes;
    hide Adopted;
    met := Meet(base.fields[k], over.fields[k]).value;
    EntriesAre(over.fields[k].nodes);
    changed := MergeAsserted(base, over);
    BringsIsShared(met, over.fields[k], base.fields[k], f);
  }

  lemma HoldsMaps(n: Node, k: string)
    requires n.Valid() && k in n.model && n.model[k].List? && forall e | e in n.model[k].items :: e.Map?
    ensures k in n.fields && n.fields[k].Slice? && Models(n.fields[k].nodes) == n.model[k].items
    ensures forall e | e in n.fields[k].nodes :: e.Valid()
  {
    FieldOk(n, k);
  }

  lemma HoldsMap(n: Node, k: string)
    requires n.Valid() && k in n.model && n.model[k].Map?
    ensures k in n.fields && n.fields[k].Obj? && n.fields[k].node.Valid() && n.fields[k].node.model == n.model[k].fields
  {
    FieldOk(n, k);
  }

  lemma HoldsLeaf(n: Node, k: string)
    requires n.Valid() && k in n.model && (n.model[k].Str? || n.model[k].Int?)
    ensures k in n.fields && n.fields[k] == Leaf(n.model[k])
  {
    FieldOk(n, k);
  }

  /** The map under one field of the first entry of a list. */
  ghost predicate EntryMap(n: Node, k: string, f: string, m: Node)
    reads n, if k in n.fields then Under(n.fields[k]) else []
  {
    k in n.fields && n.fields[k].Slice? && n.fields[k].nodes != [] &&
    f in n.fields[k].nodes[0].fields && n.fields[k].nodes[0].fields[f] == Obj(m)
  }

  /** What a document holds under one field of one list entry. */
  function EntryField(doc: Fields, k: string, i: nat, f: string): Option<Value> {
    if k in doc && doc[k].List? && i < |doc[k].items| && doc[k].items[i].Map? && f in doc[k].items[i].fields
    then Some(doc[k].items[i].fields[f]) else None
  }

  lemma EntryFieldIs(n: Node, k: string, i: nat, f: string)
    requires n.Valid() && k in n.fields && n.fields[k].Slice? && i < |n.fields[k].nodes|
    requires f in n.fields[k].nodes[i].fields && n.fields[k].nodes[i].fields[f].Obj?
    ensures var m := n.fields[k].nodes[i].fields[f].node; m.Valid() && EntryField(n.model, k, i, f) == Some(Map(m.model))
  {
    hide Node.Valid;
    hide Ok;
    hide Foot;
    hide FootAt;
    FieldOk(n, k);
    FootsWithin(n);
    SlicePart(n.fields[k].nodes, i, n.repr - {n});
    var e := n.fields[k].nodes[i];
    FieldOk(e, f);
    FootsWithin(e);
    FieldOfObj(e.fields[f].node, e.repr - {e});
  }

  /** What the first asserted entry's map ends as: still in the asserted tree, it holds what the
      written document holds there, so it is as asserted exactly when the two agree. */
  method SharedMapEndsMerged(base: Node, over: Node, k: string, f: string) returns (first: Node, ghost goes: nat)
    requires base.Valid() && over.Valid() && base.repr !! over.repr
    requires over.fields.Keys == {k} && k in base.fields
    requires Meet(base.fields[k], over.fields[k]).Some? && Brings(Meet(base.fields[k], over.fields[k]).value, f)
    modifies base.repr, over.repr
    ensures goes == old(Meet(base.fields[k], over.fields[k])).value.goes
    ensures old(allocated(first)) && old(EntryMap(over, k, f, first)) && EntryMap(over, k, f, first) && first.Valid()
    ensures Some(Map(first.model)) == old(EntryField(Merge(base.model, over.model), k, goes, f))
    ensures first.model == old(first.model) <==>
            old(EntryField(Merge(base.model, over.model), k, goes, f)) == old(EntryField(over.model, k, 0, f))
  {
    hide Node.Valid;
    hide Merge;
    hide EntryField;
    BringsMap(base, over, k, f);
    hide Meet;
    hide Brings;
    EntryFieldIs(over, k, 0, f);
    first := over.fields[k].nodes[0].fields[f].node;
    assert EntryMap(over, k, f, first);
    var changed, met := MergeSharesEntryMap(base, over, k, f);
    goes := met.goes;
    EntryFieldIs(base, k, goes, f);
  }

  lemma BringsMap(base: Node, over: Node, k: string, f: string)
    requires k in base.fields && k in over.fields
    requires Meet(base.fields[k], over.fields[k]).Some? && Brings(Meet(base.fields[k], over.fields[k]).value, f)
    ensures over.fields[k].Slice? && over.fields[k].nodes != [] && f in over.fields[k].nodes[0].fields
    ensures over.fields[k].nodes[0].fields[f].Obj?
  {
    EntriesAre(over.fields[k].nodes);
  }

  /** One named entry: its name and, if it has one, its map under `f`. */
  lemma EntryHolds(e: Node, a: string, f: string)
    requires e.Valid() && Named(Map(e.model)) && NameOf(Map(e.model)) == a && f != "name"
    ensures HasName(e) && NameText(e) == a && (f in e.fields <==> f in e.model)
    ensures f in e.model && e.model[f].Map? ==> e.fields[f].Obj?
  {
    HasNameMeansNamed(e);
    FootsWithin(e);
    if f in e.model && e.model[f].Map? {
      HoldsMap(e, f);
    }
  }

  lemma ListHolds(n: Node, k: string)
    requires n.Valid() && k in n.model && n.model[k].List? && forall e | e in n.model[k].items :: e.Map?
    ensures k in n.fields && n.fields[k].Slice? && Models(n.fields[k].nodes) == n.model[k].items
    ensures forall i | 0 <= i < |n.fields[k].nodes| :: n.fields[k].nodes[i].Valid() && Map(n.fields[k].nodes[i].model) == n.model[k].items[i]
  {
    hide Node.Valid;
    HoldsMaps(n, k);
    assert forall i | 0 <= i < |n.fields[k].nodes| :: Models(n.fields[k].nodes)[i] == Map(n.fields[k].nodes[i].model);
  }

  /** The base files the name once, without the field; the assertion names it twice. */
  lemma MeetsTwice(base: Node, over: Node, k: string, a: string, f: string, x: string, u: int, v: int)
    requires base.Valid() && over.Valid() && f != "name"
    requires base.model == map[k := List([Map(map["name" := Str(a)])])]
    requires over.model == map[k := List([Nested(a, f, x, u), Nested(a, f, x, v)])]
    ensures k in base.fields && over.fields.Keys == {k}
    ensures var met := Meet(base.fields[k], over.fields[k]); met.Some? && Brings(met.value, f) && met.value.goes == 0
  {
    hide Node.Valid;
    hide HasName;
    hide NameText;
    hide Models;
    FootsWithin(over);
    ListHolds(base, k);
    ListHolds(over, k);
    var bs, os := base.fields[k].nodes, over.fields[k].nodes;
    EntryHolds(bs[0], a, f);
    EntryHolds(os[0], a, f);
    EntryHolds(os[1], a, f);
    EntriesAre(bs);
    EntriesAre(os);
    assert LastNamed(Models(bs), a) == 0;
  }

  /** A name asserted twice: the run rewrites, inside the asserted tree, the map its first entry
      brought, so the assertion no longer says what it said. */
  method DuplicateNameRewritesAsserted(base: Node, over: Node, k: string, a: string, f: string, x: string, u: int, v: int)
    returns (first: Node)
    requires base.Valid() && over.Valid() && base.repr !! over.repr && f != "name"
    requires base.model == map[k := List([Map(map["name" := Str(a)])])]
    requires over.model == map[k := List([Nested(a, f, x, u), Nested(a, f, x, v)])]
    modifies base.repr, over.repr
    ensures old(allocated(first)) && old(EntryMap(over, k, f, first)) && EntryMap(over, k, f, first)
    ensures old(first.fields) == map[x := Leaf(Int(u))] && first.fields == map[x := Leaf(Int(v))]
  {
    hide Node.Valid;
    hide Merge;
    hide Meet;
    hide Brings;
    MeetsTwice(base, over, k, a, f, x, u, v);
    BringsFirst(base, over, k, a, f, x, u, v);
    NestedTwice(k, a, f, x, u, v);
    ghost var goes;
    first, goes := SharedMapEndsMerged(base, over, k, f);
    assert first.model == map[x := Int(v)];
    OneCount(first, x, v);
  }

  /** Before the run: the map the first entry brings holds what it asserts. */
  lemma BringsFirst(base: Node, over: Node, k: string, a: string, f: string, x: string, u: int, v: int)
    requires k in base.fields && k in over.fields && over.Valid() && f != "name"
    requires over.model == map[k := List([Nested(a, f, x, u), Nested(a, f, x, v)])]
    requires Meet(base.fields[k], over.fields[k]).Some? && Brings(Meet(base.fields[k], over.fields[k]).value, f)
    ensures forall m | EntryMap(over, k, f, m) :: m.fields == map[x := Leaf(Int(u))]
  {
    hide Node.Valid;
    BringsMap(base, over, k, f);
    hide Meet;
    hide Brings;
    EntryFieldIs(over, k, 0, f);
    OneCount(over.fields[k].nodes[0].fields[f].node, x, u);
  }

  lemma OneCount(m: Node, x: string, u: int)
    requires m.Valid() && m.model == map[x := Int(u)]
    ensures m.fields == map[x := Leaf(Int(u))]
  {
    hide Node.Valid;
    FootsWithin(m);
    HoldsLeaf(m, x);
  }

  lemma LeafOk(v: Value, bound: set<Node>)
    requires PlainLeaf(v)
    ensures Ok(Leaf(v), bound) && Foot(Leaf(v)) == {} && ValueOf(Leaf(v)) == v
  {
  }

  lemma ListOk(ns: seq<Node>)
    requires (forall i | 0 <= i < |ns| :: ns[i].Valid()) && forall i, j | 0 <= i < j < |ns| :: ns[i].repr !! ns[j].repr
    ensures Ok(Slice(ns), Foot(Slice(ns))) && ValueOf(Slice(ns)) == List(Models(ns))
  {
    hide Node.Valid;
    hide Foot;
    hide Ok;
    OkIsParts(ns, Foot(Slice(ns)));
    forall i | 0 <= i < |ns| ensures ns[i] in ns[i].repr {
      FootsWithin(ns[i]);
    }
  }

  lemma ModelsOfOne(n: Node)
    ensures Models([n]) == [Map(n.model)] && Foot(Slice([n])) <= n.repr
  {
    assert Models([n])[0] == Map([n][0].model);
    FootBound([n], n.repr);
  }

  lemma ModelsOfTwo(m: Node, n: Node)
    ensures Models([m, n]) == [Map(m.model), Map(n.model)] && Foot(Slice([m, n])) <= m.repr + n.repr
  {
    hide Models;
    assert Models([m, n])[0] == Map([m, n][0].model) && Models([m, n])[1] == Map([m, n][1].model);
    FootBound([m, n], m.repr + n.repr);
  }

  /** Such a base and such an assertion exist. */
  method NewPair(k: string, a: string, f: string, x: string, u: int, v: int) returns (base: Node, over: Node)
    requires f != "name"
    ensures base.Valid() && over.Valid() && base.repr !! over.repr
    ensures base.model == map[k := List([Map(map["name" := Str(a)])])]
    ensures over.model == map[k := List([Nested(a, f, x, u), Nested(a, f, x, v)])]
  {
    hide Node.Valid;
    hide Ok;
    hide Foot;
    hide ValueOf;
    hide Models;
    LeafOk(Str(a), {});
    var b := NewMap(map["name" := Leaf(Str(a))], {});
    LeafOk(Str(a), {});
    assert b.model == map["name" := Str(a)];
    ModelsOfOne(b);
    base := NewList(k, [b]);
    var first := NewNested(a, f, x, u);
    var second := NewNested(a, f, x, v);
    ModelsOfTwo(first, second);
    over := NewList(k, [first, second]);
  }

  method NewCount(x: string, u: int) returns (n: Node)
    ensures n.Valid() && fresh(n.repr) && n.model == map[x := Int(u)]
  {
    hide Node.Valid;
    hide Ok;
    hide Foot;
    hide ValueOf;
    LeafOk(Int(u), {});
    n := NewMap(map[x := Leaf(Int(u))], {});
    LeafOk(Int(u), {});
  }

  lemma NestedIs(m: Fields, a: string, f: string, x: string, u: int)
    requires f != "name" && m.Keys == {"name", f} && m["name"] == Str(a) && m[f] == Map(map[x := Int(u)])
    ensures Map(m) == Nested(a, f, x, u)
  {
  }

  method NewNested(a: string, f: string, x: string, u: int) returns (e: Node)
    requires f != "name"
    ensures e.Valid() && fresh(e.repr) && Map(e.model) == Nested(a, f, x, u)
  {
    hide Node.Valid;
    hide Ok;
    hide Foot;
    hide ValueOf;
    hide Nested;
    var inner := NewCount(x, u);
    ObjOk(inner);
    LeafOk(Str(a), inner.repr);
    e := NewMap(map["name" := Leaf(Str(a)), f := Obj(inner)], inner.repr);
    ObjIs(inner);
    LeafOk(Str(a), inner.repr);
    NestedIs(e.model, a, f, x, u);
  }

  /** A map holding one list of maps. */
  method NewList(k: string, ns: seq<Node>) returns (n: Node)
    requires (forall i | 0 <= i < |ns| :: ns[i].Valid()) && forall i, j | 0 <= i < j < |ns| :: ns[i].repr !! ns[j].repr
    ensures n.Valid() && fresh(n) && n.repr == old(Foot(Slice(ns))) + {n} && n.model == map[k := List(old(Models(ns)))]
  {
    hide Node.Valid;
    hide Foot;
    hide Ok;
    hide Models;
    ListOk(ns);
    n := NewMap(map[k := Slice(ns)], Foot(Slice(ns)));
    assert n.model == map[k := List(Models(ns))];
  }
}
