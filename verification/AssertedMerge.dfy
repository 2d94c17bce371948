/** mergeAsserted: how LLZ's asserted subset is written over a document a second writer owns,
    and when the write counts as a change. This module holds the specification and its laws;
    AssertedMergeHeap.dfy holds the aliasing implementation. */
module AssertedMerge {
  import opened Values

  predicate Named(v: Value) {
    v.Map? && "name" in v.fields && v.fields["name"].Str?
  }

  predicate AllNamed(xs: seq<Value>) {
    forall i | 0 <= i < |xs| :: Named(xs[i])
  }

  function NameOf(v: Value): string
    requires Named(v)
  {
    v.fields["name"].s
  }

  /** namedMapSeqs: the one shape of list that is merged entry by entry. */
  predicate NamedSeqs(bv: Value, ov: Value) {
    bv.List? && ov.List? && |ov.items| > 0 && AllNamed(bv.items) && AllNamed(ov.items)
  }

  /** The index mergeNamedSeq files a name under: a later duplicate replaces an earlier one. */
  function LastNamed(xs: seq<Value>, name: string): (i: int)
    requires AllNamed(xs)
    ensures -1 <= i < |xs|
    ensures i >= 0 ==> NameOf(xs[i]) == name
    ensures forall j | i < j < |xs| :: NameOf(xs[j]) != name
  {
    if xs == [] then -1
    else if NameOf(xs[|xs| - 1]) == name then |xs| - 1
    else LastNamed(xs[..|xs| - 1], name)
  }

  function Merge(base: Fields, over: Fields): (r: Fields)
    ensures r.Keys == base.Keys + over.Keys
    ensures forall k | k in base && k in over && base[k] == over[k] && over[k].Str? :: r[k] == base[k]
    decreases Map(over), 0
  {
    map k | k in base.Keys + over.Keys ::
      if k !in over then base[k]
      else if k !in base then over[k]
      else MergeValue(base[k], over[k])
  }

  function MergeValue(bv: Value, ov: Value): Value
    decreases ov, 1
  {
    if bv.Map? && ov.Map? then Map(Merge(bv.fields, ov.fields))
    else if NamedSeqs(bv, ov) then List(MergeEntries(bv.items, ov.items))
    else ov
  }

  /** mergeNamedSeq after the entries of `os`, left to right. The index is built from the base
      alone and never extended, so a name absent from the base is appended every time. */
  function MergeEntries(bs: seq<Value>, os: seq<Value>): (out: seq<Value>)
    requires AllNamed(bs) && AllNamed(os)
    ensures |bs| <= |out| && AllNamed(out)
    ensures forall i | 0 <= i < |bs| :: NameOf(out[i]) == NameOf(bs[i])
    decreases os, 0
  {
    if os == [] then bs
    else MergeEntry(bs, MergeEntries(bs, os[..|os| - 1]), os[|os| - 1])
  }

  function MergeEntry(bs: seq<Value>, out: seq<Value>, e: Value): (r: seq<Value>)
    requires AllNamed(bs) && AllNamed(out) && Named(e) && |bs| <= |out|
    requires forall i | 0 <= i < |bs| :: NameOf(out[i]) == NameOf(bs[i])
    ensures |out| <= |r| && AllNamed(r)
    ensures forall i | 0 <= i < |out| :: NameOf(r[i]) == NameOf(out[i])
    decreases e, 1
  {
    var i := LastNamed(bs, NameOf(e));
    if i < 0 then out + [e]
    else
      var merged := Map(Merge(out[i].fields, e.fields));
      assert NameOf(out[i]) == NameOf(bs[i]);
      assert out[i].fields["name"] == e.fields["name"] && merged.fields["name"] == e.fields["name"];
      out[i := merged]
  }

  /** The `changed` flag, computed as the loops compute it. */
  predicate Changes(base: Fields, over: Fields)
    decreases Map(over), 0
  {
    exists k | k in over :: k !in base || ChangesValue(base[k], over[k])
  }

  predicate ChangesValue(bv: Value, ov: Value)
    decreases ov, 1
  {
    if bv.Map? && ov.Map? then Changes(bv.fields, ov.fields)
    else if NamedSeqs(bv, ov) then ChangesEntries(bv.items, ov.items)
    else bv != ov
  }

  predicate ChangesEntries(bs: seq<Value>, os: seq<Value>)
    requires AllNamed(bs) && AllNamed(os)
    decreases os, 0
  {
    os != [] &&
    var before, e := os[..|os| - 1], os[|os| - 1];
    var i := LastNamed(bs, NameOf(e));
    ChangesEntries(bs, before) || i < 0 || Changes(MergeEntries(bs, before)[i].fields, e.fields)
  }

  // ── the reference notion: a document that already carries what is asserted ──

  ghost predicate Covers(base: Fields, over: Fields)
    decreases Map(over), 0
  {
    forall k | k in over :: k in base && CoversValue(base[k], over[k])
  }

  ghost predicate CoversValue(bv: Value, ov: Value)
    decreases ov, 1
  {
    if bv.Map? && ov.Map? then Covers(bv.fields, ov.fields)
    else if NamedSeqs(bv, ov) then CoversEntries(bv.items, ov.items)
    else bv == ov
  }

  ghost predicate CoversEntries(bs: seq<Value>, os: seq<Value>)
    requires AllNamed(bs) && AllNamed(os)
    decreases os, 0
  {
    forall e | e in os :: CoversEntry(bs, e)
  }

  ghost predicate CoversEntry(bs: seq<Value>, e: Value)
    requires AllNamed(bs) && Named(e)
    decreases e, 1
  {
    var i := LastNamed(bs, NameOf(e));
    i >= 0 && Covers(bs[i].fields, e.fields)
  }

  lemma CoversEntriesSnoc(bs: seq<Value>, before: seq<Value>, e: Value)
    requires AllNamed(bs) && AllNamed(before) && Named(e)
    ensures AllNamed(before + [e])
    ensures CoversEntries(bs, before + [e]) <==> CoversEntries(bs, before) && CoversEntry(bs, e)
  {
    assert forall x :: x in before + [e] <==> x in before || x == e;
  }

  /** The asserted tree agrees with itself: no named sequence in it asserts, under one name,
      something its last entry of that name does not carry. */
  ghost predicate SelfConsistent(over: Fields) {
    Covers(over, over)
  }

  lemma {:induction false} ChangesIffNotCovered(base: Fields, over: Fields)
    ensures Changes(base, over) <==> !Covers(base, over)
    ensures !Changes(base, over) ==> Merge(base, over) == base
    decreases Map(over), 0
  {
    forall k | k in over && k in base
      ensures ChangesValue(base[k], over[k]) <==> !CoversValue(base[k], over[k])
      ensures !ChangesValue(base[k], over[k]) ==> MergeValue(base[k], over[k]) == base[k]
    {
      ChangesValueIffNotCovered(base[k], over[k]);
    }
  }

  lemma {:induction false} ChangesValueIffNotCovered(bv: Value, ov: Value)
    ensures ChangesValue(bv, ov) <==> !CoversValue(bv, ov)
    ensures !ChangesValue(bv, ov) ==> MergeValue(bv, ov) == bv
    decreases ov, 1
  {
    if bv.Map? && ov.Map? {
      ChangesIffNotCovered(bv.fields, ov.fields);
    } else if NamedSeqs(bv, ov) {
      ChangesEntriesIffNotCovered(bv.items, ov.items);
    }
  }

  lemma {:induction false} ChangesEntriesIffNotCovered(bs: seq<Value>, os: seq<Value>)
    requires AllNamed(bs) && AllNamed(os)
    ensures ChangesEntries(bs, os) <==> !CoversEntries(bs, os)
    ensures !ChangesEntries(bs, os) ==> MergeEntries(bs, os) == bs
    decreases os, 0
  {
    if os != [] {
      var before, e := os[..|os| - 1], os[|os| - 1];
      assert os == before + [e];
      ChangesEntriesIffNotCovered(bs, before);
      CoversEntriesSnoc(bs, before, e);
      var i := LastNamed(bs, NameOf(e));
      if i >= 0 && !ChangesEntries(bs, before) {
        ChangesIffNotCovered(bs[i].fields, e.fields);
      }
    }
  }

  lemma {:induction false} CoversTransitive(a: Fields, b: Fields, c: Fields)
    requires Covers(a, b) && Covers(b, c)
    ensures Covers(a, c)
    decreases Map(c), 0
  {
    forall k | k in c
      ensures k in a && CoversValue(a[k], c[k])
    {
      CoversValueTransitive(a[k], b[k], c[k]);
    }
  }

  lemma {:induction false} CoversValueTransitive(a: Value, b: Value, c: Value)
    requires CoversValue(a, b) && CoversValue(b, c)
    ensures CoversValue(a, c)
    decreases c, 1
  {
    if b.Map? && c.Map? {
      CoversTransitive(a.fields, b.fields, c.fields);
    } else if NamedSeqs(b, c) {
      forall e | e in c.items
        ensures a.List? && AllNamed(a.items) && CoversEntry(a.items, e)
      {
        assert CoversEntry(b.items, e);
        var f := b.items[LastNamed(b.items, NameOf(e))];
        assert f in b.items && CoversEntry(a.items, f);
        CoversTransitive(a.items[LastNamed(a.items, NameOf(f))].fields, f.fields, e.fields);
      }
    }
  }

  /** After merging a self-consistent assertion, nothing asserted is left to write. */
  lemma {:induction false} MergeCovers(base: Fields, over: Fields)
    requires SelfConsistent(over)
    ensures Covers(Merge(base, over), over)
    decreases Map(over), 0
  {
    forall k | k in over
      ensures CoversValue(Merge(base, over)[k], over[k])
    {
      assert CoversValue(over[k], over[k]);
      if k in base {
        MergeValueCovers(base[k], over[k]);
      }
    }
  }

  lemma {:induction false} MergeValueCovers(bv: Value, ov: Value)
    requires CoversValue(ov, ov)
    ensures CoversValue(MergeValue(bv, ov), ov)
    decreases ov, 1
  {
    if bv.Map? && ov.Map? {
      MergeCovers(bv.fields, ov.fields);
    } else if NamedSeqs(bv, ov) {
      var os := ov.items;
      forall e | e in os
        ensures CoversEntry(MergeEntries(bv.items, os), e)
      {
        assert CoversEntry(os, e);
        var last := os[LastNamed(os, NameOf(e))];
        assert last in os && CoversEntry(os, last);
        MergeEntriesCoverLast(bv.items, os, NameOf(e));
        var out := MergeEntries(bv.items, os);
        CoversTransitive(out[LastNamed(out, NameOf(e))].fields, last.fields, e.fields);
      }
    }
  }

  /** Whatever the base held, the entry filed under a name ends up covering the last entry
      asserted under that name. */
  lemma {:induction false} MergeEntriesCoverLast(bs: seq<Value>, os: seq<Value>, name: string)
    requires AllNamed(bs) && AllNamed(os) && LastNamed(os, name) >= 0
    requires Covers(os[LastNamed(os, name)].fields, os[LastNamed(os, name)].fields)
    ensures var out, last := MergeEntries(bs, os), os[LastNamed(os, name)];
            LastNamed(out, name) >= 0 && Covers(out[LastNamed(out, name)].fields, last.fields)
    decreases os, 0
  {
    hide Merge;
    hide Covers;
    var before, e := os[..|os| - 1], os[|os| - 1];
    var prior, i := MergeEntries(bs, before), LastNamed(bs, NameOf(e));
    MergeEntryIndex(bs, prior, e, name);
    if NameOf(e) != name {
      MergeEntriesCoverLast(bs, before, name);
    } else if i >= 0 {
      MergeEntriesKeepsIndex(bs, before, name);
      MergeCovers(prior[i].fields, e.fields);
    }
  }

  /** One entry re-files no name except, when the base lacks it, its own. */
  lemma MergeEntryIndex(bs: seq<Value>, out: seq<Value>, e: Value, name: string)
    requires AllNamed(bs) && AllNamed(out) && Named(e) && |bs| <= |out|
    requires forall i | 0 <= i < |bs| :: NameOf(out[i]) == NameOf(bs[i])
    ensures var r := MergeEntry(bs, out, e);
            LastNamed(r, name) ==
            if NameOf(e) == name && LastNamed(bs, name) < 0 then |out| else LastNamed(out, name)
  {
    var r := MergeEntry(bs, out, e);
    if LastNamed(bs, NameOf(e)) < 0 {
      assert r[..|r| - 1] == out;
    } else {
      assert |r| == |out|;
    }
  }

  /** A name the base files stays filed at the base's index, so base order survives. */
  lemma {:induction false} MergeEntriesKeepsIndex(bs: seq<Value>, os: seq<Value>, name: string)
    requires AllNamed(bs) && AllNamed(os) && LastNamed(bs, name) >= 0
    ensures LastNamed(MergeEntries(bs, os), name) == LastNamed(bs, name)
    decreases |os|
  {
    if os != [] {
      MergeEntriesKeepsIndex(bs, os[..|os| - 1], name);
      MergeEntryIndex(bs, MergeEntries(bs, os[..|os| - 1]), os[|os| - 1], name);
    }
  }

  /** Quiescence, exactly: every document settles after one merge if and only if the asserted
      tree is self-consistent. The empty document is the witness when it is not. */
  lemma QuiescesIffSelfConsistent(over: Fields)
    ensures (forall base :: !Changes(Merge(base, over), over)) <==> SelfConsistent(over)
  {
    if SelfConsistent(over) {
      forall base ensures !Changes(Merge(base, over), over) {
        MergeCovers(base, over);
        ChangesIffNotCovered(Merge(base, over), over);
      }
    } else {
      assert Merge(map[], over) == over;
      ChangesIffNotCovered(over, over);
    }
  }

  /** With a self-consistent assertion the change flag is semantic: it is set exactly when the
      written document differs from the one read. */
  lemma ChangesIffDifferent(base: Fields, over: Fields)
    requires SelfConsistent(over)
    ensures Changes(base, over) <==> Merge(base, over) != base
  {
    ChangesIffNotCovered(base, over);
    MergeCovers(base, over);
  }

  // ── distinct names: the condition an author can see ──

  predicate Distinct(over: Fields)
    decreases Map(over), 0
  {
    forall k | k in over :: DistinctValue(over[k])
  }

  predicate DistinctValue(v: Value)
    decreases v, 1
  {
    match v
    case Map(fields) => Distinct(fields)
    case List(items) =>
      AllNamed(items) ==>
        (forall i, j | 0 <= i < j < |items| :: NameOf(items[i]) != NameOf(items[j])) &&
        (forall e | e in items :: Distinct(e.fields))
    case _ => true
  }

  lemma {:induction false} DistinctIsSelfConsistent(over: Fields)
    requires Distinct(over)
    ensures SelfConsistent(over)
    decreases Map(over), 0
  {
    forall k | k in over
      ensures CoversValue(over[k], over[k])
    {
      match over[k]
      case Map(fields) =>
        DistinctIsSelfConsistent(fields);
      case List(items) =>
        if NamedSeqs(over[k], over[k]) {
          forall e | e in items ensures CoversEntry(items, e) {
            var i :| 0 <= i < |items| && items[i] == e;
            assert LastNamed(items, NameOf(e)) == i;
            DistinctIsSelfConsistent(e.fields);
          }
        }
      case _ =>
    }
  }

  /** One entry of a list: its name and one more field. */
  function Claim(a: string, x: string, u: int): Value {
    Map(map["name" := Str(a), x := Int(u)])
  }

  lemma ClaimsOverwrite(a: string, x: string, u: int, v: int)
    requires u != v && x != "name"
    ensures Merge(Claim(a, x, u).fields, Claim(a, x, v).fields) == Claim(a, x, v).fields
    ensures !Covers(Claim(a, x, v).fields, Claim(a, x, u).fields)
    ensures Named(Claim(a, x, u)) && NameOf(Claim(a, x, u)) == a
  {
    var first, second := Claim(a, x, u), Claim(a, x, v);
    assert !CoversValue(second.fields[x], first.fields[x]);
  }

  /** The two entries written over themselves, one after the other. */
  lemma TwoClaimsMerge(first: Value, second: Value, a: string)
    requires Named(first) && Named(second) && NameOf(first) == NameOf(second) == a
    requires Merge(second.fields, first.fields) == first.fields && Merge(first.fields, second.fields) == second.fields
    requires !Covers(second.fields, first.fields)
    ensures MergeEntries([first, second], [first, second]) == [first, second] && !CoversEntries([first, second], [first, second])
  {
    hide Merge;
    hide Covers;
    var xs := [first, second];
    assert LastNamed(xs, a) == 1;
    assert first in xs && !CoversEntry(xs, first);
    assert xs[..1] == [first] && [first][..0] == [];
    var step := MergeEntries(xs, [first]);
    assert MergeEntries(xs, []) == xs && step == MergeEntry(xs, xs, first);
    assert step == [first, first];
    assert MergeEntries(xs, xs) == MergeEntry(xs, step, second) == xs;
  }

  /** A sequence naming one entry twice with different values never settles: each pass rewrites
      the document it just wrote, byte for byte, and still reports a change. */
  lemma DuplicateNamesPushForever(a: string, x: string, u: int, v: int)
    requires u != v && x != "name"
    ensures var over := map["claims" := List([Claim(a, x, u), Claim(a, x, v)])];
            !SelfConsistent(over) && Changes(over, over) && Merge(over, over) == over
  {
    var first, second := Claim(a, x, u), Claim(a, x, v);
    ClaimsOverwrite(a, x, u, v);
    ClaimsOverwrite(a, x, v, u);
    TwoClaimsMerge(first, second, a);
    hide Claim;
    hide MergeEntries;
    hide CoversEntries;
    var xs := [first, second];
    var over := map["claims" := List(xs)];
    assert NamedSeqs(List(xs), List(xs));
    assert CoversValue(over["claims"], over["claims"]) == CoversEntries(xs, xs);
    ChangesIffNotCovered(over, over);
  }

  /** An entry with a map under one more field. */
  function Nested(a: string, f: string, x: string, u: int): Value {
    Map(map["name" := Str(a), f := Map(map[x := Int(u)])])
  }

  lemma NestedIsNew(a: string, f: string, x: string, u: int)
    requires f != "name"
    ensures Merge(map["name" := Str(a)], Nested(a, f, x, u).fields) == Nested(a, f, x, u).fields
  {
    hide MergeEntries;
  }

  lemma NestedOverwrites(a: string, f: string, x: string, u: int, v: int)
    requires f != "name"
    ensures Merge(Nested(a, f, x, u).fields, Nested(a, f, x, v).fields) == Nested(a, f, x, v).fields
  {
    hide MergeEntries;
    assert Merge(map[x := Int(u)], map[x := Int(v)]) == map[x := Int(v)];
  }

  lemma NestedTwice(k: string, a: string, f: string, x: string, u: int, v: int)
    requires f != "name"
    ensures Merge(map[k := List([Map(map["name" := Str(a)])])], map[k := List([Nested(a, f, x, u), Nested(a, f, x, v)])]) ==
            map[k := List([Nested(a, f, x, v)])]
  {
    hide Merge;
    NestedIsNew(a, f, x, u);
    NestedOverwrites(a, f, x, u, v);
    var bs, os := [Map(map["name" := Str(a)])], [Nested(a, f, x, u), Nested(a, f, x, v)];
    assert Named(bs[0]) && Named(os[0]) && Named(os[1]);
    assert LastNamed(bs, a) == 0;
    TwoOnOne(bs[0], os[0], os[1]);
    OneKeyMerges(k, List(bs), List(os));
  }

  lemma OneKeyMerges(k: string, bv: Value, ov: Value)
    ensures Merge(map[k := bv], map[k := ov]) == map[k := MergeValue(bv, ov)]
  {
    hide MergeValue;
  }

  lemma TwoOnOne(b: Value, first: Value, second: Value)
    requires Named(b) && Named(first) && Named(second) && NameOf(b) == NameOf(first) == NameOf(second)
    ensures MergeEntries([b], [first, second]) == [Map(Merge(Merge(b.fields, first.fields), second.fields))]
  {
    hide Merge;
    assert LastNamed([b], NameOf(b)) == 0;
    assert [first, second][..1] == [first] && [first][..0] == [];
    assert MergeEntries([b], [first]) == MergeEntry([b], [b], first) == [Map(Merge(b.fields, first.fields))];
    assert MergeEntries([b], [first, second]) == MergeEntry([b], [Map(Merge(b.fields, first.fields))], second);
  }

  // ── what the merge leaves alone ──

  /** One step into a document: a key of a map, or the entry a named list files under a name. */
  datatype Step = Field(key: string) | Item(name: string)

  function Reach(v: Value, path: seq<Step>): Option<Value>
    decreases |path|
  {
    if path == [] then Some(v)
    else match path[0]
      case Field(k) => if v.Map? && k in v.fields then Reach(v.fields[k], path[1..]) else None
      case Item(name) =>
        if v.List? && AllNamed(v.items) && LastNamed(v.items, name) >= 0
        then Reach(v.items[LastNamed(v.items, name)], path[1..])
        else None
  }

  /** The assertion stops being defined along the path while still a map or a named list; of a
      list it says nothing under one name when none of its entries of that name does. */
  ghost predicate Unasserted(over: Value, path: seq<Step>)
    decreases |path|
  {
    path != [] &&
    match path[0]
    case Field(k) => over.Map? && (k in over.fields ==> Unasserted(over.fields[k], path[1..]))
    case Item(name) =>
      && over.List? && over.items != [] && AllNamed(over.items)
      && forall e | e in over.items && NameOf(e) == name :: Unasserted(e, path[1..])
  }

  lemma {:induction false} UnassertedIsUndefined(over: Value, path: seq<Step>)
    requires Unasserted(over, path)
    ensures Reach(over, path).None?
    decreases |path|
  {
    match path[0]
    case Field(k) =>
      if k in over.fields {
        UnassertedIsUndefined(over.fields[k], path[1..]);
      }
    case Item(name) =>
      if LastNamed(over.items, name) >= 0 {
        assert over.items[LastNamed(over.items, name)] in over.items;
        UnassertedIsUndefined(over.items[LastNamed(over.items, name)], path[1..]);
      }
  }

  /** Whatever the assertion does not speak of keeps its value, however deep: a key next to an
      asserted one, inside an asserted map, or inside an entry the assertion also names. */
  lemma {:induction false} MergeKeepsUnasserted(bv: Value, ov: Value, path: seq<Step>)
    requires Unasserted(ov, path)
    ensures Reach(MergeValue(bv, ov), path) == Reach(bv, path)
    decreases |path|, 0
  {
    UnassertedIsUndefined(ov, path);
    if bv.Map? && ov.Map? {
      var k := path[0].key;
      if k in ov.fields && k in bv.fields {
        MergeKeepsUnasserted(bv.fields[k], ov.fields[k], path[1..]);
      }
    } else if NamedSeqs(bv, ov) {
      MergeEntriesKeepsUnasserted(bv.items, ov.items, path[0].name, path[1..]);
    }
  }

  /** The entry filed under a name keeps what no asserted entry of that name speaks of. */
  lemma MergeEntriesKeepsUnasserted(bs: seq<Value>, os: seq<Value>, name: string, path: seq<Step>)
    requires AllNamed(bs) && AllNamed(os) && forall e | e in os && NameOf(e) == name :: Unasserted(e, path)
    ensures Reach(List(MergeEntries(bs, os)), [Item(name)] + path) == Reach(List(bs), [Item(name)] + path)
    decreases |path|, 2
  {
    var out := MergeEntries(bs, os);
    assert ([Item(name)] + path)[1..] == path;
    var i := LastNamed(bs, name);
    if i >= 0 {
      MergeEntriesKeepsIndex(bs, os, name);
      MergeKeepsUnassertedAt(bs, os, i, path);
    } else {
      AppendedIsAsserted(bs, os, name);
      var j := LastNamed(out, name);
      if j >= 0 {
        UnassertedIsUndefined(out[j], path);
      }
    }
  }

  /** Entry by entry, shadowed ones included. */
  lemma {:induction false} MergeKeepsUnassertedAt(bs: seq<Value>, os: seq<Value>, i: nat, path: seq<Step>)
    requires AllNamed(bs) && AllNamed(os) && i < |bs|
    requires forall e | e in os && NameOf(e) == NameOf(bs[i]) :: Unasserted(e, path)
    ensures Reach(MergeEntries(bs, os)[i], path) == Reach(bs[i], path)
    decreases |path|, 1, |os|
  {
    if os != [] {
      var before, e := os[..|os| - 1], os[|os| - 1];
      assert e in os && forall x | x in before :: x in os;
      MergeKeepsUnassertedAt(bs, before, i, path);
      var prior := MergeEntries(bs, before);
      if LastNamed(bs, NameOf(e)) == i {
        assert NameOf(prior[i]) == NameOf(bs[i]) && MergeEntries(bs, os)[i] == MergeValue(prior[i], e);
        MergeKeepsUnasserted(prior[i], e, path);
      }
    }
  }

  lemma {:induction false} AppendedIsAsserted(bs: seq<Value>, os: seq<Value>, name: string)
    requires AllNamed(bs) && AllNamed(os) && LastNamed(bs, name) < 0
    ensures LastNamed(MergeEntries(bs, os), name) >= 0 ==> MergeEntries(bs, os)[LastNamed(MergeEntries(bs, os), name)] in os
    decreases |os|
  {
    if os != [] {
      var before, e := os[..|os| - 1], os[|os| - 1];
      AppendedIsAsserted(bs, before, name);
      assert e in os && forall x | x in before :: x in os;
      MergeEntryIndex(bs, MergeEntries(bs, before), e, name);
    }
  }

  /** Asserted entries whose name the base does not file, in asserted order. */
  function Absent(bs: seq<Value>, os: seq<Value>): seq<Value>
    requires AllNamed(bs) && AllNamed(os)
  {
    if os == [] then []
    else Absent(bs, os[..|os| - 1]) +
         (if LastNamed(bs, NameOf(os[|os| - 1])) < 0 then [os[|os| - 1]] else [])
  }

  /** Entries the assertion does not name (or that a later base entry shadows) stay where and
      what they were, and everything new is appended after them verbatim. */
  lemma {:induction false} MergeEntriesKeeps(bs: seq<Value>, os: seq<Value>)
    requires AllNamed(bs) && AllNamed(os)
    ensures var out := MergeEntries(bs, os);
            && out[|bs|..] == Absent(bs, os)
            && forall i | 0 <= i < |bs| ::
                 (LastNamed(bs, NameOf(bs[i])) != i || forall e | e in os :: NameOf(e) != NameOf(bs[i]))
                 ==> out[i] == bs[i]
    decreases |os|
  {
    if os != [] {
      var before, e := os[..|os| - 1], os[|os| - 1];
      MergeEntriesKeeps(bs, before);
      assert forall x | x in before :: x in os;
      assert e in os;
    }
  }

  /** An entry that can be merged by name: a map whose `name` is a text. */
  ghost predicate Keyed(v: Value) {
    exists fields: Fields, name :: v == Map(fields) && "name" in fields && fields["name"] == Str(name)
  }

  /** Every other list is asserted as a unit: an empty one, one that meets something else than a
      list, and one where either side has an entry without a text for a name. */
  lemma OtherListsAreReplaced(base: Fields, over: Fields, k: string)
    requires k in base && k in over && over[k].List?
    requires !base[k].List? || over[k].items == [] || exists x | x in base[k].items + over[k].items :: !Keyed(x)
    ensures Merge(base, over)[k] == over[k] && (ChangesValue(base[k], over[k]) <==> base[k] != over[k])
  {
    forall x | Named(x) ensures Keyed(x) {
      assert x == Map(x.fields) && x.fields["name"] == Str(x.fields["name"].s);
    }
  }
}
