/** What an Argo Application's Helm values say about one path: several documents in ascending
    precedence, read one at a time, against the single document Helm would merge them into. */
module HelmValues {
  import opened Values
  import AssertedMerge

  /** mergeMaps: maps merge key by key, everything else is replaced by the later document. */
  function DeepMerge(base: Fields, over: Fields): Fields
    decreases Map(over)
  {
    map k | k in base.Keys + over.Keys ::
      if k !in over then base[k]
      else if k in base && base[k].Map? && over[k].Map? then Map(DeepMerge(base[k].fields, over[k].fields))
      else over[k]
  }

  /** The range loop over a Go map visits keys in any order; the result does not depend on it. */
  method MergeMaps(base: Fields, over: Fields) returns (r: Fields)
    ensures r == DeepMerge(base, over)
    decreases Map(over)
  {
    r := base;
    var todo := over.Keys;
    while todo != {}
      invariant todo <= over.Keys && r.Keys == base.Keys + (over.Keys - todo)
      invariant forall k | k in r :: r[k] == if k in todo || k !in over then base[k] else DeepMerge(base, over)[k]
      decreases todo
    {
      var k :| k in todo;
      if k in r && r[k].Map? && over[k].Map? {
        var sub := MergeMaps(r[k].fields, over[k].fields);
        r := r[k := Map(sub)];
      } else {
        r := r[k := over[k]];
      }
      todo := todo - {k};
    }
  }

  /** The whole stack, later documents over earlier ones. */
  function MergeAll(docs: seq<Fields>): Fields {
    if docs == [] then map[] else DeepMerge(MergeAll(docs[..|docs| - 1]), docs[|docs| - 1])
  }

  function LastCarried(docs: seq<Fields>, path: seq<string>): Option<Value> {
    if docs == [] then None
    else
      var v := Lookup(Map(docs[|docs| - 1]), path);
      if v.Some? then v else LastCarried(docs[..|docs| - 1], path)
  }

  /** desiredValue: the last document that carries the path wins. */
  method DesiredValue(docs: seq<Fields>, path: seq<string>) returns (found: Option<Value>)
    ensures found == LastCarried(docs, path)
  {
    found := None;
    for i := 0 to |docs|
      invariant found == LastCarried(docs[..i], path)
    {
      assert docs[..i + 1][..i] == docs[..i];
      var v := RawValue(docs[i], path);
      if v.Some? {
        found := v;
      }
    }
    assert docs[..|docs|] == docs;
  }

  /** A document puts something that is not a map at a proper prefix of the path. */
  predicate Blocks(v: Value, path: seq<string>)
    decreases |path|
  {
    |path| > 1 && v.Map? && path[0] in v.fields &&
    (!v.fields[path[0]].Map? || Blocks(v.fields[path[0]], path[1..]))
  }

  /** Some document after the last one that carries the path blocks it. */
  predicate BlockedSince(docs: seq<Fields>, path: seq<string>) {
    docs != [] &&
    var last := Map(docs[|docs| - 1]);
    Lookup(last, path).None? && (Blocks(last, path) || BlockedSince(docs[..|docs| - 1], path))
  }

  /** One merge step, seen along one path. */
  lemma {:induction false} LookupMerged(base: Fields, over: Fields, path: seq<string>)
    requires path != []
    ensures Lookup(Map(DeepMerge(base, over)), path) ==
            var b, o := Lookup(Map(base), path), Lookup(Map(over), path);
            if Blocks(Map(over), path) then None
            else if o.None? then b
            else if o.value.Map? && b.Some? && b.value.Map? then Some(Map(DeepMerge(b.value.fields, o.value.fields)))
            else o
    decreases |path|
  {
    var k, rest := path[0], path[1..];
    if rest != [] && k in over && over[k].Map? {
      if k in base && base[k].Map? {
        LookupMerged(base[k].fields, over[k].fields, rest);
      }
      assert Blocks(Map(over), path) == Blocks(over[k], rest);
      if Blocks(over[k], rest) {
        BlockedIsUndefined(over[k], rest);
      }
    }
  }

  lemma {:induction false} BlockedIsUndefined(v: Value, path: seq<string>)
    requires Blocks(v, path)
    ensures Lookup(v, path).None?
    decreases |path|
  {
    var next := v.fields[path[0]];
    if next.Map? {
      BlockedIsUndefined(next, path[1..]);
    }
  }

  /** Exactly when the document-by-document lookup is the lookup in the merged values. It finds a
      value whenever the merge carries one; the merge carries the one it finds, scalar or list,
      if and only if no document after its carrier blocks the path. */
  lemma {:induction false} LastCarriedVersusMerged(docs: seq<Fields>, path: seq<string>)
    requires path != []
    ensures var last, merged := LastCarried(docs, path), Lookup(Map(MergeAll(docs)), path);
            && (merged.Some? <==> last.Some? && !BlockedSince(docs, path))
            && (last.Some? && !last.value.Map? ==> (merged == last <==> !BlockedSince(docs, path)))
            && (merged.Some? && last.value.Map? ==> merged.value.Map?)
    decreases |docs|
  {
    if docs == [] {
      assert Lookup(Map(map[]), path).None?;
    } else {
      var before, over := docs[..|docs| - 1], docs[|docs| - 1];
      LastCarriedVersusMerged(before, path);
      LookupMerged(MergeAll(before), over, path);
      if Blocks(Map(over), path) {
        BlockedIsUndefined(Map(over), path);
      }
    }
  }

  lemma {:induction false} LookupConcat(v: Value, path: seq<string>, more: seq<string>)
    ensures Lookup(v, path + more) == var mid := Lookup(v, path); if mid.None? then None else Lookup(mid.value, more)
    ensures path != [] && Lookup(v, path).None? && !Blocks(v, path) ==> !Blocks(v, path + more)
    decreases |path|
  {
    if path == [] {
      assert path + more == more;
    } else {
      assert (path + more)[0] == path[0] && (path + more)[1..] == path[1..] + more;
      if v.Map? && path[0] in v.fields {
        LookupConcat(v.fields[path[0]], path[1..], more);
      }
    }
  }

  lemma {:induction false} CarriedBelow(docs: seq<Fields>, path: seq<string>, more: seq<string>)
    requires path != [] && !BlockedSince(docs, path)
    requires LastCarried(docs, path).Some? && Lookup(LastCarried(docs, path).value, more).Some?
    ensures LastCarried(docs, path + more) == Lookup(LastCarried(docs, path).value, more) && !BlockedSince(docs, path + more)
    decreases |docs|
  {
    LookupConcat(Map(docs[|docs| - 1]), path, more);
    if Lookup(Map(docs[|docs| - 1]), path).None? {
      CarriedBelow(docs[..|docs| - 1], path, more);
    }
  }

  /** What an unblocked lookup finds is in the merged values, a map with everything it says. */
  lemma CarriedIsMerged(docs: seq<Fields>, path: seq<string>, more: seq<string>)
    requires path != [] && !BlockedSince(docs, path)
    requires LastCarried(docs, path).Some? && Lookup(LastCarried(docs, path).value, more).Some?
    ensures var found, merged := Lookup(LastCarried(docs, path).value, more).value, Lookup(Map(MergeAll(docs)), path + more);
            merged.Some? && if found.Map? then merged.value.Map? else merged.value == found
  {
    CarriedBelow(docs, path, more);
    LastCarriedVersusMerged(docs, path + more);
  }

  /** The failing family is real: a later scalar at `a` hides `a.b` from Helm, not from the lookup. */
  lemma BlockedDocumentMisleads(a: string, b: string, x: Value, y: Value)
    requires !y.Map?
    ensures var docs := [map[a := Map(map[b := x])], map[a := y]];
            && LastCarried(docs, [a, b]) == Some(x)
            && Lookup(Map(MergeAll(docs)), [a, b]).None?
  {
    var first: Fields, second: Fields := map[a := Map(map[b := x])], map[a := y];
    var docs := [first, second];
    assert docs[..1] == [first] && [first][..0] == [];
    assert [a, b][1..] == [b];
    assert Lookup(first[a], [b]) == Lookup(x, [b][1..]);
    LastCarriedVersusMerged(docs, [a, b]);
  }

  /** No list anywhere in the tree is a sequence of named entries. */
  predicate NoNamedLists(over: Fields)
    decreases Map(over)
  {
    forall k | k in over ::
      match over[k]
      case Map(fields) => NoNamedLists(fields)
      case List(items) => items == [] || !AssertedMerge.AllNamed(items)
      case _ => true
  }

  /** The asserted merge is this deep merge wherever no named sequence is asserted. */
  lemma {:induction false} AssertedMergeIsDeepMerge(base: Fields, over: Fields)
    requires NoNamedLists(over)
    ensures AssertedMerge.Merge(base, over) == DeepMerge(base, over)
    decreases Map(over)
  {
    forall k | k in over && k in base
      ensures AssertedMerge.MergeValue(base[k], over[k]) ==
              if base[k].Map? && over[k].Map? then Map(DeepMerge(base[k].fields, over[k].fields)) else over[k]
    {
      if base[k].Map? && over[k].Map? {
        AssertedMergeIsDeepMerge(base[k].fields, over[k].fields);
      }
    }
  }
}
