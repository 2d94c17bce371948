/** SetAppSpec: the reconciler's write onto one AplApp document, and the two-writer protocol it
    runs with apl-operator. */
module AppSpec {
  import opened Values
  import opened AssertedMerge

  /** Everything LLZ asserts about one app; an empty `rawValues` is no opinion. */
  datatype AppOverlay = AppOverlay(enabled: Option<bool>, rawValues: Fields)

  /** The asserted subset written out as a document of its own. */
  function AssertedDoc(want: AppOverlay): Fields {
    if Toggle(want) + RawValues(want) == map[] then map[] else map["spec" := Map(Toggle(want) + RawValues(want))]
  }

  function Toggle(want: AppOverlay): Fields {
    if want.enabled.Some? then map["enabled" := Bool(want.enabled.value)] else map[]
  }

  function RawValues(want: AppOverlay): Fields {
    if want.rawValues != map[] then map["_rawValues" := Map(want.rawValues)] else map[]
  }

  /** The map under a key, or an empty one where the source would start from nothing. */
  function MapUnder(doc: Fields, key: string): Fields {
    if key in doc && doc[key].Map? then doc[key].fields else map[]
  }

  lemma MergeOntoNothing(over: Fields)
    ensures Merge(map[], over) == over && Changes(map[], over) == (over != map[])
  {
    if over != map[] {
      var k :| k in over;
    }
  }

  /** Asserting one map under one key replaces a missing or mistyped value and merges a map. */
  lemma MergeUnder(doc: Fields, key: string, asserted: Fields)
    requires asserted != map[]
    ensures Merge(doc, map[key := Map(asserted)]) == doc[key := Map(Merge(MapUnder(doc, key), asserted))]
    ensures Changes(doc, map[key := Map(asserted)]) == Changes(MapUnder(doc, key), asserted)
  {
    var over: Fields := map[key := Map(asserted)];
    MergeOntoNothing(asserted);
    assert key in over && forall k :: k in over ==> k == key;
    if key in doc {
      assert Changes(doc, over) == ChangesValue(doc[key], over[key]);
    }
  }

  /** Assertions under different keys merge, and change, independently. */
  lemma MergeSplits(doc: Fields, first: Fields, second: Fields)
    requires first.Keys !! second.Keys
    ensures Merge(doc, first + second) == Merge(Merge(doc, first), second)
    ensures Changes(doc, first + second) == (Changes(doc, first) || Changes(doc, second))
  {
    hide Changes;
    ChangesSplits(doc, first, second);
    MergeInTwo(doc, first, second);
  }

  lemma MergeInTwo(doc: Fields, first: Fields, second: Fields)
    requires first.Keys !! second.Keys
    ensures Merge(doc, first + second) == Merge(Merge(doc, first), second)
  {
    hide MergeValue;
    var once, twice := Merge(doc, first + second), Merge(Merge(doc, first), second);
    forall k | k in once ensures k in twice && once[k] == twice[k] {
    }
    assert once.Keys == twice.Keys;
  }

  lemma ChangesSplits(doc: Fields, first: Fields, second: Fields)
    requires first.Keys !! second.Keys
    ensures Changes(doc, first + second) == (Changes(doc, first) || Changes(doc, second))
  {
    hide ChangesValue;
    assert forall k :: k in first + second <==> k in first || k in second;
  }

  lemma ToggleWrite(spec: Fields, want: AppOverlay)
    ensures want.enabled.None? ==> Merge(spec, Toggle(want)) == spec && !Changes(spec, Toggle(want))
    ensures want.enabled.Some? ==>
              var b := Bool(want.enabled.value);
              && Merge(spec, Toggle(want)) == spec["enabled" := b]
              && Changes(spec, Toggle(want)) == !("enabled" in spec && spec["enabled"] == b)
  {
    assert want.enabled.Some? ==> "enabled" in Toggle(want);
    assert forall k :: k in Toggle(want) ==> k == "enabled";
  }

  /** SetAppSpec is one asserted merge of `AssertedDoc`, including the arms that replace a
      missing or mistyped `spec`, `enabled` or `_rawValues`. */
  method SetAppSpec(doc: Fields, want: AppOverlay) returns (updated: Fields, changed: bool)
    ensures updated == Merge(doc, AssertedDoc(want))
    ensures changed == Changes(doc, AssertedDoc(want))
    ensures !changed ==> updated == doc
  {
    var spec := MapUnder(doc, "spec");
    changed := false;
    if want.enabled.Some? && !("enabled" in spec && spec["enabled"] == Bool(want.enabled.value)) {
      spec := spec["enabled" := Bool(want.enabled.value)];
      changed := true;
    }
    ghost var half := Merge(MapUnder(doc, "spec"), Toggle(want));
    ToggleWrite(MapUnder(doc, "spec"), want);
    assert spec == half && changed == Changes(MapUnder(doc, "spec"), Toggle(want));
    if want.rawValues != map[] {
      var base := MapUnder(spec, "_rawValues");
      MergeUnder(spec, "_rawValues", want.rawValues);
      ChangesIffNotCovered(base, want.rawValues);
      if Changes(base, want.rawValues) {
        spec := spec["_rawValues" := Map(Merge(base, want.rawValues))];
        changed := true;
      }
    }
    SpecFields(doc, want);
    ChangesIffNotCovered(half, RawValues(want));
    ChangesIffNotCovered(doc, AssertedDoc(want));
    if !changed {
      return doc, false;
    }
    updated := doc["spec" := Map(spec)];
  }

  /** What is written, spelled out: `spec.enabled` when there is a toggle, `spec._rawValues` merged
      over what was there when there are values, nothing at all when there is neither. */
  lemma WhatIsWritten(doc: Fields, want: AppOverlay)
    ensures var spec := MapUnder(doc, "spec");
            var toggled := if want.enabled.Some? then spec["enabled" := Bool(want.enabled.value)] else spec;
            var filled := if want.rawValues == map[] then toggled
                          else toggled["_rawValues" := Map(Merge(MapUnder(spec, "_rawValues"), want.rawValues))];
            Merge(doc, AssertedDoc(want)) == if want.enabled.None? && want.rawValues == map[] then doc else doc["spec" := Map(filled)]
  {
    hide Merge;
    hide Changes;
    var spec := MapUnder(doc, "spec");
    var half := Merge(spec, Toggle(want));
    SpecFields(doc, want);
    ToggleWrite(spec, want);
    hide Toggle;
    NothingToMerge(half);
    NothingToMerge(doc);
    if want.rawValues != map[] {
      MergeUnder(half, "_rawValues", want.rawValues);
    }
    ToggleIsThere(want);
  }

  lemma ToggleIsThere(want: AppOverlay)
    ensures AssertedDoc(want) == map[] <==> want.enabled.None? && want.rawValues == map[]
  {
    assert want.enabled.Some? ==> "enabled" in Toggle(want) + RawValues(want);
    assert want.rawValues != map[] ==> "_rawValues" in Toggle(want) + RawValues(want);
    assert want.enabled.None? && want.rawValues == map[] ==> Toggle(want) + RawValues(want) == map[];
    assert AssertedDoc(want) == map[] || "spec" in AssertedDoc(want);
  }

  lemma NothingToMerge(doc: Fields)
    ensures Merge(doc, map[]) == doc
  {
  }

  lemma SpecFields(doc: Fields, want: AppOverlay)
    ensures var spec, half := MapUnder(doc, "spec"), Merge(MapUnder(doc, "spec"), Toggle(want));
            && Changes(doc, AssertedDoc(want)) == (Changes(spec, Toggle(want)) || Changes(half, RawValues(want)))
            && (AssertedDoc(want) != map[] ==>
                  Merge(doc, AssertedDoc(want)) == doc["spec" := Map(Merge(half, RawValues(want)))])
  {
    var spec := MapUnder(doc, "spec");
    MergeSplits(spec, Toggle(want), RawValues(want));
    assert Changes(spec, RawValues(want)) == Changes(Merge(spec, Toggle(want)), RawValues(want));
    if Toggle(want) + RawValues(want) != map[] {
      MergeUnder(doc, "spec", Toggle(want) + RawValues(want));
    }
  }

  // ── two writers on one file ──

  /** One turn: the reconciler runs SetAppSpec, or apl-operator replaces the document. */
  datatype Turn = Reconcile | Operator(doc: Fields)

  function After(doc: Fields, asserted: Fields, turn: Turn): Fields {
    match turn
    case Reconcile => Merge(doc, asserted)
    case Operator(d) => d
  }

  /** Commits pushed over a run: the reconciler turns that report a change. */
  function Pushes(doc: Fields, asserted: Fields, turns: seq<Turn>): nat
    decreases |turns|
  {
    if turns == [] then 0
    else (if turns[0].Reconcile? && Changes(doc, asserted) then 1 else 0)
         + Pushes(After(doc, asserted, turns[0]), asserted, turns[1..])
  }

  /** Operator turns that take an asserted value away from a document that carried them all. */
  ghost function Breaks(doc: Fields, asserted: Fields, turns: seq<Turn>): nat
    decreases |turns|
  {
    if turns == [] then 0
    else (if turns[0].Operator? && Covers(doc, asserted) && !Covers(turns[0].doc, asserted) then 1 else 0)
         + Breaks(After(doc, asserted, turns[0]), asserted, turns[1..])
  }

  /** Over any interleaving, every push but the first answers an operator turn that broke an
      asserted value. */
  lemma {:induction false} PushesBounded(doc: Fields, asserted: Fields, turns: seq<Turn>)
    requires SelfConsistent(asserted)
    ensures Pushes(doc, asserted, turns)
            <= (if Covers(doc, asserted) then 0 else 1) + Breaks(doc, asserted, turns)
    decreases |turns|
  {
    if turns != [] {
      ChangesIffNotCovered(doc, asserted);
      MergeCovers(doc, asserted);
      PushesBounded(After(doc, asserted, turns[0]), asserted, turns[1..]);
    }
  }

  /** apl-operator rewrites the file on its own schedule without taking anything away: each of
      its documents still covers the one it replaced (keys and entries added, entries reordered,
      defaults filled in). */
  ghost predicate OperatorOnlyGrows(doc: Fields, asserted: Fields, turns: seq<Turn>)
    decreases |turns|
  {
    turns != [] ==>
      && (turns[0].Operator? ==> Covers(turns[0].doc, doc))
      && OperatorOnlyGrows(After(doc, asserted, turns[0]), asserted, turns[1..])
  }

  /** Adding keys to a document covers it exactly when the document agrees with itself. */
  lemma AddedKeysCover(doc: Fields, extra: Fields)
    requires doc.Keys !! extra.Keys
    ensures Covers(doc + extra, doc) <==> SelfConsistent(doc)
  {
    hide CoversValue;
    assert forall k | k in doc :: (doc + extra)[k] == doc[k];
  }

  /** Rewriting one value into one that covers it, as filling in defaults does. */
  lemma FilledValueCovers(doc: Fields, k: string, filled: Value)
    requires SelfConsistent(doc) && k in doc && CoversValue(filled, doc[k])
    ensures Covers(doc[k := filled], doc)
  {
    hide CoversValue;
  }

  /** Named entries in any order, with others added and each allowed to gain keys, cover what they
      came from while no name repeats. */
  lemma RearrangedEntriesCover(after: seq<Value>, before: seq<Value>, to: seq<nat>)
    requires AllNamed(after) && AllNamed(before) && |to| == |before|
    requires forall i, j | 0 <= i < j < |after| :: NameOf(after[i]) != NameOf(after[j])
    requires forall i | 0 <= i < |before| ::
               to[i] < |after| && NameOf(after[to[i]]) == NameOf(before[i]) && Covers(after[to[i]].fields, before[i].fields)
    ensures CoversEntries(after, before)
    ensures before != [] ==> CoversValue(List(after), List(before))
  {
    hide Covers;
    forall e | e in before ensures CoversEntry(after, e) {
      var i :| 0 <= i < |before| && before[i] == e;
      assert LastNamed(after, NameOf(e)) == to[i];
    }
  }

  /** A permutation of distinct, self-consistent entries. */
  lemma PermutedEntriesCover(after: seq<Value>, before: seq<Value>)
    requires AllNamed(before) && multiset(after) == multiset(before)
    requires forall i, j | 0 <= i < j < |after| :: Named(after[i]) && Named(after[j]) ==> NameOf(after[i]) != NameOf(after[j])
    requires forall e | e in before :: SelfConsistent(e.fields)
    ensures AllNamed(after) && CoversEntries(after, before)
  {
    hide Covers;
    hide CoversEntries;
    hide Find;
    forall i | 0 <= i < |after| ensures Named(after[i]) {
      assert after[i] in multiset(after);
    }
    forall i | 0 <= i < |before| ensures before[i] in after {
      assert before[i] in multiset(before);
    }
    var to := seq(|before|, i requires 0 <= i < |before| => Find(after, before[i]));
    forall i | 0 <= i < |before|
      ensures to[i] < |after| && NameOf(after[to[i]]) == NameOf(before[i]) && Covers(after[to[i]].fields, before[i].fields)
    {
      assert before[i] in before && SelfConsistent(before[i].fields);
    }
    RearrangedEntriesCover(after, before, to);
  }

  ghost function Find(xs: seq<Value>, x: Value): (i: nat)
    requires x in xs
    ensures i < |xs| && xs[i] == x
  {
    var i :| 0 <= i < |xs| && xs[i] == x;
    i
  }

  /** Against such an operator the reconciler pushes once at most, however long the run. */
  lemma {:induction false} GrowthNeverFightsBack(doc: Fields, asserted: Fields, turns: seq<Turn>)
    requires SelfConsistent(asserted) && OperatorOnlyGrows(doc, asserted, turns)
    ensures Breaks(doc, asserted, turns) == 0
    ensures Pushes(doc, asserted, turns) <= 1
    decreases |turns|
  {
    PushesBounded(doc, asserted, turns);
    if turns != [] {
      if turns[0].Operator? && Covers(doc, asserted) {
        CoversTransitive(turns[0].doc, doc, asserted);
      }
      GrowthNeverFightsBack(After(doc, asserted, turns[0]), asserted, turns[1..]);
    }
  }

  /** The asserted document is self-consistent exactly when the asserted values are. */
  lemma AssertedDocConsistent(want: AppOverlay)
    ensures SelfConsistent(AssertedDoc(want)) <==> SelfConsistent(want.rawValues)
  {
    var inner, doc := Toggle(want) + RawValues(want), AssertedDoc(want);
    assert forall k :: k in inner ==> k == "enabled" || k == "_rawValues";
    assert forall k :: k in doc ==> k == "spec";
    assert "enabled" in inner ==> CoversValue(inner["enabled"], inner["enabled"]);
    assert SelfConsistent(map[]);
    if want.rawValues != map[] {
      assert "_rawValues" in inner && inner["_rawValues"] == Map(want.rawValues);
      assert CoversValue(Map(want.rawValues), Map(want.rawValues)) == SelfConsistent(want.rawValues);
    }
    assert SelfConsistent(inner) == SelfConsistent(want.rawValues);
    if inner != map[] {
      assert "spec" in doc && doc["spec"] == Map(inner);
      assert CoversValue(Map(inner), Map(inner)) == SelfConsistent(inner);
    }
  }
}
