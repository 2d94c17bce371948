/** Reading a declared overlay path off a live object, and the structural check that a patch
    writes that path and nothing else. */
module OverlayFields {
  import opened Values
  import Quantities

  // ── walking a live object ──

  /** One segment of a live path: a key, optionally followed by `[field=want]`. */
  datatype Segment = Key(key: string) | Elem(key: string, field: string, want: string) | Malformed(key: string)

  datatype Found = Found(value: Value) | Absent | MissedSelector

  /** The string a selector compares: the field's text, or "" when it holds anything else. */
  function TextAt(v: Value, field: string): string {
    if v.Map? && field in v.fields && v.fields[field].Str? then v.fields[field].s else ""
  }

  predicate Selects(v: Value, field: string, want: string) {
    v.Map? && TextAt(v, field) == want
  }

  /** The first element a selector picks, or the length of the list. */
  function FirstSelected(items: seq<Value>, field: string, want: string): (i: nat)
    ensures i <= |items|
    ensures i < |items| ==> Selects(items[i], field, want)
    ensures forall j | 0 <= j < i :: !Selects(items[j], field, want)
  {
    if items == [] || Selects(items[0], field, want) then 0 else 1 + FirstSelected(items[1..], field, want)
  }

  method SelectByField(items: seq<Value>, field: string, want: string) returns (i: nat)
    ensures i == FirstSelected(items, field, want)
  {
    i := 0;
    while i < |items|
      invariant i <= |items|
      invariant FirstSelected(items, field, want) == i + FirstSelected(items[i..], field, want)
    {
      if Selects(items[i], field, want) {
        return;
      }
      i := i + 1;
    }
  }

  function LiveAt(v: Value, path: seq<Segment>): Found
    decreases |path|
  {
    if path == [] then Found(v)
    else if !v.Map? || path[0].key !in v.fields then Absent
    else
      var next := v.fields[path[0].key];
      match path[0]
      case Key(_) => LiveAt(next, path[1..])
      case Malformed(_) => MissedSelector
      case Elem(_, field, want) =>
        if !next.List? then MissedSelector
        else
          var i := FirstSelected(next.items, field, want);
          if i == |next.items| then MissedSelector else LiveAt(next.items[i], path[1..])
  }

  /** The cursor loop of LiveValue. */
  method LiveValue(obj: Fields, path: seq<Segment>) returns (found: Found)
    ensures found == LiveAt(Map(obj), path)
  {
    var cur := Map(obj);
    for k := 0 to |path|
      invariant LiveAt(Map(obj), path) == LiveAt(cur, path[k..])
    {
      if !cur.Map? || path[k].key !in cur.fields {
        return Absent;
      }
      cur := cur.fields[path[k].key];
      match path[k] {
        case Key(_) =>
        case Malformed(_) =>
          return MissedSelector;
        case Elem(_, field, want) =>
          if !cur.List? {
            return MissedSelector;
          }
          var i := SelectByField(cur.items, field, want);
          if i == |cur.items| {
            return MissedSelector;
          }
          cur := cur.items[i];
      }
    }
    found := Found(cur);
  }

  lemma FirstSelectedIs(items: seq<Value>, field: string, want: string, i: nat)
    requires i < |items| && Selects(items[i], field, want)
    requires forall j | 0 <= j < i :: !Selects(items[j], field, want)
    ensures FirstSelected(items, field, want) == i
  {
  }

  /** One step of a walk: into a key, or into the first element with the wanted text. */
  ghost predicate Enters(v: Value, seg: Segment, next: Value) {
    v.Map? && seg.key in v.fields &&
    match seg
    case Key(key) => next == v.fields[key]
    case Malformed(_) => false
    case Elem(key, field, want) =>
      v.fields[key].List? &&
      exists i | 0 <= i < |v.fields[key].items| :: IsFirst(v.fields[key].items, i, field, want) && v.fields[key].items[i] == next
  }

  ghost predicate IsFirst(items: seq<Value>, i: nat, field: string, want: string)
    requires i < |items|
  {
    Selects(items[i], field, want) && forall j | 0 <= j < i :: !Selects(items[j], field, want)
  }

  /** The values a walk passes, from `vs[0]` on. */
  ghost predicate Walks(vs: seq<Value>, path: seq<Segment>) {
    0 < |vs| <= |path| + 1 && forall i | 0 <= i < |vs| - 1 :: Enters(vs[i], path[i], vs[i + 1])
  }

  /** What ends a walk early: no such key, or a key whose selector picks nothing. */
  ghost predicate Stops(v: Value, seg: Segment, found: Found) {
    if !v.Map? || seg.key !in v.fields then found == Absent
    else found == MissedSelector && forall next :: !Enters(v, seg, next)
  }

  ghost predicate EndsIn(vs: seq<Value>, path: seq<Segment>, found: Found)
    requires Walks(vs, path)
  {
    var last := vs[|vs| - 1];
    if |vs| == |path| + 1 then found == Found(last) else Stops(last, path[|vs| - 1], found)
  }

  /** A live path in terms of walks: its value is where the walk along all of it ends; it is absent
      where the walk meets a missing key, and a miss where it meets a selector with nothing to
      select. */
  lemma LiveMeans(v: Value, path: seq<Segment>, found: Found)
    ensures found == LiveAt(v, path) <==> exists vs :: Walks(vs, path) && vs[0] == v && EndsIn(vs, path, found)
  {
    LiveWalks(v, path);
    forall vs | Walks(vs, path) && vs[0] == v && EndsIn(vs, path, found) ensures found == LiveAt(v, path) {
      WalksLive(vs, path, found);
    }
  }

  lemma {:induction false} LiveWalks(v: Value, path: seq<Segment>)
    ensures exists vs :: Walks(vs, path) && vs[0] == v && EndsIn(vs, path, LiveAt(v, path))
    decreases |path|
  {
    hide Enters;
    hide LiveAt;
    if path == [] {
      assert LiveAt(v, path) == Found(v) by {
        LiveNowhere(v);
      }
      assert Walks([v], path) && EndsIn([v], path, LiveAt(v, path));
    } else if next :| Enters(v, path[0], next) {
      EntersOne(v, path, next);
      LiveWalks(next, path[1..]);
      var vs :| Walks(vs, path[1..]) && vs[0] == next && EndsIn(vs, path[1..], LiveAt(next, path[1..]));
      WalkFrom(v, vs, path, LiveAt(v, path));
    } else {
      EntersNone(v, path);
      assert Walks([v], path) && EndsIn([v], path, LiveAt(v, path));
    }
  }

  lemma LiveNowhere(v: Value)
    ensures LiveAt(v, []) == Found(v)
  {
  }

  lemma WalkFrom(v: Value, vs: seq<Value>, path: seq<Segment>, found: Found)
    requires path != [] && Walks(vs, path[1..]) && Enters(v, path[0], vs[0]) && EndsIn(vs, path[1..], found)
    ensures Walks([v] + vs, path) && EndsIn([v] + vs, path, found)
  {
    hide Enters;
    hide Stops;
    var all, more := [v] + vs, path[1..];
    forall i | 0 <= i < |all| - 1 ensures Enters(all[i], path[i], all[i + 1]) {
      if i > 0 {
        assert Enters(vs[i - 1], more[i - 1], vs[i]);
      }
    }
    assert all[|all| - 1] == vs[|vs| - 1];
  }

  lemma EntersOne(v: Value, path: seq<Segment>, next: Value)
    requires path != [] && Enters(v, path[0], next)
    ensures LiveAt(v, path) == LiveAt(next, path[1..])
  {
    var seg := path[0];
    if seg.Elem? {
      var items := v.fields[seg.key].items;
      var i :| 0 <= i < |items| && IsFirst(items, i, seg.field, seg.want) && items[i] == next;
      FirstSelectedIs(items, seg.field, seg.want, i);
    }
  }

  lemma EntersNone(v: Value, path: seq<Segment>)
    requires path != [] && forall next :: !Enters(v, path[0], next)
    ensures Stops(v, path[0], LiveAt(v, path))
  {
    var seg := path[0];
    if v.Map? && seg.key in v.fields {
      if seg.Key? {
        assert Enters(v, seg, v.fields[seg.key]);
      } else if seg.Elem? && v.fields[seg.key].List? {
        var items := v.fields[seg.key].items;
        var i := FirstSelected(items, seg.field, seg.want);
        if i < |items| {
          assert IsFirst(items, i, seg.field, seg.want);
          assert Enters(v, seg, items[i]);
        }
      }
    }
  }

  lemma {:induction false} WalksLive(vs: seq<Value>, path: seq<Segment>, found: Found)
    requires Walks(vs, path) && EndsIn(vs, path, found)
    ensures found == LiveAt(vs[0], path)
    decreases |path|
  {
    if |vs| == 1 {
      if path != [] {
        var v, seg := vs[0], path[0];
        if v.Map? && seg.key in v.fields {
          EntersNone(v, path);
        }
      }
    } else {
      EntersOne(vs[0], path, vs[1]);
      var rest, more := vs[1..], path[1..];
      assert forall i | 0 <= i < |rest| - 1 :: Enters(rest[i], more[i], rest[i + 1]);
      WalksLive(rest, more, found);
    }
  }

  // ── comparing a declared value with a delivered one ──

  datatype OverlayMatch = MatchScalar | MatchNonEmptyList

  /** OverlayFieldDelivered's verdict; `show` is the %v printer. */
  datatype Verdict = Verdict(matched: bool, readable: bool)

  function Delivered(how: OverlayMatch, found: Found, declared: Value, show: Value -> string): Verdict {
    match found
    case MissedSelector => Verdict(false, false)
    case Absent =>
      if how == MatchScalar then Verdict(false, true)
      else if declared.Bool? then Verdict(!declared.b, true)
      else Verdict(false, false)
    case Found(v) =>
      if how == MatchScalar then Verdict(Quantities.ScalarEqual(v, declared, show), true)
      else if !v.List? && !v.Null? then Verdict(false, false)
      else if !declared.Bool? then Verdict(false, false)
      else Verdict((v.List? && v.items != []) == declared.b, true)
  }

  /** What a presence row answers about any object: `true` is met exactly by a list with an entry,
      `false` exactly by no such key, a null or an empty list, and any other find, a selector that
      picks nothing or a declared value that is no bool cannot be read. */
  lemma PresenceMeans(obj: Fields, live: seq<Segment>, declared: Value, show: Value -> string)
    ensures var there := LiveAt(Map(obj), live);
            var some := exists first, rest :: there == Found(List([first] + rest));
            var none := there == Absent || there == Found(Null) || there == Found(List([]));
            Delivered(MatchNonEmptyList, there, declared, show) ==
            if declared == Bool(true) && some then Verdict(true, true)
            else if declared == Bool(true) && none then Verdict(false, true)
            else if declared == Bool(false) && some then Verdict(false, true)
            else if declared == Bool(false) && none then Verdict(true, true)
            else Verdict(false, false)
  {
    var there := LiveAt(Map(obj), live);
    if there.Found? && there.value.List? && there.value.items != [] {
      assert there == Found(List([there.value.items[0]] + there.value.items[1..]));
    }
  }

  /** A scalar row reads whatever its selectors reach: an absent key lacks the value, a value there
      is compared, and only a selector that picks nothing cannot be read. */
  lemma ScalarMeans(obj: Fields, live: seq<Segment>, declared: Value, show: Value -> string)
    ensures var there, v := LiveAt(Map(obj), live), Delivered(MatchScalar, LiveAt(Map(obj), live), declared, show);
            && (v.readable <==> there != MissedSelector)
            && (v.matched <==> exists x :: there == Found(x) && Quantities.ScalarEqual(x, declared, show))
  {
  }

  // ── what a patch writes ──

  datatype Step = Field(name: string) | At(index: nat)
  type Position = seq<Step>

  /** Every leaf under a subtree; an empty map still writes at its own position. */
  function PatchLeaves(node: Value, at: Position): set<Position>
    decreases node
  {
    if node.Map? && node.fields != map[] then
      set k, p | k in node.fields && p in PatchLeaves(node.fields[k], at + [Field(k)]) :: p
    else {at}
  }

  /** Every write of the patch that is not the row's own field. `allow` is the selector key of the
      element the walk just entered; `inElement` stays set below it. */
  function ExtraWrites(node: Value, path: seq<Segment>, at: Position, allow: string, inElement: bool): set<Position>
    decreases |path|
  {
    if path == [] then {}
    else if !node.Map? then {at}
    else set k, p | k in node.fields && p in ExtraUnder(node.fields[k], k, path, at + [Field(k)], allow, inElement) :: p
  }

  function ExtraUnder(v: Value, k: string, path: seq<Segment>, at: Position, allow: string, inElement: bool): set<Position>
    requires path != []
    decreases |path|, 0
  {
    if k != path[0].key then
      if (allow != "" && k == allow) || (inElement && !v.Map?) then {} else PatchLeaves(v, at)
    else
      match path[0]
      case Key(_) => ExtraWrites(v, path[1..], at, "", inElement)
      case Malformed(_) => PatchLeaves(v, at)
      case Elem(_, field, want) =>
        if !v.List? then PatchLeaves(v, at)
        else
          var first := FirstSelected(v.items, field, want);
          set n, p | 0 <= n < |v.items| && p in ExtraAt(v.items[n], n, first, path, at + [At(n)]) :: p
  }

  /** Only the first element the selector picks is the payload. */
  function ExtraAt(item: Value, n: nat, first: nat, path: seq<Segment>, at: Position): set<Position>
    requires path != [] && path[0].Elem?
    decreases |path|, -1
  {
    if n == first then ExtraWrites(item, path[1..], at, path[0].field, true) else PatchLeaves(item, at)
  }

  datatype Targeting = OnTarget | WritesNothingThere | Unreadable | WritesAnotherValue | AlsoWrites(extra: set<Position>)

  function PatchTargetsField(patch: Fields, live: seq<Segment>, how: OverlayMatch, declared: Value, show: Value -> string): Targeting {
    var found := LiveAt(Map(patch), live);
    if !found.Found? then WritesNothingThere
    else
      var sent := Delivered(how, found, declared, show);
      if !sent.readable then Unreadable
      else if !sent.matched then WritesAnotherValue
      else
        var extra := ExtraWrites(Map(patch), live, [], "", false);
        if extra != {} then AlsoWrites(extra) else OnTarget
  }

  // ── what an accepted patch looks like ──

  /** The shape the check leaves: one chain of maps down the path, one element under each
      selector, and beside the chain only selector keys and non-map siblings of an element. */
  predicate WritesOnly(node: Value, path: seq<Segment>, allow: string, inElement: bool)
    decreases |path|
  {
    path == [] ||
    (node.Map? && path[0].key in node.fields && !path[0].Malformed? &&
     (forall k | k in node.fields && k != path[0].key :: Exempt(k, node.fields[k], allow, inElement)) &&
     var next := node.fields[path[0].key];
     if path[0].Key? then WritesOnly(next, path[1..], "", inElement)
     else next.List? && |next.items| == 1 && Selects(next.items[0], path[0].field, path[0].want)
          && WritesOnly(next.items[0], path[1..], path[0].field, true))
  }

  predicate Exempt(k: string, v: Value, allow: string, inElement: bool) {
    (allow != "" && k == allow) || (inElement && !v.Map?)
  }

  lemma {:induction false} LeavesExist(node: Value, at: Position)
    ensures PatchLeaves(node, at) != {}
    decreases node
  {
    if node.Map? && node.fields != map[] {
      var k :| k in node.fields;
      LeavesExist(node.fields[k], at + [Field(k)]);
      var p :| p in PatchLeaves(node.fields[k], at + [Field(k)]);
      assert p in PatchLeaves(node, at);
    }
  }

  /** A map has no extra write when none of its keys has one. */
  lemma ExtraByKey(node: Value, path: seq<Segment>, at: Position, allow: string, inElement: bool)
    requires path != [] && node.Map?
    ensures ExtraWrites(node, path, at, allow, inElement) == {} <==>
            forall k | k in node.fields :: ExtraUnder(node.fields[k], k, path, at + [Field(k)], allow, inElement) == {}
  {
    hide ExtraUnder;
    var extra := ExtraWrites(node, path, at, allow, inElement);
    forall k | k in node.fields
      ensures ExtraUnder(node.fields[k], k, path, at + [Field(k)], allow, inElement) <= extra
    {
    }
  }

  lemma ExtraElsewhere(v: Value, k: string, path: seq<Segment>, at: Position, allow: string, inElement: bool)
    requires path != [] && k != path[0].key
    ensures ExtraUnder(v, k, path, at, allow, inElement) == {} <==> Exempt(k, v, allow, inElement)
  {
    LeavesExist(v, at);
  }

  lemma {:induction false} NoExtraWritesMeansWritesOnly(node: Value, path: seq<Segment>, at: Position, allow: string, inElement: bool)
    requires LiveAt(node, path).Found?
    ensures ExtraWrites(node, path, at, allow, inElement) == {} <==> WritesOnly(node, path, allow, inElement)
    decreases |path|
  {
    if path == [] {
      return;
    }
    var key := path[0].key;
    var next := node.fields[key];
    ExtraByKey(node, path, at, allow, inElement);
    forall k | k in node.fields && k != key
      ensures ExtraUnder(node.fields[k], k, path, at + [Field(k)], allow, inElement) == {}
              <==> Exempt(k, node.fields[k], allow, inElement)
    {
      ExtraElsewhere(node.fields[k], k, path, at + [Field(k)], allow, inElement);
    }
    hide ExtraWrites;
    hide Exempt;
    if path[0].Key? {
      NoExtraWritesMeansWritesOnly(next, path[1..], at + [Field(key)], "", inElement);
    } else {
      ElementExtra(next, path, at + [Field(key)], allow, inElement);
      hide ExtraUnder;
    }
  }

  lemma {:induction false} ElementExtra(next: Value, path: seq<Segment>, at: Position, allow: string, inElement: bool)
    requires path != [] && path[0].Elem? && next.List?
    requires FirstSelected(next.items, path[0].field, path[0].want) < |next.items|
    requires LiveAt(next.items[FirstSelected(next.items, path[0].field, path[0].want)], path[1..]).Found?
    ensures ExtraUnder(next, path[0].key, path, at, allow, inElement) == {} <==>
            |next.items| == 1 && WritesOnly(next.items[0], path[1..], path[0].field, true)
    decreases |path|, 0
  {
    var first := FirstSelected(next.items, path[0].field, path[0].want);
    var extra := ExtraUnder(next, path[0].key, path, at, allow, inElement);
    NoExtraWritesMeansWritesOnly(next.items[first], path[1..], at + [At(first)], path[0].field, true);
    if |next.items| > 1 {
      var other := if first == 0 then 1 else 0;
      LeavesExist(next.items[other], at + [At(other)]);
      var p :| p in PatchLeaves(next.items[other], at + [At(other)]);
      assert p in ExtraAt(next.items[other], other, first, path, at + [At(other)]);
      assert p in extra;
    } else {
      assert first == 0;
      assert ExtraAt(next.items[0], 0, first, path, at + [At(0)]) == ExtraWrites(next.items[0], path[1..], at + [At(0)], path[0].field, true);
      assert extra == ExtraWrites(next.items[0], path[1..], at + [At(0)], path[0].field, true);
    }
  }

  // ── applying a patch ──

  function MapOf(v: Value): Fields {
    if v.Map? then v.fields else map[]
  }

  function OrNull(fields: Fields, k: string): Value {
    if k in fields then fields[k] else Null
  }

  /** JSON merge patch, section 2 of RFC 7396. */
  function MergePatch(target: Value, patch: Value): Value
    decreases patch
  {
    if !patch.Map? then patch
    else
      var t := MapOf(target);
      Map(map k | k in t.Keys + patch.fields.Keys && !(k in patch.fields && patch.fields[k].Null?) ::
            if k in patch.fields then MergePatch(OrNull(t, k), patch.fields[k]) else t[k])
  }

  /** The same merge, except that the lists a path selects into merge by their selector field:
      each patch element goes into the first target element with the same text there, or is
      appended. */
  function Apply(target: Value, patch: Value, path: seq<Segment>): Value
    decreases |path|, 1
  {
    if path == [] || !patch.Map? then MergePatch(target, patch)
    else
      var t := MapOf(target);
      Map(map k | k in t.Keys + patch.fields.Keys && !(k in patch.fields && patch.fields[k].Null?) ::
            if k !in patch.fields then t[k]
            else if k == path[0].key then ApplyUnder(OrNull(t, k), patch.fields[k], path)
            else MergePatch(OrNull(t, k), patch.fields[k]))
  }

  function ApplyUnder(target: Value, patch: Value, path: seq<Segment>): Value
    requires path != []
    decreases |path|, 0
  {
    if path[0].Elem? && patch.List? then
      List(ApplyElements(if target.List? then target.items else [], patch.items, path))
    else Apply(target, patch, path[1..])
  }

  function ApplyElements(items: seq<Value>, patch: seq<Value>, path: seq<Segment>): seq<Value>
    requires path != [] && path[0].Elem?
    decreases |path|, 0, |patch|
  {
    if patch == [] then items
    else
      var i := FirstSelected(items, path[0].field, TextAt(patch[0], path[0].field));
      var next := if i == |items| then items + [Apply(Null, patch[0], path[1..])]
                  else items[i := Apply(items[i], patch[0], path[1..])];
      ApplyElements(next, patch[1..], path)
  }

  /** Without selectors this is RFC 7396 itself. */
  lemma {:induction false} ApplyWithoutSelectors(target: Value, patch: Value, path: seq<Segment>)
    requires forall i | 0 <= i < |path| :: path[i].Key?
    ensures Apply(target, patch, path) == MergePatch(target, patch)
    decreases |path|
  {
    if path != [] && patch.Map? {
      forall k | k in patch.fields && k == path[0].key
        ensures ApplyUnder(OrNull(MapOf(target), k), patch.fields[k], path) == MergePatch(OrNull(MapOf(target), k), patch.fields[k])
      {
        ApplyWithoutSelectors(OrNull(MapOf(target), k), patch.fields[k], path[1..]);
      }
    }
  }

  /** Off the row's path nothing moves: other keys of each map on the way down, other elements of
      each selected list. Inside a selected element the selector key and siblings the patch gives
      a non-map value are exempt. */
  ghost predicate OnlyMoves(before: Value, after: Value, patch: Value, path: seq<Segment>, allow: string, inElement: bool)
    decreases |path|
  {
    path == [] || !patch.Map? || path[0].key !in patch.fields ||
    (after.Map? &&
     (forall k | k != path[0].key && !(k in patch.fields && Exempt(k, patch.fields[k], allow, inElement)) ::
        (k in after.fields <==> k in MapOf(before)) && (k in after.fields ==> after.fields[k] == MapOf(before)[k])) &&
     (if patch.fields[path[0].key].Null? then path[0].key !in after.fields
      else path[0].key in after.fields &&
           OnlyMovesUnder(OrNull(MapOf(before), path[0].key), after.fields[path[0].key], patch.fields[path[0].key], path, inElement)))
  }

  ghost predicate OnlyMovesUnder(before: Value, after: Value, patch: Value, path: seq<Segment>, inElement: bool)
    requires path != []
    decreases |path|, 0
  {
    if path[0].Elem? && patch.List? && |patch.items| == 1 then
      var items := if before.List? then before.items else [];
      var i := FirstSelected(items, path[0].field, path[0].want);
      && after.List? && |after.items| == (if i == |items| then i + 1 else |items|)
      && (forall j | 0 <= j < |items| && j != i :: after.items[j] == items[j])
      && OnlyMoves(if i < |items| then items[i] else Null, after.items[i], patch.items[0], path[1..], path[0].field, true)
    else OnlyMoves(before, after, patch, path[1..], "", inElement)
  }

  /** Merging an element leaves it selected by the text that addressed it. */
  lemma StaysSelected(x: Value, e: Value, path: seq<Segment>, field: string, want: string)
    requires Selects(e, field, want) && (x.Map? ==> TextAt(x, field) == want)
    ensures Selects(Apply(x, e, path), field, want)
  {
    if field in e.fields {
      var v := e.fields[field];
      assert path != [] && Apply(OrNull(MapOf(x), field), v, path[1..]).Str? ==> v.Str?;
      assert path != [] && v.Str? ==> ApplyUnder(OrNull(MapOf(x), field), v, path) == v;
      assert MergePatch(OrNull(MapOf(x), field), v).Str? ==> v.Str?;
    }
  }

  lemma ElementMerged(target: Value, e: Value, path: seq<Segment>)
    requires path != [] && path[0].Elem? && Selects(e, path[0].field, path[0].want)
    ensures var items := if target.List? then target.items else [];
            var i := FirstSelected(items, path[0].field, path[0].want);
            var merged := Apply(if i < |items| then items[i] else Null, e, path[1..]);
            var after := ApplyUnder(target, List([e]), path);
            && after == List(if i == |items| then items + [merged] else items[i := merged])
            && FirstSelected(after.items, path[0].field, path[0].want) == i
  {
    var items := if target.List? then target.items else [];
    var i := FirstSelected(items, path[0].field, path[0].want);
    var merged := Apply(if i < |items| then items[i] else Null, e, path[1..]);
    var result := if i == |items| then items + [merged] else items[i := merged];
    StaysSelected(if i < |items| then items[i] else Null, e, path[1..], path[0].field, path[0].want);
    hide Apply;
    assert [e][1..] == [];
    assert ApplyElements(items, [e], path) == ApplyElements(result, [], path) == result;
    FirstSelectedIs(result, path[0].field, path[0].want, i);
  }

  /** What an object holds at a path before a merge; null where the merge starts from nothing. */
  function Prior(obj: Value, path: seq<Segment>): Value
    decreases |path|
  {
    if path == [] then obj
    else
      var under := OrNull(MapOf(obj), path[0].key);
      if !path[0].Elem? then Prior(under, path[1..])
      else
        var items := if under.List? then under.items else [];
        var i := FirstSelected(items, path[0].field, path[0].want);
        Prior(if i < |items| then items[i] else Null, path[1..])
  }

  /** What the live path reads after a payload was merged there. */
  function Arrived(prior: Value, payload: Value): Found {
    if payload.Null? then Absent else Found(MergePatch(prior, payload))
  }

  /** What happens under the path's first key decides what happens to the map. */
  lemma MapMoves(obj: Value, patch: Value, path: seq<Segment>, allow: string, inElement: bool)
    requires path != [] && WritesOnly(patch, path, allow, inElement)
    ensures var key, after := path[0].key, Apply(obj, patch, path);
            && after.Map? && (key in after.fields <==> !patch.fields[key].Null?)
            && (key !in after.fields ==> OnlyMoves(obj, after, patch, path, allow, inElement))
            && (key in after.fields ==>
                  && after.fields[key] == ApplyUnder(OrNull(MapOf(obj), key), patch.fields[key], path)
                  && (OnlyMoves(obj, after, patch, path, allow, inElement) <==>
                      OnlyMovesUnder(OrNull(MapOf(obj), key), after.fields[key], patch.fields[key], path, inElement)))
  {
    hide ApplyUnder;
    hide OnlyMovesUnder;
    hide LiveAt;
  }

  /** What a patch of the accepted shape does to any object: the live path then reads the payload,
      merged into what was there when it is a map, or nothing for a null; and nothing off the path
      has moved. */
  lemma {:induction false} WritesOnlyMovesOnly(obj: Value, patch: Value, path: seq<Segment>, allow: string, inElement: bool)
    requires path != [] && WritesOnly(patch, path, allow, inElement)
    requires LiveAt(patch, path).Found?
    ensures var payload, after := LiveAt(patch, path).value, Apply(obj, patch, path);
            && LiveAt(after, path) == Arrived(Prior(obj, path), payload)
            && OnlyMoves(obj, after, patch, path, allow, inElement)
    decreases |path|
  {
    if path[0].Elem? {
      ElementMoves(obj, patch, path, allow, inElement);
    } else {
      KeyMoves(obj, patch, path, allow, inElement);
    }
  }

  lemma ElementRead(v: Value, path: seq<Segment>, i: nat)
    requires path != [] && path[0].Elem? && v.Map? && path[0].key in v.fields && v.fields[path[0].key].List?
    requires i < |v.fields[path[0].key].items| && FirstSelected(v.fields[path[0].key].items, path[0].field, path[0].want) == i
    ensures LiveAt(v, path) == LiveAt(v.fields[path[0].key].items[i], path[1..])
  {
  }

  /** The one element of the patch: merged into the element its selector picks, or appended. */
  lemma {:induction false} ElementMoves(obj: Value, patch: Value, path: seq<Segment>, allow: string, inElement: bool)
    requires path != [] && path[0].Elem? && WritesOnly(patch, path, allow, inElement)
    requires LiveAt(patch, path).Found?
    ensures var payload, after := LiveAt(patch, path).value, Apply(obj, patch, path);
            && LiveAt(after, path) == Arrived(Prior(obj, path), payload)
            && OnlyMoves(obj, after, patch, path, allow, inElement)
    decreases |path|, 0
  {
    hide Apply;
    hide ApplyUnder;
    hide OnlyMoves;
    hide OnlyMovesUnder;
    hide WritesOnly;
    hide LiveAt;
    hide Selects;
    ElementShape(patch, path, allow, inElement);
    var key := path[0].key;
    var next, prior := patch.fields[key], OrNull(MapOf(obj), key);
    var items := if prior.List? then prior.items else [];
    var e, i := next.items[0], FirstSelected(items, path[0].field, path[0].want);
    var was := if i < |items| then items[i] else Null;
    MapMoves(obj, patch, path, allow, inElement);
    ElementRead(patch, path, 0);
    ElementMerged(prior, e, path);
    ElementRead(Apply(obj, patch, path), path, i);
    if |path| == 1 {
      WholeElement(was, e, path[0].field);
      assert path[1..] == [];
    } else {
      WritesOnlyMovesOnly(was, e, path[1..], path[0].field, true);
    }
    ElementOnlyMoves(prior, e, path, inElement);
  }

  lemma ElementShape(patch: Value, path: seq<Segment>, allow: string, inElement: bool)
    requires path != [] && path[0].Elem? && WritesOnly(patch, path, allow, inElement)
    ensures patch.Map? && path[0].key in patch.fields
    ensures var next := patch.fields[path[0].key];
            && next.List? && |next.items| == 1 && next == List([next.items[0]]) && next.items[0].Map?
            && Selects(next.items[0], path[0].field, path[0].want)
            && FirstSelected(next.items, path[0].field, path[0].want) == 0
            && WritesOnly(next.items[0], path[1..], path[0].field, true)
  {
  }

  lemma ElementOnlyMoves(prior: Value, e: Value, path: seq<Segment>, inElement: bool)
    requires path != [] && path[0].Elem? && Selects(e, path[0].field, path[0].want)
    requires var items := if prior.List? then prior.items else [];
             var i := FirstSelected(items, path[0].field, path[0].want);
             var was := if i < |items| then items[i] else Null;
             OnlyMoves(was, Apply(was, e, path[1..]), e, path[1..], path[0].field, true)
    ensures OnlyMovesUnder(prior, ApplyUnder(prior, List([e]), path), List([e]), path, inElement)
  {
    hide Apply;
    hide ApplyUnder;
    hide OnlyMoves;
    hide Selects;
    ElementMerged(prior, e, path);
  }

  lemma WholeElement(was: Value, e: Value, field: string)
    requires e.Map?
    ensures LiveAt(e, []) == Found(e) && LiveAt(Apply(was, e, []), []) == Arrived(Prior(was, []), e)
    ensures OnlyMoves(was, Apply(was, e, []), e, [], field, true)
  {
    hide MergePatch;
  }

  lemma {:induction false} KeyMoves(obj: Value, patch: Value, path: seq<Segment>, allow: string, inElement: bool)
    requires path != [] && path[0].Key? && WritesOnly(patch, path, allow, inElement)
    requires LiveAt(patch, path).Found?
    ensures var payload, after := LiveAt(patch, path).value, Apply(obj, patch, path);
            && LiveAt(after, path) == Arrived(Prior(obj, path), payload)
            && OnlyMoves(obj, after, patch, path, allow, inElement)
    decreases |path|, 0
  {
    var key := path[0].key;
    var next, prior := patch.fields[key], OrNull(MapOf(obj), key);
    MapMoves(obj, patch, path, allow, inElement);
    if |path| == 1 {
      assert path[1..] == [] && LiveAt(next, []) == Found(next);
      assert ApplyUnder(prior, next, path) == MergePatch(prior, next);
      hide Apply;
      hide WritesOnly;
    } else {
      assert next.Map?;
      WritesOnlyMovesOnly(prior, next, path[1..], "", inElement);
      hide Apply;
      hide WritesOnly;
      hide OnlyMoves;
    }
  }

  /** The guarantee the check exists for. A patch it accepts, sent to any object at all, moves
      nothing off the row's path and makes the row read as delivered, with two exceptions, both for
      scalar rows. A null deletes the field (a presence row reads that as the empty list it asked
      for). A map is merged into the map that was there, and is delivered exactly when the result
      still prints as declared. */
  lemma AcceptedPatchDelivers(patch: Fields, obj: Fields, live: seq<Segment>, how: OverlayMatch, declared: Value, show: Value -> string)
    requires live != [] && PatchTargetsField(patch, live, how, declared, show) == OnTarget
    ensures var payload, after := LiveAt(Map(patch), live).value, Apply(Map(obj), Map(patch), live);
            && Delivered(how, LiveAt(after, live), declared, show) ==
               Verdict(how.MatchNonEmptyList? ||
                       (!payload.Null? &&
                        (payload.Map? ==> Quantities.ScalarEqual(MergePatch(Prior(Map(obj), live), payload), declared, show))), true)
            && OnlyMoves(Map(obj), after, Map(patch), live, "", false)
  {
    NoExtraWritesMeansWritesOnly(Map(patch), live, [], "", false);
    WritesOnlyMovesOnly(Map(obj), Map(patch), live, "", false);
    hide Apply;
    hide OnlyMoves;
    hide WritesOnly;
    hide LiveAt;
  }

  /** For a presence row: after an accepted patch every object holds a list with an entry at the
      path when `true` was declared, and none when `false` was. */
  lemma AcceptedPresenceHolds(patch: Fields, obj: Fields, live: seq<Segment>, want: bool, show: Value -> string)
    requires live != [] && PatchTargetsField(patch, live, MatchNonEmptyList, Bool(want), show) == OnTarget
    ensures var after := LiveAt(Apply(Map(obj), Map(patch), live), live);
            if want then exists first, rest :: after == Found(List([first] + rest))
            else after == Absent || after == Found(Null) || after == Found(List([]))
  {
    AcceptedPatchDelivers(patch, obj, live, MatchNonEmptyList, Bool(want), show);
    assert Apply(Map(obj), Map(patch), live).Map?;
    PresenceMeans(Apply(Map(obj), Map(patch), live).fields, live, Bool(want), show);
    hide Apply;
    hide Delivered;
    hide LiveAt;
  }

  /** A patch that reaches the path is accepted exactly when it carries the declared value there
      and has the shape of a single write. */
  lemma AcceptedExactlyWhen(patch: Fields, live: seq<Segment>, how: OverlayMatch, declared: Value, show: Value -> string)
    ensures PatchTargetsField(patch, live, how, declared, show) == OnTarget <==>
            && LiveAt(Map(patch), live).Found?
            && Delivered(how, LiveAt(Map(patch), live), declared, show) == Verdict(true, true)
            && WritesOnly(Map(patch), live, "", false)
  {
    if LiveAt(Map(patch), live).Found? {
      NoExtraWritesMeansWritesOnly(Map(patch), live, [], "", false);
    }
    hide WritesOnly;
    hide LiveAt;
    hide ExtraWrites;
  }

  /** The sibling exemption outlives the element's own top level: a patch may also set a plain
      value in a map deeper inside the selected element. */
  lemma ExemptionReachesDeeper(sibling: string, v: Value, show: Value -> string)
    requires sibling != "limits" && !v.Map?
    ensures var live := [Elem("containers", "name", "loki"), Key("resources"), Key("limits")];
            var element := map["name" := Str("loki"), "resources" := Map(map["limits" := Str("1Gi"), sibling := v])];
            PatchTargetsField(map["containers" := List([Map(element)])], live, MatchScalar, Str("1Gi"), show) == OnTarget
  {
    var live := [Elem("containers", "name", "loki"), Key("resources"), Key("limits")];
    var resources := map["limits" := Str("1Gi"), sibling := v];
    var element := map["name" := Str("loki"), "resources" := Map(resources)];
    var patch := map["containers" := List([Map(element)])];
    assert live[1..] == [Key("resources"), Key("limits")] && live[1..][1..] == [Key("limits")] && live[1..][1..][1..] == [];
    assert WritesOnly(Map(resources), [Key("limits")], "", true);
    assert WritesOnly(Map(element), live[1..], "name", true);
    assert LiveAt(Map(resources), [Key("limits")]) == Found(Str("1Gi"));
    assert LiveAt(Map(element), live[1..]) == Found(Str("1Gi"));
    FirstSelectedIs([Map(element)], "name", "loki", 0);
    assert LiveAt(Map(patch), live) == Found(Str("1Gi"));
    Quantities.ScalarEqualIsReflexiveAndSymmetric(Str("1Gi"), Str("1Gi"), show);
    AcceptedExactlyWhen(patch, live, MatchScalar, Str("1Gi"), show);
  }
}
