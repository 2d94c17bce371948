/** helm.parameters: dotted `--set` names, and the nested document they stand for. */
module HelmParameters {
  import opened Values
  import HelmValues

  // ── splitting a name ──

  /** The segments still to come, with `cur` already collected: `\.` is a literal dot. */
  function SplitFrom(name: string, cur: string): (parts: seq<string>)
    ensures |parts| > 0
    decreases |name|
  {
    if name == "" then [cur]
    else if |name| > 1 && name[0] == '\\' && name[1] == '.' then SplitFrom(name[2..], cur + ".")
    else if name[0] == '.' then [cur] + SplitFrom(name[1..], "")
    else SplitFrom(name[1..], cur + [name[0]])
  }

  method SplitHelmPath(name: string) returns (parts: seq<string>)
    ensures parts == SplitFrom(name, "") && |parts| > 0
  {
    parts := [];
    var cur, i := "", 0;
    while i < |name|
      invariant 0 <= i <= |name|
      invariant parts + SplitFrom(name[i..], cur) == SplitFrom(name, "")
    {
      if name[i] == '\\' && i + 1 < |name| && name[i + 1] == '.' {
        assert name[i..][2..] == name[i + 2..];
        cur := cur + ".";
        i := i + 1;
      } else if name[i] == '.' {
        assert parts + ([cur] + SplitFrom(name[i + 1..], "")) == parts + [cur] + SplitFrom(name[i + 1..], "");
        parts, cur := parts + [cur], "";
      } else {
        cur := cur + [name[i]];
      }
      i := i + 1;
    }
    parts := parts + [cur];
  }

  function Escape(seg: string): string {
    if seg == "" then "" else (if seg[0] == '.' then "\\." else [seg[0]]) + Escape(seg[1..])
  }

  /** How a caller writes a list of keys as one name. */
  function Join(segs: seq<string>): string
    requires segs != []
  {
    if |segs| == 1 then Escape(segs[0]) else Escape(segs[0]) + "." + Join(segs[1..])
  }

  predicate EndsInBackslash(seg: string) {
    seg != "" && seg[|seg| - 1] == '\\'
  }

  /** What is read back: a backslash in front of a separator takes the separator literally. */
  function Glued(cur: string, segs: seq<string>): (parts: seq<string>)
    requires segs != []
    ensures 0 < |parts| <= |segs|
    decreases |segs|
  {
    if |segs| == 1 then [cur + segs[0]]
    else if EndsInBackslash(segs[0]) then Glued(cur + segs[0][..|segs[0]| - 1] + ".", segs[1..])
    else [cur + segs[0]] + Glued("", segs[1..])
  }

  lemma SplitLiteralDot(tail: string, cur: string)
    ensures SplitFrom("\\." + tail, cur) == SplitFrom(tail, cur + ".")
  {
    assert ("\\." + tail)[2..] == tail;
  }

  lemma SplitPlain(c: char, tail: string, cur: string)
    requires c != '.' && !(c == '\\' && tail != "" && tail[0] == '.')
    ensures SplitFrom([c] + tail, cur) == SplitFrom(tail, cur + [c])
  {
    assert ([c] + tail)[1..] == tail;
  }

  predicate Swallows(seg: string, rest: string) {
    EndsInBackslash(seg) && rest != "" && rest[0] == '.'
  }

  lemma {:induction false} SplitEscaped(seg: string, rest: string, cur: string)
    ensures SplitFrom(Escape(seg) + rest, cur) ==
            if Swallows(seg, rest) then SplitFrom(rest[1..], cur + seg[..|seg| - 1] + ".")
            else SplitFrom(rest, cur + seg)
    decreases |seg|
  {
    hide SplitFrom;
    if seg == "" {
      assert Escape(seg) + rest == rest && cur + seg == cur;
      return;
    }
    var c, more := seg[0], seg[1..];
    var tail := Escape(more) + rest;
    assert seg == [c] + more;
    if c == '\\' && tail != "" && tail[0] == '.' {
      assert more == "" && tail == rest && Escape(seg) + rest == "\\." + rest[1..];
      SplitLiteralDot(rest[1..], cur);
      assert cur + seg[..|seg| - 1] + "." == cur + ".";
      return;
    }
    assert Escape(seg) + rest == (if c == '.' then "\\." else [c]) + tail;
    if c == '.' {
      SplitLiteralDot(tail, cur);
    } else {
      SplitPlain(c, tail, cur);
    }
    SplitEscaped(more, rest, cur + [c]);
    assert cur + [c] + more == cur + seg;
    if Swallows(more, rest) {
      assert cur + [c] + more[..|more| - 1] == cur + seg[..|seg| - 1];
    }
  }

  lemma {:induction false} SplitJoined(segs: seq<string>, cur: string)
    requires segs != []
    ensures SplitFrom(Join(segs), cur) == Glued(cur, segs)
    decreases |segs|
  {
    if |segs| == 1 {
      SplitEscaped(segs[0], "", cur);
      assert Escape(segs[0]) + "" == Escape(segs[0]);
      return;
    }
    var next := Join(segs[1..]);
    var rest := "." + next;
    assert Join(segs) == Escape(segs[0]) + rest && rest[1..] == next;
    SplitEscaped(segs[0], rest, cur);
    if EndsInBackslash(segs[0]) {
      SplitJoined(segs[1..], cur + segs[0][..|segs[0]| - 1] + ".");
    } else {
      SplitSeparator(next, cur + segs[0]);
      SplitJoined(segs[1..], "");
    }
  }

  lemma SplitSeparator(next: string, cur: string)
    ensures SplitFrom("." + next, cur) == [cur] + SplitFrom(next, "")
  {
    assert ("." + next)[1..] == next;
  }

  lemma {:induction false} GluedIsWhole(segs: seq<string>)
    requires segs != []
    ensures |Glued("", segs)| == |segs| <==> forall i | 0 <= i < |segs| - 1 :: !EndsInBackslash(segs[i])
    ensures |Glued("", segs)| == |segs| ==> Glued("", segs) == segs
    decreases |segs|
  {
    if |segs| > 1 {
      GluedIsWhole(segs[1..]);
      assert "" + segs[0] == segs[0];
      assert segs == [segs[0]] + segs[1..];
      assert forall i | 0 < i < |segs| - 1 :: segs[i] == segs[1..][i - 1];
      assert forall i | 0 <= i < |segs| - 2 :: segs[1..][i] == segs[i + 1];
      if EndsInBackslash(segs[0]) {
        assert |Glued("", segs)| <= |segs[1..]|;
      }
    } else {
      assert "" + segs[0] == segs[0];
    }
  }

  /** Splitting inverts escaping and joining exactly on the lists in which no segment but the
      last ends in a backslash. */
  lemma SplitInvertsJoin(segs: seq<string>)
    requires segs != []
    ensures SplitFrom(Join(segs), "") == segs <==> forall i | 0 <= i < |segs| - 1 :: !EndsInBackslash(segs[i])
  {
    SplitJoined(segs, "");
    GluedIsWhole(segs);
  }

  // ── building the document ──

  datatype Parameter = Parameter(name: string, value: string)

  /** One parameter written into the document: maps are created on the way down, and a parameter
      that would have to pass through a scalar is dropped. */
  function SetPath(doc: Fields, parts: seq<string>, value: string): Fields
    requires parts != []
    decreases |parts|
  {
    var k := parts[0];
    if |parts| == 1 then doc[k := Str(value)]
    else if k !in doc then doc[k := Map(SetPath(map[], parts[1..], value))]
    else if doc[k].Map? then doc[k := Map(SetPath(doc[k].fields, parts[1..], value))]
    else doc
  }

  function Document(params: seq<Parameter>): Fields {
    if params == [] then map[]
    else SetPath(Document(params[..|params| - 1]), PathOf(params[|params| - 1]), params[|params| - 1].value)
  }

  function PathOf(p: Parameter): seq<string> {
    SplitFrom(p.name, "")
  }

  /** parametersDoc; no parameters is no document. */
  method ParametersDoc(params: seq<Parameter>) returns (doc: Option<Fields>)
    ensures doc == if params == [] then None else Some(Document(params))
  {
    if params == [] {
      return None;
    }
    var built: Fields := map[];
    for i := 0 to |params|
      invariant built == Document(params[..i])
    {
      assert params[..i + 1][..i] == params[..i];
      var parts := SplitHelmPath(params[i].name);
      built := SetPath(built, parts, params[i].value);
    }
    assert params[..|params|] == params;
    doc := Some(built);
  }

  predicate ProperPrefix(a: seq<string>, b: seq<string>) {
    |a| < |b| && a == b[..|a|]
  }

  /** The value of the last parameter that splits to a path. */
  function LastValue(params: seq<Parameter>, path: seq<string>): Option<string> {
    if params == [] then None
    else if PathOf(params[|params| - 1]) == path then Some(params[|params| - 1].value)
    else LastValue(params[..|params| - 1], path)
  }

  predicate PrefixFree(params: seq<Parameter>) {
    forall i, j | 0 <= i < |params| && 0 <= j < |params| :: !ProperPrefix(PathOf(params[i]), PathOf(params[j]))
  }

  predicate Leads(params: seq<Parameter>, path: seq<string>) {
    exists i | 0 <= i < |params| :: ProperPrefix(path, PathOf(params[i]))
  }

  /** Everything the document holds, path by path: each name's last value, the maps that lead to
      them, and nothing else. */
  ghost predicate Holds(doc: Fields, params: seq<Parameter>, path: seq<string>) {
    var found := Lookup(Map(doc), path);
    match LastValue(params, path)
    case Some(v) => found == Some(Str(v))
    case None => if Leads(params, path) then found.Some? && found.value.Map? else found.None?
  }

  /** What one parameter does to any document, path by path. A scalar on the way stops it without
      a trace; otherwise it is at its own path, maps lead to it, nothing is left below it, and no
      other path moves. */
  lemma {:induction false} LookupSet(doc: Fields, parts: seq<string>, value: string, path: seq<string>)
    requires parts != [] && path != []
    ensures var found := Lookup(Map(SetPath(doc, parts, value)), path);
            if HelmValues.Blocks(Map(doc), parts) then SetPath(doc, parts, value) == doc
            else if path == parts then found == Some(Str(value))
            else if ProperPrefix(path, parts) then found.Some? && found.value.Map?
            else if ProperPrefix(parts, path) then found.None?
            else found == Lookup(Map(doc), path)
    decreases |parts|
  {
    var k := parts[0];
    if HelmValues.Blocks(Map(doc), parts) {
      SetStops(doc, parts, value);
    } else if |parts| == 1 {
      assert parts == [k];
    } else {
      var sub: Fields := if k in doc then doc[k].fields else map[];
      assert SetPath(doc, parts, value) == doc[k := Map(SetPath(sub, parts[1..], value))];
      assert !HelmValues.Blocks(Map(sub), parts[1..]);
      if path[0] == k && |path| > 1 {
        LookupSet(sub, parts[1..], value, path[1..]);
      }
    }
  }

  lemma {:induction false} SetStops(doc: Fields, parts: seq<string>, value: string)
    requires parts != [] && HelmValues.Blocks(Map(doc), parts)
    ensures SetPath(doc, parts, value) == doc
    decreases |parts|
  {
    if doc[parts[0]].Map? {
      SetStops(doc[parts[0]].fields, parts[1..], value);
    }
  }

  /** Nothing but maps, or nothing, on the way. */
  lemma {:induction false} ClearWay(doc: Fields, parts: seq<string>)
    requires forall p | ProperPrefix(p, parts) && p != [] :: Lookup(Map(doc), p).None? || Lookup(Map(doc), p).value.Map?
    ensures !HelmValues.Blocks(Map(doc), parts)
    decreases |parts|
  {
    if |parts| > 1 && parts[0] in doc {
      var k := parts[0];
      assert ProperPrefix([k], parts) && Lookup(Map(doc), [k]) == Lookup(doc[k], []);
      forall p | ProperPrefix(p, parts[1..]) && p != []
        ensures Lookup(doc[k], p).None? || Lookup(doc[k], p).value.Map?
      {
        assert ([k] + p)[1..] == p && ProperPrefix([k] + p, parts);
      }
      ClearWay(doc[k].fields, parts[1..]);
    }
  }

  lemma {:induction false} DocumentHolds(params: seq<Parameter>, path: seq<string>)
    requires PrefixFree(params) && path != []
    ensures Holds(Document(params), params, path)
    decreases |params|
  {
    if params == [] {
      assert Lookup(Map(map[]), path).None?;
    } else {
      var before, last := params[..|params| - 1], params[|params| - 1];
      var doc, parts := Document(before), PathOf(last);
      assert params == before + [last];
      assert PrefixFree(before);
      DocumentHolds(before, path);
      forall p | ProperPrefix(p, parts) && p != []
        ensures Lookup(Map(doc), p).None? || Lookup(Map(doc), p).value.Map?
      {
        DocumentHolds(before, p);
        NoValueAt(before, p, params);
      }
      ClearWay(doc, parts);
      LookupSet(doc, parts, last.value, path);
      LeadsSnoc(before, last, path);
      if ProperPrefix(path, parts) {
        NoValueAt(before, path, params);
      } else if ProperPrefix(parts, path) {
        NothingBelow(before, path, params);
      }
    }
  }

  lemma LeadsSnoc(before: seq<Parameter>, last: Parameter, path: seq<string>)
    ensures Leads(before + [last], path) <==> Leads(before, path) || ProperPrefix(path, PathOf(last))
  {
    var params := before + [last];
    assert forall i | 0 <= i < |before| :: params[i] == before[i];
    if ProperPrefix(path, PathOf(last)) {
      assert params[|before|] == last;
    }
  }

  lemma {:induction false} HasValue(params: seq<Parameter>, path: seq<string>)
    ensures LastValue(params, path).Some? ==> exists i | 0 <= i < |params| :: PathOf(params[i]) == path
    decreases |params|
  {
    if params != [] && PathOf(params[|params| - 1]) != path {
      HasValue(params[..|params| - 1], path);
    }
  }

  lemma NoValueAt(before: seq<Parameter>, p: seq<string>, params: seq<Parameter>)
    requires PrefixFree(params) && params != [] && before == params[..|params| - 1]
    requires ProperPrefix(p, PathOf(params[|params| - 1]))
    ensures LastValue(before, p).None?
  {
    HasValue(before, p);
    assert forall i | 0 <= i < |before| :: params[i] == before[i];
  }

  lemma NothingBelow(before: seq<Parameter>, path: seq<string>, params: seq<Parameter>)
    requires PrefixFree(params) && params != [] && before == params[..|params| - 1]
    requires ProperPrefix(PathOf(params[|params| - 1]), path)
    ensures LastValue(before, path).None? && !Leads(before, path)
  {
    var parts := PathOf(params[|params| - 1]);
    HasValue(before, path);
    forall i | 0 <= i < |before| ensures PathOf(before[i]) != path && !ProperPrefix(path, PathOf(before[i])) {
      assert before[i] == params[i] && !ProperPrefix(parts, PathOf(params[i]));
    }
  }

  lemma {:induction false} ScalarEndsThePath(v: Value, a: seq<string>, b: seq<string>)
    requires ProperPrefix(a, b) && Lookup(v, a).Some? && !Lookup(v, a).value.Map?
    ensures Lookup(v, b).None?
    decreases |a|
  {
    if a != [] {
      assert a[1..] == b[1..][..|a| - 1];
      ScalarEndsThePath(v.fields[a[0]], a[1..], b[1..]);
    }
  }

  lemma {:induction false} ValueIsFound(params: seq<Parameter>, i: nat)
    requires i < |params|
    ensures LastValue(params, PathOf(params[i])).Some?
    decreases |params|
  {
    if i < |params| - 1 {
      ValueIsFound(params[..|params| - 1], i);
    }
  }

  ghost predicate HoldsEverywhere(params: seq<Parameter>) {
    forall path | path != [] :: Holds(Document(params), params, path)
  }

  /** The document carries exactly its parameters if and only if no name splits to a proper prefix
      of another. */
  lemma DocumentHoldsIffPrefixFree(params: seq<Parameter>)
    ensures HoldsEverywhere(params) <==> PrefixFree(params)
  {
    if PrefixFree(params) {
      forall path | path != [] ensures Holds(Document(params), params, path) {
        DocumentHolds(params, path);
      }
    } else {
      var i, j :| 0 <= i < |params| && 0 <= j < |params| && ProperPrefix(PathOf(params[i]), PathOf(params[j]));
      var a, b := PathOf(params[i]), PathOf(params[j]);
      ValueIsFound(params, i);
      ValueIsFound(params, j);
      if Holds(Document(params), params, a) {
        ScalarEndsThePath(Map(Document(params)), a, b);
        assert b != [] && !Holds(Document(params), params, b);
      } else {
        assert a != [] && !Holds(Document(params), params, a);
      }
    }
  }
}
