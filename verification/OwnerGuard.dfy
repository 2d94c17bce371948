/** Whether the Argo Application that declares an object is in a state to put it back. */
module OwnerGuard {
  import opened Values
  import HelmParameters
  import HelmValues

  /** One Helm source. `values` is its inline text decoded, None when blank or not YAML. */
  datatype Source = Source(
    values: Option<Fields>,
    valuesObject: Fields,
    parameters: seq<HelmParameters.Parameter>,
    valueFiles: seq<string>)

  /** The parts of an Application the guard reads; `sources` is spec.source then spec.sources. */
  datatype Application = Application(
    specErr: string,
    sync: string,
    policyDecodes: bool,
    selfHeal: Option<bool>,
    sources: seq<Source>)

  function DocsOf(s: Source): seq<Fields> {
    (if s.values.Some? then [s.values.value] else [])
    + (if s.valuesObject != map[] then [s.valuesObject] else [])
    + (if s.parameters != [] then [HelmParameters.Document(s.parameters)] else [])
  }

  function Docs(sources: seq<Source>): seq<Fields> {
    if sources == [] then [] else Docs(sources[..|sources| - 1]) + DocsOf(sources[|sources| - 1])
  }

  /** valueDocs: every document the Application carries, in ascending precedence. */
  method ValueDocs(sources: seq<Source>) returns (docs: seq<Fields>)
    ensures docs == Docs(sources)
  {
    hide HelmParameters.Document;
    docs := [];
    for i := 0 to |sources|
      invariant docs == Docs(sources[..i])
    {
      var s := sources[i];
      assert sources[..i + 1][..i] == sources[..i];
      ghost var before := docs;
      if s.values.Some? {
        docs := docs + [s.values.value];
      }
      if s.valuesObject != map[] {
        docs := docs + [s.valuesObject];
      }
      var doc := HelmParameters.ParametersDoc(s.parameters);
      if doc.Some? {
        docs := docs + [doc.value];
      }
      assert docs == before + DocsOf(s);
    }
    assert sources[..|sources|] == sources;
  }

  datatype Readiness =
    | Ready
    | NoOwnerNamed
    | NotRead
    | NotParsed
    | CannotComputeTarget
    | NotSynced
    | PolicyNotRead
    | NotSelfHealing
    | NoReadableValues
    | NotDeclared(otherFiles: bool)
    | DeclaresAnother(got: Value)

  /** The guard's verdict on an Application it could read. */
  function Verdict(app: Application, path: seq<string>, declared: Value, show: Value -> string): Readiness {
    if app.specErr != "" then CannotComputeTarget
    else if app.sync != "Synced" then NotSynced
    else if !app.policyDecodes then PolicyNotRead
    else if app.selfHeal != Some(true) then NotSelfHealing
    else
      var docs := Docs(app.sources);
      if docs == [] then NoReadableValues
      else
        var got := HelmValues.LastCarried(docs, path);
        if got.None? then NotDeclared(exists i | 0 <= i < |app.sources| :: app.sources[i].valueFiles != [])
        else if show(got.value) != show(declared) then DeclaresAnother(got.value)
        else Ready
  }

  /** Ready says what Helm will render, whenever no later document hides the path: a value was found
      that prints as the declared one, and the full merge of every values document carries it: a
      scalar or list as it is, a map with every scalar and list it holds at its own path. */
  lemma ReadyMeansRendered(app: Application, path: seq<string>, declared: Value, show: Value -> string)
    requires path != [] && Verdict(app, path, declared, show) == Ready
    requires !HelmValues.BlockedSince(Docs(app.sources), path)
    ensures app.sync == "Synced" && app.specErr == "" && app.selfHeal == Some(true)
    ensures var found := HelmValues.LastCarried(Docs(app.sources), path);
            && found.Some? && show(found.value) == show(declared)
            && forall more | Lookup(found.value, more).Some? ::
                 var v, merged := Lookup(found.value, more).value, Lookup(Map(HelmValues.MergeAll(Docs(app.sources))), path + more);
                 merged.Some? && if v.Map? then merged.value.Map? else merged.value == v
  {
    var docs := Docs(app.sources);
    forall more | Lookup(HelmValues.LastCarried(docs, path).value, more).Some?
      ensures var v, merged := Lookup(HelmValues.LastCarried(docs, path).value, more).value, Lookup(Map(HelmValues.MergeAll(docs)), path + more);
              merged.Some? && if v.Map? then merged.value.Map? else merged.value == v
    {
      HelmValues.CarriedIsMerged(docs, path, more);
    }
  }

  // ── which document decides ──

  /** What one source says at a path: its parameters before its structured values before its inline
      text. */
  function Says(s: Source, path: seq<string>): Option<Value> {
    var given := if s.parameters == [] then None else Lookup(Map(HelmParameters.Document(s.parameters)), path);
    var structured := if s.valuesObject == map[] then None else Lookup(Map(s.valuesObject), path);
    if given.Some? then given
    else if structured.Some? then structured
    else if s.values.Some? then Lookup(Map(s.values.value), path)
    else None
  }

  /** Source `i` decides a path: it says something there and no later source does. */
  predicate Decides(sources: seq<Source>, path: seq<string>, i: int) {
    0 <= i < |sources| && Says(sources[i], path).Some? && forall j | i < j < |sources| :: Says(sources[j], path).None?
  }

  lemma {:induction false} CarriedConcat(a: seq<Fields>, b: seq<Fields>, path: seq<string>)
    ensures HelmValues.LastCarried(a + b, path) ==
            if HelmValues.LastCarried(b, path).Some? then HelmValues.LastCarried(b, path) else HelmValues.LastCarried(a, path)
    decreases |b|
  {
    if b == [] {
      assert a + b == a;
    } else {
      assert (a + b)[..|a + b| - 1] == a + b[..|b| - 1];
      CarriedConcat(a, b[..|b| - 1], path);
    }
  }

  /** Inside one source the parameters win, then valuesObject, then values. */
  lemma SourceSays(s: Source, path: seq<string>)
    ensures HelmValues.LastCarried(DocsOf(s), path) == Says(s, path)
    ensures HelmValues.LastCarried(Docs([s]), path) == Says(s, path)
  {
    var inline := if s.values.Some? then [s.values.value] else [];
    var structured := if s.valuesObject != map[] then [s.valuesObject] else [];
    var given := if s.parameters != [] then [HelmParameters.Document(s.parameters)] else [];
    CarriedConcat(inline + structured, given, path);
    CarriedConcat(inline, structured, path);
    assert forall doc: Fields :: [doc][..0] == [];
    assert [s][..0] == [] && Docs([s]) == [] + DocsOf(s) == DocsOf(s);
  }

  lemma DecidesSnoc(before: seq<Source>, last: Source, path: seq<string>)
    ensures Says(last, path).Some? ==> forall i :: Decides(before + [last], path, i) <==> i == |before|
    ensures Says(last, path).None? ==> forall i :: Decides(before + [last], path, i) <==> Decides(before, path, i)
  {
    hide Says;
    var all := before + [last];
    assert all[|before|] == last && forall i | 0 <= i < |before| :: all[i] == before[i];
  }

  /** Across sources the last one that says anything decides. */
  lemma {:induction false} LastSourceDecides(sources: seq<Source>, path: seq<string>)
    ensures var found := HelmValues.LastCarried(Docs(sources), path);
            && (found.Some? ==> exists i :: Decides(sources, path, i) && Says(sources[i], path) == found)
            && forall i | Decides(sources, path, i) :: Says(sources[i], path) == found
    decreases |sources|
  {
    hide Says;
    hide HelmValues.LastCarried;
    if sources == [] {
      NoDocuments(path);
    } else {
      var n := |sources| - 1;
      var before, last := sources[..n], sources[n];
      assert before + [last] == sources;
      CarriedConcat(Docs(before), DocsOf(last), path);
      SourceSays(last, path);
      LastSourceDecides(before, path);
      DecidesSnoc(before, last, path);
      hide Docs;
      hide Decides;
      hide DocsOf;
      var found := HelmValues.LastCarried(Docs(sources), path);
      if Says(last, path).Some? {
        assert Decides(sources, path, n);
      } else if found.Some? {
        var i :| Decides(before, path, i) && Says(before[i], path) == found;
        assert Decides(sources, path, i) && sources[i] == before[i];
      }
    }
  }

  lemma NoDocuments(path: seq<string>)
    ensures HelmValues.LastCarried(Docs([]), path) == None
  {
  }

  /** The guard lets the delete happen exactly when the Application is Synced without an error and
      heals itself, and the source that decides the path says what prints as the declared value
      there. When that source says something else, the guard reports what it says. */
  lemma ReadyExactly(app: Application, path: seq<string>, declared: Value, show: Value -> string)
    ensures var healthy := app.specErr == "" && app.sync == "Synced" && app.policyDecodes && app.selfHeal == Some(true);
            && (Verdict(app, path, declared, show) == Ready <==>
                healthy && exists i :: Decides(app.sources, path, i) && show(Says(app.sources[i], path).value) == show(declared))
            && forall i | healthy && Decides(app.sources, path, i) && show(Says(app.sources[i], path).value) != show(declared) ::
                 Verdict(app, path, declared, show) == DeclaresAnother(Says(app.sources[i], path).value)
  {
    LastSourceDecides(app.sources, path);
    assert Docs(app.sources) == [] ==> HelmValues.LastCarried(Docs(app.sources), path) == None;
    hide Says;
    hide Docs;
    hide HelmValues.LastCarried;
  }

  /** A parameter beats whatever the same source says at that path in its other documents. */
  lemma ParameterDecides(s: Source, path: seq<string>, i: nat)
    requires i < |s.parameters| && HelmParameters.PathOf(s.parameters[i]) == path && HelmParameters.PrefixFree(s.parameters)
    requires forall j | i < j < |s.parameters| :: HelmParameters.PathOf(s.parameters[j]) != path
    ensures Says(s, path) == Some(Str(s.parameters[i].value))
  {
    HelmParameters.DocumentHolds(s.parameters, path);
    LastValueIs(s.parameters, path, i);
  }

  lemma {:induction false} LastValueIs(params: seq<HelmParameters.Parameter>, path: seq<string>, i: nat)
    requires i < |params| && HelmParameters.PathOf(params[i]) == path
    requires forall j | i < j < |params| :: HelmParameters.PathOf(params[j]) != path
    ensures HelmParameters.LastValue(params, path) == Some(params[i].value)
    decreases |params|
  {
    if i < |params| - 1 {
      LastValueIs(params[..|params| - 1], path, i);
    }
  }
}
