/** Component toggles: shared defaults merged under each environment, then the built-in defaults,
    and what still counts as something the author asked for. */
module Inheritance {
  import opened Values

  datatype Toggle = Toggle(
    enabled: Option<bool>,
    explicit: Option<bool>,
    retention: string,
    storage: string,
    replicas: Option<int>,
    registryStorage: string,
    broadPATLabel: string,
    broadPATDeployments: string)

  const NO_TOGGLE := Toggle(None, None, "", "", None, "", "", "")

  type Toggles = map<string, Toggle>

  /** The part of an environment both passes touch; None is an unset list or map. */
  datatype Environment = Environment(managedApps: Option<seq<string>>, components: Option<Toggles>)

  datatype Component = Component(
    name: string,
    defaultDisabled: bool,
    managedSkip: bool,
    conditionalOn: string,
    conditionalOnComponent: string)

  const DEFAULT_MANAGED_APPS := ["harbor", "loki", "grafana", "kyverno"]

  // ── inheritance ──

  function PickStr(base: string, over: string): string {
    if over != "" then over else base
  }

  function Pick<T>(base: Option<T>, over: Option<T>): Option<T> {
    if over.Some? then over else base
  }

  /** mergeToggle: the environment wins field by field; what was explicit is not carried over. */
  function MergeToggle(base: Toggle, over: Toggle): Toggle {
    Toggle(Pick(base.enabled, over.enabled), None, PickStr(base.retention, over.retention), PickStr(base.storage, over.storage),
           Pick(base.replicas, over.replicas), PickStr(base.registryStorage, over.registryStorage),
           PickStr(base.broadPATLabel, over.broadPATLabel), PickStr(base.broadPATDeployments, over.broadPATDeployments))
  }

  function TogglesOf(t: Option<Toggles>): Toggles {
    t.GetOr(map[])
  }

  function ToggleAt(t: Toggles, name: string): Toggle {
    if name in t then t[name] else NO_TOGGLE
  }

  function MergeComponents(base: Option<Toggles>, over: Option<Toggles>): Option<Toggles> {
    if base.None? && over.None? then None
    else
      var b, o := TogglesOf(base), TogglesOf(over);
      Some(map k | k in b.Keys + o.Keys :: if k in o then MergeToggle(ToggleAt(b, k), o[k]) else b[k])
  }

  /** The two range loops of mergeComponents, in whatever order the maps give their keys. */
  method MergeComponentMaps(base: Option<Toggles>, over: Option<Toggles>) returns (out: Option<Toggles>)
    ensures out == MergeComponents(base, over)
  {
    hide MergeToggle;
    if base.None? && over.None? {
      return None;
    }
    var b, o := TogglesOf(base), TogglesOf(over);
    var merged := b;
    var todo := o.Keys;
    while todo != {}
      invariant todo <= o.Keys
      invariant forall k :: k in merged <==> k in b || (k in o && k !in todo)
      invariant forall k | k in merged ::
                  merged[k] == if k in o && k !in todo then MergeToggle(ToggleAt(b, k), o[k]) else ToggleAt(b, k)
      decreases |todo|
    {
      var k :| k in todo;
      merged := merged[k := MergeToggle(ToggleAt(merged, k), o[k])];
      todo := todo - {k};
    }
    ghost var whole := MergeComponents(base, over).value;
    SameToggles(merged, whole);
    out := Some(merged);
  }

  lemma SameToggles(a: Toggles, b: Toggles)
    requires forall k :: k in a <==> k in b
    requires forall k | k in a :: a[k] == b[k]
    ensures a == b
  {
  }

  function MergeEnvironment(d: Environment, env: Environment): Environment {
    Environment(Pick(d.managedApps, env.managedApps), MergeComponents(d.components, env.components))
  }

  // ── built-in defaults ──

  /** One component of the registry: whether its toggle was written is decided once, before the
      built-in value is filled in. */
  function Decide(c: Component, t: Toggle): Toggle {
    Toggle(Some(t.enabled.GetOr(!c.defaultDisabled)), Some(t.explicit.GetOr(t.enabled.Some?)), t.retention, t.storage,
           t.replicas, t.registryStorage, t.broadPATLabel, t.broadPATDeployments)
  }

  function FillOne(c: Component, t: Toggles): Toggles {
    if c.name !in t then t[c.name := NO_TOGGLE.(enabled := Some(!c.defaultDisabled), explicit := Some(false))]
    else t[c.name := Decide(c, t[c.name])]
  }

  function Fill(registry: seq<Component>, t: Toggles): Toggles {
    if registry == [] then t else Fill(registry[1..], FillOne(registry[0], t))
  }

  function DefaultEnvironment(registry: seq<Component>, env: Environment): Environment {
    Environment(Some(if env.managedApps.GetOr([]) == [] then DEFAULT_MANAGED_APPS else env.managedApps.value),
                Some(Fill(registry, TogglesOf(env.components))))
  }

  /** A landing zone: the shared defaults and the environments both passes rewrite in place. */
  class LandingZone {
    const registry: seq<Component>
    const defaults: Environment
    var environments: map<string, Environment>

    constructor (registry: seq<Component>, defaults: Environment, environments: map<string, Environment>)
      ensures this.registry == registry && this.defaults == defaults && this.environments == environments
    {
      this.registry, this.defaults, this.environments := registry, defaults, environments;
    }

    method ApplyInheritance()
      modifies this
      ensures environments == map n | n in old(environments) :: MergeEnvironment(defaults, old(environments)[n])
    {
      var todo := environments.Keys;
      while todo != {}
        invariant todo <= environments.Keys == old(environments).Keys
        invariant forall n | n in environments ::
                    environments[n] == if n in todo then old(environments)[n] else MergeEnvironment(defaults, old(environments)[n])
        decreases |todo|
      {
        var n :| n in todo;
        var env := environments[n];
        var components := MergeComponentMaps(defaults.components, env.components);
        environments := environments[n := Environment(Pick(defaults.managedApps, env.managedApps), components)];
        todo := todo - {n};
      }
    }

    method Defaults()
      modifies this
      ensures environments == map n | n in old(environments) :: DefaultEnvironment(registry, old(environments)[n])
    {
      var todo := environments.Keys;
      while todo != {}
        invariant todo <= environments.Keys == old(environments).Keys
        invariant forall n | n in environments ::
                    environments[n] == if n in todo then old(environments)[n] else DefaultEnvironment(registry, old(environments)[n])
        decreases |todo|
      {
        var n :| n in todo;
        var env := environments[n];
        var apps := env.managedApps.GetOr([]);
        if apps == [] {
          apps := DEFAULT_MANAGED_APPS;
        }
        var toggles := FillComponents(TogglesOf(env.components));
        environments := environments[n := Environment(Some(apps), Some(toggles))];
        todo := todo - {n};
      }
    }

    /** The loop over the registry that fills one environment's toggles. */
    method FillComponents(given: Toggles) returns (toggles: Toggles)
      ensures toggles == Fill(registry, given)
    {
      toggles := given;
      for i := 0 to |registry|
        invariant Fill(registry, given) == Fill(registry[i..], toggles)
      {
        var r := registry[i];
        if r.name !in toggles {
          toggles := toggles[r.name := NO_TOGGLE.(enabled := Some(!r.defaultDisabled), explicit := Some(false))];
        } else {
          var t := toggles[r.name];
          if t.explicit.None? {
            t := t.(explicit := Some(t.enabled.Some?));
          }
          if t.enabled.None? {
            t := t.(enabled := Some(!r.defaultDisabled));
          }
          toggles := toggles[r.name := t];
        }
      }
    }
  }

  // ── readers ──

  function Find(registry: seq<Component>, name: string): Option<Component> {
    if registry == [] then None else if registry[0].name == name then Some(registry[0]) else Find(registry[1..], name)
  }

  predicate ComponentEnabled(registry: seq<Component>, t: Toggles, name: string) {
    if name in t && t[name].enabled.Some? then t[name].enabled.value
    else Find(registry, name).Some? && !Find(registry, name).value.defaultDisabled
  }

  predicate ExplicitlyEnabled(t: Toggles, name: string) {
    name in t && t[name].explicit == Some(true) && t[name].enabled == Some(true)
  }

  predicate EmitOnManaged(registry: seq<Component>, c: Component, managedApps: seq<string>, t: Toggles) {
    !c.managedSkip &&
    (if c.conditionalOn != "" then c.conditionalOn in managedApps
     else if c.conditionalOnComponent != "" then ComponentEnabled(registry, t, c.conditionalOnComponent) || ExplicitlyEnabled(t, c.name)
     else true)
  }

  // ── what the two passes keep ──

  /** A toggle both passes are done with. */
  predicate Settled(registry: seq<Component>, t: Toggles) {
    forall c | c in registry :: c.name in t && t[c.name].enabled.Some? && t[c.name].explicit.Some?
  }

  lemma {:induction false} SettledIsFixed(registry: seq<Component>, t: Toggles)
    requires Settled(registry, t)
    ensures Fill(registry, t) == t
    decreases |registry|
  {
    if registry != [] {
      assert registry[0] in registry;
      assert FillOne(registry[0], t) == t;
      SettledIsFixed(registry[1..], t);
    }
  }

  /** What filling does to one name: the first registry entry of that name decides it, and a toggle
      decided once is not decided again. */
  lemma {:induction false} FillAt(registry: seq<Component>, t: Toggles, name: string)
    ensures var out, c := Fill(registry, t), Find(registry, name);
            if c.None? then (name in out <==> name in t) && (name in t ==> out[name] == t[name])
            else name in out && out[name] == (if name in t then Decide(c.value, t[name]) else
                                              NO_TOGGLE.(enabled := Some(!c.value.defaultDisabled), explicit := Some(false)))
    decreases |registry|
  {
    if registry != [] {
      var next := FillOne(registry[0], t);
      FillAt(registry[1..], next, name);
    }
  }

  lemma {:induction false} FindIsThere(registry: seq<Component>, c: Component)
    requires c in registry
    ensures Find(registry, c.name).Some?
    decreases |registry|
  {
    if registry[0] != c {
      FindIsThere(registry[1..], c);
    }
  }

  /** Defaults is idempotent, the record of what was explicit included. */
  lemma DefaultsIsIdempotent(registry: seq<Component>, env: Environment)
    ensures var once := DefaultEnvironment(registry, env); DefaultEnvironment(registry, once) == once
  {
    var filled := Fill(registry, TogglesOf(env.components));
    forall c | c in registry
      ensures c.name in filled && filled[c.name].enabled.Some? && filled[c.name].explicit.Some?
    {
      FindIsThere(registry, c);
      FillAt(registry, TogglesOf(env.components), c.name);
    }
    SettledIsFixed(registry, filled);
  }

  /** A document as parsed: nothing in it says what was explicit. */
  predicate Parsed(env: Environment) {
    forall k | k in TogglesOf(env.components) :: TogglesOf(env.components)[k].explicit.None?
  }

  /** Merging an environment twice with the same defaults changes nothing more. */
  lemma MergeIsIdempotent(d: Environment, env: Environment)
    requires Parsed(d)
    ensures var once := MergeEnvironment(d, env); MergeEnvironment(d, once) == once
  {
    var once := MergeEnvironment(d, env);
    if once.components.Some? {
      var b, o := TogglesOf(d.components), once.components.value;
      forall k | k in o
        ensures MergeToggle(ToggleAt(b, k), o[k]) == o[k]
      {
      }
      assert MergeEnvironment(d, once).components.value == o;
    }
  }

  /** What a document wrote about a component's `enabled`. */
  function Written(env: Environment, name: string): Option<bool> {
    ToggleAt(TogglesOf(env.components), name).enabled
  }

  function Resolved(registry: seq<Component>, d: Environment, env: Environment): Toggles {
    DefaultEnvironment(registry, MergeEnvironment(d, env)).components.value
  }

  lemma ResolvedAt(registry: seq<Component>, d: Environment, env: Environment, name: string)
    requires Parsed(d) && Parsed(env) && Find(registry, name).Some?
    ensures var t, written := Resolved(registry, d, env), Pick(Written(d, name), Written(env, name));
            && name in t
            && t[name].enabled == Some(written.GetOr(!Find(registry, name).value.defaultDisabled))
            && t[name].explicit == Some(written.Some?)
  {
    FillAt(registry, TogglesOf(MergeEnvironment(d, env).components), name);
  }

  /** What a second merge and fill make of one name. */
  lemma AgainAt(registry: seq<Component>, d: Environment, env: Environment, name: string)
    requires Parsed(d) && Parsed(env)
    ensures var once := DefaultEnvironment(registry, MergeEnvironment(d, env));
            var t, again := once.components.value, DefaultEnvironment(registry, MergeEnvironment(d, once)).components.value;
            && (name in again <==> name in t)
            && (name in t ==> again[name] == if Find(registry, name).None? then t[name] else t[name].(explicit := Some(true)))
  {
    hide Fill;
    var once := DefaultEnvironment(registry, MergeEnvironment(d, env));
    FillAt(registry, TogglesOf(MergeEnvironment(d, env).components), name);
    FillAt(registry, TogglesOf(MergeEnvironment(d, once).components), name);
  }

  /** A second inheritance-and-defaults pass changes nothing if and only if every registered
      component was written about: the merge drops what was explicit, and every value the first
      pass filled in then counts as written. */
  lemma SecondPassChangesNothingExactly(registry: seq<Component>, d: Environment, env: Environment)
    requires Parsed(d) && Parsed(env)
    ensures var once := DefaultEnvironment(registry, MergeEnvironment(d, env));
            DefaultEnvironment(registry, MergeEnvironment(d, once)) == once <==>
            forall c | c in registry :: Pick(Written(d, c.name), Written(env, c.name)).Some?
  {
    var once := DefaultEnvironment(registry, MergeEnvironment(d, env));
    var again := DefaultEnvironment(registry, MergeEnvironment(d, once));
    forall name
      ensures name in again.components.value <==> name in once.components.value
      ensures name in once.components.value ==>
                (again.components.value[name] == once.components.value[name] <==>
                 Find(registry, name).None? || Pick(Written(d, name), Written(env, name)).Some?)
    {
      AgainAt(registry, d, env, name);
      if Find(registry, name).Some? {
        ResolvedAt(registry, d, env, name);
      }
    }
    forall c | c in registry ensures c.name in once.components.value && Find(registry, c.name).Some? {
      FindIsThere(registry, c);
      ResolvedAt(registry, d, env, c.name);
    }
    if forall c | c in registry :: Pick(Written(d, c.name), Written(env, c.name)).Some? {
      forall name ensures Find(registry, name).Some? ==> Pick(Written(d, name), Written(env, name)).Some? {
        FoundIsIn(registry, name);
      }
      SameToggles(again.components.value, once.components.value);
    }
  }

  lemma {:induction false} FoundIsIn(registry: seq<Component>, name: string)
    ensures Find(registry, name).Some? ==> Find(registry, name).value in registry && Find(registry, name).value.name == name
    decreases |registry|
  {
    if registry != [] && registry[0].name != name {
      FoundIsIn(registry[1..], name);
    }
  }

  /** So with nothing written, a component that only defaulted to on passes for one the author asked
      for after a second pass. */
  lemma MergeAfterDefaultsForgets(registry: seq<Component>, c: Component)
    requires Find(registry, c.name) == Some(c) && !c.defaultDisabled
    ensures var none := Environment(None, None);
            var once := DefaultEnvironment(registry, MergeEnvironment(none, none));
            var again := DefaultEnvironment(registry, MergeEnvironment(none, once));
            !ExplicitlyEnabled(once.components.value, c.name) && ExplicitlyEnabled(again.components.value, c.name)
  {
    var none := Environment(None, None);
    var once := DefaultEnvironment(registry, MergeEnvironment(none, none));
    assert ToggleAt(map[], c.name) == NO_TOGGLE;
    ResolvedAt(registry, none, none, c.name);
    AgainAt(registry, none, none, c.name);
  }

  /** A registered component counts as asked for exactly when the environment wrote enabled: true,
      or wrote nothing and the shared defaults wrote it. */
  lemma ExplicitExactly(registry: seq<Component>, d: Environment, env: Environment, name: string)
    requires Parsed(d) && Parsed(env) && Find(registry, name).Some?
    ensures ExplicitlyEnabled(Resolved(registry, d, env), name) <==>
            Written(env, name) == Some(true) || (Written(env, name).None? && Written(d, name) == Some(true))
  {
    ResolvedAt(registry, d, env, name);
  }

  /** A component gated on a registered consumer emits exactly when the consumer is on, by what was
      written or by the built-in default, or when the author asked for the component itself. */
  lemma EmitsExactly(registry: seq<Component>, d: Environment, env: Environment, c: Component, managedApps: seq<string>)
    requires Parsed(d) && Parsed(env) && Find(registry, c.name).Some?
    requires !c.managedSkip && c.conditionalOn == "" && c.conditionalOnComponent != ""
    requires Find(registry, c.conditionalOnComponent).Some?
    ensures EmitOnManaged(registry, c, managedApps, Resolved(registry, d, env)) <==>
            var consumer := c.conditionalOnComponent;
            || Pick(Written(d, consumer), Written(env, consumer)).GetOr(!Find(registry, consumer).value.defaultDisabled)
            || Pick(Written(d, c.name), Written(env, c.name)) == Some(true)
  {
    ResolvedAt(registry, d, env, c.name);
    ResolvedAt(registry, d, env, c.conditionalOnComponent);
  }

  /** What an environment ends up with for one component's settings: its own text where it wrote
      one, else the shared default's; its own number where it wrote one, else the shared default's. */
  lemma SettingsResolve(registry: seq<Component>, d: Environment, env: Environment, name: string)
    ensures var mine, shared := ToggleAt(TogglesOf(env.components), name), ToggleAt(TogglesOf(d.components), name);
            var t := ToggleAt(Resolved(registry, d, env), name);
            && (mine.retention != "" ==> t.retention == mine.retention) && (mine.retention == "" ==> t.retention == shared.retention)
            && (mine.storage != "" ==> t.storage == mine.storage) && (mine.storage == "" ==> t.storage == shared.storage)
            && (mine.registryStorage != "" ==> t.registryStorage == mine.registryStorage)
            && (mine.registryStorage == "" ==> t.registryStorage == shared.registryStorage)
            && (mine.broadPATLabel != "" ==> t.broadPATLabel == mine.broadPATLabel)
            && (mine.broadPATLabel == "" ==> t.broadPATLabel == shared.broadPATLabel)
            && (mine.broadPATDeployments != "" ==> t.broadPATDeployments == mine.broadPATDeployments)
            && (mine.broadPATDeployments == "" ==> t.broadPATDeployments == shared.broadPATDeployments)
            && (mine.replicas.Some? ==> t.replicas == mine.replicas) && (mine.replicas.None? ==> t.replicas == shared.replicas)
  {
    FillAt(registry, TogglesOf(MergeEnvironment(d, env).components), name);
    hide Fill;
  }

  /** The managed apps an environment ends up with: its own list, else the shared one, and the four
      built-in ones when that is empty. */
  lemma AppsResolve(registry: seq<Component>, d: Environment, env: Environment)
    ensures var apps := DefaultEnvironment(registry, MergeEnvironment(d, env)).managedApps;
            && (env.managedApps.Some? && env.managedApps.value != [] ==> apps == env.managedApps)
            && (env.managedApps.None? && d.managedApps.Some? && d.managedApps.value != [] ==> apps == d.managedApps)
            && (env.managedApps == Some([]) || (env.managedApps.None? && (d.managedApps.None? || d.managedApps == Some([]))) ==>
                  apps == Some(["harbor", "loki", "grafana", "kyverno"]))
  {
  }

  /** A component gated on a managed app emits exactly when the resolved list names the app,
      whatever was written about the component; an ungated one always; a skipped one never. */
  lemma EmitsWithItsApp(registry: seq<Component>, d: Environment, env: Environment, c: Component)
    ensures var done := DefaultEnvironment(registry, MergeEnvironment(d, env));
            var emits := EmitOnManaged(registry, c, done.managedApps.value, done.components.value);
            && (c.managedSkip ==> !emits)
            && (!c.managedSkip && c.conditionalOn != "" ==>
                  (emits <==>
                   if env.managedApps.Some? && env.managedApps.value != [] then c.conditionalOn in env.managedApps.value
                   else if env.managedApps.None? && d.managedApps.Some? && d.managedApps.value != [] then c.conditionalOn in d.managedApps.value
                   else c.conditionalOn in ["harbor", "loki", "grafana", "kyverno"]))
            && (!c.managedSkip && c.conditionalOn == "" && c.conditionalOnComponent == "" ==> emits)
  {
    AppsResolve(registry, d, env);
    hide Fill;
    hide MergeComponents;
  }
}
