/** What ValidateOpenBao accepts, and that nothing it accepts hands a workload the CA. */
module OpenBaoValidation {
  import opened Values
  import opened OpenBao

  datatype Policy = Policy(name: string, rules: seq<Rule>)

  datatype KubernetesRole = KubernetesRole(name: string, accounts: seq<string>, namespaces: seq<string>, policies: seq<string>, ttl: string)

  datatype Extensions = Extensions(mounts: seq<Mount>, policies: seq<Policy>, roles: seq<KubernetesRole>)

  /** `subtree` is the team's OpenBao subtree by segments. */
  datatype Team = Team(name: string, subtree: Path)

  /** time.ParseDuration, in nanoseconds; None when the text is not a duration. */
  type Durations = string -> Option<int>

  const HOUR := 3_600_000_000_000

  // ── policy rules ──

  predicate Segment(s: string) {
    Loose(s) || s == "+"
  }

  predicate Body(p: Path) {
    p != [] && Word(p[0]) && forall i | 1 <= i < |p| :: Segment(p[i])
  }

  /** rulePathRe: a body, then nothing, a last segment `*`, or a `*` glued to the last segment. */
  predicate Canonical(p: Path) {
    p != [] &&
    var n := |p| - 1;
    Body(p) || (n > 0 && p[n] == "*" && Body(p[..n])) || (EndsInStar(p[n]) && Body(p[n := p[n][..|p[n]| - 1]]))
  }

  /** A team's subtree without the leading mount name. */
  function UnderSecret(subtree: Path): Path {
    if |subtree| > 1 && subtree[0] == "secret" then subtree[1..] else subtree
  }

  predicate InSubtree(p: Path, t: Team) {
    exists kind | kind in ["data", "metadata"] ::
      var prefix := ["secret", kind] + UnderSecret(t.subtree); prefix <= p && |p| > |prefix|
  }

  /** ruleInScope: under a declared mount, or under a declared team's KV subtree. */
  predicate InScope(p: Path, mounts: set<string>, teams: seq<Team>) {
    p != [] && ((p[0] in mounts && |p| > 1) || exists t | t in teams :: InSubtree(p, t))
  }

  predicate Writes(r: Rule) {
    exists c | c in r.capabilities :: c == "create" || c == "update" || c == "patch" || c == "delete"
  }

  predicate RoleName(s: string) {
    Word(s) || s == "+"
  }

  /** workloadIssuanceRe, on the path below the mount. */
  predicate Issuance(rest: Path) {
    (|rest| == 2 && (rest[0] == "issue" || rest[0] == "sign") && RoleName(rest[1])) ||
    (|rest| == 4 && rest[0] == "issuer" && RoleName(rest[1]) && (rest[2] == "issue" || rest[2] == "sign") && RoleName(rest[3]))
  }

  predicate WorkloadWriteAllowed(r: Rule, mounts: set<string>) {
    r.path != [] && (Writes(r) && r.path[0] in mounts ==> Issuance(r.path[1..]))
  }

  predicate KnownCapability(c: string) {
    c in ["create", "read", "update", "patch", "delete", "list", "deny"]
  }

  predicate ValidRule(r: Rule, mounts: set<string>, teams: seq<Team>) {
    Canonical(r.path) && InScope(r.path, mounts, teams) && WorkloadWriteAllowed(r, mounts)
    && r.capabilities != []
    && (forall c | c in r.capabilities :: KnownCapability(c) && (c == "deny" ==> |r.capabilities| == 1))
  }

  // ── the rest of the declaration ──

  predicate IsTeam(teams: seq<Team>, name: string) {
    exists t | t in teams :: t.name == name
  }

  predicate ValidMount(m: Mount, teams: seq<Team>, parse: Durations) {
    ExtName(m.path) && !Reserved(m.path) && m.engine == "pki"
    && (m.maxLeaseTTL != "" ==> parse(m.maxLeaseTTL).Some?)
    && (forall w | w in m.config :: ConfigAllowed(m.engine, w.path))
    && (forall o | o in m.operators :: IsTeam(teams, o))
  }

  predicate EndsWith(s: string, suffix: string) {
    |s| >= |suffix| && s[|s| - |suffix|..] == suffix
  }

  predicate ReservedPolicy(name: string) {
    name in ["root", "default", "llz-spec-openbao-manifest", "platform-ci", "secret-propagator", "eso-pusher",
             "linode-rotator", "harbor-provisioner", "reconciler-read", "broad-pat-rotator"]
    || EndsWith(name, "-reader") || EndsWith(name, "-writer") || EndsWith(name, "-operator")
  }

  predicate ValidPolicy(p: Policy, mounts: set<string>, teams: seq<Team>) {
    ExtName(p.name) && !ReservedPolicy(p.name) && p.rules != [] && forall r | r in p.rules :: ValidRule(r, mounts, teams)
  }

  /** k8sNameRe: ^[a-z0-9]([a-z0-9.-]*[a-z0-9])?$ */
  predicate BoundName(n: string) {
    n != "" && Small(n[0]) && Small(n[|n| - 1]) && forall i | 0 <= i < |n| :: Small(n[i]) || n[i] == '.' || n[i] == '-'
  }

  predicate Bindable(n: string) {
    n != "*" && BoundName(n)
  }

  predicate ReservedRole(name: string) {
    name in ["eso", "eso-pusher", "harbor-provisioner", "reconciler", "broad-pat-rotator"]
  }

  predicate ValidTTL(ttl: string, parse: Durations) {
    var d := parse(if ttl == "" then "15m" else ttl);
    d.Some? && 0 < d.value <= HOUR
  }

  predicate ValidRole(r: KubernetesRole, policies: set<string>, parse: Durations) {
    ExtName(r.name) && !ReservedRole(r.name) && r.accounts != [] && r.namespaces != []
    && (forall n | n in r.accounts + r.namespaces :: Bindable(n))
    && r.policies != [] && (forall p | p in r.policies :: p in policies) && ValidTTL(r.ttl, parse)
  }

  function MountNames(mounts: seq<Mount>): set<string> {
    set m | m in mounts && m.path != "" :: m.path
  }

  function PolicyNames(policies: seq<Policy>): set<string> {
    set p | p in policies :: p.name
  }

  /** What spec.openbao may say. */
  ghost predicate Valid(e: Extensions, teams: seq<Team>, parse: Durations) {
    && (forall i | 0 <= i < |e.mounts| :: MountOk(e, i, teams, parse))
    && (forall i | 0 <= i < |e.policies| :: PolicyOk(e, i, teams))
    && (forall i | 0 <= i < |e.roles| :: RoleOk(e, i, parse))
  }

  ghost predicate MountOk(e: Extensions, i: nat, teams: seq<Team>, parse: Durations)
    requires i < |e.mounts|
  {
    ValidMount(e.mounts[i], teams, parse) && !exists j | 0 <= j < i :: e.mounts[j].path == e.mounts[i].path
  }

  ghost predicate PolicyOk(e: Extensions, i: nat, teams: seq<Team>)
    requires i < |e.policies|
  {
    ValidPolicy(e.policies[i], MountNames(e.mounts), teams) && !exists j | 0 <= j < i :: e.policies[j].name == e.policies[i].name
  }

  ghost predicate RoleOk(e: Extensions, i: nat, parse: Durations)
    requires i < |e.roles|
  {
    ValidRole(e.roles[i], PolicyNames(e.policies), parse) && !exists j | 0 <= j < i :: e.roles[j].name == e.roles[i].name
  }

  // ── the validator ──

  datatype Error = MountError(i: nat) | PolicyError(i: nat) | RoleError(i: nat)

  method CheckRule(r: Rule, mounts: set<string>, teams: seq<Team>) returns (ok: bool)
    ensures ok == ValidRule(r, mounts, teams)
  {
    ok := true;
    if !Canonical(r.path) {
      ok := false;
    } else if !InScope(r.path, mounts, teams) {
      ok := false;
    } else if !WorkloadWriteAllowed(r, mounts) {
      ok := false;
    }
    if r.capabilities == [] {
      ok := false;
    }
    ghost var path := ok;
    for k := 0 to |r.capabilities|
      invariant ok <==> path && forall j | 0 <= j < k :: KnownCapability(r.capabilities[j]) && (r.capabilities[j] == "deny" ==> |r.capabilities| == 1)
    {
      var c := r.capabilities[k];
      if !KnownCapability(c) {
        ok := false;
      }
      if c == "deny" && |r.capabilities| > 1 {
        ok := false;
      }
    }
  }

  method CheckRules(rules: seq<Rule>, mounts: set<string>, teams: seq<Team>) returns (ok: bool)
    ensures ok <==> rules != [] && forall r | r in rules :: ValidRule(r, mounts, teams)
  {
    hide ValidRule;
    ok := rules != [];
    for k := 0 to |rules|
      invariant ok <==> rules != [] && forall j | 0 <= j < k :: ValidRule(rules[j], mounts, teams)
    {
      var fine := CheckRule(rules[k], mounts, teams);
      ok := ok && fine;
    }
  }

  method CheckMount(m: Mount, teams: seq<Team>, parse: Durations) returns (ok: bool)
    ensures ok == ValidMount(m, teams, parse)
  {
    ok := ExtName(m.path) && !Reserved(m.path) && m.engine == "pki" && (m.maxLeaseTTL != "" ==> parse(m.maxLeaseTTL).Some?);
    ghost var head := ok;
    for j := 0 to |m.config|
      invariant ok <==> head && forall k | 0 <= k < j :: ConfigAllowed(m.engine, m.config[k].path)
    {
      if !ConfigAllowed(m.engine, m.config[j].path) {
        ok := false;
      }
    }
    ghost var configured := ok;
    for j := 0 to |m.operators|
      invariant ok <==> configured && forall k | 0 <= k < j :: IsTeam(teams, m.operators[k])
    {
      if !IsTeam(teams, m.operators[j]) {
        ok := false;
      }
    }
  }

  method CheckRole(r: KubernetesRole, policies: set<string>, parse: Durations) returns (ok: bool)
    ensures ok == ValidRole(r, policies, parse)
  {
    ok := ExtName(r.name) && !ReservedRole(r.name) && r.accounts != [] && r.namespaces != [] && r.policies != [] && ValidTTL(r.ttl, parse);
    ghost var head := ok;
    var names := r.accounts + r.namespaces;
    for j := 0 to |names|
      invariant ok <==> head && forall k | 0 <= k < j :: Bindable(names[k])
    {
      if !Bindable(names[j]) {
        ok := false;
      }
    }
    ghost var bound := ok;
    for j := 0 to |r.policies|
      invariant ok <==> bound && forall k | 0 <= k < j :: r.policies[k] in policies
    {
      if r.policies[j] !in policies {
        ok := false;
      }
    }
  }

  /** ValidateOpenBao, one error for each entry that is wrong: a clean list means a valid
      declaration, and every error points at an entry that is not. */
  method ValidateOpenBao(e: Extensions, teams: seq<Team>, parse: Durations) returns (errs: seq<Error>)
    ensures errs == [] <==> Valid(e, teams, parse)
    ensures forall x | x in errs ::
              match x
              case MountError(i) => i < |e.mounts| && !MountOk(e, i, teams, parse)
              case PolicyError(i) => i < |e.policies| && !PolicyOk(e, i, teams)
              case RoleError(i) => i < |e.roles| && !RoleOk(e, i, parse)
  {
    var mountErrs, mounts := CheckMounts(e, teams, parse);
    var policyErrs, policies := CheckPolicies(e, teams, mounts);
    var roleErrs := CheckRoles(e, parse, policies);
    hide MountOk;
    hide PolicyOk;
    hide RoleOk;
    errs := mountErrs + policyErrs + roleErrs;
  }

  method CheckMounts(e: Extensions, teams: seq<Team>, parse: Durations) returns (errs: seq<Error>, mounts: set<string>)
    ensures mounts == MountNames(e.mounts)
    ensures errs == [] <==> forall i | 0 <= i < |e.mounts| :: MountOk(e, i, teams, parse)
    ensures forall x | x in errs :: x.MountError? && x.i < |e.mounts| && !MountOk(e, x.i, teams, parse)
  {
    errs, mounts := [], {};
    for i := 0 to |e.mounts|
      invariant mounts == MountNames(e.mounts[..i])
      invariant errs == [] <==> forall j | 0 <= j < i :: MountOk(e, j, teams, parse)
      invariant forall x | x in errs :: x.MountError? && x.i < i && !MountOk(e, x.i, teams, parse)
    {
      var m := e.mounts[i];
      var ok := CheckMount(m, teams, parse);
      NamesSoFar(e.mounts, i);
      var bad := !ok || m.path in mounts;
      assert bad <==> !MountOk(e, i, teams, parse);
      if bad {
        errs := errs + [MountError(i)];
      }
      if m.path != "" {
        mounts := mounts + {m.path};
      }
    }
    assert e.mounts[..|e.mounts|] == e.mounts;
  }

  lemma NamesSoFar(mounts: seq<Mount>, i: nat)
    requires i < |mounts|
    ensures MountNames(mounts[..i + 1]) == MountNames(mounts[..i]) + (if mounts[i].path != "" then {mounts[i].path} else {})
    ensures ExtName(mounts[i].path) ==> (mounts[i].path in MountNames(mounts[..i]) <==> exists j | 0 <= j < i :: mounts[j].path == mounts[i].path)
  {
    assert mounts[..i + 1] == mounts[..i] + [mounts[i]];
    if j :| 0 <= j < i && mounts[j].path == mounts[i].path {
      assert mounts[j] in mounts[..i];
    }
  }

  lemma PolicyOkMeans(e: Extensions, i: nat, teams: seq<Team>, names: set<string>)
    requires i < |e.policies| && names == set j | 0 <= j < i :: e.policies[j].name
    ensures PolicyOk(e, i, teams) <==> ValidPolicy(e.policies[i], MountNames(e.mounts), teams) && e.policies[i].name !in names
  {
    hide ValidPolicy;
  }

  method CheckPolicies(e: Extensions, teams: seq<Team>, mounts: set<string>) returns (errs: seq<Error>, names: set<string>)
    requires mounts == MountNames(e.mounts)
    ensures names == PolicyNames(e.policies)
    ensures errs == [] <==> forall i | 0 <= i < |e.policies| :: PolicyOk(e, i, teams)
    ensures forall x | x in errs :: x.PolicyError? && x.i < |e.policies| && !PolicyOk(e, x.i, teams)
  {
    hide ValidRule;
    hide PolicyOk;
    errs, names := [], {};
    for i := 0 to |e.policies|
      invariant names == set j | 0 <= j < i :: e.policies[j].name
      invariant errs == [] <==> forall j | 0 <= j < i :: PolicyOk(e, j, teams)
      invariant forall x | x in errs :: x.PolicyError? && x.i < i && !PolicyOk(e, x.i, teams)
    {
      var p := e.policies[i];
      var rulesOk := CheckRules(p.rules, mounts, teams);
      var bad := !ExtName(p.name) || ReservedPolicy(p.name) || p.name in names || !rulesOk;
      PolicyOkMeans(e, i, teams, names);
      assert bad <==> !PolicyOk(e, i, teams);
      if bad {
        errs := errs + [PolicyError(i)];
      }
      names := names + {p.name};
    }
    assert names == PolicyNames(e.policies);
  }

  method CheckRoles(e: Extensions, parse: Durations, policies: set<string>) returns (errs: seq<Error>)
    requires policies == PolicyNames(e.policies)
    ensures errs == [] <==> forall i | 0 <= i < |e.roles| :: RoleOk(e, i, parse)
    ensures forall x | x in errs :: x.RoleError? && x.i < |e.roles| && !RoleOk(e, x.i, parse)
  {
    hide ValidRole;
    errs := [];
    var seen: set<string> := {};
    for i := 0 to |e.roles|
      invariant seen == set j | 0 <= j < i :: e.roles[j].name
      invariant errs == [] <==> forall j | 0 <= j < i :: RoleOk(e, j, parse)
      invariant forall x | x in errs :: x.RoleError? && x.i < i && !RoleOk(e, x.i, parse)
    {
      var ok := CheckRole(e.roles[i], policies, parse);
      var bad := !ok || e.roles[i].name in seen;
      assert bad <==> !RoleOk(e, i, parse);
      if bad {
        errs := errs + [RoleError(i)];
      }
      seen := seen + {e.roles[i].name};
    }
  }

  // ── nothing valid hands over the CA ──

  /** Segments of a canonical path that stand before its end are plain or `+`; its first is a word,
      or a word with a `*` glued on when it is the only one. */
  lemma CanonicalHead(p: Path)
    requires Canonical(p) && |p| > 1
    ensures Word(p[0]) && !EndsInStar(p[0]) && p[0] != "+"
  {
    var n := |p| - 1;
    if !Body(p) && !(p[n] == "*" && Body(p[..n])) {
      assert p[n := p[n][..|p[n]| - 1]][0] == p[0];
    }
  }

  lemma IssuanceIsNotCustody(m: string, rest: Path, d: Path)
    requires Issuance(rest) && CustodyShape(d)
    ensures !Matches([m] + rest, d)
  {
    var r := [m] + rest;
    assert r[1] == rest[0] && r[|r| - 1] == rest[|rest| - 1] && (|rest| == 4 ==> r[3] == rest[2]);
    RoleNameHasNoStar(rest[|rest| - 1]);
    MatchedSegments(r, d);
  }

  lemma RoleNameHasNoStar(s: string)
    requires RoleName(s)
    ensures s != "" && !EndsInStar(s)
  {
  }

  lemma FirstMustMatch(rule: Path, path: Path)
    requires |rule| > 1 && path != [] && Matches(rule, path)
    ensures SegmentMatches(rule[0], path[0])
  {
  }

  /** A valid rule that may write never reaches a custody path: not of the mount it names, not of
      another declared mount, and not from a team's subtree. */
  lemma RuleSparesCustody(r: Rule, mounts: set<string>, teams: seq<Team>, m: string, x: string, d: Path)
    requires ValidRule(r, mounts, teams) && Writes(r)
    requires m in mounts && "secret" !in mounts && d in CustodyPaths(m, x)
    ensures r.path != [] && d != [] && !Matches(r.path, d)
  {
    CustodyHasShape(m, x, d);
    CustodyBegins(m, x, d);
    if r.path[0] in mounts && |r.path| > 1 {
      CanonicalHead(r.path);
      if r.path[0] == m {
        assert r.path == [m] + r.path[1..];
        IssuanceIsNotCustody(m, r.path[1..], d);
      } else if Matches(r.path, d) {
        FirstMustMatch(r.path, d);
      }
    } else {
      var t :| t in teams && InSubtree(r.path, t);
      assert |r.path| > 1 && r.path[0] == "secret";
      if Matches(r.path, d) {
        FirstMustMatch(r.path, d);
      }
    }
  }

  lemma CustodyBegins(m: string, x: string, d: Path)
    requires d in CustodyPaths(m, x)
    ensures d != [] && d[0] == m
  {
  }

  /** The promise of the validator. When it reports nothing, no rule of any declared policy that
      holds a write capability matches any CA-custody path of any declared mount, for every text
      in place of the probe segment. */
  lemma ValidHandsOverNothing(e: Extensions, teams: seq<Team>, parse: Durations, p: Policy, r: Rule, m: Mount, x: string, d: Path)
    requires Valid(e, teams, parse)
    requires p in e.policies && r in p.rules && Writes(r) && m in e.mounts && d in CustodyPaths(m.path, x)
    ensures r.path != [] && d != [] && !Matches(r.path, d)
  {
    hide CustodyPaths;
    hide ValidRule;
    var i :| 0 <= i < |e.policies| && e.policies[i] == p;
    assert PolicyOk(e, i, teams);
    forall j | 0 <= j < |e.mounts|
      ensures ExtName(e.mounts[j].path) && e.mounts[j].path != "secret"
    {
      assert MountOk(e, j, teams, parse);
    }
    assert m.path in MountNames(e.mounts);
    RuleSparesCustody(r, MountNames(e.mounts), teams, m.path, x, d);
  }

  // ── nothing valid touches the platform's own, and what is ordinary is valid ──

  /** Names the platform keeps for itself, as they are spelled in it. */
  const PLATFORM_MOUNTS := ["secret", "sys", "auth", "identity", "cubbyhole", "kubernetes", "jwt", "keycloak"]
  const PLATFORM_POLICIES := ["root", "default", "llz-spec-openbao-manifest", "platform-ci", "secret-propagator", "eso-pusher",
                              "linode-rotator", "harbor-provisioner", "reconciler-read", "broad-pat-rotator"]
  const PLATFORM_ROLES := ["eso", "eso-pusher", "harbor-provisioner", "reconciler", "broad-pat-rotator"]

  /** A declaration the validator is silent about overwrites no mount, policy or role of the
      platform, nor any team's or mount's own policy; declares no name twice; grants no capability
      beyond the seven, `deny` only alone; and issues no token for more than an hour. */
  lemma ValidSparesThePlatform(e: Extensions, teams: seq<Team>, parse: Durations)
    requires Valid(e, teams, parse)
    ensures forall i | 0 <= i < |e.mounts| ::
              e.mounts[i].path !in PLATFORM_MOUNTS && forall j | 0 <= j < i :: e.mounts[j].path != e.mounts[i].path
    ensures forall i | 0 <= i < |e.policies| ::
              && e.policies[i].name !in PLATFORM_POLICIES
              && Unsuffixed(e.policies[i].name)
              && forall j | 0 <= j < i :: e.policies[j].name != e.policies[i].name
    ensures forall i, r, c | 0 <= i < |e.policies| && r in e.policies[i].rules && c in r.capabilities ::
              && c in ["create", "read", "update", "patch", "delete", "list", "deny"]
              && (c == "deny" ==> r.capabilities == ["deny"])
    ensures forall i | 0 <= i < |e.roles| ::
              && e.roles[i].name !in PLATFORM_ROLES && (forall j | 0 <= j < i :: e.roles[j].name != e.roles[i].name)
              && var life := parse(if e.roles[i].ttl == "" then "15m" else e.roles[i].ttl);
                 life.Some? && 0 < life.value <= 60 * 60 * 1_000_000_000
  {
    forall i | 0 <= i < |e.mounts|
      ensures e.mounts[i].path !in PLATFORM_MOUNTS && forall j | 0 <= j < i :: e.mounts[j].path != e.mounts[i].path
    {
      assert MountOk(e, i, teams, parse);
    }
    forall i | 0 <= i < |e.policies|
      ensures e.policies[i].name !in PLATFORM_POLICIES && Unsuffixed(e.policies[i].name)
      ensures forall j | 0 <= j < i :: e.policies[j].name != e.policies[i].name
    {
      assert PolicyOk(e, i, teams);
      KeptPolicies(e.policies[i].name);
      hide ValidRule;
      hide ReservedPolicy;
    }
    forall i, r, c | 0 <= i < |e.policies| && r in e.policies[i].rules && c in r.capabilities
      ensures c in ["create", "read", "update", "patch", "delete", "list", "deny"] && (c == "deny" ==> r.capabilities == ["deny"])
    {
      assert PolicyOk(e, i, teams);
      assert ValidRule(r, MountNames(e.mounts), teams);
      CapabilitiesOf(r, MountNames(e.mounts), teams, c);
      hide ValidRule;
    }
    forall i | 0 <= i < |e.roles|
      ensures e.roles[i].name !in PLATFORM_ROLES && (forall j | 0 <= j < i :: e.roles[j].name != e.roles[i].name)
      ensures var life := parse(if e.roles[i].ttl == "" then "15m" else e.roles[i].ttl); life.Some? && 0 < life.value <= 60 * 60 * 1_000_000_000
    {
      assert RoleOk(e, i, parse);
    }
  }

  /** No name of a team's own policies, nor of a mount's operators. */
  ghost predicate Unsuffixed(name: string) {
    forall front :: name != front + "-reader" && name != front + "-writer" && name != front + "-operator"
  }

  lemma KeptPolicies(name: string)
    ensures ReservedPolicy(name) <==> name in PLATFORM_POLICIES || !Unsuffixed(name)
  {
    forall front | name == front + "-reader" || name == front + "-writer" || name == front + "-operator" ensures ReservedPolicy(name) {
      assert name[|front|..] in ["-reader", "-writer", "-operator"];
    }
    forall suffix | suffix in ["-reader", "-writer", "-operator"] && EndsWith(name, suffix) ensures !Unsuffixed(name) {
      assert name == name[..|name| - |suffix|] + suffix;
    }
  }

  lemma CapabilitiesOf(r: Rule, mounts: set<string>, teams: seq<Team>, c: string)
    requires ValidRule(r, mounts, teams) && c in r.capabilities
    ensures c in ["create", "read", "update", "patch", "delete", "list", "deny"] && (c == "deny" ==> r.capabilities == ["deny"])
  {
    hide Canonical;
    hide InScope;
    hide WorkloadWriteAllowed;
  }

  /** What a workload's rule may be about: a declared mount, where it writes nothing but a
      certificate through a role, or a team's own subtree of the key-value store; nothing of
      sys, auth or identity. */
  lemma ValidStaysInScope(e: Extensions, teams: seq<Team>, parse: Durations, p: Policy, r: Rule)
    requires Valid(e, teams, parse) && p in e.policies && r in p.rules
    ensures |r.path| > 1 && r.path[0] !in ["sys", "auth", "identity", "cubbyhole"]
    ensures if r.path[0] in MountNames(e.mounts) then
              (exists c | c in r.capabilities :: c in ["create", "update", "patch", "delete"]) ==>
                || (|r.path| == 3 && r.path[1] in ["issue", "sign"])
                || (|r.path| == 5 && r.path[1] == "issuer" && r.path[3] in ["issue", "sign"])
            else
              && r.path[0] == "secret" && r.path[1] in ["data", "metadata"]
              && exists t | t in teams :: UnderSecret(t.subtree) <= r.path[2..] && |r.path| > 2 + |UnderSecret(t.subtree)|
  {
    var i :| 0 <= i < |e.policies| && e.policies[i] == p;
    assert PolicyOk(e, i, teams);
    forall m | m in e.mounts ensures m.path !in ["sys", "auth", "identity", "cubbyhole", "secret"] {
      var j :| 0 <= j < |e.mounts| && e.mounts[j] == m;
      assert MountOk(e, j, teams, parse);
    }
    RuleStaysInScope(r, MountNames(e.mounts), teams);
    hide ValidRule;
  }

  lemma RuleStaysInScope(r: Rule, mounts: set<string>, teams: seq<Team>)
    requires ValidRule(r, mounts, teams)
    ensures |r.path| > 1
    ensures if r.path[0] in mounts then
              (exists c | c in r.capabilities :: c in ["create", "update", "patch", "delete"]) ==>
                || (|r.path| == 3 && r.path[1] in ["issue", "sign"])
                || (|r.path| == 5 && r.path[1] == "issuer" && r.path[3] in ["issue", "sign"])
            else
              && r.path[0] == "secret" && r.path[1] in ["data", "metadata"]
              && exists t | t in teams :: UnderSecret(t.subtree) <= r.path[2..] && |r.path| > 2 + |UnderSecret(t.subtree)|
  {
    hide Canonical;
    hide RoleName;
    hide UnderSecret;
    if r.path[0] !in mounts {
      var t :| t in teams && InSubtree(r.path, t);
      var kind :| kind in ["data", "metadata"] && ["secret", kind] + UnderSecret(t.subtree) <= r.path;
      var prefix := ["secret", kind] + UnderSecret(t.subtree);
      assert r.path[0] == prefix[0] && r.path[1] == prefix[1] && prefix[2..] == UnderSecret(t.subtree);
      assert r.path[..|prefix|] == prefix && UnderSecret(t.subtree) == r.path[2..][..|prefix| - 2];
    }
  }

  /** A name a site may give to a policy of its own. */
  ghost predicate FreeName(name: string) {
    ExtName(name) && name !in PLATFORM_POLICIES && Unsuffixed(name)
  }

  lemma OrdinaryMount(mount: string, issuer: string, team: Team, parse: Durations)
    requires ExtName(mount) && mount !in PLATFORM_MOUNTS && Word(issuer)
    ensures ValidMount(Mount(mount, "pki", "", [Write(["roles", issuer]), Write(["config", "urls"])], [team.name]), [team], parse)
  {
    assert IsTeam([team], team.name);
    hide ExtName;
    hide Word;
  }

  lemma IssuingRule(mount: string, issuer: string, teams: seq<Team>)
    requires ExtName(mount) && Word(issuer)
    ensures ValidRule(Rule([mount, "issue", issuer], ["create", "update"]), {mount}, teams)
  {
    var p := [mount, "issue", issuer];
    assert Word(mount) && Loose("issue") && Body(p);
    assert p[1..] == ["issue", issuer];
  }

  lemma OwnRule(team: Team, key: string, mounts: set<string>)
    requires (forall s | s in UnderSecret(team.subtree) :: Loose(s)) && Word(key) && "secret" !in mounts
    ensures ValidRule(Rule(["secret", "data"] + UnderSecret(team.subtree) + [key], ["read", "list"]), mounts, [team])
  {
    var prefix := ["secret", "data"] + UnderSecret(team.subtree);
    var p := prefix + [key];
    assert Loose("secret") && Loose("data");
    forall i | 1 <= i < |p| ensures Segment(p[i]) {
      if 2 <= i < |prefix| {
        assert p[i] == UnderSecret(team.subtree)[i - 2];
      }
    }
    assert Body(p);
    assert "data" in ["data", "metadata"] && prefix <= p;
    assert InSubtree(p, team);
    hide Loose;
    hide Word;
    hide Body;
    hide UnderSecret;
  }

  /** One mount with its own declared role, a policy to issue from it, a policy on the team's own
      subtree, and a role that binds one account to the first. */
  function Ordinary(mount: string, policy: string, own: string, role: string, issuer: string, account: string, space: string,
      team: Team, key: string): Extensions
  {
    Extensions(
      [Mount(mount, "pki", "", [Write(["roles", issuer]), Write(["config", "urls"])], [team.name])],
      [Policy(policy, [Rule([mount, "issue", issuer], ["create", "update"])]),
       Policy(own, [Rule(["secret", "data"] + UnderSecret(team.subtree) + [key], ["read", "list"])])],
      [KubernetesRole(role, [account], [space], [policy], "")])
  }

  lemma OrdinaryPolicies(e: Extensions, mount: string, policy: string, own: string, issuer: string, team: Team, key: string)
    requires ExtName(mount) && mount !in PLATFORM_MOUNTS && Word(issuer) && Word(key)
    requires FreeName(policy) && FreeName(own) && policy != own && (forall s | s in UnderSecret(team.subtree) :: Loose(s))
    requires MountNames(e.mounts) == {mount}
    requires e.policies == [Policy(policy, [Rule([mount, "issue", issuer], ["create", "update"])]),
                            Policy(own, [Rule(["secret", "data"] + UnderSecret(team.subtree) + [key], ["read", "list"])])]
    ensures forall i | 0 <= i < |e.policies| :: PolicyOk(e, i, [team])
  {
    IssuingRule(mount, issuer, [team]);
    OwnRule(team, key, {mount});
    KeptPolicies(policy);
    KeptPolicies(own);
    hide ValidRule;
    hide ReservedPolicy;
    hide ExtName;
    hide Word;
    hide Loose;
    hide UnderSecret;
    hide Unsuffixed;
    hide MountNames;
  }

  lemma OrdinaryRole(role: string, policy: string, account: string, space: string, policies: set<string>, parse: Durations)
    requires ExtName(role) && role !in PLATFORM_ROLES && BoundName(account) && BoundName(space) && policy in policies
    requires parse("15m") == Some(15 * 60 * 1_000_000_000)
    ensures ValidRole(KubernetesRole(role, [account], [space], [policy], ""), policies, parse)
  {
    assert !BoundName("*");
    hide ExtName;
    hide BoundName;
  }

  /** An ordinary declaration is accepted, whatever a site calls its own things. */
  lemma OrdinaryIsValid(mount: string, policy: string, own: string, role: string, issuer: string, account: string, space: string,
      team: Team, key: string, parse: Durations)
    requires ExtName(mount) && mount !in PLATFORM_MOUNTS && Word(issuer) && Word(key)
    requires FreeName(policy) && FreeName(own) && policy != own
    requires ExtName(role) && role !in PLATFORM_ROLES && BoundName(account) && BoundName(space)
    requires (forall s | s in UnderSecret(team.subtree) :: Loose(s)) && parse("15m") == Some(15 * 60 * 1_000_000_000)
    ensures Valid(Ordinary(mount, policy, own, role, issuer, account, space, team, key), [team], parse)
  {
    var e := Ordinary(mount, policy, own, role, issuer, account, space, team, key);
    assert mount != "" && MountNames(e.mounts) == {mount};
    OrdinaryMount(mount, issuer, team, parse);
    OrdinaryPolicies(e, mount, policy, own, issuer, team, key);
    assert e.policies[0].name in PolicyNames(e.policies);
    OrdinaryRole(role, policy, account, space, PolicyNames(e.policies), parse);
    hide ValidMount;
    hide PolicyOk;
    hide ValidRole;
    hide MountNames;
    hide PolicyNames;
    hide ExtName;
    hide Word;
    hide Loose;
    hide BoundName;
    hide FreeName;
    hide UnderSecret;
  }
}
