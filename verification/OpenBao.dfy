/** The OpenBao policy algebra: which paths a rule matches, what an operator of a pki mount is
    given, and what spec.openbao may declare. A path is the list of its slash-separated segments. */
module OpenBao {
  import Text

  type Path = seq<string>

  datatype Rule = Rule(path: Path, capabilities: seq<string>)
  datatype Write = Write(path: Path)
  datatype Mount = Mount(path: string, engine: string, maxLeaseTTL: string, config: seq<Write>, operators: seq<string>)

  // ── matching ──

  predicate EndsInStar(s: string) {
    s != "" && s[|s| - 1] == '*'
  }

  predicate SegmentMatches(rule: string, seg: string) {
    rule == "+" || rule == seg
  }

  /** PolicyPathMatches: `+` is one segment; a trailing `*` matches any rest, also across segments. */
  predicate Matches(rule: Path, path: Path)
    requires rule != [] && path != []
  {
    var n := |rule| - 1;
    if !EndsInStar(rule[n]) then |rule| == |path| && forall i | 0 <= i <= n :: SegmentMatches(rule[i], path[i])
    else
      && |path| > n && (forall i | 0 <= i < n :: SegmentMatches(rule[i], path[i]))
      && rule[n][..|rule[n]| - 1] <= path[n]
  }

  /** The loops of PolicyPathMatches. */
  method PolicyPathMatches(rule: Path, path: Path) returns (yes: bool)
    requires rule != [] && path != []
    ensures yes == Matches(rule, path)
  {
    var n := |rule| - 1;
    var glob := EndsInStar(rule[n]);
    if (!glob && |rule| != |path|) || |path| <= n {
      return false;
    }
    for i := 0 to n
      invariant forall j | 0 <= j < i :: SegmentMatches(rule[j], path[j])
    {
      if rule[i] != "+" && rule[i] != path[i] {
        return false;
      }
    }
    yes := if glob then rule[n][..|rule[n]| - 1] <= path[n] else SegmentMatches(rule[n], path[n]);
  }

  // ── matching on the texts ──

  predicate SlashFree(p: Path) {
    p != [] && forall s | s in p :: Text.Without(s, '/')
  }

  /** A rule with each `+` standing for the segment it meets, and without a trailing star. */
  function Filled(rule: Path, path: Path): Path
    requires rule != []
  {
    var n := |rule| - 1;
    var stem := if EndsInStar(rule[n]) then rule[n := rule[n][..|rule[n]| - 1]] else rule;
    seq(|rule|, i requires 0 <= i < |rule| => if rule[i] == "+" && i < |path| then path[i] else stem[i])
  }

  lemma JoinIsInjective(a: Path, b: Path)
    requires SlashFree(a) && SlashFree(b)
    ensures Text.Join(a, '/') == Text.Join(b, '/') <==> a == b
  {
    Text.SplitJoin(a, '/');
    Text.SplitJoin(b, '/');
  }

  lemma SlashPrefix(a: string, x: string, b: string, y: string)
    requires Text.Without(a, '/') && Text.Without(b, '/')
    ensures a + ['/'] + x <= b + ['/'] + y <==> a == b && x <= y
    ensures !(a + ['/'] + x <= b)
  {
    var s, t := a + ['/'] + x, b + ['/'] + y;
    if s <= t {
      assert s[|a|] == '/' && t[|b|] == '/' && t[..|s|] == s;
      assert t[|a|] == '/' && s[..|a|] == a && t[..|b|] == b;
      assert |a| == |b|;
      assert x == s[|a| + 1..] && y == t[|a| + 1..] && s[|a| + 1..] == t[|a| + 1..][..|x|];
    }
    if a == b && x <= y {
      assert t == s + y[|x|..];
    }
  }

  lemma {:induction false} PrefixBySegments(front: Path, stem: string, path: Path)
    requires (forall s | s in front :: Text.Without(s, '/')) && Text.Without(stem, '/') && SlashFree(path)
    ensures Text.Join(front + [stem], '/') <= Text.Join(path, '/') <==> |front| < |path| && front == path[..|front|] && stem <= path[|front|]
    decreases |front|
  {
    var text := Text.Join(path, '/');
    assert forall s | s in path[1..] :: s in path;
    assert path[0] in path && (|path| > 1 ==> text == path[0] + ['/'] + Text.Join(path[1..], '/'));
    if front == [] {
      assert front + [stem] == [stem] && path[..0] == [];
      StemPrefix(stem, path[0], text);
    } else {
      var rest := Text.Join(front[1..] + [stem], '/');
      assert (front + [stem])[1..] == front[1..] + [stem] && front[0] in front;
      assert Text.Join(front + [stem], '/') == front[0] + ['/'] + rest;
      assert forall s | s in front[1..] :: s in front;
      if |path| > 1 {
        SlashPrefix(front[0], rest, path[0], Text.Join(path[1..], '/'));
        PrefixBySegments(front[1..], stem, path[1..]);
        assert front == [front[0]] + front[1..];
        assert |front| < |path| ==> path[..|front|] == [path[0]] + path[1..][..|front| - 1];
      } else {
        SlashPrefix(front[0], rest, path[0], "");
      }
    }
  }

  lemma StemPrefix(stem: string, first: string, text: string)
    requires Text.Without(stem, '/') && (text == first || (|text| > |first| && text[..|first|] == first && text[|first|] == '/'))
    ensures stem <= text <==> stem <= first
  {
    if stem <= text && text != first {
      assert |stem| <= |first|;
      assert stem == first[..|stem|];
    }
  }

  /** Matching, on the texts a rule and a path are written as: with each `+` read as the one segment
      it meets, a rule without a trailing star is the path itself, and a rule with one begins the
      path's text. */
  lemma MatchMeans(rule: Path, path: Path)
    requires SlashFree(rule) && SlashFree(path)
    ensures var text := Text.Join(Filled(rule, path), '/');
            Matches(rule, path) <==> if EndsInStar(rule[|rule| - 1]) then text <= Text.Join(path, '/') else text == Text.Join(path, '/')
  {
    var n, filled := |rule| - 1, Filled(rule, path);
    forall s | s in filled ensures Text.Without(s, '/') {
      var i :| 0 <= i < |filled| && filled[i] == s;
      assert rule[i] in rule && (i < |path| ==> path[i] in path);
    }
    if EndsInStar(rule[n]) {
      assert filled == filled[..n] + [filled[n]];
      PrefixBySegments(filled[..n], filled[n], path);
      StarMeans(rule, path);
    } else {
      JoinIsInjective(filled, path);
      PlainMeans(rule, path);
    }
  }

  lemma StarMeans(rule: Path, path: Path)
    requires rule != [] && path != [] && EndsInStar(rule[|rule| - 1])
    ensures var n, filled := |rule| - 1, Filled(rule, path);
            Matches(rule, path) <==> n < |path| && filled[..n] == path[..n] && filled[n] <= path[n]
  {
    var n, filled := |rule| - 1, Filled(rule, path);
    assert rule[n] != "+" && filled[n] == rule[n][..|rule[n]| - 1];
    if n < |path| && filled[..n] == path[..n] {
      forall i | 0 <= i < n ensures SegmentMatches(rule[i], path[i]) {
        assert filled[..n][i] == path[..n][i];
      }
    }
  }

  lemma PlainMeans(rule: Path, path: Path)
    requires rule != [] && path != [] && !EndsInStar(rule[|rule| - 1])
    ensures Matches(rule, path) <==> Filled(rule, path) == path
  {
    var filled := Filled(rule, path);
    if filled == path {
      forall i | 0 <= i < |rule| ensures SegmentMatches(rule[i], path[i]) {
        assert filled[i] == path[i];
      }
    }
  }

  // ── the operator policy ──

  const RW := ["create", "read", "update"]

  /** Stage an intermediate, inspect and re-point issuers. */
  function IssuerRules(m: string): seq<Rule> {
    [Rule([m, "intermediate", "generate", "internal"], ["create", "update"]),
     Rule([m, "intermediate", "set-signed"], ["create", "update"]),
     Rule([m, "issuers"], ["list"]),
     Rule([m, "issuer", "+"], ["read", "update"])]
  }

  function KeyRules(m: string): seq<Rule> {
    [Rule([m, "keys"], ["list"]),
     Rule([m, "key", "+"], ["read", "update"]),
     Rule([m, "roles"], ["list"]),
     Rule([m, "roles", "+"], ["create", "read", "update", "delete"])]
  }

  function CertRules(m: string): seq<Rule> {
    [Rule([m, "certs"], ["list"]),
     Rule([m, "cert", "+"], ["read"]),
     Rule([m, "revoke"], ["create", "update"]),
     Rule([m, "tidy"], ["create", "update"]),
     Rule([m, "tidy-status"], ["read"]),
     Rule([m, "crl", "rotate"], ["read"])]
  }

  function ConfigRules(m: string): seq<Rule> {
    [Rule([m, "config", "crl"], RW),
     Rule([m, "config", "auto-tidy"], RW),
     Rule([m, "config", "urls"], RW),
     Rule([m, "config", "cluster"], RW),
     Rule([m, "config", "issuers"], RW),
     Rule([m, "config", "keys"], RW)]
  }

  function BaseRules(m: string): seq<Rule> {
    IssuerRules(m) + KeyRules(m) + CertRules(m) + ConfigRules(m)
  }

  function OwnedPaths(m: Mount): seq<Path> {
    seq(|m.config|, i requires 0 <= i < |m.config| => [m.path] + m.config[i].path)
  }

  /** One stanza per path: narrow the ones that are there, or add one. */
  function NarrowOne(rules: seq<Rule>, path: Path): seq<Rule> {
    var narrowed := seq(|rules|, i requires 0 <= i < |rules| => NarrowedAt(rules, path, i));
    if exists i | 0 <= i < |rules| :: rules[i].path == path then narrowed else rules + [Rule(path, ["read"])]
  }

  function Narrow(rules: seq<Rule>, paths: seq<Path>): seq<Rule>
    decreases |paths|
  {
    if paths == [] then rules else Narrow(NarrowOne(rules, paths[0]), paths[1..])
  }

  function OperatorRulesOf(m: Mount): seq<Rule> {
    if m.engine != "pki" then [] else Narrow(BaseRules(m.path), OwnedPaths(m))
  }

  method SpecOwnedPaths(m: Mount) returns (out: seq<Path>)
    ensures out == OwnedPaths(m)
  {
    out := [];
    for i := 0 to |m.config|
      invariant out == OwnedPaths(m)[..i]
    {
      out := out + [[m.path] + m.config[i].path];
    }
  }

  function NarrowedAt(rules: seq<Rule>, path: Path, i: nat): Rule
    requires i < |rules|
  {
    if rules[i].path == path then Rule(path, ["read"]) else rules[i]
  }

  /** The inner loop of OperatorRules: narrow the stanzas of one path in place, or add one. */
  method NarrowInPlace(before: seq<Rule>, path: Path) returns (rules: seq<Rule>)
    ensures rules == NarrowOne(before, path)
  {
    rules := before;
    var replaced := false;
    for i := 0 to |rules|
      invariant |rules| == |before|
      invariant replaced <==> exists j | 0 <= j < i :: before[j].path == path
      invariant forall j | 0 <= j < i :: rules[j] == NarrowedAt(before, path, j)
      invariant forall j | i <= j < |rules| :: rules[j] == before[j]
    {
      if rules[i].path == path {
        rules := rules[i := rules[i].(capabilities := ["read"])];
        replaced := true;
      }
    }
    if !replaced {
      assert rules == before;
      rules := rules + [Rule(path, ["read"])];
    }
  }

  /** OperatorRules. */
  method OperatorRules(m: Mount) returns (rules: seq<Rule>)
    ensures rules == OperatorRulesOf(m)
  {
    hide BaseRules;
    hide NarrowOne;
    if m.engine != "pki" {
      return [];
    }
    rules := BaseRules(m.path);
    ghost var base := rules;
    var owned := SpecOwnedPaths(m);
    for k := 0 to |owned|
      invariant Narrow(base, owned) == Narrow(rules, owned[k..])
    {
      rules := NarrowInPlace(rules, owned[k]);
      assert owned[k..][1..] == owned[k + 1..];
    }
  }

  ghost predicate DistinctPaths(rules: seq<Rule>) {
    forall i, j | 0 <= i < j < |rules| :: rules[i].path != rules[j].path
  }

  /** The place of a path among the base rules, by its segments; -1 when it is none of them. */
  function Which(p: Path): int {
    match |p|
    case 2 => WhichPlain(p[1])
    case 3 => WhichBelow(p[1], p[2])
    case 4 => 0
    case _ => -1
  }

  function WhichPlain(a: string): int {
    if a == "issuers" then 2
    else if a == "keys" then 4
    else if a == "roles" then 6
    else if a == "certs" then 8
    else if a == "revoke" then 10
    else if a == "tidy" then 11
    else if a == "tidy-status" then 12
    else -1
  }

  function WhichBelow(a: string, b: string): int {
    if a == "intermediate" then 1
    else if a == "issuer" then 3
    else if a == "key" then 5
    else if a == "roles" then 7
    else if a == "cert" then 9
    else if a == "crl" then 13
    else if a == "config" then WhichConfig(b)
    else -1
  }

  function WhichConfig(b: string): int {
    if b == "crl" then 14
    else if b == "auto-tidy" then 15
    else if b == "urls" then 16
    else if b == "cluster" then 17
    else if b == "issuers" then 18
    else if b == "keys" then 19
    else -1
  }

  lemma IssuerRulesTold(m: string)
    ensures forall i | 0 <= i < 4 :: Which(IssuerRules(m)[i].path) == i
  {
  }

  lemma KeyRulesTold(m: string)
    ensures forall i | 0 <= i < 4 :: Which(KeyRules(m)[i].path) == 4 + i
  {
  }

  lemma CertRulesTold(m: string)
    ensures forall i | 0 <= i < 6 :: Which(CertRules(m)[i].path) == 8 + i
  {
  }

  lemma ConfigRulesTold(m: string)
    ensures forall i | 0 <= i < 6 :: Which(ConfigRules(m)[i].path) == 14 + i
  {
  }

  /** Each base rule stands at its place. */
  lemma BasePlaces(m: string)
    ensures |BaseRules(m)| == 20 && forall i | 0 <= i < 20 :: Which(BaseRules(m)[i].path) == i
  {
    IssuerRulesTold(m);
    KeyRulesTold(m);
    CertRulesTold(m);
    ConfigRulesTold(m);
    BaseLengths(m);
    hide Which;
    hide IssuerRules;
    hide KeyRules;
    hide CertRules;
    hide ConfigRules;
    var rules := BaseRules(m);
    forall i | 0 <= i < 20
      ensures Which(rules[i].path) == i
    {
      if i < 4 {
        assert rules[i] == IssuerRules(m)[i];
      } else if i < 8 {
        assert rules[i] == KeyRules(m)[i - 4];
      } else if i < 14 {
        assert rules[i] == CertRules(m)[i - 8];
      } else {
        assert rules[i] == ConfigRules(m)[i - 14];
      }
    }
  }

  lemma BaseIsDistinct(m: string)
    ensures DistinctPaths(BaseRules(m))
  {
    BasePlaces(m);
    hide Which;
    hide BaseRules;
  }

  lemma BaseLengths(m: string)
    ensures |IssuerRules(m)| == 4 && |KeyRules(m)| == 4 && |CertRules(m)| == 6 && |ConfigRules(m)| == 6
  {
  }

  lemma NarrowOneFacts(rules: seq<Rule>, path: Path)
    ensures DistinctPaths(rules) ==> DistinctPaths(NarrowOne(rules, path))
    ensures Rule(path, ["read"]) in NarrowOne(rules, path)
    ensures forall r | r in NarrowOne(rules, path) :: r in rules || r == Rule(path, ["read"])
    ensures forall r | r in rules && r.path != path :: r in NarrowOne(rules, path)
  {
    var out := NarrowOne(rules, path);
    if i :| 0 <= i < |rules| && rules[i].path == path {
      assert out[i] == Rule(path, ["read"]);
    } else {
      assert out[|rules|] == Rule(path, ["read"]);
    }
    forall r | r in rules && r.path != path
      ensures r in out
    {
      var i :| 0 <= i < |rules| && rules[i] == r;
      assert out[i] == r;
    }
  }

  lemma {:induction false} NarrowFacts(rules: seq<Rule>, paths: seq<Path>)
    ensures var out := Narrow(rules, paths);
            && (DistinctPaths(rules) ==> DistinctPaths(out))
            && (forall p | p in paths :: Rule(p, ["read"]) in out)
            && (forall r | r in out :: (r in rules && r.path !in paths) || (r.path in paths && r.capabilities == ["read"]))
            && (forall r | r in rules && r.path !in paths :: r in out)
    decreases |paths|
  {
    hide DistinctPaths;
    hide NarrowOne;
    if paths != [] {
      NarrowOneFacts(rules, paths[0]);
      var next := NarrowOne(rules, paths[0]);
      NarrowFacts(next, paths[1..]);
      NarrowedAway(rules, paths[0]);
      var out := Narrow(rules, paths);
      forall p | p in paths
        ensures Rule(p, ["read"]) in out
      {
        if p !in paths[1..] {
          assert p == paths[0] && Rule(p, ["read"]) in next;
        }
      }
      forall r | r in out
        ensures (r in rules && r.path !in paths) || (r.path in paths && r.capabilities == ["read"])
      {
        if r.path !in paths[1..] {
          assert r in next;
        }
      }
    }
  }

  lemma NarrowedAway(rules: seq<Rule>, path: Path)
    ensures forall r | r in NarrowOne(rules, path) && r.path == path :: r.capabilities == ["read"]
  {
  }

  // ── valid names and paths ──

  predicate Small(c: char) {
    'a' <= c <= 'z' || '0' <= c <= '9'
  }

  /** ^[a-z0-9]([a-z0-9-]*[a-z0-9])?$ */
  predicate ExtName(s: string) {
    s != "" && Small(s[0]) && Small(s[|s| - 1]) && forall i | 0 <= i < |s| :: Small(s[i]) || s[i] == '-'
  }

  /** ^[a-z0-9_-]+$ */
  predicate Loose(s: string) {
    s != "" && forall i | 0 <= i < |s| :: Small(s[i]) || s[i] == '_' || s[i] == '-'
  }

  /** ^[a-z0-9][a-z0-9_-]*$ */
  predicate Word(s: string) {
    Loose(s) && Small(s[0])
  }

  /** mountConfigAllow and configPathAllowed: what a mount's config may write. */
  predicate ConfigAllowed(engine: string, p: Path) {
    engine == "pki" && |p| == 2 &&
    ((p[0] == "roles" && Word(p[1])) ||
     (p[0] == "config" && (p[1] == "crl" || p[1] == "auto-tidy" || p[1] == "urls" || p[1] == "cluster" || p[1] == "issuers")))
  }

  predicate Reserved(path: string) {
    path == "secret" || path == "sys" || path == "auth" || path == "identity" || path == "cubbyhole" ||
    path == "kubernetes" || path == "jwt" || path == "keycloak"
  }

  // ── custody ──

  /** caCustodyPaths with `x` where the source writes its probe segment. */
  function RootPaths(m: string): seq<Path> {
    [[m, "root"],
     [m, "root", "generate", "internal"],
     [m, "root", "generate", "exported"],
     [m, "root", "sign-intermediate"],
     [m, "root", "sign-self-issued"],
     [m, "intermediate", "generate", "exported"]]
  }

  function SigningPaths(m: string, x: string): seq<Path> {
    [[m, "sign-verbatim"],
     [m, "sign-verbatim", x],
     [m, "issuer", x, "sign-verbatim"],
     [m, "issuer", x, "sign-intermediate"],
     [m, "issuer", x, "sign-self-issued"],
     [m, "issuer", x, "sign-revocation-list"]]
  }

  function ImportPaths(m: string): seq<Path> {
    [[m, "issuers", "generate", "root", "internal"],
     [m, "issuers", "generate", "root", "exported"],
     [m, "issuers", "generate", "intermediate", "exported"],
     [m, "config", "ca"],
     [m, "keys", "import"],
     [m, "issuers", "import", "bundle"]]
  }

  function CustodyPaths(m: string, x: string): seq<Path> {
    RootPaths(m) + SigningPaths(m, x) + ImportPaths(m)
  }

  function IssuancePaths(m: string, x: string): seq<Path> {
    [[m, "issue", x], [m, "sign", x], [m, "issuer", x, "issue", x], [m, "issuer", x, "sign", x]]
  }

  /** OperatorDeniedPaths of a pki mount. */
  function DeniedPaths(m: string, x: string): seq<Path> {
    [["sys", "mounts", m]] + CustodyPaths(m, x) + IssuancePaths(m, x)
  }

  /** Every custody path, with whatever stands for a name left open. */
  predicate CustodyShape(d: Path) {
    (|d| == 2 && (d[1] == "root" || d[1] == "sign-verbatim")) ||
    (|d| == 3 && (d[1] == "root" || d[1] == "sign-verbatim" || d[1..] == ["config", "ca"] || d[1..] == ["keys", "import"])) ||
    (|d| == 4 && (d[1] == "root" || d[1..] == ["intermediate", "generate", "exported"] || d[1] == "issuer" || d[1] == "issuers")) ||
    (|d| == 5 && d[1] == "issuers")
  }

  predicate DeniedShape(d: Path) {
    CustodyShape(d) ||
    (|d| == 3 && (d[1] == "mounts" || d[1] == "issue" || d[1] == "sign")) || (|d| == 5 && d[1] == "issuer")
  }

  /** Every path an operator rule may have. */
  predicate OperatorShape(r: Path) {
    |r| > 0 && !EndsInStar(r[|r| - 1]) &&
    ((|r| == 2 && WhichPlain(r[1]) >= 0) ||
     (|r| == 3 && (if r[1] == "config" then r[2] != "ca" && r[2] != "+" else WhichBelow(r[1], r[2]) >= 0)) ||
     (|r| == 4 && r[1..] == ["intermediate", "generate", "internal"]))
  }

  lemma CustodyHasShape(m: string, x: string, d: Path)
    requires d in CustodyPaths(m, x)
    ensures CustodyShape(d)
  {
    if d in RootPaths(m) {
      RootHasShape(m, d);
    } else if d in SigningPaths(m, x) {
      SigningHasShape(m, x, d);
    } else {
      ImportHasShape(m, d);
    }
  }

  lemma RootHasShape(m: string, d: Path)
    requires d in RootPaths(m)
    ensures CustodyShape(d)
  {
  }

  lemma SigningHasShape(m: string, x: string, d: Path)
    requires d in SigningPaths(m, x)
    ensures CustodyShape(d)
  {
  }

  lemma ImportHasShape(m: string, d: Path)
    requires d in ImportPaths(m)
    ensures CustodyShape(d)
  {
  }

  lemma DeniedHasShape(m: string, x: string, d: Path)
    requires d in DeniedPaths(m, x)
    ensures DeniedShape(d)
  {
    hide CustodyPaths;
    hide CustodyShape;
    if d in CustodyPaths(m, x) {
      CustodyHasShape(m, x, d);
    }
  }

  lemma OperatorHasShape(m: string, r: Rule)
    requires r in BaseRules(m)
    ensures OperatorShape(r.path)
  {
    hide OperatorShape;
    if r in IssuerRules(m) {
      IssuerHasShape(m, r);
    } else if r in KeyRules(m) {
      KeyHasShape(m, r);
    } else if r in CertRules(m) {
      CertHasShape(m, r);
    } else {
      ConfigHasShape(m, r);
    }
  }

  lemma IssuerHasShape(m: string, r: Rule)
    requires r in IssuerRules(m)
    ensures OperatorShape(r.path)
  {
  }

  lemma KeyHasShape(m: string, r: Rule)
    requires r in KeyRules(m)
    ensures OperatorShape(r.path)
  {
  }

  lemma CertHasShape(m: string, r: Rule)
    requires r in CertRules(m)
    ensures OperatorShape(r.path)
  {
  }

  lemma ConfigHasShape(m: string, r: Rule)
    requires r in ConfigRules(m)
    ensures OperatorShape(r.path)
  {
  }

  lemma OwnedHasShape(m: string, w: Path)
    requires ConfigAllowed("pki", w)
    ensures OperatorShape([m] + w)
  {
    assert ([m] + w)[1] == w[0] && ([m] + w)[2] == w[1];
  }

  lemma MatchedSegments(r: Path, d: Path)
    requires r != [] && d != [] && !EndsInStar(r[|r| - 1])
    ensures Matches(r, d) ==> |r| == |d| && forall i | 0 <= i < |r| :: SegmentMatches(r[i], d[i])
  {
  }

  lemma ShapesKeepApart(r: Path, d: Path)
    requires OperatorShape(r) && DeniedShape(d)
    ensures r != [] && d != [] && !Matches(r, d)
  {
    MatchedSegments(r, d);
  }

  ghost predicate ConfigIsAllowed(m: Mount) {
    forall w | w in m.config :: ConfigAllowed(m.engine, w.path)
  }

  /** No operator of a pki mount reaches a denied endpoint: whatever the mount is called, whatever
      its allowed config declares, and whatever text stands for the probe segment, no rule of the
      operator policy matches any denied path, and no path has two rules. */
  lemma OperatorsAreFenced(m: Mount, x: string)
    requires ConfigIsAllowed(m)
    ensures DistinctPaths(OperatorRulesOf(m))
    ensures forall r, d | r in OperatorRulesOf(m) && d in DeniedPaths(m.path, x) :: r.path != [] && d != [] && !Matches(r.path, d)
  {
    hide BaseRules;
    hide DeniedPaths;
    hide OperatorShape;
    hide DeniedShape;
    hide Matches;
    hide Narrow;
    var owned := OwnedPaths(m);
    if m.engine == "pki" {
      NarrowFacts(BaseRules(m.path), owned);
      BaseIsDistinct(m.path);
      forall r, d | r in OperatorRulesOf(m) && d in DeniedPaths(m.path, x)
        ensures r.path != [] && d != [] && !Matches(r.path, d)
      {
        if r.path in owned {
          var i :| 0 <= i < |owned| && owned[i] == r.path;
          assert m.config[i] in m.config;
          OwnedHasShape(m.path, m.config[i].path);
        } else {
          OperatorHasShape(m.path, r);
        }
        DeniedHasShape(m.path, x, d);
        ShapesKeepApart(r.path, d);
      }
    }
  }

  /** What a token with these rules may do at a path: a rule spelled exactly so outranks every
      rule with a wildcard. */
  ghost predicate MayDo(rules: seq<Rule>, path: Path, capability: string)
    requires path != [] && forall r | r in rules :: r.path != []
  {
    if exists r | r in rules :: r.path == path then exists r | r in rules && r.path == path :: capability in r.capabilities
    else exists r | r in rules && Matches(r.path, path) :: capability in r.capabilities
  }

  /** On every path the mount's own config writes, an operator may read and nothing else, although
      `roles/+` alone would let them create, update and delete it. */
  lemma OwnedIsReadOnly(m: Mount, path: Path, capability: string)
    requires m.engine == "pki" && ConfigIsAllowed(m) && path in OwnedPaths(m)
    ensures forall r | r in OperatorRulesOf(m) :: r.path != []
    ensures path != [] && (MayDo(OperatorRulesOf(m), path, capability) <==> capability == "read")
  {
    var rules := OperatorRulesOf(m);
    NarrowFacts(BaseRules(m.path), OwnedPaths(m));
    hide BaseRules;
    forall r | r in rules
      ensures r.path != []
    {
      if r.path !in OwnedPaths(m) {
        OperatorHasShape(m.path, r);
      }
    }
    assert Rule(path, ["read"]) in rules && Rule(path, ["read"]).path == path;
    assert forall r | r in rules && r.path == path :: r.capabilities == ["read"];
    assert "read" in Rule(path, ["read"]).capabilities;
  }

  // ── what an operator may do ──

  predicate ConfigEnd(q: Path) {
    |q| == 2 && q[0] == "config" && q[1] in ["crl", "auto-tidy", "urls", "cluster", "issuers", "keys"]
  }

  predicate Below(q: Path, collection: string) {
    |q| == 2 && q[0] == collection
  }

  predicate Is(q: Path, a: string) {
    |q| == 1 && q[0] == a
  }

  /** Stage an intermediate whose key stays inside, and take it in signed. */
  predicate Staging(q: Path) {
    || (|q| == 3 && q[0] == "intermediate" && q[1] == "generate" && q[2] == "internal")
    || (|q| == 2 && q[0] == "intermediate" && q[1] == "set-signed")
  }

  /** The intermediate's lifecycle and day-2 administration, capability by capability, for a path
      below the mount: nothing is deleted but a role, and nothing but roles and configuration can
      be both read and rewritten, an issuer's and a key's settings apart. */
  predicate Administration(q: Path, cap: string) {
    if cap == "list" then Is(q, "issuers") || Is(q, "keys") || Is(q, "roles") || Is(q, "certs")
    else if cap == "delete" then Below(q, "roles")
    else if cap == "create" then Below(q, "roles") || ConfigEnd(q) || Staging(q) || Is(q, "revoke") || Is(q, "tidy")
    else if cap == "update" then
      Below(q, "roles") || Below(q, "issuer") || Below(q, "key") || ConfigEnd(q) || Staging(q) || Is(q, "revoke") || Is(q, "tidy")
    else if cap == "read" then
      Below(q, "roles") || Below(q, "issuer") || Below(q, "key") || Below(q, "cert") || ConfigEnd(q)
      || Is(q, "tidy-status") || (|q| == 2 && q[0] == "crl" && q[1] == "rotate")
    else false
  }

  /** A rule without a trailing star, as its segments below the mount. */
  lemma RuleMatches(m: string, r: Path, q: Path)
    requires |r| > 1 && r[0] == m && q != [] && !EndsInStar(r[|r| - 1])
    ensures Matches(r, [m] + q) <==> |r| == |q| + 1 && forall i | 0 <= i < |q| :: SegmentMatches(r[i + 1], q[i])
  {
    var p := [m] + q;
    assert forall i | 0 <= i < |q| :: p[i + 1] == q[i];
    if |r| == |q| + 1 && forall i | 0 <= i < |q| :: SegmentMatches(r[i + 1], q[i]) {
      forall i | 0 <= i < |r| ensures SegmentMatches(r[i], p[i]) {
        if i > 0 {
          assert SegmentMatches(r[i - 1 + 1], q[i - 1]);
        }
      }
    }
    if Matches(r, p) {
      forall i | 0 <= i < |q| ensures SegmentMatches(r[i + 1], q[i]) {
        assert SegmentMatches(r[i + 1], p[i + 1]);
      }
    }
  }

  lemma IssuerAdministers(m: string, r: Rule, q: Path)
    requires r in IssuerRules(m) && q != [] && Matches(r.path, [m] + q)
    ensures Which([m] + q) == Which(r.path) && forall cap | cap in r.capabilities :: Administration(q, cap)
  {
    RuleMatches(m, r.path, q);
  }

  lemma KeyAdministers(m: string, r: Rule, q: Path)
    requires r in KeyRules(m) && q != [] && Matches(r.path, [m] + q)
    ensures Which([m] + q) == Which(r.path) && forall cap | cap in r.capabilities :: Administration(q, cap)
  {
    RuleMatches(m, r.path, q);
  }

  lemma CertAdministers(m: string, r: Rule, q: Path)
    requires r in CertRules(m) && q != [] && Matches(r.path, [m] + q)
    ensures Which([m] + q) == Which(r.path) && forall cap | cap in r.capabilities :: Administration(q, cap)
  {
    RuleMatches(m, r.path, q);
  }

  lemma ConfigAdministers(m: string, r: Rule, q: Path)
    requires r in ConfigRules(m) && q != [] && Matches(r.path, [m] + q)
    ensures Which([m] + q) == Which(r.path) && forall cap | cap in r.capabilities :: Administration(q, cap)
  {
    RuleMatches(m, r.path, q);
  }

  lemma BaseAdministers(m: string, r: Rule, q: Path)
    requires r in BaseRules(m) && q != [] && Matches(r.path, [m] + q)
    ensures Which([m] + q) == Which(r.path) && forall cap | cap in r.capabilities :: Administration(q, cap)
  {
    hide Administration;
    hide Matches;
    hide Which;
    if r in IssuerRules(m) {
      IssuerAdministers(m, r, q);
    } else if r in KeyRules(m) {
      KeyAdministers(m, r, q);
    } else if r in CertRules(m) {
      CertAdministers(m, r, q);
    } else {
      ConfigAdministers(m, r, q);
    }
  }

  lemma IssuerRuleFor(m: string, q: Path, cap: string)
    requires q != [] && Administration(q, cap) && 0 <= Which([m] + q) < 4
    ensures var i := Which([m] + q);
            i < |IssuerRules(m)| && Matches(IssuerRules(m)[i].path, [m] + q) && cap in IssuerRules(m)[i].capabilities
  {
    assert ([m] + q)[1] == q[0] && (|q| > 1 ==> ([m] + q)[2] == q[1]);
    if Which([m] + q) < 2 {
      StagingRuleFor(m, q, cap);
    } else {
      RuleMatches(m, IssuerRules(m)[Which([m] + q)].path, q);
    }
  }

  lemma StagingRuleFor(m: string, q: Path, cap: string)
    requires q != [] && Administration(q, cap) && 0 <= Which([m] + q) < 2
    ensures var i := Which([m] + q);
            i < |IssuerRules(m)| && Matches(IssuerRules(m)[i].path, [m] + q) && cap in IssuerRules(m)[i].capabilities
  {
    assert ([m] + q)[1] == q[0] && (|q| > 1 ==> ([m] + q)[2] == q[1]);
    RuleMatches(m, IssuerRules(m)[Which([m] + q)].path, q);
  }

  lemma KeyRuleFor(m: string, q: Path, cap: string)
    requires q != [] && Administration(q, cap) && 4 <= Which([m] + q) < 8
    ensures var i := Which([m] + q) - 4;
            i < |KeyRules(m)| && Matches(KeyRules(m)[i].path, [m] + q) && cap in KeyRules(m)[i].capabilities
  {
    var i := Which([m] + q) - 4;
    assert ([m] + q)[1] == q[0] && (|q| > 1 ==> ([m] + q)[2] == q[1]);
    RuleMatches(m, KeyRules(m)[i].path, q);
  }

  lemma CertRuleFor(m: string, q: Path, cap: string)
    requires q != [] && Administration(q, cap) && 8 <= Which([m] + q) < 14
    ensures var i := Which([m] + q) - 8;
            i < |CertRules(m)| && Matches(CertRules(m)[i].path, [m] + q) && cap in CertRules(m)[i].capabilities
  {
    var i := Which([m] + q) - 8;
    assert ([m] + q)[1] == q[0] && (|q| > 1 ==> ([m] + q)[2] == q[1]);
    RuleMatches(m, CertRules(m)[i].path, q);
  }

  lemma ConfigRuleFor(m: string, q: Path, cap: string)
    requires q != [] && Administration(q, cap) && 14 <= Which([m] + q) < 20
    ensures var i := Which([m] + q) - 14;
            i < |ConfigRules(m)| && Matches(ConfigRules(m)[i].path, [m] + q) && cap in ConfigRules(m)[i].capabilities
  {
    var i := Which([m] + q) - 14;
    assert ([m] + q)[1] == q[0] && (|q| > 1 ==> ([m] + q)[2] == q[1]);
    RuleMatches(m, ConfigRules(m)[i].path, q);
  }

  lemma AdministeredIsListed(m: string, q: Path, cap: string)
    requires q != [] && Administration(q, cap)
    ensures 0 <= Which([m] + q) < 20
  {
    assert ([m] + q)[1] == q[0] && (|q| > 1 ==> ([m] + q)[2] == q[1]);
  }

  /** The rule for a path that is administered. */
  lemma RuleFor(m: string, q: Path, cap: string) returns (r: Rule)
    requires q != [] && Administration(q, cap)
    ensures r in BaseRules(m) && Matches(r.path, [m] + q) && cap in r.capabilities
  {
    hide Administration;
    hide Matches;
    hide Which;
    hide IssuerRules;
    hide KeyRules;
    hide CertRules;
    hide ConfigRules;
    AdministeredIsListed(m, q, cap);
    var i := Which([m] + q);
    if i < 4 {
      IssuerRuleFor(m, q, cap);
      r := IssuerRules(m)[i];
    } else if i < 8 {
      KeyRuleFor(m, q, cap);
      r := KeyRules(m)[i - 4];
    } else if i < 14 {
      CertRuleFor(m, q, cap);
      r := CertRules(m)[i - 8];
    } else {
      ConfigRuleFor(m, q, cap);
      r := ConfigRules(m)[i - 14];
    }
  }

  lemma OnePlace(m: string, r: Rule, s: Rule)
    requires r in BaseRules(m) && s in BaseRules(m) && Which(r.path) == Which(s.path)
    ensures r == s
  {
    BasePlaces(m);
    hide Which;
    hide BaseRules;
  }

  /** A spec-owned path has no wildcard, so it matches itself alone. */
  lemma OwnedMatchesItself(m: string, w: Path, q: Path)
    requires ConfigAllowed("pki", w) && q != []
    ensures Matches([m] + w, [m] + q) ==> q == w
  {
    var r := [m] + w;
    assert r[2] == w[1] && r[1] == w[0] && !EndsInStar(w[1]);
    RuleMatches(m, r, q);
    if Matches(r, [m] + q) {
      assert SegmentMatches(r[1], q[0]) && SegmentMatches(r[2], q[1]);
    }
  }

  lemma NotOwned(m: Mount, path: Path, q: Path)
    requires ConfigIsAllowed(m) && m.engine == "pki" && q != [] && [m.path] + q !in OwnedPaths(m) && path in OwnedPaths(m)
    ensures path != [] && path != [m.path] + q && !Matches(path, [m.path] + q)
  {
    var i :| 0 <= i < |m.config| && path == [m.path] + m.config[i].path;
    assert m.config[i] in m.config && OwnedPaths(m)[i] == path;
    OwnedMatchesItself(m.path, m.config[i].path, q);
  }

  lemma BaseMatchesItself(m: string, r: Rule)
    requires r in BaseRules(m)
    ensures r.path != [] && Matches(r.path, r.path)
  {
    OperatorHasShape(m, r);
  }

  /** On every other path of the mount an operator may do exactly what administers it: each
      operation of the list, on each path it names, and nothing else. */
  lemma OperatorMayExactly(m: Mount, q: Path, cap: string)
    requires m.engine == "pki" && ConfigIsAllowed(m) && q != [] && [m.path] + q !in OwnedPaths(m)
    ensures forall r | r in OperatorRulesOf(m) :: r.path != []
    ensures MayDo(OperatorRulesOf(m), [m.path] + q, cap) <==> Administration(q, cap)
  {
    hide BaseRules;
    hide OwnedPaths;
    hide ConfigIsAllowed;
    hide Matches;
    hide Administration;
    hide Which;
    var rules, p := OperatorRulesOf(m), [m.path] + q;
    NarrowFacts(BaseRules(m.path), OwnedPaths(m));
    hide Narrow;
    forall r | r in rules
      ensures r.path != [] && (r.path == p || Matches(r.path, p) ==> r in BaseRules(m.path) && Matches(r.path, p))
    {
      if r.path in OwnedPaths(m) {
        NotOwned(m, r.path, q);
      } else {
        BaseMatchesItself(m.path, r);
      }
    }
    forall r | r in rules && Matches(r.path, p)
      ensures Which(p) == Which(r.path) && forall c | c in r.capabilities :: Administration(q, c)
    {
      BaseAdministers(m.path, r, q);
    }
    if Administration(q, cap) {
      var r := RuleFor(m.path, q, cap);
      if r.path in OwnedPaths(m) {
        NotOwned(m, r.path, q);
      }
      forall s | s in rules && Matches(s.path, p) ensures s == r {
        OnePlace(m.path, s, r);
      }
    }
  }
}
