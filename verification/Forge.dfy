/** What a `gh` argv asks for: read, write, or placing credential material. */
module Forge {
  import opened Values
  import opened GhArgv
  import opened Text

  datatype ForgeAction = ForgeRead | ForgeMutate | ForgeCustody | ForgeUnclassified

  // ── what the items of an argv mean ──

  /** What the scanner keeps of the items it has passed. */
  datatype Seen = Seen(verb: string, params: bool, graphql: bool, endpoint: string)

  const UNSEEN := Seen("", false, false, "")

  predicate AddsParams(name: string) {
    name == "field" || name == "raw-field" || name == "input"
  }

  function ApplyFlag(s: Seen, name: string, value: string): Seen {
    if name == "method" then s.(verb := value)
    else if AddsParams(name) then s.(params := true)
    else s
  }

  function ApplyPositional(s: Seen, text: string): Seen {
    s.(graphql := s.graphql || text == "graphql", endpoint := if s.endpoint == "" then text else s.endpoint)
  }

  function ApplyPositionals(s: Seen, texts: seq<string>): Seen
    decreases |texts|
  {
    if texts == [] then s else ApplyPositionals(ApplyPositional(s, texts[0]), texts[1..])
  }

  function LetterName(tb: FlagTables, c: char): string {
    if c in tb.shorthand then tb.shorthand[c] else ""
  }

  function Effect(tb: FlagTables, s: Seen, item: Item): Seen {
    match item
    case LongBool(name) => ApplyFlag(s, name, "")
    case LongAttached(name, v) => ApplyFlag(s, name, v)
    case LongSpaced(name, v) => ApplyFlag(s, name, v)
    case Positional(text) => ApplyPositional(s, text)
    case DashDash(rest) => ApplyPositionals(s, rest)
    case Cluster(_, end) =>
      match end
      case Ends => s
      case BoolValue(_) => s
      case Joined(c, v) => ApplyFlag(s, LetterName(tb, c), v)
      case Equals(c, v) => ApplyFlag(s, LetterName(tb, c), v)
      case Spaced(c, v) => ApplyFlag(s, LetterName(tb, c), v)
  }

  function Effects(tb: FlagTables, s: Seen, items: seq<Item>): Seen
    decreases |items|
  {
    if items == [] then s else Effects(tb, Effect(tb, s, items[0]), items[1..])
  }

  /** Reading on from a point of the argv; None when some token cannot be read. */
  function ScanFrom(tb: FlagTables, args: seq<string>, s: Seen): Option<Seen> {
    match Parse(tb, args)
    case None => None
    case Some(items) => Some(Effects(tb, s, items))
  }

  function Upper(c: char): char {
    if 'a' <= c <= 'z' then ((c as int) - 32) as char
    else if c == '\U{017f}' then 'S'
    else if c == '\U{0131}' then 'I'
    else c
  }

  function ToUpper(s: string): string {
    seq(|s|, i requires 0 <= i < |s| => Upper(s[i]))
  }

  predicate Mutating(m: string) {
    m == "POST" || m == "PUT" || m == "PATCH" || m == "DELETE"
  }

  /** The verdict: graphql is never classified, an explicit method beats every inference, and
      parameters turn the default GET into a write. */
  function Decide(s: Seen): ForgeAction {
    if s.graphql then ForgeUnclassified
    else if s.verb != "" then
      var m := ToUpper(s.verb);
      if Mutating(m) then MutateOrCustody(s.endpoint)
      else if m == "GET" || m == "HEAD" then ForgeRead
      else ForgeUnclassified
    else if s.params then MutateOrCustody(s.endpoint)
    else ForgeRead
  }

  /** The class of an argv, by the grammar. */
  function ClassOf(tb: FlagTables, args: seq<string>): ForgeAction {
    match ScanFrom(tb, args, UNSEEN)
    case None => ForgeUnclassified
    case Some(s) => Decide(s)
  }

  // ── the scanner ──

  /** What is left to read when a cluster has been read this far. */
  function ClusterThen(tb: FlagTables, r: Option<(Item, seq<string>)>, s: Seen): Option<Seen> {
    match r
    case None => None
    case Some(p) => ScanFrom(tb, p.1, Effect(tb, s, p.0))
  }

  /** What one letter of a cluster leaves to read. */
  function LetterLeaves(tb: FlagTables, cluster: string, bools: string, rest: seq<string>, s: Seen): Option<Seen>
    requires cluster != ""
  {
    var c, more := cluster[0], cluster[1..];
    if Letter(tb, c, false) then
      if more == "" || EqualsSomething(more) then ScanFrom(tb, rest, s)
      else ClusterThen(tb, ParseCluster(tb, more, bools + [c], rest), s)
    else if !Letter(tb, c, true) then None
    else
      var name := tb.shorthand[c];
      if EqualsSomething(more) then ScanFrom(tb, rest, ApplyFlag(s, name, more[1..]))
      else if more != "" then ScanFrom(tb, rest, ApplyFlag(s, name, more))
      else if rest != [] then ScanFrom(tb, rest[1..], ApplyFlag(s, name, rest[0]))
      else None
  }

  /** One letter: what is left of its cluster, the state after it, and the argument it ends in. */
  method ScanLetter(tb: FlagTables, cluster: string, ghost bools: string, rest: seq<string>, at: nat, s: Seen)
    returns (ok: bool, more: string, next: Seen, last: nat)
    requires cluster != "" && at < |rest|
    ensures at <= last < |rest| && |more| < |cluster|
    ensures !ok ==> LetterLeaves(tb, cluster, bools, rest[at + 1..], s).None?
    ensures ok ==> LetterLeaves(tb, cluster, bools, rest[at + 1..], s) ==
                   if more == "" then ScanFrom(tb, rest[last + 1..], next)
                   else ClusterThen(tb, ParseCluster(tb, more, bools + [cluster[0]], rest[last + 1..]), next)
  {
    hide ScanFrom;
    hide ClusterThen;
    hide ParseCluster;
    var c := cluster[0];
    more, next, last := cluster[1..], s, at;
    if c !in tb.shorthand || tb.shorthand[c] !in tb.takesValue {
      return false, more, s, at;
    }
    var name := tb.shorthand[c];
    if !tb.takesValue[name] {
      return true, if EqualsSomething(more) then "" else more, s, at;
    }
    var val;
    if EqualsSomething(more) {
      val := more[1..];
    } else if more != "" {
      val := more;
    } else if at + 1 < |rest| {
      last := at + 1;
      val := rest[last];
      assert rest[at + 1..][1..] == rest[last + 1..];
    } else {
      return false, more, s, at;
    }
    return true, "", ApplyFlag(s, name, val), last;
  }

  /** One cluster of short flags: the inner loop. It answers the state after the cluster and how
      many arguments it used, or that the argv cannot be read. */
  method ScanCluster(tb: FlagTables, rest: seq<string>, i: nat, s: Seen) returns (ok: bool, next: Seen, used: nat)
    requires i < |rest| && IsCluster(rest[i])
    ensures ok ==> i < used <= |rest| && ScanFrom(tb, rest[i..], s) == ScanFrom(tb, rest[used..], next)
    ensures !ok ==> ScanFrom(tb, rest[i..], s).None?
  {
    assert rest[i..][1..] == rest[i + 1..];
    hide ScanFrom;
    hide ClusterThen;
    hide ParseCluster;
    hide LetterLeaves;
    var cluster, at := rest[i][1..], i;
    ghost var bools := "";
    ok, next := true, s;
    while cluster != ""
      invariant i <= at < |rest|
      invariant ScanFrom(tb, rest[i..], s) ==
                if cluster == "" then ScanFrom(tb, rest[at + 1..], next)
                else ClusterThen(tb, ParseCluster(tb, cluster, bools, rest[at + 1..]), next)
      decreases |cluster|
    {
      ghost var c := cluster[0];
      ok, cluster, next, at := ScanLetter(tb, cluster, bools, rest, at, next);
      if !ok {
        return false, next, at + 1;
      }
      bools := bools + [c];
    }
    return true, next, at + 1;
  }

  /** classifyAPIMethod. */
  method ClassifyAPIMethod(tb: FlagTables, rest: seq<string>) returns (action: ForgeAction)
    ensures action == ClassOf(tb, rest)
  {
    var s, i := UNSEEN, 0;
    assert rest[0..] == rest;
    while i < |rest|
      invariant i <= |rest| && ScanFrom(tb, rest, UNSEEN) == ScanFrom(tb, rest[i..], s)
    {
      var a := rest[i];
      assert rest[i..][1..] == rest[i + 1..];
      if a == "--" {
        s := ScanPositionals(s, rest[i + 1..]);
        i := |rest|;
        assert ScanFrom(tb, [], s) == Some(s);
      } else if IsLong(a) {
        var ok, next, used := ScanLong(tb, rest, i, s);
        if !ok {
          return ForgeUnclassified;
        }
        s, i := next, used;
      } else if IsCluster(a) {
        var ok, next, used := ScanCluster(tb, rest, i, s);
        if !ok {
          return ForgeUnclassified;
        }
        s, i := next, used;
      } else {
        s := ApplyPositional(s, a);
        i := i + 1;
      }
    }
    assert ScanFrom(tb, [], s) == Some(s);
    action := Decide(s);
  }

  method ScanPositionals(s: Seen, texts: seq<string>) returns (next: Seen)
    ensures next == ApplyPositionals(s, texts)
  {
    next := s;
    for k := 0 to |texts|
      invariant ApplyPositionals(s, texts) == ApplyPositionals(next, texts[k..])
    {
      next := ApplyPositional(next, texts[k]);
    }
  }

  method ScanLong(tb: FlagTables, rest: seq<string>, i: nat, s: Seen) returns (ok: bool, next: Seen, used: nat)
    requires i < |rest| && IsLong(rest[i])
    ensures ok ==> i < used <= |rest| && ScanFrom(tb, rest[i..], s) == ScanFrom(tb, rest[used..], next)
    ensures !ok ==> ScanFrom(tb, rest[i..], s).None?
  {
    assert rest[i..][1..] == rest[i + 1..];
    hide ScanFrom;
    var body := rest[i][2..];
    var cut := IndexOfEquals(body);
    var name := body[..cut];
    if name !in tb.takesValue {
      return false, s, i + 1;
    }
    if cut < |body| {
      return true, ApplyFlag(s, name, body[cut + 1..]), i + 1;
    }
    if !tb.takesValue[name] {
      return true, ApplyFlag(s, name, ""), i + 1;
    }
    if i + 1 >= |rest| {
      return false, s, i + 1;
    }
    assert rest[i + 1..][1..] == rest[i + 2..];
    return true, ApplyFlag(s, name, rest[i + 1]), i + 2;
  }

  // ── secret endpoints ──

  predicate Family(seg: string) {
    seg == "actions" || seg == "codespaces" || seg == "dependabot"
  }

  /** Position i of an API path names GitHub-held secrets. */
  predicate SecretsAt(segs: seq<string>, i: nat)
    requires i < |segs|
  {
    segs[i] == "secrets" && i > 0 && (Family(segs[i - 1]) || (i > 1 && segs[i - 2] == "environments"))
  }

  /** The Contents API: past its fourth segment the path is a file in the repository. */
  predicate IsContents(segs: seq<string>) {
    |segs| > 3 && segs[0] == "repos" && segs[3] == "contents"
  }

  predicate SecretPath(segs: seq<string>) {
    exists i | 0 <= i < |segs| :: SecretsAt(segs, i) && (IsContents(segs) ==> i < 3)
  }

  /** The loop of forgeSecretEndpoint over the segments. */
  method IsSecretPath(segs: seq<string>) returns (yes: bool)
    ensures yes == SecretPath(segs)
  {
    for i := 0 to |segs|
      invariant forall j | 0 <= j < i :: !SecretsAt(segs, j)
      invariant IsContents(segs) ==> i <= 3
    {
      if segs[i] == "contents" && i == 3 && segs[0] == "repos" {
        return false;
      }
      if SecretsAt(segs, i) {
        return true;
      }
    }
    yes := false;
  }

  /** The text up to the first `?` or `#`. */
  function BeforeQuery(s: string): string {
    if s == "" || s[0] == '?' || s[0] == '#' then "" else [s[0]] + BeforeQuery(s[1..])
  }

  /** Where `://` begins, or the length. */
  function SchemeEnd(s: string): (i: nat)
    ensures i <= |s| && (i < |s| ==> i + 3 <= |s|)
  {
    if |s| < 3 then |s| else if s[..3] == "://" then 0 else 1 + SchemeEnd(s[1..])
  }

  function FromSlash(s: string): string {
    if s == "" || s[0] == '/' then s else FromSlash(s[1..])
  }

  function PathPart(endpoint: string): string {
    var p := BeforeQuery(Trim(endpoint, Space));
    var i := SchemeEnd(p);
    if i < |p| then FromSlash(p[i + 3..]) else p
  }

  function DropPrefix(s: string, prefix: string): string {
    if prefix <= s then s[|prefix|..] else s
  }

  function Slash(c: char): bool {
    c == '/'
  }

  function EndpointSegments(endpoint: string): seq<string> {
    Split(Trim(DropPrefix(Trim(PathPart(endpoint), Slash), "api/v3/"), Slash), '/')
  }

  predicate NoQuery(s: string) {
    Without(s, '?') && Without(s, '#')
  }

  /** Text that keeps its ends when spaces are trimmed. */
  predicate Tight(s: string) {
    s != "" && !Space(s[0]) && !Space(s[|s| - 1])
  }

  lemma TightStays(s: string)
    requires Tight(s)
    ensures Trim(s, Space) == s
  {
  }

  /** A query is cut off wherever it starts, and one more behind it changes nothing. */
  lemma {:induction false} BeforeQueryOf(s: string, q: string)
    ensures NoQuery(s) ==> BeforeQuery(s) == s
    ensures BeforeQuery(s + ("?" + q)) == BeforeQuery(s)
    decreases |s|
  {
    if s != "" {
      BeforeQueryOf(s[1..], q);
      assert (s + ("?" + q))[1..] == s[1..] + ("?" + q) && s == [s[0]] + s[1..];
    } else {
      assert s + ("?" + q) == "?" + q;
    }
  }

  lemma {:induction false} BeforeQueryBehind(front: string, s: string)
    requires NoQuery(front)
    ensures BeforeQuery(front + s) == front + BeforeQuery(s)
    decreases |front|
  {
    if front == "" {
      assert front + s == s;
    } else {
      assert (front + s)[1..] == front[1..] + s && front == [front[0]] + front[1..];
      BeforeQueryBehind(front[1..], s);
    }
  }

  lemma {:induction false} SchemeEndOf(scheme: string, rest: string)
    requires Without(scheme, ':')
    ensures SchemeEnd(scheme + ("://" + rest)) == |scheme|
    decreases |scheme|
  {
    var s := scheme + ("://" + rest);
    if scheme == "" {
      assert s[..3] == "://";
    } else {
      assert s[..3][0] == scheme[0] && s[1..] == scheme[1..] + ("://" + rest);
      SchemeEndOf(scheme[1..], rest);
    }
  }

  lemma {:induction false} FromSlashOf(host: string, p: string)
    requires Without(host, '/')
    ensures FromSlash(host + ("/" + p)) == "/" + p
    decreases |host|
  {
    if host == "" {
      assert host + ("/" + p) == "/" + p;
    } else {
      assert (host + ("/" + p))[1..] == host[1..] + ("/" + p);
      FromSlashOf(host[1..], p);
    }
  }

  lemma PathPartOf(text: string, body: string)
    requires Tight(text) && BeforeQuery(text) == body
    ensures var i := SchemeEnd(body); PathPart(text) == if i < |body| then FromSlash(body[i + 3..]) else body
  {
    hide Trim;
    hide BeforeQuery;
    hide FromSlash;
    hide SchemeEnd;
    hide Space;
    hide Tight;
    TightStays(text);
  }

  /** A full URL, with a query of its own or without, addresses the same endpoint as its path. */
  lemma UrlSpellingsAgree(scheme: string, host: string, p: string, q: string)
    requires Tight(p) && SchemeEnd(BeforeQuery(p)) == |BeforeQuery(p)|
    requires scheme != "" && !Space(scheme[0]) && NoQuery(scheme) && Without(scheme, ':')
    requires NoQuery(host) && Without(host, '/') && (q == "" || !Space(q[|q| - 1]))
    ensures var url := scheme + ("://" + (host + ("/" + p)));
            && EndpointSegments(url) == EndpointSegments(p)
            && EndpointSegments(url + ("?" + q)) == EndpointSegments(p)
  {
    hide Trim;
    hide Split;
    hide Tight;
    hide NoQuery;
    hide Without;
    hide BeforeQuery;
    hide SchemeEnd;
    hide FromSlash;
    hide PathPart;
    hide EndpointSegments;
    hide Space;
    var url, path := scheme + ("://" + (host + ("/" + p))), BeforeQuery(p);
    var bare := scheme + ("://" + (host + ("/" + path)));
    UrlBeforeQuery(scheme, host, p);
    UrlIsTight(scheme, host, p, q);
    BeforeQueryOf(url, q);
    PathPartOf(p, path);
    UrlPath(url, bare, scheme, host, path);
    UrlPath(url + ("?" + q), bare, scheme, host, path);
    SameEndpoint(url, p, path);
    SameEndpoint(url + ("?" + q), p, path);
  }

  lemma UrlPath(text: string, url: string, scheme: string, host: string, p: string)
    requires url == scheme + ("://" + (host + ("/" + p))) && Tight(text) && BeforeQuery(text) == url
    requires Without(scheme, ':') && Without(host, '/')
    ensures PathPart(text) == "/" + p
  {
    hide Tight;
    hide BeforeQuery;
    hide SchemeEnd;
    hide FromSlash;
    hide PathPart;
    hide Without;
    PathPartOf(text, url);
    SchemeEndOf(scheme, host + ("/" + p));
    AfterScheme(scheme, host + ("/" + p));
    FromSlashOf(host, p);
  }

  lemma SameEndpoint(text: string, p: string, path: string)
    requires PathPart(text) == "/" + path && PathPart(p) == path
    ensures EndpointSegments(text) == EndpointSegments(p)
  {
    hide Trim;
    hide Split;
    hide PathPart;
    LeadingSlash(path);
  }

  lemma UrlBeforeQuery(scheme: string, host: string, p: string)
    requires NoQuery(scheme) && NoQuery(host)
    ensures BeforeQuery(scheme + ("://" + (host + ("/" + p)))) == scheme + ("://" + (host + ("/" + BeforeQuery(p))))
  {
    hide BeforeQuery;
    BeforeQueryBehind("/", p);
    BeforeQueryBehind(host, "/" + p);
    BeforeQueryBehind("://", host + ("/" + p));
    BeforeQueryBehind(scheme, "://" + (host + ("/" + p)));
  }

  lemma AfterScheme(scheme: string, rest: string)
    ensures (scheme + ("://" + rest))[|scheme| + 3..] == rest && |scheme| < |scheme + ("://" + rest)|
  {
  }

  lemma UrlIsTight(scheme: string, host: string, p: string, q: string)
    requires Tight(p) && scheme != "" && !Space(scheme[0]) && (q == "" || !Space(q[|q| - 1]))
    ensures var url := scheme + ("://" + (host + ("/" + p))); Tight(url) && Tight(url + ("?" + q))
  {
    var tail := "://" + (host + ("/" + p));
    var query := "?" + q;
    assert tail[|tail| - 1] == p[|p| - 1] && query[|query| - 1] == if q == "" then '?' else q[|q| - 1];
  }

  lemma LeadingSlash(p: string)
    ensures Trim("/" + p, Slash) == Trim(p, Slash)
  {
    assert ("/" + p)[1..] == p;
  }

  function MutateOrCustody(endpoint: string): ForgeAction {
    if SecretPath(EndpointSegments(endpoint)) then ForgeCustody else ForgeMutate
  }

  // ── what the fold means ──

  /** The flag an item sets, with its value. */
  function FlagOf(tb: FlagTables, item: Item): Option<(string, string)> {
    match item
    case LongBool(name) => Some((name, ""))
    case LongAttached(name, v) => Some((name, v))
    case LongSpaced(name, v) => Some((name, v))
    case Positional(_) => None
    case DashDash(_) => None
    case Cluster(_, end) =>
      if end.Ends? || end.BoolValue? then None else Some((LetterName(tb, end.letter), end.value))
  }

  function Flags(tb: FlagTables, items: seq<Item>): seq<(string, string)> {
    if items == [] then []
    else
      var f := FlagOf(tb, items[0]);
      (if f.Some? then [f.value] else []) + Flags(tb, items[1..])
  }

  function Positionals(items: seq<Item>): seq<string> {
    if items == [] then []
    else
      (if items[0].Positional? then [items[0].text] else if items[0].DashDash? then items[0].rest else []) + Positionals(items[1..])
  }

  /** The value of the last flag with a name, or `default`. */
  function LastValueOf(flags: seq<(string, string)>, name: string, default: string): string
    decreases |flags|
  {
    if flags == [] then default
    else LastValueOf(flags[1..], name, if flags[0].0 == name then flags[0].1 else default)
  }

  predicate AnyParams(flags: seq<(string, string)>) {
    exists i | 0 <= i < |flags| :: AddsParams(flags[i].0)
  }

  function FirstNonEmpty(texts: seq<string>): string {
    if texts == [] then "" else if texts[0] != "" then texts[0] else FirstNonEmpty(texts[1..])
  }

  lemma {:induction false} PositionalsMean(s: Seen, texts: seq<string>)
    ensures ApplyPositionals(s, texts) ==
            s.(graphql := s.graphql || "graphql" in texts, endpoint := if s.endpoint == "" then FirstNonEmpty(texts) else s.endpoint)
    decreases |texts|
  {
    if texts != [] {
      PositionalsMean(ApplyPositional(s, texts[0]), texts[1..]);
    }
  }

  lemma FirstNonEmptyOf(a: seq<string>, b: seq<string>)
    ensures FirstNonEmpty(a + b) == if FirstNonEmpty(a) == "" then FirstNonEmpty(b) else FirstNonEmpty(a)
  {
    if a == [] {
      assert a + b == b;
    } else {
      assert (a + b)[1..] == a[1..] + b;
    }
  }

  /** The last method wins, any field makes parameters, and the endpoint is the first non-empty
      positional, wherever they stand among the other items. */
  lemma {:induction false} EffectsMean(tb: FlagTables, s: Seen, items: seq<Item>)
    ensures var flags, texts := Flags(tb, items), Positionals(items);
            Effects(tb, s, items) ==
            Seen(LastValueOf(flags, "method", s.verb), s.params || AnyParams(flags), s.graphql || "graphql" in texts,
                 if s.endpoint == "" then FirstNonEmpty(texts) else s.endpoint)
    decreases |items|
  {
    if items != [] {
      var item, rest := items[0], items[1..];
      EffectsMean(tb, Effect(tb, s, item), rest);
      OneEffect(tb, s, item, Flags(tb, rest), Positionals(rest));
      hide Effect;
      hide FlagOf;
      hide FirstNonEmpty;
      hide LastValueOf;
      hide AnyParams;
    }
  }

  lemma OneEffect(tb: FlagTables, s: Seen, item: Item, flags: seq<(string, string)>, texts: seq<string>)
    ensures var next, f := Effect(tb, s, item), FlagOf(tb, item);
            var allFlags := (if f.Some? then [f.value] else []) + flags;
            var allTexts := (if item.Positional? then [item.text] else if item.DashDash? then item.rest else []) + texts;
            && LastValueOf(allFlags, "method", s.verb) == LastValueOf(flags, "method", next.verb)
            && (s.params || AnyParams(allFlags) <==> next.params || AnyParams(flags))
            && (s.graphql || "graphql" in allTexts <==> next.graphql || "graphql" in texts)
            && (if s.endpoint == "" then FirstNonEmpty(allTexts) else s.endpoint)
               == (if next.endpoint == "" then FirstNonEmpty(texts) else next.endpoint)
  {
    var f := FlagOf(tb, item);
    if f.Some? {
      OneFlag(s, f.value.0, f.value.1, flags);
      assert [] + texts == texts;
      hide Effect;
      hide FirstNonEmpty;
      hide AnyParams;
    } else {
      assert [] + flags == flags;
      hide AnyParams;
      var front := if item.Positional? then [item.text] else if item.DashDash? then item.rest else [];
      FirstNonEmptyOf(front, texts);
      if item.DashDash? {
        PositionalsMean(s, item.rest);
      } else if item.Positional? {
        assert front[1..] == [];
      } else {
        assert [] + texts == texts;
      }
    }
  }

  lemma OneFlag(s: Seen, name: string, value: string, flags: seq<(string, string)>)
    ensures var next := ApplyFlag(s, name, value);
            && LastValueOf([(name, value)] + flags, "method", s.verb) == LastValueOf(flags, "method", next.verb)
            && (s.params || AnyParams([(name, value)] + flags) <==> next.params || AnyParams(flags))
            && next.graphql == s.graphql && next.endpoint == s.endpoint
  {
    assert ([(name, value)] + flags)[1..] == flags;
    AnyParamsOf((name, value), flags);
    hide AnyParams;
  }

  lemma AnyParamsOf(f: (string, string), flags: seq<(string, string)>)
    ensures AnyParams([f] + flags) <==> AddsParams(f.0) || AnyParams(flags)
  {
    var all := [f] + flags;
    if AddsParams(f.0) {
      assert AddsParams(all[0].0);
    }
    if AnyParams(flags) {
      var i :| 0 <= i < |flags| && AddsParams(flags[i].0);
      assert AddsParams(all[i + 1].0);
    }
  }

  // ── respelling ──

  lemma {:induction false} EffectsSplit(tb: FlagTables, s: Seen, a: seq<Item>, b: seq<Item>)
    ensures Effects(tb, s, a + b) == Effects(tb, Effects(tb, s, a), b)
    decreases |a|
  {
    if a == [] {
      assert a + b == b;
    } else {
      assert (a + b)[1..] == a[1..] + b;
      EffectsSplit(tb, Effect(tb, s, a[0]), a[1..], b);
    }
  }

  lemma ScanAfter(tb: FlagTables, items: seq<Item>, rest: seq<string>, s: Seen)
    requires Sane(tb) && WellFormed(tb, items) && forall i | 0 <= i < |items| :: !items[i].DashDash?
    ensures ScanFrom(tb, Render(items) + rest, s) == ScanFrom(tb, rest, Effects(tb, s, items))
  {
    ParseAfter(tb, items, rest);
    if Parse(tb, rest).Some? {
      EffectsSplit(tb, s, items, Parse(tb, rest).value);
    }
  }

  /** One of the ways to write a valued flag: `-Xv`, `-X=v`, `-X v`, alone or after boolean
      letters, `--method v`, `--method=v`. */
  predicate Spells(tb: FlagTables, item: Item, name: string, value: string) {
    Good(tb, item) && FlagOf(tb, item) == Some((name, value)) && !item.LongBool?
  }

  /** Respelling one flag never changes the class, whatever stands before and after it. */
  lemma RespellingKeepsClass(tb: FlagTables, before: seq<Item>, a: Item, b: Item, after: seq<string>, name: string, value: string)
    requires Sane(tb) && WellFormed(tb, before) && forall i | 0 <= i < |before| :: !before[i].DashDash?
    requires Spells(tb, a, name, value) && Spells(tb, b, name, value)
    ensures ClassOf(tb, Render(before) + RenderOne(a) + after) == ClassOf(tb, Render(before) + RenderOne(b) + after)
  {
    ScanOneMore(tb, before, a, after, name, value);
    ScanOneMore(tb, before, b, after, name, value);
  }

  lemma ScanOneMore(tb: FlagTables, before: seq<Item>, a: Item, after: seq<string>, name: string, value: string)
    requires Sane(tb) && WellFormed(tb, before) && forall i | 0 <= i < |before| :: !before[i].DashDash?
    requires Spells(tb, a, name, value)
    ensures ScanFrom(tb, Render(before) + RenderOne(a) + after, UNSEEN) ==
            ScanFrom(tb, after, ApplyFlag(Effects(tb, UNSEEN, before), name, value))
  {
    var all := before + [a];
    RenderSnoc(before, a);
    ScanAfter(tb, all, after, UNSEEN);
    EffectsSplit(tb, UNSEEN, before, [a]);
    var s := Effects(tb, UNSEEN, before);
    assert [a][1..] == [] && Effects(tb, s, [a]) == Effects(tb, Effect(tb, s, a), []);
  }

  /** Which spellings a value has: spaced and long ones always, the letter with '=' when it is not
      empty, the glued one when it is not '=' followed by something either. So all five exist
      exactly for the values of the last kind, "=" on its own among them. */
  lemma AllSpellings(tb: FlagTables, letter: char, bools: string, value: string)
    requires Letter(tb, letter, true) && (forall c | c in bools :: Letter(tb, c, false))
    requires var name := tb.shorthand[letter]; name != "" && '=' !in name
    ensures var name := tb.shorthand[letter];
            && (Spells(tb, Cluster(bools, Joined(letter, value)), name, value) <==> value != "" && !EqualsSomething(value))
            && (Spells(tb, Cluster(bools, Equals(letter, value)), name, value) <==> value != "")
            && Spells(tb, Cluster(bools, Spaced(letter, value)), name, value)
            && Spells(tb, LongSpaced(name, value), name, value)
            && Spells(tb, LongAttached(name, value), name, value)
  {
  }

  /** The bound on the value is needed: glued on, '=' followed by something is punctuation, and
      only a bare '=' is the value. */
  lemma LeadingEqualsIsDropped(tb: FlagTables, letter: char, value: string)
    requires Sane(tb) && Letter(tb, letter, true)
    ensures ParseOne(tb, ["-" + [letter] + "=" + value]) ==
            Some((Cluster("", if value == "" then Joined(letter, "=") else Equals(letter, value)), []))
  {
    var a := "-" + [letter] + "=" + value;
    assert a[1..] == [letter] + ("=" + value);
    assert ([letter] + ("=" + value))[1..] == "=" + value && ("=" + value)[1..] == value;
    var end := if value == "" then Joined(letter, "=") else Equals(letter, value);
    assert value == "" ==> "=" + value == "=";
    assert ParseCluster(tb, a[1..], "", []) == Some((Cluster("", end), []));
    var args := [a];
    var none: seq<string> := [];
    assert a[1] == letter && IsCluster(a) && args[1..] == none;
  }

  /** So the two spellings of one value part in class: `-X=DELETE` changes something, whatever the
      endpoint, and `--method =DELETE` is no method at all. */
  lemma LeadingEqualsChangesClass(tb: FlagTables, letter: char, value: string, endpoint: string)
    requires Sane(tb) && Letter(tb, letter, true) && tb.shorthand[letter] == "method" && Mutating(ToUpper(value))
    requires Good(tb, Positional(endpoint)) && endpoint != "graphql"
    ensures ClassOf(tb, ["-" + [letter] + "=" + value, endpoint]) == MutateOrCustody(endpoint)
    ensures ClassOf(tb, ["--method", "=" + value, endpoint]) == ForgeUnclassified
  {
    hide MutateOrCustody;
    hide ClassOf;
    hide RenderOne;
    hide Mutating;
    NoMethodAtAll(value);
    RenderBoth(letter, value, endpoint);
    FlagThenEndpoint(tb, Cluster("", Equals(letter, value)), "method", value, endpoint);
    FlagThenEndpoint(tb, LongSpaced("method", "=" + value), "method", "=" + value, endpoint);
  }

  lemma NoMethodAtAll(value: string)
    ensures var m := ToUpper("=" + value); !Mutating(m) && m != "GET" && m != "HEAD"
    ensures Mutating(ToUpper(value)) ==> value != ""
  {
    assert ToUpper("=" + value)[0] == '=';
  }

  lemma RenderBoth(letter: char, value: string, endpoint: string)
    ensures RenderOne(Cluster("", Equals(letter, value))) + [endpoint] == ["-" + [letter] + "=" + value, endpoint]
    ensures RenderOne(LongSpaced("method", "=" + value)) + [endpoint] == ["--method", "=" + value, endpoint]
  {
    assert "-" + "" + ([letter] + "=" + value) == "-" + [letter] + "=" + value && "--" + "method" == "--method";
  }

  lemma FlagThenEndpoint(tb: FlagTables, item: Item, name: string, value: string, endpoint: string)
    requires Sane(tb) && Spells(tb, item, name, value) && Good(tb, Positional(endpoint))
    ensures ClassOf(tb, RenderOne(item) + [endpoint]) == Decide(ApplyPositional(ApplyFlag(UNSEEN, name, value), endpoint))
  {
    hide Decide;
    var items := [item, Positional(endpoint)];
    ParseInvertsRender(tb, items);
    assert items[1..] == [Positional(endpoint)] && items[1..][1..] == [];
    assert Render([Positional(endpoint)]) == [endpoint] + Render([]) == [endpoint];
    assert Render(items) == RenderOne(item) + [endpoint];
    var s := Effect(tb, UNSEEN, item);
    assert [Positional(endpoint)][1..] == [] && Effects(tb, s, [Positional(endpoint)]) == ApplyPositional(s, endpoint);
    assert Effects(tb, UNSEEN, items) == Effects(tb, s, [Positional(endpoint)]);
  }

  /** A flag nobody knows, or one left without its value, makes the whole argv unreadable, wherever
      it stands. */
  lemma UnreadableAnywhere(tb: FlagTables, before: seq<Item>, after: seq<string>)
    requires Sane(tb) && WellFormed(tb, before) && forall i | 0 <= i < |before| :: !before[i].DashDash?
    requires after != [] && ParseOne(tb, after).None?
    ensures ClassOf(tb, Render(before) + after) == ForgeUnclassified
  {
    ScanAfter(tb, before, after, UNSEEN);
  }

  // ── gh's own tables ──

  const GH := FlagTables(
    map["method" := true, "field" := true, "raw-field" := true, "input" := true, "header" := true, "jq" := true,
        "template" := true, "preview" := true, "cache" := true, "hostname" := true,
        "include" := false, "paginate" := false, "silent" := false, "slurp" := false, "verbose" := false,
        "allow-escape-sequences" := false, "help" := false],
    map['X' := "method", 'F' := "field", 'f' := "raw-field", 'H' := "header", 'q' := "jq", 't' := "template",
        'p' := "preview", 'i' := "include"])

  // ── grants ──

  /** A `gh` command by name: the table lookups of ClassifyForge. */
  function NamedClass(key: string): ForgeAction {
    if key in {"secret set", "secret delete"} then ForgeCustody
    else if key in {"workflow run", "workflow enable", "workflow disable", "variable set", "variable delete", "repo create",
                    "repo delete", "repo edit", "run cancel", "run rerun", "release create", "release upload", "release delete"} then ForgeMutate
    else if key in {"auth token", "auth status", "release list", "release download", "release view", "secret list", "variable list",
                    "repo view", "run list", "run view", "workflow list", "workflow view"} then ForgeRead
    else ForgeUnclassified
  }

  function ClassifyForge(args: seq<string>): ForgeAction {
    if args == [] then ForgeUnclassified
    else if args[0] == "api" then ClassOf(GH, args[1..])
    else NamedClass(if |args| > 1 && !("-" <= args[1]) then args[0] + " " + args[1] else args[0])
  }

  datatype Grants = Grants(read: bool, mutate: bool, custody: bool)

  predicate Permits(g: Grants, args: seq<string>) {
    match ClassifyForge(args)
    case ForgeRead => g.read
    case ForgeMutate => g.mutate
    case ForgeCustody => g.custody && (args[0] == "api" ==> g.mutate)
    case ForgeUnclassified => false
  }

  /** An api argv that can be read: it is allowed exactly when the request it stands for is
      covered. Sending anything but a read takes the mutate grant, in every spelling, and when the
      endpoint holds secrets the custody grant as well. */
  lemma ApiPermitsExactly(g: Grants, items: seq<Item>)
    requires WellFormed(GH, items)
    ensures var flags, texts := Flags(GH, items), Positionals(items);
            var verb, secret := ToUpper(LastValueOf(flags, "method", "")), SecretPath(EndpointSegments(FirstNonEmpty(texts)));
            var writes := if verb == "" then AnyParams(flags) else Mutating(verb);
            var looks := if verb == "" then !AnyParams(flags) else verb == "GET" || verb == "HEAD";
            Permits(g, ["api"] + Render(items)) <==>
            "graphql" !in texts && ((writes && g.mutate && (secret ==> g.custody)) || (looks && g.read))
  {
    ParseInvertsRender(GH, items);
    EffectsMean(GH, UNSEEN, items);
    var args := ["api"] + Render(items);
    assert args[1..] == Render(items);
    hide Parse;
    hide Render;
    hide Flags;
    hide Positionals;
    hide SecretPath;
    hide EndpointSegments;
    hide Effects;
    hide WellFormed;
    hide LastValueOf;
    hide AnyParams;
    hide FirstNonEmpty;
    assert LastValueOf(Flags(GH, items), "method", "") == "" <==> ToUpper(LastValueOf(Flags(GH, items), "method", "")) == "";
  }
}
