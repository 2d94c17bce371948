/** gh's flags by name: which spellings of `gh api` write, which only read, and which endpoints
    hold secrets, on the texts a caller types. */
module ForgeSpellings {
  import opened Values
  import opened GhArgv
  import opened Text
  import opened Forge

  // ── one flag as it is typed ──

  /** A flag with a letter: `-Xv`, `-X=v`, `-X v`, `--method v`, `--method=v`. */
  predicate Typed(args: seq<string>, letter: char, name: string, v: string) {
    || (args == ["-" + [letter] + v] && v != "" && v[0] != '=')
    || (args == ["-" + [letter] + "=" + v] && v != "")
    || args == ["-" + [letter], v]
    || TypedLong(args, name, v)
  }

  predicate TypedLong(args: seq<string>, name: string, v: string) {
    args == ["--" + name, v] || args == ["--" + name + "=" + v]
  }

  predicate TypedMethod(args: seq<string>, v: string) {
    Typed(args, 'X', "method", v)
  }

  /** A parameter: `-f`, `-F`, `--raw-field`, `--field` or `--input`. */
  predicate TypedParam(args: seq<string>, v: string) {
    Typed(args, 'f', "raw-field", v) || Typed(args, 'F', "field", v) || TypedLong(args, "input", v)
  }

  /** A flag that says nothing about the method. */
  predicate TypedOther(args: seq<string>, v: string) {
    || Typed(args, 'H', "header", v) || Typed(args, 'q', "jq", v)
    || Typed(args, 't', "template", v) || Typed(args, 'p', "preview", v)
    || TypedLong(args, "cache", v) || TypedLong(args, "hostname", v)
    || args == ["-i"] || TypedBool(args)
  }

  predicate TypedBool(args: seq<string>) {
    exists name | name in ["include", "paginate", "silent", "slurp", "verbose", "allow-escape-sequences", "help"] :: args == ["--" + name]
  }

  /** An item that is typed as these arguments and sets a flag of this name to this value. */
  predicate Stands(item: Item, args: seq<string>, name: string, v: string) {
    Good(GH, item) && !item.DashDash? && !item.Positional? && RenderOne(item) == args && FlagOf(GH, item) == Some((name, v))
  }

  lemma Lettered(args: seq<string>, letter: char, name: string, v: string) returns (item: Item)
    requires letter in GH.shorthand && GH.shorthand[letter] == name
    requires name in GH.takesValue && GH.takesValue[name] && name != "" && '=' !in name
    requires Typed(args, letter, name, v)
    ensures Stands(item, args, name, v)
  {
    if args == ["-" + [letter] + v] && v != "" && v[0] != '=' {
      item := Cluster("", Joined(letter, v));
      assert "-" + "" + ([letter] + v) == "-" + [letter] + v;
      assert ["-" + [letter] + v] + [] == ["-" + [letter] + v];
    } else if args == ["-" + [letter] + "=" + v] && v != "" {
      item := Cluster("", Equals(letter, v));
      assert "-" + "" + ([letter] + "=" + v) == "-" + [letter] + "=" + v;
    } else if args == ["-" + [letter], v] {
      item := Cluster("", Spaced(letter, v));
      assert "-" + "" + [letter] == "-" + [letter];
    } else {
      item := Long(args, name, v);
    }
  }

  lemma Long(args: seq<string>, name: string, v: string) returns (item: Item)
    requires name in GH.takesValue && GH.takesValue[name] && name != "" && '=' !in name
    requires TypedLong(args, name, v)
    ensures Stands(item, args, name, v)
  {
    item := if args == ["--" + name, v] then LongSpaced(name, v) else LongAttached(name, v);
  }

  lemma MethodItem(args: seq<string>, v: string) returns (item: Item)
    requires TypedMethod(args, v)
    ensures Stands(item, args, "method", v)
  {
    item := Lettered(args, 'X', "method", v);
  }

  lemma ParamItem(args: seq<string>, v: string) returns (item: Item, name: string)
    requires TypedParam(args, v)
    ensures Stands(item, args, name, v) && name != "method" && AddsParams(name)
  {
    if Typed(args, 'f', "raw-field", v) {
      name := "raw-field";
      item := Lettered(args, 'f', name, v);
    } else if Typed(args, 'F', "field", v) {
      name := "field";
      item := Lettered(args, 'F', name, v);
    } else {
      name := "input";
      item := Long(args, name, v);
    }
  }

  /** An item that says nothing about the request: no method, no parameter, no positional. */
  predicate Silent(item: Item) {
    && Good(GH, item) && !item.DashDash? && !item.Positional?
    && (FlagOf(GH, item).Some? ==> FlagOf(GH, item).value.0 != "method" && !AddsParams(FlagOf(GH, item).value.0))
  }

  lemma OtherItem(args: seq<string>, v: string) returns (item: Item)
    requires TypedOther(args, v)
    ensures Silent(item) && RenderOne(item) == args
  {
    hide Good;
    hide FlagOf;
    hide RenderOne;
    hide Typed;
    hide TypedLong;
    if Typed(args, 'H', "header", v) {
      item := Lettered(args, 'H', "header", v);
    } else if Typed(args, 'q', "jq", v) {
      item := Lettered(args, 'q', "jq", v);
    } else if Typed(args, 't', "template", v) {
      item := Lettered(args, 't', "template", v);
    } else if Typed(args, 'p', "preview", v) {
      item := Lettered(args, 'p', "preview", v);
    } else if TypedLong(args, "cache", v) {
      item := Long(args, "cache", v);
    } else if TypedLong(args, "hostname", v) {
      item := Long(args, "hostname", v);
    } else {
      item := BoolItem(args);
    }
  }

  lemma Switch(name: string)
    requires name in ["include", "paginate", "silent", "slurp", "verbose", "allow-escape-sequences", "help"]
    ensures name in GH.takesValue && !GH.takesValue[name] && name != "" && '=' !in name && name != "method" && !AddsParams(name)
  {
  }

  lemma BoolItem(args: seq<string>) returns (item: Item)
    requires args == ["-i"] || TypedBool(args)
    ensures Silent(item) && RenderOne(item) == args
  {
    if args == ["-i"] {
      item := Cluster("i", Ends);
      assert "-" + "i" + "" == "-i";
    } else {
      var name :| name in ["include", "paginate", "silent", "slurp", "verbose", "allow-escape-sequences", "help"] && args == ["--" + name];
      Switch(name);
      item := LongBool(name);
    }
  }

  // ── one flag among any others ──

  /** Well-formed items without a closing `--`. */
  predicate Plain(items: seq<Item>) {
    WellFormed(GH, items) && forall i | 0 <= i < |items| :: !items[i].DashDash?
  }

  lemma {:induction false} FlagsConcat(a: seq<Item>, b: seq<Item>)
    ensures Flags(GH, a + b) == Flags(GH, a) + Flags(GH, b)
    ensures Positionals(a + b) == Positionals(a) + Positionals(b)
    decreases |a|
  {
    if a == [] {
      assert a + b == b;
    } else {
      assert (a + b)[1..] == a[1..] + b;
      FlagsConcat(a[1..], b);
    }
  }

  lemma {:induction false} LastValueConcat(a: seq<(string, string)>, b: seq<(string, string)>, name: string, default: string)
    ensures LastValueOf(a + b, name, default) == LastValueOf(b, name, LastValueOf(a, name, default))
    decreases |a|
  {
    if a == [] {
      assert a + b == b;
    } else {
      assert (a + b)[1..] == a[1..] + b;
      LastValueConcat(a[1..], b, name, if a[0].0 == name then a[0].1 else default);
    }
  }

  lemma {:induction false} RenderConcat(a: seq<Item>, b: seq<Item>)
    ensures Render(a + b) == Render(a) + Render(b)
    decreases |a|
  {
    if a == [] {
      assert a + b == b;
    } else {
      assert (a + b)[1..] == a[1..] + b;
      RenderConcat(a[1..], b);
    }
  }

  /** What the items of an argv say: method, parameters, positionals. */
  function Method(items: seq<Item>): string {
    LastValueOf(Flags(GH, items), "method", "")
  }

  predicate HasParams(items: seq<Item>) {
    AnyParams(Flags(GH, items))
  }

  /** The same items with one more among them. */
  lemma Inserted(before: seq<Item>, item: Item, after: seq<Item>)
    requires Plain(before) && WellFormed(GH, after) && Good(GH, item) && !item.DashDash?
    ensures var all := before + [item] + after;
            && WellFormed(GH, all) && Render(all) == Render(before) + RenderOne(item) + Render(after)
            && WellFormed(GH, before + after) && Render(before + after) == Render(before) + Render(after)
  {
    var all := before + [item] + after;
    hide Good;
    hide Render;
    RenderConcat(before + [item], after);
    RenderSnoc(before, item);
    RenderConcat(before, after);
    forall i | 0 <= i < |all| ensures Good(GH, all[i]) && (all[i].DashDash? ==> i == |all| - 1) {
      assert all[i] == if i < |before| then before[i] else if i == |before| then item else after[i - |before| - 1];
    }
    var both := before + after;
    forall i | 0 <= i < |both| ensures Good(GH, both[i]) && (both[i].DashDash? ==> i == |both| - 1) {
      assert both[i] == if i < |before| then before[i] else after[i - |before|];
    }
  }

  lemma InsertedSays(before: seq<Item>, item: Item, after: seq<Item>)
    requires !item.DashDash? && !item.Positional?
    ensures var all, f := before + [item] + after, FlagOf(GH, item);
            && Positionals(all) == Positionals(before) + Positionals(after) == Positionals(before + after)
            && Method(all) == LastValueOf(Flags(GH, after), "method", if f.Some? && f.value.0 == "method" then f.value.1 else Method(before))
            && Method(before + after) == LastValueOf(Flags(GH, after), "method", Method(before))
            && (HasParams(all) <==> HasParams(before + after) || (f.Some? && AddsParams(f.value.0)))
  {
    FlagsConcat(before + [item], after);
    FlagsConcat(before, [item]);
    FlagsConcat(before, after);
    OneSays(item);
    InsertedFlags(Flags(GH, before), Flags(GH, [item]), Flags(GH, after));
    assert Positionals(before) + [] == Positionals(before);
    hide Flags;
    hide FlagOf;
    hide Positionals;
    hide LastValueOf;
    hide AnyParams;
    hide AddsParams;
  }

  lemma OneSays(item: Item)
    requires !item.DashDash? && !item.Positional?
    ensures Flags(GH, [item]) == (if FlagOf(GH, item).Some? then [FlagOf(GH, item).value] else []) && Positionals([item]) == []
  {
    assert [item][1..] == [];
    hide FlagOf;
  }

  lemma InsertedFlags(a: seq<(string, string)>, f: seq<(string, string)>, b: seq<(string, string)>)
    requires |f| <= 1
    ensures LastValueOf(a + f + b, "method", "") ==
            LastValueOf(b, "method", if f != [] && f[0].0 == "method" then f[0].1 else LastValueOf(a, "method", ""))
    ensures LastValueOf(a + b, "method", "") == LastValueOf(b, "method", LastValueOf(a, "method", ""))
    ensures AnyParams(a + f + b) <==> AnyParams(a + b) || (f != [] && AddsParams(f[0].0))
  {
    LastValueConcat(a + f, b, "method", "");
    LastValueConcat(a, f, "method", "");
    LastValueConcat(a, b, "method", "");
    AnyParamsConcat(a + f, b);
    AnyParamsConcat(a, f);
    AnyParamsConcat(a, b);
  }

  lemma AnyParamsConcat(a: seq<(string, string)>, b: seq<(string, string)>)
    ensures AnyParams(a + b) <==> AnyParams(a) || AnyParams(b)
  {
    var all := a + b;
    if i :| 0 <= i < |a| && AddsParams(a[i].0) {
      assert AddsParams(all[i].0);
    }
    if i :| 0 <= i < |b| && AddsParams(b[i].0) {
      assert AddsParams(all[|a| + i].0);
    }
  }

  // ── what decides ──

  function Endpoint(texts: seq<string>): seq<string> {
    EndpointSegments(FirstNonEmpty(texts))
  }

  /** A write needs the mutate grant, and on a secret endpoint the custody grant too. */
  predicate MayWrite(g: Grants, texts: seq<string>) {
    "graphql" !in texts && g.mutate && (SecretPath(Endpoint(texts)) ==> g.custody)
  }

  predicate MayRead(g: Grants, texts: seq<string>) {
    "graphql" !in texts && g.read
  }

  predicate NoMethod(items: seq<Item>) {
    forall f | f in Flags(GH, items) :: f.0 != "method"
  }

  lemma {:induction false} KeepsMethod(flags: seq<(string, string)>, default: string)
    requires forall f | f in flags :: f.0 != "method"
    ensures LastValueOf(flags, "method", default) == default
    decreases |flags|
  {
    if flags != [] {
      assert flags[0] in flags;
      KeepsMethod(flags[1..], default);
    }
  }

  lemma VerbKinds(verb: string)
    ensures Mutating(verb) <==> verb in ["POST", "PUT", "PATCH", "DELETE"]
    ensures Mutating(verb) ==> verb !in ["GET", "HEAD", ""]
  {
  }

  lemma ItemsPermit(g: Grants, items: seq<Item>, verb: string)
    requires WellFormed(GH, items) && verb == ToUpper(Method(items))
    ensures Permits(g, ["api"] + Render(items)) <==>
            if verb == "" then (if HasParams(items) then MayWrite(g, Positionals(items)) else MayRead(g, Positionals(items)))
            else if Mutating(verb) then MayWrite(g, Positionals(items))
            else if verb == "GET" || verb == "HEAD" then MayRead(g, Positionals(items))
            else false
  {
    ApiPermitsExactly(g, items);
    VerbKinds(verb);
    hide WellFormed;
    hide Permits;
    hide Render;
    hide Flags;
    hide Positionals;
    hide LastValueOf;
    hide AnyParams;
    hide FirstNonEmpty;
    hide EndpointSegments;
    hide SecretPath;
    hide ToUpper;
    hide Mutating;
  }

  /** The last method decides: POST, PUT, PATCH and DELETE take the mutate grant in each of the
      five spellings, GET and HEAD the read grant alone, whatever other flags stand around it. */
  lemma MethodDecides(g: Grants, before: seq<Item>, args: seq<string>, v: string, after: seq<Item>)
    requires Plain(before) && WellFormed(GH, after) && NoMethod(after) && TypedMethod(args, v)
    ensures var argv, texts := ["api"] + (Render(before) + args + Render(after)), Positionals(before) + Positionals(after);
            && (ToUpper(v) in ["POST", "PUT", "PATCH", "DELETE"] ==> (Permits(g, argv) <==> MayWrite(g, texts)))
            && (ToUpper(v) in ["GET", "HEAD"] ==> (Permits(g, argv) <==> MayRead(g, texts)))
            && (ToUpper(v) !in ["POST", "PUT", "PATCH", "DELETE", "GET", "HEAD", ""] ==> !Permits(g, argv))
  {
    var item := MethodItem(args, v);
    Inserted(before, item, after);
    InsertedSays(before, item, after);
    KeepsMethod(Flags(GH, after), v);
    ItemsPermit(g, before + [item] + after, ToUpper(v));
    VerbKinds(ToUpper(v));
    hide *;
  }

  /** Without a method, one parameter in any spelling makes the request a write. */
  lemma ParamDecides(g: Grants, before: seq<Item>, args: seq<string>, v: string, after: seq<Item>)
    requires Plain(before) && WellFormed(GH, after) && TypedParam(args, v) && Method(before + after) == ""
    ensures var argv, texts := ["api"] + (Render(before) + args + Render(after)), Positionals(before) + Positionals(after);
            Permits(g, argv) <==> MayWrite(g, texts)
  {
    var item, name := ParamItem(args, v);
    Inserted(before, item, after);
    InsertedSays(before, item, after);
    ItemsPermit(g, before + [item] + after, "");
    hide *;
  }

  /** Every other flag of gh changes nothing: a read stays a read and a write a write. */
  lemma OthersChangeNothing(g: Grants, before: seq<Item>, args: seq<string>, v: string, after: seq<Item>)
    requires Plain(before) && WellFormed(GH, after) && TypedOther(args, v)
    ensures Permits(g, ["api"] + (Render(before) + args + Render(after))) <==> Permits(g, ["api"] + (Render(before) + Render(after)))
  {
    var item := OtherItem(args, v);
    Inserted(before, item, after);
    InsertedSays(before, item, after);
    ItemsPermit(g, before + [item] + after, ToUpper(Method(before + after)));
    ItemsPermit(g, before + after, ToUpper(Method(before + after)));
    hide *;
  }

  // ── on the texts themselves ──

  /** Text that gh reads as a positional. */
  predicate Word(text: string) {
    text == "" || text[0] != '-' || text == "-"
  }

  lemma OneEndpoint(endpoint: string)
    requires Word(endpoint)
    ensures var items := [Positional(endpoint)];
            && WellFormed(GH, items) && Render(items) == [endpoint] && Flags(GH, items) == []
            && Positionals(items) == [endpoint] && FirstNonEmpty([endpoint]) == endpoint
  {
    var items := [Positional(endpoint)];
    assert items[1..] == [] && Render(items) == RenderOne(items[0]) + Render([]) == [endpoint];
    assert Positionals(items) == [endpoint] + Positionals([]) == [endpoint];
    assert [endpoint][1..] == [];
  }

  /** `gh api` with one flag and an endpoint, for every value and every endpoint. */
  lemma OneFlagPermits(g: Grants, args: seq<string>, v: string, endpoint: string)
    requires Word(endpoint)
    ensures var argv, secret := ["api"] + args + [endpoint], SecretPath(EndpointSegments(endpoint));
            && (TypedMethod(args, v) && v in ["POST", "PUT", "PATCH", "DELETE", "post", "put", "patch", "delete"] ==>
                  (Permits(g, argv) <==> endpoint != "graphql" && g.mutate && (secret ==> g.custody)))
            && (TypedMethod(args, v) && v in ["GET", "HEAD", "get", "head"] ==> (Permits(g, argv) <==> endpoint != "graphql" && g.read))
            && (TypedParam(args, v) ==> (Permits(g, argv) <==> endpoint != "graphql" && g.mutate && (secret ==> g.custody)))
            && (TypedOther(args, v) ==> (Permits(g, argv) <==> endpoint != "graphql" && g.read))
            && (Permits(g, ["api", endpoint]) <==> endpoint != "graphql" && g.read)
  {
    var none: seq<Item>, last := [], [Positional(endpoint)];
    OneEndpoint(endpoint);
    assert Render(none) == [] && [] + args == args && none + last == last && Positionals(none) == [] && [] + [endpoint] == [endpoint];
    assert ["api"] + args + [endpoint] == ["api"] + (args + [endpoint]) && ["api"] + [endpoint] == ["api", endpoint];
    hide Permits;
    hide TypedMethod;
    hide TypedParam;
    hide TypedOther;
    hide EndpointSegments;
    hide SecretPath;
    hide Render;
    hide Flags;
    hide Positionals;
    hide FirstNonEmpty;
    hide AnyParams;
    ItemsPermit(g, last, "");
    if TypedMethod(args, v) {
      MethodDecides(g, none, args, v, last);
      CasesOf(v);
    }
    if TypedParam(args, v) {
      ParamDecides(g, none, args, v, last);
    }
    if TypedOther(args, v) {
      OthersChangeNothing(g, none, args, v, last);
    }
  }

  /** Methods are read in either case. */
  lemma CasesOf(v: string)
    ensures v in ["POST", "post"] ==> ToUpper(v) == "POST"
    ensures v in ["PUT", "put"] ==> ToUpper(v) == "PUT"
    ensures v in ["PATCH", "patch"] ==> ToUpper(v) == "PATCH"
    ensures v in ["DELETE", "delete"] ==> ToUpper(v) == "DELETE"
    ensures v in ["GET", "get"] ==> ToUpper(v) == "GET"
    ensures v in ["HEAD", "head"] ==> ToUpper(v) == "HEAD"
  {
  }

  /** Letter by letter: small letters become capitals, and capitals stay. */
  lemma UppersLetters(k: nat)
    requires k < 26
    ensures Upper("abcdefghijklmnopqrstuvwxyz"[k]) == Upper("ABCDEFGHIJKLMNOPQRSTUVWXYZ"[k]) == "ABCDEFGHIJKLMNOPQRSTUVWXYZ"[k]
  {
  }

  lemma Refused(g: Grants, before: seq<Item>, rest: seq<string>)
    requires Plain(before) && rest != [] && ParseOne(GH, rest).None?
    ensures !Permits(g, ["api"] + (Render(before) + rest))
  {
    hide ParseOne;
    hide WellFormed;
    UnreadableAnywhere(GH, before, rest);
    assert (["api"] + (Render(before) + rest))[1..] == Render(before) + rest;
  }

  /** A letter that is not one of gh's is refused under every grant, wherever it stands. */
  lemma UnknownLetterIsRefused(g: Grants, before: seq<Item>, c: char, more: string, after: seq<string>)
    requires Plain(before) && c !in "-XFfHqtpi"
    ensures !Permits(g, ["api"] + (Render(before) + (["-" + [c] + more] + after)))
  {
    var flag := "-" + [c] + more;
    assert flag[1..][0] == c && IsCluster(flag) && ([flag] + after)[1..] == after;
    Refused(g, before, [flag] + after);
  }

  /** So is a long name that is not. */
  lemma UnknownNameIsRefused(g: Grants, before: seq<Item>, name: string, v: string, after: seq<string>)
    requires Plain(before) && name != "" && '=' !in name
    requires name !in ["method", "field", "raw-field", "input", "header", "jq", "template", "preview", "cache", "hostname"]
    requires name !in ["include", "paginate", "silent", "slurp", "verbose", "allow-escape-sequences", "help"]
    ensures !Permits(g, ["api"] + (Render(before) + (["--" + name] + after)))
    ensures !Permits(g, ["api"] + (Render(before) + (["--" + name + "=" + v] + after)))
  {
    var bare, valued := "--" + name, "--" + name + "=" + v;
    EqualsSplits(name, v);
    assert bare[2..] == name && valued[2..] == name + "=" + v && (name + "=" + v)[..|name|] == name && name[..|name|] == name;
    assert ([bare] + after)[1..] == after && ([valued] + after)[1..] == after;
    NotANameOfGh(name);
    hide IndexOfEquals;
    Refused(g, before, [bare] + after);
    Refused(g, before, [valued] + after);
  }

  lemma NotANameOfGh(name: string)
    requires name !in ["method", "field", "raw-field", "input", "header", "jq", "template", "preview", "cache", "hostname"]
    requires name !in ["include", "paginate", "silent", "slurp", "verbose", "allow-escape-sequences", "help"]
    ensures name !in GH.takesValue
  {
  }

  /** And one of gh's valued flags left without its value. */
  lemma DanglingLetterIsRefused(g: Grants, before: seq<Item>, letter: char)
    requires Plain(before) && letter in "XFfHqtp"
    ensures !Permits(g, ["api"] + (Render(before) + ["-" + [letter]]))
  {
    var flag: string := "-" + [letter];
    assert flag[1..] == [letter] && [letter][1..] == "" && |[flag][1..]| == 0;
    Refused(g, before, [flag]);
  }

  lemma DanglingNameIsRefused(g: Grants, before: seq<Item>, name: string)
    requires Plain(before)
    requires name in ["method", "field", "raw-field", "input", "header", "jq", "template", "preview", "cache", "hostname"]
    ensures !Permits(g, ["api"] + (Render(before) + ["--" + name]))
  {
    var flag: string := "--" + name;
    NoEqualsIn(name);
    EqualsSplits(name, "");
    assert flag[2..] == name && |[flag][1..]| == 0 && name[..|name|] == name;
    hide IndexOfEquals;
    Refused(g, before, [flag]);
  }

  lemma NoEqualsIn(name: string)
    requires name in ["method", "field", "raw-field", "input", "header", "jq", "template", "preview", "cache", "hostname"]
    ensures name != "" && '=' !in name && name in GH.takesValue && GH.takesValue[name]
  {
  }

  // ── secret endpoints by their text ──

  /** A segment of an endpoint as typed: no slash, no query, no spaces at its ends. */
  predicate Segment(s: string) {
    Tight(s) && NoQuery(s) && Without(s, '/')
  }

  predicate Segments(segs: seq<string>) {
    segs != [] && forall s | s in segs :: Segment(s)
  }

  /** Nothing, or a query. */
  predicate Query(s: string) {
    s == "" || ((s[0] == '?' || s[0] == '#') && !Space(s[|s| - 1]))
  }

  predicate NoDoubleSlash(s: string) {
    forall i | 0 <= i < |s| - 1 :: s[i] == '/' ==> s[i + 1] != '/'
  }

  lemma {:induction false} NoScheme(s: string)
    requires NoDoubleSlash(s)
    ensures SchemeEnd(s) == |s|
    decreases |s|
  {
    if |s| >= 3 {
      assert s[..3][1] == s[1] && s[..3][2] == s[2];
      assert forall i | 0 <= i < |s[1..]| :: s[1..][i] == s[i + 1];
      NoScheme(s[1..]);
    }
  }

  lemma {:induction false} JoinedSegments(segs: seq<string>)
    requires Segments(segs)
    ensures var s := Join(segs, '/');
            Tight(s) && NoQuery(s) && NoDoubleSlash(s) && s[0] != '/' && s[|s| - 1] != '/'
    decreases |segs|
  {
    assert segs[0] in segs;
    if |segs| > 1 {
      assert forall s | s in segs[1..] :: s in segs;
      JoinedSegments(segs[1..]);
      var more := Join(segs[1..], '/');
      assert Join(segs, '/') == segs[0] + ['/'] + more;
    }
  }

  lemma PathOf(lead: string, s: string, query: string)
    requires Tight(s) && NoQuery(s) && NoDoubleSlash(s) && s[0] != '/' && lead in ["", "/"] && Query(query)
    ensures PathPart(lead + (s + query)) == lead + s
  {
    var text := lead + (s + query);
    var body := lead + s;
    assert text == body + query && body + "" == body;
    CutQuery(body, query);
    NoScheme(body);
    assert text[0] == body[0];
    assert text[|text| - 1] == if query == "" then s[|s| - 1] else query[|query| - 1];
    PathPartOf(text, body);
  }

  lemma {:induction false} CutQuery(s: string, query: string)
    requires NoQuery(s) && Query(query)
    ensures BeforeQuery(s + query) == s
    decreases |s|
  {
    if s == "" {
      assert s + query == query;
    } else {
      assert (s + query)[1..] == s[1..] + query && s == [s[0]] + s[1..];
      CutQuery(s[1..], query);
    }
  }

  lemma Unslashed(lead: string, s: string)
    requires s != "" && s[0] != '/' && s[|s| - 1] != '/' && lead in ["", "/"]
    ensures Trim(lead + s, Slash) == s && Trim(s, Slash) == s
  {
    LeadingSlash(s);
    assert "" + s == s;
  }

  predicate Versioned(segs: seq<string>) {
    |segs| > 2 && segs[0] == "api" && segs[1] == "v3"
  }

  lemma VersionInFront(segs: seq<string>)
    requires Segments(segs) && Versioned(segs)
    ensures DropPrefix(Join(segs, '/'), "api/v3/") == Join(segs[2..], '/')
  {
    var more := Join(segs[2..], '/');
    assert segs[1..][1..] == segs[2..] && Join(segs[1..], '/') == "v3" + ['/'] + more;
    var s := Join(segs, '/');
    assert s == "api" + ['/'] + ("v3" + ['/'] + more);
    assert s == "api/v3/" + more;
  }

  lemma NoVersionInFront(segs: seq<string>)
    requires Segments(segs) && !Versioned(segs)
    ensures DropPrefix(Join(segs, '/'), "api/v3/") == Join(segs, '/')
  {
    var s, version := Join(segs, '/'), "api/v3/";
    if version <= s {
      var rest := s[|version|..];
      assert s == "api" + ['/'] + ("v3" + ['/'] + rest);
      forall p | p in segs ensures Without(p, '/') {
        assert Segment(p);
      }
      SplitJoin(segs, '/');
      hide Join;
      hide Segments;
      SplitPiece("api", "v3" + ['/'] + rest, '/');
      SplitPiece("v3", rest, '/');
      hide Split;
      assert false;
    }
  }

  /** What Split finds behind a dropped api/v3. */
  lemma AfterVersion(segs: seq<string>)
    requires Segments(segs)
    ensures Split(Trim(DropPrefix(Join(segs, '/'), "api/v3/"), Slash), '/') == if Versioned(segs) then segs[2..] else segs
  {
    var left := if Versioned(segs) then segs[2..] else segs;
    if Versioned(segs) {
      VersionInFront(segs);
    } else {
      NoVersionInFront(segs);
    }
    forall p | p in left ensures Segment(p) && Without(p, '/') {
      assert p in segs;
    }
    JoinedSegments(left);
    Unslashed("", Join(left, '/'));
    SplitJoin(left, '/');
    hide *;
  }

  /** The segments of an endpoint are those it was typed with: with a slash in front or without, with
      a query or without; a leading api/v3 is dropped when something follows it. */
  lemma SegmentsOf(lead: string, segs: seq<string>, query: string)
    requires Segments(segs) && lead in ["", "/"] && Query(query)
    ensures EndpointSegments(lead + (Join(segs, '/') + query)) == if Versioned(segs) then segs[2..] else segs
  {
    var s := Join(segs, '/');
    JoinedSegments(segs);
    PathOf(lead, s, query);
    Unslashed(lead, s);
    AfterVersion(segs);
    hide Trim;
    hide Split;
    hide PathPart;
    hide DropPrefix;
    hide Join;
    hide Segments;
    hide Query;
    hide Tight;
    hide NoQuery;
    hide NoDoubleSlash;
  }

  /** Where GitHub keeps secrets: right after an API family or an environment's name, for a
      repository, an organisation or a user. */
  predicate KeepsSecrets(segs: seq<string>) {
    exists i | 0 < i < |segs| ::
      segs[i] == "secrets" && (segs[i - 1] in ["actions", "codespaces", "dependabot"] || (i > 1 && segs[i - 2] == "environments"))
  }

  /** The endpoints by their literal shape. */
  lemma SecretEndpoints(owner: string, repo: string, family: string, env: string, rest: seq<string>)
    requires family in ["actions", "codespaces", "dependabot"]
    ensures SecretPath(["repos", owner, repo, family, "secrets"] + rest)
    ensures SecretPath(["orgs", owner, family, "secrets"] + rest)
    ensures SecretPath(["user", family, "secrets"] + rest)
    ensures SecretPath(["repos", owner, repo, "environments", env, "secrets"] + rest)
    ensures SecretPath(["repositories", repo, "environments", env, "secrets"] + rest)
  {
    SecretIn(["repos", owner, repo, family, "secrets"] + rest, 4);
    SecretIn(["orgs", owner, family, "secrets"] + rest, 3);
    SecretIn(["user", family, "secrets"] + rest, 2);
    SecretIn(["repos", owner, repo, "environments", env, "secrets"] + rest, 5);
    SecretIn(["repositories", repo, "environments", env, "secrets"] + rest, 4);
  }

  lemma SecretIn(segs: seq<string>, i: nat)
    requires 0 < i < |segs| && segs[i] == "secrets"
    requires segs[i - 1] in ["actions", "codespaces", "dependabot"] || (i > 1 && segs[i - 2] == "environments")
    requires |segs| > 3 && segs[3] == "contents" ==> segs[0] != "repos" || i < 3
    ensures SecretPath(segs)
  {
    assert SecretsAt(segs, i);
  }

  /** And nothing else: without such a place a path holds none, and a file of a repository holds
      none whatever its path. */
  lemma OtherEndpoints(segs: seq<string>, owner: string, repo: string, file: seq<string>)
    ensures !KeepsSecrets(segs) ==> !SecretPath(segs)
    ensures SecretPath(["repos", owner, repo, "contents"] + file) <==> repo == "secrets" && owner in ["actions", "codespaces", "dependabot"]
  {
    var path := ["repos", owner, repo, "contents"] + file;
    if repo == "secrets" && owner in ["actions", "codespaces", "dependabot"] {
      assert SecretsAt(path, 2);
    }
  }

  /** A secret is written only with both grants, however the flag and the endpoint are spelled. */
  lemma SecretWriteNeedsBoth(g: Grants, args: seq<string>, v: string, lead: string, segs: seq<string>, query: string)
    requires (TypedMethod(args, v) && v in ["POST", "PUT", "PATCH", "DELETE", "post", "put", "patch", "delete"]) || TypedParam(args, v)
    requires Segments(segs) && lead in ["", "/"] && Query(query) && SecretPath(if Versioned(segs) then segs[2..] else segs)
    requires Word(lead + (Join(segs, '/') + query)) && lead + (Join(segs, '/') + query) != "graphql"
    ensures Permits(g, ["api"] + args + [lead + (Join(segs, '/') + query)]) <==> g.mutate && g.custody
  {
    SegmentsOf(lead, segs, query);
    OneFlagPermits(g, args, v, lead + (Join(segs, '/') + query));
    hide *;
  }

  /** The commands with a name of their own, whatever arguments follow: placing a secret takes the
      custody grant, what changes the forge the mutate grant, what only looks the read grant, and
      any other command is refused. */
  lemma NamedCommands(g: Grants, command: string, sub: string, rest: seq<string>)
    requires command != "api" && (sub == "" || sub[0] != '-')
    ensures var key, argv := command + " " + sub, [command, sub] + rest;
            && (key in PLACES ==> (Permits(g, argv) <==> g.custody))
            && (key in CHANGES ==> (Permits(g, argv) <==> g.mutate))
            && (key in LOOKS ==> (Permits(g, argv) <==> g.read))
            && (key !in PLACES + CHANGES + LOOKS ==> !Permits(g, argv))
  {
    var args := [command, sub] + rest;
    assert args[0] == command && args[1] == sub;
    KeyClass(command + " " + sub);
    hide NamedClass;
  }

  const PLACES := ["secret set", "secret delete"]
  const CHANGES := ["workflow run", "workflow enable", "workflow disable", "variable set", "variable delete", "repo create",
                    "repo delete", "repo edit", "run cancel", "run rerun", "release create", "release upload", "release delete"]
  const LOOKS := ["secret list", "variable list", "release list", "run list", "workflow list", "release view", "repo view",
                  "run view", "workflow view", "release download", "auth token", "auth status"]

  lemma KeyClass(key: string)
    ensures NamedClass(key) ==
            if key in PLACES then ForgeCustody
            else if key in CHANGES then ForgeMutate
            else if key in LOOKS then ForgeRead
            else ForgeUnclassified
    ensures !(key in PLACES && key in CHANGES) && !(key in PLACES && key in LOOKS) && !(key in CHANGES && key in LOOKS)
  {
  }
}
