/** The argv of `gh api` as a grammar of flags and positionals, and the hand-written scanner that
    reads it. */
module GhArgv {
  import opened Values

  /** Long names with whether they take a value, and single letters with their long name. */
  datatype FlagTables = FlagTables(takesValue: map<string, bool>, shorthand: map<char, string>)

  // ── the grammar ──

  datatype ClusterEnd =
    | Ends
    | BoolValue(text: string)
    | Joined(letter: char, value: string)
    | Equals(letter: char, value: string)
    | Spaced(letter: char, value: string)

  datatype Item =
    | LongBool(name: string)
    | LongAttached(name: string, value: string)
    | LongSpaced(name: string, value: string)
    | Cluster(bools: string, end: ClusterEnd)
    | Positional(text: string)
    | DashDash(rest: seq<string>)

  /** '-' and '=' are punctuation, never letters. */
  predicate Sane(tb: FlagTables) {
    '-' !in tb.shorthand && '=' !in tb.shorthand
  }

  predicate Letter(tb: FlagTables, c: char, valued: bool) {
    c in tb.shorthand && tb.shorthand[c] in tb.takesValue && tb.takesValue[tb.shorthand[c]] == valued
  }

  predicate EqualsSomething(s: string) {
    |s| > 1 && s[0] == '='
  }

  predicate GoodEnd(tb: FlagTables, bools: string, end: ClusterEnd) {
    match end
    case Ends => bools != ""
    case BoolValue(text) => bools != "" && text != ""
    case Joined(c, v) => Letter(tb, c, true) && v != "" && !EqualsSomething(v)
    case Equals(c, v) => Letter(tb, c, true) && v != ""
    case Spaced(c, _) => Letter(tb, c, true)
  }

  predicate Good(tb: FlagTables, item: Item) {
    match item
    case LongBool(name) => name != "" && '=' !in name && name in tb.takesValue && !tb.takesValue[name]
    case LongAttached(name, _) => '=' !in name && name in tb.takesValue
    case LongSpaced(name, _) => name != "" && '=' !in name && name in tb.takesValue && tb.takesValue[name]
    case Cluster(bools, end) =>
      (forall c | c in bools :: Letter(tb, c, false)) && GoodEnd(tb, bools, end)
    case Positional(text) => text == "" || text[0] != '-' || text == "-"
    case DashDash(_) => true
  }

  function EndText(end: ClusterEnd): string {
    match end
    case Ends => ""
    case BoolValue(text) => "=" + text
    case Joined(c, v) => [c] + v
    case Equals(c, v) => [c] + "=" + v
    case Spaced(c, _) => [c]
  }

  function RenderOne(item: Item): seq<string> {
    match item
    case LongBool(name) => ["--" + name]
    case LongAttached(name, v) => ["--" + name + "=" + v]
    case LongSpaced(name, v) => ["--" + name, v]
    case Cluster(bools, end) => ["-" + bools + EndText(end)] + if end.Spaced? then [end.value] else []
    case Positional(text) => [text]
    case DashDash(rest) => ["--"] + rest
  }

  function Render(items: seq<Item>): seq<string> {
    if items == [] then [] else RenderOne(items[0]) + Render(items[1..])
  }

  /** Well-formed items, with `--` only at the end. */
  predicate WellFormed(tb: FlagTables, items: seq<Item>) {
    forall i | 0 <= i < |items| :: Good(tb, items[i]) && (items[i].DashDash? ==> i == |items| - 1)
  }

  // ── reading an argv ──

  function IndexOfEquals(s: string): (i: nat)
    ensures i <= |s| && (i < |s| ==> s[i] == '=') && forall j | 0 <= j < i :: s[j] != '='
  {
    if s == "" || s[0] == '=' then 0 else 1 + IndexOfEquals(s[1..])
  }

  function ParseCluster(tb: FlagTables, cluster: string, bools: string, rest: seq<string>): Option<(Item, seq<string>)>
    decreases |cluster|
  {
    if cluster == "" then Some((Cluster(bools, Ends), rest))
    else
      var c, more := cluster[0], cluster[1..];
      if Letter(tb, c, false) then
        if EqualsSomething(more) then Some((Cluster(bools + [c], BoolValue(more[1..])), rest))
        else ParseCluster(tb, more, bools + [c], rest)
      else if Letter(tb, c, true) then
        if EqualsSomething(more) then Some((Cluster(bools, Equals(c, more[1..])), rest))
        else if more != "" then Some((Cluster(bools, Joined(c, more)), rest))
        else if rest != [] then Some((Cluster(bools, Spaced(c, rest[0])), rest[1..]))
        else None
      else None
  }

  function ParseLong(tb: FlagTables, body: string, rest: seq<string>): Option<(Item, seq<string>)> {
    var i := IndexOfEquals(body);
    var name := body[..i];
    if name !in tb.takesValue then None
    else if i < |body| then Some((LongAttached(name, body[i + 1..]), rest))
    else if !tb.takesValue[name] then Some((LongBool(name), rest))
    else if rest != [] then Some((LongSpaced(name, rest[0]), rest[1..]))
    else None
  }

  predicate IsLong(a: string) {
    |a| > 2 && a[0] == '-' && a[1] == '-'
  }

  predicate IsCluster(a: string) {
    |a| > 1 && a[0] == '-' && a[1] != '-'
  }

  function ParseOne(tb: FlagTables, args: seq<string>): Option<(Item, seq<string>)>
    requires args != []
  {
    var a, rest := args[0], args[1..];
    if a == "--" then Some((DashDash(rest), []))
    else if IsLong(a) then ParseLong(tb, a[2..], rest)
    else if IsCluster(a) then ParseCluster(tb, a[1..], "", rest)
    else Some((Positional(a), rest))
  }

  lemma {:induction false} ClusterShortens(tb: FlagTables, cluster: string, bools: string, rest: seq<string>)
    ensures var r := ParseCluster(tb, cluster, bools, rest); r.Some? ==> |r.value.1| <= |rest|
    decreases |cluster|
  {
    if cluster != "" {
      ClusterShortens(tb, cluster[1..], bools + [cluster[0]], rest);
    }
  }

  lemma OneShortens(tb: FlagTables, args: seq<string>)
    requires args != []
    ensures var r := ParseOne(tb, args); r.Some? ==> |r.value.1| < |args|
  {
    if IsCluster(args[0]) {
      ClusterShortens(tb, args[0][1..], "", args[1..]);
    }
  }

  function Parse(tb: FlagTables, args: seq<string>): Option<seq<Item>>
    decreases |args|
  {
    if args == [] then Some([])
    else
      var one := ParseOne(tb, args);
      if one.None? then None
      else
        OneShortens(tb, args);
        var more := Parse(tb, one.value.1);
        if more.None? then None else Some([one.value.0] + more.value)
  }

  // ── the grammar is unambiguous ──

  /** What follows the last boolean letter. */
  lemma EndReads(tb: FlagTables, seen: string, end: ClusterEnd, rest: seq<string>)
    requires Sane(tb) && GoodEnd(tb, seen, end) && !end.BoolValue?
    ensures ParseCluster(tb, EndText(end), seen, (if end.Spaced? then [end.value] else []) + rest) == Some((Cluster(seen, end), rest))
  {
    var text := EndText(end);
    match end {
      case Ends => assert [] + rest == rest;
      case Joined(c, v) => assert [] + rest == rest && text[0] == c && text[1..] == v;
      case Equals(c, v) => assert [] + rest == rest && text[0] == c && text[1..] == "=" + v && ("=" + v)[1..] == v;
      case Spaced(c, v) => assert text[1..] == "" && ([v] + rest)[1..] == rest;
    }
  }

  /** The letters already read come back in front of what the rest of the cluster gives. */
  lemma {:induction false} ClusterReads(tb: FlagTables, seen: string, bools: string, end: ClusterEnd, rest: seq<string>)
    requires Sane(tb) && forall c | c in bools :: Letter(tb, c, false)
    requires GoodEnd(tb, seen + bools, end)
    requires end.BoolValue? ==> bools != ""
    ensures ParseCluster(tb, bools + EndText(end), seen, (if end.Spaced? then [end.value] else []) + rest) ==
            Some((Cluster(seen + bools, end), rest))
    decreases |bools|
  {
    if bools == "" {
      assert bools + EndText(end) == EndText(end) && seen + bools == seen;
      EndReads(tb, seen, end, rest);
    } else {
      hide GoodEnd;
      var cluster := bools + EndText(end);
      var c, more := bools[0], bools[1..] + EndText(end);
      assert cluster[0] == c && cluster[1..] == more && c in bools;
      assert (seen + [c]) + bools[1..] == seen + bools;
      if end.BoolValue? && |bools| == 1 {
        assert more == "=" + end.text && more[1..] == end.text by { BoolValueText(tb, seen + bools, end); }
        BoolValueText(tb, seen + bools, end);
        assert seen + [c] == seen + bools && [] + rest == rest;
      } else {
        NextIsLetter(tb, bools[1..], end);
        ClusterReads(tb, seen + [c], bools[1..], end, rest);
      }
    }
  }

  lemma BoolValueText(tb: FlagTables, bools: string, end: ClusterEnd)
    requires GoodEnd(tb, bools, end) && end.BoolValue?
    ensures EndText(end) == "=" + end.text && end.text != "" && EqualsSomething("=" + end.text) && ("=" + end.text)[1..] == end.text
  {
  }

  /** After a boolean letter the cluster goes on with another letter, so no value is read there. */
  lemma NextIsLetter(tb: FlagTables, bools: string, end: ClusterEnd)
    requires Sane(tb) && (forall c | c in bools :: Letter(tb, c, false)) && GoodEnd(tb, "i", end)
    requires bools == "" ==> !end.BoolValue?
    ensures !EqualsSomething(bools + EndText(end))
  {
    if bools != "" {
      assert bools[0] in bools && (bools + EndText(end))[0] == bools[0];
    }
  }

  lemma EqualsSplits(name: string, value: string)
    requires '=' !in name
    ensures IndexOfEquals(name) == |name| && IndexOfEquals(name + "=" + value) == |name|
  {
    var s := name + "=" + value;
    assert s[|name|] == '=' && forall j | 0 <= j < |name| :: s[j] == name[j] && name[j] in name;
  }

  lemma LongReads(tb: FlagTables, item: Item, rest: seq<string>)
    requires Good(tb, item) && (item.LongBool? || item.LongAttached? || item.LongSpaced?)
    ensures ParseOne(tb, RenderOne(item) + rest) == Some((item, rest))
  {
    var args := RenderOne(item) + rest;
    var name := item.name;
    if item.LongAttached? {
      EqualsSplits(name, item.value);
      var body := name + "=" + item.value;
      assert args[0] == "--" + body && args[0][2..] == body && args[1..] == rest;
      assert body[..|name|] == name && body[|name| + 1..] == item.value;
      assert IsLong(args[0]) && args[0] != "--";
    } else {
      EqualsSplits(name, "");
      var tail := if item.LongSpaced? then [item.value] else [];
      assert args == ["--" + name] + (tail + rest);
      assert args[0][2..] == name && args[1..] == tail + rest && name[..|name|] == name;
      assert (tail + rest)[|tail|..] == rest;
      assert IsLong(args[0]);
    }
  }

  lemma Regroup(a: string, b: seq<string>, c: seq<string>)
    ensures [a] + b + c == [a] + (b + c)
  {
  }

  lemma ClusterItemReads(tb: FlagTables, bools: string, end: ClusterEnd, rest: seq<string>)
    requires Sane(tb) && Good(tb, Cluster(bools, end))
    ensures ParseOne(tb, RenderOne(Cluster(bools, end)) + rest) == Some((Cluster(bools, end), rest))
  {
    ClusterReads(tb, "", bools, end, rest);
    FirstIsLetter(tb, bools, end);
    hide ParseCluster;
    hide GoodEnd;
    hide EndText;
    var a, tail := "-" + bools + EndText(end), if end.Spaced? then [end.value] else [];
    DashOff(bools, EndText(end));
    Regroup(a, tail, rest);
    assert ([a] + (tail + rest))[1..] == tail + rest;
    assert "" + bools == bools;
  }

  lemma DashOff(bools: string, text: string)
    requires bools + text != "" && (bools + text)[0] != '-'
    ensures var a := "-" + bools + text; IsCluster(a) && a != "--" && a[1..] == bools + text
  {
    assert "-" + bools + text == "-" + (bools + text);
  }

  /** One item read back, whatever follows it. */
  lemma OneReads(tb: FlagTables, item: Item, rest: seq<string>)
    requires Sane(tb) && Good(tb, item) && !item.DashDash?
    ensures ParseOne(tb, RenderOne(item) + rest) == Some((item, rest))
  {
    if item.Positional? {
      assert (RenderOne(item) + rest)[1..] == rest;
    } else if item.Cluster? {
      ClusterItemReads(tb, item.bools, item.end, rest);
    } else {
      LongReads(tb, item, rest);
    }
  }

  lemma FirstIsLetter(tb: FlagTables, bools: string, end: ClusterEnd)
    requires Sane(tb) && (forall c | c in bools :: Letter(tb, c, false)) && GoodEnd(tb, bools, end)
    ensures var cluster := bools + EndText(end); cluster != "" && cluster[0] != '-'
  {
    if bools != "" {
      assert bools[0] in bools && (bools + EndText(end))[0] == bools[0];
    }
  }

  lemma RenderedIsThere(item: Item)
    ensures RenderOne(item) != []
  {
  }

  /** Any argv that begins with rendered items parses as those items and then the rest. */
  lemma {:induction false} ParseAfter(tb: FlagTables, items: seq<Item>, rest: seq<string>)
    requires Sane(tb) && WellFormed(tb, items) && forall i | 0 <= i < |items| :: !items[i].DashDash?
    ensures Parse(tb, Render(items) + rest) ==
            match Parse(tb, rest) case None => None case Some(more) => Some(items + more)
    decreases |items|
  {
    hide ParseOne;
    hide RenderOne;
    hide Good;
    hide Sane;
    if items == [] {
      assert Render(items) + rest == rest;
      assert Parse(tb, rest).Some? ==> [] + Parse(tb, rest).value == Parse(tb, rest).value;
    } else {
      var tail := Render(items[1..]) + rest;
      assert Render(items) + rest == RenderOne(items[0]) + tail;
      RenderedIsThere(items[0]);
      OneReads(tb, items[0], tail);
      assert WellFormed(tb, items[1..]);
      ParseAfter(tb, items[1..], rest);
      assert Parse(tb, rest).Some? ==> [items[0]] + (items[1..] + Parse(tb, rest).value) == items + Parse(tb, rest).value;
    }
  }

  /** Reading inverts writing: every list of well-formed items comes back from its argv. */
  lemma {:induction false} ParseInvertsRender(tb: FlagTables, items: seq<Item>)
    requires Sane(tb) && WellFormed(tb, items)
    ensures Parse(tb, Render(items)) == Some(items)
  {
    var n := |items|;
    if n > 0 && items[n - 1].DashDash? {
      var front, last := items[..n - 1], items[n - 1];
      RenderSnoc(front, last);
      assert front + [last] == items;
      ParseAfter(tb, front, ["--"] + last.rest);
      assert (["--"] + last.rest)[1..] == last.rest;
      assert ParseOne(tb, ["--"] + last.rest) == Some((last, []));
      assert [last] + [] == [last] && Parse(tb, []) == Some([]);
      assert Parse(tb, ["--"] + last.rest) == Some([last]);
      assert Render(items) == Render(front) + (["--"] + last.rest);
    } else {
      ParseAfter(tb, items, []);
      assert Render(items) + [] == Render(items) && items + [] == items;
    }
  }

  lemma {:induction false} RenderSnoc(front: seq<Item>, last: Item)
    ensures Render(front + [last]) == Render(front) + RenderOne(last)
    decreases |front|
  {
    if front == [] {
      assert [last][1..] == [] && [] + [last] == [last];
      assert RenderOne(last) + Render([]) == RenderOne(last);
    } else {
      assert (front + [last])[1..] == front[1..] + [last];
      RenderSnoc(front[1..], last);
    }
  }

  lemma {:induction false} ClusterIsSound(tb: FlagTables, cluster: string, bools: string, rest: seq<string>)
    requires Sane(tb) && (forall c | c in bools :: Letter(tb, c, false)) && (cluster != "" || bools != "")
    ensures var r := ParseCluster(tb, cluster, bools, rest);
            r.Some? ==>
              && r.value.0.Cluster? && Good(tb, r.value.0)
              && bools + cluster == r.value.0.bools + EndText(r.value.0.end)
              && rest == (if r.value.0.end.Spaced? then [r.value.0.end.value] else []) + r.value.1
    decreases |cluster|
  {
    if cluster == "" {
      assert bools + cluster == bools + EndText(Ends);
    } else {
      var c, more := cluster[0], cluster[1..];
      assert cluster == [c] + more;
      assert bools + cluster == (bools + [c]) + more;
      if Letter(tb, c, false) && !EqualsSomething(more) {
        ClusterIsSound(tb, more, bools + [c], rest);
      } else if EqualsSomething(more) {
        assert more == "=" + more[1..];
      }
    }
  }

  lemma LongIsSound(tb: FlagTables, body: string, rest: seq<string>)
    requires body != ""
    ensures var r := ParseLong(tb, body, rest);
            r.Some? ==> Good(tb, r.value.0) && !r.value.0.DashDash? && RenderOne(r.value.0) + r.value.1 == ["--" + body] + rest
  {
    var i := IndexOfEquals(body);
    if i < |body| {
      assert body == body[..i] + "=" + body[i + 1..];
      assert "--" + body == "--" + body[..i] + "=" + body[i + 1..];
    } else {
      assert body[..i] == body;
      assert rest != [] ==> ["--" + body, rest[0]] + rest[1..] == ["--" + body] + rest;
    }
  }

  lemma ClusterItemIsSound(tb: FlagTables, a: string, rest: seq<string>)
    requires Sane(tb) && IsCluster(a)
    ensures var r := ParseCluster(tb, a[1..], "", rest);
            r.Some? ==> Good(tb, r.value.0) && r.value.0.Cluster? && RenderOne(r.value.0) + r.value.1 == [a] + rest
  {
    hide ParseCluster;
    hide Good;
    hide EndText;
    ClusterIsSound(tb, a[1..], "", rest);
    var r := ParseCluster(tb, a[1..], "", rest);
    if r.Some? {
      ClusterText(a, r.value.0.bools, r.value.0.end);
      Regroup(a, if r.value.0.end.Spaced? then [r.value.0.end.value] else [], r.value.1);
    }
  }

  lemma ClusterText(a: string, bools: string, end: ClusterEnd)
    requires a != "" && a[0] == '-' && "" + a[1..] == bools + EndText(end)
    ensures "-" + bools + EndText(end) == a
  {
    hide EndText;
    var text := EndText(end);
    assert "-" + bools + text == "-" + (bools + text);
  }

  lemma OneIsSound(tb: FlagTables, args: seq<string>)
    requires Sane(tb) && args != []
    ensures var r := ParseOne(tb, args);
            r.Some? ==> Good(tb, r.value.0) && RenderOne(r.value.0) + r.value.1 == args && (r.value.0.DashDash? ==> r.value.1 == [])
  {
    hide ParseCluster;
    hide ParseLong;
    var a, rest := args[0], args[1..];
    assert args == [a] + rest;
    if a == "--" {
      assert (["--"] + rest) + [] == args;
    } else if IsLong(a) {
      hide Good;
      hide RenderOne;
      assert a == "--" + a[2..];
      LongIsSound(tb, a[2..], rest);
    } else if IsCluster(a) {
      hide Good;
      hide RenderOne;
      ClusterItemIsSound(tb, a, rest);
    }
  }

  /** What the reader accepts is well formed and is exactly what was typed. */
  lemma {:induction false} ParseIsSound(tb: FlagTables, args: seq<string>)
    requires Sane(tb)
    ensures var r := Parse(tb, args); r.Some? ==> WellFormed(tb, r.value) && Render(r.value) == args
    decreases |args|
  {
    if args != [] {
      var one := ParseOne(tb, args);
      if one.Some? {
        OneShortens(tb, args);
        OneIsSound(tb, args);
        ParseIsSound(tb, one.value.1);
      }
    }
  }
}
