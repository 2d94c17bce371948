/** Object-storage bucket labels: coercing an instance name into the label grammar, and the length
    every label has to keep. */
module ObjLabels {
  import opened Text

  const MAX_PREFIX: nat := 40
  const MAX_LABEL: nat := 63
  const LONGEST_SUFFIX := "-harbor-registry-"

  predicate Alnum(c: char) {
    'a' <= c <= 'z' || '0' <= c <= '9'
  }

  /** Lowercasing as far as it can produce a letter a-z: ASCII capitals, the Kelvin sign and the
      dotted capital I. */
  function Lower(c: char): char {
    if 'A' <= c <= 'Z' then ((c as int) + 32) as char
    else if c == '\U{212a}' then 'k'
    else if c == '\U{0130}' then 'i'
    else c
  }

  predicate IsHyphen(c: char) {
    c == '-'
  }

  /** One rune: a legal one is kept, and the first illegal one of a run, unless nothing has been
      kept yet, becomes a hyphen. */
  function Kept(out: string, c: char): string {
    if Alnum(Lower(c)) then out + [Lower(c)]
    else if out != "" && out[|out| - 1] != '-' then out + "-"
    else out
  }

  function Collapse(out: string, s: string): string
    decreases |s|
  {
    if s == "" then out else Collapse(Kept(out, s[0]), s[1..])
  }

  function Bounded(s: string): string {
    if |s| > MAX_PREFIX then Trim(s[..MAX_PREFIX], IsHyphen) else s
  }

  function Sanitized(name: string): string {
    Bounded(Trim(Collapse("", Trim(name, Space)), IsHyphen))
  }

  /** SanitizeObjLabelPrefix, with the flag that remembers a trailing hyphen. */
  method SanitizeObjLabelPrefix(name: string) returns (prefix: string)
    ensures prefix == Sanitized(name)
  {
    var s := Trim(name, Space);
    var out, prevHyphen := "", false;
    for i := 0 to |s|
      invariant Collapse("", s) == Collapse(out, s[i..])
      invariant prevHyphen <==> out != "" && out[|out| - 1] == '-'
    {
      var r := Lower(s[i]);
      if Alnum(r) {
        out := out + [r];
        prevHyphen := false;
      } else if !prevHyphen && |out| > 0 {
        out := out + "-";
        prevHyphen := true;
      }
    }
    prefix := Trim(out, IsHyphen);
    if |prefix| > MAX_PREFIX {
      prefix := Trim(prefix[..MAX_PREFIX], IsHyphen);
    }
  }

  // ── the grammar ──

  /** Letters, digits and single hyphens between them: never first, never doubled. */
  predicate Opens(s: string) {
    (s != "" ==> Alnum(s[0])) && (forall i | 0 <= i < |s| :: Alnum(s[i]) || s[i] == '-') &&
    forall i | 0 < i < |s| :: s[i] == '-' ==> s[i - 1] != '-'
  }

  /** A label prefix: it also ends in a letter or digit. */
  predicate Label(s: string) {
    Opens(s) && (s != "" ==> Alnum(s[|s| - 1]))
  }

  predicate HasAlnum(s: string) {
    exists i | 0 <= i < |s| :: Alnum(Lower(s[i]))
  }

  lemma {:induction false} CollapseOpens(out: string, s: string)
    requires Opens(out)
    ensures var r := Collapse(out, s); Opens(r) && (r != "" <==> out != "" || HasAlnum(s))
    decreases |s|
  {
    if s != "" {
      CollapseOpens(Kept(out, s[0]), s[1..]);
      assert HasAlnum(s) <==> Alnum(Lower(s[0])) || HasAlnum(s[1..]) by {
        if i :| 0 <= i < |s| && Alnum(Lower(s[i])) {
          assert i > 0 ==> Alnum(Lower(s[1..][i - 1]));
        }
        if i :| 0 <= i < |s[1..]| && Alnum(Lower(s[1..][i])) {
          assert Alnum(Lower(s[i + 1]));
        }
      }
    }
  }

  /** Trimming what opens like a label drops at most one hyphen and leaves a label. */
  lemma TrimOpens(s: string)
    requires Opens(s)
    ensures Trim(s, IsHyphen) == (if s != "" && s[|s| - 1] == '-' then s[..|s| - 1] else s)
    ensures Label(Trim(s, IsHyphen)) && (Trim(s, IsHyphen) != "" <==> s != "")
  {
    assert TrimLeft(s, IsHyphen) == s;
    if s != "" && s[|s| - 1] == '-' {
      var t := s[..|s| - 1];
      assert TrimRight(t, IsHyphen) == t;
    }
  }

  lemma BoundedLabel(s: string)
    requires Label(s)
    ensures Label(Bounded(s)) && |Bounded(s)| <= MAX_PREFIX && (Bounded(s) != "" <==> s != "")
  {
    if |s| > MAX_PREFIX {
      TrimOpens(s[..MAX_PREFIX]);
    }
  }

  /** Trimming spaces never hides a letter or digit. */
  lemma {:induction false} TrimKeepsAlnum(s: string)
    ensures HasAlnum(Trim(s, Space)) <==> HasAlnum(s)
  {
    LeftKeepsAlnum(s);
    RightKeepsAlnum(TrimLeft(s, Space));
  }

  lemma {:induction false} LeftKeepsAlnum(s: string)
    ensures HasAlnum(TrimLeft(s, Space)) <==> HasAlnum(s)
  {
    if s != "" && Space(s[0]) {
      LeftKeepsAlnum(s[1..]);
      if i :| 0 <= i < |s| && Alnum(Lower(s[i])) {
        assert Alnum(Lower(s[1..][i - 1]));
      }
      if i :| 0 <= i < |s[1..]| && Alnum(Lower(s[1..][i])) {
        assert Alnum(Lower(s[i + 1]));
      }
    }
  }

  lemma {:induction false} RightKeepsAlnum(s: string)
    ensures HasAlnum(TrimRight(s, Space)) <==> HasAlnum(s)
  {
    if s != "" && Space(s[|s| - 1]) {
      var t := s[..|s| - 1];
      RightKeepsAlnum(t);
      if i :| 0 <= i < |s| && Alnum(Lower(s[i])) {
        assert Alnum(Lower(t[i]));
      }
      if i :| 0 <= i < |t| && Alnum(Lower(t[i])) {
        assert Alnum(Lower(s[i]));
      }
    }
  }

  /** What sanitizing yields, for every name: at most 40 characters of the label grammar with no
      doubled hyphen, and nothing exactly when the name has no letter or digit. */
  lemma SanitizedIsLabel(name: string)
    ensures Label(Sanitized(name)) && |Sanitized(name)| <= 40
    ensures Sanitized(name) != "" <==> HasAlnum(name)
  {
    TrimKeepsAlnum(name);
    CollapseOpens("", Trim(name, Space));
    TrimOpens(Collapse("", Trim(name, Space)));
    BoundedLabel(Trim(Collapse("", Trim(name, Space)), IsHyphen));
  }

  lemma {:induction false} CollapseKeepsLabels(out: string, s: string)
    requires Opens(out + s)
    ensures Collapse(out, s) == out + s
    decreases |s|
  {
    if s == "" {
      assert out + s == out;
    } else {
      var all := out + s;
      assert all[|out|] == s[0] && (out != "" ==> all[|out| - 1] == out[|out| - 1]);
      assert Kept(out, s[0]) == out + [s[0]];
      assert (out + [s[0]]) + s[1..] == all;
      CollapseKeepsLabels(out + [s[0]], s[1..]);
    }
  }

  lemma LabelKeepsItsEnds(s: string)
    requires Label(s)
    ensures Trim(s, Space) == s && Trim(s, IsHyphen) == s && Opens(s)
  {
    TrimOpens(s);
  }

  lemma LabelIsFixed(s: string)
    requires Label(s) && |s| <= MAX_PREFIX
    ensures Sanitized(s) == s
  {
    hide Trim;
    hide Collapse;
    hide Label;
    LabelKeepsItsEnds(s);
    assert "" + s == s;
    CollapseKeepsLabels("", s);
  }

  /** Sanitizing twice is sanitizing once, and a name that already is a label stays as it is. */
  lemma SanitizeIsIdempotent(name: string)
    ensures Sanitized(Sanitized(name)) == Sanitized(name)
    ensures Label(name) && |name| <= MAX_PREFIX ==> Sanitized(name) == name
  {
    SanitizedIsLabel(name);
    LabelIsFixed(Sanitized(name));
    if Label(name) && |name| <= MAX_PREFIX {
      LabelIsFixed(name);
    }
    hide Sanitized;
  }

  // ── what a sanitized name spells ──

  /** The runs of letters and digits of a name, lowercased. */
  function Words(s: string): seq<string>
    decreases |s|
  {
    if s == "" then []
    else if !Alnum(Lower(s[0])) then Words(s[1..])
    else if |s| > 1 && Alnum(Lower(s[1])) then [[Lower(s[0])] + First(Words(s[1..]))] + Rest(Words(s[1..]))
    else [[Lower(s[0])]] + Words(s[1..])
  }

  function First(words: seq<string>): string {
    if words == [] then "" else words[0]
  }

  function Rest(words: seq<string>): seq<string> {
    if words == [] then [] else words[1..]
  }

  /** A text without the one hyphen it may end in. */
  function Shorn(s: string): string {
    if s != "" && s[|s| - 1] == '-' then s[..|s| - 1] else s
  }

  predicate StartsAlnum(s: string) {
    s != "" && Alnum(Lower(s[0]))
  }

  lemma {:induction false} WordsStart(s: string)
    ensures StartsAlnum(s) ==> Words(s) != [] && Words(s)[0] != ""
    decreases |s|
  {
  }

  /** The words of a text set behind what is there already. */
  function Behind(out: string, s: string): string {
    var words := Words(s);
    if words == [] then Shorn(out)
    else if out == "" || out[|out| - 1] == '-' || StartsAlnum(s) then out + Join(words, '-')
    else out + "-" + Join(words, '-')
  }

  /** What collecting makes of the rest of a name. */
  lemma {:induction false} CollapseJoins(out: string, s: string)
    ensures Shorn(Collapse(out, s)) == Behind(out, s)
    decreases |s|
  {
    hide Kept;
    hide Lower;
    if s != "" {
      CollapseJoins(Kept(out, s[0]), s[1..]);
      hide Collapse;
      if Alnum(Lower(s[0])) {
        LetterBehind(out, s);
      } else {
        OtherBehind(out, s);
      }
      hide Behind;
    }
  }

  lemma OtherBehind(out: string, s: string)
    requires s != "" && !Alnum(Lower(s[0]))
    ensures Behind(Kept(out, s[0]), s[1..]) == Behind(out, s)
  {
    KeptIs(out, s[0]);
    hide Kept;
    hide Lower;
    hide Join;
  }

  lemma LetterBehind(out: string, s: string)
    requires s != "" && Alnum(Lower(s[0]))
    ensures Behind(Kept(out, s[0]), s[1..]) == Behind(out, s)
  {
    KeptIs(out, s[0]);
    hide Kept;
    var c, words := Lower(s[0]), Words(s[1..]);
    WordsStart(s[1..]);
    hide Lower;
    if words != [] {
      JoinFirst([c], words);
      JoinMore([c], words);
      assert out + [c] + Join(words, '-') == out + ([c] + Join(words, '-'));
      assert out + [c] + "-" + Join(words, '-') == out + ([c] + ['-'] + Join(words, '-'));
    }
  }

  lemma KeptIs(out: string, r: char)
    ensures Kept(out, r) == if Alnum(Lower(r)) then out + [Lower(r)] else if out == "" || out[|out| - 1] == '-' then out else out + "-"
  {
  }

  lemma JoinFirst(front: string, words: seq<string>)
    requires words != []
    ensures Join([front + words[0]] + words[1..], '-') == front + Join(words, '-')
  {
    var longer := [front + words[0]] + words[1..];
    assert longer[1..] == words[1..];
    if |words| > 1 {
      var more := Join(words[1..], '-');
      assert front + words[0] + ['-'] + more == front + (words[0] + ['-'] + more);
    }
  }

  lemma JoinMore(front: string, words: seq<string>)
    requires words != []
    ensures Join([front] + words, '-') == front + ['-'] + Join(words, '-')
  {
    assert ([front] + words)[1..] == words;
  }

  /** Spaces are no part of any word. */
  lemma {:induction false} WordsWithoutSpaces(s: string)
    ensures Words(TrimLeft(s, Space)) == Words(s)
    decreases |s|
  {
    if s != "" && Space(s[0]) {
      WordsWithoutSpaces(s[1..]);
    }
  }

  lemma {:induction false} WordsBefore(s: string, c: char)
    requires !Alnum(Lower(c))
    ensures Words(s + [c]) == Words(s)
    decreases |s|
  {
    if s == "" {
      assert ([c])[1..] == "" && s + [c] == [c];
    } else {
      assert (s + [c])[1..] == s[1..] + [c] && (|s| > 1 ==> (s + [c])[1] == s[1]);
      WordsBefore(s[1..], c);
      if |s| == 1 {
        assert Words(s[1..]) == [];
      }
    }
  }

  lemma {:induction false} WordsTrimmed(s: string)
    ensures Words(TrimRight(s, Space)) == Words(s)
    decreases |s|
  {
    if s != "" && Space(s[|s| - 1]) {
      var t := s[..|s| - 1];
      WordsTrimmed(t);
      assert s == t + [s[|s| - 1]];
      WordsBefore(t, s[|s| - 1]);
    }
  }

  /** The sanitized name is the name's words in order with single hyphens between them, cut at 40
      characters without a hyphen at the cut. */
  lemma SanitizedSpells(name: string)
    ensures var whole := Join(Words(name), '-'); Sanitized(name) == if |whole| <= 40 then whole else Shorn(whole[..40])
  {
    hide Collapse;
    hide Words;
    hide Trim;
    hide Join;
    hide Opens;
    var whole := Join(Words(name), '-');
    Collected(name);
    if |whole| > 40 {
      FrontOpens(whole, 40);
      TrimOpens(whole[..40]);
    }
  }

  lemma FrontOpens(s: string, n: nat)
    requires Opens(s) && n <= |s|
    ensures Opens(s[..n])
  {
  }

  lemma Collected(name: string)
    ensures var whole := Join(Words(name), '-'); Trim(Collapse("", Trim(name, Space)), IsHyphen) == whole && Opens(whole)
  {
    var s := Trim(name, Space);
    WordsWithoutSpaces(name);
    WordsTrimmed(TrimLeft(name, Space));
    assert Words(s) == Words(name);
    hide Trim;
    hide Collapse;
    hide Words;
    hide Join;
    hide Opens;
    CollapseJoins("", s);
    BehindNothing(s);
    hide Behind;
    OpensEmpty();
    CollapseOpens("", s);
    TrimOpens(Collapse("", s));
  }

  lemma OpensEmpty()
    ensures Opens("")
  {
  }

  lemma BehindNothing(s: string)
    ensures Behind("", s) == Join(Words(s), '-')
  {
    hide Words;
    assert "" + Join(Words(s), '-') == Join(Words(s), '-');
  }

  /** Capitals become their small letters; digits and small letters stay. */
  lemma LowersLetters(k: nat)
    requires k < 26
    ensures Lower("ABCDEFGHIJKLMNOPQRSTUVWXYZ"[k]) == Lower("abcdefghijklmnopqrstuvwxyz"[k]) == "abcdefghijklmnopqrstuvwxyz"[k]
    ensures k < 10 ==> Lower("0123456789"[k]) == "0123456789"[k]
  {
  }

  // ── label lengths ──

  function ObjLabel(prefix: string, name: string, env: string): string {
    if prefix == "" || env == "" then "" else prefix + "-" + name + "-" + env
  }

  /** ^[a-z0-9]([a-z0-9-]*[a-z0-9])?$ */
  predicate LabelText(s: string) {
    s != "" && Alnum(s[0]) && Alnum(s[|s| - 1]) && forall i | 0 <= i < |s| :: Alnum(s[i]) || s[i] == '-'
  }

  function EffectivePrefix(explicit: string, name: string): string {
    if Trim(explicit, Space) != "" then Trim(explicit, Space) else Sanitized(name)
  }

  datatype Problem = EmptyPrefix | NotALabel | PrefixTooLong | LabelTooLong(env: string)

  predicate Fits(prefix: string, env: string) {
    |prefix + LONGEST_SUFFIX + env| <= MAX_LABEL
  }

  /** One problem for each deployment whose label would not fit, in the order they are declared. */
  function TooLong(prefix: string, envs: seq<string>): (errs: seq<Problem>)
    ensures errs == [] <==> forall e | e in envs :: Fits(prefix, e)
    ensures forall e | e in envs && !Fits(prefix, e) :: LabelTooLong(e) in errs
  {
    if envs == [] then []
    else
      var env := envs[|envs| - 1];
      TooLong(prefix, envs[..|envs| - 1]) + (if Fits(prefix, env) then [] else [LabelTooLong(env)])
  }

  method ValidateLengths(prefix: string, envs: seq<string>) returns (errs: seq<Problem>)
    ensures errs == if prefix == "" then [] else TooLong(prefix, envs)
    ensures errs == [] <==> prefix == "" || forall e | e in envs :: Fits(prefix, e)
    ensures forall x | x in errs :: x.LabelTooLong? && x.env in envs && !Fits(prefix, x.env)
  {
    errs := [];
    if prefix == "" {
      return;
    }
    for i := 0 to |envs|
      invariant errs == TooLong(prefix, envs[..i])
      invariant forall x | x in errs :: x.LabelTooLong? && x.env in envs && !Fits(prefix, x.env)
    {
      assert envs[..i + 1][..i] == envs[..i];
      if |prefix + LONGEST_SUFFIX + envs[i]| > MAX_LABEL {
        errs := errs + [LabelTooLong(envs[i])];
      }
    }
    assert envs[..|envs|] == envs;
  }

  /** validateObjLabelPrefix over the declared deployments. */
  method ValidatePrefix(explicit: string, name: string, envs: seq<string>) returns (errs: seq<Problem>)
    ensures var p := EffectivePrefix(explicit, name);
            errs == [] <==> LabelText(p) && |p| <= MAX_PREFIX && forall e | e in envs :: Fits(p, e)
    ensures var p := EffectivePrefix(explicit, name);
            p != "" ==>
              && (NotALabel in errs <==> !LabelText(p)) && (PrefixTooLong in errs <==> |p| > MAX_PREFIX)
              && |errs| >= |TooLong(p, envs)| && errs[|errs| - |TooLong(p, envs)|..] == TooLong(p, envs)
  {
    var got := EffectivePrefix(explicit, name);
    if got == "" {
      return [EmptyPrefix];
    }
    errs := [];
    if !LabelText(got) {
      errs := errs + [NotALabel];
    }
    if |got| > MAX_PREFIX {
      errs := errs + [PrefixTooLong];
    }
    var long := ValidateLengths(got, envs);
    errs := errs + long;
  }

  /** Checking the longest suffix is checking both buckets: the registry label fits exactly when
      the check passes, and then the chunks label fits too. */
  lemma BothBucketsFit(prefix: string, env: string)
    requires prefix != "" && env != ""
    ensures Fits(prefix, env) <==> |ObjLabel(prefix, "harbor-registry", env)| <= 63
    ensures Fits(prefix, env) ==> |ObjLabel(prefix, "loki-chunks", env)| <= 63
  {
    assert |LONGEST_SUFFIX| == |"harbor-registry"| + 2;
  }

  /** A derived prefix can only fail on length: its text is always valid once the name has a letter
      or a digit. */
  lemma DerivedPrefixIsValid(explicit: string, name: string)
    requires Trim(explicit, Space) == ""
    ensures var p := EffectivePrefix(explicit, name); LabelText(p) && |p| <= MAX_PREFIX <==> HasAlnum(name)
  {
    SanitizedIsLabel(name);
  }

  /** An explicit prefix is used as it is written, apart from spaces around it, whatever the name. */
  lemma ExplicitPrefixWins(before: string, prefix: string, after: string, name: string)
    requires prefix != "" && !Space(prefix[0]) && !Space(prefix[|prefix| - 1])
    requires (forall c | c in before :: Space(c)) && (forall c | c in after :: Space(c))
    ensures EffectivePrefix(before + prefix + after, name) == prefix
  {
    TrimsLeft(before, prefix + after);
    TrimsRight(prefix, after);
    assert before + prefix + after == before + (prefix + after) && (prefix + after)[0] == prefix[0];
  }

  lemma {:induction false} TrimsLeft(spaces: string, rest: string)
    requires (forall c | c in spaces :: Space(c)) && rest != "" && !Space(rest[0])
    ensures TrimLeft(spaces + rest, Space) == rest
    decreases |spaces|
  {
    if spaces == "" {
      assert spaces + rest == rest;
    } else {
      assert spaces[0] in spaces && (spaces + rest)[1..] == spaces[1..] + rest;
      TrimsLeft(spaces[1..], rest);
    }
  }

  lemma {:induction false} TrimsRight(rest: string, spaces: string)
    requires (forall c | c in spaces :: Space(c)) && rest != "" && !Space(rest[|rest| - 1])
    ensures TrimRight(rest + spaces, Space) == rest
    decreases |spaces|
  {
    if spaces == "" {
      assert rest + spaces == rest;
    } else {
      var n := |spaces| - 1;
      assert spaces[n] in spaces && (rest + spaces)[..|rest + spaces| - 1] == rest + spaces[..n];
      TrimsRight(rest, spaces[..n]);
    }
  }
}
