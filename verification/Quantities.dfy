/** Kubernetes quantities as exact rationals, and the scalar comparison built on them. */
module Quantities {
  import opened Values

  // ── the grammar ──

  predicate Digit(c: char) { '0' <= c <= '9' }
  predicate Letter(c: char) { 'a' <= c <= 'z' || 'A' <= c <= 'Z' }
  predicate Digits(s: string) { s != "" && forall i | 0 <= i < |s| :: Digit(s[i]) }
  predicate Letters(s: string) { forall i | 0 <= i < |s| :: Letter(s[i]) }
  predicate Sign(s: string) { s == "" || s == "+" || s == "-" }

  datatype Exponent = Exponent(letter: char, sign: string, digits: string)
  datatype Quantity = Quantity(sign: string, whole: string, frac: Option<string>, exp: Option<Exponent>, suffix: string)

  /** A number in the apiserver's decimal notation followed by letters. */
  predicate WellFormed(q: Quantity) {
    && Sign(q.sign) && Digits(q.whole)
    && (q.frac.Some? ==> Digits(q.frac.value))
    && (q.exp.Some? ==> q.exp.value.letter in "eE" && Sign(q.exp.value.sign) && Digits(q.exp.value.digits))
    && Letters(q.suffix)
  }

  function Render(q: Quantity): string {
    q.sign + (q.whole + (RenderFrac(q.frac) + (RenderExp(q.exp) + q.suffix)))
  }

  function RenderFrac(f: Option<string>): string {
    if f.None? then "" else "." + f.value
  }

  function RenderExp(e: Option<Exponent>): string {
    if e.None? then "" else [e.value.letter] + (e.value.sign + e.value.digits)
  }

  // ── the parser behind the capturing expression ──

  function DigitRun(s: string): (n: nat)
    ensures n <= |s|
    ensures forall i | 0 <= i < n :: Digit(s[i])
    ensures n < |s| ==> !Digit(s[n])
  {
    if s != "" && Digit(s[0]) then 1 + DigitRun(s[1..]) else 0
  }

  function SignRun(s: string): (n: nat)
    ensures n <= |s|
  {
    if s != "" && (s[0] == '+' || s[0] == '-') then 1 else 0
  }

  /** A text cut in three. */
  lemma CutInThree(s: string, i: nat, j: nat)
    requires i <= j <= |s|
    ensures s == (s[..i] + s[i..j]) + s[j..] && s == s[..i] + (s[i..j] + s[j..])
  {
  }

  function ParseFrac(s: string): (r: (Option<string>, string))
    ensures RenderFrac(r.0) + r.1 == s
    ensures r.0.Some? ==> Digits(r.0.value)
  {
    var n := if s != "" && s[0] == '.' then DigitRun(s[1..]) else 0;
    if n > 0 then
      CutInThree(s, 1, 1 + n);
      assert s[..1] == ".";
      (Some(s[1..1 + n]), s[1 + n..])
    else (None, s)
  }

  lemma ExpText(s: string, g: nat, n: nat)
    requires 1 + g + n <= |s|
    ensures [s[0]] + (s[1..1 + g] + s[1 + g..1 + g + n]) + s[1 + g + n..] == s
  {
    var r := [s[0]] + (s[1..1 + g] + s[1 + g..1 + g + n]) + s[1 + g + n..];
    assert |r| == |s|;
    forall k | 0 <= k < |s|
      ensures r[k] == s[k]
    {
    }
  }

  lemma Glue(a: string, b: string, c: string)
    ensures (a + b) + c == a + (b + c)
  {
  }

  lemma DigitsThere(s: string, at: nat, n: nat)
    requires at <= |s| && n == DigitRun(s[at..]) && n > 0
    ensures Digits(s[at..at + n])
  {
    assert s[at..at + n] == s[at..][..n];
  }

  lemma SignThere(s: string, g: nat)
    requires s != "" && g == SignRun(s[1..])
    ensures Sign(s[1..1 + g])
  {
    assert s[1..1 + g] == s[1..][..g];
  }

  function ParseExp(s: string): (r: (Option<Exponent>, string))
    ensures RenderExp(r.0) + r.1 == s
    ensures r.0.Some? ==> r.0.value.letter in "eE" && Sign(r.0.value.sign) && Digits(r.0.value.digits)
  {
    if s != "" && s[0] in "eE" then
      var g := SignRun(s[1..]);
      var n := DigitRun(s[1 + g..]);
      if n > 0 then
        ExpText(s, g, n);
        DigitsThere(s, 1 + g, n);
        SignThere(s, g);
        (Some(Exponent(s[0], s[1..1 + g], s[1 + g..1 + g + n])), s[1 + g + n..])
      else (None, s)
    else (None, s)
  }

  /** The rest of the parse, once the sign and the leading digits are cut off. */
  function ParseAfter(sign: string, whole: string, more: string): (r: Option<Quantity>)
    requires Sign(sign) && (whole == "" || Digits(whole))
    ensures r.Some? ==> WellFormed(r.value)
  {
    var (frac, tail) := ParseFrac(more);
    var (exp, rest) := ParseExp(tail);
    if whole != "" && Letters(rest) then Some(Quantity(sign, whole, frac, exp, rest)) else None
  }

  function Parse(s: string): (r: Option<Quantity>)
    ensures r.Some? ==> WellFormed(r.value)
  {
    var g := SignRun(s);
    var n := DigitRun(s[g..]);
    assert s[g..g + n] == s[g..][..n];
    ParseAfter(s[..g], s[g..g + n], s[g + n..])
  }

  lemma AfterSound(sign: string, whole: string, more: string)
    requires Sign(sign) && (whole == "" || Digits(whole))
    ensures var r := ParseAfter(sign, whole, more); r.Some? ==> Render(r.value) == sign + (whole + more)
  {
    hide ParseFrac;
    hide ParseExp;
    hide RenderFrac;
    hide RenderExp;
  }

  lemma {:induction false} ParseSound(s: string)
    ensures Parse(s).Some? ==> Render(Parse(s).value) == s
  {
    hide DigitRun;
    hide ParseAfter;
    hide Render;
    var g := SignRun(s);
    assert Sign(s[..g]);
    hide SignRun;
    var n := DigitRun(s[g..]);
    CutInThree(s, g, g + n);
    assert s[g..g + n] == s[g..][..n];
    AfterSound(s[..g], s[g..g + n], s[g + n..]);
  }

  lemma {:induction false} DigitRunOf(d: string, rest: string)
    requires forall i | 0 <= i < |d| :: Digit(d[i])
    requires rest != "" ==> !Digit(rest[0])
    ensures DigitRun(d + rest) == |d|
  {
    if d == "" {
      assert d + rest == rest;
    } else {
      assert (d + rest)[0] == d[0] && (d + rest)[1..] == d[1..] + rest;
      DigitRunOf(d[1..], rest);
    }
  }

  lemma {:induction false} SlicesOf(a: string, b: string, c: string)
    ensures var s := a + (b + c);
            s[..|a|] == a && s[|a|..] == b + c && s[|a|..|a| + |b|] == b && s[|a| + |b|..] == c
  {
  }

  lemma {:induction false} SignRunOf(sign: string, digits: string, rest: string)
    requires Sign(sign) && Digits(digits)
    ensures SignRun(sign + (digits + rest)) == |sign|
  {
    if sign == "" {
      assert sign + (digits + rest) == digits + rest && Digit(digits[0]);
    }
  }

  lemma {:induction false} NoDigitsInLetters(s: string)
    requires Letters(s)
    ensures SignRun(s) == 0 && DigitRun(s) == 0
  {
    assert s != "" ==> Letter(s[0]);
  }

  lemma {:induction false} ParseNoExp(suffix: string)
    requires Letters(suffix)
    ensures ParseExp(suffix) == (None, suffix)
  {
    if suffix != "" {
      assert forall i | 0 <= i < |suffix[1..]| :: suffix[1..][i] == suffix[i + 1];
      NoDigitsInLetters(suffix[1..]);
      assert suffix[1..][0..] == suffix[1..];
    }
  }

  lemma ParseExpAt(s: string, g: nat, n: nat)
    requires s != "" && s[0] in "eE" && SignRun(s[1..]) == g && 1 + g <= |s| && DigitRun(s[1 + g..]) == n && n > 0
    ensures 1 + g + n <= |s| && ParseExp(s) == (Some(Exponent(s[0], s[1..1 + g], s[1 + g..1 + g + n])), s[1 + g + n..])
  {
    hide SignRun;
    hide DigitRun;
  }

  lemma {:induction false} ParseSomeExp(x: Exponent, suffix: string)
    requires x.letter in "eE" && Sign(x.sign) && Digits(x.digits) && Letters(suffix)
    ensures ParseExp([x.letter] + (x.sign + (x.digits + suffix))) == (Some(x), suffix)
  {
    var s, tail := [x.letter] + (x.sign + (x.digits + suffix)), x.sign + (x.digits + suffix);
    SignRunOf(x.sign, x.digits, suffix);
    assert suffix != "" ==> Letter(suffix[0]);
    DigitRunOf(x.digits, suffix);
    hide SignRun;
    hide DigitRun;
    hide ParseExp;
    hide Letters;
    assert s[1..] == tail;
    SlicesOf([x.letter], x.sign, x.digits + suffix);
    Glue([x.letter], x.sign, x.digits + suffix);
    SlicesOf([x.letter] + x.sign, x.digits, suffix);
    ParseExpAt(s, |x.sign|, |x.digits|);
  }

  lemma {:induction false} ParseExpOf(e: Option<Exponent>, suffix: string)
    requires e.Some? ==> e.value.letter in "eE" && Sign(e.value.sign) && Digits(e.value.digits)
    requires Letters(suffix)
    ensures ParseExp(RenderExp(e) + suffix) == (e, suffix)
  {
    hide ParseExp;
    if e.None? {
      assert RenderExp(e) + suffix == suffix;
      ParseNoExp(suffix);
    } else {
      var x := e.value;
      Glue([x.letter], x.sign + x.digits, suffix);
      Glue(x.sign, x.digits, suffix);
      ParseSomeExp(x, suffix);
    }
  }

  lemma {:induction false} ParseSomeFrac(f: string, tail: string)
    requires Digits(f) && (tail == "" || (tail[0] != '.' && !Digit(tail[0])))
    ensures ParseFrac("." + (f + tail)) == (Some(f), tail)
  {
    DigitRunOf(f, tail);
    SlicesOf(".", f, tail);
    hide DigitRun;
    hide Digits;
    assert ("." + (f + tail))[1..] == f + tail;
  }

  lemma {:induction false} ParseFracOf(f: Option<string>, tail: string)
    requires f.Some? ==> Digits(f.value)
    requires tail == "" || (tail[0] != '.' && !Digit(tail[0]))
    ensures ParseFrac(RenderFrac(f) + tail) == (f, tail)
  {
    if f.Some? {
      assert RenderFrac(f) + tail == "." + (f.value + tail);
      ParseSomeFrac(f.value, tail);
    } else {
      assert RenderFrac(f) + tail == tail;
    }
  }

  lemma {:induction false} Assembled(q: Quantity, mid: string, tail: string)
    requires WellFormed(q) && DigitRun(q.whole + mid) == |q.whole|
    requires ParseFrac(mid) == (q.frac, tail) && ParseExp(tail) == (q.exp, q.suffix)
    ensures Parse(q.sign + (q.whole + mid)) == Some(q)
  {
    hide Parse;
    hide ParseFrac;
    hide ParseExp;
    hide DigitRun;
    hide SignRun;
    SignRunOf(q.sign, q.whole, mid);
    SlicesOf(q.sign, q.whole, mid);
    ParsedAs(q.sign + (q.whole + mid), q, mid, tail);
  }

  lemma {:induction false} ParsedAs(s: string, q: Quantity, mid: string, tail: string)
    requires WellFormed(q) && |q.sign| + |q.whole| <= |s|
    requires SignRun(s) == |q.sign| && DigitRun(s[|q.sign|..]) == |q.whole|
    requires s[..|q.sign|] == q.sign && s[|q.sign|..|q.sign| + |q.whole|] == q.whole && s[|q.sign| + |q.whole|..] == mid
    requires ParseFrac(mid) == (q.frac, tail) && ParseExp(tail) == (q.exp, q.suffix)
    ensures Parse(s) == Some(q)
  {
    hide Parse;
    hide DigitRun;
    hide SignRun;
    hide ParseAfter;
    hide ParseFrac;
    hide ParseExp;
    AfterParsed(q, mid, tail);
    ParseCuts(s, |q.sign|, |q.whole|);
  }

  lemma ParseCuts(s: string, g: nat, n: nat)
    requires g + n <= |s| && SignRun(s) == g && DigitRun(s[g..]) == n
    ensures Sign(s[..g]) && (n == 0 || Digits(s[g..g + n])) && Parse(s) == ParseAfter(s[..g], s[g..g + n], s[g + n..])
  {
    hide ParseAfter;
    assert s[g..g + n] == s[g..][..n];
  }

  lemma AfterParsed(q: Quantity, mid: string, tail: string)
    requires WellFormed(q) && ParseFrac(mid) == (q.frac, tail) && ParseExp(tail) == (q.exp, q.suffix)
    ensures ParseAfter(q.sign, q.whole, mid) == Some(q)
  {
    hide ParseFrac;
    hide ParseExp;
  }

  /** The capture is unique: the text of any well-formed quantity parses back to it alone, so an
      `E` is an exponent exactly when digits follow it, and the exa suffix otherwise. */
  lemma {:induction false} ParseRender(q: Quantity)
    requires WellFormed(q)
    ensures Parse(Render(q)) == Some(q)
  {
    var tail := RenderExp(q.exp) + q.suffix;
    var mid := RenderFrac(q.frac) + tail;
    hide Parse;
    hide ParseExp;
    hide ParseFrac;
    hide DigitRun;
    ParseExpOf(q.exp, q.suffix);
    assert tail != "" ==> Letter(tail[0]) by {
      if q.exp.None? {
        assert tail == q.suffix;
      }
    }
    ParseFracOf(q.frac, tail);
    assert mid == "" || !Digit(mid[0]) by {
      if q.frac.None? {
        assert mid == tail;
      }
    }
    DigitRunOf(q.whole, mid);
    Assembled(q, mid, tail);
  }

  lemma RenderInjective(p: Quantity, q: Quantity)
    requires WellFormed(p) && WellFormed(q) && Render(p) == Render(q)
    ensures p == q
  {
    ParseRender(p);
    ParseRender(q);
  }

  // ── the value ──

  function Number(digits: string): nat
    requires forall i | 0 <= i < |digits| :: Digit(digits[i])
  {
    if digits == "" then 0
    else
      assert Digit(digits[|digits| - 1]);
      10 * Number(digits[..|digits| - 1]) + (digits[|digits| - 1] as int - '0' as int)
  }

  function Power(base: real, n: nat): (p: real)
    requires base > 0.0
    ensures p > 0.0
  {
    if n == 0 then 1.0 else base * Power(base, n - 1)
  }

  function Scaled(x: real, base: real, exp: int): real
    requires base > 0.0
  {
    if exp >= 0 then x * Power(base, exp) else x / Power(base, -exp)
  }

  function Signed(sign: string, n: int): int {
    if sign == "-" then -n else n
  }

  function Mantissa(q: Quantity): real
    requires WellFormed(q)
  {
    var frac := q.frac.GetOr("");
    var digits := q.whole + frac;
    var n := Signed(q.sign, Number(digits)) as real / Power(10.0, |frac|);
    if q.exp.None? then n else Scaled(n, 10.0, Signed(q.exp.value.sign, Number(q.exp.value.digits)))
  }

  /** The suffix table: base and exponent. */
  function Multiplier(suffix: string): (r: Option<(int, int)>)
    ensures r.Some? ==> r.value.0 > 0
  {
    match suffix
    case "" => Some((1, 0))
    case "n" => Some((1000, -3))
    case "u" => Some((1000, -2))
    case "m" => Some((1000, -1))
    case "k" => Some((1000, 1))
    case "M" => Some((1000, 2))
    case "G" => Some((1000, 3))
    case "T" => Some((1000, 4))
    case "P" => Some((1000, 5))
    case "E" => Some((1000, 6))
    case "Ki" => Some((1024, 1))
    case "Mi" => Some((1024, 2))
    case "Gi" => Some((1024, 3))
    case "Ti" => Some((1024, 4))
    case "Pi" => Some((1024, 5))
    case "Ei" => Some((1024, 6))
    case _ => None
  }

  /** An exact amount, and whether its text carried a unit or an exponent. */
  datatype Amount = Amount(value: real, marked: bool)

  function AmountOf(q: Quantity): Option<Amount>
    requires WellFormed(q)
  {
    match Multiplier(q.suffix)
    case None => None
    case Some((base, exp)) => Some(Amount(Scaled(Mantissa(q), base as real, exp), q.suffix != "" || q.exp.Some?))
  }

  function NatText(n: nat): string {
    if n < 10 then ['0' + n as char] else NatText(n / 10) + ['0' + (n % 10) as char]
  }

  function IntText(i: int): string {
    if i < 0 then "-" + NatText(-i) else NatText(i)
  }

  /** The spelling a quantity is read from; nothing but strings and numbers has one. */
  function NumericText(v: Value): Option<string> {
    match v
    case Str(s) => Some(s)
    case Int(i) => Some(IntText(i))
    case Float(text) => Some(text)
    case _ => None
  }

  function Reading(v: Value): Option<Amount> {
    match NumericText(v)
    case None => None
    case Some(text) =>
      match Parse(text)
      case None => None
      case Some(q) => AmountOf(q)
  }

  method QuantityRat(v: Value) returns (r: Option<Amount>)
    ensures r == Reading(v)
  {
    hide Parse;
    hide Multiplier;
    hide Mantissa;
    hide NumericText;
    var text := NumericText(v);
    if text.None? {
      return None;
    }
    var q := Parse(text.value);
    if q.None? {
      return None;
    }
    var mult := Multiplier(q.value.suffix);
    if mult.None? {
      return None;
    }
    var (b, e) := mult.value;
    var scale, base, exp := 1.0, b as real, if e < 0 then -e else e;
    for i := 0 to exp
      invariant scale == Power(base, i)
    {
      scale := scale * base;
    }
    var marked := q.value.suffix != "" || q.value.exp.Some?;
    var m := Mantissa(q.value);
    r := Some(Amount(if e < 0 then m / scale else m * scale, marked));
    assert base == b as real && mult == Some((b, e));
    assert r.value.value == Scaled(m, base, e);
    assert AmountOf(q.value) == Some(Amount(Scaled(m, base, e), marked));
  }

  // ── comparing two scalars ──

  /** How a scalar is spelled; `show` is the %v printer the source falls back to. */
  function ScalarText(v: Value, show: Value -> string): string {
    var text := NumericText(v);
    if text.Some? then text.value else show(v)
  }

  function ScalarEqual(delivered: Value, declared: Value, show: Value -> string): bool {
    var d, c := Reading(delivered), Reading(declared);
    if d.Some? && c.Some? && (d.value.marked || c.value.marked) then d.value.value == c.value.value
    else ScalarText(delivered, show) == ScalarText(declared, show)
  }

  method OverlayScalarEqual(delivered: Value, declared: Value, show: Value -> string) returns (equal: bool)
    ensures equal == ScalarEqual(delivered, declared, show)
  {
    var d := QuantityRat(delivered);
    var c := QuantityRat(declared);
    if d.Some? && c.Some? && (d.value.marked || c.value.marked) {
      return d.value.value == c.value.value;
    }
    equal := ScalarText(delivered, show) == ScalarText(declared, show);
  }

  /** The reading of a text is the value of the one quantity it spells, and nothing else has one. */
  lemma ReadingIsUnique(text: string, q: Quantity)
    requires WellFormed(q) && Render(q) == text
    ensures Reading(Str(text)) == AmountOf(q)
  {
    hide Parse;
    hide AmountOf;
    hide Render;
    hide WellFormed;
    ParseRender(q);
  }

  lemma ReadingNeedsAQuantity(v: Value)
    ensures Reading(v).Some? <==>
            NumericText(v).Some? &&
            exists q | WellFormed(q) && Multiplier(q.suffix).Some? :: Render(q) == NumericText(v).value
  {
    hide Parse;
    hide Render;
    hide WellFormed;
    hide Multiplier;
    hide Mantissa;
    if NumericText(v).Some? {
      var text := NumericText(v).value;
      ParseSound(text);
      forall q | WellFormed(q) && Render(q) == text ensures Parse(text) == Some(q) {
        ParseRender(q);
      }
    }
  }

  lemma ScalarEqualIsReflexiveAndSymmetric(a: Value, b: Value, show: Value -> string)
    ensures ScalarEqual(a, a, show)
    ensures ScalarEqual(a, b, show) == ScalarEqual(b, a, show)
  {
  }

  /** Two quantities, one of them marked, are equal exactly when their amounts are; any other two
      values exactly when they are spelled alike. */
  lemma ScalarEqualMeans(p: Quantity, q: Quantity, show: Value -> string)
    requires WellFormed(p) && WellFormed(q)
    ensures var a, b := AmountOf(p), AmountOf(q);
            ScalarEqual(Str(Render(p)), Str(Render(q)), show) <==>
            if a.Some? && b.Some? && (a.value.marked || b.value.marked) then a.value.value == b.value.value
            else p == q
  {
    hide Reading;
    hide AmountOf;
    hide Render;
    hide WellFormed;
    ReadingIsUnique(Render(p), p);
    ReadingIsUnique(Render(q), q);
    if Render(p) == Render(q) {
      RenderInjective(p, q);
    }
  }

  lemma {:induction false} NatTextReads(n: nat)
    ensures Digits(NatText(n)) && Number(NatText(n)) == n
    decreases n
  {
    if n < 10 {
      assert NatText(n)[..0] == "";
    } else {
      NatTextReads(n / 10);
      var last := ['0' + (n % 10) as char];
      assert (NatText(n / 10) + last)[..|NatText(n / 10)|] == NatText(n / 10);
    }
  }

  /** An integer is written in the shortest way: no leading zero, and a sign only when negative. */
  lemma {:induction false} IntTextIsShortest(i: int)
    ensures i == 0 ==> IntText(i) == "0"
    ensures i > 0 ==> Digit(IntText(i)[0]) && IntText(i)[0] != '0'
    ensures i < 0 ==> |IntText(i)| > 1 && IntText(i)[0] == '-' && Digit(IntText(i)[1]) && IntText(i)[1] != '0'
  {
    NatTextIsShortest(if i < 0 then -i else i);
  }

  lemma {:induction false} NatTextIsShortest(n: nat)
    ensures NatText(n) != "" && Digit(NatText(n)[0]) && (NatText(n)[0] == '0' <==> n == 0)
    ensures n == 0 ==> NatText(n) == "0"
    decreases n
  {
    if n >= 10 {
      NatTextIsShortest(n / 10);
    }
  }

  function IntQuantity(i: int): Quantity {
    if i < 0 then Quantity("-", NatText(-i), None, None, "") else Quantity("", NatText(i), None, None, "")
  }

  lemma IntTextRenders(i: int)
    ensures WellFormed(IntQuantity(i)) && Render(IntQuantity(i)) == IntText(i)
    ensures Signed(IntQuantity(i).sign, Number(IntQuantity(i).whole)) == i
  {
    NatTextReads(if i < 0 then -i else i);
    hide NatText;
    hide Number;
  }

  /** A live or declared integer is read as the amount it is, so `3e9` meets 3000000000. */
  lemma {:induction false} IntReadsAsItself(i: int)
    ensures Reading(Int(i)) == Some(Amount(i as real, false))
  {
    IntTextRenders(i);
    var q := IntQuantity(i);
    assert q.frac.None? && q.exp.None? && q.suffix == "";
    hide AmountOf;
    hide IntText;
    hide IntQuantity;
    hide Render;
    hide WellFormed;
    hide Reading;
    hide Number;
    ReadingIsUnique(IntText(i), q);
    UnscaledMantissa(q);
    ReadAsText(i);
  }

  lemma ReadAsText(i: int)
    ensures Reading(Int(i)) == Reading(Str(IntText(i)))
  {
    hide Parse;
    hide AmountOf;
    hide IntText;
  }

  lemma UnscaledMantissa(q: Quantity)
    requires WellFormed(q) && q.frac.None? && q.exp.None? && q.suffix == ""
    ensures AmountOf(q) == Some(Amount(Signed(q.sign, Number(q.whole)) as real, false))
  {
    assert q.whole + "" == q.whole;
  }

  /** One apiserver canonicalisation, for every amount: a unit and the thousandth of it. */
  lemma {:induction false} MilliIsAThousandth(whole: string, thousand: string, show: Value -> string)
    requires Digits(whole) && Digits(thousand) && Number(thousand) == 1000 * Number(whole)
    ensures ScalarEqual(Str(whole), Str(thousand + "m"), show)
  {
    var p, q := Quantity("", whole, None, None, ""), Quantity("", thousand, None, None, "m");
    hide Reading;
    hide Mantissa;
    hide Number;
    assert Render(p) == whole && Render(q) == thousand + "m";
    ReadingIsUnique(whole, p);
    ReadingIsUnique(thousand + "m", q);
    PlainMantissa(p);
    PlainMantissa(q);
    assert Power(1000.0, 1) == 1000.0 * Power(1000.0, 0);
  }

  lemma PlainMantissa(q: Quantity)
    requires WellFormed(q) && q.sign == "" && q.frac.None? && q.exp.None?
    ensures Mantissa(q) == Number(q.whole) as real
  {
    assert q.whole + "" == q.whole;
  }

  // ── what the units stand for ──

  /** One of each unit, in plain numbers: the decimal ones by thousands, the binary ones by 1024. */
  function OneOf(unit: string): Option<real> {
    if unit == "" then Some(1.0)
    else if unit == "n" then Some(0.000000001)
    else if unit == "u" then Some(0.000001)
    else if unit == "m" then Some(0.001)
    else if unit == "k" then Some(1000.0)
    else if unit == "M" then Some(1000000.0)
    else if unit == "G" then Some(1000000000.0)
    else if unit == "T" then Some(1000000000000.0)
    else if unit == "P" then Some(1000000000000000.0)
    else if unit == "E" then Some(1000000000000000000.0)
    else if unit == "Ki" then Some(1024.0)
    else if unit == "Mi" then Some(1048576.0)
    else if unit == "Gi" then Some(1073741824.0)
    else if unit == "Ti" then Some(1099511627776.0)
    else if unit == "Pi" then Some(1125899906842624.0)
    else if unit == "Ei" then Some(1152921504606846976.0)
    else None
  }

  lemma Powers()
    ensures Power(1.0, 0) == 1.0
    ensures Power(1000.0, 1) == 1000.0 && Power(1000.0, 2) == 1000000.0 && Power(1000.0, 3) == 1000000000.0
    ensures Power(1000.0, 4) == 1000000000000.0 && Power(1000.0, 5) == 1000000000000000.0
    ensures Power(1000.0, 6) == 1000000000000000000.0
    ensures Power(1024.0, 1) == 1024.0 && Power(1024.0, 2) == 1048576.0 && Power(1024.0, 3) == 1073741824.0
    ensures Power(1024.0, 4) == 1099511627776.0 && Power(1024.0, 5) == 1125899906842624.0
    ensures Power(1024.0, 6) == 1152921504606846976.0
  {
    assert Power(1000.0, 0) == 1.0 && Power(1024.0, 0) == 1.0;
  }

  /** The table's base and exponent make one of the unit. */
  lemma UnitPower(unit: string)
    ensures match Multiplier(unit)
            case None => OneOf(unit).None?
            case Some((base, exp)) =>
              && OneOf(unit).Some?
              && if exp >= 0 then Power(base as real, exp) == OneOf(unit).value else Power(base as real, -exp) * OneOf(unit).value == 1.0
  {
    Powers();
    hide Power;
  }

  /** So much of a unit, in ones. */
  function Times(x: real, unit: string): real
    requires OneOf(unit).Some?
  {
    x * OneOf(unit).value
  }

  lemma UnitScales(x: real, unit: string)
    ensures match Multiplier(unit)
            case None => OneOf(unit).None?
            case Some((base, exp)) => OneOf(unit).Some? && Scaled(x, base as real, exp) == Times(x, unit)
  {
    UnitPower(unit);
    var mult := Multiplier(unit);
    hide Multiplier;
    hide OneOf;
    hide Power;
    if mult.Some? {
      ScaledOne(x, mult.value.0 as real, mult.value.1, OneOf(unit).value);
    }
    hide Scaled;
  }

  lemma ScaledOne(x: real, base: real, exp: int, one: real)
    requires base > 0.0 && if exp >= 0 then Power(base, exp) == one else Power(base, -exp) * one == 1.0
    ensures Scaled(x, base, exp) == x * one
  {
    hide Power;
    if exp < 0 {
      Inverse(x, Power(base, -exp), one);
    }
  }

  lemma Inverse(x: real, p: real, one: real)
    requires p > 0.0 && p * one == 1.0
    ensures x / p == x * one
  {
    assert x * one * p == x * (p * one);
    assert (x * one * p) / p == x * one;
  }

  lemma DivideBack(x: real, p: real)
    requires p > 0.0
    ensures x / p * p == x
  {
  }

  /** `v` is `n`, with the point moved back over the places behind it and the exponent applied. */
  predicate Shifted(v: real, n: real, places: nat, exp: Option<Exponent>)
    requires exp.Some? ==> Digits(exp.value.digits)
  {
    var left := v * Power(10.0, places);
    match exp
    case None => left == n
    case Some(e) =>
      if e.sign == "-" then left * Power(10.0, Number(e.digits)) == n else left == n * Power(10.0, Number(e.digits))
  }

  /** The digits of a quantity without the point. */
  function Whole(q: Quantity): int
    requires WellFormed(q)
  {
    (if q.sign == "-" then -1 else 1) * Number(q.whole + q.frac.GetOr(""))
  }

  predicate IsMantissa(q: Quantity, v: real)
    requires WellFormed(q)
  {
    Shifted(v, Whole(q) as real, |q.frac.GetOr("")|, q.exp)
  }

  lemma MantissaMeans(q: Quantity)
    requires WellFormed(q)
    ensures IsMantissa(q, Mantissa(q))
  {
    MantissaOf(q);
    if q.exp.None? {
      DivideBack(Whole(q) as real, Power(10.0, |q.frac.GetOr("")|));
    } else {
      var n, places := Whole(q) as real, |q.frac.GetOr("")|;
      DivideBack(n, Power(10.0, places));
      ShiftedBack(n / Power(10.0, places), n, places, q.exp.value);
    }
    hide Mantissa;
    hide Number;
    hide Power;
    hide Scaled;
    hide Whole;
    hide WellFormed;
  }

  lemma ShiftedBack(x: real, n: real, places: nat, e: Exponent)
    requires Digits(e.digits) && Sign(e.sign) && x * Power(10.0, places) == n
    ensures Shifted(Scaled(x, 10.0, Signed(e.sign, Number(e.digits))), n, places, Some(e))
  {
    ScaledBack(x, n, Power(10.0, places), Number(e.digits), e.sign);
    hide Number;
    hide Power;
    hide Scaled;
    hide Signed;
  }

  lemma MantissaOf(q: Quantity)
    requires WellFormed(q)
    ensures var x := Whole(q) as real / Power(10.0, |q.frac.GetOr("")|);
            Mantissa(q) == if q.exp.None? then x else Scaled(x, 10.0, Signed(q.exp.value.sign, Number(q.exp.value.digits)))
  {
    hide Number;
    hide Power;
    hide Scaled;
  }

  lemma ScaledBack(x: real, n: real, shift: real, e: nat, sign: string)
    requires Sign(sign) && x * shift == n
    ensures var v := Scaled(x, 10.0, Signed(sign, e));
            if sign == "-" then v * shift * Power(10.0, e) == n else v * shift == n * Power(10.0, e)
  {
    hide Power;
    ScaledIs(x, e, sign);
    if sign == "-" {
      Down(x, n, shift, Power(10.0, e));
    } else {
      Commute(x, Power(10.0, e), shift);
    }
    hide Scaled;
  }

  lemma ScaledIs(x: real, e: nat, sign: string)
    ensures Scaled(x, 10.0, Signed(sign, e)) == if sign == "-" then x / Power(10.0, e) else x * Power(10.0, e)
  {
    if e == 0 {
      assert Power(10.0, 0) == 1.0;
    }
  }

  lemma Down(x: real, n: real, shift: real, p: real)
    requires p > 0.0 && x * shift == n
    ensures x / p * shift * p == n
  {
    DivideBack(x, p);
    Commute(x / p, shift, p);
  }

  lemma Commute(x: real, a: real, b: real)
    ensures x * a * b == x * b * a
  {
  }

  /** The amount of a quantity: its digits without the point, shifted by the places behind it and
      by its exponent, times one of its unit. A unit that is not in the list has no amount, `K` among
      them. */
  lemma AmountMeans(q: Quantity)
    requires WellFormed(q)
    ensures AmountOf(q).Some? <==> OneOf(q.suffix).Some?
    ensures AmountOf(q).Some? ==>
              exists v :: IsMantissa(q, v) &&
                          AmountOf(q) == Some(Amount(Times(v, q.suffix), q.suffix != "" || q.exp.Some?))
    ensures q.suffix == "K" ==> AmountOf(q).None?
  {
    UnitPower(q.suffix);
    MantissaMeans(q);
    assert OneOf("K") == None;
    hide OneOf;
    hide IsMantissa;
    if OneOf(q.suffix).Some? {
      AmountScaled(q);
    }
    hide Mantissa;
    hide Number;
    hide Power;
    hide Multiplier;
    hide Scaled;
    hide WellFormed;
  }

  lemma AmountScaled(q: Quantity)
    requires WellFormed(q) && OneOf(q.suffix).Some?
    ensures AmountOf(q) == Some(Amount(Times(Mantissa(q), q.suffix), q.suffix != "" || q.exp.Some?))
  {
    UnitScales(Mantissa(q), q.suffix);
    hide Mantissa;
    hide Multiplier;
    hide OneOf;
    hide Scaled;
    hide Times;
    hide WellFormed;
  }

  /** Whole numbers with units: equal exactly when they are the same number of ones. So 3072Mi is
      3Gi and 1500u is 1.5m. */
  lemma UnitsCompare(a: string, u: string, b: string, v: string, show: Value -> string)
    requires Digits(a) && Digits(b) && Letters(u) && Letters(v) && u != ""
    requires OneOf(u).Some? && OneOf(v).Some?
    ensures ScalarEqual(Str(a + u), Str(b + v), show) <==>
            Times(Number(a) as real, u) == Times(Number(b) as real, v)
  {
    var p, q := Quantity("", a, None, None, u), Quantity("", b, None, None, v);
    WholeWithUnit(a, u);
    WholeWithUnit(b, v);
    PlainMantissa(p);
    PlainMantissa(q);
    AmountScaled(p);
    AmountScaled(q);
    ScalarEqualMeans(p, q, show);
    hide ScalarEqual;
    hide AmountOf;
    hide OneOf;
    hide Times;
    hide Mantissa;
    hide Number;
    hide Render;
    hide WellFormed;
    hide Digits;
    hide Letters;
  }

  lemma WholeWithUnit(whole: string, unit: string)
    requires Digits(whole) && Letters(unit)
    ensures var q := Quantity("", whole, None, None, unit); WellFormed(q) && Render(q) == whole + unit
  {
    assert "" + unit == unit && "" + (whole + unit) == whole + unit;
  }

  predicate Marked(v: Value) {
    Reading(v).Some? && Reading(v).value.marked
  }

  /** When the comparison chains: of three scalars equal in turn, the outer two are equal exactly
      when they are spelled alike, or both are quantities and one of them is marked. */
  lemma ScalarEqualChainsExactly(a: Value, b: Value, c: Value, show: Value -> string)
    requires ScalarEqual(a, b, show) && ScalarEqual(b, c, show)
    ensures ScalarEqual(a, c, show) <==>
            ScalarText(a, show) == ScalarText(c, show) || (Reading(a).Some? && Reading(c).Some? && (Marked(a) || Marked(c)))
  {
    hide Parse;
    hide AmountOf;
    hide IntText;
  }

  /** "1", "1000m" and "1.0": equal in turn, and the outer two are unmarked and spelled apart. */
  lemma ScalarEqualIsNotTransitive(show: Value -> string)
    ensures ScalarEqual(Str("1"), Str("1000m"), show) && ScalarEqual(Str("1000m"), Str("1.0"), show)
    ensures !ScalarEqual(Str("1"), Str("1.0"), show)
  {
    hide Reading;
    TheseRead();
    assert "1" != "1.0";
    ScalarEqualChainsExactly(Str("1"), Str("1000m"), Str("1.0"), show);
  }

  lemma TheseRead()
    ensures Reading(Str("1000m")) == Some(Amount(1.0, true))
    ensures Reading(Str("1")) == Some(Amount(1.0, false)) && Reading(Str("1.0")) == Some(Amount(1.0, false))
  {
    var milli, one, decimal := Quantity("", "1000", None, None, "m"), Quantity("", "1", None, None, ""),
                               Quantity("", "1", Some("0"), None, "");
    hide Reading;
    hide Number;
    assert Render(milli) == "1000m" && Render(one) == "1" && Render(decimal) == "1.0";
    ReadingIsUnique("1000m", milli);
    ReadingIsUnique("1", one);
    ReadingIsUnique("1.0", decimal);
    SmallNumbers();
    PlainMantissa(milli);
    PlainMantissa(one);
    assert "1" + "0" == "10" && Power(10.0, 1) == 10.0 * Power(10.0, 0);
    assert Mantissa(decimal) == 1.0;
    assert Power(1000.0, 1) == 1000.0 * Power(1000.0, 0);
  }

  lemma SmallNumbers()
    ensures Number("1") == 1 && Number("10") == 10 && Number("1000") == 1000
  {
    assert Number("1") == 1 by { assert "1"[..0] == ""; }
    assert Number("10") == 10 by { assert "10"[..1] == "1"; }
    assert Number("100") == 100 by { assert "100"[..2] == "10"; }
    assert Number("1000") == 1000 by { assert "1000"[..3] == "100"; }
  }
}
