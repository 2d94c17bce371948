/** Retrying a command in the OpenBao pod, and telling "it is not there" from "nobody answered". */
module BaoExec {
  // ── what a stderr says ──

  predicate StandsAt(s: string, i: nat, m: string) {
    i + |m| <= |s| && s[i..i + |m|] == m
  }

  predicate Contains(s: string, m: string) {
    exists i | 0 <= i <= |s| :: StandsAt(s, i, m)
  }

  predicate ContainsAny(s: string, markers: seq<string>) {
    exists k | 0 <= k < |markers| :: Contains(s, markers[k])
  }

  const TRANSIENT_MARKERS := ["No agent available", "error dialing backend", "unable to upgrade connection",
                              "error sending request", "TLS handshake timeout"]
  const POD_STATE_MARKERS := ["container not found", "container not running"]
  const ABSENCE_MARKERS := ["no value found", "field not present", "not present in secret", "no secret found", "secret not found"]
  const DENIED_ALONE := ["sealed", "permission denied", "missing client token", "invalid token", "connection refused",
                         "connection reset", "i/o timeout", "no route to host", "server gave http response to https client"]

  predicate IsPodState(stderr: string) {
    ContainsAny(stderr, POD_STATE_MARKERS)
  }

  /** The kubelet words its pod-state answers with a transport marker in front, so they are asked
      about first. */
  predicate IsTransient(stderr: string) {
    !IsPodState(stderr) && ContainsAny(stderr, TRANSIENT_MARKERS)
  }

  /** A character-wise lowercasing, applied to a text and to a table. */
  function Lowered(s: string, lower: char -> char): string {
    seq(|s|, i requires 0 <= i < |s| => lower(s[i]))
  }

  function LoweredAll(texts: seq<string>, lower: char -> char): seq<string> {
    seq(|texts|, i requires 0 <= i < |texts| => Lowered(texts[i], lower))
  }

  datatype Verdict = Found | Absent | Unknown | Indeterminate

  function Classify(stderr: string, lower: char -> char): Verdict {
    var low := Lowered(stderr, lower);
    if ContainsAny(low, DENIED_ALONE + LoweredAll(TRANSIENT_MARKERS, lower)) then Unknown
    else if ContainsAny(low, ABSENCE_MARKERS) then Absent
    else Indeterminate
  }

  datatype Answer = Answer(ok: bool, stdout: string, stderr: string)

  /** KVGetFieldOK: an undecided failure is settled by whether the pod itself answers unsealed;
      `trim` is TrimSpace. */
  function KVGetField(a: Answer, lower: char -> char, podUsable: bool, trim: string -> string): (string, Verdict) {
    if !a.ok then
      var v := Classify(a.stderr, lower);
      ("", if v == Indeterminate then if podUsable then Absent else Unknown else v)
    else if trim(a.stdout) == "" then ("", Absent)
    else (trim(a.stdout), Found)
  }

  lemma LoweredContains(s: string, m: string, lower: char -> char)
    requires Contains(s, m)
    ensures Contains(Lowered(s, lower), Lowered(m, lower))
  {
    var i :| 0 <= i <= |s| && StandsAt(s, i, m);
    forall j | 0 <= j < |m|
      ensures Lowered(s, lower)[i + j] == Lowered(m, lower)[j]
    {
      assert s[i..i + |m|][j] == s[i + j];
    }
    assert StandsAt(Lowered(s, lower), i, Lowered(m, lower));
  }

  /** A failure retried as transport is never evidence about the path: read as a KV failure it is
      Unknown, whatever else the text says and whether or not the pod is usable. */
  lemma TransportIsUnknown(stderr: string, lower: char -> char, podUsable: bool, trim: string -> string)
    requires IsTransient(stderr)
    ensures Classify(stderr, lower) == Unknown
    ensures KVGetField(Answer(false, "", stderr), lower, podUsable, trim) == ("", Unknown)
  {
    var low := Lowered(stderr, lower);
    var k :| 0 <= k < |TRANSIENT_MARKERS| && Contains(stderr, TRANSIENT_MARKERS[k]);
    LoweredContains(stderr, TRANSIENT_MARKERS[k], lower);
    var denied := DENIED_ALONE + LoweredAll(TRANSIENT_MARKERS, lower);
    assert denied[|DENIED_ALONE| + k] == Lowered(TRANSIENT_MARKERS[k], lower);
  }

  predicate ContainsOne(s: string, texts: set<string>) {
    exists m | m in texts :: Contains(s, m)
  }

  /** strings.ToLower on the letters the markers are written in. */
  ghost predicate LowersAscii(lower: char -> char) {
    forall c: char | c < '\U{0080}' :: lower(c) == if 'A' <= c <= 'Z' then (c as int + 32) as char else c
  }

  /** What a read of a field says. Found is a clean exit with text. Absent is a clean exit without
      any, or a failure that complains of no seal, token or transport at all and either words an
      absence or comes from a pod that itself answers unsealed. Every other failure is Unknown. */
  lemma ReadMeans(a: Answer, lower: char -> char, podUsable: bool, trim: string -> string)
    requires LowersAscii(lower)
    ensures var low, (value, verdict) := Lowered(a.stderr, lower), KVGetField(a, lower, podUsable, trim);
            var sealedOrRefused := {"sealed", "permission denied", "missing client token", "invalid token", "connection refused",
                                    "connection reset", "i/o timeout", "no route to host", "server gave http response to https client"};
            var transport := {"no agent available", "error dialing backend", "unable to upgrade connection",
                              "error sending request", "tls handshake timeout"};
            var absence := {"no value found", "field not present", "not present in secret", "no secret found", "secret not found"};
            && (verdict == Found <==> a.ok && trim(a.stdout) != "")
            && (verdict == Absent <==>
                  if a.ok then trim(a.stdout) == ""
                  else !ContainsOne(low, sealedOrRefused) && !ContainsOne(low, transport) && (ContainsOne(low, absence) || podUsable))
            && verdict in {Found, Absent, Unknown}
            && value == if verdict == Found then trim(a.stdout) else ""
  {
    var low := Lowered(a.stderr, lower);
    var sealedOrRefused := {"sealed", "permission denied", "missing client token", "invalid token", "connection refused",
                            "connection reset", "i/o timeout", "no route to host", "server gave http response to https client"};
    var transport := {"no agent available", "error dialing backend", "unable to upgrade connection",
                      "error sending request", "tls handshake timeout"};
    AnyIsOne(low, DENIED_ALONE, sealedOrRefused);
    TransportLowered(lower);
    AnyIsOne(low, LoweredAll(TRANSIENT_MARKERS, lower), transport);
    AnyIsOne(low, ABSENCE_MARKERS, {"no value found", "field not present", "not present in secret", "no secret found", "secret not found"});
    AnyOfBoth(low, DENIED_ALONE, LoweredAll(TRANSIENT_MARKERS, lower));
    hide ContainsAny;
    hide ContainsOne;
    hide LoweredAll;
  }

  lemma AnyIsOne(s: string, markers: seq<string>, texts: set<string>)
    requires forall m :: m in texts <==> m in markers
    ensures ContainsAny(s, markers) <==> ContainsOne(s, texts)
  {
    hide Contains;
    if m :| m in texts && Contains(s, m) {
      assert m in markers;
    }
  }

  lemma AnyOfBoth(s: string, a: seq<string>, b: seq<string>)
    ensures ContainsAny(s, a + b) <==> ContainsAny(s, a) || ContainsAny(s, b)
  {
    hide Contains;
    if k :| 0 <= k < |a| && Contains(s, a[k]) {
      assert Contains(s, (a + b)[k]);
    }
    if k :| 0 <= k < |b| && Contains(s, b[k]) {
      assert Contains(s, (a + b)[|a| + k]);
    }
  }

  lemma LoweredStays(s: string, lower: char -> char)
    requires LowersAscii(lower) && forall i | 0 <= i < |s| :: s[i] < '\U{0080}' && !('A' <= s[i] <= 'Z')
    ensures Lowered(s, lower) == s
  {
  }

  lemma LoweredWithCapitals(lower: char -> char)
    requires LowersAscii(lower)
    ensures Lowered("No agent available", lower) == "no agent available"
    ensures Lowered("TLS handshake timeout", lower) == "tls handshake timeout"
  {
  }

  lemma TransportLowered(lower: char -> char)
    requires LowersAscii(lower)
    ensures LoweredAll(TRANSIENT_MARKERS, lower) == ["no agent available", "error dialing backend", "unable to upgrade connection",
                                                     "error sending request", "tls handshake timeout"]
  {
    LoweredWithCapitals(lower);
    LoweredStays("error dialing backend", lower);
    LoweredStays("unable to upgrade connection", lower);
    LoweredStays("error sending request", lower);
    hide Lowered;
  }

  // ── the retry loop ──

  const TRANSPORT_TRIES: nat := 24
  const POD_STATE_TRIES: nat := 6

  /** Seconds slept after a failed attempt. */
  function Backoff(attempt: nat): nat {
    if attempt * 2 < 15 then attempt * 2 else 15
  }

  /** How many attempts an answer's failure class allows; 0 when it is not retried at all. */
  function Budget(a: Answer): nat {
    if a.ok then 0
    else if IsPodState(a.stderr) then POD_STATE_TRIES
    else if IsTransient(a.stderr) then TRANSPORT_TRIES
    else 0
  }

  /** The attempt, counted from 1, that execResilient returns. */
  predicate Last(answers: nat -> Answer, n: nat) {
    n >= 1 && n >= Budget(answers(n)) && forall k | 1 <= k < n :: k < Budget(answers(k))
  }

  function SleptBefore(n: nat): nat {
    if n <= 1 then 0 else SleptBefore(n - 1) + Backoff(n - 1)
  }

  /** execResilient against any sequence of answers. */
  method ExecResilient(answers: nat -> Answer) returns (a: Answer, calls: nat, slept: nat)
    ensures Last(answers, calls) && a == answers(calls) && slept == SleptBefore(calls)
  {
    hide IsPodState;
    hide IsTransient;
    var attempt := 1;
    slept := 0;
    while true
      invariant 1 <= attempt <= TRANSPORT_TRIES && slept == SleptBefore(attempt)
      invariant forall k | 1 <= k < attempt :: k < Budget(answers(k))
      decreases TRANSPORT_TRIES - attempt
    {
      a := answers(attempt);
      if a.ok {
        return a, attempt, slept;
      }
      var budget := TRANSPORT_TRIES;
      if IsPodState(a.stderr) {
        budget := POD_STATE_TRIES;
      } else if !IsTransient(a.stderr) {
        return a, attempt, slept;
      }
      if attempt >= budget {
        return a, attempt, slept;
      }
      slept := slept + Backoff(attempt);
      attempt := attempt + 1;
    }
  }

  lemma {:induction false} SleptIsLinear(n: nat)
    requires 1 <= n <= 24
    ensures SleptBefore(n) == if n <= 8 then n * (n - 1) else 56 + 15 * (n - 8)
  {
    if n > 1 {
      SleptIsLinear(n - 1);
    }
  }

  /** The budgets, over every sequence of answers: at most 24 calls and 296 seconds of sleep, and
      when every failure is pod-state at most 6 calls and 30 seconds. */
  lemma RetryIsBounded(answers: nat -> Answer, n: nat)
    requires Last(answers, n)
    ensures n <= 24 && SleptBefore(n) <= 296
    ensures (forall k: nat | 1 <= k <= n && !answers(k).ok :: IsPodState(answers(k).stderr)) ==> n <= 6 && SleptBefore(n) <= 30
  {
    hide IsPodState;
    hide IsTransient;
    if n > 1 {
      assert n - 1 < Budget(answers(n - 1)) && !answers(n - 1).ok;
    }
    SleptIsLinear(n);
  }

  /** Both pairs of bounds are reached: by failures that are all transport, and by failures that
      are all pod-state. */
  lemma BudgetsAreSpent(answers: nat -> Answer)
    ensures (forall k: nat | k >= 1 :: !answers(k).ok && IsTransient(answers(k).stderr)) ==>
              Last(answers, 24) && SleptBefore(24) == 296
    ensures (forall k: nat | k >= 1 :: !answers(k).ok && IsPodState(answers(k).stderr)) ==>
              Last(answers, 6) && SleptBefore(6) == 30
  {
    hide IsPodState;
    SleptIsLinear(24);
    SleptIsLinear(6);
    if forall k: nat | k >= 1 :: !answers(k).ok && IsTransient(answers(k).stderr) {
      forall k: nat | 1 <= k <= 24 ensures Budget(answers(k)) == 24 {
      }
    }
  }

  function RunsIn(ran: nat -> bool, n: nat): nat {
    if n == 0 then 0 else RunsIn(ran, n - 1) + if ran(n) then 1 else 0
  }

  /** `ran(k)` says whether attempt k reached the command inside the pod. If a failure marked as
      transport or pod-state means it did not, the command runs at most once, and only in the
      attempt whose answer is returned. */
  lemma {:induction false} RunsAtMostOnce(answers: nat -> Answer, ran: nat -> bool, n: nat)
    requires Last(answers, n)
    requires forall k: nat | k >= 1 && Budget(answers(k)) > 0 :: !ran(k)
    ensures RunsIn(ran, n) == if ran(n) then 1 else 0
  {
    NoneBefore(answers, ran, n - 1);
  }

  lemma {:induction false} NoneBefore(answers: nat -> Answer, ran: nat -> bool, m: nat)
    requires forall k | 1 <= k <= m :: k < Budget(answers(k))
    requires forall k: nat | k >= 1 && Budget(answers(k)) > 0 :: !ran(k)
    ensures RunsIn(ran, m) == 0
  {
    if m > 0 {
      NoneBefore(answers, ran, m - 1);
    }
  }

  /** What is retried, and how often, by what the failure says: a pod without a container six
      times, a broken transport twenty-four times, and nothing else. */
  lemma BudgetMeans(a: Answer)
    ensures var noContainer := ContainsOne(a.stderr, {"container not found", "container not running"});
            var transport := ContainsOne(a.stderr, {"No agent available", "error dialing backend", "unable to upgrade connection",
                                                    "error sending request", "TLS handshake timeout"});
            Budget(a) == if a.ok then 0 else if noContainer then 6 else if transport then 24 else 0
  {
    AnyIsOne(a.stderr, POD_STATE_MARKERS, {"container not found", "container not running"});
    AnyIsOne(a.stderr, TRANSIENT_MARKERS, {"No agent available", "error dialing backend", "unable to upgrade connection",
                                           "error sending request", "TLS handshake timeout"});
    hide ContainsAny;
    hide ContainsOne;
  }
}
