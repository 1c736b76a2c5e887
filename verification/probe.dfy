/** The readiness probes run before the pipeline: the two checks of the
    extraction service's /api/version and /api/isalive endpoints, the bounded
    retry loop of main.py and tester.py, and the stricter unit checks of
    tests.py with their unbounded retry loop.  The answer of each endpoint at
    each attempt is a parameter; the ten-second pauses are events of a trace. */
module Probe {

  import opened Text
  import opened Files

  // ---------------------------------------------------------------------------
  // check_api_version and check_api_isalive

  /** check_api_version: any 200 answer, whatever its body; another status or
      an exception fails. */
  predicate CheckApiVersion(r: Response) {
    IsStatus(r, 200)
  }

  /** check_api_isalive: a 200 whose body, stripped and lower-cased, is "true". */
  predicate CheckApiIsAlive(r: Response) {
    IsStatus(r, 200) && Lower(Strip(r.text)) == "true"
  }

  /** The four letters t, r, u, e in any mix of ASCII case. */
  predicate SpellsTrue(w: string) {
    |w| == 4 && forall k :: 0 <= k < 4 ==> LowerChar(w[k]) == "true"[k]
  }

  /** The version check looks only at the status: two answers with the same
      status pass or fail together, and only 200 passes. */
  lemma VersionIgnoresBody(status: int, t1: string, c1: seq<bv8>, t2: string, c2: seq<bv8>)
    ensures CheckApiVersion(Reply(status, t1, c1)) <==> status == 200
    ensures CheckApiVersion(Reply(status, t1, c1)) == CheckApiVersion(Reply(status, t2, c2))
    ensures !CheckApiVersion(Raised)
  {
  }

  /** The isalive check passes exactly on a 200 whose body is "true", in any
      case, with only whitespace around it. */
  lemma IsAliveMeaning(r: Response)
    ensures CheckApiIsAlive(r) <==> IsStatus(r, 200) && SpellsTrue(Strip(r.text))
  {
    if IsStatus(r, 200) {
      var w := Strip(r.text);
      LowerAt(w);
      if SpellsTrue(w) {
        assert Lower(w) == "true";
      }
      if Lower(w) == "true" {
        assert |w| == 4;
        forall k | 0 <= k < 4 ensures LowerChar(w[k]) == "true"[k] {
          assert Lower(w)[k] == LowerChar(w[k]);
        }
      }
    }
  }

  /** Stripping removes the blank and the newline around " TRUE\n". */
  lemma StripPadded()
    ensures Strip(" TRUE\n") == "TRUE"
  {
    var padded := " TRUE\n";
    assert padded[0] == ' ' && padded[1..] == "TRUE\n";
    assert LStrip(padded) == LStrip("TRUE\n") == "TRUE\n";
    assert "TRUE\n"[4] == '\n' && "TRUE\n"[..4] == "TRUE";
    assert RStrip("TRUE\n") == RStrip("TRUE") == "TRUE";
  }

  /** "truex" has no whitespace to strip. */
  lemma StripUnpadded()
    ensures Strip("truex") == "truex"
  {
    assert LStrip("truex") == "truex";
    assert RStrip("truex") == "truex";
  }

  /** Case and surrounding whitespace do not matter; anything more does. */
  lemma IsAliveExamples()
    ensures CheckApiIsAlive(Reply(200, " TRUE\n", []))
    ensures !CheckApiIsAlive(Reply(200, "truex", []))
    ensures !CheckApiIsAlive(Reply(503, "true", []))
    ensures !CheckApiIsAlive(Raised)
  {
    StripPadded();
    assert SpellsTrue("TRUE");
    IsAliveMeaning(Reply(200, " TRUE\n", []));
    StripUnpadded();
    assert !SpellsTrue("truex");
    IsAliveMeaning(Reply(200, "truex", []));
  }

  // ---------------------------------------------------------------------------
  // tester (main.py) and main (tester.py)

  /** What the probe loop does, in order. */
  datatype Event = GetVersion | GetIsAlive | Sleep

  /** retries */
  const MaxAttempts: nat := 10

  /** Attempt k succeeds when both checks pass on that attempt's answers. */
  predicate AttemptOk(version: nat -> Response, isalive: nat -> Response, k: nat) {
    CheckApiVersion(version(k)) && CheckApiIsAlive(isalive(k))
  }

  /** The first k' >= k below MaxAttempts for which ok holds. */
  function FirstTrue(ok: nat -> bool, k: nat): (r: Option<nat>)
    ensures r.Some? ==> k <= r.value < MaxAttempts && ok(r.value)
    ensures r.Some? ==> forall j :: k <= j < r.value ==> !ok(j)
    ensures r.None? <==> forall j :: k <= j < MaxAttempts ==> !ok(j)
    decreases MaxAttempts - k
  {
    if k >= MaxAttempts then None
    else if ok(k) then Some(k)
    else FirstTrue(ok, k + 1)
  }

  /** The first successful attempt of the ten. */
  function FirstOk(version: nat -> Response, isalive: nat -> Response): Option<nat> {
    FirstTrue((k: nat) => AttemptOk(version, isalive, k), 0)
  }

  /** The probe finds a first successful attempt exactly when one of the ten
      attempts succeeds; that attempt succeeds and none before it does. */
  lemma FirstOkMeaning(version: nat -> Response, isalive: nat -> Response)
    ensures FirstOk(version, isalive).Some? <==> exists k :: 0 <= k < MaxAttempts && AttemptOk(version, isalive, k)
    ensures FirstOk(version, isalive).Some? ==>
      var k := FirstOk(version, isalive).value;
      k < MaxAttempts && AttemptOk(version, isalive, k) && forall j :: 0 <= j < k ==> !AttemptOk(version, isalive, j)
  {
    var ok := (k: nat) => AttemptOk(version, isalive, k);
    var r := FirstTrue(ok, 0);
    if r.None? {
      forall k | 0 <= k < MaxAttempts ensures !AttemptOk(version, isalive, k) {
        assert !ok(k);
      }
    } else {
      assert ok(r.value);
      forall j | 0 <= j < r.value ensures !AttemptOk(version, isalive, j) {
        assert !ok(j);
      }
    }
  }

  /** k failed attempts: both endpoints are asked, then the loop sleeps. */
  function FailedAttempts(k: nat): seq<Event> {
    if k == 0 then [] else FailedAttempts(k - 1) + [GetVersion, GetIsAlive, Sleep]
  }

  /** The events of a whole probe: the failed attempts, then either the
      successful one or nothing more after the tenth failure. */
  function TesterTrace(version: nat -> Response, isalive: nat -> Response): seq<Event> {
    match FirstOk(version, isalive)
    case Some(k) => FailedAttempts(k) + [GetVersion, GetIsAlive]
    case None => FailedAttempts(MaxAttempts)
  }

  /** tester() of main.py: version(k) and isalive(k) are the answers of the
      two endpoints at attempt k. */
  method Tester(version: nat -> Response, isalive: nat -> Response) returns (ready: bool, trace: seq<Event>)
    ensures ready <==> FirstOk(version, isalive).Some?
    ensures trace == TesterTrace(version, isalive)
  {
    ghost var ok := (k: nat) => AttemptOk(version, isalive, k);
    trace := [];
    var i := 0;
    while i < MaxAttempts
      invariant 0 <= i <= MaxAttempts
      invariant trace == FailedAttempts(i)
      invariant FirstOk(version, isalive) == FirstTrue(ok, i)
    {
      var versionOk := CheckApiVersion(version(i));
      var isaliveOk := CheckApiIsAlive(isalive(i));
      assert ok(i) == (versionOk && isaliveOk);
      if versionOk && isaliveOk {
        return true, trace + [GetVersion, GetIsAlive];
      }
      trace := trace + [GetVersion, GetIsAlive, Sleep];
      i := i + 1;
    }
    return false, trace;
  }

  /** main() of tester.py: the same loop, whose outcome is only printed. */
  method TesterMain(version: nat -> Response, isalive: nat -> Response) returns (trace: seq<Event>)
    ensures trace == TesterTrace(version, isalive)
  {
    var _, t := Tester(version, isalive);
    trace := t;
  }

  /** How many times e occurs in a trace. */
  function Count(trace: seq<Event>, e: Event): nat {
    if trace == [] then 0
    else Count(trace[..|trace| - 1], e) + if trace[|trace| - 1] == e then 1 else 0
  }

  lemma {:induction false} CountAppend(a: seq<Event>, b: seq<Event>, e: Event)
    ensures Count(a + b, e) == Count(a, e) + Count(b, e)
    decreases |b|
  {
    if b != [] {
      assert (a + b)[..|a + b| - 1] == a + b[..|b| - 1];
      CountAppend(a, b[..|b| - 1], e);
    } else {
      assert a + b == a;
    }
  }

  /** One failed attempt asks each endpoint once and sleeps once. */
  lemma AttemptCounts()
    ensures Count([GetVersion, GetIsAlive, Sleep], GetVersion) == 1
    ensures Count([GetVersion, GetIsAlive, Sleep], GetIsAlive) == 1
    ensures Count([GetVersion, GetIsAlive, Sleep], Sleep) == 1
    ensures Count([GetVersion, GetIsAlive], GetVersion) == 1
    ensures Count([GetVersion, GetIsAlive], GetIsAlive) == 1
    ensures Count([GetVersion, GetIsAlive], Sleep) == 0
  {
    assert [GetVersion, GetIsAlive, Sleep][..2] == [GetVersion, GetIsAlive];
    assert [GetVersion, GetIsAlive][..1] == [GetVersion];
    assert [GetVersion][..0] == [];
  }

  lemma {:induction false} FailedAttemptsCounts(k: nat)
    ensures |FailedAttempts(k)| == 3 * k
    ensures Count(FailedAttempts(k), GetVersion) == k
    ensures Count(FailedAttempts(k), GetIsAlive) == k
    ensures Count(FailedAttempts(k), Sleep) == k
  {
    if k > 0 {
      FailedAttemptsCounts(k - 1);
      AttemptCounts();
      CountAppend(FailedAttempts(k - 1), [GetVersion, GetIsAlive, Sleep], GetVersion);
      CountAppend(FailedAttempts(k - 1), [GetVersion, GetIsAlive, Sleep], GetIsAlive);
      CountAppend(FailedAttempts(k - 1), [GetVersion, GetIsAlive, Sleep], Sleep);
    }
  }

  /** Both endpoints are asked on every attempt, at most ten times; a probe
      that succeeds at attempt k has slept k times, one that gives up has
      slept after each of its ten attempts, the last one included. */
  lemma TesterTraceCounts(version: nat -> Response, isalive: nat -> Response)
    ensures var t := TesterTrace(version, isalive);
      Count(t, GetVersion) == Count(t, GetIsAlive) <= MaxAttempts
    ensures FirstOk(version, isalive).Some? ==>
      Count(TesterTrace(version, isalive), Sleep) == FirstOk(version, isalive).value
    ensures FirstOk(version, isalive).None? ==>
      Count(TesterTrace(version, isalive), Sleep) == MaxAttempts
      && TesterTrace(version, isalive)[|TesterTrace(version, isalive)| - 1] == Sleep
  {
    match FirstOk(version, isalive)
    case Some(k) =>
      FailedAttemptsCounts(k);
      CountAppend(FailedAttempts(k), [GetVersion, GetIsAlive], GetVersion);
      CountAppend(FailedAttempts(k), [GetVersion, GetIsAlive], GetIsAlive);
      CountAppend(FailedAttempts(k), [GetVersion, GetIsAlive], Sleep);
      AttemptCounts();
    case None =>
      FailedAttemptsCounts(MaxAttempts);
  }

  // ---------------------------------------------------------------------------
  // run_tester and the retry loop of tests.py

  const ExpectedVersion := "0.8.1"

  /** Test 1 of run_tester: a 200 whose stripped body is exactly "0.8.1". */
  predicate VersionTestPasses(r: Response) {
    IsStatus(r, 200) && Strip(r.text) == ExpectedVersion
  }

  predicate TestsPass(version: Response, isalive: Response) {
    VersionTestPasses(version) && CheckApiIsAlive(isalive)
  }

  /** run_tester: both tests always run, and success survives only when
      neither of them fails. */
  method RunTester(version: Response, isalive: Response) returns (success: bool, trace: seq<Event>)
    ensures success <==> TestsPass(version, isalive)
    ensures trace == [GetVersion, GetIsAlive]
  {
    success := true;
    trace := [GetVersion];
    if version.Reply? && version.status == 200 {
      if Strip(version.text) != ExpectedVersion {
        success := false;
      }
    } else {
      success := false;
    }
    trace := trace + [GetIsAlive];
    if isalive.Reply? && isalive.status == 200 {
      if Lower(Strip(isalive.text)) != "true" {
        success := false;
      }
    } else {
      success := false;
    }
  }

  /** The unit tests are stricter than the probe: whatever they accept the
      probe accepts, but a running service of another version passes the
      probe and fails the tests. */
  lemma TestsStricterThanProbe(version: Response, isalive: Response)
    ensures TestsPass(version, isalive) ==> CheckApiVersion(version) && CheckApiIsAlive(isalive)
    ensures CheckApiVersion(Reply(200, "0.8.2", [])) && !VersionTestPasses(Reply(200, "0.8.2", []))
  {
    assert Strip("0.8.2") == "0.8.2";
  }

  /** The __main__ loop of tests.py: run_tester again and again, sleeping
      after each failure, until it passes.  The loop has no bound; fuel is the
      number of runs the model allows.  failures counts the failed runs, as i
      does in the script. */
  method RetryUntilPass(version: nat -> Response, isalive: nat -> Response, fuel: nat)
    returns (passed: bool, failures: nat, trace: seq<Event>)
    ensures passed <==> exists j :: 0 <= j < fuel && TestsPass(version(j), isalive(j))
    ensures passed ==> failures < fuel && TestsPass(version(failures), isalive(failures))
    ensures !passed ==> failures == fuel
    ensures forall j :: 0 <= j < failures ==> !TestsPass(version(j), isalive(j))
    ensures trace == FailedAttempts(failures) + if passed then [GetVersion, GetIsAlive] else []
  {
    failures := 0;
    trace := [];
    while failures < fuel
      invariant failures <= fuel
      invariant forall j :: 0 <= j < failures ==> !TestsPass(version(j), isalive(j))
      invariant trace == FailedAttempts(failures)
    {
      var ok, events := RunTester(version(failures), isalive(failures));
      if ok {
        return true, failures, trace + events;
      }
      trace := trace + events + [Sleep];
      assert trace == FailedAttempts(failures + 1);
      failures := failures + 1;
    }
    return false, failures, trace;
  }
}
