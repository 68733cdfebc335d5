/** Composite challenges: putting one together from derived parameters, and checking the
    answer to one. */
module Composite {
  import opened Wrappers
  import opened Arithmetic
  import opened Bytes
  import opened Clock
  import opened HashSuite
  import opened Metadata
  import opened HashCash
  import opened Params

  const CHALLENGE_TTL: Time := 120 * SECOND

  const PROBE_POOL: seq<string> := [
    "webcrypto_timing", "dom_computation", "memory_allocation", "canvas_timing", "audio_latency",
    "font_measurement", "animation_frame", "intersection_observer", "webgl_query", "performance_heap"]

  datatype Argon2Challenge = Argon2Challenge(nonce: Bytes, memory: Uint32, iterations: Uint32)

  /** Either puzzle may be missing. */
  datatype ChallengePayload = ChallengePayload(
    challengeID: string, hashCash: Option<HashCashChallenge>, argon2: Option<Argon2Challenge>,
    probes: seq<string>, expiresAt: Time)

  datatype ChallengeResponse = ChallengeResponse(
    challengeID: string, hashCashSolution: HexField, argon2Result: HexField, probeResults: map<string, string>)

  datatype ChallengeError = Expired | IdMismatch | MissingHashCash | HashCashFailed | Argon2Failed

  /** An anomaly score for the value of a probe; the validator may be missing. */
  type ProbeScore = (string, string) -> real
  type Validator = Option<ProbeScore>

  // ----- issuing

  /** Names of the selected probes; an index outside the pool is dropped. */
  function ProbeNames(indices: seq<nat>): seq<string> {
    if indices == [] then []
    else
      var front, last := ProbeNames(indices[..|indices| - 1]), indices[|indices| - 1];
      if last < |PROBE_POOL| then front + [PROBE_POOL[last]] else front
  }

  function NewPayload(p: ChallengeParams, id: string, hashCashNonce: Bytes, argon2Nonce: Bytes, now: Time):
      ChallengePayload
  {
    ChallengePayload(id, Some(HashCashChallenge(hashCashNonce, p.hashCashBits)),
                     Some(Argon2Challenge(argon2Nonce, p.argon2Memory, p.argon2Iterations)),
                     ProbeNames(p.probeIndices), now + CHALLENGE_TTL)
  }

  /** What goes into a challenge: its ID, one puzzle each with the derived parameters, the
      names of the derived probes, and 120 seconds. */
  lemma {:induction false} PayloadFields(p: ChallengeParams, id: string, hashCashNonce: Bytes, argon2Nonce: Bytes,
                                         now: Time)
    requires Below(p.probeIndices, 10)
    ensures var c := NewPayload(p, id, hashCashNonce, argon2Nonce, now);
      && c.challengeID == id && c.expiresAt == now + 120_000_000_000
      && c.hashCash.Some? && c.hashCash.value.nonce == hashCashNonce
      && c.hashCash.value.difficultyBits == p.hashCashBits
      && c.argon2.Some? && c.argon2.value.nonce == argon2Nonce
      && c.argon2.value.memory == p.argon2Memory && c.argon2.value.iterations == p.argon2Iterations
      && |PROBE_POOL| == 10 && |c.probes| == |p.probeIndices|
      && forall i :: 0 <= i < |c.probes| ==> c.probes[i] == PROBE_POOL[p.probeIndices[i]]
  {
    NamesOfIndices(p.probeIndices);
  }

  lemma {:induction false} NamesOfIndices(indices: seq<nat>)
    requires Below(indices, 10)
    ensures |PROBE_POOL| == 10 && |ProbeNames(indices)| == |indices|
    ensures forall i :: 0 <= i < |indices| ==> ProbeNames(indices)[i] == PROBE_POOL[indices[i]]
  {
    if indices == [] {
    } else {
      var front, last := indices[..|indices| - 1], indices[|indices| - 1];
      NamesOfIndices(front);
      assert ProbeNames(indices) == ProbeNames(front) + [PROBE_POOL[last]];
    }
  }

  method New(p: ChallengeParams, id: string, hashCashNonce: Bytes, argon2Nonce: Bytes, now: Time)
      returns (payload: ChallengePayload)
    ensures payload == NewPayload(p, id, hashCashNonce, argon2Nonce, now)
  {
    var probeNames: seq<string> := [];
    assert p.probeIndices[..0] == [];
    for i := 0 to |p.probeIndices|
      invariant probeNames == ProbeNames(p.probeIndices[..i])
    {
      assert p.probeIndices[..i + 1][..i] == p.probeIndices[..i];
      var idx := p.probeIndices[i];
      if idx < |PROBE_POOL| {
        probeNames := probeNames + [PROBE_POOL[idx]];
      }
    }
    assert p.probeIndices[..|p.probeIndices|] == p.probeIndices;
    return ChallengePayload(id, Some(HashCashChallenge(hashCashNonce, p.hashCashBits)),
                            Some(Argon2Challenge(argon2Nonce, p.argon2Memory, p.argon2Iterations)),
                            probeNames, now + CHALLENGE_TTL);
  }

  ghost predicate DistinctNames(s: seq<string>) {
    forall i, j :: 0 <= i < j < |s| ==> s[i] != s[j]
  }

  lemma {:induction false} PoolDistinct()
    ensures |PROBE_POOL| == 10 && DistinctNames(PROBE_POOL)
  {
    forall i, j | 0 <= i < j < 10
      ensures PROBE_POOL[i] != PROBE_POOL[j]
    {
      PoolInitials(i);
      PoolInitials(j);
      assert PROBE_POOL[5][0] == 'f' && PROBE_POOL[8][3] == 'g';
    }
  }

  /** The first four letters tell all probes apart. */
  lemma {:induction false} PoolInitials(i: nat)
    requires i < 10
    ensures var s := PROBE_POOL[i];
      |s| >= 11 && s[..4] == ["webc", "dom_", "memo", "canv", "audi", "font", "anim", "inte", "webg", "perf"][i]
  {
    var s := PROBE_POOL[i];
    if i < 5 {
      assert i == 0 || i == 1 || i == 2 || i == 3 || i == 4;
    } else {
      assert i == 5 || i == 6 || i == 7 || i == 8 || i == 9;
    }
  }

  /** Different indices of the pool give different names, and none is dropped. */
  lemma {:induction false} NamesOfDistinct(indices: seq<nat>)
    requires Distinct(indices) && Below(indices, 10)
    ensures var names := ProbeNames(indices);
      && |names| == |indices| && DistinctNames(names)
      && forall i :: 0 <= i < |indices| ==> names[i] == PROBE_POOL[indices[i]]
  {
    PoolDistinct();
    if indices == [] {
    } else {
      var front, last := indices[..|indices| - 1], indices[|indices| - 1];
      NamesOfDistinct(front);
      assert ProbeNames(indices) == ProbeNames(front) + [PROBE_POOL[last]];
      forall i | 0 <= i < |front|
        ensures ProbeNames(front)[i] != PROBE_POOL[last]
      {
        assert front[i] == indices[i] != last;
      }
    }
  }

  /** Every challenge for a temperature bucket asks for as many different probes as the
      bucket prescribes: none is dropped and none is asked for twice. */
  lemma {:induction false} ProbesAsPrescribed(seed: Bytes, bucket: Byte)
    requires |seed| >= 9
    ensures Divisible(BucketRanges(bucket))
    ensures var names := ProbeNames(DeriveParams(seed, BucketRanges(bucket)).probeIndices);
      |names| == BucketRanges(bucket).probeCount && DistinctNames(names) && forall n :: n in names ==> n in PROBE_POOL
  {
    BucketRangesUsable(bucket);
    SelectionShape(seed[9..], 10, BucketRanges(bucket).probeCount);
    NamesOfDistinct(DeriveParams(seed, BucketRanges(bucket)).probeIndices);
  }

  // ----- checking

  const ARGON2_PASSWORD: string := "sovereign-trust-challenge"

  predicate Argon2Matches(suite: Suite, ch: Argon2Challenge, result: HexField) {
    result.Decoded? && result.bytes == suite.argon2id(FromString(ARGON2_PASSWORD), ch.nonce, ch.iterations, ch.memory)
  }

  /** VerifyArgon2: the length first, then the bytes, without stopping at a difference. */
  method VerifyArgon2(suite: Suite, ch: Argon2Challenge, result: HexField) returns (ok: bool)
    ensures ok == Argon2Matches(suite, ch, result)
  {
    var expected := suite.argon2id(FromString(ARGON2_PASSWORD), ch.nonce, ch.iterations, ch.memory);
    if !result.Decoded? || |result.bytes| != 32 {
      return false;
    }
    var got := result.bytes;
    var same := true;
    for i := 0 to |expected|
      invariant same <==> got[..i] == expected[..i]
    {
      assert got[..i + 1] == got[..i] + [got[i]] && expected[..i + 1] == expected[..i] + [expected[i]];
      same := same && expected[i] == got[i];
    }
    assert got[..32] == got && expected[..32] == expected;
    return same;
  }

  /** Sum of the anomaly scores of the answered probes, and how many there were. */
  function ProbeTotals(probes: seq<string>, results: map<string, string>, validate: Validator): (real, nat) {
    if probes == [] then (0.0, 0)
    else
      var (total, n) := ProbeTotals(probes[..|probes| - 1], results, validate);
      var name := probes[|probes| - 1];
      if name in results && validate.Some? then (total + validate.value(name, results[name]), n + 1) else (total, n)
  }

  function ProbeAnomaly(probes: seq<string>, results: map<string, string>, validate: Validator): real {
    var (total, n) := ProbeTotals(probes, results, validate);
    if n > 0 then total / n as real else 0.0
  }

  /** Verify: the class that was reached and the mean anomaly of the probes. */
  function Verify(suite: Suite, payload: ChallengePayload, resp: ChallengeResponse, validate: Validator, now: Time):
      Result<(Byte, real), ChallengeError>
  {
    if now > payload.expiresAt then Err(Expired)
    else if resp.challengeID != payload.challengeID then Err(IdMismatch)
    else if payload.hashCash.Some? && resp.hashCashSolution.Absent? then Err(MissingHashCash)
    else if payload.hashCash.Some? && VerifyHashCash(suite, payload.hashCash.value, resp.hashCashSolution).Err? then
      Err(HashCashFailed)
    else if payload.argon2.Some? && !resp.argon2Result.Absent?
            && !Argon2Matches(suite, payload.argon2.value, resp.argon2Result) then Err(Argon2Failed)
    else
      var cls := if payload.argon2.Some? && !resp.argon2Result.Absent? then 2
                 else if payload.hashCash.Some? then 1 else 0;
      Ok((cls, ProbeAnomaly(payload.probes, resp.probeResults, validate)))
  }

  /** What an accepted answer proves, exactly: in time, for this challenge, with a HashCash
      solution below the difficulty bound, and with an Argon2 result that is right or left out. */
  lemma {:induction false} VerifyMeaning(suite: Suite, payload: ChallengePayload, resp: ChallengeResponse,
                                         validate: Validator, now: Time)
    ensures Verify(suite, payload, resp, validate, now).Ok? <==>
      && now <= payload.expiresAt && resp.challengeID == payload.challengeID
      && (payload.hashCash.Some? ==>
            && resp.hashCashSolution.Decoded? && |resp.hashCashSolution.bytes| == 8
            && OS2IP(suite.sha256(payload.hashCash.value.nonce + resp.hashCashSolution.bytes))
                 < Pow(2, 256 - payload.hashCash.value.difficultyBits))
      && (payload.argon2.Some? ==>
            || resp.argon2Result.Absent?
            || (&& resp.argon2Result.Decoded?
                && resp.argon2Result.bytes
                     == suite.argon2id(FromString("sovereign-trust-challenge"), payload.argon2.value.nonce,
                                       payload.argon2.value.iterations, payload.argon2.value.memory)))
  {
    AcceptedIf(suite, payload, resp, validate, now);
    if payload.hashCash.Some? {
      SolutionMeaning(suite, payload.hashCash.value, resp.hashCashSolution);
    }
  }

  lemma {:induction false} AcceptedIf(suite: Suite, payload: ChallengePayload, resp: ChallengeResponse,
                                      validate: Validator, now: Time)
    ensures Verify(suite, payload, resp, validate, now).Ok? <==>
      && now <= payload.expiresAt && resp.challengeID == payload.challengeID
      && (payload.hashCash.Some? ==> VerifyHashCash(suite, payload.hashCash.value, resp.hashCashSolution).Ok?)
      && (payload.argon2.Some? ==>
            resp.argon2Result.Absent? || Argon2Matches(suite, payload.argon2.value, resp.argon2Result))
  {
  }

  /** The scores of the answered probes, in the order of the challenge. */
  function Scores(probes: seq<string>, results: map<string, string>, score: ProbeScore): seq<real> {
    if probes == [] then []
    else
      (if probes[0] in results then [score(probes[0], results[probes[0]])] else [])
      + Scores(probes[1..], results, score)
  }

  function Sum(xs: seq<real>): real {
    if xs == [] then 0.0 else xs[0] + Sum(xs[1..])
  }

  lemma {:induction false} SumAppend(xs: seq<real>, x: real)
    ensures Sum(xs + [x]) == Sum(xs) + x
  {
    if xs == [] {
      assert xs + [x] == [x];
    } else {
      SumAppend(xs[1..], x);
      assert (xs + [x])[1..] == xs[1..] + [x];
    }
  }

  lemma {:induction false} ScoresAppend(probes: seq<string>, name: string, results: map<string, string>,
                                        score: ProbeScore)
    ensures Scores(probes + [name], results, score) ==
      Scores(probes, results, score) + if name in results then [score(name, results[name])] else []
  {
    if probes == [] {
      assert probes + [name] == [name];
    } else {
      ScoresAppend(probes[1..], name, results, score);
      assert (probes + [name])[1..] == probes[1..] + [name];
    }
  }

  lemma {:induction false} TotalsAreSums(probes: seq<string>, results: map<string, string>, score: ProbeScore)
    ensures var xs := Scores(probes, results, score);
      ProbeTotals(probes, results, Some(score)) == (Sum(xs), |xs|)
  {
    if probes == [] {
    } else {
      var front, name := probes[..|probes| - 1], probes[|probes| - 1];
      TotalsAreSums(front, results, score);
      ScoresAppend(front, name, results, score);
      assert front + [name] == probes;
      if name in results {
        SumAppend(Scores(front, results, score), score(name, results[name]));
      } else {
        assert Scores(front, results, score) + [] == Scores(front, results, score);
      }
    }
  }

  /** What an accepted answer is worth: class 2 with an Argon2 result, else class 1, and 0 only
      for a challenge without puzzles; and an anomaly that is the mean score of the answered
      probes, 0 if there are none. */
  lemma {:induction false} VerifyReports(suite: Suite, payload: ChallengePayload, resp: ChallengeResponse,
                                         score: ProbeScore, now: Time)
    requires Verify(suite, payload, resp, Some(score), now).Ok?
    ensures var ((cls, anomaly), xs) :=
        (Verify(suite, payload, resp, Some(score), now).value, Scores(payload.probes, resp.probeResults, score));
      && (cls == 2 <==> payload.argon2.Some? && !resp.argon2Result.Absent?)
      && (cls == 0 <==> payload.hashCash.None? && (payload.argon2.None? || resp.argon2Result.Absent?))
      && cls <= 2 && anomaly == if xs == [] then 0.0 else Sum(xs) / |xs| as real
  {
    TotalsAreSums(payload.probes, resp.probeResults, score);
  }

  /** With anomaly scores in [0, 1] the mean is in [0, 1] too. */
  lemma {:induction false} AnomalyBounded(probes: seq<string>, results: map<string, string>, validate: Validator)
    requires validate.Some? ==> forall name, value :: 0.0 <= validate.value(name, value) <= 1.0
    ensures 0.0 <= ProbeAnomaly(probes, results, validate) <= 1.0
  {
    TotalsBounded(probes, results, validate);
    var (total, n) := ProbeTotals(probes, results, validate);
    if n > 0 {
      assert total / n as real <= 1.0;
    }
  }

  lemma {:induction false} TotalsBounded(probes: seq<string>, results: map<string, string>, validate: Validator)
    requires validate.Some? ==> forall name, value :: 0.0 <= validate.value(name, value) <= 1.0
    ensures var (total, n) := ProbeTotals(probes, results, validate); 0.0 <= total <= n as real
  {
    if probes == [] {
    } else {
      TotalsBounded(probes[..|probes| - 1], results, validate);
    }
  }

  /** Verify, with its early returns and its loop over the probes. */
  method VerifyResponse(suite: Suite, payload: ChallengePayload, resp: ChallengeResponse,
                        validate: Validator, now: Time)
      returns (r: Result<(Byte, real), ChallengeError>)
    ensures r == Verify(suite, payload, resp, validate, now)
  {
    var challengeClass: Byte := 0;
    if now > payload.expiresAt {
      return Err(Expired);
    }
    if resp.challengeID != payload.challengeID {
      return Err(IdMismatch);
    }
    if payload.hashCash.Some? {
      if resp.hashCashSolution.Absent? {
        return Err(MissingHashCash);
      }
      if VerifyHashCash(suite, payload.hashCash.value, resp.hashCashSolution).Err? {
        return Err(HashCashFailed);
      }
      challengeClass := 1;
    }
    if payload.argon2.Some? && !resp.argon2Result.Absent? {
      var matches := VerifyArgon2(suite, payload.argon2.value, resp.argon2Result);
      if !matches {
        return Err(Argon2Failed);
      }
      challengeClass := 2;
    }
    var score := 0.0;
    NothingToScore(payload.probes, resp.probeResults, validate);
    if |payload.probes| > 0 && |resp.probeResults| > 0 {
      score := ScoreProbes(payload.probes, resp.probeResults, validate);
    }
    return Ok((challengeClass, score));
  }

  lemma {:induction false} NothingToScore(probes: seq<string>, results: map<string, string>, validate: Validator)
    ensures |results| == 0 ==> ProbeTotals(probes, results, validate) == (0.0, 0)
  {
    if probes == [] {
    } else {
      NothingToScore(probes[..|probes| - 1], results, validate);
    }
  }

  method ScoreProbes(probes: seq<string>, results: map<string, string>, validate: Validator) returns (score: real)
    ensures score == ProbeAnomaly(probes, results, validate)
  {
    var total: real, evaluated: nat := 0.0, 0;
    assert probes[..0] == [];
    for i := 0 to |probes|
      invariant (total, evaluated) == ProbeTotals(probes[..i], results, validate)
    {
      assert probes[..i + 1][..i] == probes[..i];
      var name := probes[i];
      if name in results {
        if validate.Some? {
          total := total + validate.value(name, results[name]);
          evaluated := evaluated + 1;
        }
      }
    }
    assert probes[..|probes|] == probes;
    score := 0.0;
    if evaluated > 0 {
      score := total / evaluated as real;
    }
  }
}
