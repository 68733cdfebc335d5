/** End-to-end guarantees of the server: the work behind every signature, the history behind
    every bucket, challenges that stay answerable, and tokens that are accepted. */
module ServerTheorems {
  import opened Wrappers
  import opened Arithmetic
  import opened NumberTheory
  import opened Bytes
  import opened Clock
  import opened HashSuite
  import opened Rsapbssa
  import opened RsapbssaTheorems
  import opened Metadata
  import opened HashCash
  import opened Params
  import opened Composite
  import opened Server
  import opened ServerRuns
  import Temperature
  import Widget

  // ----- every signature is paid for

  /** What an issuing step sends out. */
  lemma {:induction false} IssuedMeaning(cfg: Config, run: Run, j: nat)
    requires IsRun(cfg, run) && j < |run.steps| && Issues(run.steps[j], run.responses[j])
    ensures var b := ScoredBucket(cfg, run.states[j].temperature, run.steps[j]);
      && run.responses[j].payload == IssuedPayload(cfg, b, run.steps[j])
      && run.responses[j].predictedMetadata == Encode(PredictedMetadata(cfg, run.states[j].temperature, run.steps[j]))
  {
    assert Linked(cfg, run, j);
  }

  /** The puzzle of a challenge is as hard as its bucket prescribes. */
  lemma {:induction false} PuzzleOf(cfg: Config, bucket: Byte, step: Step)
    requires step.Challenge?
    ensures var p := IssuedPayload(cfg, bucket, step);
      && p.challengeID == step.random.challengeID && p.expiresAt == step.issueClock.created + CHALLENGE_TTL
      && p.hashCash.Some? && p.hashCash.value.nonce == step.random.hashCashNonce
      && BucketRanges(bucket).hashCashBitsMin <= p.hashCash.value.difficultyBits <= BucketRanges(bucket).hashCashBitsMax
  {
    BucketRangesUsable(bucket);
    ParamsInRange(SeedOf(cfg, step), BucketRanges(bucket));
  }

  /** The bytes that decide a challenge: HMAC-SHA256 under the secret of the server, over the
      nonce, the Unix time in eight bytes and the address. */
  function SeedBytes(cfg: Config, step: Step): (seed: Bytes)
    requires step.Challenge?
    ensures |seed| == 32
  {
    cfg.suite.hmacSHA256(cfg.seedSecret,
      step.random.seedNonce + I2OSP(step.issueClock.seeded / 1_000_000_000 % 0x1_0000_0000_0000_0000, 8)
      + FromString(step.ip))
  }

  lemma {:induction false} SeedIs(cfg: Config, step: Step)
    requires step.Challenge?
    ensures SeedOf(cfg, step) == SeedBytes(cfg, step)
  {
  }

  /** Both puzzles of an issued challenge, in numbers: by the bucket and the first nine bytes
      of the seed. */
  lemma {:induction false} IssuedPuzzles(cfg: Config, bucket: Byte, step: Step)
    requires step.Challenge?
    ensures var (p, seed) := (IssuedPayload(cfg, bucket, step), SeedBytes(cfg, step));
      && p.challengeID == step.random.challengeID && p.expiresAt == step.issueClock.created + 120_000_000_000
      && p.hashCash.Some? && p.hashCash.value.nonce == step.random.hashCashNonce
      && p.hashCash.value.difficultyBits ==
           (if bucket == 0 then 16 + seed[0] as int % 3 else if bucket == 1 then 18 + seed[0] as int % 3
            else if bucket == 2 then 20 + seed[0] as int % 3 else 22)
      && p.argon2.Some? && p.argon2.value.nonce == step.random.argon2Nonce
      && var x := BigEndian32(seed[1], seed[2], seed[3], seed[4]);
      var y := BigEndian32(seed[5], seed[6], seed[7], seed[8]);
      && p.argon2.value.memory ==
           (if bucket == 0 then 65536 + x % 32769 else if bucket == 1 then 98304 + x % 32769
            else if bucket == 2 then 131072 + x % 65537 else 196608 + x % 65537)
      && p.argon2.value.iterations ==
           (if bucket == 0 then 2 + y % 2 else if bucket == 1 then 2 + y % 3
            else if bucket == 2 then 3 + y % 3 else 4 + y % 2)
  {
    SeedIs(cfg, step);
    BitsByBucket(SeedOf(cfg, step), bucket);
    MemoryByBucket(SeedOf(cfg, step), bucket);
    IterationsByBucket(SeedOf(cfg, step), bucket);
    SelectionShape(SeedOf(cfg, step)[9..], 10, BucketRanges(bucket).probeCount);
    PayloadFields(ParamsFor(cfg, bucket, step), step.random.challengeID, step.random.hashCashNonce,
                  step.random.argon2Nonce, step.issueClock.created);
  }

  /** The probes: as many as the bucket says, all different, the names at the indices that the
      other 23 bytes of the seed draw modulo 10, in order of first occurrence, and then at the
      least unused ones. */
  lemma {:induction false} IssuedProbes(cfg: Config, bucket: Byte, step: Step)
      returns (indices: seq<nat>, positions: seq<nat>)
    requires step.Challenge?
    ensures var (p, tail) := (IssuedPayload(cfg, bucket, step), SeedBytes(cfg, step)[9..]);
      && |p.probes| == |indices| == (if bucket == 0 then 3 else if bucket == 1 then 4 else 5) && |tail| == 23
      && |PROBE_POOL| == 10 && |positions| <= |indices| && Below(indices, 10) && Distinct(indices)
      && (forall j :: 0 <= j < |indices| ==> p.probes[j] == PROBE_POOL[indices[j]])
      && (forall j :: 0 <= j < |positions| ==> positions[j] < 23 && indices[j] == tail[positions[j]] as int % 10)
      && (forall j, i :: 0 <= j < |positions| && 0 <= i < positions[j] ==> tail[i] as int % 10 in indices[..j])
      && (|positions| < |indices| ==> forall i :: 0 <= i < 23 ==> tail[i] as int % 10 in indices[..|positions|])
      && (forall j, x :: |positions| <= j < |indices| && 0 <= x < indices[j] ==> x in indices[..j])
  {
    SeedIs(cfg, step);
    var tail := SeedOf(cfg, step)[9..];
    indices := ParamsFor(cfg, bucket, step).probeIndices;
    SelectionShape(tail, 10, BucketRanges(bucket).probeCount);
    positions := SelectionFollowsSeed(tail, 10, BucketRanges(bucket).probeCount);
    PayloadFields(ParamsFor(cfg, bucket, step), step.random.challengeID, step.random.hashCashNonce,
                  step.random.argon2Nonce, step.issueClock.created);
  }

  /** solution is eight bytes whose hash after the nonce, as a number, is below 2^(256 - k). */
  predicate Solves(suite: Suite, nonce: Bytes, solution: HexField, k: nat) {
    solution.Decoded? && |solution.bytes| == 8 && k <= 256
    && OS2IP(suite.sha256(nonce + solution.bytes)) < Pow(2, 256 - k)
  }

  lemma {:induction false} CheckedIsPaid(cfg: Config, entry: ChallengeEntry, step: Step)
    requires step.Verify? && Checked(cfg, entry, step).Ok? && entry.payload.hashCash.Some?
    ensures Solves(cfg.suite, entry.payload.hashCash.value.nonce, step.answer.hashCashSolution,
                   entry.payload.hashCash.value.difficultyBits)
    ensures step.verifyClock.checked <= entry.payload.expiresAt
  {
    VerifyMeaning(cfg.suite, entry.payload, step.answer, Some(cfg.validate), step.verifyClock.checked);
  }

  lemma {:induction false} SignedIsChecked(cfg: Config, entry: ChallengeEntry, step: Step)
    requires Runnable(cfg) && step.Verify? && SignResponse(cfg, entry, step).Signed?
    ensures Checked(cfg, entry, step).Ok? && SignResponse(cfg, entry, step).metadata == entry.predictedMeta
  {
  }

  /** The bucket that an issuing step binds into its metadata. */
  function BoundBucket(cfg: Config, run: Run, j: nat): Byte
    requires run.Shaped() && j < |run.steps| && run.steps[j].Challenge?
  {
    ScoredBucket(cfg, run.states[j].temperature, run.steps[j])
  }

  /** The digest bound in numbers: a bucket that is signed costs a digest below 2^240, 2^238,
      2^236 or 2^234. */
  lemma {:induction false} PaidInNumbers(cfg: Config, run: Run, i: nat) returns (j: nat)
    requires IsRun(cfg, run) && i < |run.steps| && run.responses[i].Signed?
    ensures run.steps[i].Verify? && j < i && IssuedAt(run, j, run.steps[i].answer.challengeID)
    ensures run.steps[i].answer.hashCashSolution.Decoded? && Decode(run.responses[i].metadata).Ok?
    ensures var bucket := Decode(run.responses[i].metadata).value.temperatureBucket;
      var digest :=
        OS2IP(cfg.suite.sha256(run.steps[j].random.hashCashNonce + run.steps[i].answer.hashCashSolution.bytes));
      && bucket <= 3 && digest < Pow(2, 240)
      && (bucket >= 1 ==> digest < Pow(2, 238)) && (bucket >= 2 ==> digest < Pow(2, 236))
      && (bucket >= 3 ==> digest < Pow(2, 234))
  {
    var k;
    j, k := PaidWork(cfg, run, i);
    SmallDigest(OS2IP(cfg.suite.sha256(
      run.steps[j].random.hashCashNonce + run.steps[i].answer.hashCashSolution.bytes)), k);
  }

  lemma {:induction false} SmallDigest(digest: nat, k: nat)
    requires 16 <= k <= 22 && digest < Pow(2, 256 - k)
    ensures digest < Pow(2, 240)
    ensures (k >= 18 ==> digest < Pow(2, 238)) && (k >= 20 ==> digest < Pow(2, 236))
    ensures k >= 22 ==> digest < Pow(2, 234)
  {
    PowMonotone(2, 256 - k, 240);
    if k >= 18 { PowMonotone(2, 256 - k, 238); }
    if k >= 20 { PowMonotone(2, 256 - k, 236); }
  }

  /** Behind every blind signature there is an earlier request j for the same challenge that
      bound the signed metadata, and a HashCash solution for the nonce of that challenge with
      k bits, at least the minimum of the bucket in the metadata, within 120 seconds. */
  lemma {:induction false} PaidWork(cfg: Config, run: Run, i: nat) returns (j: nat, k: nat)
    requires IsRun(cfg, run) && i < |run.steps| && run.responses[i].Signed?
    ensures run.steps[i].Verify? && j < i && IssuedAt(run, j, run.steps[i].answer.challengeID)
    ensures run.responses[i].metadata == run.responses[j].predictedMetadata
    ensures Decode(run.responses[i].metadata) ==
      Ok(TrustMetadata(2, BoundBucket(cfg, run, j), 1, TimeBucketFromTime(Unix(run.steps[j].issueClock.bound))))
    ensures BoundBucket(cfg, run, j) <= 3
    ensures (if BoundBucket(cfg, run, j) == 0 then 16 else if BoundBucket(cfg, run, j) == 1 then 18
             else if BoundBucket(cfg, run, j) == 2 then 20 else 22) <= k <= 22
    ensures Solves(cfg.suite, run.steps[j].random.hashCashNonce, run.steps[i].answer.hashCashSolution, k)
    ensures run.steps[i].verifyClock.checked <= run.steps[j].issueClock.created + 120_000_000_000
  {
    SignedHasFound(cfg, run, i);
    var id := run.steps[i].answer.challengeID;
    var entry := run.states[i].challenges[id];
    j := EntryOrigin(cfg, run, i, id);
    IssuedMeaning(cfg, run, j);
    IssuedPuzzles(cfg, BoundBucket(cfg, run, j), run.steps[j]);
    SignedIsChecked(cfg, entry, run.steps[i]);
    CheckedIsPaid(cfg, entry, run.steps[i]);
    k := entry.payload.hashCash.value.difficultyBits;
    MetadataRoundTrip(PredictedMetadata(cfg, run.states[j].temperature, run.steps[j]));
  }

  // ----- clocks

  function Start(step: Step): Time {
    match step
    case Challenge(_, _, _, clock) => clock.recorded
    case Verify(_, _, _, _, clock) => clock.checked
    case SiteVerify(_, _, now) => now
    case Sweep(now) => now
    case Cleanup(now) => now
  }

  function End(step: Step): Time {
    match step
    case Challenge(_, _, _, clock) => clock.stored
    case Verify(_, _, _, _, clock) => clock.recorded
    case SiteVerify(_, _, now) => now
    case Sweep(now) => now
    case Cleanup(now) => now
  }

  predicate ReadInOrder(step: Step) {
    match step
    case Challenge(_, _, _, c) => c.recorded <= c.scored <= c.seeded <= c.created <= c.bound <= c.stored
    case Verify(_, _, _, _, c) => c.checked <= c.recorded
    case SiteVerify(_, _, _) => true
    case Sweep(_) => true
    case Cleanup(_) => true
  }

  /** The clock never goes back, within steps and between them. */
  ghost predicate ClockForward(steps: seq<Step>) {
    && (forall i :: 0 <= i < |steps| ==> ReadInOrder(steps[i]))
    && (forall i, j :: 0 <= i < j < |steps| ==> End(steps[i]) <= Start(steps[j]))
  }

  // ----- the bucket comes from the whole history

  function Observed(cfg: Config, run: Run, i: nat): seq<Temperature.Op>
    requires run.Shaped() && i < |run.steps|
  {
    Observations(cfg, run.states[i].challenges, run.steps[i], run.responses[i])
  }

  /** Everything that the first i steps told the temperature store. */
  function History(cfg: Config, run: Run, i: nat): seq<Temperature.Op>
    requires run.Shaped() && i <= |run.steps|
  {
    if i == 0 then [] else History(cfg, run, i - 1) + Observed(cfg, run, i - 1)
  }

  lemma {:induction false} ApplyAfterRun(net: Temperature.Network, ops: seq<Temperature.Op>, more: seq<Temperature.Op>)
    ensures ApplyAll(net, Temperature.Run(net, ops), more) == Temperature.Run(net, ops + more)
  {
    if more == [] {
      assert ops + more == ops;
    } else {
      var front := more[..|more| - 1];
      ApplyAfterRun(net, ops, front);
      LastOfConcat(ops, more);
    }
  }

  lemma {:induction false} LastOfConcat(a: seq<Temperature.Op>, b: seq<Temperature.Op>)
    requires b != []
    ensures var all, last := a + b, |a + b| - 1;
      all[..last] == a + b[..|b| - 1] && all[last] == b[|b| - 1]
  {
  }

  lemma {:induction false} TemperatureFollows(cfg: Config, run: Run, i: nat)
    requires IsRun(cfg, run) && i < |run.steps|
    ensures run.states[i + 1].temperature == ApplyAll(cfg.net, run.states[i].temperature, Observed(cfg, run, i))
  {
    assert Linked(cfg, run, i);
  }

  /** The store before step i is what all the observations so far make it. */
  ghost predicate StoreIsHistory(cfg: Config, run: Run, i: nat)
    requires run.Shaped() && i <= |run.steps|
  {
    run.states[i].temperature == Temperature.Run(cfg.net, History(cfg, run, i))
  }

  lemma {:induction false} HistoryStep(cfg: Config, run: Run, i: nat)
    requires IsRun(cfg, run) && 0 < i <= |run.steps| && StoreIsHistory(cfg, run, i - 1)
    ensures StoreIsHistory(cfg, run, i)
  {
    TemperatureFollows(cfg, run, i - 1);
    ReachedBy(cfg.net, run.states[i - 1].temperature, History(cfg, run, i - 1),
              run.states[i].temperature, Observed(cfg, run, i - 1), History(cfg, run, i));
  }

  lemma {:induction false} ReachedBy(net: Temperature.Network, s: Temperature.State, ops: seq<Temperature.Op>,
                                     t: Temperature.State, more: seq<Temperature.Op>, all: seq<Temperature.Op>)
    requires s == Temperature.Run(net, ops) && t == ApplyAll(net, s, more) && all == ops + more
    ensures t == Temperature.Run(net, all)
  {
    ApplyAfterRun(net, ops, more);
  }

  lemma {:induction false} TemperatureIsHistory(cfg: Config, run: Run, i: nat)
    requires IsRun(cfg, run) && i <= |run.steps|
    ensures StoreIsHistory(cfg, run, i)
  {
    if i == 0 {
    } else {
      TemperatureIsHistory(cfg, run, i - 1);
      HistoryStep(cfg, run, i);
    }
  }

  ghost predicate Within(ops: seq<Temperature.Op>, from: Time, to: Time) {
    forall i :: 0 <= i < |ops| ==> from <= ops[i].at <= to
  }

  lemma {:induction false} ObservedDuring(cfg: Config, m: map<string, ChallengeEntry>, step: Step, r: Response)
    requires ReadInOrder(step)
    ensures var ops := Observations(cfg, m, step, r);
      Temperature.Chronological(ops) && Within(ops, Start(step), End(step))
  {
  }

  lemma {:induction false} HistoryChronological(cfg: Config, run: Run, i: nat, now: Time)
    requires IsRun(cfg, run) && ClockForward(run.steps) && i <= |run.steps|
    requires forall j :: 0 <= j < i ==> End(run.steps[j]) <= now
    ensures Temperature.Chronological(History(cfg, run, i))
    ensures forall k :: 0 <= k < |History(cfg, run, i)| ==> History(cfg, run, i)[k].at <= now
  {
    if i == 0 {
    } else {
      HistoryChronological(cfg, run, i - 1, Start(run.steps[i - 1]));
      ObservedDuring(cfg, run.states[i - 1].challenges, run.steps[i - 1], run.responses[i - 1]);
      AppendChronological(History(cfg, run, i - 1), Observed(cfg, run, i - 1), Start(run.steps[i - 1]),
                          End(run.steps[i - 1]));
    }
  }

  lemma {:induction false} AppendChronological(a: seq<Temperature.Op>, b: seq<Temperature.Op>, from: Time, to: Time)
    requires Temperature.Chronological(a) && (forall k :: 0 <= k < |a| ==> a[k].at <= from)
    requires Temperature.Chronological(b) && Within(b, from, to) && from <= to
    ensures Temperature.Chronological(a + b) && forall k :: 0 <= k < |a + b| ==> (a + b)[k].at <= to
  {
  }

  /** The bucket bound into a challenge is the one that the complete history of the server
      gives, with this request included: no cleanup, sweep or truncation has changed it. */
  lemma {:induction false} BucketFromHistory(cfg: Config, run: Run, j: nat)
    requires IsRun(cfg, run) && ClockForward(run.steps) && j < |run.steps| && Issues(run.steps[j], run.responses[j])
    ensures var step := run.steps[j];
      var ops := History(cfg, run, j) + [Temperature.Record(step.issueClock.recorded, step.ip, None)];
      var score := Temperature.LoggedScore(cfg.net, ops, step.ip, step.siteKey, step.issueClock.scored);
      BoundBucket(cfg, run, j) == if score <= 20 then 0 else if score <= 50 then 1 else if score <= 80 then 2 else 3
  {
    var step := run.steps[j];
    var record := Temperature.Record(step.issueClock.recorded, step.ip, None);
    var ops := History(cfg, run, j) + [record];
    HistoryChronological(cfg, run, j, step.issueClock.recorded);
    assert Temperature.Chronological(ops);
    TemperatureIsHistory(cfg, run, j);
    assert ops[..|ops| - 1] == History(cfg, run, j);
    Temperature.StoreRefinesLog(cfg.net, ops, step.ip, step.siteKey, step.issueClock.scored);
  }

  // ----- replays are refused

  /** For 300 seconds after a redemption every other token with the same nonce is refused as
      a duplicate, whatever sweeps run. */
  lemma {:induction false} ReplayIsRefused(cfg: Config, run: Run, i: nat, j: nat, nonce: Bytes)
    requires IsRun(cfg, run) && ClockForward(run.steps) && i < j < |run.steps| && Redeemed(run, i, nonce)
    requires run.steps[j].SiteVerify? && run.steps[j].secret == cfg.testSiteKey
    requires run.steps[j].token.Some? && |run.steps[j].token.value| == TOKEN_LEN
    requires TokenNonce(run.steps[j].token.value) == nonce && run.steps[j].now <= run.steps[i].now + 300 * SECOND
    ensures run.responses[j] == Rejected(TimeoutOrDuplicate)
  {
    NoSweepYet(run.steps, i, j, run.steps[i].now + TOKEN_TTL);
    StillRemembered(cfg, run, i, j, nonce);
    assert Linked(cfg, run, j);
  }

  lemma {:induction false} NoSweepYet(steps: seq<Step>, i: nat, j: nat, deadline: Time)
    requires ClockForward(steps) && i < j < |steps| && Start(steps[j]) <= deadline
    ensures !SweptAfter(steps, i, j, deadline)
  {
    forall m | i < m < j && steps[m].Sweep?
      ensures steps[m].now <= deadline
    {
      assert End(steps[m]) <= Start(steps[j]);
    }
  }

  // ----- challenges stay answerable until they expire

  /** The table keeps an entry at least as long as its challenge can be answered. */
  lemma {:induction false} EntryOutlivesChallenge(cfg: Config, run: Run, i: nat, id: string)
    requires IsRun(cfg, run) && ClockForward(run.steps) && i <= |run.steps| && id in run.states[i].challenges
    ensures run.states[i].challenges[id].payload.expiresAt <= run.states[i].challenges[id].expiry
  {
    var j := EntryOrigin(cfg, run, i, id);
    IssuedMeaning(cfg, run, j);
    PuzzleOf(cfg, BoundBucket(cfg, run, j), run.steps[j]);
    assert ReadInOrder(run.steps[j]);
  }

  /** A sweep removes exactly the entries past their expiry, and none that could still have
      been answered: any later answer to a removed challenge would have come too late. */
  lemma {:induction false} SweepSparesTheLiving(cfg: Config, run: Run, i: nat, id: string, late: Step)
    requires IsRun(cfg, run) && ClockForward(run.steps) && i < |run.steps| && run.steps[i].Sweep?
    requires id in run.states[i].challenges && late.Verify? && End(run.steps[i]) <= late.verifyClock.checked
    ensures id in run.states[i + 1].challenges <==> run.states[i].challenges[id].expiry >= run.steps[i].now
    ensures id !in run.states[i + 1].challenges ==> Checked(cfg, run.states[i].challenges[id], late) == Err(Expired)
  {
    EntryOutlivesChallenge(cfg, run, i, id);
    TablesFollow(cfg, run, i);
    if id !in run.states[i + 1].challenges {
      LateIsExpired(cfg, run.states[i].challenges[id], late);
    }
  }

  lemma {:induction false} LateIsExpired(cfg: Config, entry: ChallengeEntry, late: Step)
    requires late.Verify? && late.verifyClock.checked > entry.payload.expiresAt
    ensures Checked(cfg, entry, late) == Err(Expired)
  {
  }

  /** Nobody answers or reissues the challenge between steps c and v. */
  ghost predicate Untouched(run: Run, c: nat, v: nat, id: string)
    requires run.Shaped() && v <= |run.steps|
  {
    forall m :: c < m < v ==> !IssuedAt(run, m, id) && !Found(run, m, id)
  }

  lemma {:induction false} EntryKept(m: map<string, ChallengeEntry>, step: Step, r: Response, id: string)
    requires id in m && !(Issues(step, r) && step.random.challengeID == id)
    requires !(Finds(m, step) && step.answer.challengeID == id) && !(step.Sweep? && step.now > m[id].expiry)
    ensures id in NextChallenges(m, step, r) && NextChallenges(m, step, r)[id] == m[id]
  {
  }

  /** An untouched challenge is still in the table at any time up to its expiry. */
  lemma {:induction false} StaysOpen(cfg: Config, run: Run, c: nat, v: nat, id: string, now: Time)
    requires IsRun(cfg, run) && c < v <= |run.steps| && IssuedAt(run, c, id) && Untouched(run, c, v, id)
    requires forall m :: c < m < v ==> End(run.steps[m]) <= now
    requires now <= run.steps[c].issueClock.stored + CHALLENGE_TTL
    ensures id in run.states[v].challenges
    ensures run.states[v].challenges[id] == IssuedEntry(run.steps[c], run.responses[c])
    decreases v
  {
    TablesFollow(cfg, run, v - 1);
    if c == v - 1 {
    } else {
      StaysOpen(cfg, run, c, v - 1, id, now);
      assert !IssuedAt(run, v - 1, id) && !Found(run, v - 1, id);
      EntryKept(run.states[v - 1].challenges, run.steps[v - 1], run.responses[v - 1], id);
    }
  }

  // ----- the honest run

  /** What an honest client draws: the token nonce, the salt and the blinding factor. */
  datatype Client = Client(nonce: Bytes, salt: Bytes, r: int)

  predicate Honest(client: Client, n: nat)
    requires n > 0
  {
    |client.nonce| == NONCE_LEN && |client.salt| == SALT_LEN && Coprime(client.r % n, n)
  }

  /** The answer solves the puzzles of the challenge; leaving out the Argon2 result is allowed. */
  predicate AnswersChallenge(cfg: Config, payload: ChallengePayload, answer: ChallengeResponse) {
    && answer.challengeID == payload.challengeID
    && (payload.hashCash.Some? ==>
          Solves(cfg.suite, payload.hashCash.value.nonce, answer.hashCashSolution,
                 payload.hashCash.value.difficultyBits))
    && (payload.argon2.Some? && !answer.argon2Result.Absent? ==>
          && answer.argon2Result.Decoded?
          && answer.argon2Result.bytes
               == cfg.suite.argon2id(FromString("sovereign-trust-challenge"), payload.argon2.value.nonce,
                                     payload.argon2.value.iterations, payload.argon2.value.memory))
  }

  lemma {:induction false} AnswerIsChecked(cfg: Config, entry: ChallengeEntry, step: Step)
    requires step.Verify? && AnswersChallenge(cfg, entry.payload, step.answer)
    requires step.verifyClock.checked <= entry.payload.expiresAt
    ensures Checked(cfg, entry, step).Ok?
  {
    VerifyMeaning(cfg.suite, entry.payload, step.answer, Some(cfg.validate), step.verifyClock.checked);
  }

  /** A 256-byte modulus has room for the salt and for the derived exponent. */
  lemma {:induction false} SizeIsAmple(n: nat)
    requires UsableModulus(n) && ModulusLen(n) == SIG_LEN
    ensures RoomForSalt(n) && LambdaLen(n) + 16 <= HKDF_LIMIT
  {
  }

  function BlindFor(cfg: Config, client: Client, info: Bytes): Result<Blinded, Error>
    requires Runnable(cfg) && |client.salt| == SALT_LEN
  {
    Blind(cfg.suite, cfg.keyPair.Public(), client.nonce, info, client.salt, client.r)
  }

  lemma {:induction false} BlindSucceeds(cfg: Config, client: Client, info: Bytes)
    requires Runnable(cfg) && ModulusLen(cfg.keyPair.N) == SIG_LEN && Honest(client, cfg.keyPair.N)
    ensures BlindFor(cfg, client, info).Ok?
  {
    SizeIsAmple(cfg.keyPair.N);
    BlindExact(cfg.suite, cfg.keyPair.Public(), client.nonce, info, client.salt, client.r);
  }

  /** The signature that the client unblinds: 256 bytes that verify, unless the modulus has
      2041 bits, the one size of 256 bytes that Verify cannot handle. */
  lemma {:induction false} HonestSignature(cfg: Config, client: Client, info: Bytes)
    requires Runnable(cfg) && SafeKey(cfg.keyPair) && ModulusLen(cfg.keyPair.N) == SIG_LEN
    requires Honest(client, cfg.keyPair.N)
    ensures BlindFor(cfg, client, info).Ok?
    ensures var b := BlindFor(cfg, client, info).value;
      var signed := BlindSign(cfg.suite, cfg.keyPair, b.blindedMsg, info);
      && signed.Ok?
      && var sig := Unblind(cfg.keyPair.N, signed.value, b.inv);
      && |sig| == SIG_LEN
      && (Rsapbssa.Verify(cfg.suite, cfg.keyPair.Public(), client.nonce, info, sig).Ok? <==>
            VerifiableSize(cfg.keyPair.N))
  {
    BlindSucceeds(cfg, client, info);
    EndToEnd(cfg.suite, cfg.keyPair, client.nonce, info, client.salt, client.r);
  }

  /** The signing half of an honest run: whatever happens between the challenge and the first
      answer, a correct answer in time is signed, over the metadata bound at issuance. */
  lemma {:induction false} HonestIsSigned(cfg: Config, run: Run, c: nat, v: nat, client: Client)
    requires IsRun(cfg, run) && ClockForward(run.steps) && SafeKey(cfg.keyPair)
    requires ModulusLen(cfg.keyPair.N) == SIG_LEN && Honest(client, cfg.keyPair.N)
    requires c < v < |run.steps| && run.steps[v].Verify?
    requires IssuedAt(run, c, run.steps[v].answer.challengeID) && Untouched(run, c, v, run.steps[v].answer.challengeID)
    requires AnswersChallenge(cfg, run.responses[c].payload, run.steps[v].answer)
    requires run.steps[v].verifyClock.checked <= run.responses[c].payload.expiresAt
    requires var b := BlindFor(cfg, client, run.responses[c].predictedMetadata);
      b.Ok? && run.steps[v].blindedMsg == Some(b.value.blindedMsg)
    ensures run.responses[v].Signed? && run.responses[v].metadata == run.responses[c].predictedMetadata
    ensures Ok(run.responses[v].blindSignature) ==
      BlindSign(cfg.suite, cfg.keyPair, run.steps[v].blindedMsg.value, run.responses[c].predictedMetadata)
  {
    var id, now := run.steps[v].answer.challengeID, run.steps[v].verifyClock.checked;
    var entry := IssuedEntry(run.steps[c], run.responses[c]);
    IssuedMeaning(cfg, run, c);
    PuzzleOf(cfg, BoundBucket(cfg, run, c), run.steps[c]);
    assert ReadInOrder(run.steps[c]);
    StaysOpen(cfg, run, c, v, id, now);
    AnswerIsChecked(cfg, entry, run.steps[v]);
    HonestSignature(cfg, client, run.responses[c].predictedMetadata);
    assert Linked(cfg, run, v);
  }

  /** The parts of a token come apart again. */
  lemma {:induction false} TokenParts(sig: Bytes, meta: Bytes, nonce: Bytes)
    requires |sig| == 256 && |meta| == 7 && |nonce| == 8
    ensures var token := Widget.BuildToken(sig, meta, nonce);
      |token| == TOKEN_LEN == 271 && token[..256] == sig && token[256..263] == meta && token[263..] == nonce
      && TokenSig(token) == sig && TokenMetadata(token) == meta && TokenNonce(token) == nonce
  {
  }

  ghost predicate SignedByUs(cfg: Config, msg: Bytes, info: Bytes, sig: Bytes)
    requires Runnable(cfg)
  {
    var keys := DeriveKeyPair(cfg.suite, cfg.keyPair, info);
    keys.Ok? && IsDirectSignature(cfg.suite, cfg.keyPair.N, keys.value.1, BuildMsgPrime(msg, info), sig)
  }

  lemma {:induction false} GenuineExact(cfg: Config, token: Bytes)
    requires Runnable(cfg) && SafeKey(cfg.keyPair) && VerifiableSize(cfg.keyPair.N)
    requires ModulusLen(cfg.keyPair.N) == SIG_LEN && |token| == TOKEN_LEN
    ensures Genuine(cfg, token) <==> SignedByUs(cfg, TokenNonce(token), TokenMetadata(token), TokenSig(token))
  {
    SizeIsAmple(cfg.keyPair.N);
    DeriveKeyPairTotal(cfg.suite, cfg.keyPair, TokenMetadata(token));
    VerifyExact(cfg.suite, cfg.keyPair, TokenNonce(token), TokenMetadata(token), TokenSig(token));
  }

  /** Seven bytes of metadata always decode, so that the other checks decide. */
  lemma {:induction false} RedeemedIfGenuine(cfg: Config, tokens: map<Bytes, Time>, step: Step)
    requires Runnable(cfg) && step.SiteVerify?
    ensures SiteVerifyResponse(cfg, tokens, step).Verified? <==>
      && step.secret == cfg.testSiteKey && step.token.Some? && |step.token.value| == TOKEN_LEN
      && TokenNonce(step.token.value) !in tokens && Genuine(cfg, step.token.value)
  {
  }

  /** Redemption, exactly: the right secret, a token of the right length whose nonce is not
      remembered, and the signature that the private key derived for its metadata makes of
      the nonce with some salt. */
  lemma {:induction false} RedemptionExact(cfg: Config, tokens: map<Bytes, Time>, step: Step)
    requires Runnable(cfg) && SafeKey(cfg.keyPair) && VerifiableSize(cfg.keyPair.N)
    requires ModulusLen(cfg.keyPair.N) == SIG_LEN && step.SiteVerify?
    ensures var (secret, token) := (step.secret, step.token);
      SiteVerifyResponse(cfg, tokens, step).Verified? <==>
        && secret == cfg.testSiteKey && token.Some? && |token.value| == TOKEN_LEN
        && TokenNonce(token.value) !in tokens
        && SignedByUs(cfg, TokenNonce(token.value), TokenMetadata(token.value), TokenSig(token.value))
  {
    RedeemedIfGenuine(cfg, tokens, step);
    if step.token.Some? && |step.token.value| == TOKEN_LEN {
      GenuineExact(cfg, step.token.value);
    }
  }

  /** What is reported about a token is what its metadata bytes encode. */
  lemma {:induction false} ReportIsFaithful(cfg: Config, tokens: map<Bytes, Time>, step: Step)
      returns (m: TrustMetadata)
    requires Runnable(cfg) && step.SiteVerify? && SiteVerifyResponse(cfg, tokens, step).Verified?
    ensures step.token.Some? && |step.token.value| == TOKEN_LEN && Encode(m) == TokenMetadata(step.token.value)
    ensures SiteVerifyResponse(cfg, tokens, step)
      == Verified(Timestamp(m.timeBucket), m.challengeClass, m.temperatureBucket)
  {
    m := Decode(TokenMetadata(step.token.value)).value;
    MetadataCanonical(TokenMetadata(step.token.value));
  }

  /** The token that the client makes of the answer it got. */
  function HonestToken(cfg: Config, client: Client, r: Response): Bytes
    requires Runnable(cfg) && |client.salt| == SALT_LEN && r.Signed? && BlindFor(cfg, client, r.metadata).Ok?
  {
    Widget.BuildToken(
      Unblind(cfg.keyPair.N, r.blindSignature, BlindFor(cfg, client, r.metadata).value.inv), r.metadata, client.nonce)
  }

  lemma {:induction false} ReportOf(cfg: Config, tokens: map<Bytes, Time>, step: Step, meta: TrustMetadata)
    requires Runnable(cfg) && step.SiteVerify? && step.secret == cfg.testSiteKey
    requires step.token.Some? && |step.token.value| == TOKEN_LEN && TokenNonce(step.token.value) !in tokens
    requires Decode(TokenMetadata(step.token.value)) == Ok(meta)
    ensures SiteVerifyResponse(cfg, tokens, step) ==
      if Genuine(cfg, step.token.value) then
        Verified(Timestamp(meta.timeBucket), meta.challengeClass, meta.temperatureBucket)
      else Rejected(InvalidInputResponse)
  {
  }

  /** The redeeming half: the token of a signed answer, sent at any later time, is accepted
      as long as its nonce is not remembered. */
  lemma {:induction false} HonestIsRedeemed(cfg: Config, run: Run, t: nat, client: Client, signed: Response,
                                            meta: TrustMetadata)
    requires IsRun(cfg, run) && SafeKey(cfg.keyPair) && t < |run.steps| && run.steps[t].SiteVerify?
    requires ModulusLen(cfg.keyPair.N) == SIG_LEN && Honest(client, cfg.keyPair.N)
    requires signed.Signed? && signed.metadata == Encode(meta) && BlindFor(cfg, client, signed.metadata).Ok?
    requires BlindSign(cfg.suite, cfg.keyPair, BlindFor(cfg, client, signed.metadata).value.blindedMsg, signed.metadata)
      == Ok(signed.blindSignature)
    requires run.steps[t].secret == cfg.testSiteKey && run.steps[t].token == Some(HonestToken(cfg, client, signed))
    requires client.nonce !in run.states[t].tokens
    ensures run.responses[t] ==
      if VerifiableSize(cfg.keyPair.N) then
        Verified(Timestamp(meta.timeBucket), meta.challengeClass, meta.temperatureBucket)
      else Rejected(InvalidInputResponse)
  {
    HonestSignature(cfg, client, signed.metadata);
    var sig := Unblind(cfg.keyPair.N, signed.blindSignature, BlindFor(cfg, client, signed.metadata).value.inv);
    TokenParts(sig, signed.metadata, client.nonce);
    MetadataRoundTrip(meta);
    assert Linked(cfg, run, t);
    ReportOf(cfg, run.states[t].tokens, run.steps[t], meta);
  }

  /** An honest run from any reachable state: a challenge that nobody else touches, answered
      correctly and in time, is signed, and the unblinded token is redeemed with class 2, the
      bucket that was scored at issuance, and the hour of issue. */
  lemma {:induction false} HonestRun(cfg: Config, run: Run, c: nat, v: nat, t: nat, client: Client)
    requires IsRun(cfg, run) && ClockForward(run.steps) && SafeKey(cfg.keyPair)
    requires ModulusLen(cfg.keyPair.N) == SIG_LEN && Honest(client, cfg.keyPair.N)
    requires c < v < t < |run.steps| && run.steps[v].Verify? && run.steps[t].SiteVerify?
    requires IssuedAt(run, c, run.steps[v].answer.challengeID) && Untouched(run, c, v, run.steps[v].answer.challengeID)
    requires AnswersChallenge(cfg, run.responses[c].payload, run.steps[v].answer)
    requires run.steps[v].verifyClock.checked <= run.responses[c].payload.expiresAt
    requires var b := BlindFor(cfg, client, run.responses[c].predictedMetadata);
      b.Ok? && run.steps[v].blindedMsg == Some(b.value.blindedMsg)
    requires run.responses[v].Signed? && run.responses[v].metadata == run.responses[c].predictedMetadata ==>
      run.steps[t].token == Some(HonestToken(cfg, client, run.responses[v]))
    requires run.steps[t].secret == cfg.testSiteKey && client.nonce !in run.states[t].tokens
    ensures run.responses[v].Signed? && run.responses[v].metadata == run.responses[c].predictedMetadata
    ensures var issued := Unix(run.steps[c].issueClock.bound);
      if VerifiableSize(cfg.keyPair.N) then
        && run.responses[t] == Verified(Timestamp(TimeBucketFromTime(issued)), 2, BoundBucket(cfg, run, c))
        && (run.responses[t].timestamp <= issued < run.responses[t].timestamp + 3600 <==>
              0 <= issued < END_OF_TIMESTAMPS)
      else run.responses[t] == Rejected(InvalidInputResponse)
  {
    HonestIsSigned(cfg, run, c, v, client);
    IssuedMeaning(cfg, run, c);
    HonestIsRedeemed(cfg, run, t, client, run.responses[v],
                     PredictedMetadata(cfg, run.states[c].temperature, run.steps[c]));
    TimestampExact(Unix(run.steps[c].issueClock.bound));
  }

  /** The widget is such a client when the modulus fills its 256 bytes: it blinds to the same
      bytes and builds the same token. */
  lemma {:induction false} WidgetIsHonest(cfg: Config, nBytes: Bytes, client: Client, rBytes: Bytes, signed: Response)
    requires Runnable(cfg) && BitLen(cfg.keyPair.N) == 8 * SIG_LEN && Widget.SentModulus(nBytes, cfg.keyPair.N)
    requires Honest(client, cfg.keyPair.N) && client.r == OS2IP(rBytes) % cfg.keyPair.N && signed.Signed?
    ensures |nBytes| >= 2 && BlindFor(cfg, client, signed.metadata).Ok?
    ensures var w := Widget.WidgetBlind(cfg.suite, nBytes, client.nonce, signed.metadata, client.salt, rBytes);
      && w.Ok? && w.value.blindedMsg == BlindFor(cfg, client, signed.metadata).value.blindedMsg
      && Widget.BuildToken(Widget.WidgetUnblind(signed.blindSignature, w.value.rInv, cfg.keyPair.N, |nBytes|),
                           signed.metadata, client.nonce)
         == HonestToken(cfg, client, signed)
  {
    SizeIsAmple(cfg.keyPair.N);
    BlindSucceeds(cfg, client, signed.metadata);
    Widget.WidgetBlindAgrees(cfg.suite, nBytes, cfg.keyPair.Public(), client.nonce, signed.metadata,
                             client.salt, rBytes);
    Widget.WidgetUnblindAgrees(cfg.keyPair.N, signed.blindSignature, BlindFor(cfg, client, signed.metadata).value.inv);
  }

  // ----- the service is always available

  lemma {:induction false} ClockExtends(steps: seq<Step>, step: Step)
    requires ClockForward(steps) && ReadInOrder(step)
    requires forall i :: 0 <= i < |steps| ==> End(steps[i]) <= Start(step)
    ensures ClockForward(steps + [step])
  {
  }

  /** All steps are over by now. */
  ghost predicate OverBy(steps: seq<Step>, now: Time) {
    ClockForward(steps) && forall i :: 0 <= i < |steps| ==> End(steps[i]) <= now
  }

  /** A step whose clock readings are all the same. */
  predicate Instant(step: Step, now: Time) {
    ReadInOrder(step) && Start(step) == now == End(step)
  }

  /** One more step, at time now. */
  lemma {:induction false} Extend(cfg: Config, run: Run, step: Step, now: Time) returns (longer: Run)
    requires IsRun(cfg, run) && OverBy(run.steps, now) && Instant(step, now)
    ensures IsRun(cfg, longer) && OverBy(longer.steps, now) && longer.steps == run.steps + [step]
    ensures run.responses <= longer.responses && run.states <= longer.states
    ensures !step.SiteVerify? && !step.Sweep? ==>
      longer.states[|run.steps| + 1].tokens == run.states[|run.steps|].tokens
  {
    longer := RunExtends(cfg, run, step);
    ClockExtends(run.steps, step);
    TablesFollow(cfg, longer, |run.steps|);
  }

  lemma {:induction false} ChallengeIsIssued(cfg: Config, run: Run, i: nat)
    requires IsRun(cfg, run) && i < |run.steps| && run.steps[i].Challenge? && run.steps[i].siteKey != ""
    ensures Issues(run.steps[i], run.responses[i])
  {
    assert Linked(cfg, run, i);
  }

  lemma {:induction false} SolvesEasier(suite: Suite, nonce: Bytes, solution: HexField, easy: nat, hard: nat)
    requires Solves(suite, nonce, solution, hard) && easy <= hard
    ensures Solves(suite, nonce, solution, easy)
  {
    PowMonotone(2, 256 - hard, 256 - easy);
  }

  /** A solution for the highest difficulty answers whatever challenge comes back. */
  lemma {:induction false} HardestAnswerFits(cfg: Config, run: Run, c: nat, answer: ChallengeResponse)
    requires IsRun(cfg, run) && c < |run.steps| && Issues(run.steps[c], run.responses[c])
    requires answer.challengeID == run.steps[c].random.challengeID && answer.argon2Result.Absent?
    requires Solves(cfg.suite, run.steps[c].random.hashCashNonce, answer.hashCashSolution, 22)
    ensures AnswersChallenge(cfg, run.responses[c].payload, answer)
    ensures run.responses[c].payload.expiresAt == run.steps[c].issueClock.created + CHALLENGE_TTL
  {
    IssuedMeaning(cfg, run, c);
    PuzzleOf(cfg, BoundBucket(cfg, run, c), run.steps[c]);
    SolvesEasier(cfg.suite, run.steps[c].random.hashCashNonce, answer.hashCashSolution,
                 run.responses[c].payload.hashCash.value.difficultyBits, 22);
  }

  lemma {:induction false} IssueNow(cfg: Config, run: Run, ip: string, siteKey: string, random: Randomness, now: Time)
      returns (longer: Run)
    requires IsRun(cfg, run) && OverBy(run.steps, now) && siteKey != ""
    ensures IsRun(cfg, longer) && OverBy(longer.steps, now) && run.states <= longer.states
    ensures longer.steps == run.steps + [Challenge(ip, siteKey, random, IssueClock(now, now, now, now, now, now))]
    ensures longer.states[|run.steps| + 1].tokens == run.states[|run.steps|].tokens
    ensures var c := |run.steps|;
      && Issues(longer.steps[c], longer.responses[c])
      && longer.responses[c].predictedMetadata
           == Encode(PredictedMetadata(cfg, longer.states[c].temperature, longer.steps[c]))
  {
    longer := Extend(cfg, run, Challenge(ip, siteKey, random, IssueClock(now, now, now, now, now, now)), now);
    ChallengeIsIssued(cfg, longer, |run.steps|);
    IssuedMeaning(cfg, longer, |run.steps|);
  }

  /** A challenge that has just been issued can be answered at once. */
  lemma {:induction false} AnswerNow(cfg: Config, run: Run, c: nat, client: Client, ip: string, siteKey: string,
                                     solution: HexField, now: Time)
      returns (longer: Run)
    requires IsRun(cfg, run) && OverBy(run.steps, now) && SafeKey(cfg.keyPair) && |run.steps| == c + 1
    requires ModulusLen(cfg.keyPair.N) == SIG_LEN && Honest(client, cfg.keyPair.N)
    requires Issues(run.steps[c], run.responses[c]) && run.steps[c].issueClock.created == now
    requires Solves(cfg.suite, run.steps[c].random.hashCashNonce, solution, 22)
    ensures IsRun(cfg, longer) && OverBy(longer.steps, now) && |longer.steps| == c + 2 && run.steps <= longer.steps
    ensures run.states <= longer.states && longer.states[c + 2].tokens == run.states[c + 1].tokens
    ensures var info, signed := run.responses[c].predictedMetadata, longer.responses[c + 1];
      && signed.Signed? && signed.metadata == info && BlindFor(cfg, client, info).Ok?
      && Ok(signed.blindSignature)
           == BlindSign(cfg.suite, cfg.keyPair, BlindFor(cfg, client, info).value.blindedMsg, info)
  {
    var info := run.responses[c].predictedMetadata;
    BlindSucceeds(cfg, client, info);
    var answer := ChallengeResponse(run.steps[c].random.challengeID, solution, Absent, map[]);
    var blindedMsg := Some(BlindFor(cfg, client, info).value.blindedMsg);
    longer := Extend(cfg, run, Verify(ip, siteKey, answer, blindedMsg, VerifyClock(now, now)), now);
    HardestAnswerFits(cfg, longer, c, answer);
    HonestIsSigned(cfg, longer, c, c + 1, client);
  }

  /** Whatever has happened before, an honest client that finds a HashCash solution gets a
      blind signature with two more requests. */
  lemma {:induction false} AlwaysSigned(cfg: Config, run: Run, client: Client, ip: string, siteKey: string,
                                        random: Randomness, solution: HexField, now: Time)
      returns (longer: Run)
    requires IsRun(cfg, run) && OverBy(run.steps, now) && SafeKey(cfg.keyPair)
    requires ModulusLen(cfg.keyPair.N) == SIG_LEN && Honest(client, cfg.keyPair.N) && siteKey != ""
    requires Solves(cfg.suite, random.hashCashNonce, solution, 22)
    ensures IsRun(cfg, longer) && OverBy(longer.steps, now) && |longer.steps| == |run.steps| + 2
    ensures run.steps <= longer.steps && longer.states[|run.steps| + 2].tokens == run.states[|run.steps|].tokens
    ensures longer.steps[|run.steps|] == Challenge(ip, siteKey, random, IssueClock(now, now, now, now, now, now))
    ensures var c, signed := |run.steps|, longer.responses[|run.steps| + 1];
      && signed.Signed? && BlindFor(cfg, client, signed.metadata).Ok?
      && signed.metadata == Encode(PredictedMetadata(cfg, longer.states[c].temperature, longer.steps[c]))
      && Ok(signed.blindSignature) == BlindSign(cfg.suite, cfg.keyPair,
           BlindFor(cfg, client, signed.metadata).value.blindedMsg, signed.metadata)
  {
    var c := |run.steps|;
    var issued := IssueNow(cfg, run, ip, siteKey, random, now);
    longer := AnswerNow(cfg, issued, c, client, ip, siteKey, solution, now);
    assert longer.steps[c] == issued.steps[c] && longer.states[c] == issued.states[c];
  }

  lemma {:induction false} RedeemNow(cfg: Config, run: Run, client: Client, signed: Response, meta: TrustMetadata,
                                     now: Time)
      returns (longer: Run)
    requires IsRun(cfg, run) && OverBy(run.steps, now) && SafeKey(cfg.keyPair) && VerifiableSize(cfg.keyPair.N)
    requires ModulusLen(cfg.keyPair.N) == SIG_LEN && Honest(client, cfg.keyPair.N)
    requires signed.Signed? && signed.metadata == Encode(meta) && BlindFor(cfg, client, signed.metadata).Ok?
    requires BlindSign(cfg.suite, cfg.keyPair, BlindFor(cfg, client, signed.metadata).value.blindedMsg, signed.metadata)
      == Ok(signed.blindSignature)
    requires client.nonce !in run.states[|run.steps|].tokens
    ensures IsRun(cfg, longer) && run.steps <= longer.steps && |longer.steps| == |run.steps| + 1
    ensures run.states <= longer.states
    ensures longer.responses[|run.steps|] ==
      Verified(Timestamp(meta.timeBucket), meta.challengeClass, meta.temperatureBucket)
  {
    longer := Extend(cfg, run, SiteVerify(cfg.testSiteKey, Some(HonestToken(cfg, client, signed)), now), now);
    HonestIsRedeemed(cfg, longer, |run.steps|, client, signed, meta);
  }

  /** And with a third one it redeems its token, unless its nonce is still remembered: the
      service cannot be brought into a state in which honest clients are turned away. */
  lemma {:induction false} AlwaysRedeemable(cfg: Config, run: Run, client: Client, ip: string, siteKey: string,
                                            random: Randomness, solution: HexField, now: Time)
      returns (longer: Run)
    requires IsRun(cfg, run) && OverBy(run.steps, now) && SafeKey(cfg.keyPair) && VerifiableSize(cfg.keyPair.N)
    requires ModulusLen(cfg.keyPair.N) == SIG_LEN && Honest(client, cfg.keyPair.N) && siteKey != ""
    requires Solves(cfg.suite, random.hashCashNonce, solution, 22)
    requires client.nonce !in run.states[|run.steps|].tokens
    ensures IsRun(cfg, longer) && |longer.steps| == |run.steps| + 3 && run.steps <= longer.steps
    ensures longer.steps[|run.steps|].Challenge? && longer.responses[|run.steps| + 2] ==
      Verified(Timestamp(TimeBucketFromTime(Unix(now))), 2, BoundBucket(cfg, longer, |run.steps|))
  {
    var c := |run.steps|;
    var signed := AlwaysSigned(cfg, run, client, ip, siteKey, random, solution, now);
    longer := RedeemNow(cfg, signed, client, signed.responses[c + 1],
                        PredictedMetadata(cfg, signed.states[c].temperature, signed.steps[c]), now);
  }
}
