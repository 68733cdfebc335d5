/** The token server: its handlers and its sweep as steps on two tables and the temperature
    store. Handlers are serialised here: a load followed by a store or a delete in the same
    handler is one step. */
module Server {
  import opened Wrappers
  import opened Bytes
  import opened Clock
  import opened HashSuite
  import opened Rsapbssa
  import opened Metadata
  import opened HashCash
  import opened Params
  import opened Composite
  import Temperature

  const SIG_LEN := 256
  const META_LEN := 7
  const NONCE_LEN := 8
  const TOKEN_LEN := SIG_LEN + META_LEN + NONCE_LEN
  const TOKEN_TTL: Time := 300 * SECOND

  /** What never changes while the server runs. */
  datatype Config = Config(
    suite: Suite, keyPair: KeyPair, net: Temperature.Network, validate: ProbeScore,
    testSiteKey: string, seedSecret: Bytes)

  /** newServer, with the two keys that are written into the source. */
  function NewConfig(suite: Suite, keyPair: KeyPair, net: Temperature.Network, validate: ProbeScore): Config {
    Config(suite, keyPair, net, validate, "sk_test_sovereign", FromString("poc-server-secret"))
  }

  /** Key pairs with which no handler panics. */
  predicate Runnable(cfg: Config) {
    UsableModulus(cfg.keyPair.N) && cfg.keyPair.Phi > 0
  }

  datatype ChallengeEntry = ChallengeEntry(payload: ChallengePayload, predictedMeta: Bytes, expiry: Time)

  /** The two in-memory tables, by challenge ID and by nonce, and the temperature store. */
  datatype State = State(
    challenges: map<string, ChallengeEntry>, tokens: map<Bytes, Time>, temperature: Temperature.State)

  const INITIAL: State := State(map[], map[], Temperature.EMPTY)

  /** What a challenge request draws at random. */
  datatype Randomness = Randomness(seedNonce: Bytes, challengeID: string, hashCashNonce: Bytes, argon2Nonce: Bytes)

  /** The clock readings of a challenge request, in the order in which they are taken. */
  datatype IssueClock = IssueClock(recorded: Time, scored: Time, seeded: Time, created: Time, bound: Time, stored: Time)

  /** The clock readings of a verification request. */
  datatype VerifyClock = VerifyClock(checked: Time, recorded: Time)

  /** Requests carry decoded byte strings; None stands for text that is not base64. */
  datatype Step =
    | Challenge(ip: string, siteKey: string, random: Randomness, issueClock: IssueClock)
    | Verify(ip: string, siteKey: string, answer: ChallengeResponse, blindedMsg: Option<Bytes>,
             verifyClock: VerifyClock)
    | SiteVerify(secret: string, token: Option<Bytes>, now: Time)
    | Sweep(now: Time)
    | Cleanup(now: Time)

  datatype Rejection =
    | MissingSiteKey
    | ChallengeNotFound
    | ChallengeFailed(cause: ChallengeError)
    | InvalidBlindedMessage
    | SigningFailed
    | InvalidInputSecret
    | InvalidInputResponse
    | TimeoutOrDuplicate

  datatype Response =
    | Issued(payload: ChallengePayload, publicKey: PublicKey, predictedMetadata: Bytes)
    | Signed(blindSignature: Bytes, metadata: Bytes)
    | Verified(timestamp: Uint32, challengeClass: Byte, temperatureBucket: Byte)
    | Rejected(reason: Rejection)
    | Silent

  // ----- issuing a challenge

  function ScoredBucket(cfg: Config, t: Temperature.State, step: Step): Byte
    requires step.Challenge?
  {
    Temperature.Bucket(cfg.net, Temperature.Recorded(cfg.net, t, step.ip, None, step.issueClock.recorded),
                       step.ip, step.siteKey, step.issueClock.scored)
  }

  function SeedOf(cfg: Config, step: Step): Digest256
    requires step.Challenge?
  {
    GenerateSeed(cfg.suite, cfg.seedSecret, step.random.seedNonce,
                 I2OSP(Unix(step.issueClock.seeded) % UINT64, 8), FromString(step.ip))
  }

  /** The metadata that a token for this challenge will carry: class and device are fixed. */
  function PredictedMetadata(cfg: Config, t: Temperature.State, step: Step): TrustMetadata
    requires step.Challenge?
  {
    TrustMetadata(2, ScoredBucket(cfg, t, step), 1, TimeBucketFromTime(Unix(step.issueClock.bound)))
  }

  function ParamsFor(cfg: Config, bucket: Byte, step: Step): ChallengeParams
    requires step.Challenge?
  {
    BucketRangesUsable(bucket);
    DeriveParams(SeedOf(cfg, step), BucketRanges(bucket))
  }

  function IssuedPayload(cfg: Config, bucket: Byte, step: Step): ChallengePayload
    requires step.Challenge?
  {
    NewPayload(ParamsFor(cfg, bucket, step), step.random.challengeID,
               step.random.hashCashNonce, step.random.argon2Nonce, step.issueClock.created)
  }

  function IssueResponse(cfg: Config, t: Temperature.State, step: Step): Response
    requires step.Challenge?
  {
    if step.siteKey == "" then Rejected(MissingSiteKey)
    else
      Issued(IssuedPayload(cfg, ScoredBucket(cfg, t, step), step), cfg.keyPair.Public(),
             Encode(PredictedMetadata(cfg, t, step)))
  }

  // ----- answering one

  predicate Finds(challenges: map<string, ChallengeEntry>, step: Step) {
    step.Verify? && step.answer.challengeID in challenges
  }

  function Checked(cfg: Config, entry: ChallengeEntry, step: Step): Result<(Byte, real), ChallengeError>
    requires step.Verify?
  {
    Composite.Verify(cfg.suite, entry.payload, step.answer, Some(cfg.validate), step.verifyClock.checked)
  }

  function SignResponse(cfg: Config, entry: ChallengeEntry, step: Step): Response
    requires Runnable(cfg) && step.Verify?
  {
    var checked := Checked(cfg, entry, step);
    if checked.Err? then Rejected(ChallengeFailed(checked.error))
    else if step.blindedMsg.None? then Rejected(InvalidBlindedMessage)
    else
      var signed := BlindSign(cfg.suite, cfg.keyPair, step.blindedMsg.value, entry.predictedMeta);
      if signed.Err? then Rejected(SigningFailed) else Signed(signed.value, entry.predictedMeta)
  }

  function VerifyResponse(cfg: Config, challenges: map<string, ChallengeEntry>, step: Step): Response
    requires Runnable(cfg) && step.Verify?
  {
    if !Finds(challenges, step) then Rejected(ChallengeNotFound)
    else SignResponse(cfg, challenges[step.answer.challengeID], step)
  }

  // ----- redeeming a token

  function TokenSig(token: Bytes): Bytes
    requires |token| == TOKEN_LEN
  {
    token[..SIG_LEN]
  }

  function TokenMetadata(token: Bytes): (b: Bytes)
    requires |token| == TOKEN_LEN
    ensures |b| == META_LEN
  {
    token[SIG_LEN..SIG_LEN + META_LEN]
  }

  function TokenNonce(token: Bytes): (b: Bytes)
    requires |token| == TOKEN_LEN
    ensures |b| == NONCE_LEN
  {
    token[SIG_LEN + META_LEN..]
  }

  /** The signature of the token verifies for its nonce and metadata. */
  predicate Genuine(cfg: Config, token: Bytes)
    requires Runnable(cfg) && |token| == TOKEN_LEN
  {
    Rsapbssa.Verify(cfg.suite, cfg.keyPair.Public(), TokenNonce(token), TokenMetadata(token), TokenSig(token)).Ok?
  }

  function SiteVerifyResponse(cfg: Config, tokens: map<Bytes, Time>, step: Step): Response
    requires Runnable(cfg) && step.SiteVerify?
  {
    if step.secret != cfg.testSiteKey then Rejected(InvalidInputSecret)
    else if step.token.None? || |step.token.value| != TOKEN_LEN then Rejected(InvalidInputResponse)
    else if TokenNonce(step.token.value) in tokens then Rejected(TimeoutOrDuplicate)
    else
      var meta := Decode(TokenMetadata(step.token.value));
      if meta.Err? || !Genuine(cfg, step.token.value) then Rejected(InvalidInputResponse)
      else Verified(Timestamp(meta.value.timeBucket), meta.value.challengeClass, meta.value.temperatureBucket)
  }

  // ----- steps

  function Respond(cfg: Config, s: State, step: Step): Response
    requires Runnable(cfg)
  {
    match step
    case Challenge(_, _, _, _) => IssueResponse(cfg, s.temperature, step)
    case Verify(_, _, _, _, _) => VerifyResponse(cfg, s.challenges, step)
    case SiteVerify(_, _, _) => SiteVerifyResponse(cfg, s.tokens, step)
    case Sweep(_) => Silent
    case Cleanup(_) => Silent
  }

  function SweptChallenges(m: map<string, ChallengeEntry>, now: Time): map<string, ChallengeEntry> {
    map id | id in m && m[id].expiry >= now :: m[id]
  }

  function SweptTokens(m: map<Bytes, Time>, now: Time): map<Bytes, Time> {
    map nonce | nonce in m && m[nonce] >= now :: m[nonce]
  }

  /** Issuing, for the response r that the step gets. */
  predicate Issues(step: Step, r: Response) {
    step.Challenge? && r.Issued?
  }

  function IssuedEntry(step: Step, r: Response): ChallengeEntry
    requires Issues(step, r)
  {
    ChallengeEntry(r.payload, r.predictedMetadata, step.issueClock.stored + CHALLENGE_TTL)
  }

  function NextChallenges(m: map<string, ChallengeEntry>, step: Step, r: Response): map<string, ChallengeEntry> {
    if Issues(step, r) then m[step.random.challengeID := IssuedEntry(step, r)]
    else if Finds(m, step) then m - {step.answer.challengeID}
    else if step.Sweep? then SweptChallenges(m, step.now)
    else m
  }

  /** Redemption, for the response r that the step gets. */
  predicate Redeems(step: Step, r: Response) {
    step.SiteVerify? && r.Verified? && step.token.Some? && |step.token.value| == TOKEN_LEN
  }

  function NextTokens(tokens: map<Bytes, Time>, step: Step, r: Response): map<Bytes, Time> {
    if Redeems(step, r) then tokens[TokenNonce(step.token.value) := step.now + TOKEN_TTL]
    else if step.Sweep? then SweptTokens(tokens, step.now)
    else tokens
  }

  function BurnKey(cfg: Config, step: Step): string
    requires step.Verify?
  {
    if step.siteKey == "" then cfg.testSiteKey else step.siteKey
  }

  /** What a step tells the temperature store. */
  function Observations(cfg: Config, m: map<string, ChallengeEntry>, step: Step, r: Response): seq<Temperature.Op> {
    if Issues(step, r) then [Temperature.Record(step.issueClock.recorded, step.ip, None)]
    else if Finds(m, step) then AnswerObservations(cfg, m[step.answer.challengeID], step, r)
    else if step.Cleanup? then [Temperature.Cleanup(step.now)]
    else []
  }

  /** An answer that passes the checks is recorded with its probe verdict, and burns a token
      if it is also signed. */
  function AnswerObservations(cfg: Config, entry: ChallengeEntry, step: Step, r: Response): seq<Temperature.Op>
    requires step.Verify?
  {
    match Checked(cfg, entry, step)
    case Err(_) => []
    case Ok((_, anomaly)) =>
      var record := Temperature.Record(step.verifyClock.recorded, step.ip, Some(anomaly < 0.5));
      if r.Signed? then [record, Temperature.Burn(step.verifyClock.recorded, BurnKey(cfg, step))] else [record]
  }

  function ApplyAll(net: Temperature.Network, t: Temperature.State, ops: seq<Temperature.Op>): Temperature.State {
    if ops == [] then t else Temperature.Apply(net, ApplyAll(net, t, ops[..|ops| - 1]), ops[|ops| - 1])
  }

  /** The state after a step that gets the response r. */
  function After(cfg: Config, s: State, step: Step, r: Response): State {
    State(NextChallenges(s.challenges, step, r), NextTokens(s.tokens, step, r),
          ApplyAll(cfg.net, s.temperature, Observations(cfg, s.challenges, step, r)))
  }

  /** One step: the response, and the state it leaves behind. */
  ghost predicate Transition(cfg: Config, s: State, step: Step, r: Response, t: State)
    requires Runnable(cfg)
  {
    r == Respond(cfg, s, step) && t == After(cfg, s, step, r)
  }

  // ----- the server as an object

  lemma {:induction false} ApplyOne(net: Temperature.Network, t: Temperature.State, op: Temperature.Op)
    ensures ApplyAll(net, t, [op]) == Temperature.Apply(net, t, op)
  {
    assert [op][..0] == [];
  }

  lemma {:induction false} ApplyTwo(net: Temperature.Network, t: Temperature.State, a: Temperature.Op,
                                    b: Temperature.Op)
    ensures ApplyAll(net, t, [a, b]) == Temperature.Apply(net, Temperature.Apply(net, t, a), b)
  {
    assert [a, b][..1] == [a];
    ApplyOne(net, t, a);
  }

  lemma {:induction false} AfterIssue(cfg: Config, s: State, step: Step, r: Response)
    requires Issues(step, r)
    ensures After(cfg, s, step, r) == State(
      s.challenges[step.random.challengeID := IssuedEntry(step, r)], s.tokens,
      Temperature.Recorded(cfg.net, s.temperature, step.ip, None, step.issueClock.recorded))
  {
    ApplyOne(cfg.net, s.temperature, Temperature.Record(step.issueClock.recorded, step.ip, None));
  }

  lemma {:induction false} RedeemedTokens(tokens: map<Bytes, Time>, secret: string, token: Option<Bytes>, now: Time,
                                          r: Response)
    requires r.Verified? ==> token.Some? && |token.value| == TOKEN_LEN
    ensures NextTokens(tokens, SiteVerify(secret, token, now), r) ==
      if r.Verified? then tokens[TokenNonce(token.value) := now + TOKEN_TTL] else tokens
  {
  }

  class TokenServer {
    const cfg: Config
    const tempStore: Temperature.Store
    var challenges: map<string, ChallengeEntry>
    var tokens: map<Bytes, Time>

    ghost predicate Valid() {
      Runnable(cfg) && tempStore.net == cfg.net
    }

    ghost function Contents(): State
      reads this, tempStore
    {
      State(challenges, tokens, tempStore.Contents())
    }

    constructor (suite: Suite, keyPair: KeyPair, net: Temperature.Network, validate: ProbeScore)
      requires Runnable(NewConfig(suite, keyPair, net, validate))
      ensures Valid() && cfg == NewConfig(suite, keyPair, net, validate)
      ensures fresh(tempStore) && Contents() == INITIAL
    {
      cfg := NewConfig(suite, keyPair, net, validate);
      tempStore := new Temperature.Store(net);
      challenges := map[];
      tokens := map[];
    }

    method HandleChallenge(ip: string, siteKey: string, random: Randomness, clock: IssueClock) returns (r: Response)
      requires Valid()
      modifies this, tempStore
      ensures var step := Challenge(ip, siteKey, random, clock);
        r == Respond(cfg, old(Contents()), step) && Contents() == After(cfg, old(Contents()), step, r)
    {
      ghost var was, step := Contents(), Challenge(ip, siteKey, random, clock);
      if siteKey == "" {
        return Rejected(MissingSiteKey);
      }
      tempStore.Record(ip, None, clock.recorded);
      var _, bucket := tempStore.ComputeScore(ip, siteKey, clock.scored);
      var payload := NewChallenge(bucket, ip, siteKey, random, clock);
      var predictedMeta := EncodeBuffer(TrustMetadata(2, bucket, 1, TimeBucketFromTime(Unix(clock.bound))));
      r := Issued(payload, cfg.keyPair.Public(), predictedMeta);
      var entry := ChallengeEntry(payload, predictedMeta, clock.stored + CHALLENGE_TTL);
      assert entry == IssuedEntry(step, r);
      challenges := challenges[random.challengeID := entry];
      AfterIssue(cfg, was, step, r);
    }

    /** The middle part of handleChallenge: from the bucket to the challenge. */
    method NewChallenge(bucket: Byte, ip: string, siteKey: string, random: Randomness, clock: IssueClock)
        returns (payload: ChallengePayload)
      ensures payload == IssuedPayload(cfg, bucket, Challenge(ip, siteKey, random, clock))
    {
      var ranges := BucketRanges(bucket);
      BucketRangesUsable(bucket);
      var ts := I2OSP(Unix(clock.seeded) % UINT64, 8);
      var seed := GenerateSeed(cfg.suite, cfg.seedSecret, random.seedNonce, ts, FromString(ip));
      var params := Derive(seed, ranges);
      payload := New(params, random.challengeID, random.hashCashNonce, random.argon2Nonce, clock.created);
    }

    method HandleVerify(ip: string, siteKey: string, answer: ChallengeResponse, blindedMsg: Option<Bytes>,
                        clock: VerifyClock)
        returns (r: Response)
      requires Valid()
      modifies this, tempStore
      ensures var step := Verify(ip, siteKey, answer, blindedMsg, clock);
        r == Respond(cfg, old(Contents()), step) && Contents() == After(cfg, old(Contents()), step, r)
    {
      ghost var was, step := Contents(), Verify(ip, siteKey, answer, blindedMsg, clock);
      if answer.challengeID !in challenges {
        return Rejected(ChallengeNotFound);
      }
      var ce := challenges[answer.challengeID];
      challenges := challenges - {answer.challengeID};
      var checked := Composite.VerifyResponse(cfg.suite, ce.payload, answer, Some(cfg.validate), clock.checked);
      if checked.Err? {
        return Rejected(ChallengeFailed(checked.error));
      }
      var key := if siteKey == "" then cfg.testSiteKey else siteKey;
      var probePass := checked.value.1 < 0.5;
      ghost var record := Temperature.Record(clock.recorded, ip, Some(probePass));
      tempStore.Record(ip, Some(probePass), clock.recorded);
      ApplyOne(cfg.net, was.temperature, record);
      if blindedMsg.None? {
        return Rejected(InvalidBlindedMessage);
      }
      var blindSig := BlindSign(cfg.suite, cfg.keyPair, blindedMsg.value, ce.predictedMeta);
      if blindSig.Err? {
        return Rejected(SigningFailed);
      }
      tempStore.RecordTokenBurn(key);
      ApplyTwo(cfg.net, was.temperature, record, Temperature.Burn(clock.recorded, key));
      return Signed(blindSig.value, ce.predictedMeta);
    }

    /** The checks of handleSiteverify, in their order. */
    method CheckToken(secret: string, token: Option<Bytes>, now: Time) returns (r: Response)
      requires Valid()
      ensures r == SiteVerifyResponse(cfg, tokens, SiteVerify(secret, token, now))
      ensures r.Verified? ==> token.Some? && |token.value| == TOKEN_LEN
    {
      if secret != cfg.testSiteKey {
        return Rejected(InvalidInputSecret);
      }
      if token.None? || |token.value| != TOKEN_LEN {
        return Rejected(InvalidInputResponse);
      }
      var sig := token.value[..SIG_LEN];
      var metaBytes := token.value[SIG_LEN..SIG_LEN + META_LEN];
      var nonce := token.value[SIG_LEN + META_LEN..];
      if nonce in tokens {
        return Rejected(TimeoutOrDuplicate);
      }
      var meta := Decode(metaBytes);
      if meta.Err? {
        return Rejected(InvalidInputResponse);
      }
      if Rsapbssa.Verify(cfg.suite, cfg.keyPair.Public(), nonce, metaBytes, sig).Err? {
        return Rejected(InvalidInputResponse);
      }
      return Verified(Timestamp(meta.value.timeBucket), meta.value.challengeClass, meta.value.temperatureBucket);
    }

    /** A token that passes the checks is remembered before the answer is sent. */
    method HandleSiteverify(secret: string, token: Option<Bytes>, now: Time) returns (r: Response)
      requires Valid()
      modifies this
      ensures var step := SiteVerify(secret, token, now);
        r == Respond(cfg, old(Contents()), step) && Contents() == After(cfg, old(Contents()), step, r)
    {
      ghost var was, step := Contents(), SiteVerify(secret, token, now);
      r := CheckToken(secret, token, now);
      RedeemedTokens(was.tokens, secret, token, now, r);
      if r.Verified? {
        tokens := tokens[TokenNonce(token.value) := now + TOKEN_TTL];
      }
    }

    /** One tick of cleanupLoop: both tables are visited in no particular order, and entries
        are deleted on the way. */
    method SweepTables(now: Time)
      requires Valid()
      modifies this
      ensures Transition(cfg, old(Contents()), Sweep(now), Silent, Contents())
    {
      var todo := challenges.Keys;
      while todo != {}
        invariant todo <= old(challenges).Keys
        invariant tokens == old(tokens)
        invariant forall id :: id in todo ==> id in challenges
        invariant forall id :: id in challenges ==> id in old(challenges) && challenges[id] == old(challenges)[id]
        invariant forall id :: id in old(challenges) && id !in todo ==>
          (id in challenges <==> old(challenges)[id].expiry >= now)
        decreases todo
      {
        var id :| id in todo;
        if challenges[id].expiry < now {
          challenges := challenges - {id};
        }
        todo := todo - {id};
      }
      assert challenges == SweptChallenges(old(challenges), now);
      SweepTokens(now);
    }

    /** One tick of the cleanup loop of the temperature store. */
    method CleanupStore(now: Time)
      requires Valid()
      modifies tempStore
      ensures Transition(cfg, old(Contents()), Step.Cleanup(now), Silent, Contents())
    {
      ApplyOne(cfg.net, Contents().temperature, Temperature.Cleanup(now));
      tempStore.Cleanup(now);
    }

    method SweepTokens(now: Time)
      modifies this`tokens
      ensures tokens == SweptTokens(old(tokens), now)
    {
      var todo := tokens.Keys;
      while todo != {}
        invariant todo <= old(tokens).Keys
        invariant forall nonce :: nonce in todo ==> nonce in tokens
        invariant forall nonce :: nonce in tokens ==> nonce in old(tokens) && tokens[nonce] == old(tokens)[nonce]
        invariant forall nonce :: nonce in old(tokens) && nonce !in todo ==>
          (nonce in tokens <==> old(tokens)[nonce] >= now)
        decreases todo
      {
        var nonce :| nonce in todo;
        if tokens[nonce] < now {
          tokens := tokens - {nonce};
        }
        todo := todo - {nonce};
      }
    }
  }
}
