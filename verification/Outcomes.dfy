/** What each request gets, exactly, in any run: when a challenge is open and a nonce is
    remembered, the reason of every rejection, and what one signature sent with two tokens
    would give away. */
module Outcomes {
  import opened Wrappers
  import opened Arithmetic
  import opened Bytes
  import opened Clock
  import opened HashSuite
  import opened Rsapbssa
  import opened RsapbssaTheorems
  import opened HashCash
  import opened Composite
  import opened Server
  import opened ServerRuns
  import opened ServerTheorems
  import Metadata
  import Binding

  // ----- which nonces are remembered

  lemma {:induction false} NonceStep(tokens: map<Bytes, Time>, step: Step, r: Response, nonce: Bytes)
    requires nonce in NextTokens(tokens, step, r) && !RedeemsNonce(step, r, nonce)
    ensures nonce in tokens && NextTokens(tokens, step, r)[nonce] == tokens[nonce]
    ensures !(step.Sweep? && step.now > tokens[nonce])
  {
  }

  lemma {:induction false} NonceOrigin(cfg: Config, run: Run, k: nat, nonce: Bytes) returns (i: nat)
    requires IsRun(cfg, run) && k <= |run.steps| && nonce in run.states[k].tokens
    ensures i < k && Redeemed(run, i, nonce) && run.states[k].tokens[nonce] == run.steps[i].now + 300_000_000_000
    ensures !SweptAfter(run.steps, i, k, run.steps[i].now + 300_000_000_000)
  {
    TablesFollow(cfg, run, k - 1);
    if Redeemed(run, k - 1, nonce) {
      i := k - 1;
    } else {
      NonceStep(run.states[k - 1].tokens, run.steps[k - 1], run.responses[k - 1], nonce);
      i := NonceOrigin(cfg, run, k - 1, nonce);
      SweptLater(run.steps, i, k - 1, run.steps[i].now + 300_000_000_000);
    }
  }

  lemma {:induction false} SweptLater(steps: seq<Step>, i: nat, k: nat, deadline: Time)
    requires i < k < |steps| && !SweptAfter(steps, i, k, deadline) && !(steps[k].Sweep? && steps[k].now > deadline)
    ensures !SweptAfter(steps, i, k + 1, deadline)
  {
  }

  /** Redeemed before k, with no sweep more than 300 seconds later in between. */
  ghost predicate RedeemedRecently(run: Run, i: nat, k: nat, nonce: Bytes)
    requires run.Shaped() && i < k <= |run.steps|
  {
    Redeemed(run, i, nonce) && !SweptAfter(run.steps, i, k, run.steps[i].now + 300_000_000_000)
  }

  /** A nonce is remembered exactly if it was redeemed and no sweep has come more than 300
      seconds after that. */
  lemma {:induction false} RememberedExactly(cfg: Config, run: Run, k: nat, nonce: Bytes)
    requires IsRun(cfg, run) && k <= |run.steps|
    ensures nonce in run.states[k].tokens <==> exists i :: 0 <= i < k && RedeemedRecently(run, i, k, nonce)
  {
    if nonce in run.states[k].tokens {
      var i := NonceOrigin(cfg, run, k, nonce);
      assert RedeemedRecently(run, i, k, nonce);
    }
    forall i | 0 <= i < k && RedeemedRecently(run, i, k, nonce)
      ensures nonce in run.states[k].tokens
    {
      StillRemembered(cfg, run, i, k, nonce);
    }
  }

  // ----- which challenges are open

  /** Step m neither reissues nor answers the challenge, nor sweeps it away. */
  predicate LeavesOpen(step: Step, r: Response, id: string, expiry: Time) {
    && !(Issues(step, r) && step.random.challengeID == id)
    && !(step.Verify? && step.answer.challengeID == id)
    && !(step.Sweep? && step.now > expiry)
  }

  /** Issued at j for 120 seconds, and left alone until k. */
  ghost predicate OpenSince(run: Run, j: nat, k: nat, id: string)
    requires run.Shaped() && j < k <= |run.steps|
  {
    IssuedAt(run, j, id)
    && forall m :: j < m < k ==>
         LeavesOpen(run.steps[m], run.responses[m], id, run.steps[j].issueClock.stored + 120_000_000_000)
  }

  lemma {:induction false} OpenStep(m: map<string, ChallengeEntry>, step: Step, r: Response, id: string)
    requires !(Issues(step, r) && step.random.challengeID == id)
    ensures id in NextChallenges(m, step, r) <==> id in m && LeavesOpen(step, r, id, m[id].expiry)
    ensures id in NextChallenges(m, step, r) ==> NextChallenges(m, step, r)[id] == m[id]
  {
  }

  lemma {:induction false} OpenOrigin(cfg: Config, run: Run, k: nat, id: string) returns (j: nat)
    requires IsRun(cfg, run) && k <= |run.steps| && id in run.states[k].challenges
    ensures j < k && OpenSince(run, j, k, id)
    ensures run.states[k].challenges[id] == IssuedEntry(run.steps[j], run.responses[j])
  {
    TablesFollow(cfg, run, k - 1);
    if IssuedAt(run, k - 1, id) {
      j := k - 1;
    } else {
      OpenStep(run.states[k - 1].challenges, run.steps[k - 1], run.responses[k - 1], id);
      j := OpenOrigin(cfg, run, k - 1, id);
    }
  }

  lemma {:induction false} StillOpen(cfg: Config, run: Run, j: nat, k: nat, id: string)
    requires IsRun(cfg, run) && j < k <= |run.steps| && OpenSince(run, j, k, id)
    ensures id in run.states[k].challenges
    ensures run.states[k].challenges[id] == IssuedEntry(run.steps[j], run.responses[j])
    decreases k
  {
    TablesFollow(cfg, run, k - 1);
    if j == k - 1 {
    } else {
      StillOpen(cfg, run, j, k - 1, id);
      assert LeavesOpen(run.steps[k - 1], run.responses[k - 1], id, run.steps[j].issueClock.stored + 120_000_000_000);
      OpenStep(run.states[k - 1].challenges, run.steps[k - 1], run.responses[k - 1], id);
    }
  }

  /** A challenge is open exactly if it was issued under that ID and has since been neither
      answered nor issued anew, nor swept more than 120 seconds after it was stored. */
  lemma {:induction false} OpenExactly(cfg: Config, run: Run, k: nat, id: string)
    requires IsRun(cfg, run) && k <= |run.steps|
    ensures id in run.states[k].challenges <==> exists j :: 0 <= j < k && OpenSince(run, j, k, id)
  {
    if id in run.states[k].challenges {
      var j := OpenOrigin(cfg, run, k, id);
    }
    forall j | 0 <= j < k && OpenSince(run, j, k, id)
      ensures id in run.states[k].challenges
    {
      StillOpen(cfg, run, j, k, id);
    }
  }

  // ----- what a challenge request gets

  /** A request is turned down exactly without a site key, and then changes nothing. Otherwise
      it gets a challenge under the ID that was drawn, the public key, and the metadata of class
      2, the scored bucket, device 1 and the hour; and the table has that challenge and metadata
      for 120 seconds. */
  lemma {:induction false} ChallengeOutcome(cfg: Config, run: Run, i: nat)
    requires IsRun(cfg, run) && i < |run.steps| && run.steps[i].Challenge?
    ensures var (step, r, was, now) := (run.steps[i], run.responses[i], run.states[i], run.states[i + 1]);
      if step.siteKey == "" then r == Rejected(MissingSiteKey) && now == was
      else
        && r.Issued? && r.payload.challengeID == step.random.challengeID
        && r.payload.expiresAt == step.issueClock.created + 120_000_000_000
        && r.publicKey == PublicKey(cfg.keyPair.N, cfg.keyPair.E) && |r.predictedMetadata| == 7
        && var b := r.predictedMetadata;
        && b[0] == 2 && b[1] == BoundBucket(cfg, run, i) && b[2] == 1
        && b[3] as int * 0x100_0000 + b[4] as int * 0x1_0000 + b[5] as int * 0x100 + b[6] as int
             == Metadata.TimeBucketFromTime(step.issueClock.bound / 1_000_000_000)
        && now.tokens == was.tokens
        && now.challenges == was.challenges[step.random.challengeID :=
             ChallengeEntry(r.payload, b, step.issueClock.stored + 120_000_000_000)]
  {
    AskedAndAnswered(cfg, run, i);
    if run.steps[i].siteKey != "" {
      IssuedPuzzles(cfg, BoundBucket(cfg, run, i), run.steps[i]);
      MetadataBytes(BoundBucket(cfg, run, i), run.steps[i].issueClock.bound);
    }
  }

  lemma {:induction false} AskedAndAnswered(cfg: Config, run: Run, i: nat)
    requires IsRun(cfg, run) && i < |run.steps| && run.steps[i].Challenge?
    ensures var (step, r, was, now) := (run.steps[i], run.responses[i], run.states[i], run.states[i + 1]);
      if step.siteKey == "" then r == Rejected(MissingSiteKey) && now == was
      else
        && r == Issued(IssuedPayload(cfg, BoundBucket(cfg, run, i), step), cfg.keyPair.Public(),
                       BoundBytes(BoundBucket(cfg, run, i), step.issueClock.bound))
        && now.tokens == was.tokens
        && now.challenges == was.challenges[step.random.challengeID := IssuedEntry(step, r)]
  {
    assert Linked(cfg, run, i);
  }

  /** The metadata of class 2, a bucket, device 1 and an hour. */
  function BoundBytes(bucket: Byte, bound: Time): Bytes {
    Metadata.Encode(Metadata.TrustMetadata(2, bucket, 1, Metadata.TimeBucketFromTime(Unix(bound))))
  }

  lemma {:induction false} MetadataBytes(bucket: Byte, bound: Time)
    ensures var b := BoundBytes(bucket, bound);
      && |b| == 7 && b[0] == 2 && b[1] == bucket && b[2] == 1
      && b[3] as int * 0x100_0000 + b[4] as int * 0x1_0000 + b[5] as int * 0x100 + b[6] as int
           == Metadata.TimeBucketFromTime(bound / 1_000_000_000)
  {
    Metadata.EncodedLayout(Metadata.TrustMetadata(2, bucket, 1, Metadata.TimeBucketFromTime(Unix(bound))));
  }

  // ----- why an answer is turned down

  /** The 32 bytes of Argon2id that answer a challenge. */
  function Argon2Answer(cfg: Config, payload: ChallengePayload): Bytes
    requires payload.argon2.Some?
  {
    cfg.suite.argon2id(FromString("sovereign-trust-challenge"), payload.argon2.value.nonce,
                       payload.argon2.value.iterations, payload.argon2.value.memory)
  }

  /** The first thing wrong with an answer to an issued challenge, if anything is. */
  function Fault(cfg: Config, payload: ChallengePayload, answer: ChallengeResponse, now: Time): Option<ChallengeError>
    requires payload.hashCash.Some? && payload.argon2.Some?
  {
    if now > payload.expiresAt then Some(Expired)
    else if answer.hashCashSolution.Absent? then Some(MissingHashCash)
    else if !Solves(cfg.suite, payload.hashCash.value.nonce, answer.hashCashSolution,
                    payload.hashCash.value.difficultyBits) then Some(HashCashFailed)
    else if !answer.argon2Result.Absent? && answer.argon2Result != Decoded(Argon2Answer(cfg, payload)) then
      Some(Argon2Failed)
    else None
  }

  lemma {:induction false} FaultIsFound(cfg: Config, entry: ChallengeEntry, step: Step)
    requires step.Verify? && entry.payload.challengeID == step.answer.challengeID
    requires entry.payload.hashCash.Some? && entry.payload.hashCash.value.difficultyBits <= 256
    requires entry.payload.argon2.Some?
    ensures var fault := Fault(cfg, entry.payload, step.answer, step.verifyClock.checked);
      if fault.Some? then Checked(cfg, entry, step) == Err(fault.value) else Checked(cfg, entry, step).Ok?
  {
    SolutionMeaning(cfg.suite, entry.payload.hashCash.value, step.answer.hashCashSolution);
  }

  /** What an answer gets: nothing is found for an ID that is not open; otherwise the first
      fault against the challenge that was issued under it, in the order of the checks, then
      the encoding and the size of the blinded message, and then a signature over the metadata
      bound at issuance. That the ID differs from the one in the challenge never happens. */
  lemma {:induction false} AnswerOutcome(cfg: Config, run: Run, i: nat) returns (j: nat)
    requires IsRun(cfg, run) && SafeKey(cfg.keyPair) && i < |run.steps| && run.steps[i].Verify?
    requires LambdaLen(cfg.keyPair.N) + 16 <= HKDF_LIMIT
    ensures var (step, r) := (run.steps[i], run.responses[i]);
      if step.answer.challengeID !in run.states[i].challenges then r == Rejected(ChallengeNotFound)
      else
        && j < i && OpenSince(run, j, i, step.answer.challengeID)
        && run.responses[j].payload.hashCash.Some? && run.responses[j].payload.argon2.Some?
        && var fault := Fault(cfg, run.responses[j].payload, step.answer, step.verifyClock.checked);
        && r == AnswerOrFault(cfg, fault, step.blindedMsg, run.responses[j].predictedMetadata)
  {
    assert Linked(cfg, run, i);
    var step := run.steps[i];
    j := 0;
    if step.answer.challengeID in run.states[i].challenges {
      var entry := run.states[i].challenges[step.answer.challengeID];
      j := OpenOrigin(cfg, run, i, step.answer.challengeID);
      IssuedMeaning(cfg, run, j);
      IssuedPuzzles(cfg, BoundBucket(cfg, run, j), run.steps[j]);
      FaultIsFound(cfg, entry, step);
      SignsOrRejects(cfg, entry, step);
    }
  }

  function AnswerOrFault(cfg: Config, fault: Option<ChallengeError>, blindedMsg: Option<Bytes>, info: Bytes): Response
    requires SafeKey(cfg.keyPair) && LambdaLen(cfg.keyPair.N) + 16 <= HKDF_LIMIT
  {
    DeriveKeyPairTotal(cfg.suite, cfg.keyPair, info);
    if fault.Some? then Rejected(ChallengeFailed(fault.value))
    else if blindedMsg.None? then Rejected(InvalidBlindedMessage)
    else if OS2IP(blindedMsg.value) >= cfg.keyPair.N then Rejected(SigningFailed)
    else
      var d := DeriveKeyPair(cfg.suite, cfg.keyPair, info).value.1;
      Signed(I2OSP(ModExp(OS2IP(blindedMsg.value), d, cfg.keyPair.N), ModulusLen(cfg.keyPair.N)), info)
  }

  lemma {:induction false} SignsOrRejects(cfg: Config, entry: ChallengeEntry, step: Step)
    requires Runnable(cfg) && SafeKey(cfg.keyPair) && LambdaLen(cfg.keyPair.N) + 16 <= HKDF_LIMIT && step.Verify?
    ensures var checked := Checked(cfg, entry, step);
      SignResponse(cfg, entry, step)
        == AnswerOrFault(cfg, if checked.Err? then Some(checked.error) else None, step.blindedMsg, entry.predictedMeta)
  {
    DeriveKeyPairTotal(cfg.suite, cfg.keyPair, entry.predictedMeta);
    if step.blindedMsg.Some? {
      BlindSignExact(cfg.suite, cfg.keyPair, step.blindedMsg.value, entry.predictedMeta);
    }
  }

  // ----- why a token is turned down

  /** A redemption fails with one of three errors, each for exactly these reasons: the wrong
      secret; the right one, with a nonce that was redeemed without a sweep more than 300
      seconds later; and the right one, without such a nonce, with text that is not 271 bytes
      or a signature that does not verify. */
  lemma {:induction false} RedemptionErrors(cfg: Config, run: Run, k: nat)
    requires IsRun(cfg, run) && k < |run.steps| && run.steps[k].SiteVerify?
    ensures var (step, r) := (run.steps[k], run.responses[k]);
      var whole := step.token.Some? && |step.token.value| == 271;
      var again := whole && exists i :: 0 <= i < k && RedeemedRecently(run, i, k, step.token.value[263..]);
      var valid := whole
        && Rsapbssa.Verify(cfg.suite, cfg.keyPair.Public(), step.token.value[263..], step.token.value[256..263],
                           step.token.value[..256]).Ok?;
      && (r == Rejected(InvalidInputSecret) <==> step.secret != cfg.testSiteKey)
      && (r == Rejected(TimeoutOrDuplicate) <==> step.secret == cfg.testSiteKey && again)
      && (r == Rejected(InvalidInputResponse) <==> step.secret == cfg.testSiteKey && !again && !valid)
      && (r.Verified? <==> step.secret == cfg.testSiteKey && !again && valid)
  {
    assert Linked(cfg, run, k);
    if run.steps[k].token.Some? && |run.steps[k].token.value| == 271 {
      RememberedExactly(cfg, run, k, run.steps[k].token.value[263..]);
    }
  }

  // ----- one signature, two tokens

  lemma {:induction false} RedeemedParts(cfg: Config, tokens: map<Bytes, Time>, step: Step, token: Bytes)
    requires Runnable(cfg) && step.SiteVerify? && step.token == Some(token)
    requires SiteVerifyResponse(cfg, tokens, step).Verified?
    ensures |token| == 271
    ensures Rsapbssa.Verify(cfg.suite, cfg.keyPair.Public(), token[263..], token[256..263], token[..256]).Ok?
  {
  }

  lemma {:induction false} SevenInFourBytes()
    ensures I2OSP(7, 4) == [0, 0, 0, 7]
  {
    assert I2OSP(7, 1) == I2OSP(0, 0) + [7];
    assert I2OSP(0, 3) == [0, 0, 0];
  }

  /** Two different tokens with the same 256 bytes of signature can both be redeemed only if
      SHA-384 collides: then two different strings, "msg", a length of 7, the metadata and the
      nonce of each token, give the same digest when hashed, put between eight zero bytes and
      a salt, and hashed again. So it is for all tokens with the same metadata, and for others
      exactly if their exponents leave the same hash field in the signature. */
  lemma {:induction false} OneSignatureTwoTokens(cfg: Config, seen1: map<Bytes, Time>, step1: Step, token1: Bytes,
                                                 seen2: map<Bytes, Time>, step2: Step, token2: Bytes)
      returns (salt1: Bytes, salt2: Bytes)
    requires Runnable(cfg) && step1.SiteVerify? && step2.SiteVerify?
    requires step1.token == Some(token1) && SiteVerifyResponse(cfg, seen1, step1).Verified?
    requires step2.token == Some(token2) && SiteVerifyResponse(cfg, seen2, step2).Verified?
    requires token1 != token2 && token1[..256] == token2[..256]
    ensures |token1| == 271 && |token2| == 271 && |salt1| == 48 && |salt2| == 48 && ModulusLen(cfg.keyPair.N) >= 98
    ensures var (meta1, meta2, sha) := (token1[256..263], token2[256..263], cfg.suite.sha384);
      var p1 := [0x6d, 0x73, 0x67] + [0, 0, 0, 7] + meta1 + token1[263..];
      var p2 := [0x6d, 0x73, 0x67] + [0, 0, 0, 7] + meta2 + token2[263..];
      && p1 != p2 && DerivePublicExponent(cfg.suite, cfg.keyPair.N, meta1).Ok?
      && DerivePublicExponent(cfg.suite, cfg.keyPair.N, meta2).Ok?
      && var (e1, e2) := (DerivePublicExponent(cfg.suite, cfg.keyPair.N, meta1).value,
                          DerivePublicExponent(cfg.suite, cfg.keyPair.N, meta2).value);
      var collide := sha([0, 0, 0, 0, 0, 0, 0, 0] + sha(p1) + salt1) == sha([0, 0, 0, 0, 0, 0, 0, 0] + sha(p2) + salt2);
      && (meta1 == meta2 ==> collide)
      && (collide <==> Binding.HashField(cfg.keyPair.N, token1[..256], e1)
                         == Binding.HashField(cfg.keyPair.N, token1[..256], e2))
  {
    RedeemedParts(cfg, seen1, step1, token1);
    RedeemedParts(cfg, seen2, step2, token2);
    SevenInFourBytes();
    TokensDiffer(token1, token2);
    salt1, salt2 := Binding.SignatureBinding(cfg.suite, cfg.keyPair.Public(), token1[263..], token1[256..263],
                                             token2[263..], token2[256..263], token1[..256]);
  }

  lemma {:induction false} TokensDiffer(a: Bytes, b: Bytes)
    requires |a| == 271 && |b| == 271 && a != b && a[..256] == b[..256]
    ensures a[263..] != b[263..] || a[256..263] != b[256..263]
  {
    assert a == a[..256] + a[256..263] + a[263..];
    assert b == b[..256] + b[256..263] + b[263..];
  }
}
