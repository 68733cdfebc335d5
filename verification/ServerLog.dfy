/** What the temperature store hears of a run, step by step, and the bucket of a challenge
    counted over the requests and responses of the run alone. */
module ServerLog {
  import opened Wrappers
  import opened Bytes
  import opened Clock
  import opened Composite
  import opened Server
  import opened ServerRuns
  import opened ServerTheorems
  import Temperature

  // ----- what a step adds

  /** An answer that has passed the checks of its challenge, as its response shows: it is
      signed, or it fails over the blinded message only. */
  predicate AnswerAccepted(step: Step, r: Response) {
    step.Verify? && (r.Signed? || r == Rejected(InvalidBlindedMessage) || r == Rejected(SigningFailed))
  }

  lemma {:induction false} AcceptedIsChecked(cfg: Config, run: Run, i: nat)
    requires IsRun(cfg, run) && i < |run.steps| && run.steps[i].Verify?
    ensures var (step, open) := (run.steps[i], run.states[i].challenges);
      AnswerAccepted(step, run.responses[i]) <==>
        step.answer.challengeID in open && Checked(cfg, open[step.answer.challengeID], step).Ok?
  {
    assert Linked(cfg, run, i);
  }

  /** The probes of the challenge that a step answers; none if it is not open. */
  function AskedProbes(run: Run, i: nat): seq<string>
    requires run.Shaped() && i < |run.steps| && run.steps[i].Verify?
  {
    var (open, id) := (run.states[i].challenges, run.steps[i].answer.challengeID);
    if id in open then open[id].payload.probes else []
  }

  /** The mean score of those that the step answers, 0 for none. */
  function MeanAnomaly(cfg: Config, run: Run, i: nat): real
    requires run.Shaped() && i < |run.steps| && run.steps[i].Verify?
  {
    var xs := Scores(AskedProbes(run, i), run.steps[i].answer.probeResults, cfg.validate);
    if xs == [] then 0.0 else Sum(xs) / |xs| as real
  }

  /** The site key that a signed answer is charged to. */
  function ChargedKey(cfg: Config, step: Step): string
    requires step.Verify?
  {
    if step.siteKey != "" then step.siteKey else cfg.testSiteKey
  }

  /** What the store hears of a step, read off its response. */
  lemma {:induction false} ObservedIs(cfg: Config, run: Run, i: nat)
    requires IsRun(cfg, run) && i < |run.steps|
    ensures var (step, r) := (run.steps[i], run.responses[i]);
      && (AnswerAccepted(step, r) ==> step.answer.challengeID in run.states[i].challenges)
      && Observed(cfg, run, i) ==
           if Issues(step, r) then [Temperature.Record(step.issueClock.recorded, step.ip, None)]
           else if AnswerAccepted(step, r) then
             [Temperature.Record(step.verifyClock.recorded, step.ip, Some(MeanAnomaly(cfg, run, i) < 0.5))]
             + (if r.Signed? then [Temperature.Burn(step.verifyClock.recorded, ChargedKey(cfg, step))] else [])
           else if step.Cleanup? then [Temperature.Cleanup(step.now)]
           else []
  {
    var step := run.steps[i];
    if step.Verify? {
      AcceptedIsChecked(cfg, run, i);
      if AnswerAccepted(step, run.responses[i]) {
        VerifyReports(cfg.suite, run.states[i].challenges[step.answer.challengeID].payload, step.answer,
                      cfg.validate, step.verifyClock.checked);
      }
    }
    assert Linked(cfg, run, i);
  }

  /** A challenge that was issued, or an answer that was accepted. */
  predicate Contact(step: Step, r: Response) {
    Issues(step, r) || AnswerAccepted(step, r)
  }

  /** When the store is told about it. */
  function ContactTime(step: Step): Time
    requires step.Challenge? || step.Verify?
  {
    if step.Challenge? then step.issueClock.recorded else step.verifyClock.recorded
  }

  lemma {:induction false} VerdictsAppend(ops: seq<Temperature.Op>, op: Temperature.Op, ip: string)
    ensures Temperature.LoggedVerdicts(ops + [op], ip) == Temperature.LoggedVerdicts(ops, ip)
      + if op.Record? && op.ip == ip && op.probePass.Some? then [op.probePass.value] else []
  {
    assert (ops + [op])[..|ops|] == ops;
  }

  lemma {:induction false} CountsAppend(net: Temperature.Network, ops: seq<Temperature.Op>, op: Temperature.Op,
                                        ip: string,
                                        subnet: string, siteKey: string, cutoff: Time)
    ensures Temperature.LoggedBurns(ops + [op], siteKey) == Temperature.LoggedBurns(ops, siteKey)
      + if op.Burn? && op.siteKey == siteKey then 1 else 0
    ensures Temperature.LoggedRequests(ops + [op], ip, cutoff) == Temperature.LoggedRequests(ops, ip, cutoff)
      + if op.Record? && op.ip == ip && op.at > cutoff then 1 else 0
    ensures Temperature.LoggedSubnetRequests(net, ops + [op], subnet, cutoff)
      == Temperature.LoggedSubnetRequests(net, ops, subnet, cutoff)
         + if op.Record? && net.subnetOf(op.ip) == subnet && op.at > cutoff then 1 else 0
  {
    assert (ops + [op])[..|ops|] == ops;
  }

  lemma {:induction false} NothingAppended(ops: seq<Temperature.Op>)
    ensures ops + [] == ops
  {
  }

  lemma {:induction false} TwoAppended(ops: seq<Temperature.Op>, a: Temperature.Op, b: Temperature.Op)
    ensures ops + ([a] + [b]) == ops + [a] + [b]
  {
  }

  /** The verdicts on an address grow by one when an answer from it is accepted, true iff the
      mean anomaly is below one half, and stay the same in every other step. */
  lemma {:induction false} VerdictsGrow(cfg: Config, run: Run, i: nat, ip: string)
    requires IsRun(cfg, run) && i < |run.steps|
    ensures AnswerAccepted(run.steps[i], run.responses[i]) ==>
      run.steps[i].answer.challengeID in run.states[i].challenges
    ensures Temperature.LoggedVerdicts(History(cfg, run, i + 1), ip)
      == Temperature.LoggedVerdicts(History(cfg, run, i), ip)
         + if AnswerAccepted(run.steps[i], run.responses[i]) && run.steps[i].ip == ip
           then [MeanAnomaly(cfg, run, i) < 0.5] else []
  {
    ObservedIs(cfg, run, i);
    var was, ops := History(cfg, run, i), Observed(cfg, run, i);
    NothingAppended(was);
    if |ops| == 1 {
      VerdictsAppend(was, ops[0], ip);
    } else if |ops| == 2 {
      VerdictsAppend(was, ops[0], ip);
      VerdictsAppend(was + [ops[0]], ops[1], ip);
      TwoAppended(was, ops[0], ops[1]);
    }
  }

  /** A step whose response is signed at the charge of a site key. */
  predicate Charged(cfg: Config, step: Step, r: Response, siteKey: string) {
    r.Signed? && step.Verify? && ChargedKey(cfg, step) == siteKey
  }

  /** The burns of a key grow by one when an answer is signed at its charge, and the requests
      of an address and of a subnet by one with each contact after the cutoff; no step changes
      those of any other key, address or subnet. */
  lemma {:induction false} CountsGrow(cfg: Config, run: Run, i: nat, ip: string, subnet: string, siteKey: string,
                                      cutoff: Time)
    requires IsRun(cfg, run) && i < |run.steps|
    ensures var (step, was, now) := (run.steps[i], History(cfg, run, i), History(cfg, run, i + 1));
      && Temperature.LoggedBurns(now, siteKey) == Temperature.LoggedBurns(was, siteKey)
           + (if Charged(cfg, step, run.responses[i], siteKey) then 1 else 0)
      && Temperature.LoggedRequests(now, ip, cutoff) == Temperature.LoggedRequests(was, ip, cutoff)
           + (if Contact(step, run.responses[i]) && step.ip == ip && ContactTime(step) > cutoff then 1 else 0)
      && Temperature.LoggedSubnetRequests(cfg.net, now, subnet, cutoff)
           == Temperature.LoggedSubnetRequests(cfg.net, was, subnet, cutoff)
              + (if Contact(step, run.responses[i]) && cfg.net.subnetOf(step.ip) == subnet && ContactTime(step) > cutoff
                 then 1 else 0)
  {
    ObservedIs(cfg, run, i);
    var was, ops := History(cfg, run, i), Observed(cfg, run, i);
    NothingAppended(was);
    if |ops| == 1 {
      CountsAppend(cfg.net, was, ops[0], ip, subnet, siteKey, cutoff);
    } else if |ops| == 2 {
      CountsAppend(cfg.net, was, ops[0], ip, subnet, siteKey, cutoff);
      CountsAppend(cfg.net, was + [ops[0]], ops[1], ip, subnet, siteKey, cutoff);
      TwoAppended(was, ops[0], ops[1]);
    }
  }

  // ----- the bucket, counted over the run

  /** The steps before n in which the address made contact less than 60 seconds ago. */
  ghost function Contacts(run: Run, n: nat, ip: string, now: Time): set<nat>
    requires run.Shaped() && n <= |run.steps|
  {
    set i | 0 <= i < n && Contact(run.steps[i], run.responses[i]) && run.steps[i].ip == ip
            && now - ContactTime(run.steps[i]) < 60_000_000_000
  }

  /** The same for all addresses of its subnet. */
  ghost function SubnetContacts(cfg: Config, run: Run, n: nat, ip: string, now: Time): set<nat>
    requires run.Shaped() && n <= |run.steps|
  {
    set i | 0 <= i < n && Contact(run.steps[i], run.responses[i])
            && cfg.net.subnetOf(run.steps[i].ip) == cfg.net.subnetOf(ip)
            && now - ContactTime(run.steps[i]) < 60_000_000_000
  }

  /** The signatures that were charged to a site key. */
  ghost function SignaturesFor(cfg: Config, run: Run, n: nat, siteKey: string): set<nat>
    requires run.Shaped() && n <= |run.steps|
  {
    set i | 0 <= i < n && Charged(cfg, run.steps[i], run.responses[i], siteKey)
  }

  lemma {:induction false} ContactsStep(run: Run, i: nat, ip: string, now: Time)
    requires run.Shaped() && i < |run.steps|
    ensures var (step, r) := (run.steps[i], run.responses[i]);
      |Contacts(run, i + 1, ip, now)| == |Contacts(run, i, ip, now)|
        + if Contact(step, r) && step.ip == ip && ContactTime(step) > now - Temperature.WINDOW then 1 else 0
  {
    Temperature.OneMoreIndex(Contacts(run, i, ip, now), Contacts(run, i + 1, ip, now), i);
  }

  lemma {:induction false} SubnetContactsStep(cfg: Config, run: Run, i: nat, ip: string, now: Time)
    requires run.Shaped() && i < |run.steps|
    ensures var (step, r) := (run.steps[i], run.responses[i]);
      |SubnetContacts(cfg, run, i + 1, ip, now)| == |SubnetContacts(cfg, run, i, ip, now)|
        + if Contact(step, r) && cfg.net.subnetOf(step.ip) == cfg.net.subnetOf(ip)
             && ContactTime(step) > now - Temperature.WINDOW then 1 else 0
  {
    Temperature.OneMoreIndex(SubnetContacts(cfg, run, i, ip, now), SubnetContacts(cfg, run, i + 1, ip, now), i);
  }

  lemma {:induction false} SignaturesStep(cfg: Config, run: Run, i: nat, siteKey: string)
    requires run.Shaped() && i < |run.steps|
    ensures |SignaturesFor(cfg, run, i + 1, siteKey)| == |SignaturesFor(cfg, run, i, siteKey)|
      + if Charged(cfg, run.steps[i], run.responses[i], siteKey) then 1 else 0
  {
    Temperature.OneMoreIndex(SignaturesFor(cfg, run, i, siteKey), SignaturesFor(cfg, run, i + 1, siteKey), i);
  }

  /** The three counts of the log are the sizes of these sets. */
  ghost predicate Counted(cfg: Config, run: Run, n: nat, ip: string, siteKey: string, now: Time)
    requires run.Shaped() && n <= |run.steps|
  {
    var (ops, cutoff) := (History(cfg, run, n), now - Temperature.WINDOW);
    && Temperature.LoggedRequests(ops, ip, cutoff) == |Contacts(run, n, ip, now)|
    && Temperature.LoggedSubnetRequests(cfg.net, ops, cfg.net.subnetOf(ip), cutoff)
         == |SubnetContacts(cfg, run, n, ip, now)|
    && Temperature.LoggedBurns(ops, siteKey) == |SignaturesFor(cfg, run, n, siteKey)|
  }

  lemma {:induction false} CountedFirst(cfg: Config, run: Run, ip: string, siteKey: string, now: Time)
    requires run.Shaped()
    ensures Counted(cfg, run, 0, ip, siteKey, now)
  {
    assert Contacts(run, 0, ip, now) == {} && SubnetContacts(cfg, run, 0, ip, now) == {};
    assert SignaturesFor(cfg, run, 0, siteKey) == {};
  }

  lemma {:induction false} CountedNext(cfg: Config, run: Run, i: nat, ip: string, siteKey: string, now: Time)
    requires IsRun(cfg, run) && i < |run.steps| && Counted(cfg, run, i, ip, siteKey, now)
    ensures Counted(cfg, run, i + 1, ip, siteKey, now)
  {
    CountsGrow(cfg, run, i, ip, cfg.net.subnetOf(ip), siteKey, now - Temperature.WINDOW);
    ContactsStep(run, i, ip, now);
    SubnetContactsStep(cfg, run, i, ip, now);
    SignaturesStep(cfg, run, i, siteKey);
  }

  lemma {:induction false} CountsAreLogged(cfg: Config, run: Run, n: nat, ip: string, siteKey: string, now: Time)
    requires IsRun(cfg, run) && n <= |run.steps|
    ensures Counted(cfg, run, n, ip, siteKey, now)
  {
    if n == 0 {
      CountedFirst(cfg, run, ip, siteKey, now);
    } else {
      CountsAreLogged(cfg, run, n - 1, ip, siteKey, now);
      CountedNext(cfg, run, n - 1, ip, siteKey, now);
    }
  }

  /** The verdicts on the accepted answers of an address, in order: whether the mean anomaly
      was below one half. */
  function VerdictsOn(cfg: Config, run: Run, n: nat, ip: string): seq<bool>
    requires run.Shaped() && n <= |run.steps|
  {
    if n == 0 then []
    else if AnswerAccepted(run.steps[n - 1], run.responses[n - 1]) && run.steps[n - 1].ip == ip then
      VerdictsOn(cfg, run, n - 1, ip) + [MeanAnomaly(cfg, run, n - 1) < 0.5]
    else VerdictsOn(cfg, run, n - 1, ip)
  }

  /** The verdicts of the log are these. */
  predicate Judged(cfg: Config, run: Run, n: nat, ip: string)
    requires run.Shaped() && n <= |run.steps|
  {
    Temperature.LoggedVerdicts(History(cfg, run, n), ip) == VerdictsOn(cfg, run, n, ip)
  }

  lemma {:induction false} JudgedFirst(cfg: Config, run: Run, ip: string)
    requires run.Shaped()
    ensures Judged(cfg, run, 0, ip)
  {
  }

  lemma {:induction false} JudgedNext(cfg: Config, run: Run, i: nat, ip: string)
    requires IsRun(cfg, run) && i < |run.steps| && Judged(cfg, run, i, ip)
    ensures Judged(cfg, run, i + 1, ip)
  {
    VerdictsGrow(cfg, run, i, ip);
  }

  lemma {:induction false} VerdictsAreLogged(cfg: Config, run: Run, n: nat, ip: string)
    requires IsRun(cfg, run) && n <= |run.steps|
    ensures Judged(cfg, run, n, ip)
  {
    if n == 0 {
      JudgedFirst(cfg, run, ip);
    } else {
      var i := n - 1;
      VerdictsAreLogged(cfg, run, i, ip);
      JudgedNext(cfg, run, i, ip);
    }
  }

  /** The bucket that a challenge binds, counted over the run up to its request: 5 per contact
      of the address and 2 per contact of its subnet in the last 60 seconds, one per ten
      signatures charged to the site key, each up to 100, and the percentage of failures among
      the last 20 verdicts on the address, weighted 30, 20, 20 and 10, and 20 for the reputation
      of the address, against the bounds 20, 50 and 80. */
  lemma {:induction false} BucketFromRun(cfg: Config, run: Run, j: nat)
    requires IsRun(cfg, run) && ClockForward(run.steps) && j < |run.steps| && Issues(run.steps[j], run.responses[j])
    ensures var (step, now) := (run.steps[j], run.steps[j].issueClock.scored);
      var (a, b) := (|Contacts(run, j + 1, step.ip, now)|, |SubnetContacts(cfg, run, j + 1, step.ip, now)|);
      var (c, all) := (|SignaturesFor(cfg, run, j + 1, step.siteKey)|, VerdictsOn(cfg, run, j + 1, step.ip));
      var last := if |all| > 20 then all[|all| - 20..] else all;
      var failed := if last == [] then 0 else 100 * multiset(last)[false] / |last|;
      var score := (30 * (if a >= 20 then 100 else 5 * a) + 20 * (if b >= 50 then 100 else 2 * b)
        + 20 * (if c >= 1000 then 100 else c / 10) + 10 * failed + 20 * cfg.net.reputation(step.ip)) / 100;
      BoundBucket(cfg, run, j) == if score <= 20 then 0 else if score <= 50 then 1 else if score <= 80 then 2 else 3
  {
    var step, now := run.steps[j], run.steps[j].issueClock.scored;
    var ops := History(cfg, run, j + 1);
    ObservedIs(cfg, run, j);
    BucketFromHistory(cfg, run, j);
    CountsAreLogged(cfg, run, j + 1, step.ip, step.siteKey, now);
    VerdictsAreLogged(cfg, run, j + 1, step.ip);
    ScoreInCounts(cfg.net, ops, step.ip, step.siteKey, now);
  }

  /** The score of a log by its four counts. */
  lemma {:induction false} ScoreInCounts(net: Temperature.Network, ops: seq<Temperature.Op>, ip: string,
                                         siteKey: string,
                                         now: Time)
    ensures var (a, b) := (Temperature.LoggedRequests(ops, ip, now - Temperature.WINDOW),
                           Temperature.LoggedSubnetRequests(net, ops, net.subnetOf(ip), now - Temperature.WINDOW));
      var (c, all) := (Temperature.LoggedBurns(ops, siteKey), Temperature.LoggedVerdicts(ops, ip));
      var last := if |all| > 20 then all[|all| - 20..] else all;
      var failed := if last == [] then 0 else 100 * multiset(last)[false] / |last|;
      Temperature.LoggedScore(net, ops, ip, siteKey, now) ==
        (30 * (if a >= 20 then 100 else 5 * a) + 20 * (if b >= 50 then 100 else 2 * b)
         + 20 * (if c >= 1000 then 100 else c / 10) + 10 * failed + 20 * net.reputation(ip)) / 100
  {
    Temperature.RequestsAreIndices(ops, ip, now);
    Temperature.SubnetRequestsAreIndices(net, ops, ip, now);
    Temperature.BurnsAreIndices(ops, siteKey);
    Temperature.ScoreFromLog(net, ops, ip, siteKey, now);
  }
}
