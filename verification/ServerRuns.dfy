/** What the token server guarantees over whole runs, for any sequence of requests, sweeps
    and cleanups. */
module ServerRuns {
  import opened Bytes
  import opened Clock
  import opened Server

  /** The steps of a run, their responses, and the states before, between and after them. */
  datatype Run = Run(steps: seq<Step>, responses: seq<Response>, states: seq<State>) {
    ghost predicate Shaped() {
      |responses| == |steps| && |states| == |steps| + 1
    }
  }

  ghost predicate Linked(cfg: Config, run: Run, i: nat)
    requires Runnable(cfg) && run.Shaped() && i < |run.steps|
  {
    Transition(cfg, run.states[i], run.steps[i], run.responses[i], run.states[i + 1])
  }

  ghost predicate IsRun(cfg: Config, run: Run) {
    && Runnable(cfg) && run.Shaped() && run.states[0] == INITIAL
    && forall i {:trigger Linked(cfg, run, i)} :: 0 <= i < |run.steps| ==> Linked(cfg, run, i)
  }

  /** The run that goes on with one more step. */
  function Extended(run: Run, step: Step, r: Response, t: State): Run {
    Run(run.steps + [step], run.responses + [r], run.states + [t])
  }

  lemma {:induction false} LinkedExtended(cfg: Config, run: Run, step: Step, r: Response, t: State, i: nat)
    requires Runnable(cfg) && run.Shaped() && i <= |run.steps|
    ensures Extended(run, step, r, t).Shaped()
    ensures i < |run.steps| ==> (Linked(cfg, Extended(run, step, r, t), i) <==> Linked(cfg, run, i))
    ensures i == |run.steps| ==>
      (Linked(cfg, Extended(run, step, r, t), i) <==> Transition(cfg, run.states[i], step, r, t))
  {
  }

  lemma {:induction false} RunExtends(cfg: Config, run: Run, step: Step) returns (longer: Run)
    requires IsRun(cfg, run)
    ensures IsRun(cfg, longer) && longer.steps == run.steps + [step]
    ensures run.responses <= longer.responses && run.states <= longer.states
  {
    var s := run.states[|run.steps|];
    var r := Respond(cfg, s, step);
    var t := After(cfg, s, step, r);
    longer := Extended(run, step, r, t);
    forall i | 0 <= i <= |run.steps|
      ensures Linked(cfg, longer, i)
    {
      LinkedExtended(cfg, run, step, r, t, i);
      if i < |run.steps| { assert Linked(cfg, run, i); }
    }
  }

  /** Every sequence of steps has a run. */
  lemma {:induction false} RunOf(cfg: Config, steps: seq<Step>) returns (run: Run)
    requires Runnable(cfg)
    ensures IsRun(cfg, run) && run.steps == steps
  {
    if steps == [] {
      run := Run([], [], [INITIAL]);
    } else {
      var k := |steps| - 1;
      run := RunOf(cfg, steps[..k]);
      run := RunExtends(cfg, run, steps[k]);
      assert steps[..k] + [steps[k]] == steps;
    }
  }

  lemma {:induction false} SameStep(cfg: Config, a: Run, b: Run, i: nat)
    requires IsRun(cfg, a) && IsRun(cfg, b) && a.steps == b.steps && i < |a.steps| && a.states[i] == b.states[i]
    ensures a.responses[i] == b.responses[i] && a.states[i + 1] == b.states[i + 1]
  {
    assert Linked(cfg, a, i) && Linked(cfg, b, i);
  }

  /** And only one. */
  lemma {:induction false} RunUnique(cfg: Config, a: Run, b: Run, i: nat)
    requires IsRun(cfg, a) && IsRun(cfg, b) && a.steps == b.steps && i <= |a.steps|
    ensures a.states[i] == b.states[i] && (i < |a.steps| ==> a.responses[i] == b.responses[i])
  {
    if i == 0 {
    } else {
      RunUnique(cfg, a, b, i - 1);
      SameStep(cfg, a, b, i - 1);
    }
    if i < |a.steps| {
      SameStep(cfg, a, b, i);
    }
  }

  lemma {:induction false} TablesFollow(cfg: Config, run: Run, i: nat)
    requires IsRun(cfg, run) && i < |run.steps|
    ensures run.states[i + 1].challenges == NextChallenges(run.states[i].challenges, run.steps[i], run.responses[i])
    ensures run.states[i + 1].tokens == NextTokens(run.states[i].tokens, run.steps[i], run.responses[i])
  {
    assert Linked(cfg, run, i);
  }

  // ----- a token is redeemed once in its window

  ghost predicate RedeemsNonce(step: Step, r: Response, nonce: Bytes) {
    Redeems(step, r) && TokenNonce(step.token.value) == nonce
  }

  ghost predicate Redeemed(run: Run, i: nat, nonce: Bytes)
    requires run.Shaped() && i < |run.steps|
  {
    RedeemsNonce(run.steps[i], run.responses[i], nonce)
  }

  lemma {:induction false} TokenKept(tokens: map<Bytes, Time>, step: Step, r: Response, nonce: Bytes)
    requires nonce in tokens && !RedeemsNonce(step, r, nonce) && !(step.Sweep? && step.now > tokens[nonce])
    ensures nonce in NextTokens(tokens, step, r) && NextTokens(tokens, step, r)[nonce] == tokens[nonce]
  {
  }

  lemma {:induction false} RememberedIsRefused(cfg: Config, run: Run, i: nat, nonce: Bytes)
    requires IsRun(cfg, run) && i < |run.steps| && nonce in run.states[i].tokens
    ensures !Redeemed(run, i, nonce)
  {
    assert Linked(cfg, run, i);
  }

  ghost predicate SweptAfter(steps: seq<Step>, i: nat, k: nat, deadline: Time)
    requires k <= |steps|
  {
    exists m :: i < m < k && steps[m].Sweep? && steps[m].now > deadline
  }

  /** A redeemed nonce is remembered until a sweep comes after its deadline. */
  lemma {:induction false} StillRemembered(cfg: Config, run: Run, i: nat, k: nat, nonce: Bytes)
    requires IsRun(cfg, run) && i < k <= |run.steps| && Redeemed(run, i, nonce)
    requires !SweptAfter(run.steps, i, k, run.steps[i].now + TOKEN_TTL)
    ensures nonce in run.states[k].tokens && run.states[k].tokens[nonce] == run.steps[i].now + TOKEN_TTL
    decreases k
  {
    TablesFollow(cfg, run, k - 1);
    if i == k - 1 {
    } else {
      StillRemembered(cfg, run, i, k - 1, nonce);
      RememberedIsRefused(cfg, run, k - 1, nonce);
      TokenKept(run.states[k - 1].tokens, run.steps[k - 1], run.responses[k - 1], nonce);
    }
  }

  /** Between two redemptions of the same nonce there is a sweep more than 300 seconds after
      the first one, whatever else happens. */
  lemma {:induction false} ReplayWindow(cfg: Config, run: Run, i: nat, j: nat, nonce: Bytes)
    requires IsRun(cfg, run) && i < j < |run.steps| && Redeemed(run, i, nonce) && Redeemed(run, j, nonce)
    ensures SweptAfter(run.steps, i, j, run.steps[i].now + 300 * SECOND)
  {
    if !SweptAfter(run.steps, i, j, run.steps[i].now + TOKEN_TTL) {
      StillRemembered(cfg, run, i, j, nonce);
      RememberedIsRefused(cfg, run, j, nonce);
    }
  }

  // ----- a challenge is answered once

  ghost predicate IssuedAt(run: Run, j: nat, id: string)
    requires run.Shaped() && j < |run.steps|
  {
    Issues(run.steps[j], run.responses[j]) && run.steps[j].random.challengeID == id
  }

  ghost predicate Found(run: Run, i: nat, id: string)
    requires run.Shaped() && i < |run.steps|
  {
    Finds(run.states[i].challenges, run.steps[i]) && run.steps[i].answer.challengeID == id
  }

  lemma {:induction false} EntryStep(m: map<string, ChallengeEntry>, step: Step, r: Response, id: string)
    requires id in NextChallenges(m, step, r)
    ensures if Issues(step, r) && step.random.challengeID == id
      then NextChallenges(m, step, r)[id] == IssuedEntry(step, r)
      else id in m && NextChallenges(m, step, r)[id] == m[id]
  {
  }

  /** Every entry in the table is what some earlier request issued under that ID. */
  lemma {:induction false} EntryOrigin(cfg: Config, run: Run, i: nat, id: string) returns (j: nat)
    requires IsRun(cfg, run) && i <= |run.steps| && id in run.states[i].challenges
    ensures j < i && IssuedAt(run, j, id)
    ensures run.states[i].challenges[id] == IssuedEntry(run.steps[j], run.responses[j])
  {
    TablesFollow(cfg, run, i - 1);
    EntryStep(run.states[i - 1].challenges, run.steps[i - 1], run.responses[i - 1], id);
    if IssuedAt(run, i - 1, id) {
      j := i - 1;
    } else {
      j := EntryOrigin(cfg, run, i - 1, id);
    }
  }

  ghost predicate IssuedBetween(run: Run, i: nat, k: nat, id: string)
    requires run.Shaped() && k <= |run.steps|
  {
    exists m :: i < m < k && IssuedAt(run, m, id)
  }

  lemma {:induction false} StaysGone(cfg: Config, run: Run, i: nat, k: nat, id: string)
    requires IsRun(cfg, run) && i < k <= |run.steps| && Found(run, i, id) && !IssuedBetween(run, i, k, id)
    ensures id !in run.states[k].challenges
    decreases k
  {
    TablesFollow(cfg, run, k - 1);
    if i == k - 1 {
    } else {
      StaysGone(cfg, run, i, k - 1, id);
      if id in run.states[k].challenges {
        EntryStep(run.states[k - 1].challenges, run.steps[k - 1], run.responses[k - 1], id);
        assert IssuedAt(run, k - 1, id);
      }
    }
  }

  /** No two requests draw the same challenge ID. */
  ghost predicate FreshIDs(steps: seq<Step>) {
    forall i, j :: 0 <= i < j < |steps| && steps[i].Challenge? && steps[j].Challenge? ==>
      steps[i].random.challengeID != steps[j].random.challengeID
  }

  /** With fresh IDs a challenge gets one attempt: once a request has found it, every later
      request for it is told that there is none, whether or not the attempt succeeded. */
  lemma {:induction false} SingleAttempt(cfg: Config, run: Run, i: nat, j: nat, id: string)
    requires IsRun(cfg, run) && FreshIDs(run.steps) && i < j < |run.steps| && Found(run, i, id)
    requires run.steps[j].Verify? && run.steps[j].answer.challengeID == id
    ensures run.responses[j] == Rejected(ChallengeNotFound)
  {
    var origin := EntryOrigin(cfg, run, i, id);
    StaysGone(cfg, run, i, j, id);
    assert Linked(cfg, run, j);
  }

  lemma {:induction false} SignedHasFound(cfg: Config, run: Run, i: nat)
    requires IsRun(cfg, run) && i < |run.steps| && run.responses[i].Signed?
    ensures Finds(run.states[i].challenges, run.steps[i])
    ensures run.responses[i] ==
      SignResponse(cfg, run.states[i].challenges[run.steps[i].answer.challengeID], run.steps[i])
  {
    assert Linked(cfg, run, i);
  }

  /** With fresh IDs a challenge gets at most one blind signature. */
  lemma {:induction false} SingleSignature(cfg: Config, run: Run, i: nat, j: nat)
    requires IsRun(cfg, run) && FreshIDs(run.steps) && i < j < |run.steps|
    requires run.responses[i].Signed? && run.responses[j].Signed?
    ensures run.steps[i].Verify? && run.steps[j].Verify?
    ensures run.steps[i].answer.challengeID != run.steps[j].answer.challengeID
  {
    SignedHasFound(cfg, run, i);
    SignedHasFound(cfg, run, j);
    if run.steps[i].answer.challengeID == run.steps[j].answer.challengeID {
      SingleAttempt(cfg, run, i, j, run.steps[i].answer.challengeID);
    }
  }

  /** How many of the first i requests issued a challenge, and how many found one. */
  function IssueCount(run: Run, i: nat): nat
    requires run.Shaped() && i <= |run.steps|
  {
    if i == 0 then 0 else IssueCount(run, i - 1) + if Issues(run.steps[i - 1], run.responses[i - 1]) then 1 else 0
  }

  function AttemptCount(run: Run, i: nat): nat
    requires run.Shaped() && i <= |run.steps|
  {
    if i == 0 then 0
    else AttemptCount(run, i - 1) + if Finds(run.states[i - 1].challenges, run.steps[i - 1]) then 1 else 0
  }

  lemma {:induction false} TableSize(m: map<string, ChallengeEntry>, step: Step, r: Response)
    ensures |NextChallenges(m, step, r)| + (if Finds(m, step) then 1 else 0) <= |m| + if Issues(step, r) then 1 else 0
  {
    if Issues(step, r) {
      InsertSize(m, step.random.challengeID, IssuedEntry(step, r));
    } else if Finds(m, step) {
      RemoveSize(m, step.answer.challengeID);
    } else if step.Sweep? {
      SubmapSize(SweptChallenges(m, step.now), m);
    }
  }

  lemma {:induction false} InsertSize(m: map<string, ChallengeEntry>, id: string, entry: ChallengeEntry)
    ensures |m[id := entry]| <= |m| + 1
  {
    assert m[id := entry].Keys == m.Keys + {id};
  }

  lemma {:induction false} RemoveSize(m: map<string, ChallengeEntry>, id: string)
    requires id in m
    ensures |m - {id}| + 1 <= |m|
  {
    assert (m - {id}).Keys == m.Keys - {id};
  }

  lemma {:induction false} SubmapSize(n: map<string, ChallengeEntry>, m: map<string, ChallengeEntry>)
    requires forall id :: id in n ==> id in m
    ensures |n| <= |m|
  {
    assert n.Keys <= m.Keys;
    SubsetSize(n.Keys, m.Keys);
  }

  lemma {:induction false} SubsetSize(a: set<string>, b: set<string>)
    requires a <= b
    ensures |a| <= |b|
  {
    if a == {} {
    } else {
      var x :| x in a;
      SubsetSize(a - {x}, b - {x});
    }
  }

  /** Attempts never outnumber challenges, even if IDs collide: the open challenges and the
      attempts so far are together at most the challenges issued so far. */
  lemma {:induction false} AttemptsArePaid(cfg: Config, run: Run, i: nat)
    requires IsRun(cfg, run) && i <= |run.steps|
    ensures |run.states[i].challenges| + AttemptCount(run, i) <= IssueCount(run, i)
  {
    if i == 0 {
    } else {
      AttemptsArePaid(cfg, run, i - 1);
      TablesFollow(cfg, run, i - 1);
      TableSize(run.states[i - 1].challenges, run.steps[i - 1], run.responses[i - 1]);
    }
  }
}
