/** The abuse score: windowed request counts, recent probe verdicts, token burns and IP
    reputation, kept in pruned tables that answer as if nothing had ever been dropped. */
module Temperature {
  import opened Wrappers
  import opened Arithmetic
  import opened Bytes
  import opened Clock

  const WINDOW: Time := 60 * SECOND
  const HISTORY: nat := 20

  /** 0 for a residential address, 80 for a cloud provider, 100 for Tor. */
  type Reputation = r: nat | r == 0 || r == 80 || r == 100

  /** How addresses are grouped into subnets and rated; both come from address tables. */
  datatype Network = Network(subnetOf: string -> string, reputation: string -> Reputation)

  // ----- counting

  function CountAfter(times: seq<Time>, cutoff: Time): nat {
    if times == [] then 0
    else CountAfter(times[..|times| - 1], cutoff) + if times[|times| - 1] > cutoff then 1 else 0
  }

  /** The times after the cutoff, in order. */
  function After(times: seq<Time>, cutoff: Time): seq<Time> {
    if times == [] then []
    else
      var front, last := After(times[..|times| - 1], cutoff), times[|times| - 1];
      if last > cutoff then front + [last] else front
  }

  lemma {:induction false} CountAppend(times: seq<Time>, t: Time, cutoff: Time)
    ensures CountAfter(times + [t], cutoff) == CountAfter(times, cutoff) + if t > cutoff then 1 else 0
  {
    assert (times + [t])[..|times|] == times;
  }

  /** Pruning at an earlier cutoff does not change the count at a later one. */
  lemma {:induction false} CountPruned(times: seq<Time>, early: Time, late: Time)
    requires early <= late
    ensures CountAfter(After(times, early), late) == CountAfter(times, late)
  {
    if times == [] {
    } else {
      var front := times[..|times| - 1];
      CountPruned(front, early, late);
      CountAppend(After(front, early), times[|times| - 1], late);
    }
  }

  function Fails(history: seq<bool>): (n: nat)
    ensures n <= |history|
  {
    if history == [] then 0
    else Fails(history[..|history| - 1]) + if history[|history| - 1] then 0 else 1
  }

  function Percent(part: nat, whole: nat): nat
    requires whole > 0
  {
    100 * part / whole
  }

  /** The share of failed probes. */
  function FailShare(history: seq<bool>): real {
    if history == [] then 0.0 else Fails(history) as real / |history| as real
  }

  /** The same in percent, rounded down. */
  function FailPercent(history: seq<bool>): nat {
    if history == [] then 0 else Percent(Fails(history), |history|)
  }

  lemma {:induction false} PercentIsFloor(part: nat, whole: nat)
    requires whole > 0
    ensures (part as real / whole as real * 100.0).Floor == Percent(part, whole)
  {
    PercentAsReal(part, whole, Percent(part, whole));
    QuotientBetween(part as real, whole as real, Percent(part, whole) as real);
  }

  lemma {:induction false} PercentAsReal(part: nat, whole: nat, q: nat)
    requires whole > 0 && q == Percent(part, whole)
    ensures q as real * whole as real <= part as real * 100.0 < (q as real + 1.0) * whole as real
  {
    PercentBounds(part, whole);
    ProductAsReal(q, whole);
    ProductAsReal(q + 1, whole);
    assert (100 * part) as real == part as real * 100.0;
    assert (q + 1) as real == q as real + 1.0;
  }

  lemma {:induction false} PercentBounds(part: nat, whole: nat)
    requires whole > 0
    ensures Percent(part, whole) * whole <= 100 * part < (Percent(part, whole) + 1) * whole
  {
    var q := Percent(part, whole);
    assert 100 * part == whole * q + 100 * part % whole;
    OneMore(q, whole);
  }

  lemma {:induction false} ProductAsReal(a: nat, b: nat)
    ensures (a * b) as real == a as real * b as real
  {
    if a == 0 {
    } else {
      ProductAsReal(a - 1, b);
      OneMore(a - 1, b);
      OneMoreReal((a - 1) as real, b as real);
    }
  }

  lemma {:induction false} OneMore(x: int, y: int)
    ensures (x + 1) * y == x * y + y
  {
  }

  lemma {:induction false} OneMoreReal(x: real, y: real)
    ensures (x + 1.0) * y == x * y + y
  {
  }

  /** Dividing bounds on a product gives bounds on the quotient. */
  lemma {:induction false} QuotientBetween(p: real, w: real, q: real)
    requires w > 0.0 && q * w <= p * 100.0 < (q + 1.0) * w
    ensures q <= p / w * 100.0 < q + 1.0
  {
    QuotientTimes(p, w);
    RealCancel(q, p / w * 100.0, w);
    RealCancel(q + 1.0, p / w * 100.0, w);
  }

  lemma {:induction false} QuotientTimes(p: real, w: real)
    requires w > 0.0
    ensures p / w * 100.0 * w == p * 100.0
  {
    var x := p / w;
    assert x * w == p;
    assert x * 100.0 * w == x * w * 100.0;
  }

  lemma {:induction false} RealCancel(x: real, y: real, w: real)
    requires w > 0.0
    ensures x * w <= y * w <==> x <= y
  {
    assert (y - x) * w == y * w - x * w;
  }

  /** The percentage that enters the score is the share times 100 without its fraction. */
  lemma {:induction false} FailPercentIsFloor(history: seq<bool>)
    ensures (FailShare(history) * 100.0).Floor == FailPercent(history)
  {
    if history != [] {
      PercentIsFloor(Fails(history), |history|);
    }
  }

  /** The last 20 verdicts. */
  function Recent(history: seq<bool>): (r: seq<bool>)
    ensures |r| <= HISTORY
  {
    if |history| > HISTORY then history[|history| - HISTORY..] else history
  }

  lemma {:induction false} RecentAppend(history: seq<bool>, verdict: bool)
    ensures Recent(Recent(history) + [verdict]) == Recent(history + [verdict])
  {
  }

  // ----- the score

  function Min100(v: int): int {
    if v > 100 then 100 else v
  }

  function Weighted(ipReqs: nat, subnetReqs: nat, burns: nat, failPercent: nat, reputation: nat): int {
    Min100((Min100(ipReqs * 5) * 30 + Min100(subnetReqs * 2) * 20 + Min100(burns / 10) * 20
            + failPercent * 10 + reputation * 20) / 100)
  }

  function ScoreToBucket(score: int): (b: Byte)
    ensures b <= 3
  {
    if score <= 20 then 0 else if score <= 50 then 1 else if score <= 80 then 2 else 3
  }

  /** The score is a percentage; each signal at its maximum contributes its documented weight:
      30 for the IP rate, 20 for the subnet rate, 20 for burns, 10 for probes, 20 for reputation. */
  lemma {:induction false} ScoreWeights(ipReqs: nat, subnetReqs: nat, burns: nat, failPercent: nat, reputation: nat)
    requires failPercent <= 100 && reputation <= 100
    ensures 0 <= Weighted(ipReqs, subnetReqs, burns, failPercent, reputation) <= 100
    ensures Weighted(ipReqs, 0, 0, 0, 0) == 30 <==> ipReqs >= 20
    ensures Weighted(0, subnetReqs, 0, 0, 0) == 20 <==> subnetReqs >= 50
    ensures Weighted(0, 0, burns, 0, 0) == 20 <==> burns >= 1000
    ensures Weighted(0, 0, 0, failPercent, 0) == 10 <==> failPercent == 100
    ensures Weighted(0, 0, 0, 0, reputation) == 20 <==> reputation == 100
  {
  }

  lemma {:induction false} WeightedMonotone(a1: nat, b1: nat, c1: nat, d1: nat, a2: nat, b2: nat, c2: nat, d2: nat,
                                            rep: nat)
    requires a1 <= a2 && b1 <= b2 && c1 <= c2 && d1 <= d2
    ensures Weighted(a1, b1, c1, d1, rep) <= Weighted(a2, b2, c2, d2, rep)
    ensures ScoreToBucket(Weighted(a1, b1, c1, d1, rep)) <= ScoreToBucket(Weighted(a2, b2, c2, d2, rep))
  {
  }

  // ----- the store as a value

  datatype State = State(
    ipRequests: map<string, seq<Time>>, subnetReqs: map<string, seq<Time>>,
    tokenBurns: map<string, nat>, probeHistory: map<string, seq<bool>>)

  const EMPTY: State := State(map[], map[], map[], map[])

  function Times(m: map<string, seq<Time>>, key: string): seq<Time> {
    if key in m then m[key] else []
  }

  function Verdicts(m: map<string, seq<bool>>, key: string): seq<bool> {
    if key in m then m[key] else []
  }

  function Burns(m: map<string, nat>, key: string): nat {
    if key in m then m[key] else 0
  }

  function Recorded(net: Network, s: State, ip: string, probePass: Option<bool>, now: Time): State {
    var subnet := net.subnetOf(ip);
    State(s.ipRequests[ip := Times(s.ipRequests, ip) + [now]],
          s.subnetReqs[subnet := Times(s.subnetReqs, subnet) + [now]],
          s.tokenBurns,
          if probePass.None? then s.probeHistory
          else s.probeHistory[ip := Recent(Verdicts(s.probeHistory, ip) + [probePass.value])])
  }

  function TokenBurned(s: State, siteKey: string): State {
    s.(tokenBurns := s.tokenBurns[siteKey := Burns(s.tokenBurns, siteKey) + 1])
  }

  function Pruned(m: map<string, seq<Time>>, cutoff: Time): map<string, seq<Time>> {
    map key | key in m && After(m[key], cutoff) != [] :: After(m[key], cutoff)
  }

  function CleanedUp(s: State, now: Time): State {
    s.(ipRequests := Pruned(s.ipRequests, now - WINDOW), subnetReqs := Pruned(s.subnetReqs, now - WINDOW))
  }

  function Score(net: Network, s: State, ip: string, siteKey: string, now: Time): int {
    Weighted(CountAfter(Times(s.ipRequests, ip), now - WINDOW),
             CountAfter(Times(s.subnetReqs, net.subnetOf(ip)), now - WINDOW),
             Burns(s.tokenBurns, siteKey),
             FailPercent(Verdicts(s.probeHistory, ip)),
             net.reputation(ip))
  }

  function Bucket(net: Network, s: State, ip: string, siteKey: string, now: Time): Byte {
    ScoreToBucket(Score(net, s, ip, siteKey, now))
  }

  // ----- the full event log

  datatype Op =
    | Record(at: Time, ip: string, probePass: Option<bool>)
    | Burn(at: Time, siteKey: string)
    | Cleanup(at: Time)

  function Apply(net: Network, s: State, op: Op): State {
    match op
    case Record(at, ip, probePass) => Recorded(net, s, ip, probePass, at)
    case Burn(_, siteKey) => TokenBurned(s, siteKey)
    case Cleanup(at) => CleanedUp(s, at)
  }

  function Run(net: Network, ops: seq<Op>): State {
    if ops == [] then EMPTY else Apply(net, Run(net, ops[..|ops| - 1]), ops[|ops| - 1])
  }

  ghost predicate Chronological(ops: seq<Op>) {
    forall i, j :: 0 <= i < j < |ops| ==> ops[i].at <= ops[j].at
  }

  /** Requests from an address after the cutoff, in the whole history. */
  function LoggedRequests(ops: seq<Op>, ip: string, cutoff: Time): nat {
    if ops == [] then 0
    else
      var op := ops[|ops| - 1];
      LoggedRequests(ops[..|ops| - 1], ip, cutoff) + if op.Record? && op.ip == ip && op.at > cutoff then 1 else 0
  }

  function LoggedSubnetRequests(net: Network, ops: seq<Op>, subnet: string, cutoff: Time): nat {
    if ops == [] then 0
    else
      var op := ops[|ops| - 1];
      LoggedSubnetRequests(net, ops[..|ops| - 1], subnet, cutoff)
      + if op.Record? && net.subnetOf(op.ip) == subnet && op.at > cutoff then 1 else 0
  }

  function LoggedBurns(ops: seq<Op>, siteKey: string): nat {
    if ops == [] then 0
    else
      var op := ops[|ops| - 1];
      LoggedBurns(ops[..|ops| - 1], siteKey) + if op.Burn? && op.siteKey == siteKey then 1 else 0
  }

  /** Every verdict ever recorded for an address. */
  function LoggedVerdicts(ops: seq<Op>, ip: string): seq<bool> {
    if ops == [] then []
    else
      var front, op := LoggedVerdicts(ops[..|ops| - 1], ip), ops[|ops| - 1];
      if op.Record? && op.ip == ip && op.probePass.Some? then front + [op.probePass.value] else front
  }

  /** The score by its definition: the last 60 seconds of all requests, the last 20 of all
      verdicts, and all burns. */
  function LoggedScore(net: Network, ops: seq<Op>, ip: string, siteKey: string, now: Time): int {
    Weighted(LoggedRequests(ops, ip, now - WINDOW),
             LoggedSubnetRequests(net, ops, net.subnetOf(ip), now - WINDOW),
             LoggedBurns(ops, siteKey),
             FailPercent(Recent(LoggedVerdicts(ops, ip))),
             net.reputation(ip))
  }

  // ----- the score in numbers

  /** The requests of an address less than 60 seconds ago, by their place in the log. */
  ghost function RequestIndices(ops: seq<Op>, ip: string, now: Time): set<nat> {
    set i | 0 <= i < |ops| && ops[i].Record? && ops[i].ip == ip && now - ops[i].at < 60_000_000_000
  }

  ghost function SubnetIndices(net: Network, ops: seq<Op>, ip: string, now: Time): set<nat> {
    set i | 0 <= i < |ops| && ops[i].Record? && net.subnetOf(ops[i].ip) == net.subnetOf(ip)
            && now - ops[i].at < 60_000_000_000
  }

  ghost function BurnIndices(ops: seq<Op>, siteKey: string): set<nat> {
    set i | 0 <= i < |ops| && ops[i].Burn? && ops[i].siteKey == siteKey
  }

  lemma {:induction false} OneMoreIndex(s: set<nat>, t: set<nat>, last: nat)
    requires forall i :: i in s ==> i < last
    requires forall i :: i in t ==> i == last || i in s
    requires forall i :: i in s ==> i in t
    ensures |t| == |s| + if last in t then 1 else 0
  {
    if last in t {
      assert t == s + {last};
    } else {
      assert t == s;
    }
  }

  lemma {:induction false} RequestsAreIndices(ops: seq<Op>, ip: string, now: Time)
    ensures LoggedRequests(ops, ip, now - WINDOW) == |RequestIndices(ops, ip, now)|
  {
    if ops == [] {
    } else {
      var last := |ops| - 1;
      RequestsAreIndices(ops[..last], ip, now);
      var s, t := RequestIndices(ops[..last], ip, now), RequestIndices(ops, ip, now);
      OneMoreIndex(s, t, last);
    }
  }

  lemma {:induction false} SubnetRequestsAreIndices(net: Network, ops: seq<Op>, ip: string, now: Time)
    ensures LoggedSubnetRequests(net, ops, net.subnetOf(ip), now - WINDOW) == |SubnetIndices(net, ops, ip, now)|
  {
    if ops == [] {
    } else {
      var last := |ops| - 1;
      SubnetRequestsAreIndices(net, ops[..last], ip, now);
      var s, t := SubnetIndices(net, ops[..last], ip, now), SubnetIndices(net, ops, ip, now);
      OneMoreIndex(s, t, last);
    }
  }

  lemma {:induction false} BurnsAreIndices(ops: seq<Op>, siteKey: string)
    ensures LoggedBurns(ops, siteKey) == |BurnIndices(ops, siteKey)|
  {
    if ops == [] {
    } else {
      var last := |ops| - 1;
      BurnsAreIndices(ops[..last], siteKey);
      var s, t := BurnIndices(ops[..last], siteKey), BurnIndices(ops, siteKey);
      OneMoreIndex(s, t, last);
    }
  }

  lemma {:induction false} FailsAreFalse(history: seq<bool>)
    ensures Fails(history) == multiset(history)[false]
  {
    if history == [] {
    } else {
      var front, last := history[..|history| - 1], history[|history| - 1];
      FailsAreFalse(front);
      assert history == front + [last];
    }
  }

  /** The score of the log in numbers: 5 per request of the address and 2 per request of its
      subnet in the last 60 seconds, one per ten burns, each up to 100, and the failures among
      the last 20 verdicts in percent, weighted 30, 20, 20 and 10, and 20 for the reputation. */
  lemma {:induction false} ScoreFromLog(net: Network, ops: seq<Op>, ip: string, siteKey: string, now: Time)
    ensures var (a, b, c) :=
        (|RequestIndices(ops, ip, now)|, |SubnetIndices(net, ops, ip, now)|, |BurnIndices(ops, siteKey)|);
      var all := LoggedVerdicts(ops, ip);
      var last := if |all| > 20 then all[|all| - 20..] else all;
      var failed := if last == [] then 0 else 100 * multiset(last)[false] / |last|;
      LoggedScore(net, ops, ip, siteKey, now) ==
        (30 * (if a >= 20 then 100 else 5 * a) + 20 * (if b >= 50 then 100 else 2 * b)
         + 20 * (if c >= 1000 then 100 else c / 10) + 10 * failed + 20 * net.reputation(ip)) / 100
  {
    RequestsAreIndices(ops, ip, now);
    SubnetRequestsAreIndices(net, ops, ip, now);
    BurnsAreIndices(ops, siteKey);
    var last := Recent(LoggedVerdicts(ops, ip));
    FailsAreFalse(last);
    if last != [] { PercentAtMost100(Fails(last), |last|); }
    WeightedInNumbers(LoggedRequests(ops, ip, now - WINDOW),
                      LoggedSubnetRequests(net, ops, net.subnetOf(ip), now - WINDOW),
                      LoggedBurns(ops, siteKey), FailPercent(last), net.reputation(ip));
  }

  lemma {:induction false} PercentAtMost100(part: nat, whole: nat)
    requires part <= whole && whole > 0
    ensures Percent(part, whole) <= 100
  {
    PercentMonotone(part, whole, 1, 1);
  }

  lemma {:induction false} WeightedInNumbers(a: nat, b: nat, c: nat, failed: nat, rep: nat)
    requires failed <= 100 && rep <= 100
    ensures Weighted(a, b, c, failed, rep) ==
      (30 * (if a >= 20 then 100 else 5 * a) + 20 * (if b >= 50 then 100 else 2 * b)
       + 20 * (if c >= 1000 then 100 else c / 10) + 10 * failed + 20 * rep) / 100
  {
  }

  /** What one operation does to the windowed count of a table. */
  lemma {:induction false} RequestsStep(net: Network, s: State, op: Op, ip: string, cutoff: Time)
    requires cutoff >= op.at - WINDOW
    ensures CountAfter(Times(Apply(net, s, op).ipRequests, ip), cutoff)
      == CountAfter(Times(s.ipRequests, ip), cutoff) + if op.Record? && op.ip == ip && op.at > cutoff then 1 else 0
  {
    if op.Record? {
      CountAppend(Times(s.ipRequests, ip), op.at, cutoff);
    } else if op.Cleanup? {
      CountPruned(Times(s.ipRequests, ip), op.at - WINDOW, cutoff);
    }
  }

  lemma {:induction false} SubnetRequestsStep(net: Network, s: State, op: Op, subnet: string, cutoff: Time)
    requires cutoff >= op.at - WINDOW
    ensures CountAfter(Times(Apply(net, s, op).subnetReqs, subnet), cutoff)
      == CountAfter(Times(s.subnetReqs, subnet), cutoff)
         + if op.Record? && net.subnetOf(op.ip) == subnet && op.at > cutoff then 1 else 0
  {
    if op.Record? {
      CountAppend(Times(s.subnetReqs, subnet), op.at, cutoff);
    } else if op.Cleanup? {
      CountPruned(Times(s.subnetReqs, subnet), op.at - WINDOW, cutoff);
    }
  }

  lemma {:induction false} RequestsRefine(net: Network, ops: seq<Op>, ip: string, cutoff: Time)
    requires Chronological(ops) && (ops != [] ==> cutoff >= ops[|ops| - 1].at - WINDOW)
    ensures CountAfter(Times(Run(net, ops).ipRequests, ip), cutoff) == LoggedRequests(ops, ip, cutoff)
  {
    if ops == [] {
    } else {
      var front, op := ops[..|ops| - 1], ops[|ops| - 1];
      RequestsRefine(net, front, ip, cutoff);
      RequestsStep(net, Run(net, front), op, ip, cutoff);
    }
  }

  lemma {:induction false} SubnetRequestsRefine(net: Network, ops: seq<Op>, subnet: string, cutoff: Time)
    requires Chronological(ops) && (ops != [] ==> cutoff >= ops[|ops| - 1].at - WINDOW)
    ensures CountAfter(Times(Run(net, ops).subnetReqs, subnet), cutoff)
      == LoggedSubnetRequests(net, ops, subnet, cutoff)
  {
    if ops == [] {
    } else {
      var front, op := ops[..|ops| - 1], ops[|ops| - 1];
      SubnetRequestsRefine(net, front, subnet, cutoff);
      SubnetRequestsStep(net, Run(net, front), op, subnet, cutoff);
    }
  }

  lemma {:induction false} BurnsRefine(net: Network, ops: seq<Op>, siteKey: string)
    ensures Burns(Run(net, ops).tokenBurns, siteKey) == LoggedBurns(ops, siteKey)
  {
    if ops == [] {
    } else {
      BurnsRefine(net, ops[..|ops| - 1], siteKey);
    }
  }

  lemma {:induction false} VerdictsRefine(net: Network, ops: seq<Op>, ip: string)
    ensures Verdicts(Run(net, ops).probeHistory, ip) == Recent(LoggedVerdicts(ops, ip))
  {
    if ops == [] {
    } else {
      var front, op := ops[..|ops| - 1], ops[|ops| - 1];
      VerdictsRefine(net, front, ip);
      if op.Record? && op.probePass.Some? {
        RecentAppend(LoggedVerdicts(front, ip), op.probePass.value);
      }
    }
  }

  /** After any interleaving of records, burns and cleanups with a clock that never goes back,
      the score at any later time is the one computed from the complete history: what the
      store throws away is never missed. */
  lemma {:induction false} StoreRefinesLog(net: Network, ops: seq<Op>, ip: string, siteKey: string, now: Time)
    requires Chronological(ops) && (ops != [] ==> now >= ops[|ops| - 1].at)
    ensures Score(net, Run(net, ops), ip, siteKey, now) == LoggedScore(net, ops, ip, siteKey, now)
  {
    RequestsRefine(net, ops, ip, now - WINDOW);
    SubnetRequestsRefine(net, ops, net.subnetOf(ip), now - WINDOW);
    BurnsRefine(net, ops, siteKey);
    VerdictsRefine(net, ops, ip);
  }

  // ----- abuse never pays at once

  lemma {:induction false} FailsDropFirst(history: seq<bool>)
    requires history != []
    ensures Fails(history) == Fails(history[1..]) + if history[0] then 0 else 1
  {
    if |history| == 1 {
    } else {
      var front := history[..|history| - 1];
      FailsDropFirst(front);
      assert history[1..][..|history| - 2] == front[1..];
    }
  }

  lemma {:induction false} PercentMonotone(a: nat, b: nat, c: nat, d: nat)
    requires b > 0 && d > 0 && a * d <= c * b
    ensures Percent(a, b) <= Percent(c, d)
  {
    var q := Percent(a, b);
    assert q * b <= 100 * a;
    assert (q * b) * d <= (100 * a) * d;
    assert (100 * a) * d <= (100 * c) * b;
    MulRearrange(q, b, d);
    assert (q * d) * b <= (100 * c) * b;
    assert q * d <= 100 * c;
    QuotientAtLeast(q, d, 100 * c);
  }

  lemma {:induction false} QuotientAtLeast(q: nat, d: nat, x: nat)
    requires d > 0 && q * d <= x
    ensures q <= x / d
  {
    var r := x / d;
    assert x < d * (r + 1) by { assert x == d * r + x % d; }
    if r < q {
      MulAtMost(d, r + 1, q);
    }
  }

  lemma {:induction false} MulAtMost(d: nat, a: nat, b: nat)
    requires a <= b
    ensures d * a <= b * d
  {
  }

  /** One more failed probe never lowers the share of failures, even when it pushes the
      oldest of 20 verdicts out. */
  lemma {:induction false} FailureNeverHelps(history: seq<bool>)
    requires |history| <= HISTORY
    ensures FailPercent(Recent(history + [false])) >= FailPercent(history)
  {
    var longer := history + [false];
    assert longer[..|history|] == history;
    if |history| < HISTORY {
      if history != [] {
        PercentMonotone(Fails(history), |history|, Fails(longer), |longer|);
      }
    } else {
      FailsDropFirst(longer);
      assert Recent(longer) == longer[1..];
      PercentMonotone(Fails(history), HISTORY, Fails(longer[1..]), HISTORY);
    }
  }

  /** Tables in which every verdict list has at most 20 entries, as all reachable ones have. */
  ghost predicate Bounded(s: State) {
    forall ip :: ip in s.probeHistory ==> |s.probeHistory[ip]| <= HISTORY
  }

  lemma {:induction false} RunBounded(net: Network, ops: seq<Op>)
    ensures Bounded(Run(net, ops))
  {
    if ops == [] {
    } else {
      RunBounded(net, ops[..|ops| - 1]);
    }
  }

  /** A request with no verdict or a failing one, and a token burn, never lower the score or
      the bucket of any address for any site key, at any time. */
  lemma {:induction false} AbuseMonotone(net: Network, s: State, op: Op, ip: string, siteKey: string, now: Time)
    requires Bounded(s) && !op.Cleanup? && (op.Record? ==> op.probePass != Some(true))
    ensures Score(net, Apply(net, s, op), ip, siteKey, now) >= Score(net, s, ip, siteKey, now)
    ensures Bucket(net, Apply(net, s, op), ip, siteKey, now) >= Bucket(net, s, ip, siteKey, now)
  {
    var t := Apply(net, s, op);
    var subnet, cutoff := net.subnetOf(ip), now - WINDOW;
    RequestsGrow(net, s, op, ip, cutoff);
    VerdictsWorsen(net, s, op, ip);
    WeightedMonotone(CountAfter(Times(s.ipRequests, ip), cutoff), CountAfter(Times(s.subnetReqs, subnet), cutoff),
                     Burns(s.tokenBurns, siteKey), FailPercent(Verdicts(s.probeHistory, ip)),
                     CountAfter(Times(t.ipRequests, ip), cutoff), CountAfter(Times(t.subnetReqs, subnet), cutoff),
                     Burns(t.tokenBurns, siteKey), FailPercent(Verdicts(t.probeHistory, ip)), net.reputation(ip));
  }

  lemma {:induction false} RequestsGrow(net: Network, s: State, op: Op, ip: string, cutoff: Time)
    requires !op.Cleanup?
    ensures var t, subnet := Apply(net, s, op), net.subnetOf(ip);
      && CountAfter(Times(s.ipRequests, ip), cutoff) <= CountAfter(Times(t.ipRequests, ip), cutoff)
      && CountAfter(Times(s.subnetReqs, subnet), cutoff) <= CountAfter(Times(t.subnetReqs, subnet), cutoff)
  {
    CountAppend(Times(s.ipRequests, ip), op.at, cutoff);
    CountAppend(Times(s.subnetReqs, net.subnetOf(ip)), op.at, cutoff);
  }

  lemma {:induction false} VerdictsWorsen(net: Network, s: State, op: Op, ip: string)
    requires Bounded(s) && !op.Cleanup? && (op.Record? ==> op.probePass != Some(true))
    ensures FailPercent(Verdicts(s.probeHistory, ip)) <= FailPercent(Verdicts(Apply(net, s, op).probeHistory, ip))
  {
    FailureNeverHelps(Verdicts(s.probeHistory, ip));
  }

  // ----- the store as an object

  /** Moves the times after the cutoff to the front of the buffer they are read from, as
      appending to times[:0] does; returns how many there are. */
  method CompactInPlace(buf: array<Time>, cutoff: Time) returns (n: nat)
    modifies buf
    ensures n <= buf.Length && buf[..n] == After(old(buf[..]), cutoff)
  {
    ghost var was := buf[..];
    n := 0;
    assert was[..0] == [];
    for i := 0 to buf.Length
      invariant n <= i && buf[..n] == After(was[..i], cutoff)
      invariant forall k :: i <= k < buf.Length ==> buf[k] == was[k]
    {
      var t := buf[i];
      assert t == was[i] && was[..i + 1][..i] == was[..i];
      ghost var kept := buf[..n];
      if t > cutoff {
        buf[n] := t;
        assert buf[..n + 1] == kept + [t];
        n := n + 1;
      }
    }
    assert was[..|was|] == was;
  }

  class Store {
    const net: Network
    var ipRequests: map<string, seq<Time>>
    var subnetReqs: map<string, seq<Time>>
    var tokenBurns: map<string, nat>
    var probeHistory: map<string, seq<bool>>

    ghost function Contents(): State
      reads this
    {
      State(ipRequests, subnetReqs, tokenBurns, probeHistory)
    }

    constructor (net: Network)
      ensures Contents() == EMPTY && this.net == net
    {
      this.net := net;
      ipRequests := map[];
      subnetReqs := map[];
      tokenBurns := map[];
      probeHistory := map[];
    }

    method Record(ip: string, probePass: Option<bool>, now: Time)
      modifies this
      ensures Contents() == Recorded(net, old(Contents()), ip, probePass, now)
    {
      var subnet := net.subnetOf(ip);
      ipRequests := ipRequests[ip := Times(ipRequests, ip) + [now]];
      subnetReqs := subnetReqs[subnet := Times(subnetReqs, subnet) + [now]];
      if probePass.Some? {
        probeHistory := probeHistory[ip := Verdicts(probeHistory, ip) + [probePass.value]];
        if |probeHistory[ip]| > HISTORY {
          probeHistory := probeHistory[ip := probeHistory[ip][|probeHistory[ip]| - HISTORY..]];
        }
      }
    }

    method RecordTokenBurn(siteKey: string)
      modifies this
      ensures Contents() == TokenBurned(old(Contents()), siteKey)
    {
      tokenBurns := tokenBurns[siteKey := Burns(tokenBurns, siteKey) + 1];
    }

    method ComputeScore(ip: string, siteKey: string, now: Time) returns (score: int, bucket: Byte)
      ensures score == Score(net, Contents(), ip, siteKey, now)
      ensures bucket == Bucket(net, Contents(), ip, siteKey, now)
    {
      var cutoff := now - WINDOW;
      var ipReqs := CountLoop(Times(ipRequests, ip), cutoff);
      var subnetCount := CountLoop(Times(subnetReqs, net.subnetOf(ip)), cutoff);
      var burns := Burns(tokenBurns, siteKey);
      var probeScore := FailRate(Verdicts(probeHistory, ip));
      FailPercentIsFloor(Verdicts(probeHistory, ip));
      var probeSignal := (probeScore * 100.0).Floor;
      var ipScore := Min100(ipReqs * 5);
      var subnetScore := Min100(subnetCount * 2);
      var burnScore := Min100(burns / 10);
      var repScore := net.reputation(ip);
      var weighted := (ipScore * 30 + subnetScore * 20 + burnScore * 20 + probeSignal * 10 + repScore * 20) / 100;
      score := Min100(weighted);
      bucket := ScoreToBucket(score);
    }

    static method CountLoop(times: seq<Time>, cutoff: Time) returns (count: nat)
      ensures count == CountAfter(times, cutoff)
    {
      count := 0;
      assert times[..0] == [];
      for i := 0 to |times|
        invariant count == CountAfter(times[..i], cutoff)
      {
        assert times[..i + 1][..i] == times[..i];
        if times[i] > cutoff {
          count := count + 1;
        }
      }
      assert times[..|times|] == times;
    }

    static method FailRate(history: seq<bool>) returns (rate: real)
      ensures rate == FailShare(history)
    {
      if |history| == 0 {
        return 0.0;
      }
      var fails: nat := 0;
      assert history[..0] == [];
      for i := 0 to |history|
        invariant fails == Fails(history[..i])
      {
        assert history[..i + 1][..i] == history[..i];
        if !history[i] {
          fails := fails + 1;
        }
      }
      assert history[..|history|] == history;
      return fails as real / |history| as real;
    }

    method Cleanup(now: Time)
      modifies this
      ensures Contents() == CleanedUp(old(Contents()), now)
    {
      ipRequests := Prune(ipRequests, now - WINDOW);
      subnetReqs := Prune(subnetReqs, now - WINDOW);
    }

    /** The loop over one table: each list is compacted in its own buffer, and keys whose list
        becomes empty are deleted. Go visits the keys in no particular order. */
    static method Prune(table: map<string, seq<Time>>, cutoff: Time) returns (m: map<string, seq<Time>>)
      ensures m == Pruned(table, cutoff)
    {
      m := table;
      var todo := table.Keys;
      while todo != {}
        invariant todo <= table.Keys
        invariant forall key :: key in todo ==> key in m && m[key] == table[key]
        invariant forall key :: key in m ==> key in table
        invariant forall key :: key in table && key !in todo ==>
          if After(table[key], cutoff) == [] then key !in m else key in m && m[key] == After(table[key], cutoff)
        decreases todo
      {
        var key :| key in todo;
        var times := m[key];
        var buf := new Time[|times|](i requires 0 <= i < |times| => times[i]);
        assert buf[..] == times;
        var n := CompactInPlace(buf, cutoff);
        if n == 0 {
          assert buf[..n] == [];
          m := m - {key};
        } else {
          assert buf[..n][0] == buf[0];
          m := m[key := buf[..n]];
        }
        todo := todo - {key};
      }
      assert m.Keys == Pruned(table, cutoff).Keys;
    }
  }
}
