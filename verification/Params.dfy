/** From a seed and the ranges of a temperature bucket to the parameters of a challenge. */
module Params {
  import opened Arithmetic
  import opened Bytes
  import opened HashSuite
  import opened Metadata

  datatype ParameterRanges = ParameterRanges(
    hashCashBitsMin: Byte, hashCashBitsMax: Byte,
    argon2MemoryMin: Uint32, argon2MemoryMax: Uint32,
    argon2IterationsMin: Uint32, argon2IterationsMax: Uint32,
    probePoolSize: int, probeCount: int)

  datatype ChallengeParams = ChallengeParams(
    hashCashBits: Byte, argon2Memory: Uint32, argon2Iterations: Uint32, probeIndices: seq<nat>)

  /** GenerateSeed: HMAC-SHA256 over nonce, timestamp and IP under the server secret. */
  function GenerateSeed(suite: Suite, secret: Bytes, nonce: Bytes, timestamp: Bytes, ip: Bytes): Digest256 {
    suite.hmacSHA256(secret, nonce + timestamp + ip)
  }

  // ----- numbers in a range, with the wrap-around of fixed-width integers

  /** max - min + 1 in integers that wrap at m. */
  function Width(min: nat, max: nat, m: nat): nat
    requires m > 0
  {
    (max - min + 1) % m
  }

  /** min + x % width in integers that wrap at m. A width of zero makes the source panic. */
  function Pick(x: nat, min: nat, max: nat, m: nat): (r: nat)
    requires m > 0 && Width(min, max, m) != 0
    ensures r < m
  {
    (min + x % Width(min, max, m)) % m
  }

  /** A range that is not upside down is hit for every seed; nothing overflows. */
  lemma {:induction false} PickInRange(x: nat, min: nat, max: nat, m: nat)
    requires min <= max < m && Width(min, max, m) != 0
    ensures min <= Pick(x, min, max, m) <= max
  {
    var w := max - min + 1;
    if w < m {
      ModUnique(w, m, 0, w);
      ModUnique(min + x % w, m, 0, min + x % w);
    } else {
      ModUnique(w, m, 1, 0);
    }
  }

  /** Every value of the range is hit by some seed. */
  lemma {:induction false} PickReaches(v: nat, min: nat, max: nat, m: nat)
    requires min <= v <= max < m && Width(min, max, m) != 0
    ensures Pick(v - min, min, max, m) == v
  {
    var w := max - min + 1;
    if w < m {
      ModUnique(w, m, 0, w);
      ModUnique(v - min, w, 0, v - min);
      ModUnique(v, m, 0, v);
    } else {
      ModUnique(w, m, 1, 0);
    }
  }

  /** A range that does not wrap is gone through again and again, from its minimum. */
  lemma {:induction false} PickExact(x: nat, min: nat, max: nat, m: nat)
    requires min <= max < m && max - min + 1 < m
    ensures Width(min, max, m) != 0 && Pick(x, min, max, m) == min + x % (max - min + 1)
  {
    var w := max - min + 1;
    ModUnique(w, m, 0, w);
    ModUnique(min + x % w, m, 0, min + x % w);
  }

  /** The ranges for which DeriveParams does not divide by zero. */
  predicate Divisible(r: ParameterRanges) {
    && Width(r.hashCashBitsMin, r.hashCashBitsMax, 256) != 0
    && Width(r.argon2MemoryMin, r.argon2MemoryMax, UINT32) != 0
    && Width(r.argon2IterationsMin, r.argon2IterationsMax, UINT32) != 0
  }

  predicate Ordered(r: ParameterRanges) {
    && r.hashCashBitsMin <= r.hashCashBitsMax
    && r.argon2MemoryMin <= r.argon2MemoryMax
    && r.argon2IterationsMin <= r.argon2IterationsMax
  }

  function DeriveParams(seed: Bytes, r: ParameterRanges): ChallengeParams
    requires |seed| >= 9 ==> Divisible(r)
  {
    if |seed| < 9 then ChallengeParams(r.hashCashBitsMin, r.argon2MemoryMin, r.argon2IterationsMin, [])
    else
      ChallengeParams(
        Pick(seed[0], r.hashCashBitsMin, r.hashCashBitsMax, 256),
        Pick(OS2IP(seed[1..5]), r.argon2MemoryMin, r.argon2MemoryMax, UINT32),
        Pick(OS2IP(seed[5..9]), r.argon2IterationsMin, r.argon2IterationsMax, UINT32),
        Selection(seed[9..], r.probePoolSize, r.probeCount))
  }

  /** All derived numbers lie in their ranges, whatever the seed. */
  lemma {:induction false} ParamsInRange(seed: Bytes, r: ParameterRanges)
    requires Ordered(r) && (|seed| >= 9 ==> Divisible(r))
    ensures var p := DeriveParams(seed, r);
      && r.hashCashBitsMin <= p.hashCashBits <= r.hashCashBitsMax
      && r.argon2MemoryMin <= p.argon2Memory <= r.argon2MemoryMax
      && r.argon2IterationsMin <= p.argon2Iterations <= r.argon2IterationsMax
  {
    if |seed| >= 9 {
      PickInRange(seed[0], r.hashCashBitsMin, r.hashCashBitsMax, 256);
      PickInRange(OS2IP(seed[1..5]), r.argon2MemoryMin, r.argon2MemoryMax, UINT32);
      PickInRange(OS2IP(seed[5..9]), r.argon2IterationsMin, r.argon2IterationsMax, UINT32);
    }
  }

  /** Four bytes as a big-endian number. */
  function BigEndian32(a: nat, b: nat, c: nat, d: nat): nat {
    a * 0x100_0000 + b * 0x1_0000 + c * 0x100 + d
  }

  lemma {:induction false} FourByteValue(b: Bytes)
    requires |b| == 4
    ensures OS2IP(b) == BigEndian32(b[0], b[1], b[2], b[3])
  {
    OS2IPHead(b);
    OS2IPHead(b[1..]);
    OS2IPHead(b[2..]);
    OS2IPHead(b[3..]);
    assert b[1..][1..] == b[2..] && b[2..][1..] == b[3..] && b[3..][1..] == [];
    assert Pow(256, 1) == 256 && Pow(256, 2) == 0x1_0000 && Pow(256, 0) == 1;
    PowAdd(256, 2, 1);
  }

  /** What a full seed decides in each temperature bucket, in numbers: HashCash bits by its
      first byte, ... */
  lemma {:induction false} BitsByBucket(seed: Bytes, bucket: Byte)
    requires |seed| >= 9
    ensures Divisible(BucketRanges(bucket))
    ensures DeriveParams(seed, BucketRanges(bucket)).hashCashBits ==
      if bucket == 0 then 16 + seed[0] as int % 3 else if bucket == 1 then 18 + seed[0] as int % 3
      else if bucket == 2 then 20 + seed[0] as int % 3 else 22
  {
    BucketRangesUsable(bucket);
    PickExact(seed[0], BucketRanges(bucket).hashCashBitsMin, BucketRanges(bucket).hashCashBitsMax, 256);
  }

  /** ... Argon2 memory by the next four, ... */
  lemma {:induction false} MemoryByBucket(seed: Bytes, bucket: Byte)
    requires |seed| >= 9
    ensures Divisible(BucketRanges(bucket))
    ensures var x := BigEndian32(seed[1], seed[2], seed[3], seed[4]);
      DeriveParams(seed, BucketRanges(bucket)).argon2Memory ==
        if bucket == 0 then 65536 + x % 32769 else if bucket == 1 then 98304 + x % 32769
        else if bucket == 2 then 131072 + x % 65537 else 196608 + x % 65537
  {
    BucketRangesUsable(bucket);
    FourByteValue(seed[1..5]);
    PickExact(OS2IP(seed[1..5]), BucketRanges(bucket).argon2MemoryMin, BucketRanges(bucket).argon2MemoryMax, UINT32);
  }

  /** ... and iterations by the next four. */
  lemma {:induction false} IterationsByBucket(seed: Bytes, bucket: Byte)
    requires |seed| >= 9
    ensures Divisible(BucketRanges(bucket))
    ensures var x := BigEndian32(seed[5], seed[6], seed[7], seed[8]);
      DeriveParams(seed, BucketRanges(bucket)).argon2Iterations ==
        if bucket == 0 then 2 + x % 2 else if bucket == 1 then 2 + x % 3
        else if bucket == 2 then 3 + x % 3 else 4 + x % 2
  {
    BucketRangesUsable(bucket);
    FourByteValue(seed[5..9]);
    PickExact(OS2IP(seed[5..9]), BucketRanges(bucket).argon2IterationsMin, BucketRanges(bucket).argon2IterationsMax,
              UINT32);
  }

  // ----- probe selection

  /** Indices drawn from the seed bytes, first occurrences only, until there are enough. */
  function Drawn(seed: Bytes, poolSize: nat, count: nat): (s: seq<nat>)
    requires poolSize > 0
    ensures |s| <= count
  {
    if seed == [] then []
    else
      var before := Drawn(seed[..|seed| - 1], poolSize, count);
      var idx := seed[|seed| - 1] % poolSize;
      if |before| < count && idx !in before then before + [idx] else before
  }

  /** Then the unused indices below bound, in order, until there are enough. */
  function Filled(drawn: seq<nat>, bound: nat, count: nat): (s: seq<nat>) {
    if bound == 0 then drawn
    else
      var before := Filled(drawn, bound - 1, count);
      if |before| < count && bound - 1 !in drawn then before + [bound - 1] else before
  }

  function Selection(seed: Bytes, poolSize: int, count: int): seq<nat> {
    if poolSize <= 0 || count <= 0 then []
    else
      var wanted := if count > poolSize then poolSize else count;
      Filled(Drawn(seed, poolSize, wanted), poolSize, wanted)
  }

  ghost predicate Distinct(s: seq<nat>) {
    forall i, j :: 0 <= i < j < |s| ==> s[i] != s[j]
  }

  ghost predicate Below(s: seq<nat>, bound: nat) {
    forall i :: 0 <= i < |s| ==> s[i] < bound
  }

  lemma {:induction false} DrawnShape(seed: Bytes, poolSize: nat, count: nat)
    requires poolSize > 0
    ensures Distinct(Drawn(seed, poolSize, count)) && Below(Drawn(seed, poolSize, count), poolSize)
  {
    if seed == [] {
    } else {
      DrawnShape(seed[..|seed| - 1], poolSize, count);
    }
  }

  /** The indices below bound that drawn does not contain. */
  function Unused(drawn: seq<nat>, bound: nat): nat {
    if bound == 0 then 0 else Unused(drawn, bound - 1) + if bound - 1 in drawn then 0 else 1
  }

  lemma {:induction false} FilledShape(drawn: seq<nat>, bound: nat, poolSize: nat, count: nat)
    requires Distinct(drawn) && Below(drawn, poolSize) && |drawn| <= count && bound <= poolSize
    ensures var s := Filled(drawn, bound, count);
      && Distinct(s) && Below(s, poolSize) && drawn <= s
      && (forall i :: |drawn| <= i < |s| ==> s[i] < bound && s[i] !in drawn)
      && |s| == if |drawn| + Unused(drawn, bound) < count then |drawn| + Unused(drawn, bound) else count
  {
    if bound == 0 {
    } else {
      FilledShape(drawn, bound - 1, poolSize, count);
    }
  }

  /** Pigeonhole: distinct indices below bound leave bound minus their number unused. */
  lemma {:induction false} UnusedCount(s: set<nat>, drawn: seq<nat>, bound: nat)
    requires s == set x | x in drawn && x < bound
    ensures Unused(drawn, bound) == bound - |s|
  {
    if bound == 0 {
      assert s == {};
    } else {
      var rest := set x | x in drawn && x < bound - 1;
      UnusedCount(rest, drawn, bound - 1);
      if bound - 1 in drawn {
        assert s == rest + {bound - 1};
      } else {
        assert s == rest;
      }
    }
  }

  lemma {:induction false} DistinctCardinality(drawn: seq<nat>, s: set<nat>)
    requires Distinct(drawn) && s == set x | x in drawn
    ensures |s| == |drawn|
  {
    if drawn == [] {
    } else {
      var front := drawn[..|drawn| - 1];
      var t := set x | x in front;
      DistinctCardinality(front, t);
      assert s == t + {drawn[|drawn| - 1]};
      assert drawn[|drawn| - 1] !in t;
    }
  }

  /** Whatever the seed, the selection has min(count, poolSize) different indices of the pool. */
  lemma {:induction false} SelectionShape(seed: Bytes, poolSize: int, count: int)
    ensures var s := Selection(seed, poolSize, count);
      && Distinct(s) && (poolSize > 0 ==> Below(s, poolSize))
      && |s| == if poolSize <= 0 || count <= 0 then 0 else if count > poolSize then poolSize else count
  {
    if poolSize > 0 && count > 0 {
      var wanted := if count > poolSize then poolSize else count;
      var drawn := Drawn(seed, poolSize, wanted);
      DrawnShape(seed, poolSize, wanted);
      FilledShape(drawn, poolSize, poolSize, wanted);
      var s := set x | x in drawn;
      DistinctCardinality(drawn, s);
      assert s == set x | x in drawn && x < poolSize;
      UnusedCount(s, drawn, poolSize);
    }
  }

  /** The drawn indices are the values seed[i] % poolSize in the order in which they first
      occur, at the given positions; unless there are enough of them, they are all values. */
  lemma {:induction false} DrawnFollowsSeed(seed: Bytes, poolSize: nat, count: nat) returns (positions: seq<nat>)
    requires poolSize > 0
    ensures DrawnAt(seed, poolSize, count, Drawn(seed, poolSize, count), positions)
  {
    if seed == [] {
      positions := [];
    } else {
      var last := |seed| - 1;
      positions := DrawnFollowsSeed(seed[..last], poolSize, count);
      var before := Drawn(seed[..last], poolSize, count);
      DrawnStep(seed, poolSize, count, positions);
      if |before| < count && seed[last] % poolSize !in before {
        positions := positions + [last];
      }
    }
  }

  /** The drawn indices and their positions, as described. */
  ghost predicate DrawnAt(seed: Bytes, poolSize: nat, count: nat, drawn: seq<nat>, positions: seq<nat>)
    requires poolSize > 0
  {
    && |positions| == |drawn| && (forall j :: 0 <= j < |drawn| ==> positions[j] < |seed|)
    && (forall j :: 0 <= j < |drawn| ==> drawn[j] == seed[positions[j]] % poolSize)
    && (forall j, i :: 0 <= j < |drawn| && 0 <= i < positions[j] ==> seed[i] % poolSize in drawn[..j])
    && (|drawn| < count ==> forall i :: 0 <= i < |seed| ==> seed[i] % poolSize in drawn)
  }

  lemma {:induction false} DrawnStep(seed: Bytes, poolSize: nat, count: nat, positions: seq<nat>)
    requires poolSize > 0 && seed != []
    requires DrawnAt(seed[..|seed| - 1], poolSize, count, Drawn(seed[..|seed| - 1], poolSize, count), positions)
    ensures var (before, last) := (Drawn(seed[..|seed| - 1], poolSize, count), |seed| - 1);
      DrawnAt(seed, poolSize, count, Drawn(seed, poolSize, count),
              if |before| < count && seed[last] % poolSize !in before then positions + [last] else positions)
  {
    var front, last := seed[..|seed| - 1], |seed| - 1;
    var before := Drawn(front, poolSize, count);
    forall i | 0 <= i < last
      ensures seed[i] == front[i]
    {
    }
    if |before| < count && seed[last] % poolSize !in before {
      DrawnAppended(front, poolSize, count, before, positions, seed[last]);
      assert front + [seed[last]] == seed;
    } else {
      DrawnSkipped(front, poolSize, count, before, positions, seed[last]);
      assert front + [seed[last]] == seed;
    }
  }

  lemma {:induction false} DrawnAppended(front: Bytes, poolSize: nat, count: nat, before: seq<nat>,
                                         positions: seq<nat>, b: Byte)
    requires poolSize > 0 && |before| < count && DrawnAt(front, poolSize, count, before, positions)
    ensures DrawnAt(front + [b], poolSize, count, before + [b % poolSize], positions + [|front|])
  {
    var after := before + [b % poolSize];
    forall j, i | 0 <= j < |after| && 0 <= i < (positions + [|front|])[j]
      ensures (front + [b])[i] % poolSize in after[..j]
    {
      assert (front + [b])[i] == front[i];
      if j < |before| {
        assert after[..j] == before[..j];
      } else {
        assert after[..j] == before;
      }
    }
    forall i | 0 <= i < |front + [b]|
      ensures (front + [b])[i] % poolSize in after
    {
      if i < |front| {
        assert front[i] % poolSize in before;
      } else {
        assert after[|before|] == b % poolSize;
      }
    }
  }

  lemma {:induction false} DrawnSkipped(front: Bytes, poolSize: nat, count: nat, before: seq<nat>,
                                        positions: seq<nat>, b: Byte)
    requires poolSize > 0 && DrawnAt(front, poolSize, count, before, positions)
    requires |before| >= count || b % poolSize in before
    ensures DrawnAt(front + [b], poolSize, count, before, positions)
  {
    forall i | 0 <= i < |front|
      ensures (front + [b])[i] == front[i]
    {
    }
  }

  /** After the drawn ones each index is the least that is not yet selected. */
  lemma {:induction false} FilledByLeast(drawn: seq<nat>, bound: nat, count: nat)
    requires |drawn| <= count
    ensures var s := Filled(drawn, bound, count);
      && drawn <= s && (forall j :: |drawn| <= j < |s| ==> s[j] < bound && s[j] !in s[..j])
      && (forall j, x :: |drawn| <= j < |s| && 0 <= x < s[j] ==> x in s[..j])
      && (|s| < count ==> forall x :: 0 <= x < bound ==> x in s)
  {
    if bound == 0 {
    } else {
      FilledByLeast(drawn, bound - 1, count);
      var before, s := Filled(drawn, bound - 1, count), Filled(drawn, bound, count);
      if s != before {
        assert s == before + [bound - 1];
        LeastAppended(drawn, before, bound - 1);
      }
    }
  }

  lemma {:induction false} LeastAppended(drawn: seq<nat>, before: seq<nat>, next: nat)
    requires drawn <= before && next !in drawn
    requires forall j :: |drawn| <= j < |before| ==> before[j] < next && before[j] !in before[..j]
    requires forall j, x :: |drawn| <= j < |before| && 0 <= x < before[j] ==> x in before[..j]
    requires forall x :: 0 <= x < next ==> x in before
    ensures var s := before + [next];
      && (forall j :: |drawn| <= j < |s| ==> s[j] <= next && s[j] !in s[..j])
      && (forall j, x :: |drawn| <= j < |s| && 0 <= x < s[j] ==> x in s[..j])
  {
    var s := before + [next];
    forall j | |drawn| <= j < |s|
      ensures s[j] !in s[..j] && forall x :: 0 <= x < s[j] ==> x in s[..j]
    {
      if j < |before| {
        assert s[..j] == before[..j];
      } else {
        assert s[..j] == before;
      }
    }
  }

  /** The selection, exactly: the values that the seed draws, in order of first occurrence,
      and then the least unused indices. */
  lemma {:induction false} SelectionFollowsSeed(seed: Bytes, poolSize: nat, count: nat) returns (positions: seq<nat>)
    requires poolSize > 0 && count > 0
    ensures var s := Selection(seed, poolSize, count);
      && |positions| <= |s| == (if count > poolSize then poolSize else count)
      && (forall j :: 0 <= j < |positions| ==> positions[j] < |seed| && s[j] == seed[positions[j]] % poolSize)
      && (forall j, i :: 0 <= j < |positions| && 0 <= i < positions[j] ==> seed[i] % poolSize in s[..j])
      && (|positions| < |s| ==> forall i :: 0 <= i < |seed| ==> seed[i] % poolSize in s[..|positions|])
      && (forall j, x :: |positions| <= j < |s| && 0 <= x < s[j] ==> x in s[..j])
      && (forall i, j :: 0 <= i < j < |s| ==> s[i] != s[j])
  {
    var wanted := if count > poolSize then poolSize else count;
    var drawn, s := Drawn(seed, poolSize, wanted), Selection(seed, poolSize, count);
    positions := DrawnFollowsSeed(seed, poolSize, wanted);
    SelectionShape(seed, poolSize, count);
    FilledByLeast(drawn, poolSize, wanted);
    assert s[..|drawn|] == drawn;
    forall j | 0 <= j < |drawn|
      ensures s[..j] == drawn[..j]
    {
    }
  }

  /** selectProbes: two loops over the seed and the pool, with a map of what is taken. */
  method SelectProbes(seed: Bytes, poolSize: int, count: int) returns (indices: seq<nat>)
    ensures indices == Selection(seed, poolSize, count)
  {
    if poolSize <= 0 || count <= 0 {
      return [];
    }
    var wanted: nat := if count > poolSize then poolSize else count;
    var selected: map<nat, bool> := map[];
    indices := [];
    var i: nat := 0;
    assert seed[..0] == [];
    while i < |seed| && |indices| < wanted
      invariant i <= |seed| && indices == Drawn(seed[..i], poolSize, wanted)
      invariant forall x :: x in selected <==> x in indices
    {
      var idx := seed[i] % poolSize;
      assert seed[..i + 1][..i] == seed[..i];
      if idx !in selected {
        selected := selected[idx := true];
        indices := indices + [idx];
      }
      i := i + 1;
    }
    DrawnStops(seed, i, poolSize, wanted);
    ghost var drawn := indices;
    var idx: nat := 0;
    while |indices| < wanted && idx < poolSize
      invariant idx <= poolSize && indices == Filled(drawn, idx, wanted)
    {
      if idx !in selected {
        indices := indices + [idx];
      }
      idx := idx + 1;
    }
    FilledStops(drawn, idx, poolSize, wanted);
  }

  /** DeriveParams, with the loops of its probe selection. */
  method Derive(seed: Bytes, r: ParameterRanges) returns (p: ChallengeParams)
    requires |seed| >= 9 ==> Divisible(r)
    ensures p == DeriveParams(seed, r)
  {
    if |seed| < 9 {
      return ChallengeParams(r.hashCashBitsMin, r.argon2MemoryMin, r.argon2IterationsMin, []);
    }
    var hashBits := Pick(seed[0], r.hashCashBitsMin, r.hashCashBitsMax, 256);
    var argon2Mem := Pick(OS2IP(seed[1..5]), r.argon2MemoryMin, r.argon2MemoryMax, UINT32);
    var argon2Iter := Pick(OS2IP(seed[5..9]), r.argon2IterationsMin, r.argon2IterationsMax, UINT32);
    var probeIndices := SelectProbes(seed[9..], r.probePoolSize, r.probeCount);
    return ChallengeParams(hashBits, argon2Mem, argon2Iter, probeIndices);
  }

  lemma {:induction false} DrawnStops(seed: Bytes, i: nat, poolSize: nat, count: nat)
    requires poolSize > 0 && i <= |seed| && (i == |seed| || |Drawn(seed[..i], poolSize, count)| >= count)
    ensures Drawn(seed, poolSize, count) == Drawn(seed[..i], poolSize, count)
    decreases |seed|
  {
    if i < |seed| {
      var front := seed[..|seed| - 1];
      assert front[..i] == seed[..i];
      DrawnStops(front, i, poolSize, count);
    } else {
      assert seed[..i] == seed;
    }
  }

  lemma {:induction false} FilledStops(drawn: seq<nat>, idx: nat, bound: nat, count: nat)
    requires idx <= bound && (idx == bound || |Filled(drawn, idx, count)| >= count)
    ensures Filled(drawn, bound, count) == Filled(drawn, idx, count)
    decreases bound
  {
    if idx == bound {
    } else {
      FilledStops(drawn, idx, bound - 1, count);
    }
  }

  // ----- the ranges of a temperature bucket

  function BucketRanges(bucket: Byte): ParameterRanges {
    if bucket == 0 then ParameterRanges(16, 18, 65536, 98304, 2, 3, 10, 3)
    else if bucket == 1 then ParameterRanges(18, 20, 98304, 131072, 2, 4, 10, 4)
    else if bucket == 2 then ParameterRanges(20, 22, 131072, 196608, 3, 5, 10, 5)
    else ParameterRanges(22, 22, 196608, 262144, 4, 5, 10, 5)
  }

  lemma {:induction false} BucketRangesUsable(bucket: Byte)
    ensures Ordered(BucketRanges(bucket)) && Divisible(BucketRanges(bucket))
  {
    var r := BucketRanges(bucket);
    var bits, memory := r.hashCashBitsMax - r.hashCashBitsMin + 1, r.argon2MemoryMax - r.argon2MemoryMin + 1;
    var iterations := r.argon2IterationsMax - r.argon2IterationsMin + 1;
    ModUnique(bits, 256, 0, bits);
    ModUnique(memory, UINT32, 0, memory);
    ModUnique(iterations, UINT32, 0, iterations);
  }

  /** A hotter bucket never gets an easier challenge, whatever the two seeds are: no fewer
      HashCash bits, no less Argon2 memory, no fewer probes. */
  lemma {:induction false} HotterIsHarder(cold: Byte, hot: Byte, s1: Bytes, s2: Bytes)
    requires cold <= hot && |s1| >= 9 && |s2| >= 9
    ensures Divisible(BucketRanges(cold)) && Divisible(BucketRanges(hot))
    ensures var p, q := DeriveParams(s1, BucketRanges(cold)), DeriveParams(s2, BucketRanges(hot));
      && (cold < hot ==> p.hashCashBits <= q.hashCashBits)
      && (cold < hot <= 3 ==> p.argon2Memory <= q.argon2Memory)
      && |p.probeIndices| <= |q.probeIndices|
  {
    BucketRangesUsable(cold);
    BucketRangesUsable(hot);
    ParamsInRange(s1, BucketRanges(cold));
    ParamsInRange(s2, BucketRanges(hot));
    SelectionShape(s1[9..], 10, BucketRanges(cold).probeCount);
    SelectionShape(s2[9..], 10, BucketRanges(hot).probeCount);
  }

  /** Iterations are not monotone: the ranges of different buckets overlap, and a seed whose
      iteration field is 1 gets more in bucket 0 than a seed with 0 gets in bucket 1. */
  lemma {:induction false} IterationsOverlap(s1: Bytes, s2: Bytes)
    requires |s1| >= 9 && s1[5..9] == [0, 0, 0, 1]
    requires |s2| >= 9 && s2[5..9] == [0, 0, 0, 0]
    ensures Divisible(BucketRanges(0)) && Divisible(BucketRanges(1))
    ensures DeriveParams(s1, BucketRanges(0)).argon2Iterations > DeriveParams(s2, BucketRanges(1)).argon2Iterations
  {
    BucketRangesUsable(0);
    BucketRangesUsable(1);
    IterationsOf(s1, BucketRanges(0), 1);
    IterationsOf(s2, BucketRanges(1), 0);
    PickReaches(3, 2, 3, UINT32);
    PickReaches(2, 2, 4, UINT32);
  }

  lemma {:induction false} IterationsOf(seed: Bytes, r: ParameterRanges, d: Byte)
    requires |seed| >= 9 && seed[5..9] == [0, 0, 0, d] && Divisible(r)
    ensures DeriveParams(seed, r).argon2Iterations == Pick(d, r.argon2IterationsMin, r.argon2IterationsMax, UINT32)
  {
    LastByteValue(seed[5..9], d);
  }

  lemma {:induction false} LastByteValue(b: Bytes, d: Byte)
    requires b == [0, 0, 0, d]
    ensures OS2IP(b) == d
  {
    assert b[..3] == [0, 0, 0] && [0, 0, 0][..2] == [0, 0] && [0, 0][..1] == [0];
    assert OS2IP([0]) == 0 by { assert [0][..0] == []; }
  }
}
