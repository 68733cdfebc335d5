/** The SHA-256 partial preimage puzzle: counting leading zero bits, checking a solution on
    the server and searching for one in the browser. */
module HashCash {
  import opened Wrappers
  import opened Arithmetic
  import opened Bits
  import opened Bytes
  import opened HashSuite

  const UINT64: nat := 0x1_0000_0000_0000_0000

  /** difficultyBits is a uint8. */
  datatype HashCashChallenge = HashCashChallenge(nonce: Bytes, difficultyBits: Byte)

  /** A hexadecimal string in a request: empty, not hexadecimal, or the bytes it stands for. */
  datatype HexField = Absent | Malformed | Decoded(bytes: Bytes)

  datatype HashCashError = ErrHashCashFailed

  /** The number of zero bits before the first one bit. */
  function LeadingZeros(b: Bytes): (n: nat)
    ensures n <= 8 * |b|
  {
    if b == [] then 0
    else if b[0] == 0 then 8 + LeadingZeros(b[1..])
    else
      ByteBitLen(b[0]);
      8 - BitLen(b[0])
  }

  lemma {:induction false} ByteBitLen(a: Byte)
    ensures BitLen(a) <= 8
  {
    ByteWidth();
    BitLenBounds(a);
    if a > 0 { PowStrict(2, BitLen(a) - 1, 8); }
  }

  /** The bits after the leading zeros are the bits of the big-endian value. */
  lemma {:induction false} LeadingZerosAreBitLen(b: Bytes)
    ensures LeadingZeros(b) + BitLen(OS2IP(b)) == 8 * |b|
  {
    if b == [] {
    } else {
      if b[0] == 0 {
        ZeroHead(b);
        LeadingZerosAreBitLen(b[1..]);
      } else {
        NonzeroHead(b);
      }
    }
  }

  lemma {:induction false} ZeroHead(b: Bytes)
    requires b != [] && b[0] == 0
    ensures OS2IP(b) == OS2IP(b[1..])
  {
    OS2IPHead(b);
  }

  lemma {:induction false} NonzeroHead(b: Bytes)
    requires b != [] && b[0] > 0
    ensures BitLen(OS2IP(b)) == BitLen(b[0]) + 8 * (|b| - 1)
  {
    OS2IPHead(b);
    OS2IPBound(b[1..]);
    BitLenShift(b[0], |b| - 1, OS2IP(b[1..]));
  }

  lemma {:induction false} BitLenShift(h: nat, m: nat, low: nat)
    requires h > 0 && low < Pow(256, m)
    ensures BitLen(h * Pow(256, m) + low) == BitLen(h) + 8 * m
  {
    var w, k := Pow(256, m), BitLen(h);
    BitLenBounds(h);
    Pow256(m);
    PowAdd(2, k - 1, 8 * m);
    PowAdd(2, k, 8 * m);
    ScaledBetween(h, low, w, Pow(2, k - 1), Pow(2, k));
    BitLenUnique(h * w + low, k + 8 * m);
  }

  lemma {:induction false} ScaledBetween(h: nat, low: nat, w: nat, lo: nat, hi: nat)
    requires lo <= h < hi && low < w
    ensures lo * w <= h * w + low < hi * w
  {
    assert lo * w <= h * w;
    assert (h + 1) * w <= hi * w;
  }

  /** At least k leading zero bits is the same as a value below 2^(8*len - k). */
  lemma {:induction false} LeadingZerosBound(b: Bytes, k: nat)
    requires k <= 8 * |b|
    ensures LeadingZeros(b) >= k <==> OS2IP(b) < Pow(2, 8 * |b| - k)
  {
    var n := OS2IP(b);
    LeadingZerosAreBitLen(b);
    BitLenBounds(n);
    PowPositive(2, 8 * |b| - k);
    if BitLen(n) <= 8 * |b| - k {
      PowMonotone(2, BitLen(n), 8 * |b| - k);
    } else {
      PowMonotone(2, 8 * |b| - k, BitLen(n) - 1);
    }
  }

  /** countLeadingZeroBits: whole zero bytes, then one mask at a time. */
  method CountLeadingZeroBits(b: Bytes) returns (count: nat)
    ensures count == LeadingZeros(b)
  {
    count := 0;
    assert b[0..] == b;
    for i := 0 to |b|
      invariant count + LeadingZeros(b[i..]) == LeadingZeros(b)
    {
      assert b[i..][1..] == b[i + 1..];
      if b[i] == 0 {
        count := count + 8;
      } else {
        var inByte := CountInByte(b[i]);
        return count + inByte;
      }
    }
  }

  /** The inner loop: the mask moves right until it meets a one bit. */
  method CountInByte(x: Byte) returns (count: nat)
    requires x != 0
    ensures count + BitLen(x) == 8
  {
    ByteWidth();
    count := 0;
    var mask := 0x80;
    assert Pow(2, 7) == 0x80;
    while mask != 0
      invariant count <= 7 && mask == Pow(2, 7 - count) && mask > 0 && x < Pow(2, 8 - count)
    {
      AndTopBit(x, 7 - count);
      if BitAnd(x, mask) != 0 {
        BitLenUnique(x, 8 - count);
        return;
      }
      assert count < 7 by { assert Pow(2, 0) == 1; }
      PowPositive(2, 6 - count);
      mask := mask / 2;
      count := count + 1;
    }
    assert false;
  }

  /** checkHashCash. */
  predicate CheckHashCash(suite: Suite, nonce: Bytes, counter: nat, bits: nat) {
    LeadingZeros(suite.sha256(nonce + I2OSP(counter, 8))) >= bits
  }

  /** VerifyHashCash: the solution is eight bytes, read as a big-endian uint64. */
  function VerifyHashCash(suite: Suite, ch: HashCashChallenge, solution: HexField): Result<(), HashCashError> {
    if !solution.Decoded? || |solution.bytes| != 8 then Err(ErrHashCashFailed)
    else if !CheckHashCash(suite, ch.nonce, OS2IP(solution.bytes), ch.difficultyBits) then Err(ErrHashCashFailed)
    else Ok(())
  }

  /** A solution is accepted exactly if it is eight bytes whose digest, as an integer, is
      below 2^(256 - difficulty). */
  lemma {:induction false} SolutionMeaning(suite: Suite, ch: HashCashChallenge, solution: HexField)
    ensures VerifyHashCash(suite, ch, solution).Ok? <==>
      solution.Decoded? && |solution.bytes| == 8
      && OS2IP(suite.sha256(ch.nonce + solution.bytes)) < Pow(2, 256 - ch.difficultyBits)
  {
    if solution.Decoded? && |solution.bytes| == 8 {
      EncodeDecode(solution.bytes);
      LeadingZerosBound(suite.sha256(ch.nonce + solution.bytes), ch.difficultyBits);
    }
  }

  /** One round of the widget's search; only the low 64 bits of its counter are hashed. */
  predicate RoundSucceeds(suite: Suite, ch: HashCashChallenge, counter: nat) {
    CheckHashCash(suite, ch.nonce, counter % UINT64, ch.difficultyBits)
  }

  /** The widget's search from zero finds the least counter that the server accepts. The
      browser never leaves the loop if there is none. */
  method SolveHashCash(suite: Suite, ch: HashCashChallenge) returns (solution: Bytes)
    requires exists c: nat :: RoundSucceeds(suite, ch, c)
    ensures VerifyHashCash(suite, ch, Decoded(solution)).Ok?
    ensures forall c: nat :: c < OS2IP(solution) ==> !CheckHashCash(suite, ch.nonce, c, ch.difficultyBits)
  {
    ghost var goal: nat :| RoundSucceeds(suite, ch, goal);
    var counter: nat := 0;
    while true
      invariant counter <= goal
      invariant forall c: nat :: c < counter ==> !RoundSucceeds(suite, ch, c)
      decreases goal - counter
    {
      var data := ch.nonce + I2OSP(counter % UINT64, 8);
      var digest := suite.sha256(data);
      var zeros := CountLeadingZeroBits(digest);
      if zeros >= ch.difficultyBits {
        LeastIsAccepted(suite, ch, counter);
        SmallCounter(counter);
        CounterRoundTrip(counter);
        return I2OSP(counter % UINT64, 8);
      }
      counter := counter + 1;
    }
  }

  lemma {:induction false} LeastIsAccepted(suite: Suite, ch: HashCashChallenge, counter: nat)
    requires RoundSucceeds(suite, ch, counter)
    requires forall c: nat :: c < counter ==> !RoundSucceeds(suite, ch, c)
    ensures counter < UINT64 && CheckHashCash(suite, ch.nonce, counter, ch.difficultyBits)
    ensures forall c: nat :: c < counter ==> !CheckHashCash(suite, ch.nonce, c, ch.difficultyBits)
  {
    var low := counter % UINT64;
    SucceedsLow(suite, ch, low);
    assert counter <= low;
    SucceedsLow(suite, ch, counter);
    forall c: nat | c < counter
      ensures !CheckHashCash(suite, ch.nonce, c, ch.difficultyBits)
    {
      SucceedsLow(suite, ch, c);
    }
  }

  /** Below 2^64 a round of the search is the server's check. */
  lemma {:induction false} SucceedsLow(suite: Suite, ch: HashCashChallenge, c: nat)
    requires c < UINT64
    ensures RoundSucceeds(suite, ch, c) <==> CheckHashCash(suite, ch.nonce, c, ch.difficultyBits)
  {
    SmallCounter(c);
  }

  /** The search ends exactly if some 64-bit counter is a solution: beyond 2^64 the hashed
      bytes repeat. */
  lemma {:induction false} SearchEnds(suite: Suite, ch: HashCashChallenge)
    ensures (exists c: nat :: RoundSucceeds(suite, ch, c)) <==>
      exists c: nat :: c < UINT64 && CheckHashCash(suite, ch.nonce, c, ch.difficultyBits)
  {
    if c: nat :| RoundSucceeds(suite, ch, c) {
      assert CheckHashCash(suite, ch.nonce, c % UINT64, ch.difficultyBits);
    } else if c: nat :| c < UINT64 && CheckHashCash(suite, ch.nonce, c, ch.difficultyBits) {
      SucceedsLow(suite, ch, c);
    }
  }

  lemma {:induction false} SmallCounter(c: nat)
    requires c < UINT64
    ensures c % UINT64 == c
  {
    ModUnique(c, UINT64, 0, c);
  }

  lemma {:induction false} CounterRoundTrip(c: nat)
    requires c < UINT64
    ensures OS2IP(I2OSP(c, 8)) == c
  {
    CounterFits(c);
    DecodeEncode(c, 8);
  }

  lemma {:induction false} CounterFits(c: nat)
    requires c < UINT64
    ensures c < Pow(256, 8)
  {
    Pow256(4);
    assert Pow(256, 4) == 0x1_0000_0000 by {
      assert Pow(256, 2) == 65536;
      PowAdd(256, 2, 2);
    }
    PowAdd(256, 4, 4);
  }
}
