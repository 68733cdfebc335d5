# A verified model of the Sovereign Trust token system

The repository issues anonymous trust tokens. A browser widget asks the server for a challenge,
solves it, and has the server sign a nonce that it cannot see, together with seven bytes of public
metadata that it can. A relying party later redeems the unblinded token. This project models the
three parts that make up that system and proves what they promise each other.

**The partially blind RSA scheme** (`Pss`, `PssLayout`, `Rsapbssa`, `RsapbssaTheorems`, `Binding`,
`Unlinkability`, `KeySizes`, and the client twin `Widget` with `WidgetSizes`). From extended
Euclid, Fermat's little theorem and the Chinese remainder argument up: signing never fails, an
honest run always ends in a valid signature that does not depend on the blinding factor, Verify
accepts exactly the signatures that the derived private key makes, PSS verification is the exact
inverse of PSS encoding, and blinding hides the message perfectly: under the same metadata every
signature fits every signing session, if both are invertible modulo N, in exactly one way. A
signature names its message: one signature for two messages under the same metadata is a SHA-384
collision, written out as an equation between the digests of two different strings; for different
metadata, whose exponents differ, that equation holds exactly where the two hash fields agree. The
widget's square-and-multiply and Euclid loops, its byte conversions, its HKDF loop, its encoding
and its blinding are compared with the server's, with the exact conditions under which they agree.

**The temperature store** (`Temperature`). A pruned, truncated, windowed index answers every query
as the complete event log would, and reports of abuse never lower a score at once.

**The token server** (`HashCash`, `Params`, `Composite`, `Metadata`, `Server`, `ServerRuns`,
`ServerTheorems`, `ServerLog`, `Outcomes`). Handlers and sweeps are steps on two tables and the
temperature store. Over all runs: every blind signature was paid for with work of the difficulty
of the bucket in its metadata, that bucket is the one that counting over the requests and
responses of the run gives, every response is characterised exactly, a nonce is redeemed at most
once in its window, a challenge is answered at most once and stays answerable until it expires, an
honest run is always accepted, and no history can bring the server into a state in which one is
not possible.

## How the model is built

- Code that works on buffers, maps and counters step by step is written as methods and two
  classes (`Temperature.Store`, `Server.TokenServer`), each tied to a specification function; the
  theorems are about those functions. `Server.TokenServer`'s handlers follow the order of the
  checks, stores and deletes in the source.
- A run (`ServerRuns.Run`) is a sequence of steps with the responses and states that they lead
  to; every sequence of steps has exactly one run (`RunOf`, `RunUnique`).
- Handlers are serialised: one request, one sweep or one cleanup is one step. In the source the
  lookup and the deletion of a challenge (cmd/server/main.go:188-194), and the lookup and the
  storing of a nonce (cmd/server/main.go:279-296), are separate `sync.Map` calls, so two requests
  that overlap there are outside the run properties.
- Every clock reading of a handler is its own input, in nanoseconds. Run properties that need a
  clock that never goes back say so (`ServerTheorems.ClockForward`).
- SHA-256, SHA-384, HMAC and Argon2id are unknown functions of which only the output length is
  known. Salts, blinding factors, nonces and challenge IDs are inputs; primes are assumed prime,
  and IDs are assumed fresh only where `FreshIDs` is required.
- Fixed-width arithmetic (uint8, uint32 and uint64 wrap-around, byte masks, truncating division)
  is written out. Bytes are numbers below 256 with bitwise operations on their binary digits.

## Where the code falls short of its promises

Each of these is proved, with the exact condition:

- `Verify` rejects everything, its own signatures included, exactly when the size of the modulus
  in bits is one above a multiple of 8: `Finalize` and `Verify` use a buffer of the length of the
  modulus, `pssVerify` wants one byte less (`UnverifiableSize`, `EndToEnd`, `HonestRun`).
- For keys of the shape `GenerateKey` returns, derivation succeeds with every hash function
  exactly when half the size in bits is at most 4 above a multiple of 8 (so for all multiples of
  16) and HKDF can stretch far enough. In every other size each such key has hash functions that
  derive half a prime as its exponent (`DerivationTotalExactly`, `DerivationCanFail`).
- Widget and server encode alike, blind alike and complete an exchange, on all inputs, exactly
  for moduli that fill their bytes and have at least 98 of them, or are too short for both (blinding
  and the exchange are for odd moduli and also need HKDF to stretch far enough). At 97
  bytes the widget silently writes no separator where the server reports an error; where bits of
  the top byte are free, all-ones digests set them apart (`EncodesAlikeExactly`,
  `BlindsAlikeExactly`, `AlwaysVerifiesExactly`). A single exchange verifies exactly if the
  widget's encoding has no more bits than the server's may have (`WidgetSizes.WidgetEndToEnd`).
- `buildMsgPrime` determines the message and the metadata exactly as long as the metadata is
  shorter than 4 GiB, where its 32-bit length wraps (`MsgPrimeInjective`, `MsgPrimeCollides`); the
  seven bytes of the server are far below that.
- The widget's `modPow` is wrong for modulus 1 and exponent 0 only (`ModPow`).
- The timestamp reported at redemption is the hour of issue exactly for Unix times from 0 up to
  the hour in which `TimeBucket*3600` overflows 32 bits (`TimestampExact`).

Where code and comments disagree, the model follows the code:

- The comment on the burn signal (internal/temperature/store.go:91) says that burns decay; every
  burn counts for ever (`Temperature.BurnsRefine`).
- The comments on `ChallengeClass` (pkg/api/types.go:16-20) describe what a client has done; the
  server writes class 2 when it issues the challenge, and signs it for a client that sends neither
  an Argon2 result nor probes (`ServerTheorems.AlwaysSigned`).

## Model

| member | source | states |
|---|---|---|
| RsapbssaTheorems.EndToEnd | internal/rsapbssa/rsapbssa.go:231-334 | For a safe key and any message, metadata, salt and factor for which Blind succeeds, BlindSign succeeds, unblinding gives OS2IP(em)^d' mod N whatever r was, and Finalize accepts it unless the modulus size is 1 modulo 8 bits |
| RsapbssaTheorems.BlindExact | internal/rsapbssa/rsapbssa.go:231-278 | Blind succeeds exactly if the salt fits the encoding, r is invertible modulo N and HKDF can stretch far enough |
| RsapbssaTheorems.BlindSignExact | internal/rsapbssa/rsapbssa.go:282-308 | Signing returns m^d' mod N for every m below N, coprime to N or not; the signing-failure branch is unreachable |
| RsapbssaTheorems.RsaPermutation | internal/rsapbssa/rsapbssa.go:295-302 | Raising to d' and to e' undo each other on all of [0, N) |
| RsapbssaTheorems.VerifyExact | internal/rsapbssa/rsapbssa.go:338-367 | Verify accepts sig iff it is the modulus-length encoding of OS2IP(pssEncode(msg', salt))^d' mod N for some 48-byte salt |
| Binding.MsgPrimeLayout | internal/rsapbssa/rsapbssa.go:505-517 | msg' has 7+|info|+|msg| bytes: 0x6d 0x73 0x67, four bytes whose value is |info|, info, and then msg |
| Binding.MsgPrimeInjective | internal/rsapbssa/rsapbssa.go:505-517 | Up to 4 GiB of metadata, msg' determines message and metadata |
| Binding.MsgPrimeCollides | internal/rsapbssa/rsapbssa.go:507-509 | Longer metadata is always taken for shorter metadata and a longer message, because the length is cut to 32 bits |
| Binding.SignatureNamesMessage | internal/rsapbssa/rsapbssa.go:338-367 | Behind an accepted signature, the hash field of sig^e' mod N is the digest of eight zero bytes, the digest of the framed metadata and message written out byte by byte, and some 48-byte salt |
| Binding.SignatureBinding | internal/rsapbssa/rsapbssa.go:338-367 | If one signature is accepted for two messages or two metadata strings, the two framings differ and, exactly if the hash fields under the two exponents agree, as they do for equal metadata, their salted digests are equal |
| Binding.DifferentFieldsCollideNot | internal/rsapbssa/rsapbssa.go:338-472 | Nothing more can be forced: whenever the hash fields differ, some hash functions accept both with different digests |
| Outcomes.OneSignatureTwoTokens | cmd/server/main.go:263-294 | Two different tokens with the same 256 bytes of signature are both redeemed only if the salted digests of 0x6d 0x73 0x67 0 0 0 7, metadata and nonce of the one and of the other, which differ, are equal; for different metadata exactly if their hash fields agree |
| RsapbssaTheorems.UnverifiableSize | internal/rsapbssa/rsapbssa.go:338-367 | For a modulus whose bit length is 1 modulo 8, Verify rejects every signature |
| RsapbssaTheorems.SizesAgree | internal/rsapbssa/rsapbssa.go:360-366 | The buffer Verify fills has the length pssVerify wants iff the bit length is not 1 modulo 8 |
| RsapbssaTheorems.DeriveKeyPairTotal | internal/rsapbssa/rsapbssa.go:210-221 | For a safe key every derived exponent is invertible modulo Phi; derivation fails only at the HKDF limit |
| RsapbssaTheorems.ExponentShape | internal/rsapbssa/rsapbssa.go:177-206 | e' is odd and below 2^(8*lambdaLen-2), for every metadata string |
| Binding.ExponentIs | internal/rsapbssa/rsapbssa.go:177-206 | e' is the RFC 5869 output for the input 0x6b 0x65 0x79, info, 0, the salt I2OSP(n) and the label "PBRSA", byte by byte, as a number with its two top bits cleared and its lowest set |
| Binding.AnyTwoExponents | internal/rsapbssa/rsapbssa.go:177-206 | For any two different metadata strings and any two odd numbers below the bound, some hash functions derive the one for the one and the other for the other |
| KeySizes.AnyOddExponent | internal/rsapbssa/rsapbssa.go:177-206 | Every odd number below 2^(8*lambdaLen-2) is the derived exponent for some hash functions, whatever the metadata: the shape cannot be narrowed |
| KeySizes.DerivationTotalExactly | internal/rsapbssa/rsapbssa.go:96-221 | For every key of generated shape, derivation succeeds for all hash functions iff (bits/2) mod 8 is at most 4, as for all multiples of 16, and lambdaLen + 16 is within the HKDF limit |
| KeySizes.DerivationCanFail | internal/rsapbssa/rsapbssa.go:96-221 | In every other size, for every such key and every metadata string, hash functions with which DeriveKeyPair fails because e' divides Phi |
| KeySizes.ExposedKeysExist | internal/rsapbssa/rsapbssa.go:96-145 | Such keys exist: a concrete 26-bit one whose prime halves have the two top bits set that rand.Prime sets |
| RsapbssaTheorems.SafeKeysExist | internal/rsapbssa/rsapbssa.go:96-130 | SafeKey and the shape of generated keys can be met together: a concrete 18-bit key, which is too short for a salt (RoomForSalt) and for the 256-byte tokens of the server |
| RsapbssaTheorems.UnblindAlgebra | internal/rsapbssa/rsapbssa.go:312-334 | (m*r^e')^d' * r^-1 = m^d' modulo N |
| RsapbssaTheorems.FinalizeExact | internal/rsapbssa/rsapbssa.go:312-334 | Finalize returns the encoding of the one s below N with r*s = blindSig modulo N iff that verifies; otherwise which error |
| RsapbssaTheorems.BlindingExists | internal/rsapbssa/rsapbssa.go:258-277 | For every m and z coprime to N some r in [1, N), coprime to N, blinds m to z |
| RsapbssaTheorems.BlindingUnique | internal/rsapbssa/rsapbssa.go:258-277 | Only one r below N does |
| Unlinkability.LinkExists | internal/rsapbssa/rsapbssa.go:231-334 | For a safe key, any signature that Verify accepts and any blinded message, both invertible modulo N, some salt and r in [1, N) make Blind send that message and unblinding of BlindSign's answer give that signature |
| Unlinkability.LinkUnique | internal/rsapbssa/rsapbssa.go:231-334 | No other salt and r do: every signature fits every signing session under the same metadata in exactly one way |
| Rsapbssa.DerivePublicExponent | internal/rsapbssa/rsapbssa.go:177-206 | Derivation succeeds iff lambdaLen + 16 bytes are within what HKDF-SHA384 can output |
| Rsapbssa.DerivePublicKey | internal/rsapbssa/rsapbssa.go:177-206 | The code that fills, masks and clamps its buffer in place computes the specified exponent |
| NumberTheory.Fermat | internal/rsapbssa/rsapbssa.go:282-308 | a^p = a modulo every prime p, the fact behind signing |
| NumberTheory.RsaIdentity | internal/rsapbssa/rsapbssa.go:282-308 | m^(e*d) = m modulo p*q for distinct primes and e*d = 1 modulo (p-1)(q-1) |
| NumberTheory.ModInverseSpec | internal/rsapbssa/rsapbssa.go:210-221 | An inverse is returned exactly for numbers coprime to the modulus, reduced, and it is one |
| Pss.PssInverse | internal/rsapbssa/rsapbssa.go:373-472 | pssVerify accepts exactly the encodings of the message with some 48-byte salt, for every emBits |
| PssLayout.EncodingEnds | internal/rsapbssa/rsapbssa.go:373-415 | The last 49 bytes are SHA-384 of eight zero bytes, SHA-384(msg) and the salt, and 0xbc |
| PssLayout.EncodingByte | internal/rsapbssa/rsapbssa.go:373-415 | Every byte before them is the byte of PS, 0x01 and salt XORed with its byte of the counter blocks, the first one reduced to the bits that emBits leaves |
| PssLayout.MessageBinding | internal/rsapbssa/rsapbssa.go:418-472 | em is accepted for m1 and for m2 only if the digests of eight zero bytes, SHA-384 of the message and one 48-byte salt agree, with the hash field and so with each other |
| PssLayout.MessageMatters | internal/rsapbssa/rsapbssa.go:418-472 | For any two messages, any salt and any size some hash functions reject m2 on the encoding of m1 |
| Pss.PssEncode | internal/rsapbssa/rsapbssa.go:373-415 | Encoding succeeds iff emLen is at least 98 and yields emLen bytes |
| Pss.SaltRecovered | internal/rsapbssa/rsapbssa.go:373-415 | Two salts never give the same encoding |
| Pss.EncodingBound | internal/rsapbssa/rsapbssa.go:373-415 | OS2IP(em) is below 2^emBits |
| Pss.EncodeBuffer | internal/rsapbssa/rsapbssa.go:373-415 | The buffer-filling code computes PssEncode |
| Pss.NewDataBlock | internal/rsapbssa/rsapbssa.go:395-399 | The zeroed buffer is filled with PS, 0x01 and the salt |
| Pss.MaskInPlace | internal/rsapbssa/rsapbssa.go:401-406 | XOR and clearing of the top bits in place equal the masking function |
| Pss.VerifyBuffer | internal/rsapbssa/rsapbssa.go:418-472 | The code with its early returns decides PssVerify |
| Pss.HasSeparator | internal/rsapbssa/rsapbssa.go:449-458 | The padding loop accepts iff psLen zero bytes and then 0x01 follow |
| Bytes.HighBitsZero | internal/rsapbssa/rsapbssa.go:437-441 | The high mask of t bits selects nothing iff the byte is below 2^(8-t), iff the low mask keeps it |
| Bytes.MasksAreShifts | internal/rsapbssa/rsapbssa.go:404-441 | The two masks are the shifted bytes that the source writes |
| Bits.Bitwise | internal/rsapbssa/rsapbssa.go:401-441 | AND, OR and XOR work on every bit by itself |
| WidgetSizes.BytesBelow | internal/rsapbssa/rsapbssa.go:178-179 | The length of the modulus is the number of its base-256 digits |
| Bytes.DecodeEncode | internal/rsapbssa/rsapbssa.go:274-277 | Decoding inverts fixed-length encoding exactly on the integers that fit |
| Bytes.EncodeDecode | internal/rsapbssa/rsapbssa.go:352-361 | Fixed-length encoding inverts decoding on every byte string |
| Buffers.Mgf1SHA384 | internal/rsapbssa/rsapbssa.go:483-497 | The expansion loop ends and returns the first bytes of the block concatenation |
| Buffers.XorBytes | internal/rsapbssa/rsapbssa.go:499-503 | In-place XOR of every byte of dst |
| HashSuite.Mgf1IsRfc8017 | internal/rsapbssa/rsapbssa.go:483-497 | Up to 48*2^32 bytes, byte j is byte j mod 48 of SHA-384(seed, j div 48), as RFC 8017 B.2.1 says |
| HashSuite.HkdfIsRfc5869 | widget/widget.js:439-454 | Up to 255*48 bytes, byte j is byte j mod 48 of T(j div 48 + 1), as RFC 5869 section 2.3 says |
| HashSuite.StreamPrefix | widget/widget.js:318-331 | A shorter mask or key is a prefix of a longer one |
| Widget.ModPow | widget/widget.js:50-60 | Square-and-multiply returns base^exp mod modulus, except 1 for modulus 1 and exponent 0 |
| Widget.ModInverse | widget/widget.js:62-73 | Extended Euclid ends, fails iff the gcd is not 1, and otherwise returns the inverse in [0, m) |
| Widget.BigIntToBytesIsI2OSP | widget/widget.js:35-48 | The hex-padding conversion is I2OSP iff the length is positive and the number fits |
| Widget.ExpandLoop | widget/widget.js:439-454 | The loop computes HKDF-Expand for every length |
| Widget.WidgetExponentAgrees | widget/widget.js:406-429 | The widget derives the server's e' |
| Widget.WidgetEncodeBuffer | widget/widget.js:337-359 | The buffer-filling code computes WidgetEncode |
| WidgetSizes.EncodesAlikeExactly | widget/widget.js:337-359 | The encoders, each with its own emBits, agree on all inputs, errors included, iff the modulus fills its bytes and has at least 98 of them, or has fewer than 97 |
| WidgetSizes.EncodingExact | widget/widget.js:354-355 | For one input the encodings are equal iff the widget's is below 2^emBits of the server; otherwise they differ in the first byte only |
| WidgetSizes.ServerVerdict | internal/rsapbssa/rsapbssa.go:352-366 | What pssVerify says of the widget's number modulo an odd N: accepted iff it is below 2^emBits, both below and above N |
| WidgetSizes.BlindsAlikeExactly | widget/widget.js:363-402 | For odd N, rsapbssaBlind and Blind agree on all inputs iff the encoders do and HKDF stretches far enough |
| Widget.WidgetUnblindAgrees | widget/widget.js:457-461 | unblind is the unblinding inside Finalize |
| WidgetSizes.WidgetEndToEnd | widget/widget.js:363-461 | Blinding in the widget, signing and unblinding end in a signature of the right length that the server verifies iff the size is verifiable and the widget's encoding is below 2^emBits |
| WidgetSizes.AlwaysVerifiesExactly | widget/widget.js:363-461 | For safe keys every exchange verifies, whatever the inputs, iff the encoders agree on all inputs and HKDF stretches far enough |
| HashCash.LeadingZerosBound | internal/challenge/hashcash.go:60-76 | At least k leading zero bits iff OS2IP(b) < 2^(8*len-k) |
| HashCash.CountLeadingZeroBits | internal/challenge/hashcash.go:60-76 | The nested loops count the zero bits before the first one bit |
| HashCash.SolutionMeaning | internal/challenge/hashcash.go:30-58 | A solution is accepted iff it is eight bytes whose digest is below 2^(256-difficulty) |
| HashCash.SolveHashCash | widget/widget.js:133-148 | The search returns the least counter that the server accepts, if it ends |
| HashCash.SearchEnds | widget/widget.js:133-148 | It ends iff some 64-bit counter is a solution |
| Params.PickInRange | internal/challenge/params.go:55-62 | min + x % (max-min+1) stays within [min, max] in wrapping arithmetic |
| Params.ParamsInRange | internal/challenge/params.go:46-72 | All derived numbers lie in their ranges, whatever the seed, short seeds included |
| Params.PickExact | internal/challenge/params.go:55-62 | A range that does not wrap is gone through from its minimum, modulo its width |
| Params.BitsByBucket | internal/temperature/scorer.go:6-53 | HashCash bits of the four buckets in numbers: 16, 18 or 20 plus the first seed byte modulo 3, or 22 |
| Params.MemoryByBucket | internal/temperature/scorer.go:6-53 | Argon2 memory of the four buckets in numbers, by seed bytes 1 to 4 |
| Params.IterationsByBucket | internal/temperature/scorer.go:6-53 | Argon2 iterations of the four buckets in numbers, by seed bytes 5 to 8 |
| Params.SelectionShape | internal/challenge/params.go:74-100 | Exactly min(count, poolSize) pairwise different indices of the pool, for any seed |
| Params.SelectionFollowsSeed | internal/challenge/params.go:74-100 | The selection is the values seed[i] % poolSize in order of first occurrence, and then, if all bytes are used up, each time the least unused index |
| Params.SelectProbes | internal/challenge/params.go:74-100 | The two loops over a map and a slice compute that selection |
| Params.Derive | internal/challenge/params.go:46-72 | The derivation with its loops computes DeriveParams |
| Params.HotterIsHarder | internal/temperature/scorer.go:6-53 | A higher bucket never gets fewer HashCash bits, less Argon2 memory or fewer probes, for any two full seeds |
| Params.IterationsOverlap | internal/temperature/scorer.go:6-53 | Two seeds for which the hotter bucket gets fewer Argon2 iterations |
| Params.BucketRangesUsable | internal/temperature/scorer.go:6-53 | No bucket has ranges that are upside down or make the derivation divide by zero |
| Composite.ProbesAsPrescribed | internal/challenge/composite.go:26-31 | Every challenge asks for as many different probes as its bucket prescribes, none dropped |
| Composite.PayloadFields | internal/challenge/composite.go:15-40 | ID, both nonces, bits, memory, iterations and probe names of a payload are those of the parameters, and it expires after 120 s |
| Composite.New | internal/challenge/composite.go:15-40 | The loop that collects probe names builds the specified payload |
| Composite.VerifyMeaning | internal/challenge/composite.go:44-92 | An answer is accepted iff it is in time, for this ID, solves HashCash below the bound, and its Argon2 result is left out or Argon2id of the fixed password, the nonce, the iterations and the memory |
| Composite.VerifyReports | internal/challenge/composite.go:44-92 | An accepted answer reaches class 2 iff it has an Argon2 result for an Argon2 puzzle, and its anomaly is the sum of the scores of the answered probes by their number, 0 for none |
| Composite.VerifyResponse | internal/challenge/composite.go:44-92 | The code with its early returns and probe loop computes Verify |
| Composite.AnomalyBounded | internal/challenge/composite.go:73-89 | The mean of scores in [0, 1] is in [0, 1] |
| Composite.VerifyArgon2 | internal/challenge/argon2.go:31-63 | The comparison without early exit accepts iff length and bytes are right |
| Metadata.MetadataRoundTrip | pkg/api/types.go:45-72 | Decoding inverts encoding on every metadata value |
| Metadata.MetadataCanonical | pkg/api/types.go:59-72 | Encoding inverts decoding: no two byte strings mean the same metadata |
| Metadata.EncodedLayout | pkg/api/types.go:45-56 | Class, bucket and device in bytes 0 to 2, and the time bucket as the big-endian value of bytes 3 to 6 |
| Metadata.BucketIsHour | pkg/api/types.go:74-77 | The time bucket numbers the hours since 1970 |
| Metadata.EncodeBuffer | pkg/api/types.go:45-56 | Writing the buffer by index computes Encode |
| Metadata.TimestampExact | cmd/server/main.go:298-303 | The reported timestamp T satisfies T <= t < T+3600 iff t lies between 1970 and the overflow of the uint32 product |
| Temperature.StoreRefinesLog | internal/temperature/store.go:52-110 | After any interleaving of records, burns and cleanups with a non-decreasing clock, Score equals the score of the complete log |
| Temperature.ScoreFromLog | internal/temperature/store.go:79-110 | The score of a log in numbers: how many entries of the log count, what each is worth, where each signal saturates, and its weight |
| Temperature.CountPruned | internal/temperature/store.go:180-211 | Pruning at an earlier cutoff does not change a count at a later one |
| Temperature.BurnsRefine | internal/temperature/store.go:71-92 | The burn signal counts every burn that was ever recorded for the site key |
| Temperature.AbuseMonotone | internal/temperature/store.go:52-110 | A burn, or a request with no or a failing verdict, never lowers any address's score or bucket |
| Temperature.FailureNeverHelps | internal/temperature/store.go:60-68 | A failed probe never lowers the failure share, even when it drops the oldest of 20 verdicts |
| Temperature.RunBounded | internal/temperature/store.go:60-68 | No verdict list ever exceeds 20 entries |
| Temperature.ScoreWeights | internal/temperature/store.go:99-110 | The score is a percentage, and each signal alone reaches its documented weight exactly at its documented saturation point |
| Temperature.CompactInPlace | internal/temperature/store.go:186-191 | Appending to times[:0] while reading times leaves exactly the times after the cutoff, in order |
| Temperature.Store.Record | internal/temperature/store.go:52-69 | The three tables after a request; nothing else changes |
| Temperature.Store.RecordTokenBurn | internal/temperature/store.go:72-76 | One burn more for the site key; nothing else changes |
| Temperature.Store.ComputeScore | internal/temperature/store.go:79-110 | The counting loops compute score and bucket |
| Temperature.Store.CountLoop | internal/temperature/store.go:126-134 | The number of times after the cutoff |
| Temperature.Store.FailRate | internal/temperature/store.go:136-147 | The share of failed verdicts as a quotient, 0 for an empty history |
| Temperature.FailPercentIsFloor | internal/temperature/store.go:94-103 | The quotient times 100 without its fraction is the rounded-down percentage |
| Temperature.Store.Cleanup | internal/temperature/store.go:180-211 | Both time tables are pruned; burns and verdicts are kept |
| Temperature.Store.Prune | internal/temperature/store.go:185-210 | Every list is compacted and empty ones deleted, in whatever order the keys are visited |
| Server.TokenServer.constructor | cmd/server/main.go:75-83 | A new server has the configured keys, a fresh store and empty tables |
| Server.TokenServer.HandleChallenge | cmd/server/main.go:107-174 | Response and whole new state are those of the challenge step |
| Server.TokenServer.NewChallenge | cmd/server/main.go:123-140 | From the bucket to the payload |
| Server.TokenServer.HandleVerify | cmd/server/main.go:176-243 | Response and whole new state are those of the verification step, on every early return |
| Server.TokenServer.CheckToken | cmd/server/main.go:263-294 | The checks of a token in their order, with the error of each |
| Server.TokenServer.HandleSiteverify | cmd/server/main.go:245-306 | Response and whole new state are those of the redemption step |
| Server.TokenServer.SweepTables | cmd/server/main.go:85-103 | A sweep keeps exactly the challenges and nonces that have not expired |
| Server.TokenServer.SweepTokens | cmd/server/main.go:96-101 | The loop over the nonces alone |
| Server.TokenServer.CleanupStore | internal/temperature/store.go:167-178 | A tick of the store's cleanup is the cleanup step: the tables of the server stay as they are |
| ServerRuns.RunOf | cmd/server/main.go:67-73 | Every sequence of steps has a run |
| ServerRuns.RunUnique | cmd/server/main.go:67-73 | Responses and states of a run are determined by its steps |
| ServerRuns.StillRemembered | cmd/server/main.go:274-296 | A redeemed nonce stays in the table until a sweep more than 300 s later |
| ServerRuns.ReplayWindow | cmd/server/main.go:85-103 | Two redemptions of a nonce are separated by a sweep whose time is strictly more than 300 s after the first |
| ServerTheorems.ReplayIsRefused | cmd/server/main.go:278-282 | Within 300 s of a redemption every other token with that nonce is refused as a duplicate |
| ServerRuns.EntryOrigin | cmd/server/main.go:150-154 | Every open challenge is what an earlier request issued under that ID |
| ServerRuns.SingleAttempt | cmd/server/main.go:188-194 | With fresh IDs a challenge that was answered once, well or badly, is not found again |
| ServerRuns.SingleSignature | cmd/server/main.go:188-230 | With fresh IDs two blind signatures belong to different challenges |
| ServerRuns.AttemptsArePaid | cmd/server/main.go:150-194 | Open challenges and attempts together never outnumber the challenges issued, even if IDs collide |
| Outcomes.OpenExactly | cmd/server/main.go:85-194 | A challenge is open iff it was issued and since then neither answered, nor issued anew, nor swept more than 120 s after it was stored |
| Outcomes.RememberedExactly | cmd/server/main.go:85-296 | A nonce is remembered iff it was redeemed and no sweep came more than 300 s later |
| Outcomes.ChallengeOutcome | cmd/server/main.go:107-174 | A challenge request fails iff it has no site key; otherwise key, metadata bytes, payload and the one new table entry are as stated |
| Outcomes.AnswerOutcome | cmd/server/main.go:176-243 | What every answer gets: not found iff no challenge is open, else the first fault against the challenge that was issued, then the blinded message, then the signature m^d' mod N over the bound metadata; an ID mismatch never happens |
| Outcomes.RedemptionErrors | cmd/server/main.go:245-306 | Each of the three errors of a redemption, and its success, has exactly the stated reasons, over the redemptions and sweeps of the run |
| ServerTheorems.PaidWork | cmd/server/main.go:188-230 | Behind every blind signature is an earlier request that bound its metadata, and a HashCash solution of at least 16, 18, 20 or 22 bits for bucket 0, 1, 2 or 3 in that metadata, within 120 s |
| ServerTheorems.PaidInNumbers | cmd/server/main.go:188-230 | Behind every blind signature over metadata with bucket b is a digest below 2^240, 2^238, 2^236 or 2^234 for b = 0, 1, 2 or 3 |
| ServerTheorems.IssuedPuzzles | cmd/server/main.go:125-140 | ID, expiry, nonces, HashCash bits, Argon2 memory and iterations of an issued challenge, in numbers, by its bucket and the first nine bytes of HMAC-SHA256 over nonce, time and address |
| ServerTheorems.IssuedProbes | cmd/server/main.go:125-140 | Its 3, 4 or 5 different probes: the names at the indices that the other 23 bytes draw modulo 10, in order of first occurrence, and then the least unused ones |
| ServerTheorems.BucketFromHistory | cmd/server/main.go:119-123 | The bucket bound into a challenge is 0 up to a score of 20, 1 up to 50, 2 up to 80 and 3 above, for the score of the complete history of all steps |
| ServerTheorems.TemperatureIsHistory | cmd/server/main.go:120-236 | In every run the temperature store is what the records, burns and cleanups of its steps make it |
| ServerLog.VerdictsGrow | cmd/server/main.go:212-220 | A step adds to the verdicts on an address exactly one for an accepted answer from it, true iff the mean score of the answered probes of the open challenge is below one half, and none otherwise |
| ServerLog.CountsGrow | cmd/server/main.go:119-236 | A step adds one burn to a key iff it is signed at its charge, the test key standing for an empty one, and one request to an address and a subnet iff a challenge was issued or an answer accepted; no other key, address or subnet changes |
| ServerLog.AcceptedIsChecked | cmd/server/main.go:188-230 | Which responses show that an answer has passed the checks of an open challenge |
| ServerLog.BucketFromRun | cmd/server/main.go:119-123 | The bucket bound into a challenge, counted over requests and responses of the run alone: contacts of the address and the subnet in the last 60 s, signatures for the key, the last 20 verdicts, and reputation, with weights, caps and bounds as numbers |
| ServerTheorems.EntryOutlivesChallenge | cmd/server/main.go:136-154 | A table entry expires no earlier than its challenge |
| ServerTheorems.SweepSparesTheLiving | cmd/server/main.go:90-95 | A sweep removes an entry iff it is past its expiry, and then every later answer would have been too late |
| ServerTheorems.HonestIsSigned | cmd/server/main.go:176-243 | A correct answer in time to an untouched challenge is signed over the metadata bound at issuance |
| ServerTheorems.HonestIsRedeemed | cmd/server/main.go:245-306 | The unblinded token of a signed answer is redeemed at any later time while its nonce is not remembered |
| ServerTheorems.HonestRun | cmd/server/main.go:107-306 | From any reachable state an honest run ends in a redemption with class 2, the bucket scored at issuance and the hour of issue; with a 2041-bit modulus it ends in a rejection |
| ServerTheorems.AlwaysSigned | cmd/server/main.go:107-243 | Any run can go on with two requests by which an honest client with a HashCash solution gets a blind signature |
| ServerTheorems.AlwaysRedeemable | cmd/server/main.go:107-306 | And with a third one that redeems the token with class 2, the bucket scored and the hour, unless the nonce is still remembered |
| ServerTheorems.RedemptionExact | cmd/server/main.go:263-294 | A token is redeemed iff secret and length are right, its nonce is not remembered, and it is the signature that the derived key makes of nonce and metadata |
| ServerTheorems.ReportIsFaithful | cmd/server/main.go:284-303 | What is reported about a token is what its metadata bytes encode |
| ServerTheorems.TokenParts | widget/widget.js:464-466 | The server takes a token apart where the widget put it together |
| ServerTheorems.WidgetIsHonest | widget/widget.js:363-466 | With a 2048-bit modulus the widget blinds and builds its token as the honest client does |

## Left out

- HTTP, JSON, base64 and hexadecimal text, CORS, TLS, flags, logging and static files: requests carry decoded byte strings, with a case for text that does not decode.
- The insides of SHA-256, SHA-384, HMAC and Argon2id, and any claim that rests on their strength, such as unforgeability.
- Failures of the random source, the search loop and primality tests of GenerateKey, and moduli below 256, for which DerivePublicKey indexes outside its buffer.
- DeriveParams with a range that wraps to width zero, where the source panics: `Divisible` is required, and proved for all buckets.
- Goroutine interleavings inside a handler and the mutex of the temperature store: handlers, sweeps and store operations are atomic steps.
- The probe timing tables of internal/environment: the validator is an unknown function, or missing.
- The address tables of internal/temperature/reputation.go and IP parsing: unknown functions for the subnet and for a reputation of 0, 80 or 100. Address extraction from headers is an input.
- Temperature.Store.FailRate: computes the quotient of two reals; the rounding of 64-bit floating point, which does not change the percentage of at most 20 verdicts, is not modelled. Probe anomalies are reals too.
- Temperature.Store.Prune: the slices of a table do not share backing arrays here; compaction in place is modelled for one buffer at a time.
- HashCash.SolveHashCash: requires that a solution exists, because the widget's loop does not end otherwise; pausing for the browser is not modelled.
- The widget's own mgf1SHA384 and countLeadingZeroBits: the same algorithms as the server's, which are modelled.
- The widget's bytesToBigInt and bigIntToBytes build hexadecimal strings; the model has the integers and bytes that they stand for.
- device_class in requests is ignored by the server, and so is the siteKey that Record takes.
- Any claim that class 2 means that Argon2 or probes were done: the class is fixed at issuance and an empty Argon2 result is accepted.
- A single redemption for all time: a nonce can be redeemed again after it has been swept.
- Rendering of the timestamp as decimal text, and the text of error messages.
