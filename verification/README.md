# permuteseq in Dafny

A model of the core of the PostgreSQL extension permuteseq, written in
Dafny, with proofs about it. The extension maps the values of an interval
`[minval, maxval]` of 64-bit integers onto the same interval with a
key-dependent pseudo-random permutation. It also provides the inverse of
that permutation.

The model covers three parts of `permuteseq.c`.

- **`cycle_walking_cipher`** (modules `Bits`, `Feistel`, `Walking` and `CycleWalk`).
  - The half block size `hsz` is the least `h` in 1..32 with `4^h` at least the interval size.
  - The 64-bit key is scrambled by hashing each 32-bit half.
  - The offset `value - minval` is split into two `hsz`-bit halves.
  - The halves go through a nine-round Feistel network.
    - Round `j` uses the subkey `(uint32)(key >> ((hsz*j) & 63)) + j`.
    - Encryption takes `j = i` in iteration `i`; decryption takes `j = 8 - i`.
    - The round function is `(l1 ^ H(r1) ^ H(Kj)) & mask`.
  - The result `(r1 << hsz) | l1` is emitted and the halves are swapped for the next pass.
  - The cycle walk repeats passes until the result lies in `[0, maxval - minval]`, or gives up after `walk_max = 1000000` walks.
- **`check_sequence_range`** (module `Permuteseq`): the overflow-aware test that a sequence spans at least four values.
- **The four SQL entry points** (module `Permuteseq`). Each is reduced to its checks before it calls the cipher:
  - `permute_nextval` and `reverse_permute`, which work on a sequence's bounds;
  - `range_encrypt_element` and `range_decrypt_element`, which take explicit bounds.

How the C operations are represented:

- Machine words are integers with explicit truncations.
  - A `uint32` assignment is `% 2^32`.
  - A shift is the recursive halving or doubling of `Bits.Shr`, `Bits.Shl` and `Bits.Low`.
  - The `|` of two disjoint bit ranges is an addition.
  - Exclusive or is defined bit by bit (`Bits.Xor`).
- PostgreSQL's `hash_uint32` is a parameter of type `U32 -> U32`. Every property below holds for every such function.
- A raised error is an `Err` outcome with one constructor per message.

What is proved:

- Decrypting undoes encrypting, both for each Feistel network and for each pass on an offset.
- Each pass is therefore a permutation of the block of `4^hsz` offsets.
- The cycle walk returns the first in-range result of passes 1..walk_max. It fails exactly when all of them fall outside the interval.
- Every result lies in `[minval, maxval]`.
- Decryption returns the value that was encrypted, so encryption is injective on the interval.
- The entry points raise each of their errors exactly in the cases the C guards describe.

## Model

| member | source | states |
|---|---|---|
| Bits.MaskedXorIsXor | permuteseq.c:276-278 | the bit-by-bit function the model uses for a round's new right half equals the low hsz bits of `l1 ^ H(r1) ^ H(Ki)`, with exclusive or on the reference definition |
| Bits.MaskedXorTwice | permuteseq.c:276-278 | xoring the same two hash words into the low hsz bits twice restores any value of at most hsz bits, which is what makes a round invertible |
| Feistel.SubkeysAreWindows | permuteseq.c:274-275 | the schedule lists K0..K8 in order, entry j being the 32-bit window of the scrambled key at bit `(hsz*j) & 63` plus j modulo 2^32, so the round with index j uses Kj in either direction |
| Feistel.RoundFits | permuteseq.c:276-280 | a round keeps both halves within hsz bits and moves the old right half into the left |
| Feistel.NetworkFits | permuteseq.c:265-281 | the nine rounds keep both halves within hsz bits |
| Feistel.EncryptAscends | permuteseq.c:265-275 | with direction 0, iteration i uses subkey i, so the rounds run with subkeys 0..8 in increasing order |
| Feistel.DecryptDescends | permuteseq.c:265-275 | with direction 1, iteration i uses subkey NR-1-i, so the rounds run with subkeys 8..0 in decreasing order |
| Feistel.RoundInverse | permuteseq.c:276-280 | a round applied to the swapped output of the same round gives back the swapped input |
| Feistel.NetworkInverse | permuteseq.c:265-285 | for halves of at most hsz bits, the network in the opposite direction on the swapped output returns the swapped input, for both directions |
| CycleWalk.HalfSize | permuteseq.c:245-247 | hsz lies in 1..32, every smaller h has 4^h below the interval, and 4^hsz covers the interval unless hsz is 32 |
| CycleWalk.HalfSizeFromBlock | permuteseq.c:245-247 | on an interval of exactly 4^h values (h <= 31), the loop started at any smaller half block size stops at h |
| CycleWalk.HalfSizeBounded | permuteseq.c:231-249 | an interval of at most 2^62 values gets hsz <= 31, and 4^hsz covers it |
| CycleWalk.ScrambleKey | permuteseq.c:254-255 | the low 32 bits of the scrambled key are the hash of the key's low 32 bits, and the high 32 bits are the hash of its high 32 bits |
| CycleWalk.CipherSchedule | permuteseq.c:227-255 | the constants of one call are well formed (hsz <= 31 and nine subkeys), and the largest offset `maxval - minval` fits in a block of 4^hsz |
| CycleWalk.SplitJoin | permuteseq.c:257-261 | an offset below 4^hsz splits into `(off >> hsz, off & mask)`, both of at most hsz bits, which join back into the offset |
| CycleWalk.JoinSplit | permuteseq.c:282 | two halves of hsz bits join into `(r1 << hsz) + l1` (the bitwise or of disjoint bit ranges) below 4^hsz, which splits back into them |
| CycleWalk.PassInverse | permuteseq.c:257-285 | one pass in the opposite direction undoes one pass on any offset of the block |
| CycleWalk.PassPermutes | permuteseq.c:263-285 | the pass maps the block of 4^hsz offsets into itself, and the opposite pass is its inverse there |
| CycleWalk.ReEntry | permuteseq.c:282-285 | after the swap, the halves left for the next pass are exactly the split of the pass's result, so the next pass re-encrypts that result |
| CycleWalk.PassTracked | permuteseq.c:263-286 | the loop on half blocks follows the pass on offsets at every step |
| Walking.Walk | permuteseq.c:286-294 | the walk loop, with walk_count's post-increment and the final `walk_count >= walk_max` test, returns only offsets at most maxval - minval |
| Walking.WalkIterates | permuteseq.c:286-294 | for any permutation the loop tracks, the walk fails exactly when passes 1..walk_max all leave the interval, and otherwise returns the first pass that lands in it |
| Walking.WalkBack | permuteseq.c:263-294 | if the walk from x with a permutation lands on y, then the walk from y with the inverse permutation lands on x |
| CycleWalk.WalkFromIsFirstInRange | permuteseq.c:257-294 | the walk from an offset of the interval is described by the first landing of the pass in the interval |
| CycleWalk.CipherWith | permuteseq.c:263-297 | once hsz and the subkeys are fixed, a result lies in `[minval, minval + limit]` and the only error is the walk limit |
| CycleWalk.CycleWalkingCipher | permuteseq.c:218-298 | every result lies in `[minval, maxval]`, and the only error is the prevented infinite cycle walk |
| CycleWalk.CipherIsFirstInRange | permuteseq.c:286-297 | the cipher fails exactly when passes 1..walk_max all leave the interval; otherwise the result minus minval is the first pass that lands in it |
| CycleWalk.CipherWithRoundTrip | permuteseq.c:263-297 | with a fixed schedule, the cipher in the opposite direction from a result's offset returns the original value |
| CycleWalk.CipherRoundTrip | permuteseq.c:218-298 | cycle_walking_cipher in the opposite direction, with the same bounds and key, maps a successful result back to the value |
| CycleWalk.CipherInjective | permuteseq.c:218-298 | two values of the interval with the same successful result are equal |
| CycleWalk.CipherWithFullBlock | permuteseq.c:282-294 | when the interval fills the block exactly, the first pass always lands in it, so the walk never gives up |
| CycleWalk.CipherFullBlock | permuteseq.c:218-298 | an interval of exactly 4^h values, for h in 1..31, never makes cycle_walking_cipher fail |
| Permuteseq.CheckSequenceRange | permuteseq.c:46-56 | the result is `maxv - minv >= 3` on the true difference whenever that difference fits in an int64, and true when it falls below INT64_MIN (an inverted range); the subtraction it performs cannot overflow |
| Permuteseq.Span | permuteseq.c:133 | `maxval - minval` as a 64-bit two's-complement subtraction: the true difference when it fits, otherwise that difference plus or minus 2^64 |
| Permuteseq.PermuteNextval | permuteseq.c:84-105 | "too short to encrypt" exactly when the difference fits and is below 3; "nextval outside the interval" exactly when the range test passes and nextval lies outside; otherwise the cipher, whose results lie in the interval |
| Permuteseq.ReversePermute | permuteseq.c:133-152 | "too short to decrypt" exactly when the wrapped difference is below 4, which for differences that fit means `maxval - minval < 4`; "out of sequence bounds" exactly when that test passes and the value lies outside; results lie in the interval |
| Permuteseq.RangeEncryptElement | permuteseq.c:169-180 | "outside of range" exactly when clearval lies outside `[minval, maxval]`, with no test on the span; results lie in the interval |
| Permuteseq.RangeDecryptElement | permuteseq.c:197-208 | "outside of range" exactly when val lies outside `[minval, maxval]`; results lie in the interval |
| Permuteseq.RangeRoundTrip | permuteseq.c:157-208 | range_decrypt_element of a successful range_encrypt_element result, with the same bounds and key, returns the element |
| Permuteseq.RangeRoundTripBack | permuteseq.c:157-208 | range_encrypt_element of a successful range_decrypt_element result returns the element |
| Permuteseq.RangeEncryptInjective | permuteseq.c:157-180 | distinct elements never share a successful range_encrypt_element result |
| Permuteseq.PermuteRoundTrip | permuteseq.c:66-153 | on a sequence with `maxval - minval >= 4`, reverse_permute maps every successful permute_nextval result back to nextval |
| Permuteseq.ReverseRoundTrip | permuteseq.c:66-153 | permute_nextval maps every successful reverse_permute result back to the value that was reversed |
| Permuteseq.InvertedRangeRejected | permuteseq.c:46-202 | when maxval < minval, every entry point raises one of its argument errors and never reaches the cipher |
| Permuteseq.FourValueSequenceIrreversible | permuteseq.c:133-138 | on a sequence of exactly four values, permute_nextval always succeeds but reverse_permute refuses its result as too short |
| Permuteseq.ReversePermuteCorrected | permuteseq.c:133-152 | reverse_permute with the length test of permute_nextval: "too short" exactly when the difference fits and is below 3 |
| Permuteseq.PermuteRoundTripCorrected | permuteseq.c:84-152 | with the corrected test, every successful permute_nextval result is reversed, whatever the length of the sequence |
| Permuteseq.CorrectedAgrees | permuteseq.c:133-138 | whenever `maxval - minval` fits in an int64 (inverted bounds included), the corrected function and reverse_permute differ only on sequences of exactly four values |

Notes on how the model reads the C code:

- Signed subtraction in `reverse_permute` (line 133) is two's-complement wrap-around, as PostgreSQL compiles with `-fwrapv`. The wrap only matters for inverted ranges and for spans above INT64_MAX.
  - Inverted ranges are refused by one of the two tests before the cipher (`Permuteseq.InvertedRangeRejected`).
  - A span above INT64_MAX wraps to a negative number, so such a sequence is reported as too short to decrypt.
- `check_sequence_range` subtracts only when the difference fits. `Permuteseq.CheckSequenceRange` is written in `int64` arithmetic, so Dafny checks that the subtraction cannot overflow.
- The loop condition `walk_count++ < walk_max` still increments when it fails. The source therefore computes pass walk_max + 1 and then reports an error even if that pass lands in the interval. The model follows this, so an error means that passes 1..walk_max all fell outside.
- The loop's comparison `result > maxval - minval` converts the signed difference to uint64. For the ordered, modelled intervals it is the true difference.

## Left out

- The fmgr and Datum plumbing, `pg_sequence_parameters` and `GetAttributeByNum`: the sequence bounds are parameters of `Permuteseq.PermuteNextval` and `Permuteseq.ReversePermute`.
- `nextval_oid`: it advances the sequence, a side effect on the database. The value it returns is the `nextval` parameter of `Permuteseq.PermuteNextval`.
- The internals of PostgreSQL's `hash_uint32`: it is foreign code, and every proof holds for every function from 32-bit words to 32-bit words.
- The text, hint and error code of each `ereport`: an error is one `Types.Error` constructor per message.
- CycleWalk.CycleWalkingCipher: covers only intervals of at most 2^62 values (`maxval - minval < 2^62`). For larger intervals hsz reaches 32, where `1 << hsz` on a 32-bit int (line 249) is undefined; from 2^63 values on, `maxval - minval + 1` (line 231) overflows.
- Permuteseq.PermuteNextval: requires an interval of at most 2^62 values only when nextval lies inside it, because that is when the cipher runs. Its guard errors are modelled for every pair of bounds.
- Permuteseq.ReversePermute: requires an interval of at most 2^62 values only when the value being reversed lies inside it and the span test passes, because that is when the cipher runs. Its guard errors, including the refusal of spans that wrap past INT64_MAX, are modelled for every pair of bounds and every value.
- Permuteseq.RangeEncryptElement: the same restriction, for clearval.
- Permuteseq.RangeDecryptElement: the same restriction, for val.
- Statistical quality of the permutation and key sensitivity are not modelled, nor is any claim that the walk limit is never reached in practice. Only the guaranteed behaviour of the code is stated.

## Findings

| source | as written | input that shows it | evidently intended | confidence | as-written member | corrected member |
|---|---|---|---|---|---|---|
| permuteseq.c:133-138 | reverse_permute refuses a sequence when `maxval - minval < 4`. permute_nextval accepts any sequence with `maxval - minval >= 3` (lines 46-56 and 84-89). | A sequence with minval 1 and maxval 4, or any four consecutive values: permute_nextval returns a value for every nextval, and reverse_permute rejects that value as "sequence too short to decrypt". | Decryption should accept every sequence encryption accepts, so that every permuted value of a four-value sequence can be reversed. | medium; not executed | Permuteseq.FourValueSequenceIrreversible | Permuteseq.PermuteRoundTripCorrected |

`Permuteseq.ReversePermuteCorrected` uses `check_sequence_range` for its length test. `Permuteseq.PermuteRoundTripCorrected` proves that it reverses every successful `permute_nextval` result, for every sequence length. `Permuteseq.CorrectedAgrees` shows that the change affects only sequences of exactly four values. `Permuteseq.ReversePermute` keeps the test as written.
