# BLAKE2s in Dafny

A model of the BLAKE2s-256 hash of `src/crypto/blake2s.rs`, with proofs. This is the unkeyed BLAKE2s of RFC 7693 with a 32-byte digest.

The source has two public functions:

- `hash` digests a slice of u64 values.
- `hash_fixed` digests exactly eight u64 values, which is one 64-byte block.

Both write the digest into a slice of four u64 values. Two private helpers do the work:

- `compress` is the compression function F.
- `mix` is the quarter-round G.

The model keeps the source's form. `mix`, `compress`, `hash` and `hash_fixed` are methods that update arrays in place. Each method is proved against a functional rendering of the RFC's own pseudocode (module `Rfc7693`).

Some parts of the source are spelled out:

- The unsafe reinterpretation of u64 slices as u32 slices becomes explicit little-endian `Unpack`/`Pack`.
- The `as u8` casts that read the packed `SIGMA` table become explicit byte extractions.
- The panics `hash` can raise are results: an `Outcome` of `SliceOutOfBounds` or `CounterOverflow`.

Modules:

- `Blake2sConstants` (`constants.dfy`): `IV`, the packed `SIGMA`, and the u32 operations.
- `Rfc7693` (`rfc7693.dfy`): SIGMA, G, F, padding and the digest as section 3 of RFC 7693 defines them.
- `Blake2sCompression` (`compression.dfy`): `mix` and `compress`, plus the proof that the packed table is the RFC's schedule.
- `Blake2sHash` (`hashing.dfy`): `hash` as written, `hash_fixed`, and the slice reinterpretation.
- `Blake2sFindings` (`findings.dfy`): the two defects of `hash` and a repaired `hash` proved to compute the RFC digest.

## Model

| member | source | states |
|---|---|---|
| Rfc7693.SigmaRowsArePermutations | src/crypto/blake2s.rs:8-13 | every row of the message schedule lists each of the sixteen message word indices exactly once |
| Rfc7693.DigestAfterBlocks | src/crypto/blake2s.rs:33-49 | suppose k whole blocks leave between one and sixteen words (or the message is empty). Then the RFC digest is those k blocks compressed in order, followed by the zero-padded remainder compressed as the last block with the counter at the full byte length. This is the split the block loop of `hash` makes |
| Blake2sCompression.PackedScheduleMatchesRfc | src/crypto/blake2s.rs:8-13 | the bytes of `SIGMA[2r]`, low byte first, are entries 0-7 of row r of the RFC's SIGMA (section 2.7). The bytes of `SIGMA[2r+1]` are entries 8-15 |
| Blake2sCompression.PackedRowIsSigma | src/crypto/blake2s.rs:87-96 | the sixteen indices the `as u8` casts read in round r are exactly row r of the RFC's SIGMA |
| Blake2sCompression.PackedRowIsPermutation | src/crypto/blake2s.rs:8-13 | the sixteen bytes read in every round are each below 16, so `m[xi as usize]` is in bounds, and they are pairwise distinct, so every message word is used exactly once per round |
| Blake2sCompression.Mix | src/crypto/blake2s.rs:107-116 | v becomes G of RFC 7693 section 3.1 applied to words a, b, c, d with message words m[xi] and m[yi]. All twelve other words are unchanged |
| Blake2sCompression.Compress | src/crypto/blake2s.rs:75-104 | for a counter below 2^32, h becomes F(old h, m, t, last) of RFC 7693 section 3.2 |
| Blake2sCompression.InitWorkVector | src/crypto/blake2s.rs:77-83 | v is the RFC's initial working vector: h, then IV, with the low counter word xored into v[12], the high word (zero for a u32 counter) into v[13], and v[14] inverted on the last block |
| Blake2sCompression.CounterWords | src/crypto/blake2s.rs:79-80 | the low word of a u32 counter is the counter itself and its high word is zero, which is why line 80 can be left out |
| Blake2sCompression.RunRounds | src/crypto/blake2s.rs:85-99 | after the loop, v is the ten rounds of F applied to its old value, each round scheduled by its own row of SIGMA |
| Blake2sCompression.NextRound | src/crypto/blake2s.rs:86-98 | one pass of the loop, entered with i = 2r after r rounds, leaves the first r + 1 rounds done |
| Blake2sCompression.DoScheduledRound | src/crypto/blake2s.rs:86-98 | with i = 2r, the eight calls of `mix` through `SIGMA[i]` and `SIGMA[i+1]` are round r of the RFC |
| Blake2sCompression.DoRound | src/crypto/blake2s.rs:87-96 | the four column calls and then the four diagonal calls, with indices read from `SIGMA[i]` and `SIGMA[i+1]`, leave v as the column half followed by the diagonal half of a round |
| Blake2sCompression.MixColumns | src/crypto/blake2s.rs:87-90 | G on columns (0,4,8,12) .. (3,7,11,15), with message words at the indices held by the bytes of `SIGMA[i]` |
| Blake2sCompression.MixDiagonals | src/crypto/blake2s.rs:93-96 | G on diagonals (0,5,10,15) .. (3,4,9,14), with message words at the indices held by the bytes of `SIGMA[i]` |
| Blake2sCompression.HalvesMakeRound | src/crypto/blake2s.rs:87-96 | the column half followed by the diagonal half is the eight applications of G of one RFC round |
| Blake2sCompression.ColumnsAreFirstHalf | src/crypto/blake2s.rs:87-90 | the four column calls are applications 0-3 of G in a round |
| Blake2sCompression.DiagonalsAreSecondHalf | src/crypto/blake2s.rs:93-96 | the four diagonal calls are applications 4-7 of G in a round |
| Blake2sCompression.FinalizeState | src/crypto/blake2s.rs:101-103 | h[i] becomes old h[i] ^ v[i] ^ v[i+8] for all eight i, the output step of F |
| Blake2sHash.JoinSplits | src/crypto/blake2s.rs:21-22 | the two u32 halves of a u64 built from lo and hi are lo and hi |
| Blake2sHash.SplitJoins | src/crypto/blake2s.rs:21-22 | a u64 rebuilt from its two u32 halves is itself |
| Blake2sHash.Unpack | src/crypto/blake2s.rs:21 | the u32 view of `values` has `values.len() * 2` words |
| Blake2sHash.Pack | src/crypto/blake2s.rs:22 | the u64 view of an even number of words holds, at k, the u64 whose low half is word 2k and whose high half is word 2k+1 |
| Blake2sHash.PackUnpack | src/crypto/blake2s.rs:21-22 | reading u64 values as u32 words and back gives the values |
| Blake2sHash.UnpackPack | src/crypto/blake2s.rs:21-22 | writing u32 words as u64 values and reading them back gives the words |
| Blake2sHash.InitialWordMatchesRfc | src/crypto/blake2s.rs:25 | the literal `0x6b08e647` is IV[0] ^ 0x01010000 ^ (kk << 8) ^ nn for kk = 0 and nn = 32 |
| Blake2sHash.InitState | src/crypto/blake2s.rs:25-26 | the state is the RFC's initial state for an unkeyed 32-byte digest |
| Blake2sHash.StoreState | src/crypto/blake2s.rs:22 | the four u64 results hold the eight state words, and read back as u32 words they are the state |
| Blake2sHash.FinalBlockAsWritten | src/crypto/blake2s.rs:42-47 | the final block the source builds: the remaining words, zeros at positions \|tail\| .. 14, and position 15 unchanged when fewer than sixteen words remain |
| Blake2sHash.FinalBlockFromZeros | src/crypto/blake2s.rs:30 | when m still holds the zeros of line 30, the block built by lines 42-47 is the RFC's padded block |
| Blake2sHash.ShortInputIsOneCompression | src/crypto/blake2s.rs:41-49 | the digest of at most sixteen words is one final compression of the padded words, with the counter at their byte length |
| Blake2sHash.EmptyInputIsZeroBlock | src/crypto/blake2s.rs:42-49 | the empty input is one final compression of an all-zero block with counter 0 |
| Blake2sHash.Hash | src/crypto/blake2s.rs:17-50 | `hash` completes exactly when there are at most eight values, and then the result read as u32 words is the RFC digest of the input's u32 words. Every longer input panics |
| Blake2sHash.HashWords | src/crypto/blake2s.rs:24-49 | on the word view, completes exactly when there are at most sixteen words, and then h is the RFC digest |
| Blake2sHash.CompressFullBlocks | src/crypto/blake2s.rs:33-39 | the loop either panics, which needs more than sixteen words, or stops with n ≤ 16 words left and t = 4 (\|words\| − n). When it did not run, h and m are untouched; when it did run, at least one word is left |
| Blake2sHash.LoadBlock | src/crypto/blake2s.rs:35 | m holds the sixteen words from offset `off` |
| Blake2sHash.LoadFinalBlock | src/crypto/blake2s.rs:42-47 | m becomes FinalBlockAsWritten of its old contents and the remaining words |
| Blake2sHash.CompressFinalBlock | src/crypto/blake2s.rs:41-49 | the slice of line 43 is in bounds exactly when the loop did not run. Then h becomes F of the block built by lines 42-47, as the last block, with the counter at the full byte length |
| Blake2sHash.HashFixed | src/crypto/blake2s.rs:52-69 | the result read as u32 words is one final compression, with counter 64, of the sixteen words of the eight values |
| Blake2sHash.FixedAgreesWithHash | src/crypto/blake2s.rs:52-69 | on eight values, the single compression of `hash_fixed` is the RFC digest, the same as `hash` computes |
| Blake2sFindings.StaleLastWordSurvives | src/crypto/blake2s.rs:45-47 | for nine values whose eighth is 2^32, the final block built in the m that held the first block keeps word 15 of that block, so it differs from the padded block |
| Blake2sFindings.HashCorrected | src/crypto/blake2s.rs:17-50 | repaired `hash` completes exactly when the byte length fits the u32 counter, and then the result read as u32 words is the RFC digest |
| Blake2sFindings.HashWordsCorrected | src/crypto/blake2s.rs:24-49 | on the word view, completes exactly when 4 \|words\| < 2^32, and then h is the RFC digest |
| Blake2sFindings.CompressFullBlocksCorrected | src/crypto/blake2s.rs:33-39 | the repaired loop stops after k whole blocks with 1 to 16 words left (none only for the empty input) and h as the RFC's first k compressions. It panics only when the counter overflows |
| Blake2sFindings.CompressNextBlock | src/crypto/blake2s.rs:34-38 | one pass of the repaired loop takes the state after blocks 0 .. k−1 to the state after blocks 0 .. k, unless the counter would overflow |
| Blake2sFindings.FullBlocksStep | src/crypto/blake2s.rs:34-38 | the RFC's first k + 1 compressions are block k compressed, with counter 64 (k + 1), after the first k |
| Blake2sFindings.CompressBlockCorrected | src/crypto/blake2s.rs:35-37 | block k is read from word offset 16k, the counter grows from 64k to 64 (k + 1), and the block is compressed, unless that overflows |
| Blake2sFindings.LoadBlockAt | src/crypto/blake2s.rs:35 | with the offset repaired, m holds block k |
| Blake2sFindings.LoadFinalBlockCorrected | src/crypto/blake2s.rs:42-47 | with the loop running to 16, m is the RFC's padded block whatever it held before |
| Blake2sFindings.LoadFinalBlockAt | src/crypto/blake2s.rs:42-47 | m is the padded block of the words after k whole blocks |
| Blake2sFindings.CompressFinalBlockCorrected | src/crypto/blake2s.rs:41-49 | the padded remainder is compressed as the last block with the counter at the full byte length, unless that length overflows the u32 counter |

## Left out

- Hash: the counter overflow of line 36 is modelled only as the panic a debug build raises (`CounterOverflow`). In a release build `t += 64` wraps modulo 2^32, and the loop's offset then wraps with it. For inputs of at least 2^32 − 48 words `hash` can then complete. `Completed <==> |values| <= 8` therefore describes debug builds only.
- Hash: on a panic the source has already written the initial state into `result` (lines 25-26). It may also have written one compressed state (line 37). The model leaves `result` untouched on every outcome other than `Completed`.
- Hash: `values.len() * 2` (line 21) is taken with unbounded integers. A slice long enough to overflow `usize` cannot exist in memory.
- Hash, HashFixed: `result` and `values` are separate in the model. Rust's borrow rules keep the two slices from aliasing.
- Hash, HashFixed: the `debug_assert!`s (lines 19, 54, 55) are preconditions. In a release build the source does not check them, and a `result` shorter than four values would be written out of bounds.
- Unpack, Pack: the unsafe reinterpretations (lines 21-22, 58-59) are modelled on a little-endian target. On a big-endian target the u32 halves of each u64 would swap, and the digest would differ.
- Mix: the eight in-place statements of lines 108-115 are written as updates of four local copies, stored back once. This is equivalent because the four indices are distinct, which every call passes.
- Compress: `m` is passed as a sequence value. The source passes a shared reference that `compress` never writes through.
- The test vector of lines 123-151 (the expected digest of eight fixed values) is not proved. Evaluating ten rounds of F on concrete words is beyond what the verifier does in reasonable time. `FixedAgreesWithHash` proves the property both tests share: `hash` and `hash_fixed` agree on eight values.

## Findings

| source | as written | input that shows it | evidently intended | confidence | as-written member | corrected member |
|---|---|---|---|---|---|---|
| src/crypto/blake2s.rs:35 | `hash` slices the input at `t`, a byte counter that grows by 64 per block, while the input is indexed in u32 words. The same happens at line 43 | nine u64 values (eighteen words): the first block is read, t becomes 64, and line 43 slices words 64..66 of 18, which panics | slice at the word offset t / 4 (16 words per block) | not executed | Blake2sHash.Hash | Blake2sFindings.HashCorrected |
| src/crypto/blake2s.rs:45 | `for i in n..15` clears m[n] .. m[14] and leaves m[15] as the previous block wrote it | with the offset repaired: nine values whose eighth is 2^32. Word 15 of the first block is 1 and survives into the final block of two words | `for i in n..16`, so that the final block is the zero-padded remainder | not executed | Blake2sFindings.StaleLastWordSurvives | Blake2sFindings.LoadFinalBlockCorrected |
