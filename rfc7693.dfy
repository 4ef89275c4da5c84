/**
 * The parts of RFC 7693 (BLAKE2) that src/crypto/blake2s.rs implements, written after the RFC's
 * own pseudocode for BLAKE2s (w = 32, r = 10, (R1, R2, R3, R4) = (16, 12, 8, 7), bb = 64 bytes):
 * the reference the model of the source is proved against. Message blocks are sixteen
 * little-endian 32-bit words (section 2.4), so an input of n words is 4 * n bytes.
 */
module Rfc7693 {
  import opened Blake2sConstants

  const TWO_POW_32: nat := 0x1_0000_0000
  const TWO_POW_64: nat := 0x1_0000_0000_0000_0000

  /**
   * The message schedule SIGMA of section 2.7: entry k of row r is the index of the message word
   * that input k of round r takes (inputs 2j and 2j + 1 feed the j-th application of G).
   */
  function SigmaEntry(r: nat, k: nat): (e: nat)
    requires r < 10 && k < 16
    ensures e < 16
  {
    match r
    case 0 => k
    case 1 => (match k case 0 => 14 case 1 => 10 case 2 => 4 case 3 => 8 case 4 => 9 case 5 => 15 case 6 => 13 case 7 => 6 case 8 => 1 case 9 => 12 case 10 => 0 case 11 => 2 case 12 => 11 case 13 => 7 case 14 => 5 case _ => 3)
    case 2 => (match k case 0 => 11 case 1 => 8 case 2 => 12 case 3 => 0 case 4 => 5 case 5 => 2 case 6 => 15 case 7 => 13 case 8 => 10 case 9 => 14 case 10 => 3 case 11 => 6 case 12 => 7 case 13 => 1 case 14 => 9 case _ => 4)
    case 3 => (match k case 0 => 7 case 1 => 9 case 2 => 3 case 3 => 1 case 4 => 13 case 5 => 12 case 6 => 11 case 7 => 14 case 8 => 2 case 9 => 6 case 10 => 5 case 11 => 10 case 12 => 4 case 13 => 0 case 14 => 15 case _ => 8)
    case 4 => (match k case 0 => 9 case 1 => 0 case 2 => 5 case 3 => 7 case 4 => 2 case 5 => 4 case 6 => 10 case 7 => 15 case 8 => 14 case 9 => 1 case 10 => 11 case 11 => 12 case 12 => 6 case 13 => 8 case 14 => 3 case _ => 13)
    case 5 => (match k case 0 => 2 case 1 => 12 case 2 => 6 case 3 => 10 case 4 => 0 case 5 => 11 case 6 => 8 case 7 => 3 case 8 => 4 case 9 => 13 case 10 => 7 case 11 => 5 case 12 => 15 case 13 => 14 case 14 => 1 case _ => 9)
    case 6 => (match k case 0 => 12 case 1 => 5 case 2 => 1 case 3 => 15 case 4 => 14 case 5 => 13 case 6 => 4 case 7 => 10 case 8 => 0 case 9 => 7 case 10 => 6 case 11 => 3 case 12 => 9 case 13 => 2 case 14 => 8 case _ => 11)
    case 7 => (match k case 0 => 13 case 1 => 11 case 2 => 7 case 3 => 14 case 4 => 12 case 5 => 1 case 6 => 3 case 7 => 9 case 8 => 5 case 9 => 0 case 10 => 15 case 11 => 4 case 12 => 8 case 13 => 6 case 14 => 2 case _ => 10)
    case 8 => (match k case 0 => 6 case 1 => 15 case 2 => 14 case 3 => 9 case 4 => 11 case 5 => 3 case 6 => 0 case 7 => 8 case 8 => 12 case 9 => 2 case 10 => 13 case 11 => 7 case 12 => 1 case 13 => 4 case 14 => 10 case _ => 5)
    case _ => (match k case 0 => 10 case 1 => 2 case 2 => 8 case 3 => 4 case 4 => 7 case 5 => 6 case 6 => 1 case 7 => 5 case 8 => 15 case 9 => 11 case 10 => 9 case 11 => 14 case 12 => 3 case 13 => 12 case 14 => 13 case _ => 0)
  }

  /** Row r of SIGMA as a sequence. */
  function Sigma(r: nat): (row: seq<nat>)
    requires r < 10
    ensures |row| == 16 && forall k :: 0 <= k < 16 ==> row[k] == SigmaEntry(r, k)
  {
    seq(16, k requires 0 <= k < 16 => SigmaEntry(r, k))
  }

  /** `s` lists each index 0 .. |s| - 1 exactly once. */
  predicate IsPermutation(s: seq<nat>) {
    && (forall k :: 0 <= k < |s| ==> s[k] < |s|)
    && (forall a, b :: 0 <= a < b < |s| ==> s[a] != s[b])
  }

  /** Every row of SIGMA is a permutation of the sixteen message word indices. */
  lemma SigmaRowsArePermutations(r: nat)
    requires r < 10
    ensures IsPermutation(Sigma(r))
  {
    forall a, b | 0 <= a < b < 16
      ensures SigmaEntry(r, a) != SigmaEntry(r, b)
    {
    }
  }

  /** Four words of the working vector. */
  datatype Quad = Quad(a: bv32, b: bv32, c: bv32, d: bv32)

  /**
   * The mixing function G of section 3.1 on four words a, b, c, d and the message words x and y:
   * additions wrap modulo 2^32, the rotation distances are R1 .. R4 = 16, 12, 8, 7.
   */
  function Quarter(a: bv32, b: bv32, c: bv32, d: bv32, x: bv32, y: bv32): (q: Quad)
  {
    var a1 := WrappingAdd(WrappingAdd(a, b), x);
    var d1 := RotateRight(Xor(d, a1), 16);
    var c1 := WrappingAdd(c, d1);
    var b1 := RotateRight(Xor(b, c1), 12);
    var a2 := WrappingAdd(WrappingAdd(a1, b1), y);
    var d2 := RotateRight(Xor(d1, a2), 8);
    var c2 := WrappingAdd(c1, d2);
    var b2 := RotateRight(Xor(b1, c2), 7);
    Quad(a2, b2, c2, d2)
  }

  /** G applied to the words at positions a, b, c, d of the working vector v. */
  function G(v: seq<bv32>, a: nat, b: nat, c: nat, d: nat, x: bv32, y: bv32): (r: seq<bv32>)
    requires |v| == 16 && a < 16 && b < 16 && c < 16 && d < 16
    requires a != b && a != c && a != d && b != c && b != d && c != d
    ensures |r| == 16
  {
    Place(v, a, b, c, d, Quarter(v[a], v[b], v[c], v[d], x, y))
  }

  /** v with the four words of q written at positions a, b, c, d. */
  function Place(v: seq<bv32>, a: nat, b: nat, c: nat, d: nat, q: Quad): (r: seq<bv32>)
    requires |v| == 16 && a < 16 && b < 16 && c < 16 && d < 16
    ensures |r| == 16
  {
    v[a := q.a][b := q.b][c := q.c][d := q.d]
  }

  /**
   * The working vector at the start of F (section 3.2): the state, then IV, with the low and
   * high words of the byte counter t folded into v[12] and v[13], and v[14] inverted on the
   * last block.
   */
  function InitVector(h: seq<bv32>, t: nat, f: bool): (v: seq<bv32>)
    requires |h| == 8 && t < TWO_POW_64
    ensures |v| == 16
  {
    var v := h + IV;
    var v := v[12 := Xor(v[12], (t % TWO_POW_32) as bv32)][13 := Xor(v[13], (t / TWO_POW_32) as bv32)];
    if f then v[14 := !v[14]] else v
  }

  /** The four positions of the working vector that one application of G works on. */
  datatype Lanes = Lanes(a: nat, b: nat, c: nat, d: nat)

  /**
   * The positions of the k-th application of G in a round (section 3.2): the four columns
   * for k = 0 .. 3, then the four diagonals.
   */
  function RoundLanes(k: nat): (l: Lanes)
    requires k < 8
    ensures l.a < 16 && l.b < 16 && l.c < 16 && l.d < 16
    ensures l.a != l.b && l.a != l.c && l.a != l.d && l.b != l.c && l.b != l.d && l.c != l.d
  {
    match k
    case 0 => Lanes(0, 4, 8, 12)
    case 1 => Lanes(1, 5, 9, 13)
    case 2 => Lanes(2, 6, 10, 14)
    case 3 => Lanes(3, 7, 11, 15)
    case 4 => Lanes(0, 5, 10, 15)
    case 5 => Lanes(1, 6, 11, 12)
    case 6 => Lanes(2, 7, 8, 13)
    case _ => Lanes(3, 4, 9, 14)
  }

  /** A row of the message schedule: sixteen indices of message words. */
  predicate ValidRow(s: seq<nat>) {
    |s| == 16 && forall k :: 0 <= k < 16 ==> s[k] < 16
  }

  /**
   * Applications j, j + 1, .., 7 of the eight applications of G in a round whose schedule row is s:
   * application j works on RoundLanes(j) with the message words at indices s[2j] and s[2j + 1].
   */
  function MixesFrom(v: seq<bv32>, m: seq<bv32>, s: seq<nat>, j: nat): (w: seq<bv32>)
    requires |v| == 16 && |m| == 16 && ValidRow(s) && j <= 8
    ensures |w| == 16
    // |v| never changes; naming v here keeps the verifier from unfolding all eight steps at once
    // whenever j is a literal
    decreases 8 - j, |v|
  {
    if j == 8 then v
    else
      var l := RoundLanes(j);
      MixesFrom(G(v, l.a, l.b, l.c, l.d, m[s[2 * j]], m[s[2 * j + 1]]), m, s, j + 1)
  }

  /**
   * The first n rounds of F applied to v; round i is the four column and then the four diagonal
   * applications of G, scheduled by row i of SIGMA.
   */
  function Rounds(v: seq<bv32>, m: seq<bv32>, n: nat): (r: seq<bv32>)
    requires |v| == 16 && |m| == 16 && n <= 10
    ensures |r| == 16
    // as for MixesFrom: keeps a literal n from unfolding all ten rounds
    decreases n, |v|
  {
    if n == 0 then v else MixesFrom(Rounds(v, m, n - 1), m, Sigma(n - 1), 0)
  }

  /** The compression function F of section 3.2 for BLAKE2s: ten rounds, then h[i] ^ v[i] ^ v[i + 8]. */
  function F(h: seq<bv32>, m: seq<bv32>, t: nat, f: bool): (r: seq<bv32>)
    requires |h| == 8 && |m| == 16 && t < TWO_POW_64
    ensures |r| == 8
  {
    var v := Rounds(InitVector(h, t, f), m, 10);
    Finalize(h, v)
  }

  /** The output step of F: h[i] ^ v[i] ^ v[i + 8] for i = 0 .. 7. */
  function Finalize(h: seq<bv32>, v: seq<bv32>): (r: seq<bv32>)
    requires |h| == 8 && |v| == 16
    ensures |r| == 8
  {
    seq(8, i requires 0 <= i < 8 => Xor(Xor(h[i], v[i]), v[i + 8]))
  }

  /** The state before the first block (section 3.3): IV with h[0] ^= 0x01010000 ^ (kk << 8) ^ nn. */
  function InitialHash(kk: bv32, nn: bv32): (h: seq<bv32>)
    ensures |h| == 8
  {
    IV[0 := IV[0] ^ 0x01010000 ^ (kk << 8) ^ nn]
  }

  /** The final block of section 3.3: the remaining words followed by zeros up to sixteen words. */
  function Pad(tail: seq<bv32>): (block: seq<bv32>)
    requires |tail| <= 16
    ensures |block| == 16 && block[..|tail|] == tail
    ensures forall i :: |tail| <= i < 16 ==> block[i] == 0
  {
    tail + seq(16 - |tail|, _ => 0)
  }

  /**
   * dd of section 3.3: the number of sixteen-word blocks the message is cut into, the empty
   * message counting as one block.
   */
  function BlockCount(words: seq<bv32>): (dd: nat)
    ensures dd >= 1 && 16 * (dd - 1) <= |words| <= 16 * dd
    ensures |words| > 0 ==> 16 * (dd - 1) < |words|
  {
    if |words| == 0 then 1 else (|words| + 15) / 16
  }

  /**
   * The loop of section 3.3 over blocks 0 .. k - 1: the state after compressing them into h in
   * order, none as the last block, block i with the counter at the 64 (i + 1) bytes up to its end.
   */
  function FullBlocks(h: seq<bv32>, words: seq<bv32>, k: nat): (r: seq<bv32>)
    requires |h| == 8 && 16 * k <= |words| && 64 * k < TWO_POW_64
    ensures |r| == 8
  {
    if k == 0 then h
    else
      var i := k - 1;
      F(FullBlocks(h, words, i), words[16 * i..16 * i + 16], 64 * i + 64, false)
  }

  /**
   * BLAKE2s with a 32-byte digest and no key (nn = 32, kk = 0) of the 4 * |words| bytes in words
   * (section 3.3): all blocks but the last are compressed as FullBlocks does, then the last one,
   * zero-padded, with f = true and the counter at the message length.
   */
  function Digest(words: seq<bv32>): (h: seq<bv32>)
    requires 4 * |words| < TWO_POW_64
    ensures |h| == 8
  {
    var last := BlockCount(words) - 1;
    F(FullBlocks(InitialHash(0, 32), words, last), Pad(words[16 * last..]), 4 * |words|, true)
  }

  /**
   * The blocks before the last are exactly k whole blocks when they leave at most sixteen words,
   * and at least one unless the message is empty: the digest is then the padded remainder
   * compressed after them.
   */
  lemma DigestAfterBlocks(words: seq<bv32>, k: nat)
    requires 4 * |words| < TWO_POW_64 && 16 * k <= |words| <= 16 * k + 16 && (k == 0 || 16 * k < |words|)
    ensures Digest(words) == F(FullBlocks(InitialHash(0, 32), words, k), Pad(words[16 * k..]), 4 * |words|, true)
  {
    LastBlockIndex(words, k);
    DigestUnfolds(words, k);
  }

  /** Digest with its last block index named k. */
  lemma DigestUnfolds(words: seq<bv32>, k: nat)
    requires 4 * |words| < TWO_POW_64 && 16 * k <= |words| && BlockCount(words) - 1 == k
    ensures Digest(words) == F(FullBlocks(InitialHash(0, 32), words, k), Pad(words[16 * k..]), 4 * |words|, true)
  {
  }

  /** Blocks 0 .. k - 1 leaving between one and sixteen words (or none of an empty message) make block k the last. */
  lemma LastBlockIndex(words: seq<bv32>, k: nat)
    requires 16 * k <= |words| <= 16 * k + 16 && (k == 0 || 16 * k < |words|)
    ensures BlockCount(words) - 1 == k
  {
  }
}
