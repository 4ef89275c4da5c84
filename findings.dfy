/**
 * Two discrepancies in `hash` (src/crypto/blake2s.rs, lines 17-50) and the definition that
 * repairs them, proved to compute the RFC 7693 digest of inputs of every length the u32 byte
 * counter can describe.
 *
 * 1. Lines 35 and 43 slice the input at offset t, but t counts bytes (it grows by 64 per block)
 *    while the input is indexed in u32 words: the second block is read from word 64 instead of
 *    word 16. Every input of more than sixteen words therefore panics (Blake2sHash.Hash).
 * 2. Lines 45-47 clear m[n .. 15) only, so m[15] keeps the last word of the previous block when
 *    the final block has fewer than sixteen words (FinalBlockAsWritten, StaleLastWordSurvives).
 *    As written this never shows, because the first discrepancy panics before a previous block
 *    can exist; it shows as soon as the first one is repaired.
 */
module Blake2sFindings {
  import opened Blake2sConstants
  import opened Rfc7693
  import opened Blake2sCompression
  import opened Blake2sHash

  /**
   * With the offset of lines 35 and 43 repaired, nine u64 values whose eighth is 2^32 make
   * eighteen words with word 15 set to 1. The first sixteen stay in m as the first block; lines
   * 40-46 then copy the two remaining words and keep that 1 at position 15, so the last block
   * compressed is not the padded block of the RFC.
   */
  lemma StaleLastWordSurvives()
    ensures var words := Unpack([0, 0, 0, 0, 0, 0, 0, 0x1_0000_0000, 0]);
            |words| == 18 && FinalBlockAsWritten(words[..16], words[16..]) != Pad(words[16..])
  {
    var words := Unpack([0, 0, 0, 0, 0, 0, 0, 0x1_0000_0000, 0]);
    assert words[15] == 1;
    assert FinalBlockAsWritten(words[..16], words[16..])[15] == 1;
    assert Pad(words[16..])[15] == 0;
  }

  /**
   * `hash` with both discrepancies repaired: blocks are read from word offset t / 4, and the final
   * block is cleared up to position 15 included. It completes exactly when the byte length fits
   * the u32 counter, and then yields the RFC 7693 digest.
   */
  method HashCorrected(values: seq<bv64>, result: array<bv64>) returns (outcome: Outcome)
    requires result.Length == 4
    modifies result
    ensures outcome == Completed <==> 8 * |values| < TWO_POW_32
    ensures outcome == Completed ==> Unpack(result[..]) == Digest(Unpack(values))
  {
    var h := new bv32[8];
    outcome := HashWordsCorrected(Unpack(values), h);
    if outcome != Completed {
      return;
    }
    StoreState(h, result);
  }

  /** HashWords with both discrepancies repaired: the digest of every input whose byte length fits the counter. */
  method HashWordsCorrected(words: seq<bv32>, h: array<bv32>) returns (outcome: Outcome)
    requires h.Length == 8
    modifies h
    ensures outcome == Completed <==> 4 * |words| < TWO_POW_32
    ensures outcome == Completed ==> h[..] == Digest(words)
  {
    InitState(h);
    var m := new bv32[16](_ => 0);
    var v := new bv32[16](_ => 0);
    var t, n;
    ghost var k;
    outcome, t, n, k := CompressFullBlocksCorrected(v, h, m, words);
    if outcome != Completed {
      return;
    }
    var fits := CompressFinalBlockCorrected(v, h, m, words, t, n, k);
    if !fits {
      return CounterOverflow;
    }
    DigestAfterBlocks(words, k);
  }

  /**
   * The loop of lines 33-38 reading block k from words 16k .. 16k + 15. It stops with at most
   * sixteen words left (and at least one, unless the input is empty) after compressing the k
   * whole blocks before them, or panics when the counter would overflow.
   */
  method CompressFullBlocksCorrected(v: array<bv32>, h: array<bv32>, m: array<bv32>, words: seq<bv32>)
    returns (outcome: Outcome, t: nat, n: nat, ghost k: nat)
    requires v.Length == 16 && h.Length == 8 && m.Length == 16
    requires v != h && m != v && m != h
    modifies v, h, m
    ensures outcome == Completed || outcome == CounterOverflow
    ensures outcome == CounterOverflow ==> 4 * |words| >= TWO_POW_32
    ensures outcome == Completed ==> n <= 16 && |words| - n == 16 * k && (k == 0 || n > 0)
    ensures outcome == Completed ==> t == 4 * (|words| - n) && t < TWO_POW_32
    ensures outcome == Completed ==> h[..] == FullBlocks(old(h[..]), words, k)
  {
    t := 0;
    n := |words|;
    k := 0;
    while n > 16
      invariant n <= |words| && |words| - n == 16 * k && (k == 0 || n > 0)
      invariant t == 4 * (|words| - n) && t < TWO_POW_32
      invariant h[..] == FullBlocks(old(h[..]), words, k)
      decreases n
    {
      var fits;
      fits, k := CompressNextBlock(v, h, m, words, |words| - n, t, k, old(h[..]));
      if !fits {
        return CounterOverflow, t, n, k;
      }
      t := t + 64;
      n := n - 16;
    }
    return Completed, t, n, k;
  }

  /** Block k compressed into a state that has absorbed blocks 0 .. k - 1 from h0 gives the state after blocks 0 .. k. */
  method CompressNextBlock(v: array<bv32>, h: array<bv32>, m: array<bv32>, words: seq<bv32>, off: nat, t: nat,
                           ghost k: nat, ghost h0: seq<bv32>)
    returns (fits: bool, ghost k': nat)
    requires v.Length == 16 && h.Length == 8 && m.Length == 16
    requires v != h && m != v && m != h
    requires off == 16 * k && t == 64 * k && t < TWO_POW_32 && off + 16 <= |words|
    requires |h0| == 8 && h[..] == FullBlocks(h0, words, k)
    modifies v, h, m
    ensures fits <==> t + 64 < TWO_POW_32
    ensures k' == k + 1
    ensures fits ==> h[..] == FullBlocks(h0, words, k')
  {
    k' := k + 1;
    fits := CompressBlockCorrected(v, h, m, words, off, t, k);
    if fits {
      FullBlocksStep(h0, words, k);
    }
  }

  /** FullBlocks one block further: block k, words 16k .. 16k + 15, compressed with the counter at 64 (k + 1). */
  lemma FullBlocksStep(h: seq<bv32>, words: seq<bv32>, k: nat)
    requires |h| == 8 && 16 * (k + 1) <= |words| && 64 * (k + 1) < TWO_POW_64
    ensures FullBlocks(h, words, k + 1) == F(FullBlocks(h, words, k), words[16 * k..16 * k + 16], 64 * k + 64, false)
  {
  }

  /**
   * One pass of the loop of lines 33-38 with the offset repaired: block k, the sixteen words from
   * word offset off = 16k, goes to m, t = 64k grows by 64 unless that overflows, and the block is
   * compressed with the new t.
   */
  method CompressBlockCorrected(v: array<bv32>, h: array<bv32>, m: array<bv32>, words: seq<bv32>, off: nat, t: nat,
                                ghost k: nat)
    returns (fits: bool)
    requires v.Length == 16 && h.Length == 8 && m.Length == 16
    requires v != h && m != v && m != h
    requires off == 16 * k && t == 64 * k && off + 16 <= |words|
    modifies v, h, m
    ensures fits <==> t + 64 < TWO_POW_32
    ensures fits ==> h[..] == F(old(h[..]), words[16 * k..16 * k + 16], 64 * k + 64, false)
  {
    LoadBlockAt(m, words, off, k);
    if t + 64 >= TWO_POW_32 {
      return false;
    }
    assert h[..] == old(h[..]) && t + 64 == 64 * k + 64;
    Compress(v, h, m[..], t + 64, false);
    return true;
  }

  /** Line 35 repaired: the words from offset off = 16k are block k. */
  method LoadBlockAt(m: array<bv32>, words: seq<bv32>, off: nat, ghost k: nat)
    requires m.Length == 16 && off == 16 * k && off + 16 <= |words|
    modifies m
    ensures m[..] == words[16 * k..16 * k + 16]
  {
    LoadBlock(m, words, off);
  }

  /** Lines 42-47 repaired: the last words, then zeros up to and including position 15. */
  method LoadFinalBlockCorrected(m: array<bv32>, tail: seq<bv32>)
    requires m.Length == 16 && |tail| <= 16
    modifies m
    ensures m[..] == Pad(tail)
  {
    var n := |tail|;
    forall k | 0 <= k < n {
      m[k] := tail[k];
    }
    var i := n;
    while i < 16
      invariant n <= i <= 16
      invariant forall k :: 0 <= k < n ==> m[k] == tail[k]
      invariant forall k :: n <= k < i ==> m[k] == 0
      modifies m
    {
      m[i] := 0;
      i := i + 1;
    }
    ghost var block := Pad(tail);
    assert m[..] == block by {
      forall k | 0 <= k < 16
        ensures m[k] == block[k]
      {
        if k < n {
          assert block[..n][k] == tail[k];
        }
      }
    }
  }

  /** Lines 40-47 repaired, reading the n words left after k whole blocks. */
  method LoadFinalBlockAt(m: array<bv32>, words: seq<bv32>, n: nat, ghost k: nat)
    requires m.Length == 16 && n <= 16 && |words| - n == 16 * k
    modifies m
    ensures m[..] == Pad(words[16 * k..])
  {
    LoadFinalBlockCorrected(m, words[|words| - n..]);
  }

  /**
   * Lines 40-49 repaired: the n words left after k whole blocks, padded with zeros through
   * position 15, compressed as the last block with the counter at the full byte length t + 4 n.
   */
  method CompressFinalBlockCorrected(v: array<bv32>, h: array<bv32>, m: array<bv32>, words: seq<bv32>, t: nat, n: nat,
                                     ghost k: nat)
    returns (fits: bool)
    requires v.Length == 16 && h.Length == 8 && m.Length == 16
    requires v != h && m != v && m != h
    requires n <= 16 && |words| - n == 16 * k && t == 4 * (|words| - n)
    modifies v, h, m
    ensures fits <==> 4 * |words| < TWO_POW_32
    ensures fits ==> h[..] == F(old(h[..]), Pad(words[16 * k..]), 4 * |words|, true)
  {
    LoadFinalBlockAt(m, words, n, k);
    if t + 4 * n >= TWO_POW_32 {
      return false;
    }
    assert h[..] == old(h[..]) && t + 4 * n == 4 * |words|;
    Compress(v, h, m[..], t + 4 * n, true);
    return true;
  }
}
