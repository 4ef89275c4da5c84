/**
 * The public functions `hash` and `hash_fixed` of src/crypto/blake2s.rs (lines 17-69). Both
 * take their input as a slice of u64 values and write the 32-byte digest into a slice of four
 * u64 values; the source reinterprets both slices in place as u32 words, which the model spells
 * out as little-endian packing and unpacking.
 */
module Blake2sHash {
  import opened Blake2sConstants
  import opened Rfc7693
  import opened Blake2sCompression

  /** How a call of `hash` ends: normally, or in one of the panics its slicing and counter arithmetic can raise. */
  datatype Outcome = Completed | SliceOutOfBounds | CounterOverflow

  /** The low 32 bits of a u64, the first u32 of its little-endian memory. */
  function Low(x: bv64): (lo: bv32) {
    (x & 0xFFFF_FFFF) as bv32
  }

  /** The high 32 bits of a u64, the second u32 of its little-endian memory. */
  function High(x: bv64): (hi: bv32) {
    (x >> 32) as bv32
  }

  /** The u64 whose little-endian memory holds lo and then hi. */
  function Join(lo: bv32, hi: bv32): (x: bv64) {
    (hi as bv64 << 32) | lo as bv64
  }

  lemma JoinSplits(lo: bv32, hi: bv32)
    ensures Low(Join(lo, hi)) == lo && High(Join(lo, hi)) == hi
  {
  }

  lemma SplitJoins(x: bv64)
    ensures Join(Low(x), High(x)) == x
  {
  }

  /**
   * `slice::from_raw_parts(values.as_ptr() as *const u32, values.len() * 2)` on a little-endian
   * target: each u64 becomes two u32 words, low half first.
   */
  function Unpack(values: seq<bv64>): (words: seq<bv32>)
    ensures |words| == 2 * |values|
  {
    seq(2 * |values|, i requires 0 <= i < 2 * |values| => if i % 2 == 0 then Low(values[i / 2]) else High(values[i / 2]))
  }

  /** The inverse view: an even number of u32 words read back as u64 values. */
  function Pack(words: seq<bv32>): (values: seq<bv64>)
    requires |words| % 2 == 0
    ensures 2 * |values| == |words|
    ensures forall k :: 0 <= k < |values| ==> values[k] == Join(words[2 * k], words[2 * k + 1])
  {
    seq(|words| / 2, k requires 0 <= k < |words| / 2 => Join(words[2 * k], words[2 * k + 1]))
  }

  /** Reading u64 values as words and back gives the values. */
  lemma {:induction false} PackUnpack(values: seq<bv64>)
    ensures Pack(Unpack(values)) == values
  {
    forall k | 0 <= k < |values|
      ensures Pack(Unpack(values))[k] == values[k]
    {
      PackUnpackAt(values, k);
    }
  }

  /** Value k of the values packed from Unpack(values) is value k of values. */
  lemma PackUnpackAt(values: seq<bv64>, k: nat)
    requires k < |values|
    ensures Pack(Unpack(values))[k] == values[k]
  {
    SplitJoins(values[k]);
  }

  /** Writing words as u64 values and reading them back gives the words. */
  lemma {:induction false} UnpackPack(words: seq<bv32>)
    requires |words| % 2 == 0
    ensures Unpack(Pack(words)) == words
  {
    forall i | 0 <= i < |words|
      ensures Unpack(Pack(words))[i] == words[i]
    {
      UnpackPackAt(words, i);
    }
  }

  /** Word i of the words read back from Pack(words) is word i of words. */
  lemma UnpackPackAt(words: seq<bv32>, i: nat)
    requires |words| % 2 == 0 && i < |words|
    ensures Unpack(Pack(words))[i] == words[i]
  {
    var k := i / 2;
    JoinSplits(words[2 * k], words[2 * k + 1]);
  }

  /** The literal of lines 25 and 61 is the first word of the RFC's parameter block for kk = 0, nn = 32. */
  lemma InitialWordMatchesRfc()
    ensures 0x6b08e647 == IV[0] ^ 0x01010000 ^ (0 << 8) ^ 32
  {
  }

  /** Lines 25-26 (and 61-62): h[0] is the literal, h[1 .. 8] is copied from IV. */
  method InitState(h: array<bv32>)
    requires h.Length == 8
    modifies h
    ensures h[..] == InitialHash(0, 32)
  {
    h[0] := 0x6b08e647;
    forall k | 1 <= k < 8 {
      h[k] := IV[k];
    }
    InitialWordMatchesRfc();
  }

  /** The state words, written through the reinterpreted result slice: result holds Pack(h). */
  method StoreState(h: array<bv32>, result: array<bv64>)
    requires h.Length == 8 && result.Length == 4
    modifies result
    ensures result[..] == Pack(h[..])
    ensures Unpack(result[..]) == h[..]
  {
    forall k | 0 <= k < 4 {
      result[k] := Join(h[2 * k], h[2 * k + 1]);
    }
    UnpackPack(h[..]);
  }

  /**
   * The final block as lines 40-46 build it in the array m that held the previous block: the
   * remaining words, then zeros at positions |tail| .. 14 only; position 15 keeps its old word.
   */
  function FinalBlockAsWritten(prev: seq<bv32>, tail: seq<bv32>): (block: seq<bv32>)
    requires |prev| == 16 && |tail| <= 16
    ensures |block| == 16 && block[..|tail|] == tail
    ensures forall i :: |tail| <= i < 15 ==> block[i] == 0
    ensures |tail| < 16 ==> block[15] == prev[15]
  {
    seq(16, i requires 0 <= i < 16 => if i < |tail| then tail[i] else if i < 15 then 0 else prev[15])
  }

  /** When m still holds the zeros it was created with, the block of lines 40-46 is the padded block of the RFC. */
  lemma FinalBlockFromZeros(prev: seq<bv32>, tail: seq<bv32>)
    requires |prev| == 16 && |tail| <= 16
    requires forall i :: 0 <= i < 16 ==> prev[i] == 0
    ensures FinalBlockAsWritten(prev, tail) == Pad(tail)
  {
    var block := FinalBlockAsWritten(prev, tail);
    forall i | 0 <= i < 16
      ensures block[i] == Pad(tail)[i]
    {
      if i < |tail| {
        assert block[..|tail|][i] == Pad(tail)[..|tail|][i];
      }
    }
  }

  /** An input of at most sixteen words is a single, final compression of its padded block (section 3.3). */
  lemma ShortInputIsOneCompression(words: seq<bv32>)
    requires |words| <= 16
    ensures Digest(words) == F(InitialHash(0, 32), Pad(words), 4 * |words|, true)
  {
  }

  /** The empty input is one compression of an all-zero block with counter 0. */
  lemma EmptyInputIsZeroBlock()
    ensures Digest([]) == F(InitialHash(0, 32), seq(16, _ => 0), 0, true)
  {
    assert Pad([]) == seq(16, _ => 0);
  }

  /**
   * `hash` (lines 17-50) as written. Its byte counter t also serves as the word offset into the
   * input (lines 35 and 43), so every input of more than sixteen words ends in a panic; shorter
   * inputs are hashed as section 3.3 of RFC 7693 prescribes.
   */
  method Hash(values: seq<bv64>, result: array<bv64>) returns (outcome: Outcome)
    requires result.Length == 4
    modifies result
    ensures outcome == Completed <==> |values| <= 8
    ensures outcome == Completed ==> Unpack(result[..]) == Digest(Unpack(values))
  {
    var h := new bv32[8];
    outcome := HashWords(Unpack(values), h);
    if outcome != Completed {
      return;
    }
    StoreState(h, result);
  }

  /**
   * Lines 24-49, on the word view of the input: the state is initialised, the loop compresses
   * the full blocks and the remaining words are compressed as the last block.
   */
  method HashWords(words: seq<bv32>, h: array<bv32>) returns (outcome: Outcome)
    requires h.Length == 8
    modifies h
    ensures outcome == Completed <==> |words| <= 16
    ensures outcome == Completed ==> h[..] == Digest(words)
  {
    InitState(h);
    var m := new bv32[16](_ => 0);
    var v := new bv32[16](_ => 0);
    var t, n;
    outcome, t, n := CompressFullBlocks(v, h, m, words);
    if outcome != Completed {
      return;
    }
    ghost var prev := m[..];
    var copied := CompressFinalBlock(v, h, m, words, t, n);
    if !copied {
      return SliceOutOfBounds;
    }
    FinalBlockFromZeros(prev, words);
    ShortInputIsOneCompression(words);
  }

  /**
   * Lines 29-38: while more than sixteen words remain, copy sixteen of them from offset t into
   * m, add 64 to t and compress. Completed here means the loop ended without a panic, with n
   * words left and t == 4 * (|words| - n); when it ran at all, h and m are as the source leaves them,
   * otherwise untouched.
   */
  method CompressFullBlocks(v: array<bv32>, h: array<bv32>, m: array<bv32>, words: seq<bv32>)
    returns (outcome: Outcome, t: nat, n: nat)
    requires v.Length == 16 && h.Length == 8 && m.Length == 16
    requires v != h && m != v && m != h
    modifies v, h, m
    ensures outcome == Completed ==> n <= 16 && n <= |words| && t == 4 * (|words| - n)
    ensures outcome == Completed ==> n == |words| || (|words| > 16 && n > 0)
    ensures outcome == Completed && n == |words| ==> h[..] == old(h[..]) && m[..] == old(m[..])
    ensures outcome != Completed ==> |words| > 16
  {
    t := 0;
    n := |words|;
    while n > 16
      invariant n <= |words| && t == 4 * (|words| - n)
      invariant n == |words| || (|words| > 16 && n > 0)
      invariant n == |words| ==> h[..] == old(h[..]) && m[..] == old(m[..])
      decreases n
    {
      if t + 16 > |words| {
        return SliceOutOfBounds, t, n;
      }
      LoadBlock(m, words, t);
      if t + 64 >= TWO_POW_32 {
        return CounterOverflow, t, n;
      }
      t := t + 64;
      Compress(v, h, m[..], t, false);
      n := n - 16;
    }
    return Completed, t, n;
  }

  /** Line 35: the sixteen words from offset off are copied into m. */
  method LoadBlock(m: array<bv32>, words: seq<bv32>, off: nat)
    requires m.Length == 16 && off + 16 <= |words|
    modifies m
    ensures m[..] == words[off..off + 16]
  {
    forall k | 0 <= k < 16 {
      m[k] := words[off + k];
    }
  }

  /**
   * Lines 42-47: the remaining words tail go to the front of m and positions |tail| .. 14 are
   * cleared; the loop stops short of position 15, which keeps the word it held.
   */
  method LoadFinalBlock(m: array<bv32>, tail: seq<bv32>)
    requires m.Length == 16 && |tail| <= 16
    modifies m
    ensures m[..] == FinalBlockAsWritten(old(m[..]), tail)
  {
    var n := |tail|;
    forall k | 0 <= k < n {
      m[k] := tail[k];
    }
    var i := n;
    while i < 15
      invariant n <= i <= 16
      invariant forall k :: 0 <= k < n ==> m[k] == tail[k]
      invariant forall k :: n <= k < i ==> m[k] == 0
      invariant n < 16 ==> m[15] == old(m[15])
      modifies m
    {
      m[i] := 0;
      i := i + 1;
    }
    ghost var block := FinalBlockAsWritten(old(m[..]), tail);
    assert m[..] == block by {
      forall k | 0 <= k < 16
        ensures m[k] == block[k]
      {
        if k < n {
          assert block[..n][k] == tail[k];
        }
      }
    }
  }

  /**
   * Lines 40-49: the remaining n words, read from offset t, go to the front of m, positions
   * n .. 14 are cleared, t grows by the 4 * n bytes and the block is compressed as the last one.
   * Reports false where the slice of line 43 would be out of bounds, which is whenever the loop
   * of lines 33-38 ran at all.
   */
  method CompressFinalBlock(v: array<bv32>, h: array<bv32>, m: array<bv32>, words: seq<bv32>, t: nat, n: nat)
    returns (copied: bool)
    requires v.Length == 16 && h.Length == 8 && m.Length == 16
    requires v != h && m != v && m != h
    requires n <= 16 && n <= |words| && t == 4 * (|words| - n)
    requires n == |words| || n > 0
    modifies v, h, m
    ensures copied <==> n == |words|
    ensures copied ==> h[..] == F(old(h[..]), FinalBlockAsWritten(old(m[..]), words), 4 * |words|, true)
  {
    if n > 0 && t + n > |words| {
      return false;
    }
    assert t == 0 && words[t..t + n] == words;
    LoadFinalBlock(m, if n > 0 then words[t..t + n] else []);
    var counter := t + 4 * n;
    assert counter == 4 * |words| && h[..] == old(h[..]);
    Compress(v, h, m[..], counter, true);
    return true;
  }

  /**
   * `hash_fixed` (lines 52-69): exactly eight u64 values, i.e. one 64-byte block, compressed once
   * as the last block with counter 64.
   */
  method HashFixed(values: seq<bv64>, result: array<bv64>)
    requires |values| == 8 && result.Length == 4
    modifies result
    ensures Unpack(result[..]) == F(InitialHash(0, 32), Unpack(values), 64, true)
  {
    var m := Unpack(values);
    var h := new bv32[8];
    InitState(h);
    var v := new bv32[16](_ => 0);
    Compress(v, h, m, 64, true);
    StoreState(h, result);
  }

  /** On eight values, the single compression of `hash_fixed` is the RFC digest, which `hash` also computes. */
  lemma FixedAgreesWithHash(values: seq<bv64>)
    requires |values| == 8
    ensures F(InitialHash(0, 32), Unpack(values), 64, true) == Digest(Unpack(values))
  {
    var words := Unpack(values);
    assert Pad(words) == words;
    ShortInputIsOneCompression(words);
  }
}
