/**
 * `mix` and `compress` of src/crypto/blake2s.rs: in-place updates of a 16-word working vector
 * `v` and an 8-word state `h`, proved equal to G and F of RFC 7693.
 */
module Blake2sCompression {
  import opened Blake2sConstants
  import opened Rfc7693

  /**
   * Entries off .. off + 7 of row are what the `as u8` casts of lines 87-96 read out of the packed
   * word w: byte k of w (counting from the least significant) is entry off + k.
   */
  predicate HalfMatches(w: bv64, row: seq<nat>, off: nat)
    requires |row| == 16 && off + 8 <= 16
  {
    LowByte(w) as nat == row[off] &&
    LowByte(w >> 8) as nat == row[off + 1] &&
    LowByte(w >> 16) as nat == row[off + 2] &&
    LowByte(w >> 24) as nat == row[off + 3] &&
    LowByte(w >> 32) as nat == row[off + 4] &&
    LowByte(w >> 40) as nat == row[off + 5] &&
    LowByte(w >> 48) as nat == row[off + 6] &&
    LowByte(w >> 56) as nat == row[off + 7]
  }

  /**
   * Row r of the RFC's SIGMA is packed into entries 2r (the column half, read by lines 87-90)
   * and 2r + 1 (the diagonal half, read by lines 93-96).
   */
  predicate PackedRowMatchesRfc(r: nat)
    requires r < 10
  {
    HalfMatches(SIGMA[2 * r], Sigma(r), 0) && HalfMatches(SIGMA[2 * r + 1], Sigma(r), 8)
  }

  /** The packed SIGMA is the message schedule of section 2.7 of RFC 7693, row by row. */
  lemma PackedScheduleMatchesRfc(r: nat)
    requires r < 10
    ensures PackedRowMatchesRfc(r)
  {
    if r == 0 { PackedRow0(); }
    else if r == 1 { PackedRow1(); }
    else if r == 2 { PackedRow2(); }
    else if r == 3 { PackedRow3(); }
    else if r == 4 { PackedRow4(); }
    else if r == 5 { PackedRow5(); }
    else if r == 6 { PackedRow6(); }
    else if r == 7 { PackedRow7(); }
    else if r == 8 { PackedRow8(); }
    else { PackedRow9(); }
  }

  /** The sixteen indices lines 87-96 read out of SIGMA[2r] and SIGMA[2r + 1], in the order they are used. */
  function PackedRow(r: nat): (row: seq<nat>)
    requires r < 10
    ensures |row| == 16
  {
    var c, d := SIGMA[2 * r], SIGMA[2 * r + 1];
    [LowByte(c) as nat, LowByte(c >> 8) as nat, LowByte(c >> 16) as nat, LowByte(c >> 24) as nat,
     LowByte(c >> 32) as nat, LowByte(c >> 40) as nat, LowByte(c >> 48) as nat, LowByte(c >> 56) as nat,
     LowByte(d) as nat, LowByte(d >> 8) as nat, LowByte(d >> 16) as nat, LowByte(d >> 24) as nat,
     LowByte(d >> 32) as nat, LowByte(d >> 40) as nat, LowByte(d >> 48) as nat, LowByte(d >> 56) as nat]
  }

  /**
   * Every round reads each message word exactly once: the sixteen bytes of SIGMA[2r] and
   * SIGMA[2r + 1] are indices below 16 (so `m[xi as usize]` is in bounds) and pairwise distinct.
   */
  lemma PackedRowIsPermutation(r: nat)
    requires r < 10
    ensures IsPermutation(PackedRow(r))
  {
    PackedRowIsSigma(r);
    SigmaRowsArePermutations(r);
  }

  /** The bytes lines 87-96 read in round r are row r of the RFC's SIGMA. */
  lemma PackedRowIsSigma(r: nat)
    requires r < 10
    ensures PackedRow(r) == Sigma(r)
  {
    PackedScheduleMatchesRfc(r);
    var row, s := PackedRow(r), Sigma(r);
    assert HalfMatches(SIGMA[2 * r], s, 0) && HalfMatches(SIGMA[2 * r + 1], s, 8);
    forall k | 0 <= k < 16
      ensures row[k] == s[k]
    {
    }
  }

  lemma PackedRow0()
    ensures PackedRowMatchesRfc(0)
  {
    PackedHalf0();
    PackedHalf1();
  }

  lemma PackedHalf0()
    ensures HalfMatches(SIGMA[0], Sigma(0), 0)
  {
  }

  lemma PackedHalf1()
    ensures HalfMatches(SIGMA[1], Sigma(0), 8)
  {
  }

  lemma PackedRow1()
    ensures PackedRowMatchesRfc(1)
  {
    PackedHalf2();
    PackedHalf3();
  }

  lemma PackedHalf2()
    ensures HalfMatches(SIGMA[2], Sigma(1), 0)
  {
  }

  lemma PackedHalf3()
    ensures HalfMatches(SIGMA[3], Sigma(1), 8)
  {
  }

  lemma PackedRow2()
    ensures PackedRowMatchesRfc(2)
  {
    PackedHalf4();
    PackedHalf5();
  }

  lemma PackedHalf4()
    ensures HalfMatches(SIGMA[4], Sigma(2), 0)
  {
  }

  lemma PackedHalf5()
    ensures HalfMatches(SIGMA[5], Sigma(2), 8)
  {
  }

  lemma PackedRow3()
    ensures PackedRowMatchesRfc(3)
  {
    PackedHalf6();
    PackedHalf7();
  }

  lemma PackedHalf6()
    ensures HalfMatches(SIGMA[6], Sigma(3), 0)
  {
  }

  lemma PackedHalf7()
    ensures HalfMatches(SIGMA[7], Sigma(3), 8)
  {
  }

  lemma PackedRow4()
    ensures PackedRowMatchesRfc(4)
  {
    PackedHalf8();
    PackedHalf9();
  }

  lemma PackedHalf8()
    ensures HalfMatches(SIGMA[8], Sigma(4), 0)
  {
  }

  lemma PackedHalf9()
    ensures HalfMatches(SIGMA[9], Sigma(4), 8)
  {
  }

  lemma PackedRow5()
    ensures PackedRowMatchesRfc(5)
  {
    PackedHalf10();
    PackedHalf11();
  }

  lemma PackedHalf10()
    ensures HalfMatches(SIGMA[10], Sigma(5), 0)
  {
  }

  lemma PackedHalf11()
    ensures HalfMatches(SIGMA[11], Sigma(5), 8)
  {
  }

  lemma PackedRow6()
    ensures PackedRowMatchesRfc(6)
  {
    PackedHalf12();
    PackedHalf13();
  }

  lemma PackedHalf12()
    ensures HalfMatches(SIGMA[12], Sigma(6), 0)
  {
  }

  lemma PackedHalf13()
    ensures HalfMatches(SIGMA[13], Sigma(6), 8)
  {
  }

  lemma PackedRow7()
    ensures PackedRowMatchesRfc(7)
  {
    PackedHalf14();
    PackedHalf15();
  }

  lemma PackedHalf14()
    ensures HalfMatches(SIGMA[14], Sigma(7), 0)
  {
  }

  lemma PackedHalf15()
    ensures HalfMatches(SIGMA[15], Sigma(7), 8)
  {
  }

  lemma PackedRow8()
    ensures PackedRowMatchesRfc(8)
  {
    PackedHalf16();
    PackedHalf17();
  }

  lemma PackedHalf16()
    ensures HalfMatches(SIGMA[16], Sigma(8), 0)
  {
  }

  lemma PackedHalf17()
    ensures HalfMatches(SIGMA[17], Sigma(8), 8)
  {
  }

  lemma PackedRow9()
    ensures PackedRowMatchesRfc(9)
  {
    PackedHalf18();
    PackedHalf19();
  }

  lemma PackedHalf18()
    ensures HalfMatches(SIGMA[18], Sigma(9), 0)
  {
  }

  lemma PackedHalf19()
    ensures HalfMatches(SIGMA[19], Sigma(9), 8)
  {
  }

  /**
   * `mix` (lines 107-116): the quarter-round G of section 3.1 of RFC 7693 on words a, b, c, d of v,
   * with message words m[xi] and m[yi]. The four words are read once and written back once; as the
   * four indices are distinct, this leaves v as the source's in-place statements do.
   */
  method Mix(v: array<bv32>, m: seq<bv32>, a: nat, b: nat, c: nat, d: nat, xi: nat, yi: nat)
    requires v.Length == 16 && |m| == 16
    requires a < 16 && b < 16 && c < 16 && d < 16
    requires a != b && a != c && a != d && b != c && b != d && c != d
    requires xi < 16 && yi < 16
    modifies v
    ensures v[..] == G(old(v[..]), a, b, c, d, m[xi], m[yi])
  {
    var va, vb, vc, vd := v[a], v[b], v[c], v[d];
    va := WrappingAdd(WrappingAdd(va, vb), m[xi]);
    vd := RotateRight(Xor(vd, va), 16);
    vc := WrappingAdd(vc, vd);
    vb := RotateRight(Xor(vb, vc), 12);
    va := WrappingAdd(WrappingAdd(va, vb), m[yi]);
    vd := RotateRight(Xor(vd, va), 8);
    vc := WrappingAdd(vc, vd);
    vb := RotateRight(Xor(vb, vc), 7);
    v[a], v[b], v[c], v[d] := va, vb, vc, vd;
  }

  /**
   * `compress` (lines 75-104): builds the working vector from h, IV, the counter and the
   * last-block flag, runs the ten rounds on it and folds it back into h, which ends as F of
   * section 3.2 of RFC 7693 applied to the old h.
   */
  method Compress(v: array<bv32>, h: array<bv32>, m: seq<bv32>, t: nat, last: bool)
    requires v.Length == 16 && h.Length == 8 && |m| == 16 && t < TWO_POW_32
    requires v != h
    modifies v, h
    ensures h[..] == F(old(h[..]), m, t, last)
  {
    InitWorkVector(v, h, t, last);
    RunRounds(v, m);
    FinalizeState(h, v);
  }

  /** Lines 77-83: v is h followed by IV, with the counter folded into v[12] and v[14] inverted on the last block. */
  method InitWorkVector(v: array<bv32>, h: array<bv32>, t: nat, last: bool)
    requires v.Length == 16 && h.Length == 8 && t < TWO_POW_32
    requires v != h
    modifies v
    ensures v[..] == InitVector(h[..], t, last)
  {
    forall k | 0 <= k < 8 {
      v[k] := h[k];
    }
    forall k | 8 <= k < 16 {
      v[k] := IV[k - 8];
    }
    v[12] := Xor(v[12], t as bv32);
    if last {
      v[14] := !v[14];
    }
    InitVectorFromWords(v[..], h[..], t, last);
  }

  /** Lines 85-99: the ten rounds, with i stepping through SIGMA two entries per round. */
  method RunRounds(v: array<bv32>, m: seq<bv32>)
    requires v.Length == 16 && |m| == 16
    modifies v
    ensures v[..] == Rounds(old(v[..]), m, 10)
  {
    ghost var v0 := v[..];
    ghost var done := 0;
    var i := 0;
    for r := 0 to 10
      invariant i == 2 * r && done == r
      invariant v[..] == Rounds(v0, m, done)
    {
      done := NextRound(v, m, i, v0, done);
      i := i + 2;
    }
  }

  /** One more round of the loop: after the first `done` rounds come the first `done + 1`. */
  method NextRound(v: array<bv32>, m: seq<bv32>, i: nat, ghost v0: seq<bv32>, ghost done: nat)
    returns (ghost done': nat)
    requires v.Length == 16 && |m| == 16 && |v0| == 16 && done < 10 && i == 2 * done
    requires v[..] == Rounds(v0, m, done)
    modifies v
    ensures done' == done + 1 && v[..] == Rounds(v0, m, done')
  {
    DoScheduledRound(v, m, i, done);
    RoundsStep(v0, m, done);
    done' := done + 1;
  }

  /** The first r + 1 rounds are round r applied after the first r. */
  lemma RoundsStep(v: seq<bv32>, m: seq<bv32>, r: nat)
    requires |v| == 16 && |m| == 16 && r < 10
    ensures Rounds(v, m, r + 1) == MixesFrom(Rounds(v, m, r), m, Sigma(r), 0)
  {
  }

  /** Lines 101-103: h[i] ^= v[i] ^ v[i + 8]. */
  method FinalizeState(h: array<bv32>, v: array<bv32>)
    requires h.Length == 8 && v.Length == 16
    requires v != h
    modifies h
    ensures h[..] == Finalize(old(h[..]), v[..])
  {
    ghost var h0 := h[..];
    for k := 0 to 8
      invariant forall j :: 0 <= j < k ==> h[j] == Xor(Xor(h0[j], v[j]), v[j + 8])
      invariant forall j :: k <= j < 8 ==> h[j] == h0[j]
    {
      h[k] := Xor(Xor(h[k], v[k]), v[k + 8]);
    }
    FinalizeFromWords(h0, v[..], h[..]);
  }

  /** Round r of the loop of `compress`, entered with i == 2r: round r of section 3.2 of RFC 7693. */
  method DoScheduledRound(v: array<bv32>, m: seq<bv32>, i: nat, ghost r: nat)
    requires v.Length == 16 && |m| == 16 && r < 10 && i == 2 * r
    modifies v
    ensures v[..] == MixesFrom(old(v[..]), m, Sigma(r), 0)
  {
    HalvesMakeRound(v[..], m, Sigma(r));
    PackedScheduleMatchesRfc(r);
    DoRound(v, m, i, Sigma(r));
  }

  /**
   * One pass of the loop of `compress` (lines 87-98): the column half scheduled by SIGMA[i], then
   * the diagonal half by SIGMA[i + 1], which together hold the schedule row of the round.
   */
  method DoRound(v: array<bv32>, m: seq<bv32>, i: nat, ghost row: seq<nat>)
    requires v.Length == 16 && |m| == 16 && i + 1 < |SIGMA| && ValidRow(row)
    requires HalfMatches(SIGMA[i], row, 0) && HalfMatches(SIGMA[i + 1], row, 8)
    modifies v
    ensures v[..] == Diagonals(Columns(old(v[..]), m, row), m, row)
  {
    MixColumns(v, m, i, row);
    MixDiagonals(v, m, i + 1, row);
  }

  /** The first half of a round as lines 87-90 write it: G on the four columns, message words s[0] .. s[7]. */
  function Columns(v: seq<bv32>, m: seq<bv32>, s: seq<nat>): (w: seq<bv32>)
    requires |v| == 16 && |m| == 16 && ValidRow(s)
    ensures |w| == 16
  {
    var v := G(v, 0, 4, 8, 12, m[s[0]], m[s[1]]);
    var v := G(v, 1, 5, 9, 13, m[s[2]], m[s[3]]);
    var v := G(v, 2, 6, 10, 14, m[s[4]], m[s[5]]);
    G(v, 3, 7, 11, 15, m[s[6]], m[s[7]])
  }

  /** The second half as lines 93-96 write it: G on the four diagonals, message words s[8] .. s[15]. */
  function Diagonals(v: seq<bv32>, m: seq<bv32>, s: seq<nat>): (w: seq<bv32>)
    requires |v| == 16 && |m| == 16 && ValidRow(s)
    ensures |w| == 16
  {
    var v := G(v, 0, 5, 10, 15, m[s[8]], m[s[9]]);
    var v := G(v, 1, 6, 11, 12, m[s[10]], m[s[11]]);
    var v := G(v, 2, 7, 8, 13, m[s[12]], m[s[13]]);
    G(v, 3, 4, 9, 14, m[s[14]], m[s[15]])
  }

  /** The two halves, one after the other, are the eight applications of G of a round of RFC 7693. */
  lemma {:induction false} HalvesMakeRound(v: seq<bv32>, m: seq<bv32>, s: seq<nat>)
    requires |v| == 16 && |m| == 16 && ValidRow(s)
    ensures Diagonals(Columns(v, m, s), m, s) == MixesFrom(v, m, s, 0)
  {
    ColumnsAreFirstHalf(v, m, s);
    DiagonalsAreSecondHalf(Columns(v, m, s), m, s);
  }

  lemma {:induction false} ColumnsAreFirstHalf(v: seq<bv32>, m: seq<bv32>, s: seq<nat>)
    requires |v| == 16 && |m| == 16 && ValidRow(s)
    ensures MixesFrom(v, m, s, 0) == MixesFrom(Columns(v, m, s), m, s, 4)
  {
    var v1 := G(v, 0, 4, 8, 12, m[s[0]], m[s[1]]);
    var v2 := G(v1, 1, 5, 9, 13, m[s[2]], m[s[3]]);
    var v3 := G(v2, 2, 6, 10, 14, m[s[4]], m[s[5]]);
    assert MixesFrom(v, m, s, 0) == MixesFrom(v1, m, s, 1);
    assert MixesFrom(v1, m, s, 1) == MixesFrom(v2, m, s, 2);
    var v4 := G(v3, 3, 7, 11, 15, m[s[6]], m[s[7]]);
    assert MixesFrom(v2, m, s, 2) == MixesFrom(v3, m, s, 3);
    assert MixesFrom(v3, m, s, 3) == MixesFrom(v4, m, s, 4);
  }

  lemma {:induction false} DiagonalsAreSecondHalf(u: seq<bv32>, m: seq<bv32>, s: seq<nat>)
    requires |u| == 16 && |m| == 16 && ValidRow(s)
    ensures MixesFrom(u, m, s, 4) == Diagonals(u, m, s)
  {
    var u1 := G(u, 0, 5, 10, 15, m[s[8]], m[s[9]]);
    var u2 := G(u1, 1, 6, 11, 12, m[s[10]], m[s[11]]);
    var u3 := G(u2, 2, 7, 8, 13, m[s[12]], m[s[13]]);
    assert MixesFrom(u, m, s, 4) == MixesFrom(u1, m, s, 5);
    assert MixesFrom(u1, m, s, 5) == MixesFrom(u2, m, s, 6);
    var u4 := G(u3, 3, 4, 9, 14, m[s[14]], m[s[15]]);
    assert MixesFrom(u2, m, s, 6) == MixesFrom(u3, m, s, 7);
    assert MixesFrom(u3, m, s, 7) == MixesFrom(u4, m, s, 8);
  }

  /** Lines 87-90: G on the four columns, message words chosen by the bytes of SIGMA[i]. */
  method MixColumns(v: array<bv32>, m: seq<bv32>, i: nat, ghost row: seq<nat>)
    requires v.Length == 16 && |m| == 16 && i < |SIGMA| && ValidRow(row)
    requires HalfMatches(SIGMA[i], row, 0)
    modifies v
    ensures v[..] == Columns(old(v[..]), m, row)
  {
    Mix(v, m, 0, 4, 8, 12, LowByte(SIGMA[i]) as nat, LowByte(SIGMA[i] >> 8) as nat);
    Mix(v, m, 1, 5, 9, 13, LowByte(SIGMA[i] >> 16) as nat, LowByte(SIGMA[i] >> 24) as nat);
    Mix(v, m, 2, 6, 10, 14, LowByte(SIGMA[i] >> 32) as nat, LowByte(SIGMA[i] >> 40) as nat);
    Mix(v, m, 3, 7, 11, 15, LowByte(SIGMA[i] >> 48) as nat, LowByte(SIGMA[i] >> 56) as nat);
  }

  /** Lines 93-96: G on the four diagonals, message words chosen by the bytes of SIGMA[i]. */
  method MixDiagonals(v: array<bv32>, m: seq<bv32>, i: nat, ghost row: seq<nat>)
    requires v.Length == 16 && |m| == 16 && i < |SIGMA| && ValidRow(row)
    requires HalfMatches(SIGMA[i], row, 8)
    modifies v
    ensures v[..] == Diagonals(old(v[..]), m, row)
  {
    Mix(v, m, 0, 5, 10, 15, LowByte(SIGMA[i]) as nat, LowByte(SIGMA[i] >> 8) as nat);
    Mix(v, m, 1, 6, 11, 12, LowByte(SIGMA[i] >> 16) as nat, LowByte(SIGMA[i] >> 24) as nat);
    Mix(v, m, 2, 7, 8, 13, LowByte(SIGMA[i] >> 32) as nat, LowByte(SIGMA[i] >> 40) as nat);
    Mix(v, m, 3, 4, 9, 14, LowByte(SIGMA[i] >> 48) as nat, LowByte(SIGMA[i] >> 56) as nat);
  }

  /** The counter of `compress` is a u32: its low word is itself and its high word is zero. */
  lemma CounterWords(t: nat)
    requires t < TWO_POW_32
    ensures (t % TWO_POW_32) as bv32 == t as bv32
    ensures (t / TWO_POW_32) as bv32 == 0
  {
  }

  lemma {:induction false} InitVectorFromWords(v: seq<bv32>, h: seq<bv32>, t: nat, last: bool)
    requires |v| == 16 && |h| == 8 && t < TWO_POW_32
    requires forall k :: 0 <= k < 8 ==> v[k] == h[k]
    requires forall k :: 8 <= k < 16 && k != 12 && k != 14 ==> v[k] == IV[k - 8]
    requires v[12] == Xor(IV[4], t as bv32)
    requires v[14] == if last then !IV[6] else IV[6]
    ensures v == InitVector(h, t, last)
  {
    CounterWords(t);
  }

  lemma {:induction false} FinalizeFromWords(h0: seq<bv32>, v: seq<bv32>, h1: seq<bv32>)
    requires |h0| == 8 && |v| == 16 && |h1| == 8
    requires forall j :: 0 <= j < 8 ==> h1[j] == Xor(Xor(h0[j], v[j]), v[j + 8])
    ensures h1 == Finalize(h0, v)
  {
  }
}
