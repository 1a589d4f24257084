/** The one-block example of FIPS 180-4, the digest of "abc", worked through word by word and round by round.  It
    fixes the functions of Sha256Spec by a value that none of them has computed. */
module Sha256Vector {
  import opened Arithmetic
  import opened Sha256Spec
  import opened Sha256Laws

  // ---------- the padded message ----------

  const ABC: seq<Byte> := [0x61, 0x62, 0x63]

  function Padded(): (b: Block) {
    ABC + [0x80] + Zeros(59) + [24]
  }

  lemma LengthField()
    ensures BigEndian64(24) == Zeros(7) + [24]
  {
    hide LengthByte;
    LowestDigit();
    forall k | 1 <= k < 8
      ensures LengthByte(24, k) == 0
    {
      UpperDigit(k);
    }
  }

  lemma LowestDigit()
    ensures LengthByte(24, 0) == 24
  {
    assert Digit(24, 0) == 24 by { assert Pow256(0) == 1; }
    hide Digit;
  }

  lemma UpperDigit(k: nat)
    requires k > 0
    ensures LengthByte(24, k) == 0
  {
    var d := Pow256(k);
    assert d == 256 * Pow256(k - 1) >= 256;
    hide Pow256;
    DivisionUnique(24, d, 0, 24);
  }

  lemma PaddingIsRight()
    ensures Pad(ABC) == Padded()
  {
    hide BigEndian64;
    LengthField();
    assert Zeros(52) + Zeros(7) == Zeros(59);
  }

  // ---------- the message schedule ----------

  /** The message schedule, eight words to a row. */
  function WRow(r: nat): (w: seq<Word>)
    requires r < 8
    ensures |w| == 8
  {
    match r
    case 0 => [0x61626380, 0x00000000, 0x00000000, 0x00000000, 0x00000000, 0x00000000, 0x00000000, 0x00000000]
    case 1 => [0x00000000, 0x00000000, 0x00000000, 0x00000000, 0x00000000, 0x00000000, 0x00000000, 0x00000018]
    case 2 => [0x61626380, 0x000f0000, 0x7da86405, 0x600003c6, 0x3e9d7b78, 0x0183fc00, 0x12dcbfdb, 0xe2e2c38e]
    case 3 => [0xc8215c1a, 0xb73679a2, 0xe5bc3909, 0x32663c5b, 0x9d209d67, 0xec8726cb, 0x702138a4, 0xd3b7973b]
    case 4 => [0x93f5997f, 0x3b68ba73, 0xaff4ffc1, 0xf10a5c62, 0x0a8b3996, 0x72af830a, 0x9409e33e, 0x24641522]
    case 5 => [0x9f47bf94, 0xf0a64f5a, 0x3e246a79, 0x27333ba3, 0x0c4763f2, 0x840abf27, 0x7a290d5d, 0x065c43da]
    case 6 => [0xfb3e89cb, 0xcc7617db, 0xb9e66c34, 0xa9993667, 0x84badedd, 0xc21462bc, 0x1487472c, 0xb20f7a99]
    case 7 => [0xef57b9cd, 0xebe6b238, 0x9fe3095e, 0x78bc8d4b, 0xa43fcf15, 0x668b2ff8, 0xeeaba2cc, 0x12b1edeb]
  }

  function Word64(t: nat): Word
    requires t < 64
  {
    WRow(t / 8)[t % 8]
  }

  /** Eight words that the schedule lets follow on sixteen. */
  predicate Follow(x: seq<Word>, y: seq<Word>, z: seq<Word>)
    requires |x| == |y| == |z| == 8
  {
    && z[0] == ScheduleWord(y[6], y[1], x[1], x[0])
    && z[1] == ScheduleWord(y[7], y[2], x[2], x[1])
    && z[2] == ScheduleWord(z[0], y[3], x[3], x[2])
    && z[3] == ScheduleWord(z[1], y[4], x[4], x[3])
    && z[4] == ScheduleWord(z[2], y[5], x[5], x[4])
    && z[5] == ScheduleWord(z[3], y[6], x[6], x[5])
    && z[6] == ScheduleWord(z[4], y[7], x[7], x[6])
    && z[7] == ScheduleWord(z[5], z[0], y[0], x[7])
  }

  lemma ScheduleRow2()
    ensures Follow(WRow(0), WRow(1), WRow(2))
  {
  }

  lemma ScheduleRow3()
    ensures Follow(WRow(1), WRow(2), WRow(3))
  {
  }

  lemma ScheduleRow4()
    ensures Follow(WRow(2), WRow(3), WRow(4))
  {
  }

  lemma ScheduleRow5()
    ensures Follow(WRow(3), WRow(4), WRow(5))
  {
  }

  lemma ScheduleRow6()
    ensures Follow(WRow(4), WRow(5), WRow(6))
  {
  }

  lemma ScheduleRow7()
    ensures Follow(WRow(5), WRow(6), WRow(7))
  {
  }

  lemma RowFollows(r: nat)
    requires 2 <= r < 8
    ensures Follow(WRow(r - 2), WRow(r - 1), WRow(r))
  {
    hide *;
    if r == 2 { ScheduleRow2(); } else if r == 3 { ScheduleRow3(); } else if r == 4 { ScheduleRow4(); }
    else if r == 5 { ScheduleRow5(); } else if r == 6 { ScheduleRow6(); } else { ScheduleRow7(); }
  }

  lemma WordFollows(t: nat)
    requires 16 <= t < 64
    ensures Word64(t) == ScheduleWord(Word64(t - 2), Word64(t - 7), Word64(t - 15), Word64(t - 16))
  {
    hide WRow, ScheduleWord;
    var r, i := t / 8, t % 8;
    RowFollows(r);
    WordInRow(t, t - 2);
    WordInRow(t, t - 7);
    WordInRow(t, t - 15);
    WordInRow(t, t - 16);
  }

  /** Where word `u`, at most sixteen before `t`, is. */
  lemma WordInRow(t: nat, u: nat)
    requires 16 <= t < 64 && t - 16 <= u < t
    ensures var r, j := t / 8, t % 8 - (t - u);
            Word64(u) == if j >= 0 then WRow(r)[j] else if j >= -8 then WRow(r - 1)[j + 8] else WRow(r - 2)[j + 16]
  {
    hide WRow;
    var r, j := t / 8, t % 8 - (t - u);
    DivisionUnique(u, 8, if j >= 0 then r else if j >= -8 then r - 1 else r - 2,
                   if j >= 0 then j else if j >= -8 then j + 8 else j + 16);
  }

  lemma FirstWords()
    ensures forall t :: 0 <= t < 8 ==> W(Padded(), t) == Word64(t)
    ensures forall t :: 8 <= t < 16 ==> W(Padded(), t) == Word64(t)
  {
  }

  lemma {:induction false} ScheduleIs(t: nat)
    requires t < 64
    ensures W(Padded(), t) == Word64(t)
  {
    hide Word64, ScheduleWord, BlockWord, Padded;
    if t < 16 {
      FirstWords();
    } else {
      WordFollows(t);
      ScheduleIs(t - 2);
      ScheduleIs(t - 7);
      ScheduleIs(t - 15);
      ScheduleIs(t - 16);
    }
  }

  // ---------- the rounds ----------

  /** The working variables after `8 * r` rounds. */
  function After(r: nat): Regs
    requires r <= 8
  {
    match r
    case 0 => H0
    case 1 => Regs(0x85a07b5f, 0xe5030380, 0x2b4209f5, 0x04409a6a, 0x0c657a79, 0x9b27a401, 0x714260ad, 0x43ada245)
    case 2 => Regs(0xb0fa238e, 0xc0645fde, 0xd932eb16, 0x87912990, 0x07590dcd, 0x0b92f20c, 0x745a48de, 0x1e578218)
    case 3 => Regs(0xc5d53d8d, 0xa7a3623f, 0xc2606d6d, 0x9dc68b63, 0xaa47c347, 0x49f5114a, 0xe1257970, 0x8ada8930)
    case 4 => Regs(0x73b33bf5, 0xea992a22, 0xa0060b30, 0x363482c9, 0xba591112, 0x0109ab3a, 0xade79437, 0x6112a3b7)
    case 5 => Regs(0x79ea687a, 0x6dc57a8a, 0x34df1604, 0x41a65cb1, 0x1efbc0a0, 0xf0781bc8, 0xa507a53d, 0x0772a26b)
    case 6 => Regs(0x4172328d, 0xa14c14b0, 0x72ab4b91, 0x26628815, 0xfecf0bc6, 0xd57b94a9, 0xb7755da1, 0xa80f11f0)
    case 7 => Regs(0x38cc9913, 0x3ec45cdb, 0xf5702fdb, 0x101fd28f, 0x54cb266b, 0xe50e1b4f, 0x9f4787c3, 0x529e7d00)
    case 8 => Regs(0x506e3058, 0xd39a2165, 0x04d24d6c, 0xb85e2ce9, 0x5ef50f24, 0xfb121210, 0x948d25b6, 0x961f4894)
  }

  function FourRounds(r: Regs, k: seq<Word>, w: seq<Word>, i: nat): Regs
    requires |k| == |w| == 8 && i < 5
  {
    Round(Round(Round(Round(r, k[i], w[i]), k[i + 1], w[i + 1]), k[i + 2], w[i + 2]), k[i + 3], w[i + 3])
  }

  function EightRounds(r: Regs, k: seq<Word>, w: seq<Word>): Regs
    requires |k| == |w| == 8
  {
    FourRounds(FourRounds(r, k, w, 0), k, w, 4)
  }

  /** The rounds of a row lead from one of the values above to the next. */
  predicate RowIsRight(r: nat)
    requires r < 8
  {
    EightRounds(After(r), KRow(r), WRow(r)) == After(r + 1)
  }

  /** The round with constant `k` and schedule word `w` puts `t` before `a` and `u` before `e`. */
  predicate Turns(a: Word, b: Word, c: Word, d: Word, e: Word, f: Word, g: Word, h: Word, k: Word, w: Word, t: Word, u: Word) {
    Round(Regs(a, b, c, d, e, f, g, h), k, w) == Regs(t, a, b, c, u, e, f, g)
  }

  lemma Turns0()
    ensures Turns(0x6a09e667, 0xbb67ae85, 0x3c6ef372, 0xa54ff53a, 0x510e527f, 0x9b05688c,
                  0x1f83d9ab, 0x5be0cd19, 0x428a2f98, 0x61626380, 0x5d6aebcd, 0xfa2a4622)
    ensures Turns(0x5d6aebcd, 0x6a09e667, 0xbb67ae85, 0x3c6ef372, 0xfa2a4622, 0x510e527f,
                  0x9b05688c, 0x1f83d9ab, 0x71374491, 0x00000000, 0x5a6ad9ad, 0x78ce7989)
    ensures Turns(0x5a6ad9ad, 0x5d6aebcd, 0x6a09e667, 0xbb67ae85, 0x78ce7989, 0xfa2a4622,
                  0x510e527f, 0x9b05688c, 0xb5c0fbcf, 0x00000000, 0xc8c347a7, 0xf92939eb)
    ensures Turns(0xc8c347a7, 0x5a6ad9ad, 0x5d6aebcd, 0x6a09e667, 0xf92939eb, 0x78ce7989,
                  0xfa2a4622, 0x510e527f, 0xe9b5dba5, 0x00000000, 0xd550f666, 0x24e00850)
    ensures Turns(0xd550f666, 0xc8c347a7, 0x5a6ad9ad, 0x5d6aebcd, 0x24e00850, 0xf92939eb,
                  0x78ce7989, 0xfa2a4622, 0x3956c25b, 0x00000000, 0x04409a6a, 0x43ada245)
    ensures Turns(0x04409a6a, 0xd550f666, 0xc8c347a7, 0x5a6ad9ad, 0x43ada245, 0x24e00850,
                  0xf92939eb, 0x78ce7989, 0x59f111f1, 0x00000000, 0x2b4209f5, 0x714260ad)
    ensures Turns(0x2b4209f5, 0x04409a6a, 0xd550f666, 0xc8c347a7, 0x714260ad, 0x43ada245,
                  0x24e00850, 0xf92939eb, 0x923f82a4, 0x00000000, 0xe5030380, 0x9b27a401)
    ensures Turns(0xe5030380, 0x2b4209f5, 0x04409a6a, 0xd550f666, 0x9b27a401, 0x714260ad,
                  0x43ada245, 0x24e00850, 0xab1c5ed5, 0x00000000, 0x85a07b5f, 0x0c657a79)
  {
  }

  lemma RoundsRow0()
    ensures RowIsRight(0)
  {
    Turns0();
    hide Round;
  }

  lemma Turns1()
    ensures Turns(0x85a07b5f, 0xe5030380, 0x2b4209f5, 0x04409a6a, 0x0c657a79, 0x9b27a401,
                  0x714260ad, 0x43ada245, 0xd807aa98, 0x00000000, 0x8e04ecb9, 0x32ca2d8c)
    ensures Turns(0x8e04ecb9, 0x85a07b5f, 0xe5030380, 0x2b4209f5, 0x32ca2d8c, 0x0c657a79,
                  0x9b27a401, 0x714260ad, 0x12835b01, 0x00000000, 0x8c87346b, 0x1cc92596)
    ensures Turns(0x8c87346b, 0x8e04ecb9, 0x85a07b5f, 0xe5030380, 0x1cc92596, 0x32ca2d8c,
                  0x0c657a79, 0x9b27a401, 0x243185be, 0x00000000, 0x4798a3f4, 0x436b23e8)
    ensures Turns(0x4798a3f4, 0x8c87346b, 0x8e04ecb9, 0x85a07b5f, 0x436b23e8, 0x1cc92596,
                  0x32ca2d8c, 0x0c657a79, 0x550c7dc3, 0x00000000, 0xf71fc5a9, 0x816fd6e9)
    ensures Turns(0xf71fc5a9, 0x4798a3f4, 0x8c87346b, 0x8e04ecb9, 0x816fd6e9, 0x436b23e8,
                  0x1cc92596, 0x32ca2d8c, 0x72be5d74, 0x00000000, 0x87912990, 0x1e578218)
    ensures Turns(0x87912990, 0xf71fc5a9, 0x4798a3f4, 0x8c87346b, 0x1e578218, 0x816fd6e9,
                  0x436b23e8, 0x1cc92596, 0x80deb1fe, 0x00000000, 0xd932eb16, 0x745a48de)
    ensures Turns(0xd932eb16, 0x87912990, 0xf71fc5a9, 0x4798a3f4, 0x745a48de, 0x1e578218,
                  0x816fd6e9, 0x436b23e8, 0x9bdc06a7, 0x00000000, 0xc0645fde, 0x0b92f20c)
    ensures Turns(0xc0645fde, 0xd932eb16, 0x87912990, 0xf71fc5a9, 0x0b92f20c, 0x745a48de,
                  0x1e578218, 0x816fd6e9, 0xc19bf174, 0x00000018, 0xb0fa238e, 0x07590dcd)
  {
  }

  lemma RoundsRow1()
    ensures RowIsRight(1)
  {
    Turns1();
    hide Round;
  }

  lemma Turns2()
    ensures Turns(0xb0fa238e, 0xc0645fde, 0xd932eb16, 0x87912990, 0x07590dcd, 0x0b92f20c,
                  0x745a48de, 0x1e578218, 0xe49b69c1, 0x61626380, 0x21da9a9b, 0x8034229c)
    ensures Turns(0x21da9a9b, 0xb0fa238e, 0xc0645fde, 0xd932eb16, 0x8034229c, 0x07590dcd,
                  0x0b92f20c, 0x745a48de, 0xefbe4786, 0x000f0000, 0xc2fbd9d1, 0x846ee454)
    ensures Turns(0xc2fbd9d1, 0x21da9a9b, 0xb0fa238e, 0xc0645fde, 0x846ee454, 0x8034229c,
                  0x07590dcd, 0x0b92f20c, 0x0fc19dc6, 0x7da86405, 0xfe777bbf, 0xcc899961)
    ensures Turns(0xfe777bbf, 0xc2fbd9d1, 0x21da9a9b, 0xb0fa238e, 0xcc899961, 0x846ee454,
                  0x8034229c, 0x07590dcd, 0x240ca1cc, 0x600003c6, 0xe1f20c33, 0xb0638179)
    ensures Turns(0xe1f20c33, 0xfe777bbf, 0xc2fbd9d1, 0x21da9a9b, 0xb0638179, 0xcc899961,
                  0x846ee454, 0x8034229c, 0x2de92c6f, 0x3e9d7b78, 0x9dc68b63, 0x8ada8930)
    ensures Turns(0x9dc68b63, 0xe1f20c33, 0xfe777bbf, 0xc2fbd9d1, 0x8ada8930, 0xb0638179,
                  0xcc899961, 0x846ee454, 0x4a7484aa, 0x0183fc00, 0xc2606d6d, 0xe1257970)
    ensures Turns(0xc2606d6d, 0x9dc68b63, 0xe1f20c33, 0xfe777bbf, 0xe1257970, 0x8ada8930,
                  0xb0638179, 0xcc899961, 0x5cb0a9dc, 0x12dcbfdb, 0xa7a3623f, 0x49f5114a)
    ensures Turns(0xa7a3623f, 0xc2606d6d, 0x9dc68b63, 0xe1f20c33, 0x49f5114a, 0xe1257970,
                  0x8ada8930, 0xb0638179, 0x76f988da, 0xe2e2c38e, 0xc5d53d8d, 0xaa47c347)
  {
  }

  lemma RoundsRow2()
    ensures RowIsRight(2)
  {
    Turns2();
    hide Round;
  }

  lemma Turns3()
    ensures Turns(0xc5d53d8d, 0xa7a3623f, 0xc2606d6d, 0x9dc68b63, 0xaa47c347, 0x49f5114a,
                  0xe1257970, 0x8ada8930, 0x983e5152, 0xc8215c1a, 0x1c2c2838, 0x2823ef91)
    ensures Turns(0x1c2c2838, 0xc5d53d8d, 0xa7a3623f, 0xc2606d6d, 0x2823ef91, 0xaa47c347,
                  0x49f5114a, 0xe1257970, 0xa831c66d, 0xb73679a2, 0xcde8037d, 0x14383d8e)
    ensures Turns(0xcde8037d, 0x1c2c2838, 0xc5d53d8d, 0xa7a3623f, 0x14383d8e, 0x2823ef91,
                  0xaa47c347, 0x49f5114a, 0xb00327c8, 0xe5bc3909, 0xb62ec4bc, 0xc74c6516)
    ensures Turns(0xb62ec4bc, 0xcde8037d, 0x1c2c2838, 0xc5d53d8d, 0xc74c6516, 0x14383d8e,
                  0x2823ef91, 0xaa47c347, 0xbf597fc7, 0x32663c5b, 0x77d37528, 0xedffbff8)
    ensures Turns(0x77d37528, 0xb62ec4bc, 0xcde8037d, 0x1c2c2838, 0xedffbff8, 0xc74c6516,
                  0x14383d8e, 0x2823ef91, 0xc6e00bf3, 0x9d209d67, 0x363482c9, 0x6112a3b7)
    ensures Turns(0x363482c9, 0x77d37528, 0xb62ec4bc, 0xcde8037d, 0x6112a3b7, 0xedffbff8,
                  0xc74c6516, 0x14383d8e, 0xd5a79147, 0xec8726cb, 0xa0060b30, 0xade79437)
    ensures Turns(0xa0060b30, 0x363482c9, 0x77d37528, 0xb62ec4bc, 0xade79437, 0x6112a3b7,
                  0xedffbff8, 0xc74c6516, 0x06ca6351, 0x702138a4, 0xea992a22, 0x0109ab3a)
    ensures Turns(0xea992a22, 0xa0060b30, 0x363482c9, 0x77d37528, 0x0109ab3a, 0xade79437,
                  0x6112a3b7, 0xedffbff8, 0x14292967, 0xd3b7973b, 0x73b33bf5, 0xba591112)
  {
  }

  lemma RoundsRow3()
    ensures RowIsRight(3)
  {
    Turns3();
    hide Round;
  }

  lemma Turns4()
    ensures Turns(0x73b33bf5, 0xea992a22, 0xa0060b30, 0x363482c9, 0xba591112, 0x0109ab3a,
                  0xade79437, 0x6112a3b7, 0x27b70a85, 0x93f5997f, 0x98e12507, 0x9cd9f5f6)
    ensures Turns(0x98e12507, 0x73b33bf5, 0xea992a22, 0xa0060b30, 0x9cd9f5f6, 0xba591112,
                  0x0109ab3a, 0xade79437, 0x2e1b2138, 0x3b68ba73, 0xfe604df5, 0x59249dd3)
    ensures Turns(0xfe604df5, 0x98e12507, 0x73b33bf5, 0xea992a22, 0x59249dd3, 0x9cd9f5f6,
                  0xba591112, 0x0109ab3a, 0x4d2c6dfc, 0xaff4ffc1, 0xa9a7738c, 0x085f3833)
    ensures Turns(0xa9a7738c, 0xfe604df5, 0x98e12507, 0x73b33bf5, 0x085f3833, 0x59249dd3,
                  0x9cd9f5f6, 0xba591112, 0x53380d13, 0xf10a5c62, 0x65a0cfe4, 0xf4b002d6)
    ensures Turns(0x65a0cfe4, 0xa9a7738c, 0xfe604df5, 0x98e12507, 0xf4b002d6, 0x085f3833,
                  0x59249dd3, 0x9cd9f5f6, 0x650a7354, 0x0a8b3996, 0x41a65cb1, 0x0772a26b)
    ensures Turns(0x41a65cb1, 0x65a0cfe4, 0xa9a7738c, 0xfe604df5, 0x0772a26b, 0xf4b002d6,
                  0x085f3833, 0x59249dd3, 0x766a0abb, 0x72af830a, 0x34df1604, 0xa507a53d)
    ensures Turns(0x34df1604, 0x41a65cb1, 0x65a0cfe4, 0xa9a7738c, 0xa507a53d, 0x0772a26b,
                  0xf4b002d6, 0x085f3833, 0x81c2c92e, 0x9409e33e, 0x6dc57a8a, 0xf0781bc8)
    ensures Turns(0x6dc57a8a, 0x34df1604, 0x41a65cb1, 0x65a0cfe4, 0xf0781bc8, 0xa507a53d,
                  0x0772a26b, 0xf4b002d6, 0x92722c85, 0x24641522, 0x79ea687a, 0x1efbc0a0)
  {
  }

  lemma RoundsRow4()
    ensures RowIsRight(4)
  {
    Turns4();
    hide Round;
  }

  lemma Turns5()
    ensures Turns(0x79ea687a, 0x6dc57a8a, 0x34df1604, 0x41a65cb1, 0x1efbc0a0, 0xf0781bc8,
                  0xa507a53d, 0x0772a26b, 0xa2bfe8a1, 0x9f47bf94, 0xd6670766, 0x26352d63)
    ensures Turns(0xd6670766, 0x79ea687a, 0x6dc57a8a, 0x34df1604, 0x26352d63, 0x1efbc0a0,
                  0xf0781bc8, 0xa507a53d, 0xa81a664b, 0xf0a64f5a, 0xdf46652f, 0x838b2711)
    ensures Turns(0xdf46652f, 0xd6670766, 0x79ea687a, 0x6dc57a8a, 0x838b2711, 0x26352d63,
                  0x1efbc0a0, 0xf0781bc8, 0xc24b8b70, 0x3e246a79, 0x17aa0dfe, 0xdecd4715)
    ensures Turns(0x17aa0dfe, 0xdf46652f, 0xd6670766, 0x79ea687a, 0xdecd4715, 0x838b2711,
                  0x26352d63, 0x1efbc0a0, 0xc76c51a3, 0x27333ba3, 0x9d4baf93, 0xfda24c2e)
    ensures Turns(0x9d4baf93, 0x17aa0dfe, 0xdf46652f, 0xd6670766, 0xfda24c2e, 0xdecd4715,
                  0x838b2711, 0x26352d63, 0xd192e819, 0x0c4763f2, 0x26628815, 0xa80f11f0)
    ensures Turns(0x26628815, 0x9d4baf93, 0x17aa0dfe, 0xdf46652f, 0xa80f11f0, 0xfda24c2e,
                  0xdecd4715, 0x838b2711, 0xd6990624, 0x840abf27, 0x72ab4b91, 0xb7755da1)
    ensures Turns(0x72ab4b91, 0x26628815, 0x9d4baf93, 0x17aa0dfe, 0xb7755da1, 0xa80f11f0,
                  0xfda24c2e, 0xdecd4715, 0xf40e3585, 0x7a290d5d, 0xa14c14b0, 0xd57b94a9)
    ensures Turns(0xa14c14b0, 0x72ab4b91, 0x26628815, 0x9d4baf93, 0xd57b94a9, 0xb7755da1,
                  0xa80f11f0, 0xfda24c2e, 0x106aa070, 0x065c43da, 0x4172328d, 0xfecf0bc6)
  {
  }

  lemma RoundsRow5()
    ensures RowIsRight(5)
  {
    Turns5();
    hide Round;
  }

  lemma Turns6()
    ensures Turns(0x4172328d, 0xa14c14b0, 0x72ab4b91, 0x26628815, 0xfecf0bc6, 0xd57b94a9,
                  0xb7755da1, 0xa80f11f0, 0x19a4c116, 0xfb3e89cb, 0x05757ceb, 0xbd714038)
    ensures Turns(0x05757ceb, 0x4172328d, 0xa14c14b0, 0x72ab4b91, 0xbd714038, 0xfecf0bc6,
                  0xd57b94a9, 0xb7755da1, 0x1e376c08, 0xcc7617db, 0xf11bfaa8, 0x6e5c390c)
    ensures Turns(0xf11bfaa8, 0x05757ceb, 0x4172328d, 0xa14c14b0, 0x6e5c390c, 0xbd714038,
                  0xfecf0bc6, 0xd57b94a9, 0x2748774c, 0xb9e66c34, 0x7a0508a1, 0x52f1ccf7)
    ensures Turns(0x7a0508a1, 0xf11bfaa8, 0x05757ceb, 0x4172328d, 0x52f1ccf7, 0x6e5c390c,
                  0xbd714038, 0xfecf0bc6, 0x34b0bcb5, 0xa9993667, 0x886e7a22, 0x49231c1e)
    ensures Turns(0x886e7a22, 0x7a0508a1, 0xf11bfaa8, 0x05757ceb, 0x49231c1e, 0x52f1ccf7,
                  0x6e5c390c, 0xbd714038, 0x391c0cb3, 0x84badedd, 0x101fd28f, 0x529e7d00)
    ensures Turns(0x101fd28f, 0x886e7a22, 0x7a0508a1, 0xf11bfaa8, 0x529e7d00, 0x49231c1e,
                  0x52f1ccf7, 0x6e5c390c, 0x4ed8aa4a, 0xc21462bc, 0xf5702fdb, 0x9f4787c3)
    ensures Turns(0xf5702fdb, 0x101fd28f, 0x886e7a22, 0x7a0508a1, 0x9f4787c3, 0x529e7d00,
                  0x49231c1e, 0x52f1ccf7, 0x5b9cca4f, 0x1487472c, 0x3ec45cdb, 0xe50e1b4f)
    ensures Turns(0x3ec45cdb, 0xf5702fdb, 0x101fd28f, 0x886e7a22, 0xe50e1b4f, 0x9f4787c3,
                  0x529e7d00, 0x49231c1e, 0x682e6ff3, 0xb20f7a99, 0x38cc9913, 0x54cb266b)
  {
  }

  lemma RoundsRow6()
    ensures RowIsRight(6)
  {
    Turns6();
    hide Round;
  }

  lemma Turns7()
    ensures Turns(0x38cc9913, 0x3ec45cdb, 0xf5702fdb, 0x101fd28f, 0x54cb266b, 0xe50e1b4f,
                  0x9f4787c3, 0x529e7d00, 0x748f82ee, 0xef57b9cd, 0xfcd1887b, 0x9b5e906c)
    ensures Turns(0xfcd1887b, 0x38cc9913, 0x3ec45cdb, 0xf5702fdb, 0x9b5e906c, 0x54cb266b,
                  0xe50e1b4f, 0x9f4787c3, 0x78a5636f, 0xebe6b238, 0xc062d46f, 0x7e44008e)
    ensures Turns(0xc062d46f, 0xfcd1887b, 0x38cc9913, 0x3ec45cdb, 0x7e44008e, 0x9b5e906c,
                  0x54cb266b, 0xe50e1b4f, 0x84c87814, 0x9fe3095e, 0xffb70472, 0x6d83bfc6)
    ensures Turns(0xffb70472, 0xc062d46f, 0xfcd1887b, 0x38cc9913, 0x6d83bfc6, 0x7e44008e,
                  0x9b5e906c, 0x54cb266b, 0x8cc70208, 0x78bc8d4b, 0xb6ae8fff, 0xb21bad3d)
    ensures Turns(0xb6ae8fff, 0xffb70472, 0xc062d46f, 0xfcd1887b, 0xb21bad3d, 0x6d83bfc6,
                  0x7e44008e, 0x9b5e906c, 0x90befffa, 0xa43fcf15, 0xb85e2ce9, 0x961f4894)
    ensures Turns(0xb85e2ce9, 0xb6ae8fff, 0xffb70472, 0xc062d46f, 0x961f4894, 0xb21bad3d,
                  0x6d83bfc6, 0x7e44008e, 0xa4506ceb, 0x668b2ff8, 0x04d24d6c, 0x948d25b6)
    ensures Turns(0x04d24d6c, 0xb85e2ce9, 0xb6ae8fff, 0xffb70472, 0x948d25b6, 0x961f4894,
                  0xb21bad3d, 0x6d83bfc6, 0xbef9a3f7, 0xeeaba2cc, 0xd39a2165, 0xfb121210)
    ensures Turns(0xd39a2165, 0x04d24d6c, 0xb85e2ce9, 0xb6ae8fff, 0xfb121210, 0x948d25b6,
                  0x961f4894, 0xb21bad3d, 0xc67178f2, 0x12b1edeb, 0x506e3058, 0x5ef50f24)
  {
  }

  lemma RoundsRow7()
    ensures RowIsRight(7)
  {
    Turns7();
    hide Round;
  }

  lemma RowRight(r: nat)
    requires r < 8
    ensures RowIsRight(r)
  {
    hide *;
    if r == 0 { RoundsRow0(); } else if r == 1 { RoundsRow1(); } else if r == 2 { RoundsRow2(); }
    else if r == 3 { RoundsRow3(); } else if r == 4 { RoundsRow4(); } else if r == 5 { RoundsRow5(); }
    else if r == 6 { RoundsRow6(); } else { RoundsRow7(); }
  }

  lemma RoundOnce(t: nat)
    requires t < 64
    ensures Rounds(H0, Padded(), t + 1) == Round(Rounds(H0, Padded(), t), KRow(t / 8)[t % 8], WRow(t / 8)[t % 8])
  {
    hide Round, W, Padded, KRow, WRow;
    ScheduleIs(t);
  }

  lemma RoundInRow(r: nat, i: nat)
    requires r < 8 && i < 8
    ensures Rounds(H0, Padded(), 8 * r + i + 1) == Round(Rounds(H0, Padded(), 8 * r + i), KRow(r)[i], WRow(r)[i])
  {
    hide Round, Rounds, Padded, KRow, WRow;
    DivisionUnique(8 * r + i, 8, r, i);
    RoundOnce(8 * r + i);
  }

  lemma RoundsOfRow(r: nat)
    requires r < 8
    ensures Rounds(H0, Padded(), 8 * r + 8) == EightRounds(Rounds(H0, Padded(), 8 * r), KRow(r), WRow(r))
  {
    hide Round, Rounds, Padded, KRow, WRow;
    RoundInRow(r, 0);
    RoundInRow(r, 1);
    RoundInRow(r, 2);
    RoundInRow(r, 3);
    RoundInRow(r, 4);
    RoundInRow(r, 5);
    RoundInRow(r, 6);
    RoundInRow(r, 7);
  }

  lemma RowLeadsOn(r: nat)
    requires r < 8
    ensures EightRounds(After(r), KRow(r), WRow(r)) == After(r + 1)
  {
    RowRight(r);
    hide EightRounds, KRow, WRow, After;
  }

  lemma {:induction false} RoundsAre(r: nat)
    requires r <= 8
    ensures Rounds(H0, Padded(), 8 * r) == After(r)
  {
    hide *;
    if r == 0 {
      NoRounds();
    } else {
      var q := r - 1;
      assert 8 * q + 8 == 8 * r;
      RoundsAre(q);
      RoundsOfRow(q);
      RowLeadsOn(q);
    }
  }

  lemma NoRounds()
    ensures Rounds(H0, Padded(), 0) == After(0)
  {
    hide Padded;
  }

  // ---------- the digest ----------

  const HASH := Regs(0xba7816bf, 0x8f01cfea, 0x414140de, 0x5dae2223, 0xb00361a3, 0x96177a9c, 0xb410ff61, 0xf20015ad)

  lemma FinalAdditions()
    ensures Add(0x6a09e667, 0x506e3058) == 0xba7816bf
    ensures Add(0xbb67ae85, 0xd39a2165) == 0x8f01cfea
    ensures Add(0x3c6ef372, 0x04d24d6c) == 0x414140de
    ensures Add(0xa54ff53a, 0xb85e2ce9) == 0x5dae2223
    ensures Add(0x510e527f, 0x5ef50f24) == 0xb00361a3
    ensures Add(0x9b05688c, 0xfb121210) == 0x96177a9c
    ensures Add(0x1f83d9ab, 0x948d25b6) == 0xb410ff61
    ensures Add(0x5be0cd19, 0x961f4894) == 0xf20015ad
  {
  }

  lemma CompressIsRight()
    ensures Compress(H0, Padded()) == HASH
  {
    hide Rounds, Padded, Add, After;
    RoundsAre(8);
    LastRow();
    FinalAdditions();
  }

  lemma LastRow()
    ensures After(8) == Regs(0x506e3058, 0xd39a2165, 0x04d24d6c, 0xb85e2ce9, 0x5ef50f24, 0xfb121210, 0x948d25b6, 0x961f4894)
  {
  }

  lemma HashIsRight()
    ensures Fold(Padded()) == HASH
  {
    hide Compress, Padded;
    CompressIsRight();
    assert Fold([]) == H0;
    var m := Padded();
    assert m[..0] == [] && m[0..] == m;
  }

  /** The four bytes of one word of the output. */
  predicate WordOut(r: Regs, s: seq<Byte>, j: nat)
    requires j < 8 && |s| == 32
  {
    WordAt(r, j) == BigEndianWord(s[4 * j], s[4 * j + 1], s[4 * j + 2], s[4 * j + 3])
  }

  lemma BytesOut(r: Regs, s: seq<Byte>, j: nat)
    requires j < 8 && |s| == 32 && WordOut(r, s, j)
    ensures forall p :: 4 * j <= p < 4 * j + 4 ==> Output(r)[p] == s[p]
  {
    hide WordByte, BigEndianWord, WordAt;
    BytesOfWord(s[4 * j], s[4 * j + 1], s[4 * j + 2], s[4 * j + 3]);
  }

  lemma AllBytesOut(r: Regs, s: seq<Byte>)
    requires |s| == 32 && forall j :: 0 <= j < 8 ==> WordOut(r, s, j)
    ensures Output(r) == s
  {
    hide Output, WordOut;
    forall p | 0 <= p < 32
      ensures Output(r)[p] == s[p]
    {
      BytesOut(r, s, p / 4);
    }
  }

  function DigestBytes(): (s: seq<Byte>)
    ensures |s| == 32
  {
    [0xba, 0x78, 0x16, 0xbf, 0x8f, 0x01, 0xcf, 0xea,
     0x41, 0x41, 0x40, 0xde, 0x5d, 0xae, 0x22, 0x23,
     0xb0, 0x03, 0x61, 0xa3, 0x96, 0x17, 0x7a, 0x9c,
     0xb4, 0x10, 0xff, 0x61, 0xf2, 0x00, 0x15, 0xad]
  }

  lemma WordsWritten()
    ensures BigEndianWord(0xba, 0x78, 0x16, 0xbf) == 0xba7816bf
    ensures BigEndianWord(0x8f, 0x01, 0xcf, 0xea) == 0x8f01cfea
    ensures BigEndianWord(0x41, 0x41, 0x40, 0xde) == 0x414140de
    ensures BigEndianWord(0x5d, 0xae, 0x22, 0x23) == 0x5dae2223
    ensures BigEndianWord(0xb0, 0x03, 0x61, 0xa3) == 0xb00361a3
    ensures BigEndianWord(0x96, 0x17, 0x7a, 0x9c) == 0x96177a9c
    ensures BigEndianWord(0xb4, 0x10, 0xff, 0x61) == 0xb410ff61
    ensures BigEndianWord(0xf2, 0x00, 0x15, 0xad) == 0xf20015ad
  {
  }

  lemma FirstWordsInBytes()
    ensures forall j :: 0 <= j < 2 ==> WordOut(HASH, DigestBytes(), j)
  {
    hide BigEndianWord;
    WordsWritten();
  }

  lemma SecondWordsInBytes()
    ensures forall j :: 2 <= j < 4 ==> WordOut(HASH, DigestBytes(), j)
  {
    hide BigEndianWord;
    WordsWritten();
  }

  lemma LastWordsInBytes()
    ensures forall j :: 4 <= j < 8 ==> WordOut(HASH, DigestBytes(), j)
  {
    hide BigEndianWord;
    WordsWritten();
  }

  /** SHA-256 of "abc". */
  lemma DigestOfAbc()
    ensures Digest([0x61, 0x62, 0x63]) == DigestBytes()
  {
    hide Fold, Pad, Padded, Output, WordOut, DigestBytes;
    PaddingIsRight();
    HashIsRight();
    FirstWordsInBytes();
    SecondWordsInBytes();
    LastWordsInBytes();
    AllBytesOut(HASH, DigestBytes());
  }
}
