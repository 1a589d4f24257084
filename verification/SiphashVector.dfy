/** The worked example of the SipHash paper, appendix A: SipHash-2-4 of the bytes 0 to 14 under the key of the bytes
    0 to 15, round by round.  It fixes the functions of Siphash by a value that none of them has computed. */
module SiphashVector {
  import opened Octets
  import opened Siphash

  // ---------- key and message as words ----------

  const FROM0: seq<Byte> := [0, 1, 2, 3, 4, 5, 6, 7]

  const FROM8: seq<Byte> := [8, 9, 10, 11, 12, 13, 14, 15]

  lemma WideBytes()
    ensures Wide(0) == 0 && Wide(1) == 1 && Wide(2) == 2 && Wide(3) == 3
    ensures Wide(4) == 4 && Wide(5) == 5 && Wide(6) == 6 && Wide(7) == 7
    ensures Wide(8) == 8 && Wide(9) == 9 && Wide(10) == 10 && Wide(11) == 11
    ensures Wide(12) == 12 && Wide(13) == 13 && Wide(14) == 14 && Wide(15) == 15
  {
  }

  lemma WordsOfBytes()
    ensures Word(0, 1, 2, 3, 4, 5, 6, 7) == 0x0706050403020100
    ensures Word(8, 9, 10, 11, 12, 13, 14, 15) == 0x0f0e0d0c0b0a0908
  {
  }

  lemma Loads()
    ensures Load(FROM0) == 0x0706050403020100 && Load(FROM8) == 0x0f0e0d0c0b0a0908
  {
    hide Wide, Word;
    WideBytes();
    WordsOfBytes();
  }

  lemma KeyWords()
    ensures Initial(FROM0 + FROM8) == State(0x7469686173716475, 0x6b617f6d656e6665, 0x6b7f62616d677361, 0x7b6b696e727e6c7b)
  {
    hide Load, Xor;
    Loads();
    InitialWords();
    var key := FROM0 + FROM8;
    assert key[..8] == FROM0 && key[8..] == FROM8;
  }

  lemma InitialWords()
    ensures Xor(0x736f6d6570736575, 0x0706050403020100) == 0x7469686173716475
    ensures Xor(0x646f72616e646f6d, 0x0f0e0d0c0b0a0908) == 0x6b617f6d656e6665
    ensures Xor(0x6c7967656e657261, 0x0706050403020100) == 0x6b7f62616d677361
    ensures Xor(0x7465646279746573, 0x0f0e0d0c0b0a0908) == 0x7b6b696e727e6c7b
  {
  }

  lemma MessageWords()
    ensures Words(Padded(FROM0 + FROM8[..7])) == [0x0706050403020100, 0x0f0e0d0c0b0a0908]
  {
    hide Load;
    Loads();
    var m := FROM0 + FROM8[..7];
    assert Padded(m) == FROM0 + FROM8;
    assert Words(FROM8) == [Load(FROM8)] by { assert FROM8[8..] == []; }
    assert (FROM0 + FROM8)[8..] == FROM8;
    LoadPrefix(FROM0, FROM8);
  }

  lemma LoadPrefix(p: seq<Byte>, q: seq<Byte>)
    requires |p| == 8
    ensures Load(p + q) == Load(p)
  {
    hide Word, Wide;
  }

  // ---------- the rounds ----------

  lemma FirstWordRounds()
    ensures SipRound(State(0x7469686173716475, 0x6b617f6d656e6665, 0x6b7f62616d677361, 0x7c6d6c6a717c6d7b))
            == State(0x64668a929363847f, 0x4ed232083d9aa8dc, 0xf2f74892d8141a2e, 0x9290f9810552f4a8)
    ensures SipRound(State(0x64668a929363847f, 0x4ed232083d9aa8dc, 0xf2f74892d8141a2e, 0x9290f9810552f4a8))
            == State(0x4d07749cdd0858e0, 0x0d52f6f62a4f59a4, 0x634cb3577b01fd3d, 0xa5224d6f55c7d9c8)
  {
  }

  lemma SecondWordRounds()
    ensures SipRound(State(0x4a017198de0a59e0, 0x0d52f6f62a4f59a4, 0x634cb3577b01fd3d, 0xaa2c40635ecdd0c0))
            == State(0x557560fb6063d060, 0x4c8e675bd961133e, 0xbd3d002b1703a181, 0xfb9441179a4a7315)
    ensures SipRound(State(0x557560fb6063d060, 0x4c8e675bd961133e, 0xbd3d002b1703a181, 0xfb9441179a4a7315))
            == State(0x338bbea7645fb759, 0x414fc3fb98efe374, 0xccf13ea527b9f4bd, 0x5293f5da84008f82)
  {
  }

  lemma FinalRounds()
    ensures SipRound(State(0x3c85b3ab6f55be51, 0x414fc3fb98efe374, 0xccf13ea527b9f442, 0x5293f5da84008f82))
            == State(0xf2a55244a20e48fe, 0xac5ad16ccc3ca6e4, 0x9fe5adb0a52f393a, 0xfd41d55e88f30308)
    ensures SipRound(State(0xf2a55244a20e48fe, 0xac5ad16ccc3ca6e4, 0x9fe5adb0a52f393a, 0xfd41d55e88f30308))
            == State(0xb6c3fbdecc2ae4b4, 0x1638c86adc6b3cf0, 0x28b8b6ab62553d46, 0xc9465e86ec43eb95)
    ensures SipRound(State(0xb6c3fbdecc2ae4b4, 0x1638c86adc6b3cf0, 0x28b8b6ab62553d46, 0xc9465e86ec43eb95))
            == State(0x58101b167209a5e6, 0xf8792ae75b66e7dd, 0x1da14c3ec7f0b4f7, 0x7624ba8a41bc4ad9)
    ensures SipRound(State(0x58101b167209a5e6, 0xf8792ae75b66e7dd, 0x1da14c3ec7f0b4f7, 0x7624ba8a41bc4ad9))
            == State(0xf6bcd53893fecff1, 0x54b9964c7ea0d937, 0x1b38329c099bb55a, 0x1814bb89ad7be679)
  {
  }

  lemma Injections()
    ensures Xor(0x7b6b696e727e6c7b, 0x0706050403020100) == 0x7c6d6c6a717c6d7b
    ensures Xor(0x4d07749cdd0858e0, 0x0706050403020100) == 0x4a017198de0a59e0
    ensures Xor(0xa5224d6f55c7d9c8, 0x0f0e0d0c0b0a0908) == 0xaa2c40635ecdd0c0
    ensures Xor(0x338bbea7645fb759, 0x0f0e0d0c0b0a0908) == 0x3c85b3ab6f55be51
    ensures Xor(0xccf13ea527b9f4bd, 0xff) == 0xccf13ea527b9f442
    ensures Xor(0xf6bcd53893fecff1, 0x54b9964c7ea0d937) == 0xa2054374ed5e16c6
    ensures Xor(0xa2054374ed5e16c6, 0x1b38329c099bb55a) == 0xb93d71e8e4c5a39c
    ensures Xor(0xb93d71e8e4c5a39c, 0x1814bb89ad7be679) == 0xa129ca6149be45e5
  {
  }

  lemma RoundsUnfold(s: State)
    ensures Rounds(2, s) == SipRound(SipRound(s)) && Rounds(4, s) == SipRound(SipRound(SipRound(SipRound(s))))
  {
    hide SipRound;
    TwoRounds(s);
    var t := SipRound(SipRound(s));
    TwoRounds(t);
    assert Rounds(4, s) == Rounds(3, SipRound(s)) == Rounds(2, t);
  }

  lemma FirstWord()
    ensures Compress(2, State(0x7469686173716475, 0x6b617f6d656e6665, 0x6b7f62616d677361, 0x7b6b696e727e6c7b), 0x0706050403020100)
            == State(0x4a017198de0a59e0, 0x0d52f6f62a4f59a4, 0x634cb3577b01fd3d, 0xa5224d6f55c7d9c8)
  {
    hide SipRound, Rounds, Xor;
    RoundsUnfold(State(0x7469686173716475, 0x6b617f6d656e6665, 0x6b7f62616d677361, 0x7c6d6c6a717c6d7b));
    FirstWordRounds();
    Injections();
  }

  lemma SecondWord()
    ensures Compress(2, State(0x4a017198de0a59e0, 0x0d52f6f62a4f59a4, 0x634cb3577b01fd3d, 0xa5224d6f55c7d9c8), 0x0f0e0d0c0b0a0908)
            == State(0x3c85b3ab6f55be51, 0x414fc3fb98efe374, 0xccf13ea527b9f4bd, 0x5293f5da84008f82)
  {
    hide SipRound, Rounds, Xor;
    RoundsUnfold(State(0x4a017198de0a59e0, 0x0d52f6f62a4f59a4, 0x634cb3577b01fd3d, 0xaa2c40635ecdd0c0));
    SecondWordRounds();
    Injections();
  }

  lemma Finalization()
    ensures Finalize(4, State(0x3c85b3ab6f55be51, 0x414fc3fb98efe374, 0xccf13ea527b9f4bd, 0x5293f5da84008f82)) == 0xa129ca6149be45e5
  {
    hide SipRound, Rounds, Xor;
    RoundsUnfold(State(0x3c85b3ab6f55be51, 0x414fc3fb98efe374, 0xccf13ea527b9f442, 0x5293f5da84008f82));
    FinalRounds();
    Injections();
  }

  /** The value that the paper gives. */
  lemma PaperValue()
    ensures SipHash(2, 4, [0, 1, 2, 3, 4, 5, 6, 7, 8, 9, 10, 11, 12, 13, 14, 15],
                    [0, 1, 2, 3, 4, 5, 6, 7, 8, 9, 10, 11, 12, 13, 14]) == 0xa129ca6149be45e5
  {
    hide Initial, Padded, Words, Compress, Finalize;
    KeyWords();
    MessageWords();
    FirstWord();
    SecondWord();
    Finalization();
    var s := Initial(FROM0 + FROM8);
    var w0, w1: bv64 := 0x0706050403020100, 0x0f0e0d0c0b0a0908;
    TwoWords(2, s, w0, w1);
    assert FROM0 + FROM8 == [0, 1, 2, 3, 4, 5, 6, 7, 8, 9, 10, 11, 12, 13, 14, 15];
    assert FROM0 + FROM8[..7] == [0, 1, 2, 3, 4, 5, 6, 7, 8, 9, 10, 11, 12, 13, 14];
  }

  lemma TwoWords(c: nat, s: State, w0: bv64, w1: bv64)
    ensures CompressAll(c, s, [w0, w1]) == Compress(c, Compress(c, s, w0), w1)
  {
    hide Compress;
    assert [w0, w1][1..] == [w1] && [w1][1..] == [];
    assert CompressAll(c, Compress(c, s, w0), [w1]) == CompressAll(c, Compress(c, Compress(c, s, w0), w1), []);
  }
}
