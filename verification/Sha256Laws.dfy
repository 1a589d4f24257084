/** What the functions of SHA-256 mean, said without their formulas. */
module Sha256Laws {
  import opened Sha256Spec

  /** Under every one of the `x`, the choice is `y`, and under every zero it is `z`. */
  lemma ChooseIsSelection(x: Word, y: Word, z: Word)
    ensures x & Ch(x, y, z) == x & y
    ensures !x & Ch(x, y, z) == !x & z
  {
  }

  /** Where `x` and `y` agree, the majority is theirs, and elsewhere `z` decides. */
  lemma MajorityDecides(x: Word, y: Word, z: Word)
    ensures !(x ^ y) & Maj(x, y, z) == !(x ^ y) & x
    ensures (x ^ y) & Maj(x, y, z) == (x ^ y) & z
  {
  }

  /** Addition is modulo 2^32. */
  lemma AddIsModular(x: Word, y: Word)
    ensures Add(x, y) as bv64 == ((x as bv64) + (y as bv64)) & 0xffff_ffff
  {
  }

  /** What a rotation moves out below comes in above, */
  lemma RotationWraps(x: Word, n: Word)
    requires n <= 32
    ensures RotR(x, n) >> (32 - n) == x & !(0xffff_ffff << n)
  {
  }

  /** and what stays moves down. */
  lemma RotationShifts(x: Word, n: Word)
    requires n <= 32
    ensures RotR(x, n) << n == x & (0xffff_ffff << n)
  {
  }

  /** Turning back by as much gives the word again. */
  lemma RotationReturns(x: Word, n: Word)
    requires n <= 32
    ensures RotR(RotR(x, n), 32 - n) == x
  {
    RotationWraps(x, n);
    RotationShifts(x, n);
    Halves(x, n);
    var r := RotR(x, n);
    var m := 32 - n;
    assert 32 - m == n;
    hide RotR;
    Unfolded(r, m);
  }

  lemma Unfolded(r: Word, m: Word)
    requires m <= 32
    ensures RotR(r, m) == (r >> m) | (r << (32 - m))
  {
  }

  lemma Halves(x: Word, n: Word)
    requires n <= 32
    ensures (x & !(0xffff_ffff << n)) | (x & (0xffff_ffff << n)) == x
  {
  }

  // ---------- words and bytes ----------

  lemma BytesByShift(w: Word)
    ensures WordByte(w, 0) == ((w >> 24) & 0xff) as Byte
    ensures WordByte(w, 1) == ((w >> 16) & 0xff) as Byte
    ensures WordByte(w, 2) == ((w >> 8) & 0xff) as Byte
    ensures WordByte(w, 3) == (w & 0xff) as Byte
  {
    assert WordByte(w, 0) == LowByte(w, 24) && WordByte(w, 1) == LowByte(w, 16) by { hide LowByte; }
    assert WordByte(w, 2) == LowByte(w, 8) && WordByte(w, 3) == LowByte(w, 0) by { hide LowByte; }
    hide WordByte;
  }

  /** A word written out and read back: its most significant byte comes first. */
  lemma WordOfBytes(w: Word)
    ensures BigEndianWord(WordByte(w, 0), WordByte(w, 1), WordByte(w, 2), WordByte(w, 3)) == w
    ensures WordByte(w, 0) == (w >> 24) as Byte
  {
    BytesByShift(w);
    hide WordByte;
  }

  lemma BytesOfWord(b0: Byte, b1: Byte, b2: Byte, b3: Byte)
    ensures var w := BigEndianWord(b0, b1, b2, b3);
            WordByte(w, 0) == b0 && WordByte(w, 1) == b1 && WordByte(w, 2) == b2 && WordByte(w, 3) == b3
  {
    BytesByShift(BigEndianWord(b0, b1, b2, b3));
    hide WordByte;
  }
}
