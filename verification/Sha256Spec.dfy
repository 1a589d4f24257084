/** SHA-256 as FIPS 180-4 defines it: functions (section 4.1.2), constants (section 4.2.2), padding
    (section 5.1.1), parsing (section 5.2.1) and hash computation (section 6.2). */
module Sha256Spec {
  import opened Arithmetic

  type Word = bv32
  type Byte = bv8

  /** Addition modulo 2^32. */
  function Add(x: Word, y: Word): Word {
    x + y
  }

  function RotR(x: Word, n: Word): Word
    requires n <= 32
  {
    (x >> n) | (x << (32 - n))
  }

  function Ch(x: Word, y: Word, z: Word): Word {
    (x & y) ^ (!x & z)
  }

  function Maj(x: Word, y: Word, z: Word): Word {
    (x & y) ^ (x & z) ^ (y & z)
  }

  function BigSigma0(x: Word): Word {
    RotR(x, 2) ^ RotR(x, 13) ^ RotR(x, 22)
  }

  function BigSigma1(x: Word): Word {
    RotR(x, 6) ^ RotR(x, 11) ^ RotR(x, 25)
  }

  function SmallSigma0(x: Word): Word {
    RotR(x, 7) ^ RotR(x, 18) ^ (x >> 3)
  }

  function SmallSigma1(x: Word): Word {
    RotR(x, 17) ^ RotR(x, 19) ^ (x >> 10)
  }

  /** The constants, eight to a row. */
  function KRow(r: nat): (k: seq<Word>)
    requires r < 8
    ensures |k| == 8
  {
    match r
    case 0 => [0x428a2f98, 0x71374491, 0xb5c0fbcf, 0xe9b5dba5, 0x3956c25b, 0x59f111f1, 0x923f82a4, 0xab1c5ed5]
    case 1 => [0xd807aa98, 0x12835b01, 0x243185be, 0x550c7dc3, 0x72be5d74, 0x80deb1fe, 0x9bdc06a7, 0xc19bf174]
    case 2 => [0xe49b69c1, 0xefbe4786, 0x0fc19dc6, 0x240ca1cc, 0x2de92c6f, 0x4a7484aa, 0x5cb0a9dc, 0x76f988da]
    case 3 => [0x983e5152, 0xa831c66d, 0xb00327c8, 0xbf597fc7, 0xc6e00bf3, 0xd5a79147, 0x06ca6351, 0x14292967]
    case 4 => [0x27b70a85, 0x2e1b2138, 0x4d2c6dfc, 0x53380d13, 0x650a7354, 0x766a0abb, 0x81c2c92e, 0x92722c85]
    case 5 => [0xa2bfe8a1, 0xa81a664b, 0xc24b8b70, 0xc76c51a3, 0xd192e819, 0xd6990624, 0xf40e3585, 0x106aa070]
    case 6 => [0x19a4c116, 0x1e376c08, 0x2748774c, 0x34b0bcb5, 0x391c0cb3, 0x4ed8aa4a, 0x5b9cca4f, 0x682e6ff3]
    case 7 => [0x748f82ee, 0x78a5636f, 0x84c87814, 0x8cc70208, 0x90befffa, 0xa4506ceb, 0xbef9a3f7, 0xc67178f2]
  }

  function K(t: nat): Word
    requires t < 64
  {
    KRow(t / 8)[t % 8]
  }

  /** The working variables a to h, also used for the eight words of a hash value. */
  datatype Regs = Regs(a: Word, b: Word, c: Word, d: Word, e: Word, f: Word, g: Word, h: Word)

  const H0 := Regs(0x6a09e667, 0xbb67ae85, 0x3c6ef372, 0xa54ff53a, 0x510e527f, 0x9b05688c, 0x1f83d9ab, 0x5be0cd19)

  type Block = b: seq<Byte> | |b| == 64 witness seq(64, _ => 0)

  function BigEndianWord(b0: Byte, b1: Byte, b2: Byte, b3: Byte): Word {
    ((b0 as Word) << 24) | ((b1 as Word) << 16) | ((b2 as Word) << 8) | (b3 as Word)
  }

  function BlockWord(block: Block, t: nat): Word
    requires t < 16
  {
    BigEndianWord(block[4 * t], block[4 * t + 1], block[4 * t + 2], block[4 * t + 3])
  }

  /** The schedule word that follows from those 2, 7, 15 and 16 places before it. */
  function ScheduleWord(w2: Word, w7: Word, w15: Word, w16: Word): Word {
    SmallSigma1(w2) + w7 + SmallSigma0(w15) + w16
  }

  /** The message schedule (section 6.2.2, step 1). */
  function W(block: Block, t: nat): Word
    requires t < 64
  {
    if t < 16 then BlockWord(block, t)
    else ScheduleWord(W(block, t - 2), W(block, t - 7), W(block, t - 15), W(block, t - 16))
  }

  function T1(e: Word, f: Word, g: Word, h: Word, k: Word, w: Word): Word {
    h + BigSigma1(e) + Ch(e, f, g) + k + w
  }

  function T2(a: Word, b: Word, c: Word): Word {
    BigSigma0(a) + Maj(a, b, c)
  }

  /** One iteration of section 6.2.2, step 3. */
  function Round(r: Regs, k: Word, w: Word): Regs {
    var t1, t2 := T1(r.e, r.f, r.g, r.h, k, w), T2(r.a, r.b, r.c);
    Regs(Add(t1, t2), r.a, r.b, r.c, Add(r.d, t1), r.e, r.f, r.g)
  }

  function Rounds(r: Regs, block: Block, n: nat): Regs
    requires n <= 64
  {
    if n == 0 then r else Round(Rounds(r, block, n - 1), K(n - 1), W(block, n - 1))
  }

  function Compress(r: Regs, block: Block): Regs {
    var s := Rounds(r, block, 64);
    Regs(Add(r.a, s.a), Add(r.b, s.b), Add(r.c, s.c), Add(r.d, s.d), Add(r.e, s.e), Add(r.f, s.f), Add(r.g, s.g), Add(r.h, s.h))
  }

  /** The hash value after all the blocks of a padded message. */
  function Fold(m: seq<Byte>): Regs
    requires |m| % 64 == 0
  {
    if m == [] then H0 else Compress(Fold(m[..|m| - 64]), m[|m| - 64..])
  }

  function Zeros(n: nat): (z: seq<Byte>)
    ensures |z| == n
  {
    seq(n, _ => 0)
  }

  function Pow256(n: nat): (r: nat)
    ensures r > 0
  {
    if n == 0 then 1 else 256 * Pow256(n - 1)
  }

  /** Digit `k` of a number in base 256, counted from the least significant one. */
  function Digit(n: nat, k: nat): (d: nat)
    ensures d < 256
  {
    n / Pow256(k) % 256
  }

  function LengthByte(n: nat, k: nat): Byte {
    Digit(n, k) as Byte
  }

  /** A number below 2^64 as eight bytes, most significant first. */
  function BigEndian64(n: nat): (s: seq<Byte>)
    ensures |s| == 8
  {
    seq(8, i requires 0 <= i < 8 => LengthByte(n, 7 - i))
  }

  /** How many zero bytes follow the 0x80. */
  function ZeroCount(n: nat): (z: nat) {
    (55 - n) % 64
  }

  lemma ZeroCountByRest(n: nat)
    ensures ZeroCount(n) == if n % 64 < 56 then 55 - n % 64 else 119 - n % 64
    ensures (n + 1 + ZeroCount(n) + 8) % 64 == 0
  {
    var q, r := n / 64, n % 64;
    assert 55 - n == 64 * (-q) + (55 - r);
  }

  /** It is the least number that leaves the message eight bytes short of a whole block. */
  lemma ZeroCountIsLeast(n: nat, z: nat)
    ensures (n + 1 + ZeroCount(n)) % 64 == 56
    ensures (n + 1 + z) % 64 == 56 ==> z >= ZeroCount(n)
  {
    ZeroCountByRest(n);
  }

  /** A one bit, the least number of zero bits that leaves room for the length, and the length in bits. */
  function Pad(m: seq<Byte>): (p: seq<Byte>)
    ensures |p| % 64 == 0
  {
    ZeroCountByRest(|m|);
    assert |m + [0x80] + Zeros(ZeroCount(|m|)) + BigEndian64(8 * |m|)| == |m| + 1 + ZeroCount(|m|) + 8;
    m + [0x80] + Zeros(ZeroCount(|m|)) + BigEndian64(8 * |m|)
  }

  function LowByte(w: Word, shift: nat): Byte
    requires shift < 32
  {
    ((w >> shift) & 0xff) as Byte
  }

  function WordByte(w: Word, i: nat): Byte
    requires i < 4
  {
    LowByte(w, 24 - 8 * i)
  }

  function WordAt(r: Regs, i: nat): Word
    requires i < 8
  {
    if i == 0 then r.a else if i == 1 then r.b else if i == 2 then r.c else if i == 3 then r.d
    else if i == 4 then r.e else if i == 5 then r.f else if i == 6 then r.g else r.h
  }

  /** The eight words one after the other, each with its most significant byte first. */
  function Output(r: Regs): (s: seq<Byte>)
    ensures |s| == 32
  {
    seq(32, p requires 0 <= p < 32 => WordByte(WordAt(r, p / 4), p % 4))
  }

  /** The digest of a message, which the standard defines for fewer than 2^64 bits. */
  function Digest(m: seq<Byte>): (s: seq<Byte>)
    requires 8 * |m| < 0x1_0000_0000_0000_0000
    ensures |s| == 32
  {
    Output(Fold(Pad(m)))
  }

  // ---------- what the length field means ----------

  /** The number written by digits `i - 1` down to 0. */
  function Value(digits: seq<nat>): nat {
    if digits == [] then 0 else 256 * Value(digits[..|digits| - 1]) + digits[|digits| - 1]
  }

  /** The digits of which `BigEndian64` holds the bytes. */
  function Digits64(n: nat): (s: seq<nat>)
    ensures |s| == 8 && forall i :: 0 <= i < 8 ==> s[i] < 256 && BigEndian64(n)[i] == s[i] as Byte
  {
    seq(8, i requires 0 <= i < 8 => Digit(n, 7 - i))
  }

  lemma ValueOfPrefix(s: seq<nat>, i: nat)
    requires 0 < i <= |s|
    ensures Value(s[..i]) == 256 * Value(s[..i - 1]) + s[i - 1]
  {
    assert s[..i][..i - 1] == s[..i - 1];
  }

  lemma {:induction false} DigitsPrefix(n: nat, i: nat)
    requires i <= 8 && n < Pow256(8)
    ensures Value(Digits64(n)[..i]) == n / Pow256(8 - i)
  {
    if i > 0 {
      var d := Pow256(8 - i);
      ValueOfPrefix(Digits64(n), i);
      assert Pow256(9 - i) == 256 * d;
      assert Digits64(n)[i - 1] == n / d % 256;
      hide *;
      DigitsPrefix(n, i - 1);
      DivideTwice(n, d);
      var q := n / d;
      assert q == 256 * (q / 256) + q % 256;
    }
  }

  /** The eight bytes are those of the base-256 digits of the message length in bits, all of it. */
  lemma LengthIsEncoded(n: nat)
    requires n < 0x1_0000_0000_0000_0000
    ensures Value(Digits64(n)) == n
  {
    assert Pow256(2) == 0x1_0000 && Pow256(4) == 0x1_0000_0000 && Pow256(6) == 0x1_0000_0000_0000;
    assert Pow256(8) == 0x1_0000_0000_0000_0000;
    DigitsPrefix(n, 8);
    assert Digits64(n)[..8] == Digits64(n);
  }
}
