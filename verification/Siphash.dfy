/** siphash.c against section 2 of "SipHash: a fast short-input PRF" (Aumasson and Bernstein, 2012). */
module Siphash {
  import opened Octets

  datatype State = State(v0: bv64, v1: bv64, v2: bv64, v3: bv64)

  function Add(x: bv64, y: bv64): bv64 { x + y }

  function Xor(x: bv64, y: bv64): bv64 { x ^ y }

  function Rotl(x: bv64, b: bv64): bv64
    requires 0 < b < 64
  {
    (x << b) | (x >> (64 - b))
  }

  // ---------- the standard ----------

  /** SipRound, section 2.4: the two halves of the state side by side. */
  function SipRound(s: State): State {
    var v0 := Add(s.v0, s.v1);
    var v2 := Add(s.v2, s.v3);
    var v1 := Xor(Rotl(s.v1, 13), v0);
    var v3 := Xor(Rotl(s.v3, 16), v2);
    var w0 := Add(Rotl(v0, 32), v3);
    var w2 := Add(v2, v1);
    State(w0, Xor(Rotl(v1, 17), w2), Rotl(w2, 32), Xor(Rotl(v3, 21), w0))
  }

  function Rounds(n: nat, s: State): State {
    if n == 0 then s else Rounds(n - 1, SipRound(s))
  }

  /** Eight bytes, the least significant first. */
  function Word(b0: bv64, b1: bv64, b2: bv64, b3: bv64, b4: bv64, b5: bv64, b6: bv64, b7: bv64): bv64 {
    b0 | (b1 << 8) | (b2 << 16) | (b3 << 24) | (b4 << 32) | (b5 << 40) | (b6 << 48) | (b7 << 56)
  }

  function Wide(b: Byte): bv64 { b as bv64 }

  function Load(p: seq<Byte>): bv64
    requires |p| >= 8
  {
    Word(Wide(p[0]), Wide(p[1]), Wide(p[2]), Wide(p[3]), Wide(p[4]), Wide(p[5]), Wide(p[6]), Wide(p[7]))
  }

  /** The message, null bytes, and a byte with the length of the message modulo 256, to fill whole words. */
  function Padded(m: seq<Byte>): (p: seq<Byte>)
    ensures |p| == 8 * (|m| / 8 + 1)
  {
    m + seq(7 - |m| % 8, _ => 0) + [|m| % 256]
  }

  function Words(p: seq<Byte>): seq<bv64> {
    if |p| < 8 then [] else [Load(p)] + Words(p[8..])
  }

  /** Compression, section 2.2. */
  function Compress(c: nat, s: State, m: bv64): State {
    var t := Rounds(c, s.(v3 := Xor(s.v3, m)));
    t.(v0 := Xor(t.v0, m))
  }

  function CompressAll(c: nat, s: State, ms: seq<bv64>): State
    decreases ms
  {
    if ms == [] then s else CompressAll(c, Compress(c, s, ms[0]), ms[1..])
  }

  /** Initialization, section 2.1. */
  function Initial(key: seq<Byte>): State
    requires |key| == 16
  {
    var k0, k1 := Load(key[..8]), Load(key[8..]);
    State(Xor(0x736f6d6570736575, k0), Xor(0x646f72616e646f6d, k1),
          Xor(0x6c7967656e657261, k0), Xor(0x7465646279746573, k1))
  }

  /** Finalization, section 2.3. */
  function Finalize(d: nat, s: State): bv64 {
    var t := Rounds(d, s.(v2 := Xor(s.v2, 0xff)));
    Xor(Xor(Xor(t.v0, t.v1), t.v2), t.v3)
  }

  /** SipHash-c-d. */
  function SipHash(c: nat, d: nat, key: seq<Byte>, m: seq<Byte>): bv64
    requires |key| == 16
  {
    Finalize(d, CompressAll(c, Initial(key), Words(Padded(m))))
  }

  /** No two messages are padded alike. */
  lemma PaddedIsInjective(m: seq<Byte>, n: seq<Byte>)
    requires Padded(m) == Padded(n)
    ensures m == n
  {
    var p := Padded(m);
    assert p[|p| - 1] == |m| % 256 == |n| % 256;
    assert |m| / 8 == |n| / 8;
    SameRemainder(|m|);
    SameRemainder(|n|);
    assert m == p[..|m|] && n == p[..|n|];
  }

  lemma SameRemainder(x: nat)
    ensures x % 8 == x % 256 % 8
  {
    assert x == 256 * (x / 256) + x % 256;
  }

  // ---------- the program ----------

  /** The macro SIPROUND. */
  method Round(x0: bv64, x1: bv64, x2: bv64, x3: bv64) returns (v0: bv64, v1: bv64, v2: bv64, v3: bv64)
    ensures State(v0, v1, v2, v3) == SipRound(State(x0, x1, x2, x3))
  {
    hide Add, Xor, Rotl;
    v0, v1, v2, v3 := x0, x1, x2, x3;
    v0 := Add(v0, v1);
    v1 := Rotl(v1, 13);
    v1 := Xor(v1, v0);
    v0 := Rotl(v0, 32);
    v2 := Add(v2, v3);
    v3 := Rotl(v3, 16);
    v3 := Xor(v3, v2);
    v0 := Add(v0, v3);
    v3 := Rotl(v3, 21);
    v3 := Xor(v3, v0);
    v2 := Add(v2, v1);
    v1 := Rotl(v1, 17);
    v1 := Xor(v1, v2);
    v2 := Rotl(v2, 32);
  }

  /** `b |= (uint64_t)x << k`. */
  function Or(b: bv64, x: Byte, k: int): bv64
    requires 0 <= k < 64
  {
    b | (Wide(x) << k)
  }

  /** One case of the switch: byte `i`, if it is left over. */
  function Case(b: bv64, t: seq<Byte>, i: int): bv64
    requires 0 <= i < 8
  {
    if i < |t| then Or(b, t[i], 8 * i) else b
  }

  /** The word whose low bytes are `t` and whose high byte is `x`, in the order of the switch. */
  function Tail(t: seq<Byte>, x: Byte): bv64 {
    Case(Case(Case(Case(Case(Case(Case(Or(0, x, 56), t, 6), t, 5), t, 4), t, 3), t, 2), t, 1), t, 0)
  }

  lemma TailOfCases(t: seq<Byte>, x: Byte)
    ensures Tail(t, x) ==
            Case(Case(Case(Case(Case(Case(Case(Or(0, x, 56), t, 6), t, 5), t, 4), t, 3), t, 2), t, 1), t, 0)
  {
  }

  /** The switch over the bytes left over: each case falls through to the next. */
  method LastWord(m: seq<Byte>, at: nat) returns (b: bv64)
    requires at == |m| - |m| % 8
    ensures Words(Padded(m)[at..]) == [b]
  {
    hide Or, Padded, Words, Load, Tail;
    ghost var t := m[at..];
    var left := |m| % 8;
    b := Or(0, |m| % 256, 56);
    ghost var b7 := b;
    if left >= 7 {
      b := Or(b, m[at + 6], 48);
    }
    ghost var b6 := b;
    if left >= 6 {
      b := Or(b, m[at + 5], 40);
    }
    ghost var b5 := b;
    if left >= 5 {
      b := Or(b, m[at + 4], 32);
    }
    ghost var b4 := b;
    if left >= 4 {
      b := Or(b, m[at + 3], 24);
    }
    ghost var b3 := b;
    if left >= 3 {
      b := Or(b, m[at + 2], 16);
    }
    ghost var b2 := b;
    if left >= 2 {
      b := Or(b, m[at + 1], 8);
    }
    ghost var b1 := b;
    if left >= 1 {
      b := Or(b, m[at], 0);
    }
    assert b6 == Case(b7, t, 6) && b5 == Case(b6, t, 5) && b4 == Case(b5, t, 4);
    assert b3 == Case(b4, t, 3) && b2 == Case(b3, t, 2) && b1 == Case(b2, t, 1) && b == Case(b1, t, 0);
    TailOfCases(t, |m| % 256);
    WordOfTail(t, |m| % 256);
    PaddedTail(m, at);
  }

  lemma OrZero(b: bv64, k: int)
    requires 0 <= k < 64
    ensures Or(b, 0, k) == b
  {
    assert Wide(0) == 0;
    ShiftedZero(k);
  }

  lemma ShiftedZero(k: int)
    requires 0 <= k < 64
    ensures (0 as bv64) << k == 0
  {
  }

  /** All eight bytes, from the high end down. */
  function Full(z: seq<Byte>): bv64
    requires |z| == 8
  {
    Or(Or(Or(Or(Or(Or(Or(Or(0, z[7], 56), z[6], 48), z[5], 40), z[4], 32), z[3], 24), z[2], 16), z[1], 8), z[0], 0)
  }

  lemma OrsCommute(b0: bv64, b1: bv64, b2: bv64, b3: bv64, b4: bv64, b5: bv64, b6: bv64, b7: bv64)
    ensures ((((((((0 as bv64) | (b7 << 56)) | (b6 << 48)) | (b5 << 40)) | (b4 << 32)) | (b3 << 24)) | (b2 << 16)) | (b1 << 8)) | (b0 << 0)
            == Word(b0, b1, b2, b3, b4, b5, b6, b7)
  {
  }

  lemma FullIsLoad(z: seq<Byte>)
    requires |z| == 8
    ensures Full(z) == Load(z)
  {
    hide Wide, Word;
    OrsCommute(Wide(z[0]), Wide(z[1]), Wide(z[2]), Wide(z[3]), Wide(z[4]), Wide(z[5]), Wide(z[6]), Wide(z[7]));
  }

  lemma WordOfTail(t: seq<Byte>, x: Byte)
    requires |t| < 8
    ensures Load(t + seq(7 - |t|, _ => 0) + [x]) == Tail(t, x)
  {
    hide Or, Load;
    var z := t + seq(7 - |t|, _ => 0) + [x];
    FullIsLoad(z);
    assert forall i :: |t| <= i < 7 ==> z[i] == 0;
    var b := Or(0, x, 56);
    OrZero(b, 48);
    OrZero(b, 40);
    OrZero(b, 32);
    OrZero(b, 24);
    OrZero(b, 16);
    OrZero(b, 8);
    OrZero(b, 0);
  }

  lemma PaddedTail(m: seq<Byte>, at: nat)
    requires at == |m| - |m| % 8
    ensures Padded(m)[at..] == m[at..] + seq(7 - |m| % 8, _ => 0) + [|m| % 256]
    ensures Words(Padded(m)[at..]) == [Load(m[at..] + seq(7 - |m[at..]|, _ => 0) + [|m| % 256])]
  {
    hide Load;
    var p := Padded(m)[at..];
    assert p == m[at..] + seq(7 - |m| % 8, _ => 0) + [|m| % 256];
    assert |p| == 8 && p[8..] == [];
  }

  method Hash(m: seq<Byte>, key: seq<Byte>) returns (hash: bv64)
    requires |key| == 16
    ensures hash == SipHash(1, 2, key, m)
  {
    hide Xor, Load, Initial, Padded, Words, SipRound;
    var v0, v1, v2, v3 := Keyed(key);
    ghost var goal := CompressAll(1, Initial(key), Words(Padded(m)));
    var end := |m| - |m| % 8;
    var at := 0;
    assert Padded(m)[0..] == Padded(m);
    while at != end
      invariant 0 <= at <= end && at % 8 == 0
      invariant CompressAll(1, State(v0, v1, v2, v3), Words(Padded(m)[at..])) == goal
      decreases end - at
    {
      var w := Load(m[at..at + 8]);
      NextWord(m, at, 1, State(v0, v1, v2, v3));
      OneRound(State(v0, v1, v2, v3), w);
      v3 := Xor(v3, w);
      v0, v1, v2, v3 := Round(v0, v1, v2, v3);
      v0 := Xor(v0, w);
      at := at + 8;
    }
    var b := LastWord(m, at);
    OneWord(State(v0, v1, v2, v3), b);
    OneRound(State(v0, v1, v2, v3), b);
    v3 := Xor(v3, b);
    v0, v1, v2, v3 := Round(v0, v1, v2, v3);
    v0 := Xor(v0, b);
    assert goal == State(v0, v1, v2, v3);
    TwoRounds(State(v0, v1, Xor(v2, 0xff), v3));
    v2 := Xor(v2, 0xff);
    v0, v1, v2, v3 := Round(v0, v1, v2, v3);
    v0, v1, v2, v3 := Round(v0, v1, v2, v3);
    hash := Xor(Xor(Xor(v0, v1), v2), v3);
  }

  method Keyed(key: seq<Byte>) returns (v0: bv64, v1: bv64, v2: bv64, v3: bv64)
    requires |key| == 16
    ensures State(v0, v1, v2, v3) == Initial(key)
  {
    hide Xor, Load;
    v0, v1, v2, v3 := 0x736f6d6570736575, 0x646f72616e646f6d, 0x6c7967656e657261, 0x7465646279746573;
    var k0, k1 := Load(key[..8]), Load(key[8..]);
    v3 := Xor(v3, k1);
    v2 := Xor(v2, k0);
    v1 := Xor(v1, k1);
    v0 := Xor(v0, k0);
  }

  lemma NextWord(m: seq<Byte>, at: nat, c: nat, s: State)
    requires at % 8 == 0 && at + 8 <= |m|
    ensures CompressAll(c, s, Words(Padded(m)[at..])) ==
            CompressAll(c, Compress(c, s, Load(m[at..at + 8])), Words(Padded(m)[at + 8..]))
  {
    hide Compress, Load, Padded;
    PaddedAt(m, at);
    assert Words(Padded(m)[at..])[1..] == Words(Padded(m)[at + 8..]);
  }

  lemma PaddedAt(m: seq<Byte>, at: nat)
    requires at % 8 == 0 && at + 8 <= |m|
    ensures |Padded(m)[at..]| >= 8 && Load(Padded(m)[at..]) == Load(m[at..at + 8])
    ensures Padded(m)[at..][8..] == Padded(m)[at + 8..]
  {
    hide Word;
    var p := Padded(m);
    assert forall k :: 0 <= k < 8 ==> p[at..][k] == m[at..at + 8][k];
  }

  lemma OneRound(s: State, m: bv64)
    ensures var t := SipRound(s.(v3 := Xor(s.v3, m)));
            Compress(1, s, m) == t.(v0 := Xor(t.v0, m))
  {
    hide SipRound, Xor;
    assert Rounds(1, s.(v3 := Xor(s.v3, m))) == Rounds(0, SipRound(s.(v3 := Xor(s.v3, m))));
  }

  lemma OneWord(s: State, m: bv64)
    ensures CompressAll(1, s, [m]) == Compress(1, s, m)
  {
    hide Compress;
    assert [m][1..] == [];
  }

  lemma TwoRounds(s: State)
    ensures Rounds(2, s) == SipRound(SipRound(s))
  {
    hide SipRound;
    assert Rounds(2, s) == Rounds(1, SipRound(s));
  }
}
