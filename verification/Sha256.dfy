/** sha256.c: hashing a message that arrives in pieces. */
module Sha256 {
  import opened Arithmetic
  import opened Sha256Spec

  const TWO_TO_64: nat := 0x1_0000_0000_0000_0000

  class Ctx {
    const data: array<Byte>
    const state: array<Word>
    var datalen: nat
    var bitlen: nat  // modulo 2^64
    ghost var done: seq<Byte>  // the whole blocks hashed so far

    ghost predicate Shape() {
      data.Length == 64 && state.Length == 8
    }

    ghost function Hash(): Regs
      reads state
      requires Shape()
    {
      Regs(state[0], state[1], state[2], state[3], state[4], state[5], state[6], state[7])
    }

    ghost predicate Valid()
      reads this, state
    {
      && Shape() && datalen < 64 && |done| % 64 == 0
      && bitlen == (8 * |done|) % TWO_TO_64
      && Hash() == Fold(done)
    }

    /** Everything passed to `sha256_update` so far. */
    ghost function Message(): seq<Byte>
      reads this, data
      requires data.Length == 64 && datalen <= 64
    {
      done + data[..datalen]
    }

    constructor ()
      ensures Valid() && Message() == [] && fresh(data) && fresh(state)
    {
      hide Fold;
      FoldEmpty();
      data := new Byte[64](_ => 0);
      state := new Word[8](_ => 0);
      datalen, bitlen, done := 0, 0, [];
      new;
      state[0], state[1], state[2], state[3] := 0x6a09e667, 0xbb67ae85, 0x3c6ef372, 0xa54ff53a;
      state[4], state[5], state[6], state[7] := 0x510e527f, 0x9b05688c, 0x1f83d9ab, 0x5be0cd19;
    }

    /** `sha256_transform`; its two loops over the schedule come first. */
    method Transform(block: Block)
      requires Shape()
      modifies state
      ensures Hash() == Compress(old(Hash()), block)
    {
      hide Rounds, K, Add;
      var m := Schedule(block);
      ghost var r := Hash();
      var a, b, c, d := state[0], state[1], state[2], state[3];
      var e, f, g, h := state[4], state[5], state[6], state[7];
      a, b, c, d, e, f, g, h := Mix(a, b, c, d, e, f, g, h, m, block);
      state[0], state[1], state[2], state[3] := Add(state[0], a), Add(state[1], b), Add(state[2], c), Add(state[3], d);
      state[4], state[5], state[6], state[7] := Add(state[4], e), Add(state[5], f), Add(state[6], g), Add(state[7], h);
    }

    method Update(bytes: seq<Byte>)
      requires Valid() && |bytes| < 0x1_0000_0000
      modifies this, data, state
      ensures Valid() && Message() == old(Message()) + bytes
    {
      hide Fold;
      for i := 0 to |bytes|
        invariant Valid() && Message() == old(Message()) + bytes[..i]
      {
        AddByte(bytes[i]);
        assert bytes[..i + 1] == bytes[..i] + [bytes[i]];
      }
    }

    method AddByte(b: Byte)
      requires Valid()
      modifies this, data, state
      ensures Valid() && Message() == old(Message()) + [b]
    {
      hide Fold;
      data[datalen] := b;
      datalen := datalen + 1;
      assert Message() == old(Message()) + [b];
      if datalen == 64 {
        Flush();
      }
    }

    /** What `sha256_update` does when the buffer is full. */
    method Flush()
      requires Shape() && datalen == 64 && |done| % 64 == 0
      requires bitlen == (8 * |done|) % TWO_TO_64 && Hash() == Fold(done)
      modifies this, state
      ensures Valid() && Message() == old(Message())
    {
      hide Fold, Compress;
      ghost var block: Block := data[..];
      assert Message() == done + block;
      CountBlock(|done|);
      FoldBlock(done, block);
      Transform(data[..]);
      bitlen := (bitlen + 512) % TWO_TO_64;
      datalen := 0;
      done := done + block;
      assert Message() == done;
    }

    /** Stores 0x80 and then zeros up to `end`. */
    method Terminate(end: nat)
      requires data.Length == 64 && datalen < end <= 64
      modifies data
      ensures data[..end] == old(data[..datalen]) + [0x80] + Zeros(end - datalen - 1)
    {
      var i := datalen;
      data[i] := 0x80;
      i := i + 1;
      while i < end
        invariant datalen < i <= end
        invariant data[..i] == old(data[..datalen]) + [0x80] + Zeros(i - datalen - 1)
      {
        data[i] := 0x00;
        i := i + 1;
      }
    }

    /** The first part of `sha256_final`: both branches leave the padding up to the length in place. */
    method PadRest()
      requires Valid()
      modifies this`done, data, state
      ensures Shape() && |done| % 64 == 0 && Hash() == Fold(done)
      ensures done + data[..56] == old(Message()) + [0x80] + Zeros(ZeroCount(|old(Message())|))
    {
      hide Fold, Zeros, ZeroCount;
      ZeroCountByRest(|Message()|);
      if datalen < 56 {
        ghost var rest := data[..datalen];
        Terminate(56);
        PaddedShort(done, rest);
      } else {
        PadLong();
      }
    }

    /** The branch in which the length does not fit behind the message. */
    method PadLong()
      requires Valid() && datalen >= 56
      modifies this`done, data, state
      ensures |done| % 64 == 0 && Hash() == Fold(done)
      ensures done + data[..56] == old(Message()) + [0x80] + Zeros(119 - datalen)
    {
      hide Fold, Compress, Zeros;
      ghost var rest := data[..datalen];
      Terminate(64);
      ghost var last: Block := data[..];
      assert last == rest + [0x80] + Zeros(63 - datalen);
      PaddedLong(done, rest);
      FoldBlock(done, last);
      Transform(data[..]);
      ZeroFirst56();
      done := done + last;
    }

    /** The `memset` before the last block. */
    method ZeroFirst56()
      requires data.Length == 64
      modifies data
      ensures data[..56] == Zeros(56)
    {
      forall k | 0 <= k < 56 {
        data[k] := 0;
      }
    }

    /** `bitlen >> 8 * k` goes to byte `63 - k`. */
    method PutLength(n: nat)
      requires data.Length == 64
      modifies data
      ensures data[..56] == old(data[..56])
      ensures forall k :: 0 <= k < 8 ==> data[63 - k] == LengthByte(n, k)
    {
      hide LengthByte;
      data[63] := LengthByte(n, 0);
      data[62] := LengthByte(n, 1);
      data[61] := LengthByte(n, 2);
      data[60] := LengthByte(n, 3);
      data[59] := LengthByte(n, 4);
      data[58] := LengthByte(n, 5);
      data[57] := LengthByte(n, 6);
      data[56] := LengthByte(n, 7);
    }

    /** The output loop, which writes byte `i` of every word in its iteration `i`. */
    method PutDigest(hash: array<Byte>)
      requires Shape() && hash.Length == 32
      modifies hash
      ensures hash[..] == Output(Hash())
    {
      hide WordByte;
      for i := 0 to 4
        invariant forall p :: 0 <= p < 32 && p % 4 < i ==> hash[p] == WordByte(state[p / 4], p % 4)
      {
        PutColumn(hash, i);
      }
      assert forall i :: 0 <= i < 8 ==> state[i] == WordAt(Hash(), i);
    }

    method PutColumn(hash: array<Byte>, i: nat)
      requires Shape() && hash.Length == 32 && i < 4
      modifies hash
      ensures forall p :: 0 <= p < 32 ==>
                hash[p] == if p % 4 == i then WordByte(state[p / 4], i) else old(hash[p])
    {
      hide WordByte;
      hash[i] := WordByte(state[0], i);
      hash[i + 4] := WordByte(state[1], i);
      hash[i + 8] := WordByte(state[2], i);
      hash[i + 12] := WordByte(state[3], i);
      hash[i + 16] := WordByte(state[4], i);
      hash[i + 20] := WordByte(state[5], i);
      hash[i + 24] := WordByte(state[6], i);
      hash[i + 28] := WordByte(state[7], i);
    }

    /** `sha256_final`: pads, hashes the last one or two blocks and writes the digest. */
    method Final(hash: array<Byte>)
      requires Valid() && 8 * |Message()| < TWO_TO_64
      requires hash.Length == 32 && hash != data
      modifies this, data, state, hash
      ensures hash[..] == Digest(old(Message()))
    {
      hide Fold, Compress, Output, ZeroCount, LengthByte;
      ghost var m := Message();
      PadRest();
      bitlen := (bitlen + 8 * datalen) % TWO_TO_64;
      PutLength(bitlen);
      assert data[56..] == BigEndian64(bitlen);
      assert bitlen == 8 * |m|;
      assert data[..] == data[..56] + BigEndian64(8 * |m|);
      assert done + data[..] == Pad(m);
      FoldBlock(done, data[..]);
      Transform(data[..]);
      PutDigest(hash);
    }
  }

  lemma PaddedShort(done: seq<Byte>, rest: seq<Byte>)
    requires |rest| < 56
    ensures done + (rest + [0x80] + Zeros(55 - |rest|)) == done + rest + [0x80] + Zeros(55 - |rest|)
  {
  }

  lemma PaddedLong(done: seq<Byte>, rest: seq<Byte>)
    requires |rest| < 64
    ensures done + (rest + [0x80] + Zeros(63 - |rest|)) + Zeros(56) == done + rest + [0x80] + Zeros(119 - |rest|)
  {
    assert Zeros(119 - |rest|) == Zeros(63 - |rest|) + Zeros(56);
  }

  /** Counting 512 bits more, modulo 2^64. */
  lemma CountBlock(n: nat)
    ensures (8 * n % TWO_TO_64 + 512) % TWO_TO_64 == 8 * (n + 64) % TWO_TO_64
    ensures n % 64 == 0 ==> (n + 64) % 64 == 0
  {
    var x := 8 * n % TWO_TO_64 + 512;
    DivisionUnique(8 * n + 512, TWO_TO_64, 8 * n / TWO_TO_64 + x / TWO_TO_64, x % TWO_TO_64);
    if n % 64 == 0 {
      DivisionUnique(n + 64, 64, n / 64 + 1, 0);
    }
  }

  lemma FoldEmpty()
    ensures Fold([]) == H0
  {
  }

  /** One more block. */
  lemma FoldBlock(m: seq<Byte>, block: Block)
    requires |m| % 64 == 0
    ensures Fold(m + block) == Compress(Fold(m), block)
  {
    hide Compress;
    assert (m + block)[..|m|] == m && (m + block)[|m|..] == block;
  }

  method Schedule(data: Block) returns (m: array<Word>)
    ensures fresh(m) && m.Length == 64 && forall t :: 0 <= t < 64 ==> m[t] == W(data, t)
  {
    hide W, ScheduleWord, BlockWord;
    m := new Word[64](_ => 0);
    for i := 0 to 16
      invariant forall t :: 0 <= t < i ==> m[t] == W(data, t)
    {
      var j := 4 * i;
      m[i] := BigEndianWord(data[j], data[j + 1], data[j + 2], data[j + 3]);
      WordOfBlock(data, i);
    }
    for i := 16 to 64
      invariant forall t :: 0 <= t < i ==> m[t] == W(data, t)
    {
      WordOfSchedule(data, i);
      m[i] := ScheduleWord(m[i - 2], m[i - 7], m[i - 15], m[i - 16]);
    }
  }

  lemma WordOfBlock(data: Block, t: nat)
    requires t < 16
    ensures W(data, t) == BigEndianWord(data[4 * t], data[4 * t + 1], data[4 * t + 2], data[4 * t + 3])
  {
    hide BigEndianWord;
  }

  lemma WordOfSchedule(data: Block, t: nat)
    requires 16 <= t < 64
    ensures W(data, t) ==
            ScheduleWord(W(data, t - 2), W(data, t - 7), W(data, t - 15), W(data, t - 16))
  {
    hide ScheduleWord, BlockWord;
  }

  /** The rotating loop over the eight working variables. */
  method Mix(a0: Word, b0: Word, c0: Word, d0: Word, e0: Word, f0: Word, g0: Word, h0: Word, m: array<Word>,
             ghost block: Block)
      returns (a: Word, b: Word, c: Word, d: Word, e: Word, f: Word, g: Word, h: Word)
    requires m.Length == 64 && forall t :: 0 <= t < 64 ==> m[t] == W(block, t)
    ensures Regs(a, b, c, d, e, f, g, h) == Rounds(Regs(a0, b0, c0, d0, e0, f0, g0, h0), block, 64)
  {
    hide W, T1, T2, Rounds, K, Add;
    ghost var r := Regs(a0, b0, c0, d0, e0, f0, g0, h0);
    a, b, c, d, e, f, g, h := a0, b0, c0, d0, e0, f0, g0, h0;
    RoundsFromStart(r, block);
    for i := 0 to 64
      invariant Regs(a, b, c, d, e, f, g, h) == Rounds(r, block, i)
    {
      RoundsNext(r, block, i);
      var t1 := T1(e, f, g, h, K(i), m[i]);
      var t2 := T2(a, b, c);
      h := g;
      g := f;
      f := e;
      e := Add(d, t1);
      d := c;
      c := b;
      b := a;
      a := Add(t1, t2);
    }
  }

  lemma RoundsFromStart(r: Regs, block: Block)
    ensures Rounds(r, block, 0) == r
  {
  }

  lemma RoundsNext(r: Regs, block: Block, n: nat)
    requires n < 64
    ensures Rounds(r, block, n + 1) == Round(Rounds(r, block, n), K(n), W(block, n))
  {
    hide Round, K, W;
  }

  function Concatenation(pieces: seq<seq<Byte>>): seq<Byte> {
    if pieces == [] then [] else Concatenation(pieces[..|pieces| - 1]) + pieces[|pieces| - 1]
  }

  /** However a message is cut into pieces, hashing them one by one gives the digest of the whole. */
  method HashPieces(pieces: seq<seq<Byte>>, hash: array<Byte>)
    requires forall i :: 0 <= i < |pieces| ==> |pieces[i]| < 0x1_0000_0000
    requires 8 * |Concatenation(pieces)| < TWO_TO_64 && hash.Length == 32
    modifies hash
    ensures hash[..] == Digest(Concatenation(pieces))
  {
    hide Digest, Fold;
    var ctx := new Ctx();
    for i := 0 to |pieces|
      invariant ctx.Valid() && fresh(ctx) && fresh(ctx.data) && fresh(ctx.state)
      invariant ctx.Message() == Concatenation(pieces[..i])
    {
      ctx.Update(pieces[i]);
      assert pieces[..i + 1][..i] == pieces[..i];
    }
    assert pieces[..|pieces|] == pieces;
    ctx.Final(hash);
  }
}
