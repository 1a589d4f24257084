/** util.c: the byte generator, which is HMAC in counter mode. */
module RandomBytes {
  import opened Arithmetic
  import opened Sha256Spec
  import opened Sha256

  // ---------- HMAC over SHA-256, RFC 2104, section 2 ----------

  function XorByte(x: Byte, y: Byte): Byte {
    x ^ y
  }

  /** The bits that are in one of the two and not in both; a pad applied twice is taken off again. */
  lemma XorIsExclusive(x: Byte, y: Byte)
    ensures XorByte(x, y) == (x | y) & !(x & y)
    ensures XorByte(XorByte(x, y), y) == x
  {
  }

  function Xor(s: seq<Byte>, pad: Byte): (r: seq<Byte>)
    ensures |r| == |s|
  {
    seq(|s|, i requires 0 <= i < |s| => XorByte(s[i], pad))
  }

  /** The key as a block: hashed if it is longer than one, then filled up with zeros. */
  function KeyBlock(key: seq<Byte>): (k: seq<Byte>)
    requires 8 * |key| < TWO_TO_64
    ensures |k| == 64
  {
    var k := if |key| > 64 then Digest(key) else key;
    k + Zeros(64 - |k|)
  }

  function Hmac(key: seq<Byte>, text: seq<Byte>): (mac: seq<Byte>)
    requires 8 * |key| < TWO_TO_64 && 8 * (64 + |text|) < TWO_TO_64
    ensures |mac| == 32
  {
    var k := KeyBlock(key);
    Digest(Xor(k, 0x5c) + Digest(Xor(k, 0x36) + text))
  }

  // ---------- the byte stream ----------

  /** The bytes of a 64-bit number in memory, least significant first. */
  function LittleEndian64(n: nat): (s: seq<Byte>)
    ensures |s| == 8
  {
    seq(8, i requires 0 <= i < 8 => LengthByte(n, i))
  }

  /** Its bytes are those of the big-endian form in reverse order. */
  lemma LittleEndianIsReversed(n: nat)
    ensures forall i :: 0 <= i < 8 ==> LittleEndian64(n)[i] == BigEndian64(n)[7 - i]
  {
    hide LengthByte;
  }

  /** The MACs of `n` consecutive counter values, one after the other. */
  function MacStream(seed: seq<Byte>, counter: nat, n: nat): (s: seq<Byte>)
    requires |seed| == 64
    ensures |s| == 32 * n
  {
    if n == 0 then []
    else MacStream(seed, counter, n - 1) + Hmac(seed, LittleEndian64((counter + n - 1) % TWO_TO_64))
  }

  function BlocksFor(len: nat): (n: nat)
    ensures len <= 32 * n < len + 32
  {
    (len + 31) / 32
  }

  class Generator {
    const seed: array<Byte>
    var counter: nat

    ghost predicate Valid()
      reads this
    {
      seed.Length == 64 && counter < TWO_TO_64
    }

    /** The seed comes from outside. */
    constructor (seed: array<Byte>)
      requires seed.Length == 64
      ensures Valid() && this.seed == seed && counter == 0
    {
      this.seed := seed;
      counter := 0;
    }

    /** The body of the generation loop up to the copy: one MAC of the counter. */
    method NextMac() returns (digest: array<Byte>)
      requires Valid()
      ensures fresh(digest) && digest.Length == 32 && digest[..] == Hmac(seed[..], LittleEndian64(counter))
    {
      hide Digest, Xor, LittleEndian64;
      digest := new Byte[32](_ => 0);
      ghost var key := seed[..];
      assert KeyBlock(key) == key;
      var kxor := XorSeed(0x36);
      HashTwo(kxor, LittleEndian64(counter), digest);
      kxor := XorSeed(0x5c);
      HashTwo(kxor, digest[..], digest);
    }

    method XorSeed(pad: Byte) returns (kxor: seq<Byte>)
      requires Valid()
      ensures |kxor| == 64 && kxor == Xor(seed[..], pad)
    {
      hide XorByte;
      var k := new Byte[64](i requires 0 <= i < 64 reads seed => seed[i]);
      for i := 0 to 64
        invariant forall j :: 0 <= j < 64 ==> k[j] == if j < i then XorByte(seed[j], pad) else seed[j]
      {
        k[i] := XorByte(k[i], pad);
      }
      kxor := k[..];
    }

    /** The body of the generation loop: one MAC, or as much of it as there is room for. */
    method PutBlock(p: array<Byte>, at: nat) returns (copylen: nat)
      requires Valid() && p != seed && at < p.Length
      modifies this`counter, p
      ensures Valid() && counter == (old(counter) + 1) % TWO_TO_64
      ensures copylen == if p.Length - at > 32 then 32 else p.Length - at
      ensures p[..at + copylen] == old(p[..at]) + Hmac(seed[..], LittleEndian64(old(counter)))[..copylen]
    {
      hide Hmac, LittleEndian64;
      var digest := NextMac();
      copylen := if p.Length - at > 32 then 32 else p.Length - at;
      counter := (counter + 1) % TWO_TO_64;
      CopyPrefix(digest, p, at, copylen);
    }

    /** Fills `p` with the first bytes of the stream that starts at the current counter. */
    method GetRandomBytes(p: array<Byte>)
      requires Valid() && p != seed
      modifies this, p
      ensures Valid() && counter == (old(counter) + BlocksFor(p.Length)) % TWO_TO_64
      ensures p[..] == MacStream(seed[..], old(counter), BlocksFor(p.Length))[..p.Length]
    {
      hide Hmac, MacStream, LittleEndian64, CounterAfter, BlocksFor;
      ghost var c, key, n := counter, seed[..], 0;
      var at, len := 0, p.Length;
      MacStreamEmpty(key, c);
      CounterStart(c);
      while len > 0
        invariant 0 <= len <= p.Length && at + len == p.Length && Valid() && seed[..] == key
        invariant at == (if 32 * n < p.Length then 32 * n else p.Length) && (n > 0 ==> 32 * (n - 1) < p.Length)
        invariant counter == CounterAfter(c, n)
        invariant p[..at] == MacStream(key, c, n)[..at]
      {
        MacStreamNext(key, c, n);
        CounterNext(c, n);
        PrefixGrows(MacStream(key, c, n), Hmac(key, LittleEndian64(counter)), if len > 32 then 32 else len);
        var copylen := PutBlock(p, at);
        len := len - copylen;
        at := at + copylen;
        n := n + 1;
      }
      BlocksCounted(c, n, p.Length);
    }
  }

  /** The counter after `n` blocks. */
  function CounterAfter(c: nat, n: nat): (r: nat)
    ensures r < TWO_TO_64
  {
    (c + n) % TWO_TO_64
  }

  lemma CounterStart(c: nat)
    requires c < TWO_TO_64
    ensures CounterAfter(c, 0) == c
  {
  }

  lemma CounterNext(c: nat, n: nat)
    ensures CounterAfter(c, n) == (c + n) % TWO_TO_64
    ensures CounterAfter(c, n + 1) == (CounterAfter(c, n) + 1) % TWO_TO_64
  {
    var x := CounterAfter(c, n) + 1;
    DivisionUnique(c + n + 1, TWO_TO_64, (c + n) / TWO_TO_64 + x / TWO_TO_64, x % TWO_TO_64);
  }

  lemma BlocksCounted(c: nat, n: nat, len: nat)
    requires len <= 32 * n && (n > 0 ==> 32 * (n - 1) < len)
    ensures n == BlocksFor(len) && CounterAfter(c, n) == (c + BlocksFor(len)) % TWO_TO_64
  {
  }

  /** `memcpy` of the first `n` bytes. */
  method CopyPrefix(src: array<Byte>, dst: array<Byte>, at: nat, n: nat)
    requires src != dst && n <= src.Length && at + n <= dst.Length
    modifies dst
    ensures dst[..at + n] == old(dst[..at]) + src[..n]
  {
    forall i | 0 <= i < n {
      dst[at + i] := src[i];
    }
  }

  lemma PrefixGrows(stream: seq<Byte>, mac: seq<Byte>, n: nat)
    requires n <= |mac|
    ensures stream[..|stream|] + mac[..n] == (stream + mac)[..|stream| + n]
  {
  }

  lemma MacStreamEmpty(seed: seq<Byte>, counter: nat)
    requires |seed| == 64
    ensures MacStream(seed, counter, 0) == []
  {
  }

  lemma MacStreamNext(seed: seq<Byte>, counter: nat, n: nat)
    requires |seed| == 64
    ensures MacStream(seed, counter, n + 1) ==
            MacStream(seed, counter, n) + Hmac(seed, LittleEndian64((counter + n) % TWO_TO_64))
  {
  }

  /** It is one stream: the MACs of a request followed by those of the next one are those of both. */
  lemma {:induction false} MacStreamContinues(seed: seq<Byte>, counter: nat, m: nat, n: nat)
    requires |seed| == 64
    ensures MacStream(seed, counter, m + n) ==
            MacStream(seed, counter, m) + MacStream(seed, (counter + m) % TWO_TO_64, n)
  {
    hide Hmac, LittleEndian64, MacStream;
    if n == 0 {
      MacStreamEmpty(seed, (counter + m) % TWO_TO_64);
    } else {
      MacStreamContinues(seed, counter, m, n - 1);
      MacStreamNext(seed, counter, m + n - 1);
      MacStreamNext(seed, (counter + m) % TWO_TO_64, n - 1);
      assert ((counter + m) % TWO_TO_64 + n - 1) % TWO_TO_64 == (counter + m + n - 1) % TWO_TO_64;
    }
  }

  /** One hash of a message that comes in two pieces. */
  method HashTwo(x: seq<Byte>, y: seq<Byte>, hash: array<Byte>)
    requires |x| == 64 && |y| <= 64 && hash.Length == 32
    modifies hash
    ensures hash[..] == Digest(x + y)
  {
    hide Digest, Fold;
    var ctx := new Ctx();
    ctx.Update(x);
    assert ctx.Message() == x;
    ctx.Update(y);
    ctx.Final(hash);
  }
}
