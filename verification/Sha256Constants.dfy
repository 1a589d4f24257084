/** Where the constants of SHA-256 come from (FIPS 180-4, sections 4.2.2 and 5.3.3). */
module Sha256Constants {
  import opened Arithmetic
  import opened Sha256Spec

  // ---------- the first 64 primes ----------

  predicate IsPrime(n: nat) {
    n >= 2 && forall d :: 2 <= d < n ==> n % d != 0
  }

  /** Eight primes to a row. */
  function PrimeRow(r: nat): (p: seq<nat>)
    requires r < 8
    ensures |p| == 8
  {
    match r
    case 0 => [2, 3, 5, 7, 11, 13, 17, 19]
    case 1 => [23, 29, 31, 37, 41, 43, 47, 53]
    case 2 => [59, 61, 67, 71, 73, 79, 83, 89]
    case 3 => [97, 101, 103, 107, 109, 113, 127, 131]
    case 4 => [137, 139, 149, 151, 157, 163, 167, 173]
    case 5 => [179, 181, 191, 193, 197, 199, 211, 223]
    case 6 => [227, 229, 233, 239, 241, 251, 257, 263]
    case 7 => [269, 271, 277, 281, 283, 293, 307, 311]
  }

  function Prime(t: nat): nat
    requires t < 64
  {
    PrimeRow(t / 8)[t % 8]
  }

  /** `q` is not a proper divisor of `n`. */
  predicate Passes(n: nat, q: nat)
    requires q > 0
  {
    n <= q || n % q != 0
  }

  predicate Sieved(n: nat) {
    Passes(n, 2) && Passes(n, 3) && Passes(n, 5) && Passes(n, 7) && Passes(n, 11) && Passes(n, 13) && Passes(n, 17)
  }

  /** Below 19 * 19, what passes the primes up to 17 is prime. */
  lemma SievedIsPrime(n: nat)
    requires 2 <= n < 361
    ensures Sieved(n) <==> IsPrime(n)
  {
    if d :| 2 <= d < n && n % d == 0 {
      var f := n / d;
      assert n == d * f;
      assert 2 <= f < n by {
        assert f <= 1 ==> d * f <= d;
        assert f >= n ==> d * f >= 2 * n;
      }
      if d < 19 {
        SmallFactor(n, d, f);
      } else {
        assert f < 19 by {
          assert f >= 19 ==> d * f >= 19 * 19;
        }
        SmallFactor(n, f, d);
      }
    }
  }

  lemma SmallFactor(n: nat, e: nat, f: nat)
    requires 2 <= e < 19 && e < n && n == e * f
    ensures !Sieved(n)
  {
    var q := if e % 2 == 0 then 2 else if e % 3 == 0 then 3 else e;
    assert q in {2, 3, 5, 7, 11, 13, 17};
    Multiple(n, q, e / q, e, f);
  }

  lemma Multiple(n: nat, q: nat, x: nat, e: nat, f: nat)
    requires q > 0 && e == q * x && n == e * f
    ensures n % q == 0
  {
    DivisionUnique(n, q, x * f, 0);
  }

  /** `n` is not a prime below `q`. */
  predicate Skipped(n: nat, q: nat) {
    n >= q || !Sieved(n)
  }

  /** `q` is close behind `p`, and none of `p + 2`, `p + 4` and so on comes before it. */
  predicate NextAfter(p: nat, q: nat) {
    && p < q <= p + 14
    && Skipped(p + 2, q) && Skipped(p + 4, q) && Skipped(p + 6, q)
    && Skipped(p + 8, q) && Skipped(p + 10, q) && Skipped(p + 12, q)
  }

  lemma NextAfterCovers(p: nat, q: nat, n: nat)
    requires NextAfter(p, q) && p < n < q && n % 2 == p % 2
    ensures !Sieved(n)
  {
    hide Sieved;
    var d := n - p;
    assert d == 2 || d == 4 || d == 6 || d == 8 || d == 10 || d == 12;
  }

  lemma Gaps0()
    ensures forall t :: 0 <= t < 8 ==> NextAfter(Prime(t), Prime(t + 1))
  {
  }

  lemma Gaps1()
    ensures forall t :: 8 <= t < 16 ==> NextAfter(Prime(t), Prime(t + 1))
  {
  }

  lemma Gaps2()
    ensures forall t :: 16 <= t < 24 ==> NextAfter(Prime(t), Prime(t + 1))
  {
  }

  lemma Gaps3()
    ensures forall t :: 24 <= t < 32 ==> NextAfter(Prime(t), Prime(t + 1))
  {
  }

  lemma Gaps4()
    ensures forall t :: 32 <= t < 40 ==> NextAfter(Prime(t), Prime(t + 1))
  {
  }

  lemma Gaps5()
    ensures forall t :: 40 <= t < 48 ==> NextAfter(Prime(t), Prime(t + 1))
  {
  }

  lemma Gaps6()
    ensures forall t :: 48 <= t < 56 ==> NextAfter(Prime(t), Prime(t + 1))
  {
  }

  lemma Gaps7()
    ensures forall t :: 56 <= t < 63 ==> NextAfter(Prime(t), Prime(t + 1))
  {
  }

  lemma NextInTable(t: nat)
    requires t < 63
    ensures NextAfter(Prime(t), Prime(t + 1))
  {
    Gaps0();
    Gaps1();
    Gaps2();
    Gaps3();
    Gaps4();
    Gaps5();
    Gaps6();
    Gaps7();
    hide NextAfter;
  }

  lemma TableBounds(t: nat)
    requires t < 64
    ensures 2 <= Prime(t) < 312 && (t > 0 ==> Prime(t) > 2)
  {
  }

  /** The table lists primes only, */
  lemma TableHoldsPrimes(t: nat)
    requires t < 64
    ensures IsPrime(Prime(t))
  {
    TableBounds(t);
    hide IsPrime, Sieved, Prime, IsCubeRoot;
    EntryIsRight(t);
    SievedIsPrime(Prime(t));
  }

  /** in increasing order, */
  lemma TableIncreases(t: nat)
    requires t < 63
    ensures Prime(t) < Prime(t + 1)
  {
    hide Prime, Sieved;
    NextInTable(t);
  }

  /** from the first one on and without leaving one out. */
  lemma TableMissesNone(t: nat, n: nat)
    requires t < 63 && Prime(t) < n < Prime(t + 1)
    ensures Prime(0) == 2 && !IsPrime(n)
  {
    hide *;
    TableBounds(t);
    TableBounds(t + 1);
    TableStarts();
    NextInTable(t);
    EntryPasses(t);
    GapHasNoPrime(Prime(t), Prime(t + 1), n);
  }

  lemma TableStarts()
    ensures Prime(0) == 2 && Prime(1) == 3
  {
  }

  lemma EntryPasses(t: nat)
    requires t < 64
    ensures Sieved(Prime(t))
  {
    hide Sieved, Prime, IsCubeRoot, K;
    EntryIsRight(t);
  }

  lemma GapHasNoPrime(p: nat, q: nat, n: nat)
    requires 2 <= p < n < q < 312 && Sieved(p) && NextAfter(p, q) && (p == 2 ==> q == 3)
    ensures !IsPrime(n)
  {
    hide *;
    SievedIsPrime(n);
    EvenOrOdd(p);
    EvenOrOdd(n);
    if n % 2 == 1 {
      NextAfterCovers(p, q, n);
    }
  }

  lemma EvenOrOdd(n: nat)
    requires n >= 2
    ensures n % 2 == 0 || n % 2 == 1
    ensures n > 2 && n % 2 == 0 ==> !Sieved(n)
  {
  }

  // ---------- the round constants ----------

  const TWO_TO_32: nat := 0x1_0000_0000

  /** `w` is the first 32 bits of the fractional part of the cube root of `p`, whose integer part is `i`. */
  predicate IsCubeRoot(p: nat, i: nat, w: nat) {
    var r := i * TWO_TO_32 + w;
    w < TWO_TO_32 && r * r * r <= p * (TWO_TO_32 * TWO_TO_32 * TWO_TO_32) < (r + 1) * (r + 1) * (r + 1)
  }

  function FloorOfCubeRoot(p: nat): nat {
    if p < 8 then 1 else if p < 27 then 2 else if p < 64 then 3 else if p < 125 then 4 else if p < 216 then 5 else 6
  }

  predicate IsRight(t: nat)
    requires t < 64
  {
    Sieved(Prime(t)) && IsCubeRoot(Prime(t), FloorOfCubeRoot(Prime(t)), K(t) as nat)
  }

  lemma Row0()
    ensures forall t :: 0 <= t < 8 ==> IsRight(t)
  {
  }

  lemma Row1()
    ensures forall t :: 8 <= t < 16 ==> IsRight(t)
  {
  }

  lemma Row2()
    ensures forall t :: 16 <= t < 24 ==> IsRight(t)
  {
  }

  lemma Row3()
    ensures forall t :: 24 <= t < 32 ==> IsRight(t)
  {
  }

  lemma Row4()
    ensures forall t :: 32 <= t < 40 ==> IsRight(t)
  {
  }

  lemma Row5()
    ensures forall t :: 40 <= t < 48 ==> IsRight(t)
  {
  }

  lemma Row6()
    ensures forall t :: 48 <= t < 56 ==> IsRight(t)
  {
  }

  lemma Row7()
    ensures forall t :: 56 <= t < 64 ==> IsRight(t)
  {
  }

  lemma EntryIsRight(t: nat)
    requires t < 64
    ensures IsRight(t)
  {
    Row0();
    Row1();
    Row2();
    Row3();
    Row4();
    Row5();
    Row6();
    Row7();
    hide IsRight;
  }

  /** Every constant is the first 32 bits of the fractional part of the cube root of its prime. */
  lemma ConstantsAreCubeRoots(t: nat)
    requires t < 64
    ensures IsCubeRoot(Prime(t), FloorOfCubeRoot(Prime(t)), K(t) as nat)
  {
    hide IsCubeRoot, Prime, K;
    EntryIsRight(t);
  }

  // ---------- the initial hash value ----------

  /** `w` is the first 32 bits of the fractional part of the square root of `p`, whose integer part is `i`. */
  predicate IsSquareRoot(p: nat, i: nat, w: nat) {
    var r := i * TWO_TO_32 + w;
    w < TWO_TO_32 && r * r <= p * (TWO_TO_32 * TWO_TO_32) < (r + 1) * (r + 1)
  }

  function FloorOfSquareRoot(p: nat): nat {
    if p < 4 then 1 else if p < 9 then 2 else if p < 16 then 3 else 4
  }

  /** So are the words of the initial hash value, with square roots. */
  lemma InitialValuesAreSquareRoots(i: nat)
    requires i < 8
    ensures IsSquareRoot(Prime(i), FloorOfSquareRoot(Prime(i)), WordAt(H0, i) as nat)
  {
    match i {
      case 0 => assert IsSquareRoot(2, 1, 0x6a09e667);
      case 1 => assert IsSquareRoot(3, 1, 0xbb67ae85);
      case 2 => assert IsSquareRoot(5, 2, 0x3c6ef372);
      case 3 => assert IsSquareRoot(7, 2, 0xa54ff53a);
      case 4 => assert IsSquareRoot(11, 3, 0x510e527f);
      case 5 => assert IsSquareRoot(13, 3, 0x9b05688c);
      case 6 => assert IsSquareRoot(17, 4, 0x1f83d9ab);
      case 7 => assert IsSquareRoot(19, 4, 0x5be0cd19);
    }
  }
}
