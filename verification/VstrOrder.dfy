/** The order that vstr_cmp puts on byte strings. */
module VstrOrder {
  import opened Octets
  import opened Order

  /** The C library's strncmp: stops at the first difference, at a common NUL, or after `n` bytes.  The C
      standard fixes only the sign of the result. */
  function StrNCmp(a: seq<Byte>, b: seq<Byte>, n: nat): int
    requires n <= |a| && n <= |b|
    decreases n
  {
    if n == 0 then 0
    else if a[0] != b[0] then a[0] - b[0]
    else if a[0] == 0 then 0
    else StrNCmp(a[1..], b[1..], n - 1)
  }

  /** `vstr_cmp`. */
  function Compare(a: seq<Byte>, b: seq<Byte>): int {
    if |a| == |b| then StrNCmp(a, b, |a|)
    else if |a| < |b| then
      var cmp := StrNCmp(a, b, |a|);
      if cmp == 0 then 1 else cmp
    else
      var cmp := StrNCmp(a, b, |b|);
      if cmp == 0 then -1 else cmp
  }

  // ---------- lexicographic order ----------

  predicate Less(s: seq<int>, t: seq<int>) {
    t != [] && (s == [] || s[0] < t[0] || (s[0] == t[0] && Less(s[1..], t[1..])))
  }

  lemma {:induction false} LessIsStrict(s: seq<int>, t: seq<int>)
    ensures !(Less(s, t) && (Less(t, s) || s == t))
    ensures Less(s, t) || Less(t, s) || s == t
  {
    if s != [] && t != [] && s[0] == t[0] {
      LessIsStrict(s[1..], t[1..]);
      assert s == [s[0]] + s[1..] && t == [t[0]] + t[1..];
    }
  }

  lemma {:induction false} LessTrans(s: seq<int>, t: seq<int>, u: seq<int>)
    requires Less(s, t) && Less(t, u)
    ensures Less(s, u)
  {
    if s != [] && s[0] == t[0] == u[0] {
      LessTrans(s[1..], t[1..], u[1..]);
    }
  }

  // ---------- what the comparison compares ----------

  /** The bytes up to and with the first NUL, or all bytes and an end mark above every byte; then the
      length, longer first. */
  function Rank(a: seq<Byte>): seq<int> {
    Marked(a) + [-|a|]
  }

  function Marked(a: seq<Byte>): (s: seq<int>)
    ensures s != []
  {
    if a == [] then [256] else if a[0] == 0 then [0] else [a[0]] + Marked(a[1..])
  }

  lemma {:induction false} StrNCmpMarked(a: seq<Byte>, b: seq<Byte>, n: nat, x: seq<int>, y: seq<int>)
    requires n == |a| <= |b|
    ensures StrNCmp(a, b, n) < 0 ==> Less(Marked(a) + x, Marked(b) + y)
    ensures StrNCmp(a, b, n) > 0 ==> Less(Marked(b) + y, Marked(a) + x)
    ensures StrNCmp(a, b, n) == 0 ==> Marked(a) == Marked(b) || (|a| < |b| && Less(Marked(b) + y, Marked(a) + x))
  {
    if a != [] && a[0] == b[0] && a[0] != 0 {
      StrNCmpMarked(a[1..], b[1..], n - 1, x, y);
      assert (Marked(a) + x)[1..] == Marked(a[1..]) + x;
      assert (Marked(b) + y)[1..] == Marked(b[1..]) + y;
    }
  }

  lemma {:induction false} StrNCmpSwapped(a: seq<Byte>, b: seq<Byte>, n: nat)
    requires n <= |a| && n <= |b|
    ensures StrNCmp(a, b, n) == -StrNCmp(b, a, n)
  {
    if n > 0 {
      StrNCmpSwapped(a[1..], b[1..], n - 1);
    }
  }

  lemma {:induction false} LessAppended(p: seq<int>, x: int, y: int)
    ensures Less(p + [x], p + [y]) <==> x < y
  {
    if p != [] {
      assert (p + [x])[1..] == p[1..] + [x] && (p + [y])[1..] == p[1..] + [y];
      LessAppended(p[1..], x, y);
    }
  }

  /** For all byte strings, with or without NULs, the comparison is the lexicographic one of the ranks. */
  lemma CompareIsByRank(a: seq<Byte>, b: seq<Byte>)
    ensures Compare(a, b) < 0 <==> Less(Rank(a), Rank(b))
    ensures Compare(a, b) > 0 <==> Less(Rank(b), Rank(a))
  {
    LessIsStrict(Rank(a), Rank(b));
    LessAppended(Marked(a), -|a|, -|b|);
    LessAppended(Marked(a), -|b|, -|a|);
    if |a| <= |b| {
      StrNCmpMarked(a, b, |a|, [-|a|], [-|b|]);
    } else {
      StrNCmpMarked(b, a, |b|, [-|b|], [-|a|]);
      StrNCmpSwapped(a, b, |b|);
    }
  }

  /** The comparison can serve as a `CmpFn`. */
  lemma CompareIsTotalPreorder()
    ensures TotalPreorder(Compare)
  {
    forall a, b
      ensures Compare(a, b) < 0 <==> Compare(b, a) > 0
    {
      CompareIsByRank(a, b);
      CompareIsByRank(b, a);
    }
    forall a, b, c | Compare(a, b) <= 0 && Compare(b, c) <= 0
      ensures Compare(a, c) <= 0
    {
      CompareIsByRank(a, b);
      CompareIsByRank(b, c);
      CompareIsByRank(a, c);
      LessIsStrict(Rank(a), Rank(b));
      LessIsStrict(Rank(b), Rank(c));
      if Less(Rank(a), Rank(b)) && Less(Rank(b), Rank(c)) {
        LessTrans(Rank(a), Rank(b), Rank(c));
      }
      LessIsStrict(Rank(a), Rank(c));
    }
  }

  // ---------- strings without NULs ----------

  /** The first difference is at `k`, where `a` has the smaller byte. */
  ghost predicate SmallerAt(a: seq<Byte>, b: seq<Byte>, k: nat) {
    k < |a| && k < |b| && a[..k] == b[..k] && a[k] < b[k]
  }

  lemma SmallerAtNext(a: seq<Byte>, b: seq<Byte>, k: nat)
    requires a != [] && b != [] && k > 0
    ensures SmallerAt(a, b, k) <==> a[0] == b[0] && SmallerAt(a[1..], b[1..], k - 1)
  {
    if k < |a| && k < |b| {
      assert a[..k] == [a[0]] + a[1..][..k - 1] && b[..k] == [b[0]] + b[1..][..k - 1];
      assert a[1..][..k - 1] == a[..k][1..] && b[1..][..k - 1] == b[..k][1..];
      assert a[..k][0] == a[0] && b[..k][0] == b[0];
    }
  }

  lemma {:induction false} StrNCmpPlain(a: seq<Byte>, b: seq<Byte>, n: nat)
    requires n <= |a| && n <= |b| && 0 !in a
    ensures StrNCmp(a, b, n) < 0 <==> exists k :: 0 <= k < n && SmallerAt(a, b, k)
    ensures StrNCmp(a, b, n) == 0 <==> a[..n] == b[..n]
  {
    if n > 0 {
      StrNCmpPlain(a[1..], b[1..], n - 1);
      assert a[..n] == [a[0]] + a[1..][..n - 1] && b[..n] == [b[0]] + b[1..][..n - 1];
      assert SmallerAt(a, b, 0) <==> a[0] < b[0];
      forall k | 0 < k < n
        ensures SmallerAt(a, b, k) <==> a[0] == b[0] && SmallerAt(a[1..], b[1..], k - 1)
      {
        SmallerAtNext(a, b, k);
      }
      if StrNCmp(a, b, n) < 0 && a[0] == b[0] {
        var k :| 0 <= k < n - 1 && SmallerAt(a[1..], b[1..], k);
        assert SmallerAt(a, b, k + 1);
      }
    }
  }

  /** Without NULs: at the first difference the smaller byte comes first, and a string comes after
      every longer one that it is a prefix of. */
  lemma CompareIsLexicographic(a: seq<Byte>, b: seq<Byte>)
    requires 0 !in a && 0 !in b
    ensures Compare(a, b) < 0 <==> b < a || exists k: nat :: SmallerAt(a, b, k)
    ensures Compare(a, b) == 0 <==> a == b
  {
    var n := if |a| < |b| then |a| else |b|;
    StrNCmpPlain(a, b, n);
    assert a[..|a|] == a && b[..|b|] == b;
    assert forall k: nat :: SmallerAt(a, b, k) ==> k < n;
    if a[..n] == b[..n] {
      forall k: nat
        ensures !SmallerAt(a, b, k)
      {
        assert StrNCmp(a, b, n) == 0;
      }
    }
  }

  // ---------- strings with NULs ----------

  function UpToNul(a: seq<Byte>): seq<Byte> {
    if a == [] || a[0] == 0 then [] else [a[0]] + UpToNul(a[1..])
  }

  lemma {:induction false} StrNCmpZero(a: seq<Byte>, b: seq<Byte>)
    requires |a| == |b|
    ensures StrNCmp(a, b, |a|) == 0 <==> UpToNul(a) == UpToNul(b)
  {
    if a != [] {
      StrNCmpZero(a[1..], b[1..]);
      if a[0] == b[0] != 0 {
        assert UpToNul(a)[1..] == UpToNul(a[1..]) && UpToNul(b)[1..] == UpToNul(b[1..]);
      } else if a[0] != b[0] {
        assert a[0] != 0 ==> UpToNul(a)[0] == a[0];
        assert b[0] != 0 ==> UpToNul(b)[0] == b[0];
      }
    }
  }

  /** Strings compare as equal when they have the same length and the same bytes before the first NUL. */
  lemma CompareIsZeroIff(a: seq<Byte>, b: seq<Byte>)
    ensures Compare(a, b) == 0 <==> |a| == |b| && UpToNul(a) == UpToNul(b)
  {
    if |a| == |b| {
      StrNCmpZero(a, b);
    }
  }

  lemma {:induction false} UpToNulIsPrefix(a: seq<Byte>)
    ensures UpToNul(a) <= a && 0 !in UpToNul(a)
    ensures |UpToNul(a)| < |a| ==> a[|UpToNul(a)|] == 0
  {
    if a != [] && a[0] != 0 {
      UpToNulIsPrefix(a[1..]);
      assert a == [a[0]] + a[1..];
    }
  }

  lemma {:induction false} UpToNulKeeps(a: seq<Byte>, b: seq<Byte>, k: nat)
    requires k < |a| && k < |b| && a[k] == 0 && a[..k + 1] == b[..k + 1]
    ensures UpToNul(a) == UpToNul(b)
  {
    assert a[0] == a[..k + 1][0] && b[0] == b[..k + 1][0];
    if k > 0 {
      assert a[1..][..k] == a[..k + 1][1..] && b[1..][..k] == b[..k + 1][1..];
      UpToNulKeeps(a[1..], b[1..], k - 1);
    }
  }

  /** So with NULs different strings can compare as equal. */
  lemma NulHidesDifference()
    ensures Compare([0, 1], [0, 2]) == 0 && [0, 1] != [0, 2]
  {
    assert [0, 1][0] == [0, 2][0] == 0 && [0, 1][1] != [0, 2][1];
  }

  /** A string compares as equal to itself alone exactly when it has no NUL before its last byte. */
  lemma EqualOnlyToItselfIff(a: seq<Byte>)
    ensures (forall b :: Compare(a, b) == 0 ==> a == b) <==> (forall k :: 0 <= k < |a| - 1 ==> a[k] != 0)
  {
    UpToNulIsPrefix(a);
    if k :| 0 <= k < |a| - 1 && a[k] == 0 {
      var b := a[|a| - 1 := if a[|a| - 1] == 0 then 1 else 0];
      UpToNulKeeps(a, b, k);
      CompareIsZeroIff(a, b);
      assert a[|a| - 1] != b[|a| - 1];
    } else {
      forall b | Compare(a, b) == 0
        ensures a == b
      {
        CompareIsZeroIff(a, b);
        UpToNulIsPrefix(b);
        if |UpToNul(a)| < |a| {
          assert |UpToNul(a)| == |a| - 1;
          assert a == UpToNul(a) + [0] && b == UpToNul(b) + [0];
        }
      }
    }
  }
}
