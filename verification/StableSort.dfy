/** What it means to sort stably, and why there is only one way to do it. */
module StableSort {
  import opened Order

  /** The elements of `s` that tie with `x`, in the order in which they occur. */
  function Ties<T>(fn: (T, T) -> int, s: seq<T>, x: T): seq<T> {
    if s == [] then []
    else (if fn(s[0], x) == 0 then [s[0]] else []) + Ties(fn, s[1..], x)
  }

  /** `t` holds, for every class of tied elements, the same elements as `s` in the same order. */
  ghost predicate SameTies<T(!new)>(fn: (T, T) -> int, s: seq<T>, t: seq<T>) {
    forall x :: Ties(fn, s, x) == Ties(fn, t, x)
  }

  /** `t` is `s` sorted, with tied elements left in their original order. */
  ghost predicate StableSortOf<T(!new)>(fn: (T, T) -> int, s: seq<T>, t: seq<T>) {
    Sorted(fn, t) && SameTies(fn, s, t)
  }

  lemma TiesUnfold<T>(fn: (T, T) -> int, s: seq<T>, x: T)
    ensures s == [] ==> Ties(fn, s, x) == []
    ensures s != [] && fn(s[0], x) == 0 ==> Ties(fn, s, x) == [s[0]] + Ties(fn, s[1..], x)
    ensures s != [] && fn(s[0], x) != 0 ==> Ties(fn, s, x) == Ties(fn, s[1..], x)
  {
  }

  lemma {:induction false} TiesConcat<T>(fn: (T, T) -> int, s: seq<T>, t: seq<T>, x: T)
    ensures Ties(fn, s + t, x) == Ties(fn, s, x) + Ties(fn, t, x)
  {
    TiesUnfold(fn, s, x);
    TiesUnfold(fn, s + t, x);
    hide Ties;
    if s == [] {
      assert s + t == t;
    } else {
      assert (s + t)[1..] == s[1..] + t;
      TiesConcat(fn, s[1..], t, x);
    }
  }

  lemma {:induction false} TiesMembers<T>(fn: (T, T) -> int, s: seq<T>, x: T, y: T)
    ensures y in Ties(fn, s, x) <==> y in s && fn(y, x) == 0
    ensures fn(y, x) == 0 ==> multiset(Ties(fn, s, x))[y] == multiset(s)[y]
  {
    if s != [] {
      TiesMembers(fn, s[1..], x, y);
      assert s == [s[0]] + s[1..];
    }
  }

  lemma TiesOfNone<T>(fn: (T, T) -> int, s: seq<T>, x: T)
    requires forall y | y in s :: fn(y, x) != 0
    ensures Ties(fn, s, x) == []
  {
    if Ties(fn, s, x) != [] {
      TiesMembers(fn, s, x, Ties(fn, s, x)[0]);
    }
  }

  /** A sequence with the same ties is a permutation. */
  lemma SameTiesIsPermutation<T(!new)>(fn: (T, T) -> int, s: seq<T>, t: seq<T>)
    requires TotalPreorder(fn) && SameTies(fn, s, t)
    ensures multiset(s) == multiset(t)
  {
    forall y: T
      ensures multiset(s)[y] == multiset(t)[y]
    {
      TiesMembers(fn, s, y, y);
      TiesMembers(fn, t, y, y);
    }
  }

  /** Exchanging two neighbours that do not tie disturbs no class of tied elements. */
  lemma SwapNeighbours<T(!new)>(fn: (T, T) -> int, s: seq<T>, j: nat, t: seq<T>)
    requires TotalPreorder(fn)
    requires j + 1 < |s| && fn(s[j], s[j + 1]) > 0
    requires t == s[j := s[j + 1]][j + 1 := s[j]]
    ensures SameTies(fn, s, t)
  {
    var p, a, b, q := s[..j], s[j], s[j + 1], s[j + 2..];
    assert s == p + ([a] + ([b] + q)) && t == p + ([b] + ([a] + q));
    forall x: T
      ensures Ties(fn, s, x) == Ties(fn, t, x)
    {
      TiesConcat(fn, p, [a] + ([b] + q), x);
      TiesConcat(fn, p, [b] + ([a] + q), x);
      assert fn(a, x) != 0 || fn(b, x) != 0;
      assert ([a] + ([b] + q))[1..] == [b] + q && ([b] + q)[1..] == q;
      assert ([b] + ([a] + q))[1..] == [a] + q && ([a] + q)[1..] == q;
    }
  }

  /** There is only one stable sort of a sequence: two sorted sequences with the same ties are
      equal, element by element and not only up to ties. */
  lemma {:induction false} StableSortIsUnique<T(!new)>(fn: (T, T) -> int, s: seq<T>, t: seq<T>)
    requires TotalPreorder(fn) && Sorted(fn, s) && Sorted(fn, t) && SameTies(fn, s, t)
    ensures s == t
  {
    SameTiesIsPermutation(fn, s, t);
    assert |s| == |multiset(s)| == |t|;
    if s != [] {
      assert s[0] in multiset(t) && t[0] in multiset(s);
      assert fn(s[0], t[0]) == 0;
      assert Ties(fn, s, s[0])[0] == s[0] && Ties(fn, t, s[0])[0] == t[0];
      forall x: T
        ensures Ties(fn, s[1..], x) == Ties(fn, t[1..], x)
      {
        var n := if fn(s[0], x) == 0 then 1 else 0;
        assert Ties(fn, s, x)[n..] == Ties(fn, s[1..], x) && Ties(fn, t, x)[n..] == Ties(fn, t[1..], x);
      }
      StableSortIsUnique(fn, s[1..], t[1..]);
      assert s == [s[0]] + s[1..] && t == [t[0]] + t[1..];
    }
  }
}
