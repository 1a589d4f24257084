/** What an LRU cache holds, as a sequence from the most to the least recently used binding, and
    theorems about every run of updates and gets. */
module LruSpec {
  import opened HashRows
  import opened Options
  import opened Sequences

  type Cache<K, V> = seq<Entry<K, V>>

  datatype Op<K, V> = Update(key: K, value: V) | Get(key: K)

  function Keys<K, V>(s: Cache<K, V>): (r: seq<K>)
    ensures |r| == |s|
  {
    seq(|s|, i requires 0 <= i < |s| => s[i].key)
  }

  /** The first position of `k` in `s`, or the length of `s`. */
  function IndexOf<K(==)>(s: seq<K>, k: K): (i: nat)
    ensures i <= |s| && (i < |s| ==> s[i] == k) && (i == |s| ==> k !in s)
    ensures k !in s[..i]
  {
    if s == [] || s[0] == k then 0 else 1 + IndexOf(s[1..], k)
  }

  function Truncated<T>(s: seq<T>, cap: nat): (r: seq<T>)
    ensures |r| == if |s| > cap then cap else |s|
  {
    if |s| > cap then s[..cap] else s
  }

  /** One operation on the abstract cache. */
  function Step<K(==), V>(s: Cache<K, V>, cap: nat, op: Op<K, V>): Cache<K, V> {
    var i := IndexOf(Keys(s), op.key);
    match op
    case Update(k, v) => if i < |s| then [Entry(k, v)] + Removed(s, i) else Truncated([Entry(k, v)] + s, cap)
    case Get(k) => if i < |s| then [s[i]] + Removed(s, i) else s
  }

  /** The binding at position `i` gets a new value and comes to the front. */
  function Refreshed<K, V>(s: Cache<K, V>, i: nat, v: V): Cache<K, V>
    requires i < |s|
  {
    var t := s[i := Entry(s[i].key, v)];
    [t[i]] + Removed(t, i)
  }

  lemma UpdateOfHeld<K, V>(s: Cache<K, V>, cap: nat, k: K, v: V)
    requires IndexOf(Keys(s), k) < |s|
    ensures Step(s, cap, Update(k, v)) == Refreshed(s, IndexOf(Keys(s), k), v)
  {
    var i := IndexOf(Keys(s), k);
    assert Keys(s)[i] == k;
  }

  lemma UpdateOfMissing<K, V>(s: Cache<K, V>, cap: nat, k: K, v: V)
    requires IndexOf(Keys(s), k) == |s|
    ensures Step(s, cap, Update(k, v)) == Truncated([Entry(k, v)] + s, cap)
  {
  }

  function Answer<K(==), V>(s: Cache<K, V>, k: K): Option<V> {
    var i := IndexOf(Keys(s), k);
    if i < |s| then Some(s[i].value) else None
  }

  function Run<K(==), V>(ops: seq<Op<K, V>>, cap: nat): Cache<K, V> {
    if ops == [] then [] else Step(Run(ops[..|ops| - 1], cap), cap, ops[|ops| - 1])
  }

  /** What the operations of a run return: an update returns nothing. */
  function Answers<K(==), V>(ops: seq<Op<K, V>>, cap: nat): (r: seq<Option<V>>)
    ensures |r| == |ops|
  {
    if ops == [] then []
    else
      var before, op := ops[..|ops| - 1], ops[|ops| - 1];
      Answers(before, cap) + [if op.Get? then Answer(Run(before, cap), op.key) else None]
  }

  lemma RunNext<K, V>(ops: seq<Op<K, V>>, cap: nat, n: nat)
    requires n < |ops|
    ensures Run(ops[..n + 1], cap) == Step(Run(ops[..n], cap), cap, ops[n])
    ensures Answers(ops[..n + 1], cap) ==
            Answers(ops[..n], cap) + [if ops[n].Get? then Answer(Run(ops[..n], cap), ops[n].key) else None]
    ensures Insertions(ops[..n + 1], cap) ==
            Insertions(ops[..n], cap) + if ops[n].Update? && ops[n].key !in Keys(Run(ops[..n], cap)) then 1 else 0
  {
    assert ops[..n + 1][..n] == ops[..n];
  }

  ghost predicate Distinct<T>(s: seq<T>) {
    forall i, j :: 0 <= i < j < |s| ==> s[i] != s[j]
  }

  // ---------- keys ----------

  /** Moves `k` to the front, inserting it if it is not there. */
  function ToFront<K(==)>(ks: seq<K>, k: K): seq<K> {
    var i := IndexOf(ks, k);
    if i < |ks| then [k] + Removed(ks, i) else [k] + ks
  }

  /** An operation touches its key unless it is a get that misses. */
  predicate Touches<K(==), V>(ks: seq<K>, op: Op<K, V>) {
    op.Update? || op.key in ks
  }

  function KeyStep<K(==), V>(ks: seq<K>, cap: nat, op: Op<K, V>): seq<K> {
    if Touches(ks, op) then Truncated(ToFront(ks, op.key), cap) else ks
  }

  lemma StepKeys<K, V>(s: Cache<K, V>, cap: nat, op: Op<K, V>)
    requires |s| <= cap
    ensures Keys(Step(s, cap, op)) == KeyStep(Keys(s), cap, op)
  {
    hide IndexOf;
    var ks := Keys(s);
    var i := IndexOf(ks, op.key);
    if i < |s| {
      KeysOfFront(Step(s, cap, op)[0], s, i);
      hide Keys, Removed;
    } else if op.Update? {
      KeysOfMiss(Entry(op.key, op.value), s, cap);
      hide Keys, Truncated;
    }
  }

  lemma KeysOfFront<K, V>(e: Entry<K, V>, s: Cache<K, V>, i: nat)
    requires i < |s|
    ensures Keys([e] + Removed(s, i)) == [e.key] + Removed(Keys(s), i)
  {
  }

  lemma KeysOfMiss<K, V>(e: Entry<K, V>, s: Cache<K, V>, cap: nat)
    ensures Keys(Truncated([e] + s, cap)) == Truncated([e.key] + Keys(s), cap)
  {
    assert Keys([e] + s) == [e.key] + Keys(s);
    KeysOfPrefix([e] + s, |Truncated([e] + s, cap)|);
  }

  lemma KeysOfPrefix<K, V>(s: Cache<K, V>, n: nat)
    requires n <= |s|
    ensures Keys(s[..n]) == Keys(s)[..n]
  {
  }

  lemma ToFrontDistinct<K>(ks: seq<K>, k: K)
    requires Distinct(ks)
    ensures Distinct(ToFront(ks, k)) && k in ToFront(ks, k)
    ensures forall x :: x in ToFront(ks, k) <==> x == k || x in ks
    ensures |ToFront(ks, k)| == |ks| + if k in ks then 0 else 1
  {
    var i, t := IndexOf(ks, k), ToFront(ks, k);
    assert t[0] == k;
    if i < |ks| {
      assert forall j :: 0 <= j < |ks| ==> ks[j] == if j < i then t[j + 1] else if j == i then t[0] else t[j];
      assert forall j :: 0 < j < |t| ==> t[j] == if j <= i then ks[j - 1] else ks[j];
    } else {
      assert forall j :: 0 <= j < |ks| ==> ks[j] == t[j + 1];
    }
  }

  lemma {:induction false} RunDistinct<K, V>(ops: seq<Op<K, V>>, cap: nat)
    ensures Distinct(Keys(Run(ops, cap))) && |Run(ops, cap)| <= cap
  {
    if ops != [] {
      var s, op := Run(ops[..|ops| - 1], cap), ops[|ops| - 1];
      RunDistinct(ops[..|ops| - 1], cap);
      StepKeys(s, cap, op);
      ToFrontDistinct(Keys(s), op.key);
    }
  }

  lemma {:induction false} RunKeys<K, V>(ops: seq<Op<K, V>>, cap: nat)
    ensures ops != [] ==>
              Keys(Run(ops, cap)) == KeyStep(Keys(Run(ops[..|ops| - 1], cap)), cap, ops[|ops| - 1])
  {
    if ops != [] {
      RunDistinct(ops[..|ops| - 1], cap);
      StepKeys(Run(ops[..|ops| - 1], cap), cap, ops[|ops| - 1]);
    }
  }

  // ---------- a cache holds the most recently touched keys, with their last values ----------

  /** The keys touched by a run, oldest first. */
  function Log<K(==), V>(ops: seq<Op<K, V>>, cap: nat): seq<K> {
    if ops == [] then []
    else
      var before, op := ops[..|ops| - 1], ops[|ops| - 1];
      Log(before, cap) + if Touches(Keys(Run(before, cap)), op) then [op.key] else []
  }

  /** The distinct keys of a log, the last one first. */
  function Recent<K(==)>(log: seq<K>): seq<K> {
    if log == [] then [] else ToFront(Recent(log[..|log| - 1]), log[|log| - 1])
  }

  /** The value of the last update of `k`. */
  function LastStored<K(==), V>(ops: seq<Op<K, V>>, k: K): Option<V> {
    if ops == [] then None
    else
      var op := ops[|ops| - 1];
      if op.Update? && op.key == k then Some(op.value) else LastStored(ops[..|ops| - 1], k)
  }

  /** Cutting off keys beyond the capacity first makes no difference. */
  lemma TruncateThenTouch<K>(ks: seq<K>, k: K, cap: nat)
    requires Distinct(ks)
    ensures Truncated(ToFront(Truncated(ks, cap), k), cap) == Truncated(ToFront(ks, k), cap)
  {
    hide IndexOf;
    var i, c := IndexOf(ks, k), Truncated(ks, cap);
    var i' := IndexOf(c, k);
    if i < |c| {
      assert c[i] == k && ks[i'] == k;
      assert i' == i;
      TruncateRemoved(ks, i, k, cap);
    } else {
      assert forall j :: 0 <= j < |c| ==> c[j] == ks[..i][j];
      assert i' == |c|;
      TruncateBeyond(ks, i, k, cap);
    }
  }

  lemma TruncateRemoved<K>(ks: seq<K>, i: nat, k: K, cap: nat)
    requires i < |Truncated(ks, cap)|
    ensures Truncated([k] + Removed(Truncated(ks, cap), i), cap) == Truncated([k] + Removed(ks, i), cap)
  {
  }

  lemma TruncateBeyond<K>(ks: seq<K>, i: nat, k: K, cap: nat)
    requires |Truncated(ks, cap)| <= i <= |ks|
    ensures Truncated([k] + Truncated(ks, cap), cap) == Truncated([k] + if i < |ks| then Removed(ks, i) else ks, cap)
  {
  }

  lemma {:induction false} RecentDistinct<K>(log: seq<K>)
    ensures Distinct(Recent(log))
  {
    if log != [] {
      RecentDistinct(log[..|log| - 1]);
      ToFrontDistinct(Recent(log[..|log| - 1]), log[|log| - 1]);
    }
  }

  /** After any run, the cache holds exactly the `cap` most recently touched keys, in that order. */
  lemma {:induction false} HoldsMostRecent<K, V>(ops: seq<Op<K, V>>, cap: nat)
    ensures Keys(Run(ops, cap)) == Truncated(Recent(Log(ops, cap)), cap)
  {
    if ops != [] {
      hide Step, ToFront, Truncated;
      var before, op := ops[..|ops| - 1], ops[|ops| - 1];
      var log := Log(before, cap);
      HoldsMostRecent(before, cap);
      RunKeys(ops, cap);
      if Touches(Keys(Run(before, cap)), op) {
        assert Log(ops, cap) == log + [op.key];
        assert Log(ops, cap)[..|log|] == log;
        RecentDistinct(log);
        TruncateThenTouch(Recent(log), op.key, cap);
      } else {
        assert Log(ops, cap) == log;
      }
    }
  }

  /** Every binding in the cache carries the last value stored for its key. */
  lemma {:induction false} HoldsLastStored<K, V>(ops: seq<Op<K, V>>, cap: nat)
    ensures forall e :: e in Run(ops, cap) ==> LastStored(ops, e.key) == Some(e.value)
  {
    if ops != [] {
      var before, op := ops[..|ops| - 1], ops[|ops| - 1];
      var s, t := Run(before, cap), Run(ops, cap);
      HoldsLastStored(before, cap);
      RunDistinct(ops, cap);
      forall e | e in t
        ensures LastStored(ops, e.key) == Some(e.value)
      {
        if op.Update? && e.key == op.key {
          assert e.value == op.value by {
            var j :| 0 <= j < |t| && t[j] == e;
            assert Keys(t)[0] == op.key == Keys(t)[j];
          }
        } else {
          assert e in s by { OldBinding(s, cap, op, e); }
        }
      }
    }
  }

  lemma OldBinding<K, V>(s: Cache<K, V>, cap: nat, op: Op<K, V>, e: Entry<K, V>)
    requires e in Step(s, cap, op) && !(op.Update? && e.key == op.key)
    ensures e in s
  {
    var i, t := IndexOf(Keys(s), op.key), Step(s, cap, op);
    var j :| 0 <= j < |t| && t[j] == e;
    if i < |s| && j > 0 {
      assert e == s[if j <= i then j - 1 else j];
    } else if i == |s| && op.Update? {
      assert e == s[j - 1];
    }
  }

  // ---------- eviction ----------

  /** The position of the last occurrence of `k` in a log that has one. */
  function LastTouch<K(==)>(log: seq<K>, k: K): (i: nat)
    requires k in log
    ensures i < |log| && log[i] == k && k !in log[i + 1..]
  {
    if log[|log| - 1] == k then |log| - 1
    else
      assert log == log[..|log| - 1] + [log[|log| - 1]];
      var i := LastTouch(log[..|log| - 1], k);
      assert log[i + 1..] == log[..|log| - 1][i + 1..] + [log[|log| - 1]];
      i
  }

  lemma LastTouchGrows<K>(log: seq<K>, x: K, k: K)
    requires k in log && k != x
    ensures k in log + [x] && LastTouch(log + [x], k) == LastTouch(log, k)
  {
    assert (log + [x])[..|log|] == log;
    assert (log + [x])[LastTouch(log, k)] == k;
  }

  lemma {:induction false} RecentMembers<K>(log: seq<K>, k: K)
    ensures k in Recent(log) <==> k in log
  {
    if log != [] {
      var front, x := log[..|log| - 1], log[|log| - 1];
      assert log == front + [x];
      RecentMembers(front, k);
      RecentDistinct(front);
      ToFrontDistinct(Recent(front), x);
    }
  }

  /** The order of the cache is the order of last touches. */
  lemma {:induction false} RecentByLastTouch<K>(log: seq<K>, a: nat, b: nat)
    requires a < b < |Recent(log)|
    ensures Recent(log)[a] in log && Recent(log)[b] in log
    ensures LastTouch(log, Recent(log)[a]) > LastTouch(log, Recent(log)[b])
  {
    hide IndexOf, LastTouch, ToFront;
    RecentMembers(log, Recent(log)[a]);
    RecentMembers(log, Recent(log)[b]);
    RecentDistinct(log);
    var front, x := log[..|log| - 1], log[|log| - 1];
    assert log == front + [x];
    var r, t := Recent(front), Recent(log);
    var b' := BehindFront(r, x, b);
    RecentMembers(front, r[b']);
    assert t[b] != t[0];
    LastTouchGrows(front, x, r[b']);
    if a == 0 {
      LastTouchOfNewest(front, x);
    } else {
      var a' := BehindFront(r, x, a);
      assert t[a] != t[0];
      RecentMembers(front, r[a']);
      LastTouchGrows(front, x, r[a']);
      RecentByLastTouch(front, a', b');
    }
  }

  /** Where the key at position `i` was before `k` came to the front. */
  lemma BehindFront<K>(ks: seq<K>, k: K, i: nat) returns (j: nat)
    requires 0 < i < |ToFront(ks, k)|
    ensures ToFront(ks, k)[0] == k
    ensures j < |ks| && ks[j] == ToFront(ks, k)[i] && j == if i <= IndexOf(ks, k) then i - 1 else i
  {
    j := if i <= IndexOf(ks, k) then i - 1 else i;
  }

  lemma LastTouchOfNewest<K>(log: seq<K>, x: K)
    ensures x in log + [x] && LastTouch(log + [x], x) == |log|
  {
    assert (log + [x])[|log|] == x;
  }

  /** Updating a key that is not cached evicts from a full cache precisely the key whose last touch is
      the oldest, and keeps every other one. */
  lemma EvictsLeastRecentlyTouched<K, V>(ops: seq<Op<K, V>>, cap: nat, k: K, v: V)
    requires cap > 0 && |Run(ops, cap)| == cap && k !in Keys(Run(ops, cap))
    ensures var s, t, log := Keys(Run(ops, cap)), Keys(Run(ops + [Update(k, v)], cap)), Log(ops, cap);
            && t == [k] + s[..cap - 1]
            && (forall i :: 0 <= i < cap ==> s[i] in log)
            && (forall i :: 0 <= i < cap - 1 ==> LastTouch(log, s[i]) > LastTouch(log, s[cap - 1]))
  {
    hide LastTouch, Run, Log, Recent, Distinct, IndexOf;
    var s, log, next := Keys(Run(ops, cap)), Log(ops, cap), ops + [Update(k, v)];
    assert next[..|next| - 1] == ops;
    RunKeys(next, cap);
    HoldsMostRecent(ops, cap);
    forall i | 0 <= i < cap - 1
      ensures s[i] in log && s[cap - 1] in log && LastTouch(log, s[i]) > LastTouch(log, s[cap - 1])
    {
      OlderTouch(log, s, cap, i, cap - 1);
    }
    assert s[cap - 1] in log by {
      RecentMembers(log, s[cap - 1]);
    }
  }

  lemma OlderTouch<K>(log: seq<K>, s: seq<K>, cap: nat, a: nat, b: nat)
    requires s == Truncated(Recent(log), cap) && a < b < |s|
    ensures s[a] in log && s[b] in log && LastTouch(log, s[a]) > LastTouch(log, s[b])
  {
    RecentByLastTouch(log, a, b);
  }

  /** What `len` counts: the updates that did not find their key. */
  function Insertions<K(==), V>(ops: seq<Op<K, V>>, cap: nat): nat {
    if ops == [] then 0
    else
      var before, op := ops[..|ops| - 1], ops[|ops| - 1];
      Insertions(before, cap) + if op.Update? && op.key !in Keys(Run(before, cap)) then 1 else 0
  }

  lemma {:induction false} SizeIsBounded<K, V>(ops: seq<Op<K, V>>, cap: nat)
    ensures |Run(ops, cap)| == if Insertions(ops, cap) < cap then Insertions(ops, cap) else cap
  {
    if ops != [] {
      var before, op := ops[..|ops| - 1], ops[|ops| - 1];
      SizeIsBounded(before, cap);
      RunKeys(ops, cap);
      RunDistinct(before, cap);
      ToFrontDistinct(Keys(Run(before, cap)), op.key);
    }
  }

  // ---------- a smaller cache holds no more than a larger one ----------

  /** The positions at which `s` occurs in `t`, in order. */
  ghost predicate Embeds<T>(at: seq<nat>, s: seq<T>, t: seq<T>) {
    && |at| == |s|
    && (forall i :: 0 <= i < |s| ==> at[i] < |t| && t[at[i]] == s[i])
    && (forall i, j :: 0 <= i < j < |s| ==> at[i] < at[j])
  }

  /** `s` is `t` with some elements left out. */
  ghost predicate Subsequence<T>(s: seq<T>, t: seq<T>) {
    exists at :: Embeds(at, s, t)
  }

  lemma SubsequenceTrans<T>(s: seq<T>, t: seq<T>, u: seq<T>)
    requires Subsequence(s, t) && Subsequence(t, u)
    ensures Subsequence(s, u)
  {
    var a :| Embeds(a, s, t);
    var b :| Embeds(b, t, u);
    assert Embeds(seq(|s|, i requires 0 <= i < |s| => b[a[i]]), s, u);
  }

  /** `s` is `t`, or `t` without the element at position `i`. */
  ghost predicate OneLess<T>(s: seq<T>, t: seq<T>, i: nat) {
    s == t || (i < |t| && s == Removed(t, i))
  }

  lemma OneLessIsSubsequence<T>(s: seq<T>, t: seq<T>, i: nat)
    requires OneLess(s, t, i)
    ensures Subsequence(s, t)
  {
    if s == t {
      assert Embeds(seq(|s|, j requires 0 <= j < |s| => j), s, t);
    } else {
      assert Embeds(seq(|s|, j requires 0 <= j < |s| => if j < i then j else j + 1), s, t);
    }
  }

  /** One operation on caches of capacity `c` and `c + 1` that differ by at most one key. */
  lemma OneLessStep<K, V>(s: seq<K>, t: seq<K>, i: nat, c: nat, op: Op<K, V>) returns (j: nat)
    requires OneLess(s, t, i) && Distinct(t) && |s| <= c && |t| <= c + 1
    ensures OneLess(KeyStep(s, c, op), KeyStep(t, c + 1, op), j)
  {
    if s != t {
      assert i < |t| && s == Removed(t, i);
    }
    hide *;
    var it := IndexOf(t, op.key);
    if s == t {
      j := c;
      StepOfEqual(t, c, op);
    } else if it == i {
      j := if op.Get? then 0 else c;
      StepOnMissing(t, i, c, op);
    } else if it < |t| {
      j := if it < i then i else i + 1;
      StepOnCommon(t, i, it, c, op);
    } else {
      j := if op.Get? then i else if i < c then i + 1 else c;
      StepOnNew(t, i, c, op);
    }
  }

  lemma StepOfEqual<K, V>(t: seq<K>, c: nat, op: Op<K, V>)
    ensures OneLess(KeyStep(t, c, op), KeyStep(t, c + 1, op), c)
  {
    TruncatedOneLess(ToFront(t, op.key), c);
  }

  lemma StepOnMissing<K, V>(t: seq<K>, i: nat, c: nat, op: Op<K, V>)
    requires Distinct(t) && i < |t| <= c + 1 && i == IndexOf(t, op.key)
    ensures OneLess(KeyStep(Removed(t, i), c, op), KeyStep(t, c + 1, op), if op.Get? then 0 else c)
  {
    hide IndexOf, Removed, Distinct;
    var s, k := Removed(t, i), op.key;
    RemovedHasNot(t, i);
    TruncatedOneLess([k] + s, c);
    FrontRemoved(s, k);
  }

  lemma FrontRemoved<K>(s: seq<K>, k: K)
    ensures Removed([k] + s, 0) == s
  {
  }

  lemma StepOnCommon<K, V>(t: seq<K>, i: nat, it: nat, c: nat, op: Op<K, V>)
    requires Distinct(t) && i < |t| <= c + 1 && it == IndexOf(t, op.key) && it < |t| && it != i
    ensures OneLess(KeyStep(Removed(t, i), c, op), KeyStep(t, c + 1, op), if it < i then i else i + 1)
  {
    var s := Removed(t, i);
    RemovedIndex(t, i, it, IndexOf(s, op.key), op.key);
    FrontOfBoth(t, i, it, op.key);
    hide IndexOf, Removed, Distinct, OneLess;
  }

  lemma StepOnNew<K, V>(t: seq<K>, i: nat, c: nat, op: Op<K, V>)
    requires i < |t| <= c + 1 && op.key !in t
    ensures OneLess(KeyStep(Removed(t, i), c, op), KeyStep(t, c + 1, op),
                    if op.Get? then i else if i < c then i + 1 else c)
  {
    RemovedMembers(t, i, op.key);
    FrontOfNeither(t, i, op.key, c);
    hide IndexOf, Removed;
  }

  lemma TruncatedOneLess<K>(u: seq<K>, c: nat)
    ensures OneLess(Truncated(u, c), Truncated(u, c + 1), c)
  {
  }

  lemma FrontOfBoth<K>(t: seq<K>, i: nat, it: nat, k: K)
    requires i < |t| && it < |t| && it != i
    ensures OneLess([k] + Removed(Removed(t, i), if it < i then it else it - 1), [k] + Removed(t, it),
                    if it < i then i else i + 1)
  {
    var e, j := if it < i then it else it - 1, if it < i then i else i + 1;
    var u, y := Removed(t, i), Removed(t, it);
    var x, z := [k] + Removed(u, e), Removed([k] + y, j);
    forall p | 0 <= p < |x|
      ensures x[p] == z[p]
    {
      hide Removed;
      RemovedAt([k] + y, j, p);
      if p > 0 {
        RemovedAt(u, e, p - 1);
        RemovedAt(t, i, if p - 1 < e then p - 1 else p);
        RemovedAt(t, it, if p < j then p - 1 else p);
      }
    }
    assert x == z;
  }

  lemma RemovedAt<T>(s: seq<T>, i: nat, p: nat)
    requires i < |s| && p < |s| - 1
    ensures Removed(s, i)[p] == s[if p < i then p else p + 1]
  {
  }

  lemma FrontOfNeither<K>(t: seq<K>, i: nat, k: K, c: nat)
    requires i < |t| <= c + 1
    ensures OneLess(Truncated([k] + Removed(t, i), c), Truncated([k] + t, c + 1), if i < c then i + 1 else c)
  {
  }

  lemma RemovedMembers<K>(t: seq<K>, i: nat, k: K)
    requires i < |t| && k !in t
    ensures k !in Removed(t, i)
  {
  }

  lemma RemovedHasNot<K>(t: seq<K>, i: nat)
    requires i < |t| && Distinct(t)
    ensures t[i] !in Removed(t, i)
  {
  }

  lemma RemovedIndex<K>(t: seq<K>, i: nat, it: nat, is_: nat, k: K)
    requires i < |t| && Distinct(t) && it < |t| && it != i && t[it] == k
    requires is_ == IndexOf(Removed(t, i), k)
    ensures is_ == if it < i then it else it - 1
  {
    hide IndexOf;
    var s, e := Removed(t, i), if it < i then it else it - 1;
    assert s[e] == k;
    if is_ < |s| {
      assert s[is_] == t[if is_ < i then is_ else is_ + 1];
    }
  }

  /** Fed the same run, a cache with one place less lacks at most one key of the other, and nothing else
      about their order differs. */
  lemma {:induction false} RunOneLess<K, V>(ops: seq<Op<K, V>>, c: nat) returns (i: nat)
    ensures OneLess(Keys(Run(ops, c)), Keys(Run(ops, c + 1)), i)
  {
    i := 0;
    if ops != [] {
      var before := ops[..|ops| - 1];
      i := RunOneLess(before, c);
      RunDistinct(before, c);
      RunDistinct(before, c + 1);
      RunKeys(ops, c);
      RunKeys(ops, c + 1);
      i := OneLessStep(Keys(Run(before, c)), Keys(Run(before, c + 1)), i, c, ops[|ops| - 1]);
    }
  }

  lemma {:induction false} RunKeysInclusion<K, V>(ops: seq<Op<K, V>>, c: nat, d: nat)
    requires c <= d
    ensures Subsequence(Keys(Run(ops, c)), Keys(Run(ops, d)))
    decreases d
  {
    hide *;
    if c == d {
      OneLessIsSubsequence(Keys(Run(ops, c)), Keys(Run(ops, d)), 0);
    } else {
      RunKeysInclusion(ops, c, d - 1);
      var i := RunOneLess(ops, d - 1);
      OneLessIsSubsequence(Keys(Run(ops, d - 1)), Keys(Run(ops, d)), i);
      SubsequenceTrans(Keys(Run(ops, c)), Keys(Run(ops, d - 1)), Keys(Run(ops, d)));
    }
  }

  /** Inclusion: after the same run, the smaller cache's bindings are among the larger one's, in the same
      relative order and with the same values. */
  lemma Inclusion<K, V>(ops: seq<Op<K, V>>, c: nat, d: nat)
    requires c <= d
    ensures Subsequence(Run(ops, c), Run(ops, d))
  {
    var s, t := Run(ops, c), Run(ops, d);
    RunKeysInclusion(ops, c, d);
    HoldsLastStored(ops, c);
    HoldsLastStored(ops, d);
    var at :| Embeds(at, Keys(s), Keys(t));
    forall i | 0 <= i < |s|
      ensures at[i] < |t| && t[at[i]] == s[i]
    {
      assert Keys(t)[at[i]] == Keys(s)[i];
      assert s[i] in s && t[at[i]] in t;
    }
    assert Embeds(at, s, t);
  }

  lemma AnswerIsHeld<K, V>(s: Cache<K, V>, k: K)
    ensures Answer(s, k).Some? ==> Entry(k, Answer(s, k).value) in s
  {
  }

  lemma HeldIsAnswer<K, V>(s: Cache<K, V>, e: Entry<K, V>)
    requires Distinct(Keys(s)) && e in s
    ensures Answer(s, e.key) == Some(e.value)
  {
    var i := IndexOf(Keys(s), e.key);
    var j :| 0 <= j < |s| && s[j] == e;
    assert Keys(s)[j] == e.key == Keys(s)[i];
  }

  lemma SubsequenceMember<T>(s: seq<T>, t: seq<T>, e: T)
    requires Subsequence(s, t) && e in s
    ensures e in t
  {
    var at :| Embeds(at, s, t);
    var i :| 0 <= i < |s| && s[i] == e;
    assert t[at[i]] == e;
  }

  /** A hit in the smaller cache is a hit in the larger one, with the same answer: the last value stored. */
  lemma HitsCarryOver<K, V>(ops: seq<Op<K, V>>, c: nat, d: nat, k: K)
    requires c <= d && Answer(Run(ops, c), k).Some?
    ensures Answer(Run(ops, d), k) == Answer(Run(ops, c), k) == LastStored(ops, k)
  {
    hide *;
    var s, t, e := Run(ops, c), Run(ops, d), Entry(k, Answer(Run(ops, c), k).value);
    RunDistinct(ops, d);
    AnswerIsHeld(s, k);
    HoldsLastStored(ops, c);
    Inclusion(ops, c, d);
    SubsequenceMember(s, t, e);
    HeldIsAnswer(t, e);
  }
}
