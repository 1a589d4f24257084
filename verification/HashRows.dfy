/** The contents of a hash table's buckets as sequences of entries, and the map they stand for. */
module HashRows {
  import opened Arithmetic
  import opened Sequences

  datatype Entry<K, V> = Entry(key: K, value: V)

  /** The bucket of a hash value. */
  function Slot(h: nat, modulus: nat): (b: nat)
    requires modulus > 0
    ensures b < modulus
  {
    h % modulus
  }

  type Row<K, V> = seq<Entry<K, V>>

  ghost predicate DistinctKeys<K, V>(row: Row<K, V>) {
    forall i, j :: 0 <= i < j < |row| ==> row[i].key != row[j].key
  }

  function TotalLength<K, V>(rows: seq<Row<K, V>>): nat {
    if rows == [] then 0 else |rows[0]| + TotalLength(rows[1..])
  }

  /** Row `b` holds distinct keys, all of which hash to `b`, with the values that `m` gives them. */
  ghost predicate RowOf<K, V>(row: Row<K, V>, b: nat, cap: nat, hash: K -> nat, m: map<K, V>)
    requires cap > 0
  {
    && DistinctKeys(row)
    && forall e :: e in row ==> Slot(hash(e.key), cap) == b && e.key in m && m[e.key] == e.value
  }

  /** The first `cap` rows, addressed by hash modulo `cap`, hold exactly the bindings of `m`; the rest
      are empty; and as many entries are held as there are bindings. */
  ghost predicate Represents<K, V>(rows: seq<Row<K, V>>, cap: nat, hash: K -> nat, m: map<K, V>) {
    && 0 < cap <= |rows|
    && (forall b :: 0 <= b < cap ==> RowOf(rows[b], b, cap, hash, m))
    && (forall b :: cap <= b < |rows| ==> rows[b] == [])
    && (forall k :: k in m ==> Entry(k, m[k]) in rows[Slot(hash(k), cap)])
    && TotalLength(rows) == |m|
  }

  lemma {:induction false} TotalLengthUpdate<K, V>(rows: seq<Row<K, V>>, b: nat, row: Row<K, V>)
    requires b < |rows|
    ensures TotalLength(rows[b := row]) == TotalLength(rows) - |rows[b]| + |row|
  {
    if b == 0 {
      assert rows[b := row][1..] == rows[1..];
    } else {
      assert rows[b := row][1..] == rows[1..][b - 1 := row];
      TotalLengthUpdate(rows[1..], b - 1, row);
    }
  }

  /** A key that is bound is in its row, at one place only. */
  lemma KeyInRow<K, V>(rows: seq<Row<K, V>>, cap: nat, hash: K -> nat, m: map<K, V>, k: K)
    requires Represents(rows, cap, hash, m)
    ensures cap > 0 && Slot(hash(k), cap) < |rows|
    ensures var row := rows[Slot(hash(k), cap)];
            && (k in m <==> exists i :: 0 <= i < |row| && row[i].key == k)
            && forall i :: 0 <= i < |row| && row[i].key == k ==> k in m && m[k] == row[i].value
  {
    var row := rows[Slot(hash(k), cap)];
    if k in m {
      var i :| 0 <= i < |row| && row[i] == Entry(k, m[k]);
      assert row[i].key == k;
    }
  }

  /** A row holds the entries whose hash leaves its index as the remainder by `cap`, and no others. */
  lemma PlacedByRemainder<K, V>(rows: seq<Row<K, V>>, cap: nat, hash: K -> nat, m: map<K, V>, b: nat, e: Entry<K, V>)
    requires Represents(rows, cap, hash, m) && b < |rows|
    ensures cap > 0
    ensures e in rows[b] <==> e.key in m && m[e.key] == e.value && hash(e.key) % cap == b
  {
    if b < cap {
      assert RowOf(rows[b], b, cap, hash, m);
      if e.key in m {
        assert Entry(e.key, m[e.key]) in rows[Slot(hash(e.key), cap)];
      }
    } else {
      assert hash(e.key) % cap != b;
    }
  }

  /** Replacing the row of `k` by one that is right for a map that differs from `m` only at `k`. */
  lemma RowUpdate<K, V>(rows: seq<Row<K, V>>, cap: nat, hash: K -> nat, m: map<K, V>, k: K, row: Row<K, V>, m': map<K, V>)
    requires Represents(rows, cap, hash, m)
    requires forall x :: x != k ==> (x in m <==> x in m') && (x in m ==> m[x] == m'[x])
    requires var b := Slot(hash(k), cap);
             && RowOf(row, b, cap, hash, m')
             && (forall x :: x in m' && Slot(hash(x), cap) == b ==> Entry(x, m'[x]) in row)
             && |m'| == |m| - |rows[b]| + |row|
    ensures Represents(rows[Slot(hash(k), cap) := row], cap, hash, m')
  {
    hide Slot;
    var b := Slot(hash(k), cap);
    TotalLengthUpdate(rows, b, row);
    forall c | 0 <= c < cap && c != b
      ensures RowOf(rows[c], c, cap, hash, m')
    {
      assert RowOf(rows[c], c, cap, hash, m);
    }
    hide RowOf, TotalLength;
    forall x | x in m'
      ensures Entry(x, m'[x]) in rows[b := row][Slot(hash(x), cap)]
    {
    }
  }

  lemma AppendRepresents<K, V>(rows: seq<Row<K, V>>, cap: nat, hash: K -> nat, m: map<K, V>, k: K, v: V)
    requires Represents(rows, cap, hash, m) && k !in m
    ensures var b := Slot(hash(k), cap);
            Represents(rows[b := rows[b] + [Entry(k, v)]], cap, hash, m[k := v])
  {
    var b := Slot(hash(k), cap);
    var was := rows[b];
    assert RowOf(was, b, cap, hash, m);
    forall x | x in m && Slot(hash(x), cap) == b
      ensures Entry(x, m[x]) in was
    {
    }
    AppendToRow(was, b, cap, hash, m, k, v);
    hide RowOf;
    assert m[k := v].Keys == m.Keys + {k};
    RowUpdate(rows, cap, hash, m, k, was + [Entry(k, v)], m[k := v]);
  }

  lemma AppendToRow<K, V>(was: Row<K, V>, b: nat, cap: nat, hash: K -> nat, m: map<K, V>, k: K, v: V)
    requires cap > 0 && RowOf(was, b, cap, hash, m) && k !in m && Slot(hash(k), cap) == b
    requires forall x :: x in m && Slot(hash(x), cap) == b ==> Entry(x, m[x]) in was
    ensures var row := was + [Entry(k, v)];
            && RowOf(row, b, cap, hash, m[k := v])
            && forall x :: x in m[k := v] && Slot(hash(x), cap) == b ==> Entry(x, m[k := v][x]) in row
  {
    assert forall j :: 0 <= j < |was| ==> was[j] in was;
  }

  lemma ReplaceRepresents<K, V>(rows: seq<Row<K, V>>, cap: nat, hash: K -> nat, m: map<K, V>, k: K, i: nat, v: V)
    requires Represents(rows, cap, hash, m) && i < |rows[Slot(hash(k), cap)]| && rows[Slot(hash(k), cap)][i].key == k
    ensures var b := Slot(hash(k), cap);
            Represents(rows[b := rows[b][i := Entry(k, v)]], cap, hash, m[k := v])
  {
    var b := Slot(hash(k), cap);
    var was := rows[b];
    assert RowOf(was, b, cap, hash, m);
    forall x | x in m && Slot(hash(x), cap) == b
      ensures Entry(x, m[x]) in was
    {
    }
    ReplaceInRow(was, b, cap, hash, m, i, v);
    hide RowOf;
    assert m[k := v].Keys == m.Keys;
    RowUpdate(rows, cap, hash, m, k, was[i := Entry(k, v)], m[k := v]);
  }

  lemma ReplaceInRow<K, V>(was: Row<K, V>, b: nat, cap: nat, hash: K -> nat, m: map<K, V>, i: nat, v: V)
    requires cap > 0 && i < |was| && RowOf(was, b, cap, hash, m)
    requires forall x :: x in m && Slot(hash(x), cap) == b ==> Entry(x, m[x]) in was
    ensures var k := was[i].key;
            var row := was[i := Entry(k, v)];
            && k in m && RowOf(row, b, cap, hash, m[k := v])
            && forall x :: x in m[k := v] && Slot(hash(x), cap) == b ==> Entry(x, m[k := v][x]) in row
  {
    var k := was[i].key;
    var row := was[i := Entry(k, v)];
    assert was[i] in was;
    forall e | e in row
      ensures Slot(hash(e.key), cap) == b && e.key in m && m[k := v][e.key] == e.value
    {
      var j :| 0 <= j < |row| && row[j] == e;
      assert was[j] in was && was[j].key == e.key;
    }
    forall x | x in m && Slot(hash(x), cap) == b
      ensures Entry(x, m[k := v][x]) in row
    {
      var j :| 0 <= j < |was| && was[j] == Entry(x, m[x]);
      assert row[j] == Entry(x, m[k := v][x]);
    }
  }

  lemma RemoveRepresents<K, V>(rows: seq<Row<K, V>>, cap: nat, hash: K -> nat, m: map<K, V>, k: K, i: nat)
    requires Represents(rows, cap, hash, m) && i < |rows[Slot(hash(k), cap)]| && rows[Slot(hash(k), cap)][i].key == k
    ensures var b := Slot(hash(k), cap);
            k in m && Represents(rows[b := Removed(rows[b], i)], cap, hash, m - {k})
  {
    var b := Slot(hash(k), cap);
    var was := rows[b];
    assert RowOf(was, b, cap, hash, m);
    forall x | x in m && Slot(hash(x), cap) == b
      ensures Entry(x, m[x]) in was
    {
    }
    RemoveFromRow(was, b, cap, hash, m, i);
    RemovedSize(m, k);
    hide RowOf;
    RowUpdate(rows, cap, hash, m, k, Removed(was, i), m - {k});
  }

  lemma RemovedSize<K, V>(m: map<K, V>, k: K)
    requires k in m
    ensures |m - {k}| == |m| - 1
  {
    assert (m - {k}).Keys == m.Keys - {k};
  }

  lemma RemoveFromRow<K, V>(was: Row<K, V>, b: nat, cap: nat, hash: K -> nat, m: map<K, V>, i: nat)
    requires cap > 0 && i < |was| && RowOf(was, b, cap, hash, m)
    requires forall x :: x in m && Slot(hash(x), cap) == b ==> Entry(x, m[x]) in was
    ensures var k, row := was[i].key, Removed(was, i);
            && k in m && |row| == |was| - 1
            && RowOf(row, b, cap, hash, m - {k})
            && forall x :: x in m - {k} && Slot(hash(x), cap) == b ==> Entry(x, (m - {k})[x]) in row
  {
    var k, row := was[i].key, Removed(was, i);
    assert was[i] in was;
    forall e | e in row
      ensures e in was && e.key != k
    {
      var j :| 0 <= j < |row| && row[j] == e;
      assert e == was[if j < i then j else j + 1];
    }
    forall x | x in m - {k} && Slot(hash(x), cap) == b
      ensures Entry(x, m[x]) in row
    {
      var j :| 0 <= j < |was| && was[j] == Entry(x, m[x]);
      assert row[if j < i then j else j - 1] == was[j];
    }
  }

  // ---------- doubling ----------

  /** The entries that hash to `b`, in order. */
  function HashingTo<K, V>(row: Row<K, V>, hash: K -> nat, modulus: nat, b: nat): Row<K, V>
    requires modulus > 0
  {
    if row == [] then []
    else
      var last := |row| - 1;
      HashingTo(row[..last], hash, modulus, b) + if Slot(hash(row[last].key), modulus) == b then [row[last]] else []
  }

  /** The old bucket from which the entries of bucket `b` come. */
  function Home(b: nat, cap: nat): (h: nat)
    requires b < 2 * cap
    ensures h < cap
  {
    if b < cap then b else b - cap
  }

  /** The rows after the rehashing loop has run over `cap` old buckets and `cap` new, empty ones: each
      bucket keeps, in order, what still hashes to it, and its twin gets, in order, the rest. */
  function Split<K, V>(rows: seq<Row<K, V>>, cap: nat, hash: K -> nat, modulus: nat): (r: seq<Row<K, V>>)
    requires modulus > 0 && cap <= |rows|
    ensures |r| == 2 * cap
  {
    seq(2 * cap, b requires 0 <= b < 2 * cap => HashingTo(rows[Home(b, cap)], hash, modulus, b))
  }

  lemma {:induction false} HashingToMember<K, V>(row: Row<K, V>, hash: K -> nat, modulus: nat, b: nat, e: Entry<K, V>)
    requires modulus > 0
    ensures e in HashingTo(row, hash, modulus, b) <==> e in row && Slot(hash(e.key), modulus) == b
  {
    if row != [] {
      var last := |row| - 1;
      HashingToMember(row[..last], hash, modulus, b, e);
      assert row == row[..last] + [row[last]];
    }
  }

  lemma {:induction false} HashingToDistinct<K, V>(row: Row<K, V>, hash: K -> nat, modulus: nat, b: nat)
    requires modulus > 0 && DistinctKeys(row)
    ensures DistinctKeys(HashingTo(row, hash, modulus, b))
  {
    if row != [] {
      var last := |row| - 1;
      HashingToDistinct(row[..last], hash, modulus, b);
      var rest := HashingTo(row[..last], hash, modulus, b);
      forall i | 0 <= i < |rest|
        ensures rest[i].key != row[last].key
      {
        HashingToMember(row[..last], hash, modulus, b, rest[i]);
      }
    }
  }

  /** If every entry hashes to `b`, the bucket keeps everything; if it hashes elsewhere, nothing. */
  lemma {:induction false} HashingToAllOrNothing<K, V>(row: Row<K, V>, hash: K -> nat, modulus: nat, b: nat, c: nat)
    requires modulus > 0 && b != c && forall e | e in row :: Slot(hash(e.key), modulus) == b
    ensures HashingTo(row, hash, modulus, b) == row && HashingTo(row, hash, modulus, c) == []
  {
    if row != [] {
      var last := |row| - 1;
      assert row == row[..last] + [row[last]];
      HashingToAllOrNothing(row[..last], hash, modulus, b, c);
    }
  }

  /** Modulo twice the capacity, a hash is what it was or what it was plus the capacity. */
  lemma DoubledModulus(h: nat, cap: nat)
    requires cap > 0
    ensures Home(h % (2 * cap), cap) == h % cap
  {
    var q, r := h / (2 * cap), h % (2 * cap);
    RegroupDoubled(h, cap, q, r);
    if r < cap {
      DivisionUnique(h, cap, 2 * q, r);
    } else {
      DivisionUnique(h, cap, 2 * q + 1, r - cap);
    }
  }

  lemma RegroupDoubled(h: nat, cap: nat, q: int, r: nat)
    requires h == (2 * cap) * q + r
    ensures h == cap * (2 * q) + r
    ensures h == cap * (2 * q + 1) + (r - cap)
  {
  }

  lemma {:induction false} HalvesLength<K, V>(row: Row<K, V>, hash: K -> nat, cap: nat, b: nat)
    requires b < cap && forall e | e in row :: Slot(hash(e.key), cap) == b
    ensures |HashingTo(row, hash, 2 * cap, b)| + |HashingTo(row, hash, 2 * cap, b + cap)| == |row|
  {
    if row != [] {
      var last := |row| - 1;
      assert row == row[..last] + [row[last]];
      HalvesLength(row[..last], hash, cap, b);
      DoubledModulus(hash(row[last].key), cap);
    }
  }

  lemma {:induction false} TotalLengthConcat<K, V>(x: seq<Row<K, V>>, y: seq<Row<K, V>>)
    ensures TotalLength(x + y) == TotalLength(x) + TotalLength(y)
  {
    if x == [] {
      assert x + y == y;
    } else {
      assert (x + y)[1..] == x[1..] + y;
      TotalLengthConcat(x[1..], y);
    }
  }

  lemma {:induction false} TotalLengthSum<K, V>(x: seq<Row<K, V>>, y: seq<Row<K, V>>, z: seq<Row<K, V>>)
    requires |x| == |y| == |z| && forall i :: 0 <= i < |x| ==> |x[i]| + |y[i]| == |z[i]|
    ensures TotalLength(x) + TotalLength(y) == TotalLength(z)
  {
    if x != [] {
      TotalLengthSum(x[1..], y[1..], z[1..]);
    }
  }

  lemma {:induction false} TotalLengthEmpty<K, V>(x: seq<Row<K, V>>)
    requires forall i :: 0 <= i < |x| ==> x[i] == []
    ensures TotalLength(x) == 0
  {
    if x != [] {
      TotalLengthEmpty(x[1..]);
    }
  }

  lemma SplitLength<K, V>(rows: seq<Row<K, V>>, cap: nat, hash: K -> nat, m: map<K, V>)
    requires Represents(rows, cap, hash, m)
    ensures TotalLength(Split(rows, cap, hash, 2 * cap)) == |m|
  {
    var r := Split(rows, cap, hash, 2 * cap);
    forall b | 0 <= b < cap
      ensures |r[b]| + |r[cap + b]| == |rows[b]|
    {
      assert RowOf(rows[b], b, cap, hash, m);
      HalvesLength(rows[b], hash, cap, b);
    }
    hide TotalLength;
    LengthByHalves(r, rows, cap);
  }

  lemma LengthByHalves<K, V>(r: seq<Row<K, V>>, rows: seq<Row<K, V>>, cap: nat)
    requires |r| == 2 * cap && cap <= |rows|
    requires forall b :: 0 <= b < cap ==> |r[b]| + |r[cap + b]| == |rows[b]|
    requires forall b :: cap <= b < |rows| ==> rows[b] == []
    ensures TotalLength(r) == TotalLength(rows)
  {
    hide TotalLength;
    var low, high, before, rest := r[..cap], r[cap..], rows[..cap], rows[cap..];
    assert r == low + high && rows == before + rest;
    assert forall b :: 0 <= b < cap ==> low[b] == r[b] && high[b] == r[cap + b] && before[b] == rows[b];
    TotalLengthSum(low, high, before);
    TotalLengthConcat(low, high);
    TotalLengthConcat(before, rest);
    TotalLengthEmpty(rest);
  }

  /** Rehashing modulo twice the capacity puts every entry into the row of its new hash: the doubled
      table stands for the same map. */
  lemma SplitRepresents<K, V>(rows: seq<Row<K, V>>, cap: nat, hash: K -> nat, m: map<K, V>)
    requires Represents(rows, cap, hash, m)
    ensures Represents(Split(rows, cap, hash, 2 * cap), 2 * cap, hash, m)
  {
    var r := Split(rows, cap, hash, 2 * cap);
    SplitLength(rows, cap, hash, m);
    forall b | 0 <= b < 2 * cap
      ensures RowOf(r[b], b, 2 * cap, hash, m)
    {
      var row := rows[Home(b, cap)];
      assert RowOf(row, Home(b, cap), cap, hash, m);
      HashingToDistinct(row, hash, 2 * cap, b);
      forall e: Entry<K, V> | e in r[b]
        ensures Slot(hash(e.key), 2 * cap) == b && e.key in m && m[e.key] == e.value
      {
        HashingToMember(row, hash, 2 * cap, b, e);
      }
    }
    forall k | k in m
      ensures Entry(k, m[k]) in r[Slot(hash(k), 2 * cap)]
    {
      var b := Slot(hash(k), 2 * cap);
      DoubledModulus(hash(k), cap);
      HashingToMember(rows[Home(b, cap)], hash, 2 * cap, b, Entry(k, m[k]));
    }
  }

  /** With the modulus still at the old capacity, as the code has it, nothing moves. */
  lemma SplitWithOldModulus<K, V>(rows: seq<Row<K, V>>, cap: nat, hash: K -> nat, m: map<K, V>)
    requires Represents(rows, cap, hash, m)
    ensures var r := Split(rows, cap, hash, cap);
            && cap <= |rows| && (forall b :: 0 <= b < 2 * cap ==> r[b] == if b < cap then rows[b] else [])
            && Represents(r, cap, hash, m)
  {
    hide TotalLength;
    var r := Split(rows, cap, hash, cap);
    forall b | 0 <= b < 2 * cap
      ensures r[b] == if b < cap then rows[b] else []
    {
      var h := Home(b, cap);
      assert RowOf(rows[h], h, cap, hash, m);
      HashingToAllOrNothing(rows[h], hash, cap, h, if b < cap then cap else b);
    }
    hide HashingTo, Split, RowOf;
    LengthByHalves(r, rows, cap);
    SameRowsRepresent(rows, r, cap, hash, m);
  }

  lemma SameRowsRepresent<K, V>(rows: seq<Row<K, V>>, r: seq<Row<K, V>>, cap: nat, hash: K -> nat, m: map<K, V>)
    requires Represents(rows, cap, hash, m) && |r| == 2 * cap && TotalLength(r) == TotalLength(rows)
    requires forall b :: 0 <= b < 2 * cap ==> r[b] == if b < cap then rows[b] else []
    ensures Represents(r, cap, hash, m)
  {
    hide RowOf, TotalLength;
    forall b | 0 <= b < cap
      ensures RowOf(r[b], b, cap, hash, m)
    {
      assert RowOf(rows[b], b, cap, hash, m);
    }
    forall k | k in m
      ensures Entry(k, m[k]) in r[Slot(hash(k), cap)]
    {
      assert Entry(k, m[k]) in rows[Slot(hash(k), cap)];
    }
  }
}
