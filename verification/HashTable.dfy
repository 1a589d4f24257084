/** ht.c: a hash table of growing buckets.  Keys are byte strings, the same exactly when `key_len` and
    the bytes agree, so that the model compares them with `==`; the hash is arbitrary. */
module HashTable {
  import opened HashRows
  import opened Options
  import opened Sequences

  const INITIAL_CAP := 32
  const BUCKET_INITIAL_CAP := 2

  /** The entries in the first `len` slots. */
  function Filled<K, V>(entries: seq<Option<Entry<K, V>>>, len: nat): (row: Row<K, V>)
    requires len <= |entries| && forall i :: 0 <= i < len ==> entries[i].Some?
    ensures |row| == len && forall i :: 0 <= i < len ==> row[i] == entries[i].value
  {
    seq(len, i requires 0 <= i < len => entries[i].value)
  }

  class Bucket<K(==), V> {
    var len: nat
    var cap: nat
    var entries: seq<Option<Entry<K, V>>>

    ghost predicate Valid()
      reads this
    {
      && len <= cap == |entries|
      && (forall i :: 0 <= i < len ==> entries[i].Some?)
      && (forall i :: len <= i < cap ==> entries[i] == None)
    }

    ghost function Items(): Row<K, V>
      reads this
      requires Valid()
    {
      Filled(entries, len)
    }

    constructor ()
      ensures Valid() && Items() == []
    {
      len, cap, entries := 0, 0, [];
    }

    method Init()
      requires Valid() && cap == 0
      modifies this
      ensures Valid() && Items() == old(Items()) && cap == 2
    {
      entries := seq(BUCKET_INITIAL_CAP, _ => None);
      cap := BUCKET_INITIAL_CAP;
    }

    method Realloc()
      requires Valid() && cap > 0
      modifies this
      ensures Valid() && Items() == old(Items()) && cap == 2 * old(cap)
    {
      var newCap := 2 * cap;
      entries := entries[..len] + seq(newCap - len, _ => None);
      cap := newCap;
    }

    method Append(entry: Entry<K, V>)
      requires Valid()
      modifies this
      ensures Valid() && Items() == old(Items()) + [entry]
      ensures cap == if old(cap) == 0 then 2
                     else if old(len) == old(cap) then 2 * old(cap) else old(cap)
    {
      if cap == 0 {
        Init();
      }
      if len == cap {
        Realloc();
      }
      entries := entries[len := Some(entry)];
      len := len + 1;
    }

    /** The search loop of every operation: the first slot that holds the key, or `len`. */
    method Find(key: K) returns (i: nat)
      requires Valid()
      ensures i <= len && forall j :: 0 <= j < i ==> Items()[j].key != key
      ensures i < len ==> Items()[i].key == key
    {
      i := 0;
      while i < len
        invariant i <= len && forall j :: 0 <= j < i ==> Items()[j].key != key
      {
        if entries[i].value.key == key {
          return;
        }
        i := i + 1;
      }
    }

    method Overwrite(i: nat, value: V)
      requires Valid() && i < len
      modifies this
      ensures Valid() && Items() == old(Items()[i := Entry(Items()[i].key, value)])
    {
      entries := entries[i := Some(Entry(entries[i].value.key, value))];
    }

    /** The rehashing loop's step for an entry that stays: it moves to the first hole before it. */
    method KeepEntry(j: nat, ghost row: Row<K, V>, ghost kept: Row<K, V>)
      requires Compacting(entries, len, cap, row, j, kept) && j < |row|
      modifies this`entries
      ensures Compacting(entries, len, cap, row, j + 1, kept + [row[j]])
    {
      var k := 0;
      while k < j && entries[k].Some?
        invariant 0 <= k <= j && forall p :: 0 <= p < k ==> entries[p].Some?
      {
        k := k + 1;
      }
      CompactingKeep(entries, len, cap, row, j, kept, k);
      if k < j {
        entries := entries[k := entries[j]][j := None];
      }
    }

    /** The rehashing loop's step for an entry that has gone elsewhere: it leaves a hole. */
    method DropEntry(j: nat, ghost row: Row<K, V>, ghost kept: Row<K, V>)
      requires Compacting(entries, len, cap, row, j, kept) && j < |row|
      modifies this`entries, this`len
      ensures Compacting(entries, len, cap, row, j + 1, kept)
    {
      entries := entries[j := None];
      len := len - 1;
    }

    /** Closes the gap with the entries behind it. */
    method Remove(idx: nat)
      requires Valid() && idx < len
      modifies this
      ensures Valid() && Items() == Removed(old(Items()), idx)
    {
      len := len - 1;
      if len == 0 {
        entries := entries[0 := None];
        return;
      }
      entries := entries[..idx] + entries[idx + 1..len + 1] + entries[len..];
      entries := entries[len := None];
    }
  }

  class Table<K(==), V> {
    const hash: K -> nat
    var len: nat
    var cap: nat
    var buckets: seq<Bucket<K, V>>
    ghost var contents: map<K, V>
    ghost var repr: set<object>

    ghost predicate Shape()
      reads this`buckets, buckets
    {
      && (forall i :: 0 <= i < |buckets| ==> buckets[i].Valid())
      && (forall i, j :: 0 <= i < j < |buckets| ==> buckets[i] != buckets[j])
    }

    ghost function Rows(): (rows: seq<Row<K, V>>)
      reads this`buckets, buckets
      requires Shape()
      ensures |rows| == |buckets| && forall i :: 0 <= i < |buckets| ==> rows[i] == buckets[i].Items()
    {
      var bs := buckets;
      seq(|bs|, i requires 0 <= i < |bs| && bs[i].Valid() reads bs => bs[i].Items())
    }

    ghost predicate Valid()
      reads this, repr
      ensures Valid() ==> this in repr
    {
      repr == Owned() && Shape() && Represents(Rows(), cap, hash, contents) && len == |contents|
    }

    /** The table and its buckets. */
    ghost function Owned(): set<object>
      reads this`buckets
    {
      var bs: set<object> := set b | b in buckets;
      bs + {this}
    }

    constructor (hash: K -> nat)
      ensures Valid() && contents == map[] && this.hash == hash && fresh(repr)
      ensures cap == |buckets| == 32 && len == 0
    {
      hide TotalLength, Bucket.Items, Bucket.Valid;
      this.hash := hash;
      len, cap, buckets, contents := 0, INITIAL_CAP, [], map[];
      new;
      AddBuckets(INITIAL_CAP);
      TotalLengthEmpty(Rows());
      repr := Owned();
    }

    /** Appends zeroed buckets. */
    method AddBuckets(n: nat)
      requires Shape()
      modifies this`buckets
      ensures Shape() && |buckets| == old(|buckets|) + n && buckets[..old(|buckets|)] == old(buckets)
      ensures forall i :: old(|buckets|) <= i < |buckets| ==> fresh(buckets[i])
      ensures forall i :: old(|buckets|) <= i < |buckets| ==> buckets[i].Items() == []
      ensures forall i :: 0 <= i < old(|buckets|) ==> buckets[i].Items() == old(buckets[i].Items())
    {
      for i := 0 to n
        invariant Shape() && |buckets| == old(|buckets|) + i && buckets[..old(|buckets|)] == old(buckets)
        invariant forall i :: old(|buckets|) <= i < |buckets| ==> fresh(buckets[i])
        invariant forall i :: old(|buckets|) <= i < |buckets| ==> buckets[i].Items() == []
        invariant forall i :: 0 <= i < old(|buckets|) ==> buckets[i].Items() == old(buckets[i].Items())
      {
        var bucket := new Bucket();
        buckets := buckets + [bucket];
      }
    }

    /** One step of the rehashing loop, for entry `j` of old bucket `i`: it stays, moved up to the first hole
        if there is one before it, or goes to the end of the bucket of its new hash. */
    method RehashEntry(i: nat, oldCap: nat, modulus: nat, j: nat, ghost row: Row<K, V>, ghost twin: Bucket<K, V>)
      requires i < oldCap && |buckets| == 2 * oldCap && modulus > 0
      requires buckets[oldCap + i] == twin && buckets[i] != twin && j < |row|
      requires Slot(hash(row[j].key), modulus) == i || Slot(hash(row[j].key), modulus) == oldCap + i
      requires Half(i, modulus, row, j, buckets[i]) && OtherHalf(oldCap + i, modulus, row, j, twin)
      modifies buckets[i], twin
      ensures Half(i, modulus, row, j + 1, buckets[i]) && OtherHalf(oldCap + i, modulus, row, j + 1, twin)
    {
      hide HashingTo, Slot, TotalLength, Represents, Bucket.Items, Bucket.Valid;
      var bucket := buckets[i];
      var entry := bucket.entries[j].value;
      var h := Slot(hash(entry.key), modulus);
      HashingToNext(row, hash, modulus, i, j);
      HashingToNext(row, hash, modulus, oldCap + i, j);
      if h == i {
        bucket.KeepEntry(j, row, HashingTo(row[..j], hash, modulus, i));
      } else {
        var target := buckets[h];
        target.Append(entry);
        bucket.DropEntry(j, row, HashingTo(row[..j], hash, modulus, i));
      }
    }

    /** The old bucket when the first `j` entries of `row`, which it held, are dealt with. */
    ghost predicate Half(i: nat, modulus: nat, row: Row<K, V>, j: nat, bucket: Bucket<K, V>)
      requires modulus > 0
      reads bucket
    {
      j <= |row| && Compacting(bucket.entries, bucket.len, bucket.cap, row, j, HashingTo(row[..j], hash, modulus, i))
    }

    /** The new bucket at that point. */
    ghost predicate OtherHalf(i: nat, modulus: nat, row: Row<K, V>, j: nat, twin: Bucket<K, V>)
      requires modulus > 0
      reads twin
    {
      j <= |row| && twin.Valid() && twin.Items() == HashingTo(row[..j], hash, modulus, i)
    }

    lemma HalvesAtStart(i: nat, oldCap: nat, modulus: nat)
      requires Shape() && i < oldCap && |buckets| == 2 * oldCap && modulus > 0 && Rows()[oldCap + i] == []
      ensures Half(i, modulus, Rows()[i], 0, buckets[i])
      ensures OtherHalf(oldCap + i, modulus, Rows()[i], 0, buckets[oldCap + i])
    {
      HashingToStart(Rows()[i], hash, modulus, i);
      HashingToStart(Rows()[i], hash, modulus, oldCap + i);
    }

    lemma HalvesAtEnd(i: nat, oldCap: nat, modulus: nat, row: Row<K, V>)
      requires i < oldCap && |buckets| == 2 * oldCap && modulus > 0
      requires Half(i, modulus, row, |row|, buckets[i]) && OtherHalf(oldCap + i, modulus, row, |row|, buckets[oldCap + i])
      ensures buckets[i].Valid() && buckets[i].Items() == HashingTo(row, hash, modulus, i)
      ensures buckets[oldCap + i].Valid() && buckets[oldCap + i].Items() == HashingTo(row, hash, modulus, oldCap + i)
    {
      hide HashingTo;
      assert row[..|row|] == row;
    }

    /** The rehashing loop for old bucket `i`. */
    method RehashBucket(i: nat, oldCap: nat, modulus: nat)
      requires Shape() && i < oldCap && |buckets| == 2 * oldCap && modulus > 0
      requires Rows()[oldCap + i] == []
      requires forall e | e in Rows()[i] :: Slot(hash(e.key), modulus) == i || Slot(hash(e.key), modulus) == oldCap + i
      modifies buckets[i], buckets[oldCap + i]
      ensures Shape()
      ensures Rows()[i] == HashingTo(old(Rows())[i], hash, modulus, i)
      ensures Rows()[oldCap + i] == HashingTo(old(Rows())[i], hash, modulus, oldCap + i)
      ensures forall b :: 0 <= b < 2 * oldCap && b != i && b != oldCap + i ==> Rows()[b] == old(Rows())[b]
    {
      hide HashingTo, Slot, TotalLength, Represents, Compacting, Half, OtherHalf, Bucket.Items, Bucket.Valid;
      ghost var twin, row := buckets[oldCap + i], Rows()[i];
      var n := buckets[i].len;
      ItemsLength(buckets[i]);
      HalvesAtStart(i, oldCap, modulus);
      var j := 0;
      while j < n
        invariant 0 <= j <= n
        invariant Half(i, modulus, row, j, buckets[i]) && OtherHalf(oldCap + i, modulus, row, j, twin)
      {
        assert row[j] in row;
        RehashEntry(i, oldCap, modulus, j, row, twin);
        j := j + 1;
      }
      HalvesAtEnd(i, oldCap, modulus, row);
    }

    /** `realloc` to twice the capacity, with the upper half zeroed. */
    method ZeroUpperHalf()
      requires Shape() && cap <= |buckets|
      modifies this`buckets
      ensures Shape() && |buckets| == 2 * cap
      ensures forall b :: 0 <= b < cap ==> buckets[b] == old(buckets[b]) && Rows()[b] == old(Rows())[b]
      ensures forall b :: cap <= b < 2 * cap ==> fresh(buckets[b]) && Rows()[b] == []
    {
      buckets := buckets[..cap];
      AddBuckets(cap);
    }

    /** One more old bucket is dealt with. */
    method RehashNext(i: nat, modulus: nat, ghost rows: seq<Row<K, V>>)
      requires Represents(rows, cap, hash, contents) && (modulus == cap || modulus == 2 * cap) && i < cap
      requires Shape() && SplitUpTo(Rows(), rows, cap, hash, modulus, i)
      modifies buckets
      ensures Shape() && SplitUpTo(Rows(), rows, cap, hash, modulus, i + 1)
    {
      hide HashingTo, Slot, TotalLength, Represents, SplitUpTo, Rows, Shape, Bucket.Items, Bucket.Valid;
      ghost var before := Rows();
      HashesOfRow(rows, cap, hash, contents, modulus, i);
      SplitPending(before, rows, cap, hash, modulus, i);
      RehashBucket(i, cap, modulus);
      SplitNext(before, Rows(), rows, cap, hash, modulus, i);
    }

    /** `ht_resize` without its (missing) update of `cap`: doubles the bucket array and runs the loop with
        the given modulus. */
    method Rehash(modulus: nat)
      requires Shape() && Represents(Rows(), cap, hash, contents) && (modulus == cap || modulus == 2 * cap)
      modifies this`buckets, buckets
      ensures Shape() && Rows() == Split(old(Rows()), cap, hash, modulus)
      ensures fresh(Owned() - old(Owned()))
    {
      hide HashingTo, Slot, TotalLength, Represents, Split, SplitUpTo, Rows, Shape, Bucket.Items, Bucket.Valid;
      ghost var rows := Rows();
      RepresentsBounds(rows, cap, hash, contents);
      ZeroUpperHalf();
      ghost var bs := buckets;
      SplitStart(Rows(), rows, cap, hash, modulus);
      for i := 0 to cap
        invariant buckets == bs && Shape() && SplitUpTo(Rows(), rows, cap, hash, modulus, i)
      {
        RehashNext(i, modulus, rows);
      }
      SplitEnd(Rows(), rows, cap, hash, modulus);
    }

    /** `ht_resize` as written: `cap` keeps its value, the loop uses it as modulus, and nothing moves. */
    method Resize()
      requires Valid()
      modifies this`buckets, this`repr, buckets
      ensures Valid() && fresh(repr - old(repr)) && |buckets| == 2 * cap <= 2 * old(|buckets|)
      ensures forall b :: 0 <= b < 2 * cap ==> Rows()[b] == if b < cap then old(Rows())[b] else []
    {
      hide Represents, Split, Rows, Shape, Owned;
      SplitWithOldModulus(Rows(), cap, hash, contents);
      Rehash(cap);
      repr := Owned();
    }

    /** `ht_resize` as meant: the new capacity is stored before the loop's results are used. */
    method ResizeAndStoreCap()
      requires Valid()
      modifies this`cap, this`buckets, this`repr, buckets
      ensures Valid() && fresh(repr - old(repr)) && cap == 2 * old(cap)
      ensures Rows() == Split(old(Rows()), old(cap), hash, 2 * old(cap))
    {
      hide Represents, Split, Rows, Shape, Owned;
      ghost var rows := Rows();
      RepresentsBounds(rows, cap, hash, contents);
      SplitRepresents(rows, cap, hash, contents);
      Rehash(2 * cap);
      cap := 2 * cap;
      repr := Owned();
    }

    // ---------- the operations ----------

    method AppendTo(b: nat, entry: Entry<K, V>)
      requires Shape() && b < |buckets|
      modifies buckets[b]
      ensures Shape() && Rows() == old(Rows())[b := old(Rows())[b] + [entry]]
    {
      buckets[b].Append(entry);
    }

    method OverwriteIn(b: nat, i: nat, value: V)
      requires Shape() && b < |buckets| && i < buckets[b].len
      modifies buckets[b]
      ensures Shape() && Rows() == old(Rows()[b := Rows()[b][i := Entry(Rows()[b][i].key, value)]])
    {
      buckets[b].Overwrite(i, value);
    }

    method RemoveFrom(b: nat, i: nat)
      requires Shape() && b < |buckets| && i < buckets[b].len
      modifies buckets[b]
      ensures Shape() && Rows() == old(Rows()[b := Removed(Rows()[b], i)])
    {
      buckets[b].Remove(i);
    }

    /** A new entry for a key that has none, at the end of the key's bucket. */
    method Add(b: nat, key: K, value: V)
      requires Valid() && key !in contents && cap > 0 && b == Slot(hash(key), cap) && b < |buckets|
      modifies this`len, this`contents, buckets[b]
      ensures Valid() && contents == old(contents)[key := value] && buckets == old(buckets)
    {
      hide Represents, Rows, Shape, Owned;
      AppendRepresents(Rows(), cap, hash, contents, key, value);
      AppendTo(b, Entry(key, value));
      len := len + 1;
      contents := contents[key := value];
    }

    /** A new value for a key that has an entry. */
    method Set(b: nat, i: nat, key: K, value: V)
      requires Valid() && At(b, i, key)
      modifies this`contents, buckets[b]
      ensures Valid() && contents == old(contents)[key := value]
    {
      hide Represents, Rows, Shape, Owned;
      ReplaceRepresents(Rows(), cap, hash, contents, key, i, value);
      OverwriteIn(b, i, value);
      contents := contents[key := value];
    }

    method Drop(b: nat, i: nat, key: K)
      requires Valid() && At(b, i, key)
      modifies this`len, this`contents, buckets[b]
      ensures Valid() && contents == old(contents) - {key}
    {
      hide Represents, Rows, Shape, Owned, Removed;
      RemoveRepresents(Rows(), cap, hash, contents, key, i);
      RemoveFrom(b, i);
      RemovedSize(contents, key);
      len := len - 1;
      contents := contents - {key};
    }

    method GrowIfFull()
      requires Valid()
      modifies this`buckets, this`repr, buckets
      ensures Valid() && fresh(repr - old(repr))
      ensures |buckets| == if len >= cap then 2 * cap else old(|buckets|)
    {
      if len >= cap {
        Resize();
      }
    }

    lemma OwnsBuckets()
      requires Valid()
      ensures forall b :: 0 <= b < |buckets| ==> buckets[b] in repr
    {
    }

    /** Where the entries are: those whose hash leaves the remainder `b` in bucket `b`, and none in the buckets from
        `cap` on. */
    lemma Placement(b: nat, e: Entry<K, V>)
      requires Valid() && b < |buckets|
      ensures cap > 0
      ensures e in Rows()[b] <==> e.key in contents && contents[e.key] == e.value && hash(e.key) % cap == b
    {
      PlacedByRemainder(Rows(), cap, hash, contents, b, e);
    }

    /** The entry of a key is in slot `i` of bucket `b`. */
    ghost predicate At(b: nat, i: nat, key: K)
      requires Valid()
      reads this, repr
    {
      && cap > 0 && b == Slot(hash(key), cap) && b < |buckets| && key in contents
      && i < buckets[b].len && i < |Rows()[b]| && Rows()[b][i] == Entry(key, contents[key])
    }

    /** Where a key is, or where it would go. */
    method Locate(key: K) returns (b: nat, i: nat, found: bool)
      requires Valid()
      ensures cap > 0 && b == Slot(hash(key), cap) && b < |buckets| && buckets[b] in repr
      ensures found == (key in contents) && (found ==> At(b, i, key))
    {
      hide Represents, Rows, Owned, TotalLength, Bucket.Items, Bucket.Valid;
      KeyInRow(Rows(), cap, hash, contents, key);
      b := Slot(hash(key), cap);
      OwnsBuckets();
      var bucket := buckets[b];
      assert Rows()[b] == bucket.Items();
      i := bucket.Find(key);
      ItemsLength(bucket);
      found := i < bucket.len;
    }

    method Insert(key: K, value: V)
      requires Valid()
      modifies repr
      ensures Valid() && fresh(repr - old(repr)) && cap == old(cap)
      ensures |buckets| == if old(len) >= cap then 2 * cap else old(|buckets|)
      ensures contents == old(contents)[key := value]
    {
      hide Valid, At;
      OwnsBuckets();
      GrowIfFull();
      var b, i, found := Locate(key);
      if found {
        Set(b, i, key, value);
      } else {
        Add(b, key, value);
      }
    }

    /** Returns whether the key was absent, in which case it is inserted. */
    method TryInsert(key: K, value: V) returns (ok: bool)
      requires Valid()
      modifies repr
      ensures Valid() && fresh(repr - old(repr)) && cap == old(cap)
      ensures |buckets| == if old(len) >= cap then 2 * cap else old(|buckets|)
      ensures ok == (key !in old(contents))
      ensures contents == if ok then old(contents)[key := value] else old(contents)
    {
      hide Valid, At;
      OwnsBuckets();
      GrowIfFull();
      var b, i, found := Locate(key);
      if found {
        return false;
      }
      Add(b, key, value);
      ok := true;
    }

    method Get(key: K) returns (r: Option<V>)
      requires Valid()
      ensures r == if key in contents then Some(contents[key]) else None
    {
      var b, i, found := Locate(key);
      hide Represents;
      r := if found then Some(buckets[b].entries[i].value.value) else None;
    }

    method Has(key: K) returns (found: bool)
      requires Valid()
      ensures found == (key in contents)
    {
      hide Valid, At;
      var b, i;
      b, i, found := Locate(key);
    }

    /** Returns whether the key was present, in which case it is removed. */
    method Delete(key: K) returns (ok: bool)
      requires Valid()
      modifies repr
      ensures Valid() && repr == old(repr) && cap == old(cap)
      ensures ok == (key in old(contents))
      ensures contents == old(contents) - {key}
    {
      hide Valid, At;
      var b, i, found := Locate(key);
      if !found {
        assert contents - {key} == contents;
        return false;
      }
      Drop(b, i, key);
      ok := true;
    }
  }

  lemma ItemsLength<K, V>(bucket: Bucket<K, V>)
    requires bucket.Valid()
    ensures |bucket.Items()| == bucket.len
  {
  }

  /** The rows when the loop has dealt with the first `i` old buckets. */
  ghost predicate SplitUpTo<K, V>(now: seq<Row<K, V>>, rows: seq<Row<K, V>>, cap: nat, hash: K -> nat, modulus: nat, i: nat)
  {
    && modulus > 0 && cap <= |rows| && |now| == 2 * cap
    && forall b :: 0 <= b < 2 * cap ==>
         now[b] == if Home(b, cap) < i then HashingTo(rows[Home(b, cap)], hash, modulus, b)
                   else if b < cap then rows[b] else []
  }

  lemma SplitStart<K, V>(now: seq<Row<K, V>>, rows: seq<Row<K, V>>, cap: nat, hash: K -> nat, modulus: nat)
    requires modulus > 0 && cap <= |rows| && |now| == 2 * cap
    requires (forall b :: 0 <= b < cap ==> now[b] == rows[b]) && (forall b :: cap <= b < 2 * cap ==> now[b] == [])
    ensures SplitUpTo(now, rows, cap, hash, modulus, 0)
  {
  }

  lemma SplitPending<K, V>(now: seq<Row<K, V>>, rows: seq<Row<K, V>>, cap: nat, hash: K -> nat, modulus: nat, i: nat)
    requires SplitUpTo(now, rows, cap, hash, modulus, i) && i < cap
    ensures modulus > 0 && cap <= |rows| && |now| == 2 * cap && now[i] == rows[i] && now[cap + i] == []
  {
  }

  lemma SplitNext<K, V>(before: seq<Row<K, V>>, now: seq<Row<K, V>>, rows: seq<Row<K, V>>, cap: nat, hash: K -> nat,
                        modulus: nat, i: nat)
    requires i < cap && SplitUpTo(before, rows, cap, hash, modulus, i) && |now| == 2 * cap
    requires now[i] == HashingTo(before[i], hash, modulus, i)
    requires now[cap + i] == HashingTo(before[i], hash, modulus, cap + i)
    requires forall b :: 0 <= b < 2 * cap && b != i && b != cap + i ==> now[b] == before[b]
    ensures SplitUpTo(now, rows, cap, hash, modulus, i + 1)
  {
    hide HashingTo;
  }

  lemma SplitEnd<K, V>(now: seq<Row<K, V>>, rows: seq<Row<K, V>>, cap: nat, hash: K -> nat, modulus: nat)
    requires SplitUpTo(now, rows, cap, hash, modulus, cap)
    ensures now == Split(rows, cap, hash, modulus)
  {
    hide HashingTo;
  }

  lemma RepresentsBounds<K, V>(rows: seq<Row<K, V>>, cap: nat, hash: K -> nat, m: map<K, V>)
    requires Represents(rows, cap, hash, m)
    ensures 0 < cap <= |rows|
  {
  }

  lemma HashesOfRow<K, V>(rows: seq<Row<K, V>>, cap: nat, hash: K -> nat, m: map<K, V>, modulus: nat, i: nat)
    requires Represents(rows, cap, hash, m) && i < cap && (modulus == cap || modulus == 2 * cap)
    ensures forall e | e in rows[i] :: Slot(hash(e.key), modulus) == i || Slot(hash(e.key), modulus) == cap + i
  {
    assert RowOf(rows[i], i, cap, hash, m);
    forall e | e in rows[i]
      ensures Slot(hash(e.key), modulus) == i || Slot(hash(e.key), modulus) == cap + i
    {
      DoubledModulus(hash(e.key), cap);
    }
  }

  /** Row `row` with its first `j` entries dealt with: those kept are packed at the front, holes follow
      up to `j`, and the rest is untouched. */
  ghost predicate Compacting<K, V>(entries: seq<Option<Entry<K, V>>>, len: nat, cap: nat, row: Row<K, V>, j: nat,
                                   kept: Row<K, V>)
  {
    && |kept| <= j <= |row| <= cap == |entries|
    && len == |kept| + |row| - j
    && (forall p :: 0 <= p < |kept| ==> entries[p] == Some(kept[p]))
    && (forall p :: |kept| <= p < j ==> entries[p] == None)
    && (forall p :: j <= p < |row| ==> entries[p] == Some(row[p]))
    && (forall p :: |row| <= p < cap ==> entries[p] == None)
  }

  lemma CompactingKeep<K, V>(entries: seq<Option<Entry<K, V>>>, len: nat, cap: nat, row: Row<K, V>, j: nat,
                             kept: Row<K, V>, k: nat)
    requires Compacting(entries, len, cap, row, j, kept) && j < |row|
    requires k <= j && (forall p :: 0 <= p < k ==> entries[p].Some?) && (k < j ==> entries[k] == None)
    ensures k == |kept|
    ensures Compacting(if k < j then entries[k := entries[j]][j := None] else entries, len, cap, row, j + 1,
                       kept + [row[j]])
  {
    assert |kept| < j ==> entries[|kept|] == None;
  }

  lemma HashingToStart<K, V>(row: Row<K, V>, hash: K -> nat, modulus: nat, b: nat)
    requires modulus > 0
    ensures HashingTo(row[..0], hash, modulus, b) == []
  {
  }

  lemma HashingToNext<K, V>(row: Row<K, V>, hash: K -> nat, modulus: nat, b: nat, j: nat)
    requires modulus > 0 && j < |row|
    ensures HashingTo(row[..j + 1], hash, modulus, b) ==
            HashingTo(row[..j], hash, modulus, b) + if Slot(hash(row[j].key), modulus) == b then [row[j]] else []
  {
    assert row[..j + 1][..j] == row[..j];
  }

  // ---------- whole runs ----------

  datatype Op<K, V> = Insert(key: K, value: V) | TryInsert(key: K, value: V) | Delete(key: K) | Get(key: K) | Has(key: K)

  datatype Answer<V> = Done | Whether(ok: bool) | Found(value: Option<V>)

  /** What each operation does to a finite map. */
  function MapAfter<K, V>(m: map<K, V>, op: Op<K, V>): map<K, V> {
    match op
    case Insert(k, v) => m[k := v]
    case TryInsert(k, v) => if k in m then m else m[k := v]
    case Delete(k) => m - {k}
    case Get(_) => m
    case Has(_) => m
  }

  function MapAnswer<K, V>(m: map<K, V>, op: Op<K, V>): Answer<V> {
    match op
    case Insert(_, _) => Done
    case TryInsert(k, _) => Whether(k !in m)
    case Delete(k) => Whether(k in m)
    case Get(k) => Found(if k in m then Some(m[k]) else None)
    case Has(k) => Whether(k in m)
  }

  function MapRun<K, V>(m: map<K, V>, ops: seq<Op<K, V>>): map<K, V> {
    if ops == [] then m else MapAfter(MapRun(m, ops[..|ops| - 1]), ops[|ops| - 1])
  }

  function MapAnswers<K, V>(m: map<K, V>, ops: seq<Op<K, V>>): (r: seq<Answer<V>>)
    ensures |r| == |ops|
  {
    if ops == [] then []
    else
      var n := |ops| - 1;
      MapAnswers(m, ops[..n]) + [MapAnswer(MapRun(m, ops[..n]), ops[n])]
  }

  method Apply<K(==), V>(t: Table<K, V>, op: Op<K, V>) returns (r: Answer<V>)
    requires t.Valid()
    modifies t.repr
    ensures t.Valid() && fresh(t.repr - old(t.repr))
    ensures t.contents == MapAfter(old(t.contents), op) && r == MapAnswer(old(t.contents), op)
  {
    hide Table.Valid;
    match op {
      case Insert(k, v) =>
        t.Insert(k, v);
        r := Done;
      case TryInsert(k, v) =>
        var ok := t.TryInsert(k, v);
        r := Whether(ok);
      case Delete(k) =>
        var ok := t.Delete(k);
        r := Whether(ok);
      case Get(k) =>
        var v := t.Get(k);
        r := Found(v);
      case Has(k) =>
        var ok := t.Has(k);
        r := Whether(ok);
    }
  }

  lemma MapRunNext<K, V>(m: map<K, V>, ops: seq<Op<K, V>>, i: nat)
    requires i < |ops|
    ensures MapRun(m, ops[..i + 1]) == MapAfter(MapRun(m, ops[..i]), ops[i])
    ensures MapAnswers(m, ops[..i + 1]) == MapAnswers(m, ops[..i]) + [MapAnswer(MapRun(m, ops[..i]), ops[i])]
  {
    assert ops[..i + 1][..i] == ops[..i];
  }

  /** Every run on a table, whatever it hashes with and however often it grows, is a run on a finite map:
      the same answers, and in the end the same bindings. */
  method Replay<K(==), V>(hash: K -> nat, ops: seq<Op<K, V>>) returns (t: Table<K, V>, answers: seq<Answer<V>>)
    ensures fresh(t) && t.Valid() && t.hash == hash
    ensures answers == MapAnswers(map[], ops) && t.contents == MapRun(map[], ops)
  {
    hide Table.Valid, MapAfter, MapAnswer;
    t := new Table(hash);
    answers := [];
    for i := 0 to |ops|
      invariant t.Valid() && fresh(t) && fresh(t.repr)
      invariant answers == MapAnswers(map[], ops[..i]) && t.contents == MapRun(map[], ops[..i])
    {
      MapRunNext(map[], ops, i);
      var r := Apply(t, ops[i]);
      answers := answers + [r];
    }
    assert ops[..|ops|] == ops;
  }
}
