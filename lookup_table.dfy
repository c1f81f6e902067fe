/**
 * The fixed-bucket hash map of threadsafe_lookup_table.hpp, run sequentially.
 * A table is an array of buckets fixed at construction; a key lives in bucket
 * `hasher(key) % buckets.Length`; each bucket is a list of (key, value) pairs.
 * The hash function is a parameter: the model assumes nothing about it.
 */
module LookupTable {
  import opened ListSpec
  import opened BucketSpec
  import opened ThreadsafeList

  /** `bucket_type`: one list of pairs, with each key at most once. */
  class Bucket<K(==), V> {
    const data: List<(K, V)>

    ghost predicate Valid()
      reads data, data.Repr
      ensures Valid() ==> data in data.Repr
    {
      data.Valid() && UniqueKeys(data.Contents)
    }

    constructor ()
      ensures Valid() && fresh(data.Repr)
      ensures data.Contents == []
    {
      data := new List();
    }

    /** The first pair with key `key`, or None. */
    method FindEntry(key: K) returns (entry: Option<(K, V)>)
      requires Valid()
      ensures entry.None? <==> Lookup(data.Contents, key).None?
      ensures entry.Some? ==> entry.value == (key, Lookup(data.Contents, key).value)
    {
      entry := data.FindFirstIf(KeyIs(key));
    }

    /** The value stored under `key`, or `dVal` when there is none. */
    method GetValue(key: K, dVal: V) returns (r: V)
      requires Valid()
      ensures r == match Lookup(data.Contents, key) case None => dVal case Some(v) => v
    {
      var entry := FindEntry(key);
      r := if entry.None? then dVal else entry.value.1;
    }

    /** Updates the pair with `key` in place, or inserts one at the front; true only on insertion. */
    method SetEntry(key: K, value: V) returns (inserted: bool)
      requires Valid()
      modifies data.Repr
      ensures Valid() && fresh(data.Repr - old(data.Repr))
      ensures inserted <==> Lookup(old(data.Contents), key).None?
      ensures data.Contents == Assign(old(data.Contents), key, value)
    {
      var entry := FindEntry(key);
      AssignUnique(data.Contents, key, value);
      if entry.None? {
        data.PushFront((key, value));
        inserted := true;
      } else {
        var updated := data.UpdateIf((entry.value.0, value), KeyIs(key));
        inserted := false;
      }
    }

    /** Removes every pair with `key`. */
    method DeleteEntry(key: K)
      requires Valid()
      modifies data.Repr
      ensures Valid() && data.Repr <= old(data.Repr)
      ensures data.Contents == Without(KeyIs(key), old(data.Contents))
    {
      RemoveUnique(data.Contents, key);
      data.RemoveIf(KeyIs(key));
    }
  }


  /** `threadsafe_lookup_table`: the buckets, the hash function and the abstract map `M` they represent. */
  class Table<K(==, !new), V> {
    const buckets: array<Bucket?<K, V>>
    const hasher: K -> nat
    const nbuckets: nat
    // the abstract map the table stands for
    ghost var M: map<K, V>
    // the pairs of each bucket, slot by slot
    ghost var Slots: seq<seq<(K, V)>>
    ghost var Repr: set<object>

    /** `get_bucket`'s index: `hasher(key) % buckets.size()`, always a valid bucket. */
    function BucketIndex(key: K): (i: nat)
      requires buckets.Length > 0
      ensures i < buckets.Length
    {
      hasher(key) % buckets.Length
    }

    /** The table's invariant: every slot filled with a separate bucket, and the pairs represent `M`. */
    ghost predicate Valid()
      reads this, Repr, buckets
    {
      && nbuckets == buckets.Length > 0
      && Filled(buckets.Length)
      && Represents(Slots, M)
    }

    /** Slots `0 .. n-1` hold valid, pairwise separate buckets. */
    ghost predicate Filled(n: int)
      reads this, Repr, buckets
    {
      && this in Repr && buckets in Repr
      && |Slots| == buckets.Length
      && 0 <= n <= buckets.Length
      && (forall i :: 0 <= i < n ==> SlotValid(i))
      && (forall i, j :: 0 <= i < n && 0 <= j < n && i != j ==> Apart(i, j))
    }

    /** Slot `i` holds a valid bucket inside `Repr` whose pairs are `Slots[i]`. */
    ghost predicate SlotValid(i: int)
      reads this, Repr, buckets
      requires 0 <= i < buckets.Length
    {
      && i < |Slots|
      && buckets[i] != null
      && buckets[i].data in Repr
      && buckets[i].data.Repr <= Repr
      && this !in buckets[i].data.Repr
      && buckets !in buckets[i].data.Repr
      && buckets[i].Valid()
      && buckets[i].data.Contents == Slots[i]
    }

    /** Buckets `i` and `j` share no object. */
    ghost predicate Apart(i: int, j: int)
      reads this, Repr, buckets
      requires 0 <= i < buckets.Length && 0 <= j < buckets.Length
    {
      && buckets[i] != null && buckets[j] != null
      && buckets[i].data in Repr && buckets[j].data in Repr
      && buckets[i].data.Repr !! buckets[j].data.Repr
    }

    /**
     * The slots represent `m`: every pair sits in the slot its key hashes to,
     * and looking a key up in its own slot gives exactly what `m` holds for it.
     */
    ghost predicate Represents(slots: seq<seq<(K, V)>>, m: map<K, V>)
    {
      && buckets.Length > 0
      && |slots| == buckets.Length
      && (forall i, j :: 0 <= i < |slots| && 0 <= j < |slots[i]| ==> BucketIndex(slots[i][j].0) == i)
      && (forall k {:trigger Lookup(slots[BucketIndex(k)], k)} ::
            Lookup(slots[BucketIndex(k)], k) == if k in m then Some(m[k]) else None)
    }

    /** Setting `key` in its own slot represents the map with `key` set. */
    lemma RepresentsAssign(slots: seq<seq<(K, V)>>, m: map<K, V>, key: K, value: V)
      requires Represents(slots, m)
      ensures Represents(slots[BucketIndex(key) := Assign(slots[BucketIndex(key)], key, value)], m[key := value])
    {
      var idx := BucketIndex(key);
      var slots' := slots[idx := Assign(slots[idx], key, value)];
      forall k {:trigger Lookup(slots'[BucketIndex(k)], k)}
        ensures Lookup(slots'[BucketIndex(k)], k) == if k in m[key := value] then Some(m[key := value][k]) else None
      {
        if BucketIndex(k) == idx {
          AssignLookup(slots[idx], key, value, k);
        }
      }
    }

    /** Deleting `key` from its own slot represents the map without `key`. */
    lemma RepresentsRemove(slots: seq<seq<(K, V)>>, m: map<K, V>, key: K)
      requires Represents(slots, m)
      ensures Represents(slots[BucketIndex(key) := Without(KeyIs(key), slots[BucketIndex(key)])], m - {key})
    {
      var idx := BucketIndex(key);
      var slots' := slots[idx := Without(KeyIs(key), slots[idx])];
      forall k {:trigger Lookup(slots'[BucketIndex(k)], k)}
        ensures Lookup(slots'[BucketIndex(k)], k) == if k in m - {key} then Some((m - {key})[k]) else None
      {
        if BucketIndex(k) == idx {
          RemoveLookup(slots[idx], key, k);
        }
      }
    }

    /** Allocates `numBuckets` empty buckets, filling the vector one slot at a time. */
    constructor (numBuckets: nat, hasher: K -> nat)
      requires numBuckets > 0
      ensures Valid() && fresh(Repr)
      ensures nbuckets == numBuckets && this.hasher == hasher
      ensures M == map[]
      ensures forall i :: 0 <= i < |Slots| ==> Slots[i] == []
    {
      buckets := new Bucket?<K, V>[numBuckets];
      this.hasher := hasher;
      nbuckets := numBuckets;
      new;
      M := map[];
      Slots := seq(numBuckets, _ => []);
      Repr := {this, buckets};
      for i := 0 to numBuckets
        invariant Filled(i) && fresh(Repr)
        invariant M == map[] && Slots == seq(numBuckets, _ => [])
      {
        Fill(i);
      }
    }

    /** Puts a fresh empty bucket into slot `i`: one step of the constructor's loop. */
    method Fill(i: nat)
      requires Filled(i) && i < buckets.Length && Slots[i] == []
      modifies this, buckets
      ensures Filled(i + 1) && fresh(Repr - old(Repr))
      ensures M == old(M) && Slots == old(Slots)
    {
      var b := new Bucket();
      buckets[i], Repr := b, Repr + b.data.Repr;
      FillStep(i);
    }

    /** A fresh valid bucket in slot `i`, with nothing else changed, extends `Filled` by one slot. */
    twostate lemma FillStep(i: nat)
      requires old(Filled(i)) && i < buckets.Length
      requires forall o: object :: o in old(Repr) && o != this && o != buckets ==> unchanged(o)
      requires forall j :: 0 <= j < buckets.Length && j != i ==> buckets[j] == old(buckets[j])
      requires buckets[i] != null && buckets[i].Valid() && fresh(buckets[i].data.Repr)
      requires Slots == old(Slots) && buckets[i].data.Contents == Slots[i]
      requires Repr == old(Repr) + buckets[i].data.Repr
      ensures Filled(i + 1)
    {
      forall j | 0 <= j <= i
        ensures SlotValid(j)
      {
        if j < i {
          assert old(SlotValid(j));
          assert buckets[j].data.Repr == old(buckets[j].data.Repr);
        }
      }
      forall j, j' | 0 <= j <= i && 0 <= j' <= i && j != j'
        ensures Apart(j, j')
      {
        if j < i && j' < i {
          assert old(SlotValid(j)) && old(SlotValid(j')) && old(Apart(j, j'));
          assert buckets[j].data.Repr == old(buckets[j].data.Repr);
          assert buckets[j'].data.Repr == old(buckets[j'].data.Repr);
        } else {
          var other := if j == i then j' else j;
          assert old(SlotValid(other));
          forall o | o in buckets[other].data.Repr
            ensures o !in buckets[i].data.Repr
          {
            assert old(allocated(o));
          }
        }
      }
    }

    /** The value stored under `key`, or `dVal`. */
    method GetValue(key: K, dVal: V) returns (r: V)
      requires Valid()
      ensures r == if key in M then M[key] else dVal
    {
      var idx := BucketIndex(key);
      assert SlotValid(idx);
      r := buckets[idx].GetValue(key, dVal);
    }

    /** Sets `key` to `value`, touching only its own bucket; true when the key was new. */
    method SetEntry(key: K, value: V) returns (inserted: bool)
      requires Valid()
      modifies Repr
      ensures Valid() && fresh(Repr - old(Repr))
      ensures inserted <==> key !in old(M)
      ensures M == old(M)[key := value]
      ensures Slots == old(Slots)[BucketIndex(key) := Assign(old(Slots)[BucketIndex(key)], key, value)]
    {
      var idx := BucketIndex(key);
      assert SlotValid(idx);
      var b := buckets[idx];
      ghost var before := b.data.Contents;
      assert Lookup(before, key).None? <==> key !in M;
      inserted := b.SetEntry(key, value);
      assert inserted <==> key !in old(M);
      RepresentsAssign(Slots, M, key, value);
      M, Slots, Repr := M[key := value], Slots[idx := b.data.Contents], Repr + b.data.Repr;
      ValidAfterBucketChange(idx);
    }

    /** Removes every pair with `key`, touching only its own bucket. */
    method DeleteEntry(key: K)
      requires Valid()
      modifies Repr
      ensures Valid() && Repr == old(Repr)
      ensures M == old(M) - {key}
      ensures Slots == old(Slots)[BucketIndex(key) := Without(KeyIs(key), old(Slots)[BucketIndex(key)])]
    {
      var idx := BucketIndex(key);
      assert SlotValid(idx);
      var b := buckets[idx];
      b.DeleteEntry(key);
      RepresentsRemove(Slots, M, key);
      M, Slots := M - {key}, Slots[idx := b.data.Contents];
      ValidAfterBucketChange(idx);
    }

    /**
     * Once bucket `idx` alone has changed (its own objects, plus fresh ones) and
     * `Slots`, `M` and `Repr` have been brought up to date, the invariant holds again.
     */
    twostate lemma ValidAfterBucketChange(idx: nat)
      requires old(Valid()) && idx < buckets.Length && old(buckets[idx]) != null && buckets[idx] == old(buckets[idx])
      requires forall o: object :: o in old(Repr) && o != this && o !in old(buckets[idx].data.Repr) ==> unchanged(o)
      requires buckets[idx].Valid() && fresh(buckets[idx].data.Repr - old(buckets[idx].data.Repr))
      requires Slots == old(Slots)[idx := buckets[idx].data.Contents]
      requires Repr == old(Repr) + buckets[idx].data.Repr
      requires Represents(Slots, M)
      ensures Valid()
    {
      assert old(SlotValid(idx));
      forall i | 0 <= i < buckets.Length
        ensures SlotValid(i)
      {
        assert old(SlotValid(i));
        if i != idx {
          assert old(Apart(i, idx));
        }
      }
      forall i, j | 0 <= i < buckets.Length && 0 <= j < buckets.Length && i != j
        ensures Apart(i, j)
      {
        if i == idx || j == idx {
          var other := if i == idx then j else i;
          assert old(SlotValid(other)) && old(Apart(idx, other));
          assert buckets[other].data.Repr == old(buckets[other].data.Repr);
          forall o | o in buckets[other].data.Repr
            ensures o !in buckets[idx].data.Repr
          {
            assert old(allocated(o));
          }
        } else {
          assert old(SlotValid(i)) && old(SlotValid(j)) && old(Apart(i, j));
          assert old(Apart(i, idx)) && old(Apart(j, idx));
          assert buckets[i].data.Repr == old(buckets[i].data.Repr);
          assert buckets[j].data.Repr == old(buckets[j].data.Repr);
        }
      }
    }
  }

  /**
   * Nineteen buckets (the constructor's default count); "a" is set, "b" is set,
   * then "a" is set again, and "a", "b" and the absent "c" are read back with
   * default -1. Whatever the hash function, the third set only updates.
   */
  method Example(hasher: string -> nat) returns (inserted: seq<bool>, a: int, b: int, c: int)
    ensures inserted == [true, true, false]
    ensures a == 3 && b == 2 && c == -1
  {
    var t;
    t, inserted := ExampleSets(hasher);
    a := t.GetValue("a", -1);
    b := t.GetValue("b", -1);
    c := t.GetValue("c", -1);
  }

  /** The three `set_entry` calls of `Example`, on a fresh 19-bucket table. */
  method ExampleSets(hasher: string -> nat) returns (t: Table<string, int>, inserted: seq<bool>)
    ensures t.Valid() && t.M == map["a" := 3, "b" := 2]
    ensures inserted == [true, true, false]
  {
    t := new Table<string, int>(19, hasher);
    var first := t.SetEntry("a", 1);
    var second := t.SetEntry("b", 2);
    var third := t.SetEntry("a", 3);
    inserted := [first, second, third];
  }
}
