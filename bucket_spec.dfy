/**
 * Value-level specification of one bucket of threadsafe_lookup_table.hpp:
 * a sequence of (key, value) pairs searched front to back by key equality.
 * `Lookup` is what `get_value` reads, `Assign` what `set_entry` leaves and
 * `Without(KeyIs(key), _)` what `delete_entry` leaves.
 */
module BucketSpec {
  import opened ListSpec

  /** The predicate the bucket hands to the list: "this pair has key `key`". */
  function KeyIs<K(==), V>(key: K): ((K, V)) -> bool
  {
    (entry: (K, V)) => entry.0 == key
  }

  /** The value of the first pair with key `key`, if any. */
  function Lookup<K(==), V>(s: seq<(K, V)>, key: K): (r: Option<V>)
    ensures r.None? <==> forall i :: 0 <= i < |s| ==> s[i].0 != key
    ensures r.Some? ==>
      exists i :: 0 <= i < |s| && s[i] == (key, r.value) && forall j :: 0 <= j < i ==> s[j].0 != key
  {
    match FirstMatch(KeyIs(key), s)
    case None => None
    case Some(entry) => Some(entry.1)
  }

  /** Each key occurs at most once. */
  ghost predicate UniqueKeys<K, V>(s: seq<(K, V)>)
  {
    forall i, j :: 0 <= i < j < |s| ==> s[i].0 != s[j].0
  }

  /**
   * The bucket after setting `key` to `value`: the first pair with `key` gets
   * the new value in place; without one, a new pair goes to the front.
   */
  function Assign<K(==), V>(s: seq<(K, V)>, key: K, value: V): (r: seq<(K, V)>)
    ensures |r| == if Lookup(s, key).None? then |s| + 1 else |s|
    ensures forall j :: 0 <= j < |r| ==> r[j] == (key, value) || r[j] in s
  {
    match FirstIndex(KeyIs(key), s)
    case None => [(key, value)] + s
    case Some(i) => s[i := (key, value)]
  }

  /** The first pair with key `key` sits at position `i`, so `Lookup` finds its value. */
  lemma LookupAt<K, V>(s: seq<(K, V)>, key: K, i: nat)
    requires i < |s| && s[i].0 == key
    requires forall j :: 0 <= j < i ==> s[j].0 != key
    ensures Lookup(s, key) == Some(s[i].1)
  {
  }

  /** On a bucket with unique keys, every pair is what `Lookup` returns for its key. */
  lemma LookupUnique<K, V>(s: seq<(K, V)>, i: nat)
    requires UniqueKeys(s) && i < |s|
    ensures Lookup(s, s[i].0) == Some(s[i].1)
  {
  }

  /** `Lookup` unfolded by one pair. */
  lemma LookupCons<K, V>(s: seq<(K, V)>, key: K)
    requires s != []
    ensures Lookup(s, key) == if s[0].0 == key then Some(s[0].1) else Lookup(s[1..], key)
  {
  }

  /** After `Assign`, `key` maps to `value` and every other key keeps its lookup result. */
  lemma AssignLookup<K, V>(s: seq<(K, V)>, key: K, value: V, other: K)
    ensures Lookup(Assign(s, key, value), other) == if other == key then Some(value) else Lookup(s, other)
  {
    var t := Assign(s, key, value);
    match FirstIndex(KeyIs(key), s)
    case None =>
      assert t == [(key, value)] + s;
      LookupCons(t, other);
      assert t[1..] == s;
    case Some(i) =>
      assert t == s[i := (key, value)];
      assert s[i].0 == key;
      assert forall j :: 0 <= j < i ==> s[j].0 != key;
      if other == key {
        LookupAt(t, key, i);
      } else {
        match Lookup(s, other)
        case None =>
          assert forall j :: 0 <= j < |t| ==> t[j].0 != other;
        case Some(w) =>
          var k :| 0 <= k < |s| && s[k] == (other, w) && forall j :: 0 <= j < k ==> s[j].0 != other;
          LookupAt(t, other, k);
      }
  }

  /** `Assign` keeps keys unique: it only inserts a key that is not there yet. */
  lemma AssignUnique<K, V>(s: seq<(K, V)>, key: K, value: V)
    requires UniqueKeys(s)
    ensures UniqueKeys(Assign(s, key, value))
  {
  }

  /** After deleting `key` no pair has it, and every other key keeps its lookup result. */
  lemma {:induction false} RemoveLookup<K, V>(s: seq<(K, V)>, key: K, other: K)
    ensures Lookup(Without(KeyIs(key), s), other) == if other == key then None else Lookup(s, other)
  {
    var t := Without(KeyIs(key), s);
    if other == key {
      assert forall j :: 0 <= j < |t| ==> !KeyIs(key)(t[j]);
    } else if s != [] {
      RemoveLookup(s[1..], key, other);
      LookupCons(s, other);
      if s[0].0 != key {
        assert t == [s[0]] + Without(KeyIs(key), s[1..]);
        LookupCons(t, other);
        assert t[1..] == Without(KeyIs(key), s[1..]);
      }
    }
  }

  /** Deleting keeps keys unique. */
  lemma {:induction false} RemoveUnique<K, V>(s: seq<(K, V)>, key: K)
    requires UniqueKeys(s)
    ensures UniqueKeys(Without(KeyIs(key), s))
  {
    if s != [] {
      var rest := Without(KeyIs(key), s[1..]);
      assert UniqueKeys(s[1..]) by {
        assert forall j :: 0 <= j < |s[1..]| ==> s[1..][j] == s[j + 1];
      }
      RemoveUnique(s[1..], key);
      if s[0].0 != key {
        assert forall j :: 0 <= j < |rest| ==> rest[j] in s[1..];
        UniqueCons(s[0], rest);
      }
    }
  }

  /** A pair whose key the unique-keyed rest does not use can go in front. */
  lemma UniqueCons<K, V>(entry: (K, V), rest: seq<(K, V)>)
    requires UniqueKeys(rest)
    requires forall j :: 0 <= j < |rest| ==> rest[j].0 != entry.0
    ensures UniqueKeys([entry] + rest)
  {
  }

  /** Deleting a key that is absent changes nothing. */
  lemma RemoveAbsent<K, V>(s: seq<(K, V)>, key: K)
    requires Lookup(s, key).None?
    ensures Without(KeyIs(key), s) == s
  {
  }

  /** A second delete of the same key changes nothing. */
  lemma RemoveIdempotent<K, V>(s: seq<(K, V)>, key: K)
    ensures Without(KeyIs(key), Without(KeyIs(key), s)) == Without(KeyIs(key), s)
  {
  }
}
