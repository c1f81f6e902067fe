/**
 * Value-level specification of the operations of the sentinel-headed list
 * (threadsafe_list.hpp). The imperative list in list.dfy is proved against
 * these functions; the lemmas here state what the functions mean.
 */
module ListSpec {

  /** A possibly absent value: the model of a `shared_ptr` that may be null. */
  datatype Option<T> = None | Some(value: T)

  /** The position of the first element of `s` that satisfies `p`, if any. */
  function FirstIndex<T>(p: T -> bool, s: seq<T>): (r: Option<nat>)
    ensures r.None? <==> forall i :: 0 <= i < |s| ==> !p(s[i])
    ensures r.Some? ==> r.value < |s| && p(s[r.value])
    ensures r.Some? ==> forall j :: 0 <= j < r.value ==> !p(s[j])
  {
    if s == [] then None
    else if p(s[0]) then Some(0)
    else
      match FirstIndex(p, s[1..])
      case None =>
        assert forall i :: 1 <= i < |s| ==> s[i] == s[1..][i - 1];
        None
      case Some(i) =>
        assert forall j :: 1 <= j <= i ==> s[j] == s[1..][j - 1];
        Some(i + 1)
  }

  /** The first element of `s` that satisfies `p`, if any: what `find_first_if` yields. */
  function FirstMatch<T>(p: T -> bool, s: seq<T>): (r: Option<T>)
    ensures r.None? <==> forall i :: 0 <= i < |s| ==> !p(s[i])
    ensures r.Some? ==>
      exists i :: 0 <= i < |s| && s[i] == r.value && p(s[i]) && forall j :: 0 <= j < i ==> !p(s[j])
  {
    match FirstIndex(p, s)
    case None => None
    case Some(i) => Some(s[i])
  }

  /** `s` with every element satisfying `p` dropped, the others kept in order: what `remove_if` leaves. */
  function Without<T>(p: T -> bool, s: seq<T>): (r: seq<T>)
    ensures |r| <= |s|
    ensures forall i :: 0 <= i < |r| ==> !p(r[i])
    ensures forall i :: 0 <= i < |r| ==> r[i] in s
    ensures forall i :: 0 <= i < |s| && !p(s[i]) ==> s[i] in r
  {
    if s == [] then []
    else if p(s[0]) then Without(p, s[1..])
    else [s[0]] + Without(p, s[1..])
  }

  /** One step of a removal pass that has already settled the prefix `done`. */
  lemma WithoutStep<T>(p: T -> bool, done: seq<T>, rest: seq<T>)
    requires rest != []
    ensures p(rest[0]) ==> done + Without(p, rest[1..]) == done + Without(p, rest)
    ensures !p(rest[0]) ==> (done + [rest[0]]) + Without(p, rest[1..]) == done + Without(p, rest)
  {
  }

  /** Removing from a sequence with no matching element changes nothing (in particular the empty list). */
  lemma {:induction false} WithoutNoMatch<T>(p: T -> bool, s: seq<T>)
    requires forall i :: 0 <= i < |s| ==> !p(s[i])
    ensures Without(p, s) == s
  {
    if s != [] {
      assert forall i :: 0 <= i < |s[1..]| ==> s[1..][i] == s[i + 1];
      WithoutNoMatch(p, s[1..]);
      assert s == [s[0]] + s[1..];
    }
  }

  /** A second removal with the same predicate changes nothing. */
  lemma WithoutIdempotent<T>(p: T -> bool, s: seq<T>)
    ensures Without(p, Without(p, s)) == Without(p, s)
  {
  }

  /** Removal works element by element: the kept elements stay in their relative order. */
  lemma {:induction false} WithoutAppend<T>(p: T -> bool, a: seq<T>, b: seq<T>)
    ensures Without(p, a + b) == Without(p, a) + Without(p, b)
  {
    if a == [] {
      assert a + b == b;
    } else {
      assert (a + b)[0] == a[0];
      assert (a + b)[1..] == a[1..] + b;
      WithoutAppend(p, a[1..], b);
    }
  }
}
