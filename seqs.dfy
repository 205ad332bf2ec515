/**
 * Sequence operations the queries are specified with: filtering, first and
 * last match, concatenation of parts, and loading every element or stopping
 * at the first failure. Each is the specification of a Go loop over a slice.
 */
module Seqs {
  import opened Wrappers

  /** The elements of `s` that satisfy `p`, in their original order. */
  function Filter<T>(s: seq<T>, p: T -> bool): (r: seq<T>)
    ensures |r| <= |s|
    ensures forall i :: 0 <= i < |r| ==> r[i] in s && p(r[i])
    ensures forall i :: 0 <= i < |s| && p(s[i]) ==> s[i] in r
  {
    if s == [] then []
    else
      var init, last := s[..|s| - 1], s[|s| - 1];
      assert s == init + [last];
      Filter(init, p) + (if p(last) then [last] else [])
  }

  /** `a` is `b` with some elements left out and the rest kept in order. */
  predicate IsSubsequence<T(==)>(a: seq<T>, b: seq<T>)
    decreases |b|
  {
    if a == [] then true
    else if b == [] then false
    else (a[|a| - 1] == b[|b| - 1] && IsSubsequence(a[..|a| - 1], b[..|b| - 1]))
         || IsSubsequence(a, b[..|b| - 1])
  }

  /** Filtering keeps the surviving elements in order and takes each at most once. */
  lemma {:induction false} FilterIsSubsequence<T>(s: seq<T>, p: T -> bool)
    ensures IsSubsequence(Filter(s, p), s)
  {
    if s != [] {
      var init, last := s[..|s| - 1], s[|s| - 1];
      FilterIsSubsequence(init, p);
      var r := Filter(s, p);
      if p(last) {
        assert r == Filter(init, p) + [last];
        assert r[..|r| - 1] == Filter(init, p);
      } else {
        assert r == Filter(init, p);
        SubsequenceOfPrefix(r, init, last);
      }
    }
  }

  lemma SubsequenceOfPrefix<T>(a: seq<T>, b: seq<T>, x: T)
    requires IsSubsequence(a, b)
    ensures IsSubsequence(a, b + [x])
  {
  }

  /** An element occurs in the filtered sequence exactly as often as in `s` when it passes, and never otherwise. */
  lemma {:induction false} FilterCount<T>(s: seq<T>, p: T -> bool, x: T)
    ensures multiset(Filter(s, p))[x] == if p(x) then multiset(s)[x] else 0
  {
    if s != [] {
      var init, last := s[..|s| - 1], s[|s| - 1];
      assert s == init + [last];
      FilterCount(init, p, x);
    }
  }

  /** The index of the first element of `s` satisfying `p`. */
  function FirstIndex<T>(s: seq<T>, p: T -> bool): (o: Option<nat>)
    ensures o.Some? ==> o.value < |s| && p(s[o.value])
    ensures o.Some? ==> forall j :: 0 <= j < o.value ==> !p(s[j])
    ensures o.None? <==> forall j :: 0 <= j < |s| ==> !p(s[j])
  {
    if s == [] then None
    else if p(s[0]) then Some(0)
    else match FirstIndex(s[1..], p)
      case None => None
      case Some(k) => Some(k + 1)
  }

  /** The index of the last element of `s` satisfying `p`. */
  function LastIndex<T>(s: seq<T>, p: T -> bool): (o: Option<nat>)
    ensures o.Some? ==> o.value < |s| && p(s[o.value])
    ensures o.Some? ==> forall j :: o.value < j < |s| ==> !p(s[j])
    ensures o.None? <==> forall j :: 0 <= j < |s| ==> !p(s[j])
  {
    if s == [] then None
    else if p(s[|s| - 1]) then Some(|s| - 1)
    else LastIndex(s[..|s| - 1], p)
  }

  /** Apply `load` to every element in order; the first failure is the result. */
  function LoadAll<K, T, E>(keys: seq<K>, load: K -> Result<T, E>): (r: Result<seq<T>, E>)
    ensures r.Ok? ==> |r.value| == |keys|
  {
    if keys == [] then Ok([])
    else
      var init, last := keys[..|keys| - 1], keys[|keys| - 1];
      match LoadAll(init, load)
      case Err(e) => Err(e)
      case Ok(vs) =>
        match load(last)
        case Err(e) => Err(e)
        case Ok(v) => Ok(vs + [v])
  }

  /** Loading succeeds iff every key loads, and then yields each key's value at its position. */
  lemma {:induction false} LoadAllSucceeds<K, T, E>(keys: seq<K>, load: K -> Result<T, E>)
    ensures LoadAll(keys, load).Ok? <==> forall i :: 0 <= i < |keys| ==> load(keys[i]).Ok?
    ensures LoadAll(keys, load).Ok? ==> forall i :: 0 <= i < |keys| ==> load(keys[i]) == Ok(LoadAll(keys, load).value[i])
  {
    if keys != [] {
      var init, last := keys[..|keys| - 1], keys[|keys| - 1];
      LoadAllSucceeds(init, load);
      assert forall i :: 0 <= i < |init| ==> init[i] == keys[i];
    }
  }

  /** A failed load carries the error of the first key that fails. */
  lemma {:induction false} LoadAllFails<K, T, E>(keys: seq<K>, load: K -> Result<T, E>)
    ensures var r := LoadAll(keys, load);
            r.Err? ==> exists i :: 0 <= i < |keys| && load(keys[i]) == Err(r.error)
                                   && forall j :: 0 <= j < i ==> load(keys[j]).Ok?
  {
    if keys != [] {
      var init, last := keys[..|keys| - 1], keys[|keys| - 1];
      LoadAllFails(init, load);
      LoadAllSucceeds(init, load);
      assert forall i :: 0 <= i < |init| ==> init[i] == keys[i];
      if LoadAll(init, load).Ok? && load(last).Err? {
        assert load(keys[|keys| - 1]) == Err(LoadAll(keys, load).error);
      }
    }
  }

  /** Loading one more key that loads extends the loaded prefix by its value. */
  lemma LoadAllExtend<K, T, E>(keys: seq<K>, load: K -> Result<T, E>, j: nat)
    requires j < |keys| && LoadAll(keys[..j], load).Ok? && load(keys[j]).Ok?
    ensures LoadAll(keys[..j + 1], load) == Ok(LoadAll(keys[..j], load).value + [load(keys[j]).value])
  {
    assert keys[..j + 1][..j] == keys[..j];
  }

  /** Filtering a sequence extended by one element. */
  lemma FilterExtend<T>(s: seq<T>, x: T, p: T -> bool)
    ensures Filter(s + [x], p) == Filter(s, p) + (if p(x) then [x] else [])
  {
  }

  /** When the keys before `i` load and key `i` fails, loading all of them fails with key `i`'s error. */
  lemma LoadAllFirstFailure<K, T, E>(keys: seq<K>, load: K -> Result<T, E>, i: nat)
    requires i < |keys| && LoadAll(keys[..i], load).Ok? && load(keys[i]).Err?
    ensures LoadAll(keys, load) == Err(load(keys[i]).error)
  {
    LoadAllSucceeds(keys[..i], load);
    assert forall j :: 0 <= j < i ==> keys[..i][j] == keys[j];
    var r := LoadAll(keys, load);
    LoadAllSucceeds(keys, load);
    LoadAllFails(keys, load);
    assert r.Err?;
    var k :| 0 <= k < |keys| && load(keys[k]) == Err(r.error)
              && forall j :: 0 <= j < k ==> load(keys[j]).Ok?;
    assert k == i;
  }
}
