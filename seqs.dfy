/**
 * The shapes of the program's loops over lists: stopping at the first
 * element that passes a test, appending a value for each element that
 * passes a test, and appending whole lists one after another. Each is
 * written as the loop runs it, one element at a time from the front, so
 * that each step of a loop is one step of the recursion.
 */
module Seqs {
  import opened Wrappers

  /** The position of the first element of xs that passes p, if any. */
  function FirstWhere<T>(xs: seq<T>, p: T -> bool): (r: Option<nat>)
    ensures r.Some? ==> r.value < |xs| && p(xs[r.value])
    ensures r.Some? ==> forall j :: 0 <= j < r.value ==> !p(xs[j])
    ensures r.None? ==> forall j :: 0 <= j < |xs| ==> !p(xs[j])
    decreases |xs|
  {
    if xs == [] then None
    else if p(xs[0]) then Some(0)
    else
      match FirstWhere(xs[1..], p)
      case None => None
      case Some(k) =>
        assert forall j :: 1 <= j <= k ==> xs[j] == xs[1..][j - 1];
        Some(k + 1)
  }

  /** None of the first k elements of xs passes p, counted as a loop sees
      them, one more each step. */
  predicate NoneBefore<T>(xs: seq<T>, p: T -> bool, k: nat)
    requires k <= |xs|
    decreases k
  {
    k == 0 || (NoneBefore(xs, p, k - 1) && !p(xs[k - 1]))
  }

  lemma {:induction false} NoneBeforeAll<T>(xs: seq<T>, p: T -> bool, k: nat)
    requires k <= |xs| && NoneBefore(xs, p, k)
    ensures forall j :: 0 <= j < k ==> !p(xs[j])
    decreases k
  {
    if k > 0 {
      NoneBeforeAll(xs, p, k - 1);
    }
  }

  /** A loop that stops at the first k that passes stops where FirstWhere says. */
  lemma FirstWhereAt<T>(xs: seq<T>, p: T -> bool, k: nat)
    requires k < |xs| && p(xs[k]) && NoneBefore(xs, p, k)
    ensures FirstWhere(xs, p) == Some(k)
  {
    NoneBeforeAll(xs, p, k);
    var r := FirstWhere(xs, p);
    assert r.Some?;
    assert !(r.value < k);
    assert !(k < r.value);
  }

  /** A loop that finds no element that passes runs to the end. */
  lemma FirstWhereNone<T>(xs: seq<T>, p: T -> bool)
    requires NoneBefore(xs, p, |xs|)
    ensures FirstWhere(xs, p) == None
  {
    NoneBeforeAll(xs, p, |xs|);
  }
  /** Two tests that agree everywhere stop at the same element. */
  lemma {:induction false} FirstWhereSame<T>(xs: seq<T>, p: T -> bool, q: T -> bool)
    requires forall x :: p(x) == q(x)
    ensures FirstWhere(xs, p) == FirstWhere(xs, q)
    decreases |xs|
  {
    if xs != [] {
      FirstWhereSame(xs[1..], p, q);
    }
  }

  /** The loop that tries the elements of xs in order and breaks at the first
      one that passes test. */
  method FindFirst<T>(xs: seq<T>, test: T -> bool) returns (r: Option<nat>)
    ensures r == FirstWhere(xs, test)
  {
    var k := 0;
    while k < |xs|
      invariant 0 <= k <= |xs| && NoneBefore(xs, test, k)
    {
      if test(xs[k]) {
        FirstWhereAt(xs, test, k);
        return Some(k);
      }
      k := k + 1;
    }
    FirstWhereNone(xs, test);
    return None;
  }

  /** f of every element of xs that passes keep, in order. */
  function FilterMap<T, U>(xs: seq<T>, keep: T -> bool, f: T -> U): (r: seq<U>)
    ensures |r| <= |xs|
    decreases |xs|
  {
    if xs == [] then []
    else
      var done := FilterMap(xs[..|xs| - 1], keep, f);
      var x := xs[|xs| - 1];
      if keep(x) then done + [f(x)] else done
  }

  /** A value is in FilterMap's result iff it is f of an element that passes. */
  lemma {:induction false} FilterMapIff<T, U>(xs: seq<T>, keep: T -> bool, f: T -> U, u: U)
    ensures u in FilterMap(xs, keep, f) <==> exists k :: 0 <= k < |xs| && keep(xs[k]) && u == f(xs[k])
    decreases |xs|
  {
    if xs != [] {
      var n := |xs| - 1;
      FilterMapIff(xs[..n], keep, f, u);
      assert forall k :: 0 <= k < n ==> xs[..n][k] == xs[k];
    }
  }

  /** FilterMap keeps the order: what it makes of two runs one after the other
      is what it makes of the first, then what it makes of the second. */
  lemma {:induction false} FilterMapAppend<T, U>(xs: seq<T>, ys: seq<T>, keep: T -> bool, f: T -> U)
    ensures FilterMap(xs + ys, keep, f) == FilterMap(xs, keep, f) + FilterMap(ys, keep, f)
    decreases |ys|
  {
    if ys == [] {
      assert xs + ys == xs;
    } else {
      var n := |ys| - 1;
      assert (xs + ys)[..|xs + ys| - 1] == xs + ys[..n];
      assert (xs + ys)[|xs + ys| - 1] == ys[n];
      FilterMapAppend(xs, ys[..n], keep, f);
    }
  }

  lemma AppendAssoc<T>(a: seq<T>, b: seq<T>, c: seq<T>)
    ensures (a + b) + c == a + (b + c)
  {
  }

  /** The lists f(x) for the elements x of xs, one after another. */
  function FlatMap<T, U>(xs: seq<T>, f: T -> seq<U>): seq<U>
    decreases |xs|
  {
    if xs == [] then [] else FlatMap(xs[..|xs| - 1], f) + f(xs[|xs| - 1])
  }

  /** FlatMap of two runs is the FlatMap of the first, then that of the second. */
  lemma {:induction false} FlatMapAppend<T, U>(xs: seq<T>, ys: seq<T>, f: T -> seq<U>)
    ensures FlatMap(xs + ys, f) == FlatMap(xs, f) + FlatMap(ys, f)
    decreases |ys|
  {
    if ys == [] {
      assert xs + ys == xs;
    } else {
      var n := |ys| - 1;
      assert (xs + ys)[..|xs + ys| - 1] == xs + ys[..n];
      FlatMapAppend(xs, ys[..n], f);
    }
  }

  /** A value is in the FlatMap iff one of the lists holds it. */
  lemma {:induction false} FlatMapIff<T, U>(xs: seq<T>, f: T -> seq<U>, u: U)
    ensures u in FlatMap(xs, f) <==> exists i :: 0 <= i < |xs| && u in f(xs[i])
    decreases |xs|
  {
    if xs != [] {
      var n := |xs| - 1;
      FlatMapIff(xs[..n], f, u);
      assert forall i :: 0 <= i < n ==> xs[..n][i] == xs[i];
    }
  }

  /** What m says about key: its value, or None when key is absent. */
  function Lookup<K, V>(m: map<K, V>, key: K): Option<V> {
    if key in m then Some(m[key]) else None
  }

  /** m after visiting keys in order and setting each key to what f finds for
      it, skipping a key for which f finds nothing. */
  function Record<K, V>(m: map<K, V>, keys: seq<K>, f: K -> Option<V>): map<K, V>
    decreases |keys|
  {
    if keys == [] then m
    else
      var done := Record(m, keys[..|keys| - 1], f);
      var k := keys[|keys| - 1];
      match f(k)
      case None => done
      case Some(v) => done[k := v]
  }

  /** Visiting one more key. */
  lemma RecordStep<K, V>(m: map<K, V>, keys: seq<K>, f: K -> Option<V>, j: nat)
    requires j < |keys|
    ensures Record(m, keys[..j + 1], f)
         == match f(keys[j])
            case None => Record(m, keys[..j], f)
            case Some(v) => Record(m, keys[..j], f)[keys[j] := v]
  {
    assert keys[..j + 1][..j] == keys[..j];
  }

  /** A visited key for which f finds a value ends up with that value; every
      other key keeps whatever m said about it, present or absent. */
  lemma {:induction false} RecordAt<K, V>(m: map<K, V>, keys: seq<K>, f: K -> Option<V>, key: K)
    ensures Lookup(Record(m, keys, f), key)
         == if key in keys && f(key).Some? then f(key) else Lookup(m, key)
    decreases |keys|
  {
    if keys != [] {
      var init := keys[..|keys| - 1];
      RecordAt(m, init, f, key);
      assert keys == init + [keys[|keys| - 1]];
    }
  }
}
