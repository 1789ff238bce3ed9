/** Python dictionaries and pandas' `drop_duplicates`, as ordered association lists.

    A Python dict remembers the order in which keys were first inserted, and assigning to
    an existing key replaces its value in place.  The result tables of the batch layer are
    dicts built by comprehension over a sequence of (key, value) pairs, so for a repeated
    key the position is that of its first pair and the value that of its last. */
module Dicts {

  function Keys<K, V>(d: seq<(K, V)>): (ks: seq<K>)
    ensures |ks| == |d| && forall i :: 0 <= i < |d| ==> ks[i] == d[i].0
  {
    if d == [] then [] else Keys(d[..|d| - 1]) + [d[|d| - 1].0]
  }

  /** The values in entry order, like `.values` of a dict-built table. */
  function Values<K, V>(d: seq<(K, V)>): (vs: seq<V>)
    ensures |vs| == |d| && forall i :: 0 <= i < |d| ==> vs[i] == d[i].1
  {
    seq(|d|, i requires 0 <= i < |d| => d[i].1)
  }

  /** No two entries share a key: the shape of every Python dict. */
  ghost predicate UniqueKeys<K, V>(d: seq<(K, V)>)
  {
    forall i, j :: 0 <= i < j < |d| ==> d[i].0 != d[j].0
  }

  /** Position of key `k`, scanning from the front. */
  function IndexOf<K(==), V>(d: seq<(K, V)>, k: K): (i: nat)
    requires k in Keys(d)
    ensures i < |d| && d[i].0 == k
    ensures forall j :: 0 <= j < i ==> d[j].0 != k
  {
    if d[0].0 == k then 0 else IndexOf(d[1..], k) + 1
  }

  /** Python `d[k]` for a key that is present. */
  function Lookup<K(==), V>(d: seq<(K, V)>, k: K): V
    requires k in Keys(d)
  {
    d[IndexOf(d, k)].1
  }

  /** Python `d[k] = v`: replace in place when `k` is present, append otherwise. */
  function Insert<K(==), V>(d: seq<(K, V)>, k: K, v: V): (r: seq<(K, V)>)
    requires UniqueKeys(d)
    ensures UniqueKeys(r)
    ensures Keys(r) == if k in Keys(d) then Keys(d) else Keys(d) + [k]
    ensures k in Keys(r) && Lookup(r, k) == v
    ensures forall k' :: k' in Keys(d) && k' != k ==> k' in Keys(r) && Lookup(r, k') == Lookup(d, k')
  {
    if k in Keys(d) then
      var r := d[IndexOf(d, k) := (k, v)];
      assert Keys(r) == Keys(d);
      r
    else
      var r := d + [(k, v)];
      assert Keys(r) == Keys(d) + [k];
      forall k' | k' in Keys(d) && k' != k
        ensures IndexOf(r, k') == IndexOf(d, k')
      {
        IndexOfPrefix(d, r, k');
      }
      r
  }

  lemma IndexOfPrefix<K, V>(d: seq<(K, V)>, r: seq<(K, V)>, k: K)
    requires k in Keys(d) && |d| <= |r| && d == r[..|d|]
    ensures k in Keys(r) && IndexOf(r, k) == IndexOf(d, k)
  {
    var i := IndexOf(d, k);
    assert r[i] == d[i];
    assert Keys(r)[i] == k;
    assert forall j :: 0 <= j < i ==> r[j] == d[j];
  }

  /** A dict comprehension `{k: v for (k, v) in ps}` (also `dict(items)` and `Series.to_dict`). */
  function FromPairs<K(==), V>(ps: seq<(K, V)>): (d: seq<(K, V)>)
    ensures UniqueKeys(d)
  {
    if ps == [] then [] else Insert(FromPairs(ps[..|ps| - 1]), ps[|ps| - 1].0, ps[|ps| - 1].1)
  }

  /** pandas `drop_duplicates()` with its default `keep='first'`. */
  function Dedup<T(==)>(s: seq<T>): seq<T>
  {
    if s == [] then [] else
      var p := Dedup(s[..|s| - 1]);
      if s[|s| - 1] in p then p else p + [s[|s| - 1]]
  }

  /** Index of the last pair whose key is `k`. */
  function LastIndexOf<K(==), V>(ps: seq<(K, V)>, k: K): (i: nat)
    requires k in Keys(ps)
    ensures i < |ps| && ps[i].0 == k
    ensures forall j :: i < j < |ps| ==> ps[j].0 != k
  {
    if ps[|ps| - 1].0 == k then |ps| - 1
    else
      assert k in Keys(ps[..|ps| - 1]) by {
        var j :| 0 <= j < |ps| && Keys(ps)[j] == k;
        assert Keys(ps[..|ps| - 1])[j] == k;
      }
      LastIndexOf(ps[..|ps| - 1], k)
  }

  /** Position of the first occurrence of `x` in `s`. */
  function FirstIndex<T(==)>(s: seq<T>, x: T): (i: nat)
    requires x in s
    ensures i < |s| && s[i] == x
    ensures forall j :: 0 <= j < i ==> s[j] != x
  {
    if s[0] == x then 0 else FirstIndex(s[1..], x) + 1
  }

  /** Appending to a sequence does not move the first occurrence of an element it holds. */
  lemma FirstIndexPrefix<T>(init: seq<T>, s: seq<T>, x: T)
    requires x in init && |init| <= |s| && init == s[..|init|]
    ensures FirstIndex(s, x) == FirstIndex(init, x)
  {
    var i := FirstIndex(init, x);
    assert s[i] == x;
  }

  /** drop_duplicates keeps exactly one copy of every element, and nothing else. */
  lemma {:induction false} DedupMembers<T>(s: seq<T>)
    ensures forall x :: x in Dedup(s) <==> x in s
    ensures forall i, j :: 0 <= i < j < |Dedup(s)| ==> Dedup(s)[i] != Dedup(s)[j]
  {
    if s != [] {
      DedupMembers(s[..|s| - 1]);
      assert s == s[..|s| - 1] + [s[|s| - 1]];
    }
  }

  /** drop_duplicates keeps the elements in the order of their first occurrences. */
  lemma {:induction false} DedupOrder<T>(s: seq<T>)
    ensures forall x :: x in Dedup(s) ==> x in s
    ensures forall i, j :: 0 <= i < j < |Dedup(s)| ==>
      FirstIndex(s, Dedup(s)[i]) < FirstIndex(s, Dedup(s)[j])
  {
    DedupMembers(s);
    if s != [] {
      var init := s[..|s| - 1];
      var last := s[|s| - 1];
      var p := Dedup(init);
      DedupOrder(init);
      DedupMembers(init);
      forall x | x in p
        ensures x in s && FirstIndex(s, x) == FirstIndex(init, x) < |init|
      {
        FirstIndexPrefix(init, s, x);
      }
      if last !in p {
        forall j | 0 <= j < |init|
          ensures s[j] != last
        {
          assert s[j] == init[j];
        }
        DedupOrderSnoc(s, p);
      } else {
        assert Dedup(s) == p;
      }
    }
  }

  /** The step of DedupOrder that appends a new element after the elements kept so far. */
  lemma DedupOrderSnoc<T>(s: seq<T>, p: seq<T>)
    requires s != [] && s[|s| - 1] !in p && Dedup(s) == p + [s[|s| - 1]]
    requires forall j :: 0 <= j < |s| - 1 ==> s[j] != s[|s| - 1]
    requires forall x :: x in p ==> x in s && FirstIndex(s, x) < |s| - 1
    requires forall i, j :: 0 <= i < j < |p| ==> FirstIndex(s, p[i]) < FirstIndex(s, p[j])
    ensures forall i, j :: 0 <= i < j < |Dedup(s)| ==>
      FirstIndex(s, Dedup(s)[i]) < FirstIndex(s, Dedup(s)[j])
  {
    var last := s[|s| - 1];
    assert FirstIndex(s, last) == |s| - 1;
    forall i, j | 0 <= i < j < |Dedup(s)|
      ensures FirstIndex(s, Dedup(s)[i]) < FirstIndex(s, Dedup(s)[j])
    {
      assert Dedup(s)[i] == p[i];
      if j < |p| {
        assert Dedup(s)[j] == p[j];
      }
    }
  }

  /** drop_duplicates keeps exactly one copy of every element, nothing else, and keeps them in
      the order of their first occurrences. */
  lemma DedupSpec<T>(s: seq<T>)
    ensures forall x :: x in Dedup(s) <==> x in s
    ensures forall i, j :: 0 <= i < j < |Dedup(s)| ==> Dedup(s)[i] != Dedup(s)[j]
    ensures forall i, j :: 0 <= i < j < |Dedup(s)| ==>
      FirstIndex(s, Dedup(s)[i]) < FirstIndex(s, Dedup(s)[j])
  {
    DedupMembers(s);
    DedupOrder(s);
  }

  /** The keys of a dict built from pairs are the pairs' keys with duplicates dropped, in the
      order of their first occurrence; the value stored for a key is that of its last pair. */
  lemma {:induction false} FromPairsSpec<K, V>(ps: seq<(K, V)>)
    ensures Keys(FromPairs(ps)) == Dedup(Keys(ps))
    ensures forall k :: k in Keys(ps) ==>
      k in Keys(FromPairs(ps)) && Lookup(FromPairs(ps), k) == ps[LastIndexOf(ps, k)].1
  {
    if ps != [] {
      var init := ps[..|ps| - 1];
      var last := ps[|ps| - 1];
      FromPairsSpec(init);
      assert Keys(ps) == Keys(init) + [last.0];
      assert Keys(ps)[..|ps| - 1] == Keys(init);
      DedupSpec(Keys(init));
      forall k | k in Keys(ps)
        ensures k in Keys(FromPairs(ps)) && Lookup(FromPairs(ps), k) == ps[LastIndexOf(ps, k)].1
      {
        if k != last.0 {
          assert k in Keys(init) by {
            var j :| 0 <= j < |ps| && Keys(ps)[j] == k;
            assert j < |ps| - 1;
            assert Keys(init)[j] == k;
          }
          assert LastIndexOf(ps, k) == LastIndexOf(init, k);
        }
      }
    }
  }

  /** drop_duplicates leaves a sequence without repeats as it is. */
  lemma {:induction false} DedupDistinct<T>(s: seq<T>)
    requires forall i, j :: 0 <= i < j < |s| ==> s[i] != s[j]
    ensures Dedup(s) == s
  {
    if s != [] {
      var init := s[..|s| - 1];
      DedupDistinct(init);
      assert s[|s| - 1] !in init;
      assert s == init + [s[|s| - 1]];
    }
  }
}
