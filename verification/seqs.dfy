/** Generic sequence queries: the `.filter(...).all()` and `.get(...)` shapes
    of the database queries, over rows held in a sequence. */
module Seqs {

  datatype Option<+T> = None | Some(value: T)

  /** The rows that satisfy `keep`, in their original order. */
  function Filter<T(!new)>(s: seq<T>, keep: T -> bool): (r: seq<T>)
    ensures |r| <= |s|
    ensures forall x :: x in r <==> x in s && keep(x)
  {
    if s == [] then []
    else if keep(s[0]) then [s[0]] + Filter(s[1..], keep)
    else Filter(s[1..], keep)
  }

  /** The first row that satisfies `keep`, if any. */
  function Find<T(!new)>(s: seq<T>, keep: T -> bool): (r: Option<T>)
    ensures r.None? <==> forall x :: x in s ==> !keep(x)
    ensures r.Some? ==> r.value in s && keep(r.value)
  {
    if s == [] then None
    else if keep(s[0]) then Some(s[0])
    else Find(s[1..], keep)
  }

  /** Keys strictly increase along `s`; in particular no key repeats. */
  ghost predicate StrictlyIncreasing<T>(s: seq<T>, key: T -> int)
  {
    forall i, j :: 0 <= i < j < |s| ==> key(s[i]) < key(s[j])
  }

  /** Filtering keeps the rows in key order. */
  lemma {:induction false} FilterKeepsIncreasing<T(!new)>(s: seq<T>, keep: T -> bool, key: T -> int)
    requires StrictlyIncreasing(s, key)
    ensures StrictlyIncreasing(Filter(s, keep), key)
  {
    if s != [] {
      var rest := Filter(s[1..], keep);
      FilterKeepsIncreasing(s[1..], keep, key);
      if keep(s[0]) {
        forall j | 0 <= j < |rest|
          ensures key(s[0]) < key(rest[j])
        {
          assert rest[j] in s[1..];
        }
        assert Filter(s, keep) == [s[0]] + rest;
      }
    }
  }

  /** With strictly increasing keys, at most one row carries a given key, so
      dropping that key's rows removes exactly one row when the key occurs. */
  lemma {:induction false} FilterOutKeyCount<T(!new)>(s: seq<T>, key: T -> int, k: int, keep: T -> bool)
    requires StrictlyIncreasing(s, key)
    requires forall x :: keep(x) <==> key(x) != k
    ensures |Filter(s, keep)| == |s| - (if exists x :: x in s && key(x) == k then 1 else 0)
  {
    if s != [] {
      FilterOutKeyCount(s[1..], key, k, keep);
      if key(s[0]) == k {
        assert forall x :: x in s[1..] ==> key(x) > k;
        assert Filter(s[1..], keep) == s[1..] by {
          FilterAll(s[1..], keep);
        }
      } else {
        assert forall x :: x in s ==> x == s[0] || x in s[1..];
      }
    }
  }

  /** A filter that keeps every row is the identity. */
  lemma {:induction false} FilterAll<T(!new)>(s: seq<T>, keep: T -> bool)
    requires forall x :: x in s ==> keep(x)
    ensures Filter(s, keep) == s
  {
    if s != [] {
      FilterAll(s[1..], keep);
    }
  }
}
