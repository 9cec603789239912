/** Sequence operations standing in for what the ORM does to a result set:
    `.filter(...)`, `.distinct()`, `.order_by(...)`, and auto-increment keys. */
module Seqs {
  import opened Wrappers

  predicate NoDuplicates<T(==)>(s: seq<T>) {
    forall i, j :: 0 <= i < j < |s| ==> s[i] != s[j]
  }

  /** `.filter(p)`: the rows satisfying `p`, in their original order. */
  function Filter<T(!new)>(s: seq<T>, p: T -> bool): (r: seq<T>)
    ensures |r| <= |s|
    ensures forall x :: x in r <==> x in s && p(x)
    ensures multiset(r) <= multiset(s)
    ensures NoDuplicates(s) ==> NoDuplicates(r)
  {
    if s == [] then []
    else
      var rest := Filter(s[1..], p);
      assert s == [s[0]] + s[1..];
      if p(s[0]) then [s[0]] + rest else rest
  }

  /** A filter keeps nothing exactly when no row satisfies it. */
  lemma FilterEmptyIff<T(!new)>(s: seq<T>, p: T -> bool)
    ensures Filter(s, p) == [] <==> forall x :: x in s ==> !p(x)
  {
    var r := Filter(s, p);
    if r != [] {
      assert r[0] in r;
    }
  }

  /** Keys are unique along the sequence (a primary-key column). */
  predicate UniqueKeysBy<T>(s: seq<T>, key: T -> nat) {
    forall i, j :: 0 <= i < j < |s| ==> key(s[i]) != key(s[j])
  }

  /** Filtering rows keeps their keys unique. */
  lemma {:induction false} FilterKeepsKeysUnique<T(!new)>(s: seq<T>, p: T -> bool, key: T -> nat)
    requires UniqueKeysBy(s, key)
    ensures UniqueKeysBy(Filter(s, p), key)
  {
    if s != [] {
      FilterKeepsKeysUnique(s[1..], p, key);
      var rest := Filter(s[1..], p);
      assert forall j :: 0 <= j < |s[1..]| ==> key(s[0]) != key(s[1..][j]) by {
        assert forall j :: 0 <= j < |s[1..]| ==> s[1..][j] == s[j + 1];
      }
      assert forall j :: 0 <= j < |rest| ==> key(s[0]) != key(rest[j]) by {
        forall j | 0 <= j < |rest|
          ensures key(s[0]) != key(rest[j])
        {
          assert rest[j] in rest;
          var k :| 0 <= k < |s[1..]| && s[1..][k] == rest[j];
        }
      }
    }
  }

  /** A second, weaker filter changes nothing: filtering by `p` and then by `q`
      is filtering by `q` when every row `q` keeps, `p` keeps too. */
  lemma {:induction false} FilterThenImplied<T(!new)>(s: seq<T>, p: T -> bool, q: T -> bool)
    requires forall x :: q(x) ==> p(x)
    ensures Filter(Filter(s, p), q) == Filter(s, q)
  {
    if s != [] {
      FilterThenImplied(s[1..], p, q);
    }
  }

  /** `.distinct()`: every row of the input exactly once. The body keeps first
      occurrences; the contract promises membership and no repeats, not order. */
  function Dedup<T(==,!new)>(s: seq<T>): (r: seq<T>)
    ensures NoDuplicates(r)
    ensures forall x :: x in r <==> x in s
    ensures |r| <= |s|
  {
    if s == [] then []
    else
      var rest := Dedup(s[..|s| - 1]);
      assert s == s[..|s| - 1] + [s[|s| - 1]];
      if s[|s| - 1] in rest then rest else rest + [s[|s| - 1]]
  }

  /** A sequence without duplicates is left as it is by `Dedup`. */
  lemma {:induction false} DedupOfDistinct<T(!new)>(s: seq<T>)
    requires NoDuplicates(s)
    ensures Dedup(s) == s
  {
    if s != [] {
      var init := s[..|s| - 1];
      assert NoDuplicates(init);
      DedupOfDistinct(init);
      assert s[|s| - 1] !in init;
      assert s == init + [s[|s| - 1]];
    }
  }

  /** `.distinct()` over rows that are all the same row keeps that row once. */
  lemma {:induction false} DedupOfRepeated<T(!new)>(s: seq<T>, x: T)
    requires s != [] && forall y :: y in s ==> y == x
    ensures Dedup(s) == [x]
  {
    var init := s[..|s| - 1];
    assert s[|s| - 1] in s;
    if init != [] {
      assert forall y :: y in init ==> y in s;
      DedupOfRepeated(init, x);
    }
  }

  /** The position of the first row whose key is `k`: the row `.get(pk=k)` finds. */
  function IndexOf<T(!new)>(s: seq<T>, key: T -> nat, k: nat): (r: Option<nat>)
    ensures r.Some? ==> r.value < |s| && key(s[r.value]) == k
    ensures r.Some? ==> forall j :: 0 <= j < r.value ==> key(s[j]) != k
    ensures r.None? <==> forall j :: 0 <= j < |s| ==> key(s[j]) != k
  {
    if s == [] then None
    else if key(s[0]) == k then Some(0)
    else
      match IndexOf(s[1..], key, k)
      case None => None
      case Some(i) => Some(i + 1)
  }

  /** With unique keys, the row found is the only one carrying the key. */
  lemma IndexOfUnique<T(!new)>(s: seq<T>, key: T -> nat, k: nat, j: nat)
    requires forall a, b :: 0 <= a < b < |s| ==> key(s[a]) != key(s[b])
    requires j < |s| && key(s[j]) == k
    ensures IndexOf(s, key, k) == Some(j)
  {
  }

  /** `obj.delete()` on the row at position `i`. */
  function RemoveAt<T>(s: seq<T>, i: nat): (r: seq<T>)
    requires i < |s|
    ensures |r| == |s| - 1
    ensures forall j :: 0 <= j < i ==> r[j] == s[j]
    ensures forall j :: i <= j < |r| ==> r[j] == s[j + 1]
    ensures multiset(r) + multiset{s[i]} == multiset(s)
  {
    assert s == s[..i] + [s[i]] + s[i + 1..];
    s[..i] + s[i + 1..]
  }

  /** The key an auto-increment column hands out next: above every key in use. */
  function FreshKey<T(!new)>(s: seq<T>, key: T -> nat): (r: nat)
    ensures forall j :: 0 <= j < |s| ==> key(s[j]) < r
    ensures r >= 1
  {
    if s == [] then 1
    else
      var m := FreshKey(s[1..], key);
      if key(s[0]) < m then m else key(s[0]) + 1
  }

  // ---------------------------------------------------------------------------
  // `.order_by(...)` as a sort under a total preorder
  // ---------------------------------------------------------------------------

  ghost predicate TotalPreorder<T(!new)>(le: (T, T) -> bool) {
    && (forall a, b :: le(a, b) || le(b, a))
    && (forall a, b, c :: le(a, b) && le(b, c) ==> le(a, c))
  }

  predicate SortedBy<T>(s: seq<T>, le: (T, T) -> bool) {
    forall i, j :: 0 <= i < j < |s| ==> le(s[i], s[j])
  }

  /** A head no greater than any later element keeps a sorted tail sorted. */
  lemma {:induction false} ConsSorted<T>(h: T, rest: seq<T>, le: (T, T) -> bool)
    requires SortedBy(rest, le)
    requires forall k :: 0 <= k < |rest| ==> le(h, rest[k])
    ensures SortedBy([h] + rest, le)
  {
    var r := [h] + rest;
    forall i, j | 0 <= i < j < |r|
      ensures le(r[i], r[j])
    {
      assert r[j] == rest[j - 1];
      if i > 0 {
        assert r[i] == rest[i - 1];
      }
    }
  }

  function Insert<T(!new)>(x: T, s: seq<T>, le: (T, T) -> bool): (r: seq<T>)
    requires TotalPreorder(le)
    requires SortedBy(s, le)
    ensures SortedBy(r, le)
    ensures multiset(r) == multiset(s) + multiset{x}
  {
    if s == [] || le(x, s[0]) then
      ConsSorted(x, s, le);
      [x] + s
    else
      var tail := s[1..];
      var rest := Insert(x, tail, le);
      assert s == [s[0]] + tail;
      forall k | 0 <= k < |rest|
        ensures le(s[0], rest[k])
      {
        assert rest[k] in multiset(rest);
        if rest[k] != x {
          assert rest[k] in multiset(tail);
          var j :| 0 <= j < |tail| && tail[j] == rest[k];
          assert tail[j] == s[j + 1];
        }
      }
      ConsSorted(s[0], rest, le);
      [s[0]] + rest
  }

  /** Insertion sort: an ordered permutation of its input. */
  function SortBy<T(!new)>(s: seq<T>, le: (T, T) -> bool): (r: seq<T>)
    requires TotalPreorder(le)
    ensures SortedBy(r, le)
    ensures multiset(r) == multiset(s)
  {
    if s == [] then []
    else
      assert s == [s[0]] + s[1..];
      Insert(s[0], SortBy(s[1..], le), le)
  }
}
