/** Lookups by key, and Python dictionaries filled by assignment: insertion order, one entry per key. */
module Dictionaries {
  import opened Prelude
  import opened Sorting

  /** `d[key(x)] = x`, on the values in insertion order: the place of an old entry is kept. */
  function Put<T, K(==)>(d: seq<T>, x: T, key: T -> K): seq<T> {
    if d == [] then [x]
    else if key(d[0]) == key(x) then [x] + d[1..]
    else [d[0]] + Put(d[1..], x, key)
  }

  lemma {:induction false} PutKeepsDistinct<T, K>(d: seq<T>, x: T, key: T -> K)
    requires Distinct(d, key)
    ensures Distinct(Put(d, x, key), key)
    ensures forall y | y in Put(d, x, key) :: y == x || y in d
  {
    if d != [] && key(d[0]) != key(x) {
      var rest := d[1..];
      assert Distinct(rest, key) by {
        forall i, j | 0 <= i < j < |rest| ensures key(rest[i]) != key(rest[j]) {
          assert rest[i] == d[i + 1] && rest[j] == d[j + 1];
        }
      }
      PutKeepsDistinct(rest, x, key);
      var r := Put(rest, x, key);
      forall j | 0 <= j < |r| ensures key(d[0]) != key(r[j]) {
        assert r[j] in r;
        if r[j] != x {
          var k :| 0 <= k < |rest| && rest[k] == r[j];
          assert d[k + 1] == r[j];
        }
      }
    }
  }

  /** When equal keys mean equal values, an assignment only ever adds. */
  lemma {:induction false} PutMembers<T, K>(d: seq<T>, x: T, key: T -> K, y: T)
    requires Distinct(d, key)
    requires forall z | z in d && key(z) == key(x) :: z == x
    ensures y in Put(d, x, key) <==> y in d || y == x
  {
    if d != [] && key(d[0]) != key(x) {
      var rest := d[1..];
      assert Distinct(rest, key) by {
        forall i, j | 0 <= i < j < |rest| ensures key(rest[i]) != key(rest[j]) {
          assert rest[i] == d[i + 1] && rest[j] == d[j + 1];
        }
      }
      PutMembers(rest, x, key, y);
      assert y in d <==> y == d[0] || y in rest;
    }
  }

  /** `tuple(dict.fromkeys(values))`: each value once, in order of first appearance. */
  function Unique<T(==)>(values: seq<T>): (r: seq<T>)
    ensures forall x | x in r :: x in values
    ensures forall x | x in values :: x in r
    ensures forall i, j | 0 <= i < j < |r| :: r[i] != r[j]
    decreases |values|
  {
    if values == [] then
      []
    else
      var n := |values| - 1;
      var front := Unique(values[..n]);
      assert values == values[..n] + [values[n]];
      if values[n] in front then front else front + [values[n]]
  }

  /** The first values come first: some place of an earlier one lies before every place of a later one. */
  lemma {:induction false} UniqueInOrder<T>(values: seq<T>, i: nat, j: nat)
    requires i < j < |Unique(values)|
    ensures exists p | 0 <= p < |values| :: values[p] == Unique(values)[i] && Unique(values)[j] !in values[..p + 1]
    decreases |values|
  {
    var n := |values| - 1;
    var front := Unique(values[..n]);
    var later := Unique(values)[j];
    if j < |front| {
      UniqueInOrder(values[..n], i, j);
      var p :| 0 <= p < n && values[..n][p] == front[i] && later !in values[..n][..p + 1];
      assert values[..n][..p + 1] == values[..p + 1] && values[p] == front[i];
    } else {
      assert front[i] in values[..n];
      var p :| 0 <= p < n && values[..n][p] == front[i];
      assert values[p] == front[i] && later !in values[..n];
      assert values[..p + 1] <= values[..n];
    }
  }

  /** `{key(x): x for x in s}.get(k)`: the last element with the key. */
  function LastWith<T, K(==)>(s: seq<T>, key: T -> K, k: K): (r: Option<T>)
    ensures r.Some? ==> r.value in s && key(r.value) == k
    ensures r.None? ==> forall x | x in s :: key(x) != k
    decreases |s|
  {
    if s == [] then None
    else
      var front, last := s[..|s| - 1], s[|s| - 1];
      if key(last) == k then Some(last) else LastWith(front, key, k)
  }

  /** With pairwise different keys every element is found under its own. */
  lemma {:induction false} LastWithSelf<T, K>(s: seq<T>, key: T -> K, i: nat)
    requires i < |s| && Distinct(s, key)
    ensures LastWith(s, key, key(s[i])) == Some(s[i])
    decreases |s|
  {
    var n := |s| - 1;
    if i < n {
      assert key(s[i]) != key(s[n]);
      LastWithSelf(s[..n], key, i);
    }
  }

  lemma {:induction false} LastWithAppend<T, K>(a: seq<T>, b: seq<T>, key: T -> K, k: K)
    requires forall x | x in b :: key(x) != k
    ensures LastWith(a + b, key, k) == LastWith(a, key, k)
    decreases |b|
  {
    if b == [] {
      assert a + b == a;
    } else {
      var n := |b| - 1;
      assert (a + b)[..|a + b| - 1] == a + b[..n];
      assert b[n] in b;
      LastWithAppend(a, b[..n], key, k);
    }
  }

  /** `next((x for x in s if key(x) == k), None)`: the first element with the key. */
  function FirstWith<T, K(==)>(s: seq<T>, key: T -> K, k: K): (r: Option<T>)
    ensures r.Some? ==> r.value in s && key(r.value) == k
    ensures r.None? ==> forall x | x in s :: key(x) != k
  {
    if s == [] then None else if key(s[0]) == k then Some(s[0]) else FirstWith(s[1..], key, k)
  }

  lemma {:induction false} FirstWithAppend<T, K>(a: seq<T>, b: seq<T>, key: T -> K, k: K)
    ensures FirstWith(a + b, key, k) ==
            if FirstWith(a, key, k).Some? then FirstWith(a, key, k) else FirstWith(b, key, k)
  {
    if a == [] {
      assert a + b == b;
    } else {
      assert (a + b)[1..] == a[1..] + b;
      FirstWithAppend(a[1..], b, key, k);
    }
  }

  lemma {:induction false} FirstWithAt<T, K>(s: seq<T>, key: T -> K, i: nat)
    requires i < |s| && forall j | 0 <= j < i :: key(s[j]) != key(s[i])
    ensures FirstWith(s, key, key(s[i])) == Some(s[i])
  {
    if i > 0 { FirstWithAt(s[1..], key, i - 1); }
  }
}
