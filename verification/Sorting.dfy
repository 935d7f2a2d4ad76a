/** Python's stable `sorted` over tuple keys, and when its result depends on the elements alone. */
module Sorting {

  /** Lexicographic order, the order Python gives tuples. */
  predicate LexLeq(a: seq<int>, b: seq<int>)
    decreases |a|
  {
    |a| == 0 ||
    (|b| > 0 && (a[0] < b[0] || (a[0] == b[0] && LexLeq(a[1..], b[1..]))))
  }

  lemma {:induction false} LexTotal(a: seq<int>, b: seq<int>)
    ensures LexLeq(a, b) || LexLeq(b, a)
    decreases |a|
  {
    if |a| > 0 && |b| > 0 && a[0] == b[0] {
      LexTotal(a[1..], b[1..]);
    }
  }

  lemma {:induction false} LexAntisymmetric(a: seq<int>, b: seq<int>)
    requires LexLeq(a, b) && LexLeq(b, a)
    ensures a == b
    decreases |a|
  {
    if |a| > 0 && |b| > 0 {
      LexAntisymmetric(a[1..], b[1..]);
      assert a == [a[0]] + a[1..] && b == [b[0]] + b[1..];
    }
  }

  lemma {:induction false} LexTransitive(a: seq<int>, b: seq<int>, c: seq<int>)
    requires LexLeq(a, b) && LexLeq(b, c)
    ensures LexLeq(a, c)
    decreases |a|
  {
    if |a| > 0 && a[0] == b[0] == c[0] {
      LexTransitive(a[1..], b[1..], c[1..]);
    }
  }

  /** Text as a sort key, character by character. */
  function TextKey(s: string): (k: seq<int>)
    ensures |k| == |s|
    ensures forall i | 0 <= i < |s| :: k[i] == s[i] as int
  {
    seq(|s|, i requires 0 <= i < |s| => s[i] as int)
  }

  ghost predicate Distinct<T, K>(s: seq<T>, key: T -> K) {
    forall i, j | 0 <= i < j < |s| :: key(s[i]) != key(s[j])
  }

  ghost predicate SameElements<T>(a: seq<T>, b: seq<T>) {
    (forall x | x in a :: x in b) && (forall x | x in b :: x in a)
  }

  ghost predicate StrictlySorted<T>(s: seq<T>, key: T -> seq<int>) {
    forall i, j | 0 <= i < j < |s| :: LexLeq(key(s[i]), key(s[j])) && key(s[i]) != key(s[j])
  }

  function Insert<T>(x: T, s: seq<T>, key: T -> seq<int>): (r: seq<T>)
    ensures multiset(r) == multiset([x] + s)
  {
    if s == [] then
      [x]
    else if LexLeq(key(x), key(s[0])) then
      [x] + s
    else
      assert s == [s[0]] + s[1..];
      [s[0]] + Insert(x, s[1..], key)
  }

  function Sort<T>(s: seq<T>, key: T -> seq<int>): (r: seq<T>)
    ensures multiset(r) == multiset(s)
  {
    if s == [] then
      []
    else
      assert s == [s[0]] + s[1..];
      Insert(s[0], Sort(s[1..], key), key)
  }

  lemma MultisetElements<T>(a: seq<T>, b: seq<T>)
    requires multiset(a) == multiset(b)
    ensures |a| == |b| && SameElements(a, b)
  {
    forall x | x in a ensures x in b { assert x in multiset(a); }
    forall x | x in b ensures x in a { assert x in multiset(b); }
    assert |multiset(a)| == |multiset(b)|;
  }

  lemma {:induction false} InsertStrict<T>(x: T, s: seq<T>, key: T -> seq<int>)
    requires StrictlySorted(s, key)
    requires forall y | y in s :: key(y) != key(x)
    ensures StrictlySorted(Insert(x, s, key), key)
  {
    if s == [] {
    } else if LexLeq(key(x), key(s[0])) {
      forall j | 0 <= j < |s| ensures LexLeq(key(x), key(s[j])) {
        if j > 0 { LexTransitive(key(x), key(s[0]), key(s[j])); }
      }
    } else {
      LexTotal(key(x), key(s[0]));
      InsertStrict(x, s[1..], key);
      var r := Insert(x, s[1..], key);
      MultisetElements(r, [x] + s[1..]);
      forall j | 0 <= j < |r| ensures LexLeq(key(s[0]), key(r[j])) && key(s[0]) != key(r[j]) {
        assert r[j] in r;
        if r[j] != x {
          var k :| 0 <= k < |s[1..]| && s[1..][k] == r[j];
          assert s[k + 1] == r[j];
        }
      }
    }
  }

  /** Pairwise different keys make the sorted order strict. */
  lemma {:induction false} SortStrict<T>(s: seq<T>, key: T -> seq<int>)
    requires Distinct(s, key)
    ensures StrictlySorted(Sort(s, key), key)
  {
    if s != [] {
      var rest := s[1..];
      assert Distinct(rest, key) by {
        forall i, j | 0 <= i < j < |rest| ensures key(rest[i]) != key(rest[j]) {
          assert rest[i] == s[i + 1] && rest[j] == s[j + 1];
        }
      }
      SortStrict(rest, key);
      MultisetElements(Sort(rest, key), rest);
      forall y | y in Sort(rest, key) ensures key(y) != key(s[0]) {
        var k :| 0 <= k < |rest| && rest[k] == y;
        assert s[k + 1] == y;
      }
      InsertStrict(s[0], Sort(rest, key), key);
    }
  }

  /** Strictly sorted sequences with the same elements are the same sequence. */
  lemma {:induction false} StrictOrderUnique<T>(a: seq<T>, b: seq<T>, key: T -> seq<int>)
    requires StrictlySorted(a, key) && StrictlySorted(b, key)
    requires SameElements(a, b)
    ensures a == b
    decreases |a|
  {
    assert |b| > 0 ==> b[0] in b;
    if a != [] {
      assert a[0] in a;
      var j :| 0 <= j < |b| && b[j] == a[0];
      var i :| 0 <= i < |a| && a[i] == b[0];
      if j > 0 {
        if i > 0 { LexAntisymmetric(key(a[0]), key(b[0])); }
        assert false;
      }
      forall x | x in a[1..] ensures x in b[1..] {
        var p :| 0 <= p < |a[1..]| && a[1..][p] == x;
        assert a[p + 1] == x && x in a;
        var q :| 0 <= q < |b| && b[q] == x;
        assert q > 0;
        assert b[1..][q - 1] == x;
      }
      forall x | x in b[1..] ensures x in a[1..] {
        var p :| 0 <= p < |b[1..]| && b[1..][p] == x;
        assert b[p + 1] == x && x in b;
        var q :| 0 <= q < |a| && a[q] == x;
        assert q > 0;
        assert a[1..][q - 1] == x;
      }
      StrictOrderUnique(a[1..], b[1..], key);
      assert a == [a[0]] + a[1..] && b == [b[0]] + b[1..];
    }
  }

  /** Sorting forgets the input order when keys are pairwise different. */
  lemma SortIgnoresOrder<T>(a: seq<T>, b: seq<T>, key: T -> seq<int>)
    requires Distinct(a, key) && Distinct(b, key)
    requires SameElements(a, b)
    ensures Sort(a, key) == Sort(b, key)
  {
    SortStrict(a, key);
    SortStrict(b, key);
    MultisetElements(Sort(a, key), a);
    MultisetElements(Sort(b, key), b);
    StrictOrderUnique(Sort(a, key), Sort(b, key), key);
  }

  /** The comprehension `[f(x) for x in s]`. */
  function Map<T, U>(s: seq<T>, f: T -> U): (r: seq<U>)
    ensures |r| == |s| && forall i | 0 <= i < |s| :: r[i] == f(s[i])
  {
    seq(|s|, i requires 0 <= i < |s| => f(s[i]))
  }

  /** The comprehension `[x for x in s if p(x)]`. */
  function Filter<T>(s: seq<T>, p: T -> bool): (r: seq<T>)
    ensures forall x | x in r :: x in s && p(x)
    ensures forall x | x in s && p(x) :: x in r
    ensures |r| <= |s|
  {
    if s == [] then [] else (if p(s[0]) then [s[0]] else []) + Filter(s[1..], p)
  }

  lemma {:induction false} FilterDistinct<T, K>(s: seq<T>, p: T -> bool, key: T -> K)
    requires Distinct(s, key)
    ensures Distinct(Filter(s, p), key)
  {
    if s != [] {
      var rest := s[1..];
      assert Distinct(rest, key) by {
        forall i, j | 0 <= i < j < |rest| ensures key(rest[i]) != key(rest[j]) {
          assert rest[i] == s[i + 1] && rest[j] == s[j + 1];
        }
      }
      FilterDistinct(rest, p, key);
      var r := Filter(rest, p);
      forall j | 0 <= j < |r| ensures key(s[0]) != key(r[j]) {
        assert r[j] in r;
        var k :| 0 <= k < |rest| && rest[k] == r[j];
        assert s[k + 1] == r[j];
      }
    }
  }

  lemma {:induction false} FilterAppend<T>(a: seq<T>, b: seq<T>, p: T -> bool)
    ensures Filter(a + b, p) == Filter(a, p) + Filter(b, p)
  {
    if a == [] {
      assert a + b == b;
    } else {
      assert (a + b)[1..] == a[1..] + b;
      FilterAppend(a[1..], b, p);
    }
  }

  lemma {:induction false} FilterNone<T>(s: seq<T>, p: T -> bool)
    requires forall x | x in s :: !p(x)
    ensures Filter(s, p) == []
  {
    if s != [] { FilterNone(s[1..], p); }
  }

  lemma {:induction false} FilterAll<T>(s: seq<T>, p: T -> bool)
    requires forall x | x in s :: p(x)
    ensures Filter(s, p) == s
  {
    if s != [] { FilterAll(s[1..], p); }
  }

  lemma SortOfStrict<T>(s: seq<T>, key: T -> seq<int>)
    requires StrictlySorted(s, key)
    ensures Sort(s, key) == s
  {
    SortStrict(s, key);
    MultisetElements(Sort(s, key), s);
    StrictOrderUnique(Sort(s, key), s, key);
  }

  lemma FilterSplit<T>(a: seq<T>, b: seq<T>, p: T -> bool)
    requires (forall x | x in a :: !p(x)) && (forall x | x in b :: p(x))
    ensures Filter(a + b, p) == b
  {
    FilterNone(a, p);
    FilterAll(b, p);
    FilterAppend(a, b, p);
    assert [] + b == b;
    hide Filter;
  }

  /** Sorting keeps any key's values pairwise different. */
  lemma {:induction false} SortDistinct<T, K>(s: seq<T>, order: T -> seq<int>, key: T -> K)
    requires Distinct(s, key)
    ensures Distinct(Sort(s, order), key)
  {
    if s != [] {
      var rest := s[1..];
      forall i, j | 0 <= i < j < |rest| ensures key(rest[i]) != key(rest[j]) {
        assert rest[i] == s[i + 1] && rest[j] == s[j + 1];
      }
      SortDistinct(rest, order, key);
      MultisetElements(Sort(rest, order), rest);
      forall y | y in Sort(rest, order) ensures key(y) != key(s[0]) {
        var k :| 0 <= k < |rest| && rest[k] == y;
        assert s[k + 1] == y;
      }
      InsertDistinct(s[0], Sort(rest, order), order, key);
    }
  }

  lemma {:induction false} InsertDistinct<T, K>(x: T, s: seq<T>, order: T -> seq<int>, key: T -> K)
    requires Distinct(s, key) && forall y | y in s :: key(y) != key(x)
    ensures Distinct(Insert(x, s, order), key)
  {
    if s != [] && !LexLeq(order(x), order(s[0])) {
      var rest := s[1..];
      forall i, j | 0 <= i < j < |rest| ensures key(rest[i]) != key(rest[j]) {
        assert rest[i] == s[i + 1] && rest[j] == s[j + 1];
      }
      InsertDistinct(x, rest, order, key);
      var r := Insert(x, rest, order);
      MultisetElements(r, [x] + rest);
      forall j | 0 <= j < |r| ensures key(s[0]) != key(r[j]) {
        assert r[j] in r;
        if r[j] != x {
          var k :| 0 <= k < |rest| && rest[k] == r[j];
          assert s[k + 1] == r[j];
        }
      }
    }
  }

  ghost predicate Ascending<T>(s: seq<T>, key: T -> seq<int>) {
    forall i, j | 0 <= i < j < |s| :: LexLeq(key(s[i]), key(s[j]))
  }

  lemma {:induction false} InsertAscending<T>(x: T, s: seq<T>, key: T -> seq<int>)
    requires Ascending(s, key)
    ensures Ascending(Insert(x, s, key), key)
  {
    if s == [] {
    } else if LexLeq(key(x), key(s[0])) {
      forall j | 0 <= j < |s| ensures LexLeq(key(x), key(s[j])) {
        if j > 0 { LexTransitive(key(x), key(s[0]), key(s[j])); }
      }
    } else {
      LexTotal(key(x), key(s[0]));
      InsertAscending(x, s[1..], key);
      var r := Insert(x, s[1..], key);
      MultisetElements(r, [x] + s[1..]);
      forall j | 0 <= j < |r| ensures LexLeq(key(s[0]), key(r[j])) {
        assert r[j] in r;
        if r[j] != x {
          var k :| 0 <= k < |s[1..]| && s[1..][k] == r[j];
          assert s[k + 1] == r[j];
        }
      }
    }
  }

  lemma {:induction false} SortAscending<T>(s: seq<T>, key: T -> seq<int>)
    ensures Ascending(Sort(s, key), key)
  {
    if s != [] {
      SortAscending(s[1..], key);
      InsertAscending(s[0], Sort(s[1..], key), key);
    }
  }

  // --- Counting ---

  lemma {:induction false} InsertMap<T, K>(x: T, s: seq<T>, order: T -> seq<int>, key: T -> K)
    ensures multiset(Map(Insert(x, s, order), key)) == multiset([key(x)]) + multiset(Map(s, key))
  {
    if s != [] && !LexLeq(order(x), order(s[0])) {
      var rest := s[1..];
      var inserted := Insert(x, rest, order);
      assert Insert(x, s, order) == [s[0]] + inserted && s == [s[0]] + rest;
      hide Insert, LexLeq;
      InsertMap(x, rest, order, key);
      MapCons(s[0], inserted, key);
      MapCons(s[0], rest, key);
    } else {
      assert Insert(x, s, order) == [x] + s;
      hide Insert, LexLeq;
      MapCons(x, s, key);
    }
  }

  lemma MapCons<T, K>(x: T, s: seq<T>, key: T -> K)
    ensures Map([x] + s, key) == [key(x)] + Map(s, key)
    ensures multiset(Map([x] + s, key)) == multiset([key(x)]) + multiset(Map(s, key))
  {
    assert Map([x] + s, key) == [key(x)] + Map(s, key);
  }

  /** Sorting keeps how often each value of a key occurs. */
  lemma {:induction false} SortMap<T, K>(s: seq<T>, order: T -> seq<int>, key: T -> K)
    ensures multiset(Map(Sort(s, order), key)) == multiset(Map(s, key))
  {
    if s != [] {
      var rest := s[1..];
      SortMap(rest, order, key);
      InsertMap(s[0], Sort(rest, order), order, key);
      assert Map(s, key) == [key(s[0])] + Map(rest, key);
    }
  }

  lemma TwiceCounted<K>(s: seq<K>, i: nat, j: nat)
    requires i < j < |s| && s[i] == s[j]
    ensures multiset(s)[s[i]] >= 2
  {
    var a, b := s[..j], s[j..];
    assert s == a + b;
    assert a[i] in a && b[0] in b;
    assert multiset(a)[s[i]] >= 1 && multiset(b)[s[i]] >= 1;
    assert multiset(s)[s[i]] == multiset(a)[s[i]] + multiset(b)[s[i]];
  }

  lemma {:induction false} OnceCounted<K>(s: seq<K>, k: K)
    requires forall i, j | 0 <= i < j < |s| :: s[i] != s[j]
    ensures multiset(s)[k] <= 1
    decreases |s|
  {
    if s != [] {
      var rest := s[1..];
      assert s == [s[0]] + rest;
      OnceCounted(rest, k);
      if k == s[0] { assert k !in rest; }
    }
  }

  /** Pairwise different keys are a matter of counting. */
  lemma DistinctByCount<T, U, K>(a: seq<T>, f: T -> K, b: seq<U>, g: U -> K)
    requires multiset(Map(a, f)) == multiset(Map(b, g)) && Distinct(a, f)
    ensures Distinct(b, g)
  {
    forall i, j | 0 <= i < j < |b| ensures g(b[i]) != g(b[j]) {
      if g(b[i]) == g(b[j]) {
        TwiceCounted(Map(b, g), i, j);
        OnceCounted(Map(a, f), g(b[i]));
      }
    }
  }

  /** Elements a filter keeps have different keys when those of its result are pairwise different. */
  lemma {:induction false} FilterReflectsDistinct<T, K>(s: seq<T>, p: T -> bool, key: T -> K, i: nat, j: nat)
    requires i < j < |s| && p(s[i]) && p(s[j]) && Distinct(Filter(s, p), key)
    ensures key(s[i]) != key(s[j])
  {
    var rest := s[1..];
    var r := Filter(rest, p);
    if i == 0 {
      assert Filter(s, p) == [s[0]] + r;
      assert rest[j - 1] == s[j] && s[j] in r;
      var q :| 0 <= q < |r| && r[q] == s[j];
      assert Filter(s, p)[0] == s[0] && Filter(s, p)[q + 1] == s[j];
    } else {
      forall a, b | 0 <= a < b < |r| ensures key(r[a]) != key(r[b]) {
        if p(s[0]) {
          assert Filter(s, p)[a + 1] == r[a] && Filter(s, p)[b + 1] == r[b];
        } else {
          assert Filter(s, p) == r;
        }
      }
      FilterReflectsDistinct(rest, p, key, i - 1, j - 1);
    }
  }
}
