/** Sequence helpers shared by the model: a stable sort by an integer key
    (the behaviour of `Array.prototype.sort` with a `(a, b) => key(a) - key(b)`
    comparator) and the facts about it the model relies on. */
module Seqs {

  /** Non-decreasing by key. */
  ghost predicate SortedBy<T>(s: seq<T>, key: T -> int) {
    forall i, j :: 0 <= i < j < |s| ==> key(s[i]) <= key(s[j])
  }

  /** The elements whose key is k, in order. */
  function WithKey<T>(s: seq<T>, key: T -> int, k: int): (r: seq<T>)
    ensures |r| <= |s|
  {
    if |s| == 0 then []
    else WithKey(s[..|s| - 1], key, k) + (if key(s[|s| - 1]) == k then [s[|s| - 1]] else [])
  }

  /** Put `x` after every element whose key is not larger than its own. */
  function InsertBy<T>(x: T, t: seq<T>, key: T -> int): (r: seq<T>)
    ensures |r| == |t| + 1
    decreases |t|
  {
    if |t| == 0 || key(t[|t| - 1]) <= key(x) then t + [x]
    else InsertBy(x, t[..|t| - 1], key) + [t[|t| - 1]]
  }

  /** Insertion sort; equal keys keep their input order. */
  function SortBy<T>(s: seq<T>, key: T -> int): (r: seq<T>)
    ensures |r| == |s|
  {
    if |s| == 0 then [] else InsertBy(s[|s| - 1], SortBy(s[..|s| - 1], key), key)
  }

  lemma {:induction false} InsertByPermutes<T>(x: T, t: seq<T>, key: T -> int)
    ensures multiset(InsertBy(x, t, key)) == multiset(t) + multiset{x}
    decreases |t|
  {
    if |t| > 0 && key(t[|t| - 1]) > key(x) {
      InsertByPermutes(x, t[..|t| - 1], key);
      assert t == t[..|t| - 1] + [t[|t| - 1]];
    }
  }

  /** The sort is a permutation of its input. */
  lemma {:induction false} SortByPermutes<T>(s: seq<T>, key: T -> int)
    ensures multiset(SortBy(s, key)) == multiset(s)
  {
    if |s| > 0 {
      SortByPermutes(s[..|s| - 1], key);
      InsertByPermutes(s[|s| - 1], SortBy(s[..|s| - 1], key), key);
      assert s == s[..|s| - 1] + [s[|s| - 1]];
    }
  }

  lemma {:induction false} InsertBySorted<T>(x: T, t: seq<T>, key: T -> int)
    requires SortedBy(t, key)
    ensures SortedBy(InsertBy(x, t, key), key)
    ensures forall y :: y in InsertBy(x, t, key) ==> y == x || y in t
    decreases |t|
  {
    if |t| > 0 && key(t[|t| - 1]) > key(x) {
      var u := t[..|t| - 1];
      var last := t[|t| - 1];
      assert SortedBy(u, key);
      InsertBySorted(x, u, key);
      var v := InsertBy(x, u, key);
      forall y | y in v ensures key(y) <= key(last) {
        if y != x {
          var i :| 0 <= i < |u| && u[i] == y;
          assert t[i] == y;
        }
      }
      var r := v + [last];
      forall i, j | 0 <= i < j < |r| ensures key(r[i]) <= key(r[j]) {
        if j == |r| - 1 {
          assert r[i] in v;
        }
      }
    }
  }

  /** The sort orders by key. */
  lemma {:induction false} SortBySorted<T>(s: seq<T>, key: T -> int)
    ensures SortedBy(SortBy(s, key), key)
  {
    if |s| > 0 {
      SortBySorted(s[..|s| - 1], key);
      InsertBySorted(s[|s| - 1], SortBy(s[..|s| - 1], key), key);
    }
  }

  lemma {:induction false} WithKeyAppend<T>(a: seq<T>, b: seq<T>, key: T -> int, k: int)
    ensures WithKey(a + b, key, k) == WithKey(a, key, k) + WithKey(b, key, k)
    decreases |b|
  {
    if |b| == 0 {
      assert a + b == a;
    } else {
      assert (a + b)[..|a + b| - 1] == a + b[..|b| - 1];
      WithKeyAppend(a, b[..|b| - 1], key, k);
    }
  }

  lemma {:induction false} WithKeyAbove<T>(t: seq<T>, key: T -> int, k: int)
    requires forall i :: 0 <= i < |t| ==> key(t[i]) > k
    ensures WithKey(t, key, k) == []
  {
    if |t| > 0 {
      WithKeyAbove(t[..|t| - 1], key, k);
    }
  }

  lemma {:induction false} InsertByWithKey<T>(x: T, t: seq<T>, key: T -> int, k: int)
    ensures WithKey(InsertBy(x, t, key), key, k) == WithKey(t, key, k) + (if key(x) == k then [x] else [])
    decreases |t|
  {
    if |t| == 0 || key(t[|t| - 1]) <= key(x) {
    } else {
      var u := t[..|t| - 1];
      var last := t[|t| - 1];
      InsertByWithKey(x, u, key, k);
      assert t == u + [last];
      WithKeyAppend(u, [last], key, k);
      var v := InsertBy(x, u, key);
      assert v + [last] == InsertBy(x, t, key);
      WithKeyAppend(v, [last], key, k);
      if key(x) == k {
        // `last` has a larger key than x, so it is not among the k-keyed ones
        assert WithKey([last], key, k) == [] by { WithKeyAbove([last], key, k); }
      }
    }
  }

  /** Stability: for every key, the elements with that key come out in the
      order they went in. */
  lemma {:induction false} SortByStable<T>(s: seq<T>, key: T -> int, k: int)
    ensures WithKey(SortBy(s, key), key, k) == WithKey(s, key, k)
  {
    if |s| > 0 {
      SortByStable(s[..|s| - 1], key, k);
      InsertByWithKey(s[|s| - 1], SortBy(s[..|s| - 1], key), key, k);
    }
  }

  /** Keep the elements satisfying `p`, in order (`Array.prototype.filter`). */
  function Filter<T>(s: seq<T>, p: T -> bool): (r: seq<T>)
    ensures |r| <= |s|
  {
    if |s| == 0 then []
    else Filter(s[..|s| - 1], p) + (if p(s[|s| - 1]) then [s[|s| - 1]] else [])
  }

  /** An element is kept exactly when it occurs and satisfies `p`. */
  lemma {:induction false} FilterMembers<T>(s: seq<T>, p: T -> bool, x: T)
    ensures x in Filter(s, p) <==> x in s && p(x)
  {
    if |s| > 0 {
      FilterMembers(s[..|s| - 1], p, x);
      assert s == s[..|s| - 1] + [s[|s| - 1]];
    }
  }

  lemma {:induction false} WithKeyMembers<T>(s: seq<T>, key: T -> int, k: int, x: T)
    ensures x in WithKey(s, key, k) ==> x in s && key(x) == k
  {
    if |s| > 0 {
      WithKeyMembers(s[..|s| - 1], key, k, x);
      assert s == s[..|s| - 1] + [s[|s| - 1]];
    }
  }

  /** Filtering distributes over concatenation, which fixes the output order. */
  lemma {:induction false} FilterAppend<T>(a: seq<T>, b: seq<T>, p: T -> bool)
    ensures Filter(a + b, p) == Filter(a, p) + Filter(b, p)
    decreases |b|
  {
    if |b| == 0 {
      assert a + b == a;
    } else {
      assert (a + b)[..|a + b| - 1] == a + b[..|b| - 1];
      FilterAppend(a, b[..|b| - 1], p);
    }
  }

  /** Filtering keeps each kept element as many times as it occurs. */
  lemma {:induction false} FilterCounts<T>(s: seq<T>, p: T -> bool, x: T)
    ensures multiset(Filter(s, p))[x] == if p(x) then multiset(s)[x] else 0
  {
    if |s| > 0 {
      FilterCounts(s[..|s| - 1], p, x);
      assert s == s[..|s| - 1] + [s[|s| - 1]];
    }
  }

  /** No element occurs twice. */
  ghost predicate NoDup<T>(s: seq<T>) {
    forall i, j :: 0 <= i < j < |s| ==> s[i] != s[j]
  }

  lemma {:induction false} NoDupCount<T>(s: seq<T>, x: T)
    requires NoDup(s)
    ensures multiset(s)[x] <= 1
  {
    if |s| > 0 {
      var init := s[..|s| - 1];
      NoDupCount(init, x);
      assert s == init + [s[|s| - 1]];
      if s[|s| - 1] == x {
        assert x !in init;
      }
    }
  }

  lemma TwiceCount<T>(s: seq<T>, i: nat, j: nat)
    requires i < j < |s| && s[i] == s[j]
    ensures multiset(s)[s[i]] >= 2
  {
    assert s == s[..j] + s[j..];
    assert s[i] in s[..j];
    assert s[j..][0] == s[j];
  }

  /** A permutation of a duplicate-free sequence is duplicate-free. */
  lemma PermutationNoDup<T>(a: seq<T>, b: seq<T>)
    requires multiset(a) == multiset(b) && NoDup(a)
    ensures NoDup(b)
  {
    forall i, j | 0 <= i < j < |b| ensures b[i] != b[j] {
      if b[i] == b[j] {
        TwiceCount(b, i, j);
        NoDupCount(a, b[i]);
      }
    }
  }

  lemma {:induction false} NoKeyEmpty<T>(s: seq<T>, key: T -> int, k: int)
    requires forall x :: x in s ==> key(x) != k
    ensures WithKey(s, key, k) == []
  {
    if |s| > 0 {
      NoKeyEmpty(s[..|s| - 1], key, k);
    }
  }

  /** When the first element has key k, it heads the k-keyed elements too. */
  lemma {:induction false} WithKeyHead<T>(s: seq<T>, key: T -> int, k: int)
    requires |s| > 0 && key(s[0]) == k
    ensures |WithKey(s, key, k)| > 0 && WithKey(s, key, k)[0] == s[0]
  {
    if |s| > 1 {
      WithKeyHead(s[..|s| - 1], key, k);
      WithKeyAppend(s[..|s| - 1], [s[|s| - 1]], key, k);
      assert s == s[..|s| - 1] + [s[|s| - 1]];
    }
  }

  /** Filtering around a kept element. */
  lemma FilterAround<T>(s: seq<T>, p: T -> bool, i: nat)
    requires i < |s| && p(s[i])
    ensures Filter(s, p) == Filter(s[..i], p) + ([s[i]] + Filter(s[i + 1..], p))
  {
    var a, x, b := s[..i], s[i], s[i + 1..];
    assert s == a + ([x] + b);
    FilterAppend(a, [x] + b, p);
    FilterAppend([x], b, p);
    FilterSingleton(x, p);
  }

  lemma FilterSingleton<T>(x: T, p: T -> bool)
    ensures Filter([x], p) == if p(x) then [x] else []
  {
    assert [x][..0] == [];
  }

  lemma WithKeyCons<T>(x: T, t: seq<T>, key: T -> int)
    ensures WithKey([x] + t, key, key(x)) == [x] + WithKey(t, key, key(x))
  {
    WithKeyAppend([x], t, key, key(x));
    assert [x][..0] == [];
  }

  /** The first kept element with s[i]'s key is s[i] when no kept element
      before it shares that key. */
  lemma FilterFirstWithKey<T>(s: seq<T>, p: T -> bool, key: T -> int, i: nat)
    requires i < |s| && p(s[i])
    requires forall j :: 0 <= j < i && p(s[j]) ==> key(s[j]) != key(s[i])
    ensures var w := WithKey(Filter(s, p), key, key(s[i])); |w| > 0 && w[0] == s[i]
  {
    var k := key(s[i]);
    var before := Filter(s[..i], p);
    var after := Filter(s[i + 1..], p);
    FilterAround(s, p, i);
    forall y | y in before ensures key(y) != k {
      FilterMembers(s[..i], p, y);
      var j :| 0 <= j < i && s[..i][j] == y;
    }
    NoKeyEmpty(before, key, k);
    WithKeyCons(s[i], after, key);
    WithKeyAppend(before, [s[i]] + after, key, k);
  }

  /** The sorted sequence starts with an element of the smallest key. */
  lemma SortByHeadMinKey<T>(s: seq<T>, key: T -> int, x: T)
    requires x in s
    requires forall y :: y in s ==> key(x) <= key(y)
    ensures |SortBy(s, key)| > 0 && key(SortBy(s, key)[0]) == key(x)
  {
    var sorted := SortBy(s, key);
    SortBySorted(s, key);
    SortByPermutes(s, key);
    assert x in multiset(sorted);
    var m :| 0 <= m < |sorted| && sorted[m] == x;
    assert sorted[0] in multiset(s);
    assert key(sorted[0]) <= key(sorted[m]);
  }

  /** Filtering keeps a key function injective on what remains. */
  lemma {:induction false} FilterKeepsDistinct<T, K>(s: seq<T>, p: T -> bool, f: T -> K)
    requires forall i, j :: 0 <= i < j < |s| ==> f(s[i]) != f(s[j])
    ensures forall i, j :: 0 <= i < j < |Filter(s, p)| ==> f(Filter(s, p)[i]) != f(Filter(s, p)[j])
  {
    if |s| > 0 {
      var init := s[..|s| - 1];
      var x := s[|s| - 1];
      FilterKeepsDistinct(init, p, f);
      var r := Filter(init, p);
      forall k | 0 <= k < |r| ensures f(r[k]) != f(x) {
        FilterMembers(init, p, r[k]);
        var m :| 0 <= m < |init| && init[m] == r[k];
        assert s[m] == r[k];
      }
    }
  }

  /** Filtering out the one element that fails the predicate removes exactly
      that position. */
  lemma {:induction false} FilterRemovesOne<T>(s: seq<T>, p: T -> bool, k: nat)
    requires k < |s| && !p(s[k])
    requires forall i :: 0 <= i < |s| && i != k ==> p(s[i])
    ensures Filter(s, p) == s[..k] + s[k + 1..]
  {
    var init, last := s[..|s| - 1], s[|s| - 1];
    assert forall i :: 0 <= i < |init| ==> init[i] == s[i];
    if k == |s| - 1 {
      FilterAll(init, p);
      assert s[k + 1..] == [];
    } else {
      FilterRemovesOne(init, p, k);
      assert init[..k] == s[..k];
      assert init[k + 1..] + [last] == s[k + 1..];
    }
  }


  /** Filtering by a predicate every element satisfies changes nothing. */
  lemma {:induction false} FilterAll<T>(s: seq<T>, p: T -> bool)
    requires forall i :: 0 <= i < |s| ==> p(s[i])
    ensures Filter(s, p) == s
  {
    if |s| > 0 {
      FilterAll(s[..|s| - 1], p);
    }
  }
}
