/** Python's `list.sort(key=...)` and `sorted(..., key=..., reverse=...)` as a
    functional stable insertion sort by a real-valued key, with the three facts
    that characterise it: the result is ordered by the key, it is a permutation
    of the input, and elements with equal keys keep their relative order.
    A descending sort (`reverse=True`, which Python keeps stable) is the
    ascending sort by the negated key. Also holds `Sum`, the `sum()` of reals. */
module StableSort {

  /** Ascending by `key`. */
  predicate SortedBy<T>(s: seq<T>, key: T -> real) {
    forall i, j :: 0 <= i < j < |s| ==> key(s[i]) <= key(s[j])
  }

  /** The elements of `s` whose key is exactly `v`, in their order in `s`. */
  function WithKey<T>(s: seq<T>, key: T -> real, v: real): seq<T> {
    if |s| == 0 then []
    else (if key(s[0]) == v then [s[0]] else []) + WithKey(s[1..], key, v)
  }

  /** Places `x` in front of the first element whose key is not smaller, so
      that `x` stays ahead of every element with an equal key. */
  function Insert<T>(x: T, s: seq<T>, key: T -> real): seq<T> {
    if |s| == 0 || key(x) <= key(s[0]) then [x] + s
    else [s[0]] + Insert(x, s[1..], key)
  }

  /** Stable insertion sort, ascending by `key`. */
  function SortBy<T>(s: seq<T>, key: T -> real): (r: seq<T>)
    ensures |r| == |s|
    ensures SortedBy(r, key)
    ensures multiset(r) == multiset(s)
    ensures forall v :: WithKey(r, key, v) == WithKey(s, key, v)
  {
    if |s| == 0 then []
    else
      var t := SortBy(s[1..], key);
      InsertStep(s, t, key);
      Insert(s[0], t, key)
  }

  /** Stable sort, descending by `key` (Python's `reverse=True`, which keeps
      elements with equal keys in their original order). */
  function SortDescBy<T>(s: seq<T>, key: T -> real): (r: seq<T>)
    ensures |r| == |s|
    ensures forall i, j :: 0 <= i < j < |r| ==> key(r[i]) >= key(r[j])
    ensures multiset(r) == multiset(s)
    ensures forall v :: WithKey(r, key, v) == WithKey(s, key, v)
  {
    var neg := (x: T) => -key(x);
    var r := SortBy(s, neg);
    assert forall i, j :: 0 <= i < j < |r| ==> neg(r[i]) <= neg(r[j]);
    forall v
      ensures WithKey(r, key, v) == WithKey(s, key, v)
    {
      WithNegatedKey(r, key, v);
      WithNegatedKey(s, key, v);
    }
    r
  }

  /** From largest to smallest. */
  predicate Descending(s: seq<real>) {
    forall i, j :: 0 <= i < j < |s| ==> s[i] >= s[j]
  }

  /** Places `x` in front of the first element it is at least as large as. */
  function InsertDesc(x: real, s: seq<real>): seq<real> {
    if |s| == 0 || x >= s[0] then [x] + s
    else [s[0]] + InsertDesc(x, s[1..])
  }

  /** A list of reals from largest to smallest (`list.sort(reverse=True)`;
      equal reals are indistinguishable, so stability plays no part). */
  function SortDescending(s: seq<real>): (r: seq<real>)
    ensures |r| == |s|
    ensures Descending(r)
    ensures multiset(r) == multiset(s)
  {
    if |s| == 0 then []
    else
      var t := SortDescending(s[1..]);
      InsertDescStep(s, t);
      InsertDesc(s[0], t)
  }

  /** `sum()` of a list of reals. */
  function Sum(s: seq<real>): real {
    if |s| == 0 then 0.0 else s[0] + Sum(s[1..])
  }

  // ---------------------------------------------------------------------
  // Facts about the sort.

  lemma {:induction false} InsertPermutes<T>(x: T, s: seq<T>, key: T -> real)
    ensures |Insert(x, s, key)| == |s| + 1
    ensures multiset(Insert(x, s, key)) == multiset(s) + multiset{x}
    decreases |s|
  {
    if |s| > 0 && key(x) > key(s[0]) {
      InsertPermutes(x, s[1..], key);
      assert s == [s[0]] + s[1..];
    }
  }

  /** Inserting into a sorted sequence keeps it sorted. */
  lemma {:induction false} InsertSorted<T>(x: T, s: seq<T>, key: T -> real)
    requires SortedBy(s, key)
    ensures SortedBy(Insert(x, s, key), key)
    decreases |s|
  {
    if |s| > 0 && key(x) > key(s[0]) {
      var t := Insert(x, s[1..], key);
      SortedTail(s, key);
      InsertSorted(x, s[1..], key);
      InsertLowerBound(x, s[1..], key, key(s[0]));
      var r := [s[0]] + t;
      forall i, j | 0 <= i < j < |r|
        ensures key(r[i]) <= key(r[j])
      {
        assert r[j] == t[j - 1];
        if i > 0 {
          assert r[i] == t[i - 1];
        }
      }
    }
  }

  /** A lower bound on every key survives an insertion that respects it. */
  lemma {:induction false} InsertLowerBound<T>(x: T, s: seq<T>, key: T -> real, k: real)
    requires k <= key(x)
    requires forall i :: 0 <= i < |s| ==> k <= key(s[i])
    ensures forall i :: 0 <= i < |Insert(x, s, key)| ==> k <= key(Insert(x, s, key)[i])
    decreases |s|
  {
    if |s| > 0 && key(x) > key(s[0]) {
      assert forall i :: 0 <= i < |s[1..]| ==> s[1..][i] == s[i + 1];
      InsertLowerBound(x, s[1..], key, k);
      var t := Insert(x, s[1..], key);
      assert forall i :: 1 <= i < |t| + 1 ==> ([s[0]] + t)[i] == t[i - 1];
    }
  }

  /** One step of the insertion sort: inserting the head into the sorted
      tail gives a sorted, stable permutation of the whole sequence. */
  lemma InsertStep<T>(s: seq<T>, t: seq<T>, key: T -> real)
    requires |s| > 0
    requires SortedBy(t, key)
    requires multiset(t) == multiset(s[1..])
    requires forall v :: WithKey(t, key, v) == WithKey(s[1..], key, v)
    ensures |Insert(s[0], t, key)| == |s|
    ensures SortedBy(Insert(s[0], t, key), key)
    ensures multiset(Insert(s[0], t, key)) == multiset(s)
    ensures forall v :: WithKey(Insert(s[0], t, key), key, v) == WithKey(s, key, v)
  {
    InsertPermutes(s[0], t, key);
    InsertSorted(s[0], t, key);
    InsertStable(s[0], t, key);
    assert s == [s[0]] + s[1..];
    assert |t| == |multiset(t)| == |s[1..]|;
    forall v
      ensures WithKey(s, key, v) == (if key(s[0]) == v then [s[0]] else []) + WithKey(s[1..], key, v)
    {
    }
  }

  /** Inserting `x` puts it ahead of every element with the same key. */
  lemma {:induction false} InsertStable<T>(x: T, s: seq<T>, key: T -> real)
    ensures forall v :: WithKey(Insert(x, s, key), key, v) == (if key(x) == v then [x] else []) + WithKey(s, key, v)
    decreases |s|
  {
    if |s| == 0 || key(x) <= key(s[0]) {
      assert ([x] + s)[1..] == s;
    } else {
      InsertStable(x, s[1..], key);
      var r := [s[0]] + Insert(x, s[1..], key);
      assert r[1..] == Insert(x, s[1..], key);
    }
  }

  /** The stable sort is the only ordering of the input that is sorted and
      keeps equal keys in input order: any other such sequence equals it. */
  lemma {:induction false} StableSortUnique<T>(s: seq<T>, r: seq<T>, key: T -> real)
    requires SortedBy(r, key)
    requires forall v :: WithKey(r, key, v) == WithKey(s, key, v)
    ensures r == SortBy(s, key)
  {
    var q := SortBy(s, key);
    SortedAgree(r, q, key);
  }

  /** Two key-sorted sequences that agree on every key class are equal. */
  lemma {:induction false} SortedAgree<T>(a: seq<T>, b: seq<T>, key: T -> real)
    requires SortedBy(a, key) && SortedBy(b, key)
    requires forall v :: WithKey(a, key, v) == WithKey(b, key, v)
    ensures a == b
    decreases |a| + |b|
  {
    if |a| == 0 || |b| == 0 {
      // A non-empty side would have a non-empty key class the other side lacks.
      WithKeyNonEmpty(a, key);
      WithKeyNonEmpty(b, key);
    } else {
      WithKeyHead(a, key);
      WithKeyHead(b, key);
      var ka, kb := key(a[0]), key(b[0]);
      // Each head's key occurs in the other sequence, so neither is smaller.
      WithKeyMember(b, key, ka);
      WithKeyMember(a, key, kb);
      assert ka == kb;
      assert a[0] == WithKey(a, key, ka)[0] == WithKey(b, key, ka)[0] == b[0];
      forall v
        ensures WithKey(a[1..], key, v) == WithKey(b[1..], key, v)
      {
        var wa, wb := WithKey(a, key, v), WithKey(b, key, v);
        assert wa == wb;
        assert wa == (if ka == v then [a[0]] else []) + WithKey(a[1..], key, v);
        assert wb == (if kb == v then [b[0]] else []) + WithKey(b[1..], key, v);
        if ka == v {
          assert WithKey(a[1..], key, v) == wa[1..];
          assert WithKey(b[1..], key, v) == wb[1..];
        } else {
          assert kb != v;
          assert WithKey(a[1..], key, v) == wa;
          assert WithKey(b[1..], key, v) == wb;
        }
      }
      SortedTail(a, key);
      SortedTail(b, key);
      SortedAgree(a[1..], b[1..], key);
      assert a == [a[0]] + a[1..] && b == [b[0]] + b[1..];
    }
  }

  /** Negating the key relabels key classes without changing their members. */
  lemma {:induction false} WithNegatedKey<T>(s: seq<T>, key: T -> real, v: real)
    ensures WithKey(s, (x: T) => -key(x), -v) == WithKey(s, key, v)
  {
    if |s| > 0 {
      WithNegatedKey(s[1..], key, v);
    }
  }

  lemma SortedTail<T>(s: seq<T>, key: T -> real)
    requires |s| > 0 && SortedBy(s, key)
    ensures SortedBy(s[1..], key)
  {
    forall i, j | 0 <= i < j < |s| - 1
      ensures key(s[1..][i]) <= key(s[1..][j])
    {
      assert s[1..][i] == s[i + 1] && s[1..][j] == s[j + 1];
    }
  }

  /** In a sorted sequence the head's key bounds every later element's key. */
  lemma HeadBelowTail<T>(s: seq<T>, key: T -> real)
    requires |s| > 0 && SortedBy(s, key)
    ensures forall x :: x in s[1..] ==> key(s[0]) <= key(x)
  {
    forall x | x in s[1..]
      ensures key(s[0]) <= key(x)
    {
      var k :| 0 <= k < |s[1..]| && s[1..][k] == x;
      assert s[k + 1] == x;
    }
  }

  /** Putting an element no larger than any other in front keeps a sequence sorted. */
  lemma SortedCons<T>(x: T, s: seq<T>, key: T -> real)
    requires SortedBy(s, key)
    requires forall y :: y in s ==> key(x) <= key(y)
    ensures SortedBy([x] + s, key)
  {
    var r := [x] + s;
    forall i, j | 0 <= i < j < |r|
      ensures key(r[i]) <= key(r[j])
    {
      assert r[j] == s[j - 1];
      if i > 0 {
        assert r[i] == s[i - 1];
      }
    }
  }

  lemma WithKeyNonEmpty<T>(s: seq<T>, key: T -> real)
    ensures |s| > 0 ==> WithKey(s, key, key(s[0])) != []
  {
  }

  lemma WithKeyHead<T>(s: seq<T>, key: T -> real)
    requires |s| > 0
    ensures WithKey(s, key, key(s[0])) == [s[0]] + WithKey(s[1..], key, key(s[0]))
  {
  }

  /** In a sorted sequence, every element with key `v` sits at or after the
      head, so a key class that is non-empty has key at least the head's. */
  lemma {:induction false} WithKeyMember<T>(s: seq<T>, key: T -> real, v: real)
    requires SortedBy(s, key)
    requires |WithKey(s, key, v)| > 0
    ensures |s| > 0 && key(s[0]) <= v
    decreases |s|
  {
    if |s| > 0 && key(s[0]) != v {
      SortedTail(s, key);
      WithKeyMember(s[1..], key, v);
      assert key(s[0]) <= key(s[1]);
    }
  }

  // ---------------------------------------------------------------------
  // Facts about the descending sort of reals.

  /** One step of the descending sort: the head inserted into the sorted tail. */
  lemma InsertDescStep(s: seq<real>, t: seq<real>)
    requires |s| > 0
    requires Descending(t)
    requires multiset(t) == multiset(s[1..])
    ensures |InsertDesc(s[0], t)| == |s|
    ensures Descending(InsertDesc(s[0], t))
    ensures multiset(InsertDesc(s[0], t)) == multiset(s)
  {
    InsertDescPermutes(s[0], t);
    InsertDescSorted(s[0], t);
    SameLength(t, s[1..]);
    assert s == [s[0]] + s[1..];
  }

  /** Inserting adds exactly `x`. */
  lemma {:induction false} InsertDescPermutes(x: real, s: seq<real>)
    ensures |InsertDesc(x, s)| == |s| + 1
    ensures multiset(InsertDesc(x, s)) == multiset(s) + multiset{x}
    decreases |s|
  {
    if |s| > 0 && x < s[0] {
      InsertDescPermutes(x, s[1..]);
      assert s == [s[0]] + s[1..];
    }
  }

  /** Inserting into a descending list keeps it descending. */
  lemma {:induction false} InsertDescSorted(x: real, s: seq<real>)
    requires Descending(s)
    ensures |InsertDesc(x, s)| > 0
    ensures InsertDesc(x, s)[0] == x || (|s| > 0 && InsertDesc(x, s)[0] == s[0])
    ensures Descending(InsertDesc(x, s))
    decreases |s|
  {
    if |s| > 0 && x < s[0] {
      DescendingTail(s);
      InsertDescSorted(x, s[1..]);
      ConsDescending(s[0], InsertDesc(x, s[1..]));
    } else {
      ConsDescending(x, s);
    }
  }

  /** Sorting a list that is already descending changes nothing. */
  lemma AlreadyDescending(scores: seq<real>)
    requires Descending(scores)
    ensures SortDescending(scores) == scores
  {
    DescendingIsUnique(SortDescending(scores), scores);
  }

  /** A descending list is determined by its multiset. */
  lemma {:induction false} DescendingIsUnique(a: seq<real>, b: seq<real>)
    requires Descending(a)
    requires Descending(b)
    requires multiset(a) == multiset(b)
    ensures a == b
    decreases |a|
  {
    SameLength(a, b);
    if |a| > 0 {
      SameHead(a, b);
      PermutationTail(a, b, 0);
      assert b[..0] + b[1..] == b[1..];
      DescendingTail(a);
      DescendingTail(b);
      DescendingIsUnique(a[1..], b[1..]);
      HeadTailEqual(a, b);
    }
  }

  /** Lists that agree on the head and on the rest are equal. */
  lemma HeadTailEqual(a: seq<real>, b: seq<real>)
    requires |a| > 0 && |b| > 0 && a[0] == b[0] && a[1..] == b[1..]
    ensures a == b
  {
    assert a == [a[0]] + a[1..] && b == [b[0]] + b[1..];
  }

  /** Two descending lists with the same elements start with the same (largest) one. */
  lemma SameHead(a: seq<real>, b: seq<real>)
    requires |a| > 0 && |b| > 0
    requires Descending(a) && Descending(b)
    requires multiset(a) == multiset(b)
    ensures a[0] == b[0]
  {
    assert a[0] in multiset(b) && b[0] in multiset(a);
    HeadIsLargest(a, b[0]);
    HeadIsLargest(b, a[0]);
  }

  /** Dropping the head keeps a list descending. */
  lemma DescendingTail(s: seq<real>)
    requires |s| > 0
    requires Descending(s)
    ensures Descending(s[1..])
  {
    assert forall i :: 0 <= i < |s| - 1 ==> s[1..][i] == s[i + 1];
  }

  /** A list stays descending when its new head is at least the old head. */
  lemma ConsDescending(h: real, t: seq<real>)
    requires Descending(t)
    requires |t| > 0 ==> h >= t[0]
    ensures Descending([h] + t)
  {
    var r := [h] + t;
    forall i, j | 0 <= i < j < |r|
      ensures r[i] >= r[j]
    {
      if i == 0 && j > 1 {
        assert r[j] == t[j - 1] && t[0] >= t[j - 1];
      }
    }
  }

  /** The head of a descending list is at least each of its elements. */
  lemma HeadIsLargest(s: seq<real>, x: real)
    requires Descending(s)
    requires x in multiset(s)
    ensures s[0] >= x
  {
    var k := IndexOf(s, x);
    assert k == 0 || s[0] >= s[k];
  }

  // ---------------------------------------------------------------------
  // Facts about Sum.

  lemma {:induction false} SumAppend(a: seq<real>, b: seq<real>)
    ensures Sum(a + b) == Sum(a) + Sum(b)
    decreases |a|
  {
    if |a| == 0 {
      assert a + b == b;
    } else {
      assert (a + b)[1..] == a[1..] + b;
      SumAppend(a[1..], b);
    }
  }

  /** The sum does not depend on the order of the summands. */
  lemma {:induction false} SumPermutation(a: seq<real>, b: seq<real>)
    requires multiset(a) == multiset(b)
    ensures Sum(a) == Sum(b)
    decreases |a|
  {
    if |a| == 0 {
      SameLength(a, b);
    } else {
      assert a[0] in multiset(a);
      var i := IndexOf(b, a[0]);
      PermutationTail(a, b, i);
      SumPermutation(a[1..], b[..i] + b[i + 1..]);
      SumRemoveAt(b, i);
    }
  }

  /** Dropping the same element from two permutations of each other leaves permutations. */
  lemma PermutationTail<T>(a: seq<T>, b: seq<T>, i: int)
    requires |a| > 0 && 0 <= i < |b| && b[i] == a[0]
    requires multiset(a) == multiset(b)
    ensures multiset(a[1..]) == multiset(b[..i] + b[i + 1..])
  {
    var x, l, r := a[0], b[..i], b[i + 1..];
    assert a == [x] + a[1..];
    assert b == l + [x] + r;
    assert multiset(a) == multiset{x} + multiset(a[1..]);
    assert multiset(b) == multiset{x} + (multiset(l) + multiset(r));
    assert multiset(l + r) == multiset(l) + multiset(r);
    assert multiset(a[1..]) == multiset(a) - multiset{x};
    assert multiset(l + r) == multiset(b) - multiset{x};
  }

  /** Permutations of each other have the same length. */
  lemma SameLength<T>(a: seq<T>, b: seq<T>)
    requires multiset(a) == multiset(b)
    ensures |a| == |b|
  {
    assert |a| == |multiset(a)|;
  }

  /** A position holding `x`, when `x` occurs. */
  lemma IndexOf<T>(s: seq<T>, x: T) returns (i: int)
    requires x in multiset(s)
    ensures 0 <= i < |s| && s[i] == x
  {
    i :| 0 <= i < |s| && s[i] == x;
  }

  /** The sum is the element at `i` plus the sum of the others. */
  lemma SumRemoveAt(s: seq<real>, i: int)
    requires 0 <= i < |s|
    ensures Sum(s) == s[i] + Sum(s[..i] + s[i + 1..])
  {
    assert s == s[..i] + s[i..];
    assert s[i..][1..] == s[i + 1..];
    SumAppend(s[..i], s[i..]);
    SumAppend(s[..i], s[i + 1..]);
  }

  // ---------------------------------------------------------------------
  // Permutations keep a sequence free of repeated projections.

  /** No two positions of `s` share the same `f`-value. */
  ghost predicate DistinctBy<T, U>(s: seq<T>, f: T -> U) {
    forall i, j :: 0 <= i < j < |s| ==> f(s[i]) != f(s[j])
  }

  lemma {:induction false} DistinctByPermutation<T, U>(a: seq<T>, b: seq<T>, f: T -> U)
    requires multiset(a) == multiset(b)
    requires DistinctBy(a, f)
    ensures DistinctBy(b, f)
  {
    DistinctHasNoRepeats(a, f);
    forall i, j | 0 <= i < j < |b|
      ensures f(b[i]) != f(b[j])
    {
      CountAtTwoPositions(b, i, j);
      assert b[i] != b[j];
      assert b[i] in multiset(a) && b[j] in multiset(a);
      var p :| 0 <= p < |a| && a[p] == b[i];
      var q :| 0 <= q < |a| && a[q] == b[j];
      assert p != q;
    }
  }

  /** An element at position `i` is counted once more if it recurs at position `j`. */
  lemma CountAtTwoPositions<T>(s: seq<T>, i: int, j: int)
    requires 0 <= i < j < |s|
    ensures multiset(s)[s[i]] >= 1 + (if s[j] == s[i] then 1 else 0)
  {
    assert s == s[..j] + [s[j]] + s[j + 1..];
    assert s[..j][i] == s[i];
    assert s[i] in multiset(s[..j]);
  }

  /** A sequence whose elements have pairwise distinct projections holds each element at most once. */
  lemma {:induction false} DistinctHasNoRepeats<T, U>(s: seq<T>, f: T -> U)
    requires DistinctBy(s, f)
    ensures forall x :: multiset(s)[x] <= 1
    decreases |s|
  {
    if |s| > 0 {
      assert DistinctBy(s[1..], f) by {
        forall i, j | 0 <= i < j < |s| - 1
          ensures f(s[1..][i]) != f(s[1..][j])
        {
          assert s[1..][i] == s[i + 1] && s[1..][j] == s[j + 1];
        }
      }
      DistinctHasNoRepeats(s[1..], f);
      assert s == [s[0]] + s[1..];
      forall k | 0 <= k < |s[1..]|
        ensures s[1..][k] != s[0]
      {
        assert s[1..][k] == s[k + 1];
        assert f(s[0]) != f(s[k + 1]);
      }
      assert s[0] !in s[1..];
      assert s[0] !in multiset(s[1..]);
    }
  }
}
