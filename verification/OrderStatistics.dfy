/** Sorting and order statistics of real samples. */
module OrderStatistics {

  ghost predicate Sorted(s: seq<real>) {
    forall i, j :: 0 <= i < j < |s| ==> s[i] <= s[j]
  }

  function Insert(x: real, s: seq<real>): (r: seq<real>)
    ensures |r| == |s| + 1
  {
    if s == [] || x <= s[0] then [x] + s else [s[0]] + Insert(x, s[1..])
  }

  /** The samples in ascending order, as `[...values].sort((left, right) => left - right)`. */
  function Sort(s: seq<real>): (r: seq<real>)
    ensures |r| == |s|
  {
    if s == [] then [] else Insert(s[0], Sort(s[1..]))
  }

  /** How many samples are at most `x`. */
  function AtMost(s: seq<real>, x: real): (n: nat)
    ensures n <= |s|
  {
    if s == [] then 0 else (if s[0] <= x then 1 else 0) + AtMost(s[1..], x)
  }

  lemma {:induction false} InsertSorted(x: real, s: seq<real>)
    requires Sorted(s)
    ensures Sorted(Insert(x, s))
    ensures Insert(x, s)[0] == if s == [] || x <= s[0] then x else s[0]
  {
    if s == [] || x <= s[0] {
    } else {
      InsertSorted(x, s[1..]);
      var rest := Insert(x, s[1..]);
      assert s[0] <= rest[0];
      assert forall j :: 0 <= j < |rest| ==> rest[0] <= rest[j];
    }
  }

  lemma {:induction false} InsertAdds(x: real, s: seq<real>)
    ensures multiset(Insert(x, s)) == multiset(s) + multiset{x}
  {
    if s == [] || x <= s[0] {
    } else {
      InsertAdds(x, s[1..]);
      assert s == [s[0]] + s[1..];
    }
  }

  lemma {:induction false} SortIsSortedPermutation(s: seq<real>)
    ensures Sorted(Sort(s)) && multiset(Sort(s)) == multiset(s)
  {
    if s == [] {
    } else {
      SortIsSortedPermutation(s[1..]);
      InsertSorted(s[0], Sort(s[1..]));
      InsertAdds(s[0], Sort(s[1..]));
      assert s == [s[0]] + s[1..];
    }
  }

  lemma {:induction false} CutOut<T>(s: seq<T>, i: nat)
    requires i < |s|
    ensures s == s[..i] + ([s[i]] + s[i + 1..])
    ensures multiset(s) == multiset{s[i]} + multiset(s[..i] + s[i + 1..])
  {
    assert s == s[..i] + ([s[i]] + s[i + 1..]);
    assert multiset([s[i]] + s[i + 1..]) == multiset{s[i]} + multiset(s[i + 1..]);
    assert multiset(s) == multiset(s[..i]) + multiset([s[i]] + s[i + 1..]);
  }

  /** Two permutations of each other: where the head of one stands in the other. */
  lemma {:induction false} PickHead<T>(a: seq<T>, b: seq<T>) returns (i: nat)
    requires a != [] && multiset(a) == multiset(b)
    ensures i < |b| && b[i] == a[0]
    ensures b == b[..i] + ([b[i]] + b[i + 1..])
    ensures multiset(a[1..]) == multiset(b[..i] + b[i + 1..])
  {
    assert a[0] in multiset(b);
    i :| 0 <= i < |b| && b[i] == a[0];
    CutOut(a, 0);
    CutOut(b, i);
    assert a[..0] + a[1..] == a[1..];
    assert multiset(a[1..]) == multiset(a) - multiset{a[0]};
  }

  lemma {:induction false} SameLength<T>(a: seq<T>, b: seq<T>)
    requires multiset(a) == multiset(b)
    ensures |a| == |b|
  {
    assert |multiset(a)| == |a| && |multiset(b)| == |b|;
  }

  lemma {:induction false} AtMostConcat(a: seq<real>, b: seq<real>, x: real)
    ensures AtMost(a + b, x) == AtMost(a, x) + AtMost(b, x)
  {
    if a == [] {
      assert a + b == b;
    } else {
      AtMostConcat(a[1..], b, x);
      assert (a + b)[1..] == a[1..] + b;
    }
  }

  /** Counting does not depend on the order of the samples. */
  lemma {:induction false} AtMostOfPermutation(a: seq<real>, b: seq<real>, x: real)
    requires multiset(a) == multiset(b)
    ensures AtMost(a, x) == AtMost(b, x)
    decreases |a|
  {
    if a == [] {
      SameLength(a, b);
    } else {
      var i := PickHead(a, b);
      var rest := b[..i] + b[i + 1..];
      AtMostOfPermutation(a[1..], rest, x);
      AtMostConcat(b[..i], b[i + 1..], x);
      AtMostConcat(b[..i], [b[i]] + b[i + 1..], x);
    }
  }

  /** In a sorted sequence the first AtMost(x) samples are those at most `x`. */
  lemma {:induction false} SortedRank(s: seq<real>, k: nat, x: real)
    requires Sorted(s) && k < |s|
    ensures s[k] <= x <==> k < AtMost(s, x)
  {
    if s[0] > x {
      NoneAtMost(s, x);
    } else if k > 0 {
      SortedRank(s[1..], k - 1, x);
    }
  }

  lemma {:induction false} NoneAtMost(s: seq<real>, x: real)
    requires forall i :: 0 <= i < |s| ==> s[i] > x
    ensures AtMost(s, x) == 0
  {
    if s == [] {
    } else {
      NoneAtMost(s[1..], x);
    }
  }

  /** The k-th order statistic is at most `x` exactly when more than k samples are. */
  lemma {:induction false} OrderStatistic(s: seq<real>, k: nat, x: real)
    requires k < |s|
    ensures Sort(s)[k] <= x <==> k < AtMost(s, x)
  {
    SortIsSortedPermutation(s);
    SortedRank(Sort(s), k, x);
    AtMostOfPermutation(Sort(s), s, x);
  }

  lemma {:induction false} AtMostOfLarger(a: seq<real>, b: seq<real>, x: real)
    requires |a| == |b| && forall i :: 0 <= i < |a| ==> a[i] <= b[i]
    ensures AtMost(b, x) <= AtMost(a, x)
  {
    if a == [] {
    } else {
      AtMostOfLarger(a[1..], b[1..], x);
    }
  }

  /** Raising samples, each in its own place, raises every order statistic. */
  lemma {:induction false} OrderStatisticsMonotone(a: seq<real>, b: seq<real>, k: nat)
    requires |a| == |b| && k < |a| && forall i :: 0 <= i < |a| ==> a[i] <= b[i]
    ensures Sort(a)[k] <= Sort(b)[k]
  {
    var x := Sort(b)[k];
    OrderStatistic(b, k, x);
    AtMostOfLarger(a, b, x);
    OrderStatistic(a, k, x);
  }

  /** Sorting forgets the order of its input, so every sorting algorithm gives the same result. */
  lemma {:induction false} SortOfPermutation(a: seq<real>, b: seq<real>)
    requires multiset(a) == multiset(b)
    ensures Sort(a) == Sort(b)
  {
    SameLength(a, b);
    forall k | 0 <= k < |a| ensures Sort(a)[k] == Sort(b)[k] {
      AtMostOfPermutation(a, b, Sort(a)[k]);
      AtMostOfPermutation(a, b, Sort(b)[k]);
      OrderStatistic(a, k, Sort(a)[k]);
      OrderStatistic(a, k, Sort(b)[k]);
      OrderStatistic(b, k, Sort(a)[k]);
      OrderStatistic(b, k, Sort(b)[k]);
    }
  }

  lemma {:induction false} SortIsUnique(a: seq<real>, r: seq<real>)
    requires Sorted(r) && multiset(r) == multiset(a)
    ensures r == Sort(a)
  {
    SortOfPermutation(a, r);
    forall k | 0 <= k < |r| ensures Sort(r)[k] == r[k] {
      OrderStatistic(r, k, r[k]);
      SortedRank(r, k, r[k]);
      OrderStatistic(r, k, Sort(r)[k]);
      SortedRank(r, k, Sort(r)[k]);
    }
  }
}
