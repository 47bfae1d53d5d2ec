/** The sorted-array helpers the triangle counters call: a binary-search
    membership test, a two-way merge, a two-pointer common-element count,
    and the counter reset. Their C definitions are not part of this model;
    each is given the behaviour its call sites rely on and is proved
    against it. */
module ArrayUtils {

  /** `s` is non-decreasing. */
  predicate Sorted(s: seq<nat>) {
    forall p, q :: 0 <= p < q < |s| ==> s[p] <= s[q]
  }

  /** `s` is strictly increasing (a set listed in order). */
  predicate StrictlySorted(s: seq<nat>) {
    forall p, q :: 0 <= p < q < |s| ==> s[p] < s[q]
  }

  /** The values listed in `s`. */
  function Elems(s: seq<nat>): set<nat> {
    set x | x in s
  }

  /** `arr[lo..hi]` is non-decreasing. */
  predicate SortedRange(arr: seq<nat>, lo: nat, hi: nat) {
    hi <= |arr| && forall p, q :: lo <= p < q < hi ==> arr[p] <= arr[q]
  }

  /** `x` is one of `arr[lo]`, ..., `arr[hi - 1]`. */
  predicate OccursIn(arr: seq<nat>, lo: nat, hi: nat, x: nat)
    requires hi <= |arr|
  {
    exists p :: lo <= p < hi && arr[p] == x
  }

  lemma OccursInSlice(arr: seq<nat>, lo: nat, hi: nat, x: nat)
    requires lo <= hi <= |arr|
    ensures OccursIn(arr, lo, hi, x) <==> x in arr[lo..hi]
  {
    if OccursIn(arr, lo, hi, x) {
      var p :| lo <= p < hi && arr[p] == x;
      assert arr[lo..hi][p - lo] == x;
    }
    if x in arr[lo..hi] {
      var t :| 0 <= t < hi - lo && arr[lo..hi][t] == x;
      assert arr[lo + t] == x;
    }
  }

  lemma SortedSlice(arr: seq<nat>, lo: nat, hi: nat)
    requires lo <= hi <= |arr| && Sorted(arr[lo..hi])
    ensures SortedRange(arr, lo, hi)
  {
    forall p, q | lo <= p < q < hi
      ensures arr[p] <= arr[q]
    {
      assert arr[p] == arr[lo..hi][p - lo] && arr[q] == arr[lo..hi][q - lo];
    }
  }

  lemma StrictlySortedIsSorted(s: seq<nat>)
    requires StrictlySorted(s)
    ensures Sorted(s)
  {
  }

  /** Appending a value above all others keeps a sequence strictly
      increasing. */
  lemma StrictlySortedSnoc(s: seq<nat>, x: nat)
    requires StrictlySorted(s)
    requires forall y :: y in s ==> y < x
    ensures StrictlySorted(s + [x])
  {
    var t := s + [x];
    forall p, q | 0 <= p < q < |t|
      ensures t[p] < t[q]
    {
      if q == |s| {
        assert t[p] == s[p] && s[p] in s;
      }
    }
  }

  /** How many times `v` occurs in `s`. */
  function Occurrences(s: seq<nat>, v: nat): nat
    decreases |s|
  {
    if s == [] then 0 else Occurrences(s[..|s| - 1], v) + (if s[|s| - 1] == v then 1 else 0)
  }

  /** Counting over two consecutive parts. */
  lemma {:induction false} OccurrencesAppend(a: seq<nat>, b: seq<nat>, v: nat)
    ensures Occurrences(a + b, v) == Occurrences(a, v) + Occurrences(b, v)
    decreases |b|
  {
    if b == [] {
      assert a + b == a;
    } else {
      var m := |b| - 1;
      assert (a + b)[..|a + b| - 1] == a + b[..m];
      OccurrencesAppend(a, b[..m], v);
    }
  }

  /** A strictly increasing sequence holds each value at most once. */
  lemma {:induction false} OccurrencesStrictlySorted(s: seq<nat>, v: nat)
    requires StrictlySorted(s)
    ensures Occurrences(s, v) == if v in s then 1 else 0
    decreases |s|
  {
    if s != [] {
      var m := |s| - 1;
      OccurrencesStrictlySorted(s[..m], v);
      assert s == s[..m] + [s[m]];
      if s[m] == v {
        assert v !in s[..m];
      }
    }
  }

  // ---------------------------------------------------------------------
  // binarySearch(arr, lo, hi, value): membership over the inclusive range
  // ---------------------------------------------------------------------

  /** Is `value` one of `arr[lo]`, ..., `arr[hi]`?  The range is inclusive
      and must be sorted. */
  method BinarySearch(arr: seq<nat>, lo: nat, hi: nat, value: nat) returns (found: bool)
    requires lo <= hi < |arr|
    requires SortedRange(arr, lo, hi + 1)
    ensures found <==> OccursIn(arr, lo, hi + 1, value)
  {
    var left, right := lo, hi + 1;
    while left < right
      invariant lo <= left <= right <= hi + 1
      invariant OccursIn(arr, lo, hi + 1, value) ==> OccursIn(arr, left, right, value)
      decreases right - left
    {
      var mid := left + (right - left) / 2;
      if arr[mid] == value {
        return true;
      } else if arr[mid] < value {
        left := mid + 1;
      } else {
        right := mid;
      }
    }
    return false;
  }

  // ---------------------------------------------------------------------
  // mergeArrays(a, b, out, lenA, lenB): stable two-way merge
  // ---------------------------------------------------------------------

  /** The merge of `a` and `b`, taking from `a` on ties. */
  function Merge(a: seq<nat>, b: seq<nat>): (r: seq<nat>)
    ensures |r| == |a| + |b|
    decreases |a| + |b|
  {
    if a == [] then b
    else if b == [] then a
    else if a[0] <= b[0] then [a[0]] + Merge(a[1..], b)
    else [b[0]] + Merge(a, b[1..])
  }

  /** Merging keeps every element of both inputs, with its multiplicity. */
  lemma {:induction false} MergeMultiset(a: seq<nat>, b: seq<nat>)
    ensures multiset(Merge(a, b)) == multiset(a) + multiset(b)
    decreases |a| + |b|
  {
    if a == [] || b == [] {
    } else if a[0] <= b[0] {
      MergeMultiset(a[1..], b);
      assert Merge(a, b) == [a[0]] + Merge(a[1..], b);
      assert a == [a[0]] + a[1..];
    } else {
      MergeMultiset(a, b[1..]);
      assert Merge(a, b) == [b[0]] + Merge(a, b[1..]);
      assert b == [b[0]] + b[1..];
    }
  }

  /** Merging two sorted inputs gives a sorted output. */
  lemma {:induction false} MergeSorted(a: seq<nat>, b: seq<nat>)
    requires Sorted(a) && Sorted(b)
    ensures Sorted(Merge(a, b))
    ensures a != [] && b != [] ==> Merge(a, b)[0] == if a[0] <= b[0] then a[0] else b[0]
    decreases |a| + |b|
  {
    if a == [] || b == [] {
    } else if a[0] <= b[0] {
      var rest := Merge(a[1..], b);
      MergeSorted(a[1..], b);
      if a[1..] != [] {
        assert a[0] <= a[1];
      }
      assert rest != [] ==> a[0] <= rest[0];
      SortedCons(a[0], rest);
    } else {
      var rest := Merge(a, b[1..]);
      MergeSorted(a, b[1..]);
      if b[1..] != [] {
        assert b[0] <= b[1];
      }
      assert rest != [] ==> b[0] <= rest[0];
      SortedCons(b[0], rest);
    }
  }

  lemma SortedCons(x: nat, s: seq<nat>)
    requires Sorted(s)
    requires s != [] ==> x <= s[0]
    ensures Sorted([x] + s)
  {
    var r := [x] + s;
    forall p, q | 0 <= p < q < |r|
      ensures r[p] <= r[q]
    {
      if p == 0 {
        assert r[q] == s[q - 1];
        assert s[0] <= s[q - 1];
      }
    }
  }

  /** When every element of `b` is below every element of `a`, the merge
      lists `b` first and then `a`. */
  lemma {:induction false} MergeOrderedHalves(a: seq<nat>, b: seq<nat>)
    requires forall x, y :: x in a && y in b ==> y < x
    ensures Merge(a, b) == b + a
    decreases |b|
  {
    if a == [] {
      assert b + a == b;
    } else if b == [] {
    } else {
      assert b[0] in b;
      assert a[0] in a;
      assert forall y :: y in b[1..] ==> y in b;
      MergeOrderedHalves(a, b[1..]);
      assert b == [b[0]] + b[1..];
    }
  }

  lemma MergeTakeLeft(a: seq<nat>, b: seq<nat>, i: nat, j: nat)
    requires i < |a| && j <= |b|
    requires j == |b| || a[i] <= b[j]
    ensures Merge(a[i..], b[j..]) == [a[i]] + Merge(a[i + 1..], b[j..])
  {
    assert a[i..][1..] == a[i + 1..];
    if j == |b| {
      assert b[j..] == [];
      assert a[i..] == [a[i]] + a[i + 1..];
    }
  }

  lemma MergeTakeRight(a: seq<nat>, b: seq<nat>, i: nat, j: nat)
    requires i <= |a| && j < |b|
    requires i == |a| || b[j] < a[i]
    ensures Merge(a[i..], b[j..]) == [b[j]] + Merge(a[i..], b[j + 1..])
  {
    assert b[j..][1..] == b[j + 1..];
    if i == |a| {
      assert a[i..] == [];
    }
  }

  /** Fills `merged` with the merge of `a` and `b`; the caller allocates it
      with room for both. */
  method MergeArrays(a: seq<nat>, b: seq<nat>, merged: array<nat>)
    requires merged.Length == |a| + |b|
    modifies merged
    ensures merged[..] == Merge(a, b)
  {
    var i, j := 0, 0;
    while i + j < |a| + |b|
      invariant i <= |a| && j <= |b|
      invariant merged[..i + j] + Merge(a[i..], b[j..]) == Merge(a, b)
      decreases |a| + |b| - i - j
    {
      ghost var done := merged[..i + j];
      var next: nat;
      if j == |b| || (i < |a| && a[i] <= b[j]) {
        MergeTakeLeft(a, b, i, j);
        next := a[i];
        i := i + 1;
      } else {
        MergeTakeRight(a, b, i, j);
        next := b[j];
        j := j + 1;
      }
      assert Merge(a, b) == (done + [next]) + Merge(a[i..], b[j..]);
      merged[i + j - 1] := next;
      assert merged[..i + j] == done + [next];
    }
    assert a[i..] == [] && b[j..] == [];
    assert merged[..] == merged[..i + j];
  }

  // ---------------------------------------------------------------------
  // countCommonElementsInSortedArrays(a, b, lenA, lenB): two-pointer scan
  // ---------------------------------------------------------------------

  /** The number of matches the two-pointer scan of `a` and `b` finds. */
  function CommonCount(a: seq<nat>, b: seq<nat>): (r: nat)
    ensures r <= |a| && r <= |b|
    decreases |a| + |b|
  {
    if a == [] || b == [] then 0
    else if a[0] == b[0] then 1 + CommonCount(a[1..], b[1..])
    else if a[0] < b[0] then CommonCount(a[1..], b)
    else CommonCount(a, b[1..])
  }

  /** On strictly sorted inputs the scan counts exactly the values the two
      arrays share. */
  lemma {:induction false} CommonCountIsIntersection(a: seq<nat>, b: seq<nat>)
    requires StrictlySorted(a) && StrictlySorted(b)
    ensures CommonCount(a, b) == |Elems(a) * Elems(b)|
    decreases |a| + |b|
  {
    if a == [] || b == [] {
      assert Elems(a) * Elems(b) == {};
    } else if a[0] == b[0] {
      CommonCountIsIntersection(a[1..], b[1..]);
      SharedHead(a, b);
    } else if a[0] < b[0] {
      CommonCountIsIntersection(a[1..], b);
      SmallerHead(a, b);
    } else {
      CommonCountIsIntersection(a, b[1..]);
      SmallerHead(b, a);
      assert Elems(b) * Elems(a) == Elems(a) * Elems(b);
      assert Elems(b[1..]) * Elems(a) == Elems(a) * Elems(b[1..]);
    }
  }

  /** On sorted inputs, repeats included, the scan counts the multiset
      intersection: a value held `m` times in `a` and `n` times in `b` is
      matched `min(m, n)` times. */
  lemma {:induction false} CommonCountIsMultisetIntersection(a: seq<nat>, b: seq<nat>)
    requires Sorted(a) && Sorted(b)
    ensures CommonCount(a, b) == |multiset(a) * multiset(b)|
    decreases |a| + |b|
  {
    if a == [] || b == [] {
      assert multiset(a) * multiset(b) == multiset{};
    } else {
      SortedTail(a);
      SortedTail(b);
      if a[0] == b[0] {
        CommonCountIsMultisetIntersection(a[1..], b[1..]);
        SharedHeadMultiset(a, b);
      } else if a[0] < b[0] {
        CommonCountIsMultisetIntersection(a[1..], b);
        SmallerHeadMultiset(a, b);
      } else {
        CommonCountIsMultisetIntersection(a, b[1..]);
        SmallerHeadMultiset(b, a);
        assert multiset(b) * multiset(a) == multiset(a) * multiset(b);
        assert multiset(b[1..]) * multiset(a) == multiset(a) * multiset(b[1..]);
      }
    }
  }

  lemma SortedTail(s: seq<nat>)
    requires Sorted(s) && s != []
    ensures Sorted(s[1..]) && multiset(s) == multiset{s[0]} + multiset(s[1..])
  {
    assert s == [s[0]] + s[1..];
  }

  /** A shared head is matched once, on top of the tails' matches. */
  lemma SharedHeadMultiset(a: seq<nat>, b: seq<nat>)
    requires a != [] && b != [] && a[0] == b[0]
    requires multiset(a) == multiset{a[0]} + multiset(a[1..])
    requires multiset(b) == multiset{b[0]} + multiset(b[1..])
    ensures |multiset(a) * multiset(b)| == 1 + |multiset(a[1..]) * multiset(b[1..])|
  {
    assert multiset(a) * multiset(b) == multiset(a[1..]) * multiset(b[1..]) + multiset{a[0]};
  }

  /** A head below every value of the other sorted list matches nothing. */
  lemma SmallerHeadMultiset(a: seq<nat>, b: seq<nat>)
    requires Sorted(b) && a != [] && b != [] && a[0] < b[0]
    requires multiset(a) == multiset{a[0]} + multiset(a[1..])
    ensures multiset(a) * multiset(b) == multiset(a[1..]) * multiset(b)
  {
    assert a[0] !in b;
    assert multiset(b)[a[0]] == 0;
  }

  lemma SharedHead(a: seq<nat>, b: seq<nat>)
    requires StrictlySorted(a) && StrictlySorted(b)
    requires a != [] && b != [] && a[0] == b[0]
    ensures |Elems(a) * Elems(b)| == 1 + |Elems(a[1..]) * Elems(b[1..])|
  {
    HeadAndTail(a);
    HeadAndTail(b);
    var rest := Elems(a[1..]) * Elems(b[1..]);
    assert Elems(a) * Elems(b) == {a[0]} + rest;
    assert a[0] !in rest;
  }

  lemma SmallerHead(a: seq<nat>, b: seq<nat>)
    requires StrictlySorted(a) && StrictlySorted(b)
    requires a != [] && b != [] && a[0] < b[0]
    ensures Elems(a) * Elems(b) == Elems(a[1..]) * Elems(b)
  {
    HeadAndTail(a);
    HeadAndTail(b);
  }

  /** A strictly sorted, non-empty `s` is its head, which is below
      everything else, followed by its tail. */
  lemma HeadAndTail(s: seq<nat>)
    requires StrictlySorted(s) && s != []
    ensures Elems(s) == {s[0]} + Elems(s[1..])
    ensures forall x :: x in Elems(s[1..]) ==> s[0] < x
  {
    assert s == [s[0]] + s[1..];
    forall x | x in Elems(s[1..]) ensures s[0] < x {
      var p :| 0 <= p < |s[1..]| && s[1..][p] == x;
      assert s[p + 1] == x;
    }
  }

  /** Counts the elements common to `a` and `b` by walking both from the
      front. */
  method CountCommonElementsInSortedArrays(a: seq<nat>, b: seq<nat>) returns (count: nat)
    ensures count == CommonCount(a, b)
    ensures StrictlySorted(a) && StrictlySorted(b) ==> count == |Elems(a) * Elems(b)|
    ensures Sorted(a) && Sorted(b) ==> count == |multiset(a) * multiset(b)|
  {
    var i, j := 0, 0;
    count := 0;
    while i < |a| && j < |b|
      invariant i <= |a| && j <= |b|
      invariant count + CommonCount(a[i..], b[j..]) == CommonCount(a, b)
      decreases |a| + |b| - i - j
    {
      assert a[i..][1..] == a[i + 1..];
      assert b[j..][1..] == b[j + 1..];
      if a[i] == b[j] {
        count := count + 1;
        i, j := i + 1, j + 1;
      } else if a[i] < b[j] {
        i := i + 1;
      } else {
        j := j + 1;
      }
    }
    assert a[i..] == [] || b[j..] == [];
    if StrictlySorted(a) && StrictlySorted(b) {
      CommonCountIsIntersection(a, b);
    }
    if Sorted(a) && Sorted(b) {
      CommonCountIsMultisetIntersection(a, b);
    }
  }

  // ---------------------------------------------------------------------
  // zeroOutArray(a, n)
  // ---------------------------------------------------------------------

  /** Resets every counter to zero. */
  method ZeroOutArray(a: array<nat>)
    modifies a
    ensures forall i :: 0 <= i < a.Length ==> a[i] == 0
  {
    for i := 0 to a.Length
      invariant forall k :: 0 <= k < i ==> a[k] == 0
    {
      a[i] := 0;
    }
  }
}
