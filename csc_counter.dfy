/** The CSC triangle counter of main.c: `checkForCommonValueInSubarrays`,
    the sequential driver `cscSequential`, the two OpenMP drivers and the
    aggregation done by `runAndPresentResult`.

    For every off-diagonal entry `subRow` of column `i`, the counter
    compares column `subRow` with the part of column `i` after that entry.
    Each value found in both adds one to the counters of `subRow`, of `i`
    and of the value itself. */
module CscCounter {
  import opened ArrayUtils
  import opened Counters
  import opened CscGraph

  // ---------------------------------------------------------------------
  // swapInts and the choice of which range to scan
  // ---------------------------------------------------------------------

  /** Exchanges two values (through pointers, in the C code). */
  method SwapInts(n1: nat, n2: nat) returns (r1: nat, r2: nat)
    ensures r1 == n2 && r2 == n1
  {
    var temp := n1;
    r1 := n2;
    r2 := temp;
  }

  /** Two index ranges of the row array: `[searchFrom, searchTo)` is
      searched by binary search, `[scanFrom, scanTo)` is walked. */
  datatype Ranges = Ranges(searchFrom: nat, searchTo: nat, scanFrom: nat, scanTo: nat)

  /** The ranges after the conditional swap: range 2 is walked unless it
      is the longer one. */
  function Orient(start1: nat, end1: nat, start2: nat, end2: nat): (r: Ranges)
    requires start1 <= end1 && start2 <= end2
    ensures r == Ranges(start1, end1, start2, end2) || r == Ranges(start2, end2, start1, end1)
    ensures r.scanFrom <= r.scanTo && r.searchFrom <= r.searchTo
    ensures r.scanTo - r.scanFrom <= r.searchTo - r.searchFrom
  {
    if end1 - start1 < end2 - start2 then Ranges(start2, end2, start1, end1)
    else Ranges(start1, end1, start2, end2)
  }

  /** Both ranges lie inside `arr`. */
  predicate Within(arr: seq<nat>, r: Ranges) {
    r.searchFrom <= r.searchTo <= |arr| && r.scanFrom <= r.scanTo <= |arr|
  }

  /** The values the loop of `checkForCommonValueInSubarrays` counts among
      the walked positions before `upTo`: the value `arr[k]` at every
      position `k` that differs from it and that occurs in the searched
      range. */
  function Hits(arr: seq<nat>, r: Ranges, upTo: nat): seq<nat>
    requires Within(arr, r) && r.scanFrom <= upTo <= r.scanTo
    decreases upTo
  {
    if upTo == r.scanFrom then []
    else
      var k := upTo - 1;
      Hits(arr, r, k)
        + (if k != arr[k] && OccursIn(arr, r.searchFrom, r.searchTo, arr[k]) then [arr[k]] else [])
  }

  /** The same walk without the `k == arr[k]` test: the values of the
      walked positions that occur in the searched range. */
  function Common(arr: seq<nat>, r: Ranges, upTo: nat): seq<nat>
    requires Within(arr, r) && r.scanFrom <= upTo <= r.scanTo
    decreases upTo
  {
    if upTo == r.scanFrom then []
    else
      var k := upTo - 1;
      Common(arr, r, k) + (if OccursIn(arr, r.searchFrom, r.searchTo, arr[k]) then [arr[k]] else [])
  }

  /** The increments for a list of hits: for each hit `w`, one each to
      `colIndex1`, `colIndex2` and `w`, in that order. */
  function HitIncs(colIndex1: nat, colIndex2: nat, hits: seq<nat>): (r: seq<Increment>)
    ensures |r| == 3 * |hits|
    decreases |hits|
  {
    if |hits| == 0 then []
    else HitIncs(colIndex1, colIndex2, hits[..|hits| - 1]) + Ones(colIndex1, colIndex2, hits[|hits| - 1])
  }

  // ---------------------------------------------------------------------
  // What the hits are
  // ---------------------------------------------------------------------

  /** A walked position whose value equals its own index never counts,
      whether or not the value occurs in the searched range; every other
      walked position counts exactly when its value occurs there. */
  lemma {:induction false} HitsAreCommonExceptSelfPositions(arr: seq<nat>, r: Ranges, upTo: nat)
    requires Within(arr, r) && r.scanFrom <= upTo <= r.scanTo
    ensures |Hits(arr, r, upTo)| <= |Common(arr, r, upTo)|
    ensures (forall k :: r.scanFrom <= k < upTo ==> k != arr[k])
            ==> Hits(arr, r, upTo) == Common(arr, r, upTo)
    decreases upTo
  {
    if upTo > r.scanFrom {
      HitsAreCommonExceptSelfPositions(arr, r, upTo - 1);
    }
  }

  /** Without the `k == arr[k]` test, the walk finds exactly the values the
      two ranges share. */
  lemma {:induction false} CommonIsIntersection(arr: seq<nat>, r: Ranges, upTo: nat)
    requires Within(arr, r) && r.scanFrom <= upTo <= r.scanTo
    ensures Elems(Common(arr, r, upTo))
         == Elems(arr[r.scanFrom..upTo]) * Elems(arr[r.searchFrom..r.searchTo])
    decreases upTo
  {
    if upTo > r.scanFrom {
      var k := upTo - 1;
      CommonIsIntersection(arr, r, k);
      var prev := Common(arr, r, k);
      assert arr[r.scanFrom..upTo] == arr[r.scanFrom..k] + [arr[k]];
      assert Elems(arr[r.scanFrom..upTo]) == Elems(arr[r.scanFrom..k]) + {arr[k]};
      OccursInSlice(arr, r.searchFrom, r.searchTo, arr[k]);
      if arr[k] in arr[r.searchFrom..r.searchTo] {
        assert Elems(prev + [arr[k]]) == Elems(prev) + {arr[k]};
      } else {
        assert prev + [] == prev;
      }
    }
  }

  /** ... and, when the walked range is strictly sorted, lists each of them
      once, in ascending order. */
  lemma {:induction false} CommonSorted(arr: seq<nat>, r: Ranges, upTo: nat)
    requires Within(arr, r) && r.scanFrom <= upTo <= r.scanTo
    requires StrictlySorted(arr[r.scanFrom..r.scanTo])
    ensures StrictlySorted(Common(arr, r, upTo))
    ensures forall x :: x in Common(arr, r, upTo) ==> x in arr[r.scanFrom..upTo]
    decreases upTo
  {
    if upTo > r.scanFrom {
      var k := upTo - 1;
      CommonSorted(arr, r, k);
      var prev := Common(arr, r, k);
      assert arr[r.scanFrom..upTo] == arr[r.scanFrom..k] + [arr[k]];
      forall x | x in prev
        ensures x < arr[k]
      {
        var p :| 0 <= p < |arr[r.scanFrom..k]| && arr[r.scanFrom..k][p] == x;
        assert arr[r.scanFrom..r.scanTo][p] == x;
        assert arr[r.scanFrom..r.scanTo][k - r.scanFrom] == arr[k];
      }
      if OccursIn(arr, r.searchFrom, r.searchTo, arr[k]) {
        StrictlySortedSnoc(prev, arr[k]);
      } else {
        assert prev + [] == prev;
      }
    }
  }

  /** A strictly sorted sequence lists as many values as it has
      elements. */
  lemma {:induction false} StrictlySortedCount(s: seq<nat>)
    requires StrictlySorted(s)
    ensures |Elems(s)| == |s|
    decreases |s|
  {
    if s != [] {
      var n := |s| - 1;
      StrictlySortedCount(s[..n]);
      assert s == s[..n] + [s[n]];
      assert Elems(s) == Elems(s[..n]) + {s[n]};
      assert s[n] !in Elems(s[..n]);
    }
  }

  /** Walking a strictly ascending range and searching another finds as
      many common values as the two ranges share. */
  lemma CommonCountOf(arr: seq<nat>, r: Ranges)
    requires Within(arr, r)
    requires StrictlySorted(arr[r.scanFrom..r.scanTo])
    ensures |Common(arr, r, r.scanTo)| == |Elems(arr[r.scanFrom..r.scanTo]) * Elems(arr[r.searchFrom..r.searchTo])|
  {
    CommonIsIntersection(arr, r, r.scanTo);
    CommonSorted(arr, r, r.scanTo);
    StrictlySortedCount(Common(arr, r, r.scanTo));
  }

  /** The number of values the two ranges share does not depend on which
      of them is walked: walking range 2 and searching range 1, or the
      reverse, finds the same number, so without the `k == arr[k]` test
      the swap would only change the cost of the search. */
  lemma CommonCountSymmetric(arr: seq<nat>, start1: nat, end1: nat, start2: nat, end2: nat)
    requires start1 <= end1 <= |arr| && start2 <= end2 <= |arr|
    requires StrictlySorted(arr[start1..end1]) && StrictlySorted(arr[start2..end2])
    ensures |Common(arr, Ranges(start1, end1, start2, end2), end2)|
         == |Elems(arr[start1..end1]) * Elems(arr[start2..end2])|
    ensures |Common(arr, Ranges(start2, end2, start1, end1), end1)|
         == |Elems(arr[start1..end1]) * Elems(arr[start2..end2])|
    ensures var r := Orient(start1, end1, start2, end2);
            |Common(arr, r, r.scanTo)| == |Elems(arr[start1..end1]) * Elems(arr[start2..end2])|
  {
    CommonCountOf(arr, Ranges(start1, end1, start2, end2));
    CommonCountOf(arr, Ranges(start2, end2, start1, end1));
    assert Elems(arr[start2..end2]) * Elems(arr[start1..end1])
        == Elems(arr[start1..end1]) * Elems(arr[start2..end2]);
  }

  lemma HitIncsSnoc(colIndex1: nat, colIndex2: nat, hits: seq<nat>, w: nat)
    ensures HitIncs(colIndex1, colIndex2, hits + [w])
         == HitIncs(colIndex1, colIndex2, hits) + Ones(colIndex1, colIndex2, w)
  {
    assert (hits + [w])[..|hits|] == hits;
  }

  /** What a list of hits adds to counter `v`: one per hit if `v` is
      `colIndex1`, one per hit if it is `colIndex2`, and one per occurrence
      of `v` among the hits. */
  function HitGain(colIndex1: nat, colIndex2: nat, hits: seq<nat>, v: nat): nat {
    (if v == colIndex1 then |hits| else 0) + (if v == colIndex2 then |hits| else 0)
    + Occurrences(hits, v)
  }

  /** Each hit adds exactly one to each of `colIndex1`, `colIndex2` and
      the hit value; no other counter changes. */
  lemma {:induction false} HitIncsGain(colIndex1: nat, colIndex2: nat, hits: seq<nat>, v: nat)
    ensures Gain(HitIncs(colIndex1, colIndex2, hits), v) == HitGain(colIndex1, colIndex2, hits, v)
    decreases |hits|
  {
    if hits != [] {
      var n := |hits| - 1;
      HitIncsGain(colIndex1, colIndex2, hits[..n], v);
      HitIncsSnoc(colIndex1, colIndex2, hits[..n], hits[n]);
      assert hits == hits[..n] + [hits[n]];
      GainAppend(HitIncs(colIndex1, colIndex2, hits[..n]), Ones(colIndex1, colIndex2, hits[n]), v);
      OnesFacts(colIndex1, colIndex2, hits[n], v);
    }
  }

  /** All the increments of a run together add three per hit. */
  lemma {:induction false} HitIncsTotal(colIndex1: nat, colIndex2: nat, hits: seq<nat>)
    ensures Total(HitIncs(colIndex1, colIndex2, hits)) == 3 * |hits|
    decreases |hits|
  {
    if hits != [] {
      var n := |hits| - 1;
      HitIncsTotal(colIndex1, colIndex2, hits[..n]);
      HitIncsSnoc(colIndex1, colIndex2, hits[..n], hits[n]);
      assert hits == hits[..n] + [hits[n]];
      TotalAppend(HitIncs(colIndex1, colIndex2, hits[..n]), Ones(colIndex1, colIndex2, hits[n]));
      OnesFacts(colIndex1, colIndex2, hits[n], 0);
    }
  }

  // ---------------------------------------------------------------------
  // checkForCommonValueInSubarrays
  // ---------------------------------------------------------------------

  /** Counts, into `c3`, the values common to `arr[start1..end1]` and
      `arr[start2..end2]`: the shorter range is walked and each of its
      values is looked up in the longer one by binary search. */
  method CheckForCommonValueInSubarrays(arr: seq<nat>, start1: nat, end1: nat, start2: nat, end2: nat,
                                        c3: array<nat>, colIndex1: nat, colIndex2: nat)
    requires start1 <= end1 <= |arr| && start2 <= end2 <= |arr|
    requires SortedRange(arr, start1, end1) && SortedRange(arr, start2, end2)
    requires forall k :: start1 <= k < end1 ==> arr[k] < c3.Length
    requires colIndex1 < c3.Length && colIndex2 < c3.Length
    modifies c3
    ensures var r := Orient(start1, end1, start2, end2);
            c3[..] == Apply(old(c3[..]), HitIncs(colIndex1, colIndex2, Hits(arr, r, r.scanTo)))
  {
    ghost var r := Orient(start1, end1, start2, end2);
    ghost var c := c3[..];
    var s1, e1, s2, e2 := start1, end1, start2, end2;
    if e1 - s1 < e2 - s2 {
      s1, s2 := SwapInts(s1, s2);
      e1, e2 := SwapInts(e1, e2);
    }
    assert r == Ranges(s1, e1, s2, e2);
    for k := s2 to e2
      invariant c3[..] == Apply(c, HitIncs(colIndex1, colIndex2, Hits(arr, r, k)))
    {
      if k == arr[k] {
        NoHitAt(arr, r, k);
        continue;
      }
      // The walked range is never the longer one, so the searched range
      // is not empty here and `e1 - 1` is a valid inclusive bound.
      var found := BinarySearch(arr, s1, e1 - 1, arr[k]);
      if found {
        InRangeValue(arr, start1, end1, s1, e1, k, c3.Length, s1 == start1 && e1 == end1);
        ghost var before := c3[..];
        IncrementEach(c3, colIndex1, colIndex2, arr[k]);
        HitAt(c, before, arr, r, k, colIndex1, colIndex2);
      } else {
        NoHitAt(arr, r, k);
      }
    }
  }

  /** A walked position that counts extends the increments by one step. */
  lemma HitAt(c: seq<nat>, before: seq<nat>, arr: seq<nat>, r: Ranges, k: nat, colIndex1: nat, colIndex2: nat)
    requires Within(arr, r) && r.scanFrom <= k < r.scanTo
    requires k != arr[k] && OccursIn(arr, r.searchFrom, r.searchTo, arr[k])
    requires before == Apply(c, HitIncs(colIndex1, colIndex2, Hits(arr, r, k)))
    ensures Apply(before, Ones(colIndex1, colIndex2, arr[k]))
         == Apply(c, HitIncs(colIndex1, colIndex2, Hits(arr, r, k + 1)))
  {
    var hits := Hits(arr, r, k);
    assert Hits(arr, r, k + 1) == hits + [arr[k]];
    HitIncsSnoc(colIndex1, colIndex2, hits, arr[k]);
    ApplyAppend(c, HitIncs(colIndex1, colIndex2, hits), Ones(colIndex1, colIndex2, arr[k]));
  }

  /** A walked position that does not count leaves the increments as they
      are. */
  lemma NoHitAt(arr: seq<nat>, r: Ranges, k: nat)
    requires Within(arr, r) && r.scanFrom <= k < r.scanTo
    requires k == arr[k] || !OccursIn(arr, r.searchFrom, r.searchTo, arr[k])
    ensures Hits(arr, r, k + 1) == Hits(arr, r, k)
  {
    assert Hits(arr, r, k + 1) == Hits(arr, r, k) + [];
  }

  /** Applying the increments of `hits` adds to each counter its gain:
      every hit adds one to `colIndex1`, to `colIndex2` and to its own
      counter, and no other counter changes. */
  lemma HitIncsEffect(c: seq<nat>, colIndex1: nat, colIndex2: nat, hits: seq<nat>, v: nat)
    requires v < |c|
    ensures Apply(c, HitIncs(colIndex1, colIndex2, hits))[v] == c[v] + HitGain(colIndex1, colIndex2, hits, v)
  {
    ApplyAt(c, HitIncs(colIndex1, colIndex2, hits), v);
    HitIncsGain(colIndex1, colIndex2, hits, v);
  }

  /** A value found in the searched range names a counter: either that
      range is the first one, whose values all name counters, or the
      walked one is. */
  lemma InRangeValue(arr: seq<nat>, start1: nat, end1: nat, s1: nat, e1: nat, k: nat, n: nat,
                     searchedFirst: bool)
    requires start1 <= end1 <= |arr| && s1 <= e1 <= |arr| && k < |arr|
    requires forall t :: start1 <= t < end1 ==> arr[t] < n
    requires searchedFirst ==> s1 == start1 && e1 == end1
    requires !searchedFirst ==> start1 <= k < end1
    requires OccursIn(arr, s1, e1, arr[k])
    ensures arr[k] < n
  {
  }

  // ---------------------------------------------------------------------
  // The hits and increments of one run, entry by entry and column by column
  // ---------------------------------------------------------------------

  /** The hits for entry `j` of column `i`: none on the diagonal; otherwise
      those of comparing column `rows[j]` with the entries of column `i`
      after `j`. */
  function EntryHits(g: Csc, i: nat, j: nat): seq<nat>
    requires g.Valid() && i < g.N() && g.cols[i] <= j < g.cols[i + 1]
  {
    var subRow := g.rows[j];
    if i == subRow then []
    else
      var r := Orient(g.cols[subRow], g.cols[subRow + 1], j + 1, g.cols[i + 1]);
      Hits(g.rows, r, r.scanTo)
  }

  /** The increments entry `j` of column `i` makes. */
  function EntryIncs(g: Csc, i: nat, j: nat): seq<Increment>
    requires g.Valid() && i < g.N() && g.cols[i] <= j < g.cols[i + 1]
  {
    HitIncs(g.rows[j], i, EntryHits(g, i, j))
  }

  /** The work of column `i`, one block per entry. */
  function EntryBlocks(g: Csc, i: nat): (b: seq<seq<Increment>>)
    requires g.Valid() && i < g.N()
    ensures |b| == g.cols[i + 1] - g.cols[i]
  {
    var n := g.cols[i + 1] - g.cols[i];
    seq(n, k requires 0 <= k < n => EntryIncs(g, i, g.cols[i] + k))
  }

  /** The hits of column `i`, one block per entry. */
  function EntryHitBlocks(g: Csc, i: nat): (b: seq<seq<nat>>)
    requires g.Valid() && i < g.N()
    ensures |b| == g.cols[i + 1] - g.cols[i]
  {
    var n := g.cols[i + 1] - g.cols[i];
    seq(n, k requires 0 <= k < n => EntryHits(g, i, g.cols[i] + k))
  }

  /** The increments of column `i`: its entries in index order. */
  function ColumnIncs(g: Csc, i: nat): seq<Increment>
    requires g.Valid() && i < g.N()
  {
    Scheduled(EntryBlocks(g, i), Range(g.cols[i + 1] - g.cols[i]))
  }

  /** The hits of column `i`: its entries in index order. */
  function ColumnHits(g: Csc, i: nat): seq<nat>
    requires g.Valid() && i < g.N()
  {
    Scheduled(EntryHitBlocks(g, i), Range(g.cols[i + 1] - g.cols[i]))
  }

  /** The work of each column. */
  function CscBlocks(g: Csc): (b: seq<seq<Increment>>)
    requires g.Valid()
    ensures |b| == g.N()
  {
    seq(g.N(), i requires 0 <= i < g.N() => ColumnIncs(g, i))
  }

  /** The hits of each column. */
  function HitBlocks(g: Csc): (b: seq<seq<nat>>)
    requires g.Valid()
    ensures |b| == g.N()
  {
    seq(g.N(), i requires 0 <= i < g.N() => ColumnHits(g, i))
  }

  /** The increments of the whole run, columns in index order. */
  function CscIncs(g: Csc): seq<Increment>
    requires g.Valid()
  {
    Scheduled(CscBlocks(g), Range(g.N()))
  }

  /** Every value the run finds, columns in index order. */
  function AllHits(g: Csc): seq<nat>
    requires g.Valid()
  {
    Scheduled(HitBlocks(g), Range(g.N()))
  }

  /** The run only increments counters of vertices. */
  lemma CscIncsTargets(g: Csc)
    requires g.Valid()
    ensures Targets(CscIncs(g), g.N())
  {
    forall i | 0 <= i < g.N()
      ensures Targets(CscBlocks(g)[i], g.N())
    {
      ColumnTargets(g, i);
    }
    ScheduledTargets(CscBlocks(g), Range(g.N()), g.N());
  }

  lemma ColumnTargets(g: Csc, i: nat)
    requires g.Valid() && i < g.N()
    ensures Targets(ColumnIncs(g, i), g.N())
  {
    var blocks := EntryBlocks(g, i);
    forall k | 0 <= k < |blocks|
      ensures Targets(blocks[k], g.N())
    {
      assert blocks[k] == EntryIncs(g, i, g.cols[i] + k);
      HitIncsTargets(g, i, g.cols[i] + k);
    }
    ScheduledTargets(blocks, Range(|blocks|), g.N());
  }

  /** The run adds three to the counters for every value it finds. */
  lemma CscIncsTotal(g: Csc)
    requires g.Valid()
    ensures Total(CscIncs(g)) == 3 * |AllHits(g)|
  {
    forall i | 0 <= i < g.N()
      ensures Total(CscBlocks(g)[i]) == 3 * |HitBlocks(g)[i]|
    {
      ColumnTotal(g, i);
    }
    ScheduledTotal(CscBlocks(g), HitBlocks(g), Range(g.N()), 3);
  }

  lemma ColumnTotal(g: Csc, i: nat)
    requires g.Valid() && i < g.N()
    ensures Total(ColumnIncs(g, i)) == 3 * |ColumnHits(g, i)|
  {
    var blocks, found := EntryBlocks(g, i), EntryHitBlocks(g, i);
    forall k | 0 <= k < |blocks|
      ensures Total(blocks[k]) == 3 * |found[k]|
    {
      var j := g.cols[i] + k;
      assert blocks[k] == EntryIncs(g, i, j);
      assert found[k] == EntryHits(g, i, j);
      HitIncsTotal(g.rows[j], i, found[k]);
    }
    ScheduledTotal(blocks, found, Range(|blocks|), 3);
  }

  lemma HitIncsTargets(g: Csc, i: nat, j: nat)
    requires g.Valid() && i < g.N() && g.cols[i] <= j < g.cols[i + 1]
    ensures Targets(HitIncs(g.rows[j], i, EntryHits(g, i, j)), g.N())
  {
    var hits := EntryHits(g, i, j);
    forall t | 0 <= t < |hits|
      ensures hits[t] < g.N()
    {
      HitsAreValues(g, i, j, hits[t]);
    }
    HitIncsBelow(g.rows[j], i, hits, g.N());
  }

  lemma HitsAreValues(g: Csc, i: nat, j: nat, v: nat)
    requires g.Valid() && i < g.N() && g.cols[i] <= j < g.cols[i + 1]
    requires v in EntryHits(g, i, j)
    ensures v < g.N()
  {
    var subRow := g.rows[j];
    var r := Orient(g.cols[subRow], g.cols[subRow + 1], j + 1, g.cols[i + 1]);
    HitsInBoth(g.rows, r, r.scanTo, v);
  }

  /** Every hit is a value of the walked range that also occurs in the
      searched range. */
  lemma {:induction false} HitsInBoth(arr: seq<nat>, r: Ranges, upTo: nat, v: nat)
    requires Within(arr, r) && r.scanFrom <= upTo <= r.scanTo
    requires v in Hits(arr, r, upTo)
    ensures OccursIn(arr, r.scanFrom, upTo, v) && OccursIn(arr, r.searchFrom, r.searchTo, v)
    decreases upTo
  {
    var k := upTo - 1;
    if v in Hits(arr, r, k) {
      HitsInBoth(arr, r, k, v);
    }
  }

  lemma {:induction false} HitIncsBelow(a: nat, b: nat, hits: seq<nat>, n: nat)
    requires a < n && b < n && forall t :: 0 <= t < |hits| ==> hits[t] < n
    ensures Targets(HitIncs(a, b, hits), n)
    decreases |hits|
  {
    if hits != [] {
      var m := |hits| - 1;
      HitIncsBelow(a, b, hits[..m], n);
      HitIncsSnoc(a, b, hits[..m], hits[m]);
      assert hits == hits[..m] + [hits[m]];
      TargetsAppend(HitIncs(a, b, hits[..m]), Ones(a, b, hits[m]), n);
    }
  }

  // ---------------------------------------------------------------------
  // cscSequential, cscParallelOmp, cscParallelDynamicOmp
  // ---------------------------------------------------------------------

  /** What `checkForCommonValueInSubarrays` needs for entry `j` of column
      `i`: both ranges lie in the row array and are sorted, and the values
      of column `rows[j]` and `rows[j]` itself name counters. */
  lemma EntryRanges(g: Csc, i: nat, j: nat)
    requires g.Valid() && i < g.N() && g.cols[i] <= j < g.cols[i + 1]
    ensures var subRow := g.rows[j];
            && subRow < g.N()
            && g.cols[subRow] <= g.cols[subRow + 1] <= |g.rows|
            && j + 1 <= g.cols[i + 1] <= |g.rows|
            && SortedRange(g.rows, g.cols[subRow], g.cols[subRow + 1])
            && SortedRange(g.rows, j + 1, g.cols[i + 1])
            && forall k :: g.cols[subRow] <= k < g.cols[subRow + 1] ==> g.rows[k] < g.N()
  {
    var subRow := g.rows[j];
    ColumnRange(g, subRow);
    ColumnRange(g, i);
  }

  /** Column `i` is a sorted range of the row array. */
  lemma ColumnRange(g: Csc, i: nat)
    requires g.Valid() && i < g.N()
    ensures g.cols[i] <= g.cols[i + 1] <= |g.rows|
    ensures SortedRange(g.rows, g.cols[i], g.cols[i + 1])
  {
    assert g.ColumnSorted(i);
    StrictlySortedIsSorted(g.rows[g.cols[i]..g.cols[i + 1]]);
    SortedSlice(g.rows, g.cols[i], g.cols[i + 1]);
  }

  /** The body of the column loop, shared by the three drivers: every
      off-diagonal entry `j` of column `i` compares column `rows[j]` with
      the entries of column `i` after `j`. */
  method ProcessColumn(g: Csc, c3: array<nat>, i: nat)
    requires g.Valid() && i < g.N() && c3.Length == g.N()
    modifies c3
    ensures c3[..] == Apply(old(c3[..]), ColumnIncs(g, i))
  {
    ghost var c := c3[..];
    ColumnRange(g, i);
    assert ColumnPrefix(g, i, g.cols[i]) == [];
    for j := g.cols[i] to g.cols[i + 1]
      invariant c3[..] == Apply(c, ColumnPrefix(g, i, j))
    {
      ProcessEntryStep(g, c3, i, j, c);
    }
    assert ColumnPrefix(g, i, g.cols[i + 1]) == ColumnIncs(g, i);
  }

  /** Entry `j` of column `i`, seen as extending the entries before it. */
  method ProcessEntryStep(g: Csc, c3: array<nat>, i: nat, j: nat, ghost c: seq<nat>)
    requires g.Valid() && i < g.N() && g.cols[i] <= j < g.cols[i + 1] && c3.Length == g.N()
    requires c3[..] == Apply(c, ColumnPrefix(g, i, j))
    modifies c3
    ensures c3[..] == Apply(c, ColumnPrefix(g, i, j + 1))
  {
    ProcessEntry(g, c3, i, j);
    ColumnStep(c, g, i, j);
  }

  /** The increments of the entries of column `i` before `j`. */
  function ColumnPrefix(g: Csc, i: nat, j: nat): seq<Increment>
    requires g.Valid() && i < g.N() && g.cols[i] <= j <= g.cols[i + 1]
  {
    Scheduled(EntryBlocks(g, i), Range(j - g.cols[i]))
  }

  lemma ColumnStep(c: seq<nat>, g: Csc, i: nat, j: nat)
    requires g.Valid() && i < g.N() && g.cols[i] <= j < g.cols[i + 1]
    ensures Apply(c, ColumnPrefix(g, i, j + 1)) == Apply(Apply(c, ColumnPrefix(g, i, j)), EntryIncs(g, i, j))
  {
    var blocks := EntryBlocks(g, i);
    assert blocks[j - g.cols[i]] == EntryIncs(g, i, j);
    ApplyNextBlock(c, blocks, j - g.cols[i]);
  }

  /** One pass of the inner loop: entry `j` of column `i`. */
  method ProcessEntry(g: Csc, c3: array<nat>, i: nat, j: nat)
    requires g.Valid() && i < g.N() && g.cols[i] <= j < g.cols[i + 1] && c3.Length == g.N()
    modifies c3
    ensures c3[..] == Apply(old(c3[..]), EntryIncs(g, i, j))
  {
    var subRow := g.rows[j];
    if i != subRow {
      EntryRanges(g, i, j);
      CheckForCommonValueInSubarrays(g.rows, g.cols[subRow], g.cols[subRow + 1], j + 1, g.cols[i + 1],
                                     c3, subRow, i);
    }
  }

  /** `cscSequential`: the columns in index order. */
  method CscSequential(g: Csc, c3: array<nat>)
    requires g.Valid() && c3.Length == g.N()
    modifies c3
    ensures c3[..] == Apply(old(c3[..]), CscIncs(g))
  {
    ghost var c := c3[..];
    for i := 0 to g.N()
      invariant c3[..] == Apply(c, Scheduled(CscBlocks(g), Range(i)))
    {
      ProcessColumn(g, c3, i);
      ApplyNextBlock(c, CscBlocks(g), i);
    }
  }

  /** `cscParallelOmp` and `cscParallelDynamicOmp`: the same column loop
      under `omp parallel for`, with the static or the dynamic schedule.
      The threads take the columns in an order the model receives as
      `order`; their increments are atomic, so any interleaving of them
      leaves what this order leaves, and every order leaves what the
      sequential run leaves. */
  method CscParallel(g: Csc, c3: array<nat>, order: seq<nat>)
    requires g.Valid() && c3.Length == g.N() && IsPermutation(order, g.N())
    modifies c3
    ensures c3[..] == Apply(old(c3[..]), CscIncs(g))
  {
    ghost var c := c3[..];
    PermutationBounds(order, g.N());
    for t := 0 to |order|
      invariant Below(order[..t], g.N())
      invariant c3[..] == Apply(c, Scheduled(CscBlocks(g), order[..t]))
    {
      ProcessColumn(g, c3, order[t]);
      ApplyNextInOrder(c, CscBlocks(g), order, t);
    }
    assert order[..|order|] == order;
    ScheduledAnyOrder(c, CscBlocks(g), order);
  }

  // ---------------------------------------------------------------------
  // The `k == arr[k]` test
  // ---------------------------------------------------------------------

  /** Entry `j` of column `i` as evidently intended: every value the two
      ranges share, with no test of a walked position against its value. */
  function EntryCommon(g: Csc, i: nat, j: nat): seq<nat>
    requires g.Valid() && i < g.N() && g.cols[i] <= j < g.cols[i + 1]
  {
    var subRow := g.rows[j];
    if i == subRow then []
    else
      var r := Orient(g.cols[subRow], g.cols[subRow + 1], j + 1, g.cols[i + 1]);
      Common(g.rows, r, r.scanTo)
  }

  /** On a lower-triangular graph, the intended step for entry `j` of
      column `i` finds, once each and in ascending order, exactly the
      vertices `w` above `rows[j]` adjacent to both `i` and `rows[j]`: the
      largest corners of the triangles whose two smaller corners are `i`
      and `rows[j]`. */
  lemma EntryCommonIsThirdCorners(g: Csc, i: nat, j: nat)
    requires g.Valid() && g.LowerTriangular() && i < g.N() && g.cols[i] <= j < g.cols[i + 1]
    ensures StrictlySorted(EntryCommon(g, i, j))
    ensures forall w: nat :: w in EntryCommon(g, i, j)
              <==> g.rows[j] < w && g.Adjacent(w, i) && g.Adjacent(w, g.rows[j])
  {
    EntryBelowDiagonal(g, i, j);
    EntryCommonElems(g, i, j);
    forall w: nat
      ensures w in EntryCommon(g, i, j) <==> g.rows[j] < w && g.Adjacent(w, i) && g.Adjacent(w, g.rows[j])
    {
      ThirdCorner(g, i, j, w);
    }
  }

  /** Off the diagonal, the intended step for entry `j` of column `i`
      lists, ascending and once each, the values of column `rows[j]` that
      column `i` also holds after `j`. */
  lemma EntryCommonElems(g: Csc, i: nat, j: nat)
    requires g.Valid() && i < g.N() && g.cols[i] <= j < g.cols[i + 1] && i != g.rows[j]
    ensures g.cols[i + 1] <= |g.rows|
    ensures StrictlySorted(EntryCommon(g, i, j))
    ensures forall w :: w in EntryCommon(g, i, j) <==> w in g.Column(g.rows[j]) && w in g.rows[j + 1..g.cols[i + 1]]
  {
    var subRow := g.rows[j];
    TailOfColumn(g, i, j);
    g.ColumnAscending(subRow);
    var a := g.Column(subRow);
    var b := g.rows[j + 1..g.cols[i + 1]];
    var r := Orient(g.cols[subRow], g.cols[subRow + 1], j + 1, g.cols[i + 1]);
    var found := Common(g.rows, r, r.scanTo);
    assert found == EntryCommon(g, i, j);
    CommonIsIntersection(g.rows, r, r.scanTo);
    if r.scanFrom == j + 1 {
      assert Elems(found) == Elems(b) * Elems(a);
    } else {
      assert Elems(found) == Elems(a) * Elems(b);
    }
    CommonSorted(g.rows, r, r.scanTo);
    forall w
      ensures w in found <==> w in a && w in b
    {
      assert w in found <==> w in Elems(found);
    }
  }

  /** On a lower-triangular graph, every entry lies below the diagonal. */
  lemma EntryBelowDiagonal(g: Csc, i: nat, j: nat)
    requires g.Valid() && g.LowerTriangular() && i < g.N() && g.cols[i] <= j < g.cols[i + 1]
    ensures i < g.rows[j]
  {
    ColumnRange(g, i);
    var x := g.rows[j];
    assert g.Column(i)[j - g.cols[i]] == x;
    assert x in g.Column(i);
  }

  /** A vertex is stored both in column `rows[j]` and in column `i` after
      entry `j` exactly when it lies above `rows[j]` and is adjacent to
      both. */
  lemma ThirdCorner(g: Csc, i: nat, j: nat, w: nat)
    requires g.Valid() && g.LowerTriangular() && i < g.N() && g.cols[i] <= j < g.cols[i + 1]
    ensures g.cols[i + 1] <= |g.rows|
    ensures w in g.Column(g.rows[j]) && w in g.rows[j + 1..g.cols[i + 1]]
        <==> g.rows[j] < w && g.Adjacent(w, i) && g.Adjacent(w, g.rows[j])
  {
    var subRow := g.rows[j];
    EntryBelowDiagonal(g, i, j);
    TailOfColumn(g, i, j);
    if subRow < w && g.Adjacent(w, i) && g.Adjacent(w, subRow) {
      assert !(w < g.N() && i in g.Column(w));
      assert !(w < g.N() && subRow in g.Column(w));
    }
  }

  /** The entries of column `i` after `j` are strictly sorted, lie in the
      column and hold exactly the column's values above `rows[j]`. */
  lemma TailOfColumn(g: Csc, i: nat, j: nat)
    requires g.Valid() && i < g.N() && g.cols[i] <= j < g.cols[i + 1]
    ensures g.cols[i + 1] <= |g.rows|
    ensures StrictlySorted(g.rows[j + 1..g.cols[i + 1]])
    ensures forall w :: w in g.rows[j + 1..g.cols[i + 1]] <==> w in g.Column(i) && g.rows[j] < w
  {
    ColumnRange(g, i);
    g.ColumnAscending(i);
    var col := g.Column(i);
    var o := j - g.cols[i];
    var tail := g.rows[j + 1..g.cols[i + 1]];
    assert tail == col[o + 1..];
    assert col[o] == g.rows[j];
    forall w
      ensures w in tail <==> w in col && g.rows[j] < w
    {
      if w in col && g.rows[j] < w {
        var p :| 0 <= p < |col| && col[p] == w;
        assert o < p;
        assert tail[p - o - 1] == w;
      }
    }
  }

  /** Every block empty: nothing scheduled. */
  lemma {:induction false} ScheduledNothing<T>(blocks: seq<seq<T>>, order: seq<nat>)
    requires Below(order, |blocks|)
    requires forall k :: 0 <= k < |blocks| ==> blocks[k] == []
    ensures Scheduled(blocks, order) == []
    decreases |order|
  {
    if order != [] {
      ScheduledNothing(blocks, order[..|order| - 1]);
    }
  }

  /** A graph on which the `k == arr[k]` test loses a triangle. */
  const SelfPositionGraph := Csc([1, 2, 3, 3], [0, 3, 4, 4, 4])

  lemma SelfPositionGraphShape()
    ensures SelfPositionGraph.Valid() && SelfPositionGraph.N() == 4
    ensures SelfPositionGraph.Column(0) == [1, 2, 3] && SelfPositionGraph.Column(1) == [3]
    ensures SelfPositionGraph.Column(2) == [] && SelfPositionGraph.Column(3) == []
  {
    var g := SelfPositionGraph;
    assert g.ColumnSorted(0) && g.ColumnSorted(1) && g.ColumnSorted(2) && g.ColumnSorted(3);
  }

  lemma SelfPositionGraphHits()
    requires SelfPositionGraph.Valid()
    ensures AllHits(SelfPositionGraph) == []
  {
    var g := SelfPositionGraph;
    var r0 := Ranges(1, 3, 3, 4);
    assert Hits(g.rows, r0, 3) == [];
    assert Hits(g.rows, r0, 4) == [];
    forall i, j | 0 <= i < g.N() && g.cols[i] <= j < g.cols[i + 1]
      ensures EntryHits(g, i, j) == []
    {
      assert i == 0 || i == 1;
      assert j == 0 || j == 1 || j == 2 || j == 3;
    }
    forall i | 0 <= i < g.N()
      ensures ColumnHits(g, i) == []
    {
      var blocks := EntryHitBlocks(g, i);
      forall k | 0 <= k < |blocks|
        ensures blocks[k] == []
      {
        assert blocks[k] == EntryHits(g, i, g.cols[i] + k);
      }
      ScheduledNothing(blocks, Range(|blocks|));
    }
    ScheduledNothing(HitBlocks(g), Range(g.N()));
  }

  /** The `k == arr[k]` test compares a position of the row array with a
      vertex, and so skips a common value whenever it happens to be stored
      at a position equal to itself. With rows `[1, 2, 3, 3]` and column
      pointers `[0, 3, 4, 4, 4]`, the graph is lower triangular and
      vertices 0, 1 and 3 form a triangle, yet the run finds nothing: entry
      0 of column 0 walks position 3, which holds 3. The intended step
      finds 3 there. */
  lemma SelfPositionMissesTriangle()
    ensures var g := SelfPositionGraph;
            && g.Valid() && g.LowerTriangular()
            && g.Adjacent(0, 1) && g.Adjacent(0, 3) && g.Adjacent(1, 3)
            && AllHits(g) == []
            && EntryCommon(g, 0, 0) == [3]
  {
    var g := SelfPositionGraph;
    SelfPositionGraphShape();
    assert g.LowerTriangular();
    SelfPositionGraphHits();
    var r0 := Ranges(1, 3, 3, 4);
    assert OccursIn(g.rows, 1, 3, 3) by {
      assert g.rows[2] == 3;
    }
    assert Common(g.rows, r0, 3) == [];
    assert Common(g.rows, r0, 4) == [3];
  }

  // ---------------------------------------------------------------------
  // runAndPresentResult
  // ---------------------------------------------------------------------

  /** The counter handed to `runAndPresentResult`; a parallel one comes
      with the order in which its threads take the columns. */
  datatype Runnable = Sequential | ParallelOmp(order: seq<nat>) | ParallelDynamicOmp(order: seq<nat>)

  /** Zeroes a fresh counter array, runs the counter and reports the sum of
      the counters divided by three: the number of values the run found. */
  method RunAndPresentResult(g: Csc, runnable: Runnable) returns (triangles: nat)
    requires g.Valid()
    requires !runnable.Sequential? ==> IsPermutation(runnable.order, g.N())
    ensures triangles == |AllHits(g)|
  {
    var c3 := new nat[g.N()];
    ZeroOutArray(c3);
    assert c3[..] == Zeros(g.N());
    match runnable {
      case Sequential => CscSequential(g, c3);
      case ParallelOmp(order) => CscParallel(g, c3, order);
      case ParallelDynamicOmp(order) => CscParallel(g, c3, order);
    }
    triangles := SumCounters(c3);
    assert c3[..] == Apply(Zeros(g.N()), CscIncs(g));
    ZeroStartSum(g);
    triangles := triangles / 3;
  }

  /** The loop that adds up the counters. */
  method SumCounters(c3: array<nat>) returns (total: nat)
    ensures total == Sum(c3[..])
  {
    total := 0;
    for i := 0 to c3.Length
      invariant total == Sum(c3[..i])
    {
      assert c3[..i + 1][..i] == c3[..i];
      total := total + c3[i];
    }
    assert c3[..c3.Length] == c3[..];
  }

  /** Started from zero, the counters add up to three per value found. */
  lemma ZeroStartSum(g: Csc)
    requires g.Valid()
    ensures Sum(Apply(Zeros(g.N()), CscIncs(g))) == 3 * |AllHits(g)|
  {
    CscIncsTargets(g);
    SumApply(Zeros(g.N()), CscIncs(g));
    SumZeros(g.N());
    CscIncsTotal(g);
  }
}
