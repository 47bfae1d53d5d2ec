/** The neighbour-expansion counter of v4_pt.c (`cscParallelV4Pthreads`
    and its thread body `multiplyMatrices`).

    The CSC matrix lists, for each vertex, only the neighbours stored in
    its own column. The counter first builds the reverse lists: for every
    vertex `v`, the columns that hold `v`. For each off-diagonal entry
    (`curCol` stored in column `curRow`) it merges, for each of the two
    ends, the own column with the reverse list into the full neighbour
    list, counts the values the two lists share and adds that count to
    both ends. The columns are split into contiguous chunks, one per
    thread; at the end every counter is halved. */
module NeighbourExpansion {
  import opened ArrayUtils
  import opened Counters
  import opened CscGraph

  // ---------------------------------------------------------------------
  // The reverse lists
  // ---------------------------------------------------------------------

  /** The columns before `i` that hold `v`, ascending: what
      `symmetricRowItems[v]` lists once the columns before `i` have been
      walked. */
  function Reverse(g: Csc, v: nat, i: nat): seq<nat>
    requires g.Valid() && i <= g.N()
    decreases i
  {
    if i == 0 then [] else Reverse(g, v, i - 1) + (if v in g.Column(i - 1) then [i - 1] else [])
  }

  /** `u` is listed before `i` exactly when `u < i` and column `u` holds
      `v`; the list is strictly increasing. */
  lemma {:induction false} ReverseMembers(g: Csc, v: nat, i: nat)
    requires g.Valid() && i <= g.N()
    ensures forall u: nat :: u in Reverse(g, v, i) <==> u < i && v in g.Column(u)
    ensures StrictlySorted(Reverse(g, v, i))
    decreases i
  {
    if i > 0 {
      ReverseMembers(g, v, i - 1);
      var r := Reverse(g, v, i - 1);
      if v in g.Column(i - 1) {
        StrictlySortedSnoc(r, i - 1);
      } else {
        assert Reverse(g, v, i) == r;
      }
    }
  }

  /** What the filling loops have listed for `v` once they reach entry `j`
      of column `i`: the earlier columns holding `v`, and `i` itself if
      `v` sits among the entries of column `i` already walked. */
  function Listed(g: Csc, v: nat, i: nat, j: nat): seq<nat>
    requires g.Valid() && i < g.N() && g.cols[i] <= j <= g.cols[i + 1]
  {
    Reverse(g, v, i) + (if v in g.rows[g.cols[i]..j] then [i] else [])
  }

  /** The first `cols[i]` row indices are the entries of the columns
      before `i`. */
  lemma ColumnBounds(g: Csc, i: nat)
    requires g.Valid() && i < g.N()
    ensures g.cols[i] <= g.cols[i + 1] <= |g.rows|
  {
    assert g.cols[i + 1] <= g.cols[g.N()];
  }

  /** Everything listed for `v` so far is one occurrence of `v` among the
      row indices walked so far: columns hold each value at most once. */
  lemma {:induction false} ListedCount(g: Csc, v: nat, i: nat, j: nat)
    requires g.Valid() && i < g.N()
    requires g.cols[i] <= j <= g.cols[i + 1]
    ensures g.cols[i + 1] <= |g.rows|
    ensures |Listed(g, v, i, j)| == Occurrences(g.rows[..j], v)
    decreases i
  {
    ColumnBounds(g, i);
    var part := g.rows[g.cols[i]..j];
    assert g.rows[..j] == g.rows[..g.cols[i]] + part;
    OccurrencesAppend(g.rows[..g.cols[i]], part, v);
    ColumnStartAscending(g, i, j);
    OccurrencesStrictlySorted(part, v);
    if i > 0 {
      ColumnBounds(g, i - 1);
      ListedCount(g, v, i - 1, g.cols[i]);
      assert g.rows[g.cols[i - 1]..g.cols[i]] == g.Column(i - 1);
    } else {
      assert g.rows[..g.cols[i]] == [];
    }
  }

  /** The first entries of a column are strictly ascending too. */
  lemma ColumnStartAscending(g: Csc, i: nat, j: nat)
    requires g.Valid() && i < g.N() && g.cols[i] <= j <= g.cols[i + 1]
    ensures g.cols[i + 1] <= |g.rows| && StrictlySorted(g.rows[g.cols[i]..j])
  {
    ColumnBounds(g, i);
    assert g.ColumnSorted(i);
    var col, part := g.rows[g.cols[i]..g.cols[i + 1]], g.rows[g.cols[i]..j];
    forall p, q | 0 <= p < q < |part|
      ensures part[p] < part[q]
    {
      assert part[p] == col[p] && part[q] == col[q];
    }
  }

  /** Walking one more entry of column `i` lists `i` for the value of that
      entry and for no other value. */
  lemma ListedNext(g: Csc, v: nat, i: nat, j: nat)
    requires g.Valid() && i < g.N() && g.cols[i] <= j < g.cols[i + 1]
    ensures Listed(g, v, i, j + 1)
         == if v == g.rows[j] then Listed(g, v, i, j) + [i] else Listed(g, v, i, j)
  {
    ColumnBounds(g, i);
    var part := g.rows[g.cols[i]..j + 1];
    assert part == g.rows[g.cols[i]..j] + [g.rows[j]];
    if v == g.rows[j] {
      g.ColumnAscending(i);
      var col := g.Column(i);
      var o := j - g.cols[i];
      assert col[o] == v;
      forall p | g.cols[i] <= p < j
        ensures g.rows[p] != v
      {
        assert g.rows[p] == col[p - g.cols[i]];
        assert col[p - g.cols[i]] < col[o];
      }
      assert v !in g.rows[g.cols[i]..j];
    }
  }

  /** Finishing column `i` lists it for exactly the values it holds. */
  lemma ListedColumnEnd(g: Csc, v: nat, i: nat)
    requires g.Valid() && i < g.N()
    ensures g.cols[i] <= g.cols[i + 1]
    ensures Listed(g, v, i, g.cols[i + 1]) == Reverse(g, v, i + 1)
    ensures i + 1 < g.N() ==> g.cols[i + 1] <= g.cols[i + 2] && Listed(g, v, i + 1, g.cols[i + 1]) == Reverse(g, v, i + 1)
  {
    ColumnBounds(g, i);
    assert g.rows[g.cols[i]..g.cols[i + 1]] == g.Column(i);
    if i + 1 < g.N() {
      ColumnBounds(g, i + 1);
      assert g.rows[g.cols[i + 1]..g.cols[i + 1]] == [];
      assert Listed(g, v, i + 1, g.cols[i + 1]) == Reverse(g, v, i + 1) + [];
    }
  }

  // ---------------------------------------------------------------------
  // Building colSizes and symmetricRowItems
  // ---------------------------------------------------------------------

  /** `colSizes[v]` counts the entries holding `v`, over all columns. */
  method CountColumnSizes(g: Csc) returns (colSizes: array<nat>)
    requires g.Valid()
    ensures fresh(colSizes) && colSizes.Length == g.N()
    ensures forall v :: 0 <= v < g.N() ==> colSizes[v] == Occurrences(g.rows, v)
  {
    colSizes := new nat[g.N()];
    ZeroOutArray(colSizes);
    for i := 0 to g.N()
      invariant forall v :: 0 <= v < g.N() ==> colSizes[v] == Occurrences(g.rows[..g.cols[i]], v)
    {
      ColumnBounds(g, i);
      for j := g.cols[i] to g.cols[i + 1]
        invariant forall v :: 0 <= v < g.N() ==> colSizes[v] == Occurrences(g.rows[..j], v)
      {
        assert g.rows[..j + 1][..j] == g.rows[..j];
        colSizes[g.rows[j]] := colSizes[g.rows[j]] + 1;
      }
    }
    assert g.rows[..g.cols[g.N()]] == g.rows;
  }

  /** One fresh array of `colSizes[v]` cells per vertex `v`, no two of
      them the same. */
  method AllocateReverseLists(colSizes: array<nat>) returns (items: array<array<nat>>)
    ensures fresh(items) && items.Length == colSizes.Length
    ensures forall v :: 0 <= v < items.Length ==> fresh(items[v]) && items[v].Length == colSizes[v]
    ensures forall u, v :: 0 <= u < v < items.Length ==> items[u] != items[v]
  {
    var none := new nat[0];
    items := new array<nat>[colSizes.Length](_ => none);
    for i := 0 to colSizes.Length
      invariant forall v :: 0 <= v < i ==> fresh(items[v]) && items[v].Length == colSizes[v]
      invariant forall u, v :: 0 <= u < v < i ==> items[u] != items[v]
      invariant forall v :: 0 <= v < i ==> items[v] != none
    {
      items[i] := new nat[colSizes[i]];
    }
  }

  /** The lists the filling loops write: one array per vertex, as long
      as the number of entries holding that vertex, no two of them the
      same and none of them the array of next free cells. */
  ghost predicate ListArrays(g: Csc, items: array<array<nat>>, colIndexes: array<nat>)
    requires g.Valid()
    reads items
  {
    && items.Length == g.N() && colIndexes.Length == g.N()
    && (forall v :: 0 <= v < g.N() ==> items[v].Length == Occurrences(g.rows, v) && items[v] != colIndexes)
    && (forall u, v :: 0 <= u < v < g.N() ==> items[u] != items[v])
  }

  /** The state of the filling loops at entry `j` of column `i`: the
      next free cell of the list of `v` is the number of entries walked
      that hold `v`, and the cells before it hold what has been listed
      for `v`. */
  ghost predicate Filling(g: Csc, items: array<array<nat>>, colIndexes: array<nat>, i: nat, j: nat)
    requires g.Valid() && i < g.N() && g.cols[i] <= j <= g.cols[i + 1]
    requires ListArrays(g, items, colIndexes)
    reads items, colIndexes, set v | 0 <= v < g.N() :: items[v]
  {
    && (forall v :: 0 <= v < g.N() ==>
          colIndexes[v] == Occurrences(g.rows[..j], v) == |Listed(g, v, i, j)| && colIndexes[v] <= items[v].Length)
    && (forall v, p :: 0 <= v < g.N() && 0 <= p < colIndexes[v] ==> items[v][p] == Listed(g, v, i, j)[p])
  }

  /** Every cell of every list holds what the list of its vertex holds
      once all columns are walked. */
  ghost predicate Filled(g: Csc, items: array<array<nat>>)
    requires g.Valid() && items.Length == g.N()
    reads items, set v | 0 <= v < g.N() :: items[v]
  {
    forall v: nat, p: nat | v < g.N() && p < items[v].Length ::
      p < |Reverse(g, v, g.N())| && items[v][p] == Reverse(g, v, g.N())[p]
  }

  /** Walks the columns in order and appends `i` to the list of every
      value column `i` holds; `colIndexes[v]` is the next free cell of the
      list of `v`. Afterwards the list of `v` holds exactly the columns
      containing `v`, ascending, and fills its array. */
  method FillReverseLists(g: Csc, items: array<array<nat>>)
    requires g.Valid() && items.Length == g.N()
    requires forall v :: 0 <= v < g.N() ==> items[v].Length == Occurrences(g.rows, v)
    requires forall u, v :: 0 <= u < v < g.N() ==> items[u] != items[v]
    modifies set v | 0 <= v < g.N() :: items[v]
    ensures forall v :: 0 <= v < g.N() ==> items[v][..] == Reverse(g, v, g.N())
  {
    var colIndexes := new nat[g.N()];
    ZeroOutArray(colIndexes);
    StartFilling(g, items, colIndexes);
    for i := 0 to g.N()
      invariant i < g.N() ==> g.cols[i] <= g.cols[i + 1] && Filling(g, items, colIndexes, i, g.cols[i])
      invariant i == g.N() ==> Filled(g, items)
    {
      FillColumn(g, items, colIndexes, i);
      NextColumn(g, items, colIndexes, i);
    }
    forall v | 0 <= v < g.N()
      ensures items[v][..] == Reverse(g, v, g.N())
    {
      ReverseLength(g, v);
    }
  }

  /** Before the loops start, every list is empty. */
  lemma StartFilling(g: Csc, items: array<array<nat>>, colIndexes: array<nat>)
    requires g.Valid() && items.Length == g.N() && colIndexes.Length == g.N()
    requires forall v :: 0 <= v < g.N() ==> items[v].Length == Occurrences(g.rows, v) && items[v] != colIndexes
    requires forall u, v :: 0 <= u < v < g.N() ==> items[u] != items[v]
    requires forall v :: 0 <= v < g.N() ==> colIndexes[v] == 0
    ensures ListArrays(g, items, colIndexes)
    ensures 0 < g.N() ==> g.cols[0] <= g.cols[1] && Filling(g, items, colIndexes, 0, g.cols[0])
  {
    if 0 < g.N() {
      ColumnBounds(g, 0);
      assert g.rows[..g.cols[0]] == [];
      assert g.rows[g.cols[0]..g.cols[0]] == [];
    }
  }

  /** The list of `v` has one cell per column holding `v`. */
  lemma ReverseLength(g: Csc, v: nat)
    requires g.Valid()
    ensures |Reverse(g, v, g.N())| == Occurrences(g.rows, v)
  {
    if g.N() > 0 {
      var i := g.N() - 1;
      ListedCount(g, v, i, g.cols[i + 1]);
      ListedColumnEnd(g, v, i);
      assert g.rows[..g.cols[i + 1]] == g.rows;
    }
  }

  /** Once the loops have walked to the end of column `i` they stand at
      the start of column `i + 1`, or, after the last column, every list
      is full. */
  lemma NextColumn(g: Csc, items: array<array<nat>>, colIndexes: array<nat>, i: nat)
    requires g.Valid() && i < g.N() && ListArrays(g, items, colIndexes)
    requires g.cols[i] <= g.cols[i + 1] && Filling(g, items, colIndexes, i, g.cols[i + 1])
    ensures i + 1 < g.N() ==> g.cols[i + 1] <= g.cols[i + 2] && Filling(g, items, colIndexes, i + 1, g.cols[i + 1])
    ensures i + 1 == g.N() ==> Filled(g, items)
  {
    var next, end := i + 1, g.cols[i + 1];
    forall v: nat | v < g.N()
      ensures Listed(g, v, i, end) == Reverse(g, v, next)
    {
      ListedColumnEnd(g, v, i);
    }
    if next < g.N() {
      ColumnBounds(g, next);
      forall v: nat | v < g.N()
        ensures Listed(g, v, next, end) == Reverse(g, v, next)
      {
        ListedColumnEnd(g, v, i);
      }
    } else {
      assert g.rows[..g.cols[i + 1]] == g.rows;
    }
  }

  /** One pass of the outer filling loop: the entries of column `i`. */
  method FillColumn(g: Csc, items: array<array<nat>>, colIndexes: array<nat>, i: nat)
    requires g.Valid() && i < g.N() && ListArrays(g, items, colIndexes)
    requires g.cols[i] <= g.cols[i + 1] && Filling(g, items, colIndexes, i, g.cols[i])
    modifies colIndexes, set v | 0 <= v < g.N() :: items[v]
    ensures Filling(g, items, colIndexes, i, g.cols[i + 1])
  {
    for j := g.cols[i] to g.cols[i + 1]
      invariant Filling(g, items, colIndexes, i, j)
    {
      FillEntry(g, items, colIndexes, i, j);
    }
  }

  /** One pass of the inner filling loop: entry `j` of column `i` holds
      `w`, so `i` goes into the next free cell of the list of `w`. */
  method FillEntry(g: Csc, items: array<array<nat>>, colIndexes: array<nat>, i: nat, j: nat)
    requires g.Valid() && i < g.N() && g.cols[i] <= j < g.cols[i + 1] && ListArrays(g, items, colIndexes)
    requires Filling(g, items, colIndexes, i, j)
    modifies colIndexes, items[g.rows[j]]
    ensures Filling(g, items, colIndexes, i, j + 1)
  {
    var w := g.rows[j];
    FillStep(g, i, j, w);
    items[w][colIndexes[w]] := i;
    colIndexes[w] := colIndexes[w] + 1;
    forall v | 0 <= v < g.N()
      ensures colIndexes[v] == Occurrences(g.rows[..j + 1], v) == |Listed(g, v, i, j + 1)|
    {
      FillStep(g, i, j, v);
    }
    forall v, p | 0 <= v < g.N() && 0 <= p < colIndexes[v]
      ensures items[v][p] == Listed(g, v, i, j + 1)[p]
    {
      FillStep(g, i, j, v);
    }
  }

  /** Walking entry `j` of column `i` counts one more occurrence of its
      value and lists `i` for it; nothing changes for any other value. */
  lemma FillStep(g: Csc, i: nat, j: nat, v: nat)
    requires g.Valid() && i < g.N() && g.cols[i] <= j < g.cols[i + 1]
    ensures j < |g.rows|
    ensures Occurrences(g.rows[..j + 1], v) == Occurrences(g.rows[..j], v) + (if v == g.rows[j] then 1 else 0)
    ensures Occurrences(g.rows[..j + 1], v) <= Occurrences(g.rows, v)
    ensures Listed(g, v, i, j + 1) == if v == g.rows[j] then Listed(g, v, i, j) + [i] else Listed(g, v, i, j)
  {
    ColumnBounds(g, i);
    assert g.rows[..j + 1][..j] == g.rows[..j];
    assert g.rows == g.rows[..j + 1] + g.rows[j + 1..];
    OccurrencesAppend(g.rows[..j + 1], g.rows[j + 1..], v);
    ListedNext(g, v, i, j);
  }

  // ---------------------------------------------------------------------
  // Full neighbour lists
  // ---------------------------------------------------------------------

  /** The full neighbour list of `v`, what `mergeArrays` leaves in
      `fullRow` or `fullCol`: the own column of `v` merged with its
      reverse list. */
  function Neighbours(g: Csc, v: nat): seq<nat>
    requires g.Valid() && v < g.N()
  {
    Merge(g.Column(v), Reverse(g, v, g.N()))
  }

  /** The merged buffer is as long as the own column plus `colSizes[v]`,
      ascending, and lists exactly the vertices adjacent to `v`. */
  lemma NeighboursFacts(g: Csc, v: nat)
    requires g.Valid() && v < g.N()
    ensures |Neighbours(g, v)| == g.cols[v + 1] - g.cols[v] + Occurrences(g.rows, v)
    ensures Sorted(Neighbours(g, v))
    ensures forall u: nat :: u in Neighbours(g, v) <==> g.Adjacent(u, v)
  {
    var own, rev := g.Column(v), Reverse(g, v, g.N());
    ReverseLength(g, v);
    ReverseMembers(g, v, g.N());
    g.ColumnAscending(v);
    StrictlySortedIsSorted(own);
    StrictlySortedIsSorted(rev);
    MergeSorted(own, rev);
    MergeMultiset(own, rev);
    forall u: nat
      ensures u in Neighbours(g, v) <==> u in own || u in rev
    {
      assert u in Neighbours(g, v) <==> u in multiset(Neighbours(g, v));
    }
  }

  /** When only the lower triangle is stored, the reverse list of `v`
      (its smaller neighbours) comes wholly before its own column (its
      larger neighbours), and the full list is strictly increasing. */
  lemma NeighboursLowerTriangular(g: Csc, v: nat)
    requires g.Valid() && g.LowerTriangular() && v < g.N()
    ensures Neighbours(g, v) == Reverse(g, v, g.N()) + g.Column(v)
    ensures StrictlySorted(Neighbours(g, v))
  {
    var own, rev := g.Column(v), Reverse(g, v, g.N());
    ReverseMembers(g, v, g.N());
    g.ColumnAscending(v);
    assert forall x, y :: x in own && y in rev ==> y < v < x;
    MergeOrderedHalves(own, rev);
    var r := rev + own;
    forall p, q | 0 <= p < q < |r|
      ensures r[p] < r[q]
    {
      if q < |rev| {
      } else if p >= |rev| {
        assert r[p] == own[p - |rev|] && r[q] == own[q - |rev|];
      } else {
        assert r[p] in rev && r[q] in own;
      }
    }
  }

  /** The vertices adjacent to both `u` and `v`. */
  ghost function SharedNeighbours(g: Csc, u: nat, v: nat): set<nat>
    requires g.Valid()
  {
    set w: nat | w < g.N() && g.Adjacent(w, u) && g.Adjacent(w, v)
  }

  /** When only the lower triangle is stored, the count of common elements
      of two full lists is the number of shared neighbours: the number of
      triangles through the edge `u`-`v`. */
  lemma CommonCountIsSharedNeighbours(g: Csc, u: nat, v: nat)
    requires g.Valid() && g.LowerTriangular() && u < g.N() && v < g.N()
    ensures CommonCount(Neighbours(g, u), Neighbours(g, v)) == |SharedNeighbours(g, u, v)|
  {
    var nu, nv := Neighbours(g, u), Neighbours(g, v);
    NeighboursLowerTriangular(g, u);
    NeighboursLowerTriangular(g, v);
    NeighboursFacts(g, u);
    NeighboursFacts(g, v);
    CommonCountIsIntersection(nu, nv);
    assert Elems(nu) * Elems(nv) == SharedNeighbours(g, u, v);
  }

  /** On any valid matrix, even one that stores an edge in both
      directions so that a full list repeats a vertex, `sum` is the size of
      the multiset intersection of the two full lists. */
  lemma CommonCountOfFullLists(g: Csc, u: nat, v: nat)
    requires g.Valid() && u < g.N() && v < g.N()
    ensures CommonCount(Neighbours(g, u), Neighbours(g, v))
         == |multiset(Neighbours(g, u)) * multiset(Neighbours(g, v))|
  {
    NeighboursFacts(g, u);
    NeighboursFacts(g, v);
    CommonCountIsMultisetIntersection(Neighbours(g, u), Neighbours(g, v));
  }

  // ---------------------------------------------------------------------
  // multiplyMatrices
  // ---------------------------------------------------------------------

  /** The increments entry `j` of column `i` makes: none on the diagonal;
      otherwise the number of values the full lists of its two ends share
      goes to `res[curCol]`, then to `res[curRow]`. */
  function EdgeIncs(g: Csc, i: nat, j: nat): seq<Increment>
    requires g.Valid() && i < g.N() && g.cols[i] <= j < g.cols[i + 1]
  {
    var w := g.rows[j];
    if w == i then []
    else
      var full := FullLists(g, g.N());
      var sum := CommonCount(full[i], full[w]);
      [Increment(w, sum), Increment(i, sum)]
  }

  /** The full lists of the vertices `0` to `n - 1`, in vertex order. */
  function FullLists(g: Csc, n: nat): (t: seq<seq<nat>>)
    requires g.Valid() && n <= g.N()
    ensures |t| == n
  {
    if n == 0 then [] else FullLists(g, n - 1) + [Neighbours(g, n - 1)]
  }

  /** Entry `v` of the table is the full list of `v`. */
  lemma {:induction false} FullListsAt(g: Csc, n: nat, v: nat)
    requires g.Valid() && v < n <= g.N()
    ensures FullLists(g, n)[v] == Neighbours(g, v)
  {
    if v < n - 1 {
      FullListsAt(g, n - 1, v);
    }
  }

  /** A diagonal entry changes nothing; any other entry adds the same count
      to each of its two ends and nothing to any other counter. */
  lemma EdgeIncsGain(g: Csc, i: nat, j: nat, v: nat)
    requires g.Valid() && i < g.N() && g.cols[i] <= j < g.cols[i + 1]
    ensures g.rows[j] == i ==> Gain(EdgeIncs(g, i, j), v) == 0
    ensures g.rows[j] != i ==>
              Gain(EdgeIncs(g, i, j), v)
              == if v == i || v == g.rows[j] then CommonCount(Neighbours(g, i), Neighbours(g, g.rows[j])) else 0
    ensures Total(EdgeIncs(g, i, j)) == if g.rows[j] == i then 0 else 2 * CommonCount(Neighbours(g, i), Neighbours(g, g.rows[j]))
  {
    if g.rows[j] != i {
      FullListsAt(g, g.N(), i);
      FullListsAt(g, g.N(), g.rows[j]);
      PairGain(g.rows[j], i, CommonCount(Neighbours(g, i), Neighbours(g, g.rows[j])), v);
    }
  }

  /** The same amount to two different counters. */
  lemma PairGain(w: nat, i: nat, sum: nat, v: nat)
    requires w != i
    ensures Gain([Increment(w, sum), Increment(i, sum)], v) == if v == i || v == w then sum else 0
    ensures Total([Increment(w, sum), Increment(i, sum)]) == 2 * sum
  {
    var x, y := Increment(w, sum), Increment(i, sum);
    GainSnoc([x], y, v);
    GainSnoc([], x, v);
    assert [x] == [] + [x];
    assert [x, y] == [x] + [y];
  }

  /** The reverse tables as `multiplyMatrices` reads them: `colSizes[v]`
      is the length of the reverse list of `v` and `symmetricRowItems[v]`
      holds that list. */
  ghost predicate Tables(g: Csc, colSizes: array<nat>, items: array<array<nat>>)
    requires g.Valid()
    reads colSizes, items, set v | 0 <= v < items.Length :: items[v]
  {
    && colSizes.Length == g.N() && items.Length == g.N()
    && forall v :: 0 <= v < g.N() ==> colSizes[v] == items[v].Length && items[v][..] == Reverse(g, v, g.N())
  }

  /** The state `multiplyMatrices` works on: the reverse tables and a
      counter array per vertex that shares no storage with them. */
  ghost predicate Workspace(g: Csc, colSizes: array<nat>, items: array<array<nat>>, res: array<nat>)
    requires g.Valid()
    reads colSizes, items, set v | 0 <= v < items.Length :: items[v]
  {
    && Tables(g, colSizes, items) && res.Length == g.N()
    && res != colSizes && forall v :: 0 <= v < items.Length ==> items[v] != res
  }

  /** One full neighbour list, as `multiplyMatrices` builds `fullRow` and
      `fullCol`: a fresh buffer as long as the own column of `v` plus
      `colSizes[v]`, filled by merging the two. */
  method FullNeighbours(g: Csc, colSizes: array<nat>, items: array<array<nat>>, v: nat) returns (full: array<nat>)
    requires g.Valid() && v < g.N() && Tables(g, colSizes, items)
    ensures fresh(full) && full[..] == Neighbours(g, v)
  {
    ColumnBounds(g, v);
    var fullSize := g.cols[v + 1] - g.cols[v] + colSizes[v];
    full := new nat[fullSize];
    MergeArrays(g.rows[g.cols[v]..g.cols[v + 1]], items[v][..], full);
  }

  /** The locked section: `sum` goes to `res[curCol]`, then to
      `res[curRow]`. */
  method AddToBoth(res: array<nat>, curCol: nat, curRow: nat, sum: nat)
    requires curCol < res.Length && curRow < res.Length
    modifies res
    ensures res[..] == Apply(old(res[..]), [Increment(curCol, sum), Increment(curRow, sum)])
  {
    ghost var c := res[..];
    res[curCol] := res[curCol] + sum;
    assert res[..] == Add(c, Increment(curCol, sum));
    ghost var c1 := res[..];
    res[curRow] := res[curRow] + sum;
    assert res[..] == Add(c1, Increment(curRow, sum));
    ApplyPair(c, Increment(curCol, sum), Increment(curRow, sum));
  }

  /** The body of the inner loop of `multiplyMatrices` for entry `j` of
      column `i`: `curRow` is `i`, `curCol` the row stored at `j`. */
  method ProcessEdge(g: Csc, colSizes: array<nat>, items: array<array<nat>>, res: array<nat>, i: nat, j: nat)
    requires g.Valid() && i < g.N() && g.cols[i] <= j < g.cols[i + 1]
    requires Workspace(g, colSizes, items, res)
    modifies res
    ensures res[..] == Apply(old(res[..]), EdgeIncs(g, i, j))
    ensures Workspace(g, colSizes, items, res)
  {
    var curRow, curCol := i, g.rows[j];
    if curRow != curCol {
      var fullRow := FullNeighbours(g, colSizes, items, curRow);
      var fullCol := FullNeighbours(g, colSizes, items, curCol);
      var sum := CountCommonElementsInSortedArrays(fullRow[..], fullCol[..]);
      FullListsAt(g, g.N(), curRow);
      FullListsAt(g, g.N(), curCol);
      AddToBoth(res, curCol, curRow, sum);
    } else {
      assert res[..] == Apply(res[..], []);
    }
  }

  /** Two increments in a row. */
  lemma ApplyPair(c: seq<nat>, x: Increment, y: Increment)
    ensures Apply(c, [x, y]) == Add(Add(c, x), y)
  {
    ApplySnoc(c, [x], y);
    ApplySnoc(c, [], x);
    assert [x] == [] + [x];
    assert [x, y] == [x] + [y];
  }

  /** The increments of the entries of column `i` before `j`, in index
      order. */
  function EdgePrefix(g: Csc, i: nat, j: nat): seq<Increment>
    requires g.Valid() && i < g.N() && g.cols[i] <= j <= g.cols[i + 1]
    decreases j
  {
    if j == g.cols[i] then [] else EdgePrefix(g, i, j - 1) + EdgeIncs(g, i, j - 1)
  }

  /** The increments of column `i`: its entries in index order. */
  function ColumnEdgeIncs(g: Csc, i: nat): seq<Increment>
    requires g.Valid() && i < g.N()
  {
    EdgePrefix(g, i, g.cols[i + 1])
  }

  /** The work of each column. */
  function V4Blocks(g: Csc): (b: seq<seq<Increment>>)
    requires g.Valid()
    ensures |b| == g.N()
  {
    ColumnBlocks(g, g.N())
  }

  /** The work of columns 0 to `n - 1`, one block per column. */
  function ColumnBlocks(g: Csc, n: nat): (b: seq<seq<Increment>>)
    requires g.Valid() && n <= g.N()
    ensures |b| == n
  {
    if n == 0 then [] else ColumnBlocks(g, n - 1) + [ColumnEdgeIncs(g, n - 1)]
  }

  /** Block `k` is the work of column `k`. */
  lemma {:induction false} ColumnBlocksAt(g: Csc, n: nat, k: nat)
    requires g.Valid() && k < n <= g.N()
    ensures ColumnBlocks(g, n)[k] == ColumnEdgeIncs(g, k)
  {
    if k < n - 1 {
      ColumnBlocksAt(g, n - 1, k);
    }
  }

  /** The increments of the whole run, columns in index order. */
  function V4Incs(g: Csc): seq<Increment>
    requires g.Valid()
  {
    Scheduled(V4Blocks(g), Range(g.N()))
  }

  /** One pass of the outer loop of `multiplyMatrices`: the entries of
      column `i` in order. */
  method ProcessV4Column(g: Csc, colSizes: array<nat>, items: array<array<nat>>, res: array<nat>, i: nat)
    requires g.Valid() && i < g.N() && Workspace(g, colSizes, items, res)
    modifies res
    ensures res[..] == Apply(old(res[..]), ColumnEdgeIncs(g, i))
    ensures Workspace(g, colSizes, items, res)
  {
    ghost var c := res[..];
    ColumnBounds(g, i);
    assert EdgePrefix(g, i, g.cols[i]) == [];
    for j := g.cols[i] to g.cols[i + 1]
      invariant Workspace(g, colSizes, items, res)
      invariant res[..] == Apply(c, EdgePrefix(g, i, j))
    {
      ProcessEdgeStep(g, colSizes, items, res, i, j, c);
    }
    assert EdgePrefix(g, i, g.cols[i + 1]) == ColumnEdgeIncs(g, i);
  }

  method ProcessEdgeStep(g: Csc, colSizes: array<nat>, items: array<array<nat>>, res: array<nat>, i: nat, j: nat,
                         ghost c: seq<nat>)
    requires g.Valid() && i < g.N() && g.cols[i] <= j < g.cols[i + 1]
    requires Workspace(g, colSizes, items, res)
    requires res[..] == Apply(c, EdgePrefix(g, i, j))
    modifies res
    ensures res[..] == Apply(c, EdgePrefix(g, i, j + 1))
    ensures Workspace(g, colSizes, items, res)
  {
    ProcessEdge(g, colSizes, items, res, i, j);
    EdgePrefixNext(c, g, i, j);
  }

  lemma EdgePrefixNext(c: seq<nat>, g: Csc, i: nat, j: nat)
    requires g.Valid() && i < g.N() && g.cols[i] <= j < g.cols[i + 1]
    ensures Apply(c, EdgePrefix(g, i, j + 1)) == Apply(Apply(c, EdgePrefix(g, i, j)), EdgeIncs(g, i, j))
  {
    ApplyAppend(c, EdgePrefix(g, i, j), EdgeIncs(g, i, j));
  }

  /** `multiplyMatrices`: the thread body, columns `executeFrom` up to
      `executeTo` in order. */
  method MultiplyMatrices(g: Csc, colSizes: array<nat>, items: array<array<nat>>, res: array<nat>,
                          executeFrom: nat, executeTo: nat)
    requires g.Valid() && Workspace(g, colSizes, items, res)
    requires executeFrom <= executeTo <= g.N()
    modifies res
    ensures res[..] == Apply(old(res[..]), Scheduled(V4Blocks(g), Span(executeFrom, executeTo)))
    ensures Workspace(g, colSizes, items, res)
  {
    ghost var c := res[..];
    assert Scheduled(V4Blocks(g), Span(executeFrom, executeFrom)) == [];
    for i := executeFrom to executeTo
      invariant Workspace(g, colSizes, items, res)
      invariant res[..] == Apply(c, Scheduled(V4Blocks(g), Span(executeFrom, i)))
    {
      ProcessV4ColumnStep(g, colSizes, items, res, executeFrom, i, c);
    }
  }

  /** Column `i` of a thread's run, seen as extending the columns before it. */
  method ProcessV4ColumnStep(g: Csc, colSizes: array<nat>, items: array<array<nat>>, res: array<nat>,
                             executeFrom: nat, i: nat, ghost c: seq<nat>)
    requires g.Valid() && executeFrom <= i < g.N() && Workspace(g, colSizes, items, res)
    requires res[..] == Apply(c, Scheduled(V4Blocks(g), Span(executeFrom, i)))
    modifies res
    ensures res[..] == Apply(c, Scheduled(V4Blocks(g), Span(executeFrom, i + 1)))
    ensures Workspace(g, colSizes, items, res)
  {
    ProcessV4Column(g, colSizes, items, res, i);
    ColumnBlocksAt(g, g.N(), i);
    ApplyNextInSpan(c, V4Blocks(g), executeFrom, i);
  }

  // ---------------------------------------------------------------------
  // The chunk partition of cscParallelV4Pthreads
  // ---------------------------------------------------------------------

  /** 2^32: `uint32_t` arithmetic is modulo this. */
  const Word: nat := 0x1_0000_0000

  /** The first column of chunk `t` as the driver computes it,
      `t * nc / NUM_THREADS` in `uint32_t`: the product wraps before the
      division. */
  function ChunkStart(t: nat, nc: nat, threads: nat): nat
    requires 0 < threads
  {
    (t * nc) % Word / threads
  }

  /** The first column of chunk `t`, the product taken without
      wrap-around. */
  function WideChunkStart(t: nat, nc: nat, threads: nat): nat
    requires 0 < threads
  {
    t * nc / threads
  }

  lemma MulMonotone(a: nat, b: nat, m: nat)
    requires a <= b
    ensures a * m <= b * m
  {
  }

  lemma DivMonotone(a: nat, b: nat, d: nat)
    requires a <= b && 0 < d
    ensures a / d <= b / d
  {
    if a / d > b / d {
      MulMonotone(b / d + 1, a / d, d);
      assert false;
    }
  }

  /** The chunks start at 0, end at `nc`, and never go backwards. */
  lemma WideChunkBounds(s: nat, t: nat, nc: nat, threads: nat)
    requires 0 < threads && s <= t
    ensures WideChunkStart(0, nc, threads) == 0 && WideChunkStart(threads, nc, threads) == nc
    ensures WideChunkStart(s, nc, threads) <= WideChunkStart(t, nc, threads)
  {
    MulMonotone(s, t, nc);
    DivMonotone(s * nc, t * nc, threads);
    MulDiv(nc, threads);
  }

  lemma MulDiv(a: nat, d: nat)
    requires 0 < d
    ensures d * a / d == a
  {
    var q, r := d * a / d, d * a % d;
    assert d * a == d * q + r && r < d;
    if q < a {
      MulMonotone(q + 1, a, d);
      assert false;
    } else if q > a {
      MulMonotone(a + 1, q, d);
      assert false;
    }
  }

  /** While `NUM_THREADS * nc` fits in 32 bits, the driver's bounds are
      the intended ones. */
  lemma ChunkStartAgrees(t: nat, nc: nat, threads: nat)
    requires 0 < threads && t <= threads && threads * nc < Word
    ensures ChunkStart(t, nc, threads) == WideChunkStart(t, nc, threads)
  {
    MulMonotone(t, threads, nc);
  }

  /** Once `NUM_THREADS * nc` reaches 2^32 the bounds wrap: with 2^31
      columns and two threads, chunk 1 runs from 2^30 "up to" 0, so the
      loop of its thread does nothing and columns 2^30 to 2^31 - 1 are
      never visited. */
  lemma ChunkStartWraps()
    ensures ChunkStart(1, 0x8000_0000, 2) == 0x4000_0000
    ensures ChunkStart(2, 0x8000_0000, 2) == 0
    ensures WideChunkStart(2, 0x8000_0000, 2) == 0x8000_0000
  {
  }

  /** The columns chunks 0, ..., k - 1 take, one chunk after another. */
  function ChunkColumns(nc: nat, threads: nat, k: nat): seq<nat>
    requires k <= threads
    decreases k
  {
    if k == 0 then []
    else
      WideChunkBounds(k - 1, k, nc, threads);
      ChunkColumns(nc, threads, k - 1) + Span(WideChunkStart(k - 1, nc, threads), WideChunkStart(k, nc, threads))
  }

  /** The chunks are contiguous and, together, take every column once, in
      order: chunks 0 to k - 1 take exactly the columns before the start
      of chunk k. */
  lemma {:induction false} ChunksCover(nc: nat, threads: nat, k: nat)
    requires 0 < threads && k <= threads
    ensures ChunkColumns(nc, threads, k) == Span(0, WideChunkStart(k, nc, threads))
    ensures k == threads ==> ChunkColumns(nc, threads, k) == Range(nc)
    decreases k
  {
    WideChunkBounds(0, k, nc, threads);
    if k > 0 {
      ChunksCover(nc, threads, k - 1);
      WideChunkBounds(k - 1, k, nc, threads);
      SpanAppend(0, WideChunkStart(k - 1, nc, threads), WideChunkStart(k, nc, threads));
    }
    if k == threads {
      SpanRange(nc);
    }
  }

  /** The work of thread `t`: the columns of its chunk, in order. */
  function ChunkIncs(g: Csc, threads: nat, t: nat): seq<Increment>
    requires g.Valid() && t < threads
  {
    var nc := g.N();
    WideChunkBounds(t, t + 1, nc, threads);
    WideChunkBounds(t + 1, threads, nc, threads);
    Scheduled(V4Blocks(g), Span(WideChunkStart(t, nc, threads), WideChunkStart(t + 1, nc, threads)))
  }

  /** The work of each thread. */
  function ChunkBlocks(g: Csc, threads: nat): (b: seq<seq<Increment>>)
    requires g.Valid()
    ensures |b| == threads
  {
    seq(threads, t requires 0 <= t < threads => ChunkIncs(g, threads, t))
  }

  /** Threads 0 to k - 1, run one after another, do the columns of their
      chunks one after another. */
  lemma {:induction false} ChunkSchedule(g: Csc, threads: nat, k: nat)
    requires g.Valid() && 0 < threads && k <= threads
    ensures Below(ChunkColumns(g.N(), threads, k), g.N())
    ensures Scheduled(ChunkBlocks(g, threads), Range(k)) == Scheduled(V4Blocks(g), ChunkColumns(g.N(), threads, k))
    decreases k
  {
    var nc := g.N();
    ChunksCover(nc, threads, k);
    WideChunkBounds(k, threads, nc, threads);
    if k > 0 {
      ChunkSchedule(g, threads, k - 1);
      var blocks := ChunkBlocks(g, threads);
      ScheduledNext(blocks, k - 1);
      WideChunkBounds(k - 1, k, nc, threads);
      var span := Span(WideChunkStart(k - 1, nc, threads), WideChunkStart(k, nc, threads));
      assert blocks[k - 1] == Scheduled(V4Blocks(g), span);
      ScheduledAppend(V4Blocks(g), ChunkColumns(nc, threads, k - 1), span);
    }
  }

  /** All threads, in index order, do the columns in index order. */
  lemma AllChunks(g: Csc, threads: nat)
    requires g.Valid() && 0 < threads
    ensures Scheduled(ChunkBlocks(g, threads), Range(threads)) == V4Incs(g)
  {
    ChunkSchedule(g, threads, threads);
    ChunksCover(g.N(), threads, threads);
  }

  // ---------------------------------------------------------------------
  // The final halving and the driver
  // ---------------------------------------------------------------------

  /** Every counter divided by two, rounding down. */
  function Halved(s: seq<nat>): (r: seq<nat>)
    ensures |r| == |s| && forall k :: 0 <= k < |s| ==> 2 * r[k] <= s[k] < 2 * r[k] + 2
  {
    seq(|s|, k requires 0 <= k < |s| => s[k] / 2)
  }

  /** The last loop of the driver: `res[i] /= 2`. */
  method HalveAll(res: array<nat>)
    modifies res
    ensures res[..] == Halved(old(res[..]))
  {
    ghost var c := res[..];
    for i := 0 to res.Length
      invariant forall k :: 0 <= k < i ==> res[k] == c[k] / 2
      invariant forall k :: i <= k < res.Length ==> res[k] == c[k]
    {
      res[i] := res[i] / 2;
    }
  }

  /** The first part of the driver: `colSizes`, the allocation of
      `symmetricRowItems` and the filling loops. */
  method BuildTables(g: Csc) returns (colSizes: array<nat>, items: array<array<nat>>)
    requires g.Valid()
    ensures fresh(colSizes) && fresh(items)
    ensures forall v :: 0 <= v < items.Length ==> fresh(items[v])
    ensures Tables(g, colSizes, items)
  {
    colSizes := CountColumnSizes(g);
    items := AllocateReverseLists(colSizes);
    FillReverseLists(g, items);
  }

  /** What thread `t` of `numThreads` does: compute its chunk bounds in
      `uint32_t` arithmetic and run `multiplyMatrices` on them. */
  method RunChunk(g: Csc, colSizes: array<nat>, items: array<array<nat>>, res: array<nat>,
                  numThreads: nat, t: nat)
    requires g.Valid() && Workspace(g, colSizes, items, res)
    requires t < numThreads && numThreads * g.N() < Word
    modifies res
    ensures res[..] == Apply(old(res[..]), ChunkIncs(g, numThreads, t))
    ensures Workspace(g, colSizes, items, res)
  {
    var executeFrom := ChunkStart(t, g.N(), numThreads);
    var executeTo := ChunkStart(t + 1, g.N(), numThreads);
    ChunkStartAgrees(t, g.N(), numThreads);
    ChunkStartAgrees(t + 1, g.N(), numThreads);
    WideChunkBounds(t, t + 1, g.N(), numThreads);
    WideChunkBounds(t + 1, numThreads, g.N(), numThreads);
    MultiplyMatrices(g, colSizes, items, res, executeFrom, executeTo);
  }

  /** `cscParallelV4Pthreads`: builds the reverse tables, lets
      `NUM_THREADS` threads run `multiplyMatrices` over their chunks and
      halves every counter. The threads take their chunks in an order the
      model receives as `order`; their increments are made under a lock,
      so any interleaving of them leaves what this order leaves, and
      every order leaves what one pass over the columns leaves. */
  method CscParallelV4Pthreads(g: Csc, res: array<nat>, numThreads: nat, order: seq<nat>)
    requires g.Valid() && res.Length == g.N()
    requires numThreads * g.N() < Word
    requires IsPermutation(order, numThreads)
    modifies res
    ensures res[..] == Halved(if numThreads == 0 then old(res[..]) else Apply(old(res[..]), V4Incs(g)))
  {
    ghost var c := res[..];
    var colSizes, items := BuildTables(g);
    ghost var blocks := ChunkBlocks(g, numThreads);
    PermutationBounds(order, numThreads);
    for t := 0 to |order|
      modifies res
      invariant Workspace(g, colSizes, items, res)
      invariant Below(order[..t], numThreads)
      invariant res[..] == Apply(c, Scheduled(blocks, order[..t]))
    {
      RunChunk(g, colSizes, items, res, numThreads, order[t]);
      ApplyNextInOrder(c, blocks, order, t);
    }
    assert order[..|order|] == order;
    if numThreads > 0 {
      ScheduledAnyOrder(c, blocks, order);
      AllChunks(g, numThreads);
    } else {
      assert Apply(c, Scheduled(blocks, order)) == c;
    }
    HalveAll(res);
  }
}
