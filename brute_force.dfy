/** The brute-force triangle counter `cooSequential` of main.c: it fills a
    dense adjacency matrix from the COO pairs and then, for every triple
    `i < j < k` whose three sides are present, adds one to the counters of
    `i`, `j` and `k`. */
module BruteForce {
  import opened Counters

  /** The graph as COO pairs: pair `p` joins `rows[p]` and `cols[p]`
      (`rowsCoo`, `colsCoo` and `nnz == |rows|` in the C code). */
  datatype Coo = Coo(rows: seq<nat>, cols: seq<nat>) {

    /** As many row as column indices, all of them vertices below `n`. */
    predicate Valid(n: nat) {
      |rows| == |cols| && forall p :: 0 <= p < |rows| ==> rows[p] < n && cols[p] < n
    }

    /** Pair `p` joins `u` and `v`, in one direction or the other. */
    predicate Joins(p: nat, u: nat, v: nat)
      requires p < |rows| && p < |cols|
    {
      (rows[p] == u && cols[p] == v) || (rows[p] == v && cols[p] == u)
    }

    /** One of the first `upTo` pairs joins `u` and `v`. */
    predicate JoinedBefore(upTo: nat, u: nat, v: nat)
      requires upTo <= |rows| && upTo <= |cols|
    {
      exists p :: 0 <= p < upTo && Joins(p, u, v)
    }

    /** Some pair joins `u` and `v`. */
    predicate Adjacent(u: nat, v: nat)
      requires |rows| == |cols|
    {
      JoinedBefore(|rows|, u, v)
    }

    /** The adjacency relation of the graph. */
    function Adjacency(): (nat, nat) -> bool
      requires |rows| == |cols|
    {
      (u: nat, v: nat) => Adjacent(u, v)
    }
  }

  /** The three sides of `i`, `j`, `k` are present in the adjacency
      relation `adj`: the test of the innermost loop. */
  predicate Closes(adj: (nat, nat) -> bool, i: nat, j: nat, k: nat) {
    adj(i, j) && adj(j, k) && adj(k, i)
  }

  // ---------------------------------------------------------------------
  // The adjacency matrix
  // ---------------------------------------------------------------------

  /** Allocates `adj`, clears it and sets both `adj[c][r]` and `adj[r][c]`
      for every pair: afterwards an entry is 1 exactly when some pair joins
      its two vertices, so the matrix is symmetric. */
  method FillAdjacency(coo: Coo, nc: nat) returns (adj: array2<nat>)
    requires coo.Valid(nc)
    ensures fresh(adj) && adj.Length0 == nc && adj.Length1 == nc
    ensures forall u, v :: 0 <= u < nc && 0 <= v < nc
              ==> adj[u, v] == if coo.Adjacent(u, v) then 1 else 0
    ensures forall u, v :: 0 <= u < nc && 0 <= v < nc ==> adj[u, v] == adj[v, u]
  {
    adj := new nat[nc, nc];
    for i := 0 to nc
      invariant forall u, v :: 0 <= u < i && 0 <= v < nc ==> adj[u, v] == 0
    {
      for j := 0 to nc
        invariant forall u, v :: 0 <= u < i && 0 <= v < nc ==> adj[u, v] == 0
        invariant forall v :: 0 <= v < j ==> adj[i, v] == 0
      {
        adj[i, j] := 0;
      }
    }
    for p := 0 to |coo.rows|
      invariant forall u, v :: 0 <= u < nc && 0 <= v < nc
                  ==> adj[u, v] == if coo.JoinedBefore(p, u, v) then 1 else 0
    {
      label before:
      adj[coo.cols[p], coo.rows[p]] := 1;
      adj[coo.rows[p], coo.cols[p]] := 1;
      forall u, v | 0 <= u < nc && 0 <= v < nc
        ensures adj[u, v] == if coo.JoinedBefore(p + 1, u, v) then 1 else 0
      {
        JoinedNext(coo, p, u, v);
        if !coo.Joins(p, u, v) {
          assert adj[u, v] == old@before(adj[u, v]);
        }
      }
    }
    forall u, v | 0 <= u < nc && 0 <= v < nc
      ensures adj[u, v] == adj[v, u]
    {
      AdjacentSymmetric(coo, u, v);
    }
  }

  /** One more pair joins what the earlier ones join, and its own two
      vertices. */
  lemma JoinedNext(coo: Coo, p: nat, u: nat, v: nat)
    requires p < |coo.rows| && p < |coo.cols|
    ensures coo.JoinedBefore(p + 1, u, v) <==> coo.JoinedBefore(p, u, v) || coo.Joins(p, u, v)
  {
    if coo.JoinedBefore(p + 1, u, v) {
      var q :| 0 <= q < p + 1 && coo.Joins(q, u, v);
      if q < p {
        assert coo.JoinedBefore(p, u, v);
      }
    }
    if coo.JoinedBefore(p, u, v) {
      var q :| 0 <= q < p && coo.Joins(q, u, v);
      assert coo.JoinedBefore(p + 1, u, v);
    }
  }

  /** Adjacency does not depend on the direction of the pair. */
  lemma AdjacentSymmetric(coo: Coo, u: nat, v: nat)
    requires |coo.rows| == |coo.cols|
    ensures coo.Adjacent(u, v) <==> coo.Adjacent(v, u)
  {
    if coo.Adjacent(u, v) {
      var q :| 0 <= q < |coo.rows| && coo.Joins(q, u, v);
      assert coo.Joins(q, v, u);
    }
    if coo.Adjacent(v, u) {
      var q :| 0 <= q < |coo.rows| && coo.Joins(q, v, u);
      assert coo.Joins(q, u, v);
    }
  }

  // ---------------------------------------------------------------------
  // The triangles, in the order the three loops find them
  // ---------------------------------------------------------------------

  datatype Triangle = Triangle(a: nat, b: nat, c: nat)

  /** The triangles `(i, j, k')` with `j < k' < k`: what the innermost loop
      finds before `k`. */
  function KTriangles(adj: (nat, nat) -> bool, i: nat, j: nat, k: nat): seq<Triangle>
    decreases k
  {
    if k <= j + 1 then []
    else KTriangles(adj, i, j, k - 1) + (if Closes(adj, i, j, k - 1) then [Triangle(i, j, k - 1)] else [])
  }

  /** The triangles `(i, j', k)` with `i < j' < j`: what the middle loop
      finds before `j`. */
  function JTriangles(adj: (nat, nat) -> bool, n: nat, i: nat, j: nat): seq<Triangle>
    decreases j
  {
    if j <= i + 1 then [] else JTriangles(adj, n, i, j - 1) + KTriangles(adj, i, j - 1, n)
  }

  /** The triangles `(i', j, k)` with `i' < i`: what the outer loop finds
      before `i`. */
  function Triangles(adj: (nat, nat) -> bool, n: nat, i: nat): seq<Triangle>
    decreases i
  {
    if i == 0 then [] else Triangles(adj, n, i - 1) + JTriangles(adj, n, i - 1, n)
  }

  /** The increments for a list of triangles: one to each corner. */
  function TriangleIncs(ts: seq<Triangle>): (r: seq<Increment>)
    ensures |r| == 3 * |ts|
    decreases |ts|
  {
    if |ts| == 0 then []
    else
      var t := ts[|ts| - 1];
      TriangleIncs(ts[..|ts| - 1]) + Ones(t.a, t.b, t.c)
  }

  /** Every triangle of the graph whose corners are below `n`. */
  function TriangleSet(adj: (nat, nat) -> bool, n: nat): set<Triangle>
  {
    set i, j, k | 0 <= i < j < k < n && Closes(adj, i, j, k) :: Triangle(i, j, k)
  }

  /** `t` has corners `i < j < k` below `n` whose three sides are
      present. */
  predicate IsTriangle(adj: (nat, nat) -> bool, n: nat, t: Triangle)
  {
    t.a < t.b < t.c < n && Closes(adj, t.a, t.b, t.c)
  }

  lemma {:induction false} KMembers(adj: (nat, nat) -> bool, i: nat, j: nat, k: nat, t: Triangle)
    ensures t in KTriangles(adj, i, j, k)
        <==> t.a == i && t.b == j && j < t.c < k && Closes(adj, i, j, t.c)
    decreases k
  {
    if k > j + 1 {
      KMembers(adj, i, j, k - 1, t);
    }
  }

  lemma {:induction false} JMembers(adj: (nat, nat) -> bool, n: nat, i: nat, j: nat, t: Triangle)
    ensures t in JTriangles(adj, n, i, j) <==> t.a == i && t.b < j && IsTriangle(adj, n, t)
    decreases j
  {
    if j > i + 1 {
      JMembers(adj, n, i, j - 1, t);
      KMembers(adj, i, j - 1, n, t);
    }
  }

  /** The outer loop finds, before `i`, exactly the triangles whose first
      corner is below `i`. */
  lemma {:induction false} Members(adj: (nat, nat) -> bool, n: nat, i: nat, t: Triangle)
    ensures t in Triangles(adj, n, i) <==> t.a < i && IsTriangle(adj, n, t)
    decreases i
  {
    if i > 0 {
      Members(adj, n, i - 1, t);
      JMembers(adj, n, i - 1, n, t);
    }
  }

  /** No two positions of `s` hold the same value. */
  predicate Distinct<T(==)>(s: seq<T>) {
    forall p, q :: 0 <= p < q < |s| ==> s[p] != s[q]
  }

  lemma DistinctAppend<T>(xs: seq<T>, ys: seq<T>)
    requires Distinct(xs) && Distinct(ys)
    requires forall p, q :: 0 <= p < |xs| && 0 <= q < |ys| ==> xs[p] != ys[q]
    ensures Distinct(xs + ys)
  {
    var s := xs + ys;
    forall p, q | 0 <= p < q < |s|
      ensures s[p] != s[q]
    {
      if p < |xs| && q >= |xs| {
        assert s[p] == xs[p] && s[q] == ys[q - |xs|];
      } else if p >= |xs| {
        assert s[p] == ys[p - |xs|] && s[q] == ys[q - |xs|];
      }
    }
  }

  lemma {:induction false} KDistinct(adj: (nat, nat) -> bool, i: nat, j: nat, k: nat)
    ensures Distinct(KTriangles(adj, i, j, k))
    decreases k
  {
    if k > j + 1 {
      KDistinct(adj, i, j, k - 1);
      var xs := KTriangles(adj, i, j, k - 1);
      var ys := if Closes(adj, i, j, k - 1) then [Triangle(i, j, k - 1)] else [];
      forall p, q | 0 <= p < |xs| && 0 <= q < |ys|
        ensures xs[p] != ys[q]
      {
        KMembers(adj, i, j, k - 1, xs[p]);
      }
      DistinctAppend(xs, ys);
    }
  }

  lemma {:induction false} JDistinct(adj: (nat, nat) -> bool, n: nat, i: nat, j: nat)
    ensures Distinct(JTriangles(adj, n, i, j))
    decreases j
  {
    if j > i + 1 {
      JDistinct(adj, n, i, j - 1);
      KDistinct(adj, i, j - 1, n);
      var xs, ys := JTriangles(adj, n, i, j - 1), KTriangles(adj, i, j - 1, n);
      forall p, q | 0 <= p < |xs| && 0 <= q < |ys|
        ensures xs[p] != ys[q]
      {
        JMembers(adj, n, i, j - 1, xs[p]);
        KMembers(adj, i, j - 1, n, ys[q]);
      }
      DistinctAppend(xs, ys);
    }
  }

  /** The three loops never find the same triangle twice. */
  lemma {:induction false} TrianglesDistinct(adj: (nat, nat) -> bool, n: nat, i: nat)
    ensures Distinct(Triangles(adj, n, i))
    decreases i
  {
    if i > 0 {
      TrianglesDistinct(adj, n, i - 1);
      JDistinct(adj, n, i - 1, n);
      var xs, ys := Triangles(adj, n, i - 1), JTriangles(adj, n, i - 1, n);
      forall p, q | 0 <= p < |xs| && 0 <= q < |ys|
        ensures xs[p] != ys[q]
      {
        EarlierRowsDiffer(adj, n, i - 1, xs[p], ys[q]);
      }
      DistinctAppend(xs, ys);
    }
  }

  /** A triangle found before row `i` is not one found in row `i`. */
  lemma EarlierRowsDiffer(adj: (nat, nat) -> bool, n: nat, i: nat, t: Triangle, u: Triangle)
    requires t in Triangles(adj, n, i) && u in JTriangles(adj, n, i, n)
    ensures t != u
  {
    Members(adj, n, i, t);
    JMembers(adj, n, i, n, u);
  }

  lemma {:induction false} DistinctCount<T>(s: seq<T>)
    requires Distinct(s)
    ensures |set x | x in s| == |s|
    decreases |s|
  {
    if s != [] {
      var m := |s| - 1;
      assert Distinct(s[..m]);
      DistinctCount(s[..m]);
      assert (set x | x in s) == (set x | x in s[..m]) + {s[m]};
      assert s[m] !in s[..m];
    }
  }

  /** The loops find every triangle of the graph exactly once. */
  lemma EveryTriangleOnce(adj: (nat, nat) -> bool, n: nat)
    ensures forall t :: t in Triangles(adj, n, n) <==> t in TriangleSet(adj, n)
    ensures Distinct(Triangles(adj, n, n))
    ensures |Triangles(adj, n, n)| == |TriangleSet(adj, n)|
  {
    var ts := Triangles(adj, n, n);
    forall t
      ensures t in ts <==> t in TriangleSet(adj, n)
    {
      Members(adj, n, n, t);
    }
    TrianglesDistinct(adj, n, n);
    DistinctCount(ts);
    assert (set x | x in ts) == TriangleSet(adj, n);
  }

  // ---------------------------------------------------------------------
  // What the counters gain
  // ---------------------------------------------------------------------

  /** How many triangles of `ts` have `v` as a corner. */
  function Touching(ts: seq<Triangle>, v: nat): nat
    decreases |ts|
  {
    if |ts| == 0 then 0
    else
      var t := ts[|ts| - 1];
      Touching(ts[..|ts| - 1], v) + (if v == t.a || v == t.b || v == t.c then 1 else 0)
  }

  /** A counter gains one for every triangle it is a corner of. */
  lemma {:induction false} TriangleIncsGain(ts: seq<Triangle>, v: nat)
    requires forall t :: t in ts ==> t.a < t.b < t.c
    ensures Gain(TriangleIncs(ts), v) == Touching(ts, v)
    decreases |ts|
  {
    if ts != [] {
      var m := |ts| - 1;
      var t := ts[m];
      assert forall x :: x in ts[..m] ==> x in ts;
      TriangleIncsGain(ts[..m], v);
      GainAppend(TriangleIncs(ts[..m]), Ones(t.a, t.b, t.c), v);
      OnesFacts(t.a, t.b, t.c, v);
    }
  }

  /** The counters gain three per triangle in all. */
  lemma {:induction false} TriangleIncsTotal(ts: seq<Triangle>)
    ensures Total(TriangleIncs(ts)) == 3 * |ts|
    decreases |ts|
  {
    if ts != [] {
      var m := |ts| - 1;
      var t := ts[m];
      TriangleIncsTotal(ts[..m]);
      TotalAppend(TriangleIncs(ts[..m]), Ones(t.a, t.b, t.c));
      OnesFacts(t.a, t.b, t.c, 0);
    }
  }

  lemma {:induction false} TriangleIncsTargets(ts: seq<Triangle>, n: nat)
    requires forall t :: t in ts ==> t.a < n && t.b < n && t.c < n
    ensures Targets(TriangleIncs(ts), n)
    decreases |ts|
  {
    if ts != [] {
      var m := |ts| - 1;
      var t := ts[m];
      assert forall x :: x in ts[..m] ==> x in ts;
      TriangleIncsTargets(ts[..m], n);
      assert t in ts;
      TargetsAppend(TriangleIncs(ts[..m]), Ones(t.a, t.b, t.c), n);
    }
  }

  lemma TriangleIncsSnoc(c: seq<nat>, ts: seq<Triangle>, t: Triangle)
    ensures Apply(c, TriangleIncs(ts + [t])) == Apply(Apply(c, TriangleIncs(ts)), Ones(t.a, t.b, t.c))
  {
    assert (ts + [t])[..|ts|] == ts;
    ApplyAppend(c, TriangleIncs(ts), Ones(t.a, t.b, t.c));
  }

  /** After the brute-force run, each counter has gained the number of
      triangles it is a corner of, and together they have gained three
      times the number of triangles. */
  lemma BruteForceCounts(coo: Coo, c: seq<nat>)
    requires coo.Valid(|c|)
    ensures forall v :: 0 <= v < |c| ==>
              Apply(c, TriangleIncs(Triangles(coo.Adjacency(), |c|, |c|)))[v]
              == c[v] + Touching(Triangles(coo.Adjacency(), |c|, |c|), v)
    ensures Sum(Apply(c, TriangleIncs(Triangles(coo.Adjacency(), |c|, |c|))))
         == Sum(c) + 3 * |TriangleSet(coo.Adjacency(), |c|)|
  {
    var n, adj := |c|, coo.Adjacency();
    var ts := Triangles(adj, n, n);
    forall t | t in ts
      ensures t.a < t.b < t.c < n
    {
      Members(adj, n, n, t);
    }
    forall v | 0 <= v < n
      ensures Apply(c, TriangleIncs(ts))[v] == c[v] + Touching(ts, v)
    {
      ApplyAt(c, TriangleIncs(ts), v);
      TriangleIncsGain(ts, v);
    }
    TriangleIncsTargets(ts, n);
    SumApply(c, TriangleIncs(ts));
    TriangleIncsTotal(ts);
    EveryTriangleOnce(adj, n);
  }

  // ---------------------------------------------------------------------
  // cooSequential
  // ---------------------------------------------------------------------

  /** `m` holds 1 where `adj` relates two vertices below `n` and 0
      elsewhere. */
  ghost predicate Represents(m: array2<nat>, adj: (nat, nat) -> bool, n: nat)
    reads m
  {
    && m.Length0 == n && m.Length1 == n
    && forall u, v :: 0 <= u < n && 0 <= v < n ==> m[u, v] == if adj(u, v) then 1 else 0
  }

  /** The loops' increments for consecutive runs of triangles add up. */
  lemma {:induction false} TriangleIncsAppend(c: seq<nat>, xs: seq<Triangle>, ys: seq<Triangle>)
    ensures Apply(c, TriangleIncs(xs + ys)) == Apply(Apply(c, TriangleIncs(xs)), TriangleIncs(ys))
    decreases |ys|
  {
    if ys == [] {
      assert xs + ys == xs;
    } else {
      var m := |ys| - 1;
      var t := ys[m];
      assert xs + ys == (xs + ys[..m]) + [t];
      TriangleIncsSnoc(c, xs + ys[..m], t);
      TriangleIncsAppend(c, xs, ys[..m]);
      TriangleIncsSnoc(Apply(c, TriangleIncs(xs)), ys[..m], t);
    }
  }

  /** The counters `c` after the innermost loop has tried every `k'` with
      `j < k' < k`. */
  function KCounts(c: seq<nat>, adj: (nat, nat) -> bool, i: nat, j: nat, k: nat): seq<nat>
    decreases k
  {
    if k <= j + 1 then c
    else
      var d := KCounts(c, adj, i, j, k - 1);
      if Closes(adj, i, j, k - 1) then Apply(d, Ones(i, j, k - 1)) else d
  }

  /** The counters `c` after the middle loop has run the innermost one for
      every `j'` with `i < j' < j`. */
  function JCounts(c: seq<nat>, adj: (nat, nat) -> bool, n: nat, i: nat, j: nat): seq<nat>
    decreases j
  {
    if j <= i + 1 then c else KCounts(JCounts(c, adj, n, i, j - 1), adj, i, j - 1, n)
  }

  /** The counters `c` after the outer loop has run the middle one for
      every `i' < i`. */
  function Counts(c: seq<nat>, adj: (nat, nat) -> bool, n: nat, i: nat): seq<nat>
    decreases i
  {
    if i == 0 then c else JCounts(Counts(c, adj, n, i - 1), adj, n, i - 1, n)
  }

  /** The innermost loop adds one to each corner of the triangles it
      finds. */
  lemma {:induction false} KCountsIncs(c: seq<nat>, adj: (nat, nat) -> bool, i: nat, j: nat, k: nat)
    ensures KCounts(c, adj, i, j, k) == Apply(c, TriangleIncs(KTriangles(adj, i, j, k)))
    decreases k
  {
    if k > j + 1 {
      KCountsIncs(c, adj, i, j, k - 1);
      KTrianglesStep(c, adj, i, j, k);
    }
  }

  /** One more pass of the innermost loop adds one to each corner of the
      triangle it finds, if any. */
  lemma KTrianglesStep(c: seq<nat>, adj: (nat, nat) -> bool, i: nat, j: nat, k: nat)
    requires k > j + 1
    ensures Apply(c, TriangleIncs(KTriangles(adj, i, j, k)))
         == var d := Apply(c, TriangleIncs(KTriangles(adj, i, j, k - 1)));
            if Closes(adj, i, j, k - 1) then Apply(d, Ones(i, j, k - 1)) else d
  {
    var ts := KTriangles(adj, i, j, k - 1);
    if Closes(adj, i, j, k - 1) {
      TriangleIncsSnoc(c, ts, Triangle(i, j, k - 1));
    } else {
      assert KTriangles(adj, i, j, k) == ts + [] == ts;
    }
  }

  /** So does the middle loop. */
  lemma {:induction false} JCountsIncs(c: seq<nat>, adj: (nat, nat) -> bool, n: nat, i: nat, j: nat)
    ensures JCounts(c, adj, n, i, j) == Apply(c, TriangleIncs(JTriangles(adj, n, i, j)))
    decreases j
  {
    if j > i + 1 {
      JCountsIncs(c, adj, n, i, j - 1);
      JCountsStep(c, JCounts(c, adj, n, i, j - 1), adj, n, i, j);
    }
  }

  /** One pass of the middle loop, from counters `d` that already hold the
      triangles found before `j - 1`. */
  lemma JCountsStep(c: seq<nat>, d: seq<nat>, adj: (nat, nat) -> bool, n: nat, i: nat, j: nat)
    requires j > i + 1 && d == Apply(c, TriangleIncs(JTriangles(adj, n, i, j - 1)))
    ensures KCounts(d, adj, i, j - 1, n) == Apply(c, TriangleIncs(JTriangles(adj, n, i, j)))
  {
    KCountsIncs(d, adj, i, j - 1, n);
    JTrianglesStep(c, adj, n, i, j);
  }

  /** One more pass of the middle loop adds what the innermost loop
      finds. */
  lemma JTrianglesStep(c: seq<nat>, adj: (nat, nat) -> bool, n: nat, i: nat, j: nat)
    requires j > i + 1
    ensures Apply(c, TriangleIncs(JTriangles(adj, n, i, j)))
         == Apply(Apply(c, TriangleIncs(JTriangles(adj, n, i, j - 1))), TriangleIncs(KTriangles(adj, i, j - 1, n)))
  {
    TriangleIncsAppend(c, JTriangles(adj, n, i, j - 1), KTriangles(adj, i, j - 1, n));
  }

  /** And so does the outer loop. */
  lemma {:induction false} CountsIncs(c: seq<nat>, adj: (nat, nat) -> bool, n: nat, i: nat)
    ensures Counts(c, adj, n, i) == Apply(c, TriangleIncs(Triangles(adj, n, i)))
    decreases i
  {
    if i > 0 {
      CountsIncs(c, adj, n, i - 1);
      CountsStep(c, Counts(c, adj, n, i - 1), adj, n, i);
    }
  }

  /** One pass of the outer loop, from counters `d` that already hold the
      triangles found before `i - 1`. */
  lemma CountsStep(c: seq<nat>, d: seq<nat>, adj: (nat, nat) -> bool, n: nat, i: nat)
    requires i > 0 && d == Apply(c, TriangleIncs(Triangles(adj, n, i - 1)))
    ensures JCounts(d, adj, n, i - 1, n) == Apply(c, TriangleIncs(Triangles(adj, n, i)))
  {
    JCountsIncs(d, adj, n, i - 1, n);
    TrianglesStep(c, adj, n, i);
  }

  /** One more pass of the outer loop adds what the middle loop finds. */
  lemma TrianglesStep(c: seq<nat>, adj: (nat, nat) -> bool, n: nat, i: nat)
    requires i > 0
    ensures Apply(c, TriangleIncs(Triangles(adj, n, i)))
         == Apply(Apply(c, TriangleIncs(Triangles(adj, n, i - 1))), TriangleIncs(JTriangles(adj, n, i - 1, n)))
  {
    TriangleIncsAppend(c, Triangles(adj, n, i - 1), JTriangles(adj, n, i - 1, n));
  }

  /** The innermost loop of `cooSequential`, for fixed `i` and `j`. */
  method ScanThirdCorner(m: array2<nat>, ghost adj: (nat, nat) -> bool, c3: array<nat>,
                         i: nat, j: nat, n: nat)
    requires Represents(m, adj, n) && c3.Length == n && i < j < n
    modifies c3
    ensures c3[..] == KCounts(old(c3[..]), adj, i, j, n)
  {
    ghost var c := c3[..];
    for k := j + 1 to n
      invariant c3[..] == KCounts(c, adj, i, j, k)
    {
      assert Closes(adj, i, j, k) <==> m[i, j] == 1 && m[j, k] == 1 && m[k, i] == 1;
      if m[i, j] == 1 && m[j, k] == 1 && m[k, i] == 1 {
        IncrementEach(c3, i, j, k);
      }
    }
  }

  /** The middle loop of `cooSequential`, for fixed `i`. */
  method ScanSecondCorner(m: array2<nat>, ghost adj: (nat, nat) -> bool, c3: array<nat>,
                          i: nat, n: nat)
    requires Represents(m, adj, n) && c3.Length == n && i < n
    modifies c3
    ensures c3[..] == JCounts(old(c3[..]), adj, n, i, n)
  {
    ghost var c := c3[..];
    for j := i + 1 to n
      invariant c3[..] == JCounts(c, adj, n, i, j)
    {
      ScanThirdCorner(m, adj, c3, i, j, n);
    }
  }

  /** `cooSequential`: for every `i < j < k` with `adj[i][j]`, `adj[j][k]`
      and `adj[k][i]` set, one to each of `c3[i]`, `c3[j]` and `c3[k]`. */
  method CooSequential(coo: Coo, c3: array<nat>, nc: nat)
    requires coo.Valid(nc) && c3.Length == nc
    modifies c3
    ensures c3[..] == Apply(old(c3[..]), TriangleIncs(Triangles(coo.Adjacency(), nc, nc)))
  {
    var adj := FillAdjacency(coo, nc);
    ghost var adjacent := coo.Adjacency();
    assert Represents(adj, adjacent, nc);
    ghost var c := c3[..];
    for i := 0 to nc
      invariant Represents(adj, adjacent, nc)
      invariant c3[..] == Counts(c, adjacent, nc, i)
    {
      ScanSecondCorner(adj, adjacent, c3, i, nc);
    }
    CountsIncs(c, adjacent, nc, nc);
  }
}
