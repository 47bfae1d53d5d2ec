/** The per-vertex contribution vector (`c3` in the CSC counters, `res` in
    the neighbour-expansion counter) and the updates made to it.

    Every update the kernels make is one increment `counter[vertex] +=
    amount`: an OpenMP atomic one, or one made under the shared mutex. A run
    is therefore described by the list of its increments. The lemmas here
    show that the resulting counters depend only on the multiset of that
    list, so every interleaving of the threads' increments, and every order
    in which columns or chunks are processed, leaves the same counters. */
module Counters {

  /** `counter[vertex] += amount`. */
  datatype Increment = Increment(vertex: nat, amount: nat)

  /** Every increment of `incs` targets one of `n` counters. */
  predicate Targets(incs: seq<Increment>, n: nat) {
    forall t :: 0 <= t < |incs| ==> incs[t].vertex < n
  }

  /** One increment. The kernels only ever make increments that target an
      existing counter; one that does not would change nothing here. */
  function Add(c: seq<nat>, inc: Increment): seq<nat>
  {
    if inc.vertex < |c| then c[inc.vertex := c[inc.vertex] + inc.amount] else c
  }

  /** The counters `c` after the increments `incs`, made in list order. */
  function Apply(c: seq<nat>, incs: seq<Increment>): (r: seq<nat>)
    ensures |r| == |c|
    decreases |incs|
  {
    if |incs| == 0 then c
    else Add(Apply(c, incs[..|incs| - 1]), incs[|incs| - 1])
  }

  /** Everything `incs` adds to counter `v`. */
  function Gain(incs: seq<Increment>, v: nat): nat
    decreases |incs|
  {
    if |incs| == 0 then 0
    else Gain(incs[..|incs| - 1], v)
         + (if incs[|incs| - 1].vertex == v then incs[|incs| - 1].amount else 0)
  }

  /** Everything `incs` adds, over all counters. */
  function Total(incs: seq<Increment>): nat
    decreases |incs|
  {
    if |incs| == 0 then 0 else Total(incs[..|incs| - 1]) + incs[|incs| - 1].amount
  }

  /** The sum of the counters. */
  function Sum(c: seq<nat>): nat
    decreases |c|
  {
    if |c| == 0 then 0 else Sum(c[..|c| - 1]) + c[|c| - 1]
  }

  /** Each counter ends up at its start value plus its gain: no increment
      is lost and none lands elsewhere. */
  lemma {:induction false} ApplyAt(c: seq<nat>, incs: seq<Increment>, v: nat)
    requires v < |c|
    ensures Apply(c, incs)[v] == c[v] + Gain(incs, v)
    decreases |incs|
  {
    if incs != [] {
      ApplyAt(c, incs[..|incs| - 1], v);
    }
  }

  /** Applying `xs` then `ys` is applying their concatenation. */
  lemma {:induction false} ApplyAppend(c: seq<nat>, xs: seq<Increment>, ys: seq<Increment>)
    ensures Apply(c, xs + ys) == Apply(Apply(c, xs), ys)
    decreases |ys|
  {
    if ys == [] {
      assert xs + ys == xs;
    } else {
      assert (xs + ys)[..|xs + ys| - 1] == xs + ys[..|ys| - 1];
      ApplyAppend(c, xs, ys[..|ys| - 1]);
    }
  }

  lemma {:induction false} GainAppend(xs: seq<Increment>, ys: seq<Increment>, v: nat)
    ensures Gain(xs + ys, v) == Gain(xs, v) + Gain(ys, v)
    decreases |ys|
  {
    if ys == [] {
      assert xs + ys == xs;
    } else {
      assert (xs + ys)[..|xs + ys| - 1] == xs + ys[..|ys| - 1];
      GainAppend(xs, ys[..|ys| - 1], v);
    }
  }

  lemma {:induction false} TotalAppend(xs: seq<Increment>, ys: seq<Increment>)
    ensures Total(xs + ys) == Total(xs) + Total(ys)
    decreases |ys|
  {
    if ys == [] {
      assert xs + ys == xs;
    } else {
      assert (xs + ys)[..|xs + ys| - 1] == xs + ys[..|ys| - 1];
      TotalAppend(xs, ys[..|ys| - 1]);
    }
  }

  lemma TargetsAppend(xs: seq<Increment>, ys: seq<Increment>, n: nat)
    requires Targets(xs, n) && Targets(ys, n)
    ensures Targets(xs + ys, n)
  {
    forall t | 0 <= t < |xs + ys|
      ensures (xs + ys)[t].vertex < n
    {
      if t >= |xs| {
        assert (xs + ys)[t] == ys[t - |xs|];
      }
    }
  }

  lemma GainSnoc(xs: seq<Increment>, x: Increment, v: nat)
    ensures Gain(xs + [x], v) == Gain(xs, v) + (if x.vertex == v then x.amount else 0)
    ensures Total(xs + [x]) == Total(xs) + x.amount
  {
    assert (xs + [x])[..|xs|] == xs;
  }

  lemma ApplySnoc(c: seq<nat>, xs: seq<Increment>, x: Increment)
    ensures Apply(c, xs + [x]) == Add(Apply(c, xs), x)
  {
    assert (xs + [x])[..|xs|] == xs;
  }

  /** Increments commute: a counter's gain depends only on the multiset of
      increments, not on their order. */
  lemma {:induction false} GainPermutation(xs: seq<Increment>, ys: seq<Increment>, v: nat)
    requires multiset(xs) == multiset(ys)
    ensures Gain(xs, v) == Gain(ys, v)
    decreases |xs|
  {
    if xs == [] {
      assert |ys| == |multiset(ys)| == 0;
    } else {
      var k := MatchLast(xs, ys);
      GainPermutation(xs[..|xs| - 1], ys[..k] + ys[k + 1..], v);
      GainRemoveAt(ys, k, v);
    }
  }

  /** Taking out position `k` takes its amount out of the gain. */
  lemma GainRemoveAt(ys: seq<Increment>, k: nat, v: nat)
    requires k < |ys| && ys == ys[..k] + ([ys[k]] + ys[k + 1..])
    ensures Gain(ys, v) == Gain(ys[..k] + ys[k + 1..], v) + (if ys[k].vertex == v then ys[k].amount else 0)
  {
    var x := ys[k];
    GainAppend(ys[..k], [x] + ys[k + 1..], v);
    GainAppend([x], ys[k + 1..], v);
    GainAppend(ys[..k], ys[k + 1..], v);
    assert [x][..0] == [];
  }

  /** Taking out position `k` takes one copy of its element out of the
      multiset. */
  lemma RemoveAt<T>(s: seq<T>, k: nat)
    requires k < |s|
    ensures s == s[..k] + ([s[k]] + s[k + 1..])
    ensures multiset(s[..k] + s[k + 1..]) == multiset(s) - multiset{s[k]}
  {
    assert s == s[..k] + ([s[k]] + s[k + 1..]);
    assert multiset(s) == multiset(s[..k]) + multiset{s[k]} + multiset(s[k + 1..]);
  }

  lemma PermutationTargets(xs: seq<Increment>, ys: seq<Increment>, n: nat)
    requires Targets(xs, n) && multiset(xs) == multiset(ys)
    ensures Targets(ys, n)
  {
    forall t | 0 <= t < |ys|
      ensures ys[t].vertex < n
    {
      assert ys[t] in multiset(xs);
    }
  }

  /** Any reordering of the increments leaves the same counters. */
  lemma ApplyPermutation(c: seq<nat>, xs: seq<Increment>, ys: seq<Increment>)
    requires multiset(xs) == multiset(ys)
    ensures Apply(c, xs) == Apply(c, ys)
  {
    forall v | 0 <= v < |c|
      ensures Apply(c, xs)[v] == Apply(c, ys)[v]
    {
      ApplyAt(c, xs, v);
      ApplyAt(c, ys, v);
      GainPermutation(xs, ys, v);
    }
  }

  lemma {:induction false} SumUpdate(c: seq<nat>, v: nat, x: nat)
    requires v < |c|
    ensures Sum(c[v := x]) + c[v] == Sum(c) + x
    decreases |c|
  {
    var n := |c| - 1;
    if v == n {
      assert c[v := x][..n] == c[..n];
    } else {
      assert c[v := x][..n] == c[..n][v := x];
      SumUpdate(c[..n], v, x);
    }
  }

  /** The sum of the counters grows by exactly the total of the
      increments. */
  lemma {:induction false} SumApply(c: seq<nat>, incs: seq<Increment>)
    requires Targets(incs, |c|)
    ensures Sum(Apply(c, incs)) == Sum(c) + Total(incs)
    decreases |incs|
  {
    if incs != [] {
      var n := |incs| - 1;
      SumApply(c, incs[..n]);
      var before := Apply(c, incs[..n]);
      SumUpdate(before, incs[n].vertex, before[incs[n].vertex] + incs[n].amount);
    }
  }

  /** All counters zero. */
  function Zeros(n: nat): (r: seq<nat>)
    ensures |r| == n && forall v :: 0 <= v < n ==> r[v] == 0
  {
    seq(n, v => 0)
  }

  lemma {:induction false} SumZeros(n: nat)
    ensures Sum(Zeros(n)) == 0
  {
    if n > 0 {
      assert Zeros(n)[..n - 1] == Zeros(n - 1);
      SumZeros(n - 1);
    }
  }

  // ---------------------------------------------------------------------
  // One unit to each of three counters
  // ---------------------------------------------------------------------

  /** One each to `a`, `b` and `w`, in that order: what the CSC counter
      does for every value it finds, and the brute-force counter for every
      triangle. */
  function Ones(a: nat, b: nat, w: nat): seq<Increment> {
    [Increment(a, 1), Increment(b, 1), Increment(w, 1)]
  }

  /** The three increments add one to each of the three counters (two or
      three to a counter named more than once), nothing elsewhere, and three
      in all. */
  lemma OnesFacts(a: nat, b: nat, w: nat, v: nat)
    ensures Gain(Ones(a, b, w), v)
         == (if v == a then 1 else 0) + (if v == b then 1 else 0) + (if v == w then 1 else 0)
    ensures Total(Ones(a, b, w)) == 3
  {
    var x1, x2, x3 := Increment(a, 1), Increment(b, 1), Increment(w, 1);
    assert Ones(a, b, w) == (([] + [x1]) + [x2]) + [x3];
    GainSnoc([], x1, v);
    GainSnoc([] + [x1], x2, v);
    GainSnoc(([] + [x1]) + [x2], x3, v);
  }

  /** `c3[a]++; c3[b]++; c3[w]++;` (atomic ones in the OpenMP counters). */
  method IncrementEach(c3: array<nat>, a: nat, b: nat, w: nat)
    requires a < c3.Length && b < c3.Length && w < c3.Length
    modifies c3
    ensures c3[..] == Apply(old(c3[..]), Ones(a, b, w))
  {
    ghost var c := c3[..];
    c3[a] := c3[a] + 1;
    c3[b] := c3[b] + 1;
    c3[w] := c3[w] + 1;
    ApplyOnes(c, a, b, w);
  }

  lemma ApplyOnes(c: seq<nat>, a: nat, b: nat, w: nat)
    requires a < |c| && b < |c| && w < |c|
    ensures Apply(c, Ones(a, b, w))
         == Add(Add(Add(c, Increment(a, 1)), Increment(b, 1)), Increment(w, 1))
  {
    var x1, x2, x3 := Increment(a, 1), Increment(b, 1), Increment(w, 1);
    var step := Ones(a, b, w);
    assert step[..2] == [x1, x2];
    assert [x1, x2][..1] == [x1];
    assert [x1][..0] == [];
    calc {
      Apply(c, step);
      Add(Apply(c, [x1, x2]), x3);
      Add(Add(Apply(c, [x1]), x2), x3);
      Add(Add(Add(c, x1), x2), x3);
    }
  }

  // ---------------------------------------------------------------------
  // Work split into blocks (one per column or per chunk) run in some order
  // ---------------------------------------------------------------------

  /** 0, 1, ..., n - 1: the order of a sequential loop. */
  function Range(n: nat): (r: seq<nat>)
    ensures |r| == n && forall t :: 0 <= t < n ==> r[t] == t
  {
    if n == 0 then [] else Range(n - 1) + [n - 1]
  }

  /** lo, lo + 1, ..., hi - 1: a contiguous run of blocks. */
  function Span(lo: nat, hi: nat): (r: seq<nat>)
    requires lo <= hi
    ensures |r| == hi - lo && forall t :: 0 <= t < |r| ==> r[t] == lo + t
    decreases hi - lo
  {
    if lo == hi then [] else Span(lo, hi - 1) + [hi - 1]
  }

  /** Two adjacent runs make one run. */
  lemma SpanAppend(lo: nat, mid: nat, hi: nat)
    requires lo <= mid <= hi
    ensures Span(lo, mid) + Span(mid, hi) == Span(lo, hi)
  {
    var r := Span(lo, mid) + Span(mid, hi);
    assert forall t :: 0 <= t < |r| ==> r[t] == lo + t;
  }

  /** The run from 0 is the sequential order. */
  lemma SpanRange(n: nat)
    ensures Span(0, n) == Range(n)
  {
    assert forall t :: 0 <= t < n ==> Span(0, n)[t] == Range(n)[t];
  }

  /** Running one more block of a run. */
  lemma ApplyNextInSpan(c: seq<nat>, blocks: seq<seq<Increment>>, lo: nat, i: nat)
    requires lo <= i < |blocks|
    ensures Below(Span(lo, i), |blocks|) && Below(Span(lo, i + 1), |blocks|)
    ensures Apply(c, Scheduled(blocks, Span(lo, i + 1)))
         == Apply(Apply(c, Scheduled(blocks, Span(lo, i))), blocks[i])
  {
    assert Span(lo, i + 1)[..i - lo] == Span(lo, i);
    ApplyAppend(c, Scheduled(blocks, Span(lo, i)), blocks[i]);
  }

  /** `order` lists each of 0, ..., n - 1 exactly once. */
  predicate IsPermutation(order: seq<nat>, n: nat) {
    multiset(order) == multiset(Range(n))
  }

  /** Every entry of `order` names one of `n` blocks. */
  predicate Below(order: seq<nat>, n: nat) {
    forall t :: 0 <= t < |order| ==> order[t] < n
  }

  lemma PermutationBelow(o1: seq<nat>, o2: seq<nat>, n: nat)
    requires Below(o1, n) && multiset(o1) == multiset(o2)
    ensures Below(o2, n)
  {
    forall t | 0 <= t < |o2|
      ensures o2[t] < n
    {
      assert o2[t] in multiset(o1);
    }
  }

  lemma PermutationBounds(order: seq<nat>, n: nat)
    requires IsPermutation(order, n)
    ensures |order| == n && Below(order, n)
  {
    assert |order| == |multiset(order)| == |multiset(Range(n))| == n;
    PermutationBelow(Range(n), order, n);
  }

  /** The work of the blocks named by `order`, one block after another. */
  function Scheduled<T>(blocks: seq<seq<T>>, order: seq<nat>): seq<T>
    requires Below(order, |blocks|)
    decreases |order|
  {
    if |order| == 0 then []
    else Scheduled(blocks, order[..|order| - 1]) + blocks[order[|order| - 1]]
  }

  lemma {:induction false} ScheduledAppend<T>(blocks: seq<seq<T>>, o1: seq<nat>, o2: seq<nat>)
    requires Below(o1, |blocks|) && Below(o2, |blocks|)
    ensures Below(o1 + o2, |blocks|)
    ensures Scheduled(blocks, o1 + o2) == Scheduled(blocks, o1) + Scheduled(blocks, o2)
    decreases |o2|
  {
    if o2 == [] {
      assert o1 + o2 == o1;
    } else {
      var n := |o2| - 1;
      assert (o1 + o2)[..|o1 + o2| - 1] == o1 + o2[..n];
      ScheduledAppend(blocks, o1, o2[..n]);
    }
  }

  /** Running the same blocks in another order does the same work, up to
      the order of the individual updates. */
  lemma {:induction false} ScheduledPermutation<T>(blocks: seq<seq<T>>, o1: seq<nat>, o2: seq<nat>)
    requires Below(o1, |blocks|) && Below(o2, |blocks|)
    requires multiset(o1) == multiset(o2)
    ensures multiset(Scheduled(blocks, o1)) == multiset(Scheduled(blocks, o2))
    decreases |o1|
  {
    if o1 == [] {
      assert |o2| == |multiset(o2)| == 0;
    } else {
      var n := |o1| - 1;
      var k := MatchLast(o1, o2);
      var left, right := o2[..k], o2[k + 1..];
      BelowParts(o2, k, |blocks|);
      ScheduledPermutation(blocks, o1[..n], left + right);
      ScheduledSplit(blocks, left, o1[n], right);
    }
  }

  /** The last element of `o1` sits at some position `k` of its
      permutation `o2`; the rest of `o1` is a permutation of `o2` without
      that position. */
  lemma MatchLast<T>(o1: seq<T>, o2: seq<T>) returns (k: nat)
    requires o1 != [] && multiset(o1) == multiset(o2)
    ensures k < |o2| && o2[k] == o1[|o1| - 1]
    ensures o2 == o2[..k] + ([o2[k]] + o2[k + 1..])
    ensures multiset(o1[..|o1| - 1]) == multiset(o2[..k] + o2[k + 1..])
  {
    var n := |o1| - 1;
    assert o1 == o1[..n] + [o1[n]];
    assert multiset(o1) == multiset(o1[..n]) + multiset{o1[n]};
    assert o1[n] in multiset(o2);
    k :| 0 <= k < |o2| && o2[k] == o1[n];
    RemoveAt(o2, k);
  }

  lemma BelowParts(o: seq<nat>, k: nat, n: nat)
    requires k < |o| && Below(o, n)
    ensures Below(o[..k], n) && Below(o[k + 1..], n) && o[k] < n
    ensures Below(o[..k] + o[k + 1..], n)
  {
    var r := o[..k] + o[k + 1..];
    forall t | 0 <= t < |r|
      ensures r[t] < n
    {
      if t < k {
        assert r[t] == o[t];
      } else {
        assert r[t] == o[t + 1];
      }
    }
  }

  lemma ScheduledSplit<T>(blocks: seq<seq<T>>, left: seq<nat>, x: nat, right: seq<nat>)
    requires Below(left, |blocks|) && Below(right, |blocks|) && x < |blocks|
    ensures Below(left + ([x] + right), |blocks|) && Below(left + right, |blocks|)
    ensures multiset(Scheduled(blocks, left + ([x] + right)))
         == multiset(Scheduled(blocks, left + right)) + multiset(blocks[x])
  {
    ScheduledAppend(blocks, [x], right);
    ScheduledAppend(blocks, left, [x] + right);
    ScheduledAppend(blocks, left, right);
    assert Scheduled(blocks, [x]) == blocks[x] by {
      assert [x][..0] == [];
    }
  }

  /** Running the first `k + 1` blocks is running the first `k`, then
      block `k`. */
  lemma ScheduledNext<T>(blocks: seq<seq<T>>, k: nat)
    requires k < |blocks|
    ensures Scheduled(blocks, Range(k + 1)) == Scheduled(blocks, Range(k)) + blocks[k]
  {
    assert (Range(k) + [k])[..k] == Range(k);
  }

  /** Running one more block in index order. */
  lemma ApplyNextBlock(c: seq<nat>, blocks: seq<seq<Increment>>, k: nat)
    requires k < |blocks|
    ensures Apply(c, Scheduled(blocks, Range(k + 1)))
         == Apply(Apply(c, Scheduled(blocks, Range(k))), blocks[k])
  {
    ScheduledNext(blocks, k);
    ApplyAppend(c, Scheduled(blocks, Range(k)), blocks[k]);
  }

  /** Running the next block of `order`. */
  lemma ApplyNextInOrder(c: seq<nat>, blocks: seq<seq<Increment>>, order: seq<nat>, t: nat)
    requires Below(order, |blocks|) && t < |order|
    ensures Below(order[..t], |blocks|) && Below(order[..t + 1], |blocks|)
    ensures Apply(c, Scheduled(blocks, order[..t + 1]))
         == Apply(Apply(c, Scheduled(blocks, order[..t])), blocks[order[t]])
  {
    assert order[..t + 1][..t] == order[..t];
    ApplyAppend(c, Scheduled(blocks, order[..t]), blocks[order[t]]);
  }

  /** Blocks that each target one of `n` counters, run in any order, only
      target those counters. */
  lemma {:induction false} ScheduledTargets(blocks: seq<seq<Increment>>, order: seq<nat>, n: nat)
    requires Below(order, |blocks|)
    requires forall b :: 0 <= b < |blocks| ==> Targets(blocks[b], n)
    ensures Targets(Scheduled(blocks, order), n)
    decreases |order|
  {
    if order != [] {
      var m := |order| - 1;
      ScheduledTargets(blocks, order[..m], n);
      TargetsAppend(Scheduled(blocks, order[..m]), blocks[order[m]], n);
    }
  }

  /** When every block adds `per` for each thing it finds, the blocks
      together add `per` for each thing found by all of them. */
  lemma {:induction false} ScheduledTotal<T>(blocks: seq<seq<Increment>>, found: seq<seq<T>>,
                                             order: seq<nat>, per: nat)
    requires |found| == |blocks| && Below(order, |blocks|)
    requires forall b :: 0 <= b < |blocks| ==> Total(blocks[b]) == per * |found[b]|
    ensures Total(Scheduled(blocks, order)) == per * |Scheduled(found, order)|
    decreases |order|
  {
    if order != [] {
      var m := |order| - 1;
      var b := order[m];
      ScheduledTotal(blocks, found, order[..m], per);
      TotalAppend(Scheduled(blocks, order[..m]), blocks[b]);
      assert |Scheduled(found, order)| == |Scheduled(found, order[..m])| + |found[b]|;
      Distribute(per, |Scheduled(found, order[..m])|, |found[b]|);
    }
  }

  lemma Distribute(k: nat, x: nat, y: nat)
    ensures k * (x + y) == k * x + k * y
  {
  }

  /** Running every block once, in any order, applies the same increments
      as running them in index order. */
  lemma ScheduledAnyOrder(c: seq<nat>, blocks: seq<seq<Increment>>, order: seq<nat>)
    requires IsPermutation(order, |blocks|)
    ensures Below(order, |blocks|)
    ensures Apply(c, Scheduled(blocks, order)) == Apply(c, Scheduled(blocks, Range(|blocks|)))
  {
    PermutationBounds(order, |blocks|);
    ScheduledPermutation(blocks, Range(|blocks|), order);
    ApplyPermutation(c, Scheduled(blocks, Range(|blocks|)), Scheduled(blocks, order));
  }
}
