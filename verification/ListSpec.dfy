/** Stable merging and sorting of node sequences, and what makes the result unique. */
module ListSpec {
  import opened Common

  /** The merge that takes from the left as long as the right is not smaller. */
  function Merge(c: Comparator, xs: seq<Ptr>, ys: seq<Ptr>): seq<Ptr> {
    if xs == [] then ys
    else if ys == [] then xs
    else if c(xs[0], ys[0]) <= 0 then [xs[0]] + Merge(c, xs[1..], ys)
    else [ys[0]] + Merge(c, xs, ys[1..])
  }

  function MergeSort(c: Comparator, ns: seq<Ptr>): seq<Ptr>
    decreases |ns|
  {
    if |ns| < 2 then ns
    else
      var h := |ns| / 2;
      Merge(c, MergeSort(c, ns[..h]), MergeSort(c, ns[h..]))
  }

  ghost predicate Distinct(ns: seq<Ptr>) {
    forall i, j :: 0 <= i < j < |ns| ==> ns[i] != ns[j]
  }

  /** `x` lies before `y` in `ns`. */
  ghost predicate Before(ns: seq<Ptr>, x: Ptr, y: Ptr) {
    exists i, j :: 0 <= i < j < |ns| && ns[i] == x && ns[j] == y
  }

  /** `x` goes before `y`: it is smaller, or equal and it was first. */
  ghost predicate Precedes(c: Comparator, was: seq<Ptr>, x: Ptr, y: Ptr) {
    c(x, y) < 0 || (c(x, y) == 0 && Before(was, x, y))
  }

  ghost predicate StablySorted(c: Comparator, was: seq<Ptr>, ns: seq<Ptr>) {
    forall i, j :: 0 <= i < j < |ns| ==> Precedes(c, was, ns[i], ns[j])
  }

  /** The same nodes in stably sorted order. */
  ghost predicate StableSortOf(c: Comparator, was: seq<Ptr>, ns: seq<Ptr>) {
    multiset(ns) == multiset(was) && StablySorted(c, was, ns)
  }

  lemma {:induction false} MergeElements(c: Comparator, xs: seq<Ptr>, ys: seq<Ptr>)
    ensures multiset(Merge(c, xs, ys)) == multiset(xs) + multiset(ys)
    ensures |Merge(c, xs, ys)| == |xs| + |ys|
  {
    if xs == [] || ys == [] {
    } else if c(xs[0], ys[0]) <= 0 {
      MergeElements(c, xs[1..], ys);
      assert xs == [xs[0]] + xs[1..];
    } else {
      MergeElements(c, xs, ys[1..]);
      assert ys == [ys[0]] + ys[1..];
    }
  }

  lemma FromEither(c: Comparator, xs: seq<Ptr>, ys: seq<Ptr>, x: Ptr)
    requires x in Merge(c, xs, ys)
    ensures x in xs || x in ys
  {
    MergeElements(c, xs, ys);
    assert x in multiset(Merge(c, xs, ys));
    assert x in multiset(xs) + multiset(ys);
  }

  /** A step of the merge puts in front what goes before everything left. */
  lemma ConsSorted(c: Comparator, was: seq<Ptr>, x: Ptr, ns: seq<Ptr>)
    requires StablySorted(c, was, ns) && forall y :: y in ns ==> Precedes(c, was, x, y)
    ensures StablySorted(c, was, [x] + ns)
  {
    hide Precedes;
    forall i, j | 0 <= i < j < |ns| + 1 ensures Precedes(c, was, ([x] + ns)[i], ([x] + ns)[j]) {
      if i == 0 { assert ns[j - 1] in ns; }
    }
  }

  /** Merging two stably sorted halves of a sequence sorts the whole stably. */
  lemma {:induction false} MergeSorted(c: Comparator, was: seq<Ptr>, xs: seq<Ptr>, ys: seq<Ptr>)
    requires TotalPreorder(c)
    requires StablySorted(c, was, xs) && StablySorted(c, was, ys)
    requires forall x, y :: x in xs && y in ys ==> Before(was, x, y)
    ensures StablySorted(c, was, Merge(c, xs, ys))
  {
    hide TotalPreorder, Before;
    if xs == [] || ys == [] {
    } else if c(xs[0], ys[0]) <= 0 {
      MergeSorted(c, was, xs[1..], ys);
      forall y | y in Merge(c, xs[1..], ys) ensures Precedes(c, was, xs[0], y) {
        FromEither(c, xs[1..], ys, y);
        if y in ys {
          assert xs[0] in xs;
          var j :| 0 <= j < |ys| && ys[j] == y;
          Flip(c, y, y);
          if j > 0 { assert Precedes(c, was, ys[0], ys[j]); }
          Chain(c, xs[0], ys[0], y);
        }
      }
      ConsSorted(c, was, xs[0], Merge(c, xs[1..], ys));
    } else {
      MergeSorted(c, was, xs, ys[1..]);
      forall y | y in Merge(c, xs, ys[1..]) ensures Precedes(c, was, ys[0], y) {
        FromEither(c, xs, ys[1..], y);
        if y in xs {
          var j :| 0 <= j < |xs| && xs[j] == y;
          Flip(c, ys[0], xs[0]);
          Flip(c, xs[0], ys[0]);
          Flip(c, y, y);
          if j > 0 { assert Precedes(c, was, xs[0], xs[j]); }
          Chain(c, ys[0], xs[0], y);
        }
      }
      ConsSorted(c, was, ys[0], Merge(c, xs, ys[1..]));
    }
  }

  /** Order in a part of a sequence is order in the sequence. */
  lemma StablyWithin(c: Comparator, part: seq<Ptr>, was: seq<Ptr>, ns: seq<Ptr>)
    requires StablySorted(c, part, ns) && forall x, y :: Before(part, x, y) ==> Before(was, x, y)
    ensures StablySorted(c, was, ns)
  {
    hide Before;
    forall i, j | 0 <= i < j < |ns| ensures Precedes(c, was, ns[i], ns[j]) {
      assert Precedes(c, part, ns[i], ns[j]);
    }
  }

  lemma HalvesBefore(was: seq<Ptr>, h: nat)
    requires h <= |was|
    ensures forall x, y :: Before(was[..h], x, y) ==> Before(was, x, y)
    ensures forall x, y :: Before(was[h..], x, y) ==> Before(was, x, y)
    ensures forall x, y :: x in was[..h] && y in was[h..] ==> Before(was, x, y)
  {
    forall x, y | Before(was[h..], x, y) ensures Before(was, x, y) {
      var i, j :| 0 <= i < j < |was[h..]| && was[h..][i] == x && was[h..][j] == y;
      assert was[h + i] == x && was[h + j] == y;
    }
    forall x, y | x in was[..h] && y in was[h..] ensures Before(was, x, y) {
      var i :| 0 <= i < h && was[i] == x;
      var j :| 0 <= j < |was[h..]| && was[h..][j] == y;
      assert was[h + j] == y;
    }
  }

  lemma ShortSorted(c: Comparator, ns: seq<Ptr>)
    requires |ns| < 2
    ensures StablySorted(c, ns, ns)
  {
  }

  /** The sort keeps exactly the nodes and orders them stably. */
  lemma {:induction false} MergeSortStable(c: Comparator, ns: seq<Ptr>)
    requires TotalPreorder(c)
    ensures StableSortOf(c, ns, MergeSort(c, ns))
    decreases |ns|
  {
    hide TotalPreorder, Before, Precedes, StablySorted, Merge;
    if |ns| < 2 {
      ShortSorted(c, ns);
    } else {
      var h := |ns| / 2;
      var xs, ys := MergeSort(c, ns[..h]), MergeSort(c, ns[h..]);
      MergeSortStable(c, ns[..h]);
      MergeSortStable(c, ns[h..]);
      assert ns == ns[..h] + ns[h..];
      MergeElements(c, xs, ys);
      HalvesBefore(ns, h);
      StablyWithin(c, ns[..h], ns, xs);
      StablyWithin(c, ns[h..], ns, ys);
      forall x, y | x in xs && y in ys ensures Before(ns, x, y) {
        assert x in multiset(xs) && y in multiset(ys);
      }
      MergeSorted(c, ns, xs, ys);
    }
  }

  /** There is only one stable sort of distinct nodes. */
  lemma {:induction false} StableSortUnique(c: Comparator, was: seq<Ptr>, a: seq<Ptr>, b: seq<Ptr>)
    requires TotalPreorder(c) && Distinct(was)
    requires multiset(a) == multiset(b) && StablySorted(c, was, a) && StablySorted(c, was, b)
    ensures a == b
  {
    hide TotalPreorder, Precedes, Distinct;
    if a == [] || b == [] {
      assert |multiset(a)| == |a| && |multiset(b)| == |b|;
    } else {
      FirstAgree(c, was, a, b);
      RestElements(a);
      RestElements(b);
      StableSortUnique(c, was, a[1..], b[1..]);
    }
  }

  lemma RestElements(a: seq<Ptr>)
    requires a != []
    ensures multiset(a[1..]) == multiset(a) - multiset{a[0]} && a == [a[0]] + a[1..]
  {
    assert a == [a[0]] + a[1..];
  }

  lemma FirstAgree(c: Comparator, was: seq<Ptr>, a: seq<Ptr>, b: seq<Ptr>)
    requires TotalPreorder(c) && Distinct(was) && a != [] && b != []
    requires multiset(a) == multiset(b) && StablySorted(c, was, a) && StablySorted(c, was, b)
    ensures a[0] == b[0]
  {
    hide TotalPreorder;
    if a[0] != b[0] {
      assert a[0] in multiset(b) && b[0] in multiset(a);
      var i :| 0 <= i < |a| && a[i] == b[0];
      var j :| 0 <= j < |b| && b[j] == a[0];
      assert Precedes(c, was, a[0], a[i]) && Precedes(c, was, b[0], b[j]);
      Flip(c, a[0], b[0]);
      assert false;
    }
  }

  lemma MergeHead(c: Comparator, xs: seq<Ptr>, ys: seq<Ptr>)
    requires TotalPreorder(c) && xs != [] && ys != []
    ensures |Merge(c, xs, ys)| > 0 && Merge(c, xs, ys)[0] == if c(xs[0], ys[0]) <= 0 then xs[0] else ys[0]
    ensures c(xs[0], ys[0]) > 0 ==> xs[0] != ys[0]
  {
    hide TotalPreorder;
    Flip(c, xs[0], xs[0]);
  }

  /**
    How many comparisons the merge makes: one for each node it passes, and one of a node with
    itself once the left part is used up.
   */
  function MergeSteps(c: Comparator, xs: seq<Ptr>, ys: seq<Ptr>): nat {
    if ys == [] then 0
    else if xs == [] then 1
    else if c(xs[0], ys[0]) <= 0 then 1 + MergeSteps(c, xs[1..], ys)
    else 1 + MergeSteps(c, xs, ys[1..])
  }

  lemma {:induction false} MergeStepsBound(c: Comparator, xs: seq<Ptr>, ys: seq<Ptr>)
    requires ys != []
    ensures 1 <= MergeSteps(c, xs, ys) <= |xs| + |ys|
  {
    if xs != [] {
      if c(xs[0], ys[0]) <= 0 {
        MergeStepsBound(c, xs[1..], ys);
      } else if |ys| > 1 {
        MergeStepsBound(c, xs, ys[1..]);
      }
    }
  }

  // ---------- A merge under way ----------

  /** Between `pre` and `post`: what is merged, then what is left of the two parts. */
  function Weave(pre: seq<Ptr>, zs: seq<Ptr>,
                    ps: seq<Ptr>, qs: seq<Ptr>, post: seq<Ptr>): seq<Ptr> {
    pre + zs + ps + qs + post
  }

  /** The node at place `k` of the section still to be merged. */
  function LeftOver(ps: seq<Ptr>, qs: seq<Ptr>, k: nat): Ptr
    requires k < |ps| + |qs|
  {
    if k < |ps| then ps[k] else qs[k - |ps|]
  }

  lemma WeaveAt(pre: seq<Ptr>, zs: seq<Ptr>, ps: seq<Ptr>, qs: seq<Ptr>, post: seq<Ptr>, k: nat)
    requires k < |ps| + |qs|
    ensures var w := Weave(pre, zs, ps, qs, post);
      |pre| + |zs| + |ps| + |qs| <= |w| && w[|pre| + |zs| + k] == LeftOver(ps, qs, k)
  {
  }

  lemma WeaveTake(pre: seq<Ptr>, zs: seq<Ptr>,
                    ps: seq<Ptr>, qs: seq<Ptr>, post: seq<Ptr>)
    requires ps != []
    ensures Weave(pre, zs, ps, qs, post) == Weave(pre, zs + [ps[0]], ps[1..], qs, post)
  {
    assert ps == [ps[0]] + ps[1..];
  }

  /** What the merge of the remaining parts will still add. */
  ghost predicate Merging(c: Comparator, xs: seq<Ptr>, ys: seq<Ptr>, zs: seq<Ptr>, ps: seq<Ptr>, qs: seq<Ptr>) {
    zs + Merge(c, ps, qs) == Merge(c, xs, ys)
  }

  lemma MergingTakeLeft(c: Comparator, xs: seq<Ptr>, ys: seq<Ptr>, zs: seq<Ptr>, ps: seq<Ptr>, qs: seq<Ptr>)
    requires Merging(c, xs, ys, zs, ps, qs) && ps != [] && qs != [] && c(ps[0], qs[0]) <= 0
    ensures Merging(c, xs, ys, zs + [ps[0]], ps[1..], qs)
  {
    assert zs + ([ps[0]] + Merge(c, ps[1..], qs)) == zs + [ps[0]] + Merge(c, ps[1..], qs);
  }

  lemma MergingTakeRight(c: Comparator, xs: seq<Ptr>, ys: seq<Ptr>, zs: seq<Ptr>, ps: seq<Ptr>, qs: seq<Ptr>)
    requires Merging(c, xs, ys, zs, ps, qs) && ps != [] && qs != [] && c(ps[0], qs[0]) > 0
    ensures Merging(c, xs, ys, zs + [qs[0]], ps, qs[1..])
  {
    assert zs + ([qs[0]] + Merge(c, ps, qs[1..])) == zs + [qs[0]] + Merge(c, ps, qs[1..]);
  }

  /** Once a part is used up, the rest is already in place. */
  lemma MergingDone(c: Comparator, xs: seq<Ptr>, ys: seq<Ptr>, pre: seq<Ptr>, zs: seq<Ptr>,
                    ps: seq<Ptr>, qs: seq<Ptr>, post: seq<Ptr>)
    requires Merging(c, xs, ys, zs, ps, qs) && (ps == [] || qs == []) && ps + qs != []
    ensures Weave(pre, zs, ps, qs, post) == pre + Merge(c, xs, ys) + post
    ensures |Merge(c, xs, ys)| == |zs| + |ps| + |qs| > 0
    ensures Merge(c, xs, ys)[|Merge(c, xs, ys)| - 1] == LeftOver(ps, qs, |ps| + |qs| - 1)
    ensures zs != [] ==> Merge(c, xs, ys)[0] == zs[0]
  {
    assert Merge(c, ps, qs) == ps + qs;
    assert zs + (ps + qs) == zs + ps + qs;
  }

  // ---------- Reversing ----------

  function Reversed<T>(ns: seq<T>): (r: seq<T>)
    ensures |r| == |ns|
  {
    seq(|ns|, i requires 0 <= i < |ns| => ns[|ns| - 1 - i])
  }

  /** Reversing twice restores the order; reversing puts every pair the other way round. */
  lemma ReversedTwice(ns: seq<Ptr>)
    ensures Reversed(Reversed(ns)) == ns
    ensures forall x, y :: Before(Reversed(ns), x, y) <==> Before(ns, y, x)
  {
    assert Reversed(Reversed(ns)) == ns;
    forall x, y | Before(Reversed(ns), x, y) ensures Before(ns, y, x) {
      ReversedBefore(ns, x, y);
    }
    forall x, y | Before(ns, y, x) ensures Before(Reversed(ns), x, y) {
      ReversedBefore(Reversed(ns), y, x);
    }
  }

  lemma ReversedBefore(ns: seq<Ptr>, x: Ptr, y: Ptr)
    requires Before(Reversed(ns), x, y)
    ensures Before(ns, y, x)
  {
    var i, j :| 0 <= i < j < |ns| && Reversed(ns)[i] == x && Reversed(ns)[j] == y;
    var n := |ns| - 1;
    assert n - j < n - i && ns[n - j] == y && ns[n - i] == x;
  }

  /** The order after exchanging `k` nodes from both ends. */
  function HalfReversed<T>(ns: seq<T>, k: nat): (r: seq<T>)
    ensures |r| == |ns|
  {
    seq(|ns|, i requires 0 <= i < |ns| => if k <= i < |ns| - k then ns[i] else ns[|ns| - 1 - i])
  }

  lemma HalfReversedEnds<T>(ns: seq<T>)
    ensures HalfReversed(ns, 0) == ns && HalfReversed(ns, |ns| / 2) == Reversed(ns)
  {
  }

  lemma HalfReversedStep<T>(ns: seq<T>, k: nat)
    requires k < |ns| / 2
    ensures var (h, j) := (HalfReversed(ns, k), |ns| - 1 - k);
      && h[k := h[j]][j := h[k]] == HalfReversed(ns, k + 1) && h[k] == ns[k] && h[j] == ns[j]
      && h[k + 1] == ns[k + 1] && h[j - 1] == ns[j - 1]
  {
  }
}
