/** Binary heaps in a sequence: sifting up, sifting down, and the greatest element. */
module HeapSpec {
  import opened Common

  function Parent(i: nat): nat {
    if i > 0 then (i - 1) / 2 else 0
  }

  function Left(i: nat): nat { 2 * i + 1 }

  function Right(i: nat): nat { 2 * i + 2 }

  /** The element at `i` does not come before its parent. */
  ghost predicate Under(cmp: Comparator, s: seq<Ptr>, i: nat)
    requires 0 < i < |s|
  {
    cmp(s[Parent(i)], s[i]) >= 0
  }

  ghost predicate HeapOk(cmp: Comparator, s: seq<Ptr>) {
    forall i :: 0 < i < |s| ==> Under(cmp, s, i)
  }

  /** A heap but for the element at `i`, which may be too great for its place. */
  ghost predicate RisingAt(cmp: Comparator, s: seq<Ptr>, i: nat) {
    && i < |s|
    && (forall j :: 0 < j < |s| && j != i ==> Under(cmp, s, j))
    && (forall j :: 0 < j < |s| && Parent(j) == i && i > 0 ==> cmp(s[Parent(i)], s[j]) >= 0)
  }

  /** A heap but for the element at `i`, which may be too small for its place. */
  ghost predicate SinkingAt(cmp: Comparator, s: seq<Ptr>, i: nat) {
    && (forall j :: 0 < j < |s| && Parent(j) != i ==> Under(cmp, s, j))
    && (forall j :: 0 < j < |s| && Parent(j) == i && i > 0 && i < |s| ==> cmp(s[Parent(i)], s[j]) >= 0)
  }

  function SiftUp(cmp: Comparator, s: seq<Ptr>, i: nat): (r: seq<Ptr>)
    requires i < |s|
    ensures |r| == |s|
    decreases i
  {
    if i != 0 && cmp(s[i], s[Parent(i)]) > 0 then SiftUp(cmp, Swapped(s, i, Parent(i)), Parent(i)) else s
  }

  /** The place of the greatest among `i` and its children, as `cc_pqueue_heapify` picks it. */
  function Greatest(cmp: Comparator, s: seq<Ptr>, i: nat): (k: nat)
    requires i < |s|
    ensures i <= k < |s| && (k == i || k == Left(i) || k == Right(i))
  {
    var k := if Left(i) < |s| && cmp(s[i], s[Left(i)]) < 0 then Left(i) else i;
    if Right(i) < |s| && cmp(s[k], s[Right(i)]) < 0 then Right(i) else k
  }

  function SiftDown(cmp: Comparator, s: seq<Ptr>, i: nat): (r: seq<Ptr>)
    requires i < |s|
    ensures |r| == |s|
    decreases |s| - i
  {
    var k := Greatest(cmp, s, i);
    if k != i then SiftDown(cmp, Swapped(s, i, k), k) else s
  }

  lemma SwappedElements(s: seq<Ptr>, i: nat, j: nat)
    requires i < |s| && j < |s|
    ensures multiset(Swapped(s, i, j)) == multiset(s)
  {
  }

  lemma {:induction false} SiftUpHeap(cmp: Comparator, s: seq<Ptr>, i: nat)
    requires TotalPreorder(cmp) && RisingAt(cmp, s, i)
    ensures HeapOk(cmp, SiftUp(cmp, s, i)) && multiset(SiftUp(cmp, s, i)) == multiset(s)
    decreases i
  {
    hide TotalPreorder;
    if i != 0 && cmp(s[i], s[Parent(i)]) > 0 {
      SwappedElements(s, i, Parent(i));
      RisingStep(cmp, s, i);
      SiftUpHeap(cmp, Swapped(s, i, Parent(i)), Parent(i));
    } else if i != 0 {
      Flip(cmp, s[i], s[Parent(i)]);
      Flip(cmp, s[Parent(i)], s[i]);
    }
  }

  lemma RisingStep(cmp: Comparator, s: seq<Ptr>, i: nat)
    requires TotalPreorder(cmp) && RisingAt(cmp, s, i) && i > 0 && cmp(s[i], s[Parent(i)]) > 0
    ensures RisingAt(cmp, Swapped(s, i, Parent(i)), Parent(i))
  {
    hide TotalPreorder;
    var p, s' := Parent(i), Swapped(s, i, Parent(i));
    Flip(cmp, s[p], s[i]);
    forall j | 0 < j < |s| && j != p ensures Under(cmp, s', j) {
      if j != i {
        assert Under(cmp, s, j);
        if Parent(j) == p { AtLeast(cmp, s[i], s[p], s[j]); }
      }
    }
    forall j | 0 < j < |s| && Parent(j) == p && p > 0 ensures cmp(s'[Parent(p)], s'[j]) >= 0 {
      assert Under(cmp, s, p);
      if j != i {
        assert Under(cmp, s, j);
        AtLeast(cmp, s[Parent(p)], s[p], s[j]);
      }
    }
  }

  /** Not less than is transitive. */
  lemma AtLeast(cmp: Comparator, x: Ptr, y: Ptr, z: Ptr)
    requires TotalPreorder(cmp) && cmp(x, y) >= 0 && cmp(y, z) >= 0
    ensures cmp(x, z) >= 0
  {
    hide TotalPreorder;
    Flip(cmp, x, y);
    Flip(cmp, y, x);
    Flip(cmp, y, z);
    Flip(cmp, z, y);
    Chain(cmp, z, y, x);
    Flip(cmp, x, z);
    Flip(cmp, z, x);
  }

  lemma {:induction false} SiftDownHeap(cmp: Comparator, s: seq<Ptr>, i: nat)
    requires TotalPreorder(cmp) && i < |s| && SinkingAt(cmp, s, i)
    ensures HeapOk(cmp, SiftDown(cmp, s, i)) && multiset(SiftDown(cmp, s, i)) == multiset(s)
    decreases |s| - i
  {
    hide TotalPreorder;
    var k := Greatest(cmp, s, i);
    GreatestOf(cmp, s, i);
    if k != i {
      SwappedElements(s, i, k);
      SinkingStep(cmp, s, i);
      SiftDownHeap(cmp, Swapped(s, i, k), k);
    } else {
      forall j | 0 < j < |s| ensures Under(cmp, s, j) {
        if Parent(j) == i { assert j == Left(i) || j == Right(i); }
      }
    }
  }

  /** Among equal elements the parent stays, and the left child goes before the right one. */
  lemma GreatestOf(cmp: Comparator, s: seq<Ptr>, i: nat)
    requires TotalPreorder(cmp) && i < |s|
    ensures var k := Greatest(cmp, s, i);
      && cmp(s[k], s[i]) >= 0
      && (Left(i) < |s| ==> cmp(s[k], s[Left(i)]) >= 0) && (Right(i) < |s| ==> cmp(s[k], s[Right(i)]) >= 0)
      && (k != i ==> cmp(s[i], s[k]) < 0)
      && (k == Right(i) ==> cmp(s[Left(i)], s[k]) < 0)
  {
    hide TotalPreorder;
    Flip(cmp, s[i], s[i]);
    if Left(i) < |s| {
      Flip(cmp, s[i], s[Left(i)]);
      Flip(cmp, s[Left(i)], s[i]);
      Flip(cmp, s[Left(i)], s[Left(i)]);
    }
    var k := if Left(i) < |s| && cmp(s[i], s[Left(i)]) < 0 then Left(i) else i;
    if Right(i) < |s| && cmp(s[k], s[Right(i)]) < 0 {
      Flip(cmp, s[k], s[Right(i)]);
      Flip(cmp, s[Right(i)], s[k]);
      Flip(cmp, s[Right(i)], s[Right(i)]);
      AtLeast(cmp, s[Right(i)], s[k], s[i]);
      AtLeast(cmp, s[Right(i)], s[k], s[Left(i)]);
      Chain(cmp, if k == i then s[Left(i)] else s[i], s[k], s[Right(i)]);
    }
  }

  lemma SinkingStep(cmp: Comparator, s: seq<Ptr>, i: nat)
    requires TotalPreorder(cmp) && i < |s| && SinkingAt(cmp, s, i) && Greatest(cmp, s, i) != i
    ensures SinkingAt(cmp, Swapped(s, i, Greatest(cmp, s, i)), Greatest(cmp, s, i))
  {
    hide TotalPreorder;
    GreatestOf(cmp, s, i);
    var k := Greatest(cmp, s, i);
    var s' := Swapped(s, i, k);
    assert Parent(k) == i;
    hide Greatest;
    forall j | 0 < j < |s| && Parent(j) != k ensures Under(cmp, s', j) {
      if Parent(j) == i {
        assert j == Left(i) || j == Right(i);
      } else {
        assert Under(cmp, s, j);
      }
    }
    forall j | 0 < j < |s| && Parent(j) == k ensures cmp(s'[Parent(k)], s'[j]) >= 0 {
      assert Under(cmp, s, j);
    }
  }

  /** The element at the root is a greatest one. */
  lemma {:induction false} RootGreatest(cmp: Comparator, s: seq<Ptr>, i: nat)
    requires TotalPreorder(cmp) && HeapOk(cmp, s) && i < |s|
    ensures cmp(s[0], s[i]) >= 0
  {
    hide TotalPreorder;
    if i == 0 {
      Flip(cmp, s[0], s[0]);
    } else {
      RootGreatest(cmp, s, Parent(i));
      assert Under(cmp, s, i);
      AtLeast(cmp, s[0], s[Parent(i)], s[i]);
    }
  }

  /** A heap with a new element at its end. */
  lemma PushedRises(cmp: Comparator, s: seq<Ptr>, x: Ptr)
    requires HeapOk(cmp, s)
    ensures RisingAt(cmp, s + [x], |s|) && multiset(s + [x]) == multiset(s) + multiset{x}
  {
    forall j | 0 < j < |s| ensures Under(cmp, s + [x], j) {
      assert Under(cmp, s, j);
    }
  }

  /** A heap whose root has been exchanged with its last element, which is then cut off. */
  lemma PoppedSinks(cmp: Comparator, s: seq<Ptr>)
    requires HeapOk(cmp, s) && s != []
    ensures var s' := Swapped(s, 0, |s| - 1)[..|s| - 1];
      && SinkingAt(cmp, s', 0) && Swapped(s, 0, |s| - 1)[|s| - 1] == s[0]
      && multiset(s') == multiset(s) - multiset{s[0]}
  {
    var t := Swapped(s, 0, |s| - 1);
    var s' := t[..|s| - 1];
    SwappedElements(s, 0, |s| - 1);
    assert t == s' + [s[0]];
    forall j | 0 < j < |s'| && Parent(j) != 0 ensures Under(cmp, s', j) {
      assert Under(cmp, s, j);
    }
  }
}
