/** The linked nodes behind a list: one address sequence, mirrored by the links in both directions. */
module ListModel {
  import opened Common
  import opened ListSpec

  datatype ListNode = ListNode(data: Ptr, next: Ptr, prev: Ptr)

  type Memory = map<Ptr, ListNode>

  /** The node at a place, or NULL beyond either end. */
  function At(ns: seq<Ptr>, i: int): Ptr {
    if 0 <= i < |ns| then ns[i] else NULL
  }

  ghost predicate LinkedAt(m: Memory, ns: seq<Ptr>, i: nat)
    requires i < |ns|
  {
    ns[i] in m && ns[i] != NULL && m[ns[i]].next == At(ns, i + 1) && m[ns[i]].prev == At(ns, i - 1)
  }

  ghost predicate Linked(m: Memory, ns: seq<Ptr>) {
    Distinct(ns) && forall i :: 0 <= i < |ns| ==> LinkedAt(m, ns, i)
  }

  function Nodes(ns: seq<Ptr>): set<Ptr> {
    set x | x in ns
  }

  /** The elements, node by node. */
  function Data(m: Memory): map<Ptr, Ptr> {
    map x | x in m :: m[x].data
  }

  function Datum(d: map<Ptr, Ptr>, x: Ptr): Ptr {
    if x in d then d[x] else NULL
  }

  /** Nodes compare as their elements do. */
  function NodeCmp(cmp: Comparator, d: map<Ptr, Ptr>): Comparator {
    (x: Ptr, y: Ptr) => cmp(Datum(d, x), Datum(d, y))
  }

  lemma PreorderAt(cmp: Comparator, x: Ptr, y: Ptr, z: Ptr)
    requires TotalPreorder(cmp)
    ensures Reflexive(cmp, x) && Antisymmetric(cmp, x, y) && Transitive(cmp, x, y, z)
  {
  }

  predicate PreorderOn(c: Comparator, x: Ptr, y: Ptr, z: Ptr) {
    Reflexive(c, x) && Antisymmetric(c, x, y) && Transitive(c, x, y, z)
  }

  lemma PreorderFrom(c: Comparator)
    requires forall x, y, z :: PreorderOn(c, x, y, z)
    ensures TotalPreorder(c)
  {
    forall x ensures Reflexive(c, x) {
      assert PreorderOn(c, x, x, x);
    }
    forall x, y ensures Antisymmetric(c, x, y) {
      assert PreorderOn(c, x, y, y);
    }
    forall x, y, z ensures Transitive(c, x, y, z) {
      assert PreorderOn(c, x, y, z);
    }
  }

  lemma NodeCmpOk(cmp: Comparator, d: map<Ptr, Ptr>)
    requires TotalPreorder(cmp)
    ensures TotalPreorder(NodeCmp(cmp, d))
  {
    hide TotalPreorder;
    var c := NodeCmp(cmp, d);
    forall x, y, z ensures PreorderOn(c, x, y, z) {
      PreorderAt(cmp, Datum(d, x), Datum(d, y), Datum(d, z));
    }
    PreorderFrom(c);
  }

  function SetNext(m: Memory, x: Ptr, y: Ptr): (r: Memory)
    requires x in m
    ensures r.Keys == m.Keys
  {
    m[x := m[x].(next := y)]
  }

  function SetPrev(m: Memory, x: Ptr, y: Ptr): (r: Memory)
    requires x in m
    ensures r.Keys == m.Keys
  {
    m[x := m[x].(prev := y)]
  }

  // ---------- Moving one node ----------

  /** The node at `r` moved to the place `l` before it. */
  function Moved(ns: seq<Ptr>, l: nat, r: nat): seq<Ptr>
    requires l < r < |ns|
  {
    ns[..l] + [ns[r]] + ns[l..r] + ns[r + 1..]
  }

  function MovedNode(ns: seq<Ptr>, l: nat, r: nat, i: nat): Ptr
    requires l < r < |ns| && i < |ns|
  {
    if i == l then ns[r] else if l < i <= r then ns[i - 1] else ns[i]
  }

  lemma MovedAt(ns: seq<Ptr>, l: nat, r: nat)
    requires l < r < |ns|
    ensures |Moved(ns, l, r)| == |ns|
    ensures forall i :: 0 <= i < |ns| ==> Moved(ns, l, r)[i] == MovedNode(ns, l, r, i)
  {
  }

  /** The first node of the right part goes in front of what is left of the left part. */
  lemma MovedWeave(pre: seq<Ptr>, zs: seq<Ptr>, ps: seq<Ptr>, qs: seq<Ptr>, post: seq<Ptr>)
    requires ps != [] && qs != []
    ensures var (w, l, r) := (Weave(pre, zs, ps, qs, post), |pre| + |zs|, |pre| + |zs| + |ps|);
      l < r < |w| && Moved(w, l, r) == Weave(pre, zs + [qs[0]], ps, qs[1..], post)
  {
    var w, l, r := Weave(pre, zs, ps, qs, post), |pre| + |zs|, |pre| + |zs| + |ps|;
    assert qs == [qs[0]] + qs[1..];
    assert w[..l] == pre + zs && w[l..r] == ps && w[r] == qs[0] && w[r + 1..] == qs[1..] + post;
  }

  lemma MovedNodes(ns: seq<Ptr>, l: nat, r: nat)
    requires l < r < |ns|
    ensures Nodes(Moved(ns, l, r)) == Nodes(ns) && |Moved(ns, l, r)| == |ns|
  {
    MovedAt(ns, l, r);
    forall x | x in ns ensures x in Moved(ns, l, r) {
      var i :| 0 <= i < |ns| && ns[i] == x;
      assert Moved(ns, l, r)[if i == r then l else if l <= i < r then i + 1 else i] == x;
    }
  }

  /** The addresses that a move from `r` to `l` touches. */
  datatype Spot = Spot(before: Ptr, base: Ptr, last: Ptr, ins: Ptr, after: Ptr)

  function SpotOf(ns: seq<Ptr>, l: nat, r: nat): Spot
    requires l < r < |ns|
  {
    Spot(At(ns, l - 1), ns[l], ns[r - 1], ns[r], At(ns, r + 1))
  }

  ghost predicate SpotIn(m: Memory, s: Spot) {
    && s.base in m && s.last in m && s.ins in m && s.base != NULL && s.last != NULL && s.ins != NULL
    && (s.before != NULL ==> s.before in m) && (s.after != NULL ==> s.after in m)
    && s.ins != s.base && s.ins != s.last && s.ins != s.before && s.ins != s.after
    && s.after != s.base && s.after != s.last && s.before != s.base && s.before != s.last
    && (s.before != NULL ==> s.before != s.after)
    && m[s.base].prev == s.before && m[s.ins].prev == s.last && m[s.ins].next == s.after
  }

  lemma SpotFacts(m: Memory, ns: seq<Ptr>, l: nat, r: nat)
    requires Linked(m, ns) && l < r < |ns|
    ensures SpotIn(m, SpotOf(ns, l, r))
  {
    assert LinkedAt(m, ns, l) && LinkedAt(m, ns, r) && LinkedAt(m, ns, r - 1);
    assert r + 1 < |ns| ==> LinkedAt(m, ns, r + 1);
    assert l > 0 ==> LinkedAt(m, ns, l - 1);
  }

  /** The neighbours of the moving node linked to each other. */
  function Unlinked(m: Memory, s: Spot): (m': Memory)
    requires SpotIn(m, s)
    ensures m'.Keys == m.Keys && m'[s.base].prev == s.before && m'[s.ins] == m[s.ins]
  {
    var m1 := if s.after == NULL then m else SetPrev(m, s.after, s.last);
    SetNext(m1, s.last, s.after)
  }

  /** The moving node linked between its new neighbours. */
  function Relinked(m: Memory, s: Spot): (m': Memory)
    requires s.ins in m && s.base in m && (s.before != NULL ==> s.before in m)
    ensures m'.Keys == m.Keys
  {
    if s.before == NULL then
      SetPrev(SetNext(SetPrev(m, s.ins, NULL), s.ins, s.base), s.base, s.ins)
    else
      SetPrev(SetNext(SetNext(SetPrev(m, s.ins, s.before), s.before, s.ins), s.ins, s.base), s.base, s.ins)
  }

  function MovedMemory(m: Memory, s: Spot): (m': Memory)
    requires SpotIn(m, s)
    ensures m'.Keys == m.Keys
  {
    Relinked(Unlinked(m, s), s)
  }

  lemma MovedPoint(m: Memory, s: Spot, x: Ptr)
    requires SpotIn(m, s) && x in m && x != NULL
    ensures var n := MovedMemory(m, s)[x];
      && n.data == m[x].data
      && n.next == (if x == s.ins then s.base else if x == s.before then s.ins
          else if x == s.last then s.after else m[x].next)
      && n.prev == (if x == s.ins then s.before else if x == s.base then s.ins
          else if x == s.after then s.last else m[x].prev)
  {
  }

  lemma MovedLinked(m: Memory, ns: seq<Ptr>, l: nat, r: nat)
    requires Linked(m, ns) && NULL !in m && l < r < |ns|
    ensures var s := SpotOf(ns, l, r); SpotIn(m, s) && s.base == ns[l] && s.ins == ns[r]
    ensures var m' := MovedMemory(m, SpotOf(ns, l, r)); Linked(m', Moved(ns, l, r)) && Data(m') == Data(m)
  {
    hide SpotIn, MovedMemory, Moved, Linked, Distinct, Data;
    SpotFacts(m, ns, l, r);
    var s, ns' := SpotOf(ns, l, r), Moved(ns, l, r);
    var m' := MovedMemory(m, s);
    MovedNodes(ns, l, r);
    forall i | 0 <= i < |ns'| ensures LinkedAt(m', ns', i) {
      MovedLinkedAt(m, ns, l, r, i);
    }
    MovedDistinct(m, ns, l, r);
    LinkedFrom(m', ns');
    MovedData(m, s);
  }

  lemma MovedLinkedAt(m: Memory, ns: seq<Ptr>, l: nat, r: nat, i: nat)
    requires Linked(m, ns) && NULL !in m && l < r < |ns| && i < |ns| && SpotIn(m, SpotOf(ns, l, r))
    ensures i < |Moved(ns, l, r)| && LinkedAt(MovedMemory(m, SpotOf(ns, l, r)), Moved(ns, l, r), i)
  {
    hide SpotIn, MovedMemory, Moved;
    MovedAt(ns, l, r);
    var j := if i == l then r else if l < i <= r then i - 1 else i;
    assert LinkedAt(m, ns, j);
    MovedPoint(m, SpotOf(ns, l, r), ns[j]);
  }

  lemma MovedDistinct(m: Memory, ns: seq<Ptr>, l: nat, r: nat)
    requires Linked(m, ns) && l < r < |ns|
    ensures Distinct(Moved(ns, l, r))
  {
    hide Moved;
    MovedAt(ns, l, r);
  }

  lemma MovedData(m: Memory, s: Spot)
    requires SpotIn(m, s) && NULL !in m
    ensures Data(MovedMemory(m, s)) == Data(m)
  {
    hide SpotIn, MovedMemory;
    forall x | x in m ensures MovedMemory(m, s)[x].data == m[x].data {
      MovedPoint(m, s, x);
    }
  }

  // ---------- Exchanging two nodes ----------

  /** The addresses that an exchange touches. */
  datatype Pair = Pair(first: Ptr, firstPrev: Ptr, firstNext: Ptr, second: Ptr, secondPrev: Ptr, secondNext: Ptr)

  function PairOf(ns: seq<Ptr>, i: nat, j: nat): Pair
    requires i < |ns| && j < |ns|
  {
    Pair(ns[i], At(ns, i - 1), At(ns, i + 1), ns[j], At(ns, j - 1), At(ns, j + 1))
  }

  ghost predicate PairIn(m: Memory, p: Pair) {
    && p.first in m && p.second in m && p.first != p.second && p.first != NULL && p.second != NULL
    && (p.firstPrev != NULL ==> p.firstPrev in m) && (p.firstNext != NULL ==> p.firstNext in m)
    && (p.secondPrev != NULL ==> p.secondPrev in m) && (p.secondNext != NULL ==> p.secondNext in m)
    && m[p.first].prev == p.firstPrev && m[p.first].next == p.firstNext
    && m[p.second].prev == p.secondPrev && m[p.second].next == p.secondNext
    && (p.firstPrev != p.secondPrev || p.firstPrev == NULL) && (p.firstNext != p.secondNext || p.firstNext == NULL)
    && p.firstPrev != p.first && p.firstNext != p.first && p.secondPrev != p.second && p.secondNext != p.second
  }

  function MaybeNext(m: Memory, x: Ptr, y: Ptr): (r: Memory)
    requires x != NULL ==> x in m
    ensures r.Keys == m.Keys
  {
    if x == NULL then m else SetNext(m, x, y)
  }

  function MaybePrev(m: Memory, x: Ptr, y: Ptr): (r: Memory)
    requires x != NULL ==> x in m
    ensures r.Keys == m.Keys
  {
    if x == NULL then m else SetPrev(m, x, y)
  }

  predicate Apart(p: Pair) {
    p.firstNext != p.second && p.secondNext != p.first && p.firstPrev != p.second && p.secondPrev != p.first
  }

  /** The second node linked where the first was, then the first where the second was. */
  function SwapMemory(m: Memory, p: Pair): (r: Memory)
    requires PairIn(m, p)
    ensures r.Keys == m.Keys
  {
    var m1 := SetPrev(MaybeNext(m, p.firstPrev, p.second), p.second, p.firstPrev);
    var m2 := SetNext(MaybePrev(m1, p.firstNext, p.second), p.second, p.firstNext);
    var m3 := SetPrev(MaybeNext(m2, p.secondPrev, p.first), p.first, p.secondPrev);
    SetNext(MaybePrev(m3, p.secondNext, p.first), p.first, p.secondNext)
  }

  /** The first node directly before the second one: their order changes. */
  function SwapAdjacentMemory(m: Memory, p: Pair): (r: Memory)
    requires PairIn(m, p)
    ensures r.Keys == m.Keys
  {
    var m1 := SetNext(MaybePrev(m, p.secondNext, p.first), p.first, p.secondNext);
    var m2 := SetPrev(MaybeNext(m1, p.firstPrev, p.second), p.second, p.firstPrev);
    SetNext(SetPrev(m2, p.first, p.second), p.second, p.first)
  }

  lemma SwapPoint(m: Memory, p: Pair, x: Ptr)
    requires PairIn(m, p) && Apart(p) && x in m && x != NULL
    ensures var n := SwapMemory(m, p)[x];
      && n.data == m[x].data
      && n.next == (if x == p.first then p.secondNext else if x == p.second then p.firstNext
                    else if x == p.firstPrev then p.second else if x == p.secondPrev then p.first else m[x].next)
      && n.prev == (if x == p.first then p.secondPrev else if x == p.second then p.firstPrev
                    else if x == p.firstNext then p.second else if x == p.secondNext then p.first else m[x].prev)
  {
  }

  lemma SwapAdjacentPoint(m: Memory, p: Pair, x: Ptr)
    requires PairIn(m, p) && p.firstNext == p.second && p.secondPrev == p.first && x in m && x != NULL
    requires p.firstPrev != p.second && p.secondNext != p.first
    ensures var n := SwapAdjacentMemory(m, p)[x];
      && n.data == m[x].data
      && n.next == (if x == p.first then p.secondNext else if x == p.second then p.first
                    else if x == p.firstPrev then p.second else m[x].next)
      && n.prev == (if x == p.first then p.second else if x == p.second then p.firstPrev
                    else if x == p.secondNext then p.first else m[x].prev)
  {
  }

  lemma PairFacts(m: Memory, ns: seq<Ptr>, i: nat, j: nat)
    requires Linked(m, ns) && i < |ns| && j < |ns| && i != j
    ensures PairIn(m, PairOf(ns, i, j))
    ensures Apart(PairOf(ns, i, j)) <==> i + 1 != j && j + 1 != i
    ensures m[ns[i]].next == ns[j] <==> i + 1 == j
    ensures i + 1 == j ==> At(ns, j + 1) != ns[i] && At(ns, i - 1) != ns[j]
  {
    assert LinkedAt(m, ns, i) && LinkedAt(m, ns, j);
    assert i > 0 ==> LinkedAt(m, ns, i - 1);
    assert j > 0 ==> LinkedAt(m, ns, j - 1);
    assert i + 1 < |ns| ==> LinkedAt(m, ns, i + 1);
    assert j + 1 < |ns| ==> LinkedAt(m, ns, j + 1);
  }

  lemma SwappedLinked(m: Memory, ns: seq<Ptr>, i: nat, j: nat)
    requires Linked(m, ns) && NULL !in m && i < |ns| && j < |ns| && i != j
    ensures PairIn(m, PairOf(ns, i, j))
    ensures var m' := if i + 1 == j then SwapAdjacentMemory(m, PairOf(ns, i, j)) else SwapMemory(m, PairOf(ns, i, j));
      j + 1 != i ==> Linked(m', Swapped(ns, i, j)) && Data(m') == Data(m)
  {
    hide PairIn, SwapMemory, SwapAdjacentMemory, Apart;
    PairFacts(m, ns, i, j);
    var p, ns' := PairOf(ns, i, j), Swapped(ns, i, j);
    if j + 1 != i {
      var m' := if i + 1 == j then SwapAdjacentMemory(m, p) else SwapMemory(m, p);
      forall k | 0 <= k < |ns'| ensures LinkedAt(m', ns', k) {
        var k' := if k == i then j else if k == j then i else k;
        assert ns'[k] == ns[k'] && LinkedAt(m, ns, k');
        if i + 1 == j { SwapAdjacentPoint(m, p, ns[k']); } else { SwapPoint(m, p, ns[k']); }
      }
      forall x | x in m ensures m'[x].data == m[x].data {
        if i + 1 == j { SwapAdjacentPoint(m, p, x); } else { SwapPoint(m, p, x); }
      }
    }
  }

  lemma SwappedNodes(ns: seq<Ptr>, i: nat, j: nat)
    requires i < |ns| && j < |ns|
    ensures Nodes(Swapped(ns, i, j)) == Nodes(ns) && |Swapped(ns, i, j)| == |ns|
    ensures Swapped(ns, i, j) == Swapped(ns, j, i)
  {
    forall x | x in ns ensures x in Swapped(ns, i, j) {
      var k :| 0 <= k < |ns| && ns[k] == x;
      assert Swapped(ns, i, j)[if k == i then j else if k == j then i else k] == x;
    }
  }

  // ---------- Inserting one list into another ----------

  function Spliced(a: seq<Ptr>, b: seq<Ptr>, i: nat): seq<Ptr>
    requires i <= |a|
  {
    a[..i] + b + a[i..]
  }

  /** The chain from `first` to `last` linked between two neighbours, either of which may be missing. */
  function SplicedMemory(m: Memory, left: Ptr, first: Ptr, last: Ptr, right: Ptr): (r: Memory)
    requires first in m && last in m && (left != NULL ==> left in m) && (right != NULL ==> right in m)
    ensures r.Keys == m.Keys
  {
    var m1 := if left == NULL then m else SetPrev(SetNext(m, left, first), first, left);
    if right == NULL then m1 else SetNext(SetPrev(m1, right, last), last, right)
  }

  lemma SplicedCases(m: Memory, left: Ptr, first: Ptr, last: Ptr, right: Ptr)
    requires first in m && last in m && (left != NULL ==> left in m) && (right != NULL ==> right in m)
    requires left != NULL || right != NULL
    ensures SplicedMemory(m, left, first, last, right) ==
      if left == NULL then SetNext(SetPrev(m, right, last), last, right)
      else if right == NULL then SetPrev(SetNext(m, left, first), first, left)
      else SetNext(SetPrev(SetPrev(SetNext(m, left, first), first, left), right, last), last, right)
  {
  }

  lemma SplicePoint(m: Memory, left: Ptr, first: Ptr, last: Ptr, right: Ptr, x: Ptr)
    requires first in m && last in m && (left != NULL ==> left in m) && (right != NULL ==> right in m)
    requires x in m && x != NULL && (left == NULL || left != last) && (right == NULL || right != first)
    requires first != NULL && last != NULL
    ensures var n := SplicedMemory(m, left, first, last, right)[x];
      && n.data == m[x].data
      && n.next == (if x == left then first else if x == last && right != NULL then right else m[x].next)
      && n.prev == (if x == first && left != NULL then left else if x == right then last else m[x].prev)
  {
  }

  lemma SplicedLinked(m1: Memory, m2: Memory, a: seq<Ptr>, b: seq<Ptr>, i: nat)
    requires Linked(m1, a) && Linked(m2, b) && i <= |a| && b != [] && m1.Keys !! m2.Keys && NULL !in m1 && NULL !in m2
    ensures (i > 0 ==> a[i - 1] in m1) && (i < |a| ==> a[i] in m1) && b[0] in m2 && b[|b| - 1] in m2
    ensures var m := SplicedMemory(m1 + m2, At(a, i - 1), b[0], b[|b| - 1], At(a, i));
      Linked(m, Spliced(a, b, i)) && Data(m) == Data(m1) + Data(m2)
  {
    hide SplicedMemory, Spliced, Linked, Distinct, Data;
    var c, first, last := Spliced(a, b, i), b[0], b[|b| - 1];
    if i > 0 { LinkedIndex(m1, a, i - 1); }
    if i < |a| { LinkedIndex(m1, a, i); }
    LinkedIndex(m2, b, 0);
    LinkedIndex(m2, b, |b| - 1);
    var m := SplicedMemory(m1 + m2, At(a, i - 1), first, last, At(a, i));
    SplicedAt(a, b, i);
    assert |c| == |a| + |b|;
    forall k | 0 <= k < |c| ensures LinkedAt(m, c, k) {
      if i <= k < i + |b| {
        LinkedIndex(m2, b, k - i);
        assert c[k] == b[k - i];
      } else {
        var k' := if k < i then k else k - |b|;
        LinkedIndex(m1, a, k');
        assert c[k] == a[k'];
      }
      SplicePoint(m1 + m2, At(a, i - 1), first, last, At(a, i), c[k]);
    }
    DistinctSpliced(m1, m2, a, b, i);
    SplicedData(m1, m2, At(a, i - 1), first, last, At(a, i));
    assert Linked(m, c) by { LinkedFrom(m, c); }
  }

  lemma LinkedFrom(m: Memory, ns: seq<Ptr>)
    requires Distinct(ns) && forall i :: 0 <= i < |ns| ==> LinkedAt(m, ns, i)
    ensures Linked(m, ns)
  {
  }

  lemma LinkedIndex(m: Memory, ns: seq<Ptr>, i: nat)
    requires Linked(m, ns) && i < |ns|
    ensures LinkedAt(m, ns, i) && forall j :: 0 <= j < |ns| && j != i ==> ns[j] != ns[i]
  {
    assert LinkedAt(m, ns, i);
  }

  lemma SplicedData(m1: Memory, m2: Memory, left: Ptr, first: Ptr, last: Ptr, right: Ptr)
    requires NULL !in m1 && NULL !in m2 && m1.Keys !! m2.Keys && first in m2 && last in m2
    requires (left != NULL ==> left in m1) && (right != NULL ==> right in m1)
    ensures Data(SplicedMemory(m1 + m2, left, first, last, right)) == Data(m1) + Data(m2)
  {
    forall x | x in m1 + m2 ensures SplicedMemory(m1 + m2, left, first, last, right)[x].data == (m1 + m2)[x].data {
      SplicePoint(m1 + m2, left, first, last, right, x);
    }
  }

  function SplicedNode(a: seq<Ptr>, b: seq<Ptr>, i: nat, k: nat): Ptr
    requires i <= |a| && k < |a| + |b|
  {
    if k < i then a[k] else if k < i + |b| then b[k - i] else a[k - |b|]
  }

  lemma SplicedAt(a: seq<Ptr>, b: seq<Ptr>, i: nat)
    requires i <= |a|
    ensures |Spliced(a, b, i)| == |a| + |b| && Nodes(Spliced(a, b, i)) == Nodes(a) + Nodes(b)
    ensures forall k :: 0 <= k < |a| + |b| ==> Spliced(a, b, i)[k] == SplicedNode(a, b, i, k)
  {
    assert a == a[..i] + a[i..];
  }

  lemma DistinctSpliced(m1: Memory, m2: Memory, a: seq<Ptr>, b: seq<Ptr>, i: nat)
    requires Linked(m1, a) && Linked(m2, b) && i <= |a| && m1.Keys !! m2.Keys
    ensures Distinct(Spliced(a, b, i))
  {
    SplicedAt(a, b, i);
    hide Spliced;
    forall k | 0 <= k < |a| ensures a[k] in m1 { assert LinkedAt(m1, a, k); }
    forall k | 0 <= k < |b| ensures b[k] in m2 { assert LinkedAt(m2, b, k); }
  }

  // ---------- Unlinking a node ----------

  function DroppedMemory(m: Memory, prev: Ptr, x: Ptr, next: Ptr): Memory
    requires x in m && (prev != NULL ==> prev in m) && (next != NULL ==> next in m)
  {
    MaybePrev(MaybeNext(m, prev, next), next, prev) - {x}
  }

  lemma DroppedLinked(m: Memory, ns: seq<Ptr>, i: nat)
    requires Linked(m, ns) && NULL !in m && i < |ns|
    ensures LinkedAt(m, ns, i) && (i > 0 ==> ns[i - 1] in m) && (i + 1 < |ns| ==> ns[i + 1] in m)
    ensures var m' := DroppedMemory(m, At(ns, i - 1), ns[i], At(ns, i + 1));
      Linked(m', Without(ns, i)) && Data(m') == Data(m) - {ns[i]} && m'.Keys == m.Keys - {ns[i]}
    ensures Nodes(Without(ns, i)) == Nodes(ns) - {ns[i]}
  {
    var ns' := Without(ns, i);
    assert LinkedAt(m, ns, i);
    assert i > 0 ==> LinkedAt(m, ns, i - 1);
    assert i + 1 < |ns| ==> LinkedAt(m, ns, i + 1);
    var m' := DroppedMemory(m, At(ns, i - 1), ns[i], At(ns, i + 1));
    assert forall k :: 0 <= k < |ns'| ==> ns'[k] == ns[if k < i then k else k + 1];
    forall k | 0 <= k < |ns'| ensures LinkedAt(m', ns', k) {
      assert LinkedAt(m, ns, if k < i then k else k + 1);
    }
    assert ns == ns[..i] + [ns[i]] + ns[i + 1..];
  }
}
