/** The doubly linked list: in-place sorting, reversing and splicing by relinking nodes. */
module CLists {
  import opened Common
  import opened ListSpec
  import opened ListModel

  class CList {
    var size: nat
    var head: Ptr
    var tail: Ptr
    var mem: Memory
    ghost var nodes: seq<Ptr>

    /** The nodes are linked in this order and nothing else is allocated. */
    ghost predicate Chained()
      reads this`mem, this`nodes, this`size
    {
      Linked(mem, nodes) && NULL !in mem && mem.Keys == Nodes(nodes) && size == |nodes|
    }

    ghost predicate Valid()
      reads this
    {
      Chained() && head == At(nodes, 0) && tail == At(nodes, |nodes| - 1)
    }

    /** `link_behind`, for a node that follows `base` in the list. */
    method LinkBehind(base: Ptr, ins: Ptr, ghost l: nat, ghost r: nat)
      requires Chained() && l < r < |nodes| && base == nodes[l] && ins == nodes[r]
      modifies this`mem, this`nodes
      ensures Chained() && nodes == Moved(old(nodes), l, r) && Data(mem) == Data(old(mem))
    {
      hide Linked, Distinct, Moved, SpotOf, Nodes, Data;
      MovedLinked(mem, nodes, l, r);
      ghost var s := SpotOf(nodes, l, r);
      ghost var m0, m := Unlinked(mem, s), MovedMemory(mem, s);
      if mem[ins].next != NULL {
        mem := SetPrev(mem, mem[ins].next, mem[ins].prev);
      }
      if mem[ins].prev != NULL {
        mem := SetNext(mem, mem[ins].prev, mem[ins].next);
      }
      assert mem == m0;
      if mem[base].prev == NULL {
        mem := SetPrev(mem, ins, NULL);
        mem := SetNext(mem, ins, base);
        mem := SetPrev(mem, base, ins);
      } else {
        mem := SetPrev(mem, ins, mem[base].prev);
        mem := SetNext(mem, mem[ins].prev, ins);
        mem := SetNext(mem, ins, base);
        mem := SetPrev(mem, base, ins);
      }
      assert mem == m;
      MovedNodes(nodes, l, r);
      nodes := Moved(nodes, l, r);
    }

    lemma StepTo(i: nat)
      requires Chained() && i < |nodes|
      ensures nodes[i] in mem && nodes[i] != NULL && mem[nodes[i]].next == At(nodes, i + 1)
      ensures mem[nodes[i]].prev == At(nodes, i - 1)
    {
      assert LinkedAt(mem, nodes, i);
    }

    /** The remaining nodes of the section are linked one after the other. */
    lemma WeaveStep(pre: seq<Ptr>, zs: seq<Ptr>, ps: seq<Ptr>, qs: seq<Ptr>, post: seq<Ptr>, k: nat)
      requires Chained() && nodes == Weave(pre, zs, ps, qs, post) && k < |ps| + |qs|
      ensures LeftOver(ps, qs, k) in mem
      ensures k + 1 < |ps| + |qs| ==> mem[LeftOver(ps, qs, k)].next == LeftOver(ps, qs, k + 1)
    {
      hide Chained, Weave, LeftOver;
      WeaveAt(pre, zs, ps, qs, post, k);
      StepTo(|pre| + |zs| + k);
      if k + 1 < |ps| + |qs| { WeaveAt(pre, zs, ps, qs, post, k + 1); }
    }

    /** The node `n` steps further on. */
    method Advance(node0: Ptr, n: nat, ghost pre: seq<Ptr>, ghost zs: seq<Ptr>,
                   ghost ps: seq<Ptr>, ghost qs: seq<Ptr>, ghost post: seq<Ptr>)
      returns (node: Ptr)
      requires Chained() && nodes == Weave(pre, zs, ps, qs, post) && n < |ps| + |qs| && node0 == LeftOver(ps, qs, 0)
      ensures node == LeftOver(ps, qs, n)
    {
      hide Chained, Weave, LeftOver;
      node := node0;
      var i := 0;
      while i < n
        invariant i <= n && node == LeftOver(ps, qs, i)
      {
        WeaveStep(pre, zs, ps, qs, post, i);
        node := mem[node].next;
        i := i + 1;
      }
    }

    /**
      `merge`: the two sorted parts become one, nothing around them moves. The first node is
      reported wrongly in exactly one case, which `split` never asks for.
     */
    method MergeParts(left0: Ptr, right0: Ptr, lSize: nat, rSize: nat, cmp: Comparator,
                      ghost c: Comparator, ghost pre: seq<Ptr>,
                      ghost xs: seq<Ptr>, ghost ys: seq<Ptr>, ghost post: seq<Ptr>)
      returns (left: Ptr, right: Ptr, ghost steps: nat)
      requires Chained() && nodes == pre + xs + ys + post && |xs| == lSize > 0 && |ys| == rSize > 0
      requires left0 == xs[0] && right0 == ys[0]
      requires TotalPreorder(cmp) && c == NodeCmp(cmp, Data(mem))
      modifies this`mem, this`nodes
      ensures Chained() && Data(mem) == Data(old(mem)) && nodes == pre + Merge(c, xs, ys) + post
      ensures |Merge(c, xs, ys)| == lSize + rSize && right == Merge(c, xs, ys)[lSize + rSize - 1]
      ensures left == if rSize == 1 && lSize > 1 && c(xs[0], ys[0]) > 0 then xs[0] else Merge(c, xs, ys)[0]
      ensures steps == (if lSize + rSize == 2 then 1 else MergeSteps(c, xs, ys)) <= lSize + rSize
      ensures left == Merge(c, xs, ys)[0] <==> !(rSize == 1 && lSize > 1 && c(xs[0], ys[0]) > 0)
    {
      hide Chained, Weave, Merging, Merge, MergeSteps, TotalPreorder, Moved, Data;
      MergeStepsBound(c, xs, ys);
      steps := 0;
      NodeCmpOk(cmp, Data(mem));
      MergeHead(c, xs, ys);
      left, right := left0, right0;
      var size, l, r, i := rSize + lSize, 0, 0, 0;
      var lPart, rPart := left, right;
      ghost var zs, ps, qs: seq<Ptr> := [], xs, ys;
      assert nodes == Weave(pre, zs, ps, qs, post) && Merging(c, xs, ys, zs, ps, qs) by {
        MergingBegin(c, xs, ys, pre, post); }
      while i < size
        invariant i == l + r && l <= lSize && r < rSize
        invariant size == 2 ==> i == 0
        invariant steps == i && steps + MergeSteps(c, ps, qs) == MergeSteps(c, xs, ys)
        invariant Chained() && Data(mem) == Data(old(mem))
        invariant nodes == Weave(pre, zs, ps, qs, post) && Merging(c, xs, ys, zs, ps, qs)
        invariant |zs| == i && |ps| == lSize - l && |qs| == rSize - r
        invariant lPart == LeftOver(ps, qs, 0) && rPart == qs[0]
        invariant if i == 0 then left == xs[0] && right == ys[0] && ps == xs && qs == ys else left == zs[0]
        invariant i > 0 && r == 0 ==> c(xs[0], ys[0]) <= 0
      {
        WeaveStep(pre, zs, ps, qs, post, 0);
        WeaveStep(pre, zs, ps, qs, post, |ps|);
        var d := cmp(mem[lPart].data, mem[rPart].data);
        steps := steps + 1;
        MergeStepsNext(c, ps, qs);
        assert d == c(lPart, rPart) by { CompareNodes(cmp, mem, lPart, rPart); }
        if d <= 0 {
          if i == 0 && size == 2 {
            assert ps[1..] == [];
            MergingTakeLeft(c, xs, ys, zs, ps, qs);
            WeaveTake(pre, zs, ps, qs, post);
            MergingDone(c, xs, ys, pre, zs + [ps[0]], ps[1..], qs, post);
            return;
          }
          if l == lSize {
            right := Advance(rPart, rSize - 1 - r, pre, zs, ps, qs, post);
            MergingDone(c, xs, ys, pre, zs, ps, qs, post);
            return;
          }
          lPart := mem[lPart].next;
          l := l + 1;
          MergingTakeLeft(c, xs, ys, zs, ps, qs);
          WeaveTake(pre, zs, ps, qs, post);
          zs, ps := zs + [ps[0]], ps[1..];
        } else {
          if ps == [] { Flip(cmp, mem[lPart].data, mem[rPart].data); }
          var tmp := mem[rPart].next;
          MovedWeave(pre, zs, ps, qs, post);
          MergingTakeRight(c, xs, ys, zs, ps, qs);
          WeaveAt(pre, zs, ps, qs, post, 0);
          WeaveAt(pre, zs, ps, qs, post, |ps|);
          LinkBehind(lPart, rPart, |pre| + |zs|, |pre| + |zs| + |ps|);
          zs, qs := zs + [qs[0]], qs[1..];
          if i == 0 && size == 2 {
            right := lPart;
            left := rPart;
            MergingDone(c, xs, ys, pre, zs, ps, qs, post);
            return;
          }
          r := r + 1;
          if r == rSize {
            right := Advance(lPart, lSize - 1 - l, pre, zs, ps, qs, post);
            MergingDone(c, xs, ys, pre, zs, ps, qs, post);
            return;
          }
          if i == 0 {
            left := rPart;
          }
          rPart := tmp;
        }
        i := i + 1;
      }
      assert false;
    }

    /** `split`: sorts a section of the list and leaves its ends in `head` and `tail`. */
    method Split(b: Ptr, size: nat, cmp: Comparator,
                 ghost c: Comparator, ghost pre: seq<Ptr>, ghost sec: seq<Ptr>, ghost post: seq<Ptr>)
      returns (first: Ptr)
      requires Chained() && nodes == pre + sec + post && |sec| == size && b == At(sec + post, 0)
      requires TotalPreorder(cmp) && c == NodeCmp(cmp, Data(mem))
      modifies this`mem, this`nodes, this`head, this`tail
      ensures Chained() && Data(mem) == Data(old(mem)) && nodes == pre + MergeSort(c, sec) + post
      ensures |MergeSort(c, sec)| == size && first == At(MergeSort(c, sec) + post, 0)
      ensures if size < 2 then head == old(head) && tail == old(tail)
              else head == MergeSort(c, sec)[0] && tail == MergeSort(c, sec)[size - 1]
      decreases size
    {
      SortStep(c, sec);
      hide Chained, MergeSort, Merge, TotalPreorder, Data;
      if size < 2 {
        return b;
      }
      var lSize, rSize := size / 2, size / 2 + size % 2;
      var center := b;
      var i := 0;
      while i < lSize
        invariant i <= lSize && center == sec[i] && unchanged(this)
      {
        StepTo(|pre| + i);
        center := mem[center].next;
        i := i + 1;
      }
      ghost var sec1, sec2 := sec[..lSize], sec[lSize..];
      ghost var xs, ys := MergeSort(c, sec1), MergeSort(c, sec2);
      assert sec == sec1 + sec2;
      assert nodes == pre + sec1 + (sec2 + post);
      var lHead := Split(b, lSize, cmp, c, pre, sec1, sec2 + post);
      assert nodes == (pre + xs) + sec2 + post;
      var rHead := Split(center, rSize, cmp, c, pre + xs, sec2, post);
      assert nodes == pre + xs + ys + post;
      ghost var steps;
      lHead, rHead, steps := MergeParts(lHead, rHead, lSize, rSize, cmp, c, pre, xs, ys, post);
      head := lHead;
      tail := rHead;
      return lHead;
    }

    /** `cc_list_sort_in_place`: the same nodes, in the one stable order. */
    method SortInPlace(cmp: Comparator)
      requires Valid() && TotalPreorder(cmp)
      modifies this`mem, this`nodes, this`head, this`tail
      ensures Valid() && Data(mem) == Data(old(mem)) && size == old(size)
      ensures StableSortOf(NodeCmp(cmp, Data(mem)), old(nodes), nodes)
    {
      hide MergeSort, Merge, TotalPreorder, Data;
      ghost var c := NodeCmp(cmp, Data(mem));
      NodeCmpOk(cmp, Data(mem));
      MergeSortStable(c, nodes);
      assert nodes == [] + nodes + [];
      var _ := Split(head, size, cmp, c, [], nodes, []);
    }

    /** `swap_adjacent`, whichever of the two comes first. */
    method SwapAdjacent(n1: Ptr, n2: Ptr, ghost i: nat, ghost j: nat)
      requires Chained() && i < |nodes| && j < |nodes| && n1 == nodes[i] && n2 == nodes[j] && (i + 1 == j || j + 1 == i)
      modifies this`mem, this`nodes
      ensures Chained() && Data(mem) == Data(old(mem)) && nodes == Swapped(old(nodes), i, j)
    {
      hide Linked, Distinct, Swapped, Nodes, Data;
      PairFacts(mem, nodes, i, j);
      PairFacts(mem, nodes, j, i);
      SwappedNodes(nodes, i, j);
      if mem[n1].next == n2 {
        SwapInOrder(n1, n2, i, j);
      } else {
        SwapInOrder(n2, n1, j, i);
      }
    }

    /** One branch of `swap_adjacent`. */
    method SwapInOrder(n1: Ptr, n2: Ptr, ghost i: nat, ghost j: nat)
      requires Chained() && i + 1 == j < |nodes| && n1 == nodes[i] && n2 == nodes[j]
      modifies this`mem, this`nodes
      ensures Chained() && Data(mem) == Data(old(mem)) && nodes == Swapped(old(nodes), i, j)
    {
      hide Linked, Distinct, Swapped, Nodes, Data, At;
      PairFacts(mem, nodes, i, j);
      SwappedLinked(mem, nodes, i, j);
      SwappedNodes(nodes, i, j);
      ghost var m, ns' := SwapAdjacentMemory(mem, PairOf(nodes, i, j)), Swapped(nodes, i, j);
      if mem[n2].next != NULL {
        mem := SetPrev(mem, mem[n2].next, n1);
      }
      mem := SetNext(mem, n1, mem[n2].next);
      if mem[n1].prev != NULL {
        mem := SetNext(mem, mem[n1].prev, n2);
      }
      mem := SetPrev(mem, n2, mem[n1].prev);
      mem := SetPrev(mem, n1, n2);
      mem := SetNext(mem, n2, n1);
      assert mem == m;
      nodes := ns';
    }

    /** `swap`: the two nodes exchange their places. */
    method SwapNodes(n1: Ptr, n2: Ptr, ghost i: nat, ghost j: nat)
      requires Chained() && i < |nodes| && j < |nodes| && i != j && n1 == nodes[i] && n2 == nodes[j]
      modifies this`mem, this`nodes
      ensures Chained() && Data(mem) == Data(old(mem)) && nodes == Swapped(old(nodes), i, j)
    {
      hide Linked, Distinct, Swapped, Nodes, Data, At;
      PairFacts(mem, nodes, i, j);
      PairFacts(mem, nodes, j, i);
      if mem[n1].next == n2 || mem[n2].next == n1 {
        SwapAdjacent(n1, n2, i, j);
        return;
      }
      SwappedLinked(mem, nodes, i, j);
      SwappedNodes(nodes, i, j);
      ghost var m, ns' := SwapMemory(mem, PairOf(nodes, i, j)), Swapped(nodes, i, j);
      var n1Left, n1Right, n2Left, n2Right := mem[n1].prev, mem[n1].next, mem[n2].prev, mem[n2].next;
      if n1Left != NULL {
        mem := SetNext(mem, n1Left, n2);
      }
      mem := SetPrev(mem, n2, n1Left);
      if n1Right != NULL {
        mem := SetPrev(mem, n1Right, n2);
      }
      mem := SetNext(mem, n2, n1Right);
      if n2Left != NULL {
        mem := SetNext(mem, n2Left, n1);
      }
      mem := SetPrev(mem, n1, n2Left);
      if n2Right != NULL {
        mem := SetPrev(mem, n2Right, n1);
      }
      mem := SetNext(mem, n1, n2Right);
      assert mem == m;
      nodes := ns';
    }

    /** `cc_list_reverse`, by exchanging nodes from both ends. */
    method Reverse()
      requires Valid()
      modifies this`mem, this`nodes, this`head, this`tail
      ensures Valid() && nodes == Reversed(old(nodes)) && Data(mem) == Data(old(mem)) && size == old(size)
    {
      hide Linked, Data, HalfReversed, Reversed, Nodes, SwapMemory;
      ghost var ns := nodes;
      HalfReversedEnds(ns);
      ReversedEnds(ns);
      if size == 0 || size == 1 {
        return;
      }
      var headOld, tailOld, left, right := head, tail, head, tail;
      var i := 0;
      while i < size / 2
        invariant i <= size / 2 && Chained() && Data(mem) == Data(old(mem)) && nodes == HalfReversed(ns, i)
        invariant left == ns[i] && right == ns[size - 1 - i]
      {
        HalfReversedStep(ns, i);
        StepTo(i);
        StepTo(size - 1 - i);
        var tmpl, tmpr := mem[left].next, mem[right].prev;
        SwapNodes(left, right, i, size - 1 - i);
        left, right := tmpl, tmpr;
        i := i + 1;
      }
      head, tail := tailOld, headOld;
    }

    /** `get_node_at`, from the nearer end. */
    method GetNodeAt(index: nat) returns (stat: Stat, out: Ptr)
      requires Valid()
      ensures stat == if index < |nodes| then CC_OK else CC_ERR_OUT_OF_RANGE
      ensures out == At(nodes, index)
    {
      hide Linked;
      if index >= size {
        return CC_ERR_OUT_OF_RANGE, NULL;
      }
      var node := NULL;
      if index < size / 2 {
        node := head;
        var i := 0;
        while i < index
          invariant i <= index && node == nodes[i]
        {
          StepTo(i);
          node := mem[node].next;
          i := i + 1;
        }
      } else {
        node := tail;
        var i := size - 1;
        while i > index
          invariant index <= i < size && node == nodes[i]
        {
          StepTo(i);
          node := mem[node].prev;
          i := i - 1;
        }
      }
      return CC_OK, node;
    }

    /** `unlinkn`: the node is freed, the others keep their order. */
    method UnlinkNode(node: Ptr, ghost i: nat) returns (data: Ptr)
      requires Valid() && i < |nodes| && node == nodes[i]
      modifies this
      ensures Valid() && nodes == Without(old(nodes), i) && node in old(mem) && data == old(mem)[node].data
      ensures Data(mem) == Data(old(mem)) - {node} && mem.Keys == old(mem.Keys) - {node}
    {
      DroppedEnds(nodes, i);
      DroppedLinked(mem, nodes, i);
      ghost var m, ns' := DroppedMemory(mem, At(nodes, i - 1), node, At(nodes, i + 1)), Without(nodes, i);
      hide Linked, Distinct, Without, Nodes, Data, At;
      data := mem[node].data;
      if mem[node].prev != NULL {
        mem := SetNext(mem, mem[node].prev, mem[node].next);
      }
      if mem[node].prev == NULL {
        head := mem[node].next;
      }
      if mem[node].next == NULL {
        tail := mem[node].prev;
      }
      if mem[node].next != NULL {
        mem := SetPrev(mem, mem[node].next, mem[node].prev);
      }
      mem := Freed(mem, node);
      size := size - 1;
      assert mem == m;
      nodes := ns';
    }

    /** A list whose nodes have gone to another list is left empty. */
    method GiveUp()
      modifies this
      ensures Valid() && nodes == [] && mem == map[]
    {
      head := NULL;
      tail := NULL;
      size := 0;
      mem, nodes := map[], [];
    }

    /** `splice_between`: `left` and `right` are neighbours, at most one of them missing. */
    method SpliceBetween(l2: CList, left: Ptr, right: Ptr, ghost i: nat)
      requires Valid() && l2.Valid() && l2 != this && mem.Keys !! l2.mem.Keys && size > 0 && l2.size > 0
      requires i <= |nodes| && left == At(nodes, i - 1) && right == At(nodes, i)
      modifies this, l2
      ensures Valid() && l2.Valid() && nodes == Spliced(old(nodes), old(l2.nodes), i) && l2.nodes == []
      ensures Data(mem) == Data(old(mem)) + Data(old(l2.mem))
    {
      hide Linked, Distinct, Spliced, Nodes, Data, At, SetNext, SetPrev, SplicedMemory;
      SpliceJoints(l2, left, right, i);
      SplicedCases(mem + l2.mem, left, l2.head, l2.tail, right);
      ghost var ns' := Spliced(nodes, l2.nodes, i);
      ghost var m := SplicedMemory(mem + l2.mem, left, l2.head, l2.tail, right);
      mem := mem + l2.mem;
      if left == NULL {
        assert head == right;
        mem := SetPrev(mem, head, l2.tail);
        mem := SetNext(mem, l2.tail, head);
        assert mem == m;
        head := l2.head;
      } else if right == NULL {
        assert tail == left;
        mem := SetNext(mem, tail, l2.head);
        mem := SetPrev(mem, l2.head, tail);
        assert mem == m;
        tail := l2.tail;
      } else {
        mem := SetNext(mem, left, l2.head);
        mem := SetPrev(mem, l2.head, left);
        mem := SetPrev(mem, right, l2.tail);
        mem := SetNext(mem, l2.tail, right);
        assert mem == m;
      }
      nodes := ns';
      size := size + l2.size;
      l2.GiveUp();
    }

    lemma NodesNotNull()
      requires Chained()
      ensures forall k :: 0 <= k < |nodes| ==> nodes[k] != NULL
    {
      forall k | 0 <= k < |nodes| ensures nodes[k] != NULL { StepTo(k); }
    }

    /** Where the other list goes in, and what the four new links make of the two. */
    lemma SpliceJoints(l2: CList, left: Ptr, right: Ptr, i: nat)
      requires Valid() && l2.Valid() && mem.Keys !! l2.mem.Keys && size > 0 && l2.size > 0
      requires i <= |nodes| && left == At(nodes, i - 1) && right == At(nodes, i)
      ensures (left != NULL ==> left in mem) && (right != NULL ==> right in mem) && l2.head in l2.mem
      ensures l2.tail in l2.mem
      ensures left == NULL ==> right == head && head != NULL
      ensures right == NULL ==> left == tail
      ensures var m := SplicedMemory(mem + l2.mem, left, l2.head, l2.tail, right);
        var ns' := Spliced(nodes, l2.nodes, i);
        && Linked(m, ns') && Data(m) == Data(mem) + Data(l2.mem)
        && m.Keys == Nodes(ns') && NULL !in m && |ns'| == size + l2.size
        && At(ns', 0) == (if left == NULL then l2.head else head)
        && At(ns', |ns'| - 1) == (if right == NULL then l2.tail else tail)
    {
      hide Linked, Distinct, Spliced, Nodes, Data;
      NodesNotNull();
      SplicedEnds(nodes, l2.nodes, i);
      SplicedLinked(mem, l2.mem, nodes, l2.nodes, i);
      SplicedAt(nodes, l2.nodes, i);
    }

    /** `cc_list_splice_at`: all the nodes of the second list move to place `index` of this one. */
    method SpliceAt(l2: CList, index: nat) returns (stat: Stat)
      requires Valid() && l2.Valid() && l2 != this && mem.Keys !! l2.mem.Keys
      modifies this, l2
      ensures Valid() && l2.Valid()
      ensures stat == if old(l2.nodes) != [] && index > old(|nodes|) then CC_ERR_OUT_OF_RANGE else CC_OK
      ensures stat != CC_OK || old(l2.nodes) == [] ==> unchanged(this) && unchanged(l2)
      ensures stat == CC_OK && old(l2.nodes) != [] ==>
        && nodes == old(nodes)[..index] + old(l2.nodes) + old(nodes)[index..]
        && nodes == Spliced(old(nodes), old(l2.nodes), index) && l2.nodes == []
        && Data(mem) == Data(old(mem)) + Data(old(l2.mem))
    {
      hide Linked, Distinct, Data;
      if l2.size == 0 {
        return CC_OK;
      }
      if index > size {
        return CC_ERR_OUT_OF_RANGE;
      }
      NodesNotNull();
      if size == 0 {
        assert mem.Keys == {} && nodes == [];
        assert Spliced(nodes, l2.nodes, index) == l2.nodes;
        assert Data(l2.mem) == Data(mem) + Data(l2.mem) by { DataOfNone(mem, l2.mem); }
        head := l2.head;
        tail := l2.tail;
        size := l2.size;
        mem, nodes := l2.mem, l2.nodes;
        l2.GiveUp();
        return CC_OK;
      }
      var _, end := GetNodeAt(index);
      var base := NULL;
      if end != NULL {
        StepTo(index);
        base := mem[end].prev;
      } else {
        var _, b := GetNodeAt(index - 1);
        base := b;
      }
      SpliceBetween(l2, base, end, index);
      return CC_OK;
    }
  }

  lemma DataOfNone(m1: Memory, m2: Memory)
    requires m1.Keys == {}
    ensures Data(m2) == Data(m1) + Data(m2)
  {
  }

  lemma SplicedEnds(a: seq<Ptr>, b: seq<Ptr>, i: nat)
    requires i <= |a| && a != [] && b != []
    ensures var c := Spliced(a, b, i);
      && At(c, 0) == (if i == 0 then b[0] else a[0])
      && At(c, |c| - 1) == (if i == |a| then b[|b| - 1] else a[|a| - 1])
  {
  }

  lemma ReversedEnds(ns: seq<Ptr>)
    ensures |ns| < 2 ==> Reversed(ns) == ns
    ensures At(Reversed(ns), 0) == At(ns, |ns| - 1) && At(Reversed(ns), |ns| - 1) == At(ns, 0)
  {
  }

  lemma DroppedEnds(ns: seq<Ptr>, i: nat)
    requires i < |ns|
    ensures var ns' := Without(ns, i);
      && At(ns', 0) == (if i == 0 then At(ns, 1) else At(ns, 0))
      && At(ns', |ns'| - 1) == (if i + 1 == |ns| then At(ns, i - 1) else At(ns, |ns| - 1))
      && |ns'| == |ns| - 1
  {
  }

  lemma CompareNodes(cmp: Comparator, m: Memory, x: Ptr, y: Ptr)
    requires x in m && y in m
    ensures NodeCmp(cmp, Data(m))(x, y) == cmp(m[x].data, m[y].data)
  {
    var d := Data(m);
    assert Datum(d, x) == m[x].data && Datum(d, y) == m[y].data;
  }

  lemma MergeStepsNext(c: Comparator, ps: seq<Ptr>, qs: seq<Ptr>)
    requires qs != []
    ensures MergeSteps(c, ps, qs) ==
      if ps == [] then 1
      else if c(ps[0], qs[0]) <= 0 then 1 + MergeSteps(c, ps[1..], qs)
      else 1 + MergeSteps(c, ps, qs[1..])
    ensures |qs| == 1 ==> MergeSteps(c, ps, qs[1..]) == 0
  {
  }

  lemma MergingBegin(c: Comparator, xs: seq<Ptr>, ys: seq<Ptr>, pre: seq<Ptr>, post: seq<Ptr>)
    ensures Weave(pre, [], xs, ys, post) == pre + xs + ys + post && Merging(c, xs, ys, [], xs, ys)
  {
    assert pre + [] == pre;
    assert [] + Merge(c, xs, ys) == Merge(c, xs, ys);
  }

  lemma SortStep(c: Comparator, sec: seq<Ptr>)
    ensures if |sec| < 2 then MergeSort(c, sec) == sec
      else MergeSort(c, sec) == Merge(c, MergeSort(c, sec[..|sec| / 2]), MergeSort(c, sec[|sec| / 2..]))
  {
  }
}
