/** The priority queue: a binary heap in an array, greatest element first. */
module PQueues {
  import opened Common
  import opened Words
  import opened HeapSpec

  class PQueue {
    var size: nat
    var capacity: nat
    var buffer: array<Ptr>
    const cmp: Comparator
    const expFactor: real
    const grown: (real, nat) -> nat  // a capacity times an expansion factor, as the machine rounds it

    ghost predicate Valid()
      reads this, buffer
    {
      && TotalPreorder(cmp) && (forall x, c :: grown(x, c) <= MAX_ELEMENTS)
      && capacity == buffer.Length <= MAX_ELEMENTS && size <= capacity
      && HeapOk(cmp, buffer[..size])
    }

    /** The elements, in heap order. */
    ghost function Heap(): seq<Ptr>
      requires size <= buffer.Length
      reads this, buffer
    {
      buffer[..size]
    }

    /** `cc_pqueue_new_conf`: refuses capacities that could overflow when they grow. */
    static method Create(cmp: Comparator, expFactor: real, grown: (real, nat) -> nat, capacity: nat)
      returns (stat: Stat, pq: PQueue?)
      requires TotalPreorder(cmp) && forall x, c :: grown(x, c) <= MAX_ELEMENTS
      ensures stat == if RefusesCapacity(expFactor, capacity) then CC_ERR_INVALID_CAPACITY else CC_OK
      ensures var x := if expFactor <= 1.0 then 2.0 else expFactor;
        && (stat == CC_OK <==> capacity > 0 && exists k: nat :: LeavesRoom(x, capacity, k))
        && (stat == CC_OK ==> pq != null && pq.expFactor == x)
      ensures stat != CC_OK ==> pq == null
      ensures stat == CC_OK ==>
        && fresh(pq) && fresh(pq.buffer) && pq.Valid() && pq.Heap() == []
        && pq.cmp == cmp && pq.capacity == capacity
    {
      hide Pow2, TotalPreorder, HeapOk;
      RefusesExact(expFactor, capacity);
      var ex := if expFactor <= 1.0 then 2.0 else expFactor;
      if capacity == 0 || ex >= (MAX_ELEMENTS / capacity) as real {
        return CC_ERR_INVALID_CAPACITY, null;
      }
      AcceptedCapacity(expFactor, capacity);
      pq := new PQueue(cmp, ex, grown, capacity);
      return CC_OK, pq;
    }

    constructor (cmp: Comparator, expFactor: real, grown: (real, nat) -> nat, capacity: nat)
      requires TotalPreorder(cmp) && 0 < capacity <= MAX_ELEMENTS && forall x, c :: grown(x, c) <= MAX_ELEMENTS
      ensures Valid() && Heap() == [] && this.cmp == cmp && fresh(buffer)
      ensures this.capacity == capacity && this.expFactor == expFactor
    {
      this.cmp := cmp;
      this.expFactor := expFactor;
      this.grown := grown;
      this.capacity := capacity;
      buffer := new Ptr[capacity](_ => NULL);
      size := 0;
    }

    /** `expand_capacity`. */
    method ExpandCapacity() returns (stat: Stat)
      requires Valid()
      modifies this`capacity, this`buffer
      ensures Valid() && Heap() == old(Heap())
      ensures stat == if old(capacity) == MAX_ELEMENTS then CC_ERR_MAX_CAPACITY else CC_OK
      ensures if stat == CC_OK then fresh(buffer) && capacity > old(capacity) else unchanged(this)
      ensures stat == CC_OK ==>
        var next := grown(expFactor, old(capacity));
        capacity == if next <= old(capacity) then MAX_ELEMENTS else next
    {
      hide Pow2, HeapOk, TotalPreorder;
      if capacity == MAX_ELEMENTS {
        return CC_ERR_MAX_CAPACITY;
      }
      var newCapacity := grown(expFactor, capacity);
      capacity := if newCapacity <= capacity then MAX_ELEMENTS else newCapacity;
      var newBuff := new Ptr[capacity](_ => NULL);
      MemCopy(newBuff, 0, buffer, 0, size);
      buffer := newBuff;
      assert Heap() == old(Heap());
      return CC_OK;
    }

    /** `cc_pqueue_push`. */
    method Push(element: Ptr) returns (stat: Stat)
      requires Valid()
      modifies this, buffer
      ensures Valid() && (buffer == old(buffer) || fresh(buffer))
      ensures stat == if old(size) == old(capacity) == MAX_ELEMENTS then CC_ERR_MAX_CAPACITY else CC_OK
      ensures stat == CC_OK ==>
        && Heap() == SiftUp(cmp, old(Heap()) + [element], old(size))
        && multiset(Heap()) == multiset(old(Heap())) + multiset{element}
      ensures stat != CC_OK ==> unchanged(this) && unchanged(buffer)
      ensures old(size) < old(capacity) ==> capacity == old(capacity)
      ensures stat == CC_OK && old(size) == old(capacity) ==>
        var next := grown(expFactor, old(capacity));
        capacity == if next <= old(capacity) then MAX_ELEMENTS else next
    {
      hide Pow2, HeapOk, TotalPreorder, SiftUp;
      var i := size;
      if i >= capacity {
        var status := ExpandCapacity();
        if status != CC_OK {
          return status;
        }
      }
      PushFacts(cmp, Heap(), element);
      WriteLast(element);
      Raise(i);
      return CC_OK;
    }

    method WriteLast(element: Ptr)
      requires size < capacity == buffer.Length
      modifies this`size, buffer
      ensures size == old(size) + 1 && buffer[..size] == old(buffer[..size]) + [element]
    {
      buffer[size] := element;
      size := size + 1;
    }

    /** The loop of `cc_pqueue_push` that moves the new element up. */
    method Raise(i0: nat)
      requires i0 < size <= capacity == buffer.Length
      modifies buffer
      ensures buffer[..size] == SiftUp(cmp, old(buffer[..size]), i0)
    {
      hide SiftUp;
      var i := i0;
      ghost var s := buffer[..size];
      SiftUpStep(cmp, s, i);
      if i == 0 {
        return;
      }
      var child, parent := buffer[i], buffer[Parent(i)];
      while i != 0 && cmp(child, parent) > 0
        invariant i < size <= buffer.Length && child == buffer[i] && parent == buffer[Parent(i)]
        invariant SiftUp(cmp, buffer[..size], i) == SiftUp(cmp, s, i0)
      {
        SiftUpStep(cmp, buffer[..size], i);
        ghost var t := Swapped(buffer[..size], i, Parent(i));
        var tmp := buffer[i];
        buffer[i] := buffer[Parent(i)];
        buffer[Parent(i)] := tmp;
        assert buffer[..size] == t;
        i := Parent(i);
        child := buffer[i];
        parent := buffer[Parent(i)];
      }
      SiftUpStep(cmp, buffer[..size], i);
    }

    /** `cc_pqueue_top`. */
    method Top() returns (stat: Stat, out: Ptr)
      requires Valid()
      ensures stat == if size == 0 then CC_ERR_OUT_OF_RANGE else CC_OK
      ensures stat == CC_OK ==> out == Heap()[0] && forall x :: x in Heap() ==> cmp(out, x) >= 0
    {
      if size == 0 {
        return CC_ERR_OUT_OF_RANGE, NULL;
      }
      GreatestIsRoot(cmp, Heap());
      return CC_OK, buffer[0];
    }

    /** `cc_pqueue_pop`: a greatest element leaves the queue, and nothing else does. */
    method Pop() returns (stat: Stat, out: Ptr)
      requires Valid()
      modifies this`size, buffer
      ensures Valid() && stat == if old(size) == 0 then CC_ERR_OUT_OF_RANGE else CC_OK
      ensures stat == CC_OK ==>
        && out == old(Heap())[0] && (forall x :: x in old(Heap()) ==> cmp(out, x) >= 0)
        && multiset(Heap()) == multiset(old(Heap())) - multiset{out} && size == old(size) - 1
        && (size > 0 ==> Heap() == SiftDown(cmp, old(Heap()[0 := Heap()[size - 1]][..size - 1]), 0))
      ensures stat != CC_OK ==> unchanged(this) && unchanged(buffer)
    {
      hide Pow2, HeapOk, TotalPreorder, SiftDown;
      if size == 0 {
        return CC_ERR_OUT_OF_RANGE, NULL;
      }
      ghost var h := Heap();
      PopFacts(cmp, h);
      ExchangeEnds();
      var tmp := buffer[size - 1];
      size := size - 1;
      Heapify(0);
      return CC_OK, tmp;
    }

    /** The exchange of the root and the last element at the start of `cc_pqueue_pop`. */
    method ExchangeEnds()
      requires 0 < size <= capacity == buffer.Length
      modifies buffer
      ensures buffer[..size - 1] == Exchanged(old(buffer[..size])) && buffer[size - 1] == old(buffer[0])
    {
      var tmp := buffer[0];
      buffer[0] := buffer[size - 1];
      buffer[size - 1] := tmp;
    }

    /** `cc_pqueue_heapify`; the children are read only where they exist. */
    method Heapify(index0: nat)
      requires size <= capacity == buffer.Length && index0 <= size && (size > 0 ==> index0 < size)
      modifies buffer
      ensures buffer[..size] == if size == 0 then [] else SiftDown(cmp, old(buffer[..size]), index0)
      decreases size - index0
    {
      hide SiftDown;
      ghost var s := buffer[..size];
      if size > 0 { SiftDownStep(cmp, s, index0); }
      if size <= 1 {
        return;
      }
      var l, r, tmp, index := Left(index0), Right(index0), index0, index0;
      var indexPtr := buffer[index];
      if l < size && cmp(indexPtr, buffer[l]) < 0 {
        indexPtr := buffer[l];
        index := l;
      }
      if r < size && cmp(indexPtr, buffer[r]) < 0 {
        indexPtr := buffer[r];
        index := r;
      }
      if index != tmp {
        var swapTmp := buffer[tmp];
        buffer[tmp] := buffer[index];
        buffer[index] := swapTmp;
        assert buffer[..size] == Swapped(s, tmp, index);
        Heapify(index);
      }
    }
  }

  lemma SiftDownStep(cmp: Comparator, s: seq<Ptr>, i: nat)
    requires i < |s|
    ensures var k := Greatest(cmp, s, i);
      SiftDown(cmp, s, i) == if k != i then SiftDown(cmp, Swapped(s, i, k), k) else s
  {
  }

  lemma SiftUpStep(cmp: Comparator, s: seq<Ptr>, i: nat)
    requires i < |s|
    ensures SiftUp(cmp, s, i) ==
      if i != 0 && cmp(s[i], s[Parent(i)]) > 0 then SiftUp(cmp, Swapped(s, i, Parent(i)), Parent(i)) else s
  {
  }

  /** The heap after its root has been overwritten by its last element. */
  function Exchanged(h: seq<Ptr>): (r: seq<Ptr>)
    requires h != []
    ensures |r| == |h| - 1
  {
    h[0 := h[|h| - 1]][..|h| - 1]
  }

  /** What is left in the heap once its root has left it. */
  lemma PopFacts(cmp: Comparator, h: seq<Ptr>)
    requires TotalPreorder(cmp) && HeapOk(cmp, h) && h != []
    ensures h[0] in h && forall x :: x in h ==> cmp(h[0], x) >= 0
    ensures var r := if |h| == 1 then [] else SiftDown(cmp, Exchanged(h), 0);
      HeapOk(cmp, r) && multiset(r) == multiset(h) - multiset{h[0]}
  {
    hide TotalPreorder, SiftDown, HeapOk;
    GreatestIsRoot(cmp, h);
    PoppedSinks(cmp, h);
    assert Swapped(h, 0, |h| - 1)[..|h| - 1] == Exchanged(h);
    if |h| > 1 { SiftDownHeap(cmp, Exchanged(h), 0); } else { EmptyHeap(cmp, []); }
  }

  lemma PushFacts(cmp: Comparator, h: seq<Ptr>, x: Ptr)
    requires TotalPreorder(cmp) && HeapOk(cmp, h)
    ensures var r := SiftUp(cmp, h + [x], |h|); HeapOk(cmp, r) && multiset(r) == multiset(h) + multiset{x}
  {
    PushedRises(cmp, h, x);
    SiftUpHeap(cmp, h + [x], |h|);
  }

  lemma EmptyHeap(cmp: Comparator, s: seq<Ptr>)
    requires s == []
    ensures HeapOk(cmp, s)
  {
  }

  lemma GreatestIsRoot(cmp: Comparator, s: seq<Ptr>)
    requires TotalPreorder(cmp) && HeapOk(cmp, s) && s != []
    ensures forall x :: x in s ==> cmp(s[0], x) >= 0
  {
    hide TotalPreorder;
    forall x | x in s ensures cmp(s[0], x) >= 0 {
      var i :| 0 <= i < |s| && s[i] == x;
      RootGreatest(cmp, s, i);
    }
  }

  /** What is out is in non-increasing order and not less than what is still in. */
  ghost predicate Descends(cmp: Comparator, out: seq<Ptr>, rest: seq<Ptr>) {
    && (forall i, j :: 0 <= i < j < |out| ==> cmp(out[i], out[j]) >= 0)
    && (forall i, x :: 0 <= i < |out| && x in rest ==> cmp(out[i], x) >= 0)
  }

  lemma DescendsOn(cmp: Comparator, out: seq<Ptr>, h: seq<Ptr>, x: Ptr, h': seq<Ptr>)
    requires Descends(cmp, out, h) && x in h && (forall y :: y in h ==> cmp(x, y) >= 0)
    requires multiset(h') == multiset(h) - multiset{x}
    ensures Descends(cmp, out + [x], h') && multiset(out + [x]) + multiset(h') == multiset(out) + multiset(h)
  {
    forall y | y in h' ensures y in h {
      assert y in multiset(h');
    }
    assert x in multiset(h);
  }

  /** Popping until the queue is empty yields all its elements, none greater than the one before. */
  method Drain(pq: PQueue) returns (out: seq<Ptr>)
    requires pq.Valid()
    modifies pq, pq.buffer
    ensures pq.Valid() && pq.size == 0
    ensures multiset(out) == multiset(old(pq.Heap()))
    ensures forall i, j :: 0 <= i < j < |out| ==> pq.cmp(out[i], out[j]) >= 0
  {
    hide Pow2, HeapOk, TotalPreorder;
    out := [];
    while pq.size > 0
      invariant pq.Valid() && pq.buffer == old(pq.buffer)
      invariant multiset(out) + multiset(pq.Heap()) == multiset(old(pq.Heap()))
      invariant Descends(pq.cmp, out, pq.Heap())
      decreases pq.size
    {
      ghost var h := pq.Heap();
      var _, x := pq.Pop();
      DescendsOn(pq.cmp, out, h, x, pq.Heap());
      out := out + [x];
    }
  }
}
