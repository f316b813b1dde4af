/** The contents of a power-of-two ring buffer and what the deque operations do to them. */
module Rings {
  import opened Common
  import opened Words

  /** The slot `i` places after slot `first`. */
  function Slot(first: nat, i: nat, capacity: nat): nat {
    if first + i < capacity then first + i else first + i - capacity
  }

  /** Masking computes the slot, around the end of the buffer. */
  lemma MaskSlot(first: nat, i: nat, capacity: nat)
    requires IsPow2(capacity) && first < capacity && i <= capacity
    ensures capacity > 0 && Mask(first + i, capacity) == Slot(first, i, capacity) < capacity
  {
    MaskIsMod(first + i, capacity);
    if first + i >= capacity {
      ModUnique(first + i, capacity, 1, first + i - capacity);
    } else {
      ModUnique(first + i, capacity, 0, first + i);
    }
  }

  /** The slot is the remainder that a ring of this size asks for. */
  lemma SlotIsMod(first: nat, i: nat, capacity: nat)
    requires first < capacity && i <= capacity
    ensures Slot(first, i, capacity) == (first + i) % capacity
  {
    ModUnique(first + i, capacity, if first + i >= capacity then 1 else 0, Slot(first, i, capacity));
  }

  lemma MaskSmall(x: nat, capacity: nat)
    requires IsPow2(capacity) && x < capacity
    ensures capacity > 0 && Mask(x, capacity) == x
  {
    MaskSlot(x, 0, capacity);
  }

  function Contents(buf: seq<Ptr>, first: nat, size: nat): (r: seq<Ptr>)
    requires first < |buf| && size <= |buf|
    ensures |r| == size
  {
    seq(size, i requires 0 <= i < size => buf[Slot(first, i, |buf|)])
  }

  // ---------- Both ends ----------

  lemma AddFirstContents(buf: seq<Ptr>, first: nat, size: nat, x: Ptr)
    requires first < |buf| && size < |buf|
    ensures var f := if first == 0 then |buf| - 1 else first - 1;
      Contents(buf[f := x], f, size + 1) == [x] + Contents(buf, first, size)
  {
  }

  lemma AddLastContents(buf: seq<Ptr>, first: nat, size: nat, x: Ptr)
    requires first < |buf| && size < |buf|
    ensures Contents(buf[Slot(first, size, |buf|) := x], first, size + 1) == Contents(buf, first, size) + [x]
  {
  }

  lemma RemoveFirstContents(buf: seq<Ptr>, first: nat, size: nat)
    requires first < |buf| && 0 < size <= |buf|
    ensures Contents(buf, Slot(first, 1, |buf|), size - 1) == Contents(buf, first, size)[1..]
    ensures Contents(buf, first, size)[0] == buf[first]
    ensures Slot(Slot(first, 1, |buf|), size - 1, |buf|) == Slot(first, size, |buf|)
  {
  }

  lemma RemoveLastContents(buf: seq<Ptr>, first: nat, size: nat)
    requires first < |buf| && 0 < size <= |buf|
    ensures Contents(buf, first, size - 1) == Contents(buf, first, size)[..size - 1]
    ensures Contents(buf, first, size)[size - 1] == buf[Slot(first, size - 1, |buf|)]
  {
  }

  lemma SwapContents(buf: seq<Ptr>, first: nat, size: nat, i: nat, j: nat)
    requires first < |buf| && i < j < size <= |buf|
    ensures var (f, l, c) := (Slot(first, i, |buf|), Slot(first, j, |buf|), Contents(buf, first, size));
      && f != l && Contents(buf[f := buf[l]][l := buf[f]], first, size) == c[i := c[j]][j := c[i]]
  {
  }

  /** Copying the part up to the end of the buffer and then the part from its start realigns the contents. */
  lemma Realigned(buf: seq<Ptr>, first: nat, size: nat, out: seq<Ptr>)
    requires first < |buf| && size <= |buf| <= |out|
    requires if Slot(first, size, |buf|) > first then size <= |out| && out[..size] == buf[first..first + size]
      else var e := |buf| - first; var l := Slot(first, size, |buf|);
        e + l <= |out| && out[..e] == buf[first..] && out[e..e + l] == buf[..l]
    ensures Contents(out, 0, size) == Contents(buf, first, size)
  {
    if Slot(first, size, |buf|) > first {
      assert forall i :: 0 <= i < size ==> out[i] == out[..size][i];
    } else {
      var e, l := |buf| - first, Slot(first, size, |buf|);
      assert forall i :: 0 <= i < e ==> out[i] == out[..e][i];
      assert forall i :: e <= i < e + l ==> out[i] == out[e..e + l][i - e];
      forall i | 0 <= i < size ensures Contents(out, 0, size)[i] == Contents(buf, first, size)[i] {
      }
    }
  }

  // ---------- Removing in the middle ----------

  /** The elements before `index` move one slot up. */
  predicate FrontHalf(size: nat, index: nat) {
    index + 1 <= size / 2
  }

  /** The buffer after `cc_deque_remove_at` for an index that is neither 0 nor the last slot's. */
  function RemovedBuffer(buf: seq<Ptr>, first: nat, size: nat, index: nat): (r: seq<Ptr>)
    requires first < |buf| && size <= |buf| && 0 < index < size && index != |buf| - 1
    ensures |r| == |buf|
  {
    var (c, l, f, p) := (|buf| - 1, Slot(first, size, |buf|), first, Slot(first, index, |buf|));
    if FrontHalf(size, index) then
      if p < f then MovedBlock(MovedBlock(buf, f + 1, f, c - f), 1, 0, p)[0 := buf[c]]
      else MovedBlock(buf, f + 1, f, index)
    else
      if p > l then MovedBlock(MovedBlock(buf, p, p + 1, c - p), 1, 0, l)[c := buf[0]]
      else MovedBlock(buf, p, p + 1, l - p)
  }

  function RemovedFirst(first: nat, size: nat, index: nat, capacity: nat): nat {
    if FrontHalf(size, index) then Slot(first, 1, capacity) else first
  }

  /**
    When the back half is shifted and the removed element lies beyond the end of the contents in
    the buffer, the elements at the start of the buffer are shifted the wrong way.
   */
  predicate ShiftsWrong(first: nat, size: nat, index: nat, capacity: nat) {
    && !FrontHalf(size, index) && Slot(first, index, capacity) > Slot(first, size, capacity)
    && (Slot(first, size, capacity) > 1 || (Slot(first, size, capacity) == 1 && first == 1))
  }

  /** Where the element that ends up `i`th comes from. */
  lemma RemovedSlot(buf: seq<Ptr>, first: nat, size: nat, index: nat, i: nat)
    requires first < |buf| && size <= |buf| && 0 < index < size && index != |buf| - 1
    requires !ShiftsWrong(first, size, index, |buf|) && i < size - 1
    ensures RemovedBuffer(buf, first, size, index)[Slot(RemovedFirst(first, size, index, |buf|), i, |buf|)]
      == buf[Slot(first, if i < index then i else i + 1, |buf|)]
  {
    hide RemovedBuffer;
    if FrontHalf(size, index) {
      RemovedSlotFront(buf, first, size, index, i);
    } else {
      RemovedSlotBack(buf, first, size, index, i);
    }
  }

  lemma RemovedSlotFront(buf: seq<Ptr>, first: nat, size: nat, index: nat, i: nat)
    requires first < |buf| && size <= |buf| && 0 < index < size && index != |buf| - 1
    requires FrontHalf(size, index) && i < size - 1
    ensures RemovedBuffer(buf, first, size, index)[Slot(RemovedFirst(first, size, index, |buf|), i, |buf|)]
      == buf[Slot(first, if i < index then i else i + 1, |buf|)]
  {
    hide MovedBlock;
    var (c, f, p) := (|buf| - 1, first, Slot(first, index, |buf|));
    var k := Slot(Slot(first, 1, |buf|), i, |buf|);
    if p < f {
      var b1 := MovedBlock(buf, f + 1, f, c - f);
      MovedAt(b1, 1, 0, p, k);
      MovedAt(buf, f + 1, f, c - f, k);
      if k > 0 { MovedAt(buf, f + 1, f, c - f, k - 1); }
    } else {
      MovedAt(buf, f + 1, f, index, k);
    }
  }

  lemma RemovedSlotBack(buf: seq<Ptr>, first: nat, size: nat, index: nat, i: nat)
    requires first < |buf| && size <= |buf| && 0 < index < size && index != |buf| - 1
    requires !FrontHalf(size, index) && !ShiftsWrong(first, size, index, |buf|) && i < size - 1
    ensures RemovedBuffer(buf, first, size, index)[Slot(RemovedFirst(first, size, index, |buf|), i, |buf|)]
      == buf[Slot(first, if i < index then i else i + 1, |buf|)]
  {
    hide MovedBlock;
    var (c, l, p) := (|buf| - 1, Slot(first, size, |buf|), Slot(first, index, |buf|));
    var k := Slot(first, i, |buf|);
    if p > l {
      var b1 := MovedBlock(buf, p, p + 1, c - p);
      MovedAt(b1, 1, 0, l, k);
      MovedAt(buf, p, p + 1, c - p, k);
      if k > 0 { MovedAt(buf, p, p + 1, c - p, k - 1); }
    } else {
      MovedAt(buf, p, p + 1, l - p, k);
    }
  }

  lemma RemovedRight(buf: seq<Ptr>, first: nat, size: nat, index: nat)
    requires first < |buf| && size <= |buf| && 0 < index < size && index != |buf| - 1
    requires !ShiftsWrong(first, size, index, |buf|)
    ensures Contents(RemovedBuffer(buf, first, size, index), RemovedFirst(first, size, index, |buf|), size - 1)
      == Without(Contents(buf, first, size), index)
  {
    hide RemovedBuffer, ShiftsWrong, Slot, Contents, Without, RemovedFirst;
    RemovedFirstFits(first, size, index, |buf|);
    var (r, f, es) := (RemovedBuffer(buf, first, size, index), RemovedFirst(first, size, index, |buf|),
                       Contents(buf, first, size));
    var (c, d) := (Contents(r, f, size - 1), Without(es, index));
    WithoutLength(es, index);
    forall i | 0 <= i < size - 1 ensures c[i] == d[i] {
      RemovedSlot(buf, first, size, index, i);
      ContentsAt(r, f, size - 1, i);
      ContentsAt(buf, first, size, if i < index then i else i + 1);
      WithoutAt(es, index, i);
    }
  }

  lemma RemovedFirstFits(first: nat, size: nat, index: nat, capacity: nat)
    requires first < capacity
    ensures RemovedFirst(first, size, index, capacity) < capacity
  {
  }

  lemma ContentsAt(buf: seq<Ptr>, first: nat, size: nat, i: nat)
    requires first < |buf| && i < size <= |buf|
    ensures Slot(first, i, |buf|) < |buf| && Contents(buf, first, size)[i] == buf[Slot(first, i, |buf|)]
  {
  }

  /**
    What the wrong shift leaves when `m` elements lay at the end of the buffer: the element that came
    next is doubled, the rest follow one place late and the last is lost; in a full buffer it
    overwrites the first.
   */
  lemma ShiftedWrongly(buf: seq<Ptr>, first: nat, size: nat, index: nat)
    requires first < |buf| && size <= |buf| && 0 < index < size && index != |buf| - 1
    requires ShiftsWrong(first, size, index, |buf|)
    ensures |buf| - first < size && RemovedFirst(first, size, index, |buf|) == first
    ensures var (es, m) := (Contents(buf, first, size), |buf| - first);
      Contents(RemovedBuffer(buf, first, size, index), first, size - 1) ==
        seq(size - 1, i requires 0 <= i < size - 1 =>
          if i == 0 && size == |buf| then es[size - 1]
          else if i < index then es[i]
          else if i < m then es[i + 1]
          else if i == m then es[m]
          else es[i - 1])
  {
    hide RemovedBuffer;
    ShiftedSlot(buf, first, size, index, 0);
    var (es, m) := (Contents(buf, first, size), |buf| - first);
    var c := Contents(RemovedBuffer(buf, first, size, index), first, size - 1);
    forall i | 0 <= i < size - 1
      ensures c[i] == es[if i == 0 && size == |buf| then size - 1
                         else if i < index then i else if i < m then i + 1 else if i == m then m else i - 1]
    {
      ShiftedSlot(buf, first, size, index, i);
    }
  }

  lemma ShiftedSlot(buf: seq<Ptr>, first: nat, size: nat, index: nat, i: nat)
    requires first < |buf| && size <= |buf| && 0 < index < size && index != |buf| - 1
    requires ShiftsWrong(first, size, index, |buf|) && i < size - 1
    ensures var m := |buf| - first;
      var j := if i == 0 && size == |buf| then size - 1
        else if i < index then i else if i < m then i + 1 else if i == m then m else i - 1;
      && m < size && j < size
      && RemovedBuffer(buf, first, size, index)[Slot(first, i, |buf|)] == buf[Slot(first, j, |buf|)]
  {
    hide MovedBlock;
    var (c, l, p, k) := (|buf| - 1, Slot(first, size, |buf|), Slot(first, index, |buf|), Slot(first, i, |buf|));
    var b1 := MovedBlock(buf, p, p + 1, c - p);
    MovedAt(b1, 1, 0, l, k);
    MovedAt(buf, p, p + 1, c - p, k);
    if k > 0 { MovedAt(buf, p, p + 1, c - p, k - 1); }
  }

  /** What the wrong shift leaves in a buffer that held its own slot numbers. */
  lemma WrongShift(buf: seq<Ptr>, first: nat, size: nat, index: nat)
    requires first < |buf| && size <= |buf| && 0 < index < size && index != |buf| - 1
    requires ShiftsWrong(first, size, index, |buf|) && forall k :: 0 <= k < |buf| ==> buf[k] == k
    ensures var r := RemovedBuffer(buf, first, size, index);
            var j := if Slot(first, size, |buf|) > 1 then |buf| - first else 0;
      && j < size - 1 && RemovedFirst(first, size, index, |buf|) == first
      && r[Slot(first, j, |buf|)] == 0 && buf[Slot(first, if j < index then j else j + 1, |buf|)] == 1
  {
    hide MovedBlock;
    var (c, l, p) := (|buf| - 1, Slot(first, size, |buf|), Slot(first, index, |buf|));
    var b1 := MovedBlock(buf, p, p + 1, c - p);
    var k := if l > 1 then 0 else 1;
    MovedAt(b1, 1, 0, l, k);
    MovedAt(buf, p, p + 1, c - p, 0);
  }

  /** `cc_deque_remove_at` deletes the element whatever the buffer holds, except in the wrong shift. */
  lemma RemoveAtExact(capacity: nat, first: nat, size: nat, index: nat)
    requires first < capacity && size <= capacity && 0 < index < size && index != capacity - 1
    ensures !ShiftsWrong(first, size, index, capacity) <==>
      forall buf: seq<Ptr> :: |buf| == capacity ==> RemovesRight(buf, first, size, index)
  {
    hide RemovedBuffer, Contents, Without, Slot, RemovesRight;
    if ShiftsWrong(first, size, index, capacity) {
      var buf: seq<Ptr> := seq(capacity, i => i);
      NotRight(buf, first, size, index);
    } else {
      forall buf: seq<Ptr> | |buf| == capacity ensures RemovesRight(buf, first, size, index) {
        IsRight(buf, first, size, index);
      }
    }
  }

  ghost predicate RemovesRight(buf: seq<Ptr>, first: nat, size: nat, index: nat)
    requires first < |buf| && size <= |buf| && 0 < index < size && index != |buf| - 1
  {
    Contents(RemovedBuffer(buf, first, size, index), RemovedFirst(first, size, index, |buf|), size - 1)
      == Without(Contents(buf, first, size), index)
  }

  lemma IsRight(buf: seq<Ptr>, first: nat, size: nat, index: nat)
    requires first < |buf| && size <= |buf| && 0 < index < size && index != |buf| - 1
    requires !ShiftsWrong(first, size, index, |buf|)
    ensures RemovesRight(buf, first, size, index)
  {
    RemovedRight(buf, first, size, index);
  }

  lemma NotRight(buf: seq<Ptr>, first: nat, size: nat, index: nat)
    requires first < |buf| && size <= |buf| && 0 < index < size && index != |buf| - 1
    requires ShiftsWrong(first, size, index, |buf|) && forall k :: 0 <= k < |buf| ==> buf[k] == k
    ensures !RemovesRight(buf, first, size, index)
  {
    hide RemovedBuffer, ShiftsWrong;
    WrongShift(buf, first, size, index);
    var j := if Slot(first, size, |buf|) > 1 then |buf| - first else 0;
    assert Contents(RemovedBuffer(buf, first, size, index), first, size - 1)[j] == 0;
    assert Without(Contents(buf, first, size), index)[j] == 1;
  }

  /** Contents that do not wrap around are never shifted wrongly, and stay so. */
  lemma NoWrapSafe(first: nat, size: nat, index: nat, capacity: nat)
    requires first + size <= capacity && 0 < index < size && index != capacity - 1
    ensures !ShiftsWrong(first, size, index, capacity)
    ensures RemovedFirst(first, size, index, capacity) + (size - 1) <= capacity
  {
  }

  // ---------- Filtering ----------

  /** Dropping an element that fails the test does not change what is kept. */
  lemma {:induction false} FilteredDrop(pred: Ptr -> bool, s: seq<Ptr>, i: nat)
    requires i < |s| && !pred(s[i])
    ensures Filtered(pred, Without(s, i)) == Filtered(pred, s)
  {
    if i > 0 {
      FilteredDrop(pred, s[1..], i - 1);
      assert Without(s, i)[1..] == Without(s[1..], i - 1);
    } else {
      assert Without(s, 0) == s[1..];
    }
  }

  /** A buffer with the place of its first element and the number of its elements. */
  datatype Ring = Ring(buf: seq<Ptr>, first: nat, size: nat)

  predicate RingOk(r: Ring) {
    r.first < |r.buf| && r.size <= |r.buf|
  }

  /** The ring after `cc_deque_remove_at`. */
  function RemovedRing(r: Ring, index: nat): (r': Ring)
    requires RingOk(r) && index < r.size
    ensures RingOk(r') && |r'.buf| == |r.buf| && r'.size == r.size - 1
  {
    if index == 0 then Ring(r.buf, Slot(r.first, 1, |r.buf|), r.size - 1)
    else if index == |r.buf| - 1 then Ring(r.buf, r.first, r.size - 1)
    else Ring(RemovedBuffer(r.buf, r.first, r.size, index), RemovedFirst(r.first, r.size, index, |r.buf|), r.size - 1)
  }

  /** The ring after `cc_deque_filter_mut` has gone on from index `i`. */
  function FilteredRing(pred: Ptr -> bool, r: Ring, i: nat): (r': Ring)
    requires RingOk(r)
    ensures RingOk(r')
    decreases r.size - i
  {
    if i >= r.size then r
    else if !pred(r.buf[Slot(r.first, i, |r.buf|)]) then FilteredRing(pred, RemovedRing(r, i), i)
    else FilteredRing(pred, r, i + 1)
  }

  function ContentsOf(r: Ring): (es: seq<Ptr>)
    requires RingOk(r)
    ensures |es| == r.size
  {
    Contents(r.buf, r.first, r.size)
  }

  lemma RemovedRingRight(r: Ring, index: nat)
    requires RingOk(r) && index < r.size
    requires index == 0 || index == |r.buf| - 1 || !ShiftsWrong(r.first, r.size, index, |r.buf|)
    ensures ContentsOf(RemovedRing(r, index)) == Without(ContentsOf(r), index)
  {
    hide RemovedBuffer, ShiftsWrong;
    if index == 0 {
      RemoveFirstContents(r.buf, r.first, r.size);
    } else if index == |r.buf| - 1 {
      RemoveLastContents(r.buf, r.first, r.size);
    } else {
      RemovedRight(r.buf, r.first, r.size, index);
    }
  }

  /**
    The ring after any removal, in plain terms: where its first slot is, and which elements it holds.
    `p` and `l` are the slots of the removed element and after the last one.
   */
  lemma RemovedRingExact(r: Ring, index: nat)
    requires RingOk(r) && index < r.size
    ensures var (es, f, n, c) := (ContentsOf(r), r.first, r.size, |r.buf|);
      var (p, l) := (if f + index < c then f + index else f + index - c, if f + n < c then f + n else f + n - c);
      var forward := index == 0 || (index != c - 1 && index + 1 <= n / 2);
      var wrong := index != 0 && index != c - 1 && !forward && p > l && (l > 1 || (l == 1 && f == 1));
      && RemovedRing(r, index).first == (if !forward then f else if f + 1 < c then f + 1 else 0)
      && (!wrong ==> ContentsOf(RemovedRing(r, index)) == es[..index] + es[index + 1..])
      && (wrong ==>
            && c - f < n
            && ContentsOf(RemovedRing(r, index)) == seq(n - 1, i requires 0 <= i < n - 1 =>
                if i == 0 && n == c then es[n - 1]
                else if i < index then es[i]
                else if i < c - f then es[i + 1]
                else if i == c - f then es[c - f]
                else es[i - 1]))
  {
    hide RemovedBuffer, Contents;
    if index == 0 || index == |r.buf| - 1 || !ShiftsWrong(r.first, r.size, index, |r.buf|) {
      RemovedRingRight(r, index);
    } else {
      ShiftedWrongly(r.buf, r.first, r.size, index);
    }
  }

  /**
    Some removal during a filter may shift the wrong way: the contents wrap, at least two of them
    (or, in a full buffer, one) lie at its start, and the others reach beyond the middle.
   */
  predicate FilterMayShift(first: nat, size: nat, capacity: nat) {
    && first + size > capacity
    && (first + size - capacity > 1 || first == 1)
    && capacity - first - 1 >= size / 2
  }

  /** No wrong shift lies ahead of a filter that has reached index `i`. */
  predicate SafeFrom(first: nat, size: nat, capacity: nat, i: nat) {
    first + size <= capacity || first + i >= capacity || !FilterMayShift(first, size, capacity)
  }

  lemma SafeStep(r: Ring, i: nat)
    requires RingOk(r) && i < r.size && SafeFrom(r.first, r.size, |r.buf|, i)
    ensures i == 0 || i == |r.buf| - 1 || !ShiftsWrong(r.first, r.size, i, |r.buf|)
    ensures var r' := RemovedRing(r, i); SafeFrom(r'.first, r'.size, |r.buf|, i)
  {
    hide RemovedBuffer;
  }

  lemma {:induction false} FilteredRingRight(pred: Ptr -> bool, r: Ring, i: nat)
    requires RingOk(r) && i <= r.size && SafeFrom(r.first, r.size, |r.buf|, i)
    requires forall k :: 0 <= k < i ==> pred(ContentsOf(r)[k])
    ensures ContentsOf(FilteredRing(pred, r, i)) == Filtered(pred, ContentsOf(r))
    decreases r.size - i
  {
    hide Without, SafeFrom, ShiftsWrong, RemovedRing, Filtered;
    var es := ContentsOf(r);
    if i == r.size {
      FilteredAll(pred, es);
    } else if !pred(es[i]) {
      SafeStep(r, i);
      RemovedRingRight(r, i);
      FilteredDrop(pred, es, i);
      WithoutPrefix(es, i);
      FilteredRingRight(pred, RemovedRing(r, i), i);
    } else {
      SafeOn(r, i);
      FilteredRingRight(pred, r, i + 1);
    }
  }

  lemma SafeOn(r: Ring, i: nat)
    requires SafeFrom(r.first, r.size, |r.buf|, i)
    ensures SafeFrom(r.first, r.size, |r.buf|, i + 1)
  {
  }

  lemma WithoutPrefix(s: seq<Ptr>, i: nat)
    requires i < |s|
    ensures |Without(s, i)| == |s| - 1 && forall k :: 0 <= k < i ==> Without(s, i)[k] == s[k]
  {
  }

  lemma {:induction false} FilteredRingSkip(pred: Ptr -> bool, r: Ring, i: nat, j: nat)
    requires RingOk(r) && i <= j <= r.size && forall k :: i <= k < j ==> pred(ContentsOf(r)[k])
    ensures FilteredRing(pred, r, i) == FilteredRing(pred, r, j)
    decreases j - i
  {
    hide FilteredRing;
    if i < j {
      FilteredRingPass(pred, r, i);
      FilteredRingSkip(pred, r, i + 1, j);
    }
  }

  lemma FilteredRingPass(pred: Ptr -> bool, r: Ring, i: nat)
    requires RingOk(r) && i < r.size && pred(ContentsOf(r)[i])
    ensures FilteredRing(pred, r, i) == FilteredRing(pred, r, i + 1)
  {
    hide RemovedRing;
  }

  ghost predicate FiltersRight(pred: Ptr -> bool, buf: seq<Ptr>, first: nat, size: nat)
    requires first < |buf| && size <= |buf|
  {
    ContentsOf(FilteredRing(pred, Ring(buf, first, size), 0)) == Filtered(pred, Contents(buf, first, size))
  }

  /** A filter that drops only the element in the last slot of a buffer of slot numbers goes wrong. */
  lemma FilterGoesWrong(buf: seq<Ptr>, first: nat, size: nat)
    requires first < |buf| && size <= |buf| && FilterMayShift(first, size, |buf|)
    requires forall k :: 0 <= k < |buf| ==> buf[k] == k
    ensures !FiltersRight(x => x != |buf| - 1, buf, first, size)
  {
    hide RemovedBuffer, Filtered, Without;
    var (c, j, r) := (|buf| - 1, |buf| - first - 1, Ring(buf, first, size));
    var pred := (x: Ptr) => x != c;
    var es := ContentsOf(r);
    assert es[j] == c;
    FilteredRingSkip(pred, r, 0, j);
    var r' := RemovedRing(r, j);
    LastSlotRemoved(buf, first, size);
    FilteredRingSkip(pred, r', j, r'.size);
    assert ShiftsWrong(first, size, j, |buf|);
    NotRight(buf, first, size, j);
    FilteredDrop(pred, es, j);
    OthersPass(pred, es, j);
    FilteredAll(pred, Without(es, j));
  }

  lemma OthersPass(pred: Ptr -> bool, es: seq<Ptr>, j: nat)
    requires j < |es| && forall k :: 0 <= k < |es| && k != j ==> pred(es[k])
    ensures forall k :: 0 <= k < |Without(es, j)| ==> pred(Without(es, j)[k])
  {
  }

  lemma LastSlotRemoved(buf: seq<Ptr>, first: nat, size: nat)
    requires first < |buf| && size <= |buf| && FilterMayShift(first, size, |buf|)
    requires forall k :: 0 <= k < |buf| ==> buf[k] == k
    ensures var (j, c) := (|buf| - first - 1, |buf| - 1);
      && 0 < j < size && j != c && forall k :: 0 <= k < |buf| ==> RemovedBuffer(buf, first, size, j)[k] != c
  {
    hide MovedBlock;
    var (j, c, l) := (|buf| - first - 1, |buf| - 1, Slot(first, size, |buf|));
    MovedNone(buf, c, c + 1);
    forall k | 0 <= k < |buf| ensures RemovedBuffer(buf, first, size, j)[k] != c {
      MovedAt(buf, 1, 0, l, k);
    }
  }

  /** `cc_deque_filter_mut` is the order-preserving filter of whatever there is exactly if no wrong shift can occur. */
  lemma FilterMutExact(capacity: nat, first: nat, size: nat)
    requires first < capacity && size <= capacity
    ensures !FilterMayShift(first, size, capacity) <==>
      forall pred: Ptr -> bool, buf: seq<Ptr> :: |buf| == capacity ==> FiltersRight(pred, buf, first, size)
  {
    hide FiltersRight, FilterMayShift;
    if FilterMayShift(first, size, capacity) {
      var buf: seq<Ptr> := seq(capacity, i => i);
      FilterGoesWrong(buf, first, size);
    } else {
      forall pred: Ptr -> bool, buf: seq<Ptr> | |buf| == capacity ensures FiltersRight(pred, buf, first, size) {
        FilterGoesRight(pred, buf, first, size);
      }
    }
  }

  lemma FilterGoesRight(pred: Ptr -> bool, buf: seq<Ptr>, first: nat, size: nat)
    requires first < |buf| && size <= |buf| && !FilterMayShift(first, size, |buf|)
    ensures FiltersRight(pred, buf, first, size)
  {
    FilteredRingRight(pred, Ring(buf, first, size), 0);
  }

  /** A wrapped buffer in which removing the element 6 loses the element 9 and doubles the element 8. */
  lemma WrongShiftExample(buf: seq<Ptr>)
    requires |buf| == 8 && Contents(buf, 3, 7) == [3, 4, 5, 6, 7, 8, 9]
    ensures ShiftsWrong(3, 7, 3, 8) && FilterMayShift(3, 7, 8)
    ensures ContentsOf(RemovedRing(Ring(buf, 3, 7), 3)) == [3, 4, 5, 7, 8, 8]
  {
    hide MovedBlock;
    assert buf[3] == 3 && buf[4] == 4 && buf[5] == 5 && buf[7] == 7 && buf[0] == 8 && buf[1] == 9 by {
      ContentsAt(buf, 3, 7, 0);
      ContentsAt(buf, 3, 7, 1);
      ContentsAt(buf, 3, 7, 2);
      ContentsAt(buf, 3, 7, 4);
      ContentsAt(buf, 3, 7, 5);
      ContentsAt(buf, 3, 7, 6);
    }
    var b1 := MovedBlock(buf, 6, 7, 1);
    forall k | 0 <= k < 8 ensures b1[k] == MovedItem(buf, 6, 7, 1, k) { MovedAt(buf, 6, 7, 1, k); }
    var b2 := MovedBlock(b1, 1, 0, 2);
    forall k | 0 <= k < 8 ensures b2[k] == MovedItem(b1, 1, 0, 2, k) { MovedAt(b1, 1, 0, 2, k); }
    var r := RemovedRing(Ring(buf, 3, 7), 3);
    assert r == Ring(b2[7 := buf[0]], 3, 6);
    assert r.buf[3] == 3 && r.buf[4] == 4 && r.buf[5] == 5 && r.buf[6] == 7 && r.buf[7] == 8 && r.buf[0] == 8;
  }
}
