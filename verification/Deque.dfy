/** The deque: a power-of-two ring buffer with masked indices, and the queue built on it. */
module Deques {
  import opened Common
  import opened Words
  import opened ListSpec
  import opened Rings

  class Deque {
    var size: nat
    var capacity: nat
    var first: nat
    var last: nat
    var buffer: array<Ptr>

    ghost predicate Valid()
      reads this, buffer
    {
      && IsPow2(capacity) && capacity == buffer.Length
      && first < capacity && size <= capacity && last == Slot(first, size, capacity)
    }

    /** The elements from the first to the last. */
    ghost function Elements(): (es: seq<Ptr>)
      requires Valid()
      reads this, buffer
      ensures |es| == size
    {
      PowPositive(capacity);
      Contents(buffer[..], first, size)
    }

    ghost function AsRing(): (r: Ring)
      requires Valid()
      reads this, buffer
      ensures RingOk(r)
    {
      PowPositive(capacity);
      Ring(buffer[..], first, size)
    }

    /**
      `cc_deque_new_conf` allocates the unrounded capacity: the deque can be used exactly if that
      was a power of two already.
     */
    constructor (confCapacity: nat)
      ensures Valid() <==> IsPow2(confCapacity)
      ensures Valid() ==> Elements() == []
      ensures if confCapacity < MAX_POW_TWO then LeastPow2(confCapacity, capacity) else capacity == MAX_POW_TWO
      ensures fresh(buffer) && buffer.Length == confCapacity && first == last == size == 0
    {
      hide Pow2, LeastPow2, IsPow2;
      buffer := new Ptr[confCapacity](_ => NULL);
      var c := UpperPowTwo(confCapacity);
      RoundedPow2(confCapacity, c);
      capacity := c;
      first, last, size := 0, 0, 0;
    }

    lemma LastSlot()
      requires Valid()
      ensures capacity > 0 && last == Slot(first, size, capacity) == (first + size) % capacity < capacity
    {
      PowPositive(capacity);
      SlotIsMod(first, size, capacity);
    }

    /** `copy_buffer` without a copy function: the elements come to lie from slot 0 on. */
    method CopyBuffer(buff: array<Ptr>)
      requires Valid() && buff != buffer && buff.Length >= capacity
      modifies buff
      ensures Contents(buff[..], 0, size) == Elements()
    {
      hide IsPow2, Contents;
      PowPositive(capacity);
      if last > first {
        MemCopy(buff, 0, buffer, first, size);
        assert buff[..size] == buffer[first..first + size];
      } else {
        var l, e := last, capacity - first;
        MemCopy(buff, 0, buffer, first, e);
        MemCopy(buff, e, buffer, 0, l);
        assert buff[..e] == buffer[first..] && buff[e..e + l] == buffer[..l];
      }
      Realigned(buffer[..], first, size, buff[..]);
    }

    /** `expand_capacity`. */
    method ExpandCapacity() returns (stat: Stat)
      requires Valid()
      modifies this
      ensures Valid() && Elements() == old(Elements()) && size == old(size)
      ensures stat == if old(capacity) == MAX_POW_TWO then CC_ERR_MAX_CAPACITY else CC_OK
      ensures if stat == CC_OK then capacity == 2 * old(capacity) && first == 0 && fresh(buffer) else unchanged(this)
    {
      hide IsPow2, Contents, Mask, Pow2, Pred;
      PowPositive(capacity);
      if capacity == MAX_POW_TWO {
        return CC_ERR_MAX_CAPACITY;
      }
      DoublePow2(capacity);
      var newCapacity := capacity * 2;
      var newBuffer := new Ptr[newCapacity](_ => NULL);
      CopyBuffer(newBuffer);
      first := 0;
      last := size;
      capacity := newCapacity;
      buffer := newBuffer;
      MaskSlot(0, size, capacity);
      return CC_OK;
    }

    /** `cc_deque_add_first`. */
    method AddFirst(element: Ptr) returns (stat: Stat)
      requires Valid()
      modifies this, buffer
      ensures Valid() && (buffer == old(buffer) || fresh(buffer))
      ensures stat == if old(size) == old(capacity) == MAX_POW_TWO then CC_ERR_ALLOC else CC_OK
      ensures Elements() == if stat == CC_OK then [element] + old(Elements()) else old(Elements())
      ensures stat != CC_OK ==> unchanged(this) && unchanged(buffer)
      ensures capacity == if stat == CC_OK && old(size) == old(capacity) then 2 * old(capacity) else old(capacity)
      ensures stat == CC_OK ==>
        && size == old(size) + 1
        && first == if old(size) == old(capacity) || old(first) == 0 then capacity - 1 else old(first) - 1
    {
      hide IsPow2, Contents, Mask, Pow2, Pred;
      PowPositive(capacity);
      if size >= capacity {
        stat := ExpandCapacity();
        if stat != CC_OK {
          return CC_ERR_ALLOC;
        }
      }
      MaskPred(first, capacity);
      AddFirstContents(buffer[..], first, size, element);
      ghost var f, b := first, buffer[..];
      first := Mask(Pred(first), capacity);
      buffer[first] := element;
      assert buffer[..] == b[first := element];
      LastAfterFirst(f, size, capacity);
      size := size + 1;
      return CC_OK;
    }

    /** `cc_deque_add_last`. */
    method AddLast(element: Ptr) returns (stat: Stat)
      requires Valid()
      modifies this, buffer
      ensures Valid() && (buffer == old(buffer) || fresh(buffer))
      ensures stat == if old(size) == old(capacity) == MAX_POW_TWO then CC_ERR_ALLOC else CC_OK
      ensures Elements() == if stat == CC_OK then old(Elements()) + [element] else old(Elements())
      ensures stat == CC_OK ==> size == old(size) + 1
      ensures stat != CC_OK ==> unchanged(this) && unchanged(buffer)
      ensures old(size) < old(capacity) ==> buffer == old(buffer)
      ensures capacity == if stat == CC_OK && old(size) == old(capacity) then 2 * old(capacity) else old(capacity)
      ensures stat == CC_OK ==> first == if old(size) == old(capacity) then 0 else old(first)
    {
      hide IsPow2, Contents, Mask, Pow2, Pred;
      PowPositive(capacity);
      if capacity == size {
        stat := ExpandCapacity();
        if stat != CC_OK {
          return CC_ERR_ALLOC;
        }
      }
      AddLastContents(buffer[..], first, size, element);
      ghost var b := buffer[..];
      buffer[last] := element;
      assert buffer[..] == b[last := element];
      MaskSlot(last, 1, capacity);
      MaskSlot(first, size + 1, capacity);
      last := Mask(last + 1, capacity);
      size := size + 1;
      return CC_OK;
    }

    /** `cc_deque_remove_first`. */
    method RemoveFirst() returns (stat: Stat, out: Ptr)
      requires Valid()
      modifies this`first, this`size
      ensures Valid()
      ensures stat == if old(size) == 0 then CC_ERR_OUT_OF_RANGE else CC_OK
      ensures stat == CC_OK ==> out == old(Elements())[0] && Elements() == old(Elements())[1..]
      ensures stat == CC_OK ==> first == Slot(old(first), 1, capacity) && size == old(size) - 1
      ensures stat != CC_OK ==> unchanged(this)
    {
      hide IsPow2, Contents, Mask, Pow2, Pred;
      PowPositive(capacity);
      if size == 0 {
        return CC_ERR_OUT_OF_RANGE, NULL;
      }
      MaskSlot(first, 1, capacity);
      MaskSlot(first, size, capacity);
      RemoveFirstContents(buffer[..], first, size);
      MaskSlot(Slot(first, 1, capacity), size - 1, capacity);
      var element := buffer[first];
      first := Mask(first + 1, capacity);
      size := size - 1;
      return CC_OK, element;
    }

    /** `cc_deque_remove_last`. */
    method RemoveLast() returns (stat: Stat, out: Ptr)
      requires Valid()
      modifies this`last, this`size
      ensures Valid()
      ensures stat == if old(size) == 0 then CC_ERR_OUT_OF_RANGE else CC_OK
      ensures stat == CC_OK ==> out == old(Elements())[old(size) - 1] && Elements() == old(Elements())[..old(size) - 1]
      ensures stat != CC_OK ==> unchanged(this)
    {
      hide IsPow2, Contents, Mask, Pow2, Pred;
      PowPositive(capacity);
      if size == 0 {
        return CC_ERR_OUT_OF_RANGE, NULL;
      }
      MaskPred(last, capacity);
      MaskSlot(first, size - 1, capacity);
      RemoveLastContents(buffer[..], first, size);
      var l := Mask(Pred(last), capacity);
      var element := buffer[l];
      last := l;
      size := size - 1;
      return CC_OK, element;
    }

    /** `cc_deque_reverse`. */
    method Reverse()
      requires Valid()
      modifies buffer
      ensures Valid() && Elements() == Reversed(old(Elements()))
    {
      hide IsPow2, Reversed, HalfReversed, Contents, Mask, Pow2, Slot;
      PowPositive(capacity);
      ghost var es := Elements();
      HalfReversedEnds(es);
      var s := size;
      var i, j := 0, Pred(s);
      while i < s / 2
        invariant i <= s / 2 && (s > 0 ==> j == s - 1 - i)
        invariant Contents(buffer[..], first, size) == HalfReversed(es, i)
      {
        HalfReversedStep(es, i);
        SwapContents(buffer[..], first, size, i, j);
        MaskSlot(first, i, capacity);
        MaskSlot(first, j, capacity);
        var f, l := Mask(first + i, capacity), Mask(first + j, capacity);
        ghost var b := buffer[..];
        var tmp := buffer[f];
        buffer[f] := buffer[l];
        buffer[l] := tmp;
        assert buffer[..] == b[f := b[l]][l := b[f]];
        i := i + 1;
        j := j - 1;
      }
    }

    /** `cc_deque_remove_at`: the element is deleted, unless the buffer is shifted the wrong way. */
    method RemoveAt(index: nat) returns (stat: Stat, out: Ptr)
      requires Valid()
      modifies this, buffer
      ensures Valid() && buffer == old(buffer) && capacity == old(capacity)
      ensures stat == if index < old(size) then CC_OK else CC_ERR_OUT_OF_RANGE
      ensures stat != CC_OK ==> unchanged(this) && unchanged(buffer)
      ensures stat == CC_OK ==> out == old(Elements())[index] && AsRing() == RemovedRing(old(AsRing()), index)
      ensures var (es, f, n, c) := (old(Elements()), old(first), old(size), old(capacity));
        var (p, l) := (if f + index < c then f + index else f + index - c, if f + n < c then f + n else f + n - c);
        var forward := index == 0 || (index != c - 1 && index + 1 <= n / 2);
        var wrong := index != 0 && index != c - 1 && !forward && p > l && (l > 1 || (l == 1 && f == 1));
        stat == CC_OK ==>
          && first == (if !forward then f else if f + 1 < c then f + 1 else 0)
          && (!wrong ==> Elements() == es[..index] + es[index + 1..])
          && (wrong ==>
                && c - f < n
                && Elements() == seq(n - 1, i requires 0 <= i < n - 1 =>
                    if i == 0 && n == c then es[n - 1]
                    else if i < index then es[i]
                    else if i < c - f then es[i + 1]
                    else if i == c - f then es[c - f]
                    else es[i - 1]))
    {
      hide IsPow2, Contents, Mask, Pow2, Pred, RemovedBuffer, ShiftsWrong;
      PowPositive(capacity);
      if index >= size {
        return CC_ERR_OUT_OF_RANGE, NULL;
      }
      MaskSlot(first, index, capacity);
      ElementAt(index);
      RemovedRingExact(AsRing(), index);
      MaskSmall(first, capacity);
      MaskSmall(last, capacity);
      var c := capacity - 1;
      var l, f, p := Mask(last, capacity), Mask(first, capacity), Mask(first + index, capacity);
      var removed := buffer[p];
      if index == 0 {
        stat, out := RemoveFirst();
        return;
      }
      if index == c {
        stat, out := RemoveLast();
        return;
      }
      RemoveInside(index, c, l, f, p);
      return CC_OK, removed;
    }

    /** The shifting part of `cc_deque_remove_at`. */
    method RemoveInside(index: nat, c: nat, l: nat, f: nat, p: nat)
      requires Valid() && 0 < index < size && index != c && c == capacity - 1
      requires f == first && l == last == Slot(first, size, capacity) && p == Slot(first, index, capacity) < capacity
      modifies this, buffer
      ensures Valid() && buffer == old(buffer) && capacity == old(capacity) && size == old(size) - 1
      ensures buffer[..] == RemovedBuffer(old(buffer[..]), old(first), old(size), index)
      ensures first == RemovedFirst(old(first), old(size), index, capacity)
    {
      hide RemovedBuffer, IsPow2, Mask, Pow2, Contents, Pred;
      PowPositive(capacity);
      MaskSlot(first, 1, capacity);
      MaskPred(last, capacity);
      if index <= size / 2 - 1 {
        ShiftFront(index, c, l, f, p);
        first := Mask(first + 1, capacity);
      } else {
        ShiftBack(index, c, l, f, p);
        last := Mask(Pred(last), capacity);
      }
      size := size - 1;
    }

    method ShiftFront(index: nat, c: nat, ghost l: nat, f: nat, p: nat)
      requires buffer.Length == capacity && first < capacity && 0 < index < size <= capacity && index != c
      requires c == capacity - 1
      requires f == first && l == Slot(first, size, capacity) && p == Slot(first, index, capacity)
      requires FrontHalf(size, index)
      modifies buffer
      ensures buffer[..] == RemovedBuffer(old(buffer[..]), first, size, index)
    {
      hide MovedBlock;
      ghost var b := buffer[..];
      if p < f {
        var e := buffer[c];
        MovedNone(b, f, f);
        if f != c {
          MemMove(buffer, f + 1, f, c - f);
        }
        ghost var b1 := MovedBlock(b, f + 1, f, c - f);
        assert buffer[..] == b1 by { if f == c { MovedNone(b, f + 1, f); } }
        MovedNone(b1, 1, 0);
        if p != 0 {
          MemMove(buffer, 1, 0, p);
        }
        ghost var b2 := MovedBlock(b1, 1, 0, p);
        assert buffer[..] == b2;
        buffer[0] := e;
        assert buffer[..] == b2[0 := b[c]];
      } else {
        MemMove(buffer, f + 1, f, index);
      }
    }

    method ShiftBack(index: nat, c: nat, l: nat, ghost f: nat, p: nat)
      requires buffer.Length == capacity && first < capacity && 0 < index < size <= capacity && index != c
      requires c == capacity - 1
      requires f == first && l == Slot(first, size, capacity) && p == Slot(first, index, capacity)
      requires !FrontHalf(size, index)
      modifies buffer
      ensures buffer[..] == RemovedBuffer(old(buffer[..]), first, size, index)
    {
      hide MovedBlock;
      ghost var b := buffer[..];
      if p > l {
        var e := buffer[0];
        if p != c {
          MemMove(buffer, p, p + 1, c - p);
        }
        ghost var b1 := MovedBlock(b, p, p + 1, c - p);
        assert buffer[..] == b1 by { if p == c { MovedNone(b, p, p + 1); } }
        if p != 0 {
          MemMove(buffer, 1, 0, l);
        }
        ghost var b2 := MovedBlock(b1, 1, 0, l);
        assert buffer[..] == b2;
        buffer[c] := e;
        assert buffer[..] == b2[c := b[0]];
      } else {
        MemMove(buffer, p, p + 1, l - p);
      }
    }

    /** `cc_deque_filter_mut`. */
    method FilterMut(pred: Ptr -> bool) returns (stat: Stat)
      requires Valid()
      modifies this, buffer
      ensures Valid()
      ensures stat == if old(size) == 0 then CC_ERR_OUT_OF_RANGE else CC_OK
      ensures AsRing() == FilteredRing(pred, old(AsRing()), 0)
      ensures !FilterMayShift(old(first), old(size), old(capacity)) ==> Elements() == Filtered(pred, old(Elements()))
    {
      hide IsPow2, Contents, Mask, Pow2, Pred, Filtered, RemovedBuffer, RemovedRing, FilteredRing, FilterMayShift;
      ghost var r := AsRing();
      PowPositive(capacity);
      if !FilterMayShift(first, size, capacity) { FilteredRingRight(pred, r, 0); }
      FilteredRingStep(pred, r, 0);
      if size == 0 {
        return CC_ERR_OUT_OF_RANGE;
      }
      var i, c := 0, capacity - 1;
      while i < size
        invariant Valid() && buffer == old(buffer) && capacity == c + 1 == |r.buf| && i <= size
        invariant FilteredRing(pred, AsRing(), i) == FilteredRing(pred, r, 0)
        decreases size - i
      {
        MaskSlot(first, i, capacity);
        var d := Mask(first + i, capacity);
        FilteredRingStep(pred, AsRing(), i);
        if !pred(buffer[d]) {
          var _, _ := RemoveAt(i);
        } else {
          i := i + 1;
        }
      }
      FilteredRingStep(pred, AsRing(), i);
      return CC_OK;
    }

    lemma ElementAt(i: nat)
      requires Valid() && i < size
      ensures Slot(first, i, capacity) < capacity && Elements()[i] == buffer[Slot(first, i, capacity)]
    {
      PowPositive(capacity);
    }
  }

  lemma FilteredRingStep(pred: Ptr -> bool, r: Ring, i: nat)
    requires RingOk(r)
    ensures FilteredRing(pred, r, i) ==
      if i >= r.size then r
      else if !pred(r.buf[Slot(r.first, i, |r.buf|)]) then FilteredRing(pred, RemovedRing(r, i), i)
      else FilteredRing(pred, r, i + 1)
  {
  }

  lemma PowPositive(c: nat)
    requires IsPow2(c)
    ensures c > 0
  {
  }

  /** Rounding leaves a number as it is exactly if it is a power of two. */
  lemma RoundedPow2(n: nat, c: nat)
    requires if n < MAX_POW_TWO then LeastPow2(n, c) else c == MAX_POW_TWO
    ensures IsPow2(c) && c > 0 && (c == n <==> IsPow2(n))
  {
    assert MAX_POW_TWO == Pow2(63);
    if IsPow2(n) {
      var k: nat :| k < WORD_BITS && n == Pow2(k);
      Pow2Mono(k, 63);
    }
  }

  /** Stepping the first slot back leaves the slot after the last where it was. */
  lemma LastAfterFirst(first: nat, size: nat, capacity: nat)
    requires first < capacity && size < capacity
    ensures Slot(if first == 0 then capacity - 1 else first - 1, size + 1, capacity) == Slot(first, size, capacity)
  {
  }
}
