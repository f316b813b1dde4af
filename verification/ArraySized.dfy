/** The array of fixed-size records in one byte buffer. */
module SizedArrays {
  import opened Common
  import opened ListSpec
  import opened Words
  import opened Records

  class ArraySized {
    const dataLength: nat
    const expFactor: real
    var size: nat
    var capacity: nat
    var buffer: array<Byte>

    ghost predicate Valid()
      reads this, buffer
    {
      dataLength > 0 && buffer.Length == dataLength * capacity && size <= capacity
    }

    /** The records in use. */
    ghost function Elements(): (es: seq<Record>)
      requires Valid()
      reads this, buffer
      ensures |es| == size
    {
      RecordsOf(buffer[..], dataLength, capacity)[..size]
    }

    /** `cc_array_sized_new_conf`: refuses capacities that could overflow when they grow. */
    static method Create(elementSize: nat, expFactor: real, capacity: nat) returns (stat: Stat, ar: ArraySized?)
      requires elementSize > 0
      ensures stat == if RefusesCapacity(expFactor, capacity) then CC_ERR_INVALID_CAPACITY else CC_OK
      ensures var x := if expFactor <= 1.0 then 2.0 else expFactor;
        && (stat == CC_OK <==> capacity > 0 && exists k: nat :: LeavesRoom(x, capacity, k))
        && (stat == CC_OK ==> ar != null && ar.expFactor == x)
      ensures stat != CC_OK ==> ar == null
      ensures stat == CC_OK ==>
        && fresh(ar) && fresh(ar.buffer) && ar.Valid() && ar.Elements() == []
        && ar.dataLength == elementSize && ar.capacity == capacity
    {
      hide Pow2, RecordsOf;
      RefusesExact(expFactor, capacity);
      var ex := if expFactor <= 1.0 then 2.0 else expFactor;
      if capacity == 0 || ex >= (MAX_ELEMENTS / capacity) as real {
        return CC_ERR_INVALID_CAPACITY, null;
      }
      ar := new ArraySized(elementSize, ex, capacity);
      return CC_OK, ar;
    }

    constructor (elementSize: nat, expFactor: real, capacity: nat)
      requires elementSize > 0
      ensures this.expFactor == expFactor
      ensures Valid() && Elements() == [] && dataLength == elementSize && this.capacity == capacity && fresh(buffer)
    {
      dataLength := elementSize;
      this.expFactor := expFactor;
      size := 0;
      this.capacity := capacity;
      buffer := new Byte[elementSize * capacity](_ => 0);
    }

    lemma ElementAt(i: nat)
      requires Valid() && i < size
      ensures dataLength * i + dataLength <= buffer.Length
      ensures Elements()[i] == buffer[dataLength * i..dataLength * i + dataLength]
    {
      RecordsAt(buffer[..], dataLength, capacity, i);
    }

    /** The byte-wise comparison of one record with `element`. */
    lemma ElementDiffers(i: nat, j: nat, element: Record)
      requires Valid() && i < size && j < dataLength == |element|
      ensures dataLength * i + j < buffer.Length
      ensures buffer[dataLength * i + j] != element[j] ==> Elements()[i] != element
      ensures (&& j == dataLength - 1 && buffer[dataLength * i + j] == element[j]
               && buffer[dataLength * i..dataLength * i + j] == element[..j])
        ==> Elements()[i] == element
    {
      ElementAt(i);
      assert buffer[dataLength * i + j] == buffer[dataLength * i..dataLength * i + dataLength][j];
    }

    /** `cc_array_sized_index_of`: the first record equal to the element. */
    method IndexOf(element: seq<Byte>) returns (stat: Stat, index: nat)
      requires Valid() && |element| == dataLength
      ensures stat == if element in Elements() then CC_OK else CC_ERR_OUT_OF_RANGE
      ensures stat == CC_OK ==> index < size && Elements()[index] == element && element !in Elements()[..index]
    {
      hide RecordsOf;
      var i := 0;
      while i < size
        invariant i <= size && element !in Elements()[..i]
      {
        ElementAt(i);
        var j := 0;
        while j < dataLength
          invariant j < dataLength && buffer[dataLength * i..dataLength * i + j] == element[..j]
        {
          ElementDiffers(i, j, element);
          if buffer[dataLength * i + j] != element[j] {
            break;
          }
          if j == dataLength - 1 {
            return CC_OK, i;
          }
          j := j + 1;
        }
        assert Elements()[..i + 1] == Elements()[..i] + [Elements()[i]];
        i := i + 1;
      }
      return CC_ERR_OUT_OF_RANGE, 0;
    }

    /** `cc_array_sized_contains`: how often the element occurs. */
    method Contains(element: seq<Byte>) returns (o: nat)
      requires Valid() && |element| == dataLength
      ensures o == multiset(Elements())[element]
    {
      hide RecordsOf;
      o := 0;
      var i := 0;
      while i < size
        invariant i <= size && o == multiset(Elements()[..i])[element]
      {
        ElementAt(i);
        ghost var es := Elements();
        var j := 0;
        ghost var hit := false;
        while j < dataLength
          invariant j <= dataLength && buffer[dataLength * i..dataLength * i + j] == element[..j]
          invariant hit <==> j == dataLength
          invariant hit ==> es[i] == element
          invariant o == multiset(es[..i])[element] + if hit then 1 else 0
        {
          ElementDiffers(i, j, element);
          if buffer[dataLength * i + j] != element[j] {
            break;
          }
          if j == dataLength - 1 {
            o := o + 1;
            hit := true;
          }
          j := j + 1;
        }
        assert es[..i + 1] == es[..i] + [es[i]];
        i := i + 1;
      }
      assert Elements()[..size] == Elements();
    }

    /** `cc_array_sized_swap_at`, byte by byte. */
    method SwapAt(index1: nat, index2: nat) returns (stat: Stat)
      requires Valid()
      modifies buffer
      ensures Valid() && stat == if index1 < size && index2 < size then CC_OK else CC_ERR_OUT_OF_RANGE
      ensures stat == CC_OK ==>
        Elements() == old(Elements())[index1 := old(Elements())[index2]][index2 := old(Elements())[index1]]
      ensures stat != CC_OK ==> unchanged(buffer)
    {
      if index1 >= size || index2 >= size {
        return CC_ERR_OUT_OF_RANGE;
      }
      ghost var b := buffer[..];
      Fits(buffer.Length, dataLength, capacity, index1);
      Fits(buffer.Length, dataLength, capacity, index2);
      ghost var (x, y) := (dataLength * index1, dataLength * index2);
      Apart(index1, index2);
      var i := 0;
      while i < dataLength
        invariant i <= dataLength && buffer[..] == SwappedBytes(b, x, y, i)
      {
        SwappedStep(b, x, y, i, dataLength);
        ghost var was := buffer[..];
        var tmp := buffer[dataLength * index1 + i];
        buffer[dataLength * index1 + i] := buffer[dataLength * index2 + i];
        buffer[dataLength * index2 + i] := tmp;
        assert buffer[..] == was[x + i := was[y + i]][y + i := was[x + i]];
        i := i + 1;
      }
      SwappedRecords(b, dataLength, capacity, index1, index2);
      return CC_OK;
    }

    lemma Apart(i: nat, j: nat)
      ensures i == j || dataLength * i + dataLength <= dataLength * j || dataLength * j + dataLength <= dataLength * i
    {
      if i < j { Scale(i, j, dataLength); } else { Scale(j, i, dataLength); }
    }

    /** `cc_array_sized_reverse`, through a buffer for one record. */
    method Reverse(tmp: array<Byte>)
      requires Valid() && tmp != buffer && tmp.Length >= dataLength
      modifies buffer, tmp
      ensures Valid() && Elements() == Reversed(old(Elements()))
    {
      hide RecordsOf, RecordAt, HalfReversed, Reversed;
      ghost var es := Elements();
      HalfReversedEnds(es);
      if size == 0 {
        return;
      }
      var i, j := 0, size - 1;
      while i < size / 2
        invariant i <= size / 2 && j == size - 1 - i && Elements() == HalfReversed(es, i)
      {
        HalfReversedStep(es, i);
        ghost var h := Elements();
        ElementAt(i);
        ElementAt(j);
        MemCopy(tmp, 0, buffer, dataLength * i, dataLength);
        assert tmp[..dataLength] == h[i];
        CopyWithin(i, j);
        CopyIn(j, tmp);
        i := i + 1;
        j := j - 1;
      }
    }

    method CopyWithin(i: nat, j: nat)
      requires Valid() && i < size && j < size && i != j
      modifies buffer
      ensures Valid() && Elements() == old(Elements())[i := old(Elements())[j]]
    {
      hide RecordsOf, RecordAt, MovedBlock;
      ElementAt(i);
      ElementAt(j);
      MovedRecords(buffer[..], dataLength, capacity, i, j, 1);
      ghost var rs := RecordsOf(buffer[..], dataLength, capacity);
      MemMove(buffer, dataLength * i, dataLength * j, dataLength);
      MovedOne(rs, i, j);
    }

    method CopyIn(i: nat, source: array<Byte>)
      requires Valid() && i < size && source != buffer && source.Length >= dataLength
      modifies buffer
      ensures Valid() && Elements() == old(Elements())[i := source[..dataLength]]
    {
      hide RecordsOf, RecordAt;
      ElementAt(i);
      StoredRecord(buffer[..], dataLength, capacity, i, source[..dataLength]);
      ghost var b := buffer[..];
      MemCopy(buffer, dataLength * i, source, 0, dataLength);
      assert buffer[..] == b[..dataLength * i] + source[..dataLength] + b[dataLength * i + dataLength..];
    }

    /** `memmove` of `n` records. */
    method MoveRecords(dest: nat, source: nat, n: nat)
      requires Valid() && dest + n <= size && source + n <= size
      modifies buffer
      ensures Valid()
      ensures RecordsOf(buffer[..], dataLength, capacity)
        == MovedBlock(old(RecordsOf(buffer[..], dataLength, capacity)), dest, source, n)
    {
      hide RecordsOf, RecordAt, MovedBlock;
      MovedRecords(buffer[..], dataLength, capacity, dest, source, n);
      var blockSize := n * dataLength;
      MemMove(buffer, dataLength * dest, dataLength * source, blockSize);
    }

    /** `cc_array_sized_filter_mut`: moves each cluster of kept records once. */
    method FilterMut(pred: Record -> bool) returns (stat: Stat)
      requires Valid()
      modifies this`size, buffer
      ensures Valid() && stat == if old(size) == 0 then CC_ERR_OUT_OF_RANGE else CC_OK
      ensures Elements() == Filtered(pred, old(Elements()))
    {
      hide RecordsOf, RecordAt, MovedBlock, Clustered, Filtered;
      ghost var es := Elements();
      NoneFiltered(pred);
      if size == 0 {
        return CC_ERR_OUT_OF_RANGE;
      }
      var rm, keep := 0, 0;
      var i := size - 1;
      ghost var kept: seq<Record> := [];
      FilterBegins();
      while i != -1
        invariant -1 <= i && 0 <= rm && 0 <= keep && Valid()
        invariant size == i + 1 + rm + keep && keep == |kept| && i < |es|
        invariant Clustered(RecordsOf(buffer[..], dataLength, capacity), es, i + 1, rm, kept)
        invariant kept == Filtered(pred, es[i + 1..])
      {
        FilteredSuffix(pred, es, i);
        SeenElement(es, i, rm, kept);
        if !pred(buffer[dataLength * i..dataLength * i + dataLength]) {
          ClusterGrows(RecordsOf(buffer[..], dataLength, capacity), es, i + 1, rm, kept);
          rm := rm + 1;
        } else {
          if rm > 0 {
            if keep > 0 {
              GapClosed(RecordsOf(buffer[..], dataLength, capacity), es, i + 1, rm, kept);
              MoveRecords(i + 1, i + 1 + rm, keep);
            } else {
              NothingKept(RecordsOf(buffer[..], dataLength, capacity), es, i + 1, rm);
            }
            size := size - rm;
            rm := 0;
          }
          ClusterGrows(RecordsOf(buffer[..], dataLength, capacity), es, i + 1, rm, kept);
          keep := keep + 1;
          kept := [es[i]] + kept;
        }
        i := i - 1;
      }
      assert es[0..] == es;
      if rm > 0 {
        GapClosed(RecordsOf(buffer[..], dataLength, capacity), es, 0, rm, kept);
        MoveRecords(0, rm, keep);
        size := size - rm;
      }
      FilterEnds(es, kept);
      return CC_OK;
    }

    lemma FilterBegins()
      requires Valid()
      ensures Clustered(RecordsOf(buffer[..], dataLength, capacity), Elements(), size, 0, [])
      ensures Elements()[size..] == []
    {
    }

    lemma SeenElement(es: seq<Record>, i: nat, rm: nat, kept: seq<Record>)
      requires Valid() && i < |es| && i + 1 <= capacity
      requires Clustered(RecordsOf(buffer[..], dataLength, capacity), es, i + 1, rm, kept)
      ensures dataLength * i + dataLength <= buffer.Length
      ensures buffer[dataLength * i..dataLength * i + dataLength] == es[i]
    {
      var rs := RecordsOf(buffer[..], dataLength, capacity);
      RecordsAt(buffer[..], dataLength, capacity, i);
      assert rs[i] == rs[..i + 1][i] == es[..i + 1][i];
    }

    lemma FilterEnds(es: seq<Record>, kept: seq<Record>)
      requires Valid() && Clustered(RecordsOf(buffer[..], dataLength, capacity), es, 0, 0, kept) && |kept| == size
      ensures Elements() == kept
    {
    }
  }

  lemma NoneFiltered(pred: Record -> bool)
    ensures Filtered(pred, []) == []
  {
  }

  lemma MovedOne(rs: seq<Record>, i: nat, j: nat)
    requires i < |rs| && j < |rs|
    ensures MovedBlock(rs, i, j, 1) == rs[i := rs[j]]
  {
  }
}
