/** The chained hash table: in-place bucket lists, resizing, and the separate paths for the NULL key. */
module HashTables {
  import opened Common
  import opened Words
  import opened HashModel

  /** Rounding up always ends at a power of two. */
  lemma RoundedUp(n: nat, c: nat)
    requires if n < MAX_POW_TWO then LeastPow2(n, c) else c == MAX_POW_TWO
    ensures IsPow2(c) && c > 0
  {
    assert MAX_POW_TWO == Pow2(63);
  }

  class HashTable {
    var capacity: nat
    var size: nat
    var threshold: nat
    var buckets: array<Ptr>
    var mem: Memory
    const ops: KeyOps
    const limit: nat -> nat  // the number of entries at which a table of a given capacity grows
    ghost var chains: seq<seq<Item>>
    ghost var items: set<Item>

    ghost predicate Valid()
      reads this, buckets
    {
      && capacity == buckets.Length == |chains|
      && TableOk(ops, mem, buckets[..], chains, items, size)
    }

    /** `cc_hashtable_new_conf`. */
    constructor (ops: KeyOps, limit: nat -> nat, initialCapacity: nat)
      requires KeyOpsOk(ops)
      ensures Valid() && fresh(buckets) && items == {} && this.ops == ops && this.limit == limit
      ensures if initialCapacity < MAX_POW_TWO then LeastPow2(initialCapacity, capacity) else capacity == MAX_POW_TWO
      ensures size == 0 && mem == map[] && threshold == limit(capacity)
    {
      hide KeyOpsOk, LeastPow2, IsPow2, Pow2, TableOk;
      var c := UpperPowTwo(initialCapacity);
      RoundedUp(initialCapacity, c);
      capacity := c;
      buckets := new Ptr[c](_ => NULL);
      this.ops := ops;
      this.limit := limit;
      size := 0;
      threshold := limit(c);
      mem := map[];
      chains := EmptyBuckets(c);
      items := {};
      new;
      EmptyTable(ops, buckets[..]);
    }

    /** The lookup part shared by the operations: `get_table_index`. */
    function TableIndex(key: Ptr): (i: nat)
      requires key != NULL && capacity > 0
      reads this
    {
      Mask(ops.hash(key), capacity)
    }

    lemma TablePlaced()
      requires Valid()
      ensures Placed(chains, items)
    {
    }

    lemma ItemsFacts()
      requires Valid()
      ensures ItemsOk(ops, items) && mem.Keys == Entries(items) && size == |items|
    {
    }

    lemma TableChains()
      requires Valid()
      ensures capacity == |chains| > 0 && Chains(mem, buckets[..], chains)
      ensures forall b, j :: 0 <= b < |chains| && 0 <= j < |chains[b]| ==> chains[b][j].entry != NULL
    {
    }

    lemma CapacityPow2()
      requires Valid()
      ensures IsPow2(capacity)
    {
      hide KeyOpsOk, ItemsOk, Chains, IsPow2;
    }

    /** The bucket in which a key is looked for. */
    lemma Bucket(key: Ptr)
      requires Valid()
      ensures capacity == |chains| == buckets.Length > 0 && KeyOpsOk(ops)
      ensures key == NULL ==> HashOf(ops, key) == 0 && Mask(HashOf(ops, key), capacity) == 0
      ensures key != NULL ==> HashOf(ops, key) == ops.hash(key)
      ensures var b := Mask(HashOf(ops, key), capacity);
        && b < capacity && buckets[b] == NodeAt(chains[b], 0) && LinkedFrom(mem, chains[b], 0)
        && Passed(ops, chains[b], 0, key) && (buckets[b] != NULL <==> |chains[b]| > 0)
        && (Passed(ops, chains[b], |chains[b]|, key) ==> !Holds(ops, items, key))
    {
      hide Passed, LinkedFrom, Mask, Holds;
      SearchTable(ops, mem, buckets[..], chains, items, size, key);
      if key == NULL { NullBucket(ops, capacity); }
    }

    lemma Hit(key: Ptr, b: nat, j: nat)
      requires Valid() && b < |chains| && j < |chains[b]| && Same(ops, chains[b][j].key, key)
      ensures Holds(ops, items, key) && Find(ops, items, key) == Some(chains[b][j].value)
    {
      HitTable(ops, mem, buckets[..], chains, items, size, key, b, j);
    }

    /** `cc_hashtable_get` and `get_null_key`. */
    method Get(key: Ptr) returns (stat: Stat, out: Ptr)
      requires Valid()
      ensures stat == if Holds(ops, items, key) then CC_OK else CC_ERR_KEY_NOT_FOUND
      ensures stat == CC_OK ==> Find(ops, items, key) == Some(out)
    {
      hide TableOk, Holds, Find, Same, KeyOpsOk, LinkedFrom, HashOf, Mask, Passed;
      if key == NULL {
        stat, out := GetNullKey();
        return;
      }
      Bucket(key);
      var index := TableIndex(key);
      ghost var c := chains[index];
      var bucket := buckets[index];
      ghost var j := 0;
      while bucket != NULL
        invariant Passed(ops, c, j, key) && j <= |c| && (bucket != NULL <==> j < |c|) && bucket == NodeAt(c, j)
        decreases |c| - j
      {
        StepPast(ops, mem, c, j, key);
        if mem[bucket].key != NULL && ops.cmp(mem[bucket].key, key) == 0 {
          Hit(key, index, j);
          return CC_OK, mem[bucket].value;
        }
        bucket := mem[bucket].next;
        j := j + 1;
      }
      return CC_ERR_KEY_NOT_FOUND, NULL;
    }

    method GetNullKey() returns (stat: Stat, out: Ptr)
      requires Valid()
      ensures stat == if Holds(ops, items, NULL) then CC_OK else CC_ERR_KEY_NOT_FOUND
      ensures stat == CC_OK ==> Find(ops, items, NULL) == Some(out)
    {
      hide TableOk, Holds, Find, Same, KeyOpsOk, LinkedFrom, HashOf, Mask, Passed;
      Bucket(NULL);
      ghost var c := chains[0];
      var bucket := buckets[0];
      ghost var j := 0;
      while bucket != NULL
        invariant Passed(ops, c, j, NULL) && j <= |c| && (bucket != NULL <==> j < |c|) && bucket == NodeAt(c, j)
        decreases |c| - j
      {
        StepPast(ops, mem, c, j, NULL);
        if mem[bucket].key == NULL {
          Hit(NULL, 0, j);
          return CC_OK, mem[bucket].value;
        }
        bucket := mem[bucket].next;
        j := j + 1;
      }
      return CC_ERR_KEY_NOT_FOUND, NULL;
    }

    /** `replace->value = val` at place `j` of chain `b`. */
    method ReplaceValue(e: Ptr, key: Ptr, val: Ptr, ghost b: nat, ghost j: nat, ghost entry: Ptr)
      requires Valid() && b < |chains| && j < |chains[b]|
      requires e == chains[b][j].entry && Same(ops, chains[b][j].key, key)
      modifies this`mem, this`chains, this`items
      ensures Valid() && mem.Keys == old(mem.Keys)
      ensures Holds(ops, old(items), key) && items == Added(ops, old(items), key, val, entry)
      ensures chains == old(chains)[b := old(chains)[b][j := old(chains)[b][j].(value := val)]]
    {
      hide TableOk;
      SetValueTable(ops, mem, buckets[..], chains, items, size, b, j, key, val, entry);
      ghost var items', chains' := Added(ops, items, key, val, entry), SetValue(chains, b, j, val);
      hide TableOk, Added, Holds, Same, SetValue;
      mem := mem[e := mem[e].(value := val)];
      items, chains := items', chains';
    }

    /** A new entry in front of the bucket of its hash. */
    method PushEntry(b: nat, key: Ptr, val: Ptr, hash: nat) returns (n: Ptr)
      requires Valid() && !Holds(ops, items, key)
      requires |chains| > 0 && hash == HashOf(ops, key) && b == Mask(hash, |chains|)
      modifies this`mem, this`size, this`chains, this`items, buckets
      ensures Valid() && n != NULL && n !in old(mem) && size == old(size) + 1
      ensures items == Added(ops, old(items), key, val, n)
      ensures chains == old(chains)[b := [Item(n, key, val, hash)] + old(chains)[b]]
    {
      hide TableOk;
      n := FreshPointer(mem.Keys);
      PushFrontTable(ops, mem, buckets[..], chains, items, size, key, val, n);
      ghost var items', chains' := Added(ops, items, key, val, n), PushFront(chains, b, Item(n, key, val, hash));
      hide TableOk, Added, Holds, Same, PushFront;
      mem := mem[n := TableEntry(key, val, hash, buckets[b])];
      buckets[b] := n;
      size := size + 1;
      items, chains := items', chains';
      assert buckets[..] == old(buckets[..])[b := n];
    }

    /** `add_null_key`. */
    method AddNullKey(val: Ptr) returns (stat: Stat, ghost n: Ptr)
      requires Valid()
      modifies this`mem, this`size, this`chains, this`items, buckets
      ensures Valid() && stat == CC_OK && items == Added(ops, old(items), NULL, val, n)
      ensures size == old(size) + if Holds(ops, old(items), NULL) then 0 else 1
      ensures !Holds(ops, old(items), NULL) ==> n != NULL && n !in old(mem)
    {
      hide TableOk, Holds, Find, Same, KeyOpsOk, LinkedFrom, HashOf, Mask, Passed, Added;
      stat, n := CC_OK, NULL;
      Bucket(NULL);
      ghost var c := chains[0];
      var replace := buckets[0];
      ghost var j := 0;
      while replace != NULL
        invariant unchanged(this) && unchanged(buckets)
        invariant Passed(ops, c, j, NULL) && j <= |c| && (replace != NULL <==> j < |c|) && replace == NodeAt(c, j)
        decreases |c| - j
      {
        StepPast(ops, mem, c, j, NULL);
        if mem[replace].key == NULL {
          ReplaceValue(replace, NULL, val, 0, j, n);
          return;
        }
        replace := mem[replace].next;
        j := j + 1;
      }
      n := PushEntry(0, NULL, val, 0);
    }

    /** `cc_hashtable_add`, after the table has grown if it had to. */
    method AddToBucket(key: Ptr, val: Ptr) returns (stat: Stat, ghost n: Ptr)
      requires Valid() && key != NULL
      modifies this`mem, this`size, this`chains, this`items, buckets
      ensures Valid() && stat == CC_OK && items == Added(ops, old(items), key, val, n)
      ensures size == old(size) + if Holds(ops, old(items), key) then 0 else 1
      ensures !Holds(ops, old(items), key) ==> n != NULL && n !in old(mem)
    {
      hide TableOk, Holds, Find, Same, KeyOpsOk, LinkedFrom, HashOf, Mask, Passed, Added;
      stat, n := CC_OK, NULL;
      Bucket(key);
      var hash := ops.hash(key);
      var i := Mask(hash, capacity);
      ghost var c := chains[i];
      var replace := buckets[i];
      ghost var j := 0;
      while replace != NULL
        invariant unchanged(this) && unchanged(buckets)
        invariant Passed(ops, c, j, key) && j <= |c| && (replace != NULL <==> j < |c|) && replace == NodeAt(c, j)
        decreases |c| - j
      {
        StepPast(ops, mem, c, j, key);
        var rk := mem[replace].key;
        if rk != NULL && ops.cmp(rk, key) == 0 {
          ReplaceValue(replace, key, val, i, j, n);
          return;
        }
        replace := mem[replace].next;
        j := j + 1;
      }
      n := PushEntry(i, key, val, hash);
    }

    /** `cc_hashtable_add`. */
    method Add(key: Ptr, val: Ptr) returns (stat: Stat, ghost n: Ptr)
      requires Valid()
      modifies this, buckets
      ensures Valid() && (buckets == old(buckets) || fresh(buckets))
      ensures stat != CC_OK <==> old(size) >= old(threshold) && old(capacity) == MAX_POW_TWO
      ensures stat != CC_OK ==> stat == CC_ERR_MAX_CAPACITY && unchanged(this) && unchanged(buckets)
      ensures stat == CC_OK ==> items == Added(ops, old(items), key, val, n)
      ensures stat == CC_OK && Holds(ops, old(items), key) ==>
        var x := ItemOf(ops, old(items), key);
        items == old(items) - {x} + {Item(x.entry, x.key, val, x.hash)}
      ensures stat == CC_OK && !Holds(ops, old(items), key) ==>
        items == old(items) + {Item(n, key, val, if key == NULL then 0 else ops.hash(key))}
      ensures stat == CC_OK && !Holds(ops, old(items), key) ==> n != NULL && n !in old(mem)
      ensures size == old(size) + if stat != CC_OK || Holds(ops, old(items), key) then 0 else 1
      ensures stat == CC_OK ==> capacity == if old(size) >= old(threshold) then 2 * old(capacity) else old(capacity)
      ensures stat == CC_OK ==> threshold == if old(size) >= old(threshold) then limit(capacity) else old(threshold)
    {
      hide TableOk, Added, Holds;
      n := NULL;
      if size >= threshold {
        stat := Resize(capacity * 2);
        if stat != CC_OK {
          return;
        }
      }
      if key == NULL {
        stat, n := AddNullKey(val);
      } else {
        stat, n := AddToBucket(key, val);
      }
      AddedMeans(ops, old(items), key, val, n);
    }

    /** `resize`: the map is untouched, every entry lies in the bucket of its hash. */
    method Resize(newCapacity: nat) returns (stat: Stat)
      requires Valid()
      requires newCapacity == 2 * capacity
      modifies this
      ensures Valid() && mem.Keys == old(mem.Keys) && items == old(items) && size == old(size)
      ensures stat == if old(capacity) == MAX_POW_TWO then CC_ERR_MAX_CAPACITY else CC_OK
      ensures if stat == CC_OK then fresh(buckets) && capacity == newCapacity && threshold == limit(newCapacity)
        else unchanged(this)
    {
      hide TableOk, IsPow2, Pow2, And, Mask;
      if capacity == MAX_POW_TWO {
        return CC_ERR_MAX_CAPACITY;
      }
      assert IsPow2(newCapacity) && newCapacity > 0 by { CapacityPow2(); DoublePow2(capacity); }
      var newBuckets := new Ptr[newCapacity](_ => NULL);
      ghost var target := MoveEntries(buckets, newBuckets, capacity, newCapacity);
      buckets := newBuckets;
      capacity := newCapacity;
      threshold := limit(newCapacity);
      chains := target;
      stat := CC_OK;
    }

    /** `move_entries`. */
    method MoveEntries(source: array<Ptr>, dest: array<Ptr>, sourceSize: nat, destSize: nat)
      returns (ghost target: seq<seq<Item>>)
      requires source != dest && sourceSize == source.Length == |chains| && destSize == dest.Length > 0
      requires IsPow2(destSize)
      requires TableOk(ops, mem, source[..], chains, items, size)
      requires forall d :: 0 <= d < destSize ==> dest[d] == NULL
      modifies this`mem, dest
      ensures |target| == destSize && TableOk(ops, mem, dest[..], target, items, size)
      ensures mem.Keys == old(mem.Keys)
    {
      hide IsPow2, Mask, Placed, LinkedFrom, ItemsOk, Entries;
      MoveBegin(ops, mem, source[..], chains, items, dest[..]);
      target := EmptyBuckets(destSize);
      ghost var moved := {};
      hide Moving, KeyOpsOk, Chains, PushFront;
      var i := 0;
      while i < sourceSize
        invariant i <= sourceSize && mem.Keys == old(mem.Keys) && |target| == destSize
        invariant Moving(ops, mem, chains, items, i, 0, dest[..], target, moved)
      {
        var entry := source[i];
        ghost var j := 0;
        assert entry == NodeAt(chains[i], j) by { HeadNode(old(mem), source[..], chains, i); }
        while entry != NULL
          invariant j <= |chains[i]| && entry == NodeAt(chains[i], j) && mem.Keys == old(mem.Keys)
          invariant |target| == destSize
          invariant Moving(ops, mem, chains, items, i, j, dest[..], target, moved)
          decreases |chains[i]| - j
        {
          MoveStep(ops, mem, chains, items, i, j, dest[..], target, moved);
          var next := mem[entry].next;
          var index := Mask(mem[entry].hash, destSize);
          ghost var x := chains[i][j];
          target, moved := PushFront(target, index, x), moved + {x};
          ghost var d := dest[..];
          mem := mem[entry := mem[entry].(next := dest[index])];
          dest[index] := entry;
          assert dest[..] == d[index := entry];
          entry := next;
          j := j + 1;
        }
        MoveNext(ops, mem, chains, items, i, j, dest[..], target, moved);
        i := i + 1;
      }
      MoveEnd(ops, mem, chains, items, dest[..], target, moved);
    }

    /** Unlinks and frees the entry at place `j` of chain `i`. */
    method CutEntry(i: nat, e: Ptr, prev: Ptr, next: Ptr, ghost key: Ptr, ghost j: nat)
      requires Valid() && i < |chains| && j < |chains[i]| && Same(ops, chains[i][j].key, key)
      requires e == chains[i][j].entry && next == NodeAt(chains[i], j + 1)
      requires prev == if j == 0 then NULL else chains[i][j - 1].entry
      modifies this`mem, this`size, this`chains, this`items, buckets
      ensures Valid() && size == old(size) - 1 && mem.Keys == old(mem.Keys) - {e}
      ensures chains == CutAt(old(chains), i, j) == old(chains)[i := Without(old(chains)[i], j)]
      ensures Holds(ops, old(items), key) && ItemOf(ops, old(items), key) == old(chains)[i][j]
      ensures items == Removed(ops, old(items), key) == old(items) - {old(chains)[i][j]}
    {
      hide TableOk;
      CutTable(ops, mem, buckets[..], chains, items, size, i, j, key);
      ghost var items', chains' := Removed(ops, items, key), CutAt(chains, i, j);
      ghost var m', h' := CutMemory(mem, chains, i, j), CutHeads(buckets[..], chains, i, j);
      assert items' == items - {chains[i][j]};
      hide TableOk, Removed, Holds, Same, CutAt;
      if prev == NULL {
        buckets[i] := next;
      } else {
        mem := mem[prev := mem[prev].(next := next)];
      }
      mem := Freed(mem, e);
      size := size - 1;
      items, chains := items', chains';
      assert mem == m';
      assert buckets[..] == h';
    }

    /** `cc_hashtable_remove` and `remove_null_key`. */
    method Remove(key: Ptr) returns (stat: Stat, out: Ptr, ghost b: nat, ghost j: nat)
      requires Valid()
      modifies this`mem, this`size, this`chains, this`items, buckets
      ensures Valid()
      ensures stat == if Holds(ops, old(items), key) then CC_OK else CC_ERR_KEY_NOT_FOUND
      ensures items == Removed(ops, old(items), key)
      ensures stat == CC_OK ==> items == old(items) - {ItemOf(ops, old(items), key)}
      ensures stat != CC_OK ==> unchanged(this) && unchanged(buckets)
      ensures stat == CC_OK ==>
        && b < |old(chains)| && j < |old(chains)[b]| && chains == CutAt(old(chains), b, j)
        && ItemOf(ops, old(items), key) == old(chains)[b][j] && out == old(chains)[b][j].value
        && mem.Keys == old(mem.Keys) - {old(chains)[b][j].entry} && size == old(size) - 1
    {
      if key == NULL {
        stat, out, b, j := RemoveNullKey();
      } else {
        stat, out, b, j := RemoveKey(key);
      }
    }

    method RemoveKey(key: Ptr) returns (stat: Stat, out: Ptr, ghost b: nat, ghost j: nat)
      requires key != NULL
      requires Valid()
      modifies this`mem, this`size, this`chains, this`items, buckets
      ensures Valid()
      ensures stat == if Holds(ops, old(items), key) then CC_OK else CC_ERR_KEY_NOT_FOUND
      ensures items == Removed(ops, old(items), key)
      ensures stat == CC_OK ==> items == old(items) - {ItemOf(ops, old(items), key)}
      ensures stat != CC_OK ==> unchanged(this) && unchanged(buckets)
      ensures stat == CC_OK ==>
        && b < |old(chains)| && j < |old(chains)[b]| && chains == CutAt(old(chains), b, j)
        && ItemOf(ops, old(items), key) == old(chains)[b][j] && out == old(chains)[b][j].value
        && mem.Keys == old(mem.Keys) - {old(chains)[b][j].entry} && size == old(size) - 1
    {
      hide TableOk, Holds, Find, Same, KeyOpsOk, LinkedFrom, HashOf, Mask, Passed, Removed, CutAt;
      Bucket(key);
      RemovedAbsent(ops, items, key);
      var i := TableIndex(key);
      ghost var c := chains[i];
      var e, prev, next := buckets[i], NULL, NULL;
      b, j := i, 0;
      while e != NULL
        invariant unchanged(this) && unchanged(buckets)
        invariant Passed(ops, c, j, key) && j <= |c| && (e != NULL <==> j < |c|) && e == NodeAt(c, j)
        invariant prev == if j == 0 then NULL else c[j - 1].entry
        decreases |c| - j
      {
        StepPast(ops, mem, c, j, key);
        next := mem[e].next;
        if mem[e].key != NULL && ops.cmp(key, mem[e].key) == 0 {
          out := mem[e].value;
          CutEntry(i, e, prev, next, key, j);
          return CC_OK, out, b, j;
        }
        prev, e := e, next;
        j := j + 1;
      }
      return CC_ERR_KEY_NOT_FOUND, NULL, b, j;
    }

    method RemoveNullKey() returns (stat: Stat, out: Ptr, ghost b: nat, ghost j: nat)
      requires Valid()
      modifies this`mem, this`size, this`chains, this`items, buckets
      ensures Valid()
      ensures stat == if Holds(ops, old(items), NULL) then CC_OK else CC_ERR_KEY_NOT_FOUND
      ensures items == Removed(ops, old(items), NULL)
      ensures stat == CC_OK ==> items == old(items) - {ItemOf(ops, old(items), NULL)}
      ensures stat != CC_OK ==> unchanged(this) && unchanged(buckets)
      ensures stat == CC_OK ==>
        && b < |old(chains)| && j < |old(chains)[b]| && chains == CutAt(old(chains), b, j)
        && ItemOf(ops, old(items), NULL) == old(chains)[b][j] && out == old(chains)[b][j].value
        && mem.Keys == old(mem.Keys) - {old(chains)[b][j].entry} && size == old(size) - 1
    {
      hide TableOk, Holds, Find, Same, KeyOpsOk, LinkedFrom, HashOf, Mask, Passed, Removed, CutAt;
      Bucket(NULL);
      RemovedAbsent(ops, items, NULL);
      ghost var c := chains[0];
      var e, prev, next := buckets[0], NULL, NULL;
      b, j := 0, 0;
      while e != NULL
        invariant unchanged(this) && unchanged(buckets)
        invariant Passed(ops, c, j, NULL) && j <= |c| && (e != NULL <==> j < |c|) && e == NodeAt(c, j)
        invariant prev == if j == 0 then NULL else c[j - 1].entry
        decreases |c| - j
      {
        StepPast(ops, mem, c, j, NULL);
        next := mem[e].next;
        if mem[e].key == NULL {
          out := mem[e].value;
          CutEntry(0, e, prev, next, NULL, j);
          return CC_OK, out, b, j;
        }
        prev, e := e, next;
        j := j + 1;
      }
      return CC_ERR_KEY_NOT_FOUND, NULL, b, j;
    }

    /** `cc_hashtable_remove_all`: every entry is freed once. */
    method RemoveAll()
      requires Valid()
      modifies this`mem, this`size, this`chains, this`items, buckets
      ensures Valid() && items == {} && mem == map[] && size == 0
    {
      hide TableOk, CutAt;
      var i := 0;
      while i < capacity
        invariant i <= capacity && capacity == buckets.Length == |chains|
        invariant TableOk(ops, mem, buckets[..], chains, items, size)
        invariant forall b :: 0 <= b < i ==> buckets[b] == NULL
      {
        var entry := buckets[i];
        ghost var before := buckets[..];
        ghost var heads := before;
        while entry != NULL
          invariant capacity == |chains| == |heads| && buckets[..] == before && heads == before[i := entry]
          invariant TableOk(ops, mem, heads, chains, items, size)
          decreases size
        {
          CutFirst(ops, mem, heads, chains, items, size, i);
          var next := mem[entry].next;
          ghost var x := chains[i][0];
          mem := Freed(mem, entry);
          size := size - 1;
          heads, chains, items := heads[i := next], CutAt(chains, i, 0), items - {x};
          entry := next;
        }
        buckets[i] := NULL;
        assert buckets[..] == heads;
        i := i + 1;
      }
      NoEntries(ops, mem, buckets[..], chains, items, size);
    }
  }
}
