/** Iterating over the hash table while removing entries. */
module HashIter {
  import opened Common
  import opened Words
  import opened HashModel
  import opened HashTables

  /** The entries of the buckets from `b` on, in the order of the buckets and chains. */
  function Flat(chains: seq<seq<Item>>, b: nat): seq<Item>
    decreases |chains| - b
  {
    if b >= |chains| then [] else chains[b] + Flat(chains, b + 1)
  }

  /** The entries from place `(b, j)` on. */
  function FlatFrom(chains: seq<seq<Item>>, b: nat, j: nat): seq<Item>
    requires b < |chains| && j <= |chains[b]|
  {
    chains[b][j..] + Flat(chains, b + 1)
  }

  lemma {:induction false} FlatFrame(chains: seq<seq<Item>>, chains': seq<seq<Item>>, b: nat)
    requires |chains| == |chains'| && forall d :: b <= d < |chains| ==> chains[d] == chains'[d]
    ensures Flat(chains, b) == Flat(chains', b)
    decreases |chains| - b
  {
    if b < |chains| { FlatFrame(chains, chains', b + 1); }
  }

  lemma {:induction false} FlatAt(chains: seq<seq<Item>>, b: nat, i: nat) returns (d: nat, j: nat)
    requires i < |Flat(chains, b)|
    ensures b <= d < |chains| && j < |chains[d]| && Flat(chains, b)[i] == chains[d][j]
    decreases |chains| - b
  {
    if i < |chains[b]| { d, j := b, i; } else { d, j := FlatAt(chains, b + 1, i - |chains[b]|); }
  }

  lemma {:induction false} InFlat(chains: seq<seq<Item>>, b: nat, d: nat, j: nat)
    requires b <= d < |chains| && j < |chains[d]|
    ensures chains[d][j] in Flat(chains, b)
    decreases |chains| - b
  {
    if d > b { InFlat(chains, b + 1, d, j); }
  }

  lemma {:induction false} FlatDistinct(chains: seq<seq<Item>>, items: set<Item>, b: nat, i: nat, k: nat)
    requires Placed(chains, items) && i < k < |Flat(chains, b)|
    ensures Flat(chains, b)[i] != Flat(chains, b)[k]
    decreases |chains| - b
  {
    hide Placed;
    var n := |chains[b]|;
    if k < n {
      assert chains[b][i] != chains[b][k] by { ChainDistinct(chains, items, b, i, k); }
    } else if i >= n {
      FlatDistinct(chains, items, b + 1, i - n, k - n);
    } else {
      var d, j := FlatAt(chains, b + 1, k - n);
      InItems(chains, items, b, i);
      InItems(chains, items, d, j);
    }
  }

  lemma ChainDistinct(chains: seq<seq<Item>>, items: set<Item>, b: nat, i: nat, k: nat)
    requires Placed(chains, items) && b < |chains| && i < k < |chains[b]|
    ensures chains[b][i] != chains[b][k]
  {
  }

  /** The walk over the buckets meets every entry of the table, and none twice. */
  lemma FlatItems(chains: seq<seq<Item>>, items: set<Item>)
    requires Placed(chains, items)
    ensures forall x :: x in Flat(chains, 0) <==> x in items
    ensures forall i, k :: 0 <= i < k < |Flat(chains, 0)| ==> Flat(chains, 0)[i] != Flat(chains, 0)[k]
  {
    forall x | x in Flat(chains, 0) ensures x in items {
      var i :| 0 <= i < |Flat(chains, 0)| && Flat(chains, 0)[i] == x;
      var d, j := FlatAt(chains, 0, i);
    }
    forall x | x in items ensures x in Flat(chains, 0) {
      var c := chains[Mask(x.hash, |chains|)];
      var j :| 0 <= j < |c| && c[j] == x;
      InFlat(chains, 0, Mask(x.hash, |chains|), j);
    }
    forall i, k | 0 <= i < k < |Flat(chains, 0)| ensures Flat(chains, 0)[i] != Flat(chains, 0)[k] {
      FlatDistinct(chains, items, 0, i, k);
    }
  }

  /** Cutting an entry before the place of a walk does not change what the walk has ahead of it. */
  lemma CutBehind(chains: seq<seq<Item>>, d: nat, t: nat, b: nat, j: nat)
    requires d < |chains| && t < |chains[d]| && b < |chains| && j <= |chains[b]| && !Ahead(b, j, d, t)
    ensures var j' := if d == b then j - 1 else j;
      && 0 <= j' <= |CutAt(chains, d, t)[b]|
      && FlatFrom(CutAt(chains, d, t), b, j') == FlatFrom(chains, b, j)
      && NodeAt(CutAt(chains, d, t)[b], j') == NodeAt(chains[b], j)
  {
    var chains' := CutAt(chains, d, t);
    FlatFrame(chains, chains', b + 1);
    if d == b {
      assert chains'[b][j - 1..] == chains[b][j..];
    }
  }

  /** The entry at a place of the table is the one that its own key leads to. */
  lemma LastFound(table: HashTable, d: nat, t: nat)
    requires table.Valid() && d < |table.chains| && t < |table.chains[d]|
    ensures var x := table.chains[d][t];
      && x.entry in table.mem && table.mem[x.entry].key == x.key
      && table.mem[x.entry].value == x.value && table.mem[x.entry].hash == x.hash
      && Holds(table.ops, table.items, x.key) && ItemOf(table.ops, table.items, x.key) == x
      && Removed(table.ops, table.items, x.key) == table.items - {x}
    ensures forall b, j :: 0 <= b < |table.chains| && 0 <= j < |table.chains[b]| && (b, j) != (d, t) ==>
      table.chains[b][j] != table.chains[d][t]
  {
    hide Same, Mask, IsPow2, KeyOpsOk, Entries, ItemsOk, Placed, Removed, Holds, LinkedFrom;
    var x := table.chains[d][t];
    table.TableChains();
    HeadNode(table.mem, table.buckets[..], table.chains, d);
    ChainStep(table.mem, table.chains[d], t);
    InItems(table.chains, table.items, d, t);
    SameFlip(table.ops, x.key, x.key);
    DroppedItem(table.ops, table.items, x, x.key);
    OnlyPlace(table.ops, table.items, table.chains, d, t);
  }

  lemma OnlyPlace(ops: KeyOps, items: set<Item>, chains: seq<seq<Item>>, d: nat, t: nat)
    requires ItemsOk(ops, items) && Placed(chains, items) && d < |chains| && t < |chains[d]|
    ensures forall b, j :: 0 <= b < |chains| && 0 <= j < |chains[b]| && (b, j) != (d, t) ==>
      chains[b][j] != chains[d][t]
  {
    hide ItemsOk, Placed;
    forall b, j | 0 <= b < |chains| && 0 <= j < |chains[b]| && (b, j) != (d, t) ensures chains[b][j] != chains[d][t] {
      PlacesApart(ops, items, chains, b, j, d, t);
    }
  }

  /** One step of the walk, within a chain or on to the next bucket. */
  lemma FlatStep(chains: seq<seq<Item>>, b: nat, j: nat)
    requires b < |chains| && j < |chains[b]|
    ensures |FlatFrom(chains, b, j)| > 0 && FlatFrom(chains, b, j)[0] == chains[b][j]
    ensures FlatFrom(chains, b, j)[1..] == FlatFrom(chains, b, j + 1)
    ensures j + 1 == |chains[b]| ==> FlatFrom(chains, b, j + 1) == Flat(chains, b + 1)
  {
    hide Flat;
    assert chains[b][j..] == [chains[b][j]] + chains[b][j + 1..];
  }

  class HashTableIter {
    const table: HashTable
    var bucketIndex: nat
    var prevEntry: Ptr
    var nextEntry: Ptr
    ghost var at: nat          // the place of nextEntry in its chain
    ghost var last: (nat, nat) // the place of prevEntry, while that entry is in the table
    ghost var live: bool

    ghost predicate Valid()
      reads this, table, table.buckets
    {
      && table.Valid()
      && bucketIndex < |table.chains| && at <= |table.chains[bucketIndex]|
      && nextEntry == NodeAt(table.chains[bucketIndex], at)
      && (nextEntry == NULL ==> Rest() == [])
      && (live ==>
            && last.0 < |table.chains| && last.1 < |table.chains[last.0]|
            && !Ahead(bucketIndex, at, last.0, last.1)
            && prevEntry == table.chains[last.0][last.1].entry)
    }

    /** The entries still to be returned. */
    ghost function Rest(): seq<Item>
      reads this, table
      requires bucketIndex < |table.chains| && at <= |table.chains[bucketIndex]|
    {
      FlatFrom(table.chains, bucketIndex, at)
    }

    ghost function LastItem(): Item
      reads this, table
      requires live && last.0 < |table.chains| && last.1 < |table.chains[last.0]|
    {
      table.chains[last.0][last.1]
    }

    /** What the pointer returned last leads to. */
    lemma LastRead()
      requires Valid() && live
      ensures last.0 < |table.chains| && last.1 < |table.chains[last.0]| && prevEntry in table.mem
      ensures var n := table.mem[prevEntry]; LastItem() == Item(prevEntry, n.key, n.value, n.hash)
    {
      LastFound(table, last.0, last.1);
    }

    /** `cc_hashtable_iter_init`. */
    constructor (table: HashTable)
      requires table.Valid()
      ensures Valid() && this.table == table && !live && Rest() == Flat(table.chains, 0)
    {
      hide TableOk;
      table.TableChains();
      var i, e := NextBucket(table, 0);
      this.table := table;
      bucketIndex, nextEntry, prevEntry := if e != NULL then i else 0, e, NULL;
      at, last, live := 0, (0, 0), false;
      new;
      assert Flat(table.chains, 0) == table.chains[0] + Flat(table.chains, 1);
    }

    /** `cc_hashtable_iter_next`. */
    method Next() returns (stat: Stat, entry: Ptr)
      requires Valid()
      modifies this
      ensures Valid()
      ensures stat == if old(Rest()) == [] then CC_ITER_END else CC_OK
      ensures stat == CC_ITER_END ==> unchanged(this)
      ensures stat == CC_OK ==>
        && live && LastItem() == old(Rest())[0] && Rest() == old(Rest())[1..]
        && entry == prevEntry == LastItem().entry
    {
      hide Chains, LinkedFrom, Flat, FlatFrom, HashTable.Valid;
      table.TableChains();
      ghost var c := table.chains[bucketIndex];
      ChainStep(table.mem, c, at) by { HeadNode(table.mem, table.buckets[..], table.chains, bucketIndex); }
      if nextEntry == NULL {
        return CC_ITER_END, NULL;
      }
      ChainStep(table.mem, c, at + 1);
      FlatStep(table.chains, bucketIndex, at);
      prevEntry := nextEntry;
      nextEntry := table.mem[nextEntry].next;
      last, live := (bucketIndex, at), true;
      at := at + 1;
      if nextEntry != NULL {
        return CC_OK, prevEntry;
      }
      var i, e := NextBucket(table, bucketIndex + 1);
      nextEntry := e;
      if e != NULL {
        bucketIndex := i;
        at := 0;
      }
      return CC_OK, prevEntry;
    }

    /** `cc_hashtable_iter_remove`: removes the entry returned last. */
    method Remove() returns (stat: Stat, out: Ptr)
      requires Valid() && live  // once after a call of Next
      modifies this, table, table.buckets
      ensures Valid() && !live && Rest() == old(Rest()) && nextEntry == old(nextEntry)
      ensures stat == CC_OK && out == old(LastItem()).value && table.buckets == old(table.buckets)
      ensures table.items == old(table.items) - {old(LastItem())}
    {
      hide TableOk;
      ghost var (d, t) := last;
      LastFound(table, d, t);
      hide TableOk, Removed, Holds, CutAt;
      ghost var b, j;
      stat, out, b, j := table.Remove(table.mem[prevEntry].key);
      assert (b, j) == (d, t);
      CutBehind(old(table.chains), d, t, bucketIndex, at);
      live := false;
      if d == bucketIndex { at := at - 1; }
    }
  }

  /** The search for the first bucket that is not empty, from bucket `start` on. */
  method NextBucket(table: HashTable, start: nat) returns (i: nat, e: Ptr)
    requires table.Valid() && start <= table.capacity
    ensures start <= i <= table.capacity == |table.chains|
    ensures e == if i < table.capacity then NodeAt(table.chains[i], 0) else NULL
    ensures i < table.capacity ==> e != NULL
    ensures Flat(table.chains, start) == if i < table.capacity then FlatFrom(table.chains, i, 0) else []
  {
    hide TableOk;
    table.TableChains();
    i := start;
    while i < table.capacity
      invariant start <= i <= table.capacity && Flat(table.chains, start) == Flat(table.chains, i)
    {
      e := table.buckets[i];
      if e != NULL {
        assert table.chains[i][0..] == table.chains[i];
        return;
      }
      i := i + 1;
    }
    e := NULL;
  }

  // ---------- A whole traversal ----------

  /** The entries visited at the steps in `drop`, among the first `n` steps. */
  function Dropped(es: seq<Item>, drop: set<nat>, n: nat): set<Item>
    requires n <= |es|
  {
    set i: nat | i < n && i in drop :: es[i]
  }

  /**
    A run of the iterator that removes the current entry after the steps in `drop`. It visits
    every entry of the table exactly once and leaves exactly the entries not dropped.
   */
  method Traverse(table: HashTable, drop: set<nat>) returns (visited: seq<Item>)
    requires table.Valid()
    modifies table, table.buckets
    ensures table.Valid()
    ensures forall x :: x in visited <==> x in old(table.items)
    ensures forall i, k :: 0 <= i < k < |visited| ==> visited[i] != visited[k]
    ensures table.items == old(table.items) - Dropped(visited, drop, |visited|)
    ensures forall i :: 0 <= i < |visited| ==> (visited[i] in table.items <==> i !in drop)
  {
    hide HashTable.Valid, Flat, FlatFrom, TableOk, Placed;
    var iter := new HashTableIter(table);
    ghost var es := iter.Rest();
    FlatItems(table.chains, table.items) by { table.TablePlaced(); }
    visited := [];
    var i := 0;
    var stat, e := iter.Next();
    while stat != CC_ITER_END
      invariant iter.table == table && fresh(iter) && iter.Valid() && i <= |es| && table.buckets == old(table.buckets)
      invariant stat == CC_OK || stat == CC_ITER_END
      invariant stat == CC_OK ==> i < |es| && iter.live && iter.LastItem() == es[i] && iter.Rest() == es[i + 1..]
      invariant stat == CC_OK ==> e == es[i].entry
      invariant stat == CC_ITER_END ==> i == |es|
      invariant visited == es[..i] && table.items == old(table.items) - Dropped(es, drop, i)
      decreases |es| - i
    {
      iter.LastRead();
      visited := visited + [Item(e, table.mem[e].key, table.mem[e].value, table.mem[e].hash)];
      if i in drop {
        var _, _ := iter.Remove();
      }
      assert Dropped(es, drop, i + 1) == Dropped(es, drop, i) + if i in drop then {es[i]} else {};
      i := i + 1;
      stat, e := iter.Next();
    }
  }
}