/**
  What the chained hash table means: the set of its entries, the bucket chains that hold them,
  and the map from keys to values that they stand for.
 */
module HashModel {
  import opened Common
  import opened Words

  /** `TableEntry`, the structure behind an entry pointer. */
  datatype TableEntry = TableEntry(key: Ptr, value: Ptr, hash: nat, next: Ptr)

  type Memory = map<Ptr, TableEntry>

  /** An entry together with its address. */
  datatype Item = Item(entry: Ptr, key: Ptr, value: Ptr, hash: nat)

  /** The table's hash and key comparison. NULL keys never reach either of them. */
  datatype KeyOps = KeyOps(hash: Ptr -> nat, cmp: Comparator)

  function HashOf(ops: KeyOps, k: Ptr): nat {
    if k == NULL then 0 else ops.hash(k)
  }

  predicate Same(ops: KeyOps, k: Ptr, k': Ptr) {
    if k == NULL || k' == NULL then k == k' else ops.cmp(k, k') == 0
  }

  predicate SymmetricAt(ops: KeyOps, x: Ptr, y: Ptr) {
    Same(ops, x, x) && (Same(ops, x, y) ==> Same(ops, y, x) && HashOf(ops, x) == HashOf(ops, y))
  }

  predicate TransitiveAt(ops: KeyOps, x: Ptr, y: Ptr, z: Ptr) {
    Same(ops, x, y) && Same(ops, y, z) ==> Same(ops, x, z)
  }

  /** The comparison is an equivalence, and equal keys have equal hashes. */
  ghost predicate KeyOpsOk(ops: KeyOps) {
    && (forall x, y :: SymmetricAt(ops, x, y))
    && (forall x, y, z :: TransitiveAt(ops, x, y, z))
  }

  lemma SameFlip(ops: KeyOps, x: Ptr, y: Ptr)
    requires KeyOpsOk(ops)
    ensures Same(ops, x, x) && (Same(ops, x, y) <==> Same(ops, y, x))
    ensures Same(ops, x, y) ==> HashOf(ops, x) == HashOf(ops, y)
  {
    assert SymmetricAt(ops, x, y) && SymmetricAt(ops, y, x);
  }

  /** The comparison may be asked either way round. */
  lemma SameKey(ops: KeyOps, x: Ptr, y: Ptr)
    requires KeyOpsOk(ops)
    ensures Same(ops, x, y) <==> if y == NULL then x == NULL else x != NULL && ops.cmp(x, y) == 0
    ensures Same(ops, x, y) <==> if y == NULL then x == NULL else x != NULL && ops.cmp(y, x) == 0
  {
    SameFlip(ops, x, y);
  }

  /** Equal keys are equal to the same keys. */
  lemma SameChain(ops: KeyOps, x: Ptr, y: Ptr, z: Ptr)
    requires KeyOpsOk(ops) && Same(ops, x, y)
    ensures Same(ops, y, z) <==> Same(ops, x, z)
  {
    SameFlip(ops, x, y);
    assert TransitiveAt(ops, x, y, z) && TransitiveAt(ops, y, x, z);
  }

  // ---------- The map ----------

  predicate Distinguished(ops: KeyOps, x: Item, y: Item) {
    x != y ==> x.entry != y.entry && !Same(ops, x.key, y.key)
  }

  /** Entries are told apart by their address and by their key. */
  ghost predicate ItemsOk(ops: KeyOps, items: set<Item>) {
    && (forall x :: x in items ==> x.entry != NULL && x.hash == HashOf(ops, x.key))
    && (forall x, y {:trigger Distinguished(ops, x, y)} :: x in items && y in items ==> Distinguished(ops, x, y))
  }

  ghost predicate Holds(ops: KeyOps, items: set<Item>, k: Ptr) {
    exists x :: x in items && Same(ops, x.key, k)
  }

  ghost function ItemOf(ops: KeyOps, items: set<Item>, k: Ptr): Item
    requires Holds(ops, items, k)
  {
    var x :| x in items && Same(ops, x.key, k);
    x
  }

  ghost function Find(ops: KeyOps, items: set<Item>, k: Ptr): Option<Ptr> {
    if Holds(ops, items, k) then Some(ItemOf(ops, items, k).value) else None
  }

  /** Mapping `k` to `v`: an equal key keeps its entry and its key and gets the value. */
  ghost function Added(ops: KeyOps, items: set<Item>, k: Ptr, v: Ptr, entry: Ptr): set<Item> {
    if Holds(ops, items, k) then
      var x := ItemOf(ops, items, k);
      items - {x} + {x.(value := v)}
    else
      items + {Item(entry, k, v, HashOf(ops, k))}
  }

  ghost function Removed(ops: KeyOps, items: set<Item>, k: Ptr): set<Item> {
    if Holds(ops, items, k) then items - {ItemOf(ops, items, k)} else items
  }

  lemma AddedMeans(ops: KeyOps, items: set<Item>, k: Ptr, v: Ptr, n: Ptr)
    ensures Holds(ops, items, k) ==>
      var x := ItemOf(ops, items, k);
      Added(ops, items, k, v, n) == items - {x} + {Item(x.entry, x.key, v, x.hash)}
    ensures !Holds(ops, items, k) ==>
      Added(ops, items, k, v, n) == items + {Item(n, k, v, if k == NULL then 0 else ops.hash(k))}
  {
  }

  lemma RemovedAbsent(ops: KeyOps, items: set<Item>, k: Ptr)
    ensures !Holds(ops, items, k) ==> Removed(ops, items, k) == items
  {
  }

  lemma ItemUnique(ops: KeyOps, items: set<Item>, k: Ptr, x: Item)
    requires KeyOpsOk(ops) && ItemsOk(ops, items) && x in items && Same(ops, x.key, k)
    ensures Holds(ops, items, k) && ItemOf(ops, items, k) == x
  {
    var y := ItemOf(ops, items, k);
    SameFlip(ops, x.key, k);
    SameChain(ops, y.key, k, x.key);
    assert Distinguished(ops, y, x);
  }

  /** A key is found exactly when some entry has an equal key, and then with that entry's value. */
  lemma FindMeans(ops: KeyOps, items: set<Item>, k: Ptr, v: Ptr)
    requires KeyOpsOk(ops) && ItemsOk(ops, items)
    ensures Find(ops, items, k) == Some(v) <==> exists x :: x in items && Same(ops, x.key, k) && x.value == v
  {
    if x :| x in items && Same(ops, x.key, k) && x.value == v {
      ItemUnique(ops, items, k, x);
    }
  }

  lemma AddedOk(ops: KeyOps, items: set<Item>, k: Ptr, v: Ptr, entry: Ptr)
    requires KeyOpsOk(ops) && ItemsOk(ops, items)
    requires entry != NULL && forall x :: x in items ==> x.entry != entry
    ensures ItemsOk(ops, Added(ops, items, k, v, entry))
  {
    var items' := Added(ops, items, k, v, entry);
    forall x, y | x in items' && y in items' ensures Distinguished(ops, x, y) {
      if Holds(ops, items, k) {
        var z := ItemOf(ops, items, k);
        var z' := z.(value := v);
        assert Distinguished(ops, if x == z' then z else x, if y == z' then z else y);
      } else {
        SameFlip(ops, x.key, k);
        SameFlip(ops, y.key, k);
        assert x in items && y in items ==> Distinguished(ops, x, y);
      }
    }
  }

  /** Adding maps `k`, and every equal key, to `v`, and no other key changes. */
  lemma AddedFind(ops: KeyOps, items: set<Item>, k: Ptr, v: Ptr, entry: Ptr, q: Ptr)
    requires KeyOpsOk(ops) && ItemsOk(ops, items)
    requires entry != NULL && forall x :: x in items ==> x.entry != entry
    ensures Find(ops, Added(ops, items, k, v, entry), q) ==
      if Same(ops, k, q) then Some(v) else Find(ops, items, q)
  {
    var items' := Added(ops, items, k, v, entry);
    AddedOk(ops, items, k, v, entry);
    var n := if Holds(ops, items, k) then ItemOf(ops, items, k).(value := v) else Item(entry, k, v, HashOf(ops, k));
    SameFlip(ops, k, n.key);
    assert n in items' && Same(ops, n.key, k);
    SameChain(ops, n.key, k, q);
    if Same(ops, k, q) {
      ItemUnique(ops, items', q, n);
    } else {
      if x :| x in items && Same(ops, x.key, q) {
        assert x in items';
        ItemUnique(ops, items, q, x);
        ItemUnique(ops, items', q, x);
      }
    }
  }

  /** Removing unmaps exactly the keys equal to `k`. */
  lemma RemovedFind(ops: KeyOps, items: set<Item>, k: Ptr, q: Ptr)
    requires KeyOpsOk(ops) && ItemsOk(ops, items)
    ensures ItemsOk(ops, Removed(ops, items, k))
    ensures Find(ops, Removed(ops, items, k), q) == if Same(ops, k, q) then None else Find(ops, items, q)
  {
    var items' := Removed(ops, items, k);
    if Same(ops, k, q) {
      if x :| x in items' && Same(ops, x.key, q) {
        SameFlip(ops, k, q);
        SameChain(ops, x.key, q, k);
        ItemUnique(ops, items, k, x);
      }
    } else {
      if x :| x in items && Same(ops, x.key, q) {
        if Same(ops, x.key, k) { SameChain(ops, x.key, k, q); }
        ItemUnique(ops, items, q, x);
        ItemUnique(ops, items', q, x);
      }
    }
  }

  // ---------- The chains ----------

  function Head(c: seq<Item>): Ptr {
    if c == [] then NULL else c[0].entry
  }

  /** The pointer reached after `j` steps along the chain. */
  function NodeAt(c: seq<Item>, j: nat): Ptr {
    if j < |c| then c[j].entry else NULL
  }

  /** From place `j` on, the memory links the entries as the chain says. */
  ghost predicate LinkedFrom(m: Memory, c: seq<Item>, j: nat) {
    forall i :: j <= i < |c| ==>
      && c[i].entry in m && c[i].entry != NULL
      && m[c[i].entry] == TableEntry(c[i].key, c[i].value, c[i].hash, NodeAt(c, i + 1))
  }

  lemma ChainStep(m: Memory, c: seq<Item>, j: nat)
    requires LinkedFrom(m, c, 0) && j <= |c|
    ensures NodeAt(c, j) != NULL <==> j < |c|
    ensures j < |c| ==>
      && NodeAt(c, j) in m
      && m[NodeAt(c, j)] == TableEntry(c[j].key, c[j].value, c[j].hash, NodeAt(c, j + 1))
  {
  }

  /** Every bucket pointer leads to its chain. */
  ghost predicate Chains(m: Memory, heads: seq<Ptr>, chains: seq<seq<Item>>) {
    && |heads| == |chains|
    && forall b :: 0 <= b < |heads| ==> heads[b] == Head(chains[b]) && LinkedFrom(m, chains[b], 0)
  }

  /** Each entry lies exactly once in the bucket of its hash, and the buckets hold nothing else. */
  ghost predicate Placed(chains: seq<seq<Item>>, items: set<Item>) {
    && IsPow2(|chains|) && |chains| > 0
    && (forall b, i :: 0 <= b < |chains| && 0 <= i < |chains[b]| ==>
          chains[b][i] in items && Mask(chains[b][i].hash, |chains|) == b)
    && (forall x :: x in items ==> Mask(x.hash, |chains|) < |chains| && x in chains[Mask(x.hash, |chains|)])
    && (forall b, i, j :: 0 <= b < |chains| && 0 <= i < j < |chains[b]| ==> chains[b][i] != chains[b][j])
  }

  ghost function Entries(items: set<Item>): set<Ptr> {
    set x | x in items :: x.entry
  }

  /** A key is in the table exactly when it is in the chain of its hash. */
  lemma SearchChain(ops: KeyOps, items: set<Item>, chains: seq<seq<Item>>, k: Ptr)
    requires KeyOpsOk(ops) && ItemsOk(ops, items) && Placed(chains, items)
    ensures |chains| > 0 && Mask(HashOf(ops, k), |chains|) < |chains|
    ensures var c := chains[Mask(HashOf(ops, k), |chains|)];
      Holds(ops, items, k) <==> exists j :: 0 <= j < |c| && Same(ops, c[j].key, k)
  {
    MaskIsMod(HashOf(ops, k), |chains|);
    var c := chains[Mask(HashOf(ops, k), |chains|)];
    if x :| x in items && Same(ops, x.key, k) {
      SameFlip(ops, x.key, k);
      assert x in c;
      var j :| 0 <= j < |c| && c[j] == x;
    }
  }

  lemma FoundInChain(ops: KeyOps, items: set<Item>, chains: seq<seq<Item>>, k: Ptr, b: nat, j: nat)
    requires KeyOpsOk(ops) && ItemsOk(ops, items) && Placed(chains, items)
    requires b < |chains| && j < |chains[b]| && Same(ops, chains[b][j].key, k)
    ensures chains[b][j] in items && Holds(ops, items, k) && Find(ops, items, k) == Some(chains[b][j].value)
  {
    ItemUnique(ops, items, k, chains[b][j]);
  }

  /** Two entries of the table at different places have different addresses. */
  lemma PlacesApart(ops: KeyOps, items: set<Item>, chains: seq<seq<Item>>, b: nat, i: nat, b': nat, i': nat)
    requires ItemsOk(ops, items) && Placed(chains, items)
    requires b < |chains| && i < |chains[b]| && b' < |chains| && i' < |chains[b']|
    requires (b, i) != (b', i')
    ensures chains[b][i].entry != chains[b'][i'].entry
  {
    assert chains[b][i] in items && chains[b'][i'] in items;
    assert Distinguished(ops, chains[b][i], chains[b'][i']);
    if b == b' {
      if i < i' { assert chains[b][i] != chains[b][i']; } else { assert chains[b][i'] != chains[b][i]; }
    } else {
      assert Mask(chains[b][i].hash, |chains|) != Mask(chains[b'][i'].hash, |chains|);
    }
  }

  // ---------- Changing one chain ----------

  function SetValue(chains: seq<seq<Item>>, b: nat, j: nat, v: Ptr): seq<seq<Item>>
    requires b < |chains| && j < |chains[b]|
  {
    chains[b := chains[b][j := chains[b][j].(value := v)]]
  }

  function PushFront(chains: seq<seq<Item>>, b: nat, x: Item): (r: seq<seq<Item>>)
    requires b < |chains|
    ensures |r| == |chains|
  {
    chains[b := [x] + chains[b]]
  }

  function CutAt(chains: seq<seq<Item>>, b: nat, j: nat): (r: seq<seq<Item>>)
    requires b < |chains| && j < |chains[b]|
    ensures |r| == |chains|
  {
    chains[b := Without(chains[b], j)]
  }

  lemma SetValuePlaced(ops: KeyOps, items: set<Item>, chains: seq<seq<Item>>, b: nat, j: nat, v: Ptr)
    requires ItemsOk(ops, items) && Placed(chains, items) && b < |chains| && j < |chains[b]|
    ensures var x := chains[b][j]; Placed(SetValue(chains, b, j, v), items - {x} + {x.(value := v)})
  {
    var x: Item, chains': seq<seq<Item>> := chains[b][j], SetValue(chains, b, j, v);
    var x' := x.(value := v);
    var items' := items - {x} + {x'};
    assert x in items && Mask(x.hash, |chains|) == b;
    assert chains'[b][j] == x';
    forall y | y in items' ensures y in chains'[Mask(y.hash, |chains|)] {
      if y != x' {
        var d := Mask(y.hash, |chains|);
        var i :| 0 <= i < |chains[d]| && chains[d][i] == y;
        assert chains'[d][i] == y;
      }
    }
    forall d, i | 0 <= d < |chains'| && 0 <= i < |chains'[d]| && (d, i) != (b, j)
      ensures chains'[d][i] != x && chains'[d][i] != x' {
      PlacesApart(ops, items, chains, d, i, b, j);
    }
  }

  lemma PushFrontPlaced(chains: seq<seq<Item>>, items: set<Item>, b: nat, x: Item)
    requires Placed(chains, items) && b == Mask(x.hash, |chains|) < |chains| && x !in items
    ensures Placed(PushFront(chains, b, x), items + {x})
  {
    var chains' := PushFront(chains, b, x);
    assert chains'[b][0] == x;
    forall y | y in items ensures y in chains'[Mask(y.hash, |chains|)] {
      var d := Mask(y.hash, |chains|);
      var i :| 0 <= i < |chains[d]| && chains[d][i] == y;
      assert chains'[d][if d == b then i + 1 else i] == y;
    }
  }

  /** Each entry that is left lies in its bucket. */
  lemma CutMember(items: set<Item>, chains: seq<seq<Item>>, b: nat, j: nat, d: nat, i: nat)
    requires Placed(chains, items) && b < |chains| && j < |chains[b]|
    requires d < |chains| && i < |CutAt(chains, b, j)[d]|
    ensures var x := CutAt(chains, b, j)[d][i]; x in items - {chains[b][j]} && Mask(x.hash, |chains|) == d
  {
    hide Mask, IsPow2, Without;
    assert Mask(chains[b][j].hash, |chains|) == b;
    if d == b {
      WithoutAt(chains[b], j, i);
      var i' := if i < j then i else i + 1;
      assert chains[b][i'] in items && chains[b][if i' < j then i' else j] != chains[b][if i' < j then j else i'];
    }
  }

  /** Each entry but the one cut off is left. */
  lemma CutKeeps(items: set<Item>, chains: seq<seq<Item>>, b: nat, j: nat, x: Item)
    requires Placed(chains, items) && b < |chains| && j < |chains[b]| && x in items && x != chains[b][j]
    ensures Mask(x.hash, |chains|) < |chains| && x in CutAt(chains, b, j)[Mask(x.hash, |chains|)]
  {
    hide Mask, IsPow2, Without;
    var c := chains[b];
    WithoutLength(c, j);
    if Mask(x.hash, |chains|) == b {
      var i :| 0 <= i < |c| && c[i] == x;
      var i' := if i > j then i - 1 else i;
      WithoutAt(c, j, i');
      assert Without(c, j)[i'] == x;
    }
  }

  lemma CutDistinct(items: set<Item>, chains: seq<seq<Item>>, b: nat, j: nat, d: nat, i: nat, k: nat)
    requires Placed(chains, items) && b < |chains| && j < |chains[b]|
    requires d < |chains| && i < k < |CutAt(chains, b, j)[d]|
    ensures CutAt(chains, b, j)[d][i] != CutAt(chains, b, j)[d][k]
  {
    hide Mask, IsPow2, Without;
    if d == b {
      WithoutLength(chains[b], j);
      WithoutAt(chains[b], j, i);
      WithoutAt(chains[b], j, k);
    }
  }

  lemma CutPlaced(ops: KeyOps, items: set<Item>, chains: seq<seq<Item>>, b: nat, j: nat)
    requires ItemsOk(ops, items) && Placed(chains, items) && b < |chains| && j < |chains[b]|
    ensures Placed(CutAt(chains, b, j), items - {chains[b][j]})
  {
    hide Mask, IsPow2, ItemsOk, CutAt;
    var chains', items' := CutAt(chains, b, j), items - {chains[b][j]};
    assert |chains'| == |chains| by { CutLength(chains, b, j); }
    forall y | y in items' ensures Mask(y.hash, |chains'|) < |chains'| && y in chains'[Mask(y.hash, |chains'|)] {
      CutKeeps(items, chains, b, j, y);
    }
    forall d, i | 0 <= d < |chains'| && 0 <= i < |chains'[d]|
      ensures chains'[d][i] in items' && Mask(chains'[d][i].hash, |chains'|) == d
    {
      CutMember(items, chains, b, j, d, i);
    }
    forall d, i, k | 0 <= d < |chains'| && 0 <= i < k < |chains'[d]| ensures chains'[d][i] != chains'[d][k] {
      CutDistinct(items, chains, b, j, d, i, k);
    }
  }

  lemma CutLength(chains: seq<seq<Item>>, b: nat, j: nat)
    requires b < |chains| && j < |chains[b]|
    ensures |CutAt(chains, b, j)| == |chains|
  {
  }

  // ---------- The memory ----------

  lemma ChainFrame(m: Memory, m': Memory, c: seq<Item>, j: nat)
    requires LinkedFrom(m, c, j)
    requires forall i :: j <= i < |c| && c[i].entry in m ==> c[i].entry in m' && m'[c[i].entry] == m[c[i].entry]
    ensures LinkedFrom(m', c, j)
  {
  }

  /** Writing a value through an entry pointer. */
  lemma SetValueChains(ops: KeyOps, m: Memory, heads: seq<Ptr>, items: set<Item>, chains: seq<seq<Item>>,
                       b: nat, j: nat, v: Ptr)
    requires ItemsOk(ops, items) && Placed(chains, items) && Chains(m, heads, chains)
    requires b < |chains| && j < |chains[b]|
    ensures var e := chains[b][j].entry; e in m && Chains(m[e := m[e].(value := v)], heads, SetValue(chains, b, j, v))
  {
    hide Placed, ItemsOk;
    var e := chains[b][j].entry;
    var m', chains' := m[e := m[e].(value := v)], SetValue(chains, b, j, v);
    forall d | 0 <= d < |chains| ensures heads[d] == Head(chains'[d]) && LinkedFrom(m', chains'[d], 0) {
      forall i | 0 <= i < |chains[d]| && (d, i) != (b, j) ensures chains[d][i].entry != e {
        PlacesApart(ops, items, chains, d, i, b, j);
      }
      if d != b { ChainFrame(m, m', chains[d], 0); }
    }
  }

  lemma HeadNode(m: Memory, heads: seq<Ptr>, chains: seq<seq<Item>>, b: nat)
    requires Chains(m, heads, chains) && b < |chains|
    ensures |heads| == |chains| && heads[b] == NodeAt(chains[b], 0) && LinkedFrom(m, chains[b], 0)
  {
  }

  lemma EntriesLive(m: Memory, heads: seq<Ptr>, chains: seq<seq<Item>>)
    requires Chains(m, heads, chains)
    ensures forall d, i :: 0 <= d < |chains| && 0 <= i < |chains[d]| ==> chains[d][i].entry in m
  {
  }

  /** A new entry in front of a chain. */
  lemma PushFrontChains(m: Memory, heads: seq<Ptr>, chains: seq<seq<Item>>, b: nat, x: Item)
    requires Chains(m, heads, chains) && b < |chains| && x.entry != NULL
    requires forall d, i :: 0 <= d < |chains| && 0 <= i < |chains[d]| ==> chains[d][i].entry != x.entry
    ensures |heads| == |chains|
    ensures Chains(m[x.entry := TableEntry(x.key, x.value, x.hash, heads[b])], heads[b := x.entry],
                   PushFront(chains, b, x))
  {
    var m' := m[x.entry := TableEntry(x.key, x.value, x.hash, heads[b])];
    forall d | 0 <= d < |chains| ensures LinkedFrom(m', PushFront(chains, b, x)[d], 0) {
      ChainFrame(m, m', chains[d], 0);
    }
  }

  /** Unlinking an entry: the bucket pointer or the predecessor skips it, and it is freed. */
  function CutHeads(heads: seq<Ptr>, chains: seq<seq<Item>>, b: nat, j: nat): seq<Ptr>
    requires b < |chains| == |heads| && j < |chains[b]|
  {
    if j == 0 then heads[b := NodeAt(chains[b], 1)] else heads
  }

  function CutMemory(m: Memory, chains: seq<seq<Item>>, b: nat, j: nat): Memory
    requires b < |chains| && j < |chains[b]|
    requires j > 0 ==> chains[b][j - 1].entry in m
  {
    var m1 := if j == 0 then m
      else m[chains[b][j - 1].entry := m[chains[b][j - 1].entry].(next := NodeAt(chains[b], j + 1))];
    m1 - {chains[b][j].entry}
  }

  lemma CutChains(ops: KeyOps, m: Memory, heads: seq<Ptr>, items: set<Item>, chains: seq<seq<Item>>, b: nat, j: nat)
    requires ItemsOk(ops, items) && Placed(chains, items) && Chains(m, heads, chains)
    requires b < |chains| && j < |chains[b]|
    ensures |heads| == |chains| && chains[b][j].entry in m
    ensures j > 0 ==> chains[b][j - 1].entry in m && chains[b][j - 1].entry != chains[b][j].entry
    ensures j > 0 ==> chains[b][j - 1].entry != NULL
    ensures Chains(CutMemory(m, chains, b, j), CutHeads(heads, chains, b, j), CutAt(chains, b, j))
  {
    hide Placed, ItemsOk;
    var e := chains[b][j].entry;
    var m', chains' := CutMemory(m, chains, b, j), CutAt(chains, b, j);
    forall d, i | 0 <= d < |chains| && 0 <= i < |chains[d]| && (d, i) != (b, j)
      ensures chains[d][i].entry != e
      ensures (j > 0 && (d, i) != (b, j - 1) ==> chains[d][i].entry != chains[b][j - 1].entry)
    {
      PlacesApart(ops, items, chains, d, i, b, j);
      if j > 0 && (d, i) != (b, j - 1) { PlacesApart(ops, items, chains, d, i, b, j - 1); }
    }
    forall d | 0 <= d < |chains| ensures LinkedFrom(m', chains'[d], 0) {
      if d != b {
        ChainFrame(m, m', chains[d], 0);
      } else {
        CutChain(m, m', chains[b], j);
      }
    }
  }

  lemma CutChain(m: Memory, m': Memory, c: seq<Item>, j: nat)
    requires LinkedFrom(m, c, 0) && j < |c|
    requires forall i :: 0 <= i < |c| && i != j ==> c[i].entry in m'
    requires forall i :: 0 <= i < |c| && i != j ==>
      m'[c[i].entry] == if i == j - 1 then m[c[i].entry].(next := NodeAt(c, j + 1)) else m[c[i].entry]
    ensures LinkedFrom(m', Without(c, j), 0)
  {
    var c' := Without(c, j);
    forall i | 0 <= i < |c'|
      ensures c'[i].entry in m' && c'[i].entry != NULL
        && m'[c'[i].entry] == TableEntry(c'[i].key, c'[i].value, c'[i].hash, NodeAt(c', i + 1))
    {
      var i' := if i < j then i else i + 1;
      assert c'[i] == c[i'];
    }
  }

  // ---------- Counting ----------

  lemma ReplacedItems(ops: KeyOps, items: set<Item>, x: Item, k: Ptr, v: Ptr, entry: Ptr)
    requires KeyOpsOk(ops) && ItemsOk(ops, items) && x in items && Same(ops, x.key, k)
    ensures Added(ops, items, k, v, entry) == items - {x} + {x.(value := v)} && Holds(ops, items, k)
    ensures ItemsOk(ops, Added(ops, items, k, v, entry)) && |Added(ops, items, k, v, entry)| == |items|
    ensures Entries(Added(ops, items, k, v, entry)) == Entries(items)
  {
    ItemUnique(ops, items, k, x);
    var x' := x.(value := v);
    SameFlip(ops, x.key, x.key);
    var items' := items - {x} + {x'};
    if x' in items { assert Distinguished(ops, x', x); }
    forall y, z | y in items' && z in items' ensures Distinguished(ops, y, z) {
      assert Distinguished(ops, if y == x' then x else y, if z == x' then x else z);
    }
    assert forall n :: n in Entries(items) ==> n in Entries(items') by {
      forall n | n in Entries(items) ensures n in Entries(items') {
        var y :| y in items && y.entry == n;
        assert (if y == x then x' else y) in items';
      }
    }
  }

  lemma NewItem(ops: KeyOps, items: set<Item>, k: Ptr, v: Ptr, entry: Ptr)
    requires KeyOpsOk(ops) && ItemsOk(ops, items) && !Holds(ops, items, k)
    requires entry != NULL && entry !in Entries(items)
    ensures var x := Item(entry, k, v, HashOf(ops, k));
      && x !in items && Added(ops, items, k, v, entry) == items + {x}
      && ItemsOk(ops, items + {x}) && |items + {x}| == |items| + 1 && Entries(items + {x}) == Entries(items) + {entry}
  {
    var x := Item(entry, k, v, HashOf(ops, k));
    forall y | y in items ensures y.entry != entry {
      assert y.entry in Entries(items);
    }
    AddedOk(ops, items, k, v, entry);
    assert forall n :: n in Entries(items) ==> n in Entries(items + {x}) by {
      forall n | n in Entries(items) ensures n in Entries(items + {x}) {
        var y :| y in items && y.entry == n;
        assert y in items + {x};
      }
    }
    assert x in items + {x};
  }

  lemma DroppedItem(ops: KeyOps, items: set<Item>, x: Item, k: Ptr)
    requires KeyOpsOk(ops) && ItemsOk(ops, items) && x in items && Same(ops, x.key, k)
    ensures Removed(ops, items, k) == items - {x} && Holds(ops, items, k) && ItemOf(ops, items, k) == x
    ensures ItemsOk(ops, items - {x}) && |items - {x}| == |items| - 1
    ensures Entries(items - {x}) == Entries(items) - {x.entry}
  {
    ItemUnique(ops, items, k, x);
    assert forall n :: n in Entries(items) - {x.entry} ==> n in Entries(items - {x}) by {
      forall n | n in Entries(items) - {x.entry} ensures n in Entries(items - {x}) {
        var y :| y in items && y.entry == n;
        assert y in items - {x};
      }
    }
    forall y | y in items - {x} ensures y.entry != x.entry {
      assert Distinguished(ops, y, x);
    }
  }

  // ---------- The whole table ----------

  ghost predicate TableOk(ops: KeyOps, m: Memory, heads: seq<Ptr>, chains: seq<seq<Item>>, items: set<Item>,
                          size: nat) {
    && KeyOpsOk(ops) && ItemsOk(ops, items) && Placed(chains, items) && Chains(m, heads, chains)
    && m.Keys == Entries(items) && size == |items|
  }

  lemma SetValueTable(ops: KeyOps, m: Memory, heads: seq<Ptr>, chains: seq<seq<Item>>, items: set<Item>, size: nat,
                      b: nat, j: nat, k: Ptr, v: Ptr, entry: Ptr)
    requires TableOk(ops, m, heads, chains, items, size)
    requires b < |chains| && j < |chains[b]| && Same(ops, chains[b][j].key, k)
    ensures var e := chains[b][j].entry;
      && e in m && Holds(ops, items, k)
      && TableOk(ops, m[e := m[e].(value := v)], heads, SetValue(chains, b, j, v), Added(ops, items, k, v, entry), size)
  {
    hide KeyOpsOk, ItemsOk, Placed, Chains, Same, LinkedFrom, Entries;
    FoundInChain(ops, items, chains, k, b, j);
    ReplacedItems(ops, items, chains[b][j], k, v, entry);
    SetValuePlaced(ops, items, chains, b, j, v);
    SetValueChains(ops, m, heads, items, chains, b, j, v);
  }

  lemma PushFrontTable(ops: KeyOps, m: Memory, heads: seq<Ptr>, chains: seq<seq<Item>>, items: set<Item>, size: nat,
                       k: Ptr, v: Ptr, n: Ptr)
    requires TableOk(ops, m, heads, chains, items, size)
    requires !Holds(ops, items, k) && n !in m && n != NULL
    ensures var (h, x) := (HashOf(ops, k), Item(n, k, v, HashOf(ops, k)));
      && |chains| == |heads| > 0 && Mask(h, |chains|) < |chains|
      && var b := Mask(h, |chains|);
        TableOk(ops, m[n := TableEntry(k, v, h, heads[b])], heads[b := n], PushFront(chains, b, x),
                Added(ops, items, k, v, n), size + 1)
  {
    hide KeyOpsOk, ItemsOk, Placed, Chains, Same, LinkedFrom, Entries;
    var x := Item(n, k, v, HashOf(ops, k));
    SearchChain(ops, items, chains, k);
    var b := Mask(x.hash, |chains|);
    NewItem(ops, items, k, v, n);
    PushFrontPlaced(chains, items, b, x);
    EntriesLive(m, heads, chains);
    PushFrontChains(m, heads, chains, b, x);
  }

  lemma CutTable(ops: KeyOps, m: Memory, heads: seq<Ptr>, chains: seq<seq<Item>>, items: set<Item>, size: nat,
                 b: nat, j: nat, k: Ptr)
    requires TableOk(ops, m, heads, chains, items, size)
    requires b < |chains| && j < |chains[b]| && Same(ops, chains[b][j].key, k)
    ensures |heads| == |chains| && Holds(ops, items, k) && ItemOf(ops, items, k) == chains[b][j] && size > 0
    ensures chains[b][j].entry in m
    ensures j > 0 ==> chains[b][j - 1].entry in m && chains[b][j - 1].entry != chains[b][j].entry
    ensures j > 0 ==> chains[b][j - 1].entry != NULL
    ensures TableOk(ops, CutMemory(m, chains, b, j), CutHeads(heads, chains, b, j), CutAt(chains, b, j),
                    Removed(ops, items, k), size - 1)
  {
    hide KeyOpsOk, ItemsOk, Placed, Chains, Same, LinkedFrom, Entries;
    FoundInChain(ops, items, chains, k, b, j);
    DroppedItem(ops, items, chains[b][j], k);
    CutPlaced(ops, items, chains, b, j);
    CutChains(ops, m, heads, items, chains, b, j);
  }

  /** The first `j` entries of a chain all have another key. */
  ghost predicate Passed(ops: KeyOps, c: seq<Item>, j: nat, k: Ptr) {
    j <= |c| && forall t :: 0 <= t < j ==> !Same(ops, c[t].key, k)
  }

  /** Where a key is looked for; a chain passed to its end means that the key is not there. */
  lemma SearchTable(ops: KeyOps, m: Memory, heads: seq<Ptr>, chains: seq<seq<Item>>, items: set<Item>, size: nat,
                    k: Ptr)
    requires TableOk(ops, m, heads, chains, items, size)
    ensures |chains| == |heads| > 0 && Mask(HashOf(ops, k), |chains|) < |chains|
    ensures var b := Mask(HashOf(ops, k), |chains|); var c := chains[b];
      && heads[b] == NodeAt(c, 0) && LinkedFrom(m, c, 0) && Passed(ops, c, 0, k) && (heads[b] != NULL <==> |c| > 0)
      && (Passed(ops, c, |c|, k) ==> !Holds(ops, items, k))
  {
    SearchChain(ops, items, chains, k);
  }

  /** An entry met on the way whose key is equal is the entry of the key. */
  lemma HitTable(ops: KeyOps, m: Memory, heads: seq<Ptr>, chains: seq<seq<Item>>, items: set<Item>, size: nat,
                 k: Ptr, b: nat, j: nat)
    requires TableOk(ops, m, heads, chains, items, size)
    requires b < |chains| && j < |chains[b]| && Same(ops, chains[b][j].key, k)
    ensures Holds(ops, items, k) && Find(ops, items, k) == Some(chains[b][j].value)
  {
    FoundInChain(ops, items, chains, k, b, j);
  }

  /** One step of a search: what it reads, and what a comparison tells. */
  lemma StepPast(ops: KeyOps, m: Memory, c: seq<Item>, j: nat, k: Ptr)
    requires KeyOpsOk(ops) && LinkedFrom(m, c, 0) && Passed(ops, c, j, k) && j < |c|
    ensures NodeAt(c, j) in m
      && m[NodeAt(c, j)] == TableEntry(c[j].key, c[j].value, c[j].hash, NodeAt(c, j + 1))
    ensures NodeAt(c, j + 1) != NULL <==> j + 1 < |c|
    ensures Same(ops, c[j].key, k) <==>
      if k == NULL then c[j].key == NULL else c[j].key != NULL && ops.cmp(c[j].key, k) == 0
    ensures Same(ops, c[j].key, k) <==>
      if k == NULL then c[j].key == NULL else c[j].key != NULL && ops.cmp(k, c[j].key) == 0
    ensures !Same(ops, c[j].key, k) ==> Passed(ops, c, j + 1, k)
  {
    hide KeyOpsOk, LinkedFrom, Same;
    ChainStep(m, c, j);
    ChainStep(m, c, j + 1);
    SameKey(ops, c[j].key, k);
  }

  /** The NULL key hashes to bucket 0. */
  lemma NullBucket(ops: KeyOps, capacity: nat)
    requires capacity > 0
    ensures Mask(HashOf(ops, NULL), capacity) == 0
  {
  }

  // ---------- Moving every entry to new buckets ----------

  /** The place `(d, t)` is still ahead of a walk that has reached `(b, j)`. */
  predicate Ahead(b: nat, j: nat, d: nat, t: nat) {
    d > b || (d == b && t >= j)
  }

  /** The entries before `(b, j)` have been moved, and the others are linked as they were. */
  ghost predicate Moving(ops: KeyOps, m: Memory, source: seq<seq<Item>>, items: set<Item>, b: nat, j: nat,
                         heads: seq<Ptr>, target: seq<seq<Item>>, moved: set<Item>)
  {
    && ItemsOk(ops, items) && Placed(source, items) && moved <= items
    && Placed(target, moved) && Chains(m, heads, target)
    && (forall d :: b <= d < |source| ==> LinkedFrom(m, source[d], if d == b then j else 0))
    && (forall d, t :: 0 <= d < |source| && 0 <= t < |source[d]| ==>
          (source[d][t] in moved <==> !Ahead(b, j, d, t)))
  }

  function EmptyBuckets(n: nat): seq<seq<Item>> {
    seq(n, _ => [])
  }

  lemma EmptyTable(ops: KeyOps, heads: seq<Ptr>)
    requires KeyOpsOk(ops) && IsPow2(|heads|) && |heads| > 0 && forall d :: 0 <= d < |heads| ==> heads[d] == NULL
    ensures TableOk(ops, map[], heads, EmptyBuckets(|heads|), {}, 0)
  {
    hide KeyOpsOk, IsPow2, Mask;
    var m: Memory := map[];
    assert m.Keys == Entries({});
  }

  lemma MoveBegin(ops: KeyOps, m: Memory, oldHeads: seq<Ptr>, source: seq<seq<Item>>, items: set<Item>, heads: seq<Ptr>)
    requires ItemsOk(ops, items) && Placed(source, items) && Chains(m, oldHeads, source)
    requires IsPow2(|heads|) && |heads| > 0 && forall d :: 0 <= d < |heads| ==> heads[d] == NULL
    ensures Moving(ops, m, source, items, 0, 0, heads, EmptyBuckets(|heads|), {})
  {
    hide ItemsOk, Mask, IsPow2;
  }

  lemma MoveStep(ops: KeyOps, m: Memory, source: seq<seq<Item>>, items: set<Item>, b: nat, j: nat,
                 heads: seq<Ptr>, target: seq<seq<Item>>, moved: set<Item>)
    requires Moving(ops, m, source, items, b, j, heads, target, moved)
    requires b < |source| && j < |source[b]|
    ensures var x := source[b][j]; var e := x.entry;
      && e in m && m[e] == TableEntry(x.key, x.value, x.hash, NodeAt(source[b], j + 1))
      && |target| == |heads| > 0 && Mask(x.hash, |heads|) < |heads|
      && var i := Mask(x.hash, |heads|);
        Moving(ops, m[e := m[e].(next := heads[i])], source, items, b, j + 1,
               heads[i := e], PushFront(target, i, x), moved + {x})
  {
    hide ItemsOk, Mask, IsPow2, Placed, Chains, PushFront;
    var x := source[b][j];
    assert x in items && x !in moved by { InItems(source, items, b, j); }
    TargetSlot(target, moved, m, heads, x.hash);
    PushFrontPlaced(target, moved, Mask(x.hash, |target|), x);
    forall d, t | 0 <= d < |target| && 0 <= t < |target[d]| ensures target[d][t].entry != x.entry {
      InItems(target, moved, d, t);
      assert Distinguished(ops, target[d][t], x) by { DistinctItems(ops, items, target[d][t], x); }
    }
    PushFrontChains(m, heads, target, Mask(x.hash, |target|), x);
    var m' := m[x.entry := m[x.entry].(next := heads[Mask(x.hash, |target|)])];
    forall d, t | 0 <= d < |source| && 0 <= t < |source[d]| && (d, t) != (b, j)
      ensures source[d][t].entry != x.entry && source[d][t] != x
    {
      PlacesApart(ops, items, source, d, t, b, j);
    }
    forall d | b <= d < |source| ensures LinkedFrom(m', source[d], if d == b then j + 1 else 0) {
      ChainFrame(m, m', source[d], if d == b then j + 1 else 0);
    }
  }

  lemma InItems(chains: seq<seq<Item>>, items: set<Item>, b: nat, j: nat)
    requires Placed(chains, items) && b < |chains| && j < |chains[b]|
    ensures chains[b][j] in items && Mask(chains[b][j].hash, |chains|) == b
  {
  }

  lemma DistinctItems(ops: KeyOps, items: set<Item>, x: Item, y: Item)
    requires ItemsOk(ops, items) && x in items && y in items
    ensures Distinguished(ops, x, y) && x.entry != NULL
  {
  }

  lemma TargetSlot(chains: seq<seq<Item>>, items: set<Item>, m: Memory, heads: seq<Ptr>, hash: nat)
    requires Placed(chains, items) && Chains(m, heads, chains)
    ensures |chains| == |heads| > 0 && Mask(hash, |chains|) < |chains|
  {
    MaskIsMod(hash, |chains|);
  }

  /** A bucket has been emptied: the walk goes on at the head of the next one. */
  lemma MoveNext(ops: KeyOps, m: Memory, source: seq<seq<Item>>, items: set<Item>, b: nat, j: nat,
                 heads: seq<Ptr>, target: seq<seq<Item>>, moved: set<Item>)
    requires b < |source| && j <= |source[b]| && NodeAt(source[b], j) == NULL
    requires Moving(ops, m, source, items, b, j, heads, target, moved)
    ensures Moving(ops, m, source, items, b + 1, 0, heads, target, moved)
  {
    hide ItemsOk, Placed, Chains;
    assert LinkedFrom(m, source[b], j);
  }

  lemma MoveEnd(ops: KeyOps, m: Memory, source: seq<seq<Item>>, items: set<Item>,
                heads: seq<Ptr>, target: seq<seq<Item>>, moved: set<Item>)
    requires Moving(ops, m, source, items, |source|, 0, heads, target, moved)
    ensures moved == items && Placed(target, items) && Chains(m, heads, target)
  {
    hide ItemsOk, Mask, IsPow2, Chains, LinkedFrom;
    forall x | x in items ensures x in moved {
      var c := source[Mask(x.hash, |source|)];
      var t :| 0 <= t < |c| && c[t] == x;
    }
  }

  /** The first entry of a bucket can be cut off. */
  lemma CutFirst(ops: KeyOps, m: Memory, heads: seq<Ptr>, chains: seq<seq<Item>>, items: set<Item>, size: nat, b: nat)
    requires TableOk(ops, m, heads, chains, items, size) && b < |chains| && heads[b] != NULL
    ensures |chains| == |heads| && |chains[b]| > 0 && size > 0
    ensures var x := chains[b][0];
      && heads[b] == x.entry && x.entry in m && m[x.entry].next == NodeAt(chains[b], 1)
      && TableOk(ops, m - {x.entry}, heads[b := NodeAt(chains[b], 1)], CutAt(chains, b, 0), items - {x}, size - 1)
  {
    hide ItemsOk, Placed, Entries;
    var x := chains[b][0];
    SameFlip(ops, x.key, x.key);
    DroppedItem(ops, items, x, x.key) by { InItems(chains, items, b, 0); }
    CutTable(ops, m, heads, chains, items, size, b, 0, x.key);
  }

  lemma NoEntries(ops: KeyOps, m: Memory, heads: seq<Ptr>, chains: seq<seq<Item>>, items: set<Item>, size: nat)
    requires TableOk(ops, m, heads, chains, items, size) && forall b :: 0 <= b < |heads| ==> heads[b] == NULL
    ensures items == {} && m == map[] && size == 0
  {
    forall b | 0 <= b < |chains| ensures chains[b] == [] {
      HeadNode(m, heads, chains, b);
      ChainStep(m, chains[b], 0);
    }
    assert items == {};
    assert m.Keys == {};
  }
}
