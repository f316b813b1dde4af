/** Whole runs: what a container answers after any sequence of operations. */
module Runs {
  import opened Common
  import opened Words
  import opened ListSpec
  import TreeModel
  import TreeSpec
  import TreeTables
  import HashModel
  import HashTables
  import TstSpec
  import TstModel
  import TstTables
  import Rings
  import Deques

  datatype MapOp<K> = Put(key: K, value: Ptr) | Drop(key: K) | Look(key: K) | Clear

  /** The value of the latest operation that concerns `q`; `same(k, q)` says that the keys are equal. */
  function LastWrite<K>(same: (K, K) -> bool, ops: seq<MapOp<K>>, q: K): Option<Ptr> {
    if ops == [] then None
    else
      var was := LastWrite(same, ops[..|ops| - 1], q);
      match ops[|ops| - 1]
      case Put(k, v) => if same(k, q) then Some(v) else was
      case Drop(k) => if same(k, q) then None else was
      case Look(_) => was
      case Clear => None
  }

  /** What the run must be told: for each lookup and each removal, the latest write before it. */
  function Replies<K>(same: (K, K) -> bool, ops: seq<MapOp<K>>): seq<Option<Ptr>> {
    if ops == [] then []
    else
      var before := ops[..|ops| - 1];
      Replies(same, before) +
      match ops[|ops| - 1]
      case Put(_, _) => []
      case Drop(k) => [LastWrite(same, before, k)]
      case Look(k) => [LastWrite(same, before, k)]
      case Clear => []
  }

  lemma RepliesNext<K(!new)>(same: (K, K) -> bool, ops: seq<MapOp<K>>, op: MapOp<K>, find: K -> Option<Ptr>)
    requires Answers(same, ops, find)
    ensures Replies(same, ops + [op]) == Replies(same, ops) + if op.Drop? || op.Look? then [find(op.key)] else []
  {
    assert (ops + [op])[..|ops|] == ops;
    if op.Drop? || op.Look? { assert AnswersAt(same, ops, find, op.key); }
  }

  /** `find` answers every key as the run says. */
  ghost predicate Answers<K(!new)>(same: (K, K) -> bool, ops: seq<MapOp<K>>, find: K -> Option<Ptr>) {
    forall q :: AnswersAt(same, ops, find, q)
  }

  ghost predicate AnswersAt<K>(same: (K, K) -> bool, ops: seq<MapOp<K>>, find: K -> Option<Ptr>, q: K) {
    find(q) == LastWrite(same, ops, q)
  }

  /** One more operation. */
  lemma AnswersNext<K(!new)>(same: (K, K) -> bool, ops: seq<MapOp<K>>, op: MapOp<K>,
                    find: K -> Option<Ptr>, find': K -> Option<Ptr>)
    requires Answers(same, ops, find)
    requires forall q :: Next(same, op, find, find', q)
    ensures Answers(same, ops + [op], find')
  {
    assert (ops + [op])[..|ops|] == ops;
    forall q ensures AnswersAt(same, ops + [op], find', q) {
      assert AnswersAt(same, ops, find, q) && Next(same, op, find, find', q);
    }
  }

  ghost predicate Next<K>(same: (K, K) -> bool, op: MapOp<K>, find: K -> Option<Ptr>, find': K -> Option<Ptr>, q: K) {
    find'(q) ==
      match op
      case Put(k, v) => if same(k, q) then Some(v) else find(q)
      case Drop(k) => if same(k, q) then None else find(q)
      case Look(_) => find(q)
      case Clear => None
  }

  // ---------- The tree table ----------

  function TreeSame(cmp: Comparator): (Ptr, Ptr) -> bool {
    (k, q) => cmp(q, k) == 0
  }

  ghost function TreeFind(cmp: Comparator, es: seq<TreeModel.Entry>): Ptr -> Option<Ptr> {
    q => TreeSpec.Lookup(cmp, es, q)
  }

  lemma TreePut(cmp: Comparator, es: seq<TreeModel.Entry>, k: Ptr, v: Ptr, node: Ptr, q: Ptr)
    requires TotalPreorder(cmp) && TreeSpec.Sorted(cmp, es)
    ensures Next(TreeSame(cmp), Put(k, v), TreeFind(cmp, es), TreeFind(cmp, TreeSpec.Added(cmp, es, k, v, node)), q)
  {
    TreeSpec.AddedLookup(cmp, es, k, v, node, q);
  }

  lemma TreeDrop(cmp: Comparator, es: seq<TreeModel.Entry>, k: Ptr, q: Ptr)
    requires TotalPreorder(cmp) && TreeSpec.Sorted(cmp, es)
    ensures var es' := if TreeSpec.Has(cmp, es, k) then Without(es, TreeSpec.Position(cmp, es, k)) else es;
      Next(TreeSame(cmp), Drop(k), TreeFind(cmp, es), TreeFind(cmp, es'), q)
  {
    hide TotalPreorder, TreeSpec.Sorted;
    var i := TreeSpec.Position(cmp, es, k);
    if TreeSpec.Has(cmp, es, k) {
      TreeSpec.WithoutLookup(cmp, es, i, q);
      TreeSpec.EqualKeys(cmp, q, k, es[i].key);
    } else if cmp(q, k) == 0 && TreeSpec.Has(cmp, es, q) {
      var j := TreeSpec.Position(cmp, es, q);
      Flip(cmp, q, k);
      TreeSpec.EqualKeys(cmp, es[j].key, q, k);
      Flip(cmp, q, es[j].key);
      Flip(cmp, es[j].key, k);
      Flip(cmp, k, es[j].key);
      TreeSpec.FoundAt(cmp, es, k, j);
    }
  }

  /** After any run the tree table answers every key with its latest write. */
  method RunTree(cmp: Comparator, ops: seq<MapOp<Ptr>>)
    returns (t: TreeTables.TreeTable, replies: seq<Option<Ptr>>)
    requires TotalPreorder(cmp)
    ensures fresh(t) && t.Valid() && t.cmp == cmp
    ensures Answers(TreeSame(cmp), ops, TreeFind(cmp, t.Entries())) && replies == Replies(TreeSame(cmp), ops)
  {
    hide TotalPreorder, TreeSpec.Sorted, TreeSpec.Position, Answers, Next, Replies,
      TreeSpec.Added, TreeSpec.Has, Without;
    t := new TreeTables.TreeTable(cmp);
    NoEntries(cmp);
    NothingWritten(TreeSame(cmp), TreeFind(cmp, []));
    var i := 0;
    replies := [];
    assert ops[..0] == [];
    while i < |ops|
      invariant i <= |ops| && fresh(t) && t.Valid() && t.cmp == cmp
      invariant Answers(TreeSame(cmp), ops[..i], TreeFind(cmp, t.Entries()))
      invariant replies == Replies(TreeSame(cmp), ops[..i])
    {
      ghost var es := t.Entries();
      t.EntriesSorted();
      match ops[i] {
        case Put(k, v) =>
          var _, node := t.Add(k, v);
          forall q ensures Next(TreeSame(cmp), ops[i], TreeFind(cmp, es), TreeFind(cmp, t.Entries()), q) {
            TreePut(cmp, es, k, v, node, q);
          }
        case Drop(k) =>
          var stat, out := t.Remove(k);
          replies := replies + [if stat == CC_OK then Some(out) else None];
          forall q ensures Next(TreeSame(cmp), ops[i], TreeFind(cmp, es), TreeFind(cmp, t.Entries()), q) {
            TreeDrop(cmp, es, k, q);
          }
        case Look(k) =>
          var stat, out := t.Get(k);
          replies := replies + [if stat == CC_OK then Some(out) else None];
          NextLook(TreeSame(cmp), k, TreeFind(cmp, es));
        case Clear =>
          t.RemoveAll();
          NextClear(TreeSame(cmp), TreeFind(cmp, es), TreeFind(cmp, []));
      }
      AnswersNext(TreeSame(cmp), ops[..i], ops[i], TreeFind(cmp, es), TreeFind(cmp, t.Entries()));
      RepliesNext(TreeSame(cmp), ops[..i], ops[i], TreeFind(cmp, es));
      assert ops[..i + 1] == ops[..i] + [ops[i]];
      i := i + 1;
    }
    assert ops[..i] == ops;
  }

  lemma NoEntries(cmp: Comparator)
    ensures forall q :: TreeSpec.Lookup(cmp, [], q) == None
  {
  }

  lemma NothingWritten<K(!new)>(same: (K, K) -> bool, find: K -> Option<Ptr>)
    requires forall q :: find(q) == None
    ensures Answers(same, [], find) && Replies(same, []) == []
  {
    forall q ensures AnswersAt(same, [], find, q) {
    }
  }

  lemma NextLook<K(!new)>(same: (K, K) -> bool, k: K, find: K -> Option<Ptr>)
    ensures forall q :: Next(same, Look(k), find, find, q)
  {
    forall q ensures Next(same, Look(k), find, find, q) {
    }
  }

  lemma NextClear<K(!new)>(same: (K, K) -> bool, find: K -> Option<Ptr>, find': K -> Option<Ptr>)
    requires forall q :: find'(q) == None
    ensures forall q :: Next(same, Clear, find, find', q)
  {
    forall q ensures Next(same, Clear, find, find', q) {
    }
  }

  // ---------- The hash table ----------

  function HashSame(ops: HashModel.KeyOps): (Ptr, Ptr) -> bool {
    (k, q) => HashModel.Same(ops, k, q)
  }

  ghost function HashFind(ops: HashModel.KeyOps, items: set<HashModel.Item>): Ptr -> Option<Ptr> {
    q => HashModel.Find(ops, items, q)
  }

  lemma HashPut(ops: HashModel.KeyOps, items: set<HashModel.Item>, k: Ptr, v: Ptr, n: Ptr, q: Ptr)
    requires HashModel.KeyOpsOk(ops) && HashModel.ItemsOk(ops, items)
    requires !HashModel.Holds(ops, items, k) ==> n != NULL && n !in HashModel.Entries(items)
    ensures Next(HashSame(ops), Put(k, v), HashFind(ops, items), HashFind(ops, HashModel.Added(ops, items, k, v, n)), q)
  {
    hide HashModel.KeyOpsOk, HashModel.ItemsOk, HashModel.Holds, HashModel.Same, HashModel.Find;
    FreshExists(HashModel.Entries(items));
    var e :| e !in HashModel.Entries(items) && e != NULL;
    var n' := if HashModel.Holds(ops, items, k) then e else n;
    forall x | x in items ensures x.entry != n' {
      assert x.entry in HashModel.Entries(items);
    }
    HashModel.AddedFind(ops, items, k, v, n', q);
  }

  lemma HashDrop(ops: HashModel.KeyOps, items: set<HashModel.Item>, k: Ptr, q: Ptr)
    requires HashModel.KeyOpsOk(ops) && HashModel.ItemsOk(ops, items)
    ensures Next(HashSame(ops), Drop(k), HashFind(ops, items), HashFind(ops, HashModel.Removed(ops, items, k)), q)
  {
    HashModel.RemovedFind(ops, items, k, q);
  }

  /**
    After any run the hash table answers every key, NULL included, with its latest write. The run
    ends early only if the table cannot grow any more.
   */
  method RunHash(keys: HashModel.KeyOps, limit: nat -> nat, capacity: nat, ops: seq<MapOp<Ptr>>)
    returns (t: HashTables.HashTable, replies: seq<Option<Ptr>>, i: nat)
    requires HashModel.KeyOpsOk(keys)
    ensures fresh(t) && t.Valid() && t.ops == keys && i <= |ops|
    ensures Answers(HashSame(keys), ops[..i], HashFind(keys, t.items)) && replies == Replies(HashSame(keys), ops[..i])
    ensures i < |ops| ==> t.capacity == MAX_POW_TWO && t.size >= t.threshold
  {
    hide HashModel.KeyOpsOk, HashModel.TableOk, Answers, Next, Replies, HashModel.Find,
      HashModel.Added, HashModel.Removed, HashModel.Holds, Pow2, LeastPow2;
    t := new HashTables.HashTable(keys, limit, capacity);
    NoItems(keys);
    NothingWritten(HashSame(keys), HashFind(keys, {}));
    i := 0;
    replies := [];
    assert ops[..0] == [];
    while i < |ops|
      invariant i <= |ops| && fresh(t) && fresh(t.buckets) && t.Valid() && t.ops == keys
      invariant Answers(HashSame(keys), ops[..i], HashFind(keys, t.items))
      invariant replies == Replies(HashSame(keys), ops[..i])
    {
      ghost var items := t.items;
      t.ItemsFacts();
      match ops[i] {
        case Put(k, v) =>
          var stat, n := t.Add(k, v);
          if stat != CC_OK {
            return;
          }
          forall q ensures Next(HashSame(keys), ops[i], HashFind(keys, items), HashFind(keys, t.items), q) {
            HashPut(keys, items, k, v, n, q);
          }
        case Drop(k) =>
          ItemFound(keys, items, k);
          var stat, out, _, _ := t.Remove(k);
          replies := replies + [if stat == CC_OK then Some(out) else None];
          forall q ensures Next(HashSame(keys), ops[i], HashFind(keys, items), HashFind(keys, t.items), q) {
            HashDrop(keys, items, k, q);
          }
        case Look(k) =>
          ItemFound(keys, items, k);
          var stat, out := t.Get(k);
          replies := replies + [if stat == CC_OK then Some(out) else None];
          NextLook(HashSame(keys), k, HashFind(keys, items));
        case Clear =>
          t.RemoveAll();
          NextClear(HashSame(keys), HashFind(keys, items), HashFind(keys, {}));
      }
      AnswersNext(HashSame(keys), ops[..i], ops[i], HashFind(keys, items), HashFind(keys, t.items));
      RepliesNext(HashSame(keys), ops[..i], ops[i], HashFind(keys, items));
      assert ops[..i + 1] == ops[..i] + [ops[i]];
      i := i + 1;
    }
  }

  lemma ItemFound(ops: HashModel.KeyOps, items: set<HashModel.Item>, k: Ptr)
    ensures HashModel.Find(ops, items, k) ==
      if HashModel.Holds(ops, items, k) then Some(HashModel.ItemOf(ops, items, k).value) else None
  {
  }

  lemma NoItems(ops: HashModel.KeyOps)
    ensures forall q :: HashModel.Find(ops, {}, q) == None
  {
  }

  // ---------- The ternary search tree ----------

  ghost function WordSame(cmp: Comparator): (TstSpec.Word, TstSpec.Word) -> bool {
    (k, q) => TstSpec.SameWord(cmp, q, k)
  }

  ghost function WordFind(cmp: Comparator, t: TstSpec.Tree): TstSpec.Word -> Option<Ptr> {
    q => if q == [] then None else
      match TstSpec.Find(cmp, t, q) case None => None case Some(e) => Some(e.value)
  }

  lemma WordNext(cmp: Comparator, t: TstSpec.Tree, t': TstSpec.Tree, op: MapOp<TstSpec.Word>,
                 e: TstSpec.TstEntry, q: TstSpec.Word)
    requires (op.Put? || op.Drop?) && op.key != []
    requires op.Put? ==> e.value == op.value
    requires TstSpec.Updates(cmp, t, t', op.key, if op.Put? then Some(e) else None)
    ensures Next(WordSame(cmp), op, WordFind(cmp, t), WordFind(cmp, t'), q)
  {
    if q != [] {
      TstSpec.UpdatesHere(cmp, t, t', op.key, if op.Put? then Some(e) else None, q);
    }
  }

  lemma WordAbsent(cmp: Comparator, t: TstSpec.Tree, k: TstSpec.Word)
    requires TotalPreorder(cmp) && TstSpec.Ordered(cmp, t) && k != [] && TstSpec.Find(cmp, t, k) == None
    ensures TstSpec.Updates(cmp, t, t, k, None)
  {
    hide TotalPreorder;
    forall u: TstSpec.Word | u != [] ensures TstSpec.UpdatesAt(cmp, t, t, k, None, u) {
      if TstSpec.SameWord(cmp, u, k) { TstSpec.FindSame(cmp, t, u, k); }
    }
  }

  /**
    After any run with non-empty keys the ternary search tree answers every word with its latest
    write, and its size is the number of the words it spells.
   */
  method RunTst(cmp: Comparator, ops: seq<MapOp<TstSpec.Word>>)
    returns (t: TstTables.TstTable, replies: seq<Option<Ptr>>)
    requires TotalPreorder(cmp) && forall i :: 0 <= i < |ops| && !ops[i].Clear? ==> ops[i].key != []
    ensures fresh(t) && t.Valid() && t.cmp == cmp && t.size == |TstSpec.Keys(t.tree)|
    ensures Answers(WordSame(cmp), ops, WordFind(cmp, t.tree)) && replies == Replies(WordSame(cmp), ops)
  {
    hide TotalPreorder, Answers, Next, Replies, TstSpec.Updates, TstModel.TableOk, TstSpec.Find;
    t := new TstTables.TstTable(cmp);
    NoWords(cmp);
    NothingWritten(WordSame(cmp), WordFind(cmp, TstSpec.Nil));
    var i := 0;
    replies := [];
    assert ops[..0] == [];
    while i < |ops|
      invariant i <= |ops| && fresh(t) && t.Valid() && t.cmp == cmp
      invariant Answers(WordSame(cmp), ops[..i], WordFind(cmp, t.tree))
      invariant replies == Replies(WordSame(cmp), ops[..i])
    {
      ghost var tree := t.tree;
      t.TreeFacts();
      match ops[i] {
        case Put(k, v) =>
          var _, e := t.Add(k, v);
          forall q ensures Next(WordSame(cmp), ops[i], WordFind(cmp, tree), WordFind(cmp, t.tree), q) {
            WordNext(cmp, tree, t.tree, ops[i], e, q);
          }
        case Drop(k) =>
          var stat, out := t.Remove(k);
          replies := replies + [if stat == CC_OK then Some(out) else None];
          if stat != CC_OK { WordAbsent(cmp, tree, k); }
          forall q ensures Next(WordSame(cmp), ops[i], WordFind(cmp, tree), WordFind(cmp, t.tree), q) {
            WordNext(cmp, tree, t.tree, ops[i], TstSpec.TstEntry(NULL, [], NULL), q);
          }
        case Look(k) =>
          var stat, out := t.Get(k);
          replies := replies + [if stat == CC_OK then Some(out) else None];
          NextLook(WordSame(cmp), k, WordFind(cmp, tree));
        case Clear =>
          t.RemoveAll();
          NextClear(WordSame(cmp), WordFind(cmp, tree), WordFind(cmp, TstSpec.Nil));
      }
      AnswersNext(WordSame(cmp), ops[..i], ops[i], WordFind(cmp, tree), WordFind(cmp, t.tree));
      RepliesNext(WordSame(cmp), ops[..i], ops[i], WordFind(cmp, tree));
      assert ops[..i + 1] == ops[..i] + [ops[i]];
      i := i + 1;
    }
    assert ops[..i] == ops;
    t.TreeFacts();
    TstSpec.KeysCount(cmp, t.tree);
  }

  lemma NoWords(cmp: Comparator)
    ensures forall q :: WordFind(cmp, TstSpec.Nil)(q) == None
  {
  }

  // ---------- The deque and the queue ----------

  datatype DequeOp = AddFirst(x: Ptr) | AddLast(x: Ptr) | RemoveFirst | RemoveLast

  /** What a plain sequence holds after the operations. */
  function Plain(ops: seq<DequeOp>): seq<Ptr> {
    if ops == [] then [] else PlainStep(Plain(ops[..|ops| - 1]), ops[|ops| - 1])
  }

  function PlainStep(s: seq<Ptr>, op: DequeOp): seq<Ptr> {
    match op
    case AddFirst(x) => [x] + s
    case AddLast(x) => s + [x]
    case RemoveFirst => if s == [] then [] else s[1..]
    case RemoveLast => if s == [] then [] else s[..|s| - 1]
  }

  /** The elements that the removals of the run must return, in order. */
  function Taken(ops: seq<DequeOp>): seq<Ptr> {
    if ops == [] then []
    else
      var s := Plain(ops[..|ops| - 1]);
      Taken(ops[..|ops| - 1]) +
      match ops[|ops| - 1]
      case AddFirst(_) => []
      case AddLast(_) => []
      case RemoveFirst => if s == [] then [] else [s[0]]
      case RemoveLast => if s == [] then [] else [s[|s| - 1]]
  }

  /** The deque holds and returns what a plain sequence would, as long as it can grow. */
  method RunDeque(capacity: nat, ops: seq<DequeOp>) returns (d: Deques.Deque, taken: seq<Ptr>, i: nat)
    requires IsPow2(capacity)
    ensures fresh(d) && d.Valid() && i <= |ops| && d.Elements() == Plain(ops[..i]) && taken == Taken(ops[..i])
    ensures i < |ops| ==> d.size == d.capacity == MAX_POW_TWO
  {
    hide IsPow2, Pow2, Deques.Deque.Valid, Deques.Deque.Elements, Rings.Contents, Rings.Slot, LeastPow2;
    d := new Deques.Deque(capacity);
    taken, i := [], 0;
    while i < |ops|
      invariant i <= |ops| && fresh(d) && fresh(d.buffer) && d.Valid() && d.Elements() == Plain(ops[..i])
      invariant taken == Taken(ops[..i])
    {
      var stat, x := CC_OK, NULL;
      assert ops[..i + 1][..i] == ops[..i];
      match ops[i] {
        case AddFirst(x) => stat := d.AddFirst(x);
        case AddLast(x) => stat := d.AddLast(x);
        case RemoveFirst =>
          stat, x := d.RemoveFirst();
          if stat == CC_OK { taken := taken + [x]; }
        case RemoveLast =>
          stat, x := d.RemoveLast();
          if stat == CC_OK { taken := taken + [x]; }
      }
      if stat == CC_ERR_ALLOC {
        return;
      }
      i := i + 1;
    }
  }

  /** An ordinary run that ends in a wrong shift: removing the element 6 loses the element 9. */
  method WrongShiftReached() returns (d: Deques.Deque, before: seq<Ptr>)
    ensures fresh(d) && d.Valid() && before == [3, 4, 5, 6, 7, 8, 9]
    ensures d.Elements() == [3, 4, 5, 7, 8, 8] != Without(before, 3)
  {
    hide IsPow2, Pow2, Rings.RemovedRing, Rings.ShiftsWrong;
    d := WrappedDeque();
    before := [3, 4, 5, 6, 7, 8, 9];
    Rings.WrongShiftExample(d.buffer[..]);
    var _, _ := d.RemoveAt(3);
    assert Without(before, 3) == [3, 4, 5, 7, 8, 9];
    assert d.Elements()[5] == 8 && Without(before, 3)[5] == 9;
  }

  /** Three elements enter and leave, then seven enter: the last two lie at the start of the buffer. */
  method WrappedDeque() returns (d: Deques.Deque)
    ensures fresh(d) && fresh(d.buffer) && d.Valid() && d.capacity == 8 && d.first == 3 && d.size == 7
    ensures d.Elements() == [3, 4, 5, 6, 7, 8, 9]
  {
    hide IsPow2, Pow2, Deques.Deque.Valid, Deques.Deque.Elements, Rings.Contents, LeastPow2;
    EightIsPow2();
    d := new Deques.Deque(8);
    var x := 0;
    while x < 3
      invariant 0 <= x <= 3 && fresh(d) && fresh(d.buffer) && d.Valid() && d.capacity == 8
      invariant d.first == 0 && d.size == x
    {
      var _ := d.AddLast(x);
      x := x + 1;
    }
    var i := 0;
    while i < 3
      invariant 0 <= i <= 3 && fresh(d) && fresh(d.buffer) && d.Valid() && d.capacity == 8
      invariant d.first == i && d.size == 3 - i
    {
      var _, _ := d.RemoveFirst();
      i := i + 1;
    }
    assert d.Elements() == [];
    while x < 10
      invariant 3 <= x <= 10 && fresh(d) && fresh(d.buffer) && d.Valid() && d.capacity == 8
      invariant d.first == 3 && d.size == x - 3 && d.Elements() == [3, 4, 5, 6, 7, 8, 9][..x - 3]
    {
      var _ := d.AddLast(x);
      x := x + 1;
    }
  }

  lemma EightIsPow2()
    ensures IsPow2(8) && forall c :: LeastPow2(8, c) ==> c == 8
    ensures 8 < MAX_POW_TWO
  {
    assert Pow2(3) == 8;
    Pow2Mono(4, 63);
  }

  datatype QueueOp = Enqueue(x: Ptr) | Poll

  /** The elements that the run puts into the queue, in order. */
  function Entered(ops: seq<QueueOp>): seq<Ptr> {
    if ops == [] then []
    else Entered(ops[..|ops| - 1]) + match ops[|ops| - 1] case Enqueue(x) => [x] case Poll => []
  }

  /**
    The queue, which enqueues at the front of its deque and polls at the back, is first in, first
    out: what has been polled and then what is left, oldest first, is what was enqueued.
   */
  method RunQueue(capacity: nat, ops: seq<QueueOp>) returns (q: Deques.Deque, polled: seq<Ptr>, i: nat)
    requires IsPow2(capacity)
    ensures fresh(q) && q.Valid() && i <= |ops|
    ensures polled + Reversed(q.Elements()) == Entered(ops[..i])
    ensures i < |ops| ==> q.size == q.capacity == MAX_POW_TWO
  {
    hide IsPow2, Pow2, Deques.Deque.Valid, Reversed;
    q := new Deques.Deque(capacity);
    polled, i := [], 0;
    ReversedEmpty();
    while i < |ops|
      invariant i <= |ops| && fresh(q) && fresh(q.buffer) && q.Valid()
      invariant polled + Reversed(q.Elements()) == Entered(ops[..i])
    {
      ghost var es := q.Elements();
      assert ops[..i + 1][..i] == ops[..i];
      match ops[i] {
        case Enqueue(x) =>
          var stat := q.AddFirst(x);
          if stat != CC_OK {
            return;
          }
          ReversedCons(x, es);
        case Poll =>
          var stat, x := q.RemoveLast();
          if stat == CC_OK {
            ReversedLast(es);
            polled := polled + [x];
          }
      }
      i := i + 1;
    }
  }

  lemma ReversedEmpty()
    ensures Reversed<Ptr>([]) == []
  {
  }

  lemma ReversedCons(x: Ptr, s: seq<Ptr>)
    ensures Reversed([x] + s) == Reversed(s) + [x]
  {
  }

  lemma ReversedLast(s: seq<Ptr>)
    requires s != []
    ensures Reversed(s) == [s[|s| - 1]] + Reversed(s[..|s| - 1])
  {
  }
}
