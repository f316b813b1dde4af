/** Iterating over the tree table while removing entries. */
module TreeIter {
  import opened Common
  import opened TreeModel
  import opened TreeSearch
  import opened TreeSpec
  import opened TreeRemove
  import opened TreeTables

  class TreeTableIter {
    const table: TreeTable
    var current: Ptr
    var next: Ptr
    ghost var kept: seq<Entry>  // returned and still in the table
    ghost var rest: seq<Entry>  // still to be returned

    ghost predicate Valid()
      reads this, table
    {
      && table.Valid() && table.Entries() == kept + rest
      && next == (if rest == [] then table.sentinel else rest[0].node)
      && (current == NULL
          || (current == table.sentinel && kept == [])
          || (kept != [] && current == kept[|kept| - 1].node))
    }

    lemma Inside()
      requires Valid()
      ensures table.Valid() && table.Entries() == kept + rest
    {
    }

    /** `cc_treetable_iter_init`. */
    constructor (table: TreeTable)
      requires table.Valid()
      ensures Valid() && this.table == table && kept == [] && rest == table.Entries()
      ensures current == table.sentinel
    {
      hide TotalPreorder, Sorted, RedBlack, Nodes;
      this.table := table;
      current := table.sentinel;
      var n, q, u := table.TreeMin(table.root, Top, table.tree);
      next := n;
      kept, rest := [], table.Entries();
      if table.tree.Node? { FirstNode(q, u); }
    }

    /** `cc_treetable_iter_next`: the next entry in key order, or the end. */
    method Next() returns (stat: Stat, key: Ptr, value: Ptr)
      requires Valid()
      modifies this
      ensures Valid()
      ensures stat == if old(rest) == [] then CC_ITER_END else CC_OK
      ensures stat == CC_ITER_END ==> unchanged(this)
      ensures stat == CC_OK ==>
        && key == old(rest)[0].key && value == old(rest)[0].value && current == old(rest)[0].node
        && kept == old(kept) + [old(rest)[0]] && rest == old(rest)[1..]
        && current != NULL && current != table.sentinel
    {
      hide TotalPreorder, Sorted, RedBlack, Nodes;
      if rest != [] {
        EntryNode(table.mem, table.tree, |kept|, table.sentinel);
      }
      if next == table.sentinel {
        return CC_ITER_END, NULL, NULL;
      }
      ghost var p, t := Locate(Top, table.tree, |kept|);
      FocusWhole(table.mem, p, t, table.sentinel, table.root);
      ZipInOrder(p, t);
      value := table.mem[next].value;
      key := table.mem[next].key;
      current := next;
      next := table.GetSuccessor(current, p, t);
      kept, rest := kept + [rest[0]], rest[1..];
      stat := CC_OK;
    }

    /** `cc_treetable_iter_remove`: removes the entry returned last, unless it is gone already. */
    method Remove() returns (stat: Stat, out: Ptr)
      requires Valid() && current != table.sentinel  // only after a call of Next
      modifies this, table
      ensures Valid() && current == NULL && rest == old(rest)
      ensures stat == if old(current) == NULL then CC_ERR_KEY_NOT_FOUND else CC_OK
      ensures stat != CC_OK ==> kept == old(kept) && unchanged(table)
      ensures stat == CC_OK ==> old(kept) != [] && out == old(kept)[|old(kept)| - 1].value
      ensures stat == CC_OK ==> kept == old(kept)[..|old(kept)| - 1]
    {
      hide TotalPreorder, Sorted, RedBlack, Nodes;
      if current == NULL {
        return CC_ERR_KEY_NOT_FOUND, NULL;
      }
      ghost var p, t := Locate(Top, table.tree, |kept| - 1);
      FocusWhole(table.mem, p, t, table.sentinel, table.root);
      ZipInOrder(p, t);
      EntryNode(table.mem, table.tree, |kept| - 1, table.sentinel);
      out := table.mem[current].value;
      table.RemoveNode(current, p, t);
      current := NULL;
      kept := kept[..|kept| - 1];
      stat := CC_OK;
    }
  }

  lemma FirstNode(q: Path, u: Tree)
    requires u.Node? && u.left.Leaf? && LeftMost(q)
    ensures |InOrder(Zip(q, u))| > 0 && InOrder(Zip(q, u))[0] == u.e
  {
    SuccessorFirst(q, u);
  }

  /** The entry at a place of the sequence is what its node holds. */
  lemma EntryNode(m: Memory, t: Tree, i: nat, s: Ptr)
    requires Shape(m, t, s, s) && i < |InOrder(t)|
    ensures var e := InOrder(t)[i]; e.node in m && e.node != s && m[e.node].key == e.key && m[e.node].value == e.value
  {
    var p, u := Locate(Top, t, i);
    FocusWhole(m, p, u, s, Root(t, s));
    StepDown(m, p, u, s, Root(t, s));
  }

  // ---------- A whole traversal ----------

  /** The entries that stay when the steps chosen by `drop` remove theirs. */
  function Kept(es: seq<Entry>, drop: set<nat>): seq<Entry> {
    if es == [] then []
    else
      var n := |es| - 1;
      Kept(es[..n], drop) + if n in drop then [] else [es[n]]
  }

  lemma {:induction false} KeptEntry(es: seq<Entry>, drop: set<nat>, e: Entry)
    ensures e in Kept(es, drop) <==> exists i :: 0 <= i < |es| && i !in drop && es[i] == e
  {
    if es != [] {
      var n := |es| - 1;
      KeptEntry(es[..n], drop, e);
      if i :| 0 <= i < |es| && i !in drop && es[i] == e {
        if i < n { assert es[..n][i] == e; }
      }
    }
  }

  lemma {:induction false} KeptSorted(cmp: Comparator, es: seq<Entry>, drop: set<nat>)
    requires Sorted(cmp, es)
    ensures Sorted(cmp, Kept(es, drop))
  {
    if es != [] {
      var n := |es| - 1;
      KeptSorted(cmp, es[..n], drop);
      forall i | 0 <= i < |Kept(es[..n], drop)| ensures cmp(Kept(es[..n], drop)[i].key, es[n].key) < 0 {
        KeptEntry(es[..n], drop, Kept(es[..n], drop)[i]);
      }
    }
  }

  /** The table that is left maps exactly the keys of the steps that were not dropped. */
  lemma KeptLookup(cmp: Comparator, es: seq<Entry>, drop: set<nat>, q: Ptr)
    requires TotalPreorder(cmp) && Sorted(cmp, es)
    ensures Lookup(cmp, Kept(es, drop), q) ==
      if Has(cmp, es, q) && Position(cmp, es, q) !in drop then Lookup(cmp, es, q) else None
  {
    hide TotalPreorder, Sorted, Kept, Position;
    var ks := Kept(es, drop);
    KeptSorted(cmp, es, drop);
    if Has(cmp, es, q) && Position(cmp, es, q) !in drop {
      var e := es[Position(cmp, es, q)];
      KeptEntry(es, drop, e);
      var j :| 0 <= j < |ks| && ks[j] == e;
      FoundAt(cmp, ks, q, j);
    } else if Has(cmp, ks, q) {
      var e := ks[Position(cmp, ks, q)];
      KeptEntry(es, drop, e);
      var i :| 0 <= i < |es| && i !in drop && es[i] == e;
      FoundAt(cmp, es, q, i);
    }
  }

  /**
    A run of the iterator that removes the current entry after the steps in `drop`. It returns
    every entry of the table once, in key order, and leaves exactly the others.
   */
  method Traverse(table: TreeTable, drop: set<nat>) returns (visited: seq<Entry>)
    requires table.Valid()
    modifies table
    ensures table.Valid() && visited == old(table.Entries()) && Sorted(table.cmp, visited)
    ensures table.Entries() == Kept(old(table.Entries()), drop)
  {
    hide TreeTable.Valid, TreeTableIter.Valid, Sorted, InOrder;
    table.EntriesSorted();
    var iter := new TreeTableIter(table);
    ghost var es := table.Entries();
    visited := [];
    var i := 0;
    var stat, key, value := iter.Next();
    while stat != CC_ITER_END
      invariant iter.table == table && fresh(iter) && iter.Valid() && i <= |es|
      invariant stat == CC_OK || stat == CC_ITER_END
      invariant stat == CC_OK ==> i < |es| && iter.kept == Kept(es[..i], drop) + [es[i]] && iter.rest == es[i + 1..]
      invariant stat == CC_OK ==> key == es[i].key && value == es[i].value
      invariant stat == CC_OK ==> iter.current == es[i].node && iter.current != table.sentinel && iter.current != NULL
      invariant stat == CC_ITER_END ==> i == |es| && iter.kept == Kept(es, drop) && iter.rest == []
      invariant visited == es[..i]
      decreases |es| - i
    {
      visited := visited + [Entry(iter.current, key, value)];
      if i in drop {
        var _, _ := iter.Remove();
      }
      assert es[..i + 1][..i] == es[..i];
      assert iter.kept == Kept(es[..i + 1], drop);
      i := i + 1;
      stat, key, value := iter.Next();
    }
    iter.Inside();
  }
}
