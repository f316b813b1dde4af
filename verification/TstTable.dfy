/** The ternary search tree table: search by slot, insertion, removal with pruning, clearing. */
module TstTables {
  import opened Common
  import opened TstSpec
  import opened TstModel
  import opened TstData

  class TstTable {
    var size: nat
    var root: Ptr
    const cmp: Comparator
    var mem: Memory
    var entries: Entries
    ghost var tree: Tree

    ghost predicate Valid()
      reads this
    {
      TableOk(cmp, mem, tree, root, size) && DataOk(entries, tree)
    }

    /** `cc_tsttable_new_conf`. */
    constructor (cmp: Comparator)
      requires TotalPreorder(cmp)
      ensures Valid() && this.cmp == cmp && tree == Nil && entries == map[]
    {
      size := 0;
      root := NULL;
      this.cmp := cmp;
      mem, entries := map[], map[];
      tree := Nil;
    }

    lemma TreeFacts()
      requires Valid()
      ensures TotalPreorder(cmp) && Ordered(cmp, tree) && Trimmed(tree) && size == Count(tree)
    {
    }

    /** `*slot`. */
    function Deref(slot: Slot): Ptr
      requires slot.ChildSlot? ==> slot.node in mem
      reads this
    {
      if slot.RootSlot? then root else ReadChild(mem[slot.node], slot.side)
    }

    /**
      `get_last_node`: the slot of the last node of the key, or the empty slot where the rest of
      the key would go. An empty key ends at the root.
     */
    method GetLastNode(key: Word) returns (slot: Slot, lastParent: Ptr, lastIndex: int,
                                           ghost p: Path, ghost t: Tree, ghost i: nat)
      requires Valid()
      ensures Reached(cmp, mem, tree, root, p, t, Meant(tree, key), i)
      ensures slot == SlotOf(p) && lastParent == ParentNode(p)
      ensures t.Node? ==> i == |Meant(tree, key)| - 1 && cmp(Meant(tree, key)[i], t.c) == 0 && lastIndex + 1 == |key|
      ensures (t.Nil? ==> lastIndex + 1 == i) && (key == [] ==> p == Top && t == tree)
      ensures (slot.ChildSlot? ==> slot.node in mem) && Deref(slot) == Root(t)
      ensures Deref(slot) != NULL ==> Deref(slot) in mem
      ensures Deref(slot) == NULL ==> Find(cmp, tree, Meant(tree, key)) == None
      ensures Deref(slot) != NULL ==> mem[Deref(slot)].data == DataPtr(Find(cmp, tree, Meant(tree, key)))
      ensures Stored(entries, Find(cmp, tree, Meant(tree, key)))
    {
      hide Focus, Zip, Leads, TotalPreorder, FocusNodes;
      ghost var w := Meant(tree, key);
      p, t, i := Top, tree, 0;
      ReachedRoot(cmp, mem, tree, root, size, w);
      slot := RootSlot;
      lastIndex := -1;
      lastParent := NULL;
      SlotHere(p, t);
      while Deref(slot) != NULL && lastIndex + 1 < |key|
        invariant Reached(cmp, mem, tree, root, p, t, w, i)
        invariant slot == SlotOf(p) && lastParent == ParentNode(p) && lastIndex + 1 == i
        invariant slot.ChildSlot? ==> slot.node in mem
        invariant Deref(slot) == Root(t) && (Deref(slot) == NULL <==> t.Nil?)
        invariant t.Node? ==> t.n in mem && mem[t.n].c == t.c && mem[t.n].data == DataPtr(t.data)
        invariant key == [] ==> p == Top && t == tree
        decreases TreeSize(t)
      {
        var c := key[lastIndex + 1];
        var n := Deref(slot);
        var d := cmp(c, mem[n].c);
        if d == 0 {
          lastIndex := lastIndex + 1;
          if lastIndex + 1 == |key| {
            break;
          }
        }
        lastParent := n;
        ghost var side := if d < 0 then L else if d > 0 then R else M;
        slot := if d < 0 then ChildSlot(n, L) else if d > 0 then ChildSlot(n, R) else ChildSlot(n, M);
        ReachedDown(cmp, mem, tree, root, p, t, w, i, side);
        p, t, i := Below(p, t, side), Child(t, side), if d == 0 then i + 1 else i;
        SlotHere(p, t);
      }
      if key == [] && t.Node? { Flip(cmp, t.c, t.c); }
      FindReached(cmp, mem, tree, root, size, p, t, w, i);
      DataAt(entries, p, t);
    }

    lemma SlotHere(p: Path, t: Tree)
      requires Focus(mem, p, t, root)
      ensures SlotOf(p).ChildSlot? ==> SlotOf(p).node in mem
      ensures Deref(SlotOf(p)) == Root(t) && (Root(t) == NULL <==> t.Nil?)
      ensures t.Node? ==>
        t.n in mem && mem[t.n] == TstNode(t.c, DataPtr(t.data), ParentNode(p), Root(t.left), Root(t.mid), Root(t.right))
      ensures t.Node? ==> (Root(t.left) == NULL <==> t.left.Nil?) && (Root(t.mid) == NULL <==> t.mid.Nil?)
      ensures t.Node? ==> (Root(t.right) == NULL <==> t.right.Nil?)
    {
      SlotFacts(mem, p, t, root);
      NodeFacts(mem, t, ParentNode(p));
      if t.Node? {
        NodeFacts(mem, t.left, t.n);
        NodeFacts(mem, t.mid, t.n);
        NodeFacts(mem, t.right, t.n);
      }
    }

    /** `make_mid_subtree`; the first node is made even for an empty postfix, from the NUL. */
    method MakeMidSubtree(postfix: Word) returns (begin: Ptr, end: Ptr, ghost ns: seq<Ptr>)
      modifies this`mem
      ensures Extends(old(mem), mem, ns, Letters(postfix), NULL, None)
      ensures begin == ns[0] && end == ns[|ns| - 1]
    {
      hide Extends;
      begin := FreshPointer(mem.Keys);
      var first := if postfix == [] then NUL else postfix[0];
      ExtendsBegin(mem, begin, first);
      mem := mem[begin := TstNode(first, NULL, NULL, NULL, NULL, NULL)];
      ns := [begin];
      ghost var w := Letters(postfix);
      assert w[..1] == [first];
      var node := begin;
      var i := 1;
      while i < |postfix|
        invariant 1 <= i <= |w| && |ns| == i && ns[0] == begin && node == ns[i - 1]
        invariant Extends(old(mem), mem, ns, w[..i], NULL, None)
      {
        var x := FreshPointer(mem.Keys);
        ExtendsGrow(old(mem), mem, ns, w[..i], x, postfix[i]);
        mem := mem[node := mem[node].(mid := x)][x := TstNode(postfix[i], NULL, node, NULL, NULL, NULL)];
        assert w[..i + 1] == w[..i] + [postfix[i]];
        ns := ns + [x];
        node := x;
        i := i + 1;
      }
      assert w[..i] == w;
      end := node;
    }

    /** `cc_tsttable_add`. */
    method Add(key: Word, val: Ptr) returns (stat: Stat, ghost e: TstEntry)
      requires Valid()
      modifies this
      ensures Valid() && stat == CC_OK && e.key == key && e.value == val
      ensures Updates(cmp, old(tree), tree, Meant(old(tree), key), Some(e))
      ensures var was := Find(cmp, old(tree), Meant(old(tree), key));
        && size == old(size) + (if was.Some? then 0 else 1)
        && (if was.Some? then e.at == was.value.at else e.at !in old(entries))
        && entries == old(entries)[e.at := EntryData(key, val)]
      ensures key != [] ==> Updates(cmp, old(tree), tree, key, Some(e))
      ensures key == [] && old(tree).Node? ==> tree == old(tree).(data := Some(e))
      ensures key == [] && old(tree).Nil? ==> tree.Node? && tree == Node(tree.n, NUL, Some(e), Nil, Nil, Nil)
    {
      hide Reached, TableOk, Updates, DataOk, Find, Zip;
      AtTop(tree);
      stat := CC_OK;
      var slot, lastParent, lastIndex, p, t, i := GetLastNode(key);
      ghost var w := Meant(tree, key);
      SlotReached(p, t, w, i);
      if Deref(slot) != NULL {
        var n := Deref(slot);
        var data := mem[n].data;
        if data == NULL {
          data := FreshPointer(entries.Keys);
        }
        e := TstEntry(data, key, val);
        SetDataTable(cmp, mem, tree, root, size, p, t, w, i, e);
        SetEntry(p, t, w, i, e);
        ghost var m := mem[n := mem[n].(data := data)];
        if mem[n].data == NULL {
          mem := mem[n := mem[n].(data := data)];
          size := size + 1;
        }
        assert mem == m;
        entries := entries[data := EntryData(key, val)];
        AtTop(t.(data := Some(e)));
        tree := Zip(p, t.(data := Some(e)));
        return;
      }
      e := AddBranch(key, val, slot, lastParent, lastIndex + 1, p, i);
    }

    lemma AtTop(t: Tree)
      ensures Zip(Top, t) == t
    {
    }

    lemma SlotReached(p: Path, t: Tree, w: Word, i: nat)
      requires Valid() && Reached(cmp, mem, tree, root, p, t, w, i)
      ensures (SlotOf(p).ChildSlot? ==> SlotOf(p).node in mem) && Deref(SlotOf(p)) == Root(t)
      ensures Root(t) == NULL <==> t.Nil?
      ensures t.Node? ==> t.n in mem && mem[t.n].data == DataPtr(t.data)
      ensures t.Node? ==> (mem[t.n].data == NULL <==> t.data.None?)
    {
      SlotHere(p, t);
      DataAt(entries, p, t);
    }

    lemma SetEntry(p: Path, t: Tree, w: Word, i: nat, e: TstEntry)
      requires Valid() && Reached(cmp, mem, tree, root, p, t, w, i) && t.Node? && e.at != NULL
      requires if t.data.Some? then e.at == t.data.value.at else e.at !in entries
      ensures DataOk(entries[e.at := EntryData(e.key, e.value)], Zip(p, t.(data := Some(e))))
    {
      DataSet(entries, p, t, e);
    }

    /** The second half of `cc_tsttable_add`: the slot is empty. */
    method AddBranch(key: Word, val: Ptr, slot: Slot, lastParent: Ptr, matched: nat, ghost p: Path, ghost i: nat)
      returns (ghost e: TstEntry)
      requires Valid() && Reached(cmp, mem, tree, root, p, Nil, Meant(tree, key), i)
      requires slot == SlotOf(p) && lastParent == ParentNode(p) && matched == i && (key == [] ==> p == Top && tree.Nil?)
      modifies this
      ensures Valid() && e.key == key && e.value == val && e.at !in old(entries)
      ensures Updates(cmp, old(tree), tree, Meant(old(tree), key), Some(e))
      ensures Find(cmp, old(tree), Meant(old(tree), key)) == None && size == old(size) + 1
      ensures entries == old(entries)[e.at := EntryData(key, val)]
      ensures key == [] ==> tree.Node? && tree == Node(tree.n, NUL, Some(e), Nil, Nil, Nil)
    {
      hide Focus, FocusNodes, Zip, Leads, TableOk, Updates, Extends, DataOk;
      var data := FreshPointer(entries.Keys);
      e := TstEntry(data, key, val);
      ghost var w := Meant(tree, key);
      var postfix := key[matched..];
      assert Letters(postfix) == w[i..];
      var begin, end, ns := MakeMidSubtree(postfix);
      ExtendsFinish(old(mem), mem, ns, w[i..], lastParent, e);
      ghost var u := Zip(p, Branch(ns, w[i..], e));
      if key == [] { AtTop(Branch(ns, w[i..], e)); }
      mem := mem[begin := mem[begin].(parent := lastParent)];
      mem := mem[end := mem[end].(data := data)];
      DataHang(entries, p, ns, w[i..], e);
      entries := entries[data := EntryData(key, val)];
      HangTable(cmp, old(mem), mem, tree, root, size, p, w, i, ns, e);
      size := size + 1;
      if slot.RootSlot? {
        root := begin;
      } else {
        mem := mem[slot.node := WriteChild(mem[slot.node], slot.side, begin)];
      }
      tree := u;
    }

    /** `cc_tsttable_get`. */
    method Get(key: Word) returns (stat: Stat, out: Ptr)
      requires Valid()
      ensures stat == if Find(cmp, tree, Meant(tree, key)).Some? then CC_OK else CC_ERR_KEY_NOT_FOUND
      ensures stat == CC_OK ==> Find(cmp, tree, Meant(tree, key)).value.value == out
      ensures key == [] ==> (stat == CC_OK <==> tree.Node? && tree.data.Some?)
      ensures key == [] && stat == CC_OK ==> out == tree.data.value.value
    {
      hide Reached, TableOk, Find, DataOk;
      TreeFacts();
      MeantEmpty(cmp, tree);
      var slot, lastParent, lastIndex, p, t, i := GetLastNode(key);
      SlotReached(p, t, Meant(tree, key), i);
      FindReached(cmp, mem, tree, root, size, p, t, Meant(tree, key), i);
      var n := Deref(slot);
      if n != NULL && mem[n].data != NULL && lastIndex + 1 == |key| {
        return CC_OK, entries[mem[n].data].value;
      } else {
        return CC_ERR_KEY_NOT_FOUND, NULL;
      }
    }

    /** `remove_eow_node`: the entry goes, and with it the nodes that no other word needs. */
    method RemoveEowNode(node0: Ptr, ghost p0: Path, ghost t0: Tree, ghost w: Word, ghost i: nat)
      requires Valid() && Reached(cmp, mem, tree, root, p0, t0, w, i)
      requires t0.Node? && node0 == t0.n && i == |w| - 1 && cmp(w[i], t0.c) == 0 && t0.data.Some?
      modifies this`mem, this`root, this`tree
      ensures size > 0 && TableOk(cmp, mem, tree, root, size - 1) && DataOk(entries, tree)
      ensures Updates(cmp, old(tree), tree, w, None)
    {
      hide Reached, TableOk, Updates, Pruning, Zip, DataOk;
      DropEntry(p0, t0, w, i);
      PruneBegin(cmp, mem, tree, root, size, p0, t0, w, i);
      ghost var p, t := p0, t0.(data := None);
      ghost var cut := Zip(p, t);
      var node := node0;
      assert mem[node].data != NULL;
      mem := mem[node := mem[node].(data := NULL)];
      var parent := mem[node].parent;
      while node != NULL
        invariant Pruning(cmp, mem, p, t, root, cut) && DataOk(entries, Zip(p, t))
        invariant if node == NULL then t == Nil && p == Top else t.Node? && node == t.n && parent == ParentNode(p)
        decreases if node == NULL then 0 else 1 + Depth(p)
      {
        PruneHere(p, t, cut);
        var n := mem[node];
        if n.left == NULL && n.mid == NULL && n.right == NULL && n.data == NULL {
          DataCut(entries, p, t);
          PruneStep(cmp, mem, p, t, root, cut);
          if parent != NULL {
            if mem[parent].left == node {
              mem := mem[parent := mem[parent].(left := NULL)];
            } else if mem[parent].right == node {
              mem := mem[parent := mem[parent].(right := NULL)];
            } else if mem[parent].mid == node {
              mem := mem[parent := mem[parent].(mid := NULL)];
            }
            mem := Freed(mem, node);
            p, t := p.up, Fill(p, Nil);
            node := parent;
            parent := mem[node].parent;
          } else {
            mem := Freed(mem, node);
            p, t := Top, Nil;
            node := NULL;
            root := NULL;
          }
        } else {
          break;
        }
      }
      PruneEnd(cmp, mem, p, t, root, cut);
      UpdatesSame(cmp, old(tree), cut, Zip(p, t), w, None);
      tree := Zip(p, t);
    }

    lemma DropEntry(p: Path, t: Tree, w: Word, i: nat)
      requires Valid() && Reached(cmp, mem, tree, root, p, t, w, i) && t.Node? && t.data.Some?
      ensures DataOk(entries, Zip(p, t.(data := None))) && DataPtr(t.data) != NULL
    {
      DataAt(entries, p, t);
      DataDrop(entries, p, t);
    }

    lemma PruneHere(p: Path, t: Tree, cut: Tree)
      requires Pruning(cmp, mem, p, t, root, cut) && DataOk(entries, Zip(p, t))
      ensures t.Node? ==>
        && t.n in mem && t.n != NULL && (mem[t.n].data == NULL <==> t.data.None?)
        && (mem[t.n].left == NULL && mem[t.n].mid == NULL && mem[t.n].right == NULL <==> Childless(t))
      ensures p.Hole? ==> p.n in mem && p.n != NULL && mem[p.n].parent == ParentNode(p.up)
      ensures p.Hole? && t.Node? ==>
        && p.n != t.n && (mem[p.n].left == t.n <==> p.side == L)
        && (mem[p.n].mid == t.n <==> p.side == M) && (mem[p.n].right == t.n <==> p.side == R)
    {
      SlotHere(p, t);
      SlotFacts(mem, p, t, root);
      DataAt(entries, p, t);
    }

    /** `cc_tsttable_remove`. */
    method Remove(key: Word) returns (stat: Stat, out: Ptr)
      requires Valid()
      modifies this
      ensures Valid()
      ensures stat == if Find(cmp, old(tree), Meant(old(tree), key)).Some? then CC_OK else CC_ERR_KEY_NOT_FOUND
      ensures stat == CC_OK ==> out == Find(cmp, old(tree), Meant(old(tree), key)).value.value && size == old(size) - 1
      ensures stat == CC_OK ==> Updates(cmp, old(tree), tree, Meant(old(tree), key), None)
      ensures entries == old(entries)  // the entry is not freed
      ensures stat != CC_OK ==> unchanged(this)
      ensures key == [] ==> (stat == CC_OK <==> old(tree).Node? && old(tree).data.Some?)
    {
      hide Reached, TableOk, Find, Updates, DataOk;
      TreeFacts();
      MeantEmpty(cmp, tree);
      var slot, lastParent, lastIndex, p, t, i := GetLastNode(key);
      SlotReached(p, t, Meant(tree, key), i);
      FindReached(cmp, mem, tree, root, size, p, t, Meant(tree, key), i);
      var n := Deref(slot);
      if n != NULL && mem[n].data != NULL && lastIndex + 1 == |key| {
        out := entries[mem[n].data].value;
        RemoveEowNode(n, p, t, Meant(tree, key), i);
        if size > 0 {
          size := size - 1;
        }
        return CC_OK, out;
      } else {
        return CC_ERR_KEY_NOT_FOUND, NULL;
      }
    }

    /**
      `cc_tsttable_remove_all`: a walk without a stack that frees every node once and counts the
      size down to zero.
     */
    method RemoveAll()
      requires Valid()
      modifies this
      ensures Valid() && tree == Nil && mem == map[] && size == 0
      ensures entries == old(entries)  // the entries are not freed
    {
      hide Focus, Zip, Clearing, TotalPreorder, DataOk;
      var node := root;
      ghost var p, t := Top, tree;
      ClearBegin();
      while node != NULL
        invariant entries == old(entries)
        invariant if node == NULL then mem.Keys == {} && size == 0
          else Clearing(mem, p, t, root, size) && node == Root(t) && DataOk(entries, Zip(p, t))
        decreases |mem.Keys|, if node == NULL then 0 else TreeSize(t)
      {
        ClearHere(p, t);
        var parent := mem[node].parent;
        var n := mem[node];
        if n.left == NULL && n.right == NULL && n.mid == NULL {
          ClearLeaf(mem, p, t, root, size);
          DataCut(entries, p, t);
          if parent != NULL {
            if mem[parent].left == node {
              mem := mem[parent := mem[parent].(left := NULL)];
            } else if mem[parent].mid == node {
              mem := mem[parent := mem[parent].(mid := NULL)];
            } else if mem[parent].right == node {
              mem := mem[parent := mem[parent].(right := NULL)];
            }
          }
          if n.data != NULL {
            size := size - 1;
          }
          mem := Freed(mem, node);
          node := parent;
          if p.Hole? { p, t := p.up, Fill(p, Nil); }
        } else {
          var side := if n.left != NULL then L else if n.mid != NULL then M else R;
          node := ReadChild(n, side);
          ClearDown(mem, p, t, root, size, side);
          DataDown(p, t, side);
          p, t := Below(p, t, side), Child(t, side);
        }
      }
      root := NULL;
      tree := Nil;
      assert mem == map[];
      EmptyTable(cmp);
      NoEntries(entries);
    }

    lemma ClearBegin()
      requires Valid()
      ensures root == Root(tree)
      ensures if root == NULL then mem.Keys == {} && size == 0
        else Clearing(mem, Top, tree, root, size) && DataOk(entries, Zip(Top, tree))
    {
      NodeFacts(mem, tree, NULL);
    }

    lemma ClearHere(p: Path, t: Tree)
      requires Clearing(mem, p, t, root, size) && DataOk(entries, Zip(p, t))
      ensures t.n in mem && t.n != NULL && (mem[t.n].data == NULL <==> t.data.None?) && mem[t.n].parent == ParentNode(p)
      ensures mem[t.n].left == Root(t.left) && mem[t.n].mid == Root(t.mid) && mem[t.n].right == Root(t.right)
      ensures (Root(t.left) == NULL <==> t.left.Nil?) && (Root(t.mid) == NULL <==> t.mid.Nil?)
      ensures Root(t.right) == NULL <==> t.right.Nil?
      ensures p.Hole? ==>
        && p.n in mem && p.n != NULL && p.n != t.n && (mem[p.n].left == t.n <==> p.side == L)
        && (mem[p.n].mid == t.n <==> p.side == M) && (mem[p.n].right == t.n <==> p.side == R)
    {
      SlotHere(p, t);
      SlotFacts(mem, p, t, root);
      DataAt(entries, p, t);
    }
  }
}
