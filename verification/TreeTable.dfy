/** The tree table: red-black insertion, deletion and search on nodes with parent pointers and a shared sentinel. */
module TreeTables {
  import opened Common
  import opened TreeModel
  import opened TreeDelete
  import opened TreeInsert
  import opened TreeRemove
  import opened TreeSearch
  import opened TreeSpec
  import opened Words

  class TreeTable {
    var root: Ptr
    const sentinel: Ptr
    var size: nat
    const cmp: Comparator
    var mem: Memory
    ghost var tree: Tree

    /** The table's entries in key order. */
    ghost function Entries(): seq<Entry>
      reads this
    {
      InOrder(tree)
    }

    ghost predicate Valid()
      reads this
    {
      && TotalPreorder(cmp)
      && SentinelOk(mem, sentinel) && NULL !in mem
      && Focus(mem, Top, tree, sentinel, root)
      && mem.Keys == Nodes(tree) + {sentinel}
      && RedBlack(tree) && Sorted(cmp, Entries()) && size == |Entries()|
    }

    /** `cc_treetable_new_conf`; the sentinel's links start as NULL. */
    constructor (cmp: Comparator)
      requires TotalPreorder(cmp)
      ensures Valid() && this.cmp == cmp && Entries() == []
    {
      var s := 1;
      sentinel := s;
      root := s;
      size := 0;
      mem := map[s := RBNode(NULL, NULL, Black, NULL, NULL, NULL)];
      tree := Leaf;
      this.cmp := cmp;
    }

    lemma EntriesSorted()
      requires Valid()
      ensures Sorted(cmp, Entries()) && size == |Entries()|
    {
    }

    /** `rotate_left` at the subtree `t` that hangs at the end of `p`. */
    method RotateLeft(x: Ptr, ghost p: Path, ghost t: Tree)
      requires Focus(mem, p, t, sentinel, root)
      requires t.Node? && t.right.Node? && x == t.e.node
      modifies this`root, this`mem
      ensures Focus(mem, p, RotatedLeft(t), sentinel, root)
      ensures mem.Keys == old(mem.Keys) && (sentinel in mem ==> mem[sentinel] == old(mem[sentinel]))
    {
      ghost var m1, m2 := LeftRotation(mem, p, t, sentinel, root);
      hide PathShape, Shape, Focus, PathNodes, Nodes;
      var y := mem[x].right;
      mem := mem[x := mem[x].(right := mem[y].left)];
      if mem[y].left != sentinel {
        mem := mem[mem[y].left := mem[mem[y].left].(parent := x)];
      }
      mem := mem[y := mem[y].(parent := mem[x].parent)];
      assert mem == m1;
      if mem[x].parent == sentinel {
        root := y;
      } else if x == mem[mem[x].parent].left {
        mem := mem[mem[x].parent := mem[mem[x].parent].(left := y)];
      } else {
        mem := mem[mem[x].parent := mem[mem[x].parent].(right := y)];
      }
      mem := mem[y := mem[y].(left := x)];
      mem := mem[x := mem[x].(parent := y)];
      assert mem == m2;
    }

    /** `rotate_right` at the subtree `t` that hangs at the end of `p`. */
    method RotateRight(x: Ptr, ghost p: Path, ghost t: Tree)
      requires Focus(mem, p, t, sentinel, root)
      requires t.Node? && t.left.Node? && x == t.e.node
      modifies this`root, this`mem
      ensures Focus(mem, p, RotatedRight(t), sentinel, root)
      ensures mem.Keys == old(mem.Keys) && (sentinel in mem ==> mem[sentinel] == old(mem[sentinel]))
    {
      ghost var m1, m2 := RightRotation(mem, p, t, sentinel, root);
      hide PathShape, Shape, Focus, PathNodes, Nodes;
      var y := mem[x].left;
      mem := mem[x := mem[x].(left := mem[y].right)];
      if mem[y].right != sentinel {
        mem := mem[mem[y].right := mem[mem[y].right].(parent := x)];
      }
      mem := mem[y := mem[y].(parent := mem[x].parent)];
      assert mem == m1;
      if mem[x].parent == sentinel {
        root := y;
      } else if x == mem[mem[x].parent].right {
        mem := mem[mem[x].parent := mem[mem[x].parent].(right := y)];
      } else {
        mem := mem[mem[x].parent := mem[mem[x].parent].(left := y)];
      }
      mem := mem[y := mem[y].(right := x)];
      mem := mem[x := mem[x].(parent := y)];
      assert mem == m2;
    }

    /** The last step of the insertion loop when the parent is a left child: one or two rotations. */
    method InsertRotateLeftSide(z0: Ptr, ghost p0: Path, ghost t0: Tree)
      returns (z: Ptr, ghost p: Path, ghost t: Tree)
      requires Focus(mem, p0, t0, sentinel, root) && SentinelOk(mem, sentinel)
      requires InsertInv(p0, t0) && FrameColor(p0) == Red && z0 == t0.e.node
      requires !p0.up.Top? && p0.up.InLeft? && ColorOf(p0.up.right) == Black
      modifies this`root, this`mem
      ensures t.Node? && z == t.e.node && Focus(mem, p, t, sentinel, root) && InsertInv(p, t)
      ensures Contents(p, t) == Contents(p0, t0) && Depth(p) < Depth(p0)
      ensures mem.Keys == old(mem.Keys) && mem[sentinel] == old(mem[sentinel])
    {
      z, p, t := z0, p0, t0;
      ReadFamily(mem, p, t, sentinel, root);
      if z == mem[mem[z].parent].right {
        z := mem[z].parent;
        FocusStep(mem, p, t, sentinel, root);
        RotateLeft(z, p.up, Fill(p, t));
        InnerLeft(p, t);
        p, t := InnerLeftPath(p, t), InnerLeftTree(p, t);
        FocusStep(mem, p, t, sentinel, root);
      }
      ghost var m2 := RepaintParents(mem, p, t, sentinel, root);
      mem := mem[mem[z].parent := mem[mem[z].parent].(color := Black)];
      mem := mem[mem[mem[z].parent].parent := mem[mem[mem[z].parent].parent].(color := Red)];
      assert mem == m2;
      RotateRight(mem[mem[z].parent].parent, p.up.up, Recolored(Fill(p.up, Recolored(Fill(p, t), Black)), Red));
      OuterLeft(p, t);
      p := OuterLeftPath(p);
      FocusStep(mem, p, t, sentinel, root);
    }

    /** The last step of the insertion loop when the parent is a right child: one or two rotations. */
    method InsertRotateRightSide(z0: Ptr, ghost p0: Path, ghost t0: Tree)
      returns (z: Ptr, ghost p: Path, ghost t: Tree)
      requires Focus(mem, p0, t0, sentinel, root) && SentinelOk(mem, sentinel)
      requires InsertInv(p0, t0) && FrameColor(p0) == Red && z0 == t0.e.node
      requires !p0.up.Top? && p0.up.InRight? && ColorOf(p0.up.left) == Black
      modifies this`root, this`mem
      ensures t.Node? && z == t.e.node && Focus(mem, p, t, sentinel, root) && InsertInv(p, t)
      ensures Contents(p, t) == Contents(p0, t0) && Depth(p) < Depth(p0)
      ensures mem.Keys == old(mem.Keys) && mem[sentinel] == old(mem[sentinel])
    {
      z, p, t := z0, p0, t0;
      ReadFamily(mem, p, t, sentinel, root);
      if z == mem[mem[z].parent].left {
        z := mem[z].parent;
        FocusStep(mem, p, t, sentinel, root);
        RotateRight(z, p.up, Fill(p, t));
        InnerRight(p, t);
        p, t := InnerRightPath(p, t), InnerRightTree(p, t);
        FocusStep(mem, p, t, sentinel, root);
      }
      ghost var m2 := RepaintParents(mem, p, t, sentinel, root);
      mem := mem[mem[z].parent := mem[mem[z].parent].(color := Black)];
      mem := mem[mem[mem[z].parent].parent := mem[mem[mem[z].parent].parent].(color := Red)];
      assert mem == m2;
      RotateLeft(mem[mem[z].parent].parent, p.up.up, Recolored(Fill(p.up, Recolored(Fill(p, t), Black)), Red));
      OuterRight(p, t);
      p := OuterRightPath(p);
      FocusStep(mem, p, t, sentinel, root);
    }

    /** The recoloring step of the insertion loop; `y` is the red uncle. */
    method PushRedUp(z: Ptr, y: Ptr, ghost p: Path, ghost t: Tree) returns (z': Ptr)
      requires Focus(mem, p, t, sentinel, root) && SentinelOk(mem, sentinel)
      requires InsertInv(p, t) && FrameColor(p) == Red && z == t.e.node
      requires !p.up.Top? && ColorOf(Other(p.up)) == Red && y == Root(Other(p.up), sentinel)
      modifies this`mem
      ensures Focus(mem, p.up.up, PushedUp(p, t), sentinel, root) && z' == PushedUp(p, t).e.node
      ensures mem.Keys == old(mem.Keys) && mem[sentinel] == old(mem[sentinel])
    {
      ghost var m3 := PushUpMemory(mem, p, t, sentinel, root);
      hide Focus, InsertInv;
      mem := mem[mem[z].parent := mem[mem[z].parent].(color := Black)];
      mem := mem[y := mem[y].(color := Black)];
      mem := mem[mem[mem[z].parent].parent := mem[mem[mem[z].parent].parent].(color := Red)];
      z' := mem[mem[z].parent].parent;
      assert mem == m3;
    }

    /** `rebalance_after_insert`. */
    method RebalanceAfterInsert(z0: Ptr, ghost p0: Path, ghost t0: Tree) returns (ghost t': Tree)
      requires Focus(mem, p0, t0, sentinel, root) && SentinelOk(mem, sentinel)
      requires InsertInv(p0, t0) && z0 == t0.e.node
      modifies this`root, this`mem
      ensures Focus(mem, Top, t', sentinel, root) && RedBlack(t')
      ensures InOrder(t') == Contents(p0, t0)
      ensures mem.Keys == old(mem.Keys) && mem[sentinel] == old(mem[sentinel])
    {
      hide Focus, InsertInv, Contents, Depth, RedBlack, InOrder;
      var z := z0;
      ghost var p, t := p0, t0;
      InsertNode(p, t);
      ReadParent(mem, p, t, sentinel, root);
      while mem[mem[z].parent].color == Red
        invariant t.Node? && z == t.e.node && Focus(mem, p, t, sentinel, root) && InsertInv(p, t)
        invariant ParentRead(mem, p, t, sentinel)
        invariant mem.Keys == old(mem.Keys) && mem[sentinel] == old(mem[sentinel])
        invariant Contents(p, t) == Contents(p0, t0)
        decreases Depth(p)
      {
        RedParent(p, t);
        ReadFamily(mem, p, t, sentinel, root);
        if mem[z].parent == mem[mem[mem[z].parent].parent].left {
          var y := mem[mem[mem[z].parent].parent].right;
          if mem[y].color == Red {
            PushUp(p, t);
            z := PushRedUp(z, y, p, t);
            p, t := p.up.up, PushedUp(p, t);
          } else {
            z, p, t := InsertRotateLeftSide(z, p, t);
          }
        } else {
          var y := mem[mem[mem[z].parent].parent].left;
          if mem[y].color == Red {
            PushUp(p, t);
            z := PushRedUp(z, y, p, t);
            p, t := p.up.up, PushedUp(p, t);
          } else {
            z, p, t := InsertRotateRightSide(z, p, t);
          }
        }
        ReadParent(mem, p, t, sentinel, root);
      }
      InsertDone(p, t);
      FocusWhole(mem, p, t, sentinel, root);
      RecolorFocus(mem, Top, Zip(p, t), Black, sentinel, root);
      mem := mem[root := mem[root].(color := Black)];
      t' := Recolored(Zip(p, t), Black);
    }

    /** `get_tree_node_by_key`: NULL, or the node together with the place it was found at. */
    method GetNodeByKey(key: Ptr) returns (n: Ptr, ghost p: Path, ghost t: Tree, ghost steps: nat)
      requires Valid()
      ensures n == NULL <==> !Has(cmp, Entries(), key)
      ensures n != NULL ==>
        && t.Node? && t.e.node == n && Zip(p, t) == tree && Focus(mem, p, t, sentinel, root)
        && n in mem && cmp(key, t.e.key) == 0
      ensures n != NULL ==> steps == Depth(p) + 1
      ensures n == NULL && size > 0 ==> t == Leaf && Zip(p, t) == tree && steps == Depth(p)
      ensures Pow2(steps) <= (size + 1) * (size + 1)
    {
      hide TotalPreorder, RedBlack, Sorted, Nodes, Pow2, Focus, InOrder, Narrowed, Contents, Has, Zip, Height;
      p, t, steps := Top, tree, 0;
      SearchCost(tree);
      Pow2Mono(0, Height(tree));
      SearchStart(cmp, key, mem, tree, sentinel, root);
      if size == 0 {
        return NULL, p, t, 0;
      }
      n := root;
      var s := sentinel;
      while true
        invariant t.Node? && n == t.e.node
        invariant Zip(p, t) == tree && Focus(mem, p, t, sentinel, root)
        invariant Narrowed(cmp, key, p) && Contents(p, t) == Entries()
        invariant steps == Depth(p) && steps + Height(t) <= Height(tree)
        decreases t
      {
        StepDown(mem, p, t, sentinel, root);
        HeightDown(t);
        var c := cmp(key, mem[n].key);
        steps := steps + 1;
        if c < 0 {
          GoLeft(cmp, key, p, t);
          n, p, t := mem[n].left, DownLeft(p, t), t.left;
        } else if c > 0 {
          GoRight(cmp, key, p, t);
          n, p, t := mem[n].right, DownRight(p, t), t.right;
        } else {
          FoundHere(cmp, key, p, t);
          Pow2Mono(steps, Height(tree));
          return;
        }
        if !(n != s && c != 0) {
          break;
        }
      }
      NotFound(cmp, key, p);
      Pow2Mono(steps, Height(tree));
      return NULL, p, t, steps;
    }

    /** `cc_treetable_get`. */
    method Get(key: Ptr) returns (stat: Stat, out: Ptr)
      requires Valid()
      ensures stat == (if Has(cmp, Entries(), key) then CC_OK else CC_ERR_KEY_NOT_FOUND)
      ensures stat == CC_OK ==> Lookup(cmp, Entries(), key) == Some(out)
    {
      var node, p, t, _ := GetNodeByKey(key);
      if node == NULL {
        return CC_ERR_KEY_NOT_FOUND, NULL;
      }
      FoundValue(cmp, key, p, t, tree);
      return CC_OK, mem[node].value;
    }

    /** `cc_treetable_add`. The table maps `key` to `val` afterwards; only a new key gets a node. */
    method Add(key: Ptr, val: Ptr) returns (stat: Stat, ghost node: Ptr)
      requires Valid()
      modifies this
      ensures Valid() && stat == CC_OK
      ensures Entries() == Added(cmp, old(Entries()), key, val, node)
      ensures var es := old(Entries()); var i := Position(cmp, es, key);
        Entries() == if Has(cmp, es, key) then es[i := Entry(es[i].node, es[i].key, val)]
                     else es[..i] + [Entry(node, key, val)] + es[i..]
      ensures if Has(cmp, old(Entries()), key) then mem.Keys == old(mem.Keys)
              else node !in old(mem) && mem.Keys == old(mem.Keys) + {node}
      ensures size == old(size) + if Has(cmp, old(Entries()), key) then 0 else 1
    {
      hide TotalPreorder;
      stat, node := CC_OK, NULL;
      var y := sentinel;
      var x := root;
      ghost var p, t := Top, tree;
      AddedSorted(cmp, Entries(), key, val, node);
      while x != sentinel
        invariant unchanged(this)
        invariant x == Root(t, sentinel) && y == ParentNode(p, sentinel)
        invariant x == sentinel <==> t.Leaf?
        invariant Zip(p, t) == tree && Focus(mem, p, t, sentinel, root)
        invariant Narrowed(cmp, key, p) && Contents(p, t) == Entries()
        decreases t
      {
        StepDown(mem, p, t, sentinel, root);
        hide Focus, InOrder, Nodes, RedBlack, Sorted, Narrowed, Contents, Has, Zip;
        var c := cmp(key, mem[x].key);
        y := x;
        if c < 0 {
          GoLeft(cmp, key, p, t);
          x, p, t := mem[x].left, DownLeft(p, t), t.left;
        } else if c > 0 {
          GoRight(cmp, key, p, t);
          x, p, t := mem[x].right, DownRight(p, t), t.right;
        } else {
          ReplaceValue(x, key, val, p, t, node);
          return;
        }
      }
      node := HangNewNode(y, key, val, p);
    }

    /** The branch of `cc_treetable_add` for a key that is present. */
    method ReplaceValue(x: Ptr, key: Ptr, val: Ptr, ghost p: Path, ghost t: Tree, ghost node: Ptr)
      requires Valid() && t.Node? && x == t.e.node && cmp(key, t.e.key) == 0
      requires Zip(p, t) == tree && Focus(mem, p, t, sentinel, root) && Contents(p, t) == Entries()
      modifies this`mem, this`tree
      ensures Valid() && mem.Keys == old(mem.Keys)
      ensures Has(cmp, old(Entries()), key) && Entries() == Added(cmp, old(Entries()), key, val, node)
    {
      hide TotalPreorder, Sorted, Has, Added, Nodes, RedBlack, Shape, PathShape, Contents;
      RevalueRules(p, t, val);
      RevalueContents(cmp, p, t, key, val, node);
      RevalueFocus(mem, p, t, val, sentinel, root);
      AddedSorted(cmp, Entries(), key, val, node);
      mem := mem[x := mem[x].(value := val)];
      tree := Zip(p, Revalued(t, val));
      FocusWhole(mem, p, Revalued(t, val), sentinel, root);
      ZipInOrder(p, Revalued(t, val));
    }

    /** The branch of `cc_treetable_add` for a new key: `y` is the node to hang it under. */
    method HangNewNode(y: Ptr, key: Ptr, val: Ptr, ghost p: Path) returns (n: Ptr)
      requires Valid() && y == ParentNode(p, sentinel)
      requires Zip(p, Leaf) == tree && Focus(mem, p, Leaf, sentinel, root)
      requires Narrowed(cmp, key, p) && Contents(p, Leaf) == Entries()
      modifies this
      ensures Valid() && n !in old(mem) && mem.Keys == old(mem.Keys) + {n} && size == old(size) + 1
      ensures !Has(cmp, old(Entries()), key) && Entries() == Added(cmp, old(Entries()), key, val, n)
    {
      hide TotalPreorder, Sorted, Has, Added, InsertInv, Narrowed, Position, Nodes, RedBlack,
        Shape, PathShape, Contents;
      n := FreshPointer(mem.Keys);
      ghost var e := Entry(n, key, val);
      ghost var c := if p.Top? then Black else Red;
      ghost var m1, m2 := HangNodeMemory(mem, p, e, c, sentinel, root);
      HangNodeContents(cmp, p, n, key, val);
      AddedSorted(cmp, Entries(), key, val, n);
      HangNode(p, e);
      if y == sentinel {
        HangAtTop(e);
        HangNodeNodes(p, e, Node(Leaf, e, Black, Leaf));
        mem := mem[n := RBNode(key, val, Black, y, sentinel, sentinel)];
        size := size + 1;
        root := n;
        tree := Node(Leaf, e, Black, Leaf);
      } else {
        SideOfHole(cmp, key, p);
        mem := mem[n := RBNode(key, val, Red, y, sentinel, sentinel)];
        size := size + 1;
        if cmp(key, mem[y].key) < 0 {
          mem := mem[y := mem[y].(left := n)];
        } else {
          mem := mem[y := mem[y].(right := n)];
        }
        assert mem == m2;
        tree := RebalanceAfterInsert(n, p, RedLeaf(e));
        HangNodeNodes(p, e, tree);
      }
    }

    /** First case of the deletion loop, left side: a red sibling is rotated away. */
    method RedSiblingLeftSide(x: Ptr, w0: Ptr, ghost p: Path, ghost t: Tree) returns (w: Ptr)
      requires ShortFocus(mem, p, t, sentinel, root) && DeleteInv(p, t) && x == Root(t, sentinel)
      requires p.InLeft? && p.right.Node? && p.right.color == Red && w0 == p.right.e.node
      modifies this`root, this`mem
      ensures ShortFocus(mem, RedSiblingLeftPath(p), t, sentinel, root)
      ensures w == Root(p.right.left, sentinel)
      ensures mem.Keys == old(mem.Keys) && mem[sentinel] == old(mem[sentinel])
    {
      ghost var m2 := PaintSiblingAndParent(mem, p, t, Black, Red, sentinel, root);
      RedSiblingLeft(p, t);
      SiblingIsNode(p, t);
      ghost var q := RedSiblingLeftPath(p);
      hide DeleteInv;
      mem := mem[w0 := mem[w0].(color := Black)];
      mem := mem[mem[x].parent := mem[mem[x].parent].(color := Red)];
      assert mem == m2;
      RotateLeft(mem[x].parent, p.up, Recolored(Fill(WithOther(p, Recolored(p.right, Black)), t), Red));
      FocusStep(mem, q.up, Fill(q, t), sentinel, root);
      FocusStep(mem, q, t, sentinel, root);
      w := mem[mem[x].parent].right;
    }

    /** Last case of the deletion loop, left side: a black sibling with a red far child ends the loop. */
    method FarNephewLeftSide(x: Ptr, w: Ptr, ghost p: Path, ghost t: Tree) returns (ghost t': Tree)
      requires ShortFocus(mem, p, t, sentinel, root) && DeleteInv(p, t) && x == Root(t, sentinel)
      requires ColorOf(t) == Black && p.InLeft? && p.right.Node? && p.right.color == Black
      requires ColorOf(p.right.right) == Red && w == p.right.e.node
      modifies this`root, this`mem
      ensures ShortFocus(mem, Top, t', sentinel, root) && DeleteInv(Top, t') && root == Root(t', sentinel)
      ensures Contents(Top, t') == Contents(p, t)
      ensures mem.Keys == old(mem.Keys) && mem[sentinel] == old(mem[sentinel])
    {
      hide DeleteInv, ShortFocus, Focus, InOrder, Contents, Zip;
      ghost var m2 := PaintSiblingAndParent(mem, p, t, p.color, Black, sentinel, root);
      ghost var f := Recolored(Fill(WithOther(p, Recolored(p.right, p.color)), t), Black);
      PaintGrandchild(m2, p.up, f, false, sentinel, root);
      FarLeftRules(p, t);
      FarLeftContents(p, t);
      ZipNode(p.up, FarRedLeft(p, t));
      mem := mem[w := mem[w].(color := mem[mem[x].parent].color)];
      mem := mem[mem[x].parent := mem[mem[x].parent].(color := Black)];
      assert mem == m2;
      mem := mem[mem[w].right := mem[mem[w].right].(color := Black)];
      RotateLeft(mem[x].parent, p.up, f.(right := f.right.(right := Recolored(f.right.right, Black))));
      t' := Zip(p.up, FarRedLeft(p, t));
      FocusWhole(mem, p.up, FarRedLeft(p, t), sentinel, root);
      WholeShort(mem, t', sentinel, root);
    }

    /** Third case of the deletion loop, left side: the near nephew becomes the sibling. */
    method NearNephewLeftSide(x: Ptr, w0: Ptr, ghost p0: Path, ghost t: Tree) returns (w: Ptr, ghost p: Path)
      requires ShortFocus(mem, p0, t, sentinel, root) && DeleteInv(p0, t) && x == Root(t, sentinel)
      requires p0.InLeft? && p0.right.Node? && p0.right.color == Black && w0 == p0.right.e.node
      requires ColorOf(p0.right.left) == Red && ColorOf(p0.right.right) == Black
      modifies this`root, this`mem
      ensures ShortFocus(mem, p, t, sentinel, root) && DeleteInv(p, t) && Contents(p, t) == Contents(p0, t)
      ensures p.InLeft? && p.right.Node? && w == p.right.e.node
      ensures p.right.color == Black && ColorOf(p.right.right) == Red
      ensures mem.Keys == old(mem.Keys) && mem[sentinel] == old(mem[sentinel])
    {
      ReadSibling(mem, p0, t, sentinel, root);
      ghost var q := Sideways(p0, t);
      FocusSideways(mem, p0, t, sentinel, root);
      ghost var m2 := PaintNephew(mem, q, p0.right, true, sentinel, root);
      NearLeft(p0, t);
      ghost var w1 := Node(Recolored(p0.right.left, Black), p0.right.e, Red, p0.right.right);
      p := WithOther(p0, NearRedLeft(p0.right));
      hide DeleteInv, Contents;
      mem := mem[mem[w0].left := mem[mem[w0].left].(color := Black)];
      mem := mem[w0 := mem[w0].(color := Red)];
      assert mem == m2;
      RotateRight(w0, q, w1);
      FocusSideways(mem, p, t, sentinel, root);
      w := mem[mem[x].parent].right;
    }

    /** First case of the deletion loop, right side: a red sibling is rotated away. */
    method RedSiblingRightSide(x: Ptr, w0: Ptr, ghost p: Path, ghost t: Tree) returns (w: Ptr)
      requires ShortFocus(mem, p, t, sentinel, root) && DeleteInv(p, t) && x == Root(t, sentinel)
      requires p.InRight? && p.left.Node? && p.left.color == Red && w0 == p.left.e.node
      modifies this`root, this`mem
      ensures ShortFocus(mem, RedSiblingRightPath(p), t, sentinel, root)
      ensures w == Root(p.left.right, sentinel)
      ensures mem.Keys == old(mem.Keys) && mem[sentinel] == old(mem[sentinel])
    {
      ghost var m2 := PaintSiblingAndParent(mem, p, t, Black, Red, sentinel, root);
      RedSiblingRight(p, t);
      SiblingIsNode(p, t);
      ghost var q := RedSiblingRightPath(p);
      hide DeleteInv;
      mem := mem[w0 := mem[w0].(color := Black)];
      mem := mem[mem[x].parent := mem[mem[x].parent].(color := Red)];
      assert mem == m2;
      RotateRight(mem[x].parent, p.up, Recolored(Fill(WithOther(p, Recolored(p.left, Black)), t), Red));
      FocusStep(mem, q.up, Fill(q, t), sentinel, root);
      FocusStep(mem, q, t, sentinel, root);
      w := mem[mem[x].parent].left;
    }

    /** Last case of the deletion loop, right side: a black sibling with a red far child ends the loop. */
    method FarNephewRightSide(x: Ptr, w: Ptr, ghost p: Path, ghost t: Tree) returns (ghost t': Tree)
      requires ShortFocus(mem, p, t, sentinel, root) && DeleteInv(p, t) && x == Root(t, sentinel)
      requires ColorOf(t) == Black && p.InRight? && p.left.Node? && p.left.color == Black
      requires ColorOf(p.left.left) == Red && w == p.left.e.node
      modifies this`root, this`mem
      ensures ShortFocus(mem, Top, t', sentinel, root) && DeleteInv(Top, t') && root == Root(t', sentinel)
      ensures Contents(Top, t') == Contents(p, t)
      ensures mem.Keys == old(mem.Keys) && mem[sentinel] == old(mem[sentinel])
    {
      hide DeleteInv, ShortFocus, Focus, InOrder, Contents, Zip;
      ghost var m2 := PaintSiblingAndParent(mem, p, t, p.color, Black, sentinel, root);
      ghost var f := Recolored(Fill(WithOther(p, Recolored(p.left, p.color)), t), Black);
      PaintGrandchild(m2, p.up, f, true, sentinel, root);
      FarRightRules(p, t);
      FarRightContents(p, t);
      ZipNode(p.up, FarRedRight(p, t));
      mem := mem[w := mem[w].(color := mem[mem[x].parent].color)];
      mem := mem[mem[x].parent := mem[mem[x].parent].(color := Black)];
      assert mem == m2;
      mem := mem[mem[w].left := mem[mem[w].left].(color := Black)];
      RotateRight(mem[x].parent, p.up, f.(left := f.left.(left := Recolored(f.left.left, Black))));
      t' := Zip(p.up, FarRedRight(p, t));
      FocusWhole(mem, p.up, FarRedRight(p, t), sentinel, root);
      WholeShort(mem, t', sentinel, root);
    }

    /** Third case of the deletion loop, right side: the near nephew becomes the sibling. */
    method NearNephewRightSide(x: Ptr, w0: Ptr, ghost p0: Path, ghost t: Tree) returns (w: Ptr, ghost p: Path)
      requires ShortFocus(mem, p0, t, sentinel, root) && DeleteInv(p0, t) && x == Root(t, sentinel)
      requires p0.InRight? && p0.left.Node? && p0.left.color == Black && w0 == p0.left.e.node
      requires ColorOf(p0.left.right) == Red && ColorOf(p0.left.left) == Black
      modifies this`root, this`mem
      ensures ShortFocus(mem, p, t, sentinel, root) && DeleteInv(p, t) && Contents(p, t) == Contents(p0, t)
      ensures p.InRight? && p.left.Node? && w == p.left.e.node
      ensures p.left.color == Black && ColorOf(p.left.left) == Red
      ensures mem.Keys == old(mem.Keys) && mem[sentinel] == old(mem[sentinel])
    {
      ReadSibling(mem, p0, t, sentinel, root);
      ghost var q := Sideways(p0, t);
      FocusSideways(mem, p0, t, sentinel, root);
      ghost var m2 := PaintNephew(mem, q, p0.left, false, sentinel, root);
      NearRight(p0, t);
      ghost var w1 := Node(p0.left.left, p0.left.e, Red, Recolored(p0.left.right, Black));
      p := WithOther(p0, NearRedRight(p0.left));
      hide DeleteInv, Contents;
      mem := mem[mem[w0].right := mem[mem[w0].right].(color := Black)];
      mem := mem[w0 := mem[w0].(color := Red)];
      assert mem == m2;
      RotateLeft(w0, q, w1);
      FocusSideways(mem, p, t, sentinel, root);
      w := mem[mem[x].parent].left;
    }

    /** One round of the deletion loop, left side. */
    method DeleteStepLeftSide(x0: Ptr, ghost p0: Path, ghost t0: Tree)
      returns (x: Ptr, ghost p: Path, ghost t: Tree)
      requires ShortFocus(mem, p0, t0, sentinel, root) && DeleteInv(p0, t0) && x0 == Root(t0, sentinel)
      requires ColorOf(t0) == Black && p0.InLeft?
      modifies this`root, this`mem
      ensures ShortFocus(mem, p, t, sentinel, root) && DeleteInv(p, t) && x == Root(t, sentinel)
      ensures Contents(p, t) == Contents(p0, t0) && Climb(p, t) < Climb(p0, t0)
      ensures mem.Keys == old(mem.Keys) && mem[sentinel] == old(mem[sentinel])
    {
      hide DeleteInv, ShortFocus, Contents;
      x, p, t := x0, p0, t0;
      SiblingIsNode(p, t);
      ReadSibling(mem, p, t, sentinel, root);
      var w := mem[mem[x].parent].right;
      if mem[w].color == Red {
        RedSiblingLeft(p, t);
        w := RedSiblingLeftSide(x, w, p, t);
        p := RedSiblingLeftPath(p);
        SiblingIsNode(p, t);
        ReadSibling(mem, p, t, sentinel, root);
      }
      if mem[mem[w].left].color == Black && mem[mem[w].right].color == Black {
        ghost var m1 := SinkMemory(mem, p, t, sentinel, root);
        Sink(p, t);
        mem := mem[w := mem[w].(color := Red)];
        x := mem[x].parent;
        p, t := p.up, Sunk(p, t);
      } else {
        if mem[mem[w].right].color == Black {
          w, p := NearNephewLeftSide(x, w, p, t);
        }
        t := FarNephewLeftSide(x, w, p, t);
        p := Top;
        x := root;
      }
    }

    /** One round of the deletion loop, right side. */
    method DeleteStepRightSide(x0: Ptr, ghost p0: Path, ghost t0: Tree)
      returns (x: Ptr, ghost p: Path, ghost t: Tree)
      requires ShortFocus(mem, p0, t0, sentinel, root) && DeleteInv(p0, t0) && x0 == Root(t0, sentinel)
      requires ColorOf(t0) == Black && p0.InRight?
      modifies this`root, this`mem
      ensures ShortFocus(mem, p, t, sentinel, root) && DeleteInv(p, t) && x == Root(t, sentinel)
      ensures Contents(p, t) == Contents(p0, t0) && Climb(p, t) < Climb(p0, t0)
      ensures mem.Keys == old(mem.Keys) && mem[sentinel] == old(mem[sentinel])
    {
      hide DeleteInv, ShortFocus, Contents;
      x, p, t := x0, p0, t0;
      SiblingIsNode(p, t);
      ReadSibling(mem, p, t, sentinel, root);
      var w := mem[mem[x].parent].left;
      if mem[w].color == Red {
        RedSiblingRight(p, t);
        w := RedSiblingRightSide(x, w, p, t);
        p := RedSiblingRightPath(p);
        SiblingIsNode(p, t);
        ReadSibling(mem, p, t, sentinel, root);
      }
      if mem[mem[w].right].color == Black && mem[mem[w].left].color == Black {
        ghost var m1 := SinkMemory(mem, p, t, sentinel, root);
        Sink(p, t);
        mem := mem[w := mem[w].(color := Red)];
        x := mem[x].parent;
        p, t := p.up, Sunk(p, t);
      } else {
        if mem[mem[w].left].color == Black {
          w, p := NearNephewRightSide(x, w, p, t);
        }
        t := FarNephewRightSide(x, w, p, t);
        p := Top;
        x := root;
      }
    }

    /** `rebalance_after_delete`. */
    method RebalanceAfterDelete(x0: Ptr, ghost p0: Path, ghost t0: Tree) returns (ghost t': Tree)
      requires ShortFocus(mem, p0, t0, sentinel, root) && DeleteInv(p0, t0) && x0 == Root(t0, sentinel)
      modifies this`root, this`mem
      ensures Focus(mem, Top, t', sentinel, root) && RedBlack(t') && SentinelOk(mem, sentinel)
      ensures InOrder(t') == Contents(p0, t0) && mem.Keys == old(mem.Keys)
    {
      var x := x0;
      ghost var p, t := p0, t0;
      AtRoot(mem, p, t, sentinel, root);
      ReadColor(mem, t, ParentNode(p, sentinel), sentinel);
      while x != root && mem[x].color == Black
        invariant ShortFocus(mem, p, t, sentinel, root) && DeleteInv(p, t) && x == Root(t, sentinel)
        invariant x == root <==> p.Top?
        invariant x in mem && mem[x].color == ColorOf(t)
        invariant Contents(p, t) == Contents(p0, t0) && mem.Keys == old(mem.Keys)
        decreases Climb(p, t)
      {
        ShortParent(mem, p, t, sentinel, root);
        hide DeleteInv, ShortFocus, Contents;
        if x == mem[mem[x].parent].left {
          x, p, t := DeleteStepLeftSide(x, p, t);
        } else {
          x, p, t := DeleteStepRightSide(x, p, t);
        }
        ShortReads(mem, p, t, sentinel, root);
      }
      DeleteDone(p, t);
      PaintShort(mem, p, t, sentinel, root);
      mem := mem[x := mem[x].(color := Black)];
      t' := Zip(p, Recolored(t, Black));
    }

    /** `transplant`: `v` takes the place of `u`. */
    method Transplant(u: Ptr, v: Ptr, ghost p: Path)
      requires HangsAt(mem, u, p, sentinel) && v in mem && u != v
      modifies this`root, this`mem
      ensures mem == Transplanted(old(mem), p, v, sentinel)
      ensures root == if p.Top? then v else old(root)
    {
      if mem[u].parent == sentinel {
        root := v;
      } else if u == mem[mem[u].parent].left {
        mem := mem[mem[u].parent := mem[mem[u].parent].(left := v)];
      } else {
        mem := mem[mem[u].parent := mem[mem[u].parent].(right := v)];
      }
      mem := mem[v := mem[v].(parent := mem[u].parent)];
    }

    /** `tree_min`: the leftmost node of `t`, with the way down to it. */
    method TreeMin(n0: Ptr, ghost p: Path, ghost t: Tree) returns (n: Ptr, ghost q: Path, ghost u: Tree)
      requires Focus(mem, p, t, sentinel, root) && n0 == Root(t, sentinel)
      ensures t.Leaf? ==> n == sentinel
      ensures t.Node? ==> u.Node? && n == u.e.node && u.left.Leaf? && LeftMost(q) && Zip(q, u) == t
      ensures t.Node? ==> Focus(mem, Append(q, p), u, sentinel, root)
    {
      n, q, u := n0, Top, t;
      if n == sentinel {
        return;
      }
      StepDown(mem, Append(q, p), u, sentinel, root);
      while mem[n].left != sentinel
        invariant u.Node? && n == u.e.node && LeftMost(q) && Zip(q, u) == t
        invariant Focus(mem, Append(q, p), u, sentinel, root)
        invariant n in mem && mem[n].left == Root(u.left, sentinel)
        invariant mem[n].left == sentinel <==> u.left.Leaf?
        decreases u
      {
        StepDown(mem, Append(q, p), u, sentinel, root);
        hide Focus;
        n, q, u := mem[n].left, DownLeft(q, u), u.left;
        StepDown(mem, Append(q, p), u, sentinel, root);
      }
    }

    /** The end of that branch of `remove_node`: the successor `y` takes the place and the color of `z`. */
    method TakePlace(z: Ptr, y: Ptr, ghost p: Path, ghost t: Tree, ghost ye: Entry, ghost r: Tree)
      requires t.Node? && z == t.e.node && y == ye.node && SentinelOk(mem, sentinel)
      requires Detached(mem, p, z, t.left, ye, r, sentinel, root) && mem[z].color == t.color
      modifies this`root, this`mem
      ensures Focus(mem, p, Node(t.left, ye, t.color, r), sentinel, root)
      ensures SentinelOk(mem, sentinel) && mem[sentinel] == old(mem[sentinel]) && mem.Keys == old(mem.Keys)
    {
      PromoteFocus(mem, p, z, t.left, ye, t.color, r, sentinel, root);
      hide Focus, Shape, PathShape, Nodes, PathNodes;
      Transplant(z, y, p);
      mem := mem[y := mem[y].(left := mem[z].left)];
      mem := mem[mem[y].left := mem[mem[y].left].(parent := y)];
      mem := mem[y := mem[y].(color := mem[z].color)];
      assert mem == Promoted(old(mem), p, t.left, y, t.color, sentinel);
    }

    /** The part of `remove_node` for a node with two children, up to the rebalancing. */
    method ReplaceBySuccessor(z: Ptr, ghost p: Path, ghost t: Tree)
      returns (x: Ptr, yColor: Color, ghost q: Path, ghost u: Tree)
      requires Focus(mem, p, t, sentinel, root) && SentinelOk(mem, sentinel)
      requires t.Node? && z == t.e.node && t.left.Node? && t.right.Node?
      modifies this`root, this`mem
      ensures u.Node? && u.left.Leaf? && LeftMost(q) && Zip(q, u) == t.right && yColor == u.color
      ensures Focus(mem, p, Node(t.left, u.e, t.color, Zip(q, u.right)), sentinel, root)
      ensures SentinelOk(mem, sentinel) && x == Root(u.right, sentinel)
      ensures u.right.Leaf? ==> mem[sentinel].parent == ParentNode(SuccessorPath(q, t.left, u.e, t.color, p), sentinel)
      ensures mem.Keys == old(mem.Keys)
    {
      hide Focus, Detached, InOrder, Shape, PathShape, Nodes, PathNodes;
      StepDown(mem, p, t, sentinel, root);
      var y;
      y, q, u := TreeMin(mem[z].right, DownRight(p, t), t.right);
      StepDown(mem, Append(q, DownRight(p, t)), u, sentinel, root);
      AppendNotTop(q, DownRight(p, t));
      yColor := mem[y].color;
      x := mem[y].right;
      if mem[y].parent == z {
        SuccessorDepth(mem, p, t, q, u, sentinel, root);
        DetachNear(mem, p, t, sentinel, root);
        mem := mem[x := mem[x].(parent := y)];
      } else {
        DetachDeep(mem, p, t, q, u, sentinel, root);
        CutSuccessor(mem, p, t, q, u, sentinel, root);
        Transplant(y, mem[y].right, SuccessorPath(q, t.left, t.e, t.color, p));
        mem := mem[y := mem[y].(right := mem[z].right)];
        mem := mem[mem[y].right := mem[mem[y].right].(parent := y)];
        assert mem == CutOut(old(mem), p, t, q, u, sentinel);
      }
      TakePlace(z, y, p, t, u.e, Zip(q, u.right));
    }

    /** `remove_node` up to the rebalancing; `x` is the node that moved into the gap. */
    method Unlink(z: Ptr, ghost p: Path, ghost t: Tree)
      returns (x: Ptr, yColor: Color, ghost sp: Path, ghost st: Tree)
      requires Focus(mem, p, t, sentinel, root) && SentinelOk(mem, sentinel)
      requires t.Node? && z == t.e.node && RedBlack(Zip(p, t))
      modifies this`root, this`mem
      ensures ShortFocus(mem, sp, st, sentinel, root) && x == Root(st, sentinel) && Repairable(sp, st, yColor)
      ensures IndexOf(p, t) < |Contents(p, t)| && Contents(sp, st) == Without(Contents(p, t), IndexOf(p, t))
      ensures mem.Keys == old(mem.Keys)
    {
      hide RedBlack, Repairable;
      StepDown(mem, p, t, sentinel, root);
      yColor := mem[z].color;
      if mem[z].left == sentinel {
        TransplantChild(mem, p, t, t.right, sentinel, root);
        SpliceRepairable(p, t, t.right);
        SpliceContents(p, t, t.right);
        x := mem[z].right;
        Transplant(z, mem[z].right, p);
        sp, st := p, t.right;
      } else if mem[z].right == sentinel {
        TransplantChild(mem, p, t, t.left, sentinel, root);
        SpliceRepairable(p, t, t.left);
        SpliceContents(p, t, t.left);
        x := mem[z].left;
        Transplant(z, mem[z].left, p);
        sp, st := p, t.left;
      } else {
        ghost var q, u;
        x, yColor, q, u := ReplaceBySuccessor(z, p, t);
        PromoteRepairable(p, t, q, u);
        PromoteWhole(p, t, q, u);
        PromoteShort(mem, p, t, q, u, sentinel, root);
        sp, st := SuccessorPath(q, t.left, u.e, t.color, p), u.right;
      }
    }

    /** `remove_node` without freeing the node: unlinking, then rebalancing if a black node is missing. */
    method UnlinkAndRebalance(z: Ptr, ghost p: Path, ghost t: Tree) returns (ghost t': Tree)
      requires Focus(mem, p, t, sentinel, root) && SentinelOk(mem, sentinel)
      requires t.Node? && z == t.e.node && RedBlack(Zip(p, t))
      modifies this`root, this`mem
      ensures Focus(mem, Top, t', sentinel, root) && SentinelOk(mem, sentinel) && RedBlack(t')
      ensures IndexOf(p, t) < |Contents(p, t)| && InOrder(t') == Without(Contents(p, t), IndexOf(p, t))
      ensures mem.Keys == old(mem.Keys)
    {
      var x, yColor;
      ghost var sp, st;
      x, yColor, sp, st := Unlink(z, p, t);
      if yColor == Black {
        t' := RebalanceAfterDelete(x, sp, st);
      } else {
        FocusWhole(mem, sp, st, sentinel, root);
        ZipInOrder(sp, st);
        t' := Zip(sp, st);
      }
    }

    /** `remove_node`: the entry of `z` goes, every other entry keeps its node. */
    method RemoveNode(z: Ptr, ghost p: Path, ghost t: Tree)
      requires Valid() && Zip(p, t) == tree && Focus(mem, p, t, sentinel, root)
      requires t.Node? && z == t.e.node
      modifies this
      ensures Valid() && mem.Keys == old(mem.Keys) - {z} && size == old(size) - 1
      ensures IndexOf(p, t) < |old(Entries())| && Entries() == Without(old(Entries()), IndexOf(p, t))
    {
      hide TotalPreorder;
      ghost var tree0, i := tree, IndexOf(p, t);
      ZipInOrder(p, t);
      AtIndex(p, t);
      TreeNodes(mem, tree, sentinel, sentinel);
      WithoutSorted(cmp, Entries(), i);
      tree := UnlinkAndRebalance(z, p, t);
      RemainingNodes(tree0, tree, i, sentinel);
      FreeNode(mem, tree, z, sentinel, root);
      hide Focus, Nodes, RedBlack, Distinct, InOrder, Contents, Zip, IndexOf, Sorted;
      mem := Freed(mem, z);
      size := size - 1;
      assert mem.Keys == Nodes(tree) + {sentinel};
    }

    /** `cc_treetable_remove`. */
    method Remove(key: Ptr) returns (stat: Stat, out: Ptr)
      requires Valid()
      modifies this
      ensures Valid()
      ensures stat == (if Has(cmp, old(Entries()), key) then CC_OK else CC_ERR_KEY_NOT_FOUND)
      ensures stat == CC_OK ==>
        && Lookup(cmp, old(Entries()), key) == Some(out)
        && Entries() == Without(old(Entries()), Position(cmp, old(Entries()), key)) && size == old(size) - 1
      ensures stat != CC_OK ==> unchanged(this)
    {
      hide TotalPreorder, Sorted, RedBlack, Has, Nodes, Position;
      var node, p, t, _ := GetNodeByKey(key);
      if node == NULL {
        return CC_ERR_KEY_NOT_FOUND, NULL;
      }
      FoundValue(cmp, key, p, t, tree);
      StepDown(mem, p, t, sentinel, root);
      out := mem[node].value;
      RemoveNode(node, p, t);
      stat := CC_OK;
    }

    /** `cc_treetable_remove_first`. */
    method RemoveFirst() returns (stat: Stat, out: Ptr)
      requires Valid()
      modifies this
      ensures Valid()
      ensures stat == (if old(Entries()) == [] then CC_ERR_KEY_NOT_FOUND else CC_OK)
      ensures stat == CC_OK ==> out == old(Entries())[0].value && Entries() == old(Entries())[1..]
      ensures stat != CC_OK ==> unchanged(this)
    {
      if size == 0 {
        return CC_ERR_KEY_NOT_FOUND, NULL;
      }
      var node, q, u := TreeMin(root, Top, tree);
      AppendTop(q);
      LeftMostBefore(q);
      StepDown(mem, q, u, sentinel, root);
      ZipInOrder(q, u);
      AtIndex(q, u);
      out := mem[node].value;
      RemoveNode(node, q, u);
      stat := CC_OK;
    }

    /** `get_successor_node` of a node of the table. */
    method GetSuccessor(x0: Ptr, ghost p0: Path, ghost t0: Tree) returns (y: Ptr)
      requires Focus(mem, p0, t0, sentinel, root) && t0.Node? && x0 == t0.e.node
      ensures y == NextNode(p0, t0, sentinel)
    {
      StepDown(mem, p0, t0, sentinel, root);
      if mem[x0].right != sentinel {
        NextBelow(p0, t0, sentinel);
        ghost var q, u;
        y, q, u := TreeMin(mem[x0].right, DownRight(p0, t0), t0.right);
        SuccessorFirst(q, u);
        return;
      }
      NextAbove(p0, t0, sentinel);
      var x := x0;
      y := mem[x].parent;
      ghost var p, t := p0, t0;
      HangsThere(mem, p, t, sentinel, root);
      while y != sentinel && x == mem[y].right
        invariant t.Node? && x == t.e.node && y == ParentNode(p, sentinel)
        invariant Focus(mem, p, t, sentinel, root) && HangsAt(mem, x, p, sentinel)
        invariant After(p) == After(p0)
        decreases p
      {
        x := y;
        y := mem[y].parent;
        FocusStep(mem, p, t, sentinel, root);
        p, t := p.up, Fill(p, t);
        HangsThere(mem, p, t, sentinel, root);
      }
    }

    /** `tree_destroy`: frees every node of `t`, children before parents, each one while it is still allocated. */
    method TreeDestroy(n: Ptr, ghost parent: Ptr, ghost t: Tree)
      requires Shape(mem, t, parent, sentinel) && n == Root(t, sentinel)
      modifies this`mem
      ensures mem == old(mem) - Nodes(t)
      decreases t
    {
      TreeNodes(mem, t, parent, sentinel);
      if n == sentinel {
        return;
      }
      ghost var m0 := mem;
      TreeDestroy(mem[n].left, n, t.left);
      ShapeFrame(m0, mem, t.right, n, sentinel);
      TreeDestroy(mem[n].right, n, t.right);
      assert mem == m0 - Nodes(t.left) - Nodes(t.right);
      mem := Freed(mem, n);
    }

    /** `cc_treetable_remove_all`: only the sentinel stays allocated. */
    method RemoveAll()
      requires Valid()
      modifies this
      ensures Valid() && Entries() == [] && mem.Keys == {sentinel}
    {
      TreeNodes(mem, tree, sentinel, sentinel);
      TreeDestroy(root, sentinel, tree);
      size := 0;
      root := sentinel;
      tree := Leaf;
    }
  }
}
