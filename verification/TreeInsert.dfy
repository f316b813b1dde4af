/** Insertion into the red-black tree, on tree values: what each step of the rebalancing loop keeps. */
module TreeInsert {
  import opened Common
  import opened TreeModel
  import opened TreeSpec
  import opened TreeSearch

  /** Everything but a possible red-red pair between the focus and its parent. */
  predicate InsertInv(p: Path, t: Tree) {
    && t.Node? && t.color == Red && Balanced(t) && NoRedRed(t)
    && PathBalanced(p, BlackHeight(t)) && PathNoRedRed(p) && RootBlack(p)
  }

  /** A red parent is never the root, and the grandparent is black. */
  lemma RedParent(p: Path, t: Tree)
    requires InsertInv(p, t) && FrameColor(p) == Red
    ensures !p.Top? && !p.up.Top? && p.up.color == Black
    ensures t.Node? && Depth(p.up.up) < Depth(p)
  {
  }

  /** The grandparent's subtree after parent and uncle turn black and the grandparent red. */
  function PushedUp(p: Path, t: Tree): Tree
    requires !p.Top? && !p.up.Top? && Other(p.up).Node?
  {
    Recolored(Fill(WithOther(p.up, Recolored(Other(p.up), Black)), Recolored(Fill(p, t), Black)), Red)
  }

  lemma PushUp(p: Path, t: Tree)
    requires InsertInv(p, t) && FrameColor(p) == Red && ColorOf(Other(p.up)) == Red
    ensures InsertInv(p.up.up, PushedUp(p, t)) && PushedUp(p, t).Node?
    ensures Contents(p.up.up, PushedUp(p, t)) == Contents(p, t)
  {
    assert PathBalanced(p.up, BlackHeight(t)) && PathNoRedRed(p.up) && RootBlack(p.up);
    assert PathBalanced(p.up.up, BlackHeight(t) + 1) && PathNoRedRed(p.up.up);
    FillInOrder(p, t);
    FillInOrder(p.up, Fill(p, t));
    assert InOrder(PushedUp(p, t)) == InOrder(Fill(p.up, Fill(p, t)));
  }

  /** The focus after the lower rotation of an inner grandchild, left side. */
  function InnerLeftPath(p: Path, t: Tree): Path
    requires p.InRight? && t.Node?
  {
    InLeft(t.e, t.color, t.right, p.up)
  }

  function InnerLeftTree(p: Path, t: Tree): Tree
    requires p.InRight? && t.Node?
  {
    Node(p.left, p.e, p.color, t.left)
  }

  lemma InnerLeft(p: Path, t: Tree)
    requires InsertInv(p, t) && FrameColor(p) == Red && p.InRight?
    ensures InsertInv(InnerLeftPath(p, t), InnerLeftTree(p, t)) && FrameColor(InnerLeftPath(p, t)) == Red
    ensures Fill(InnerLeftPath(p, t), InnerLeftTree(p, t)) == RotatedLeft(Fill(p, t))
    ensures Contents(InnerLeftPath(p, t), InnerLeftTree(p, t)) == Contents(p, t)
  {
    FillInOrder(p, t);
    FillInOrder(InnerLeftPath(p, t), InnerLeftTree(p, t));
    RotatedLeftInOrder(Fill(p, t));
    hide Before, After, InOrder;
  }

  /** The path to the focus after the upper rotation, left side. */
  function OuterLeftPath(p: Path): Path
    requires p.InLeft? && p.up.InLeft?
  {
    InLeft(p.e, Black, Node(p.right, p.up.e, Red, p.up.right), p.up.up)
  }

  lemma OuterLeft(p: Path, t: Tree)
    requires InsertInv(p, t) && FrameColor(p) == Red && p.InLeft? && p.up.InLeft?
    requires ColorOf(p.up.right) == Black
    ensures InsertInv(OuterLeftPath(p), t)
    ensures Fill(OuterLeftPath(p), t)
         == RotatedRight(Node(Node(t, p.e, Black, p.right), p.up.e, Red, p.up.right))
    ensures Contents(OuterLeftPath(p), t) == Contents(p, t)
  {
    assert PathBalanced(p.up, BlackHeight(t)) && PathNoRedRed(p.up) && RootBlack(p.up);
    assert PathBalanced(p.up.up, BlackHeight(t) + 1) && PathNoRedRed(p.up.up);
    var (o, u, a) := (InOrder(p.right), InOrder(p.up.right), After(p.up.up));
    assert Before(p) == Before(p.up) == Before(p.up.up);
    assert After(p.up) == [p.up.e] + u + a;
    assert After(p) == [p.e] + o + ([p.up.e] + u + a) == After(OuterLeftPath(p));
  }

  /** The focus after the lower rotation of an inner grandchild, right side. */
  function InnerRightPath(p: Path, t: Tree): Path
    requires p.InLeft? && t.Node?
  {
    InRight(t.left, t.e, t.color, p.up)
  }

  function InnerRightTree(p: Path, t: Tree): Tree
    requires p.InLeft? && t.Node?
  {
    Node(t.right, p.e, p.color, p.right)
  }

  lemma InnerRight(p: Path, t: Tree)
    requires InsertInv(p, t) && FrameColor(p) == Red && p.InLeft?
    ensures InsertInv(InnerRightPath(p, t), InnerRightTree(p, t)) && FrameColor(InnerRightPath(p, t)) == Red
    ensures Fill(InnerRightPath(p, t), InnerRightTree(p, t)) == RotatedRight(Fill(p, t))
    ensures Contents(InnerRightPath(p, t), InnerRightTree(p, t)) == Contents(p, t)
  {
    FillInOrder(p, t);
    FillInOrder(InnerRightPath(p, t), InnerRightTree(p, t));
    RotatedRightInOrder(Fill(p, t));
    hide Before, After, InOrder;
  }

  /** The path to the focus after the upper rotation, right side. */
  function OuterRightPath(p: Path): Path
    requires p.InRight? && p.up.InRight?
  {
    InRight(Node(p.up.left, p.up.e, Red, p.left), p.e, Black, p.up.up)
  }

  lemma OuterRight(p: Path, t: Tree)
    requires InsertInv(p, t) && FrameColor(p) == Red && p.InRight? && p.up.InRight?
    requires ColorOf(p.up.left) == Black
    ensures InsertInv(OuterRightPath(p), t)
    ensures Fill(OuterRightPath(p), t)
         == RotatedLeft(Node(p.up.left, p.up.e, Red, Node(p.left, p.e, Black, t)))
    ensures Contents(OuterRightPath(p), t) == Contents(p, t)
  {
    assert PathBalanced(p.up, BlackHeight(t)) && PathNoRedRed(p.up) && RootBlack(p.up);
    assert PathBalanced(p.up.up, BlackHeight(t) + 1) && PathNoRedRed(p.up.up);
    var (o, u, a) := (InOrder(p.left), InOrder(p.up.left), Before(p.up.up));
    assert After(p) == After(p.up) == After(p.up.up);
    assert Before(p.up) == a + u + [p.up.e];
    assert Before(p) == (a + u + [p.up.e]) + o + [p.e] == Before(OuterRightPath(p));
  }

  /** Leaving the loop: painting the root black repairs the last rule. */
  lemma InsertNode(p: Path, t: Tree)
    requires InsertInv(p, t)
    ensures t.Node?
  {
  }

  lemma InsertDone(p: Path, t: Tree)
    requires InsertInv(p, t) && FrameColor(p) == Black
    ensures Zip(p, t).Node? && RedBlack(Recolored(Zip(p, t), Black))
    ensures InOrder(Recolored(Zip(p, t), Black)) == Contents(p, t)
  {
    ZipBalanced(p, t);
    ZipNoRedRed(p, t);
    ZipNode(p, t);
    ZipInOrder(p, t);
  }

  // ---------- The memory ----------

  /** The loop test: the parent pointer leads to the frame, or to the sentinel at the root. */
  ghost predicate ParentRead(m: Memory, p: Path, t: Tree, s: Ptr)
    requires t.Node?
  {
    && t.e.node in m && m[t.e.node].parent in m
    && m[t.e.node].parent == ParentNode(p, s) && m[m[t.e.node].parent].color == FrameColor(p)
  }

  lemma ReadParent(m: Memory, p: Path, t: Tree, s: Ptr, root: Ptr)
    requires Focus(m, p, t, s, root) && SentinelOk(m, s) && t.Node?
    ensures ParentRead(m, p, t, s)
  {
  }

  /** What the loop reads around a focus that has a parent and a grandparent. */
  ghost predicate Family(m: Memory, p: Path, t: Tree, s: Ptr)
    requires t.Node? && !p.Top? && !p.up.Top?
  {
    var (z, f, g, y) := (t.e.node, p.e.node, p.up.e.node, Root(Other(p.up), s));
    && z in m && f in m && g in m && y in m
    && z != f && z != g && f != g && f != s && g != s && y != f && y != g
    && m[z].parent == f && m[f].parent == g
    && (m[f].left == z <==> p.InLeft?) && (m[f].right == z <==> p.InRight?)
    && (m[g].left == f <==> p.up.InLeft?) && (m[g].right == f <==> p.up.InRight?)
    && y == (if p.up.InLeft? then m[g].right else m[g].left)
    && m[y].color == ColorOf(Other(p.up)) && m[f].color == p.color
  }

  lemma ReadFamily(m: Memory, p: Path, t: Tree, s: Ptr, root: Ptr)
    requires Focus(m, p, t, s, root) && SentinelOk(m, s)
    requires t.Node? && !p.Top? && !p.up.Top?
    ensures Family(m, p, t, s)
  {
    FocusStep(m, p, t, s, root);
    ReadColor(m, Other(p.up), p.up.e.node, s);
  }

  /** Three color changes turn the grandparent's subtree into the pushed-up one. */
  lemma PushUpMemory(m: Memory, p: Path, t: Tree, s: Ptr, root: Ptr) returns (m3: Memory)
    requires Focus(m, p, t, s, root) && SentinelOk(m, s)
    requires t.Node? && !p.Top? && !p.up.Top? && Other(p.up).Node?
    ensures Family(m, p, t, s)
    ensures m3 == Painted(Painted(Painted(m, p.e.node, Black), Root(Other(p.up), s), Black), p.up.e.node, Red)
    ensures Focus(m3, p.up.up, PushedUp(p, t), s, root)
    ensures m3.Keys == m.Keys && m3[s] == m[s]
  {
    hide Shape, PathShape, PathNodes, Nodes;
    ReadFamily(m, p, t, s, root);
    FocusStep(m, p, t, s, root);
    RecolorFocus(m, p.up, Fill(p, t), Black, s, root);
    var m1 := Painted(m, p.e.node, Black);
    var f := Recolored(Fill(p, t), Black);
    RecolorOther(m1, p.up, f, Black, s, root);
    var m2 := Painted(m1, Root(Other(p.up), s), Black);
    var q := WithOther(p.up, Recolored(Other(p.up), Black));
    FocusStep(m2, q, f, s, root);
    RecolorFocus(m2, p.up.up, Fill(q, f), Red, s, root);
    m3 := Painted(m2, p.up.e.node, Red);
    FocusStep(m, p, t, s, root);
    OtherShape(m, p.up, Fill(p, t), s, root);
    ReadColor(m, Other(p.up), p.up.e.node, s);
  }

  /** The two color changes before the upper rotation. */
  lemma RepaintParents(m: Memory, p: Path, t: Tree, s: Ptr, root: Ptr) returns (m2: Memory)
    requires Focus(m, p, t, s, root) && SentinelOk(m, s)
    requires t.Node? && !p.Top? && !p.up.Top?
    ensures Family(m, p, t, s)
    ensures m2 == Painted(Painted(m, p.e.node, Black), p.up.e.node, Red)
    ensures Focus(m2, p.up.up, Recolored(Fill(p.up, Recolored(Fill(p, t), Black)), Red), s, root)
    ensures m2.Keys == m.Keys && m2[s] == m[s]
  {
    ReadFamily(m, p, t, s, root);
    FocusStep(m, p, t, s, root);
    RecolorFocus(m, p.up, Fill(p, t), Black, s, root);
    var m1 := Painted(m, p.e.node, Black);
    var f := Recolored(Fill(p, t), Black);
    FocusStep(m1, p.up, f, s, root);
    RecolorFocus(m1, p.up.up, Fill(p.up, f), Red, s, root);
    m2 := Painted(m1, p.up.e.node, Red);
  }

  // ---------- The new node, and the replaced value ----------

  function RedLeaf(e: Entry): Tree {
    Node(Leaf, e, Red, Leaf)
  }

  /** Hanging a red node into an empty place breaks at most the red-red rule. */
  lemma HangNode(p: Path, e: Entry)
    requires RedBlack(Zip(p, Leaf))
    ensures InsertInv(p, RedLeaf(e))
  {
    ZipBalanced(p, Leaf);
    ZipNoRedRed(p, Leaf);
    ZipRootColor(p, Leaf);
  }

  lemma HangAtTop(e: Entry)
    ensures var t := Node(Leaf, e, Black, Leaf); RedBlack(t) && InOrder(t) == Contents(Top, RedLeaf(e))
  {
  }

  lemma HangNodeMemory(m: Memory, p: Path, e: Entry, c: Color, s: Ptr, root: Ptr) returns (m1: Memory, m2: Memory)
    requires Focus(m, p, Leaf, s, root) && SentinelOk(m, s) && e.node !in m
    ensures m1 == m[e.node := RBNode(e.key, e.value, c, ParentNode(p, s), s, s)]
    ensures !p.Top? ==> p.e.node in m && p.e.node != s && m[p.e.node].key == p.e.key
    ensures m2 == Redirected(m1, p, e.node)
    ensures Focus(m2, p, Node(Leaf, e, c, Leaf), s, if p.Top? then e.node else root)
    ensures m2.Keys == m.Keys + {e.node} && m2[s] == m[s]
  {
    m1 := m[e.node := RBNode(e.key, e.value, c, ParentNode(p, s), s, s)];
    PathNodesRecorded(m, p, s, s, root);
    PathFrame(m, m1, p, s, s, root);
    RedirectedPath(m1, p, s, e.node, s, root);
    m2 := Redirected(m1, p, e.node);
  }

  /** Any tree with the new contents consists of the old nodes and the new one. */
  lemma HangNodeNodes(p: Path, e: Entry, t: Tree)
    requires InOrder(t) == Contents(p, RedLeaf(e))
    ensures Nodes(t) == Nodes(Zip(p, Leaf)) + {e.node}
  {
    ZipInOrder(p, RedLeaf(e));
    NodesInOrder(t);
    NodesInOrder(Zip(p, RedLeaf(e)));
    ZipNodes(p, RedLeaf(e));
    ZipNodes(p, Leaf);
  }

  lemma HangNodeContents(cmp: Comparator, p: Path, node: Ptr, k: Ptr, v: Ptr)
    requires Narrowed(cmp, k, p)
    ensures Contents(p, RedLeaf(Entry(node, k, v))) == Added(cmp, Contents(p, Leaf), k, v, node)
    ensures !Has(cmp, Contents(p, Leaf), k)
  {
    NotFound(cmp, k, p);
    assert Contents(p, Leaf) == Before(p) + After(p);
  }

  /** The comparison with the parent's key tells the side of the empty place. */
  lemma SideOfHole(cmp: Comparator, k: Ptr, p: Path)
    requires Narrowed(cmp, k, p) && !p.Top?
    ensures cmp(k, p.e.key) < 0 <==> p.InLeft?
  {
    if p.InLeft? {
      assert After(p)[0] == p.e;
    } else {
      assert Before(p)[|Before(p)| - 1] == p.e;
    }
  }

  function Revalued(t: Tree, v: Ptr): Tree
    requires t.Node?
  {
    t.(e := t.e.(value := v))
  }

  /** Writing a value through a node pointer keeps every rule, */
  lemma RevalueRules(p: Path, t: Tree, v: Ptr)
    requires t.Node? && RedBlack(Zip(p, t))
    ensures RedBlack(Zip(p, Revalued(t, v))) && Nodes(Zip(p, Revalued(t, v))) == Nodes(Zip(p, t))
  {
    var t' := Revalued(t, v);
    ZipBalanced(p, t); ZipBalanced(p, t');
    ZipNoRedRed(p, t); ZipNoRedRed(p, t');
    ZipRootColor(p, t); ZipRootColor(p, t');
    ZipNodes(p, t); ZipNodes(p, t');
  }

  /** and changes that entry's value and nothing else. */
  lemma RevalueContents(cmp: Comparator, p: Path, t: Tree, k: Ptr, v: Ptr, node: Ptr)
    requires t.Node? && TotalPreorder(cmp) && Sorted(cmp, Contents(p, t)) && cmp(k, t.e.key) == 0
    ensures Contents(p, Revalued(t, v)) == Added(cmp, Contents(p, t), k, v, node)
    ensures Has(cmp, Contents(p, t), k)
  {
    AtIndex(p, t);
    FoundAt(cmp, Contents(p, t), k, IndexOf(p, t));
    hide TotalPreorder, Sorted, Position;
    assert Contents(p, Revalued(t, v)) == Contents(p, t)[IndexOf(p, t) := Revalued(t, v).e];
  }

  lemma RevalueFocus(m: Memory, p: Path, t: Tree, v: Ptr, s: Ptr, root: Ptr)
    requires Focus(m, p, t, s, root) && t.Node?
    ensures Focus(m[t.e.node := m[t.e.node].(value := v)], p, Revalued(t, v), s, root)
    ensures t.e.node in m && t.e.node != s
  {
    var m' := m[t.e.node := m[t.e.node].(value := v)];
    ShapeFrame(m, m', t.left, t.e.node, s);
    ShapeFrame(m, m', t.right, t.e.node, s);
    PathFrame(m, m', p, t.e.node, s, root);
  }
}
