/** Unlinking a node from the red-black tree: the rules, the entries and the memory before rebalancing. */
module TreeRemove {
  import opened Common
  import opened TreeModel
  import opened TreeSpec
  import opened TreeSearch
  import opened TreeDelete

  // ---------- Rules ----------

  /** Replacing a node that has one empty side by its other side. */
  lemma SpliceRules(p: Path, t: Tree, child: Tree)
    requires t.Node? && RedBlack(Zip(p, t))
    requires (t.left.Leaf? && child == t.right) || (t.right.Leaf? && child == t.left)
    ensures t.color == Black ==> DeleteInv(p, child)
    ensures t.color == Red ==>
      child.Leaf? && !p.Top? && FrameColor(p) == Black && PathBalanced(p, 0) && PathNoRedRed(p) && RootBlack(p)
  {
    ZipBalanced(p, t);
    ZipNoRedRed(p, t);
    ZipRootColor(p, t);
  }

  /** Without a missing black node the tree is a red-black tree at once. */
  lemma SplicedRed(p: Path)
    requires !p.Top? && FrameColor(p) == Black && PathBalanced(p, 0) && PathNoRedRed(p) && RootBlack(p)
    ensures RedBlack(Zip(p, Leaf))
  {
    ZipBalanced(p, Leaf);
    ZipNoRedRed(p, Leaf);
    ZipRootColor(p, Leaf);
  }

  /** The rules do not mention entries, so another entry may stand in a frame. */
  lemma {:induction false} SwapEntry(q: Path, l: Tree, e: Entry, e': Entry, c: Color, p: Path, h: nat)
    ensures var (a, b) := (Append(q, InRight(l, e, c, p)), Append(q, InRight(l, e', c, p)));
      && !a.Top? && !b.Top? && FrameColor(a) == FrameColor(b) && (PathBalanced(a, h) <==> PathBalanced(b, h))
      && (PathNoRedRed(a) <==> PathNoRedRed(b)) && (RootBlack(a) <==> RootBlack(b))
    decreases q
  {
    if !q.Top? { SwapEntry(q.up, l, e, e', c, p, h + Weight(q.color)); }
  }

  lemma {:induction false} ZipAppend(q: Path, p: Path, t: Tree)
    ensures Zip(Append(q, p), t) == Zip(p, Zip(q, t))
    decreases q
  {
    if !q.Top? { ZipAppend(q.up, p, Fill(q, t)); }
  }

  // ---------- The successor ----------

  /** A path that only goes left has nothing before it. */
  predicate LeftMost(q: Path) {
    q.Top? || (q.InLeft? && LeftMost(q.up))
  }

  lemma {:induction false} LeftMostBefore(q: Path)
    requires LeftMost(q)
    ensures Before(q) == []
  {
    if !q.Top? { LeftMostBefore(q.up); }
  }

  // ---------- Entries ----------

  lemma DropMiddle(a: seq<Entry>, l: seq<Entry>, x: Entry, r: seq<Entry>, c: seq<Entry>)
    ensures Without(a + (l + [x] + r) + c, |a| + |l|) == a + (l + r) + c
  {
  }

  lemma SpliceContents(p: Path, t: Tree, child: Tree)
    requires t.Node?
    requires (t.left.Leaf? && child == t.right) || (t.right.Leaf? && child == t.left)
    ensures IndexOf(p, t) < |Contents(p, t)|
    ensures Contents(p, child) == Without(Contents(p, t), IndexOf(p, t))
  {
    AtIndex(p, t);
    DropMiddle(Before(p), InOrder(t.left), t.e, InOrder(t.right), After(p));
    assert InOrder(child) == InOrder(t.left) + InOrder(t.right);
  }

  /** Replacing a node by its successor `u` drops exactly the node's entry. */
  lemma PromoteContents(p: Path, t: Tree, q: Path, u: Tree)
    requires t.Node? && u.Node? && u.left.Leaf? && LeftMost(q) && Zip(q, u) == t.right
    ensures IndexOf(p, t) < |Contents(p, t)|
    ensures Contents(p, Node(t.left, u.e, t.color, Zip(q, u.right))) == Without(Contents(p, t), IndexOf(p, t))
  {
    AtIndex(p, t);
    SuccessorFirst(q, u);
    var (l, r, r') := (InOrder(t.left), InOrder(t.right), InOrder(Zip(q, u.right)));
    hide InOrder, Zip, Before, After;
    DropMiddle(Before(p), l, t.e, r, After(p));
    assert l + [u.e] + r' == l + r;
  }

  lemma SuccessorFirst(q: Path, u: Tree)
    requires u.Node? && u.left.Leaf? && LeftMost(q)
    ensures InOrder(Zip(q, u)) == [u.e] + InOrder(Zip(q, u.right))
  {
    ZipInOrder(q, u);
    ZipInOrder(q, u.right);
    LeftMostBefore(q);
    assert InOrder(u) == [u.e] + InOrder(u.right);
    hide *;
    Regroup([u.e], InOrder(u.right), After(q));
  }

  lemma Regroup(a: seq<Entry>, b: seq<Entry>, c: seq<Entry>)
    ensures [] + (a + b) + c == a + ([] + b + c)
  {
  }

  lemma {:induction false} UniqueNodes(t: Tree, s: Ptr)
    requires Distinct(t, s)
    ensures forall i, j :: 0 <= i < j < |InOrder(t)| ==> InOrder(t)[i].node != InOrder(t)[j].node
  {
    if t.Node? {
      UniqueNodes(t.left, s);
      UniqueNodes(t.right, s);
      NodesInOrder(t.left);
      NodesInOrder(t.right);
      var (l, r, es) := (InOrder(t.left), InOrder(t.right), InOrder(t));
      forall i, j | 0 <= i < j < |es| ensures es[i].node != es[j].node {
        assert i < |l| ==> es[i] == l[i] && l[i].node in Nodes(t.left);
        assert j > |l| ==> es[j] == r[j - |l| - 1] && r[j - |l| - 1].node in Nodes(t.right);
      }
    }
  }

  lemma WithoutNodes(es: seq<Entry>, i: nat)
    requires i < |es| && forall a, b :: 0 <= a < b < |es| ==> es[a].node != es[b].node
    ensures NodesOf(Without(es, i)) == NodesOf(es) - {es[i].node}
  {
    var es' := Without(es, i);
    forall n | n in NodesOf(es) - {es[i].node} ensures n in NodesOf(es') {
      var j :| 0 <= j < |es| && es[j].node == n;
      assert es'[if j < i then j else j - 1] == es[j];
    }
    forall n | n in NodesOf(es') ensures n in NodesOf(es) - {es[i].node} {
      var j :| 0 <= j < |es'| && es'[j].node == n;
      assert es'[j] == es[if j < i then j else j + 1];
    }
  }

  // ---------- The memory ----------

  /** What `transplant` does: `v` takes the place at the end of `p`. */
  function Transplanted(m: Memory, p: Path, v: Ptr, s: Ptr): Memory
    requires !p.Top? ==> p.e.node in m
    requires v in m
  {
    var m1 := Redirected(m, p, v);
    m1[v := m1[v].(parent := ParentNode(p, s))]
  }

  lemma PathHead(m: Memory, p: Path, hole: Ptr, s: Ptr, root: Ptr)
    requires PathShape(m, p, hole, s, root)
    ensures !p.Top? ==> p.e.node in m && p.e.node in PathNodes(p)
  {
  }

  lemma TransplantPath(m: Memory, p: Path, u: Ptr, v: Ptr, s: Ptr, root: Ptr)
    requires PathShape(m, p, u, s, root) && v in m && v !in PathNodes(p)
    ensures PathShape(Transplanted(m, p, v, s), p, v, s, if p.Top? then v else root)
    ensures Transplanted(m, p, v, s).Keys == m.Keys
  {
    PathNodesRecorded(m, p, u, s, root);
    RedirectedPath(m, p, u, v, s, root);
    PathFrame(Redirected(m, p, v), Transplanted(m, p, v, s), p, v, s, if p.Top? then v else root);
  }

  lemma TransplantSubtree(m: Memory, p: Path, child: Tree, parent: Ptr, s: Ptr)
    requires Shape(m, child, parent, s) && Root(child, s) in m && PathNodes(p) !! Nodes(child)
    requires !p.Top? ==> p.e.node in m
    ensures Shape(Transplanted(m, p, Root(child, s), s), child, ParentNode(p, s), s)
  {
    if child.Node? {
      ShapeFrame(m, Transplanted(m, p, Root(child, s), s), child.left, child.e.node, s);
      ShapeFrame(m, Transplanted(m, p, Root(child, s), s), child.right, child.e.node, s);
    }
  }

  /** Transplanting a subtree of `t` into the place of `t`. */
  lemma TransplantChild(m: Memory, p: Path, t: Tree, child: Tree, s: Ptr, root: Ptr)
    requires Focus(m, p, t, s, root) && SentinelOk(m, s) && t.Node? && (child == t.left || child == t.right)
    ensures HangsAt(m, t.e.node, p, s) && Root(child, s) in m
    ensures ShortFocus(Transplanted(m, p, Root(child, s), s), p, child, s, if p.Top? then Root(child, s) else root)
    ensures Transplanted(m, p, Root(child, s), s).Keys == m.Keys
    ensures t.e.node != s && t.e.node in m && Transplanted(m, p, Root(child, s), s)[t.e.node] == m[t.e.node]
  {
    assert Shape(m, child, t.e.node, s);
    ReadColor(m, child, t.e.node, s);
    PathNodesRecorded(m, p, t.e.node, s, root);
    TreeNodes(m, child, t.e.node, s);
    TransplantPath(m, p, t.e.node, Root(child, s), s, root);
    TransplantSubtree(m, p, child, t.e.node, s);
  }

  /** Before the successor `y` takes the place of `z`: `y` already holds its final right subtree. */
  ghost predicate Detached(m: Memory, p: Path, z: Ptr, l: Tree, y: Entry, r: Tree, s: Ptr, root: Ptr) {
    && PathShape(m, p, z, s, root) && HangsAt(m, z, p, s) && z in m && y.node in m && z != y.node
    && l.Node? && Shape(m, l, z, s) && Shape(m, r, y.node, s) && m[z].left == Root(l, s)
    && m[y.node].key == y.key && m[y.node].value == y.value && m[y.node].right == Root(r, s)
    && y.node != s && y.node !in PathNodes(p) && y.node !in Nodes(l) && y.node !in Nodes(r)
    && z !in PathNodes(p) && z !in Nodes(l) && z !in Nodes(r) && z != s
    && Nodes(l) !! Nodes(r) && PathNodes(p) !! Nodes(l) && PathNodes(p) !! Nodes(r)
  }

  /** The memory after the successor has taken the place of the removed node. */
  function Promoted(m: Memory, p: Path, l: Tree, y: Ptr, c: Color, s: Ptr): Memory
    requires !p.Top? ==> p.e.node in m
    requires y in m && Root(l, s) in m
  {
    var m1 := Transplanted(m, p, y, s);
    var m2 := m1[y := m1[y].(left := Root(l, s))];
    var m3 := m2[Root(l, s) := m2[Root(l, s)].(parent := y)];
    Painted(m3, y, c)
  }

  /** Taking the place writes to the successor, its new left child and the parent only. */
  lemma PromotedAgree(m: Memory, p: Path, l: Tree, y: Ptr, c: Color, s: Ptr, ns: set<Ptr>)
    requires (!p.Top? ==> p.e.node in m) && y in m && Root(l, s) in m && y != Root(l, s)
    requires y !in ns && Root(l, s) !in ns
    ensures Agree(Transplanted(m, p, y, s), Promoted(m, p, l, y, c, s), ns)
    ensures (p.Top? || p.e.node !in ns) ==> Agree(m, Promoted(m, p, l, y, c, s), ns)
    ensures var m' := Promoted(m, p, l, y, c, s);
      && m'.Keys == m.Keys
      && (p.Top? || (p.e.node != y && p.e.node != Root(l, s)) ==>
            && m'[y] == m[y].(left := Root(l, s), parent := ParentNode(p, s), color := c)
            && m'[Root(l, s)] == m[Root(l, s)].(parent := y))
      && (s in m && s != y && s != Root(l, s) && (p.Top? || p.e.node != s) ==> m'[s] == m[s])
  {
  }

  lemma PromoteFocus(m: Memory, p: Path, z: Ptr, l: Tree, y: Entry, c: Color, r: Tree, s: Ptr, root: Ptr)
    requires Detached(m, p, z, l, y, r, s, root) && s in m
    ensures Root(l, s) in m && Root(l, s) != s && Root(l, s) != y.node && Root(l, s) != z
    ensures Focus(Promoted(m, p, l, y.node, c, s), p, Node(l, y, c, r), s, if p.Top? then y.node else root)
    ensures Promoted(m, p, l, y.node, c, s).Keys == m.Keys && Promoted(m, p, l, y.node, c, s)[s] == m[s]
    ensures Transplanted(m, p, y.node, s)[z] == m[z]
  {
    hide Promoted, PathShape;
    var (n, m') := (y.node, Promoted(m, p, l, y.node, c, s));
    var m1 := Transplanted(m, p, n, s);
    PathNodesRecorded(m, p, z, s, root);
    TreeNodes(m, l, z, s);
    PathHead(m, p, z, s, root);
    TransplantPath(m, p, z, n, s, root);
    PromotedAgree(m, p, l, n, c, s, PathNodes(p));
    PathFrame(m1, m', p, n, s, if p.Top? then n else root);
    PromotedAgree(m, p, l, n, c, s, Nodes(r));
    ShapeFrame(m, m', r, n, s);
    PromotedAgree(m, p, l, n, c, s, Nodes(l.left) + Nodes(l.right));
    ShapeFrame(m, m', l.left, l.e.node, s);
    ShapeFrame(m, m', l.right, l.e.node, s);
    assert m'[l.e.node] == m[l.e.node].(parent := n);
    assert Shape(m', l, n, s);
    assert m'[n] == RBNode(y.key, y.value, c, ParentNode(p, s), Root(l, s), Root(r, s));
    assert Shape(m', Node(l, y, c, r), ParentNode(p, s), s);
  }

  lemma {:induction false} PathNodesAppend(q: Path, p: Path)
    ensures PathNodes(Append(q, p)) == PathNodes(q) + PathNodes(p)
  {
    if !q.Top? { PathNodesAppend(q.up, p); }
  }

  /** The path from the root of the table to the successor. */
  function SuccessorPath(q: Path, l: Tree, e: Entry, c: Color, p: Path): Path {
    Append(q, InRight(l, e, c, p))
  }

  /** All the objects around a node `t` and its successor `u` are different. */
  lemma SuccessorApart(m: Memory, p: Path, t: Tree, q: Path, u: Tree, s: Ptr, root: Ptr)
    requires Focus(m, p, t, s, root) && t.Node? && t.left.Node? && u.Node? && Zip(q, u) == t.right
    ensures Focus(m, SuccessorPath(q, t.left, t.e, t.color, p), u, s, root)
    ensures HangsAt(m, t.e.node, p, s)
    ensures var (y, z, l, r) := (u.e.node, t.e.node, t.left, Zip(q, u.right));
      && y != s && z != s && y != z && y in m && z in m
      && y !in PathNodes(p) && y !in Nodes(l) && y !in Nodes(r)
      && z !in PathNodes(p) && z !in Nodes(l) && z !in Nodes(r)
      && Nodes(l) !! Nodes(r) && PathNodes(p) !! Nodes(l) && PathNodes(p) !! Nodes(r)
  {
    var sp := InRight(t.left, t.e, t.color, p);
    FocusStep(m, sp, t.right, s, root);
    Refocus(m, q, sp, u, s, root);
    PathNodesAppend(q, sp);
    ZipNodes(q, u);
    ZipNodes(q, u.right);
  }

  /** The successor is the right child itself. */
  lemma DetachNear(m: Memory, p: Path, t: Tree, s: Ptr, root: Ptr)
    requires Focus(m, p, t, s, root) && SentinelOk(m, s)
    requires t.Node? && t.left.Node? && t.right.Node? && t.right.left.Leaf?
    ensures Root(t.right.right, s) in m
    ensures var x := Root(t.right.right, s); var m' := m[x := m[x].(parent := t.right.e.node)];
      Detached(m', p, t.e.node, t.left, t.right.e, t.right.right, s, root)
      && SentinelOk(m', s) && m'.Keys == m.Keys && m'[t.e.node].color == t.color
  {
    SuccessorApart(m, p, t, Top, t.right, s, root);
    var u := t.right;
    assert Shape(m, u, t.e.node, s);
    ReadColor(m, u.right, u.e.node, s);
    var x := Root(u.right, s);
    var m' := m[x := m[x].(parent := u.e.node)];
    PathNodesRecorded(m, p, t.e.node, s, root);
    TreeNodes(m, t.left, t.e.node, s);
    if u.right.Node? {
      assert m[x].parent == u.e.node;
      assert m' == m;
    } else {
      PathFrame(m, m', p, t.e.node, s, root);
      ShapeFrame(m, m', t.left, t.e.node, s);
    }
  }

  /** The memory after a deeper successor is cut out and has taken over the right subtree. */
  function CutOut(m: Memory, p: Path, t: Tree, q: Path, u: Tree, s: Ptr): Memory
    requires t.Node? && u.Node?
    requires var sp := SuccessorPath(q, t.left, t.e, t.color, p);
      !sp.Top? && sp.e.node in m && Root(u.right, s) in m && u.e.node in m
    requires var r := Zip(q, u.right); r.Node? && r.e.node in m
  {
    var r := Zip(q, u.right);
    var m1 := Transplanted(m, SuccessorPath(q, t.left, t.e, t.color, p), Root(u.right, s), s);
    var m2 := m1[u.e.node := m1[u.e.node].(right := r.e.node)];
    m2[r.e.node := m2[r.e.node].(parent := u.e.node)]
  }

  lemma {:induction false} AppendNotTop(q: Path, p: Path)
    ensures !q.Top? || !p.Top? ==> !Append(q, p).Top?
    ensures !q.Top? ==> ParentNode(Append(q, p), 0) == q.e.node && Append(q, p).e == q.e
  {
  }

  /** Cutting out the successor: what is read, and the tree that remains. */
  lemma CutSuccessor(m: Memory, p: Path, t: Tree, q: Path, u: Tree, s: Ptr, root: Ptr)
    requires Focus(m, p, t, s, root) && SentinelOk(m, s) && t.Node? && t.left.Node?
    requires u.Node? && Zip(q, u) == t.right && !q.Top?
    ensures var sp := SuccessorPath(q, t.left, t.e, t.color, p);
      && !sp.Top? && sp.e == q.e && sp.e.node in m && HangsAt(m, u.e.node, sp, s)
      && Root(u.right, s) in m && u.e.node in m
    ensures var sp := SuccessorPath(q, t.left, t.e, t.color, p);
      var m1 := Transplanted(m, sp, Root(u.right, s), s);
      && ShortFocus(m1, sp, u.right, s, root) && m1.Keys == m.Keys && m1[u.e.node] == m[u.e.node]
      && Focus(m1, p, Node(t.left, t.e, t.color, Zip(q, u.right)), s, root)
    ensures Zip(q, u.right).Node? && q.e.node != t.e.node && q.e.node != s
  {
    var (sp, r) := (SuccessorPath(q, t.left, t.e, t.color, p), Zip(q, u.right));
    SuccessorApart(m, p, t, q, u, s, root);
    AppendNotTop(q, InRight(t.left, t.e, t.color, p));
    TransplantChild(m, sp, u, u.right, s, root);
    var m1 := Transplanted(m, sp, Root(u.right, s), s);
    Refocus(m1, q, InRight(t.left, t.e, t.color, p), u.right, s, root);
    FocusStep(m1, InRight(t.left, t.e, t.color, p), r, s, root);
    ZipNode(q.up, Fill(q, u.right));
    ZipNodes(q, u.right);
    TreeNodes(m1, r, t.e.node, s);
  }

  /** The successor lies deeper: it is cut out and takes over the right subtree. */
  lemma DetachDeep(m: Memory, p: Path, t: Tree, q: Path, u: Tree, s: Ptr, root: Ptr)
    requires Focus(m, p, t, s, root) && SentinelOk(m, s) && t.Node? && t.left.Node?
    requires u.Node? && Zip(q, u) == t.right && !q.Top?
    ensures var sp := SuccessorPath(q, t.left, t.e, t.color, p); var r := Zip(q, u.right);
      && !sp.Top? && sp.e.node in m && Root(u.right, s) in m && u.e.node in m && r.Node? && r.e.node in m
      && Transplanted(m, sp, Root(u.right, s), s)[t.e.node].right == r.e.node
    ensures var m3 := CutOut(m, p, t, q, u, s);
      && Detached(m3, p, t.e.node, t.left, u.e, Zip(q, u.right), s, root)
      && SentinelOk(m3, s) && m3.Keys == m.Keys && m3[t.e.node].color == t.color
      && (u.right.Leaf? ==> m3[s].parent == q.e.node)
  {
    hide PathNodes;
    var (z, y, r) := (t.e.node, u.e.node, Zip(q, u.right));
    var sp := SuccessorPath(q, t.left, t.e, t.color, p);
    SuccessorApart(m, p, t, q, u, s, root);
    CutSuccessor(m, p, t, q, u, s, root);
    var m1 := Transplanted(m, sp, Root(u.right, s), s);
    var tt := Node(t.left, t.e, t.color, r);
    assert Shape(m1, t.left, z, s) && Shape(m1, r, z, s);
    TreeNodes(m1, r, z, s);
    var m2 := m1[y := m1[y].(right := r.e.node)];
    var m3 := CutOut(m, p, t, q, u, s);
    assert m3 == Adopted(m2, r, y);
    PathNodesRecorded(m1, p, z, s, root);
    PathFrame(m1, m3, p, z, s, root);
    ShapeFrame(m1, m3, t.left, z, s);
    ShapeFrame(m1, m2, r, z, s);
    AdoptedShape(m2, r, z, y, s);
  }

  /** The test `y->parent == z` tells whether the successor is the right child itself. */
  lemma SuccessorDepth(m: Memory, p: Path, t: Tree, q: Path, u: Tree, s: Ptr, root: Ptr)
    requires Focus(m, p, t, s, root) && t.Node? && t.left.Node? && u.Node? && Zip(q, u) == t.right
    ensures u.e.node in m && (m[u.e.node].parent == t.e.node <==> q.Top?)
  {
    var sp := InRight(t.left, t.e, t.color, p);
    SuccessorApart(m, p, t, q, u, s, root);
    AppendNotTop(q, sp);
    ZipNodes(q, u);
  }

  /** After unlinking, either the rules hold or the focus is one black node short. */
  ghost predicate Repairable(p: Path, t: Tree, removed: Color) {
    if removed == Black then DeleteInv(p, t) else RedBlack(Zip(p, t))
  }

  lemma SpliceRepairable(p: Path, t: Tree, child: Tree)
    requires t.Node? && RedBlack(Zip(p, t))
    requires (t.left.Leaf? && child == t.right) || (t.right.Leaf? && child == t.left)
    ensures Repairable(p, child, t.color)
  {
    SpliceRules(p, t, child);
    if t.color == Red { SplicedRed(p); }
  }

  lemma PromoteRepairable(p: Path, t: Tree, q: Path, u: Tree)
    requires t.Node? && RedBlack(Zip(p, t)) && u.Node? && u.left.Leaf? && Zip(q, u) == t.right
    ensures Repairable(SuccessorPath(q, t.left, u.e, t.color, p), u.right, u.color)
  {
    var sp := SuccessorPath(q, t.left, t.e, t.color, p);
    ZipAppend(q, InRight(t.left, t.e, t.color, p), u);
    SpliceRules(sp, u, u.right);
    SwapEntry(q, t.left, t.e, u.e, t.color, p, BlackHeight(u.right) + 1);
    SwapEntry(q, t.left, t.e, u.e, t.color, p, 0);
    if u.color == Red { SplicedRed(SuccessorPath(q, t.left, u.e, t.color, p)); }
  }

  lemma PromoteWhole(p: Path, t: Tree, q: Path, u: Tree)
    requires t.Node? && u.Node? && u.left.Leaf? && LeftMost(q) && Zip(q, u) == t.right
    ensures var sp := SuccessorPath(q, t.left, u.e, t.color, p);
      && !sp.Top? && Contents(sp, u.right) == Without(Contents(p, t), IndexOf(p, t))
  {
    var (sp, up1) := (SuccessorPath(q, t.left, u.e, t.color, p), InRight(t.left, u.e, t.color, p));
    PromoteContents(p, t, q, u);
    AppendNotTop(q, up1);
    ZipAppend(q, up1, u.right);
    ZipInOrder(sp, u.right);
    ZipInOrder(p, Node(t.left, u.e, t.color, Zip(q, u.right)));
  }

  lemma PromoteShort(m: Memory, p: Path, t: Tree, q: Path, u: Tree, s: Ptr, root: Ptr)
    requires t.Node? && u.Node? && SentinelOk(m, s)
    requires Focus(m, p, Node(t.left, u.e, t.color, Zip(q, u.right)), s, root)
    requires u.right.Leaf? ==> m[s].parent == ParentNode(SuccessorPath(q, t.left, u.e, t.color, p), s)
    ensures ShortFocus(m, SuccessorPath(q, t.left, u.e, t.color, p), u.right, s, root)
  {
    var up1 := InRight(t.left, u.e, t.color, p);
    FocusStep(m, up1, Zip(q, u.right), s, root);
    Refocus(m, q, up1, u.right, s, root);
  }

  /** Freeing a node that is not part of the tree. */
  lemma FreeNode(m: Memory, t: Tree, z: Ptr, s: Ptr, root: Ptr)
    requires Focus(m, Top, t, s, root) && z !in Nodes(t)
    ensures Focus(m - {z}, Top, t, s, root)
  {
    TreeNodes(m, t, s, s);
    ShapeFrame(m, m - {z}, t, s, s);
  }

  /** Dropping one entry drops one node: the nodes of any tree with the remaining entries. */
  lemma RemainingNodes(t: Tree, t': Tree, i: nat, s: Ptr)
    requires Distinct(t, s) && i < |InOrder(t)| && InOrder(t') == Without(InOrder(t), i)
    ensures Nodes(t') == Nodes(t) - {InOrder(t)[i].node}
  {
    UniqueNodes(t, s);
    WithoutNodes(InOrder(t), i);
    NodesInOrder(t);
    NodesInOrder(t');
  }
}
