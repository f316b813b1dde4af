/** Deletion from the red-black tree, on tree values: what each step of the rebalancing loop keeps. */
module TreeDelete {
  import opened Common
  import opened TreeModel

  /** All rules hold but that the focus is one black node short, and may be red below a red parent. */
  predicate DeleteInv(p: Path, t: Tree) {
    && Balanced(t) && NoRedRed(Recolored(t, Black))
    && PathBalanced(p, BlackHeight(t) + 1) && PathNoRedRed(p) && RootBlack(p)
  }

  /** Painting the focus black repairs the tree once the loop has ended. */
  lemma DeleteDone(p: Path, t: Tree)
    requires DeleteInv(p, t) && (p.Top? || ColorOf(t) == Red)
    ensures RedBlack(Zip(p, Recolored(t, Black)))
    ensures InOrder(Zip(p, Recolored(t, Black))) == Contents(p, t)
  {
    var t' := Recolored(t, Black);
    assert Balanced(t') && InOrder(t') == InOrder(t);
    ZipBalanced(p, t');
    ZipNoRedRed(p, t');
    ZipRootColor(p, t');
    ZipInOrder(p, t');
  }

  /** The loop climbs, or stops at a red focus or at the root. */
  function Climb(p: Path, t: Tree): nat {
    if p.Top? || ColorOf(t) == Red then 0 else Depth(p)
  }

  /** The sibling of a short focus is never the sentinel. */
  lemma SiblingIsNode(p: Path, t: Tree)
    requires DeleteInv(p, t) && !p.Top?
    ensures Other(p).Node?
    ensures ColorOf(Other(p)) == Red ==> p.color == Black && ColorOf(Other(p).left) == ColorOf(Other(p).right) == Black
    ensures ColorOf(Other(p)) == Red ==> Other(p).left.Node? && Other(p).right.Node?
  {
  }

  /** A black sibling without a red child turns red, and the parent becomes the short focus. */
  function Sunk(p: Path, t: Tree): Tree
    requires !p.Top?
  {
    Fill(WithOther(p, Recolored(Other(p), Red)), t)
  }

  lemma Sink(p: Path, t: Tree)
    requires DeleteInv(p, t) && !p.Top? && ColorOf(t) == Black && Other(p).Node?
    requires ColorOf(Other(p)) == Black
    requires ColorOf(Other(p).left) == Black && ColorOf(Other(p).right) == Black
    ensures DeleteInv(p.up, Sunk(p, t)) && Climb(p.up, Sunk(p, t)) < if p.color == Red then 1 else Depth(p)
    ensures Contents(p.up, Sunk(p, t)) == Contents(p, t)
  {
    FillInOrder(p, t);
    assert InOrder(Recolored(Other(p), Red)) == InOrder(Other(p));
    assert InOrder(Sunk(p, t)) == InOrder(Fill(p, t));
    assert PathBalanced(p.up, BlackHeight(t) + 1 + Weight(p.color));
  }

  // ---------- The focus is a left child ----------

  /** A red sibling gives way to a black one. */
  function RedSiblingLeftPath(p: Path): Path
    requires p.InLeft? && p.right.Node?
  {
    InLeft(p.e, Red, p.right.left, InLeft(p.right.e, Black, p.right.right, p.up))
  }

  lemma RedSiblingLeft(p: Path, t: Tree)
    requires DeleteInv(p, t) && p.InLeft? && p.right.Node? && p.right.color == Red
    ensures DeleteInv(RedSiblingLeftPath(p), t)
    ensures ColorOf(Other(RedSiblingLeftPath(p))) == Black
    ensures Fill(RedSiblingLeftPath(p).up, Fill(RedSiblingLeftPath(p), t))
         == RotatedLeft(Recolored(Fill(WithOther(p, Recolored(p.right, Black)), t), Red))
    ensures Contents(RedSiblingLeftPath(p), t) == Contents(p, t) && RedSiblingLeftPath(p).color == Red
  {
    assert PathBalanced(p.up, BlackHeight(t) + 2);
    var (a, b, c) := (InOrder(p.right.left), InOrder(p.right.right), After(p.up));
    var q := RedSiblingLeftPath(p);
    assert Before(q) == Before(q.up) == Before(p.up);
    assert After(q.up) == [p.right.e] + b + c;
    assert After(p) == [p.e] + (a + [p.right.e] + b) + c == [p.e] + a + ([p.right.e] + b + c) == After(q);
  }

  /** A black sibling whose only red child is the near one: that child becomes the sibling. */
  function NearRedLeft(w: Tree): Tree
    requires w.Node? && w.left.Node?
  {
    RotatedRight(Node(Recolored(w.left, Black), w.e, Red, w.right))
  }

  lemma NearLeft(p: Path, t: Tree)
    requires DeleteInv(p, t) && p.InLeft? && p.right.Node? && p.right.color == Black
    requires ColorOf(p.right.left) == Red && ColorOf(p.right.right) == Black
    ensures DeleteInv(WithOther(p, NearRedLeft(p.right)), t)
    ensures NearRedLeft(p.right).color == Black && ColorOf(NearRedLeft(p.right).right) == Red
    ensures Contents(WithOther(p, NearRedLeft(p.right)), t) == Contents(p, t)
  {
    var w := Node(Recolored(p.right.left, Black), p.right.e, Red, p.right.right);
    RotatedRightInOrder(w);
    var wl := p.right.left;
    assert Balanced(wl) && NoRedRed(wl) && Balanced(p.right.right) && NoRedRed(p.right.right);
    assert Balanced(wl.right) && NoRedRed(wl.right) && BlackHeight(wl.right) == BlackHeight(p.right.right);
    assert Balanced(NearRedLeft(p.right).right) && NoRedRed(NearRedLeft(p.right).right);
    assert InOrder(w.left) == InOrder(p.right.left);
    assert InOrder(w) == InOrder(p.right);
    assert Before(WithOther(p, NearRedLeft(p.right))) == Before(p);
  }

  /** A black sibling with a red far child: one rotation at the parent ends the loop. */
  function FarRedLeft(p: Path, t: Tree): Tree
    requires p.InLeft? && p.right.Node?
  {
    RotatedLeft(Node(t, p.e, Black, Node(p.right.left, p.right.e, p.color, Recolored(p.right.right, Black))))
  }

  lemma FarLeftRules(p: Path, t: Tree)
    requires DeleteInv(p, t) && ColorOf(t) == Black && p.InLeft? && p.right.Node? && p.right.color == Black
    requires ColorOf(p.right.right) == Red
    ensures DeleteInv(Top, Zip(p.up, FarRedLeft(p, t)))
  {
    assert PathBalanced(p.up, BlackHeight(t) + 1 + Weight(p.color));
    var t' := FarRedLeft(p, t);
    assert NoRedRed(t) by { assert t == Recolored(t, Black); }
    var wr := p.right.right;
    assert Balanced(wr) && NoRedRed(wr) && Balanced(p.right.left) && NoRedRed(p.right.left);
    assert Balanced(wr.left) && Balanced(wr.right) && BlackHeight(wr) == BlackHeight(t);
    assert Balanced(t'.right) && NoRedRed(t'.right) && BlackHeight(t'.right) == BlackHeight(t) + 1;
    ZipBalanced(p.up, t');
    ZipNoRedRed(p.up, t');
    assert NoRedRed(Recolored(Zip(p.up, t'), Black));
  }

  lemma FarLeftContents(p: Path, t: Tree)
    requires p.InLeft? && p.right.Node? && p.right.right.Node?
    ensures Contents(Top, Zip(p.up, FarRedLeft(p, t))) == Contents(p, t)
  {
    var w := Node(p.right.left, p.right.e, p.color, Recolored(p.right.right, Black));
    assert InOrder(w.right) == InOrder(p.right.right);
    assert InOrder(w) == InOrder(p.right);
    RotatedLeftInOrder(Node(t, p.e, Black, w));
    ZipInOrder(p.up, FarRedLeft(p, t));
    FillInOrder(p, t);
  }

  // ---------- The focus is a right child ----------

  /** A red sibling gives way to a black one. */
  function RedSiblingRightPath(p: Path): Path
    requires p.InRight? && p.left.Node?
  {
    InRight(p.left.right, p.e, Red, InRight(p.left.left, p.left.e, Black, p.up))
  }

  lemma RedSiblingRight(p: Path, t: Tree)
    requires DeleteInv(p, t) && p.InRight? && p.left.Node? && p.left.color == Red
    ensures DeleteInv(RedSiblingRightPath(p), t)
    ensures ColorOf(Other(RedSiblingRightPath(p))) == Black
    ensures Fill(RedSiblingRightPath(p).up, Fill(RedSiblingRightPath(p), t))
         == RotatedRight(Recolored(Fill(WithOther(p, Recolored(p.left, Black)), t), Red))
    ensures Contents(RedSiblingRightPath(p), t) == Contents(p, t) && RedSiblingRightPath(p).color == Red
  {
    assert PathBalanced(p.up, BlackHeight(t) + 2);
    var (a, b, c) := (InOrder(p.left.right), InOrder(p.left.left), Before(p.up));
    var q := RedSiblingRightPath(p);
    assert After(q) == After(q.up) == After(p.up);
    assert Before(q.up) == c + b + [p.left.e];
    assert Before(p) == c + (b + [p.left.e] + a) + [p.e] == (c + b + [p.left.e]) + a + [p.e] == Before(q);
  }

  /** A black sibling whose only red child is the near one: that child becomes the sibling. */
  function NearRedRight(w: Tree): Tree
    requires w.Node? && w.right.Node?
  {
    RotatedLeft(Node(w.left, w.e, Red, Recolored(w.right, Black)))
  }

  lemma NearRight(p: Path, t: Tree)
    requires DeleteInv(p, t) && p.InRight? && p.left.Node? && p.left.color == Black
    requires ColorOf(p.left.right) == Red && ColorOf(p.left.left) == Black
    ensures DeleteInv(WithOther(p, NearRedRight(p.left)), t)
    ensures NearRedRight(p.left).color == Black && ColorOf(NearRedRight(p.left).left) == Red
    ensures Contents(WithOther(p, NearRedRight(p.left)), t) == Contents(p, t)
  {
    var w := Node(p.left.left, p.left.e, Red, Recolored(p.left.right, Black));
    RotatedLeftInOrder(w);
    var wl := p.left.right;
    assert Balanced(wl) && NoRedRed(wl) && Balanced(p.left.left) && NoRedRed(p.left.left);
    assert Balanced(wl.left) && NoRedRed(wl.left) && BlackHeight(wl.left) == BlackHeight(p.left.left);
    assert Balanced(NearRedRight(p.left).left) && NoRedRed(NearRedRight(p.left).left);
    assert InOrder(w.right) == InOrder(p.left.right);
    assert InOrder(w) == InOrder(p.left);
    assert After(WithOther(p, NearRedRight(p.left))) == After(p);
  }

  /** A black sibling with a red far child: one rotation at the parent ends the loop. */
  function FarRedRight(p: Path, t: Tree): Tree
    requires p.InRight? && p.left.Node?
  {
    RotatedRight(Node(Node(Recolored(p.left.left, Black), p.left.e, p.color, p.left.right), p.e, Black, t))
  }

  lemma FarRightRules(p: Path, t: Tree)
    requires DeleteInv(p, t) && ColorOf(t) == Black && p.InRight? && p.left.Node? && p.left.color == Black
    requires ColorOf(p.left.left) == Red
    ensures DeleteInv(Top, Zip(p.up, FarRedRight(p, t)))
  {
    assert PathBalanced(p.up, BlackHeight(t) + 1 + Weight(p.color));
    var t' := FarRedRight(p, t);
    assert NoRedRed(t) by { assert t == Recolored(t, Black); }
    var wr := p.left.left;
    assert Balanced(wr) && NoRedRed(wr) && Balanced(p.left.right) && NoRedRed(p.left.right);
    assert Balanced(wr.right) && Balanced(wr.left) && BlackHeight(wr) == BlackHeight(t);
    assert Balanced(t'.left) && NoRedRed(t'.left) && BlackHeight(t'.left) == BlackHeight(t) + 1;
    ZipBalanced(p.up, t');
    ZipNoRedRed(p.up, t');
    assert NoRedRed(Recolored(Zip(p.up, t'), Black));
  }

  lemma FarRightContents(p: Path, t: Tree)
    requires p.InRight? && p.left.Node? && p.left.left.Node?
    ensures Contents(Top, Zip(p.up, FarRedRight(p, t))) == Contents(p, t)
  {
    var w := Node(Recolored(p.left.left, Black), p.left.e, p.color, p.left.right);
    assert InOrder(w.left) == InOrder(p.left.left);
    assert InOrder(w) == InOrder(p.left);
    RotatedRightInOrder(Node(w, p.e, Black, t));
    ZipInOrder(p.up, FarRedRight(p, t));
    FillInOrder(p, t);
  }

  // ---------- The memory ----------

  /** The focus `t`, whose root pointer (the sentinel if `t` is empty) knows its parent. */
  ghost predicate ShortFocus(m: Memory, p: Path, t: Tree, s: Ptr, root: Ptr) {
    Focus(m, p, t, s, root) && SentinelOk(m, s) && m[s].color == Black
    && Root(t, s) in m && m[Root(t, s)].parent == ParentNode(p, s)
  }

  /** What the loop reads around a focus that has a parent and a sibling. */
  ghost predicate SiblingRead(m: Memory, p: Path, t: Tree, s: Ptr)
    requires !p.Top? && Other(p).Node?
  {
    var (x, f, w) := (Root(t, s), p.e.node, Other(p).e.node);
    var (wl, wr) := (Root(Other(p).left, s), Root(Other(p).right, s));
    && x in m && f in m && w in m && wl in m && wr in m && s in m
    && f != x && w != x && f != w && f != s && w != s && wl != w && wr != w && wl != f && wr != f
    && m[x].parent == f && m[f].color == p.color
    && (m[f].left == x <==> p.InLeft?) && (m[f].right == x <==> p.InRight?)
    && (if p.InLeft? then m[f].right else m[f].left) == w
    && m[w].color == Other(p).color && m[w].left == wl && m[w].right == wr
    && m[wl].color == ColorOf(Other(p).left) && m[wr].color == ColorOf(Other(p).right)
    && (Other(p).left.Node? <==> wl != s) && (Other(p).right.Node? <==> wr != s)
  }

  lemma ReadSibling(m: Memory, p: Path, t: Tree, s: Ptr, root: Ptr)
    requires ShortFocus(m, p, t, s, root) && !p.Top? && Other(p).Node?
    ensures SiblingRead(m, p, t, s)
  {
    var w := Other(p);
    assert Shape(m, w, p.e.node, s);
    ReadColor(m, w.left, w.e.node, s);
    ReadColor(m, w.right, w.e.node, s);
  }

  /** Painting the sibling and the parent. */
  lemma PaintSiblingAndParent(m: Memory, p: Path, t: Tree, cw: Color, cf: Color, s: Ptr, root: Ptr) returns (m2: Memory)
    requires ShortFocus(m, p, t, s, root) && !p.Top? && Other(p).Node?
    ensures SiblingRead(m, p, t, s)
    ensures m2 == Painted(Painted(m, Other(p).e.node, cw), p.e.node, cf)
    ensures Focus(m2, p.up, Recolored(Fill(WithOther(p, Recolored(Other(p), cw)), t), cf), s, root)
    ensures m2.Keys == m.Keys && m2[s] == m[s] && SentinelOk(m2, s)
  {
    ReadSibling(m, p, t, s, root);
    RecolorOther(m, p, t, cw, s, root);
    var m1 := Painted(m, Other(p).e.node, cw);
    var q := WithOther(p, Recolored(Other(p), cw));
    FocusStep(m1, q, t, s, root);
    RecolorFocus(m1, p.up, Fill(q, t), cf, s, root);
    m2 := Painted(m1, p.e.node, cf);
  }

  /** Sinking: the sibling turns red and the parent becomes the focus. */
  lemma SinkMemory(m: Memory, p: Path, t: Tree, s: Ptr, root: Ptr) returns (m1: Memory)
    requires ShortFocus(m, p, t, s, root) && !p.Top? && Other(p).Node?
    ensures SiblingRead(m, p, t, s) && m1 == Painted(m, Other(p).e.node, Red)
    ensures ShortFocus(m1, p.up, Sunk(p, t), s, root) && Root(Sunk(p, t), s) == p.e.node
    ensures m1.Keys == m.Keys && m1[s] == m[s]
  {
    ReadSibling(m, p, t, s, root);
    RecolorOther(m, p, t, Red, s, root);
    m1 := Painted(m, Other(p).e.node, Red);
    FocusStep(m1, WithOther(p, Recolored(Other(p), Red)), t, s, root);
  }

  /** Painting a nephew black and the sibling red, seen from the sibling. */
  lemma PaintNephew(m: Memory, p: Path, w: Tree, left: bool, s: Ptr, root: Ptr) returns (m2: Memory)
    requires Focus(m, p, w, s, root) && s in m && w.Node? && (if left then w.left else w.right).Node?
    requires w.e.node in m && (if left then w.left else w.right).e.node in m
    ensures m2 == Painted(Painted(m, (if left then w.left else w.right).e.node, Black), w.e.node, Red)
    ensures Focus(m2, p, if left then Node(Recolored(w.left, Black), w.e, Red, w.right)
                         else Node(w.left, w.e, Red, Recolored(w.right, Black)), s, root)
    ensures m2.Keys == m.Keys && m2[s] == m[s]
  {
    var (q, n) := if left then (InLeft(w.e, w.color, w.right, p), w.left)
      else (InRight(w.left, w.e, w.color, p), w.right);
    FocusStep(m, q, n, s, root);
    TreeNodes(m, w, ParentNode(p, s), s);
    RecolorFocus(m, q, n, Black, s, root);
    var m1 := Painted(m, n.e.node, Black);
    FocusStep(m1, q, Recolored(n, Black), s, root);
    RecolorFocus(m1, p, Fill(q, Recolored(n, Black)), Red, s, root);
    m2 := Painted(m1, w.e.node, Red);
  }

  /** Painting the outer grandchild black. */
  lemma PaintGrandchild(m: Memory, p: Path, f: Tree, left: bool, s: Ptr, root: Ptr)
    requires Focus(m, p, f, s, root) && f.Node?
    requires if left then f.left.Node? && f.left.left.Node? else f.right.Node? && f.right.right.Node?
    ensures (if left then f.left.left else f.right.right).e.node in m
    ensures Focus(Painted(m, (if left then f.left.left else f.right.right).e.node, Black), p,
      if left then f.(left := f.left.(left := Recolored(f.left.left, Black)))
      else f.(right := f.right.(right := Recolored(f.right.right, Black))), s, root)
  {
    var (q1, w) := if left then (InLeft(f.e, f.color, f.right, p), f.left)
      else (InRight(f.left, f.e, f.color, p), f.right);
    var (q2, n) := if left then (InLeft(w.e, w.color, w.right, q1), w.left)
      else (InRight(w.left, w.e, w.color, q1), w.right);
    FocusStep(m, q1, w, s, root);
    FocusStep(m, q2, n, s, root);
    RecolorFocus(m, q2, n, Black, s, root);
    var m1 := Painted(m, n.e.node, Black);
    FocusStep(m1, q2, Recolored(n, Black), s, root);
    FocusStep(m1, q1, Fill(q2, Recolored(n, Black)), s, root);
  }

  /** The loop test `x != table->root`: only the whole tree hangs at the root pointer. */
  lemma AtRoot(m: Memory, p: Path, t: Tree, s: Ptr, root: Ptr)
    requires Focus(m, p, t, s, root)
    ensures Root(t, s) == root <==> p.Top?
  {
    if !p.Top? {
      RootOnPath(m, p, Root(t, s), s, root);
      PathNodesRecorded(m, p, Root(t, s), s, root);
    }
  }

  lemma {:induction false} RootOnPath(m: Memory, p: Path, hole: Ptr, s: Ptr, root: Ptr)
    requires PathShape(m, p, hole, s, root) && !p.Top?
    ensures root in PathNodes(p)
    decreases p
  {
    if !p.up.Top? { RootOnPath(m, p.up, p.e.node, s, root); }
  }

  lemma WholeShort(m: Memory, t: Tree, s: Ptr, root: Ptr)
    requires Focus(m, Top, t, s, root) && SentinelOk(m, s) && t.Node?
    ensures ShortFocus(m, Top, t, s, root) && root == Root(t, s)
  {
  }

  /** The side test of the loop is unambiguous even when the focus is the sentinel. */
  lemma ShortParent(m: Memory, p: Path, t: Tree, s: Ptr, root: Ptr)
    requires ShortFocus(m, p, t, s, root) && DeleteInv(p, t) && !p.Top?
    ensures SiblingIsReal(p) && m[Root(t, s)].parent in m
    ensures Root(t, s) == m[m[Root(t, s)].parent].left <==> p.InLeft?
  {
    SiblingIsNode(p, t);
    ReadSibling(m, p, t, s, root);
  }

  predicate SiblingIsReal(p: Path) {
    !p.Top? && Other(p).Node?
  }

  lemma ShortReads(m: Memory, p: Path, t: Tree, s: Ptr, root: Ptr)
    requires ShortFocus(m, p, t, s, root)
    ensures Root(t, s) == root <==> p.Top?
    ensures Root(t, s) in m && m[Root(t, s)].color == ColorOf(t)
  {
    AtRoot(m, p, t, s, root);
    ReadColor(m, t, ParentNode(p, s), s);
  }

  lemma PaintShort(m: Memory, p: Path, t: Tree, s: Ptr, root: Ptr)
    requires ShortFocus(m, p, t, s, root)
    ensures var m' := Painted(m, Root(t, s), Black);
      Focus(m', Top, Zip(p, Recolored(t, Black)), s, root) && SentinelOk(m', s) && m'.Keys == m.Keys
  {
    var m' := Painted(m, Root(t, s), Black);
    if t.Node? {
      RecolorFocus(m, p, t, Black, s, root);
    } else {
      PathNodesRecorded(m, p, s, s, root);
      PathFrame(m, m', p, s, s, root);
    }
    FocusWhole(m', p, Recolored(t, Black), s, root);
  }
}
