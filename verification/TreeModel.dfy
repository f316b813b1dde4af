/**
  The red-black tree as a value: subtrees, the path from a subtree up to the root (a zipper),
  the red-black rules on both, and the in-order entry sequence. Nodes are told apart by their address, so the
  value says which node sits where; `Shape` and `PathShape` tie it to the memory.
 */
module TreeModel {
  import opened Common

  datatype Color = Red | Black

  /** `RBNode`, the structure behind a node pointer. */
  datatype RBNode = RBNode(key: Ptr, value: Ptr, color: Color, parent: Ptr, left: Ptr, right: Ptr)

  /** The memory the table has allocated: pointers to node structures. */
  type Memory = map<Ptr, RBNode>

  datatype Entry = Entry(node: Ptr, key: Ptr, value: Ptr)

  datatype Tree = Leaf | Node(left: Tree, e: Entry, color: Color, right: Tree)

  /** The way from a subtree up to the root: each frame is a parent with its other child. */
  datatype Path =
    | Top
    | InLeft(e: Entry, color: Color, right: Tree, up: Path)
    | InRight(left: Tree, e: Entry, color: Color, up: Path)

  /** The parent's subtree once `t` hangs in the hole below it. */
  function Fill(p: Path, t: Tree): Tree
    requires !p.Top?
  {
    match p
    case InLeft(e, c, r, up) => Node(t, e, c, r)
    case InRight(l, e, c, up) => Node(l, e, c, t)
  }

  function Other(p: Path): Tree
    requires !p.Top?
  {
    if p.InLeft? then p.right else p.left
  }

  function Zip(p: Path, t: Tree): Tree
    decreases p
  {
    if p.Top? then t else Zip(p.up, Fill(p, t))
  }

  lemma {:induction false} ZipNode(p: Path, t: Tree)
    requires t.Node?
    ensures Zip(p, t).Node?
    decreases p
  {
    if !p.Top? { ZipNode(p.up, Fill(p, t)); }
  }

  function Append(q: Path, p: Path): Path {
    match q
    case Top => p
    case InLeft(e, c, r, up) => InLeft(e, c, r, Append(up, p))
    case InRight(l, e, c, up) => InRight(l, e, c, Append(up, p))
  }

  function Depth(p: Path): nat {
    if p.Top? then 0 else 1 + Depth(p.up)
  }

  // ---------- Contents ----------

  function InOrder(t: Tree): seq<Entry> {
    match t
    case Leaf => []
    case Node(l, e, c, r) => InOrder(l) + [e] + InOrder(r)
  }

  function Before(p: Path): seq<Entry> {
    match p
    case Top => []
    case InLeft(e, c, r, up) => Before(up)
    case InRight(l, e, c, up) => Before(up) + InOrder(l) + [e]
  }

  function After(p: Path): seq<Entry> {
    match p
    case Top => []
    case InLeft(e, c, r, up) => [e] + InOrder(r) + After(up)
    case InRight(l, e, c, up) => After(up)
  }

  /** All entries in order, as seen from the focus. */
  function Contents(p: Path, t: Tree): seq<Entry> {
    Before(p) + InOrder(t) + After(p)
  }

  lemma {:induction false} ZipInOrder(p: Path, t: Tree)
    ensures InOrder(Zip(p, t)) == Contents(p, t)
    decreases p
  {
    if !p.Top? {
      ZipInOrder(p.up, Fill(p, t));
      FillInOrder(p, t);
    }
  }

  lemma FillInOrder(p: Path, t: Tree)
    requires !p.Top?
    ensures Contents(p.up, Fill(p, t)) == Contents(p, t)
  {
    var b, i, o, a := Before(p.up), InOrder(t), InOrder(Other(p)), After(p.up);
    if p.InLeft? {
      assert b + (i + [p.e] + o) + a == b + i + ([p.e] + o + a);
    } else {
      assert b + (o + [p.e] + i) + a == (b + o + [p.e]) + i + a;
    }
  }

  // ---------- Red-black rules ----------

  function ColorOf(t: Tree): Color {
    if t.Leaf? then Black else t.color
  }

  function FrameColor(p: Path): Color {
    if p.Top? then Black else p.color
  }

  function Weight(c: Color): nat {
    if c == Black then 1 else 0
  }

  /** Black nodes on the leftmost way down. */
  function BlackHeight(t: Tree): nat {
    if t.Leaf? then 0 else BlackHeight(t.left) + Weight(t.color)
  }

  predicate Balanced(t: Tree) {
    t.Node? ==> Balanced(t.left) && Balanced(t.right) && BlackHeight(t.left) == BlackHeight(t.right)
  }

  predicate NoRedRed(t: Tree) {
    t.Node? ==>
      && NoRedRed(t.left) && NoRedRed(t.right)
      && (t.color == Red ==> ColorOf(t.left) == Black && ColorOf(t.right) == Black)
  }

  /** All rules of a red-black tree. */
  predicate RedBlack(t: Tree) {
    Balanced(t) && NoRedRed(t) && ColorOf(t) == Black
  }

  /** Equal black heights everywhere once a subtree of black height `h` fills the hole. */
  predicate PathBalanced(p: Path, h: nat)
    decreases p
  {
    !p.Top? ==>
      && Balanced(Other(p)) && BlackHeight(Other(p)) == h
      && PathBalanced(p.up, h + Weight(p.color))
  }

  predicate PathNoRedRed(p: Path) {
    !p.Top? ==>
      && NoRedRed(Other(p)) && PathNoRedRed(p.up)
      && (p.color == Red ==> ColorOf(Other(p)) == Black && FrameColor(p.up) == Black)
  }

  predicate RootBlack(p: Path) {
    !p.Top? ==> if p.up.Top? then p.color == Black else RootBlack(p.up)
  }

  lemma {:induction false} ZipBalanced(p: Path, t: Tree)
    ensures Balanced(Zip(p, t)) <==> Balanced(t) && PathBalanced(p, BlackHeight(t))
    decreases p
  {
    if !p.Top? { ZipBalanced(p.up, Fill(p, t)); }
  }

  lemma {:induction false} ZipNoRedRed(p: Path, t: Tree)
    ensures NoRedRed(Zip(p, t)) <==>
      NoRedRed(t) && PathNoRedRed(p) && !(ColorOf(t) == Red && FrameColor(p) == Red)
    decreases p
  {
    if !p.Top? { ZipNoRedRed(p.up, Fill(p, t)); }
  }

  lemma {:induction false} ZipRootColor(p: Path, t: Tree)
    ensures ColorOf(Zip(p, t)) == Black <==> if p.Top? then ColorOf(t) == Black else RootBlack(p)
    decreases p
  {
    if !p.Top? { ZipRootColor(p.up, Fill(p, t)); }
  }

  // ---------- Rotations of the tree value ----------

  function RotatedLeft(t: Tree): Tree
    requires t.Node? && t.right.Node?
  {
    Node(Node(t.left, t.e, t.color, t.right.left), t.right.e, t.right.color, t.right.right)
  }

  function RotatedRight(t: Tree): Tree
    requires t.Node? && t.left.Node?
  {
    Node(t.left.left, t.left.e, t.left.color, Node(t.left.right, t.e, t.color, t.right))
  }

  lemma RotatedLeftInOrder(t: Tree)
    requires t.Node? && t.right.Node?
    ensures InOrder(RotatedLeft(t)) == InOrder(t)
  {
    var (a, b, c) := (InOrder(t.left), InOrder(t.right.left), InOrder(t.right.right));
    assert InOrder(RotatedLeft(t).left) == a + [t.e] + b;
    assert (a + [t.e] + b) + [t.right.e] + c == a + [t.e] + (b + [t.right.e] + c);
  }

  lemma RotatedRightInOrder(t: Tree)
    requires t.Node? && t.left.Node?
    ensures InOrder(RotatedRight(t)) == InOrder(t)
  {
    RotatedLeftInOrder(RotatedRight(t));
  }

  // ---------- The heap ----------

  ghost function Nodes(t: Tree): set<Ptr> {
    match t
    case Leaf => {}
    case Node(l, e, c, r) => Nodes(l) + {e.node} + Nodes(r)
  }

  ghost function PathNodes(p: Path): set<Ptr> {
    if p.Top? then {} else {p.e.node} + Nodes(Other(p)) + PathNodes(p.up)
  }

  /** The object a subtree hangs by; the sentinel stands for every empty subtree. */
  function Root(t: Tree, s: Ptr): Ptr {
    if t.Leaf? then s else t.e.node
  }

  function ParentNode(p: Path, s: Ptr): Ptr {
    if p.Top? then s else p.e.node
  }

  /** All objects of `t` are different, and the sentinel is not among them. */
  ghost predicate Distinct(t: Tree, s: Ptr) {
    t.Node? ==>
      && t.e.node != s && t.e.node !in Nodes(t.left) && t.e.node !in Nodes(t.right)
      && Nodes(t.left) !! Nodes(t.right) && Distinct(t.left, s) && Distinct(t.right, s)
  }

  /** The objects of `t` are linked as `t` says, below `parent`, and are all different. */
  ghost predicate Shape(m: Memory, t: Tree, parent: Ptr, s: Ptr) {
    match t
    case Leaf => true
    case Node(l, e, c, r) =>
      && e.node in m && e.node != s
      && m[e.node] == RBNode(e.key, e.value, c, parent, Root(l, s), Root(r, s))
      && e.node !in Nodes(l) && e.node !in Nodes(r) && Nodes(l) !! Nodes(r)
      && Shape(m, l, e.node, s) && Shape(m, r, e.node, s)
  }

  function FrameCell(p: Path, hole: Ptr, s: Ptr): RBNode
    requires !p.Top?
  {
    match p
    case InLeft(e, c, r, up) => RBNode(e.key, e.value, c, ParentNode(up, s), hole, Root(r, s))
    case InRight(l, e, c, up) => RBNode(e.key, e.value, c, ParentNode(up, s), Root(l, s), hole)
  }

  /** The same for the nodes around a hole that is filled by the object `hole`. */
  ghost predicate PathShape(m: Memory, p: Path, hole: Ptr, s: Ptr, root: Ptr)
    decreases p
  {
    if p.Top? then root == hole else
      && p.e.node in m && p.e.node != s
      && m[p.e.node] == FrameCell(p, hole, s)
      && p.e.node !in Nodes(Other(p)) && p.e.node !in PathNodes(p.up) && Nodes(Other(p)) !! PathNodes(p.up)
      && Shape(m, Other(p), p.e.node, s) && PathShape(m, p.up, p.e.node, s, root)
  }

  /** The whole tree, looked at from the subtree `t` at the end of path `p`. */
  ghost predicate Focus(m: Memory, p: Path, t: Tree, s: Ptr, root: Ptr) {
    && PathShape(m, p, Root(t, s), s, root)
    && Shape(m, t, ParentNode(p, s), s)
    && PathNodes(p) !! Nodes(t)
  }

  lemma {:induction false} ZipNodes(p: Path, t: Tree)
    ensures Nodes(Zip(p, t)) == PathNodes(p) + Nodes(t)
    decreases p
  {
    if !p.Top? { ZipNodes(p.up, Fill(p, t)); }
  }

  /** `m'` keeps everything that `m` records about the objects of `objs`. */
  ghost predicate Agree(m: Memory, m': Memory, objs: set<Ptr>) {
    forall n :: n in objs && n in m ==> n in m' && m'[n] == m[n]
  }

  /** Two memories that agree on the nodes of `t` agree on its shape. */
  lemma {:induction false} ShapeFrame(m: Memory, m': Memory, t: Tree, parent: Ptr, s: Ptr)
    requires Agree(m, m', Nodes(t))
    requires Shape(m, t, parent, s)
    ensures Shape(m', t, parent, s)
  {
    if t.Node? {
      ShapeFrame(m, m', t.left, t.e.node, s);
      ShapeFrame(m, m', t.right, t.e.node, s);
    }
  }

  lemma {:induction false} PathFrame(m: Memory, m': Memory, p: Path, hole: Ptr, s: Ptr, root: Ptr)
    requires Agree(m, m', PathNodes(p))
    requires PathShape(m, p, hole, s, root)
    ensures PathShape(m', p, hole, s, root)
    decreases p
  {
    if !p.Top? {
      ShapeFrame(m, m', Other(p), p.e.node, s);
      PathFrame(m, m', p.up, p.e.node, s, root);
    }
  }

  /** One step of moving the focus up or down. */
  lemma FocusStep(m: Memory, p: Path, t: Tree, s: Ptr, root: Ptr)
    requires !p.Top?
    ensures Focus(m, p, t, s, root) <==> Focus(m, p.up, Fill(p, t), s, root)
  {
  }

  lemma OtherShape(m: Memory, p: Path, t: Tree, s: Ptr, root: Ptr)
    requires Focus(m, p, t, s, root) && !p.Top?
    ensures Shape(m, Other(p), p.e.node, s)
  {
  }

  /** Moving the focus along `q`, in either direction, changes nothing. */
  lemma {:induction false} Refocus(m: Memory, q: Path, p: Path, t: Tree, s: Ptr, root: Ptr)
    ensures Focus(m, Append(q, p), t, s, root) <==> Focus(m, p, Zip(q, t), s, root)
    decreases q
  {
    if !q.Top? {
      Refocus(m, q.up, p, Fill(q, t), s, root);
      FocusStep(m, Append(q, p), t, s, root);
    }
  }

  lemma {:induction false} AppendTop(q: Path)
    ensures Append(q, Top) == q
  {
    if !q.Top? { AppendTop(q.up); }
  }

  /** The focus at the root is the whole tree. */
  lemma FocusWhole(m: Memory, p: Path, t: Tree, s: Ptr, root: Ptr)
    ensures Focus(m, p, t, s, root) <==> Focus(m, Top, Zip(p, t), s, root)
  {
    Refocus(m, p, Top, t, s, root);
    AppendTop(p);
  }

  /** The sentinel is never one of the nodes, and every node is recorded. */
  lemma {:induction false} TreeNodes(m: Memory, t: Tree, parent: Ptr, s: Ptr)
    requires Shape(m, t, parent, s)
    ensures s !in Nodes(t) && Nodes(t) <= m.Keys && Distinct(t, s)
  {
    if t.Node? {
      TreeNodes(m, t.left, t.e.node, s);
      TreeNodes(m, t.right, t.e.node, s);
    }
  }

  lemma {:induction false} PathNodesRecorded(m: Memory, p: Path, hole: Ptr, s: Ptr, root: Ptr)
    requires PathShape(m, p, hole, s, root)
    ensures s !in PathNodes(p) && PathNodes(p) <= m.Keys
    decreases p
  {
    if !p.Top? {
      TreeNodes(m, Other(p), p.e.node, s);
      PathNodesRecorded(m, p.up, p.e.node, s, root);
    }
  }

  ghost function NodesOf(es: seq<Entry>): set<Ptr> {
    set e | e in es :: e.node
  }

  /** The in-order sequence determines the set of nodes. */
  lemma {:induction false} NodesInOrder(t: Tree)
    ensures Nodes(t) == NodesOf(InOrder(t))
  {
    if t.Node? {
      NodesInOrder(t.left);
      NodesInOrder(t.right);
      assert InOrder(t) == InOrder(t.left) + [t.e] + InOrder(t.right);
    }
  }

  // ---------- Pointer updates around a hole ----------

  /** `m` after the child pointer above the hole is redirected to `v`. */
  function Redirected(m: Memory, p: Path, v: Ptr): Memory
    requires !p.Top? ==> p.e.node in m
  {
    match p
    case Top => m
    case InLeft(e, c, r, up) => m[e.node := m[e.node].(left := v)]
    case InRight(l, e, c, up) => m[e.node := m[e.node].(right := v)]
  }

  /** `u` knows its parent, and the parent's pointers tell the side `u` is on. */
  ghost predicate HangsAt(m: Memory, u: Ptr, p: Path, s: Ptr) {
    && u in m && m[u].parent == ParentNode(p, s)
    && (!p.Top? ==>
          && p.e.node in m && p.e.node != s
          && (m[p.e.node].left == u <==> p.InLeft?) && (m[p.e.node].right == u <==> p.InRight?))
  }

  lemma HangsThere(m: Memory, p: Path, t: Tree, s: Ptr, root: Ptr)
    requires Focus(m, p, t, s, root) && t.Node?
    ensures HangsAt(m, t.e.node, p, s) && (!p.Top? ==> m[p.e.node].parent == ParentNode(p.up, s))
  {
  }

  /** Redirecting the pointer above the hole fills the hole with `v`. */
  lemma RedirectedPath(m: Memory, p: Path, u: Ptr, v: Ptr, s: Ptr, root: Ptr)
    requires PathShape(m, p, u, s, root)
    ensures PathShape(Redirected(m, p, v), p, v, s, if p.Top? then v else root)
  {
    if !p.Top? {
      ShapeFrame(m, Redirected(m, p, v), Other(p), p.e.node, s);
      PathFrame(m, Redirected(m, p, v), p.up, p.e.node, s, root);
    }
  }

  /** `m` after the root of `t`, if there is one, gets a new parent. */
  function Adopted(m: Memory, t: Tree, parent: Ptr): Memory
    requires t.Node? ==> t.e.node in m
  {
    if t.Leaf? then m else m[t.e.node := m[t.e.node].(parent := parent)]
  }

  lemma AdoptedShape(m: Memory, t: Tree, parent: Ptr, parent': Ptr, s: Ptr)
    requires Shape(m, t, parent, s)
    ensures Shape(Adopted(m, t, parent'), t, parent', s)
  {
    if t.Node? {
      ShapeFrame(m, Adopted(m, t, parent'), t.left, t.e.node, s);
      ShapeFrame(m, Adopted(m, t, parent'), t.right, t.e.node, s);
    }
  }

  // ---------- Colors ----------

  /** The sentinel is allocated and black, whatever its parent field holds. */
  ghost predicate SentinelOk(m: Memory, s: Ptr) {
    s in m && m[s].color == Black
  }

  /** The color read through a subtree's root pointer is the subtree's color. */
  lemma ReadColor(m: Memory, t: Tree, parent: Ptr, s: Ptr)
    requires Shape(m, t, parent, s) && SentinelOk(m, s)
    ensures Root(t, s) in m && m[Root(t, s)].color == ColorOf(t)
    ensures Root(t, s) == s <==> t.Leaf?
  {
  }

  function Recolored(t: Tree, c: Color): Tree {
    if t.Leaf? then t else t.(color := c)
  }

  function WithOther(p: Path, o: Tree): Path
    requires !p.Top?
  {
    if p.InLeft? then p.(right := o) else p.(left := o)
  }

  function Painted(m: Memory, n: Ptr, c: Color): Memory
    requires n in m
  {
    m[n := m[n].(color := c)]
  }

  lemma RecolorFocus(m: Memory, p: Path, t: Tree, c: Color, s: Ptr, root: Ptr)
    requires Focus(m, p, t, s, root) && t.Node?
    ensures Focus(Painted(m, t.e.node, c), p, Recolored(t, c), s, root)
    ensures t.e.node in m && t.e.node != s && (p.Top? ==> root == t.e.node)
  {
    var m' := Painted(m, t.e.node, c);
    ShapeFrame(m, m', t.left, t.e.node, s);
    ShapeFrame(m, m', t.right, t.e.node, s);
    PathFrame(m, m', p, t.e.node, s, root);
  }

  /** The same hole seen from the other child. */
  function Sideways(p: Path, t: Tree): Path
    requires !p.Top?
  {
    match p
    case InLeft(e, c, r, up) => InRight(t, e, c, up)
    case InRight(l, e, c, up) => InLeft(e, c, t, up)
  }

  lemma FocusSideways(m: Memory, p: Path, t: Tree, s: Ptr, root: Ptr)
    requires !p.Top?
    ensures Focus(m, p, t, s, root) <==> Focus(m, Sideways(p, t), Other(p), s, root)
    ensures Sideways(Sideways(p, t), Other(p)) == p
  {
    FocusStep(m, p, t, s, root);
    FocusStep(m, Sideways(p, t), Other(p), s, root);
  }

  lemma RecolorOther(m: Memory, p: Path, t: Tree, c: Color, s: Ptr, root: Ptr)
    requires Focus(m, p, t, s, root) && !p.Top? && Other(p).Node?
    ensures Other(p).e.node in m
    ensures Focus(Painted(m, Other(p).e.node, c), WithOther(p, Recolored(Other(p), c)), t, s, root)
  {
    var q := Sideways(p, t);
    FocusSideways(m, p, t, s, root);
    RecolorFocus(m, q, Other(p), c, s, root);
    var m' := Painted(m, Other(p).e.node, c);
    FocusSideways(m', q, Recolored(Other(p), c), s, root);
    assert Sideways(q, Recolored(Other(p), c)) == WithOther(p, Recolored(Other(p), c));
  }

  // ---------- Left rotation ----------

  /** What a left rotation reads from the memory. */
  ghost predicate LeftRotatable(m: Memory, p: Path, t: Tree, s: Ptr)
    requires t.Node? && t.right.Node?
  {
    var (x, y, b) := (t.e.node, t.right.e.node, t.right.left);
    && x in m && y in m && (b.Node? ==> b.e.node in m) && (b.Node? <==> Root(b, s) != s)
    && x != y && Root(b, s) != x && Root(b, s) != y && x != s && y != s
    && m[x].right == y && m[y].left == Root(b, s) && m[x].parent == ParentNode(p, s)
  }

  /** The memory after the first half of a left rotation: the inner subtree changes sides. */
  function LeftHandover(m: Memory, p: Path, t: Tree, s: Ptr): (m': Memory)
    requires t.Node? && t.right.Node? && t.e.node in m && t.right.e.node in m
    requires t.right.left.Node? ==> t.right.left.e.node in m
  {
    var m1 := m[t.e.node := m[t.e.node].(right := Root(t.right.left, s))];
    var m2 := Adopted(m1, t.right.left, t.e.node);
    m2[t.right.e.node := m2[t.right.e.node].(parent := ParentNode(p, s))]
  }

  /** The memory after the second half: the right child takes its parent's place. */
  function LeftPromotion(m: Memory, p: Path, t: Tree): (m': Memory)
    requires t.Node? && t.right.Node? && t.e.node in m && t.right.e.node in m
    requires !p.Top? ==> p.e.node in m
  {
    var m1 := Redirected(m, p, t.right.e.node);
    var m2 := m1[t.right.e.node := m1[t.right.e.node].(left := t.e.node)];
    m2[t.e.node := m2[t.e.node].(parent := t.right.e.node)]
  }

  /** Half way through a left rotation at the root of `t`. */
  ghost predicate LeftHandedOver(m: Memory, p: Path, t: Tree, s: Ptr, root: Ptr)
    requires t.Node? && t.right.Node?
  {
    var (x, y, b) := (t.e, t.right.e, t.right.left);
    && PathShape(m, p, x.node, s, root)
    && Shape(m, t.left, x.node, s) && Shape(m, b, x.node, s) && Shape(m, t.right.right, y.node, s)
    && x.node in m && y.node in m
    && m[x.node] == RBNode(x.key, x.value, t.color, ParentNode(p, s), Root(t.left, s), Root(b, s))
    && m[y.node] == RBNode(y.key, y.value, t.right.color, ParentNode(p, s), Root(b, s), Root(t.right.right, s))
  }

  lemma LeftHandoverShape(m: Memory, p: Path, t: Tree, s: Ptr, root: Ptr)
    requires Focus(m, p, t, s, root) && t.Node? && t.right.Node?
    ensures LeftRotatable(m, p, t, s)
    ensures LeftHandedOver(LeftHandover(m, p, t, s), p, t, s, root)
    ensures HangsAt(LeftHandover(m, p, t, s), t.e.node, p, s)
    ensures Distinct(t, s)
  {
    var (x, y, b) := (t.e.node, t.right.e.node, t.right.left);
    assert Shape(m, t.right, x, s);
    assert Shape(m, b, y, s);
    TreeNodes(m, t, ParentNode(p, s), s);
    var m' := LeftHandover(m, p, t, s);
    ShapeFrame(m, m', t.left, x, s);
    ShapeFrame(m, m', t.right.right, y, s);
    var m1 := m[x := m[x].(right := Root(b, s))];
    ShapeFrame(m, m1, b, y, s);
    AdoptedShape(m1, b, y, x, s);
    ShapeFrame(Adopted(m1, b, x), m', b, x, s);
    PathFrame(m, m', p, x, s, root);
  }

  lemma LeftPromotionFocus(m: Memory, p: Path, t: Tree, s: Ptr, root: Ptr)
    requires t.Node? && t.right.Node? && LeftHandedOver(m, p, t, s, root)
    requires Distinct(t, s) && PathNodes(p) !! Nodes(t)
    ensures Focus(LeftPromotion(m, p, t), p, RotatedLeft(t), s, if p.Top? then t.right.e.node else root)
  {
    var (x, y) := (t.e.node, t.right.e.node);
    assert Distinct(t.right, s);
    var m1 := Redirected(m, p, y);
    var m' := LeftPromotion(m, p, t);
    RedirectedPath(m, p, x, y, s, root);
    PathFrame(m1, m', p, y, s, if p.Top? then y else root);
    ShapeFrame(m, m', t.left, x, s);
    ShapeFrame(m, m', t.right.left, x, s);
    ShapeFrame(m, m', t.right.right, y, s);
  }

  /** A left rotation keeps the whole tree in shape and leaves the sentinel alone. */
  lemma LeftRotation(m: Memory, p: Path, t: Tree, s: Ptr, root: Ptr) returns (m1: Memory, m2: Memory)
    requires Focus(m, p, t, s, root) && t.Node? && t.right.Node?
    ensures LeftRotatable(m, p, t, s) && m1 == LeftHandover(m, p, t, s)
    ensures HangsAt(m1, t.e.node, p, s) && m2 == LeftPromotion(m1, p, t)
    ensures Focus(m2, p, RotatedLeft(t), s, if p.Top? then t.right.e.node else root)
    ensures m2.Keys == m.Keys && (s in m ==> m2[s] == m[s])
  {
    LeftHandoverShape(m, p, t, s, root);
    m1 := LeftHandover(m, p, t, s);
    m2 := LeftPromotion(m1, p, t);
    LeftPromotionFocus(m1, p, t, s, root);
  }

  // ---------- Right rotation ----------

  /** What a right rotation reads from the memory. */
  ghost predicate RightRotatable(m: Memory, p: Path, t: Tree, s: Ptr)
    requires t.Node? && t.left.Node?
  {
    var (x, y, b) := (t.e.node, t.left.e.node, t.left.right);
    && x in m && y in m && (b.Node? ==> b.e.node in m) && (b.Node? <==> Root(b, s) != s)
    && x != y && Root(b, s) != x && Root(b, s) != y && x != s && y != s
    && m[x].left == y && m[y].right == Root(b, s) && m[x].parent == ParentNode(p, s)
  }

  /** The memory after the first half of a right rotation: the inner subtree changes sides. */
  function RightHandover(m: Memory, p: Path, t: Tree, s: Ptr): (m': Memory)
    requires t.Node? && t.left.Node? && t.e.node in m && t.left.e.node in m
    requires t.left.right.Node? ==> t.left.right.e.node in m
  {
    var m1 := m[t.e.node := m[t.e.node].(left := Root(t.left.right, s))];
    var m2 := Adopted(m1, t.left.right, t.e.node);
    m2[t.left.e.node := m2[t.left.e.node].(parent := ParentNode(p, s))]
  }

  /** The memory after the second half: the left child takes its parent's place. */
  function RightPromotion(m: Memory, p: Path, t: Tree): (m': Memory)
    requires t.Node? && t.left.Node? && t.e.node in m && t.left.e.node in m
    requires !p.Top? ==> p.e.node in m
  {
    var m1 := Redirected(m, p, t.left.e.node);
    var m2 := m1[t.left.e.node := m1[t.left.e.node].(right := t.e.node)];
    m2[t.e.node := m2[t.e.node].(parent := t.left.e.node)]
  }

  /** Half way through a right rotation at the root of `t`. */
  ghost predicate RightHandedOver(m: Memory, p: Path, t: Tree, s: Ptr, root: Ptr)
    requires t.Node? && t.left.Node?
  {
    var (x, y, b) := (t.e, t.left.e, t.left.right);
    && PathShape(m, p, x.node, s, root)
    && Shape(m, t.right, x.node, s) && Shape(m, b, x.node, s) && Shape(m, t.left.left, y.node, s)
    && x.node in m && y.node in m
    && m[x.node] == RBNode(x.key, x.value, t.color, ParentNode(p, s), Root(b, s), Root(t.right, s))
    && m[y.node] == RBNode(y.key, y.value, t.left.color, ParentNode(p, s), Root(t.left.left, s), Root(b, s))
  }

  lemma RightHandoverShape(m: Memory, p: Path, t: Tree, s: Ptr, root: Ptr)
    requires Focus(m, p, t, s, root) && t.Node? && t.left.Node?
    ensures RightRotatable(m, p, t, s)
    ensures RightHandedOver(RightHandover(m, p, t, s), p, t, s, root)
    ensures HangsAt(RightHandover(m, p, t, s), t.e.node, p, s)
    ensures Distinct(t, s)
  {
    var (x, y, b) := (t.e.node, t.left.e.node, t.left.right);
    assert Shape(m, t.left, x, s);
    assert Shape(m, b, y, s);
    TreeNodes(m, t, ParentNode(p, s), s);
    var m' := RightHandover(m, p, t, s);
    ShapeFrame(m, m', t.right, x, s);
    ShapeFrame(m, m', t.left.left, y, s);
    var m1 := m[x := m[x].(left := Root(b, s))];
    ShapeFrame(m, m1, b, y, s);
    AdoptedShape(m1, b, y, x, s);
    ShapeFrame(Adopted(m1, b, x), m', b, x, s);
    PathFrame(m, m', p, x, s, root);
  }

  lemma RightPromotionFocus(m: Memory, p: Path, t: Tree, s: Ptr, root: Ptr)
    requires t.Node? && t.left.Node? && RightHandedOver(m, p, t, s, root)
    requires Distinct(t, s) && PathNodes(p) !! Nodes(t)
    ensures Focus(RightPromotion(m, p, t), p, RotatedRight(t), s, if p.Top? then t.left.e.node else root)
  {
    var (x, y) := (t.e.node, t.left.e.node);
    assert Distinct(t.left, s);
    var m1 := Redirected(m, p, y);
    var m' := RightPromotion(m, p, t);
    RedirectedPath(m, p, x, y, s, root);
    PathFrame(m1, m', p, y, s, if p.Top? then y else root);
    ShapeFrame(m, m', t.right, x, s);
    ShapeFrame(m, m', t.left.right, x, s);
    ShapeFrame(m, m', t.left.left, y, s);
  }

  /** A right rotation keeps the whole tree in shape and leaves the sentinel alone. */
  lemma RightRotation(m: Memory, p: Path, t: Tree, s: Ptr, root: Ptr) returns (m1: Memory, m2: Memory)
    requires Focus(m, p, t, s, root) && t.Node? && t.left.Node?
    ensures RightRotatable(m, p, t, s) && m1 == RightHandover(m, p, t, s)
    ensures HangsAt(m1, t.e.node, p, s) && m2 == RightPromotion(m1, p, t)
    ensures Focus(m2, p, RotatedRight(t), s, if p.Top? then t.left.e.node else root)
    ensures m2.Keys == m.Keys && (s in m ==> m2[s] == m[s])
  {
    RightHandoverShape(m, p, t, s, root);
    m1 := RightHandover(m, p, t, s);
    m2 := RightPromotion(m1, p, t);
    RightPromotionFocus(m1, p, t, s, root);
  }
}
