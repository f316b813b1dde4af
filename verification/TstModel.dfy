/** The nodes of the ternary search tree in memory. */
module TstModel {
  import opened Common
  import opened TstSpec

  /** `CC_TSTTableNode`, the structure behind a node pointer. */
  datatype TstNode = TstNode(c: Char, data: Ptr, parent: Ptr, left: Ptr, mid: Ptr, right: Ptr)

  type Memory = map<Ptr, TstNode>

  ghost function Nodes(t: Tree): set<Ptr> {
    if t.Nil? then {} else Nodes(t.left) + Nodes(t.mid) + Nodes(t.right) + {t.n}
  }

  ghost function PathNodes(p: Path): set<Ptr> {
    if p.Top? then {} else {p.n} + Nodes(p.a) + Nodes(p.b) + PathNodes(p.up)
  }

  function Root(t: Tree): Ptr {
    if t.Nil? then NULL else t.n
  }

  function ParentNode(p: Path): Ptr {
    if p.Top? then NULL else p.n
  }

  /** The nodes of `t` are linked as `t` says, below `parent`, and are all different. */
  ghost predicate Shape(m: Memory, t: Tree, parent: Ptr) {
    t.Node? ==>
      && t.n in m && t.n != NULL
      && m[t.n] == TstNode(t.c, DataPtr(t.data), parent, Root(t.left), Root(t.mid), Root(t.right))
      && t.n !in Nodes(t.left) + Nodes(t.mid) + Nodes(t.right)
      && Nodes(t.left) !! Nodes(t.mid) !! Nodes(t.right)
      && Shape(m, t.left, t.n) && Shape(m, t.mid, t.n) && Shape(m, t.right, t.n)
  }

  function FrameNode(p: Path, hole: Ptr): TstNode
    requires p.Hole?
  {
    match p.side
    case L => TstNode(p.c, DataPtr(p.data), ParentNode(p.up), hole, Root(p.a), Root(p.b))
    case M => TstNode(p.c, DataPtr(p.data), ParentNode(p.up), Root(p.a), hole, Root(p.b))
    case R => TstNode(p.c, DataPtr(p.data), ParentNode(p.up), Root(p.a), Root(p.b), hole)
  }

  ghost predicate PathShape(m: Memory, p: Path, hole: Ptr, root: Ptr)
    decreases p
  {
    if p.Top? then root == hole else
      && p.n in m && p.n != NULL && m[p.n] == FrameNode(p, hole)
      && p.n !in Nodes(p.a) + Nodes(p.b) + PathNodes(p.up)
      && Nodes(p.a) !! Nodes(p.b) !! PathNodes(p.up)
      && Shape(m, p.a, p.n) && Shape(m, p.b, p.n) && PathShape(m, p.up, p.n, root)
  }

  /** The whole tree, looked at from the subtree `t` at the end of path `p`. */
  ghost predicate Focus(m: Memory, p: Path, t: Tree, root: Ptr) {
    PathShape(m, p, Root(t), root) && Shape(m, t, ParentNode(p)) && PathNodes(p) !! Nodes(t)
  }

  ghost function FocusNodes(p: Path, t: Tree): set<Ptr> {
    PathNodes(p) + Nodes(t)
  }

  lemma FocusDown(m: Memory, p: Path, t: Tree, root: Ptr, side: Side)
    requires t.Node?
    ensures Focus(m, p, t, root) <==> Focus(m, Below(p, t, side), Child(t, side), root)
    ensures FocusNodes(p, t) == FocusNodes(Below(p, t, side), Child(t, side))
    ensures Fill(Below(p, t, side), Child(t, side)) == t
  {
  }

  lemma FocusUp(m: Memory, p: Path, t: Tree, root: Ptr)
    requires p.Hole?
    ensures Focus(m, p, t, root) <==> Focus(m, p.up, Fill(p, t), root)
    ensures FocusNodes(p, t) == FocusNodes(p.up, Fill(p, t))
  {
  }

  lemma {:induction false} FocusWhole(m: Memory, p: Path, t: Tree, root: Ptr)
    ensures Focus(m, p, t, root) <==> Focus(m, Top, Zip(p, t), root)
    ensures FocusNodes(p, t) == FocusNodes(Top, Zip(p, t))
    decreases p
  {
    if p.Hole? {
      FocusUp(m, p, t, root);
      FocusWhole(m, p.up, Fill(p, t), root);
    }
  }

  /** `m'` keeps what `m` records about the nodes of `ns`. */
  ghost predicate Agree(m: Memory, m': Memory, ns: set<Ptr>) {
    forall x :: x in ns && x in m ==> x in m' && m'[x] == m[x]
  }

  lemma {:induction false} ShapeFrame(m: Memory, m': Memory, t: Tree, parent: Ptr)
    requires Shape(m, t, parent) && Agree(m, m', Nodes(t))
    ensures Shape(m', t, parent)
  {
    if t.Node? {
      ShapeFrame(m, m', t.left, t.n);
      ShapeFrame(m, m', t.mid, t.n);
      ShapeFrame(m, m', t.right, t.n);
    }
  }

  lemma {:induction false} PathFrame(m: Memory, m': Memory, p: Path, hole: Ptr, root: Ptr)
    requires PathShape(m, p, hole, root) && Agree(m, m', PathNodes(p))
    ensures PathShape(m', p, hole, root)
    decreases p
  {
    if p.Hole? {
      ShapeFrame(m, m', p.a, p.n);
      ShapeFrame(m, m', p.b, p.n);
      PathFrame(m, m', p.up, p.n, root);
    }
  }

  // ---------- Slots ----------

  /** The address of a child pointer, `CC_TSTTableNode **`. */
  datatype Slot = RootSlot | ChildSlot(node: Ptr, side: Side)

  function SlotOf(p: Path): Slot {
    if p.Top? then RootSlot else ChildSlot(p.n, p.side)
  }

  function ReadChild(x: TstNode, side: Side): Ptr {
    match side case L => x.left case M => x.mid case R => x.right
  }

  function WriteChild(x: TstNode, side: Side, v: Ptr): TstNode {
    match side case L => x.(left := v) case M => x.(mid := v) case R => x.(right := v)
  }

  function Redirected(m: Memory, p: Path, v: Ptr): Memory
    requires p.Hole? ==> p.n in m
  {
    if p.Top? then m else m[p.n := WriteChild(m[p.n], p.side, v)]
  }

  lemma NodeFacts(m: Memory, t: Tree, parent: Ptr)
    requires Shape(m, t, parent)
    ensures Root(t) == NULL <==> t.Nil?
    ensures t.Node? ==>
      t.n in m && m[t.n] == TstNode(t.c, DataPtr(t.data), parent, Root(t.left), Root(t.mid), Root(t.right))
    ensures t.Node? ==> Shape(m, t.left, t.n) && Shape(m, t.mid, t.n) && Shape(m, t.right, t.n)
  {
  }

  lemma RootIn(t: Tree)
    requires Root(t) != NULL
    ensures Root(t) in Nodes(t)
  {
  }

  /** What the parent of the hole records about the subtree in it. */
  lemma SlotFacts(m: Memory, p: Path, t: Tree, root: Ptr)
    requires Focus(m, p, t, root)
    ensures p.Top? ==> Root(t) == root
    ensures p.Hole? ==>
      p.n in m && p.n != NULL && ReadChild(m[p.n], p.side) == Root(t) && m[p.n].parent == ParentNode(p.up)
    ensures p.Hole? && t.Node? ==>
      && p.n != t.n && (m[p.n].left == t.n <==> p.side == L)
      && (m[p.n].mid == t.n <==> p.side == M) && (m[p.n].right == t.n <==> p.side == R)
  {
    if p.Hole? && t.Node? {
      NodeFacts(m, p.a, p.n);
      NodeFacts(m, p.b, p.n);
      if p.a.Node? { RootIn(p.a); }
      if p.b.Node? { RootIn(p.b); }
    }
  }

  // ---------- Updates at the focus ----------

  lemma SetData(m: Memory, p: Path, t: Tree, root: Ptr, d: Option<TstEntry>)
    requires Focus(m, p, t, root) && t.Node?
    ensures t.n in m && Focus(m[t.n := m[t.n].(data := DataPtr(d))], p, t.(data := d), root)
    ensures FocusNodes(p, t.(data := d)) == FocusNodes(p, t)
  {
    var m' := m[t.n := m[t.n].(data := DataPtr(d))];
    PathFrame(m, m', p, t.n, root);
    ShapeFrame(m, m', t.left, t.n);
    ShapeFrame(m, m', t.mid, t.n);
    ShapeFrame(m, m', t.right, t.n);
  }

  lemma RedirectedPath(m: Memory, p: Path, hole: Ptr, v: Ptr, root: Ptr)
    requires PathShape(m, p, hole, root)
    ensures p.Hole? ==> p.n in m
    ensures PathShape(Redirected(m, p, v), p, v, if p.Top? then v else root)
  {
    if p.Hole? {
      var m' := Redirected(m, p, v);
      ShapeFrame(m, m', p.a, p.n);
      ShapeFrame(m, m', p.b, p.n);
      PathFrame(m, m', p.up, p.n, root);
    }
  }

  /** A new subtree goes into the hole. */
  lemma Hang(m: Memory, p: Path, t: Tree, u: Tree, root: Ptr)
    requires Focus(m, p, t, root) && Shape(m, u, ParentNode(p)) && Nodes(u) !! PathNodes(p)
    ensures p.Hole? ==> p.n in m
    ensures Focus(Redirected(m, p, Root(u)), p, u, if p.Top? then Root(u) else root)
  {
    hide PathShape, Shape, Nodes;
    RedirectedPath(m, p, Root(t), Root(u), root);
    ShapeFrame(m, Redirected(m, p, Root(u)), u, ParentNode(p));
  }

  /** A childless node is unlinked and freed. */
  lemma CutLeaf(m: Memory, p: Path, t: Tree, root: Ptr)
    requires Focus(m, p, t, root) && t.Node? && Childless(t)
    ensures p.Hole? ==> p.n in m && p.n != t.n
    ensures Focus(Redirected(m, p, NULL) - {t.n}, p, Nil, if p.Top? then NULL else root)
    ensures FocusNodes(p, Nil) == FocusNodes(p, t) - {t.n}
  {
    Hang(m, p, t, Nil, root);
    var m1 := Redirected(m, p, NULL);
    PathFrame(m1, m1 - {t.n}, p, NULL, if p.Top? then NULL else root);
  }

  // ---------- A new branch ----------

  /** The nodes of a branch under construction, linked by their `mid` pointers. */
  ghost predicate BranchAt(m: Memory, ns: seq<Ptr>, w: Word, parent: Ptr, e: Option<TstEntry>) {
    && |ns| == |w| > 0
    && (forall i, j :: 0 <= i < j < |ns| ==> ns[i] != ns[j])
    && (forall i :: 0 <= i < |ns| ==> BranchNode(m, ns, w, parent, e, i))
  }

  ghost predicate BranchNode(m: Memory, ns: seq<Ptr>, w: Word, parent: Ptr, e: Option<TstEntry>, i: nat)
    requires i < |ns| == |w|
  {
    ns[i] in m && ns[i] != NULL && m[ns[i]] == TstNode(w[i], if i + 1 == |ns| then DataPtr(e) else NULL,
      if i == 0 then parent else ns[i - 1], NULL, if i + 1 < |ns| then ns[i + 1] else NULL, NULL)
  }

  lemma {:induction false} BranchShape(m: Memory, ns: seq<Ptr>, w: Word, parent: Ptr, e: TstEntry)
    requires BranchAt(m, ns, w, parent, Some(e))
    ensures Shape(m, Branch(ns, w, e), parent) && Nodes(Branch(ns, w, e)) == (set x | x in ns)
    ensures Root(Branch(ns, w, e)) == ns[0]
    decreases |ns|
  {
    assert BranchNode(m, ns, w, parent, Some(e), 0);
    if |ns| > 1 {
      forall i | 0 <= i < |ns| - 1 ensures BranchNode(m, ns[1..], w[1..], ns[0], Some(e), i) {
        assert BranchNode(m, ns, w, parent, Some(e), i + 1);
      }
      BranchShape(m, ns[1..], w[1..], ns[0], e);
      assert ns == [ns[0]] + ns[1..];
    } else {
      assert ns == [ns[0]];
    }
  }

  lemma BranchGrow(m: Memory, ns: seq<Ptr>, w: Word, x: Ptr, c: Char)
    requires BranchAt(m, ns, w, NULL, None) && x !in m && x != NULL
    ensures ns[|ns| - 1] in m
    ensures var last := ns[|ns| - 1];
      BranchAt(m[last := m[last].(mid := x)][x := TstNode(c, NULL, last, NULL, NULL, NULL)],
               ns + [x], w + [c], NULL, None)
  {
    var last := ns[|ns| - 1];
    assert BranchNode(m, ns, w, NULL, None, |ns| - 1);
    var m' := m[last := m[last].(mid := x)][x := TstNode(c, NULL, last, NULL, NULL, NULL)];
    forall i | 0 <= i < |ns| ensures ns[i] in m && BranchNode(m', ns + [x], w + [c], NULL, None, i) {
      assert BranchNode(m, ns, w, NULL, None, i);
    }
  }

  /** The letters a branch is made of: an empty rest still yields the NUL that ends it. */
  function Letters(postfix: Word): (w: Word)
    ensures w != []
  {
    if postfix == [] then [NUL] else postfix
  }

  /** Besides what `m0` holds, `m` holds the branch for `w` and nothing else. */
  ghost predicate Extends(m0: Memory, m: Memory, ns: seq<Ptr>, w: Word, parent: Ptr, e: Option<TstEntry>) {
    && BranchAt(m, ns, w, parent, e) && Agree(m0, m, m0.Keys)
    && m.Keys == m0.Keys + (set x | x in ns) && m0.Keys !! (set x | x in ns)
  }

  lemma ExtendsBegin(m0: Memory, x: Ptr, c: Char)
    requires x !in m0 && x != NULL
    ensures Extends(m0, m0[x := TstNode(c, NULL, NULL, NULL, NULL, NULL)], [x], [c], NULL, None)
  {
    assert BranchNode(m0[x := TstNode(c, NULL, NULL, NULL, NULL, NULL)], [x], [c], NULL, None, 0);
  }

  lemma ExtendsGrow(m0: Memory, m: Memory, ns: seq<Ptr>, w: Word, x: Ptr, c: Char)
    requires Extends(m0, m, ns, w, NULL, None) && x !in m && x != NULL
    ensures |ns| > 0 && ns[|ns| - 1] in m
    ensures var last := ns[|ns| - 1];
      Extends(m0, m[last := m[last].(mid := x)][x := TstNode(c, NULL, last, NULL, NULL, NULL)],
              ns + [x], w + [c], NULL, None)
  {
    BranchGrow(m, ns, w, x, c);
    hide BranchAt;
    var last := ns[|ns| - 1];
    assert last in (set y | y in ns);
    assert (set y | y in ns + [x]) == (set y | y in ns) + {x};
  }

  lemma ExtendsFinish(m0: Memory, m: Memory, ns: seq<Ptr>, w: Word, parent: Ptr, e: TstEntry)
    requires Extends(m0, m, ns, w, NULL, None)
    ensures |ns| == |w| > 0 && ns[0] in m && ns[|ns| - 1] in m
    ensures var m1 := m[ns[0] := m[ns[0]].(parent := parent)]; var z := ns[|ns| - 1];
      Extends(m0, m1[z := m1[z].(data := e.at)], ns, w, parent, Some(e))
  {
    BranchFinish(m, ns, w, parent, e);
    hide BranchAt;
    assert ns[0] in (set y | y in ns) && ns[|ns| - 1] in (set y | y in ns);
  }

  /** The branch gets its parent and, at its end, its entry. */
  lemma BranchFinish(m: Memory, ns: seq<Ptr>, w: Word, parent: Ptr, e: TstEntry)
    requires BranchAt(m, ns, w, NULL, None)
    ensures ns[0] in m && ns[|ns| - 1] in m
    ensures var m1 := m[ns[0] := m[ns[0]].(parent := parent)]; var z := ns[|ns| - 1];
      BranchAt(m1[z := m1[z].(data := e.at)], ns, w, parent, Some(e))
  {
    assert BranchNode(m, ns, w, NULL, None, 0) && BranchNode(m, ns, w, NULL, None, |ns| - 1);
    var m1 := m[ns[0] := m[ns[0]].(parent := parent)];
    var z := ns[|ns| - 1];
    var m2 := m1[z := m1[z].(data := e.at)];
    forall i | 0 <= i < |ns| ensures BranchNode(m2, ns, w, parent, Some(e), i) {
      assert BranchNode(m, ns, w, NULL, None, i);
    }
  }

  // ---------- The whole table ----------

  /** The rules every table keeps. */
  ghost predicate TableOk(cmp: Comparator, m: Memory, t: Tree, root: Ptr, size: nat) {
    && TotalPreorder(cmp)
    && Focus(m, Top, t, root) && m.Keys == Nodes(t)
    && Ordered(cmp, t) && Trimmed(t) && size == Count(t)
  }

  lemma EmptyTable(cmp: Comparator)
    requires TotalPreorder(cmp)
    ensures TableOk(cmp, map[], Nil, NULL, 0)
  {
  }

  /** A place in the table that the search for `w` has reached after `i` characters. */
  ghost predicate Reached(cmp: Comparator, m: Memory, tree: Tree, root: Ptr, p: Path, t: Tree, w: Word, i: nat) {
    && Focus(m, p, t, root) && Zip(p, t) == tree && FocusNodes(p, t) == m.Keys
    && i < |w| && Leads(cmp, p, w, i)
  }

  lemma ReachedRoot(cmp: Comparator, m: Memory, tree: Tree, root: Ptr, size: nat, w: Word)
    requires TableOk(cmp, m, tree, root, size) && w != []
    ensures Reached(cmp, m, tree, root, Top, tree, w, 0)
  {
  }

  lemma ReachedDown(cmp: Comparator, m: Memory, tree: Tree, root: Ptr, p: Path, t: Tree, w: Word, i: nat, side: Side)
    requires Reached(cmp, m, tree, root, p, t, w, i) && t.Node?
    requires match side
      case L => cmp(w[i], t.c) < 0
      case M => cmp(w[i], t.c) == 0 && i + 1 < |w|
      case R => cmp(w[i], t.c) > 0
    ensures Reached(cmp, m, tree, root, Below(p, t, side), Child(t, side), w, if side == M then i + 1 else i)
  {
    hide Focus, FocusNodes;
    FocusDown(m, p, t, root, side);
  }

  lemma TableAt(cmp: Comparator, m: Memory, p: Path, t: Tree, root: Ptr, size: nat)
    requires TotalPreorder(cmp) && Focus(m, p, t, root) && FocusNodes(p, t) == m.Keys
    requires Ordered(cmp, Zip(p, t)) && Trimmed(Zip(p, t)) && size == Count(Zip(p, t))
    ensures TableOk(cmp, m, Zip(p, t), root, size)
  {
    hide TotalPreorder, Ordered, Trimmed, Count;
    FocusWhole(m, p, t, root);
  }

  /** What the search has found. */
  lemma FindReached(cmp: Comparator, m: Memory, tree: Tree, root: Ptr, size: nat, p: Path, t: Tree, w: Word, i: nat)
    requires TableOk(cmp, m, tree, root, size) && Reached(cmp, m, tree, root, p, t, w, i)
    requires t.Node? ==> i == |w| - 1 && cmp(w[i], t.c) == 0
    ensures Find(cmp, tree, w) == if t.Nil? then None else t.data
  {
    FindZip(cmp, p, t, w, i);
  }

  /** The last node of the word gets an entry. */
  lemma SetDataTable(cmp: Comparator, m: Memory, tree: Tree, root: Ptr, size: nat, p: Path, t: Tree,
                     w: Word, i: nat, e: TstEntry)
    requires TableOk(cmp, m, tree, root, size) && Reached(cmp, m, tree, root, p, t, w, i)
    requires t.Node? && i == |w| - 1 && cmp(w[i], t.c) == 0
    ensures t.n in m && m[t.n].data == DataPtr(t.data) && Find(cmp, tree, w) == t.data
    ensures var tree' := Zip(p, t.(data := Some(e)));
      && TableOk(cmp, m[t.n := m[t.n].(data := e.at)], tree', root, if t.data.Some? then size else size + 1)
      && Updates(cmp, tree, tree', w, Some(e))
  {
    hide TotalPreorder, Shape, PathShape, Updates;
    var t' := t.(data := Some(e));
    NodeFacts(m, t, ParentNode(p));
    SetData(m, p, t, root, Some(e));
    FindZip(cmp, p, t, w, i);
    Flip(cmp, w[i], t.c);
    DataUpdate(cmp, t, w[i..], Some(e));
    ZipUpdate(cmp, p, t, t', w, i, Some(e));
    ZipOrderedParts(cmp, p, t);
    ZipOrderedLess(cmp, p, t, t');
    ZipTrimmed(p, t);
    ZipTrimmed(p, t');
    ZipCount(p, t);
    ZipCount(p, t');
    TableAt(cmp, m[t.n := m[t.n].(data := e.at)], p, t', root, if t.data.Some? then size else size + 1);
  }

  lemma HangBranch(m: Memory, m': Memory, root: Ptr, p: Path, w: Word, ns: seq<Ptr>, e: TstEntry)
    requires Focus(m, p, Nil, root) && FocusNodes(p, Nil) == m.Keys && Extends(m, m', ns, w, ParentNode(p), Some(e))
    ensures p.Hole? ==> p.n in m'
    ensures var m2 := Redirected(m', p, ns[0]); var u := Branch(ns, w, e);
      Focus(m2, p, u, if p.Top? then ns[0] else root) && FocusNodes(p, u) == m2.Keys
  {
    hide PathShape;
    BranchShape(m', ns, w, ParentNode(p), e);
    PathFrame(m, m', p, NULL, root);
    Hang(m', p, Nil, Branch(ns, w, e), root);
  }

  /** The rest of a new word hangs in the empty slot that its search leads to. */
  lemma HangTable(cmp: Comparator, m: Memory, m': Memory, tree: Tree, root: Ptr, size: nat, p: Path, w: Word, i: nat,
                  ns: seq<Ptr>, e: TstEntry)
    requires TableOk(cmp, m, tree, root, size) && Reached(cmp, m, tree, root, p, Nil, w, i)
    requires Extends(m, m', ns, w[i..], ParentNode(p), Some(e))
    ensures p.Hole? ==> p.n in m'
    ensures Find(cmp, tree, w) == None
    ensures var tree' := Zip(p, Branch(ns, w[i..], e));
      && TableOk(cmp, Redirected(m', p, ns[0]), tree', if p.Top? then ns[0] else root, size + 1)
      && Updates(cmp, tree, tree', w, Some(e))
  {
    assert |ns| == |w[i..]| > 0;
    hide TotalPreorder, Shape, PathShape, Updates, BranchAt, Focus, Agree;
    var u := Branch(ns, w[i..], e);
    HangBranch(m, m', root, p, w[i..], ns, e);
    FindZip(cmp, p, Nil, w, i);
    BranchUpdate(cmp, ns, w[i..], e);
    ZipUpdate(cmp, p, Nil, u, w, i, Some(e));
    BranchOrdered(cmp, ns, w[i..], e);
    ZipOrdered(cmp, p, Nil, u, w, i);
    BranchTrimmed(ns, w[i..], e);
    ZipTrimmed(p, Nil);
    ZipTrimmed(p, u);
    ZipCount(p, Nil);
    ZipCount(p, u);
    TableAt(cmp, Redirected(m', p, ns[0]), p, u, if p.Top? then ns[0] else root, size + 1);
  }

  // ---------- Pruning ----------

  /** A table that would find what `tree` finds, but whose focus may have become a dead end. */
  ghost predicate Pruning(cmp: Comparator, m: Memory, p: Path, t: Tree, root: Ptr, tree: Tree) {
    && TotalPreorder(cmp) && Focus(m, p, t, root) && FocusNodes(p, t) == m.Keys
    && Ordered(cmp, Zip(p, t)) && SameFinds(cmp, tree, Zip(p, t)) && Count(Zip(p, t)) == Count(tree)
    && PathTrimmed(p) && (if t.Nil? then p.Top? else Trimmed(t.left) && Trimmed(t.mid) && Trimmed(t.right))
  }

  lemma PruneBegin(cmp: Comparator, m: Memory, tree: Tree, root: Ptr, size: nat, p: Path, t: Tree, w: Word, i: nat)
    requires TableOk(cmp, m, tree, root, size) && Reached(cmp, m, tree, root, p, t, w, i)
    requires t.Node? && i == |w| - 1 && cmp(w[i], t.c) == 0 && t.data.Some?
    ensures t.n in m && t.n != NULL && m[t.n].data == DataPtr(t.data) && Find(cmp, tree, w) == t.data
    ensures m[t.n].parent == ParentNode(p) && size > 0
    ensures var (t', m') := (t.(data := None), m[t.n := m[t.n].(data := NULL)]);
      && Pruning(cmp, m', p, t', root, Zip(p, t'))
      && Updates(cmp, tree, Zip(p, t'), w, None) && Count(Zip(p, t')) == size - 1
  {
    hide TotalPreorder, Shape, PathShape, Updates;
    var t' := t.(data := None);
    NodeFacts(m, t, ParentNode(p));
    SetData(m, p, t, root, None);
    FindZip(cmp, p, t, w, i);
    DataUpdate(cmp, t, w[i..], None);
    ZipUpdate(cmp, p, t, t', w, i, None);
    ZipOrderedParts(cmp, p, t);
    ZipOrderedLess(cmp, p, t, t');
    ZipTrimmed(p, t);
    ZipCount(p, t);
    ZipCount(p, t');
  }

  lemma DeadEnd(cmp: Comparator, t: Tree)
    requires t.Node? && Childless(t) && t.data.None?
    ensures SameFinds(cmp, t, Nil)
  {
    forall u: Word | u != [] ensures Find(cmp, Nil, u) == Find(cmp, t, u) {
    }
  }

  /** A dead end is cut off; its parent may now be one. */
  lemma PruneStep(cmp: Comparator, m: Memory, p: Path, t: Tree, root: Ptr, tree: Tree)
    requires Pruning(cmp, m, p, t, root, tree) && t.Node? && Childless(t) && t.data.None?
    ensures t.n in m && (p.Hole? ==> p.n in m && p.n != t.n)
    ensures var m' := Redirected(m, p, NULL) - {t.n};
      if p.Hole? then Pruning(cmp, m', p.up, Fill(p, Nil), root, tree) else Pruning(cmp, m', Top, Nil, NULL, tree)
  {
    hide TotalPreorder, Shape, PathShape, Nodes, PathNodes, Ordered, Trimmed, PathTrimmed, Count;
    NodeFacts(m, t, ParentNode(p));
    CutLeaf(m, p, t, root);
    DeadEnd(cmp, t);
    ZipSame(cmp, p, t, Nil);
    PruneRules(cmp, p, t);
    if p.Hole? {
      FocusUp(Redirected(m, p, NULL) - {t.n}, p, Nil, root);
      FillTrimmed(p);
    }
  }

  lemma PruneRules(cmp: Comparator, p: Path, t: Tree)
    requires t.Node? && Childless(t) && t.data.None? && Ordered(cmp, Zip(p, t))
    ensures Ordered(cmp, Zip(p, Nil)) && Count(Zip(p, Nil)) == Count(Zip(p, t))
  {
    ZipOrderedLess(cmp, p, t, Nil);
    ZipCount(p, t);
    ZipCount(p, Nil);
  }

  lemma FillTrimmed(p: Path)
    requires p.Hole? && PathTrimmed(p)
    ensures var u := Fill(p, Nil); PathTrimmed(p.up) && Trimmed(u.left) && Trimmed(u.mid) && Trimmed(u.right)
  {
  }

  lemma PruneEnd(cmp: Comparator, m: Memory, p: Path, t: Tree, root: Ptr, tree: Tree)
    requires Pruning(cmp, m, p, t, root, tree) && (t.Node? ==> !Childless(t) || t.data.Some?)
    ensures TableOk(cmp, m, Zip(p, t), root, Count(tree)) && SameFinds(cmp, tree, Zip(p, t))
  {
    hide TotalPreorder, Shape, PathShape;
    ZipTrimmed(p, t);
    TableAt(cmp, m, p, t, root, Count(tree));
  }

  // ---------- Clearing ----------

  /** A table that is being taken apart, seen from the node that the walk stands on. */
  ghost predicate Clearing(m: Memory, p: Path, t: Tree, root: Ptr, size: nat) {
    t.Node? && Focus(m, p, t, root) && FocusNodes(p, t) == m.Keys && size == Count(Zip(p, t))
  }

  lemma ClearDown(m: Memory, p: Path, t: Tree, root: Ptr, size: nat, side: Side)
    requires Clearing(m, p, t, root, size) && Child(t, side).Node?
    ensures Clearing(m, Below(p, t, side), Child(t, side), root, size)
    ensures TreeSize(Child(t, side)) < TreeSize(t)
  {
    hide Focus, FocusNodes;
    FocusDown(m, p, t, root, side);
  }

  lemma ClearLeaf(m: Memory, p: Path, t: Tree, root: Ptr, size: nat)
    requires Clearing(m, p, t, root, size) && Childless(t)
    ensures t.n in m && (p.Hole? ==> p.n in m && p.n != t.n) && (t.data.Some? ==> size > 0)
    ensures var (m', size') := (Redirected(m, p, NULL) - {t.n}, if t.data.Some? then size - 1 else size);
      if p.Hole? then Clearing(m', p.up, Fill(p, Nil), root, size') else m'.Keys == {} && size' == 0
  {
    hide Shape, PathShape;
    NodeFacts(m, t, ParentNode(p));
    CutLeaf(m, p, t, root);
    ZipCount(p, t);
    ZipCount(p, Nil);
    if p.Hole? { FocusUp(Redirected(m, p, NULL) - {t.n}, p, Nil, root); }
  }
}
