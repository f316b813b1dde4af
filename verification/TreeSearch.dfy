/** Searching the red-black tree: how the search narrows down, and how many comparisons it makes. */
module TreeSearch {
  import opened Common
  import opened TreeModel
  import opened TreeSpec
  import opened Words

  /** Every entry left of the path is below `k`, every entry right of it is above. */
  ghost predicate Narrowed(cmp: Comparator, k: Ptr, p: Path) {
    && (forall j :: 0 <= j < |Before(p)| ==> cmp(k, Before(p)[j].key) > 0)
    && (forall j :: 0 <= j < |After(p)| ==> cmp(k, After(p)[j].key) < 0)
  }

  function DownLeft(p: Path, t: Tree): Path
    requires t.Node?
  {
    InLeft(t.e, t.color, t.right, p)
  }

  function DownRight(p: Path, t: Tree): Path
    requires t.Node?
  {
    InRight(t.left, t.e, t.color, p)
  }

  /** What a step down reads, and where it leads. */
  lemma StepDown(m: Memory, p: Path, t: Tree, s: Ptr, root: Ptr)
    requires Focus(m, p, t, s, root) && t.Node?
    ensures t.e.node in m && t.e.node != s && m[t.e.node].key == t.e.key && m[t.e.node].value == t.e.value
    ensures m[t.e.node].left == Root(t.left, s) && m[t.e.node].right == Root(t.right, s)
    ensures Root(t.left, s) != t.e.node && Root(t.right, s) != t.e.node
    ensures m[t.e.node].parent == ParentNode(p, s) && m[t.e.node].color == t.color
    ensures Root(t.left, s) == s <==> t.left.Leaf?
    ensures Root(t.right, s) == s <==> t.right.Leaf?
    ensures Focus(m, DownLeft(p, t), t.left, s, root) && Focus(m, DownRight(p, t), t.right, s, root)
    ensures Zip(DownLeft(p, t), t.left) == Zip(p, t) && Zip(DownRight(p, t), t.right) == Zip(p, t)
  {
    FocusStep(m, DownLeft(p, t), t.left, s, root);
    FocusStep(m, DownRight(p, t), t.right, s, root);
  }

  lemma NodeInOrder(t: Tree)
    requires t.Node?
    ensures InOrder(t) == InOrder(t.left) + [t.e] + InOrder(t.right)
  {
  }

  lemma GoLeft(cmp: Comparator, k: Ptr, p: Path, t: Tree)
    requires TotalPreorder(cmp) && Sorted(cmp, Contents(p, t)) && Narrowed(cmp, k, p)
    requires t.Node? && cmp(k, t.e.key) < 0
    ensures Narrowed(cmp, k, DownLeft(p, t)) && Contents(DownLeft(p, t), t.left) == Contents(p, t)
  {
    hide TotalPreorder, InOrder;
    NodeInOrder(t);
    FillInOrder(DownLeft(p, t), t.left);
    var es, r := Contents(p, t), InOrder(t.right);
    var i := |Before(p)| + |InOrder(t.left)|;
    assert es[i] == t.e && es[i + 1..i + 1 + |r|] == r;
    forall j | 0 <= j < |r| ensures cmp(k, r[j].key) < 0 {
      assert r[j] == es[i + 1 + j];
      Chain(cmp, k, t.e.key, r[j].key);
    }
  }

  lemma GoRight(cmp: Comparator, k: Ptr, p: Path, t: Tree)
    requires TotalPreorder(cmp) && Sorted(cmp, Contents(p, t)) && Narrowed(cmp, k, p)
    requires t.Node? && cmp(k, t.e.key) > 0
    ensures Narrowed(cmp, k, DownRight(p, t)) && Contents(DownRight(p, t), t.right) == Contents(p, t)
  {
    hide TotalPreorder, InOrder;
    NodeInOrder(t);
    FillInOrder(DownRight(p, t), t.right);
    var es, l := Contents(p, t), InOrder(t.left);
    var i := |Before(p)|;
    assert es[i..i + |l|] == l && es[i + |l|] == t.e;
    Flip(cmp, k, t.e.key);
    forall j | 0 <= j < |l| ensures cmp(k, l[j].key) > 0 {
      assert l[j] == es[i + j];
      Flip(cmp, l[j].key, k);
      Flip(cmp, t.e.key, k);
      Chain(cmp, l[j].key, t.e.key, k);
    }
  }

  /** Falling off the tree means the key is absent and tells where it belongs. */
  lemma NotFound(cmp: Comparator, k: Ptr, p: Path)
    requires Narrowed(cmp, k, p)
    ensures Position(cmp, Contents(p, Leaf), k) == |Before(p)| && !Has(cmp, Contents(p, Leaf), k)
  {
    assert Contents(p, Leaf) == Before(p) + After(p);
    PositionUnique(cmp, Before(p) + After(p), k, |Before(p)|);
  }

  function IndexOf(p: Path, t: Tree): nat
    requires t.Node?
  {
    |Before(p)| + |InOrder(t.left)|
  }

  lemma FoundHere(cmp: Comparator, k: Ptr, p: Path, t: Tree)
    requires TotalPreorder(cmp) && Sorted(cmp, Contents(p, t)) && t.Node? && cmp(k, t.e.key) == 0
    ensures Has(cmp, Contents(p, t), k)
  {
    AtIndex(p, t);
    FoundAt(cmp, Contents(p, t), k, IndexOf(p, t));
  }

  lemma FoundValue(cmp: Comparator, k: Ptr, p: Path, t: Tree, whole: Tree)
    requires TotalPreorder(cmp) && Sorted(cmp, InOrder(whole)) && Zip(p, t) == whole
    requires t.Node? && cmp(k, t.e.key) == 0
    ensures Lookup(cmp, InOrder(whole), k) == Some(t.e.value) && Position(cmp, InOrder(whole), k) == IndexOf(p, t)
  {
    ZipInOrder(p, t);
    AtIndex(p, t);
    FoundAt(cmp, Contents(p, t), k, IndexOf(p, t));
  }

  lemma AtIndex(p: Path, t: Tree)
    requires t.Node?
    ensures IndexOf(p, t) < |Contents(p, t)| && Contents(p, t)[IndexOf(p, t)] == t.e
  {
  }

  // ---------- The successor ----------

  /** The node after the focus, or the sentinel after the last one. */
  function NextNode(p: Path, t: Tree, s: Ptr): Ptr
    requires t.Node?
  {
    var (es, i) := (Contents(p, t), IndexOf(p, t));
    if i + 1 < |es| then es[i + 1].node else s
  }

  lemma SplitContents(p: Path, t: Tree)
    requires t.Node?
    ensures Contents(p, t) == (Before(p) + InOrder(t.left)) + [t.e] + (InOrder(t.right) + After(p))
  {
    assert InOrder(t) == InOrder(t.left) + [t.e] + InOrder(t.right);
  }

  lemma InOrderNotEmpty(t: Tree)
    requires t.Node?
    ensures |InOrder(t)| > 0
  {
  }

  /** With a right subtree, the successor is the first entry there. */
  lemma NextBelow(p: Path, t: Tree, s: Ptr)
    requires t.Node? && t.right.Node?
    ensures |InOrder(t.right)| > 0 && NextNode(p, t, s) == InOrder(t.right)[0].node
  {
    SplitContents(p, t);
    InOrderNotEmpty(t.right);
  }

  /** Without one, it is the first entry after the subtree. */
  lemma NextAbove(p: Path, t: Tree, s: Ptr)
    requires t.Node? && t.right.Leaf?
    ensures NextNode(p, t, s) == if After(p) == [] then s else After(p)[0].node
  {
    SplitContents(p, t);
  }

  /** The node at a given place of the entry sequence, and the way to it. */
  lemma {:induction false} Locate(p0: Path, t0: Tree, i: nat) returns (p: Path, t: Tree)
    requires i < |InOrder(t0)|
    ensures t.Node? && Zip(p, t) == Zip(p0, t0) && IndexOf(p, t) == |Before(p0)| + i && t.e == InOrder(t0)[i]
    decreases t0
  {
    if i < |InOrder(t0.left)| {
      p, t := Locate(DownLeft(p0, t0), t0.left, i);
    } else if i == |InOrder(t0.left)| {
      p, t := p0, t0;
    } else {
      p, t := Locate(DownRight(p0, t0), t0.right, i - |InOrder(t0.left)| - 1);
    }
  }

  lemma SearchStart(cmp: Comparator, k: Ptr, m: Memory, t: Tree, s: Ptr, root: Ptr)
    requires Focus(m, Top, t, s, root)
    ensures Narrowed(cmp, k, Top) && Contents(Top, t) == InOrder(t) && Zip(Top, t) == t && root == Root(t, s)
    ensures InOrder(t) == [] <==> t.Leaf?
    ensures t.Leaf? ==> !Has(cmp, InOrder(t), k)
  {
  }

  // ---------- The cost of a search ----------

  function Height(t: Tree): nat {
    if t.Leaf? then 0 else 1 + if Height(t.left) > Height(t.right) then Height(t.left) else Height(t.right)
  }

  lemma HeightDown(t: Tree)
    requires t.Node?
    ensures Height(t.left) < Height(t) && Height(t.right) < Height(t)
  {
  }

  /** No way down has more red nodes than black ones, but for a red root. */
  lemma {:induction false} HeightBound(t: Tree)
    requires Balanced(t) && NoRedRed(t)
    ensures Height(t) <= 2 * BlackHeight(t) + (if ColorOf(t) == Red then 1 else 0)
  {
    if t.Node? {
      HeightBound(t.left);
      HeightBound(t.right);
    }
  }

  lemma {:induction false} SizeBound(t: Tree)
    requires Balanced(t)
    ensures Pow2(BlackHeight(t)) <= |InOrder(t)| + 1
  {
    if t.Node? {
      SizeBound(t.left);
      SizeBound(t.right);
    }
  }

  /** `2^height <= (size + 1)^2`: a search makes at most `2 * log2(size + 1)` comparisons. */
  lemma SearchCost(t: Tree)
    requires RedBlack(t)
    ensures Pow2(Height(t)) <= (|InOrder(t)| + 1) * (|InOrder(t)| + 1)
  {
    var b, n := BlackHeight(t), |InOrder(t)| + 1;
    HeightBound(t);
    SizeBound(t);
    Pow2Mono(Height(t), b + b);
    Pow2Add(b, b);
    Squares(Pow2(b), n);
  }

  lemma Squares(a: nat, b: nat)
    requires a <= b
    ensures a * a <= b * b
  {
  }
}
