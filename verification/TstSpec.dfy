/**
  The ternary search tree as a value: what a word leads to, the path from a subtree up to the
  root, and the rules every table keeps.
 */
module TstSpec {
  import opened Common

  /** A character, 8 bits and signed; strings end before the first NUL. */
  type Char = x: int | -128 <= x < 128
  const NUL: Char := 0
  type Word = seq<Char>

  datatype TstEntry = TstEntry(at: Ptr, key: Word, value: Ptr)

  /** The pointer to the entry that a node holds. */
  function DataPtr(d: Option<TstEntry>): Ptr {
    if d.None? then NULL else d.value.at
  }

  /** `n` is the address of the node; `data` is its entry if it is the end of a word. */
  datatype Tree = Nil | Node(n: Ptr, c: Char, data: Option<TstEntry>, left: Tree, mid: Tree, right: Tree)

  datatype Side = L | M | R

  /** A parent with its two other children, in their order. */
  datatype Path = Top | Hole(side: Side, n: Ptr, c: Char, data: Option<TstEntry>, a: Tree, b: Tree, up: Path)

  function Child(t: Tree, side: Side): Tree
    requires t.Node?
  {
    match side case L => t.left case M => t.mid case R => t.right
  }

  /** The way on from the focus into one of its children. */
  function Below(p: Path, t: Tree, side: Side): Path
    requires t.Node?
  {
    match side
    case L => Hole(L, t.n, t.c, t.data, t.mid, t.right, p)
    case M => Hole(M, t.n, t.c, t.data, t.left, t.right, p)
    case R => Hole(R, t.n, t.c, t.data, t.left, t.mid, p)
  }

  function Fill(p: Path, t: Tree): Tree
    requires p.Hole?
  {
    match p.side
    case L => Node(p.n, p.c, p.data, t, p.a, p.b)
    case M => Node(p.n, p.c, p.data, p.a, t, p.b)
    case R => Node(p.n, p.c, p.data, p.a, p.b, t)
  }

  function Zip(p: Path, t: Tree): Tree
    decreases p
  {
    if p.Top? then t else Zip(p.up, Fill(p, t))
  }

  function Depth(p: Path): nat {
    if p.Top? then 0 else 1 + Depth(p.up)
  }

  function TreeSize(t: Tree): nat {
    if t.Nil? then 0 else 1 + TreeSize(t.left) + TreeSize(t.mid) + TreeSize(t.right)
  }

  // ---------- Words ----------

  ghost predicate SameWord(cmp: Comparator, u: Word, w: Word) {
    |u| == |w| && forall j :: 0 <= j < |u| ==> cmp(u[j], w[j]) == 0
  }

  /** The entry a word leads to. */
  function Find(cmp: Comparator, t: Tree, w: Word): Option<TstEntry>
    requires w != []
    decreases t
  {
    if t.Nil? then None
    else if cmp(w[0], t.c) < 0 then Find(cmp, t.left, w)
    else if cmp(w[0], t.c) > 0 then Find(cmp, t.right, w)
    else if |w| == 1 then t.data
    else Find(cmp, t.mid, w[1..])
  }

  /** The search for `w` follows the path, and `i` characters of `w` are matched on it. */
  ghost predicate Leads(cmp: Comparator, p: Path, w: Word, i: nat)
    decreases p
  {
    match p
    case Top => i == 0
    case Hole(L, _, c, _, _, _, up) => i < |w| && cmp(w[i], c) < 0 && Leads(cmp, up, w, i)
    case Hole(R, _, c, _, _, _, up) => i < |w| && cmp(w[i], c) > 0 && Leads(cmp, up, w, i)
    case Hole(M, _, c, _, _, _, up) => 0 < i < |w| && cmp(w[i - 1], c) == 0 && Leads(cmp, up, w, i - 1)
  }

  lemma {:induction false} FindZip(cmp: Comparator, p: Path, t: Tree, w: Word, i: nat)
    requires Leads(cmp, p, w, i) && i < |w|
    ensures Find(cmp, Zip(p, t), w) == Find(cmp, t, w[i..])
    decreases p
  {
    if p.Hole? {
      FindZip(cmp, p.up, Fill(p, t), w, if p.side == M then i - 1 else i);
      if p.side == M { assert w[i - 1..][1..] == w[i..]; }
    }
  }

  /** `t'` finds `r` for `w` and agrees with `t` on every other word. */
  ghost predicate Updates(cmp: Comparator, t: Tree, t': Tree, w: Word, r: Option<TstEntry>) {
    forall u: Word :: u != [] ==> UpdatesAt(cmp, t, t', w, r, u)
  }

  ghost predicate UpdatesAt(cmp: Comparator, t: Tree, t': Tree, w: Word, r: Option<TstEntry>, u: Word)
    requires u != []
  {
    Find(cmp, t', u) == if SameWord(cmp, u, w) then r else Find(cmp, t, u)
  }

  lemma UpdatesSame(cmp: Comparator, t: Tree, t': Tree, t'': Tree, w: Word, r: Option<TstEntry>)
    requires Updates(cmp, t, t', w, r) && SameFinds(cmp, t', t'')
    ensures Updates(cmp, t, t'', w, r)
  {
    forall u: Word | u != [] ensures UpdatesAt(cmp, t, t'', w, r, u) {
      assert UpdatesAt(cmp, t, t', w, r, u);
    }
  }

  /** Characters that are equal compare alike with every other. */
  lemma EqualChars(cmp: Comparator, x: Char, y: Char, z: Char)
    requires TotalPreorder(cmp) && cmp(x, y) == 0
    ensures cmp(x, z) < 0 <==> cmp(y, z) < 0
    ensures cmp(x, z) > 0 <==> cmp(y, z) > 0
  {
    hide TotalPreorder;
    Flip(cmp, x, y);
    Flip(cmp, x, z);
    Flip(cmp, y, z);
    Flip(cmp, z, x);
    Flip(cmp, z, y);
    if cmp(x, z) <= 0 { Chain(cmp, y, x, z); } else { Chain(cmp, z, x, y); }
    if cmp(y, z) <= 0 { Chain(cmp, x, y, z); } else { Chain(cmp, z, y, x); }
  }

  lemma SameRest(cmp: Comparator, u: Word, w: Word)
    requires u != [] && w != []
    ensures SameWord(cmp, u, w) <==> cmp(u[0], w[0]) == 0 && SameWord(cmp, u[1..], w[1..])
  {
    if cmp(u[0], w[0]) == 0 && SameWord(cmp, u[1..], w[1..]) {
      forall j | 0 <= j < |u| ensures cmp(u[j], w[j]) == 0 {
        if j > 0 { assert cmp(u[1..][j - 1], w[1..][j - 1]) == 0; }
      }
    }
  }

  /** Words that are the same up to equal characters lead to the same entry. */
  lemma {:induction false} FindSame(cmp: Comparator, t: Tree, u: Word, w: Word)
    requires TotalPreorder(cmp) && u != [] && SameWord(cmp, u, w)
    ensures Find(cmp, t, u) == Find(cmp, t, w)
  {
    hide TotalPreorder;
    if t.Node? {
      SameRest(cmp, u, w);
      EqualChars(cmp, u[0], w[0], t.c);
      FindSame(cmp, t.left, u, w);
      FindSame(cmp, t.right, u, w);
      if |u| > 1 { FindSame(cmp, t.mid, u[1..], w[1..]); }
    }
  }

  /** An update below a node is an update of the node. */
  lemma FillUpdate(cmp: Comparator, p: Path, t: Tree, t': Tree, w: Word, r: Option<TstEntry>)
    requires TotalPreorder(cmp) && p.Hole? && w != []
    requires match p.side
      case L => cmp(w[0], p.c) < 0
      case M => |w| > 1 && cmp(w[0], p.c) == 0
      case R => cmp(w[0], p.c) > 0
    requires Updates(cmp, t, t', if p.side == M then w[1..] else w, r)
    ensures Updates(cmp, Fill(p, t), Fill(p, t'), w, r)
  {
    hide TotalPreorder;
    forall u: Word | u != [] ensures UpdatesAt(cmp, Fill(p, t), Fill(p, t'), w, r, u) {
      SameRest(cmp, u, w);
      assert UpdatesAt(cmp, t, t', if p.side == M then w[1..] else w, r, u);
      if cmp(u[0], w[0]) == 0 {
        EqualChars(cmp, u[0], w[0], p.c);
      }
      if p.side == M && cmp(u[0], p.c) == 0 {
        Flip(cmp, p.c, w[0]);
        EqualChars(cmp, u[0], p.c, w[0]);
        if |u| > 1 { assert UpdatesAt(cmp, t, t', w[1..], r, u[1..]); }
      }
    }
  }

  /** An update at the place where the search for `w` has led is an update of the whole tree. */
  lemma {:induction false} ZipUpdate(cmp: Comparator, p: Path, t: Tree, t': Tree, w: Word, i: nat, r: Option<TstEntry>)
    requires TotalPreorder(cmp) && Leads(cmp, p, w, i) && i < |w|
    requires Updates(cmp, t, t', w[i..], r)
    ensures Updates(cmp, Zip(p, t), Zip(p, t'), w, r)
    decreases p
  {
    hide TotalPreorder, Updates;
    if p.Top? {
      assert w[0..] == w;
    } else {
      var i' := if p.side == M then i - 1 else i;
      if p.side == M { assert w[i'..][1..] == w[i..]; }
      FillUpdate(cmp, p, t, t', w[i'..], r);
      ZipUpdate(cmp, p.up, Fill(p, t), Fill(p, t'), w, i', r);
    }
  }

  /** Giving the last node of a word an entry, or taking it away. */
  lemma DataUpdate(cmp: Comparator, t: Tree, w: Word, r: Option<TstEntry>)
    requires TotalPreorder(cmp) && t.Node? && |w| == 1 && cmp(w[0], t.c) == 0
    ensures Updates(cmp, t, t.(data := r), w, r)
  {
    hide TotalPreorder;
    forall u: Word | u != [] ensures UpdatesAt(cmp, t, t.(data := r), w, r, u) {
      if cmp(u[0], w[0]) == 0 { EqualChars(cmp, u[0], w[0], t.c); }
      Flip(cmp, t.c, w[0]);
      if cmp(u[0], t.c) == 0 { EqualChars(cmp, u[0], t.c, w[0]); }
    }
  }

  ghost predicate SameFinds(cmp: Comparator, t: Tree, t': Tree) {
    forall u: Word :: u != [] ==> Find(cmp, t', u) == Find(cmp, t, u)
  }

  /** Two trees that find the same stay so below the same path. */
  lemma {:induction false} ZipSame(cmp: Comparator, p: Path, t: Tree, t': Tree)
    requires SameFinds(cmp, t, t')
    ensures SameFinds(cmp, Zip(p, t), Zip(p, t'))
    decreases p
  {
    if p.Hole? {
      ZipSame(cmp, p.up, Fill(p, t), Fill(p, t'));
    }
  }

  /** A new branch: the letters of a word one below the other. */
  function Branch(ns: seq<Ptr>, w: Word, e: TstEntry): Tree
    requires |ns| == |w| > 0
  {
    if |w| == 1 then Node(ns[0], w[0], Some(e), Nil, Nil, Nil)
    else Node(ns[0], w[0], None, Nil, Branch(ns[1..], w[1..], e), Nil)
  }

  lemma {:induction false} BranchFind(cmp: Comparator, ns: seq<Ptr>, w: Word, e: TstEntry, u: Word)
    requires TotalPreorder(cmp) && |ns| == |w| > 0 && u != []
    ensures Find(cmp, Branch(ns, w, e), u) == if SameWord(cmp, u, w) then Some(e) else None
    decreases |w|
  {
    hide TotalPreorder;
    SameRest(cmp, u, w);
    if |w| > 1 && |u| > 1 { BranchFind(cmp, ns[1..], w[1..], e, u[1..]); }
  }

  lemma BranchUpdate(cmp: Comparator, ns: seq<Ptr>, w: Word, e: TstEntry)
    requires TotalPreorder(cmp) && |ns| == |w| > 0
    ensures Updates(cmp, Nil, Branch(ns, w, e), w, Some(e))
  {
    hide TotalPreorder;
    forall u: Word | u != [] ensures UpdatesAt(cmp, Nil, Branch(ns, w, e), w, Some(e), u) {
      BranchFind(cmp, ns, w, e, u);
    }
  }

  // ---------- Search order ----------

  /** The characters reached from `t` without going to the next letter. */
  ghost function Level(t: Tree): set<Char> {
    if t.Nil? then {} else Level(t.left) + {t.c} + Level(t.right)
  }

  ghost predicate Ordered(cmp: Comparator, t: Tree) {
    t.Node? ==>
      && (forall x :: x in Level(t.left) ==> cmp(x, t.c) < 0)
      && (forall x :: x in Level(t.right) ==> cmp(x, t.c) > 0)
      && Ordered(cmp, t.left) && Ordered(cmp, t.mid) && Ordered(cmp, t.right)
  }

  lemma {:induction false} ZipOrdered(cmp: Comparator, p: Path, t: Tree, t': Tree, w: Word, i: nat)
    requires Leads(cmp, p, w, i) && i < |w|
    requires Ordered(cmp, Zip(p, t)) && Ordered(cmp, t') && Level(t') <= Level(t) + {w[i]}
    ensures Ordered(cmp, Zip(p, t'))
    decreases p
  {
    if p.Hole? {
      ZipOrderedParts(cmp, p.up, Fill(p, t));
      ZipOrdered(cmp, p.up, Fill(p, t), Fill(p, t'), w, if p.side == M then i - 1 else i);
    }
  }

  /** Taking characters away keeps the order. */
  lemma {:induction false} ZipOrderedLess(cmp: Comparator, p: Path, t: Tree, t': Tree)
    requires Ordered(cmp, Zip(p, t)) && Ordered(cmp, t') && Level(t') <= Level(t)
    ensures Ordered(cmp, Zip(p, t'))
    decreases p
  {
    if p.Hole? {
      ZipOrderedParts(cmp, p.up, Fill(p, t));
      ZipOrderedLess(cmp, p.up, Fill(p, t), Fill(p, t'));
    }
  }

  lemma {:induction false} ZipOrderedParts(cmp: Comparator, p: Path, t: Tree)
    requires Ordered(cmp, Zip(p, t))
    ensures Ordered(cmp, t)
    decreases p
  {
    if p.Hole? { ZipOrderedParts(cmp, p.up, Fill(p, t)); }
  }

  lemma {:induction false} BranchOrdered(cmp: Comparator, ns: seq<Ptr>, w: Word, e: TstEntry)
    requires |ns| == |w| > 0
    ensures Ordered(cmp, Branch(ns, w, e)) && Level(Branch(ns, w, e)) == {w[0]}
    decreases |w|
  {
    if |w| > 1 { BranchOrdered(cmp, ns[1..], w[1..], e); }
  }

  // ---------- No dead branches ----------

  predicate Childless(t: Tree)
    requires t.Node?
  {
    t.left.Nil? && t.mid.Nil? && t.right.Nil?
  }

  predicate Trimmed(t: Tree) {
    t.Node? ==> (Childless(t) ==> t.data.Some?) && Trimmed(t.left) && Trimmed(t.mid) && Trimmed(t.right)
  }

  predicate PathTrimmed(p: Path) {
    p.Hole? ==> Trimmed(p.a) && Trimmed(p.b) && PathTrimmed(p.up)
  }

  lemma {:induction false} ZipTrimmed(p: Path, t: Tree)
    ensures t.Node? || p.Top? ==> (Trimmed(Zip(p, t)) <==> Trimmed(t) && PathTrimmed(p))
    ensures Trimmed(Zip(p, t)) ==> Trimmed(t) && PathTrimmed(p)
    decreases p
  {
    if p.Hole? { ZipTrimmed(p.up, Fill(p, t)); }
  }

  // ---------- Counting ----------

  function Count(t: Tree): nat {
    if t.Nil? then 0
    else (if t.data.Some? then 1 else 0) + Count(t.left) + Count(t.mid) + Count(t.right)
  }

  function PathCount(p: Path): nat {
    if p.Top? then 0 else (if p.data.Some? then 1 else 0) + Count(p.a) + Count(p.b) + PathCount(p.up)
  }

  lemma FillCount(p: Path, t: Tree)
    requires p.Hole?
    ensures Count(Fill(p, t)) == (if p.data.Some? then 1 else 0) + Count(p.a) + Count(p.b) + Count(t)
  {
  }

  lemma {:induction false} ZipCount(p: Path, t: Tree)
    ensures Count(Zip(p, t)) == PathCount(p) + Count(t)
    decreases p
  {
    if p.Hole? {
      FillCount(p, t);
      ZipCount(p.up, Fill(p, t));
    }
  }

  lemma {:induction false} BranchTrimmed(ns: seq<Ptr>, w: Word, e: TstEntry)
    requires |ns| == |w| > 0
    ensures Trimmed(Branch(ns, w, e)) && Count(Branch(ns, w, e)) == 1
    decreases |w|
  {
    if |w| > 1 { BranchTrimmed(ns[1..], w[1..], e); }
  }

  ghost function Prefixed(c: Char, ws: set<Word>): set<Word> {
    set w | w in ws :: [c] + w
  }

  /** The words spelled by the nodes that hold an entry. */
  ghost function Keys(t: Tree): set<Word> {
    if t.Nil? then {}
    else Keys(t.left) + Keys(t.right) + (if t.data.Some? then {[t.c]} else {}) + Prefixed(t.c, Keys(t.mid))
  }

  lemma {:induction false} KeyLevel(t: Tree, k: Word)
    requires k in Keys(t)
    ensures k != [] && k[0] in Level(t)
  {
    if k in Keys(t.left) {
      KeyLevel(t.left, k);
    } else if k in Keys(t.right) {
      KeyLevel(t.right, k);
    }
  }

  lemma {:induction false} FoundKey(cmp: Comparator, t: Tree, w: Word) returns (k: Word)
    requires TotalPreorder(cmp) && w != [] && Find(cmp, t, w).Some?
    ensures k in Keys(t) && SameWord(cmp, w, k)
  {
    hide TotalPreorder;
    if cmp(w[0], t.c) < 0 {
      k := FoundKey(cmp, t.left, w);
    } else if cmp(w[0], t.c) > 0 {
      k := FoundKey(cmp, t.right, w);
    } else if |w| == 1 {
      k := [t.c];
    } else {
      var k' := FoundKey(cmp, t.mid, w[1..]);
      k := [t.c] + k';
      assert k[1..] == k';
      SameRest(cmp, w, k);
    }
  }

  lemma {:induction false} KeyFound(cmp: Comparator, t: Tree, w: Word, k: Word)
    requires TotalPreorder(cmp) && Ordered(cmp, t) && k in Keys(t) && SameWord(cmp, w, k)
    ensures w != [] && Find(cmp, t, w).Some?
  {
    hide TotalPreorder;
    KeyLevel(t, k);
    EqualChars(cmp, w[0], k[0], t.c);
    if k in Keys(t.left) {
      KeyLevel(t.left, k);
      KeyFound(cmp, t.left, w, k);
    } else if k in Keys(t.right) {
      KeyLevel(t.right, k);
      KeyFound(cmp, t.right, w, k);
    } else {
      Flip(cmp, t.c, t.c);
      if k in Prefixed(t.c, Keys(t.mid)) {
        var k' :| k' in Keys(t.mid) && k == [t.c] + k';
        assert k[1..] == k';
        KeyLevel(t.mid, k');
        SameRest(cmp, w, k);
        KeyFound(cmp, t.mid, w[1..], k');
      }
    }
  }

  /** The table finds exactly the words it spells, up to equal characters. */
  lemma KeysFound(cmp: Comparator, t: Tree, w: Word)
    requires TotalPreorder(cmp) && Ordered(cmp, t) && w != []
    ensures Find(cmp, t, w).Some? <==> exists k :: k in Keys(t) && SameWord(cmp, w, k)
  {
    if Find(cmp, t, w).Some? {
      var k := FoundKey(cmp, t, w);
    }
    if k :| k in Keys(t) && SameWord(cmp, w, k) {
      KeyFound(cmp, t, w, k);
    }
  }

  /** No two of the words are the same up to equal characters. */
  lemma {:induction false} KeysApart(cmp: Comparator, t: Tree, k: Word, k': Word)
    requires TotalPreorder(cmp) && Ordered(cmp, t)
    requires k in Keys(t) && k' in Keys(t) && SameWord(cmp, k, k')
    ensures k == k'
  {
    hide TotalPreorder;
    KeyLevel(t, k);
    KeyLevel(t, k');
    EqualChars(cmp, k[0], k'[0], t.c);
    Flip(cmp, t.c, t.c);
    SameRest(cmp, k, k');
    KeySide(t, k);
    KeySide(t, k');
    if k in Keys(t.left) {
      KeysApart(cmp, t.left, k, k');
    } else if k in Keys(t.right) {
      KeysApart(cmp, t.right, k, k');
    } else if |k| > 1 {
      KeysApart(cmp, t.mid, k[1..], k'[1..]);
    }
  }

  lemma KeySide(t: Tree, k: Word)
    requires k in Keys(t)
    ensures k != []
    ensures k in Keys(t.left) || k in Keys(t.right) || k[0] == t.c
    ensures k in Keys(t.left) ==> k[0] in Level(t.left)
    ensures k in Keys(t.right) ==> k[0] in Level(t.right)
    ensures k in Keys(t.left) || k in Keys(t.right) || (|k| == 1 && t.data.Some?) || (|k| > 1 && k[1..] in Keys(t.mid))
  {
    KeyLevel(t, k);
    if k in Keys(t.left) { KeyLevel(t.left, k); }
    if k in Keys(t.right) { KeyLevel(t.right, k); }
    if k in Prefixed(t.c, Keys(t.mid)) {
      var k' :| k' in Keys(t.mid) && k == [t.c] + k';
      assert k[1..] == k';
      KeyLevel(t.mid, k');
    }
  }

  lemma {:induction false} PrefixedSize(c: Char, ws: set<Word>)
    ensures |Prefixed(c, ws)| == |ws|
  {
    if w :| w in ws {
      PrefixedSize(c, ws - {w});
      assert Prefixed(c, ws) == Prefixed(c, ws - {w}) + {[c] + w};
      forall v | v in ws - {w} ensures [c] + v != [c] + w {
        assert v == ([c] + v)[1..] && w == ([c] + w)[1..];
      }
    } else {
      assert ws == {};
    }
  }

  /** Every entry belongs to a word of its own. */
  lemma {:induction false} KeysCount(cmp: Comparator, t: Tree)
    requires TotalPreorder(cmp) && Ordered(cmp, t)
    ensures |Keys(t)| == Count(t)
  {
    hide TotalPreorder;
    if t.Node? {
      KeysCount(cmp, t.left);
      KeysCount(cmp, t.mid);
      KeysCount(cmp, t.right);
      PrefixedSize(t.c, Keys(t.mid));
      Flip(cmp, t.c, t.c);
      KeysSeparate(cmp, t);
      DisjointSizes(Keys(t.left), Keys(t.right), if t.data.Some? then {[t.c]} else {}, Prefixed(t.c, Keys(t.mid)));
    }
  }

  lemma LevelSides(cmp: Comparator, t: Tree)
    requires t.Node? && Ordered(cmp, t)
    ensures forall x :: x in Level(t.left) ==> cmp(x, t.c) < 0
    ensures forall x :: x in Level(t.right) ==> cmp(x, t.c) > 0
  {
  }

  lemma SideKey(cmp: Comparator, t: Tree, k: Word)
    requires t.Node? && Ordered(cmp, t)
    ensures k in Keys(t.left) ==> k != [] && cmp(k[0], t.c) < 0
    ensures k in Keys(t.right) ==> k != [] && cmp(k[0], t.c) > 0
  {
    hide Keys, Prefixed;
    LevelSides(cmp, t);
    hide Level, Ordered;
    if k in Keys(t.left) || k in Keys(t.right) {
      KeyLevel(if k in Keys(t.left) then t.left else t.right, k);
      var x := k[0];
      assert x in Level(t.left) || x in Level(t.right);
    }
    if k in Keys(t.right) { KeyLevel(t.right, k); }
  }

  lemma KeysSeparate(cmp: Comparator, t: Tree)
    requires t.Node? && TotalPreorder(cmp) && Ordered(cmp, t)
    ensures Keys(t.left) !! Keys(t.right) !! Prefixed(t.c, Keys(t.mid)) !! (if t.data.Some? then {[t.c]} else {})
  {
    hide TotalPreorder, Keys, Prefixed;
    Flip(cmp, t.c, t.c);
    var (a, b, d) := (Keys(t.left), Keys(t.right), Prefixed(t.c, Keys(t.mid)));
    forall k | k in a ensures k != [] && cmp(k[0], t.c) < 0 { SideKey(cmp, t, k); }
    forall k | k in b ensures k != [] && cmp(k[0], t.c) > 0 { SideKey(cmp, t, k); }
    forall k | k in d ensures |k| > 1 && k[0] == t.c { PrefixedKey(t.c, Keys(t.mid), k, t.mid); }
    SeparateSets(cmp, a, b, d, t.c);
  }

  lemma PrefixedKey(c: Char, ws: set<Word>, k: Word, t: Tree)
    requires k in Prefixed(c, ws) && ws == Keys(t)
    ensures |k| > 1 && k[0] == c
  {
    var k' :| k' in ws && k == [c] + k';
    KeyLevel(t, k');
  }

  lemma SeparateSets(cmp: Comparator, a: set<Word>, b: set<Word>, d: set<Word>, c: Char)
    requires cmp(c, c) == 0
    requires forall k :: k in a ==> k != [] && cmp(k[0], c) < 0
    requires forall k :: k in b ==> k != [] && cmp(k[0], c) > 0
    requires forall k :: k in d ==> |k| > 1 && k[0] == c
    ensures a !! b !! d !! {[c]}
  {
  }

  lemma DisjointSizes<X>(a: set<X>, b: set<X>, c: set<X>, d: set<X>)
    requires a !! b !! d !! c
    ensures |a + b + c + d| == |a| + |b| + |c| + |d|
  {
  }

  // ---------- The empty word ----------

  /** What a key stands for: the empty one is taken for the one-letter word at the root. */
  function Meant(t: Tree, key: Word): (w: Word)
    ensures w != []
  {
    if key != [] then key else [if t.Nil? then NUL else t.c]
  }

  lemma MeantEmpty(cmp: Comparator, t: Tree)
    requires TotalPreorder(cmp)
    ensures Find(cmp, t, Meant(t, [])) == if t.Nil? then None else t.data
  {
    hide TotalPreorder;
    if t.Node? { Flip(cmp, t.c, t.c); }
  }

  /** A word that a non-empty C string can hold. */
  ghost predicate Proper(w: Word) {
    w != [] && NUL !in w
  }

  /** The empty key can be added without touching another word. */
  ghost predicate RootFree(cmp: Comparator, t: Tree) {
    forall x: Char :: x != NUL ==> cmp(x, Meant(t, [])[0]) != 0
  }

  /** Giving the empty key any value leaves every proper word alone exactly if no letter equals the root's. */
  lemma EmptyKeyExact(cmp: Comparator, t: Tree)
    requires TotalPreorder(cmp)
    ensures RootFree(cmp, t) <==>
      forall t', e, u :: Updates(cmp, t, t', Meant(t, []), Some(e)) && Proper(u) ==> Find(cmp, t', u) == Find(cmp, t, u)
  {
    hide TotalPreorder, Updates;
    var m := Meant(t, []);
    if RootFree(cmp, t) {
      forall t', e, u | Updates(cmp, t, t', m, Some(e)) && Proper(u) ensures Find(cmp, t', u) == Find(cmp, t, u) {
        assert UpdatesAt(cmp, t, t', m, Some(e), u) by { UpdatesHere(cmp, t, t', m, Some(e), u); }
        var x := u[0];
        assert x in u;
        assert cmp(x, Meant(t, [])[0]) != 0;
        assert !SameWord(cmp, u, m);
      }
    } else {
      var x: Char :| x != NUL && cmp(x, m[0]) == 0;
      var was := Find(cmp, t, [x]);
      var e := TstEntry(1, [], if was.Some? then was.value.value + 1 else 0);
      var t' := if t.Nil? then Branch([1], m, e) else t.(data := Some(e));
      if t.Nil? {
        BranchUpdate(cmp, [1], m, e);
      } else {
        Flip(cmp, t.c, t.c);
        DataUpdate(cmp, t, m, Some(e));
      }
      assert UpdatesAt(cmp, t, t', m, Some(e), [x]) by { UpdatesHere(cmp, t, t', m, Some(e), [x]); }
      assert SameWord(cmp, [x], m) && Proper([x]);
    }
  }

  /** A table that holds only the word `a`: giving the empty key a value changes what `a` leads to. */
  lemma EmptyKeyClash(cmp: Comparator)
    requires TotalPreorder(cmp)
    ensures var a: Word := [97];
      var t := Branch([1], a, TstEntry(2, a, 5));
      && Meant(t, []) == a && !RootFree(cmp, t) && Find(cmp, t, a) == Some(TstEntry(2, a, 5))
      && Updates(cmp, t, t.(data := Some(TstEntry(2, [], 6))), Meant(t, []), Some(TstEntry(2, [], 6)))
      && Find(cmp, t.(data := Some(TstEntry(2, [], 6))), a) == Some(TstEntry(2, [], 6))
  {
    hide TotalPreorder, Updates;
    var a: Word := [97];
    var t := Branch([1], a, TstEntry(2, a, 5));
    Flip(cmp, 97, 97);
    DataUpdate(cmp, t, a, Some(TstEntry(2, [], 6)));
  }

  lemma UpdatesHere(cmp: Comparator, t: Tree, t': Tree, w: Word, r: Option<TstEntry>, u: Word)
    requires Updates(cmp, t, t', w, r) && u != []
    ensures UpdatesAt(cmp, t, t', w, r, u)
  {
  }
}
