/** The entries of the ternary search tree in memory: every word has an entry of its own. */
module TstData {
  import opened Common
  import opened TstSpec

  /** `CC_TSTTableEntry`, the structure behind an entry pointer. */
  datatype EntryData = EntryData(key: Word, value: Ptr)

  type Entries = map<Ptr, EntryData>

  ghost predicate Stored(en: Entries, d: Option<TstEntry>) {
    d.Some? ==>
      var e := d.value;
      e.at != NULL && e.at in en && en[e.at] == EntryData(e.key, e.value)
  }

  function Own(d: Option<TstEntry>): set<Ptr> {
    if d.None? then {} else {d.value.at}
  }

  /** The addresses of the entries in a subtree. */
  ghost function Slots(t: Tree): set<Ptr> {
    if t.Nil? then {} else Own(t.data) + Slots(t.left) + Slots(t.mid) + Slots(t.right)
  }

  ghost function PathSlots(p: Path): set<Ptr> {
    if p.Top? then {} else Own(p.data) + Slots(p.a) + Slots(p.b) + PathSlots(p.up)
  }

  /** The memory holds the entries of `t`, and no two nodes share one. */
  ghost predicate DataOk(en: Entries, t: Tree) {
    t.Node? ==>
      && Stored(en, t.data) && Own(t.data) !! Slots(t.left) !! Slots(t.mid) !! Slots(t.right)
      && DataOk(en, t.left) && DataOk(en, t.mid) && DataOk(en, t.right)
  }

  ghost predicate PathDataOk(en: Entries, p: Path) {
    p.Hole? ==>
      && Stored(en, p.data) && Own(p.data) !! Slots(p.a) !! Slots(p.b) !! PathSlots(p.up)
      && DataOk(en, p.a) && DataOk(en, p.b) && PathDataOk(en, p.up)
  }

  ghost predicate FocusDataOk(en: Entries, p: Path, t: Tree) {
    DataOk(en, t) && PathDataOk(en, p) && PathSlots(p) !! Slots(t)
  }

  lemma {:induction false} ZipDataOk(en: Entries, p: Path, t: Tree)
    ensures DataOk(en, Zip(p, t)) <==> FocusDataOk(en, p, t)
    decreases p
  {
    if p.Hole? {
      FillDataOk(en, p, t);
      ZipDataOk(en, p.up, Fill(p, t));
    }
  }

  lemma FillDataOk(en: Entries, p: Path, t: Tree)
    requires p.Hole?
    ensures FocusDataOk(en, p, t) <==> FocusDataOk(en, p.up, Fill(p, t))
  {
  }

  lemma {:induction false} SlotsLive(en: Entries, t: Tree)
    requires DataOk(en, t)
    ensures Slots(t) <= en.Keys
  {
    if t.Node? {
      SlotsLive(en, t.left);
      SlotsLive(en, t.mid);
      SlotsLive(en, t.right);
    }
  }

  lemma {:induction false} PathSlotsLive(en: Entries, p: Path)
    requires PathDataOk(en, p)
    ensures PathSlots(p) <= en.Keys
  {
    if p.Hole? {
      SlotsLive(en, p.a);
      SlotsLive(en, p.b);
      PathSlotsLive(en, p.up);
    }
  }

  /** An entry that is not one of the subtree's may be written. */
  lemma {:induction false} DataFrame(en: Entries, t: Tree, at: Ptr, d: EntryData)
    requires DataOk(en, t) && at !in Slots(t)
    ensures DataOk(en[at := d], t)
  {
    if t.Node? {
      DataFrame(en, t.left, at, d);
      DataFrame(en, t.mid, at, d);
      DataFrame(en, t.right, at, d);
    }
  }

  lemma {:induction false} PathDataFrame(en: Entries, p: Path, at: Ptr, d: EntryData)
    requires PathDataOk(en, p) && at !in PathSlots(p)
    ensures PathDataOk(en[at := d], p)
  {
    if p.Hole? {
      DataFrame(en, p.a, at, d);
      DataFrame(en, p.b, at, d);
      PathDataFrame(en, p.up, at, d);
    }
  }

  /** A node's entry is written: the one it has, or a new one. */
  lemma DataSet(en: Entries, p: Path, t: Tree, e: TstEntry)
    requires DataOk(en, Zip(p, t)) && t.Node? && e.at != NULL
    requires if t.data.Some? then e.at == t.data.value.at else e.at !in en
    ensures DataOk(en[e.at := EntryData(e.key, e.value)], Zip(p, t.(data := Some(e))))
  {
    var en', t' := en[e.at := EntryData(e.key, e.value)], t.(data := Some(e));
    ZipDataOk(en, p, t);
    SlotsLive(en, t);
    PathSlotsLive(en, p);
    PathDataFrame(en, p, e.at, EntryData(e.key, e.value));
    DataFrame(en, t.left, e.at, EntryData(e.key, e.value));
    DataFrame(en, t.mid, e.at, EntryData(e.key, e.value));
    DataFrame(en, t.right, e.at, EntryData(e.key, e.value));
    ZipDataOk(en', p, t');
  }

  /** A new branch with a new entry. */
  lemma DataHang(en: Entries, p: Path, ns: seq<Ptr>, w: Word, e: TstEntry)
    requires DataOk(en, Zip(p, Nil)) && |ns| == |w| > 0 && e.at != NULL && e.at !in en
    ensures DataOk(en[e.at := EntryData(e.key, e.value)], Zip(p, Branch(ns, w, e)))
  {
    var en' := en[e.at := EntryData(e.key, e.value)];
    ZipDataOk(en, p, Nil);
    PathSlotsLive(en, p);
    PathDataFrame(en, p, e.at, EntryData(e.key, e.value));
    BranchData(en', ns, w, e);
    ZipDataOk(en', p, Branch(ns, w, e));
  }

  lemma {:induction false} BranchData(en: Entries, ns: seq<Ptr>, w: Word, e: TstEntry)
    requires |ns| == |w| > 0 && Stored(en, Some(e))
    ensures DataOk(en, Branch(ns, w, e)) && Slots(Branch(ns, w, e)) == {e.at}
    decreases |w|
  {
    if |w| > 1 { BranchData(en, ns[1..], w[1..], e); }
  }

  /** Dropping entries from the tree leaves the others in order. */
  lemma DataLess(en: Entries, p: Path, t: Tree, t': Tree)
    requires DataOk(en, Zip(p, t)) && DataOk(en, t') && Slots(t') <= Slots(t)
    ensures DataOk(en, Zip(p, t'))
  {
    ZipDataOk(en, p, t);
    ZipDataOk(en, p, t');
  }

  /** Cutting off a node without an entry. */
  lemma DataCut(en: Entries, p: Path, t: Tree)
    requires DataOk(en, Zip(p, t))
    ensures if p.Hole? then DataOk(en, Zip(p.up, Fill(p, Nil))) else DataOk(en, Zip(Top, Nil))
  {
    DataLess(en, p, t, Nil);
  }

  /** Stepping down does not change the tree. */
  lemma DataDown(p: Path, t: Tree, side: Side)
    requires t.Node?
    ensures Zip(Below(p, t, side), Child(t, side)) == Zip(p, t)
  {
  }

  /** A node gives up its entry. */
  lemma DataDrop(en: Entries, p: Path, t: Tree)
    requires DataOk(en, Zip(p, t)) && t.Node?
    ensures DataOk(en, Zip(p, t.(data := None)))
  {
    ZipDataOk(en, p, t);
    DataLess(en, p, t, t.(data := None));
  }

  lemma NoEntries(en: Entries)
    ensures DataOk(en, Nil)
  {
  }

  /** What a node's entry pointer tells. */
  lemma DataAt(en: Entries, p: Path, t: Tree)
    requires DataOk(en, Zip(p, t))
    ensures t.Node? ==> Stored(en, t.data) && (DataPtr(t.data) == NULL <==> t.data.None?)
    ensures DataOk(en, t)
  {
    ZipDataOk(en, p, t);
  }
}
