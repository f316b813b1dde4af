/** What the tree table means: an entry sequence strictly sorted by key, and the map it stands for. */
module TreeSpec {
  import opened Common
  import opened TreeModel

  ghost predicate Sorted(cmp: Comparator, es: seq<Entry>) {
    forall i, j :: 0 <= i < j < |es| ==> cmp(es[i].key, es[j].key) < 0
  }

  /** `i` splits the entries into those below `k` and those not below it. */
  ghost predicate SplitsAt(cmp: Comparator, es: seq<Entry>, k: Ptr, i: nat) {
    && i <= |es|
    && (forall j :: 0 <= j < i ==> cmp(k, es[j].key) > 0)
    && (forall j :: i <= j < |es| ==> cmp(k, es[j].key) <= 0)
  }

  /** How many entries come before `k`. */
  function Position(cmp: Comparator, es: seq<Entry>, k: Ptr): (i: nat)
    ensures i <= |es|
  {
    if es == [] || cmp(k, es[0].key) <= 0 then 0 else 1 + Position(cmp, es[1..], k)
  }

  predicate Has(cmp: Comparator, es: seq<Entry>, k: Ptr) {
    var i := Position(cmp, es, k);
    i < |es| && cmp(k, es[i].key) == 0
  }

  function Lookup(cmp: Comparator, es: seq<Entry>, k: Ptr): Option<Ptr> {
    if Has(cmp, es, k) then Some(es[Position(cmp, es, k)].value) else None
  }

  /** Mapping `k` to `v`: an equal key keeps its node and its key and gets the value. */
  function Added(cmp: Comparator, es: seq<Entry>, k: Ptr, v: Ptr, node: Ptr): seq<Entry> {
    var i := Position(cmp, es, k);
    if Has(cmp, es, k) then es[i := es[i].(value := v)] else es[..i] + [Entry(node, k, v)] + es[i..]
  }

  lemma {:induction false} PositionUnique(cmp: Comparator, es: seq<Entry>, k: Ptr, i: nat)
    requires SplitsAt(cmp, es, k, i)
    ensures Position(cmp, es, k) == i
  {
    if i > 0 {
      assert cmp(k, es[0].key) > 0;
      assert SplitsAt(cmp, es[1..], k, i - 1);
      PositionUnique(cmp, es[1..], k, i - 1);
    } else if es != [] {
      assert cmp(k, es[0].key) <= 0;
    }
  }

  lemma {:induction false} PositionSplits(cmp: Comparator, es: seq<Entry>, k: Ptr)
    requires TotalPreorder(cmp) && Sorted(cmp, es)
    ensures SplitsAt(cmp, es, k, Position(cmp, es, k))
  {
    hide TotalPreorder;
    if es == [] {
    } else if cmp(k, es[0].key) <= 0 {
      forall j | 0 <= j < |es| ensures cmp(k, es[j].key) <= 0 {
        if j > 0 { Chain(cmp, k, es[0].key, es[j].key); }
      }
    } else {
      PositionSplits(cmp, es[1..], k);
      assert forall j :: 1 <= j < |es| ==> es[j] == es[1..][j - 1];
    }
  }

  /** An entry whose key compares equal is the one that is found. */
  lemma FoundAt(cmp: Comparator, es: seq<Entry>, k: Ptr, i: nat)
    requires TotalPreorder(cmp) && Sorted(cmp, es)
    requires i < |es| && cmp(k, es[i].key) == 0
    ensures Position(cmp, es, k) == i && Has(cmp, es, k)
    ensures forall j :: 0 <= j < |es| && cmp(k, es[j].key) == 0 ==> j == i
  {
    hide TotalPreorder;
    Flip(cmp, es[i].key, k);
    forall j | 0 <= j < i ensures cmp(k, es[j].key) > 0 {
      Chain(cmp, es[j].key, es[i].key, k);
      Flip(cmp, es[j].key, k);
    }
    forall j | i < j < |es| ensures cmp(k, es[j].key) < 0 {
      Chain(cmp, k, es[i].key, es[j].key);
    }
    PositionUnique(cmp, es, k, i);
  }

  /** A key is found exactly when some entry compares equal, and then with that entry's value. */
  lemma LookupMeans(cmp: Comparator, es: seq<Entry>, k: Ptr, v: Ptr)
    requires TotalPreorder(cmp) && Sorted(cmp, es)
    ensures Lookup(cmp, es, k) == Some(v) <==>
      exists i :: 0 <= i < |es| && cmp(k, es[i].key) == 0 && es[i].value == v
  {
    if i :| 0 <= i < |es| && cmp(k, es[i].key) == 0 && es[i].value == v {
      FoundAt(cmp, es, k, i);
    }
  }

  /** The place of a new key lies strictly between its neighbours. */
  lemma NewKeySplits(cmp: Comparator, es: seq<Entry>, k: Ptr)
    requires TotalPreorder(cmp) && Sorted(cmp, es) && !Has(cmp, es, k)
    ensures var i := Position(cmp, es, k);
      && (forall j :: 0 <= j < i ==> cmp(es[j].key, k) < 0)
      && (forall j :: i <= j < |es| ==> cmp(k, es[j].key) < 0)
  {
    hide TotalPreorder;
    var i := Position(cmp, es, k);
    PositionSplits(cmp, es, k);
    forall j | 0 <= j < i ensures cmp(es[j].key, k) < 0 {
      Flip(cmp, es[j].key, k);
    }
    forall j | i <= j < |es| ensures cmp(k, es[j].key) < 0 {
      if j > i { Chain(cmp, k, es[i].key, es[j].key); }
    }
  }

  lemma AddedSorted(cmp: Comparator, es: seq<Entry>, k: Ptr, v: Ptr, node: Ptr)
    requires TotalPreorder(cmp) && Sorted(cmp, es)
    ensures Sorted(cmp, Added(cmp, es, k, v, node))
    ensures |Added(cmp, es, k, v, node)| == |es| + if Has(cmp, es, k) then 0 else 1
  {
    hide TotalPreorder, Position;
    var i := Position(cmp, es, k);
    var es' := Added(cmp, es, k, v, node);
    if !Has(cmp, es, k) {
      NewKeySplits(cmp, es, k);
      assert forall j :: 0 <= j < |es'| ==>
        es'[j] == if j < i then es[j] else if j == i then Entry(node, k, v) else es[j - 1];
    }
  }

  lemma WithoutSorted(cmp: Comparator, es: seq<Entry>, i: nat)
    requires Sorted(cmp, es) && i < |es|
    ensures Sorted(cmp, Without(es, i))
  {
    var es' := Without(es, i);
    assert forall j :: 0 <= j < |es'| ==> es'[j] == if j < i then es[j] else es[j + 1];
  }

  /** Adding maps `k`, and every key that compares equal, to `v`, and no other key changes. */
  lemma AddedLookup(cmp: Comparator, es: seq<Entry>, k: Ptr, v: Ptr, node: Ptr, q: Ptr)
    requires TotalPreorder(cmp) && Sorted(cmp, es)
    ensures Lookup(cmp, Added(cmp, es, k, v, node), q) ==
      if cmp(q, k) == 0 then Some(v) else Lookup(cmp, es, q)
  {
    hide TotalPreorder, Position;
    var i := Position(cmp, es, k);
    var es' := Added(cmp, es, k, v, node);
    AddedSorted(cmp, es, k, v, node);
    Flip(cmp, k, k);
    assert i < |es'| && es'[i].value == v && cmp(k, es'[i].key) == 0;
    EqualKeys(cmp, q, k, es'[i].key);
    if cmp(q, k) == 0 {
      FoundAt(cmp, es', q, i);
    } else if Has(cmp, es, k) {
      SameLookup(cmp, es, es', q, i, 0);
    } else {
      SameLookup(cmp, es, es', q, i, 1);
    }
  }

  lemma EqualKeys(cmp: Comparator, x: Ptr, y: Ptr, z: Ptr)
    requires TotalPreorder(cmp) && cmp(y, z) == 0
    ensures cmp(x, y) == 0 <==> cmp(x, z) == 0
  {
    hide TotalPreorder;
    Flip(cmp, y, z);
    if cmp(x, y) == 0 { Chain(cmp, x, y, z); }
    if cmp(x, z) == 0 { Chain(cmp, x, z, y); }
  }

  /** Two sequences that agree outside one place agree on every key that is not found there. */
  lemma SameLookup(cmp: Comparator, es: seq<Entry>, es': seq<Entry>, q: Ptr, i: nat, h: int)
    requires TotalPreorder(cmp) && Sorted(cmp, es) && Sorted(cmp, es')
    requires -1 <= h <= 1 && |es'| == |es| + h && i <= |es| && i <= |es'|
    requires forall j :: 0 <= j < i ==> es'[j] == es[j]
    requires i < |es| && h <= 0 ==> cmp(q, es[i].key) != 0
    requires i < |es'| && h >= 0 ==> cmp(q, es'[i].key) != 0
    requires forall j :: (if h == 1 then i else i + 1) <= j < |es| ==> es'[j + h] == es[j]
    ensures Lookup(cmp, es', q) == Lookup(cmp, es, q)
  {
    hide TotalPreorder;
    if Has(cmp, es, q) {
      var j := Position(cmp, es, q);
      FoundAt(cmp, es', q, if j < i then j else j + h);
    } else if Has(cmp, es', q) {
      var j := Position(cmp, es', q);
      FoundAt(cmp, es, q, if j < i then j else j - h);
    }
  }

  /** Removing the entry at `i` unmaps exactly the keys that compare equal to its key. */
  lemma WithoutLookup(cmp: Comparator, es: seq<Entry>, i: nat, q: Ptr)
    requires TotalPreorder(cmp) && Sorted(cmp, es) && i < |es|
    ensures Lookup(cmp, Without(es, i), q) ==
      if cmp(q, es[i].key) == 0 then None else Lookup(cmp, es, q)
  {
    hide TotalPreorder;
    var es' := Without(es, i);
    WithoutSorted(cmp, es, i);
    if cmp(q, es[i].key) == 0 {
      FoundAt(cmp, es, q, i);
    } else {
      SameLookup(cmp, es, es', q, i, -1);
    }
  }
}
