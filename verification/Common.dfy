/** Types shared by every container: opaque pointers, status codes and comparators. */
module Common {

  /** A `void*`: the containers store and compare pointers, never what they point to. */
  type Ptr = int

  const NULL: Ptr := 0

  /** The status codes of `enum cc_stat` that the modelled operations return. */
  datatype Stat =
    | CC_OK
    | CC_ERR_ALLOC
    | CC_ERR_INVALID_CAPACITY
    | CC_ERR_MAX_CAPACITY
    | CC_ERR_KEY_NOT_FOUND
    | CC_ERR_VALUE_NOT_FOUND
    | CC_ERR_OUT_OF_RANGE
    | CC_ITER_END

  datatype Option<+T> = None | Some(value: T)

  /** A three-way comparator, `int (*cmp)(const void*, const void*)`. */
  type Comparator = (Ptr, Ptr) -> int

  predicate Reflexive(cmp: Comparator, x: Ptr) {
    cmp(x, x) == 0
  }

  predicate Antisymmetric(cmp: Comparator, x: Ptr, y: Ptr) {
    cmp(x, y) < 0 <==> cmp(y, x) > 0
  }

  predicate Transitive(cmp: Comparator, x: Ptr, y: Ptr, z: Ptr) {
    cmp(x, y) <= 0 && cmp(y, z) <= 0 ==> cmp(x, z) <= 0
  }

  /** What every container demands of its comparator. */
  ghost predicate TotalPreorder(cmp: Comparator) {
    && (forall x :: Reflexive(cmp, x))
    && (forall x, y :: Antisymmetric(cmp, x, y))
    && (forall x, y, z :: Transitive(cmp, x, y, z))
  }

  lemma Flip(cmp: Comparator, x: Ptr, y: Ptr)
    requires TotalPreorder(cmp)
    ensures cmp(x, x) == 0
    ensures cmp(x, y) < 0 <==> cmp(y, x) > 0
    ensures cmp(x, y) == 0 <==> cmp(y, x) == 0
  {
    assert Reflexive(cmp, x) && Antisymmetric(cmp, x, y) && Antisymmetric(cmp, y, x);
  }

  /** Weak comparison is transitive, and strict if one of the two steps is. */
  lemma Chain(cmp: Comparator, x: Ptr, y: Ptr, z: Ptr)
    requires TotalPreorder(cmp)
    requires cmp(x, y) <= 0 && cmp(y, z) <= 0
    ensures cmp(x, z) <= 0
    ensures cmp(x, z) == 0 <==> cmp(x, y) == 0 && cmp(y, z) == 0
  {
    Flip(cmp, x, y);
    Flip(cmp, y, z);
    Flip(cmp, x, z);
    assert Transitive(cmp, x, y, z) && Transitive(cmp, z, x, y) && Transitive(cmp, y, z, x);
    assert Transitive(cmp, y, x, z) && Transitive(cmp, z, y, x) && Transitive(cmp, x, z, y);
  }

  /** What the allocator hands out: any address that is not in use. */
  method FreshPointer(used: set<Ptr>) returns (p: Ptr)
    ensures p !in used && p != NULL
  {
    FreshExists(used);
    p :| p !in used && p != NULL;
  }

  lemma FreshExists(used: set<Ptr>)
    ensures exists p: Ptr :: p !in used && p != NULL
  {
    var b := Bound(used);
    assert b !in used && b != NULL;
  }

  lemma Bound(used: set<Ptr>) returns (b: Ptr)
    ensures b > NULL && forall p :: p in used ==> p < b
  {
    if p :| p in used {
      b := Bound(used - {p});
      b := if p < b then b else p + 1;
      assert forall q :: q in used ==> q == p || q in used - {p};
    } else {
      b := 1;
    }
  }

  /** The sequence without its element at `i`. */
  function Without<T>(s: seq<T>, i: nat): (r: seq<T>)
    requires i < |s|
    ensures |r| == |s| - 1
  {
    s[..i] + s[i + 1..]
  }

  lemma WithoutLength<T>(s: seq<T>, i: nat)
    requires i < |s|
    ensures |Without(s, i)| == |s| - 1
  {
  }

  lemma WithoutAt<T>(s: seq<T>, i: nat, k: nat)
    requires i < |s| && k < |s| - 1
    ensures k < |Without(s, i)| && Without(s, i)[k] == s[if k < i then k else k + 1]
  {
  }

  /** The sequence with its elements at `i` and `j` exchanged. */
  function Swapped<T>(s: seq<T>, i: nat, j: nat): (r: seq<T>)
    requires i < |s| && j < |s|
    ensures |r| == |s|
  {
    s[i := s[j]][j := s[i]]
  }

  /** What `free` leaves of the memory; only an address in use may be freed. */
  function Freed<T>(mem: map<Ptr, T>, p: Ptr): map<Ptr, T>
    requires p in mem
  {
    mem - {p}
  }

  /** `s` after `n` elements are moved from `source` to `dest`, which may overlap. */
  function MovedBlock<T>(s: seq<T>, dest: nat, source: nat, n: nat): (r: seq<T>)
    requires dest + n <= |s| && source + n <= |s|
    ensures |r| == |s|
  {
    s[..dest] + s[source..source + n] + s[dest + n..]
  }

  function MovedItem<T>(s: seq<T>, dest: nat, source: nat, n: nat, k: nat): T
    requires dest + n <= |s| && source + n <= |s| && k < |s|
  {
    if dest <= k < dest + n then s[source + (k - dest)] else s[k]
  }

  lemma MovedAt<T>(s: seq<T>, dest: nat, source: nat, n: nat, k: nat)
    requires dest + n <= |s| && source + n <= |s| && k < |s|
    ensures MovedBlock(s, dest, source, n)[k] == MovedItem(s, dest, source, n, k)
  {
  }

  lemma MovedNone<T>(s: seq<T>, dest: nat, source: nat)
    requires dest <= |s| && source <= |s|
    ensures MovedBlock(s, dest, source, 0) == s
  {
  }

  /** `memmove` within one buffer. */
  method MemMove<T>(a: array<T>, dest: nat, source: nat, n: nat)
    requires dest + n <= a.Length && source + n <= a.Length
    modifies a
    ensures a[..] == MovedBlock(old(a[..]), dest, source, n)
  {
    forall i | 0 <= i < n {
      a[dest + i] := a[source + i];
    }
  }

  /** `memcpy` between two buffers. */
  method MemCopy<T>(a: array<T>, dest: nat, b: array<T>, source: nat, n: nat)
    requires a != b && dest + n <= a.Length && source + n <= b.Length
    modifies a
    ensures a[..] == old(a[..dest]) + b[source..source + n] + old(a[dest + n..])
  {
    forall i | 0 <= i < n {
      a[dest + i] := b[source + i];
    }
  }

  /** The elements that pass the test, in their order. */
  function Filtered<T>(pred: T -> bool, s: seq<T>): seq<T> {
    if s == [] then [] else (if pred(s[0]) then [s[0]] else []) + Filtered(pred, s[1..])
  }

  lemma {:induction false} FilteredAll<T>(pred: T -> bool, s: seq<T>)
    requires forall i :: 0 <= i < |s| ==> pred(s[i])
    ensures Filtered(pred, s) == s
  {
    if s != [] {
      FilteredAll(pred, s[1..]);
      assert s == [s[0]] + s[1..];
    }
  }
}
