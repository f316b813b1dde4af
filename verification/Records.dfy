/** Fixed-size records in a byte buffer: which bytes make up which record. */
module Records {
  import opened Common

  type Byte = x: int | 0 <= x < 256

  type Record = seq<Byte>

  lemma Scale(a: nat, b: nat, k: nat)
    requires a <= b
    ensures k * a <= k * b && (a < b ==> k * a + k <= k * b) && k * (b - a) == k * b - k * a
  {
    var d := b - a;
    assert k * b == k * a + k * d;
    if d >= 1 { assert k * d == k + k * (d - 1); }
  }

  /** The record at place `i`. */
  function RecordAt(buf: seq<Byte>, len: nat, i: nat): (r: Record)
    requires len * i + len <= |buf|
    ensures |r| == len
  {
    buf[len * i..len * i + len]
  }

  lemma Fits(size: int, len: nat, n: nat, i: nat)
    requires size == len * n && i < n
    ensures 0 <= len * i && len * i + len <= size
  {
    Scale(i, n, len);
  }

  /** The buffer seen as `n` records. */
  function RecordsOf(buf: seq<Byte>, len: nat, n: nat): (rs: seq<Record>)
    requires |buf| == len * n
    ensures |rs| == n && forall i :: 0 <= i < n ==> |rs[i]| == len
  {
    seq(n, i requires 0 <= i < n => Fits(|buf|, len, n, i); RecordAt(buf, len, i))
  }

  lemma RecordsAt(buf: seq<Byte>, len: nat, n: nat, i: nat)
    requires |buf| == len * n && i < n
    ensures len * i + len <= |buf| && RecordsOf(buf, len, n)[i] == RecordAt(buf, len, i)
  {
    Fits(|buf|, len, n, i);
  }

  /** Moving a block of bytes that is a block of records moves those records. */
  lemma MovedRecords(buf: seq<Byte>, len: nat, n: nat, a: nat, b: nat, m: nat)
    requires |buf| == len * n && a + m <= n && b + m <= n
    ensures len * a + len * m <= |buf| && len * b + len * m <= |buf|
    ensures RecordsOf(MovedBlock(buf, len * a, len * b, len * m), len, n) == MovedBlock(RecordsOf(buf, len, n), a, b, m)
  {
    BlockFits(len, n, a, m);
    BlockFits(len, n, b, m);
    var buf', rs := MovedBlock(buf, len * a, len * b, len * m), RecordsOf(buf, len, n);
    var rs', rs'' := RecordsOf(buf', len, n), MovedBlock(rs, a, b, m);
    hide MovedBlock, RecordsOf;
    forall k | 0 <= k < n ensures rs'[k] == rs''[k] {
      MovedAt(rs, a, b, m, k);
      MovedRecord(buf, len, n, a, b, m, k);
    }
  }

  lemma BlockFits(len: nat, n: nat, a: nat, m: nat)
    requires a + m <= n
    ensures len * a + len * m <= len * n
  {
    assert len * (a + m) == len * a + len * m;
    Scale(a + m, n, len);
  }

  lemma MovedRecord(buf: seq<Byte>, len: nat, n: nat, a: nat, b: nat, m: nat, k: nat)
    requires |buf| == len * n && a + m <= n && b + m <= n && k < n
    requires len * a + len * m <= |buf| && len * b + len * m <= |buf|
    ensures RecordsOf(MovedBlock(buf, len * a, len * b, len * m), len, n)[k]
      == RecordsOf(buf, len, n)[if a <= k < a + m then b + (k - a) else k]
  {
    hide MovedBlock, RecordsOf;
    BlockPlace(len, a, b, m, k);
    MovedRecordBytes(buf, len, n, len * a, len * b, len * m, k, if a <= k < a + m then b + (k - a) else k);
  }

  lemma MovedRecordBytes(buf: seq<Byte>, len: nat, n: nat, dest: nat, source: nat, m: nat, k: nat, k': nat)
    requires |buf| == len * n && dest + m <= |buf| && source + m <= |buf| && k < n && k' < n
    requires (dest <= len * k && len * k + len <= dest + m && len * k' - source == len * k - dest)
      || (k' == k && (len * k + len <= dest || len * k >= dest + m))
    ensures RecordsOf(MovedBlock(buf, dest, source, m), len, n)[k] == RecordsOf(buf, len, n)[k']
  {
    hide MovedBlock, RecordsOf;
    RecordsAt(MovedBlock(buf, dest, source, m), len, n, k);
    RecordsAt(buf, len, n, k');
    MovedSlice(buf, dest, source, m, len * k, len * k', len);
  }

  /** Where a record lies with respect to a block that moves from `b` to `a`. */
  lemma BlockPlace(len: nat, a: nat, b: nat, m: nat, k: nat)
    ensures if a <= k < a + m
      then len * a <= len * k && len * k + len <= len * a + len * m
        && len * (b + (k - a)) - len * b == len * k - len * a
      else len * k + len <= len * a || len * k >= len * a + len * m
  {
    assert len * (a + m) == len * a + len * m;
    if k < a {
      Scale(k, a, len);
    } else if k < a + m {
      Scale(a, k, len);
      Scale(k, a + m, len);
      assert len * (b + (k - a)) == len * b + len * (k - a);
    } else {
      Scale(a + m, k, len);
    }
  }

  /** A slice that lies within a moved block, or apart from it. */
  lemma MovedSlice(buf: seq<Byte>, dest: nat, source: nat, m: nat, place: nat, from: nat, len: nat)
    requires dest + m <= |buf| && source + m <= |buf| && place + len <= |buf| && from + len <= |buf|
    requires (dest <= place && place + len <= dest + m && from - source == place - dest)
      || (from == place && (place + len <= dest || place >= dest + m))
    ensures MovedBlock(buf, dest, source, m)[place..place + len] == buf[from..from + len]
  {
    hide MovedBlock;
    var (r, r') := (MovedBlock(buf, dest, source, m)[place..place + len], buf[from..from + len]);
    forall j | 0 <= j < len ensures r[j] == r'[j] {
      MovedAt(buf, dest, source, m, place + j);
    }
  }

  /** Overwriting the bytes of one record. */
  lemma StoredRecord(buf: seq<Byte>, len: nat, n: nat, i: nat, r: Record)
    requires |buf| == len * n && i < n && |r| == len
    ensures len * i + len <= |buf|
    ensures var buf' := buf[..len * i] + r + buf[len * i + len..];
      |buf'| == |buf| && RecordsOf(buf', len, n) == RecordsOf(buf, len, n)[i := r]
  {
    Fits(|buf|, len, n, i);
    var buf' := buf[..len * i] + r + buf[len * i + len..];
    var rs, rs' := RecordsOf(buf, len, n), RecordsOf(buf', len, n);
    hide RecordsOf;
    forall k | 0 <= k < n ensures rs'[k] == rs[i := r][k] {
      RecordsAt(buf, len, n, k);
      RecordsAt(buf', len, n, k);
      if k < i { Scale(k, i, len); } else { Scale(i, k, len); }
    }
  }

  /** The buffer after the first `i` bytes of the records at bytes `x` and `y` have changed places. */
  function SwappedBytes(b: seq<Byte>, x: nat, y: nat, i: nat): (r: seq<Byte>)
    requires x + i <= |b| && y + i <= |b|
    ensures |r| == |b|
  {
    seq(|b|, k requires 0 <= k < |b| =>
      if x <= k < x + i then b[y + (k - x)] else if y <= k < y + i then b[x + (k - y)] else b[k])
  }

  lemma SwappedStep(b: seq<Byte>, x: nat, y: nat, i: nat, len: nat)
    requires i < len && x + len <= |b| && y + len <= |b| && (x == y || x + len <= y || y + len <= x)
    ensures var s := SwappedBytes(b, x, y, i);
      s[x + i := s[y + i]][y + i := s[x + i]] == SwappedBytes(b, x, y, i + 1)
  {
  }

  lemma SwappedRecords(b: seq<Byte>, len: nat, n: nat, i: nat, j: nat)
    requires |b| == len * n && i < n && j < n
    ensures len * i + len <= |b| && len * j + len <= |b|
    ensures var rs := RecordsOf(b, len, n);
      RecordsOf(SwappedBytes(b, len * i, len * j, len), len, n) == rs[i := rs[j]][j := rs[i]]
  {
    Fits(|b|, len, n, i);
    Fits(|b|, len, n, j);
    var rs := RecordsOf(b, len, n);
    StoredRecord(b, len, n, i, rs[j]);
    var b1 := b[..len * i] + rs[j] + b[len * i + len..];
    StoredRecord(b1, len, n, j, rs[i]);
    if i < j { Scale(i, j, len); } else { Scale(j, i, len); }
    SwappedAsStores(b, len * i, len * j, len, rs[i], rs[j]);
  }

  lemma SwappedAsStores(b: seq<Byte>, x: nat, y: nat, len: nat, r: Record, q: Record)
    requires x + len <= |b| && y + len <= |b| && (x == y || x + len <= y || y + len <= x)
    requires r == b[x..x + len] && q == b[y..y + len]
    ensures var b1 := b[..x] + q + b[x + len..]; SwappedBytes(b, x, y, len) == b1[..y] + r + b1[y + len..]
  {
  }

  // ---------- Filtering from the back ----------

  /** What a pass from the back has kept of the records from `i` on. */
  lemma {:induction false} FilteredSuffix(pred: Record -> bool, rs: seq<Record>, i: nat)
    requires i < |rs|
    ensures Filtered(pred, rs[i..]) == (if pred(rs[i]) then [rs[i]] else []) + Filtered(pred, rs[i + 1..])
  {
    assert rs[i..][1..] == rs[i + 1..];
  }

  /** Records not yet seen, a cluster to drop, and the records kept so far. */
  ghost predicate Clustered(all: seq<Record>, seen: seq<Record>, pre: nat, rm: nat, kept: seq<Record>) {
    && pre <= |seen| && pre + rm + |kept| <= |all|
    && all[..pre] == seen[..pre] && all[pre + rm..pre + rm + |kept|] == kept
  }

  /** Closing the gap. */
  lemma GapClosed(all: seq<Record>, seen: seq<Record>, pre: nat, rm: nat, kept: seq<Record>)
    requires Clustered(all, seen, pre, rm, kept)
    ensures Clustered(MovedBlock(all, pre, pre + rm, |kept|), seen, pre, 0, kept)
  {
  }

  /** One more record from the unseen ones, to keep or to drop. */
  lemma ClusterGrows(all: seq<Record>, seen: seq<Record>, pre: nat, rm: nat, kept: seq<Record>)
    requires Clustered(all, seen, pre, rm, kept) && pre > 0
    ensures Clustered(all, seen, pre - 1, rm + 1, kept)
    ensures rm == 0 ==> Clustered(all, seen, pre - 1, 0, [seen[pre - 1]] + kept)
  {
    assert all[..pre - 1] == all[..pre][..pre - 1] == seen[..pre][..pre - 1];
    assert all[pre - 1] == all[..pre][pre - 1] == seen[pre - 1];
    if rm == 0 { assert all[pre - 1..pre + |kept|] == [all[pre - 1]] + all[pre..pre + |kept|]; }
  }

  lemma NothingKept(all: seq<Record>, seen: seq<Record>, pre: nat, rm: nat)
    requires Clustered(all, seen, pre, rm, [])
    ensures Clustered(all, seen, pre, 0, [])
  {
  }
}
