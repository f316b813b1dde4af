/** `size_t` arithmetic on a 64-bit machine: shifts, bitwise operations, powers of two. */
module Words {

  function Pow2(n: nat): (p: nat)
    ensures p >= 1
  {
    if n == 0 then 1 else 2 * Pow2(n - 1)
  }

  const WORD_BITS: nat := 64

  ghost predicate IsPow2(c: nat) {
    exists k: nat :: k < WORD_BITS && c == Pow2(k)
  }

  function And(x: nat, y: nat): nat {
    if x == 0 || y == 0 then 0 else x % 2 * (y % 2) + 2 * And(x / 2, y / 2)
  }

  function Or(x: nat, y: nat): nat
    decreases x + y
  {
    if x == 0 then y else if y == 0 then x
    else (if x % 2 + y % 2 == 0 then 0 else 1) + 2 * Or(x / 2, y / 2)
  }

  function Shr(x: nat, k: nat): nat {
    Quotient(x, Pow2(k))
  }

  function Quotient(x: nat, d: nat): nat
    requires d > 0
  {
    x / d
  }

  lemma {:induction false} Pow2Add(a: nat, b: nat)
    ensures Pow2(a + b) == Pow2(a) * Pow2(b)
  {
    if a > 0 { Pow2Add(a - 1, b); }
  }

  lemma {:induction false} Pow2Mono(a: nat, b: nat)
    requires a <= b
    ensures 1 <= Pow2(a) <= Pow2(b)
    ensures a < b ==> Pow2(a) < Pow2(b)
  {
    if a < b { Pow2Mono(a, b - 1); }
  }

  // ---------- Masks ----------

  lemma ModUnique(x: nat, m: nat, q: nat, r: nat)
    requires m > 0 && x == m * q + r && r < m
    ensures x % m == r && x / m == q
  {
    var d := x / m - q;
    assert m * d == r - x % m;
    assert d >= 1 ==> m * d >= m;
    assert d <= -1 ==> m * d + m <= 0;
  }

  lemma HalfMod(x: nat, n: nat)
    requires n > 0
    ensures x % (2 * n) == x % 2 + 2 * ((x / 2) % n)
  {
    var (q, r) := ((x / 2) / n, (x / 2) % n);
    assert x / 2 == n * q + r;
    assert (2 * n) * q == 2 * (n * q);
    ModUnique(x, 2 * n, q, x % 2 + 2 * r);
  }

  /** Masking with a power of two less one is the remainder. */
  lemma {:induction false} AndMask(x: nat, k: nat)
    ensures And(x, Pow2(k) - 1) == x % Pow2(k)
  {
    if k > 0 {
      var n := Pow2(k - 1);
      assert (Pow2(k) - 1) % 2 == 1 && (Pow2(k) - 1) / 2 == n - 1;
      AndMask(x / 2, k - 1);
      HalfMod(x, n);
    }
  }

  /** The slot of `x` in a table whose capacity is a power of two. */
  function Mask(x: nat, capacity: nat): nat
    requires capacity > 0
  {
    And(x, capacity - 1)
  }

  lemma MaskIsMod(x: nat, capacity: nat)
    requires IsPow2(capacity)
    ensures capacity > 0 && Mask(x, capacity) == x % capacity
    ensures Mask(x, capacity) < capacity
  {
    var k: nat :| k < WORD_BITS && capacity == Pow2(k);
    AndMask(x, k);
  }

  /** Unsigned subtraction wraps around. */
  function Pred(x: nat): nat {
    if x == 0 then Pow2(WORD_BITS) - 1 else x - 1
  }

  lemma OneLess(a: nat, b: nat)
    requires b > 0
    ensures a * b == a * (b - 1) + a
  {
  }

  /** Stepping back from slot zero leads to the last slot. */
  lemma MaskPred(x: nat, capacity: nat)
    requires IsPow2(capacity) && x < capacity
    ensures capacity > 0 && Mask(Pred(x), capacity) == if x == 0 then capacity - 1 else x - 1
  {
    hide Pow2;
    var k: nat :| k < WORD_BITS && capacity == Pow2(k);
    MaskIsMod(Pred(x), capacity);
    if x == 0 {
      Pow2Add(k, WORD_BITS - k);
      var m := Pow2(WORD_BITS - k);
      OneLess(capacity, m);
      ModUnique(Pred(0), capacity, m - 1, capacity - 1);
    } else {
      ModUnique(x - 1, capacity, 0, x - 1);
    }
  }

  lemma DoublePow2(c: nat)
    requires IsPow2(c) && c != MAX_POW_TWO
    ensures IsPow2(2 * c) && 2 * c > c > 0
  {
    var k: nat :| k < WORD_BITS && c == Pow2(k);
    assert k != 63;
    assert 2 * c == Pow2(k + 1);
  }

  // ---------- Rounding up ----------

  lemma {:induction false} OrBounds(x: nat, y: nat, a: nat)
    requires x < Pow2(a) && y < Pow2(a)
    ensures x <= Or(x, y) < Pow2(a) && y <= Or(x, y)
    decreases a
  {
    if x != 0 && y != 0 {
      OrBounds(x / 2, y / 2, a - 1);
    }
  }

  /** The high bits of `x` are not disturbed by a small `y`. */
  lemma {:induction false} OrHigh(h: nat, x: nat, y: nat, a: nat)
    requires x < Pow2(a) && y < Pow2(a)
    ensures Or(h * Pow2(a) + x, y) == h * Pow2(a) + Or(x, y)
    decreases a
  {
    var z := h * Pow2(a) + x;
    if y == 0 {
    } else if z == 0 {
      assert x == 0;
    } else {
      var p := Pow2(a - 1);
      assert h * Pow2(a) == 2 * (h * p);
      assert z % 2 == x % 2 && z / 2 == h * p + x / 2;
      OrHigh(h, x / 2, y / 2, a - 1);
      if x == 0 { assert Or(x / 2, y / 2) == y / 2; }
    }
  }

  /** `x` has `m + 1` bits and its top `s` bits are ones. */
  ghost predicate TopOnes(x: nat, m: nat, s: nat) {
    Pow2(m + 1) - (if s > m then 1 else Pow2(m + 1 - s)) <= x < Pow2(m + 1)
  }

  lemma MulMono(a: nat, b: nat, c: nat)
    requires a <= b
    ensures a * c <= b * c && c * a <= c * b
  {
  }

  lemma QuotientBounds(x: nat, y: nat, s: nat, lo: nat, hi: nat)
    requires y * s <= x < y * s + s && lo * s <= x < hi * s
    ensures lo <= y < hi
  {
    if y >= hi { MulMono(hi, y, s); }
    if y + 1 <= lo { MulMono(y + 1, lo, s); }
  }

  /** One step of the cascade `n |= n >> s` doubles the run of ones. */
  lemma SmearStep(x: nat, m: nat, s: nat)
    requires TopOnes(x, m, s) && s >= 1
    ensures TopOnes(Or(x, Shr(x, s)), m, 2 * s)
  {
    if s > m {
      Pow2Mono(m + 1, s);
      hide Pow2;
      ModUnique(x, Pow2(s), 0, x);
    } else {
      var a := m + 1 - s;
      Pow2Add(a, s);
      Pow2Mono(1, s);
      SmearLong(x, m, s, a, Pow2(a), Pow2(s));
    }
  }

  lemma SmearLong(x: nat, m: nat, s: nat, a: nat, pa: nat, ps: nat)
    requires a >= 1 && m + 1 == a + s && pa == Pow2(a) && ps == Pow2(s) >= 1 && Pow2(m + 1) == pa * ps
    requires pa * ps - pa <= x < pa * ps
    ensures TopOnes(Or(x, Shr(x, s)), m, 2 * s)
  {
    hide Pow2, Or;
    var pb := if s >= a then 1 else Pow2(a - s);
    SmearLow(x, a, s, pa, ps, pb);
    var y := Shr(x, s);
    var high := SplitHigh(x, pa, ps);
    DivBounds(x, ps);
    QuotientBounds(x, y, ps, pa - pb, pa);
    OrHigh(ps - 1, x - high, y, a);
    OrBounds(x - high, y, a);
  }

  lemma SplitHigh(x: nat, pa: nat, ps: nat) returns (high: nat)
    requires ps >= 1 && pa * ps - pa <= x < pa * ps
    ensures high == (ps - 1) * pa == pa * ps - pa && high <= x < high + pa
  {
    high := (ps - 1) * pa;
  }

  lemma DivBounds(x: nat, s: nat)
    requires s >= 1
    ensures (x / s) * s <= x < (x / s) * s + s
  {
  }

  lemma SmearLow(x: nat, a: nat, s: nat, pa: nat, ps: nat, pb: nat)
    requires pa == Pow2(a) && ps == Pow2(s) && pb == (if s >= a then 1 else Pow2(a - s))
    requires pa * ps - pa <= x
    ensures 1 <= pb <= pa && (pa - pb) * ps <= x
  {
    if s >= a {
      Pow2Mono(a, s);
    } else {
      Pow2Add(a - s, s);
      Pow2Mono(a - s, a);
    }
    hide Pow2;
    Distribute(pa, pb, ps);
  }

  lemma Distribute(a: nat, b: nat, s: nat)
    ensures (a - b) * s == a * s - b * s
  {
  }

  /** The number of bits of a positive number. */
  lemma {:induction false} TopBit(x: nat, k: nat) returns (m: nat)
    requires 1 <= x < Pow2(k)
    ensures m < k && Pow2(m) <= x < Pow2(m + 1)
  {
    if x >= Pow2(k - 1) { m := k - 1; } else { m := TopBit(x, k - 1); }
  }

  const MAX_POW_TWO: nat := Pow2(63)

  const MAX_ELEMENTS: nat := Pow2(WORD_BITS) - 2

  /** The expansion factor that a configured one stands for. */
  function ExpFactor(configured: real): (x: real)
    ensures x > 1.0
  {
    if configured <= 1.0 then 2.0 else configured
  }

  /** The capacities that a growing buffer cannot be created with. */
  predicate RefusesCapacity(configured: real, capacity: nat) {
    capacity == 0 || ExpFactor(configured) >= (MAX_ELEMENTS / capacity) as real
  }

  /** `k` buffers of the capacity fit, and `k` is more than the factor. */
  ghost predicate LeavesRoom(x: real, capacity: nat, k: nat) {
    k as real > x && k * capacity <= MAX_ELEMENTS
  }

  /** A capacity is accepted exactly if it is not zero and growing by the factor cannot pass the largest one. */
  lemma RefusesExact(configured: real, capacity: nat)
    ensures var x := if configured <= 1.0 then 2.0 else configured;
      !RefusesCapacity(configured, capacity) <==> capacity > 0 && exists k: nat :: LeavesRoom(x, capacity, k)
  {
    hide Pow2;
    if capacity > 0 {
      var q := Quotient(MAX_ELEMENTS, capacity);
      DivBounds(MAX_ELEMENTS, capacity);
      if k: nat :| LeavesRoom(ExpFactor(configured), capacity, k) {
        if k >= q + 1 { MulMono(q + 1, k, capacity); }
      }
      if !RefusesCapacity(configured, capacity) { assert LeavesRoom(ExpFactor(configured), capacity, q); }
    }
  }

  /** An accepted capacity is at most half the largest one. */
  lemma AcceptedCapacity(configured: real, capacity: nat)
    requires !RefusesCapacity(configured, capacity)
    ensures 0 < capacity && 2 * capacity <= MAX_ELEMENTS
  {
    var q := MAX_ELEMENTS / capacity;
    assert q >= 2;
    assert MAX_ELEMENTS == q * capacity + MAX_ELEMENTS % capacity;
    MulMono(2, q, capacity);
  }

  ghost predicate LeastPow2(n: nat, r: nat) {
    IsPow2(r) && n <= r && forall j: nat :: n <= Pow2(j) ==> r <= Pow2(j)
  }

  lemma LeastPow2Above(n: nat, m: nat)
    requires Pow2(m) < n <= Pow2(m + 1) && m + 1 < WORD_BITS
    ensures LeastPow2(n, Pow2(m + 1))
  {
    forall j: nat | n <= Pow2(j) ensures Pow2(m + 1) <= Pow2(j) {
      if j <= m { Pow2Mono(j, m); } else { Pow2Mono(m + 1, j); }
    }
  }

  /** Zero stays zero; a positive number has its top `s` bits set. */
  ghost predicate Smeared(x: nat, m: nat, s: nat) {
    x == 0 || TopOnes(x, m, s)
  }

  lemma SmearAny(x: nat, m: nat, s: nat)
    requires Smeared(x, m, s) && s >= 1
    ensures Smeared(Or(x, Shr(x, s)), m, 2 * s) && (Or(x, Shr(x, s)) == 0 <==> x == 0)
  {
    if x == 0 {
      hide Pow2;
      ModUnique(0, Pow2(s), 0, 0);
    } else {
      SmearStep(x, m, s);
      OrAtLeast(x, Shr(x, s));
    }
  }

  lemma {:induction false} OrAtLeast(x: nat, y: nat)
    ensures x <= Or(x, y)
    decreases x + y
  {
    if x != 0 && y != 0 { OrAtLeast(x / 2, y / 2); }
  }

  lemma SmallPow2()
    ensures LeastPow2(0, 1) && LeastPow2(1, 1)
  {
    assert 1 == Pow2(0);
  }

  lemma SmearDone(n: nat, x: nat, m: nat)
    requires n >= 2 && TopOnes(x, m, 64) && m < 63 && Pow2(m) <= n - 1 < Pow2(m + 1)
    ensures LeastPow2(n, x + 1)
  {
    hide Pow2;
    LeastPow2Above(n, m);
  }

  /** `upper_pow_two` and `round_pow_two`. */
  method UpperPowTwo(n0: nat) returns (n: nat)
    ensures n0 < MAX_POW_TWO ==> LeastPow2(n0, n)
    ensures n0 >= MAX_POW_TWO ==> n == MAX_POW_TWO
  {
    hide Pow2, Or, Shr;
    n := n0;
    if n >= MAX_POW_TWO {
      return MAX_POW_TWO;
    }
    SmallPow2();
    if n == 0 {
      return 1;
    }
    n := n - 1;
    ghost var m := 0;
    if n > 0 {
      m := TopBit(n, 63);
      FirstSmear(n, m);
    }
    SmearAny(n, m, 1);
    n := Or(n, Shr(n, 1));
    SmearAny(n, m, 2);
    n := Or(n, Shr(n, 2));
    SmearAny(n, m, 4);
    n := Or(n, Shr(n, 4));
    SmearAny(n, m, 8);
    n := Or(n, Shr(n, 8));
    SmearAny(n, m, 16);
    n := Or(n, Shr(n, 16));
    SmearAny(n, m, 32);
    n := Or(n, Shr(n, 32));
    if n0 > 1 { SmearDone(n0, n, m); }
    n := n + 1;
  }

  lemma FirstSmear(x: nat, m: nat)
    requires Pow2(m) <= x < Pow2(m + 1)
    ensures TopOnes(x, m, 1)
  {
  }
}
