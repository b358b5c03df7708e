/** Bit-level arithmetic behind the table's capacity: the `PowerOfTwo` concept
    that the class template demands of its `Size` argument, and the mask
    `h & (size - 1)` that turns a hash into a bucket index. */
module Bitmask {

  /** Bitwise AND of two naturals, taken bit by bit from the least significant one. */
  function BitAnd(a: nat, b: nat): nat
  {
    if a == 0 || b == 0 then 0
    else 2 * BitAnd(a / 2, b / 2) + (if a % 2 == 1 && b % 2 == 1 then 1 else 0)
  }

  /** The compile-time concept on the capacity: nonzero, and `size & (size - 1) == 0`. */
  predicate PowerOfTwo(size: nat)
  {
    size != 0 && BitAnd(size, size - 1) == 0
  }

  /** The arithmetic meaning of "a power of two": 1, or twice a power of two. */
  ghost predicate IsPow2(n: nat)
    decreases n
  {
    n == 1 || (n > 1 && n % 2 == 0 && IsPow2(n / 2))
  }

  lemma {:induction false} AndSelf(a: nat)
    ensures BitAnd(a, a) == a
    decreases a
  {
    if a != 0 {
      AndSelf(a / 2);
    }
  }

  /** The bit test of the concept holds exactly of the powers of two. */
  lemma {:induction false} PowerOfTwoIsPow2(n: nat)
    ensures PowerOfTwo(n) <==> IsPow2(n)
    decreases n
  {
    if n <= 1 {
      assert BitAnd(1, 0) == 0;
    } else if n % 2 == 1 {
      // n - 1 has the same upper bits as n, so n & (n - 1) keeps them all
      assert (n - 1) / 2 == n / 2;
      AndSelf(n / 2);
      assert BitAnd(n, n - 1) == 2 * BitAnd(n / 2, n / 2);
    } else {
      assert (n - 1) / 2 == n / 2 - 1;
      assert BitAnd(n, n - 1) == 2 * BitAnd(n / 2, n / 2 - 1);
      PowerOfTwoIsPow2(n / 2);
    }
  }

  lemma MulMonotone(a: nat, b: nat, n: nat)
    requires a <= b
    ensures a * n <= b * n
  {
    assert b * n == a * n + (b - a) * n;
  }

  /** Euclidean division is unique: `q * n + r` with `r < n` leaves remainder `r`. */
  lemma ModOfDecomposition(x: nat, n: nat, q: nat, r: nat)
    requires 0 <= r < n && x == q * n + r
    ensures x % n == r
  {
    QuotientBound(x, n, x / n, x % n, q, r);
    QuotientBound(x, n, q, r, x / n, x % n);
  }

  lemma QuotientBound(x: nat, n: nat, q1: nat, r1: nat, q2: nat, r2: nat)
    requires r1 < n && r2 < n && x == q1 * n + r1 && x == q2 * n + r2
    ensures q2 <= q1
  {
    if q1 < q2 {
      assert (q1 + 1) * n == q1 * n + n;
      MulMonotone(q1 + 1, q2, n);
    }
  }

  /** Masking with `n - 1` is reduction modulo `n` when `n` is a power of two,
      so the bucket `h & (n - 1)` always lies in `[0, n)`. */
  lemma {:induction false} MaskIsMod(h: nat, n: nat)
    requires PowerOfTwo(n)
    ensures BitAnd(h, n - 1) == h % n
    ensures h % n < n
  {
    PowerOfTwoIsPow2(n);
    MaskIsModPow2(h, n);
  }

  lemma {:induction false} MaskIsModPow2(h: nat, n: nat)
    requires IsPow2(n)
    ensures BitAnd(h, n - 1) == h % n
    decreases n
  {
    if n > 1 {
      var m := n / 2;
      MaskIsModPow2(h / 2, m);
      MaskStep(h, m);
      ModStep(h, m);
    }
  }

  /** The low bit of `h & (2m - 1)` is the low bit of `h`; the rest is `(h / 2) & (m - 1)`. */
  lemma MaskStep(h: nat, m: nat)
    requires m > 0
    ensures BitAnd(h, 2 * m - 1) == 2 * BitAnd(h / 2, m - 1) + h % 2
  {
    assert (2 * m - 1) / 2 == m - 1 && (2 * m - 1) % 2 == 1;
  }

  /** `h mod 2m` from `(h / 2) mod m` and the low bit of `h`. */
  lemma ModStep(h: nat, m: nat)
    requires m > 0
    ensures h % (2 * m) == 2 * ((h / 2) % m) + h % 2
  {
    var q, r := h / 2 / m, (h / 2) % m;
    HalvingDecomposition(h, m, q, r);
    ModOfDecomposition(h, 2 * m, q, 2 * r + h % 2);
  }

  lemma HalvingDecomposition(h: nat, m: nat, q: nat, r: nat)
    requires m > 0 && r < m && h / 2 == q * m + r
    ensures h == q * (2 * m) + (2 * r + h % 2) && 2 * r + h % 2 < 2 * m
  {
    assert q * (2 * m) == 2 * (q * m);
  }

  /** Growing the table by doubling keeps the capacity a power of two. */
  lemma DoublingKeepsPowerOfTwo(n: nat)
    requires PowerOfTwo(n)
    ensures PowerOfTwo(2 * n)
  {
    PowerOfTwoIsPow2(n);
    assert IsPow2(2 * n);
    PowerOfTwoIsPow2(2 * n);
  }
}
