/** Remainders of sums. */
module Modulo {

  lemma ModUnique(x: nat, n: nat, q: nat, r: nat)
    requires n > 0 && x == n * q + r && r < n
    ensures x % n == r
  {
    var q', r' := x / n, x % n;
    assert n * q' + r' == x;
    if q > q' {
      MulGap(n, q', q);
    } else if q < q' {
      MulGap(n, q, q');
    }
  }

  lemma QuotientUnique(x: nat, n: nat, q: nat, r: nat)
    requires n > 0 && x == n * q + r && r < n
    ensures x / n == q
  {
    var q' := x / n;
    assert n * q' + x % n == x;
    if q > q' {
      MulGap(n, q', q);
    } else if q < q' {
      MulGap(n, q, q');
    }
  }

  lemma {:induction false} MulGap(n: nat, a: nat, b: nat)
    requires a < b
    ensures n * a + n <= n * b
    decreases b
  {
    MulStep(n, b - 1);
    if a < b - 1 { MulGap(n, a, b - 1); }
  }

  lemma MulStep(n: nat, a: nat)
    ensures n * (a + 1) == n * a + n
  {
  }

  lemma ModAdd(a: nat, d: nat, n: nat)
    requires d < n
    ensures (a + d) % n == if a % n + d < n then a % n + d else a % n + d - n
  {
    var q, r := a / n, a % n;
    assert a == n * q + r;
    if r + d < n {
      ModUnique(a + d, n, q, r + d);
    } else {
      assert n * (q + 1) == n * q + n;
      ModUnique(a + d, n, q + 1, r + d - n);
    }
  }

  /** Moving an index that was already reduced. */
  lemma ModShift(a: nat, d: nat, n: nat)
    requires n > 0
    ensures (a % n + d) % n == (a + d) % n
  {
    var r := a % n;
    var e, m := (r + d) / n, (r + d) % n;
    ShiftedQuotient(a, d, n, a / n, r, e, m);
    ModUnique(a + d, n, a / n + e, m);
  }

  lemma ShiftedQuotient(a: nat, d: nat, n: nat, q: nat, r: nat, e: nat, m: nat)
    requires a == n * q + r && r + d == n * e + m
    ensures a + d == n * (q + e) + m
  {
    assert n * (q + e) == n * q + n * e;
  }

  lemma ModPlus(a: nat, n: nat)
    requires n > 0
    ensures (a + n) % n == a % n
  {
    MulStep(n, a / n);
    ModUnique(a + n, n, a / n + 1, a % n);
  }
}
