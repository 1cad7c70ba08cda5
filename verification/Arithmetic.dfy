/** Floor and ceiling division as Galois connections, and the few nonlinear facts the rest needs. */
module Arithmetic {
  lemma MulLe(a: int, b: int, c: int)
    requires a <= b && 0 <= c
    ensures a * c <= b * c
  {}

  lemma MulLt(a: int, b: int, c: int)
    requires a < b && 0 < c
    ensures a * c < b * c
  {}

  lemma MulBounds(a: int, aMax: int, b: int, bMax: int)
    requires 0 <= a <= aMax && 0 <= b <= bMax
    ensures 0 <= a * b <= aMax * bMax
  {
    MulLe(a, aMax, b);
    MulLe(b, bMax, aMax);
    MulLe(0, a, b);
  }

  lemma MulLeCancel(a: int, b: int, c: int)
    requires a * c <= b * c && 0 < c
    ensures a <= b
  {
    if b < a { MulLt(b, a, c); }
  }

  function CeilDiv(n: nat, d: nat): nat
    requires d > 0
  {
    if n % d == 0 then n / d else n / d + 1
  }

  lemma DivMod(n: int, d: int)
    requires 0 < d
    ensures n == (n / d) * d + n % d && 0 <= n % d < d
  {}

  /** `x <= floor(n / d)` exactly when `x * d <= n`. */
  lemma FloorGalois(n: int, d: int, x: int)
    requires 0 < d
    ensures x <= n / d <==> x * d <= n
  {
    DivMod(n, d);
    if x <= n / d {
      MulLe(x, n / d, d);
    } else {
      MulLe(n / d + 1, x, d);
    }
  }

  /** `ceil(n / d) <= x` exactly when `n <= x * d`. */
  lemma CeilGalois(n: nat, d: nat, x: int)
    requires 0 < d
    ensures CeilDiv(n, d) <= x <==> n <= x * d
  {
    DivMod(n, d);
    if CeilDiv(n, d) <= x {
      MulLe(CeilDiv(n, d), x, d);
    } else {
      MulLe(x, CeilDiv(n, d) - 1, d);
    }
  }

  lemma FloorBounds(n: int, d: int)
    requires 0 < d
    ensures (n / d) * d <= n < (n / d + 1) * d
    ensures 0 <= n ==> 0 <= n / d
  {
    DivMod(n, d);
    FloorGalois(n, d, 0);
  }

  lemma CeilBounds(n: nat, d: nat)
    requires 0 < d
    ensures n <= CeilDiv(n, d) * d < n + d
  {
    DivMod(n, d);
  }

  lemma FloorMono(m: int, n: int, d: int)
    requires 0 < d && m <= n
    ensures m / d <= n / d
  {
    FloorBounds(m, d);
    FloorGalois(n, d, m / d);
  }

  lemma CeilMono(m: nat, n: nat, d: nat)
    requires 0 < d && m <= n
    ensures CeilDiv(m, d) <= CeilDiv(n, d)
  {
    CeilBounds(n, d);
    CeilGalois(m, d, CeilDiv(n, d));
  }

  /** The quotient and remainder are the only ones. */
  lemma DivModUnique(n: int, d: int, q: int, r: int)
    requires 0 <= r < d && n == q * d + r
    ensures q == n / d && r == n % d
  {
    FloorGalois(n, d, q);
    FloorGalois(n, d, q + 1);
  }

  /** A floored and a ceiled quotient of the same fraction are at most one apart. */
  lemma CeilFloorGap(n: nat, d: nat)
    requires 0 < d
    ensures n / d <= CeilDiv(n, d) <= n / d + 1
    ensures CeilDiv(n, d) == n / d <==> n % d == 0
  {}

  function Pow2(k: nat): (p: nat)
    ensures p >= 1
  {
    if k == 0 then 1 else 2 * Pow2(k - 1)
  }

  lemma {:induction false} Pow2Add(i: nat, j: nat)
    ensures Pow2(i + j) == Pow2(i) * Pow2(j)
  {
    if i > 0 { Pow2Add(i - 1, j); }
  }

  /** Dropping one more bit: the next prefix doubles the last and appends that bit. */
  lemma HalvePrefix(n: nat, p: nat)
    requires p > 0
    ensures n / p == 2 * (n / (2 * p)) + (n / p) % 2
  {
    var q, r := n / (2 * p), n % (2 * p);
    DivMod(n, 2 * p);
    assert n == (2 * q) * p + r by { assert q * (2 * p) == (2 * q) * p; }
    if r < p {
      DivModUnique(n, p, 2 * q, r);
    } else {
      DivModUnique(n, p, 2 * q + 1, r - p);
    }
  }
}
