/** Arithmetic that the solver needs told: products, quotients and remainders. */
module Numbers {

  const TWO_TO_THE_64: nat := 0x1_0000_0000_0000_0000

  const U64_MAX: nat := TWO_TO_THE_64 - 1

  function Min(a: nat, b: nat): nat { if a <= b then a else b }

  function Max(a: nat, b: nat): nat { if a >= b then a else b }

  lemma Scales(a: nat, b: nat, c: nat)
    ensures a <= b ==> a * c <= b * c
  {}

  lemma Multiples(d: int, m: nat)
    ensures d >= 1 ==> d * m >= m
    ensures d <= -1 ==> d * m <= -(m as int)
  {}

  /** Quotient and remainder are unique. */
  lemma DivModIs(x: nat, m: nat, q: nat, r: nat)
    requires x == q * m + r && r < m
    ensures x % m == r && x / m == q
  {
    var d: int := q - x / m;
    assert x == (x / m) * m + x % m;
    assert d * m == x % m - r;
    Multiples(d, m);
  }

  lemma NotAbove(n: nat, q: nat, m: nat, r: nat)
    requires r < m && n * m <= q * m + r
    ensures n <= q
  {
    Scales(q + 1, n, m);
    assert (q + 1) * m == q * m + m;
  }

  lemma DivGrows(a: nat, b: nat, m: nat)
    requires a <= b && m > 0
    ensures a / m <= b / m
  {
    assert a == (a / m) * m + a % m && b == (b / m) * m + b % m;
    NotAbove(a / m, b / m, m, b % m);
  }

  /** What fits `n` times into `len` fits at most `len / m` times. */
  lemma Fits(n: nat, m: nat, len: nat)
    requires m > 0 && n * m <= len
    ensures n <= len / m && n <= len
  {
    Scales(1, m, n);
    assert len == (len / m) * m + len % m;
    NotAbove(n, len / m, m, len % m);
  }
}
