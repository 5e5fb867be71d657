/** Facts about remainders that the solver does not find by itself. */
module Arithmetic {
  function Power(base: nat, k: nat): (r: nat)
    ensures base > 0 ==> r > 0
  {
    if k == 0 then 1 else base * Power(base, k - 1)
  }

  lemma SmallModulus(j: nat, m: nat)
    requires j < m
    ensures j % m == j
  {}

  lemma SubtractModulus(j: nat, m: nat)
    requires 0 < m <= j
    ensures (j - m) % m == j % m
  {
    DivisionUnique(j, m, j / m, j % m);
    DivisionUnique(j - m, m, j / m - 1, j % m);
  }

  lemma DivisionUnique(x: int, m: nat, q: int, r: int)
    requires m > 0 && x == q * m + r && 0 <= r < m
    ensures x / m == q && x % m == r
  {
    var q' := x / m;
    assert x == q' * m + x % m;
    if q' > q { MultipleGap(q', q, m); } else if q' < q { MultipleGap(q, q', m); }
  }

  lemma MultipleGap(a: int, b: int, m: nat)
    requires a > b
    ensures a * m >= b * m + m
  {
    assert a * m == b * m + (a - b) * m;
    assert (a - b) * m == m + (a - b - 1) * m;
  }

  lemma MultipleModulus(j: nat, m: nat, n: nat)
    requires m > 0 && n > 0
    ensures n * m > 0 && (j % (n * m)) % m == j % m
  {
    var i := j % (n * m);
    var q := j / (n * m);
    DivisionUnique(i, m, i / m, i % m);
    assert j == q * (n * m) + i;
    assert q * (n * m) == (q * n) * m;
    assert j == (q * n + i / m) * m + i % m;
    DivisionUnique(j, m, q * n + i / m, i % m);
  }

  /** Two numbers less than m apart with the same remainder are equal. */
  lemma SameRemainder(a: nat, b: nat, m: nat)
    requires m > 0 && a <= b < a + m && a % m == b % m
    ensures a == b
  {
    if a < b {
      var q, q' := a / m, b / m;
      assert q * m + a % m == a && q' * m + b % m == b;
      if q' > q { MultipleGap(q', q, m); } else if q' < q { MultipleGap(q, q', m); }
    }
  }

  /** Stepping the remainder is taking the remainder of the step. */
  lemma NextRemainder(a: nat, m: nat)
    requires m > 0
    ensures (a % m + 1) % m == (a + 1) % m
  {
    var q, r := a / m, a % m;
    if r + 1 < m {
      SmallModulus(r + 1, m);
      DivisionUnique(a + 1, m, q, r + 1);
    } else {
      DivisionUnique(r + 1, m, 1, 0);
      DivisionUnique(a + 1, m, q + 1, 0);
    }
  }
}
