/** Products, quotients and remainders where the solver needs a hand. */
module Arith {

  lemma MulMono(a: int, b: int, k: int)
    requires a <= b && 0 <= k
    ensures a * k <= b * k
  {
  }

  /** Cells of different rows or columns lie at different places: with at most
      `stride` columns in use, the cell number r*stride + c determines r and c. */
  lemma CellUnique(r: int, c: int, r': int, c': int, stride: int)
    requires 0 <= c < stride && 0 <= c' < stride
    ensures r * stride + c == r' * stride + c' ==> r == r' && c == c'
  {
    if r < r' {
      MulMono(r + 1, r', stride);
    } else if r' < r {
      MulMono(r' + 1, r, stride);
    }
  }

  lemma DivMod(q: int, r: int, d: int)
    requires 0 <= r < d
    ensures (q * d + r) / d == q && (q * d + r) % d == r
  {
    var q', r' := (q * d + r) / d, (q * d + r) % d;
    assert q' * d + r' == q * d + r;
    CellUnique(q', r', q, r, d);
  }

  lemma QuotientBound(i: nat, n: nat, d: nat)
    requires i < n * d && 0 < d
    ensures i / d < n
  {
    var q := i / d;
    assert q * d <= i;
    if n <= q {
      MulMono(n, q, d);
      assert false;
    }
  }

  lemma NextRemainder(n: nat, m: nat)
    requires m > 0
    ensures (n + 1) % m == if n % m == m - 1 then 0 else n % m + 1
  {
    var q, r := n / m, n % m;
    assert n == q * m + r;
    if r == m - 1 {
      assert n + 1 == (q + 1) * m + 0;
      DivMod(q + 1, 0, m);
    } else {
      assert n + 1 == q * m + (r + 1);
      DivMod(q, r + 1, m);
    }
  }

  /** The remainder by a multiple of d leaves the remainder by d as it was. */
  lemma RemainderOfMultiple(i: nat, n: nat, d: nat)
    requires n > 0 && d > 0
    ensures n * d > 0 && i % (n * d) % d == i % d
  {
    var m := n * d;
    MulMono(1, n, d);
    var q, r := i / m, i % m;
    var q', r' := r / d, r % d;
    assert q * m == (q * n) * d;
    assert i == (q * n) * d + q' * d + r';
    assert (q * n) * d + q' * d == (q * n + q') * d;
    DivMod(q * n + q', r', d);
  }
}
