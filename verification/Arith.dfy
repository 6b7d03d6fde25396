/** Residues with a symbolic modulus, powers of two, sums and squares of reals. */
module Arith {

  /** A product of integers is at least its positive factor if the other factor is positive. */
  lemma MulAtLeast(d: int, n: int)
    requires d >= 1 && n >= 0
    ensures d * n >= n
  {
    assert d * n == (d - 1) * n + n;
    assert (d - 1) * n >= 0;
  }

  lemma QuotientUnique(q: int, r: int, q': int, r': int, n: int)
    requires 0 <= r < n && 0 <= r' < n && q * n + r == q' * n + r'
    ensures q == q' && r == r'
  {
    assert (q - q') * n == r' - r && (q' - q) * n == r - r';
    if q > q' {
      MulAtLeast(q - q', n);
    } else if q < q' {
      MulAtLeast(q' - q, n);
    }
  }

  lemma DivMul(x: int, n: int)
    requires n > 0
    ensures x == x / n * n + x % n && x / n * n <= x
    ensures x >= 0 ==> x / n >= 0
  {}

  function Mod(x: int, n: int): (r: int)
    requires n > 0
    ensures 0 <= r < n
  {
    x % n
  }

  lemma ModIs(x: int, q: int, r: int, n: int)
    requires 0 <= r < n && x == q * n + r
    ensures Mod(x, n) == r
  {
    QuotientUnique(q, r, x / n, x % n, n);
  }

  lemma ModAddMultiple(x: int, t: int, n: int)
    requires n > 0
    ensures Mod(x + t * n, n) == Mod(x, n)
  {
    assert x + t * n == (x / n + t) * n + Mod(x, n);
    ModIs(x + t * n, x / n + t, Mod(x, n), n);
  }

  lemma ModSmall(x: int, n: int)
    requires 0 <= x < n
    ensures Mod(x, n) == x
  {
    ModIs(x, 0, x, n);
  }

  /** Two numbers less than n apart have the same residue only if they are the same. */
  lemma ModSeparates(x: int, y: int, n: int)
    requires x <= y < x + n && Mod(x, n) == Mod(y, n)
    ensures x == y
  {
    assert y - x == (y / n - x / n) * n;
    if y / n - x / n >= 1 {
      MulAtLeast(y / n - x / n, n);
    } else if y / n - x / n <= -1 {
      MulAtLeast(x / n - y / n, n);
    }
  }

  /** In a window of n consecutive numbers exactly one has residue b. */
  lemma OneResidue(start: int, n: int, b: int) returns (k: int)
    requires 0 <= b < n
    ensures 0 <= k < n && Mod(start + k, n) == b
    ensures forall j :: start <= j < start + n && Mod(j, n) == b ==> j == start + k
  {
    var q, r := start / n, start % n;
    k := if b >= r then b - r else b - r + n;
    if b >= r {
      ModIs(start + k, q, b, n);
    } else {
      assert start + k == (q + 1) * n + b;
      ModIs(start + k, q + 1, b, n);
    }
    forall j | start <= j < start + n && Mod(j, n) == b
      ensures j == start + k
    {
      if j <= start + k { ModSeparates(j, start + k, n); } else { ModSeparates(start + k, j, n); }
    }
  }

  function Pow2(k: nat): (r: nat)
    ensures r >= 1
  {
    if k == 0 then 1 else 2 * Pow2(k - 1)
  }

  function Sum(s: seq<real>): real {
    if s == [] then 0.0 else Sum(s[..|s| - 1]) + s[|s| - 1]
  }

  function Square(v: real): real { v * v }
}
