/** Facts about Euclidean division used by the hashing and probing proofs. */
module Arith {
  import opened Base

  lemma MulAtLeast(d: nat, k: int)
    requires k >= 1
    ensures d * k >= d
    decreases k
  {
    if k > 1 {
      MulAtLeast(d, k - 1);
      assert d * k == d * (k - 1) + d;
    }
  }

  /** The remainder is determined by any quotient-remainder decomposition. */
  lemma ModUnique(x: int, d: int, q: int, r: int)
    requires d > 0 && 0 <= r < d && x == d * q + r
    ensures x % d == r
  {
    var q', r' := x / d, x % d;
    assert x == d * q' + r';
    if q' < q {
      MulAtLeast(d, q - q');
    } else if q < q' {
      MulAtLeast(d, q' - q);
    }
  }

  lemma ModSucc(x: nat, n: nat)
    requires n > 0
    ensures ((x % n) + 1) % n == (x + 1) % n
  {
    var q, r := x / n, x % n;
    assert x == n * q + r;
    if r + 1 < n {
      ModUnique(x + 1, n, q, r + 1);
      ModUnique(r + 1, n, 0, r + 1);
    } else {
      assert n * (q + 1) == n * q + n;
      ModUnique(x + 1, n, q + 1, 0);
      ModUnique(r + 1, n, 1, 0);
    }
  }

  lemma ModDouble(x: nat, m: nat)
    requires m > 0
    ensures x % (2 * m) == 2 * ((x / 2) % m) + x % 2
  {
    var q, r := x / 2, x % 2;
    var t, s := q / m, q % m;
    assert q == m * t + s;
    assert x == 2 * q + r;
    assert (2 * m) * t == 2 * (m * t);
    assert x == (2 * m) * t + (2 * s + r);
    ModUnique(x, 2 * m, t, 2 * s + r);
  }

  lemma MulMono(a: nat, b: nat, c: nat)
    requires a <= b
    ensures a * c <= b * c
  {
    assert b * c == a * c + (b - a) * c;
  }

  /** The product of two numbers below n is below n * n. */
  lemma MulBelow(x: nat, y: nat, n: nat)
    requires x < n && y < n
    ensures 0 <= x * y < n * n
  {
    MulMono(0, x, y);
    MulMono(x, n - 1, y);
    MulMono(y, n - 1, n - 1);
    assert n * n == (n - 1) * (n - 1) + 2 * n - 1;
  }

  /** Adding a value below the modulus to a reduced sum reduces like adding it to the sum. */
  lemma AddReduced(x: nat, y: nat, m: nat)
    requires y < m
    ensures ((x % m) + y) % m == (x + y) % m
  {
    ModUnique(y, m, 0, y);
    AddMod(x, y, m);
  }

  /** Reducing the addends first does not change a sum's remainder. */
  lemma AddMod(x: nat, y: nat, m: nat)
    requires m > 0
    ensures ((x % m) + (y % m)) % m == (x + y) % m
  {
    var s := (x % m) + (y % m);
    var c, r := s / m, s % m;
    assert s == m * c + r;
    assert x == m * (x / m) + x % m;
    assert y == m * (y / m) + y % m;
    assert x + y == m * (x / m + y / m + c) + r;
    ModUnique(x + y, m, x / m + y / m + c, r);
  }

  /** Row r, column c of a grid with `cols` columns is cell r * cols + c, inside the grid. */
  lemma GridBound(r: nat, c: nat, rows: nat, cols: nat)
    requires r < rows && c < cols
    ensures r * cols + c < rows * cols
  {
    MulMono(r + 1, rows, cols);
    assert (r + 1) * cols == r * cols + cols;
  }

  /** Every cell of a grid splits into its row (quotient) and column (remainder). */
  lemma GridSplit(k: nat, rows: nat, cols: nat)
    requires k < rows * cols
    ensures cols > 0 && k / cols < rows && k % cols < cols
    ensures (k / cols) * cols + k % cols == k
  {
    var d := k / cols;
    assert k == d * cols + k % cols;
    if rows <= d {
      MulMono(rows, d, cols);
    }
  }

  /** The sum of coef[k] * v[k]: the inner product of the universal hash. */
  function Dot(coef: seq<uint32>, v: seq<nat>): nat
    requires |v| <= |coef|
  {
    if v == [] then 0 else Dot(coef, v[..|v| - 1]) + coef[|v| - 1] * v[|v| - 1]
  }

  lemma DotAppend(coef: seq<uint32>, hvs: seq<nat>, x: nat)
    requires |hvs| < |coef|
    ensures Dot(coef, hvs + [x]) == Dot(coef, hvs) + coef[|hvs|] * x
  {
    assert (hvs + [x])[..|hvs|] == hvs;
  }
}
