/**
 * Square integer matrices stored as sequences of rows (the `vector<vector<>>`
 * of the contest solutions), the matrix product, powers, and entry-wise
 * reduction modulo a positive modulus. Both matrix-power solutions are proved
 * against these definitions.
 */
module Matrices {

  type Matrix = seq<seq<int>>

  /** An n-by-n matrix. */
  predicate IsSquare(a: Matrix, n: nat) {
    |a| == n && forall i :: 0 <= i < n ==> |a[i]| == n
  }

  predicate NonNegative(a: Matrix) {
    forall i, j :: 0 <= i < |a| && 0 <= j < |a[i]| ==> a[i][j] >= 0
  }

  /** Every entry lies in [0, mod). */
  predicate Reduced(a: Matrix, mod: int) {
    forall i, j :: 0 <= i < |a| && 0 <= j < |a[i]| ==> 0 <= a[i][j] < mod
  }

  /** Entry (i, j), and 0 outside the matrix. */
  function At(a: Matrix, i: int, j: int): int {
    if 0 <= i < |a| && 0 <= j < |a[i]| then a[i][j] else 0
  }

  /** The partial dot product of row i of a and column j of b: the sum of a[i][t] * b[t][j] over t < k. */
  function Dot(a: Matrix, b: Matrix, i: int, j: int, k: nat): int {
    if k == 0 then 0 else Dot(a, b, i, j, k - 1) + At(a, i, k - 1) * At(b, k - 1, j)
  }

  /** The n-by-n matrix product. */
  function Mul(a: Matrix, b: Matrix, n: nat): (c: Matrix)
    ensures IsSquare(c, n)
    ensures forall i, j :: 0 <= i < n && 0 <= j < n ==> c[i][j] == Dot(a, b, i, j, n)
  {
    seq(n, i => seq(n, j => Dot(a, b, i, j, n)))
  }

  function Zero(n: nat): (z: Matrix)
    ensures IsSquare(z, n) && NonNegative(z)
    ensures forall i, j :: 0 <= i < n && 0 <= j < n ==> z[i][j] == 0
  {
    seq(n, i => seq(n, j => 0))
  }

  function Identity(n: nat): (e: Matrix)
    ensures IsSquare(e, n) && NonNegative(e)
    ensures forall i, j :: 0 <= i < n && 0 <= j < n ==> e[i][j] == if i == j then 1 else 0
  {
    seq(n, i => seq(n, j => if i == j then 1 else 0))
  }

  /** a to the power e, as the n-by-n product of e copies of a. */
  function Power(a: Matrix, n: nat, e: nat): (p: Matrix)
    ensures IsSquare(p, n)
  {
    if e == 0 then Identity(n) else Mul(Power(a, n, e - 1), a, n)
  }

  /** Every entry replaced by its remainder modulo mod. */
  function Reduce(a: Matrix, mod: int): (r: Matrix)
    requires mod > 0
    ensures |r| == |a| && (forall i :: 0 <= i < |a| ==> |r[i]| == |a[i]|)
    ensures Reduced(r, mod) && NonNegative(r)
    ensures forall i, j :: 0 <= i < |a| && 0 <= j < |a[i]| ==> r[i][j] == a[i][j] % mod
  {
    seq(|a|, i requires 0 <= i < |a| => seq(|a[i]|, j requires 0 <= j < |a[i]| => a[i][j] % mod))
  }

  // ---------------------------------------------------------------------
  // The double sum of a[i][s] * b[s][t] * c[t][j] in its two orders.

  function Term(a: Matrix, b: Matrix, c: Matrix, i: int, j: int, s: int, t: int): int {
    At(a, i, s) * At(b, s, t) * At(c, t, j)
  }

  /** The sum of Term(.., s, t) over s < m. */
  function SumOverS(a: Matrix, b: Matrix, c: Matrix, i: int, j: int, t: int, m: nat): int {
    if m == 0 then 0 else SumOverS(a, b, c, i, j, t, m - 1) + Term(a, b, c, i, j, m - 1, t)
  }

  /** The sum of Term(.., s, t) over t < k. */
  function SumOverT(a: Matrix, b: Matrix, c: Matrix, i: int, j: int, s: int, k: nat): int {
    if k == 0 then 0 else SumOverT(a, b, c, i, j, s, k - 1) + Term(a, b, c, i, j, s, k - 1)
  }

  /** Rows outside, columns inside. */
  function RowsFirst(a: Matrix, b: Matrix, c: Matrix, i: int, j: int, m: nat, k: nat): int {
    if m == 0 then 0 else RowsFirst(a, b, c, i, j, m - 1, k) + SumOverT(a, b, c, i, j, m - 1, k)
  }

  /** Columns outside, rows inside. */
  function ColumnsFirst(a: Matrix, b: Matrix, c: Matrix, i: int, j: int, m: nat, k: nat): int {
    if k == 0 then 0 else ColumnsFirst(a, b, c, i, j, m, k - 1) + SumOverS(a, b, c, i, j, k - 1, m)
  }

  lemma {:induction false} ColumnsFirstStep(a: Matrix, b: Matrix, c: Matrix, i: int, j: int, m: nat, k: nat)
    ensures ColumnsFirst(a, b, c, i, j, m + 1, k) == ColumnsFirst(a, b, c, i, j, m, k) + SumOverT(a, b, c, i, j, m, k)
  {
    if k > 0 {
      ColumnsFirstStep(a, b, c, i, j, m, k - 1);
    }
  }

  /** The two orders of summation agree. */
  lemma {:induction false} SumSwap(a: Matrix, b: Matrix, c: Matrix, i: int, j: int, m: nat, k: nat)
    ensures RowsFirst(a, b, c, i, j, m, k) == ColumnsFirst(a, b, c, i, j, m, k)
  {
    if m == 0 {
      ColumnsFirstEmpty(a, b, c, i, j, k);
    } else {
      SumSwap(a, b, c, i, j, m - 1, k);
      ColumnsFirstStep(a, b, c, i, j, m - 1, k);
    }
  }

  lemma {:induction false} ColumnsFirstEmpty(a: Matrix, b: Matrix, c: Matrix, i: int, j: int, k: nat)
    ensures ColumnsFirst(a, b, c, i, j, 0, k) == 0
  {
    if k > 0 {
      ColumnsFirstEmpty(a, b, c, i, j, k - 1);
    }
  }

  /** (sum over s of a[i][s] * b[s][t]) * c[t][j] */
  lemma {:induction false} DotTimesRight(a: Matrix, b: Matrix, c: Matrix, i: int, j: int, t: int, m: nat)
    ensures Dot(a, b, i, t, m) * At(c, t, j) == SumOverS(a, b, c, i, j, t, m)
  {
    if m > 0 {
      DotTimesRight(a, b, c, i, j, t, m - 1);
      var x, y, z := At(a, i, m - 1), At(b, m - 1, t), At(c, t, j);
      DistributeRight(Dot(a, b, i, t, m - 1), x * y, z);
    }
  }

  lemma DistributeRight(d: int, p: int, z: int)
    ensures (d + p) * z == d * z + p * z
  {
  }

  lemma DistributeLeft(x: int, d: int, y: int, z: int)
    ensures x * (d + y * z) == x * d + x * y * z
  {
  }

  /** a[i][s] * (sum over t of b[s][t] * c[t][j]) */
  lemma {:induction false} DotTimesLeft(a: Matrix, b: Matrix, c: Matrix, i: int, j: int, s: int, k: nat)
    ensures At(a, i, s) * Dot(b, c, s, j, k) == SumOverT(a, b, c, i, j, s, k)
  {
    if k > 0 {
      DotTimesLeft(a, b, c, i, j, s, k - 1);
      var x, y, z := At(a, i, s), At(b, s, k - 1), At(c, k - 1, j);
      DistributeLeft(x, Dot(b, c, s, j, k - 1), y, z);
    }
  }

  lemma {:induction false} ProductOnLeft(a: Matrix, b: Matrix, c: Matrix, n: nat, i: int, j: int, k: nat)
    requires 0 <= i < n && k <= n
    ensures Dot(Mul(a, b, n), c, i, j, k) == ColumnsFirst(a, b, c, i, j, n, k)
  {
    if k > 0 {
      ProductOnLeft(a, b, c, n, i, j, k - 1);
      DotTimesRight(a, b, c, i, j, k - 1, n);
    }
  }

  lemma {:induction false} ProductOnRight(a: Matrix, b: Matrix, c: Matrix, n: nat, i: int, j: int, m: nat)
    requires 0 <= j < n && m <= n
    ensures Dot(a, Mul(b, c, n), i, j, m) == RowsFirst(a, b, c, i, j, m, n)
  {
    if m > 0 {
      ProductOnRight(a, b, c, n, i, j, m - 1);
      DotTimesLeft(a, b, c, i, j, m - 1, n);
    }
  }

  // ---------------------------------------------------------------------
  // Algebra of the product.

  lemma {:induction false} DotIdentityLeft(a: Matrix, n: nat, i: int, j: int, k: nat)
    requires 0 <= i < n && k <= n
    ensures Dot(Identity(n), a, i, j, k) == if i < k then At(a, i, j) else 0
  {
    if k > 0 {
      DotIdentityLeft(a, n, i, j, k - 1);
    }
  }

  lemma {:induction false} DotIdentityRight(a: Matrix, n: nat, i: int, j: int, k: nat)
    requires 0 <= j < n && k <= n
    ensures Dot(a, Identity(n), i, j, k) == if j < k then At(a, i, j) else 0
  {
    if k > 0 {
      DotIdentityRight(a, n, i, j, k - 1);
    }
  }

  /** The identity is a left unit of the product. */
  lemma MulIdentityLeft(a: Matrix, n: nat)
    requires IsSquare(a, n)
    ensures Mul(Identity(n), a, n) == a
  {
    var c := Mul(Identity(n), a, n);
    forall i | 0 <= i < n
      ensures c[i] == a[i]
    {
      forall j | 0 <= j < n
        ensures c[i][j] == a[i][j]
      {
        DotIdentityLeft(a, n, i, j, n);
      }
    }
  }

  /** The identity is a right unit of the product. */
  lemma MulIdentityRight(a: Matrix, n: nat)
    requires IsSquare(a, n)
    ensures Mul(a, Identity(n), n) == a
  {
    var c := Mul(a, Identity(n), n);
    forall i | 0 <= i < n
      ensures c[i] == a[i]
    {
      forall j | 0 <= j < n
        ensures c[i][j] == a[i][j]
      {
        DotIdentityRight(a, n, i, j, n);
      }
    }
  }

  /** One entry of the associativity law. */
  lemma DotAssoc(a: Matrix, b: Matrix, c: Matrix, n: nat, i: int, j: int)
    requires 0 <= i < n && 0 <= j < n
    ensures Dot(Mul(a, b, n), c, i, j, n) == Dot(a, Mul(b, c, n), i, j, n)
  {
    ProductOnLeft(a, b, c, n, i, j, n);
    ProductOnRight(a, b, c, n, i, j, n);
    SumSwap(a, b, c, i, j, n, n);
  }

  /** The product is associative. */
  lemma MulAssoc(a: Matrix, b: Matrix, c: Matrix, n: nat)
    ensures Mul(Mul(a, b, n), c, n) == Mul(a, Mul(b, c, n), n)
  {
    var l, r := Mul(Mul(a, b, n), c, n), Mul(a, Mul(b, c, n), n);
    forall i | 0 <= i < n
      ensures l[i] == r[i]
    {
      forall j | 0 <= j < n
        ensures l[i][j] == r[i][j]
      {
        DotAssoc(a, b, c, n, i, j);
      }
    }
  }

  /** The first power of a square matrix is the matrix itself. */
  lemma PowerOne(a: Matrix, n: nat)
    requires IsSquare(a, n)
    ensures Power(a, n, 1) == a
  {
    MulIdentityLeft(a, n);
  }

  /** Exponents add: a^(e1 + e2) == a^e1 * a^e2. */
  lemma {:induction false} PowerAdd(a: Matrix, n: nat, e1: nat, e2: nat)
    ensures Power(a, n, e1 + e2) == Mul(Power(a, n, e1), Power(a, n, e2), n)
  {
    if e2 == 0 {
      MulIdentityRight(Power(a, n, e1), n);
    } else {
      PowerAdd(a, n, e1, e2 - 1);
      MulAssoc(Power(a, n, e1), Power(a, n, e2 - 1), a, n);
    }
  }

  // ---------------------------------------------------------------------
  // Reduction modulo mod is compatible with the product.

  lemma MulGap(q: int, q0: int, m: int)
    requires q > q0 && m > 0
    ensures q * m >= q0 * m + m
  {
    assert q * m == (q - q0 - 1) * m + q0 * m + m;
  }

  /** Division with remainder is unique. */
  lemma ModUnique(x: int, m: int, q: int, r: int)
    requires m > 0 && x == q * m + r && 0 <= r < m
    ensures x % m == r
  {
    var q0, r0 := x / m, x % m;
    assert x == q0 * m + r0 && 0 <= r0 < m;
    if q > q0 {
      MulGap(q, q0, m);
    } else if q < q0 {
      MulGap(q0, q, m);
    }
  }

  /** Adding a multiple of the modulus does not change the remainder. */
  lemma ModShift(x: int, q: int, m: int)
    requires m > 0
    ensures (x + q * m) % m == x % m
  {
    assert x + q * m == (x / m + q) * m + x % m;
    ModUnique(x + q * m, m, x / m + q, x % m);
  }

  lemma ModAdd(a: int, b: int, m: int)
    requires m > 0
    ensures (a + b) % m == (a % m + b % m) % m
  {
    assert a + b == (a % m + b % m) + (a / m + b / m) * m;
    ModShift(a % m + b % m, a / m + b / m, m);
  }

  /** Sums of congruent terms are congruent. */
  lemma AddCongruent(a1: int, a2: int, b1: int, b2: int, m: int)
    requires m > 0 && a1 % m == a2 % m && b1 % m == b2 % m
    ensures (a1 + b1) % m == (a2 + b2) % m
  {
    ModAdd(a1, b1, m);
    ModAdd(a2, b2, m);
  }

  /** A number written as quotient and remainder, times another. */
  lemma Distribute(q: int, r: int, y: int, m: int)
    ensures (q * m + r) * y == r * y + (q * y) * m
  {
  }

  /** Reducing one factor does not change a product modulo m. */
  lemma ReduceFactor(x: int, y: int, m: int)
    requires m > 0
    ensures ((x % m) * y) % m == (x * y) % m
  {
    var q, r := x / m, x % m;
    assert x == q * m + r;
    Distribute(q, r, y, m);
    ModShift(r * y, q * y, m);
  }

  lemma ModMul(a: int, b: int, m: int)
    requires m > 0
    ensures (a * b) % m == ((a % m) * (b % m)) % m
  {
    ReduceFactor(a, b, m);
    ReduceFactor(b, a % m, m);
  }

  lemma StepMod(d1: int, d2: int, x: int, y: int, mod: int)
    requires mod > 0 && d1 % mod == d2 % mod
    ensures (d1 + (x % mod) * (y % mod)) % mod == (d2 + x * y) % mod
  {
    ModAdd(d1, (x % mod) * (y % mod), mod);
    ModAdd(d2, x * y, mod);
    ModMul(x, y, mod);
  }

  lemma {:induction false} DotReduce(a: Matrix, b: Matrix, i: int, j: int, k: nat, mod: int)
    requires mod > 0
    ensures Dot(Reduce(a, mod), Reduce(b, mod), i, j, k) % mod == Dot(a, b, i, j, k) % mod
  {
    if k > 0 {
      var ra, rb := Reduce(a, mod), Reduce(b, mod);
      var x, y := At(a, i, k - 1), At(b, k - 1, j);
      assert At(ra, i, k - 1) == x % mod && At(rb, k - 1, j) == y % mod;
      DotReduce(a, b, i, j, k - 1, mod);
      StepMod(Dot(ra, rb, i, j, k - 1), Dot(a, b, i, j, k - 1), x, y, mod);
    }
  }

  /** Folding a remainder into an accumulator. */
  lemma AccumulateMod(d: int, p: int, mod: int)
    requires mod > 0
    ensures (d % mod + p) % mod == (d + p) % mod
  {
    assert d + p == (d % mod + p) + (d / mod) * mod;
    ModShift(d % mod + p, d / mod, mod);
  }

  /** Reducing the left factor alone does not change a dot product modulo mod. */
  lemma {:induction false} DotReduceLeft(a: Matrix, b: Matrix, i: int, j: int, k: nat, mod: int)
    requires mod > 0
    ensures Dot(Reduce(a, mod), b, i, j, k) % mod == Dot(a, b, i, j, k) % mod
  {
    if k > 0 {
      var x, y := At(a, i, k - 1), At(b, k - 1, j);
      assert At(Reduce(a, mod), i, k - 1) == x % mod;
      DotReduceLeft(a, b, i, j, k - 1, mod);
      ReduceFactor(x, y, mod);
      AddCongruent(Dot(Reduce(a, mod), b, i, j, k - 1), Dot(a, b, i, j, k - 1), (x % mod) * y, x * y, mod);
    }
  }

  /** Reducing the factors first does not change the reduced product. */
  lemma ReduceMul(a: Matrix, b: Matrix, n: nat, mod: int)
    requires mod > 0
    ensures Reduce(Mul(Reduce(a, mod), Reduce(b, mod), n), mod) == Reduce(Mul(a, b, n), mod)
  {
    var l, r := Reduce(Mul(Reduce(a, mod), Reduce(b, mod), n), mod), Reduce(Mul(a, b, n), mod);
    forall i | 0 <= i < n
      ensures l[i] == r[i]
    {
      forall j | 0 <= j < n
        ensures l[i][j] == r[i][j]
      {
        DotReduce(a, b, i, j, n, mod);
      }
    }
  }

  /** Reduction is idempotent. */
  lemma ReduceTwice(a: Matrix, mod: int)
    requires mod > 0
    ensures Reduce(Reduce(a, mod), mod) == Reduce(a, mod)
  {
    var l, r := Reduce(Reduce(a, mod), mod), Reduce(a, mod);
    forall i | 0 <= i < |a|
      ensures l[i] == r[i]
    {
      forall j | 0 <= j < |a[i]|
        ensures l[i][j] == r[i][j]
      {
        ModUnique(r[i][j], mod, 0, r[i][j]);
      }
    }
  }

  /**
   * The form both exponentiations give a power in: the first power is the
   * matrix itself, unreduced, and is congruent to that power all the same.
   */
  lemma CongruentPower(x: Matrix, a: Matrix, n: nat, e: nat, mod: int)
    requires IsSquare(a, n) && e >= 1 && mod > 0
    requires x == if e == 1 then a else Reduce(Power(a, n, e), mod)
    ensures Reduce(x, mod) == Reduce(Power(a, n, e), mod)
  {
    if e == 1 {
      PowerOne(a, n);
    } else {
      ReduceTwice(Power(a, n, e), mod);
    }
  }

  /** The accumulator of square-and-multiply: the identity, or a reduced power. */
  lemma CongruentAccumulator(x: Matrix, a: Matrix, n: nat, e: nat, mod: int)
    requires mod > 0
    requires x == if e == 0 then Identity(n) else Reduce(Power(a, n, e), mod)
    ensures Reduce(x, mod) == Reduce(Power(a, n, e), mod)
  {
    if e != 0 {
      ReduceTwice(Power(a, n, e), mod);
    }
  }

  /**
   * The step both exponentiations rely on: if x and y are congruent to
   * a^e1 and a^e2 modulo mod, then their reduced product is a^(e1 + e2)
   * reduced modulo mod.
   */
  lemma MulPowers(x: Matrix, y: Matrix, a: Matrix, n: nat, e1: nat, e2: nat, e: nat, mod: int)
    requires mod > 0 && e1 + e2 == e
    requires Reduce(x, mod) == Reduce(Power(a, n, e1), mod)
    requires Reduce(y, mod) == Reduce(Power(a, n, e2), mod)
    ensures Reduce(Mul(x, y, n), mod) == Reduce(Power(a, n, e), mod)
  {
    ReduceMul(x, y, n, mod);
    ReduceMul(Power(a, n, e1), Power(a, n, e2), n, mod);
    PowerAdd(a, n, e1, e2);
  }
}
