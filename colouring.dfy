/**
 * The Solver of the same program: it counts the two-colourings of an n-by-m
 * grid with no monochrome 2x2 square. Rows are bit masks of width m; the
 * transition matrix marks the pairs of consecutive rows that form no such
 * square, and the count is the sum of the entries of its (n - 1)-th power,
 * taken modulo mod. The exponent n is a BigInt.
 */
module Colouring {
  import opened Matrices
  import BigNum

  function Pow2(k: nat): (p: nat)
    ensures p >= 1
  {
    if k == 0 then 1 else 2 * Pow2(k - 1)
  }

  /**
   * Bit i of x as `(x >> i) & 1` reads it on a two's-complement integer:
   * the arithmetic shift rounds down, and `& 1` keeps the non-negative
   * remainder modulo 2.
   */
  function Bit(x: int, i: nat): int {
    (x / Pow2(i)) % 2
  }

  /** Columns i - 1 and i of the rows `first` and `second` all have one colour. */
  predicate MonochromeSquare(first: int, second: int, i: nat)
    requires i >= 1
  {
    var c := Bit(first, i);
    Bit(first, i - 1) == c && Bit(second, i) == c && Bit(second, i - 1) == c
  }

  /** The two rows, the first on top of the second, hold a monochrome 2x2 square. */
  predicate HasSquare(first: int, second: int, len: int) {
    exists i: nat :: 1 <= i < len && MonochromeSquare(first, second, i)
  }

  /** Solver::findSquare: the scan over the columns 1 .. len - 1. */
  method FindSquare(firstMask: int, secondMask: int, len: int) returns (found: bool)
    ensures found <==> HasSquare(firstMask, secondMask, len)
  {
    var i := 1;
    while i < len
      invariant 1 <= i && (len >= 1 ==> i <= len)
      invariant forall k: nat :: 1 <= k < i ==> !MonochromeSquare(firstMask, secondMask, k)
    {
      var curFirstBit := Bit(firstMask, i);
      var prevFirstBit := Bit(firstMask, i - 1);
      if curFirstBit == prevFirstBit {
        var curSecondBit := Bit(secondMask, i);
        var prevSecondBit := Bit(secondMask, i - 1);
        if curFirstBit == curSecondBit && prevFirstBit == prevSecondBit {
          assert MonochromeSquare(firstMask, secondMask, i);
          return true;
        }
      }
      i := i + 1;
    }
    return false;
  }

  /** The relation findSquare decides is symmetric in the two rows. */
  lemma HasSquareSymmetric(first: int, second: int, len: int)
    ensures HasSquare(first, second, len) <==> HasSquare(second, first, len)
  {
    if HasSquare(first, second, len) {
      var i: nat :| 1 <= i < len && MonochromeSquare(first, second, i);
      assert MonochromeSquare(second, first, i);
    }
    if HasSquare(second, first, len) {
      var i: nat :| 1 <= i < len && MonochromeSquare(second, first, i);
      assert MonochromeSquare(first, second, i);
    }
  }

  /** A non-negative remainder is the same under C++'s `%` and Dafny's. */
  lemma RemOfNonNegative(a: int, mod: int)
    requires a >= 0 && mod > 0
    ensures BigNum.TruncRem(a, mod) == a % mod
  {
    assert BigNum.TruncDiv(a, mod) == a / mod;
  }

  /** C++'s `/ 2` and `% 2` on a positive exponent. */
  lemma Halving(e: int)
    requires e >= 1
    ensures BigNum.TruncDiv(e, 2) == e / 2 && BigNum.TruncRem(e, 2) == e % 2
  {
  }

  /** The innermost loop of Solver::multiply: entry (i, j) accumulates row i times column j. */
  method AccumulateEntry(firstMatrix: Matrix, secondMatrix: Matrix, res0: Matrix, len: nat, mod: int, i: nat, j: nat)
    returns (res: Matrix)
    requires IsSquare(firstMatrix, len) && IsSquare(secondMatrix, len) && IsSquare(res0, len)
    requires NonNegative(firstMatrix) && NonNegative(secondMatrix) && mod > 0
    requires i < len && j < len && res0[i][j] == 0
    ensures IsSquare(res, len)
    ensures forall r :: 0 <= r < len && r != i ==> res[r] == res0[r]
    ensures forall c :: 0 <= c < len && c != j ==> res[i][c] == res0[i][c]
    ensures res[i][j] == Dot(firstMatrix, secondMatrix, i, j, len) % mod
  {
    res := res0;
    for k := 0 to len
      invariant IsSquare(res, len)
      invariant forall r :: 0 <= r < len && r != i ==> res[r] == res0[r]
      invariant forall c :: 0 <= c < len && c != j ==> res[i][c] == res0[i][c]
      invariant res[i][j] == Dot(firstMatrix, secondMatrix, i, j, k) % mod
    {
      var p := firstMatrix[i][k] * secondMatrix[k][j];
      assert p >= 0 && p == At(firstMatrix, i, k) * At(secondMatrix, k, j);
      RemOfNonNegative(res[i][j] + p, mod);
      AccumulateMod(Dot(firstMatrix, secondMatrix, i, j, k), p, mod);
      res := res[i := res[i][j := BigNum.TruncRem(res[i][j] + p, mod)]];
    }
  }

  /** Solver::multiply: the product of two len-by-len matrices, reduced entry by entry. */
  method Multiply(firstMatrix: Matrix, secondMatrix: Matrix, len: nat, mod: int) returns (res: Matrix)
    requires IsSquare(firstMatrix, len) && IsSquare(secondMatrix, len)
    requires NonNegative(firstMatrix) && NonNegative(secondMatrix) && mod > 0
    ensures IsSquare(res, len) && Reduced(res, mod)
    ensures res == Reduce(Mul(firstMatrix, secondMatrix, len), mod)
  {
    res := Zero(len);
    for i := 0 to len
      invariant IsSquare(res, len)
      invariant forall r, c :: 0 <= r < len && 0 <= c < len ==>
        res[r][c] == if r < i then Dot(firstMatrix, secondMatrix, r, c, len) % mod else 0
    {
      for j := 0 to len
        invariant IsSquare(res, len)
        invariant forall r, c :: 0 <= r < len && 0 <= c < len ==>
          res[r][c] == if r < i || (r == i && c < j) then Dot(firstMatrix, secondMatrix, r, c, len) % mod else 0
      {
        res := AccumulateEntry(firstMatrix, secondMatrix, res, len, mod, i, j);
      }
    }
    var want := Reduce(Mul(firstMatrix, secondMatrix, len), mod);
    forall r | 0 <= r < len
      ensures res[r] == want[r]
    {
    }
  }

  lemma SquareStep(matrix: Matrix, sqrt: Matrix, r: Matrix, len: nat, h: nat, e: nat, mod: int)
    requires IsSquare(matrix, len) && mod > 0 && h >= 1 && e == h + h
    requires sqrt == if h == 1 then matrix else Reduce(Power(matrix, len, h), mod)
    requires r == Reduce(Mul(sqrt, sqrt, len), mod)
    ensures r == Reduce(Power(matrix, len, e), mod)
  {
    CongruentPower(sqrt, matrix, len, h, mod);
    MulPowers(sqrt, sqrt, matrix, len, h, h, e, mod);
  }

  /** The odd case of Solver::exp: one more factor of M. */
  lemma OneMoreStep(matrix: Matrix, p: Matrix, r: Matrix, len: nat, k: nat, e: nat, mod: int)
    requires IsSquare(matrix, len) && mod > 0 && k >= 1 && e == k + 1
    requires p == if k == 1 then matrix else Reduce(Power(matrix, len, k), mod)
    requires r == Reduce(Mul(p, matrix, len), mod)
    ensures r == Reduce(Power(matrix, len, e), mod)
  {
    CongruentPower(p, matrix, len, k, mod);
    CongruentPower(matrix, matrix, len, 1, mod);
    MulPowers(p, matrix, matrix, len, k, 1, e, mod);
  }

  /**
   * Solver::exp: M^n by halving an even exponent and peeling one factor off
   * an odd one. The first power is M itself, unreduced.
   */
  method Exp(matrix: Matrix, n: BigNum.BigInt, len: nat, mod: int) returns (r: Matrix)
    requires n.Valid() && n.Value() >= 1
    requires IsSquare(matrix, len) && NonNegative(matrix) && mod > 0
    ensures IsSquare(r, len) && NonNegative(r)
    ensures r == if n.Value() == 1 then matrix else Reduce(Power(matrix, len, n.Value()), mod)
    decreases n.Value()
  {
    ghost var e := n.Value();
    var one := new BigNum.BigInt.FromInt64(1);
    var isOne := n.Equals(one);
    if isOne {
      return matrix;
    }
    var two := new BigNum.BigInt.FromInt64(2);
    var zero := new BigNum.BigInt.FromInt64(0);
    var rem := n.Remainder(two);
    var even := rem.Equals(zero);
    Halving(e);
    assert even <==> e % 2 == 0;
    if even {
      var half := n.Quotient(two);
      var sqrt := Exp(matrix, half, len, mod);
      r := Multiply(sqrt, sqrt, len, mod);
      SquareStep(matrix, sqrt, r, len, half.Value(), e, mod);
    } else {
      var prev := n.Difference(one);
      var p := Exp(matrix, prev, len, mod);
      r := Multiply(p, matrix, len, mod);
      OneMoreStep(matrix, p, r, len, prev.Value(), e, mod);
    }
  }

  /** The transition matrix of Solver::solve on masks of width m. */
  function Transition(m: nat): (t: Matrix)
    ensures IsSquare(t, Pow2(m)) && NonNegative(t)
    ensures forall a, b :: 0 <= a < Pow2(m) && 0 <= b < Pow2(m) ==>
      t[a][b] == if HasSquare(a, b, m) then 0 else 1
  {
    seq(Pow2(m), a => seq(Pow2(m), b => if HasSquare(a, b, m) then 0 else 1))
  }

  /** The sum of a[i][j] over j < k. */
  function RowTotal(a: Matrix, i: int, k: nat): int {
    if k == 0 then 0 else RowTotal(a, i, k - 1) + At(a, i, k - 1)
  }

  /** The sum of the first k rows of an n-column matrix. */
  function Total(a: Matrix, n: nat, k: nat): int {
    if k == 0 then 0 else Total(a, n, k - 1) + RowTotal(a, k - 1, n)
  }

  lemma {:induction false} RowTotalIdentity(n: nat, i: int, k: nat)
    requires 0 <= i < n && k <= n
    ensures RowTotal(Identity(n), i, k) == if i < k then 1 else 0
  {
    if k > 0 {
      RowTotalIdentity(n, i, k - 1);
    }
  }

  /** The identity has n entries equal to one: the count for a single row. */
  lemma {:induction false} TotalIdentity(n: nat, k: nat)
    requires k <= n
    ensures Total(Identity(n), n, k) == k
  {
    if k > 0 {
      TotalIdentity(n, k - 1);
      RowTotalIdentity(n, k - 1, n);
    }
  }

  lemma {:induction false} RowTotalMod(x: Matrix, y: Matrix, i: int, k: nat, mod: int)
    requires mod > 0
    requires forall r, c :: At(x, r, c) % mod == At(y, r, c) % mod
    ensures RowTotal(x, i, k) % mod == RowTotal(y, i, k) % mod
  {
    if k > 0 {
      RowTotalMod(x, y, i, k - 1, mod);
      AddCongruent(RowTotal(x, i, k - 1), RowTotal(y, i, k - 1), At(x, i, k - 1), At(y, i, k - 1), mod);
    }
  }

  lemma {:induction false} TotalMod(x: Matrix, y: Matrix, n: nat, k: nat, mod: int)
    requires mod > 0
    requires forall r, c :: At(x, r, c) % mod == At(y, r, c) % mod
    ensures Total(x, n, k) % mod == Total(y, n, k) % mod
  {
    if k > 0 {
      TotalMod(x, y, n, k - 1, mod);
      RowTotalMod(x, y, k - 1, n, mod);
      AddCongruent(Total(x, n, k - 1), Total(y, n, k - 1), RowTotal(x, k - 1, n), RowTotal(y, k - 1, n), mod);
    }
  }

  /** Matrices with equal reductions have congruent entry sums. */
  lemma TotalOfCongruent(x: Matrix, y: Matrix, n: nat, mod: int)
    requires mod > 0 && Reduce(x, mod) == Reduce(y, mod)
    ensures Total(x, n, n) % mod == Total(y, n, n) % mod
  {
    forall r, c
      ensures At(x, r, c) % mod == At(y, r, c) % mod
    {
      var rx, ry := Reduce(x, mod), Reduce(y, mod);
      if 0 <= r < |x| && 0 <= c < |x[r]| {
        assert rx[r][c] == ry[r][c];
      }
    }
    TotalMod(x, y, n, n, mod);
  }

  /** The matrix Solver::solve builds: entry (mask, prev) is 1 unless the rows form a square. */
  method BuildTransition(m: nat) returns (matrix: Matrix)
    ensures matrix == Transition(m)
  {
    var size := Pow2(m);
    matrix := Zero(size);
    for mask := 0 to size
      invariant IsSquare(matrix, size)
      invariant forall a, b :: 0 <= a < size && 0 <= b < size ==>
        matrix[a][b] == if a < mask && !HasSquare(a, b, m) then 1 else 0
    {
      for prevMask := 0 to size
        invariant IsSquare(matrix, size)
        invariant forall a, b :: 0 <= a < size && 0 <= b < size ==>
          matrix[a][b] == if (a < mask || (a == mask && b < prevMask)) && !HasSquare(a, b, m) then 1 else 0
      {
        var square := FindSquare(mask, prevMask, m);
        if !square {
          matrix := matrix[mask := matrix[mask][prevMask := 1]];
        }
      }
    }
    var t := Transition(m);
    forall a | 0 <= a < size
      ensures matrix[a] == t[a]
    {
    }
  }

  /** The closing loop of Solver::solve: the sum of all entries, reduced as it goes. */
  method SumEntries(ansMatrix: Matrix, size: nat, mod: int) returns (ans: int)
    requires IsSquare(ansMatrix, size) && NonNegative(ansMatrix) && mod > 0
    ensures 0 <= ans < mod && ans == Total(ansMatrix, size, size) % mod
  {
    ans := 0;
    for i := 0 to size
      invariant 0 <= ans < mod && ans == Total(ansMatrix, size, i) % mod
    {
      for j := 0 to size
        invariant 0 <= ans < mod && ans == (Total(ansMatrix, size, i) + RowTotal(ansMatrix, i, j)) % mod
      {
        var x := ansMatrix[i][j];
        ghost var before := Total(ansMatrix, size, i) + RowTotal(ansMatrix, i, j);
        assert before + x == Total(ansMatrix, size, i) + RowTotal(ansMatrix, i, j + 1);
        RemOfNonNegative(ans + x, mod);
        AccumulateMod(before, x, mod);
        ans := BigNum.TruncRem(ans + x, mod);
      }
    }
  }

  /**
   * Solver::solve, with the printed number as its result: the sum of the
   * entries of the (n - 1)-th power of the transition matrix, modulo mod.
   */
  method Solve(n: BigNum.BigInt, m: nat, mod: int) returns (ans: int)
    requires n.Valid() && n.Value() >= 1 && mod > 0
    ensures 0 <= ans < mod
    ensures ans == Total(Power(Transition(m), Pow2(m), n.Value() - 1), Pow2(m), Pow2(m)) % mod
  {
    var one := new BigNum.BigInt.FromInt64(1);
    var isOne := n.Equals(one);
    var size := Pow2(m);
    if isOne {
      TotalIdentity(size, size);
      RemOfNonNegative(size, mod);
      return BigNum.TruncRem(size, mod);
    }
    var matrix := BuildTransition(m);
    var e := n.Difference(one);
    ghost var k := e.Value();
    var ansMatrix := Exp(matrix, e, size, mod);
    ans := SumEntries(ansMatrix, size, mod);
    CongruentPower(ansMatrix, matrix, size, k, mod);
    TotalOfCongruent(ansMatrix, Power(matrix, size, k), size, mod);
  }
}
