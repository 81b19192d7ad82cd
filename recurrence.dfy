/**
 * A five-term linear recurrence evaluated by fast exponentiation of its 5x5
 * companion matrix modulo 1000003: the class MatrixOperations (square
 * matrices of unsigned 64-bit entries with a product reduced modulo `mod`
 * and square-and-multiply exponentiation) and the class MatrixSolver.
 */
module Recurrence {
  import opened Matrices

  /**
   * The sequence the solver evaluates: 1, 1, 2, 4, 8 and then each term
   * the sum of the five before it (the number of ways to write k as an
   * ordered sum of parts from 1 to 5).
   */
  function Pentanacci(k: nat): nat {
    if k == 0 then 1
    else if k == 1 then 1
    else if k == 2 then 2
    else if k == 3 then 4
    else if k == 4 then 8
    else Pentanacci(k - 1) + Pentanacci(k - 2) + Pentanacci(k - 3) + Pentanacci(k - 4) + Pentanacci(k - 5)
  }

  /**
   * MatrixOperations: a size-by-size matrix of unsigned entries and the
   * modulus its products are reduced by. The C++ class is copied by value
   * (`base = *this`, `result = result * base`), so it is a value here.
   */
  datatype MatrixOperations = MatrixOperations(size: nat, mod: int, matrix: Matrix)
  {
    /** The entries are unsigned and the matrix is size-by-size. */
    predicate Valid() {
      IsSquare(matrix, size) && NonNegative(matrix)
    }

    /** The innermost loop of operator*: entry (row, col) accumulates a row times a column. */
    static method AccumulateEntry(a: Matrix, b: Matrix, res0: Matrix, n: nat, mod: int, row: nat, col: nat)
      returns (res: Matrix)
      requires IsSquare(a, n) && IsSquare(b, n) && IsSquare(res0, n) && mod > 0
      requires row < n && col < n && res0[row][col] == 0
      ensures IsSquare(res, n)
      ensures forall r :: 0 <= r < n && r != row ==> res[r] == res0[r]
      ensures forall c :: 0 <= c < n && c != col ==> res[row][c] == res0[row][c]
      ensures res[row][col] == Dot(a, b, row, col, n) % mod
    {
      res := res0;
      for k := 0 to n
        invariant IsSquare(res, n)
        invariant forall r :: 0 <= r < n && r != row ==> res[r] == res0[r]
        invariant forall c :: 0 <= c < n && c != col ==> res[row][c] == res0[row][c]
        invariant res[row][col] == Dot(a, b, row, col, k) % mod
      {
        AccumulateMod(Dot(a, b, row, col, k), a[row][k] * b[k][col], mod);
        res := res[row := res[row][col := (res[row][col] + a[row][k] * b[k][col]) % mod]];
      }
    }

    /** operator*: the matrix product with every entry reduced modulo mod. */
    method Times(other: MatrixOperations) returns (product: MatrixOperations)
      requires Valid() && other.Valid() && other.size == size && mod > 0
      ensures product.Valid() && product.size == size && product.mod == mod
      ensures product.matrix == Reduce(Mul(matrix, other.matrix, size), mod)
    {
      product := NewMatrix(size, mod, false);
      var res := product.matrix;
      for row := 0 to size
        invariant IsSquare(res, size)
        invariant forall r, c :: 0 <= r < size && 0 <= c < size ==>
          res[r][c] == if r < row then Dot(matrix, other.matrix, r, c, size) % mod else 0
      {
        for col := 0 to size
          invariant IsSquare(res, size)
          invariant forall r, c :: 0 <= r < size && 0 <= c < size ==>
            res[r][c] == if r < row || (r == row && c < col) then Dot(matrix, other.matrix, r, c, size) % mod else 0
        {
          res := AccumulateEntry(matrix, other.matrix, res, size, mod, row, col);
        }
      }
      var want := Reduce(Mul(matrix, other.matrix, size), mod);
      forall r | 0 <= r < size
        ensures res[r] == want[r]
      {
      }
      product := product.(matrix := res);
    }

    /**
     * exponentiate(power): square-and-multiply. The zeroth power is the
     * unreduced identity; every other power is reduced modulo mod.
     */
    method Exponentiate(power: nat) returns (result: MatrixOperations)
      requires Valid() && mod > 0
      ensures result.Valid() && result.size == size && result.mod == mod
      ensures result.matrix == if power == 0 then Identity(size) else Reduce(Power(matrix, size, power), mod)
    {
      result := NewMatrix(size, mod, true);
      var base := this;
      var p: nat := power;
      ghost var done: nat := 0;
      ghost var step: nat := 1;
      while p > 0
        invariant result.Valid() && result.size == size && result.mod == mod
        invariant base.Valid() && base.size == size && base.mod == mod
        invariant step >= 1 && done + p * step == power
        invariant p == 0 ==> done == power
        invariant result.matrix == PowerSoFar(matrix, size, done, mod)
        invariant base.matrix == BasePower(matrix, size, step, mod)
      {
        HalveExponent(p, step, done, power);
        if p % 2 == 1 {
          var next := result.Times(base);
          ResultStep(matrix, size, result.matrix, base.matrix, next.matrix, done, step, done + step, mod);
          result := next;
          done := done + step;
        }
        var square := base.Times(base);
        BaseStep(matrix, size, base.matrix, square.matrix, step, step + step, mod);
        base := square;
        step := step + step;
        p := p / 2;
      }
    }
  }

  /** MatrixOperations(n, modulus, identity): the zero matrix, or the identity. */
  method NewMatrix(n: nat, modulus: int, identity: bool) returns (m: MatrixOperations)
    ensures m.Valid() && m.size == n && m.mod == modulus
    ensures m.matrix == if identity then Identity(n) else Zero(n)
  {
    var rows := Zero(n);
    if identity {
      for i := 0 to n
        invariant IsSquare(rows, n)
        invariant forall r, c :: 0 <= r < n && 0 <= c < n ==> rows[r][c] == if r == c && r < i then 1 else 0
      {
        rows := rows[i := rows[i][i := 1]];
      }
      var e := Identity(n);
      forall r | 0 <= r < n
        ensures rows[r] == e[r]
      {
      }
    }
    m := MatrixOperations(n, modulus, rows);
  }

  /** The bookkeeping of one round of square-and-multiply: done + p * step stays the exponent. */
  lemma HalveExponent(p: nat, step: nat, done: nat, power: nat)
    requires done + p * step == power
    ensures p % 2 == 1 ==> (done + step) + (p / 2) * (step + step) == power
    ensures p % 2 == 0 ==> done + (p / 2) * (step + step) == power
    ensures p / 2 == 0 ==> done + p % 2 * step == power
  {
    assert p == 2 * (p / 2) + p % 2;
  }

  /** What exponentiate accumulates: the unreduced identity, or a reduced power. */
  function PowerSoFar(a: Matrix, n: nat, e: nat, mod: int): Matrix
    requires mod > 0
  {
    if e == 0 then Identity(n) else Reduce(Power(a, n, e), mod)
  }

  /** The repeatedly squared base: the matrix itself, or a reduced power. */
  function BasePower(a: Matrix, n: nat, e: nat, mod: int): Matrix
    requires mod > 0
  {
    if e == 1 then a else Reduce(Power(a, n, e), mod)
  }

  /** Multiplying the accumulated power by the current base power adds the exponents. */
  lemma ResultStep(a: Matrix, n: nat, r: Matrix, b: Matrix, product: Matrix, done: nat, step: nat, e: nat, mod: int)
    requires IsSquare(a, n) && mod > 0 && step >= 1 && e == done + step
    requires r == PowerSoFar(a, n, done, mod)
    requires b == BasePower(a, n, step, mod)
    requires product == Reduce(Mul(r, b, n), mod)
    ensures product == PowerSoFar(a, n, e, mod)
  {
    CongruentAccumulator(r, a, n, done, mod);
    CongruentPower(b, a, n, step, mod);
    MulPowers(r, b, a, n, done, step, e, mod);
  }

  /** Squaring the base power doubles its exponent. */
  lemma BaseStep(a: Matrix, n: nat, b: Matrix, square: Matrix, step: nat, e: nat, mod: int)
    requires IsSquare(a, n) && mod > 0 && step >= 1 && e == step + step
    requires b == BasePower(a, n, step, mod)
    requires square == Reduce(Mul(b, b, n), mod)
    ensures square == BasePower(a, n, e, mod)
  {
    CongruentPower(b, a, n, step, mod);
    MulPowers(b, b, a, n, step, step, e, mod);
  }

  /** The transformation matrix: a first row of ones above a shift. */
  function Companion(): (c: Matrix)
    ensures IsSquare(c, 5) && NonNegative(c)
  {
    [[1, 1, 1, 1, 1],
     [1, 0, 0, 0, 0],
     [0, 1, 0, 0, 0],
     [0, 0, 1, 0, 0],
     [0, 0, 0, 1, 0]]
  }

  /** Five consecutive terms, newest first, as column 0 of a 5x5 matrix. */
  function Window(k: nat): (w: Matrix)
    ensures IsSquare(w, 5)
    ensures forall i, j :: 0 <= i < 5 && 0 <= j < 5 ==> w[i][j] == if j == 0 then Pentanacci(k + 4 - i) else 0
  {
    seq(5, i requires 0 <= i < 5 => seq(5, j => if j == 0 then Pentanacci(k + 4 - i) else 0))
  }

  /** A five-term dot product written out. */
  lemma DotFive(a: Matrix, b: Matrix, i: int, j: int)
    ensures Dot(a, b, i, j, 5) == At(a, i, 0) * At(b, 0, j) + At(a, i, 1) * At(b, 1, j)
      + At(a, i, 2) * At(b, 2, j) + At(a, i, 3) * At(b, 3, j) + At(a, i, 4) * At(b, 4, j)
  {
    assert Dot(a, b, i, j, 1) == At(a, i, 0) * At(b, 0, j);
    assert Dot(a, b, i, j, 3) == Dot(a, b, i, j, 2) + At(a, i, 2) * At(b, 2, j);
  }

  /** The entries of the companion matrix: row 0 is all ones, row i > 0 has its one in column i - 1. */
  lemma CompanionAt(i: int, t: int)
    requires 0 <= i < 5 && 0 <= t < 5
    ensures At(Companion(), i, t) == if i == 0 || t == i - 1 then 1 else 0
  {
  }

  /** The entries of a window. */
  lemma WindowAt(k: nat, t: int, j: int)
    requires 0 <= t < 5 && 0 <= j < 5
    ensures At(Window(k), t, j) == if j == 0 then Pentanacci(k + 4 - t) else 0
  {
  }

  /** One term of the dot product of a companion row with a window column. */
  lemma CompanionTerm(k: nat, i: int, t: int, j: int)
    requires 0 <= i < 5 && 0 <= t < 5 && 0 <= j < 5
    ensures At(Companion(), i, t) * At(Window(k), t, j)
      == if j == 0 && (i == 0 || t == i - 1) then Pentanacci(k + 4 - t) else 0
  {
    CompanionAt(i, t);
    WindowAt(k, t, j);
  }

  /** The dot product of companion row i with window column j, term by term. */
  lemma CompanionDot(k: nat, i: int, j: int)
    requires 0 <= i < 5 && 0 <= j < 5
    ensures Dot(Companion(), Window(k), i, j, 5)
      == (if j == 0 && (i == 0 || i == 1) then Pentanacci(k + 4) else 0)
       + (if j == 0 && (i == 0 || i == 2) then Pentanacci(k + 3) else 0)
       + (if j == 0 && (i == 0 || i == 3) then Pentanacci(k + 2) else 0)
       + (if j == 0 && (i == 0 || i == 4) then Pentanacci(k + 1) else 0)
       + (if j == 0 && i == 0 then Pentanacci(k) else 0)
  {
    DotFive(Companion(), Window(k), i, j);
    CompanionTerm(k, i, 0, j);
    CompanionTerm(k, i, 1, j);
    CompanionTerm(k, i, 2, j);
    CompanionTerm(k, i, 3, j);
    CompanionTerm(k, i, 4, j);
  }

  /** One entry of the companion matrix times a window. */
  lemma CompanionEntry(k: nat, i: int, j: int)
    requires 0 <= i < 5 && 0 <= j < 5
    ensures Dot(Companion(), Window(k), i, j, 5) == Window(k + 1)[i][j]
  {
    CompanionDot(k, i, j);
    WindowAt(k + 1, i, j);
    if j == 0 {
      if i == 0 {
        assert Pentanacci(k + 5) == Pentanacci(k + 4) + Pentanacci(k + 3) + Pentanacci(k + 2) + Pentanacci(k + 1) + Pentanacci(k);
      } else if i == 1 {
        assert k + 1 + 4 - i == k + 4;
      } else if i == 2 {
        assert k + 1 + 4 - i == k + 3;
      } else if i == 3 {
        assert k + 1 + 4 - i == k + 2;
      } else {
        assert k + 1 + 4 - i == k + 1;
      }
    }
  }

  /** The companion matrix advances the window by one term: it encodes the recurrence. */
  lemma CompanionStep(k: nat)
    ensures Mul(Companion(), Window(k), 5) == Window(k + 1)
  {
    var l, r := Mul(Companion(), Window(k), 5), Window(k + 1);
    forall i | 0 <= i < 5
      ensures l[i] == r[i]
    {
      forall j | 0 <= j < 5
        ensures l[i][j] == r[i][j]
      {
        CompanionEntry(k, i, j);
      }
    }
  }

  /** The d-th power of the companion matrix carries the first window to the d-th. */
  lemma {:induction false} CompanionPower(d: nat)
    ensures Mul(Power(Companion(), 5, d), Window(0), 5) == Window(d)
  {
    var c := Companion();
    if d == 0 {
      MulIdentityLeft(Window(0), 5);
    } else {
      CompanionPower(d - 1);
      PowerAdd(c, 5, 1, d - 1);
      PowerOne(c, 5);
      MulAssoc(c, Power(c, 5, d - 1), Window(0), 5);
      CompanionStep(d - 1);
    }
  }

  /** Row 0 of the d-th power against the seeds, newest first, is term d + 4. */
  lemma PowerRowZero(d: nat)
    ensures Dot(Power(Companion(), 5, d), Window(0), 0, 0, 5) == Pentanacci(d + 4)
  {
    CompanionPower(d);
  }

  /** The seeds, oldest first, sit in column 0 of the first window, newest first. */
  lemma SeedInWindow(i: int)
    requires 0 <= i < 5
    ensures At(Window(0), i, 0) == [1, 1, 2, 4, 8][4 - i]
  {
  }

  /** One step of the closing loop of calculateResult. */
  lemma AccumulateRow(rows: Matrix, w: Matrix, i: nat, y: int, acc: int, mod: int)
    requires mod > 0 && IsSquare(rows, 5) && i < 5
    requires acc == Dot(rows, w, 0, 0, i) % mod && y == At(w, i, 0)
    ensures (acc + rows[0][i] * y) % mod == Dot(rows, w, 0, 0, i + 1) % mod
  {
    AccumulateMod(Dot(rows, w, 0, 0, i), rows[0][i] * y, mod);
  }

  /**
   * The closing loop of calculateResult: row 0 of the power against the
   * seeds, newest first, reduced as it goes.
   */
  method CombineWithSeeds(rows: Matrix, initialSequence: seq<int>, cntJumps: nat, modulus: int) returns (finalResult: int)
    requires IsSquare(rows, 5) && initialSequence == [1, 1, 2, 4, 8] && cntJumps == 5 && modulus > 0
    ensures 0 <= finalResult < modulus
    ensures finalResult == Dot(rows, Window(0), 0, 0, 5) % modulus
  {
    ghost var w := Window(0);
    finalResult := 0;
    for i := 0 to cntJumps
      invariant 0 <= finalResult < modulus
      invariant finalResult == Dot(rows, w, 0, 0, i) % modulus
    {
      SeedInWindow(i);
      AccumulateRow(rows, w, i, initialSequence[cntJumps - i - 1], finalResult, modulus);
      finalResult := (finalResult + rows[0][i] * initialSequence[cntJumps - i - 1]) % modulus;
    }
  }

  class MatrixSolver {
    var initialSequence: seq<int>
    var transformationMatrix: MatrixOperations
    var distance: nat
    var cntJumps: nat
    var modulus: int

    /** The one configuration the program builds: five jumps, the seeds and the companion matrix. */
    ghost predicate Valid()
      reads this
    {
      cntJumps == 5 && initialSequence == [1, 1, 2, 4, 8]
      && transformationMatrix.Valid() && transformationMatrix.size == 5
      && transformationMatrix.mod == modulus
      && transformationMatrix.matrix == Companion()
    }

    /**
     * MatrixSolver(dist, jumps, mod): distance is dist - jumps when dist is at
     * least jumps, else dist. The row assignments of the transformation
     * matrix assume jumps == 5, the only value the program uses.
     */
    constructor(dist: nat, jumps: nat, mod: int)
      requires jumps == 5
      ensures Valid()
      ensures distance == (if dist >= jumps then dist - jumps else dist)
      ensures cntJumps == jumps && modulus == mod
    {
      var zero := NewMatrix(jumps, mod, false);
      distance := if dist >= jumps then dist - jumps else dist;
      cntJumps := jumps;
      modulus := mod;
      initialSequence := [1, 1, 2, 4, 8];
      transformationMatrix := zero;
      new;
      InitializeTransformationMatrix();
    }

    /** initializeTransformationMatrix: the rows of the companion matrix, written in place. */
    method InitializeTransformationMatrix()
      requires transformationMatrix.Valid() && transformationMatrix.size == 5
      modifies this
      ensures transformationMatrix == old(transformationMatrix).(matrix := Companion())
      ensures transformationMatrix.Valid()
      ensures initialSequence == old(initialSequence) && distance == old(distance)
      ensures cntJumps == old(cntJumps) && modulus == old(modulus)
    {
      var t := transformationMatrix.matrix;
      t := t[0 := [1, 1, 1, 1, 1]];
      t := t[1 := [1, 0, 0, 0, 0]];
      t := t[2 := [0, 1, 0, 0, 0]];
      t := t[3 := [0, 0, 1, 0, 0]];
      t := t[4 := [0, 0, 0, 1, 0]];
      transformationMatrix := transformationMatrix.(matrix := t);
    }

    /**
     * calculateResult: a seed for a small distance, otherwise term
     * distance + 4 of the recurrence modulo modulus.
     */
    method CalculateResult() returns (r: int)
      requires Valid() && (distance >= cntJumps ==> modulus > 0)
      ensures distance < cntJumps ==> r == initialSequence[distance] == Pentanacci(distance)
      ensures distance >= cntJumps ==> 0 <= r < modulus && r == Pentanacci(distance + 4) % modulus
    {
      if distance < cntJumps {
        return initialSequence[distance];
      }
      var resultMatrix := transformationMatrix.Exponentiate(distance);
      var finalResult := CombineWithSeeds(resultMatrix.matrix, initialSequence, cntJumps, modulus);
      ghost var w := Window(0);
      DotReduceLeft(Power(Companion(), 5, distance), w, 0, 0, 5, modulus);
      PowerRowZero(distance);
      return finalResult;
    }
  }

  /**
   * What the program prints for the distance it reads, in terms of the
   * recurrence: the seed itself below 5, the seed five back from 5 to 9, and
   * term dist - 1 modulo 1000003 from 10 on.
   */
  method Answer(dist: nat) returns (r: int)
    ensures dist < 5 ==> r == Pentanacci(dist)
    ensures 5 <= dist < 10 ==> r == Pentanacci(dist - 5)
    ensures dist >= 10 ==> r == Pentanacci(dist - 1) % 1000003
  {
    var solver := new MatrixSolver(dist, 5, 1000003);
    r := solver.CalculateResult();
  }
}
