/**
 * The arbitrary-precision signed integer: a sign flag and a little-endian
 * sequence of base-10^9 blocks holding the magnitude, updated in place by
 * its compound-assignment operators.
 */
module BigNum {
  import opened Blocks
  import opened Decimal

  const INT64_MIN: int := -0x8000_0000_0000_0000
  const INT64_MAX: int := 0x7fff_ffff_ffff_ffff
  const UINT64_MAX: int := 0xffff_ffff_ffff_ffff

  /** The result of a three-way comparison. */
  datatype Ordering = Less | Equal | Greater

  function Abs(x: int): nat
  {
    if x < 0 then -x else x
  }

  /**
   * Quotient of integers rounded toward zero, as the integer division of C++;
   * a zero divisor gives 0, which is what the division operator returns then.
   */
  function TruncDiv(a: int, b: int): int
  {
    if b == 0 then 0
    else if (a >= 0) == (b >= 0) then Abs(a) / Abs(b)
    else -(Abs(a) / Abs(b))
  }

  /** std::to_string of a 64-bit signed integer. */
  function Int64ToString(k: int): (s: string)
    ensures CanonicalDecimal(s)
    ensures WellFormed(s) && DecimalValue(s) == k
    ensures s[0] == '-' <==> k < 0
    ensures k < 0 ==> s[1] != '0'
  {
    if k < 0 then
      var t := ToDecimal(-k);
      assert ("-" + t)[1..] == t;
      "-" + t
    else
      ToDecimal(k)
  }

  /** The remainder left by truncating division: a - (a / b) * b in C++. */
  function TruncRem(a: int, b: int): int
  {
    a - TruncDiv(a, b) * b
  }

  /**
   * The remainder left by truncating division is smaller than the divisor in
   * absolute value and is zero or carries the sign of the dividend.
   */
  lemma TruncRemBounds(a: int, b: int)
    requires b != 0
    ensures Abs(TruncRem(a, b)) < Abs(b)
    ensures TruncRem(a, b) == 0 || (TruncRem(a, b) > 0 <==> a > 0)
  {
    var x: int, y: int := Abs(a), Abs(b);
    var q: int, r: int := x / y, x % y;
    EuclidFacts(x, y);
    SignedProducts(q, y);
    var t := TruncDiv(a, b);
    if b > 0 && a >= 0 {
      assert t == q && b == y && a == x;
      assert t * b == q * y;
      assert TruncRem(a, b) == r;
    } else if b > 0 {
      assert t == -q && b == y && a == -x;
      assert t * b == -(q * y);
      assert TruncRem(a, b) == -r;
    } else if a >= 0 {
      assert t == -q && b == -y && a == x;
      assert t * b == q * y;
      assert TruncRem(a, b) == r;
    } else {
      assert t == q && b == -y && a == -x;
      assert t * b == -(q * y);
      assert TruncRem(a, b) == -r;
    }
  }

  lemma EuclidFacts(x: nat, y: nat)
    requires y > 0
    ensures x == (x / y) * y + x % y && 0 <= x % y < y
  {
  }

  lemma SignedProducts(q: int, y: int)
    ensures (-q) * (-y) == q * y && (-q) * y == -(q * y) && q * (-y) == -(q * y)
  {
  }

  function Min(x: int, y: int): int
  {
    if x < y then x else y
  }

  /** One more block of b taken into the prefix sum (none once b is used up). */
  lemma PrefixStep(b: seq<int>, i: nat)
    ensures Val(b[..Min(i + 1, |b|)]) == Val(b[..Min(i, |b|)]) + (if i < |b| then b[i] else 0) * Pow(i)
  {
    if i < |b| {
      assert b[..i + 1] == b[..i] + [b[i]];
      ValAppend(b[..i], b[i]);
    }
  }

  /**
   * One block of the addition loop: adding the carry c and the block t of b
   * at position i (then carrying out of it) extends the sum by that block.
   */
  lemma AddStep(s: seq<int>, b: seq<int>, i: nat, c: int, t: int, a: int)
    requires i < |s| && (c == 0 || c == 1) && t == (if i < |b| then b[i] else 0)
    requires Val(s) + (if c == 1 then Pow(i) else 0) == a + Val(b[..Min(i, |b|)])
    ensures Val(s[i := s[i] + (c + t)]) == a + Val(b[..Min(i + 1, |b|)])
    ensures Val(s[i := s[i] + (c + t)][i := s[i] + (c + t) - BASE]) + Pow(i + 1) == a + Val(b[..Min(i + 1, |b|)])
  {
    PrefixStep(b, i);
    var s1 := s[i := s[i] + (c + t)];
    ValAdd(s, i, c + t);
    ValSub(s1, i, BASE);
    PowStep(i);
    Spread(c, t, Pow(i));
  }

  /**
   * One block of the subtraction loop: taking the block t of b and the
   * borrow c at position i (then borrowing into it) extends the difference.
   */
  lemma SubStep(s: seq<int>, b: seq<int>, i: nat, c: int, t: int, a: int)
    requires i < |s| && (c == 0 || c == 1) && t == (if i < |b| then b[i] else 0)
    requires Val(s) - (if c == 1 then Pow(i) else 0) == a - Val(b[..Min(i, |b|)])
    ensures Val(s[i := s[i] - (t + c)]) == a - Val(b[..Min(i + 1, |b|)])
    ensures Val(s[i := s[i] - (t + c)][i := s[i] - (t + c) + BASE]) - Pow(i + 1) == a - Val(b[..Min(i + 1, |b|)])
  {
    PrefixStep(b, i);
    var s1 := s[i := s[i] - (t + c)];
    ValSub(s, i, t + c);
    ValAdd(s1, i, BASE);
    PowStep(i);
    Spread(c, t, Pow(i));
  }

  lemma Spread(c: int, t: int, p: int)
    requires c == 0 || c == 1
    ensures (c + t) * p == (if c == 1 then p else 0) + t * p
    ensures (t + c) * p == (if c == 1 then p else 0) + t * p
  {
  }

  /** `0 <=> result`: the comparison seen from the other side. */
  function Reversed(o: Ordering): (r: Ordering)
    ensures (o == Less <==> r == Greater) && (o == Greater <==> r == Less)
    ensures o == Equal <==> r == Equal
  {
    match o
    case Less => Greater
    case Equal => Equal
    case Greater => Less
  }

  lemma Regroup(d: int, p: int, q: int)
    ensures d * p + (BASE * p) * q == p * (d + BASE * q)
  {
  }

  /** A product of two blocks is below (BASE - 1)^2 + 1. */
  lemma ProductBound(x: int, y: int)
    requires 0 <= x < BASE && 0 <= y < BASE
    ensures 0 <= x * y <= (BASE - 1) * (BASE - 1)
  {
    MulLeft(0, x, y);
    MulLeft(x, BASE - 1, y);
    MulLeft(y, BASE - 1, BASE - 1);
  }

  /** An accumulator below BASE^2 splits into a carry and a remainder that are blocks. */
  lemma CarryBound(v: int)
    requires 0 <= v <= BASE * BASE - 1
    ensures 0 <= v / BASE < BASE && 0 <= v % BASE < BASE
  {
  }

  lemma Rearrange(x: int, y: int, p: int, q: int, v: int)
    ensures x * p * (v + y * q) == x * p * v + x * y * (p * q)
  {
    assert x * p * (y * q) == x * y * (p * q);
  }

  /** Accumulating the partial product x * b[j] at block i + j of the product. */
  lemma ProductStep(s: seq<int>, b: seq<int>, i: nat, j: nat, x: int, done: int)
    requires i + j < |s| && j < |b|
    requires Val(s) == done + x * Pow(i) * Val(b[..j])
    ensures Val(s[i + j := s[i + j] + x * b[j]]) == done + x * Pow(i) * Val(b[..j + 1])
  {
    ValAdd(s, i + j, x * b[j]);
    ValLast(b[..j + 1]);
    assert b[..j + 1][..j] == b[..j];
    PowAdd(i, j);
    Rearrange(x, b[j], Pow(i), Pow(j), Val(b[..j]));
  }

  /** Moving the overflow of block f into block f + 1 keeps the value. */
  lemma CarryStep(t: seq<int>, f: nat)
    requires f + 1 < |t| && t[f] >= 0
    ensures Val(t[f + 1 := t[f + 1] + t[f] / BASE][f := t[f] % BASE]) == Val(t)
  {
    var q := t[f] / BASE;
    var u := t[f + 1 := t[f + 1] + q];
    ValAdd(t, f + 1, q);
    ValUpdate(u, f, t[f] % BASE);
    PowStep(f);
    assert t[f] % BASE - u[f] == -q * BASE;
    assert -q * BASE * Pow(f) == -q * Pow(f + 1);
  }

  /** A finished row of the product adds a[i] * BASE^i times the other factor. */
  lemma RowDone(a: seq<int>, i: nat, b: seq<int>)
    requires i < |a|
    ensures Val(a[..i]) * Val(b) + a[i] * Pow(i) * Val(b[..|b|]) == Val(a[..i + 1]) * Val(b)
  {
    assert b[..|b|] == b;
    ValLast(a[..i + 1]);
    assert a[..i + 1][..i] == a[..i];
    var u, d, p, v := Val(a[..i]), a[i], Pow(i), Val(b);
    assert (u + d * p) * v == u * v + d * p * v;
  }

  /** The sign rule: like signs give a positive product. */
  lemma SignRule(f1: bool, f2: bool, m1: int, m2: int)
    ensures (if f1 == f2 then m1 * m2 else -(m1 * m2))
         == (if f1 then m1 else -m1) * (if f2 then m2 else -m2)
  {
  }

  /** A quotient block is below BASE when the remainder before the shift is below the divisor. */
  lemma QuotientBlock(c: int, d: int, bv: int, x: int)
    requires 0 <= c < bv && 0 <= d < BASE && 0 <= x
    requires bv * x <= c * BASE + d
    ensures x < BASE
  {
    if x >= BASE {
      MulLeft(BASE, x, bv);
      MulLeft(c + 1, bv, BASE);
    }
  }

  /** One step of long division keeps dividend == divisor * quotient + remainder. */
  lemma DivStep(a: int, q: int, c: int, d: int, x: int, bv: int)
    requires a == bv * q + c
    ensures d + BASE * a == bv * (x + BASE * q) + (d + BASE * c - bv * x)
  {
  }

  /** The long-division invariant carried over one more block of the dividend. */
  lemma DivideStep(s: seq<int>, r: seq<int>, i: nat, x: int, bv: int, c: int, rest: int)
    requires i < |s| && |r| == |s|
    requires Val(s[i + 1..]) == bv * Val(r[i + 1..]) + c
    requires rest == s[i] + BASE * c - bv * x
    ensures Val(s[i..]) == bv * Val(r[i := x][i..]) + rest
  {
    ValHead(s[i..]);
    assert s[i..][1..] == s[i + 1..];
    ValHead(r[i := x][i..]);
    assert r[i := x][i..][1..] == r[i + 1..];
    DivStep(Val(s[i + 1..]), Val(r[i + 1..]), c, s[i], x, bv);
  }

  /** Writing a block in range below a suffix in range extends the suffix. */
  lemma InRangeStep(r: seq<int>, i: nat, x: int)
    requires i < |r| && InRange(r[i + 1..]) && 0 <= x < BASE
    ensures InRange(r[i := x][i..])
  {
    assert r[i := x][i..] == [x] + r[i + 1..];
  }

  /** Euclidean division is determined by its bounds. */
  lemma DivUnique(a: nat, bv: int, q: nat)
    requires bv > 0 && bv * q <= a < bv * (q + 1)
    ensures q == a / bv
  {
    var q0 := a / bv;
    EuclidFacts(a, bv);
    if q < q0 {
      MulLeft(q + 1, q0, bv);
    } else if q > q0 {
      MulLeft(q0 + 1, q, bv);
    }
  }

  /** What long division leaves behind: the floor quotient and its bounds. */
  lemma DivideFacts(a: nat, bv: int, q: nat, c: int)
    requires a == bv * q + c && 0 <= c < bv
    ensures q * bv <= a < (q + 1) * bv && q == a / bv
  {
    assert (q + 1) * bv == bv * q + bv;
    DivUnique(a, bv, q);
  }

  /** The truncated quotient of two nonzero signed magnitudes. */
  lemma TruncDivSigns(fa: bool, fd: bool, a: int, d: int, v: int, w: int)
    requires a > 0 && d > 0
    requires v == (if fa then a else -a) && w == (if fd then d else -d)
    ensures TruncDiv(v, w) == (if fa == fd then a / d else -(a / d))
  {
  }

  /** Zero divided by anything, or anything by zero, is zero here. */
  lemma TruncDivZero(a: int, d: int)
    requires a == 0 || d == 0
    ensures TruncDiv(a, d) == 0
  {
  }

  /** Appending the padded digits of block i extends the rendering of the blocks above it. */
  lemma RenderStep(digits: string, block: string, s: seq<int>, i: nat)
    requires CanonicalDigits(digits) && digits[0] != '0'
    requires i < |s| && DigitsVal(digits) == Val(s[i + 1..])
    requires |block| == 9 && AllDigits(block) && DigitsVal(block) == s[i]
    ensures CanonicalDigits(digits + block) && (digits + block)[0] != '0'
    ensures DigitsVal(digits + block) == Val(s[i..])
  {
    DigitsConcat(digits, block);
    DigitsJoin(digits, block);
    Pow10Blocks(1);
    ValHead(s[i..]);
    assert s[i..][1..] == s[i + 1..];
  }

  /** Canonical digits are what to_string writes for their value. */
  lemma RenderedDigits(digits: string, v: int)
    requires CanonicalDigits(digits) && DigitsVal(digits) == v
    ensures v >= 0 && digits == ToDecimal(v)
  {
    DigitsBound(digits);
    CanonicalDigitsUnique(digits, ToDecimal(v));
  }

  lemma AppendAssoc(a: string, b: string, c: string)
    ensures (a + b) + c == a + (b + c)
  {
  }

  /** The sign prefix in front of canonical digits gives a canonical decimal of the signed value. */
  lemma SignedRender(neg: bool, prefix: string, digits: string, m: int, r: string)
    requires prefix == (if neg then "-" else "") && r == prefix + digits
    requires CanonicalDigits(digits) && DigitsVal(digits) == m && (neg ==> m > 0)
    ensures CanonicalDecimal(r) && WellFormed(r) && DecimalValue(r) == (if neg then -m else m)
  {
    if neg {
      assert r[1..] == digits;
      assert DigitsVal("0") == 0;
    } else {
      assert r == digits;
    }
    CanonicalIsWellFormed(r);
  }

  /** std::vector::resize: truncate, or pad with zeros. */
  function Resize(v: seq<int>, n: nat): (r: seq<int>)
    ensures |r| == n
    ensures forall k :: 0 <= k < n ==> r[k] == (if k < |v| then v[k] else 0)
  {
    if n <= |v| then v[..n] else v + Zeros(n - |v|)
  }

  class BigInt {
    /** The magnitude, least-significant block first. */
    var arr: seq<int>
    var positiveFlag: bool

    /** Every BigInt keeps its blocks canonical (the sign of zero is free). */
    ghost predicate Valid()
      reads this
    {
      Canonical(arr)
    }

    ghost function Magnitude(): nat
      reads this
      requires Valid()
    {
      ValBounds(arr);
      Val(arr)
    }

    /** The integer denoted; a zero magnitude denotes 0 whatever the flag. */
    ghost function Value(): int
      reads this
      requires Valid()
    {
      var m: int := Magnitude();
      if positiveFlag then m else -m
    }

    /** BigInt(int64_t): the extreme values are routed through the decimal constructor. */
    constructor FromInt64(k: int)
      requires INT64_MIN <= k <= INT64_MAX
      ensures Valid() && Value() == k && positiveFlag == (k >= 0)
    {
      var special := k == INT64_MIN || k == INT64_MAX;
      if special {
        var blocks, positive := BigInt.ViaDecimal(k);
        arr, positiveFlag := blocks, positive;
      } else {
        positiveFlag := k >= 0;
        var blocks := BigInt.Decompose(if k < 0 then -k else k);
        arr := blocks;
      }
      new;
      if !special {
        RemovingZeros();
      }
      assert Canonical(arr) && Val(arr) == Abs(k);
    }

    /** The value built by the decimal constructor from std::to_string(k). */
    static method ViaDecimal(k: int) returns (blocks: seq<int>, positive: bool)
      requires k != 0
      ensures Canonical(blocks) && Val(blocks) == Abs(k) && positive == (k >= 0)
    {
      var t := new BigInt.FromString(Int64ToString(k));
      blocks, positive := t.arr, t.positiveFlag;
    }

    /** BigInt(unsigned long long). */
    constructor FromUInt64(v: int)
      requires 0 <= v <= UINT64_MAX
      ensures Valid() && Value() == v && positiveFlag
    {
      positiveFlag := true;
      var blocks := BigInt.Decompose(v);
      arr := blocks;
      new;
      RemovingZeros();
    }

    /**
     * BigInt(const std::string&): the digits after an optional '-' are read
     * nine at a time from the end; "-0..." is read as positive.
     */
    constructor FromString(str: string)
      requires WellFormed(str)
      ensures Valid()
      ensures positiveFlag == !(str[0] == '-' && str[1] != '0')
      ensures Magnitude() == DigitsVal(if str[0] == '-' then str[1..] else str)
      ensures CanonicalDecimal(str) ==> Value() == DecimalValue(str)
    {
      var blocks, positive := BigInt.ParseBlocks(str);
      arr, positiveFlag := blocks, positive;
      new;
      RemovingZeros();
      if CanonicalDecimal(str) && str[0] == '-' {
        PositiveUnlessZero(str[1..]);
      }
    }

    /** The copy constructor. */
    constructor Copy(other: BigInt)
      requires other.Valid()
      ensures Valid() && arr == other.arr && positiveFlag == other.positiveFlag
    {
      arr, positiveFlag := other.arr, other.positiveFlag;
    }

    /** The blocks of a natural number, as the integer constructors push them. */
    static method Decompose(v: nat) returns (blocks: seq<int>)
      ensures InRange(blocks) && Val(blocks) == v
      ensures |blocks| == 0 || blocks[|blocks| - 1] != 0
      ensures |blocks| == 0 <==> v == 0
    {
      blocks := [];
      var k := v;
      while k > 0
        invariant k >= 0 && InRange(blocks)
        invariant Val(blocks) + Pow(|blocks|) * k == v
        invariant k == 0 && |blocks| > 0 ==> blocks[|blocks| - 1] != 0
        invariant |blocks| > 0 ==> v > 0
      {
        var d, k' := k % BASE, k / BASE;
        ValAppend(blocks, d);
        var p := Pow(|blocks|);
        assert Pow(|blocks| + 1) == BASE * p;
        Regroup(d, p, k');
        assert d + BASE * k' == k;
        blocks := blocks + [d];
        k := k';
      }
    }

    /**
     * The block-parsing loop of the decimal constructor: the sign and the
     * blocks of the digits after it.
     */
    static method ParseBlocks(str: string) returns (blocks: seq<int>, positive: bool)
      requires WellFormed(str)
      ensures InRange(blocks) && |blocks| >= 1
      ensures Val(blocks) == DigitsVal(if str[0] == '-' then str[1..] else str)
      ensures positive == !(str[0] == '-' && str[1] != '0')
    {
      positive := true;
      var size := (|str| + 8) / 9;
      blocks := Zeros(size);
      var presf := 0;
      if |str| > 0 && str[0] == '-' {
        positive := false;
        if str[1] == '0' {
          positive := true;
        }
        presf := presf + 1;
      }
      assert AllDigits(str[presf..]);
      var cur := 0;
      var i := |str| - 1;
      ghost var done := |str|;
      while i >= presf
        invariant presf <= done <= |str| && 0 <= cur <= size && |blocks| == size
        invariant i >= presf ==> i == done - 1 && |str| - done == 9 * cur
        invariant i < presf ==> done == presf
        invariant InRange(blocks)
        invariant forall k :: cur <= k < size ==> blocks[k] == 0
        invariant Val(blocks[..cur]) == DigitsVal(str[done..])
        decreases i + 1
      {
        var lo := if i - 9 + 1 >= presf then i - 9 + 1 else presf;
        DigitsInside(str, presf, lo, i + 1);
        var block := ReadDigits(str, lo, i + 1);
        BlockCount(|str|, cur);
        ghost var prev := blocks;
        blocks := blocks[cur := block];
        PlaceBlock(str, lo, done, block, prev, cur);
        cur := cur + 1;
        i := i - 9;
        done := lo;
      }
      ValZeroTail(blocks, cur);
    }

    /** The Horner loop reading the digits str[lo..hi] into one number. */
    static method ReadDigits(str: string, lo: nat, hi: nat) returns (block: int)
      requires lo <= hi <= |str| && AllDigits(str[lo..hi])
      ensures block == DigitsVal(str[lo..hi])
    {
      block := 0;
      var j := lo;
      while j < hi
        invariant lo <= j <= hi
        invariant block == DigitsVal(str[lo..j])
      {
        assert str[lo..j + 1] == str[lo..j] + [str[j]];
        assert str[j] == str[lo..hi][j - lo];
        DigitsAppend(str[lo..j], str[j]);
        block := block * 10 + Digit(str[j]);
        j := j + 1;
      }
    }

    static lemma BlockCount(n: int, cur: int)
      requires 0 <= 9 * cur < n
      ensures cur < (n + 8) / 9
    {
    }

    /** The digits of one block, read from within the digit part of the string. */
    static lemma DigitsInside(str: string, presf: nat, lo: nat, hi: nat)
      requires presf <= lo <= hi <= |str| && AllDigits(str[presf..])
      ensures AllDigits(str[lo..hi])
    {
      DigitsSlice(str[presf..], lo - presf, hi - presf);
      assert str[presf..][lo - presf..hi - presf] == str[lo..hi];
    }

    /**
     * Storing the block of digits str[lo..done] at block position cur extends
     * the parsed value to the digits str[lo..].
     */
    static lemma PlaceBlock(str: string, lo: nat, done: nat, block: int, blocks: seq<int>, cur: nat)
      requires lo <= done <= |str| && done - lo <= 9 && 9 * cur == |str| - done && cur < |blocks|
      requires AllDigits(str[lo..done]) && block == DigitsVal(str[lo..done])
      requires Val(blocks[..cur]) == DigitsVal(str[done..])
      ensures 0 <= block < BASE
      ensures Val(blocks[cur := block][..cur + 1]) == DigitsVal(str[lo..])
    {
      DigitsBound(str[lo..done]);
      Pow10Mono(done - lo, 9);
      assert Pow10(9) == BASE;
      assert str[lo..] == str[lo..done] + str[done..];
      DigitsConcat(str[lo..done], str[done..]);
      Pow10Blocks(cur);
      assert blocks[cur := block][..cur + 1] == blocks[..cur] + [block];
      ValAppend(blocks[..cur], block);
    }

    /** Drops most-significant zero blocks, keeping at least one block. */
    method RemovingZeros()
      modifies this
      ensures positiveFlag == old(positiveFlag)
      ensures |arr| >= 1 && (arr == [0] || arr[|arr| - 1] != 0)
      ensures arr == [0] || (|arr| <= |old(arr)| && arr == old(arr)[..|arr|])
      ensures Val(arr) == Val(old(arr))
      ensures InRange(old(arr)) ==> Canonical(arr)
    {
      while |arr| > 0 && arr[|arr| - 1] == 0
        invariant |arr| <= |old(arr)| && arr == old(arr)[..|arr|]
        invariant Val(arr) == Val(old(arr))
        invariant positiveFlag == old(positiveFlag)
      {
        ValLast(arr);
        arr := arr[..|arr| - 1];
      }
      if |arr| == 0 {
        arr := arr + [0];
        ValHead(arr);
        assert arr[1..] == [];
      }
    }

    function IsZero(): (r: bool)
      reads this
      requires Valid()
      ensures r <==> Magnitude() == 0
    {
      CanonicalZero(arr);
      arr[0] == 0 && |arr| == 1
    }

    /** operator<=>: the three-way comparison of the denoted integers. */
    method Compare(other: BigInt) returns (r: Ordering)
      requires Valid() && other.Valid()
      ensures r == Less <==> Value() < other.Value()
      ensures r == Equal <==> Value() == other.Value()
      ensures r == Greater <==> Value() > other.Value()
    {
      if IsZero() && other.IsZero() {
        return Equal;
      }
      var s1, s2 := |arr|, |other.arr|;
      var posf := other.positiveFlag;
      if positiveFlag != posf {
        return if positiveFlag then Greater else Less;
      }
      var toReverseSign := !positiveFlag && !posf;
      if s1 != s2 {
        if s1 < s2 {
          LongerIsLarger(arr, other.arr);
        } else {
          LongerIsLarger(other.arr, arr);
        }
        var result := if s1 < s2 then Less else Greater;
        return if !positiveFlag then Reversed(result) else result;
      }
      var i := s1 - 1;
      while i >= 0
        invariant -1 <= i < s1
        invariant arr[i + 1..] == other.arr[i + 1..]
      {
        if arr[i] < other.arr[i] {
          LexLess(arr, other.arr, i);
          return if !toReverseSign then Less else Greater;
        }
        if arr[i] > other.arr[i] {
          LexLess(other.arr, arr, i);
          return if toReverseSign then Less else Greater;
        }
        i := i - 1;
      }
      assert arr == arr[0..] && other.arr == other.arr[0..];
      return Equal;
    }

    /** operator==: equality of the denoted integers (both zeros are equal). */
    method Equals(other: BigInt) returns (r: bool)
      requires Valid() && other.Valid()
      ensures r <==> Value() == other.Value()
    {
      if IsZero() && other.IsZero() {
        return true;
      }
      if positiveFlag != other.positiveFlag {
        return false;
      }
      if |arr| != |other.arr| {
        if |arr| < |other.arr| {
          LongerIsLarger(arr, other.arr);
        } else {
          LongerIsLarger(other.arr, arr);
        }
        return false;
      }
      for i := 0 to |arr|
        invariant arr[..i] == other.arr[..i]
      {
        if arr[i] != other.arr[i] {
          if Val(arr) == Val(other.arr) {
            SameLengthUnique(arr, other.arr);
          }
          return false;
        }
      }
      assert arr == arr[..|arr|] && other.arr == other.arr[..|arr|];
      return true;
    }

    /** AbsMeaning: whether the magnitude is at most the other's. */
    method AbsMeaning(other: BigInt) returns (r: bool)
      requires Valid() && other.Valid()
      ensures r <==> Magnitude() <= other.Magnitude()
    {
      if IsZero() && other.IsZero() {
        return true;
      }
      var size1, size2 := |arr|, |other.arr|;
      if size1 < size2 {
        LongerIsLarger(arr, other.arr);
        return true;
      }
      if size1 > size2 {
        LongerIsLarger(other.arr, arr);
        return false;
      }
      var i := size1 - 1;
      while i >= 0
        invariant -1 <= i < size1
        invariant arr[i + 1..] == other.arr[i + 1..]
      {
        if arr[i] > other.arr[i] {
          LexLess(other.arr, arr, i);
          return false;
        }
        if arr[i] < other.arr[i] {
          LexLess(arr, other.arr, i);
          return true;
        }
        assert arr[i..] == [arr[i]] + arr[i + 1..] && other.arr[i..] == [other.arr[i]] + other.arr[i + 1..];
        i := i - 1;
      }
      assert arr == arr[0..] && other.arr == other.arr[0..];
      return true;
    }

    /**
     * Plus: adds the other magnitude into this one in place, block by block,
     * stopping once the other operand and the carry are used up.
     */
    method Plus(num: BigInt)
      requires Valid() && num.Valid()
      modifies this
      ensures positiveFlag == old(positiveFlag)
      ensures InRange(arr) && |arr| >= 1
      ensures Val(arr) == old(Val(arr)) + old(Val(num.arr))
    {
      var b := num.arr;
      ghost var a0 := arr;
      var carry := false;
      var commonSize := if |arr| > |b| then |arr| else |b|;
      var toStop := false;
      var i := 0;
      while i < commonSize || carry
        invariant 0 <= i <= commonSize
        invariant |arr| == if i <= |a0| then |a0| else i
        invariant forall k :: i <= k < |arr| ==> arr[k] == a0[k]
        invariant InRange(arr)
        invariant toStop ==> i >= |b|
        invariant Val(arr) + (if carry then Pow(i) else 0) == Val(a0) + Val(b[..Min(i, |b|)])
        invariant positiveFlag == old(positiveFlag)
        decreases commonSize - i
      {
        if |arr| == i {
          ValAppend(arr, 0);
          arr := arr + [0];
        }
        var toAdd := 0;
        if i < |b| {
          toAdd := b[i];
        } else {
          toStop := true;
        }
        AddStep(arr, b, i, if carry then 1 else 0, toAdd, Val(a0));
        arr := arr[i := arr[i] + ((if carry then 1 else 0) + toAdd)];
        if arr[i] >= BASE {
          arr := arr[i := arr[i] - BASE];
          carry := true;
        } else {
          carry := false;
          if toStop {
            assert b[..Min(i + 1, |b|)] == b;
            break;
          }
        }
        i := i + 1;
      }
      if i >= |b| {
        assert b[..Min(i, |b|)] == b;
      }
    }

    /**
     * Subtract: the magnitude of num1 minus that of num2 (which must not be
     * larger), block by block with a borrow, keeping num1's sign.
     */
    static method Subtract(num1: BigInt, num2: BigInt) returns (res: BigInt)
      requires num1.Valid() && num2.Valid() && num2.Magnitude() <= num1.Magnitude()
      ensures fresh(res) && res.Valid()
      ensures res.Magnitude() == num1.Magnitude() - num2.Magnitude()
      ensures res.positiveFlag == num1.positiveFlag
    {
      res := new BigInt.Copy(num1);
      var a, b := num1.arr, num2.arr;
      var r := res.arr;
      if |a| < |b| {
        LongerIsLarger(a, b);
      }
      var size := if |a| > |b| then |a| else |b|;
      var carry := 0;
      var flag := false;
      var i := 0;
      while i < size || carry == 1
        invariant 0 <= i <= size && size == |a| && |r| == |a|
        invariant carry == 0 || carry == 1
        invariant carry == 1 ==> i < |a|
        invariant forall k :: i <= k < |a| ==> r[k] == a[k]
        invariant InRange(r)
        invariant flag ==> i >= |b|
        invariant Val(r) - (if carry == 1 then Pow(i) else 0) == Val(a) - Val(b[..Min(i, |b|)])
        invariant res.positiveFlag == num1.positiveFlag
        decreases size - i
      {
        var sub := 0;
        if i < |b| {
          sub := b[i];
        } else {
          flag := true;
        }
        SubStep(r, b, i, carry, sub, Val(a));
        r := r[i := r[i] - (sub + carry)];
        if r[i] < 0 {
          r := r[i := r[i] + BASE];
          carry := 1;
        } else {
          carry := 0;
          if flag {
            assert b[..Min(i + 1, |b|)] == b;
            break;
          }
        }
        if i + 1 == |a| {
          ValBounds(r);
          assert b[..Min(i + 1, |b|)] == b;
        }
        i := i + 1;
      }
      if i >= |b| {
        assert b[..Min(i, |b|)] == b;
      }
      res.arr := r;
      res.RemovingZeros();
    }

    /** SubtractWithAbs: |a| - |b| as a signed value, whichever magnitude is larger. */
    static method SubtractWithAbs(a: BigInt, b: BigInt) returns (res: BigInt)
      requires a.Valid() && b.Valid()
      ensures fresh(res) && res.Valid()
      ensures res.positiveFlag == (b.Magnitude() <= a.Magnitude())
      ensures res.Value() == a.Magnitude() - b.Magnitude()
    {
      var num2Less := b.AbsMeaning(a);
      if num2Less {
        res := Subtract(a, b);
        res.positiveFlag := true;
      } else {
        res := Subtract(b, a);
        res.positiveFlag := false;
      }
    }

    /** operator+=: same signs add magnitudes, different signs subtract them. */
    method AddAssign(num: BigInt)
      requires Valid() && num.Valid()
      modifies this
      ensures Valid()
      ensures Value() == old(Value()) + old(num.Value())
      ensures positiveFlag == (if old(positiveFlag) == old(num.positiveFlag) then old(positiveFlag)
                               else if old(positiveFlag) then old(num.Magnitude()) <= old(Magnitude())
                               else old(Magnitude()) <= old(num.Magnitude()))
    {
      if positiveFlag == num.positiveFlag {
        Plus(num);
      } else {
        var r;
        if positiveFlag {
          r := SubtractWithAbs(this, num);
        } else {
          r := SubtractWithAbs(num, this);
        }
        arr, positiveFlag := r.arr, r.positiveFlag;
      }
      RemovingZeros();
    }

    /** operator-=: adds the negated operand, by the same case split. */
    method SubAssign(num: BigInt)
      requires Valid() && num.Valid()
      modifies this
      ensures Valid()
      ensures Value() == old(Value()) - old(num.Value())
      ensures positiveFlag == (if old(positiveFlag) != old(num.positiveFlag) then old(positiveFlag)
                               else if old(positiveFlag) then old(num.Magnitude()) <= old(Magnitude())
                               else old(Magnitude()) <= old(num.Magnitude()))
    {
      if !num.positiveFlag {
        if positiveFlag {
          Plus(num);
        } else {
          var r := SubtractWithAbs(num, this);
          arr, positiveFlag := r.arr, r.positiveFlag;
        }
      } else {
        if !positiveFlag {
          Plus(num);
        } else {
          var r := SubtractWithAbs(this, num);
          arr, positiveFlag := r.arr, r.positiveFlag;
        }
      }
      RemovingZeros();
    }

    /**
     * The nested loop of operator*=: every product of blocks is added at
     * block i + j and an overflow is moved one block up at once.
     */
    static method MultiplyBlocks(a: seq<int>, b: seq<int>) returns (res: seq<int>)
      requires InRange(a) && InRange(b)
      ensures |res| == |a| + |b| && InRange(res)
      ensures Val(res) == Val(a) * Val(b)
    {
      res := Zeros(|a| + |b|);
      ValZeroTail(res, 0);
      for i := 0 to |a|
        invariant |res| == |a| + |b| && InRange(res)
        invariant forall k :: i + |b| <= k < |res| ==> res[k] == 0
        invariant Val(res) == Val(a[..i]) * Val(b)
      {
        res := AddRow(a[i], i, b, res, Val(a[..i]) * Val(b));
        RowDone(a, i, b);
      }
      assert a[..|a|] == a;
    }

    /** The inner loop of operator*=: the block x at position i times every block of b. */
    static method AddRow(x: int, i: nat, b: seq<int>, res0: seq<int>, ghost done: int) returns (res: seq<int>)
      requires 0 <= x < BASE && InRange(b) && InRange(res0) && i + |b| < |res0|
      requires forall k :: i + |b| <= k < |res0| ==> res0[k] == 0
      requires Val(res0) == done
      ensures |res| == |res0| && InRange(res)
      ensures forall k :: i + |b| < k < |res| ==> res[k] == 0
      ensures Val(res) == done + x * Pow(i) * Val(b[..|b|])
    {
      res := res0;
      assert b[..0] == [];
      for j := 0 to |b|
        invariant |res| == |res0|
        invariant forall k :: 0 <= k < |res| ==> 0 <= res[k]
        invariant forall k :: 0 <= k < |res| && k != i + j ==> res[k] < BASE
        invariant res[i + j] <= 2 * BASE - 2
        invariant j == |b| ==> res[i + j] < BASE
        invariant forall k :: i + |b| <= k < |res| && i + j < k ==> res[k] == 0
        invariant Val(res) == done + x * Pow(i) * Val(b[..j])
      {
        ProductBound(x, b[j]);
        ProductStep(res, b, i, j, x, done);
        res := res[i + j := res[i + j] + x * b[j]];
        if res[i + j] >= BASE {
          CarryBound(res[i + j]);
          CarryStep(res, i + j);
          res := res[i + j + 1 := res[i + j + 1] + res[i + j] / BASE];
          res := res[i + j := res[i + j] % BASE];
        }
      }
    }

    /**
     * operator*=: with a zero operand the source hands back a separate zero
     * object and leaves this one as it was; otherwise this becomes the product
     * and is itself returned.
     */
    method MulAssign(num: BigInt) returns (r: BigInt)
      requires Valid() && num.Valid()
      modifies this
      ensures Valid() && r.Valid()
      ensures r.Value() == old(Value()) * old(num.Value())
      ensures old(Magnitude()) == 0 || old(num.Magnitude()) == 0 ==>
                r != this && arr == old(arr) && positiveFlag == old(positiveFlag)
      ensures old(Magnitude()) != 0 && old(num.Magnitude()) != 0 ==>
                r == this && Magnitude() == old(Magnitude()) * old(num.Magnitude()) &&
                positiveFlag == (old(positiveFlag) == old(num.positiveFlag))
    {
      if IsZero() || num.IsZero() {
        r := new BigInt.FromInt64(0);
        return;
      }
      ghost var f1, f2, m1, m2 := positiveFlag, num.positiveFlag, Magnitude(), num.Magnitude();
      positiveFlag := positiveFlag == num.positiveFlag;
      var res := MultiplyBlocks(arr, num.arr);
      arr := res;
      RemovingZeros();
      r := this;
      SignRule(f1, f2, m1, m2);
    }

    /** operator*: a zero operand gives a fresh zero, otherwise a copy multiplied in place. */
    method Product(other: BigInt) returns (result: BigInt)
      requires Valid() && other.Valid()
      ensures fresh(result) && result.Valid()
      ensures result.Value() == Value() * other.Value()
      ensures result.positiveFlag
                == (Magnitude() == 0 || other.Magnitude() == 0 || positiveFlag == other.positiveFlag)
    {
      if IsZero() || other.IsZero() {
        result := new BigInt.FromInt64(0);
        return;
      }
      result := new BigInt.Copy(this);
      var same := result.MulAssign(other);
    }

    /** operator+: a copy of the left operand with the right one added in place. */
    method Sum(b: BigInt) returns (newA: BigInt)
      requires Valid() && b.Valid()
      ensures fresh(newA) && newA.Valid()
      ensures newA.Value() == Value() + b.Value()
      ensures newA.positiveFlag == (if positiveFlag == b.positiveFlag then positiveFlag
                                    else if positiveFlag then b.Magnitude() <= Magnitude()
                                    else Magnitude() <= b.Magnitude())
    {
      newA := new BigInt.Copy(this);
      newA.AddAssign(b);
    }

    /** operator-: a copy of the left operand with the right one subtracted in place. */
    method Difference(b: BigInt) returns (newA: BigInt)
      requires Valid() && b.Valid()
      ensures fresh(newA) && newA.Valid()
      ensures newA.Value() == Value() - b.Value()
      ensures newA.positiveFlag == (if positiveFlag != b.positiveFlag then positiveFlag
                                    else if positiveFlag then b.Magnitude() <= Magnitude()
                                    else Magnitude() <= b.Magnitude())
    {
      newA := new BigInt.Copy(this);
      newA.SubAssign(b);
    }

    /** ShiftRight: moves every block one position up and puts a zero block below. */
    method ShiftRight()
      modifies this
      ensures positiveFlag == old(positiveFlag)
      ensures arr == if |old(arr)| == 0 then [0] else [0] + old(arr)
    {
      if |arr| == 0 {
        arr := arr + [0];
        return;
      }
      arr := arr + [arr[|arr| - 1]];
      var i := |arr| - 2;
      while i > 0
        invariant 0 <= i <= |arr| - 2 && |arr| == |old(arr)| + 1
        invariant forall k :: 0 <= k <= i ==> arr[k] == old(arr)[k]
        invariant forall k :: i < k < |arr| ==> arr[k] == old(arr)[k - 1]
        invariant positiveFlag == old(positiveFlag)
      {
        arr := arr[i := arr[i - 1]];
        i := i - 1;
      }
      arr := arr[0 := 0];
    }

    /**
     * BinarySearchQuotient: the largest m in [0, BASE] whose multiple of the
     * divisor does not exceed the current remainder.
     */
    static method BinarySearchQuotient(b: BigInt, current: BigInt) returns (x: int)
      requires b.Valid() && current.Valid() && b.Value() >= 0 && current.Value() >= 0
      ensures 0 <= x <= BASE && b.Value() * x <= current.Value()
      ensures x == BASE || current.Value() < b.Value() * (x + 1)
    {
      var l, r := 0, BASE;
      x := 0;
      while l <= r
        invariant 0 <= l <= r + 1 <= BASE + 1
        invariant x == (if l == 0 then 0 else l - 1)
        invariant l == 0 || b.Value() * (l - 1) <= current.Value()
        invariant r == BASE || current.Value() < b.Value() * (r + 1)
        decreases r + 1 - l
      {
        var m := (l + r) / 2;
        var bm := new BigInt.FromInt64(m);
        var t := b.Product(bm);
        var o := t.Compare(current);
        if o != Greater {
          x := m;
          l := m + 1;
        } else {
          r := m - 1;
        }
      }
    }

    /**
     * DivideCore: schoolbook long division from the most-significant block,
     * one quotient block per step, the running remainder kept in current.
     */
    method DivideCore(b: BigInt, result: BigInt, current: BigInt)
      requires Valid() && b.Valid() && current.Valid()
      requires b.Value() > 0 && current.positiveFlag && current.Magnitude() == 0
      requires |result.arr| == |arr|
      requires result != current && result != this && result != b
      requires current != this && current != b
      modifies result, current
      ensures |result.arr| == |arr| && InRange(result.arr)
      ensures current.Valid() && current.positiveFlag && current.Magnitude() < b.Magnitude()
      ensures Val(arr) == b.Magnitude() * Val(result.arr) + current.Magnitude()
    {
      ghost var bv := b.Magnitude();
      var a := arr;
      var i := |a| - 1;
      assert a[i + 1..] == [] && result.arr[i + 1..] == [];
      while i >= 0
        invariant -1 <= i < |a| && |result.arr| == |a|
        invariant InRange(result.arr[i + 1..])
        invariant current.Valid() && current.positiveFlag && current.Magnitude() < bv
        invariant Val(a[i + 1..]) == bv * Val(result.arr[i + 1..]) + current.Magnitude()
      {
        ghost var c, prev, rprev := current.Magnitude(), current.arr, result.arr;
        current.ShiftRight();
        current.arr := current.arr[0 := a[i]];
        assert current.arr == [a[i]] + prev;
        ValCons(a[i], prev);
        current.RemovingZeros();
        ghost var c1 := current.Magnitude();
        assert c1 == a[i] + BASE * c;
        var x := BinarySearchQuotient(b, current);
        QuotientBlock(c, a[i], bv, x);
        result.arr := result.arr[i := x];
        InRangeStep(rprev, i, x);
        var xb := new BigInt.FromInt64(x);
        var bx := b.Product(xb);
        assert bx.Value() == bv * x;
        var diff := current.Difference(bx);
        current.arr, current.positiveFlag := diff.arr, diff.positiveFlag;
        assert current.Magnitude() == c1 - bv * x;
        DivideStep(a, rprev, i, x, bv, c, current.Magnitude());
        i := i - 1;
      }
      assert a[0..] == a && result.arr[0..] == result.arr;
    }

    /**
     * PrepareForDivision: false when either operand is zero; otherwise sizes
     * the quotient to the dividend and resets the remainder to zero.
     */
    method PrepareForDivision(num: BigInt, result: BigInt, current: BigInt) returns (ok: bool)
      requires Valid() && num.Valid()
      requires result != this && result != num && current != this && current != num
      requires result != current
      modifies result, current
      ensures ok <==> Magnitude() != 0 && num.Magnitude() != 0
      ensures !ok ==> unchanged(result, current)
      ensures ok ==> result.arr == Resize(old(result.arr), |arr|)
                     && result.positiveFlag == old(result.positiveFlag)
                     && current.arr == [0] && current.positiveFlag
    {
      if num.IsZero() || IsZero() {
        return false;
      }
      result.arr := Resize(result.arr, |arr|);
      current.arr, current.positiveFlag := [0], true;
      return true;
    }

    /**
     * operator/=: with a zero operand this is left as it was; otherwise it
     * becomes the quotient truncated toward zero.
     */
    method DivAssign(num: BigInt)
      requires Valid() && num.Valid()
      modifies this
      ensures Valid()
      ensures old(Magnitude()) == 0 || old(num.Magnitude()) == 0 ==>
                arr == old(arr) && positiveFlag == old(positiveFlag)
      ensures old(Magnitude()) != 0 && old(num.Magnitude()) != 0 ==>
                Magnitude() * old(num.Magnitude()) <= old(Magnitude()) < (Magnitude() + 1) * old(num.Magnitude()) &&
                positiveFlag == (old(positiveFlag) == old(num.positiveFlag))
      ensures old(num.Magnitude()) != 0 ==> Value() == TruncDiv(old(Value()), old(num.Value()))
    {
      ghost var v, w := Value(), num.Value();
      var result := new BigInt.FromInt64(0);
      var current := new BigInt.FromInt64(0);
      var ok := PrepareForDivision(num, result, current);
      if !ok {
        if w != 0 {
          TruncDivZero(v, w);
        }
        return;
      }
      var b := new BigInt.Copy(num);
      b.positiveFlag := true;
      CanonicalZero(current.arr);
      DivideCore(b, result, current);
      ghost var a, bv, q := Magnitude(), b.Magnitude(), Val(result.arr);
      ValBounds(result.arr);
      DivideFacts(a, bv, q, current.Magnitude());
      result.positiveFlag := positiveFlag == num.positiveFlag;
      result.RemovingZeros();
      TruncDivSigns(positiveFlag, num.positiveFlag, a, bv, v, w);
      arr, positiveFlag := result.arr, result.positiveFlag;
    }

    /** operator/: a zero operand gives zero, otherwise a copy divided in place. */
    method Quotient(other: BigInt) returns (result: BigInt)
      requires Valid() && other.Valid()
      ensures fresh(result) && result.Valid()
      ensures result.Value() == TruncDiv(Value(), other.Value())
    {
      result := new BigInt.Copy(this);
      var zero := new BigInt.FromInt64(0);
      if other.IsZero() || IsZero() {
        TruncDivZero(Value(), other.Value());
        return zero;
      }
      result.DivAssign(other);
    }

    /**
     * operator%=: subtracts the truncated quotient times the divisor, so the
     * remainder is below the divisor in magnitude and takes the dividend's sign.
     */
    method ModAssign(num2: BigInt)
      requires Valid() && num2.Valid()
      modifies this
      ensures Valid()
      ensures Value() == TruncRem(old(Value()), old(num2.Value()))
      ensures old(num2.Value()) != 0 ==>
                Abs(Value()) < Abs(old(num2.Value())) &&
                (Value() == 0 || (Value() > 0 <==> old(Value()) > 0))
    {
      ghost var a, d := Value(), num2.Value();
      var res := Quotient(num2);
      var prod := res.Product(num2);
      SubAssign(prod);
      RemovingZeros();
      if d != 0 {
        TruncRemBounds(a, d);
      }
    }

    /** operator%: a copy reduced in place. */
    method Remainder(other: BigInt) returns (result: BigInt)
      requires Valid() && other.Valid()
      ensures fresh(result) && result.Valid()
      ensures result.Value() == TruncRem(Value(), other.Value())
    {
      ghost var v, w := Value(), other.Value();
      result := new BigInt.Copy(this);
      assert result.Value() == v;
      result.ModAssign(other);
    }

    /** One lower block of GetString: std::to_string of it, padded with zeros to nine digits. */
    static method PaddedBlock(n: int) returns (curBlock: string)
      requires 0 <= n < BASE
      ensures |curBlock| == 9 && AllDigits(curBlock) && DigitsVal(curBlock) == n
    {
      curBlock := ToDecimal(n);
      Pow10Blocks(1);
      ToDecimalLength(n, 9);
      var cntOfZerosToAddFront := 0;
      if 9 > |curBlock| {
        cntOfZerosToAddFront := 9 - |curBlock|;
      }
      if cntOfZerosToAddFront >= 1 {
        ZeroPrefix(cntOfZerosToAddFront, curBlock);
        DigitsJoin(ZeroChars(cntOfZerosToAddFront), curBlock);
        curBlock := ZeroChars(cntOfZerosToAddFront) + curBlock;
      }
    }

    /**
     * The loop of GetString: every block below the top, most significant
     * first, appended padded to nine digits.
     */
    static method AppendLowerBlocks(s: seq<int>, res0: string, prefix: string, top: string)
      returns (res: string)
      requires Canonical(s) && res0 == prefix + top
      requires CanonicalDigits(top) && DigitsVal(top) == s[|s| - 1] && (|s| >= 2 ==> top[0] != '0')
      ensures Val(s) >= 0 && res == prefix + ToDecimal(Val(s))
    {
      res := res0;
      ghost var digits := top;
      var i := |s| - 2;
      ValCons(s[|s| - 1], []);
      assert [s[|s| - 1]] + [] == s[i + 1..];
      while i >= 0
        invariant -1 <= i <= |s| - 2
        invariant res == prefix + digits
        invariant CanonicalDigits(digits) && (|s| >= 2 ==> digits[0] != '0')
        invariant DigitsVal(digits) == Val(s[i + 1..])
      {
        var curBlock := PaddedBlock(s[i]);
        RenderStep(digits, curBlock, s, i);
        AppendAssoc(prefix, digits, curBlock);
        res := res + curBlock;
        digits := digits + curBlock;
        i := i - 1;
      }
      assert s[i + 1..] == s;
      RenderedDigits(digits, Val(s));
    }

    /**
     * GetString: a '-' for a negative nonzero value, then the top block as
     * it is and every lower block padded with zeros to nine digits.
     */
    method GetString() returns (res: string)
      requires Valid()
      ensures CanonicalDecimal(res) && WellFormed(res)
      ensures DecimalValue(res) == Value()
    {
      res := "";
      ghost var m := Val(arr);
      ghost var neg := !positiveFlag && m != 0;
      ValBounds(arr);
      assert neg ==> m > 0;
      if !positiveFlag && !IsZero() {
        res := res + "-";
      }
      var prefix := res;
      assert prefix == (if neg then "-" else "");
      var top := ToDecimal(arr[|arr| - 1]);
      res := res + top;
      res := AppendLowerBlocks(arr, res, prefix, top);
      ghost var digits := ToDecimal(m);
      assert Value() == (if neg then -m else m);
      SignedRender(neg, prefix, digits, m, res);
    }
  }

  /** Parsing a canonical decimal and rendering the result gives the same text back. */
  method ParseThenRender(s: string) returns (t: string)
    requires CanonicalDecimal(s)
    ensures t == s
  {
    CanonicalIsWellFormed(s);
    var x := new BigInt.FromString(s);
    t := x.GetString();
    CanonicalDecimalUnique(t, s);
  }

  /**
   * Parsing any well-formed string and rendering it, as the source does: the
   * canonical form of the string, except that a '-' followed by '0' is
   * dropped even when nonzero digits follow ("-05" renders as "5").
   */
  method ParseRenderAny(s: string) returns (t: string)
    requires WellFormed(s)
    ensures t == if s[0] == '-' && s[1] == '0' then Canonicalize(s[1..]) else Canonicalize(s)
  {
    var x := new BigInt.FromString(s);
    t := x.GetString();
    CanonicalDecimalUnique(t, if s[0] == '-' && s[1] == '0' then Canonicalize(s[1..]) else Canonicalize(s));
  }

  /** The input on which the source's parser loses the sign. */
  method MinusZeroPrefix() returns (t: string)
    ensures t == "5" && Canonicalize("-05") == "-5"
  {
    MinusZeroFive();
    t := ParseRenderAny("-05");
  }

  /** "-05" is well formed, denotes -5, and its digit part is "05", canonically "5". */
  lemma MinusZeroFive()
    ensures WellFormed("-05") && "-05"[1..] == "05"
    ensures Canonicalize("05") == "5" && Canonicalize("-05") == "-5"
  {
    assert "-05"[1..] == "05";
    assert AllDigits("05") by {
      assert "05"[0] == '0' && "05"[1] == '5';
    }
    assert DigitsVal("05") == 5 by {
      assert "05"[..1] == "0" && "0"[..0] == "";
    }
  }

  /**
   * The string constructor with the evident intent of its sign test: the
   * number is negative exactly when a '-' precedes a nonzero magnitude.
   */
  method ParseSigned(str: string) returns (x: BigInt)
    requires WellFormed(str)
    ensures fresh(x) && x.Valid()
    ensures x.Value() == DecimalValue(str)
    ensures x.positiveFlag == !(str[0] == '-' && x.Magnitude() != 0)
  {
    x := new BigInt.FromString(str);
    if str[0] == '-' && !x.IsZero() {
      x.positiveFlag := false;
    } else {
      x.positiveFlag := true;
    }
  }

  /** With the corrected sign test, parsing and rendering give the canonical form of every well-formed string. */
  method ParseRenderCanonical(s: string) returns (t: string)
    requires WellFormed(s)
    ensures t == Canonicalize(s)
  {
    var x := ParseSigned(s);
    t := x.GetString();
    CanonicalDecimalUnique(t, Canonicalize(s));
  }

  /** Rendering a value and parsing the text gives the same integer back. */
  method RenderThenParse(x: BigInt) returns (y: BigInt)
    requires x.Valid()
    ensures y.Valid() && y.Value() == x.Value()
  {
    var s := x.GetString();
    y := new BigInt.FromString(s);
  }
}
