/**
 * Decimal digit strings: their value, the canonical form without redundant
 * leading zeros, the rendering of a natural number (std::to_string), and the
 * link between nine decimal digits and one base-10^9 block.
 */
module Decimal {
  import Blocks

  predicate IsDigit(c: char)
  {
    '0' <= c <= '9'
  }

  /** The value of a digit character, `c - '0'` in the source. */
  function Digit(c: char): int
  {
    c as int - '0' as int
  }

  function DigitChar(d: int): (c: char)
    requires 0 <= d < 10
    ensures IsDigit(c) && Digit(c) == d
  {
    ('0' as int + d) as char
  }

  ghost predicate AllDigits(s: string)
  {
    forall i :: 0 <= i < |s| ==> IsDigit(s[i])
  }

  /** A string of k '0' characters. */
  function ZeroChars(k: nat): (z: string)
    ensures |z| == k && forall i :: 0 <= i < k ==> z[i] == '0'
  {
    seq(k, _ => '0')
  }

  function Pow10(k: nat): (p: int)
    ensures p >= 1
  {
    if k == 0 then 1 else 10 * Pow10(k - 1)
  }

  /** The value of a digit string read most-significant digit first. */
  function DigitsVal(s: string): int
  {
    if |s| == 0 then 0 else DigitsVal(s[..|s| - 1]) * 10 + Digit(s[|s| - 1])
  }

  /** A digit string with no redundant leading zero ("0" itself is allowed). */
  ghost predicate CanonicalDigits(s: string)
  {
    |s| >= 1 && AllDigits(s) && (|s| == 1 || s[0] != '0')
  }

  /** The strings the parser accepts: -?[0-9]+ */
  ghost predicate WellFormed(s: string)
  {
    (|s| >= 1 && AllDigits(s)) || (|s| >= 2 && s[0] == '-' && AllDigits(s[1..]))
  }

  /** The rendering of an integer: canonical digits, with '-' only before a nonzero value. */
  ghost predicate CanonicalDecimal(s: string)
  {
    CanonicalDigits(s) || (|s| >= 2 && s[0] == '-' && CanonicalDigits(s[1..]) && s[1..] != "0")
  }

  /** The signed integer a well-formed string denotes. */
  ghost function DecimalValue(s: string): int
    requires WellFormed(s)
  {
    if s[0] == '-' then -DigitsVal(s[1..]) else DigitsVal(s)
  }

  lemma DigitsSlice(s: string, lo: nat, hi: nat)
    requires AllDigits(s) && lo <= hi <= |s|
    ensures AllDigits(s[lo..hi])
  {
    assert forall k :: 0 <= k < hi - lo ==> s[lo..hi][k] == s[lo + k];
  }

  lemma DigitsJoin(x: string, y: string)
    requires AllDigits(x) && AllDigits(y)
    ensures AllDigits(x + y)
  {
  }

  lemma DigitsAppend(x: string, c: char)
    ensures DigitsVal(x + [c]) == DigitsVal(x) * 10 + Digit(c)
  {
    assert (x + [c])[..|x|] == x;
  }

  /**
   * std::to_string of a natural number: canonical digits denoting it, whose
   * first character is not '0' unless the number is 0.
   */
  function ToDecimal(n: nat): (s: string)
    ensures CanonicalDigits(s) && DigitsVal(s) == n
    ensures n > 0 ==> s[0] != '0'
    decreases n
  {
    if n < 10 then
      var s := [DigitChar(n)];
      assert DigitsVal(s) == DigitsVal(s[..0]) * 10 + Digit(s[0]);
      s
    else
      var h := ToDecimal(n / 10);
      DigitsAppend(h, DigitChar(n % 10));
      h + [DigitChar(n % 10)]
  }

  lemma {:induction false} Pow10Add(a: nat, b: nat)
    ensures Pow10(a + b) == Pow10(a) * Pow10(b)
  {
    if a > 0 {
      Pow10Add(a - 1, b);
      assert Pow10(a + b) == 10 * Pow10(a - 1 + b);
    }
  }

  lemma {:induction false} Pow10Mono(i: nat, j: nat)
    requires i <= j
    ensures Pow10(i) <= Pow10(j)
  {
    if i < j {
      Pow10Mono(i, j - 1);
    }
  }

  /** Nine decimal digits make one base-10^9 block. */
  lemma {:induction false} Pow10Blocks(k: nat)
    ensures Pow10(9 * k) == Blocks.Pow(k)
  {
    if k > 0 {
      Pow10Blocks(k - 1);
      Pow10Add(9, 9 * (k - 1));
      assert Pow10(9) == Blocks.BASE;
    }
  }

  /** Concatenation shifts the left part by the length of the right part. */
  lemma {:induction false} DigitsConcat(x: string, y: string)
    ensures DigitsVal(x + y) == DigitsVal(x) * Pow10(|y|) + DigitsVal(y)
    decreases |y|
  {
    if |y| == 0 {
      assert x + y == x;
    } else {
      var n := |y| - 1;
      var y' := y[..n];
      DigitsConcat(x, y');
      assert x + y == (x + y') + [y[n]];
      DigitsAppend(x + y', y[n]);
      DigitsAppend(y', y[n]);
      assert y == y' + [y[n]];
      Shift10(DigitsVal(x), Pow10(n), DigitsVal(y'), Digit(y[n]));
      assert Pow10(|y|) == Pow10(n) * 10;
    }
  }

  lemma Shift10(x: int, p: int, v: int, d: int)
    ensures (x * p + v) * 10 + d == x * (p * 10) + (v * 10 + d)
  {
  }

  /** A digit string is below 10 to the power of its length. */
  lemma {:induction false} DigitsBound(s: string)
    requires AllDigits(s)
    ensures 0 <= DigitsVal(s) < Pow10(|s|)
  {
    if |s| > 0 {
      DigitsBound(s[..|s| - 1]);
    }
  }

  /** Leading zeros add nothing to the value. */
  lemma ZeroPrefix(k: nat, s: string)
    ensures DigitsVal(ZeroChars(k) + s) == DigitsVal(s)
  {
    DigitsConcat(ZeroChars(k), s);
    ZerosVal(k);
  }

  lemma {:induction false} ZerosVal(k: nat)
    ensures DigitsVal(ZeroChars(k)) == 0
  {
    if k > 0 {
      ZerosVal(k - 1);
      assert ZeroChars(k)[..k - 1] == ZeroChars(k - 1);
    }
  }

  /** A canonical string of two or more digits is at least 10^(length-1). */
  lemma DigitsLower(s: string)
    requires CanonicalDigits(s) && |s| >= 2
    ensures DigitsVal(s) >= Pow10(|s| - 1)
  {
    assert s == [s[0]] + s[1..];
    DigitsConcat([s[0]], s[1..]);
    assert DigitsVal([s[0]]) == DigitsVal([]) * 10 + Digit(s[0]);
    assert Digit(s[0]) >= 1;
    DigitsBound(s[1..]);
  }

  /** A number below 10^k (k >= 1) is rendered in at most k digits. */
  lemma {:induction false} ToDecimalLength(n: nat, k: nat)
    requires n < Pow10(k) && k >= 1
    ensures |ToDecimal(n)| <= k
  {
    var s := ToDecimal(n);
    if |s| > k {
      DigitsLower(s);
      Pow10Mono(k, |s| - 1);
    }
  }

  /** Equally long digit strings with the same value are equal. */
  lemma {:induction false} SameLengthDigitsUnique(s: string, t: string)
    requires AllDigits(s) && AllDigits(t) && |s| == |t| && DigitsVal(s) == DigitsVal(t)
    ensures s == t
  {
    if |s| > 0 {
      var n := |s| - 1;
      DigitsBound(s[..n]);
      DigitsBound(t[..n]);
      var a, b := DigitsVal(s[..n]), DigitsVal(t[..n]);
      assert a * 10 + Digit(s[n]) == b * 10 + Digit(t[n]);
      assert a == b && Digit(s[n]) == Digit(t[n]);
      SameLengthDigitsUnique(s[..n], t[..n]);
      assert s == s[..n] + [s[n]] && t == t[..n] + [t[n]];
    }
  }

  /** A canonical digit string is determined by its value. */
  lemma CanonicalDigitsUnique(s: string, t: string)
    requires CanonicalDigits(s) && CanonicalDigits(t) && DigitsVal(s) == DigitsVal(t)
    ensures s == t
  {
    if |s| < |t| {
      Pow10Mono(|s|, |t| - 1);
      DigitsBound(s);
      DigitsLower(t);
    } else if |t| < |s| {
      Pow10Mono(|t|, |s| - 1);
      DigitsBound(t);
      DigitsLower(s);
    } else {
      SameLengthDigitsUnique(s, t);
    }
  }

  lemma CanonicalIsWellFormed(s: string)
    requires CanonicalDecimal(s)
    ensures WellFormed(s)
  {
  }

  /** Canonical decimals are determined by the integer they denote. */
  lemma CanonicalDecimalUnique(s: string, t: string)
    requires CanonicalDecimal(s) && CanonicalDecimal(t)
    requires DecimalValue(s) == DecimalValue(t)
    ensures s == t
  {
    var ns, nt := s[0] == '-', t[0] == '-';
    if ns && nt {
      CanonicalDigitsUnique(s[1..], t[1..]);
      assert s == [s[0]] + s[1..] && t == [t[0]] + t[1..];
    } else if !ns && !nt {
      CanonicalDigitsUnique(s, t);
    } else if ns {
      DigitsBound(t);
      PositiveUnlessZero(s[1..]);
    } else {
      DigitsBound(s);
      PositiveUnlessZero(t[1..]);
    }
  }

  /**
   * The canonical form of a well-formed decimal: redundant leading zeros
   * stripped, and "-0" in any spelling written as "0".
   */
  ghost function Canonicalize(s: string): (c: string)
    requires WellFormed(s)
    ensures CanonicalDecimal(c) && WellFormed(c)
    ensures DecimalValue(c) == DecimalValue(s)
  {
    var neg := s[0] == '-';
    var digits := if neg then s[1..] else s;
    DigitsBound(digits);
    var v := DigitsVal(digits);
    var c := (if neg && v != 0 then "-" else "") + ToDecimal(v);
    assert neg && v != 0 ==> c[1..] == ToDecimal(v);
    c
  }

  lemma PositiveUnlessZero(s: string)
    requires CanonicalDigits(s) && s != "0"
    ensures DigitsVal(s) > 0
  {
    if |s| >= 2 {
      DigitsLower(s);
    } else {
      assert DigitsVal(s) == DigitsVal(s[..0]) * 10 + Digit(s[0]);
      assert s == [s[0]];
    }
  }
}
