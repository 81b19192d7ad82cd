/**
 * Little-endian sequences of base-10^9 blocks, the magnitude representation
 * of the arbitrary-precision integer, and the integers they denote.
 */
module Blocks {

  /** The radix of one block (kBase in the source). */
  const BASE: int := 1_000_000_000

  /** BASE raised to the power k. */
  function Pow(k: nat): (p: int)
    ensures p >= 1
  {
    if k == 0 then 1 else BASE * Pow(k - 1)
  }

  /**
   * The integer denoted by the blocks from position k on, read in Horner
   * form: s[k] + BASE * (s[k+1] + BASE * (...)).
   */
  function ValFrom(s: seq<int>, k: nat): int
    decreases |s| - k
  {
    if k >= |s| then 0 else s[k] + BASE * ValFrom(s, k + 1)
  }

  /** The integer denoted by little-endian blocks: the sum of s[i] * BASE^i. */
  function Val(s: seq<int>): int
  {
    ValFrom(s, 0)
  }

  lemma {:induction false} ValFromDrop(s: seq<int>, k: nat)
    requires k <= |s|
    ensures ValFrom(s, k) == Val(s[k..])
    decreases |s| - k
  {
    if k < |s| {
      ValFromDrop(s, k + 1);
      ValFromDrop(s[k..], 1);
      assert s[k..][1..] == s[k + 1..];
    }
  }

  /** The least-significant block plus BASE times the rest. */
  lemma ValHead(s: seq<int>)
    requires |s| >= 1
    ensures Val(s) == s[0] + BASE * Val(s[1..])
  {
    ValFromDrop(s, 1);
  }

  /** Every block lies in [0, BASE). */
  ghost predicate InRange(s: seq<int>)
  {
    forall i :: 0 <= i < |s| ==> 0 <= s[i] < BASE
  }

  /**
   * The normal form kept by every value: at least one block, every block in
   * range, and no most-significant zero block except the single block of zero.
   */
  ghost predicate Canonical(s: seq<int>)
  {
    |s| >= 1 && InRange(s) && (|s| == 1 || s[|s| - 1] != 0)
  }

  /** A sequence of k zero blocks. */
  function Zeros(k: nat): (z: seq<int>)
    ensures |z| == k && forall i :: 0 <= i < k ==> z[i] == 0
  {
    seq(k, _ => 0)
  }

  lemma MulLeft(a: int, b: int, c: int)
    requires a <= b && c >= 0
    ensures a * c <= b * c
  {
  }

  lemma {:induction false} PowAdd(a: nat, b: nat)
    ensures Pow(a + b) == Pow(a) * Pow(b)
  {
    if a > 0 {
      PowAdd(a - 1, b);
      assert Pow(a + b) == BASE * Pow(a - 1 + b);
      assert BASE * (Pow(a - 1) * Pow(b)) == (BASE * Pow(a - 1)) * Pow(b);
    }
  }

  lemma PowStep(k: nat)
    ensures Pow(k + 1) == BASE * Pow(k)
  {
  }

  /** Appending a block adds it at the next power of BASE. */
  lemma {:induction false} ValAppend(s: seq<int>, d: int)
    ensures Val(s + [d]) == Val(s) + d * Pow(|s|)
  {
    ValHead(s + [d]);
    if |s| == 0 {
      assert ([] + [d])[1..] == [];
    } else {
      ValHead(s);
      assert (s + [d])[1..] == s[1..] + [d];
      ValAppend(s[1..], d);
      Distribute(BASE, Val(s[1..]), d, Pow(|s| - 1));
    }
  }

  /** The value seen from the most-significant end. */
  lemma ValLast(s: seq<int>)
    requires |s| >= 1
    ensures Val(s) == Val(s[..|s| - 1]) + s[|s| - 1] * Pow(|s| - 1)
  {
    assert s == s[..|s| - 1] + [s[|s| - 1]];
    ValAppend(s[..|s| - 1], s[|s| - 1]);
  }

  /** A value splits into its low k blocks and BASE^k times its high blocks. */
  lemma {:induction false} ValSplit(s: seq<int>, k: nat)
    requires k <= |s|
    ensures Val(s) == Val(s[..k]) + Pow(k) * Val(s[k..])
  {
    if k == 0 {
      assert s[k..] == s;
    } else {
      ValHead(s);
      ValHead(s[..k]);
      ValSplit(s[1..], k - 1);
      assert s[1..][..k - 1] == s[..k][1..];
      assert s[1..][k - 1..] == s[k..];
      var p, v := Pow(k - 1), Val(s[k..]);
      assert BASE * (p * v) == (BASE * p) * v;
    }
  }

  lemma Distribute(p: int, v: int, d: int, q: int)
    ensures p * (v + d * q) == p * v + d * (p * q)
  {
    calc {
      p * (v + d * q);
      p * v + p * (d * q);
      { assert p * (d * q) == d * (p * q); }
      p * v + d * (p * q);
    }
  }

  /** Prepending a block: the rest moves up one block position. */
  lemma ValCons(d: int, s: seq<int>)
    ensures Val([d] + s) == d + BASE * Val(s)
  {
    ValHead([d] + s);
    assert ([d] + s)[1..] == s;
  }

  /** Overwriting block p changes the value by the difference at BASE^p. */
  lemma {:induction false} ValUpdate(s: seq<int>, p: nat, v: int)
    requires p < |s|
    ensures Val(s[p := v]) == Val(s) + (v - s[p]) * Pow(p)
  {
    var u := s[p := v];
    ValHead(s);
    ValHead(u);
    if p == 0 {
      assert u[1..] == s[1..];
    } else {
      ValUpdate(s[1..], p - 1, v);
      assert u[1..] == s[1..][p - 1 := v];
      Distribute(BASE, Val(s[1..]), v - s[p], Pow(p - 1));
    }
  }

  /** Adding d to block p adds d * BASE^p to the value. */
  lemma ValAdd(s: seq<int>, p: nat, d: int)
    requires p < |s|
    ensures Val(s[p := s[p] + d]) == Val(s) + d * Pow(p)
  {
    ValUpdate(s, p, s[p] + d);
  }

  /** Taking d from block p takes d * BASE^p from the value. */
  lemma ValSub(s: seq<int>, p: nat, d: int)
    requires p < |s|
    ensures Val(s[p := s[p] - d]) == Val(s) - d * Pow(p)
  {
    ValUpdate(s, p, s[p] - d);
  }

  /** Blocks in range bound the value by BASE^|s|. */
  lemma {:induction false} ValBounds(s: seq<int>)
    requires InRange(s)
    ensures 0 <= Val(s) < Pow(|s|)
  {
    if |s| > 0 {
      ValHead(s);
      ValBounds(s[1..]);
    }
  }

  /** Every most-significant block beyond position k is zero: they add nothing. */
  lemma {:induction false} ValZeroTail(s: seq<int>, k: nat)
    requires k <= |s|
    requires forall i :: k <= i < |s| ==> s[i] == 0
    ensures Val(s) == Val(s[..k])
  {
    if k < |s| {
      var n := |s| - 1;
      ValLast(s);
      ValZeroTail(s[..n], k);
      assert s[..n][..k] == s[..k];
    } else {
      assert s[..k] == s;
    }
  }

  /** The most-significant block alone is a lower bound on the value. */
  lemma ValTop(s: seq<int>)
    requires InRange(s) && |s| >= 1
    ensures Val(s) >= s[|s| - 1] * Pow(|s| - 1)
  {
    ValLast(s);
    ValBounds(s[..|s| - 1]);
  }

  /** A canonical value with a nonzero block is at least BASE^(|s|-1). */
  lemma CanonicalLower(s: seq<int>)
    requires Canonical(s) && s != [0]
    ensures Pow(|s| - 1) <= Val(s)
    ensures Val(s) > 0
  {
    ValTop(s);
    if |s| == 1 {
      assert s == [s[0]];
    }
    MulLeft(1, s[|s| - 1], Pow(|s| - 1));
  }

  /** The canonical zero is the only canonical sequence denoting 0. */
  lemma CanonicalZero(s: seq<int>)
    requires Canonical(s)
    ensures Val(s) == 0 <==> s == [0]
  {
    if s != [0] {
      CanonicalLower(s);
    } else {
      ValHead(s);
      assert s[1..] == [];
    }
  }

  /** Among canonical sequences, more blocks means a larger value. */
  lemma LongerIsLarger(a: seq<int>, b: seq<int>)
    requires Canonical(a) && Canonical(b) && |a| < |b|
    ensures Val(a) < Val(b)
  {
    ValBounds(a);
    CanonicalLower(b);
    PowMono(|a|, |b| - 1);
  }

  lemma {:induction false} PowMono(i: nat, j: nat)
    requires i <= j
    ensures Pow(i) <= Pow(j)
  {
    if i < j {
      PowMono(i, j - 1);
      assert Pow(j) == BASE * Pow(j - 1);
    }
  }

  /**
   * Two equally long sequences in range that agree above position i and
   * differ at i are ordered as their blocks at i.
   */
  lemma LexLess(a: seq<int>, b: seq<int>, i: nat)
    requires InRange(a) && InRange(b) && |a| == |b| && i < |a|
    requires a[i + 1..] == b[i + 1..] && a[i] < b[i]
    ensures Val(a) < Val(b)
  {
    var a', b' := a[..i + 1], b[..i + 1];
    TopLess(a', b');
    ValSplit(a, i + 1);
    ValSplit(b, i + 1);
  }

  /** Equally long sequences in range are ordered as their top blocks when those differ. */
  lemma TopLess(a: seq<int>, b: seq<int>)
    requires InRange(a) && InRange(b) && |a| == |b| >= 1
    requires a[|a| - 1] < b[|b| - 1]
    ensures Val(a) < Val(b)
  {
    var n := |a| - 1;
    ValBounds(a[..n]);
    ValBounds(b[..n]);
    ValLast(a);
    ValLast(b);
    TopStep(Val(a[..n]), Val(b[..n]), a[n], b[n], Pow(n));
  }

  lemma TopStep(la: int, lb: int, x: int, y: int, p: int)
    requires 0 <= la < p && 0 <= lb && x < y
    ensures la + x * p < lb + y * p
  {
    MulLeft(x + 1, y, p);
  }

  /** Equally long sequences in range with the same value are equal. */
  lemma {:induction false} SameLengthUnique(a: seq<int>, b: seq<int>)
    requires InRange(a) && InRange(b) && |a| == |b| && Val(a) == Val(b)
    ensures a == b
  {
    if |a| > 0 {
      var n := |a| - 1;
      if a[n] < b[n] {
        LexLess(a, b, n);
      } else if b[n] < a[n] {
        LexLess(b, a, n);
      } else {
        ValLast(a);
        ValLast(b);
        SameLengthUnique(a[..n], b[..n]);
        assert a == a[..n] + [a[n]] && b == b[..n] + [b[n]];
      }
    }
  }

  /** A canonical sequence is determined by its value. */
  lemma CanonicalUnique(a: seq<int>, b: seq<int>)
    requires Canonical(a) && Canonical(b) && Val(a) == Val(b)
    ensures a == b
  {
    if |a| < |b| {
      LongerIsLarger(a, b);
    } else if |b| < |a| {
      LongerIsLarger(b, a);
    } else {
      SameLengthUnique(a, b);
    }
  }
}
