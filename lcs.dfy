/**
 * The longest common subsequence of two strings: the class LCS fills the
 * classic (n + 1) x (m + 1) table, walks it back from the corner collecting
 * matching index pairs, and reports the length and the 1-based indices of
 * the pairs in increasing order.
 */
module Lcs {

  /**
   * The table entry for the prefixes s1[..i] and s2[..j]: zero on the border,
   * one more than the diagonal on matching last characters, otherwise the
   * larger of the two neighbours.
   */
  function Table(s1: string, s2: string, i: nat, j: nat): nat
    requires i <= |s1| && j <= |s2|
  {
    if i == 0 || j == 0 then 0
    else if s1[i - 1] == s2[j - 1] then Table(s1, s2, i - 1, j - 1) + 1
    else Max(Table(s1, s2, i - 1, j), Table(s1, s2, i, j - 1))
  }

  function Max(a: int, b: int): int {
    if a >= b then a else b
  }

  /**
   * xs and ys are the 1-based positions of a common subsequence of s1[..i]
   * and s2[..j]: equally many, strictly increasing, in range, and pairing
   * equal characters.
   */
  ghost predicate CommonSubsequence(s1: string, s2: string, xs: seq<int>, ys: seq<int>, i: nat, j: nat) {
    |xs| == |ys|
    && (forall k :: 0 <= k < |xs| ==> 1 <= xs[k] <= i && 1 <= ys[k] <= j)
    && (forall k :: 0 <= k < |xs| ==> xs[k] <= |s1| && ys[k] <= |s2| && s1[xs[k] - 1] == s2[ys[k] - 1])
    && (forall k, l :: 0 <= k < l < |xs| ==> xs[k] < xs[l] && ys[k] < ys[l])
  }

  /** Dropping the last character of either string lowers the entry by at most one. */
  lemma {:induction false} TableSteps(s1: string, s2: string, i: nat, j: nat)
    requires i <= |s1| && j <= |s2|
    ensures i >= 1 ==> Table(s1, s2, i - 1, j) <= Table(s1, s2, i, j) <= Table(s1, s2, i - 1, j) + 1
    ensures j >= 1 ==> Table(s1, s2, i, j - 1) <= Table(s1, s2, i, j) <= Table(s1, s2, i, j - 1) + 1
    decreases i + j
  {
    if i >= 1 && j >= 1 {
      TableSteps(s1, s2, i, j - 1);
      TableSteps(s1, s2, i - 1, j);
    }
  }

  /** Every entry lies between 0 and the shorter prefix length. */
  lemma {:induction false} TableBounds(s1: string, s2: string, i: nat, j: nat)
    requires i <= |s1| && j <= |s2|
    ensures Table(s1, s2, i, j) <= i && Table(s1, s2, i, j) <= j
    decreases i + j
  {
    if i >= 1 && j >= 1 {
      TableBounds(s1, s2, i - 1, j - 1);
      TableBounds(s1, s2, i - 1, j);
      TableBounds(s1, s2, i, j - 1);
    }
  }

  /** The table is monotone in both indices. */
  lemma {:induction false} TableMonotone(s1: string, s2: string, i: nat, j: nat, i': nat, j': nat)
    requires i <= i' <= |s1| && j <= j' <= |s2|
    ensures Table(s1, s2, i, j) <= Table(s1, s2, i', j')
    decreases i' - i + j' - j
  {
    if i < i' {
      TableSteps(s1, s2, i', j');
      TableMonotone(s1, s2, i, j, i' - 1, j');
    } else if j < j' {
      TableSteps(s1, s2, i', j');
      TableMonotone(s1, s2, i, j, i', j' - 1);
    }
  }

  /** A common subsequence of the prefixes is no longer than the table entry. */
  lemma {:induction false} TableIsUpperBound(s1: string, s2: string, xs: seq<int>, ys: seq<int>, i: nat, j: nat)
    requires i <= |s1| && j <= |s2|
    requires CommonSubsequence(s1, s2, xs, ys, i, j)
    ensures |xs| <= Table(s1, s2, i, j)
    decreases i + j
  {
    if |xs| > 0 {
      var last := |xs| - 1;
      if xs[last] < i {
        assert CommonSubsequence(s1, s2, xs, ys, i - 1, j) by {
          forall k | 0 <= k < |xs|
            ensures xs[k] <= i - 1
          {
            if k < last {
              assert xs[k] < xs[last];
            }
          }
        }
        TableIsUpperBound(s1, s2, xs, ys, i - 1, j);
        TableSteps(s1, s2, i, j);
      } else if ys[last] < j {
        assert CommonSubsequence(s1, s2, xs, ys, i, j - 1) by {
          forall k | 0 <= k < |ys|
            ensures ys[k] <= j - 1
          {
            if k < last {
              assert ys[k] < ys[last];
            }
          }
        }
        TableIsUpperBound(s1, s2, xs, ys, i, j - 1);
        TableSteps(s1, s2, i, j);
      } else {
        var xs', ys' := xs[..last], ys[..last];
        assert CommonSubsequence(s1, s2, xs', ys', i - 1, j - 1) by {
          forall k | 0 <= k < last
            ensures xs'[k] <= i - 1 && ys'[k] <= j - 1
          {
            assert xs[k] < xs[last] && ys[k] < ys[last];
          }
        }
        TableIsUpperBound(s1, s2, xs', ys', i - 1, j - 1);
      }
    }
  }

  /** s backwards. */
  function Reverse(s: seq<int>): seq<int> {
    seq(|s|, k requires 0 <= k < |s| => s[|s| - 1 - k])
  }

  /**
   * The pairs reconstructLCS pushes, in push order: strictly decreasing, in
   * range and pairing equal characters.
   */
  ghost predicate Walked(s1: string, s2: string, xs: seq<int>, ys: seq<int>) {
    |xs| == |ys|
    && (forall k :: 0 <= k < |xs| ==> 1 <= xs[k] <= |s1| && 1 <= ys[k] <= |s2| && s1[xs[k] - 1] == s2[ys[k] - 1])
    && (forall k, l :: 0 <= k < l < |xs| ==> xs[k] > xs[l] && ys[k] > ys[l])
  }

  /** Read backwards, the pushed pairs form a common subsequence. */
  lemma WalkedReversed(s1: string, s2: string, xs: seq<int>, ys: seq<int>)
    requires Walked(s1, s2, xs, ys)
    ensures CommonSubsequence(s1, s2, Reverse(xs), Reverse(ys), |s1|, |s2|)
  {
    var rx, ry := Reverse(xs), Reverse(ys);
    forall k | 0 <= k < |rx|
      ensures 1 <= rx[k] <= |s1| && 1 <= ry[k] <= |s2| && s1[rx[k] - 1] == s2[ry[k] - 1]
    {
      assert rx[k] == xs[|xs| - 1 - k] && ry[k] == ys[|ys| - 1 - k];
    }
    forall k, l | 0 <= k < l < |rx|
      ensures rx[k] < rx[l] && ry[k] < ry[l]
    {
      var k', l' := |xs| - 1 - l, |xs| - 1 - k;
      assert rx[k] == xs[l'] && rx[l] == xs[k'] && ry[k] == ys[l'] && ry[l] == ys[k'];
      assert xs[k'] > xs[l'] && ys[k'] > ys[l'];
    }
  }

  /** t holds every entry of the table for s1 and s2. */
  ghost predicate IsTable(s1: string, s2: string, t: seq<seq<int>>) {
    |t| == |s1| + 1
    && (forall r :: 0 <= r <= |s1| ==> |t[r]| == |s2| + 1)
    && forall r, c :: 0 <= r <= |s1| && 0 <= c <= |s2| ==> t[r][c] == Table(s1, s2, r, c)
  }

  /**
   * The inner loop of computeLCS: row i filled left to right from the row
   * above and the entry to the left.
   */
  method FillRow(s1: string, s2: string, i: nat, above: seq<int>, row: seq<int>) returns (filled: seq<int>)
    requires 1 <= i <= |s1|
    requires |above| == |row| == |s2| + 1 && row[0] == 0
    requires forall c :: 0 <= c <= |s2| ==> above[c] == Table(s1, s2, i - 1, c)
    ensures |filled| == |s2| + 1
    ensures forall c :: 0 <= c <= |s2| ==> filled[c] == Table(s1, s2, i, c)
  {
    filled := row;
    for j := 1 to |s2| + 1
      invariant |filled| == |s2| + 1
      invariant forall c :: 0 <= c < j ==> filled[c] == Table(s1, s2, i, c)
    {
      if s1[i - 1] == s2[j - 1] {
        filled := filled[j := above[j - 1] + 1];
      } else {
        filled := filled[j := Max(above[j], filled[j - 1])];
      }
    }
  }

  /** Pushing a matching pair below every pushed pair keeps the walk ordered. */
  lemma WalkedPush(s1: string, s2: string, xs: seq<int>, ys: seq<int>, i: int, j: int)
    requires Walked(s1, s2, xs, ys)
    requires 1 <= i <= |s1| && 1 <= j <= |s2| && s1[i - 1] == s2[j - 1]
    requires forall k :: 0 <= k < |xs| ==> xs[k] > i && ys[k] > j
    ensures Walked(s1, s2, xs + [i], ys + [j])
  {
  }

  /** The outer loop of computeLCS: rows 1 .. |s1| in order. */
  method FillTable(s1: string, s2: string, t: seq<seq<int>>) returns (table: seq<seq<int>>)
    requires |t| == |s1| + 1
    requires forall r :: 0 <= r <= |s1| ==> |t[r]| == |s2| + 1 && t[r][0] == 0
    requires forall c :: 0 <= c <= |s2| ==> t[0][c] == 0
    ensures IsTable(s1, s2, table)
  {
    table := t;
    for i := 1 to |s1| + 1
      invariant |table| == |s1| + 1
      invariant forall r :: 0 <= r <= |s1| ==> |table[r]| == |s2| + 1 && table[r][0] == 0
      invariant forall r, c :: 0 <= r < i && 0 <= c <= |s2| ==> table[r][c] == Table(s1, s2, r, c)
    {
      var row := FillRow(s1, s2, i, table[i - 1], table[i]);
      table := table[i := row];
    }
  }

  /**
   * The loop of reconstructLCS, returning the pairs it pushes, in push
   * order: exactly Table(|s1|, |s2|) of them.
   */
  method Walk(s1: string, s2: string, t: seq<seq<int>>) returns (xs: seq<int>, ys: seq<int>)
    requires IsTable(s1, s2, t)
    ensures |xs| == Table(s1, s2, |s1|, |s2|)
    ensures Walked(s1, s2, xs, ys)
  {
    xs, ys := [], [];
    var i, j := |s1|, |s2|;
    while i > 0 && j > 0
      invariant 0 <= i <= |s1| && 0 <= j <= |s2|
      invariant |xs| + Table(s1, s2, i, j) == Table(s1, s2, |s1|, |s2|)
      invariant Walked(s1, s2, xs, ys)
      invariant forall k :: 0 <= k < |xs| ==> xs[k] > i && ys[k] > j
      decreases i + j
    {
      if s1[i - 1] == s2[j - 1] {
        WalkedPush(s1, s2, xs, ys, i, j);
        xs := xs + [i];
        ys := ys + [j];
        i, j := i - 1, j - 1;
      } else if t[i - 1][j] > t[i][j - 1] {
        i := i - 1;
      } else {
        j := j - 1;
      }
    }
  }

  class LCS {
    var str1: string
    var str2: string
    var dp: seq<seq<int>>
    var str1Indexes: seq<int>
    var str2Indexes: seq<int>
    var n: nat
    var m: nat

    /** dp is (n + 1) x (m + 1) and n, m are the string lengths. */
    ghost predicate Shaped()
      reads this
    {
      n == |str1| && m == |str2|
      && |dp| == n + 1 && forall r :: 0 <= r <= n ==> |dp[r]| == m + 1
    }

    /** Every entry of dp is the table entry. */
    ghost predicate Filled()
      reads this
    {
      Shaped() && IsTable(str1, str2, dp)
    }

    /** LCS(s1, s2): the strings, their lengths and a table of zeros. */
    constructor(s1: string, s2: string)
      ensures str1 == s1 && str2 == s2 && Shaped()
      ensures forall r, c :: 0 <= r <= n && 0 <= c <= m ==> dp[r][c] == 0
      ensures str1Indexes == [] && str2Indexes == []
    {
      str1, str2 := s1, s2;
      n, m := |s1|, |s2|;
      dp := seq(|s1| + 1, _ => seq(|s2| + 1, _ => 0));
      str1Indexes, str2Indexes := [], [];
    }

    /**
     * computeLCS: fills rows 1 .. n by the recurrence; row 0 and column 0
     * keep the zeros it starts from.
     */
    method ComputeLCS()
      requires Shaped()
      requires forall c :: 0 <= c <= m ==> dp[0][c] == 0
      requires forall r :: 0 <= r <= n ==> dp[r][0] == 0
      modifies this
      ensures Filled()
      ensures str1 == old(str1) && str2 == old(str2) && n == old(n) && m == old(m)
      ensures str1Indexes == old(str1Indexes) && str2Indexes == old(str2Indexes)
    {
      dp := FillTable(str1, str2, dp);
    }

    /**
     * reconstructLCS: from the corner, a match is pushed and both indices
     * step back; otherwise the walk moves towards the larger neighbour,
     * stepping j back on a tie. It pushes exactly dp[n][m] pairs.
     */
    method ReconstructLCS()
      requires Filled()
      modifies this
      ensures str1 == old(str1) && str2 == old(str2) && n == old(n) && m == old(m) && dp == old(dp)
      ensures |str1Indexes| == |old(str1Indexes)| + Table(str1, str2, n, m)
      ensures |str2Indexes| == |old(str2Indexes)| + Table(str1, str2, n, m)
      ensures str1Indexes[..|old(str1Indexes)|] == old(str1Indexes)
      ensures str2Indexes[..|old(str2Indexes)|] == old(str2Indexes)
      ensures Walked(str1, str2, str1Indexes[|old(str1Indexes)|..], str2Indexes[|old(str2Indexes)|..])
    {
      var pushed1, pushed2 := Walk(str1, str2, dp);
      str1Indexes := str1Indexes + pushed1;
      str2Indexes := str2Indexes + pushed2;
      assert str1Indexes[|old(str1Indexes)|..] == pushed1;
      assert str2Indexes[|old(str2Indexes)|..] == pushed2;
    }

    /**
     * printResult, with its output as results: the length dp[n][m] and the
     * two index lists read from the back.
     */
    method PrintResult() returns (length: int, first: seq<int>, second: seq<int>)
      requires Shaped()
      ensures length == dp[n][m]
      ensures first == Reverse(str1Indexes) && second == Reverse(str2Indexes)
    {
      length := dp[n][m];
      first := [];
      var i := |str1Indexes| - 1;
      while i >= 0
        invariant -1 <= i < |str1Indexes|
        invariant |first| == |str1Indexes| - 1 - i
        invariant forall k :: 0 <= k < |first| ==> first[k] == str1Indexes[|str1Indexes| - 1 - k]
      {
        first := first + [str1Indexes[i]];
        i := i - 1;
      }
      second := [];
      i := |str2Indexes| - 1;
      while i >= 0
        invariant -1 <= i < |str2Indexes|
        invariant |second| == |str2Indexes| - 1 - i
        invariant forall k :: 0 <= k < |second| ==> second[k] == str2Indexes[|str2Indexes| - 1 - k]
      {
        second := second + [str2Indexes[i]];
        i := i - 1;
      }
    }
  }

  /**
   * The program on two strings: the length it prints and the two index
   * lines form a common subsequence of that length, and no common
   * subsequence is longer (TableIsUpperBound).
   */
  method Run(s1: string, s2: string) returns (length: int, first: seq<int>, second: seq<int>)
    ensures length == Table(s1, s2, |s1|, |s2|) == |first| == |second|
    ensures CommonSubsequence(s1, s2, first, second, |s1|, |s2|)
  {
    var solver := new LCS(s1, s2);
    solver.ComputeLCS();
    solver.ReconstructLCS();
    length, first, second := solver.PrintResult();
    WalkedReversed(s1, s2, solver.str1Indexes, solver.str2Indexes);
  }
}
