/**
 * The longest alternating (zig-zag) subsequence: for every element the
 * class AlternatingSequenceCalculator keeps the length of the longest chain
 * ending there whose last step goes up, the same for down, and a link to the
 * element before; the answer is the best chain, read back through the links.
 */
module Alternating {

  /** The marker constants: a length starts at INCREASE, a link at DECREASE. */
  const DECREASE: int := -1
  const INCREASE: int := 1

  /** Going from s[j] to s[i] is a strict step up (up) or a strict step down. */
  predicate Step(s: seq<int>, j: nat, i: nat, up: bool)
    requires j < |s| && i < |s|
  {
    if up then s[j] < s[i] else s[j] > s[i]
  }

  /**
   * The length of the longest alternating chain ending at s[i] whose last
   * step goes up (up) or down: one more than the best chain of the other
   * kind that it extends.
   */
  function Chain(s: seq<int>, i: nat, up: bool): nat
    requires i < |s|
    decreases i, 1
  {
    1 + Best(s, i, i, up)
  }

  /**
   * The longest chain of the opposite kind ending at some j < k from which
   * s[i] is a step up (up) or down; 0 when there is none.
   */
  function Best(s: seq<int>, i: nat, k: nat, up: bool): nat
    requires i < |s| && k <= i
    decreases i, 0, k
  {
    if k == 0 then 0
    else if Step(s, k - 1, i, up) then Max(Best(s, i, k - 1, up), Chain(s, k - 1, !up))
    else Best(s, i, k - 1, up)
  }

  function Max(a: int, b: int): int {
    if a >= b then a else b
  }

  /** The best candidate below k is no longer than k, so a chain ending at s[i] has at most i + 1 elements. */
  lemma {:induction false} ChainBounds(s: seq<int>, i: nat, up: bool)
    requires i < |s|
    ensures 1 <= Chain(s, i, up) <= i + 1
    decreases i, 1
  {
    BestBounds(s, i, i, up);
  }

  lemma {:induction false} BestBounds(s: seq<int>, i: nat, k: nat, up: bool)
    requires i < |s| && k <= i
    ensures Best(s, i, k, up) <= k
    decreases i, 0, k
  {
    if k > 0 {
      BestBounds(s, i, k - 1, up);
      if Step(s, k - 1, i, up) {
        ChainBounds(s, k - 1, !up);
      }
    }
  }

  /** The best candidate dominates every candidate below k. */
  lemma {:induction false} BestIsMaximal(s: seq<int>, i: nat, k: nat, up: bool, j: nat)
    requires i < |s| && j < k <= i && Step(s, j, i, up)
    ensures Chain(s, j, !up) <= Best(s, i, k, up)
    decreases k
  {
    if j < k - 1 {
      BestIsMaximal(s, i, k - 1, up, j);
    }
  }

  /** A positive best candidate is reached by some earlier element. */
  lemma {:induction false} BestWitness(s: seq<int>, i: nat, k: nat, up: bool) returns (j: nat)
    requires i < |s| && k <= i && Best(s, i, k, up) > 0
    ensures j < k && Step(s, j, i, up) && Chain(s, j, !up) == Best(s, i, k, up)
    decreases k
  {
    if Step(s, k - 1, i, up) && Chain(s, k - 1, !up) >= Best(s, i, k - 1, up) {
      j := k - 1;
    } else {
      j := BestWitness(s, i, k - 1, up);
    }
  }

  /**
   * When s[j] is a step up (down) to s[i], every chain of the other kind
   * that s[i] could extend from below j, s[j] could extend too.
   */
  lemma {:induction false} BestDominated(s: seq<int>, i: nat, j: nat, k: nat, up: bool)
    requires k <= j < i < |s| && Step(s, j, i, up)
    ensures Best(s, i, k, !up) <= Best(s, j, j, !up)
    decreases k
  {
    if k > 0 {
      BestDominated(s, i, j, k - 1, up);
      if Step(s, k - 1, i, !up) {
        assert Step(s, k - 1, j, !up);
        BestIsMaximal(s, j, j, !up, k - 1);
      }
    }
  }

  /**
   * The first element j that the up (down) chain at s[i] extends does not
   * itself end a strictly longer up (down) chain than its down (up) one.
   */
  lemma LinkedKind(s: seq<int>, i: nat, j: nat, up: bool)
    requires j < i < |s| && Step(s, j, i, up) && Best(s, i, j, up) < Chain(s, j, !up)
    ensures Chain(s, j, up) <= Chain(s, j, !up)
  {
    if Best(s, j, j, up) > 0 {
      var j0 := BestWitness(s, j, j, up);
      assert Step(s, j0, i, up);
      BestIsMaximal(s, i, j, up, j0);
    }
  }

  /** The longest chain of either kind over the first k elements; 0 when k is 0. */
  function Longest(s: seq<int>, k: nat): nat
    requires k <= |s|
  {
    if k == 0 then 0 else Max(Longest(s, k - 1), Max(Chain(s, k - 1, true), Chain(s, k - 1, false)))
  }

  /** Longest bounds every chain and, on a non-empty input, is reached by one. */
  lemma {:induction false} LongestIsMaximum(s: seq<int>, k: nat)
    requires k <= |s|
    ensures forall i :: 0 <= i < k ==> Chain(s, i, true) <= Longest(s, k) && Chain(s, i, false) <= Longest(s, k)
    ensures k == 0 <==> Longest(s, k) == 0
    ensures k > 0 ==> exists i :: 0 <= i < k && Longest(s, k) == Max(Chain(s, i, true), Chain(s, i, false))
  {
    if k > 0 {
      LongestIsMaximum(s, k - 1);
      ChainBounds(s, k - 1, true);
    }
  }

  /**
   * The per-element state after computing the first k elements: the two
   * lengths are the chain lengths, each link is DECREASE or an earlier
   * element the chain extends, and the transition is one of the markers.
   */
  ghost predicate Solved(s: seq<int>, inc: seq<int>, dec: seq<int>, incPrev: seq<int>, decPrev: seq<int>, transitions: seq<int>, k: nat)
  {
    k <= |s| == |inc| == |dec| == |incPrev| == |decPrev| == |transitions|
    && forall i :: 0 <= i < k ==> SolvedAt(s, inc, dec, incPrev, decPrev, transitions, i)
  }

  ghost predicate SolvedAt(s: seq<int>, inc: seq<int>, dec: seq<int>, incPrev: seq<int>, decPrev: seq<int>, transitions: seq<int>, i: nat)
    requires i < |s| == |inc| == |dec| == |incPrev| == |decPrev| == |transitions|
  {
    inc[i] == Chain(s, i, true) && dec[i] == Chain(s, i, false)
    && Linked(s, i, incPrev[i], true) && Linked(s, i, decPrev[i], false)
    && Marks(transitions[i], inc[i], dec[i])
  }

  /**
   * A link of the up (down) chain ending at s[i]: DECREASE when the chain is
   * s[i] alone, otherwise the first earlier element one step below (above)
   * whose down (up) chain it extends to the full length.
   */
  ghost predicate Linked(s: seq<int>, i: nat, prev: int, up: bool)
    requires i < |s|
  {
    LinkedWith(s, i, prev, up, Chain(s, i, up))
  }

  /** prev is such a link for an up (down) chain of the given length at s[i]. */
  ghost predicate LinkedWith(s: seq<int>, i: nat, prev: int, up: bool, length: int)
    requires i < |s|
  {
    if prev == DECREASE then length == 1
    else
      0 <= prev < i && Step(s, prev, i, up) && length == Chain(s, prev, !up) + 1
      && Best(s, i, prev, up) < Chain(s, prev, !up)
  }

  /**
   * A transition marks the strictly longer of the two chains ending at an
   * element, and stays 0 only while both are the element alone.
   */
  predicate Marks(transition: int, inc: int, dec: int) {
    (transition == INCREASE ==> inc > dec)
    && (transition == DECREASE ==> dec > inc)
    && (transition == 0 ==> inc == 1 && dec == 1)
    && transition in {DECREASE, 0, INCREASE}
  }

  /** All k entries of s hold the initial values. */
  ghost predicate Initial(s: seq<int>, inc: seq<int>, dec: seq<int>, incPrev: seq<int>, decPrev: seq<int>, transitions: seq<int>, k: nat)
  {
    k <= |s| == |inc| == |dec| == |incPrev| == |decPrev| == |transitions|
    && forall i :: k <= i < |s| ==> inc[i] == INCREASE && dec[i] == INCREASE && incPrev[i] == DECREASE && decPrev[i] == DECREASE && transitions[i] == 0
  }

  /**
   * The inner loop of calculateLongestSequences for element i: scanning the
   * earlier elements in order, a longer up chain or else a longer down chain
   * through s[j] replaces the current one and records its link.
   */
  method ExtendElement(s: seq<int>, i: nat, inc: seq<int>, dec: seq<int>, incPrev: seq<int>, decPrev: seq<int>, transitions: seq<int>)
    returns (incI: int, decI: int, incPrevI: int, decPrevI: int, transitionI: int)
    requires 1 <= i < |s|
    requires Solved(s, inc, dec, incPrev, decPrev, transitions, i) && Initial(s, inc, dec, incPrev, decPrev, transitions, i)
    ensures incI == Chain(s, i, true) && decI == Chain(s, i, false)
    ensures Linked(s, i, incPrevI, true) && Linked(s, i, decPrevI, false)
    ensures Marks(transitionI, incI, decI)
  {
    incI, decI, incPrevI, decPrevI, transitionI := inc[i], dec[i], incPrev[i], decPrev[i], transitions[i];
    for j := 0 to i
      invariant incI == 1 + Best(s, i, j, true) && decI == 1 + Best(s, i, j, false)
      invariant LinkedWith(s, i, incPrevI, true, incI) && incPrevI < j
      invariant LinkedWith(s, i, decPrevI, false, decI) && decPrevI < j
      invariant Marks(transitionI, incI, decI)
    {
      assert SolvedAt(s, inc, dec, incPrev, decPrev, transitions, j);
      if s[i] > s[j] && incI < dec[j] + 1 {
        BestDominated(s, i, j, j, true);
        incI := dec[j] + 1;
        incPrevI := j;
        transitionI := INCREASE;
      } else if s[i] < s[j] && decI < inc[j] + 1 {
        BestDominated(s, i, j, j, false);
        decI := inc[j] + 1;
        decPrevI := j;
        transitionI := DECREASE;
      }
    }
  }

  /** The outer loop of calculateLongestSequences: elements 1 .. |s| - 1 in order. */
  method ExtendAll(s: seq<int>, inc0: seq<int>, dec0: seq<int>, incPrev0: seq<int>, decPrev0: seq<int>, transitions0: seq<int>)
    returns (inc: seq<int>, dec: seq<int>, incPrev: seq<int>, decPrev: seq<int>, transitions: seq<int>)
    requires Initial(s, inc0, dec0, incPrev0, decPrev0, transitions0, 0)
    ensures Solved(s, inc, dec, incPrev, decPrev, transitions, |s|)
  {
    inc, dec, incPrev, decPrev, transitions := inc0, dec0, incPrev0, decPrev0, transitions0;
    if |s| == 0 {
      return;
    }
    assert SolvedAt(s, inc, dec, incPrev, decPrev, transitions, 0);
    for i := 1 to |s|
      invariant Solved(s, inc, dec, incPrev, decPrev, transitions, i)
      invariant Initial(s, inc, dec, incPrev, decPrev, transitions, i)
    {
      var incI, decI, incPrevI, decPrevI, transitionI := ExtendElement(s, i, inc, dec, incPrev, decPrev, transitions);
      var inc', dec', incPrev', decPrev', transitions' :=
        inc[i := incI], dec[i := decI], incPrev[i := incPrevI], decPrev[i := decPrevI], transitions[i := transitionI];
      forall k | 0 <= k <= i
        ensures SolvedAt(s, inc', dec', incPrev', decPrev', transitions', k)
      {
        if k < i {
          assert SolvedAt(s, inc, dec, incPrev, decPrev, transitions, k);
        }
      }
      inc, dec, incPrev, decPrev, transitions := inc', dec', incPrev', decPrev', transitions';
    }
  }

  /** t is s[idx[0]], s[idx[1]], ... for strictly increasing positions idx of s. */
  ghost predicate Picks(s: seq<int>, t: seq<int>, idx: seq<int>) {
    |idx| == |t|
    && (forall k :: 0 <= k < |idx| ==> 0 <= idx[k] < |s| && t[k] == s[idx[k]])
    && (forall k, l :: 0 <= k < l < |idx| ==> idx[k] < idx[l])
  }

  /** t is a subsequence of s. */
  ghost predicate Subsequence(s: seq<int>, t: seq<int>) {
    exists idx :: Picks(s, t, idx)
  }

  /** s backwards. */
  function Reverse(s: seq<int>): seq<int> {
    seq(|s|, k requires 0 <= k < |s| => s[|s| - 1 - k])
  }

  /**
   * pushed is s at the positions idx, which strictly decrease and all lie
   * above below.
   */
  ghost predicate Descending(s: seq<int>, pushed: seq<int>, idx: seq<int>, below: int) {
    |idx| == |pushed|
    && (forall k :: 0 <= k < |idx| ==> 0 <= idx[k] < |s| && idx[k] > below && pushed[k] == s[idx[k]])
    && (forall k, l :: 0 <= k < l < |idx| ==> idx[k] > idx[l])
  }

  lemma DescendingPush(s: seq<int>, pushed: seq<int>, idx: seq<int>, x: int, next: int)
    requires Descending(s, pushed, idx, x) && 0 <= x < |s| && next < x
    ensures Descending(s, pushed + [s[x]], idx + [x], next)
  {
  }

  /** Positions pushed in strictly decreasing order, read backwards, pick a subsequence. */
  lemma PicksReversed(s: seq<int>, pushed: seq<int>, idx: seq<int>)
    requires Descending(s, pushed, idx, -1)
    ensures Picks(s, Reverse(pushed), Reverse(idx))
  {
    var rt, ri := Reverse(pushed), Reverse(idx);
    forall k | 0 <= k < |ri|
      ensures 0 <= ri[k] < |s| && rt[k] == s[ri[k]]
    {
      assert ri[k] == idx[|idx| - 1 - k] && rt[k] == pushed[|idx| - 1 - k];
    }
    forall k, l | 0 <= k < l < |ri|
      ensures ri[k] < ri[l]
    {
      assert ri[k] == idx[|idx| - 1 - k] && ri[l] == idx[|idx| - 1 - l];
    }
  }

  /** Consecutive elements differ, and the steps go up and down in turn. */
  ghost predicate ZigZag(t: seq<int>) {
    (forall k :: 0 <= k < |t| - 1 ==> t[k] != t[k + 1])
    && (forall k :: 0 <= k < |t| - 2 ==> (t[k] < t[k + 1] <==> t[k + 1] > t[k + 2]))
  }

  lemma ZigZagSnoc(t: seq<int>, v: int)
    requires ZigZag(t)
    requires |t| >= 1 ==> t[|t| - 1] != v
    requires |t| >= 2 ==> (t[|t| - 2] < t[|t| - 1] <==> t[|t| - 1] > v)
    ensures ZigZag(t + [v])
  {
  }

  lemma ZigZagReversed(t: seq<int>)
    requires ZigZag(t)
    ensures ZigZag(Reverse(t))
  {
    var r := Reverse(t);
    forall k | 0 <= k < |r| - 1
      ensures r[k] != r[k + 1]
    {
      assert r[k] == t[|t| - 1 - k] && r[k + 1] == t[|t| - 2 - k];
    }
    forall k | 0 <= k < |r| - 2
      ensures r[k] < r[k + 1] <==> r[k + 1] > r[k + 2]
    {
      var b := |t| - 3 - k;
      assert r[k] == t[b + 2] && r[k + 1] == t[b + 1] && r[k + 2] == t[b];
      assert t[b] != t[b + 1] && t[b + 1] != t[b + 2];
    }
  }

  /**
   * An alternating subsequence ending at position idx[|t| - 1] with a last
   * step up (down) is no longer than the up (down) chain there.
   */
  lemma {:induction false} ChainIsUpperBound(s: seq<int>, t: seq<int>, idx: seq<int>, up: bool)
    requires Picks(s, t, idx) && ZigZag(t) && |t| >= 1
    requires |t| >= 2 ==> (up <==> t[|t| - 2] < t[|t| - 1])
    ensures |t| <= Chain(s, idx[|t| - 1], up)
    decreases |t|
  {
    var n := |t|;
    if n >= 2 {
      var t', idx' := t[..n - 1], idx[..n - 1];
      assert Picks(s, t', idx');
      assert t[n - 2] != t[n - 1];
      if n >= 3 {
        assert t[n - 3] < t[n - 2] <==> t[n - 2] > t[n - 1];
      }
      ChainIsUpperBound(s, t', idx', !up);
      assert idx[n - 2] < idx[n - 1];
      BestIsMaximal(s, idx[n - 1], idx[n - 1], up, idx[n - 2]);
    }
  }

  /** No alternating subsequence of s is longer than Longest. */
  lemma LongestIsOptimal(s: seq<int>, t: seq<int>)
    requires Subsequence(s, t) && ZigZag(t)
    ensures |t| <= Longest(s, |s|)
  {
    if |t| > 0 {
      var idx :| Picks(s, t, idx);
      var up := |t| >= 2 && t[|t| - 2] < t[|t| - 1];
      ChainIsUpperBound(s, t, idx, up);
      LongestIsMaximum(s, |s|);
    }
  }

  /**
   * The first loop of getLongestSequence: the largest length over all
   * elements and the first element reaching it, DECREASE for empty input.
   */
  method FindLongest(s: seq<int>, inc: seq<int>, dec: seq<int>, incPrev: seq<int>, decPrev: seq<int>, transitions: seq<int>)
    returns (maxLength: int, lastIndex: int)
    requires Solved(s, inc, dec, incPrev, decPrev, transitions, |s|)
    ensures maxLength == Longest(s, |s|)
    ensures lastIndex == DECREASE <==> |s| == 0
    ensures lastIndex != DECREASE ==> 0 <= lastIndex < |s| && maxLength == Max(inc[lastIndex], dec[lastIndex])
    ensures lastIndex != DECREASE ==> forall k :: 0 <= k < lastIndex ==> Max(inc[k], dec[k]) < maxLength
  {
    lastIndex := DECREASE;
    maxLength := 0;
    for i := 0 to |s|
      invariant maxLength == Longest(s, i)
      invariant lastIndex == DECREASE <==> i == 0
      invariant lastIndex != DECREASE ==> 0 <= lastIndex < i && maxLength == Max(inc[lastIndex], dec[lastIndex])
      invariant forall k :: 0 <= k < i ==> Max(inc[k], dec[k]) <= maxLength
      invariant lastIndex != DECREASE ==> forall k :: 0 <= k < lastIndex ==> Max(inc[k], dec[k]) < maxLength
    {
      assert SolvedAt(s, inc, dec, incPrev, decPrev, transitions, i);
      ChainBounds(s, i, true);
      var currentLength := Max(inc[i], dec[i]);
      if maxLength < currentLength {
        maxLength := currentLength;
        lastIndex := i;
      }
    }
  }

  /**
   * The walk at an element is following its up (down) chain: the
   * transition selects that kind, or is 0 and the chain is the element alone.
   */
  predicate Follows(transition: int, up: bool, chain: int) {
    if up then transition == INCREASE || (transition == 0 && chain == 1)
    else transition == DECREASE || (transition == 0 && chain == 1)
  }

  /**
   * One step of the walk: from an element whose transition selects its up
   * (down) chain, the link taken is that chain's, and the element it leads
   * to has a transition selecting its down (up) chain.
   */
  lemma WalkStep(s: seq<int>, inc: seq<int>, dec: seq<int>, incPrev: seq<int>, decPrev: seq<int>, transitions: seq<int>, x: nat, up: bool)
    requires Solved(s, inc, dec, incPrev, decPrev, transitions, |s|) && x < |s|
    requires Follows(transitions[x], up, Chain(s, x, up))
    ensures var next := if transitions[x] == INCREASE then incPrev[x] else decPrev[x];
      (next == DECREASE ==> Chain(s, x, up) == 1)
      && (next != DECREASE ==> 0 <= next < x && Step(s, next, x, up) && Chain(s, x, up) == Chain(s, next, !up) + 1
                                && Follows(transitions[next], !up, Chain(s, next, !up)))
  {
    assert SolvedAt(s, inc, dec, incPrev, decPrev, transitions, x);
    var next := if transitions[x] == INCREASE then incPrev[x] else decPrev[x];
    assert LinkedWith(s, x, next, up, Chain(s, x, up));
    if next != DECREASE {
      assert SolvedAt(s, inc, dec, incPrev, decPrev, transitions, next);
      LinkedKind(s, x, next, up);
    }
  }

  /**
   * The state of the walk at position x, following the up (down) chain
   * there: the pushed elements descend in position, alternate, and with the
   * chain still to come make up maxLength; the last two steps taken and the
   * one to come go in opposite directions.
   */
  ghost predicate Walking(s: seq<int>, transitions: seq<int>, pushed: seq<int>, idx: seq<int>, x: int, up: bool, maxLength: int) {
    |transitions| == |s|
    && (x == DECREASE || 0 <= x < |s|)
    && Descending(s, pushed, idx, x) && ZigZag(pushed)
    && (x == DECREASE ==> |pushed| == maxLength)
    && (x != DECREASE ==>
          |pushed| + Chain(s, x, up) == maxLength
          && Follows(transitions[x], up, Chain(s, x, up))
          && (|idx| >= 1 ==> Step(s, x, idx[|idx| - 1], !up)))
    && (|idx| >= 2 ==> Step(s, idx[|idx| - 1], idx[|idx| - 2], up))
  }

  /** Pushing s[x] and taking the selected link keeps the walk's state. */
  lemma WalkAdvance(s: seq<int>, inc: seq<int>, dec: seq<int>, incPrev: seq<int>, decPrev: seq<int>, transitions: seq<int>,
                    pushed: seq<int>, idx: seq<int>, x: int, up: bool, maxLength: int, next: int)
    requires Solved(s, inc, dec, incPrev, decPrev, transitions, |s|)
    requires Walking(s, transitions, pushed, idx, x, up, maxLength) && x != DECREASE
    requires next == if transitions[x] == INCREASE then incPrev[x] else decPrev[x]
    ensures next < x
    ensures Walking(s, transitions, pushed + [s[x]], idx + [x], next, !up, maxLength)
  {
    WalkStep(s, inc, dec, incPrev, decPrev, transitions, x, up);
    DescendingPush(s, pushed, idx, x, next);
    ZigZagSnoc(pushed, s[x]);
  }

  /**
   * The second half of getLongestSequence: follow the links from lastIndex,
   * taking the up link when the transition is INCREASE and the down link
   * otherwise, then reverse. The positions strictly decrease, so the walk
   * ends; every link leads to an element whose transition selects the
   * other kind of chain, so the result alternates and has maxLength
   * elements.
   */
  method FollowLinks(s: seq<int>, inc: seq<int>, dec: seq<int>, incPrev: seq<int>, decPrev: seq<int>, transitions: seq<int>,
                     maxLength: int, start: int)
    returns (longestSequence: seq<int>)
    requires Solved(s, inc, dec, incPrev, decPrev, transitions, |s|)
    requires start == DECREASE ==> maxLength == 0
    requires start != DECREASE ==> 0 <= start < |s| && maxLength == Max(inc[start], dec[start])
    ensures |longestSequence| == maxLength
    ensures Subsequence(s, longestSequence) && ZigZag(longestSequence)
  {
    var pushed: seq<int> := [];
    ghost var idx: seq<int> := [];
    var lastIndex := start;
    ghost var up := start != DECREASE && transitions[start] == INCREASE;
    if start != DECREASE {
      assert SolvedAt(s, inc, dec, incPrev, decPrev, transitions, start);
    }
    while lastIndex != DECREASE
      invariant Walking(s, transitions, pushed, idx, lastIndex, up, maxLength)
      decreases lastIndex + 1
    {
      var next := if transitions[lastIndex] == INCREASE then incPrev[lastIndex] else decPrev[lastIndex];
      WalkAdvance(s, inc, dec, incPrev, decPrev, transitions, pushed, idx, lastIndex, up, maxLength, next);
      pushed := pushed + [s[lastIndex]];
      idx := idx + [lastIndex];
      lastIndex := next;
      up := !up;
    }
    PicksReversed(s, pushed, idx);
    ZigZagReversed(pushed);
    longestSequence := Reverse(pushed);
  }

  class AlternatingSequenceCalculator {
    var elementCount: int
    var sequence: seq<int>
    var increasingLength: seq<int>
    var decreasingLength: seq<int>
    var increasingPrevIndex: seq<int>
    var decreasingPrevIndex: seq<int>
    var transitions: seq<int>

    /** The lengths and links for the whole sequence have been computed. */
    ghost predicate Computed()
      reads this
    {
      elementCount == |sequence|
      && Solved(sequence, increasingLength, decreasingLength, increasingPrevIndex, decreasingPrevIndex, transitions, |sequence|)
    }

    /** Every length starts at 1, every link at DECREASE, every transition at 0. */
    constructor(s: seq<int>)
      ensures elementCount == |s| && sequence == s
      ensures Initial(sequence, increasingLength, decreasingLength, increasingPrevIndex, decreasingPrevIndex, transitions, 0)
    {
      elementCount := |s|;
      sequence := s;
      increasingLength := seq(|s|, _ => INCREASE);
      decreasingLength := seq(|s|, _ => INCREASE);
      increasingPrevIndex := seq(|s|, _ => DECREASE);
      decreasingPrevIndex := seq(|s|, _ => DECREASE);
      transitions := seq(|s|, _ => 0);
    }

    /**
     * calculateLongestSequences: afterwards every length is the chain
     * length and every link points to an earlier element.
     */
    method CalculateLongestSequences()
      requires elementCount == |sequence|
      requires Initial(sequence, increasingLength, decreasingLength, increasingPrevIndex, decreasingPrevIndex, transitions, 0)
      modifies this
      ensures Computed() && elementCount == old(elementCount) && sequence == old(sequence)
    {
      increasingLength, decreasingLength, increasingPrevIndex, decreasingPrevIndex, transitions :=
        ExtendAll(sequence, increasingLength, decreasingLength, increasingPrevIndex, decreasingPrevIndex, transitions);
    }

    /**
     * getLongestSequence: the largest chain length, 0 for empty input, and
     * the elements along the links from the first element reaching it: an
     * alternating subsequence of the input of exactly that length.
     */
    method GetLongestSequence() returns (maxLength: int, longestSequence: seq<int>)
      requires Computed()
      ensures maxLength == Longest(sequence, |sequence|) == |longestSequence|
      ensures Subsequence(sequence, longestSequence) && ZigZag(longestSequence)
    {
      var lastIndex;
      maxLength, lastIndex := FindLongest(sequence, increasingLength, decreasingLength, increasingPrevIndex, decreasingPrevIndex, transitions);
      longestSequence := FollowLinks(sequence, increasingLength, decreasingLength, increasingPrevIndex, decreasingPrevIndex, transitions, maxLength, lastIndex);
    }
  }

  /**
   * The program on one input sequence, without the reading and printing:
   * it returns an alternating subsequence, and by LongestIsOptimal none is
   * longer.
   */
  method Run(s: seq<int>) returns (maxLength: int, longestSequence: seq<int>)
    ensures maxLength == Longest(s, |s|) == |longestSequence|
    ensures Subsequence(s, longestSequence) && ZigZag(longestSequence)
  {
    var calculator := new AlternatingSequenceCalculator(s);
    calculator.CalculateLongestSequences();
    maxLength, longestSequence := calculator.GetLongestSequence();
  }
}
