/** Counting contiguous groupings: students 1..n, in order, are cut into
    consecutive non-empty groups. Covers the plain prefix-sum DP, the DP
    with bounded group sizes and the "k students fixed together" closed form. */
module Contiguous {
  import opened Groupings

  /** 2^e, the integer reading of `Math.pow(2, e)` for e >= 0. */
  function Pow2(e: nat): (r: nat)
    ensures r >= 1
  {
    if e == 0 then 1 else 2 * Pow2(e - 1)
  }

  /** The closed form the DP promises: 1 for no students (the empty
      grouping), otherwise one choice cut/no-cut for each of the n-1 gaps. */
  function ContiguousCount(n: nat): nat
  {
    if n == 0 then 1 else Pow2(n - 1)
  }

  /** The bounded DP recurrence: Ways(i) is the number of ways to cut the
      first i students into groups whose sizes lie in [lo, hi]. */
  function Ways(i: nat, lo: int, hi: int): nat
    decreases i, 1
  {
    if i == 0 then 1 else WaysBelow(i, i, lo, hi)
  }

  /** The partial sum dp[i] holds after the inner loop has visited j' < j:
      the sum of Ways(j') over those j' whose last group i - j' fits. */
  function WaysBelow(i: nat, j: nat, lo: int, hi: int): nat
    requires j <= i
    decreases i, 0, j
  {
    if j == 0 then 0
    else WaysBelow(i, j - 1, lo, hi) + (if lo <= i - (j - 1) <= hi then Ways(j - 1, lo, hi) else 0)
  }

  /** Prefix-sum DP over all last-group sizes; the result is 2^(n-1). */
  method CountGroupingsDP(n: nat) returns (r: nat)
    ensures n == 0 ==> r == 1
    ensures n >= 1 ==> r == Pow2(n - 1)
  {
    if n == 0 {
      return 1;
    }
    var dp := new nat[n + 1](_ => 0);
    dp[0] := 1;
    var i := 1;
    while i <= n
      invariant 1 <= i <= n + 1
      invariant dp[0] == 1
      invariant forall k :: 1 <= k < i ==> dp[k] == Pow2(k - 1)
      invariant forall k :: i <= k <= n ==> dp[k] == 0
    {
      var j := 0;
      while j < i
        invariant 0 <= j <= i
        invariant dp[0] == 1
        invariant forall k :: 1 <= k < i ==> dp[k] == Pow2(k - 1)
        invariant forall k :: i < k <= n ==> dp[k] == 0
        invariant dp[i] == if j == 0 then 0 else Pow2(j - 1)
      {
        dp[i] := dp[i] + dp[j];
        j := j + 1;
      }
      i := i + 1;
    }
    r := dp[n];
  }

  /** The same DP, adding dp[j] only when the last group i - j has a size
      in [minSize, maxSize]. */
  method CountGroupingsLimited(n: nat, minSize: int, maxSize: int) returns (r: nat)
    ensures r == Ways(n, minSize, maxSize)
    ensures r == |Fitting(n, minSize, maxSize)|
    ensures n == 0 ==> r == 1
    ensures n >= 1 && minSize > maxSize ==> r == 0
    ensures minSize <= 1 && maxSize >= n ==> r == ContiguousCount(n)
  {
    var dp := new nat[n + 1](_ => 0);
    dp[0] := 1;
    var i := 1;
    while i <= n
      invariant 1 <= i <= n + 1
      invariant forall k :: 0 <= k < i ==> dp[k] == Ways(k, minSize, maxSize)
      invariant forall k :: i <= k <= n ==> dp[k] == 0
    {
      var j := 0;
      while j < i
        invariant 0 <= j <= i
        invariant forall k :: 0 <= k < i ==> dp[k] == Ways(k, minSize, maxSize)
        invariant forall k :: i < k <= n ==> dp[k] == 0
        invariant dp[i] == WaysBelow(i, j, minSize, maxSize)
      {
        var lastGroupSize := i - j;
        if lastGroupSize >= minSize && lastGroupSize <= maxSize {
          dp[i] := dp[i] + dp[j];
        }
        j := j + 1;
      }
      i := i + 1;
    }
    r := dp[n];
    BoundedCountMeaning(n, minSize, maxSize);
    if n >= 1 && minSize > maxSize {
      WaysEmptyRange(n, minSize, maxSize);
    }
    if minSize <= 1 && maxSize >= n {
      WaysFullRange(n, minSize, maxSize);
    }
  }

  /** With an empty size range no student can be placed. */
  lemma {:induction false} WaysBelowEmptyRange(i: nat, j: nat, lo: int, hi: int)
    requires j <= i && lo > hi
    ensures WaysBelow(i, j, lo, hi) == 0
  {
    if j > 0 {
      WaysBelowEmptyRange(i, j - 1, lo, hi);
    }
  }

  lemma WaysEmptyRange(n: nat, lo: int, hi: int)
    requires n >= 1 && lo > hi
    ensures Ways(n, lo, hi) == 0
  {
    WaysBelowEmptyRange(n, n, lo, hi);
  }

  /** When every size 1..hi is allowed, the partial sum over j' < j is
      2^(j-1) (and 0 for j = 0): every earlier dp entry enters the sum. */
  lemma {:induction false} WaysBelowFullRange(i: nat, j: nat, lo: int, hi: int)
    requires j <= i <= hi && lo <= 1
    ensures WaysBelow(i, j, lo, hi) == if j == 0 then 0 else Pow2(j - 1)
    decreases j, 0
  {
    if j > 0 {
      WaysBelowFullRange(i, j - 1, lo, hi);
      WaysFullRange(j - 1, lo, hi);
    }
  }

  /** Sizes [1, n] (or any wider range) recover the unbounded count. */
  lemma {:induction false} WaysFullRange(n: nat, lo: int, hi: int)
    requires lo <= 1 && n <= hi
    ensures Ways(n, lo, hi) == ContiguousCount(n)
    decreases n, 1
  {
    if n > 0 {
      WaysBelowFullRange(n, n, lo, hi);
    }
  }

  /** k fixed students form one unit, leaving n - k + 1 units in a row. */
  function CountGroupingsFixedTogether(n: nat, k: nat): (r: nat)
    ensures k > n ==> r == 0
    ensures k <= n ==> r == ContiguousCount(n - k + 1)
    ensures k <= n ==> r == Ways(n - k + 1, 1, n - k + 1)
  {
    if k > n then 0 else WaysFullRange(n - k + 1, 1, n - k + 1); Pow2(n - k)
  }

  // ---------------------------------------------------------------------
  // What the bounded count counts

  /** Every group of p has between lo and hi students. */
  ghost predicate SizesWithin(p: Grouping, lo: int, hi: int)
  {
    forall g :: 0 <= g < |p| ==> lo <= |p[g]| <= hi
  }

  /** Each grouping of s followed by the group g. */
  function WithLastGroup(s: seq<Grouping>, g: Group): seq<Grouping>
  {
    seq(|s|, t requires 0 <= t < |s| => s[t] + [g])
  }

  /** The contiguous groupings of 1..i with every size in [lo, hi], listed
      by the start of the last group as the DP sums them: for each j < i
      whose last group j + 1..i fits, the groupings of 1..j followed by
      that group. */
  function Fitting(i: nat, lo: int, hi: int): seq<Grouping>
    decreases i, 1
  {
    if i == 0 then [[]] else FittingBelow(i, i, lo, hi)
  }

  /** The part of Fitting(i, lo, hi) whose last group starts at a student
      j' + 1 with j' < j. */
  function FittingBelow(i: nat, j: nat, lo: int, hi: int): seq<Grouping>
    requires j <= i
    decreases i, 0, j
  {
    if j == 0 then []
    else
      var last := if lo <= i - (j - 1) <= hi then WithLastGroup(Fitting(j - 1, lo, hi), Students(i)[j - 1..]) else [];
      FittingBelow(i, j - 1, lo, hi) + last
  }

  lemma {:induction false} FittingCount(i: nat, lo: int, hi: int)
    ensures |Fitting(i, lo, hi)| == Ways(i, lo, hi)
    decreases i, 1
  {
    if i > 0 {
      FittingBelowCount(i, i, lo, hi);
    }
  }

  lemma {:induction false} FittingBelowCount(i: nat, j: nat, lo: int, hi: int)
    requires j <= i
    ensures |FittingBelow(i, j, lo, hi)| == WaysBelow(i, j, lo, hi)
    decreases i, 0, j
  {
    if j > 0 {
      FittingBelowCount(i, j - 1, lo, hi);
      FittingCount(j - 1, lo, hi);
    }
  }

  /** Every listed grouping is a contiguous grouping of 1..i with sizes in
      [lo, hi]. */
  lemma {:induction false} FittingSound(i: nat, lo: int, hi: int)
    ensures forall p :: p in Fitting(i, lo, hi) ==> IsContiguousGrouping(p, i) && SizesWithin(p, lo, hi)
    decreases i, 1
  {
    if i == 0 {
      assert Fitting(0, lo, hi) == [[]];
    } else {
      FittingBelowSound(i, i, lo, hi);
    }
  }

  /** ... and in the part below j, its last group has more than i - j
      students. */
  lemma {:induction false} FittingBelowSound(i: nat, j: nat, lo: int, hi: int)
    requires j <= i
    ensures forall p :: p in FittingBelow(i, j, lo, hi) ==>
      && IsContiguousGrouping(p, i) && SizesWithin(p, lo, hi)
      && p != [] && |p[|p| - 1]| > i - j
    decreases i, 0, j
  {
    if j > 0 {
      FittingBelowSound(i, j - 1, lo, hi);
      if lo <= i - (j - 1) <= hi {
        var last := Students(i)[j - 1..];
        var earlier := Fitting(j - 1, lo, hi);
        FittingSound(j - 1, lo, hi);
        StudentsPrefix(i, j - 1);
        forall p | p in WithLastGroup(earlier, last)
          ensures IsContiguousGrouping(p, i) && SizesWithin(p, lo, hi)
          ensures p != [] && |p[|p| - 1]| > i - j
        {
          var t :| 0 <= t < |earlier| && p == earlier[t] + [last];
          var q := earlier[t];
          assert q in earlier;
          ConcatSnoc(q, last);
          assert Students(i) == Students(i)[..j - 1] + last;
          assert forall g :: 0 <= g < |q| ==> p[g] == q[g];
          assert p[|q|] == last;
        }
      }
    }
  }

  /** Every contiguous grouping of 1..i with sizes in [lo, hi] is listed. */
  lemma {:induction false} FittingComplete(i: nat, lo: int, hi: int, p: Grouping)
    requires IsContiguousGrouping(p, i) && SizesWithin(p, lo, hi)
    ensures p in Fitting(i, lo, hi)
    decreases i
  {
    EmptyOnlyForNone(p, i);
    if i > 0 {
      var m := LastGroup(p, i);
      var q := p[..|p| - 1];
      FittingComplete(m, lo, hi, q);
      assert p == q + [Students(i)[m..]];
      FittingBelowContains(i, i, lo, hi, m, q);
    }
  }

  lemma {:induction false} FittingBelowContains(i: nat, j: nat, lo: int, hi: int, m: nat, q: Grouping)
    requires m < j <= i && lo <= i - m <= hi && q in Fitting(m, lo, hi)
    ensures q + [Students(i)[m..]] in FittingBelow(i, j, lo, hi)
    decreases j
  {
    if m == j - 1 {
      var t :| 0 <= t < |Fitting(m, lo, hi)| && Fitting(m, lo, hi)[t] == q;
      assert WithLastGroup(Fitting(m, lo, hi), Students(i)[m..])[t] == q + [Students(i)[m..]];
    } else {
      FittingBelowContains(i, j - 1, lo, hi, m, q);
    }
  }

  /** Appending the same group keeps different groupings different. */
  lemma WithLastGroupDistinct(s: seq<Grouping>, g: Group)
    requires Distinct(s)
    ensures Distinct(WithLastGroup(s, g))
  {
    var r := WithLastGroup(s, g);
    forall a, b | 0 <= a < b < |r|
      ensures r[a] != r[b]
    {
      assert r[a][..|s[a]|] == s[a] && r[b][..|s[b]|] == s[b];
    }
  }

  /** No grouping is listed twice. */
  lemma {:induction false} FittingDistinct(i: nat, lo: int, hi: int)
    ensures Distinct(Fitting(i, lo, hi))
    decreases i, 1
  {
    if i > 0 {
      FittingBelowDistinct(i, i, lo, hi);
    }
  }

  lemma {:induction false} FittingBelowDistinct(i: nat, j: nat, lo: int, hi: int)
    requires j <= i
    ensures Distinct(FittingBelow(i, j, lo, hi))
    decreases i, 0, j
  {
    if j > 0 {
      FittingBelowDistinct(i, j - 1, lo, hi);
      if lo <= i - (j - 1) <= hi {
        var last := Students(i)[j - 1..];
        var earlier, chunk := FittingBelow(i, j - 1, lo, hi), WithLastGroup(Fitting(j - 1, lo, hi), last);
        FittingDistinct(j - 1, lo, hi);
        WithLastGroupDistinct(Fitting(j - 1, lo, hi), last);
        FittingBelowSound(i, j - 1, lo, hi);
        forall p, q | p in earlier && q in chunk
          ensures p != q
        {
          var t :| 0 <= t < |chunk| && q == chunk[t];
          assert |q[|q| - 1]| == i - (j - 1);
        }
        DistinctAppend(earlier, chunk);
      } else {
        assert FittingBelow(i, j, lo, hi) == FittingBelow(i, j - 1, lo, hi) + [];
      }
    }
  }

  /** The bounded DP counts exactly the contiguous groupings of 1..n whose
      groups all have a size in [lo, hi]: Fitting lists each of them once
      and nothing else, and it has Ways(n, lo, hi) entries. */
  lemma BoundedCountMeaning(n: nat, lo: int, hi: int)
    ensures Ways(n, lo, hi) == |Fitting(n, lo, hi)|
    ensures Distinct(Fitting(n, lo, hi))
    ensures forall p :: p in Fitting(n, lo, hi) <==> IsContiguousGrouping(p, n) && SizesWithin(p, lo, hi)
  {
    FittingCount(n, lo, hi);
    FittingDistinct(n, lo, hi);
    FittingSound(n, lo, hi);
    forall p | IsContiguousGrouping(p, n) && SizesWithin(p, lo, hi)
      ensures p in Fitting(n, lo, hi)
    {
      FittingComplete(n, lo, hi, p);
    }
  }
}
