/** Groupings with an exact number of groups: the Stirling numbers of the
    second kind, filled row by row into a table. */
module StirlingNumbers {

  /** S(n, k): the ways to split n labelled students into k non-empty,
      unlabelled groups. Student n either joins one of the k groups of the
      other n-1 students or forms a group of its own. */
  function Stirling(n: nat, k: nat): nat
  {
    if n == 0 then (if k == 0 then 1 else 0)
    else if k == 0 then 0
    else k * Stirling(n - 1, k) + Stirling(n - 1, k - 1)
  }

  /** There are no more groups than students. */
  lemma {:induction false} StirlingAboveDiagonal(n: nat, k: nat)
    requires k > n
    ensures Stirling(n, k) == 0
  {
    if n > 0 {
      StirlingAboveDiagonal(n - 1, k);
      StirlingAboveDiagonal(n - 1, k - 1);
    }
  }

  /** One group holds everybody. */
  lemma {:induction false} StirlingOneGroup(n: nat)
    requires n >= 1
    ensures Stirling(n, 1) == 1
  {
    if n > 1 {
      StirlingOneGroup(n - 1);
    }
  }

  /** n groups for n students: everybody alone. */
  lemma {:induction false} StirlingAllAlone(n: nat)
    ensures Stirling(n, n) == 1
  {
    if n > 0 {
      StirlingAboveDiagonal(n - 1, n);
      StirlingAllAlone(n - 1);
    }
  }

  /** S(n, 0) + S(n, 1) + ... + S(n, K). */
  function StirlingRowSum(n: nat, K: nat): nat
  {
    if K == 0 then Stirling(n, 0) else StirlingRowSum(n, K - 1) + Stirling(n, K)
  }

  /** The value the counter returns: S(n, k), except that the early
      `k == 0` exit also answers 0 for n = 0, where S(0, 0) = 1. */
  function FixedCount(n: nat, k: nat): nat
  {
    if k == 0 then 0 else Stirling(n, k)
  }

  /** FixedCount(n, 1) + ... + FixedCount(n, K), the column the group
      count chart shows for one n. */
  function FixedCountSum(n: nat, K: nat): nat
  {
    if K == 0 then 0 else FixedCountSum(n, K - 1) + FixedCount(n, K)
  }

  /** Leaving out k = 0 loses nothing once there is a student. */
  lemma {:induction false} FixedCountSumIsRowSum(n: nat, K: nat)
    requires n >= 1
    ensures FixedCountSum(n, K) == StirlingRowSum(n, K)
  {
    if K > 0 {
      FixedCountSumIsRowSum(n, K - 1);
    }
  }

  /** Exits early for k > n, k = 0, k = 1 and k = n; otherwise fills
      S[i][j] = j * S[i-1][j] + S[i-1][j-1] for j up to min(i, k). */
  method CountGroupingsFixedCount(n: nat, k: nat) returns (r: nat)
    ensures r == FixedCount(n, k)
    ensures (n, k) != (0, 0) ==> r == Stirling(n, k)
    ensures k > n || k == 0 ==> r == 0
    ensures 1 <= k <= n && (k == 1 || k == n) ==> r == 1
  {
    if k > n || k == 0 {
      if k > n {
        StirlingAboveDiagonal(n, k);
      }
      return 0;
    }
    if k == 1 || k == n {
      if k == 1 {
        StirlingOneGroup(n);
      } else {
        StirlingAllAlone(n);
      }
      return 1;
    }
    r := StirlingTable(n, k);
  }

  /** The table part of the counter: rows 0..n, columns 0..k, with
      S[0][0] = 1 and every other cell first 0. */
  method StirlingTable(n: nat, k: nat) returns (r: nat)
    ensures r == Stirling(n, k)
  {
    var s := new nat[n + 1, k + 1]((_, _) => 0);
    s[0, 0] := 1;
    var i := 1;
    while i <= n
      invariant 1 <= i <= n + 1
      invariant forall a, b :: 0 <= a < i && 0 <= b <= k ==> s[a, b] == Stirling(a, b)
      invariant forall a, b :: i <= a <= n && 0 <= b <= k ==> s[a, b] == 0
    {
      FillRow(s, i, k);
      i := i + 1;
    }
    r := s[n, k];
  }

  /** Row r of the table holds S(r, 0..k). */
  ghost predicate RowHolds(s: array2<nat>, r: nat, k: nat)
    requires r < s.Length0 && k < s.Length1
    reads s
  {
    forall b :: 0 <= b <= k ==> s[r, b] == Stirling(r, b)
  }

  /** One pass of the outer loop: S[i][j] = j * S[i-1][j] + S[i-1][j-1]
      for j = 1..min(i, k); the cells right of the diagonal stay 0. */
  method FillRow(s: array2<nat>, i: nat, k: nat)
    requires 1 <= i < s.Length0 && k < s.Length1
    requires RowHolds(s, i - 1, k)
    requires forall b :: 0 <= b <= k ==> s[i, b] == 0
    modifies s
    ensures RowHolds(s, i, k)
    ensures forall a, b :: 0 <= a < s.Length0 && 0 <= b < s.Length1 && a != i ==> s[a, b] == old(s[a, b])
    ensures forall b :: k < b < s.Length1 ==> s[i, b] == old(s[i, b])
  {
    var top := if i < k then i else k;
    var j := 1;
    while j <= top
      invariant 1 <= j <= top + 1
      invariant forall b :: 0 <= b < j ==> s[i, b] == Stirling(i, b)
      invariant forall b :: j <= b <= k ==> s[i, b] == 0
      invariant forall a, b :: 0 <= a < s.Length0 && 0 <= b < s.Length1 && a != i ==> s[a, b] == old(s[a, b])
      invariant forall b :: k < b < s.Length1 ==> s[i, b] == old(s[i, b])
    {
      s[i, j] := j * s[i - 1, j] + s[i - 1, j - 1];
      j := j + 1;
    }
    forall b | top < b <= k
      ensures Stirling(i, b) == 0
    {
      StirlingAboveDiagonal(i, b);
    }
  }
}
