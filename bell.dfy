/** Bell numbers from the Bell triangle, and why the triangle counts the
    groupings the backtracking enumeration produces: both equal the sum of
    the Stirling numbers of a row. */
module Bell {
  import opened StirlingNumbers

  /** The Bell triangle: row 0 is [1]; row i starts with the last entry of
      row i-1, and each further entry adds its left neighbour and the entry
      above that neighbour. */
  function Aitken(i: nat, j: nat): nat
    requires j <= i
    decreases i, j
  {
    if i == 0 then 1
    else if j == 0 then Aitken(i - 1, i - 1)
    else Aitken(i, j - 1) + Aitken(i - 1, j - 1)
  }

  /** Leaves of the backtracking search with r students still to place
      and m groups open: the next student joins one of the m groups or
      opens a new one. */
  function Placements(r: nat, m: nat): nat
  {
    if r == 0 then 1 else m * Placements(r - 1, m) + Placements(r - 1, m + 1)
  }

  /** Those leaves that end with exactly k groups. */
  function PlacementsInto(r: nat, m: nat, k: nat): nat
  {
    if r == 0 then (if k == m then 1 else 0)
    else m * PlacementsInto(r - 1, m, k) + PlacementsInto(r - 1, m + 1, k)
  }

  /** Place a students as in Placements, then open one extra group that
      stays closed to them, then place b more students anywhere. */
  function PlacementsWithMark(a: nat, m: nat, b: nat): nat
  {
    if a == 0 then Placements(b, m + 1)
    else m * PlacementsWithMark(a - 1, m, b) + PlacementsWithMark(a - 1, m + 1, b)
  }

  /** Rows 0..n, each filled left to right; the answer is bell[n][0]. */
  method BellNumber(n: nat) returns (r: nat)
    ensures r == Aitken(n, 0)
    ensures r == StirlingRowSum(n, n)
    ensures r == Placements(n, 0)
    ensures n == 0 ==> r == 1
    ensures n >= 1 ==> r == FixedCountSum(n, n)
  {
    BellTriangleCountsPartitions(n);
    if n >= 1 {
      FixedCountSumIsRowSum(n, n);
    }
    if n == 0 {
      return 1;
    }
    var bell := new nat[n + 1, n + 1]((_, _) => 0);
    bell[0, 0] := 1;
    var i := 1;
    while i <= n
      invariant 1 <= i <= n + 1
      invariant forall a, b :: 0 <= b <= a < i ==> bell[a, b] == Aitken(a, b)
    {
      FillTriangleRow(bell, i);
      i := i + 1;
    }
    r := bell[n, 0];
  }

  /** Row r of the table holds the first r + 1 entries of triangle row r. */
  ghost predicate TriangleRowHolds(t: array2<nat>, r: nat)
    requires r < t.Length0 && r < t.Length1
    reads t
  {
    forall b :: 0 <= b <= r ==> t[r, b] == Aitken(r, b)
  }

  /** One pass of the outer loop: bell[i][0] = bell[i-1][i-1], then
      bell[i][j] = bell[i][j-1] + bell[i-1][j-1] for j = 1..i. */
  method FillTriangleRow(t: array2<nat>, i: nat)
    requires 1 <= i < t.Length0 && i < t.Length1
    requires TriangleRowHolds(t, i - 1)
    modifies t
    ensures TriangleRowHolds(t, i)
    ensures forall a, b :: 0 <= a < t.Length0 && 0 <= b < t.Length1 && a != i ==> t[a, b] == old(t[a, b])
    ensures forall b :: i < b < t.Length1 ==> t[i, b] == old(t[i, b])
  {
    t[i, 0] := t[i - 1, i - 1];
    var j := 1;
    while j <= i
      invariant 1 <= j <= i + 1
      invariant TriangleRowHolds(t, i - 1)
      invariant forall b :: 0 <= b < j ==> t[i, b] == Aitken(i, b)
      invariant forall a, b :: 0 <= a < t.Length0 && 0 <= b < t.Length1 && a != i ==> t[a, b] == old(t[a, b])
      invariant forall b :: i < b < t.Length1 ==> t[i, b] == old(t[i, b])
    {
      t[i, j] := t[i, j - 1] + t[i - 1, j - 1];
      j := j + 1;
    }
  }

  /** With nothing left to place after the mark, the mark changes nothing. */
  lemma {:induction false} MarkAtEnd(a: nat, m: nat)
    ensures PlacementsWithMark(a, m, 0) == Placements(a, m)
  {
    if a > 0 {
      MarkAtEnd(a - 1, m);
      MarkAtEnd(a - 1, m + 1);
    }
  }

  /** The triangle step, read on placements: the first of the b students
      placed after the mark either joins the marked group or is placed
      before the mark. */
  lemma {:induction false} MarkShift(a: nat, m: nat, b: nat)
    requires b >= 1
    ensures PlacementsWithMark(a, m, b) == PlacementsWithMark(a, m, b - 1) + PlacementsWithMark(a + 1, m, b - 1)
  {
    if a == 0 {
      var x, y := Placements(b - 1, m + 1), Placements(b - 1, m + 2);
      assert PlacementsWithMark(1, m, b - 1) == m * x + y;
      assert Placements(b, m + 1) == (m + 1) * x + y;
      Distribute(x, m, 1);
      assert (m + 1) * x == x * (m + 1) && m * x == x * m;
    } else {
      MarkShift(a - 1, m, b);
      MarkShift(a - 1, m + 1, b);
      var p, q := PlacementsWithMark(a - 1, m, b - 1), PlacementsWithMark(a, m, b - 1);
      Distribute(m, p, q);
    }
  }

  /** Entry j of triangle row i counts placements of i - j students, a
      mark, and j more students. */
  lemma {:induction false} AitkenAsPlacements(i: nat, j: nat)
    requires j <= i
    ensures Aitken(i, j) == PlacementsWithMark(i - j, 0, j)
    decreases i, j
  {
    if i == 0 {
    } else if j == 0 {
      AitkenAsPlacements(i - 1, i - 1);
      MarkAtEnd(i, 0);
    } else {
      AitkenAsPlacements(i, j - 1);
      AitkenAsPlacements(i - 1, j - 1);
      MarkShift(i - j, 0, j);
    }
  }

  lemma {:induction false} IntoFewer(r: nat, m: nat, k: nat)
    requires k < m
    ensures PlacementsInto(r, m, k) == 0
  {
    if r > 0 {
      IntoFewer(r - 1, m, k);
      IntoFewer(r - 1, m + 1, k);
    }
  }

  lemma {:induction false} IntoMore(r: nat, m: nat, k: nat)
    requires k > m + r
    ensures PlacementsInto(r, m, k) == 0
  {
    if r > 0 {
      IntoMore(r - 1, m, k);
      IntoMore(r - 1, m + 1, k);
    }
  }

  /** Placing one more student can equally be read at the end: the last
      student joins one of the k final groups or is a group alone. */
  lemma {:induction false} IntoLast(r: nat, m: nat, k: nat)
    ensures PlacementsInto(r + 1, m, k)
      == k * PlacementsInto(r, m, k) + (if k == 0 then 0 else PlacementsInto(r, m, k - 1))
  {
    if k == 0 {
      IntoFewer(r, m + 1, 0);
      if m > 0 {
        IntoFewer(r, m, 0);
      }
    } else if r == 0 {
      assert (if k == m then m else 0) == (if k == m then k else 0);
    } else {
      IntoLast(r - 1, m, k);
      IntoLast(r - 1, m + 1, k);
      var a, b := PlacementsInto(r - 1, m, k), PlacementsInto(r - 1, m, k - 1);
      var c, d := PlacementsInto(r - 1, m + 1, k), PlacementsInto(r - 1, m + 1, k - 1);
      assert PlacementsInto(r, m, k) == m * a + c;
      assert PlacementsInto(r, m, k - 1) == m * b + d;
      assert PlacementsInto(r, m + 1, k) == k * c + d;
      assert PlacementsInto(r, m, k) == k * a + b;
      Distribute(m, k * a, b);
      Distribute(k, m * a, c);
      Commute(m, k, a);
    }
  }

  /** From no groups, the leaves with k groups are the S(n, k) ways to
      split n students into k groups. */
  lemma {:induction false} IntoIsStirling(n: nat, k: nat)
    ensures PlacementsInto(n, 0, k) == Stirling(n, k)
  {
    if n > 0 {
      IntoLast(n - 1, 0, k);
      IntoIsStirling(n - 1, k);
      if k > 0 {
        IntoIsStirling(n - 1, k - 1);
      }
    }
  }

  /** PlacementsInto(r, m, 0) + ... + PlacementsInto(r, m, K). */
  function IntoUpTo(r: nat, m: nat, K: nat): nat
  {
    if K == 0 then PlacementsInto(r, m, 0) else IntoUpTo(r, m, K - 1) + PlacementsInto(r, m, K)
  }

  lemma {:induction false} IntoUpToStep(r: nat, m: nat, K: nat)
    ensures IntoUpTo(r + 1, m, K) == m * IntoUpTo(r, m, K) + IntoUpTo(r, m + 1, K)
  {
    if K > 0 {
      IntoUpToStep(r, m, K - 1);
      var s, t := IntoUpTo(r, m, K - 1), PlacementsInto(r, m, K);
      Distribute(m, s, t);
    }
  }

  lemma {:induction false} IntoUpToBelow(r: nat, m: nat, K: nat)
    requires K < m
    ensures IntoUpTo(r, m, K) == 0
  {
    IntoFewer(r, m, K);
    if K > 0 {
      IntoUpToBelow(r, m, K - 1);
    }
  }

  lemma {:induction false} IntoUpToTail(r: nat, m: nat, K: nat)
    requires K >= m + r
    ensures IntoUpTo(r, m, K) == IntoUpTo(r, m, m + r)
  {
    if K > m + r {
      IntoMore(r, m, K);
      IntoUpToTail(r, m, K - 1);
    }
  }

  /** Every leaf ends with between m and m + r groups. */
  lemma {:induction false} PlacementsSplit(r: nat, m: nat)
    ensures Placements(r, m) == IntoUpTo(r, m, m + r)
  {
    if r == 0 {
      if m > 0 {
        IntoUpToBelow(0, m, m - 1);
      }
    } else {
      PlacementsSplit(r - 1, m);
      PlacementsSplit(r - 1, m + 1);
      IntoUpToStep(r - 1, m, m + r);
      IntoUpToTail(r - 1, m, m + r);
    }
  }

  lemma {:induction false} IntoUpToIsRowSum(n: nat, K: nat)
    ensures IntoUpTo(n, 0, K) == StirlingRowSum(n, K)
  {
    IntoIsStirling(n, K);
    if K > 0 {
      IntoUpToIsRowSum(n, K - 1);
    }
  }

  /** The Bell triangle, the backtracking search and the Stirling row
      sums give the same number. */
  lemma BellTriangleCountsPartitions(n: nat)
    ensures Aitken(n, 0) == Placements(n, 0)
    ensures Placements(n, 0) == StirlingRowSum(n, n)
  {
    AitkenAsPlacements(n, 0);
    MarkAtEnd(n, 0);
    PlacementsSplit(n, 0);
    IntoUpToIsRowSum(n, n);
  }

  lemma Distribute(m: int, x: int, y: int)
    ensures m * (x + y) == m * x + m * y
  {
  }

  lemma Commute(m: int, k: int, a: int)
    ensures m * (k * a) == k * (m * a)
  {
  }
}
