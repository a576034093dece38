/** Listing every contiguous grouping of students 1..n: scheme number s
    (0 <= s < 2^(n-1)) cuts the gap after student i exactly when bit i-1
    of s is set. */
module ContiguousEnumeration {
  import opened Groupings
  import opened Contiguous

  /** Bit b of s, that is `(s & (1 << b)) != 0` for non-negative s. */
  function Bit(s: nat, b: nat): bool
  {
    if b == 0 then s % 2 == 1 else Bit(s / 2, b - 1)
  }

  /** Students 2..i that scheme s puts at the head of a new group. */
  function Cuts(s: nat, i: nat): set<nat>
  {
    if i < 2 then {} else Cuts(s, i - 1) + (if Bit(s, i - 2) then {i} else {})
  }

  lemma {:induction false} CutsMember(s: nat, i: nat, x: nat)
    ensures x in Cuts(s, i) <==> 2 <= x <= i && Bit(s, x - 2)
  {
    if i >= 2 {
      CutsMember(s, i - 1, x);
    }
  }

  /** State of the inner loop once students 1..i are placed: the groups
      already closed and the group still open. */
  function Build(s: nat, i: nat): (Grouping, Group)
    requires i >= 1
  {
    if i == 1 then ([], [1])
    else
      var (closed, open) := Build(s, i - 1);
      if Bit(s, i - 2) then (closed + [open], [i]) else (closed, open + [i])
  }

  /** The grouping scheme s produces; with no students the loop over the
      gaps never runs and the single group [1] is emitted. */
  function SchemeGrouping(n: nat, s: nat): Grouping
  {
    var (closed, open) := Build(s, if n == 0 then 1 else n);
    closed + [open]
  }

  /** All groupings, in ascending scheme order. */
  method GenerateGroupings(n: nat) returns (groupings: seq<Grouping>)
    ensures |groupings| == ContiguousCount(n)
    ensures forall s :: 0 <= s < |groupings| ==> groupings[s] == SchemeGrouping(n, s)
    ensures n == 0 ==> groupings == [[[1]]]
    ensures n >= 1 ==> forall s :: 0 <= s < |groupings| ==>
      Concat(groupings[s]) == Students(n) && forall g :: 0 <= g < |groupings[s]| ==> groupings[s][g] != []
    ensures forall s, t :: 0 <= s < t < |groupings| ==> groupings[s] != groupings[t]
    ensures n >= 1 ==> forall p :: p in groupings <==> IsContiguousGrouping(p, n)
  {
    groupings := [];
    // `Math.pow(2, n - 1)` is 0.5 for n = 0, which still admits scheme 0,
    // so the loop visits ContiguousCount(n) schemes for every n
    var totalSchemes := ContiguousCount(n);
    var scheme := 0;
    while scheme < totalSchemes
      invariant 0 <= scheme <= totalSchemes
      invariant |groupings| == scheme
      invariant forall s :: 0 <= s < scheme ==> groupings[s] == SchemeGrouping(n, s)
    {
      var grouping: Grouping := [];
      var currentGroup: Group := [1];
      var i := 1;
      while i < n
        invariant 1 <= i <= (if n == 0 then 1 else n)
        invariant (grouping, currentGroup) == Build(scheme, i)
      {
        if Bit(scheme, i - 1) {
          grouping := grouping + [currentGroup];
          currentGroup := [i + 1];
        } else {
          currentGroup := currentGroup + [i + 1];
        }
        i := i + 1;
      }
      grouping := grouping + [currentGroup];
      groupings := groupings + [grouping];
      scheme := scheme + 1;
    }
    if n == 0 {
      assert SchemeGrouping(0, 0) == [[1]];
      assert groupings == [groupings[0]];
    } else {
      forall s | 0 <= s < |groupings| {
        SchemeGroupingShape(n, s);
      }
      forall s, t | 0 <= s < t < |groupings| {
        SchemeGroupingsDistinct(n, s, t);
      }
      forall p | IsContiguousGrouping(p, n)
        ensures p in groupings
      {
        EveryContiguousGroupingHasScheme(n, p);
        var s :| 0 <= s < Pow2(n - 1) && SchemeGrouping(n, s) == p;
        assert groupings[s] == p;
      }
    }
  }

  /** Invariant of the inner loop: every group is non-empty, the groups
      laid end to end are 1..i, and the group heads are 1 and the cuts. */
  lemma {:induction false} BuildShape(s: nat, i: nat)
    requires i >= 1
    ensures Build(s, i).1 != []
    ensures forall g :: 0 <= g < |Build(s, i).0| ==> Build(s, i).0[g] != []
    ensures Concat(Build(s, i).0 + [Build(s, i).1]) == Students(i)
    ensures Firsts(Build(s, i).0 + [Build(s, i).1]) == {1} + Cuts(s, i)
  {
    if i == 1 {
      ConcatSnoc([], [1]);
    } else {
      BuildShape(s, i - 1);
      var closed, open := Build(s, i - 1).0, Build(s, i - 1).1;
      ConcatSnoc(closed, open);
      if Bit(s, i - 2) {
        assert Build(s, i) == (closed + [open], [i]);
        ConcatSnoc(closed + [open], [i]);
      } else {
        assert Build(s, i) == (closed, open + [i]);
        ConcatSnoc(closed, open + [i]);
        assert Firsts(closed + [open + [i]]) == Firsts(closed + [open]);
      }
    }
  }

  /** Every listed grouping is a contiguous grouping of 1..n, and scheme s
      starts a new group at student x + 1 exactly when bit x - 1 is set. */
  lemma SchemeGroupingShape(n: nat, s: nat)
    requires n >= 1
    ensures var p := SchemeGrouping(n, s);
      && (forall g :: 0 <= g < |p| ==> p[g] != [])
      && Concat(p) == Students(n)
      && (forall x :: 2 <= x <= n ==> (x in Firsts(p) <==> Bit(s, x - 2)))
      && 1 in Firsts(p)
  {
    BuildShape(s, n);
    forall x | 2 <= x <= n {
      CutsMember(s, n, x);
    }
  }

  /** Two different schemes below 2^k differ in one of their low k bits. */
  lemma {:induction false} BitsDiffer(s: nat, t: nat, k: nat)
    requires s != t && s < Pow2(k) && t < Pow2(k)
    ensures exists b :: 0 <= b < k && Bit(s, b) != Bit(t, b)
  {
    if s % 2 != t % 2 {
      assert Bit(s, 0) != Bit(t, 0);
    } else {
      BitsDiffer(s / 2, t / 2, k - 1);
      var b :| 0 <= b < k - 1 && Bit(s / 2, b) != Bit(t / 2, b);
      assert Bit(s, b + 1) != Bit(t, b + 1);
    }
  }

  /** Different schemes give different groupings, so the list holds no
      grouping twice. */
  lemma SchemeGroupingsDistinct(n: nat, s: nat, t: nat)
    requires n >= 1 && s != t && s < Pow2(n - 1) && t < Pow2(n - 1)
    ensures SchemeGrouping(n, s) != SchemeGrouping(n, t)
  {
    BitsDiffer(s, t, n - 1);
    var b :| 0 <= b < n - 1 && Bit(s, b) != Bit(t, b);
    SchemeGroupingShape(n, s);
    SchemeGroupingShape(n, t);
    assert (b + 2 in Firsts(SchemeGrouping(n, s))) != (b + 2 in Firsts(SchemeGrouping(n, t)));
  }

  // ---------------------------------------------------------------------
  // Every contiguous grouping is listed

  /** A contiguous grouping is determined by its group heads. */
  lemma {:induction false} ContiguousUnique(p: Grouping, q: Grouping, n: nat)
    requires IsContiguousGrouping(p, n) && IsContiguousGrouping(q, n)
    requires Firsts(p) == Firsts(q)
    ensures p == q
    decreases n
  {
    EmptyOnlyForNone(p, n);
    EmptyOnlyForNone(q, n);
    if n > 0 {
      var m := LastGroup(p, n);
      var m' := LastGroup(q, n);
      var p', q' := p[..|p| - 1], q[..|q| - 1];
      assert m + 1 in Firsts(q') + {m' + 1};
      assert m' + 1 in Firsts(p') + {m + 1};
      assert m == m';
      assert Firsts(p') == Firsts(p) - {m + 1};
      assert Firsts(q') == Firsts(q) - {m + 1};
      ContiguousUnique(p', q', m);
      assert p == p' + [p[|p| - 1]];
      assert q == q' + [q[|q| - 1]];
    }
  }

  /** Student 1 heads a group. */
  lemma {:induction false} FirstHeadIsOne(p: Grouping, n: nat)
    requires IsContiguousGrouping(p, n) && n >= 1
    ensures 1 in Firsts(p)
    decreases n
  {
    EmptyOnlyForNone(p, n);
    var m := LastGroup(p, n);
    EmptyOnlyForNone(p[..|p| - 1], m);
    if m > 0 {
      FirstHeadIsOne(p[..|p| - 1], m);
    }
  }

  /** The scheme whose bit j (j < k) is set exactly when student b + j + 2
      is in `heads`. */
  function SchemeFor(heads: set<nat>, b: nat, k: nat): nat
    decreases k
  {
    if k == 0 then 0 else (if b + 2 in heads then 1 else 0) + 2 * SchemeFor(heads, b + 1, k - 1)
  }

  lemma {:induction false} SchemeForBits(heads: set<nat>, b: nat, k: nat)
    ensures SchemeFor(heads, b, k) < Pow2(k)
    ensures forall j :: 0 <= j < k ==> (Bit(SchemeFor(heads, b, k), j) <==> b + j + 2 in heads)
    decreases k
  {
    if k > 0 {
      SchemeForBits(heads, b + 1, k - 1);
      var s, rest := SchemeFor(heads, b, k), SchemeFor(heads, b + 1, k - 1);
      assert s / 2 == rest;
      forall j | 0 < j < k
        ensures Bit(s, j) == Bit(rest, j - 1)
      {
      }
    }
  }

  /** Every contiguous grouping of n >= 1 students is the one some scheme
      below 2^(n-1) produces. */
  lemma EveryContiguousGroupingHasScheme(n: nat, p: Grouping)
    requires n >= 1 && IsContiguousGrouping(p, n)
    ensures exists s :: 0 <= s < Pow2(n - 1) && SchemeGrouping(n, s) == p
  {
    SchemeOfHeads(n, p);
  }

  /** The scheme whose set bits are the heads of p, after student 1,
      produces p. */
  lemma SchemeOfHeads(n: nat, p: Grouping)
    requires n >= 1 && IsContiguousGrouping(p, n)
    ensures SchemeFor(Firsts(p), 0, n - 1) < Pow2(n - 1)
    ensures SchemeGrouping(n, SchemeFor(Firsts(p), 0, n - 1)) == p
  {
    var s := SchemeFor(Firsts(p), 0, n - 1);
    SchemeForBits(Firsts(p), 0, n - 1);
    var q := SchemeGrouping(n, s);
    BuildShape(s, n);
    FirstHeadIsOne(p, n);
    forall x | x in Firsts(p)
      ensures 1 <= x <= n
    {
      HeadsInside(p, x);
      StudentsAt(n);
    }
    forall x
      ensures x in Firsts(q) <==> x in Firsts(p)
    {
      CutsMember(s, n, x);
    }
    ContiguousUnique(q, p, n);
  }

  // ---------------------------------------------------------------------
  // What "k students fixed together" counts

  /** The groupings of the schemes t * 2^(k-1), t < 2^(n-k): those that
      never cut among students 1..k, in ascending scheme order. */
  function KeptTogether(n: nat, k: nat): seq<Grouping>
    requires 1 <= k <= n
  {
    seq(Pow2(n - k), t requires 0 <= t < Pow2(n - k) => SchemeGrouping(n, t * Pow2(k - 1)))
  }

  lemma {:induction false} Pow2Add(a: nat, b: nat)
    ensures Pow2(a + b) == Pow2(a) * Pow2(b)
  {
    if a > 0 {
      Pow2Add(a - 1, b);
      var x, y := Pow2(a - 1), Pow2(b);
      assert 2 * (x * y) == (2 * x) * y;
    }
  }

  lemma ScaledBelow(t: nat, a: nat, w: nat)
    requires t < a && w >= 1
    ensures t * w < a * w
  {
    assert a * w == t * w + (a - t) * w;
  }

  /** Multiplying by 2^m leaves the low m bits clear. */
  lemma {:induction false} ShiftedBits(t: nat, m: nat)
    ensures forall b :: 0 <= b < m ==> !Bit(t * Pow2(m), b)
  {
    if m > 0 {
      ShiftedBits(t, m - 1);
      var y := t * Pow2(m - 1);
      assert t * Pow2(m) == 2 * y;
      forall b | 0 < b < m
        ensures Bit(2 * y, b) == Bit(y, b - 1)
      {
      }
    }
  }

  /** Heads absent among the next m students contribute m low zero bits. */
  lemma {:induction false} SchemeForSkip(heads: set<nat>, b: nat, k: nat, m: nat)
    requires m <= k
    requires forall x :: b + 2 <= x < b + m + 2 ==> x !in heads
    ensures SchemeFor(heads, b, k) == SchemeFor(heads, b + m, k - m) * Pow2(m)
    decreases m
  {
    if m > 0 {
      assert b + 2 !in heads;
      SchemeForSkip(heads, b + 1, k - 1, m - 1);
      var x := SchemeFor(heads, b + m, k - m);
      assert SchemeFor(heads, b, k) == 2 * SchemeFor(heads, b + 1, k - 1);
      assert SchemeFor(heads, b + 1, k - 1) == x * Pow2(m - 1);
      Doubled(x, Pow2(m - 1));
    }
  }

  lemma Doubled(x: nat, y: nat)
    ensures 2 * (x * y) == x * (2 * y)
  {
  }

  /** Every listed grouping keeps students 1..k in one group. */
  lemma KeptTogetherSound(n: nat, k: nat)
    requires 1 <= k <= n
    ensures forall p :: p in KeptTogether(n, k) ==> IsContiguousGrouping(p, n) && SharesFirstGroup(p, k)
  {
    Pow2Add(n - k, k - 1);
    forall t | 0 <= t < Pow2(n - k)
      ensures IsContiguousGrouping(KeptTogether(n, k)[t], n) && SharesFirstGroup(KeptTogether(n, k)[t], k)
    {
      var s := t * Pow2(k - 1);
      var p := SchemeGrouping(n, s);
      SchemeGroupingShape(n, s);
      ShiftedBits(t, k - 1);
      FirstGroupHeads(p, n, k);
      assert forall x :: 2 <= x <= k ==> x !in Firsts(p);
    }
  }

  /** Every contiguous grouping that keeps students 1..k in one group is
      listed. */
  lemma KeptTogetherComplete(n: nat, k: nat, p: Grouping)
    requires 1 <= k <= n && IsContiguousGrouping(p, n) && SharesFirstGroup(p, k)
    ensures p in KeptTogether(n, k)
  {
    FirstGroupHeads(p, n, k);
    SchemeOfHeads(n, p);
    var heads := Firsts(p);
    assert forall x :: 2 <= x < k + 1 ==> x !in heads;
    SchemeForSkip(heads, 0, n - 1, k - 1);
    var t := SchemeFor(heads, k - 1, n - k);
    SchemeForBits(heads, k - 1, n - k);
    assert KeptTogether(n, k)[t] == p;
  }

  /** No grouping is listed twice. */
  lemma KeptTogetherDistinct(n: nat, k: nat)
    requires 1 <= k <= n
    ensures Distinct(KeptTogether(n, k))
  {
    Pow2Add(n - k, k - 1);
    var w := Pow2(k - 1);
    forall t, u | 0 <= t < u < Pow2(n - k)
      ensures KeptTogether(n, k)[t] != KeptTogether(n, k)[u]
    {
      ScaledBelow(t, u, w);
      ScaledBelow(u, Pow2(n - k), w);
      SchemeGroupingsDistinct(n, t * w, u * w);
    }
  }

  /** countGroupingsFixedTogether(n, k), for 1 <= k <= n, is the number of
      contiguous groupings of 1..n in which students 1..k share a group:
      KeptTogether lists each of them once and nothing else. */
  lemma FixedTogetherCountsGroupings(n: nat, k: nat)
    requires 1 <= k <= n
    ensures CountGroupingsFixedTogether(n, k) == |KeptTogether(n, k)|
    ensures Distinct(KeptTogether(n, k))
    ensures forall p :: p in KeptTogether(n, k) <==> IsContiguousGrouping(p, n) && SharesFirstGroup(p, k)
  {
    KeptTogetherSound(n, k);
    KeptTogetherDistinct(n, k);
    forall p | IsContiguousGrouping(p, n) && SharesFirstGroup(p, k)
      ensures p in KeptTogether(n, k)
    {
      KeptTogetherComplete(n, k, p);
    }
  }
}
