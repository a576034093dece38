/** Students, groupings and the facts about them both enumerations and the
    bounded count rely on: a grouping is a sequence of groups, a group a
    sequence of student numbers. */
module Groupings {

  type Group = seq<nat>
  type Grouping = seq<Group>

  /** The students 1..n in increasing order. */
  function Students(n: nat): (r: seq<nat>)
    ensures |r| == n
  {
    if n == 0 then [] else Students(n - 1) + [n]
  }

  /** The groups of a grouping laid end to end. */
  function Concat(p: Grouping): seq<nat>
  {
    if p == [] then [] else Concat(p[..|p| - 1]) + p[|p| - 1]
  }

  /** The students that open a group. */
  function Firsts(p: Grouping): set<nat>
  {
    if p == [] then {}
    else Firsts(p[..|p| - 1]) + (if p[|p| - 1] == [] then {} else {p[|p| - 1][0]})
  }

  lemma ConcatSnoc(p: Grouping, g: Group)
    ensures Concat(p + [g]) == Concat(p) + g
    ensures Firsts(p + [g]) == Firsts(p) + (if g == [] then {} else {g[0]})
  {
    assert (p + [g])[..|p|] == p;
  }

  /** p cuts students 1..n, in order, into non-empty groups. */
  ghost predicate IsContiguousGrouping(p: Grouping, n: nat)
  {
    (forall g :: 0 <= g < |p| ==> p[g] != []) && Concat(p) == Students(n)
  }

  lemma {:induction false} StudentsAt(n: nat)
    ensures |Students(n)| == n
    ensures forall i :: 0 <= i < n ==> Students(n)[i] == i + 1
  {
    if n > 0 {
      StudentsAt(n - 1);
    }
  }

  lemma StudentsPrefix(n: nat, m: nat)
    requires m <= n
    ensures Students(n)[..m] == Students(m)
  {
    StudentsAt(n);
    StudentsAt(m);
  }

  /** Every group head is one of the grouped students. */
  lemma {:induction false} HeadsInside(p: Grouping, x: nat)
    requires x in Firsts(p)
    ensures x in Concat(p)
    decreases |p|
  {
    var q, g := p[..|p| - 1], p[|p| - 1];
    assert p == q + [g];
    ConcatSnoc(q, g);
    if x in Firsts(q) {
      HeadsInside(q, x);
    }
  }

  /** Only the empty grouping groups no students. */
  lemma EmptyOnlyForNone(p: Grouping, n: nat)
    requires IsContiguousGrouping(p, n)
    ensures p == [] <==> n == 0
  {
    StudentsAt(n);
    if p != [] {
      var q, g := p[..|p| - 1], p[|p| - 1];
      assert p == q + [g];
      ConcatSnoc(q, g);
    }
  }

  /** Every group head of p is one of the students 1..m. */
  ghost predicate HeadsWithin(p: Grouping, m: nat)
  {
    forall x :: x in Firsts(p) ==> 1 <= x <= m
  }

  /** The last group of a contiguous grouping is m + 1..n, where 1..m are
      the students of the groups before it, which group them contiguously
      and have their heads at most m. */
  lemma LastGroup(p: Grouping, n: nat) returns (m: nat)
    requires IsContiguousGrouping(p, n) && p != []
    ensures m < n
    ensures IsContiguousGrouping(p[..|p| - 1], m)
    ensures p[|p| - 1] == Students(n)[m..]
    ensures Firsts(p) == Firsts(p[..|p| - 1]) + {m + 1}
    ensures HeadsWithin(p[..|p| - 1], m)
  {
    var q, g := p[..|p| - 1], p[|p| - 1];
    assert p == q + [g];
    ConcatSnoc(q, g);
    m := |Concat(q)|;
    StudentsAt(n);
    assert Concat(q) == Students(n)[..m];
    StudentsPrefix(n, m);
    StudentsAt(m);
    assert g[0] == Students(n)[m];
    forall x | x in Firsts(q)
      ensures 1 <= x <= m
    {
      HeadsInside(q, x);
    }
  }

  ghost predicate Distinct(s: seq<Grouping>)
  {
    forall a, b :: 0 <= a < b < |s| ==> s[a] != s[b]
  }

  lemma DistinctAppend(s: seq<Grouping>, t: seq<Grouping>)
    requires Distinct(s) && Distinct(t)
    requires forall p, q :: p in s && q in t ==> p != q
    ensures Distinct(s + t)
  {
    forall a, b | 0 <= a < b < |s + t|
      ensures (s + t)[a] != (s + t)[b]
    {
      if b >= |s| && a < |s| {
        assert (s + t)[a] in s && (s + t)[b] in t;
      } else if a >= |s| {
        assert (s + t)[a] == t[a - |s|] && (s + t)[b] == t[b - |s|];
      }
    }
  }

  /** Concat and Firsts read from the front. */
  lemma ConcatFront(p: Grouping)
    requires p != []
    ensures Concat(p) == p[0] + Concat(p[1..])
    ensures Firsts(p) == (if p[0] == [] then {} else {p[0][0]}) + Firsts(p[1..])
  {
    ConcatFrontOnly(p);
    FirstsFront(p);
  }

  lemma {:induction false} ConcatFrontOnly(p: Grouping)
    requires p != []
    ensures Concat(p) == p[0] + Concat(p[1..])
    decreases |p|
  {
    var q, g := p[..|p| - 1], p[|p| - 1];
    assert p == q + [g];
    ConcatSnoc(q, g);
    if q == [] {
      assert p[1..] == [];
      assert Concat(p) == Concat([]) + g;
    } else {
      ConcatFrontOnly(q);
      assert p[1..] == q[1..] + [g];
      ConcatSnoc(q[1..], g);
      calc {
        Concat(p);
        Concat(q) + g;
        q[0] + Concat(q[1..]) + g;
        { assert q[0] + Concat(q[1..]) + g == q[0] + (Concat(q[1..]) + g); }
        p[0] + Concat(p[1..]);
      }
    }
  }

  lemma {:induction false} FirstsFront(p: Grouping)
    requires p != []
    ensures Firsts(p) == (if p[0] == [] then {} else {p[0][0]}) + Firsts(p[1..])
    decreases |p|
  {
    var q, g := p[..|p| - 1], p[|p| - 1];
    assert p == q + [g];
    ConcatSnoc(q, g);
    if q == [] {
      assert p[1..] == [];
      assert Firsts(p) == Firsts([]) + (if g == [] then {} else {g[0]});
    } else {
      FirstsFront(q);
      assert p[1..] == q[1..] + [g];
      ConcatSnoc(q[1..], g);
    }
  }

  /** Students 1..k sit in the first group of p. Student 1 always does in
      a contiguous grouping, so this is "students 1..k share a group". */
  ghost predicate SharesFirstGroup(p: Grouping, k: nat)
  {
    p != [] && forall x :: 1 <= x <= k ==> x in p[0]
  }

  /** The first group of a contiguous grouping is 1..L, so students 1..k
      share it exactly when none of students 2..k heads a group. */
  lemma FirstGroupHeads(p: Grouping, n: nat, k: nat)
    requires IsContiguousGrouping(p, n) && 1 <= k <= n
    ensures SharesFirstGroup(p, k) <==> forall x :: 2 <= x <= k ==> x !in Firsts(p)
  {
    EmptyOnlyForNone(p, n);
    ConcatFront(p);
    var first, rest := p[0], p[1..];
    var L := |first|;
    StudentsAt(n);
    assert first == Students(n)[..L];
    assert Concat(rest) == Students(n)[L..];
    forall x | x in Firsts(rest)
      ensures x > L
    {
      HeadsInside(rest, x);
      var j :| 0 <= j < |Concat(rest)| && Concat(rest)[j] == x;
      assert x == Students(n)[L + j];
    }
    if L >= k {
      forall x | 1 <= x <= k
        ensures x in first
      {
        assert first[x - 1] == x;
      }
    } else {
      assert rest != [];
      ConcatFront(rest);
      assert rest[0] == p[1];
      assert rest[0][0] == Concat(rest)[0] == L + 1;
      assert L + 1 !in first;
    }
  }
}
