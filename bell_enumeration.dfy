/** Listing every set partition of students 1..n by depth-first
    backtracking: student index + 1 joins each open group in turn, then
    opens a group of its own; one shared list of groups is extended before
    each recursive call and restored after it. */
module BellEnumeration {
  import opened Groupings
  import opened StirlingNumbers
  import opened Bell

  /** The state after student index + 1 joins open group b. */
  function Join(c: Grouping, index: nat, b: nat): Grouping
    requires b < |c|
  {
    c[b := c[b] + [index + 1]]
  }

  /** The state after student index + 1 opens a group of its own. */
  function Open(c: Grouping, index: nat): Grouping
  {
    c + [[index + 1]]
  }

  /** The snapshots the search records below the state `c` with students
      1..index placed, in the order it records them. */
  function Leaves(c: Grouping, index: nat, n: nat): seq<Grouping>
    requires index <= n
    decreases n - index, |c| + 1
  {
    if index == n then [c]
    else Joins(c, index, n, |c|) + Leaves(Open(c, index), index + 1, n)
  }

  /** The snapshots of the first i branches "join group b", b < i. */
  function Joins(c: Grouping, index: nat, n: nat, i: nat): seq<Grouping>
    requires index < n && i <= |c|
    decreases n - index, i
  {
    if i == 0 then [] else Joins(c, index, n, i - 1) + Leaves(Join(c, index, i - 1), index + 1, n)
  }

  /** The search with its shared state: `current` is the list of groups
      under construction, `groupings` collects the snapshots. */
  class BellGenerator {
    const n: nat
    var current: Grouping
    var groupings: seq<Grouping>

    constructor (n: nat)
      ensures this.n == n && current == [] && groupings == []
    {
      this.n := n;
      current := [];
      groupings := [];
    }

    /** Place students index + 1..n. Every push onto `current` is undone
        by a pop, so `current` is the same on return. */
    method Generate(index: nat)
      requires index <= n
      modifies this
      ensures current == old(current)
      ensures groupings == old(groupings) + Leaves(old(current), index, n)
      decreases n - index
    {
      if index == n {
        groupings := groupings + [current];
        return;
      }
      var i := 0;
      while i < |current|
        invariant 0 <= i <= |current|
        invariant current == old(current)
        invariant groupings == old(groupings) + Joins(old(current), index, n, i)
      {
        current := current[i := current[i] + [index + 1]];
        Generate(index + 1);
        assert current[i][..|current[i]| - 1] == old(current)[i];
        current := current[i := current[i][..|current[i]| - 1]];
        i := i + 1;
      }
      current := current + [[index + 1]];
      Generate(index + 1);
      current := current[..|current| - 1];
    }
  }

  /** All set partitions of 1..n, as the search records them. */
  method GenerateBellGroupings(n: nat) returns (groupings: seq<Grouping>)
    ensures groupings == Leaves([], 0, n)
    ensures n == 0 ==> groupings == [[]]
    ensures |groupings| == Placements(n, 0) == StirlingRowSum(n, n) == Aitken(n, 0)
    ensures forall p :: p in groupings <==> IsSetPartition(p, n)
    ensures Distinct(groupings)
    ensures forall k :: CountWithGroups(groupings, k) == Stirling(n, k)
  {
    var generator := new BellGenerator(n);
    generator.Generate(0);
    groupings := generator.groupings;
    SearchListsPartitions(n);
  }

  /** What the search records from the empty state: B(n) groupings, none
      twice, exactly the set partitions of 1..n in canonical order, S(n, k)
      of them with k groups. */
  lemma SearchListsPartitions(n: nat)
    ensures |Leaves([], 0, n)| == Placements(n, 0) == StirlingRowSum(n, n) == Aitken(n, 0)
    ensures forall p :: p in Leaves([], 0, n) <==> IsSetPartition(p, n)
    ensures Distinct(Leaves([], 0, n))
    ensures forall k :: CountWithGroups(Leaves([], 0, n), k) == Stirling(n, k)
  {
    LeavesCount([], 0, n);
    BellTriangleCountsPartitions(n);
    LeavesArePartitions([], 0, n);
    forall p | IsSetPartition(p, n)
      ensures p in Leaves([], 0, n)
    {
      SearchFindsEveryPartition(n, p);
    }
    LeavesDistinct([], 0, n);
    forall k
      ensures CountWithGroups(Leaves([], 0, n), k) == Stirling(n, k)
    {
      LeavesWithGroups([], 0, n, k);
      IntoIsStirling(n, k);
    }
  }

  // ---------------------------------------------------------------------
  // What a recorded grouping is

  /** p is a set partition of 1..n in the canonical order the search
      produces: non-empty increasing groups, ordered by least student,
      pairwise disjoint, covering exactly 1..n. */
  ghost predicate IsSetPartition(p: Grouping, n: nat)
  {
    && NonEmptyIncreasing(p)
    && OrderedByLeast(p)
    && Disjoint(p)
    && (forall g, x :: 0 <= g < |p| && x in p[g] ==> 1 <= x <= n)
    && (forall x :: 1 <= x <= n ==> Covered(p, x))
  }

  ghost predicate NonEmptyIncreasing(p: Grouping)
  {
    forall g :: 0 <= g < |p| ==> |p[g]| > 0 && forall x, y :: 0 <= x < y < |p[g]| ==> p[g][x] < p[g][y]
  }

  ghost predicate OrderedByLeast(p: Grouping)
    requires NonEmptyIncreasing(p)
  {
    forall g, h :: 0 <= g < h < |p| ==> p[g][0] < p[h][0]
  }

  ghost predicate Disjoint(p: Grouping)
  {
    forall g, h, x :: 0 <= g < h < |p| && x in p[g] ==> x !in p[h]
  }

  /** Student x is in some group of p. */
  ghost predicate Covered(p: Grouping, x: nat)
  {
    exists g :: 0 <= g < |p| && x in p[g]
  }

  // ---------------------------------------------------------------------
  // How many groupings

  lemma {:induction false} LeavesCount(c: Grouping, index: nat, n: nat)
    requires index <= n
    ensures |Leaves(c, index, n)| == Placements(n - index, |c|)
    decreases n - index
  {
    if index < n {
      JoinsCount(c, index, n, |c|);
      LeavesCount(Open(c, index), index + 1, n);
    }
  }

  lemma {:induction false} JoinsCount(c: Grouping, index: nat, n: nat, i: nat)
    requires index < n && i <= |c|
    ensures |Joins(c, index, n, i)| == i * Placements(n - index - 1, |c|)
    decreases n - index, i
  {
    if i > 0 {
      JoinsCount(c, index, n, i - 1);
      LeavesCount(Join(c, index, i - 1), index + 1, n);
      var leaves := Placements(n - index - 1, |c|);
      assert (i - 1) * leaves + leaves == i * leaves;
    }
  }

  /** How many groupings in s have exactly k groups. */
  function CountWithGroups(s: seq<Grouping>, k: nat): nat
  {
    if s == [] then 0
    else CountWithGroups(s[..|s| - 1], k) + (if |s[|s| - 1]| == k then 1 else 0)
  }

  lemma {:induction false} CountWithGroupsAppend(s: seq<Grouping>, t: seq<Grouping>, k: nat)
    ensures CountWithGroups(s + t, k) == CountWithGroups(s, k) + CountWithGroups(t, k)
    decreases |t|
  {
    if t == [] {
      assert s + t == s;
    } else {
      var t' := t[..|t| - 1];
      assert (s + t)[..|s + t| - 1] == s + t';
      CountWithGroupsAppend(s, t', k);
    }
  }

  /** The snapshots with k groups are those the count recurrence
      PlacementsInto counts. */
  lemma {:induction false} LeavesWithGroups(c: Grouping, index: nat, n: nat, k: nat)
    requires index <= n
    ensures CountWithGroups(Leaves(c, index, n), k) == PlacementsInto(n - index, |c|, k)
    decreases n - index
  {
    if index == n {
      assert [c][..0] == [];
    } else {
      JoinsWithGroups(c, index, n, |c|, k);
      LeavesWithGroups(Open(c, index), index + 1, n, k);
      CountWithGroupsAppend(Joins(c, index, n, |c|), Leaves(Open(c, index), index + 1, n), k);
    }
  }

  lemma {:induction false} JoinsWithGroups(c: Grouping, index: nat, n: nat, i: nat, k: nat)
    requires index < n && i <= |c|
    ensures CountWithGroups(Joins(c, index, n, i), k) == i * PlacementsInto(n - index - 1, |c|, k)
    decreases n - index, i
  {
    if i > 0 {
      JoinsWithGroups(c, index, n, i - 1, k);
      LeavesWithGroups(Join(c, index, i - 1), index + 1, n, k);
      CountWithGroupsAppend(Joins(c, index, n, i - 1), Leaves(Join(c, index, i - 1), index + 1, n), k);
      var leaves := PlacementsInto(n - index - 1, |c|, k);
      assert (i - 1) * leaves + leaves == i * leaves;
    }
  }

  // ---------------------------------------------------------------------
  // Each recorded grouping is a set partition

  lemma JoinKeepsPartition(c: Grouping, index: nat, b: nat)
    requires IsSetPartition(c, index) && b < |c|
    ensures IsSetPartition(Join(c, index, b), index + 1)
  {
    var d := Join(c, index, b);
    assert forall g :: 0 <= g < |d| && g != b ==> d[g] == c[g];
    assert d[b] == c[b] + [index + 1];
    JoinIncreasing(c, index, b);
    assert OrderedByLeast(d) by {
      forall g, h | 0 <= g < h < |d|
        ensures d[g][0] < d[h][0]
      {
        assert d[g][0] == c[g][0] && d[h][0] == c[h][0];
      }
    }
    JoinDisjoint(c, index, b);
    forall g, x | 0 <= g < |d| && x in d[g]
      ensures 1 <= x <= index + 1
    {
      if x != index + 1 {
        assert x in c[g];
      }
    }
    forall x | 1 <= x <= index + 1
      ensures Covered(d, x)
    {
      if x == index + 1 {
        assert x in d[b];
      } else {
        assert Covered(c, x);
        var g :| 0 <= g < |c| && x in c[g];
        assert x in d[g];
      }
    }
  }

  lemma JoinIncreasing(c: Grouping, index: nat, b: nat)
    requires IsSetPartition(c, index) && b < |c|
    ensures NonEmptyIncreasing(Join(c, index, b))
  {
    var d := Join(c, index, b);
    forall x, y | 0 <= x < y < |d[b]|
      ensures d[b][x] < d[b][y]
    {
      if y == |c[b]| {
        assert c[b][x] in c[b];
      }
    }
  }

  lemma JoinDisjoint(c: Grouping, index: nat, b: nat)
    requires IsSetPartition(c, index) && b < |c|
    ensures Disjoint(Join(c, index, b))
  {
    var d := Join(c, index, b);
    forall g, h, x | 0 <= g < h < |d| && x in d[g]
      ensures x !in d[h]
    {
      if x == index + 1 {
        assert g == b;
        assert d[h] == c[h];
      } else {
        assert x in c[g];
      }
    }
  }

  lemma OpenKeepsPartition(c: Grouping, index: nat)
    requires IsSetPartition(c, index)
    ensures IsSetPartition(Open(c, index), index + 1)
  {
    var d := Open(c, index);
    assert forall g :: 0 <= g < |c| ==> d[g] == c[g];
    assert OrderedByLeast(d) by {
      forall g, h | 0 <= g < h < |d|
        ensures d[g][0] < d[h][0]
      {
        if h == |c| {
          assert c[g][0] in c[g];
        }
      }
    }
    forall x | 1 <= x <= index + 1
      ensures Covered(d, x)
    {
      if x == index + 1 {
        assert x in d[|c|];
      } else {
        assert Covered(c, x);
        var g :| 0 <= g < |c| && x in c[g];
        assert x in d[g];
      }
    }
  }

  lemma {:induction false} LeavesArePartitions(c: Grouping, index: nat, n: nat)
    requires index <= n && IsSetPartition(c, index)
    ensures forall p :: p in Leaves(c, index, n) ==> IsSetPartition(p, n)
    decreases n - index
  {
    if index < n {
      JoinsArePartitions(c, index, n, |c|);
      OpenKeepsPartition(c, index);
      LeavesArePartitions(Open(c, index), index + 1, n);
    }
  }

  lemma {:induction false} JoinsArePartitions(c: Grouping, index: nat, n: nat, i: nat)
    requires index < n && i <= |c| && IsSetPartition(c, index)
    ensures forall p :: p in Joins(c, index, n, i) ==> IsSetPartition(p, n)
    decreases n - index, i
  {
    if i > 0 {
      JoinsArePartitions(c, index, n, i - 1);
      JoinKeepsPartition(c, index, i - 1);
      LeavesArePartitions(Join(c, index, i - 1), index + 1, n);
    }
  }

  // ---------------------------------------------------------------------
  // No grouping is recorded twice

  /** p grows c: no group lost, each group of c a prefix of its
      counterpart in p, and everything added later above `index`. */
  ghost predicate Extends(p: Grouping, c: Grouping, index: nat)
  {
    && |p| >= |c|
    && forall g :: 0 <= g < |c| ==>
      && |p[g]| >= |c[g]|
      && p[g][..|c[g]|] == c[g]
      && forall x :: |c[g]| <= x < |p[g]| ==> p[g][x] > index
  }

  /** In p, the student right after c's part of group g is index + 1:
      the branch that put student index + 1 into group g. */
  ghost predicate JoinedAt(p: Grouping, c: Grouping, index: nat, g: nat)
    requires g < |c| && Extends(p, c, index)
  {
    |p[g]| > |c[g]| && p[g][|c[g]|] == index + 1
  }

  lemma {:induction false} LeavesExtend(c: Grouping, index: nat, n: nat)
    requires index <= n
    ensures forall p :: p in Leaves(c, index, n) ==> Extends(p, c, index)
    decreases n - index
  {
    if index < n {
      forall p | p in Joins(c, index, n, |c|)
        ensures Extends(p, c, index)
      {
        var b := JoinsMember(c, index, n, |c|, p);
        LeavesExtend(Join(c, index, b), index + 1, n);
        ExtendsJoin(p, c, index, b);
      }
      LeavesExtend(Open(c, index), index + 1, n);
      forall p | p in Leaves(Open(c, index), index + 1, n)
        ensures Extends(p, c, index)
      {
        ExtendsOpen(p, c, index);
      }
    }
  }

  lemma ExtendsJoin(p: Grouping, c: Grouping, index: nat, b: nat)
    requires b < |c| && Extends(p, Join(c, index, b), index + 1)
    ensures Extends(p, c, index)
    ensures forall g :: 0 <= g < |c| ==> (JoinedAt(p, c, index, g) <==> g == b)
  {
    var d := Join(c, index, b);
    assert p[b][..|c[b]|] == d[b][..|c[b]|] == c[b];
    forall g | 0 <= g < |c| && g != b
      ensures !JoinedAt(p, c, index, g)
    {
      assert d[g] == c[g];
    }
  }

  lemma ExtendsOpen(p: Grouping, c: Grouping, index: nat)
    requires Extends(p, Open(c, index), index + 1)
    ensures Extends(p, c, index)
    ensures forall g :: 0 <= g < |c| ==> !JoinedAt(p, c, index, g)
  {
    var d := Open(c, index);
    forall g | 0 <= g < |c|
      ensures !JoinedAt(p, c, index, g)
    {
      assert d[g] == c[g];
    }
  }

  /** Every snapshot of the first i join branches comes from one of them. */
  lemma {:induction false} JoinsMember(c: Grouping, index: nat, n: nat, i: nat, p: Grouping) returns (b: nat)
    requires index < n && i <= |c| && p in Joins(c, index, n, i)
    ensures b < i && p in Leaves(Join(c, index, b), index + 1, n)
    decreases i
  {
    if p in Joins(c, index, n, i - 1) {
      b := JoinsMember(c, index, n, i - 1, p);
    } else {
      b := i - 1;
    }
  }

  lemma {:induction false} LeavesDistinct(c: Grouping, index: nat, n: nat)
    requires index <= n
    ensures Distinct(Leaves(c, index, n))
    decreases n - index, |c| + 1
  {
    if index < n {
      JoinsDistinct(c, index, n, |c|);
      LeavesDistinct(Open(c, index), index + 1, n);
      LeavesExtend(Open(c, index), index + 1, n);
      var joins, opens := Joins(c, index, n, |c|), Leaves(Open(c, index), index + 1, n);
      forall p, q | p in joins && q in opens
        ensures p != q
      {
        var b := JoinsMember(c, index, n, |c|, p);
        LeavesExtend(Join(c, index, b), index + 1, n);
        ExtendsJoin(p, c, index, b);
        ExtendsOpen(q, c, index);
        assert JoinedAt(p, c, index, b);
        assert !JoinedAt(q, c, index, b);
      }
      DistinctAppend(joins, opens);
    }
  }

  lemma {:induction false} JoinsDistinct(c: Grouping, index: nat, n: nat, i: nat)
    requires index < n && i <= |c|
    ensures Distinct(Joins(c, index, n, i))
    decreases n - index, i
  {
    if i > 0 {
      JoinsDistinct(c, index, n, i - 1);
      LeavesDistinct(Join(c, index, i - 1), index + 1, n);
      LeavesExtend(Join(c, index, i - 1), index + 1, n);
      var earlier, last := Joins(c, index, n, i - 1), Leaves(Join(c, index, i - 1), index + 1, n);
      forall p, q | p in earlier && q in last
        ensures p != q
      {
        var b := JoinsMember(c, index, n, i - 1, p);
        LeavesExtend(Join(c, index, b), index + 1, n);
        ExtendsJoin(p, c, index, b);
        ExtendsJoin(q, c, index, i - 1);
        assert JoinedAt(p, c, index, b);
        assert !JoinedAt(q, c, index, b);
      }
      DistinctAppend(earlier, last);
    }
  }

  // ---------------------------------------------------------------------
  // Every set partition is recorded

  /** The states one more student leads to from q: join each group in
      turn, then open a new one. */
  function Children(q: Grouping, index: nat): seq<Grouping>
  {
    JoinEach(q, index, |q|) + [Open(q, index)]
  }

  /** Join(q, index, 0), ..., Join(q, index, i - 1). */
  function JoinEach(q: Grouping, index: nat, i: nat): (r: seq<Grouping>)
    requires i <= |q|
    ensures |r| == i
  {
    if i == 0 then [] else JoinEach(q, index, i - 1) + [Join(q, index, i - 1)]
  }

  /** The children of every state in s, in order. */
  function Expand(s: seq<Grouping>, index: nat): seq<Grouping>
  {
    if s == [] then [] else Expand(s[..|s| - 1], index) + Children(s[|s| - 1], index)
  }

  lemma {:induction false} ExpandAppend(s: seq<Grouping>, t: seq<Grouping>, index: nat)
    ensures Expand(s + t, index) == Expand(s, index) + Expand(t, index)
    decreases |t|
  {
    if t == [] {
      assert s + t == s;
    } else {
      var t' := t[..|t| - 1];
      assert (s + t)[..|s + t| - 1] == s + t';
      ExpandAppend(s, t', index);
    }
  }

  lemma {:induction false} JoinsOfLast(c: Grouping, n: nat, i: nat)
    requires i <= |c|
    ensures Joins(c, n, n + 1, i) == JoinEach(c, n, i)
  {
    if i > 0 {
      JoinsOfLast(c, n, i - 1);
    }
  }

  /** The search for n + 1 students records the children, for student
      n + 1, of what the search for n students records. */
  lemma {:induction false} LeavesGrow(c: Grouping, index: nat, n: nat)
    requires index <= n
    ensures Leaves(c, index, n + 1) == Expand(Leaves(c, index, n), n)
    decreases n - index, |c| + 1
  {
    if index == n {
      JoinsOfLast(c, n, |c|);
      assert [c][..0] == [];
    } else {
      JoinsGrow(c, index, n, |c|);
      LeavesGrow(Open(c, index), index + 1, n);
      ExpandAppend(Joins(c, index, n, |c|), Leaves(Open(c, index), index + 1, n), n);
    }
  }

  lemma {:induction false} JoinsGrow(c: Grouping, index: nat, n: nat, i: nat)
    requires index < n && i <= |c|
    ensures Joins(c, index, n + 1, i) == Expand(Joins(c, index, n, i), n)
    decreases n - index, i
  {
    if i > 0 {
      JoinsGrow(c, index, n, i - 1);
      LeavesGrow(Join(c, index, i - 1), index + 1, n);
      ExpandAppend(Joins(c, index, n, i - 1), Leaves(Join(c, index, i - 1), index + 1, n), n);
    }
  }

  lemma {:induction false} JoinEachMember(q: Grouping, index: nat, i: nat, b: nat)
    requires b < i <= |q|
    ensures Join(q, index, b) in JoinEach(q, index, i)
  {
    if b < i - 1 {
      JoinEachMember(q, index, i - 1, b);
    }
  }

  lemma {:induction false} ExpandMember(s: seq<Grouping>, index: nat, q: Grouping, p: Grouping)
    requires q in s && p in Children(q, index)
    ensures p in Expand(s, index)
    decreases |s|
  {
    if q != s[|s| - 1] {
      assert q in s[..|s| - 1];
      ExpandMember(s[..|s| - 1], index, q, p);
    }
  }

  /** Removing student n from a set partition of 1..n gives a set
      partition of 1..n-1 whose children include the original. */
  lemma PartitionParent(p: Grouping, n: nat) returns (q: Grouping)
    requires n >= 1 && IsSetPartition(p, n)
    ensures IsSetPartition(q, n - 1)
    ensures p in Children(q, n - 1)
  {
    assert Covered(p, n);
    var g :| 0 <= g < |p| && n in p[g];
    var last := |p[g]| - 1;
    assert p[g][last] == n by {
      var k :| 0 <= k < |p[g]| && p[g][k] == n;
      assert p[g][last] in p[g];
    }
    if last == 0 {
      q := p[..|p| - 1];
      RemoveAloneKeepsPartition(p, n, g);
      assert Children(q, n - 1)[|q|] == Open(q, n - 1);
    } else {
      q := p[g := p[g][..last]];
      assert p == Join(q, n - 1, g) by {
        assert p[g][..last] + [n] == p[g];
      }
      RemoveLastKeepsPartition(p, n, g, q);
      JoinEachMember(q, n - 1, |q|, g);
    }
  }

  /** The least student of every group is one of 1..n. */
  lemma HeadsInRange(p: Grouping, n: nat)
    requires IsSetPartition(p, n)
    ensures forall h :: 0 <= h < |p| ==> 1 <= p[h][0] <= n
    ensures |p| > 0 ==> n >= 1
  {
    forall h | 0 <= h < |p|
      ensures 1 <= p[h][0] <= n
    {
      assert p[h][0] in p[h];
    }
    if |p| > 0 {
      assert 1 <= p[0][0] <= n;
    }
  }

  /** When student n is alone, its group is the last one, and dropping it
      leaves a set partition of 1..n-1. */
  lemma RemoveAloneKeepsPartition(p: Grouping, n: nat, g: nat)
    requires n >= 1 && IsSetPartition(p, n)
    requires g < |p| && p[g] == [n]
    ensures g == |p| - 1
    ensures IsSetPartition(p[..|p| - 1], n - 1)
    ensures p == Open(p[..|p| - 1], n - 1)
  {
    HeadsInRange(p, n);
    assert 1 <= p[|p| - 1][0] <= n;
    assert g == |p| - 1;
    var q := p[..|p| - 1];
    assert p == q + [[n]];
    forall h, x | 0 <= h < |q| && x in q[h]
      ensures 1 <= x <= n - 1
    {
      assert x in p[h] && n in p[g];
    }
    forall x | 1 <= x <= n - 1
      ensures Covered(q, x)
    {
      assert Covered(p, x);
      var h :| 0 <= h < |p| && x in p[h];
      assert h != g;
      assert x in q[h];
    }
  }

  lemma RemoveLastKeepsPartition(p: Grouping, n: nat, g: nat, q: Grouping)
    requires n >= 1 && IsSetPartition(p, n)
    requires g < |p| && |p[g]| >= 2 && p[g][|p[g]| - 1] == n
    requires q == p[g := p[g][..|p[g]| - 1]]
    ensures IsSetPartition(q, n - 1)
  {
    assert forall h :: 0 <= h < |p| && h != g ==> q[h] == p[h];
    assert forall h, x :: 0 <= h < |q| && x in q[h] ==> x in p[h];
    assert forall h :: 0 <= h < |q| ==> q[h][0] == p[h][0];
    forall h, x | 0 <= h < |q| && x in q[h]
      ensures 1 <= x <= n - 1
    {
      if h == g {
        var k :| 0 <= k < |q[g]| && q[g][k] == x;
        assert p[g][k] < p[g][|p[g]| - 1];
      } else {
        assert x in p[h];
        assert n in p[g];
      }
    }
    forall x | 1 <= x <= n - 1
      ensures Covered(q, x)
    {
      assert Covered(p, x);
      var h :| 0 <= h < |p| && x in p[h];
      if h == g {
        var k :| 0 <= k < |p[g]| && p[g][k] == x;
        assert q[g][k] == x;
      } else {
        assert x in q[h];
      }
    }
  }

  /** The search records every set partition of 1..n in canonical order. */
  lemma {:induction false} SearchFindsEveryPartition(n: nat, p: Grouping)
    requires IsSetPartition(p, n)
    ensures p in Leaves([], 0, n)
  {
    if n == 0 {
      HeadsInRange(p, 0);
      assert p == [];
    } else {
      var q := PartitionParent(p, n);
      SearchFindsEveryPartition(n - 1, q);
      LeavesGrow([], 0, n - 1);
      ExpandMember(Leaves([], 0, n - 1), n - 1, q, p);
    }
  }
}
