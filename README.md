# Grouping engine of grouping-visualization, in Dafny

The page counts the ways to split students 1..n into groups. It also lists
those groupings. The engine at the top of `app.js` has seven routines:

- `countGroupingsDP`: a prefix-sum DP over contiguous groupings. The result is 2^(n-1).
- `generateGroupings`: lists the contiguous groupings. It uses one bitmask over the n-1 gaps.
- `countGroupingsLimited`: the same DP with group sizes limited to [minSize, maxSize].
- `countGroupingsFixedTogether`: the closed form 2^(n-k).
- `countGroupingsFixedCount`: a Stirling-number table, S(n, k).
- `bellNumber`: the Bell triangle.
- `generateBellGroupings`: lists every set partition. It backtracks depth-first over one shared, mutable list of groups.

The Dafny model keeps the imperative form of the source:

- The counters fill fresh arrays in nested `while` loops. `dp` is an `array<nat>`; `S` and `bell` are `array2<nat>`.
- `generateGroupings` builds `grouping` and `currentGroup` inside its two loops.
- The backtracking search is a class, `BellEnumeration.BellGenerator`. Its fields are `current` and `groupings`. Its recursive `Generate` pushes onto `current`, recurses, and pops.

Each method is proved against a specification function, and the lemmas relate those functions to each other:

- `Contiguous.Ways` is the bounded DP recurrence. `Contiguous.Fitting` is the list of the groupings it counts.
- `ContiguousEnumeration.SchemeGrouping` is the grouping for one bitmask.
- `StirlingNumbers.Stirling` is S(n, k).
- `Bell.Aitken` is the Bell triangle.
- `Bell.Placements` counts the leaves of the backtracking search.
- `BellEnumeration.Leaves` is the exact list the search records.

The main results:

- `countGroupingsDP(n)` is 1 for n = 0 and 2^(n-1) for n >= 1. The bounded DP recovers it when every size 1..n is allowed.
- `countGroupingsLimited(n, minSize, maxSize)` is the number of contiguous groupings of 1..n whose group sizes all lie in [minSize, maxSize].
- `generateGroupings(n)` lists 2^(n-1) groupings, with no duplicates. Scheme s starts a group at student x exactly when bit x-2 of s is set. For n >= 1 the list holds exactly the contiguous groupings of 1..n.
- The Bell triangle, the backtracking search and the Stirling row sum all give the same number.
- `generateBellGroupings(n)` records exactly `bellNumber(n)` groupings, and none appears twice. The list holds exactly the set partitions of 1..n in canonical order: increasing groups, ordered by least student. S(n, k) of them have k groups.

Files: `groupings.dfy`, `contiguous.dfy`, `contiguous_enumeration.dfy`, `stirling.dfy`, `bell.dfy` and `bell_enumeration.dfy`. There is one module per component. `Groupings` holds what the others share: students 1..n, groups, groupings, and what a contiguous grouping is.

## Model

| member | source | states |
|---|---|---|
| `Contiguous.CountGroupingsDP` | app.js:7-17 | returns 1 for n = 0 and 2^(n-1) for n >= 1; the loop invariant is dp[i] = 2^(i-1) and, inside, the partial sum of dp[0..j) = 2^(j-1) |
| `Contiguous.CountGroupingsLimited` | app.js:62-75 | returns Ways(n, minSize, maxSize), which is also the length of Fitting(n, minSize, maxSize), the duplicate-free list of exactly the contiguous groupings of 1..n with every group size in [minSize, maxSize]; 1 for n = 0, 0 for n >= 1 when minSize > maxSize, and countGroupingsDP(n) when minSize <= 1 and maxSize >= n |
| `Contiguous.BoundedCountMeaning` | app.js:60-75 | for every n and size range, the DP recurrence Ways(n, lo, hi) is the number of entries of a list that holds each contiguous grouping of 1..n with all group sizes in [lo, hi] exactly once and nothing else |
| `Contiguous.FittingCount` | app.js:66-73 | the list of fitting groupings, gathered by where the last group starts, has as many entries as the DP sums, for every i |
| `Contiguous.FittingSound` | app.js:66-73 | every grouping in that list cuts 1..i in order into non-empty groups, each with a size in [lo, hi] |
| `Contiguous.FittingComplete` | app.js:66-73 | every contiguous grouping of 1..i whose group sizes lie in [lo, hi] is in the list: its last group j+1..i is one of the sizes the inner loop admits |
| `Contiguous.FittingDistinct` | app.js:66-73 | no grouping is in the list twice, because groupings gathered for different j end in groups of different sizes |
| `Contiguous.WaysEmptyRange` | app.js:66-73 | with minSize > maxSize no dp entry beyond dp[0] is ever increased, so n >= 1 students have 0 groupings |
| `Contiguous.WaysFullRange` | app.js:62-75 | when every size 1..n is allowed, the bounded DP equals the closed form of countGroupingsDP (1 for n = 0, 2^(n-1) otherwise) |
| `Contiguous.WaysBelowFullRange` | app.js:67-72 | when all sizes are allowed, the inner loop's partial sum over j' < j is 2^(j-1), and 0 before the first step |
| `Contiguous.CountGroupingsFixedTogether` | app.js:81-85 | 0 when k > n; otherwise the count of contiguous groupings of n - k + 1 units (the k students merged into one), which is both the closed form and the bounded DP with sizes [1, n-k+1] |
| `ContiguousEnumeration.FixedTogetherCountsGroupings` | app.js:78-85 | for 1 <= k <= n, the result is the number of contiguous groupings of 1..n whose first group holds students 1..k: KeptTogether lists each such grouping once and nothing else |
| `ContiguousEnumeration.KeptTogetherSound` | app.js:34-54 | the scheme t * 2^(k-1) never cuts among students 1..k, so its grouping keeps them in the first group |
| `ContiguousEnumeration.KeptTogetherComplete` | app.js:34-54 | every contiguous grouping whose first group holds 1..k comes from such a scheme with t < 2^(n-k) |
| `ContiguousEnumeration.KeptTogetherDistinct` | app.js:34-54 | the 2^(n-k) schemes t * 2^(k-1) give different groupings |
| `ContiguousEnumeration.SchemeOfHeads` | app.js:32-54 | the scheme whose bits mark the group heads of a contiguous grouping is below 2^(n-1) and produces that grouping |
| `ContiguousEnumeration.SchemeForSkip` | app.js:41 | when none of the next m students is a head, the scheme read from there is the rest shifted left by m bits |
| `ContiguousEnumeration.ShiftedBits` | app.js:41 | multiplying by 2^m leaves bits 0..m-1 clear |
| `ContiguousEnumeration.GenerateGroupings` | app.js:27-57 | lists SchemeGrouping(n, s) for s = 0, 1, ... in ascending order; 2^(n-1) entries for n >= 1, equal to countGroupingsDP(n); each entry has non-empty groups whose concatenation is 1..n; no two entries are equal; for n >= 1 a grouping is listed exactly when it cuts 1..n, in order, into non-empty groups; for n = 0 the result is [[[1]]] |
| `ContiguousEnumeration.BuildShape` | app.js:38-51 | after students 1..i are placed, the open group and every closed group are non-empty, the groups laid end to end are 1..i, and the group heads are 1 plus the students x whose bit x-2 is set |
| `ContiguousEnumeration.SchemeGroupingShape` | app.js:34-54 | grouping s (n >= 1) has non-empty groups covering 1..n in order, and student x (2 <= x <= n) heads a group exactly when bit x-2 of s is set |
| `ContiguousEnumeration.BitsDiffer` | app.js:41 | two different schemes below 2^k differ in one of the k bits the loop tests |
| `ContiguousEnumeration.SchemeGroupingsDistinct` | app.js:34-54 | different schemes below 2^(n-1) give different groupings |
| `ContiguousEnumeration.FirstHeadIsOne` | app.js:36 | in every contiguous grouping of n >= 1 students, student 1 heads a group, as `currentGroup` starts as [1] |
| `Groupings.FirstGroupHeads` | app.js:39-48 | in a contiguous grouping of 1..n, students 1..k share the first group exactly when none of 2..k starts a group |
| `Groupings.LastGroup` | app.js:51 | the last group of a contiguous grouping of 1..n is m+1..n for some m < n; the groups before it are a contiguous grouping of 1..m with heads in 1..m |
| `ContiguousEnumeration.ContiguousUnique` | app.js:39-51 | two contiguous groupings of 1..n with the same group heads are equal, so a grouping is fixed by where the loop cuts |
| `ContiguousEnumeration.SchemeForBits` | app.js:41 | for any set of heads, SchemeFor gives a scheme below 2^k whose bit j is set exactly when student b+j+2 is a head |
| `ContiguousEnumeration.EveryContiguousGroupingHasScheme` | app.js:32-54 | every contiguous grouping of n >= 1 students is the grouping of some scheme below 2^(n-1) |
| `StirlingNumbers.StirlingAboveDiagonal` | app.js:91 | S(n, k) = 0 when k > n, as the early exit answers |
| `StirlingNumbers.StirlingOneGroup` | app.js:92 | S(n, 1) = 1 for n >= 1, as the early exit answers |
| `StirlingNumbers.StirlingAllAlone` | app.js:92 | S(n, n) = 1, as the early exit answers |
| `StirlingNumbers.CountGroupingsFixedCount` | app.js:90-106 | returns S(n, k) except at n = k = 0, where the k === 0 exit returns 0; 0 when k > n or k = 0; 1 when 1 <= k <= n and k = 1 or k = n |
| `StirlingNumbers.StirlingTable` | app.js:94-105 | the table part returns S(n, k) for every n, k (including S(0, 0) = 1) |
| `StirlingNumbers.FillRow` | app.js:100-103 | one pass of the outer loop sets row i to S(i, 0..k) from row i-1 and leaves the other rows, and the cells of row i right of column k, untouched |
| `StirlingNumbers.FixedCountSumIsRowSum` | app.js:522-525 | for n >= 1 the counter's values for k = 1..K sum to S(n, 0) + ... + S(n, K) |
| `Bell.BellNumber` | app.js:112-126 | returns bell[n][0] of the Bell triangle, which is 1 for n = 0, the Stirling row sum S(n, 0) + ... + S(n, n), the leaf count of the backtracking search, and for n >= 1 the sum of countGroupingsFixedCount(n, k) over k = 1..n |
| `Bell.FillTriangleRow` | app.js:119-122 | one pass of the outer loop sets row i to triangle entries (i, 0..i) from row i-1 and leaves the other rows, and the cells of row i right of column i, untouched |
| `Bell.MarkShift` | app.js:121 | the triangle step bell[i][j] = bell[i][j-1] + bell[i-1][j-1], read on placements with a marked group |
| `Bell.AitkenAsPlacements` | app.js:112-126 | triangle entry (i, j) counts placements of i - j students, then a marked group, then j more students |
| `Bell.IntoLast` | app.js:101 | the search's per-group-count recurrence also satisfies the Stirling recurrence k * S(i-1, k) + S(i-1, k-1) |
| `Bell.IntoIsStirling` | app.js:90-106 | the search leaves with exactly k groups number S(n, k) |
| `Bell.PlacementsSplit` | app.js:134-151 | the leaves from m open groups after r students are the sum, over group counts 0..m+r, of the leaves ending with that many groups |
| `Bell.IntoFewer` | app.js:141-150 | no leaf from m open groups ends with fewer than m groups: the search never closes a group |
| `Bell.IntoMore` | app.js:141-150 | no leaf from m open groups after r students ends with more than m + r groups: each student opens at most one |
| `Bell.BellTriangleCountsPartitions` | app.js:112-155 | triangle entry (n, 0), the search's leaf count and the Stirling row sum coincide |
| `BellEnumeration.BellGenerator.constructor` | app.js:131-132 | starts with no groups in progress and nothing recorded |
| `BellEnumeration.BellGenerator.Generate` | app.js:134-151 | appends Leaves(current, index, n) to `groupings` and leaves `current` as it found it: every push is undone by a pop |
| `BellEnumeration.GenerateBellGroupings` | app.js:131-155 | returns Leaves([], 0, n): bellNumber(n) groupings, no two equal; a grouping is in the list exactly when it is a set partition of 1..n in canonical order; S(n, k) of them have k groups; [[]] for n = 0 |
| `BellEnumeration.SearchListsPartitions` | app.js:131-155 | the recorded list has B(n) entries, pairwise distinct; it holds exactly the canonical set partitions of 1..n; S(n, k) of them have k groups |
| `BellEnumeration.LeavesCount` | app.js:134-151 | the search below a state with m groups and r students left records Placements(r, m) snapshots |
| `BellEnumeration.LeavesWithGroups` | app.js:134-151 | of those, PlacementsInto(r, m, k) have k groups |
| `BellEnumeration.JoinKeepsPartition` | app.js:141-145 | adding student index+1 to an existing group keeps a set partition of 1..index canonical and makes it one of 1..index+1 |
| `BellEnumeration.OpenKeepsPartition` | app.js:147-150 | opening the group [index+1] does the same |
| `BellEnumeration.LeavesArePartitions` | app.js:134-151 | every snapshot below a set partition of 1..index is a set partition of 1..n |
| `BellEnumeration.LeavesExtend` | app.js:134-151 | every snapshot keeps each group of the state as a prefix and adds only students above index |
| `BellEnumeration.LeavesDistinct` | app.js:134-151 | the search never records the same grouping twice: branches differ in where student index+1 went |
| `BellEnumeration.LeavesGrow` | app.js:134-151 | the search for n+1 students records, in order, the children of each snapshot of the search for n students: student n+1 joined to each group in turn, then alone |
| `BellEnumeration.HeadsInRange` | app.js:131-155 | the least student of every group of a set partition of 1..n is in 1..n, so a partition of no students has no groups |
| `BellEnumeration.RemoveAloneKeepsPartition` | app.js:147-150 | if student n is alone in a canonical partition of 1..n, its group is the last, and dropping it leaves a canonical partition of 1..n-1 that opening [n] restores |
| `BellEnumeration.RemoveLastKeepsPartition` | app.js:141-145 | if student n ends a group of two or more, dropping it leaves a canonical partition of 1..n-1 |
| `BellEnumeration.PartitionParent` | app.js:141-150 | every canonical set partition of 1..n (n >= 1) is a child of some canonical set partition of 1..n-1 |
| `BellEnumeration.SearchFindsEveryPartition` | app.js:131-155 | every set partition of 1..n in canonical order is recorded by the search |

## Left out

- The DOM rendering, the result HTML, the Chart.js charts, the slider callbacks and the `DOMContentLoaded` wiring (app.js:158-865). They are presentation code or calls into a foreign library.
- Floating point. `Math.pow(2, e)` is modelled as the integer 2^e. Its one float effect that matters is kept: for n = 0, `generateGroupings` still makes one pass, because 2^-1 = 0.5 > 0. JS number precision above 2^53 is not modelled; counts are unbounded `nat`.
- `ContiguousEnumeration.Bit`: the test `scheme & (1 << (i - 1))` is modelled as bit i-1 of an unbounded natural. JS shifts wrap the count modulo 32 and bitwise operands are 32-bit signed, so `1 << 32` wraps to `1 << 0`. That shift is first run at n = 34, so the source differs for n > 33. A list that long could not be built anyway.
- `Contiguous.CountGroupingsFixedTogether`: its meaning, via `FixedTogetherCountsGroupings`, is proved only for 1 <= k <= n. For k = 0 the source returns 2^n (app.js:84), twice the 2^(n-1) groupings of 1..n, all of which keep zero students together. The caller guards only k > n (app.js:287). The model keeps 2^n.
- The `JSON.parse(JSON.stringify(...))` deep copy is a value snapshot here, because Dafny sequences are values.
- Negative or non-integer arguments are outside the model: n and k are `nat`, and minSize and maxSize are `int`.
- Where the source's own comments and its code disagree, the code is followed:
  - The comments at app.js:88 and app.js:94 call the result of `countGroupingsFixedCount` the Stirling number of the second kind. That number is 1 at (0, 0), but the exit at app.js:91 returns 0 there. The model returns 0.
  - The comment at app.js:31 gives 2^(n-1) schemes, which is 0.5 at n = 0. The loop at app.js:34 still runs once, so `generateGroupings(0)` returns `[[[1]]]` rather than one empty grouping. The model keeps this.
  - Neither caller passes 0. The call at app.js:172 follows the n = 0 guard at app.js:167. The call at app.js:296 passes n - k + 1 after the k > n guard at app.js:287.
- The table fills of `countGroupingsFixedCount` and `bellNumber` are split into separate methods: `StirlingTable` with `FillRow`, and `FillTriangleRow`. This keeps each proof small. The arrays and the loops are the source's.
- `BellEnumeration.LeavesDistinct` shows that no two recorded groupings are equal as sequences. Each recorded grouping is in canonical order. The model does not separately state that a canonical form is unique among groupings with the same groups as sets.
