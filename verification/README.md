# FixedTreeSort in Dafny

A model of the sorting core of FixedTreeSort: a counting sort over a fixed-radix
search trie (`SearchTree`) and the two entry points of `TreeSortingProvider` that use
it, plus the plain counting sort (`arraySort`) the benchmark compares them against.

The trie has a fixed capacity C (a power of two) and branch factor W. A node visited at
depth d routes a value by the digit `(value / (C / W^d)) % W`; once that divisor drops
below 2 its children are leaves, one per value, in slot `value % W`. A leaf counts how
often its value was added (`valuesHere`) and remembers it (`actualValue`); branch nodes
keep a 32-bit `valuesBelow` counter. Sorting counts every element at its leaf and then
drains the trie depth-first, slot 0 first, writing each leaf's value as often as it was
counted back into the input array.

- `Words` — C#'s wrapping `uint` arithmetic, used for `valuesBelow` and the drain's
  running count `op`.
- `Radix` — exact integer powers in place of `Math.Pow`, the per-depth divisor, the
  interval a node is responsible for, the digit and leaf-slot routing, and the routing
  of addValue/getNodeAt for an arbitrary width (`Route`).
- `Seqs` — sortedness, runs of equal values, and the counting-sort layout.
- `SearchTrees` — the `SearchTree` class with its methods (`incrementValue`, `addValue`,
  `initialise`, `getNodeAt`), proved against ghost specification functions: `Locate(v)`
  (the leaf of v), `Count(v)` (how often v is counted) and `Emit()` (what a drain writes).
  Its invariant `Valid()` says the subtree is a trie whose every present child fits the
  slot it hangs in, and only leaves count values.
- `Capacity` — the capacity rules of `init` and `sort` (the default of 65536, the rounding
  loop over 2^0 .. 2^31, the `maxValue == 1` scan for the largest element).
- `TreeSort` — the nested `searchTree` drains and the `TreeSortingProvider` class: its
  static fields become the fields of one provider object, `init` its constructor, and the
  captured `index` of the drains an explicit parameter and result.
- `CountingSort` — `arraySort`.

The rounding loop makes the capacity the smallest power of two strictly greater than the
hint: a hint that is already a power of two is doubled. The model follows the code.

## Model

| member | source | states |
|---|---|---|
| Words.WrapAddMod | BetterTreeSort/TreeSort.cs:40 | `valuesBelow++` is addition modulo 2^32 |
| Words.WrapSubMod | BetterTreeSort/TreeSort.cs:170 | `node.valuesBelow -= op` is subtraction modulo 2^32 |
| Radix.RootGeometry | BetterTreeSort/TreeSort.cs:32 | the root, visited at depth 1, is responsible for all of [0, C) |
| Radix.BranchGeometry | BetterTreeSort/TreeSort.cs:44-52 | at a level whose divisor is at least 2, the W buckets split the node's interval into aligned sub-intervals of divisor values, each one a valid interval one level down |
| Radix.BucketRange | BetterTreeSort/TreeSort.cs:44-46 | the bucket `(v / divisor) % W` of a value is the sub-interval holding it |
| Radix.BucketOrder | BetterTreeSort/TreeSort.cs:44-46 | values in lower buckets are smaller |
| Radix.LeafSlot | BetterTreeSort/TreeSort.cs:34-36 | at the last level the interval has at most W values, in consecutive slots `v % W` |
| Radix.LeafOrder | BetterTreeSort/TreeSort.cs:34-36 | at the last level, values in lower slots are smaller |
| Radix.LeafKeyOfSlot | BetterTreeSort/TreeSort.cs:34-36 | the leaf slot of a value identifies the value |
| Radix.DivisorShrinks | BetterTreeSort/TreeSort.cs:32 | one level down the divisor `maxValue / W^depth` strictly shrinks, so routing ends |
| Radix.WidthOneStays | BetterTreeSort/TreeSort.cs:32 | with the width 1 the divisor `maxValue / 1^depth` is `maxValue` at every depth, so it never drops below 2 for a capacity of 2 or more |
| Radix.Route | BetterTreeSort/TreeSort.cs:32-52 | the slots addValue visits for a value, for any width of at least 2; every slot is below W |
| Radix.RouteInjective | BetterTreeSort/TreeSort.cs:32-52 | with C and W powers of two, distinct values below C take distinct routes |
| Radix.WidthThreeCollides | BetterTreeSort/TreeSort.cs:32-46 | with W = 3 and C = 16 the values 0 and 15 take the same route [0, 0] |
| SearchTrees.SearchTree.constructor | BetterTreeSort/TreeSort.cs:17-22 | a node with `treeWidth` empty slots, counters 0 and the given capacity |
| SearchTrees.SearchTree.Locate | BetterTreeSort/TreeSort.cs:78-101 | the leaf routing reaches for v, when built, is a leaf of the trie standing for v |
| SearchTrees.SearchTree.LocateWalksRoute | BetterTreeSort/TreeSort.cs:30-55 | the leaf of a value is the node reached by taking, level by level, the slots `Radix.Route` computes as addValue does |
| SearchTrees.SearchTree.LocateInjective | BetterTreeSort/TreeSort.cs:78-101 | distinct values never share a leaf |
| SearchTrees.SearchTree.ChildBelow | BetterTreeSort/TreeSort.cs:44-52 | a child one level down is a valid branch node with a strictly smaller interval holding every value routed to it |
| SearchTrees.SearchTree.LeafOf | BetterTreeSort/TreeSort.cs:34-39 | at the last level, the child in slot `v % W` is the leaf of v |
| SearchTrees.SearchTree.SlotOrder | BetterTreeSort/TreeSort.cs:44-46 | values routed to lower slots are smaller |
| SearchTrees.SearchTree.ChildMiss | BetterTreeSort/TreeSort.cs:44-52 | a child holds no leaf for a value not routed to its slot |
| SearchTrees.SearchTree.EmitCount | BetterTreeSort/TreeSort.cs:223-239 | a drain writes each value exactly as often as the trie counts it |
| SearchTrees.SearchTree.EmitFromCount | BetterTreeSort/TreeSort.cs:235-237 | the children from slot i on write exactly the counts of the values routed to them |
| SearchTrees.SearchTree.ChildEmits | BetterTreeSort/TreeSort.cs:235-237 | what a child writes belongs to its slot |
| SearchTrees.SearchTree.EmitSorted | BetterTreeSort/TreeSort.cs:223-239 | a drain writes in ascending order |
| SearchTrees.SearchTree.EmitFromSorted | BetterTreeSort/TreeSort.cs:235-237 | the children from slot i on write in ascending order, only values of those slots |
| SearchTrees.SearchTree.EmitLocated | BetterTreeSort/TreeSort.cs:223-239 | every value a drain writes has its leaf in the trie |
| SearchTrees.SearchTree.EmitNone | BetterTreeSort/TreeSort.cs:223-239 | a trie that counts nothing writes nothing |
| SearchTrees.SearchTree.EmptyTallied | BetterTreeSort/TreeSort.cs:16-22 | a node that counts nothing and has no children has its `valuesBelow` (0) up to date |
| SearchTrees.SearchTree.LeavesTallied | BetterTreeSort/TreeSort.cs:34-41 | the children of a last-level node are leaves, which carry no `valuesBelow` to keep |
| SearchTrees.SearchTree.EmitCounts | BetterTreeSort/TreeSort.cs:223-239 | the drain order holds each value exactly as often as the trie counts it |
| SearchTrees.SearchTree.EmitGrows | BetterTreeSort/TreeSort.cs:30-55 | counting one more value makes the drain order one longer |
| SearchTrees.SearchTree.Retallied | BetterTreeSort/TreeSort.cs:40-53 | `valuesBelow++` after adding one value below keeps `valuesBelow` equal, modulo 2^32, to the number of values the node counts |
| SearchTrees.SearchTree.IncrementValue | BetterTreeSort/TreeSort.cs:24-28 | one more occurrence counted, the value recorded, nothing else changed |
| SearchTrees.SearchTree.Bump | BetterTreeSort/TreeSort.cs:24-28 | `incrementValue` on the leaf of a value keeps the trie valid, keeps every leaf, and raises that value's count alone by one |
| SearchTrees.SearchTree.EnsureChild | BetterTreeSort/TreeSort.cs:47-50 | a missing child is built fresh and fitting its slot; existing leaves and all counts stay, and so do the children's up-to-date `valuesBelow` counters |
| SearchTrees.SearchTree.NewChild | BetterTreeSort/TreeSort.cs:37-38 | the node built for an empty slot is a fresh leaf at the last level, a branch node above it, empty and fitting the slot |
| SearchTrees.SearchTree.NewBranch | BetterTreeSort/TreeSort.cs:49 | the branch node built for slot `bucket` covers the bucket-th sub-interval |
| SearchTrees.SearchTree.AddValue | BetterTreeSort/TreeSort.cs:30-55 | the added value's count rises by one and every other count stays; every leaf that existed stays where it was, so the leaf counted is the one getNodeAt returns; the trie stays valid; `valuesBelow` rises by one modulo 2^32, and if every branch node's `valuesBelow` was the number of values counted below it (modulo 2^32) it still is |
| SearchTrees.SearchTree.AddLeaf | BetterTreeSort/TreeSort.cs:34-41 | the last-level case of AddValue, with the same promise; below a last-level node only leaves hang, so its children are trivially up to date |
| SearchTrees.SearchTree.AddBelow | BetterTreeSort/TreeSort.cs:44-53 | the upper-level case of AddValue, with the same promise; the child on the value's path keeps its `valuesBelow` up to date, its siblings are untouched |
| SearchTrees.SearchTree.Initialise | BetterTreeSort/TreeSort.cs:57-76 | afterwards every value of the node's interval has its leaf, and nothing is counted |
| SearchTrees.SearchTree.InitialiseSlot | BetterTreeSort/TreeSort.cs:61-75 | one turn of either loop of initialise: the slot's values get their leaves, nothing is counted |
| SearchTrees.SearchTree.InitialiseLeaf | BetterTreeSort/TreeSort.cs:61-67 | one last-level slot gets its leaf |
| SearchTrees.SearchTree.InitialiseBranch | BetterTreeSort/TreeSort.cs:68-75 | one upper-level slot gets its subtree, built in full |
| SearchTrees.SearchTree.InitialiseBelow | BetterTreeSort/TreeSort.cs:72-73 | the child's full subtree gives leaves to exactly the values of its slot |
| SearchTrees.SearchTree.GetNodeAt | BetterTreeSort/TreeSort.cs:78-102 | returns the leaf of the value, building it if needed; existing leaves and all counts stay, and no existing node's counters are written |
| SearchTrees.SearchTree.GetLeaf | BetterTreeSort/TreeSort.cs:82-88 | the last-level case of GetNodeAt, with the same promise |
| SearchTrees.SearchTree.GetBelow | BetterTreeSort/TreeSort.cs:90-101 | the upper-level case of GetNodeAt, with the same promise, its frame likewise limited to the trie's structure |
| SearchTrees.SearchTree.CopiesWritten | BetterTreeSort/TreeSort.cs:158-163 | zeroing a node's own count keeps the trie valid and its children's drain as it was |
| SearchTrees.SearchTree.Drained | BetterTreeSort/TreeSort.cs:167-169 | draining one child keeps the trie valid and the other children's drains as they were |
| Seqs.CopiesCount | BetterTreeSort/TreeSort.cs:158-163 | the copies a leaf writes hold its value exactly `valuesHere` times |
| Seqs.SpreadSorted | BetterTreeSort/Program.cs:25-28 | writing buckets in order gives an ascending sequence |
| Seqs.SpreadCount | BetterTreeSort/Program.cs:25-28 | each value below the bucket count occurs as often as its bucket says |
| Seqs.SortedUnique | BetterTreeSort/TreeSort.cs:223-239 | a sorted sequence is determined by its multiset, so all the sorts agree |
| Capacity.PowerAboveIs | BetterTreeSort/TreeSort.cs:117-124 | the loop's first power of two above the hint is a power of two above the hint |
| Capacity.NextPowerOfTwoIsLeast | BetterTreeSort/TreeSort.cs:117-124 | and no power of two above the hint is smaller |
| Capacity.RoundUp | BetterTreeSort/TreeSort.cs:117-124 | a hint below 2^31 becomes the next power of two above it; a larger one stays |
| Capacity.InitCapacity | BetterTreeSort/TreeSort.cs:111-125 | 0 gives 65536; other hints are rounded up; below 2^31 the capacity is a power of two above the hint |
| Capacity.PeakBounds | BetterTreeSort/TreeSort.cs:189-193 | the scan yields at least 1 and every element, and is 1 or an element |
| Capacity.SortCapacityCovers | BetterTreeSort/TreeSort.cs:183-213 | sort's capacity is a power of two above the hint, and for the hint 1 above every element |
| Capacity.ChooseCapacity | BetterTreeSort/TreeSort.cs:183-213 | computes sort's capacity: 65536, the rounded-up largest element, or the rounded-up hint |
| TreeSort.WriteCopies | BetterTreeSort/TreeSort.cs:158-163 | a node's own copies land at the index, its count drops to 0, the rest of the array is untouched |
| TreeSort.Drain | BetterTreeSort/TreeSort.cs:151-173 | the subtree's drain order lands at the index, nothing else of the array changes, the subtree ends empty, `op` is the number written, and with `tally` the node's `valuesBelow` drops by `op` modulo 2^32, while without it (sort's drain) no `valuesBelow` is written |
| TreeSort.DrainChildren | BetterTreeSort/TreeSort.cs:167-169 | the children's drains land one after another in slot order, `op` growing by their sizes |
| TreeSort.DrainSlot | BetterTreeSort/TreeSort.cs:168-169 | one slot of that loop keeps its invariant |
| TreeSort.DrainChild | BetterTreeSort/TreeSort.cs:168-169 | drains child i into the array and leaves the later children's drains as they were |
| TreeSort.EmitHolds | BetterTreeSort/TreeSort.cs:223-240 | a trie counting a multiset drains to that multiset in ascending order |
| TreeSort.DrainedNothing | BetterTreeSort/TreeSort.cs:151-173 | a drained trie counts nothing |
| TreeSort.TreeSortingProvider.Init | BetterTreeSort/TreeSort.cs:109-136 | the static trie is built in full over the chosen capacity, `endNodes[v]` is the leaf of v for every v below it, nothing is counted; the trie, its nodes and arrays and `endNodes` are newly allocated |
| TreeSort.TreeSortingProvider.Prebuild | BetterTreeSort/TreeSort.cs:127-134 | the full trie and its table of leaves, all newly allocated |
| TreeSort.TreeSortingProvider.BuildFull | BetterTreeSort/TreeSort.cs:127-128 | a fresh root built in full: every value below the capacity has its leaf |
| TreeSort.TreeSortingProvider.NewRoot | BetterTreeSort/TreeSort.cs:127 | an empty root at depth 1 responsible for [0, C), its `valuesBelow` counters up to date |
| TreeSort.TreeSortingProvider.LeafTable | BetterTreeSort/TreeSort.cs:130-134 | the table maps every value below the capacity to its leaf |
| TreeSort.TreeSortingProvider.Record | BetterTreeSort/TreeSort.cs:133 | one entry of the table is the leaf of its value |
| TreeSort.TreeSortingProvider.Store | BetterTreeSort/TreeSort.cs:133 | the table write changes entry i alone, to the leaf of i |
| TreeSort.TreeSortingProvider.SortWithInPlaceTree | BetterTreeSort/TreeSort.cs:138-179 | the array ends sorted and a permutation of its old contents, the static trie ends empty, and the root's `valuesBelow` drops by the array length modulo 2^32 |
| TreeSort.TreeSortingProvider.Tally | BetterTreeSort/TreeSort.cs:143-147 | the static trie counts exactly the array's elements |
| TreeSort.TreeSortingProvider.Increment | BetterTreeSort/TreeSort.cs:146 | one more element counted at its leaf through the table |
| TreeSort.TreeSortingProvider.Unload | BetterTreeSort/TreeSort.cs:149-176 | the array receives the static trie's drain order, and the trie ends ready for the next call |
| TreeSort.TreeSortingProvider.Sort | BetterTreeSort/TreeSort.cs:181-242 | the array ends sorted and a permutation of its old contents |
| TreeSort.TreeSortingProvider.Build | BetterTreeSort/TreeSort.cs:215-219 | a fresh trie counting exactly the array's elements, whose root `valuesBelow` is their number and every branch node's `valuesBelow` the number counted below it |
| TreeSort.TreeSortingProvider.Insert | BetterTreeSort/TreeSort.cs:218 | one more element counted, the root's `valuesBelow` one higher, every `valuesBelow` still up to date |
| TreeSort.TreeSortingProvider.Flush | BetterTreeSort/TreeSort.cs:221-240 | the drain leaves the array sorted and a permutation of its old contents |
| TreeSort.InitThenSort | BetterTreeSort/Program.cs:57-65 | `init(max, 128)` followed by `sortWithInPlaceTree` on values up to `max` leaves the array sorted and a permutation of its input, and the provider ready again |
| CountingSort.HistogramSpread | BetterTreeSort/Program.cs:20-28 | writing out the histogram gives back the input's multiset and length |
| CountingSort.ArraySort | BetterTreeSort/Program.cs:13-29 | the array ends sorted and a permutation of its old contents, for elements below `uint.MaxValue` |
| CountingSort.Largest | BetterTreeSort/Program.cs:15-18 | the largest element, or 0 for an empty array |
| CountingSort.Histogram | BetterTreeSort/Program.cs:20-23 | bucket v counts the occurrences of v |
| CountingSort.WriteBuckets | BetterTreeSort/Program.cs:25-28 | the array becomes the buckets written out in order |

## Findings

| source | as written | input that shows it | evidently intended | confidence | as-written member | corrected member |
|---|---|---|---|---|---|---|
| BetterTreeSort/TreeSort.cs:32-46 | addValue routes by `(value / (maxValue / W^depth)) % W` and then `value % W` for any `treeWidth` | `treeWidth` 3 with capacity 16: 0 and 15 both take root bucket 0 (divisor 5), then leaf slot 0 (divisor 1), so `sort([0, 15], 3)` counts both at one leaf, whose `actualValue` becomes 15, and writes 15, 15 | distinct values below the capacity reach distinct leaves, which holds when the width is a power of two of at least 2 | medium, not executed | Radix.WidthThreeCollides | Radix.RouteInjective |
| BetterTreeSort/TreeSort.cs:32-73 | addValue, getNodeAt and initialise descend while `maxValue / W^depth` is at least 2, for any `treeWidth` | `treeWidth` 1, as in `init(0, 1)`: the divisor is 65536 at every depth, so `initialise` calls itself one level deeper without end until the stack overflows | the descent ends, which holds for widths of at least 2, where the divisor strictly shrinks | medium, not executed | Radix.WidthOneStays | Radix.DivisorShrinks |

`SearchTrees.SearchTree.LocateWalksRoute` ties `Radix.Route` to the trie: the leaf of a value is the node reached along its route, which is the path `addValue` and `getNodeAt` descend. The trie model itself requires a width that is a power of two of at least 2 (`Radix.ValidShape`), where `Radix.RouteInjective` keeps the leaves of distinct values apart.

## Left out

- `Main` and the benchmark harness of Program.cs: timing, random input, the comparison with
  the expected order and console output (its `init` then `sortWithInPlaceTree` sequence is
  `TreeSort.InitThenSort`).
- Default arguments are explicit parameters: `treeWidth = 128` of `init`, `sort` and
  `sortWithInPlaceTree`, the hint `maxValue = 1` of
  `sort` and `maxValue = 0` of `init`, `depth = 1` of `addValue`, `getNodeAt` and
  `initialise`, and the
  constructor's `treeWidth = 128` and `max = 65536` are passed by every caller.
- `Math.Pow` and the double-to-`uint` casts: exact integer powers and integer division
  take their place; they agree for the capacities and widths modelled.
- The `above` parent pointer: it is written by the constructor and never read.
- Counters and values are unbounded `nat`s except `valuesBelow` and the drain's `op`, which
  wrap as 32-bit values; element values are bounded by the capacity, and array lengths
  stay below 2^32 (the `a.Length < WORD` requirements of the trie sorts), so the other
  counters never wrap.
- CountingSort.ArraySort: requires every element below `uint.MaxValue`; for an array
  whose largest element is `uint.MaxValue`, `new uint[max + 1]` wraps to an empty bucket
  array and the counting loop then fails with an index error, which the model does not
  reproduce. Its bucket counters are unbounded and rely on C#'s limit on array lengths
  rather than on an `a.Length < WORD` requirement.
- Hints of 2^31 and more, which the rounding loop leaves unrounded (and `sort` with the
  hint 1 when an element is 2^31 or more): the model requires hints below 2^31.
- Widths that are not powers of two of at least 2, and elements at or above the capacity (or, for
  `sortWithInPlaceTree`, beyond `endNodes`): these are excluded by requires; the first is
  the findings above (with the width 1 the recursion does not end; with the width 0
  `% branches.Length` divides by zero), the second an index error or misrouting in the
  source.
- The `node == null` test of the drains: the drains are only called on present nodes.
- `TreeSort.Drain`: the new `valuesBelow` is stated for the node it is called on; the
  nodes below are decremented likewise but their new counters are not stated.
- `TreeSort.TreeSortingProvider.SortWithInPlaceTree`: its unused `treeWidth` parameter is
  kept, its returned array is the input array (`r == a`).
- `withWidth` of `initialise` is required to be the node's own width, as every caller
  passes it.
- The static fields of `TreeSortingProvider` are fields of one provider object, and
  `init` is its constructor: the model does not re-run `init` on an existing provider.
- Each loop body of the source that needs its own proof is a separate helper method
  (`AddLeaf`, `DrainSlot`, `Record`, `Increment`, `Insert`, …); the statements are the
  source's, split at its branches and loop turns.
