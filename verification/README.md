# algorithm_study core, modelled in Dafny

This project models six pieces of the C++ `algorithm_study` library and proves properties about them.

- **The splay tree with range aggregates and lazy range assignment** (`library/tree/splayTreeRangeQuery.h`).
  - Node, tree and tag model: the tree is an immutable `Tree` of `Node(cnt, value, rangeValue, lazy, lazyExist)`. `mergeOp`, `blockOp` and `defaultValue` are the parameters in `Ops`.
  - Bottom-up splay: the parent pointers of the source become a zipper, a focus plus the path of frames up to the root. `rotate` and the zig-zig / zig-zag pairing of `splay` act on that path exactly as the source's loop does.
  - Abstract reading: a tree's in-order reading with pending tags applied is its sequence (`Abs`). Every operation is stated against that sequence. Positional mode (`operator[]`, `indexOf`, `interval`, `update`, `query`, `serialize`, `build`) uses a plain array as the reference model. Keyed mode (`find`, `insert`, `erase`) uses a sorted sequence.
  - Aggregates: `updateValue` folds value, left, then right, so `rangeValue` equals the in-order fold only under a law. The model states that law as an explicit assumption (`Laws`): `mergeOp` is associative and commutative, and `blockOp(v, k)` is the k-fold merge of v.
- **Sparse tables** (`library/tree/sparseTable.h`).
  - The floor-log table.
  - The power-of-two window levels.
  - The O(1) overlapping query and the tiling `queryNoOverlap`.
  - The min table and the min-index table.
- **Schieber–Vishkin LCA preprocessing** (`library/tree/lcaSchieberVishkin.h`).
  - `lsb`, `clz` and `msb` on 32-bit C `int`s.
  - `dfs1` and `dfs2` over a rooted tree.
  - `enterIntoStrip` and `lca`, with a proof that after `build` on a tree, `lca(x, y)` is the lowest common ancestor of x and y in that tree.
- **Segment intersection** (`library/computationalGeometry/lineSegmentIntersection.h`).
  - The endpoint normalisation.
  - The exact integer test `isIntersected`.
  - The event order.
  - The Shamos–Hoey sweep `findIntersection`.
- **Exact polynomial products** (`library/polynomial/multPoly.cpp`, `multPolyMod.cpp`, `factorialNTT.h`).
  - The naive convolutions, plain and modulo m.
  - The rising-factorial product (x+a)(x+a+1)…(x+k), built by bucketing factors into power-of-two-long polynomials.
- **Naive XOR / OR / AND convolutions** (`library/polynomial/walshHadamard.cpp`).

Modules and files:

| file | module | models |
|---|---|---|
| `optional.dfy` | `Optional` | the `Option` result type |
| `nat_bits.dfy` | `NatBits` | bitwise and / or / xor on naturals, powers of two, lowest and highest set bits |
| `c_int.dfy` | `CInt` | 32-bit two's-complement `int`: patterns, wrap-around, `& | ^ ~`, lsb, clz, msb |
| `folds.dfy` | `Folds` | operator laws and left folds |
| `splay_core.dfy` | `SplayCore` | nodes, tags, pushDown |
| `splay_zip.dfy` | `SplayZip` | the zipper, rotate and splay |
| `splay_positional.dfy` | `SplayPositional` | build, operator[], indexOf, interval, update, query, serialize |
| `sorted_seq.dfy` | `SortedSeq` | strictly increasing sequences, sorted insertion and removal |
| `splay_keyed.dfy` | `SplayKeyed` | find, insert, erase |
| `sparse_table.dfy` | `SparseTable` | all three sparse tables |
| `lca_tree.dfy` | `LcaTree` | the rooted tree, its preorder listing, the table of arrays, init |
| `lca_numbering.dfy` | `LcaNumbering` | dfs1 and its parent and preorder facts |
| `lca_heads.dfy` | `LcaHeads` | the I and head facts of dfs1 |
| `lca_marks.dfy` | `LcaMarks` | dfs2 and its A facts |
| `lca_schieber_vishkin.dfy` | `LcaSchieberVishkin` | build, enterIntoStrip, lca |
| `bit_positions.dfy` | `BitPositions` | bit-by-bit readings of the `int` operators, lsb, msb and the masks `~h + 1` and `h - 1` |
| `lca_layout.dfy` | `LcaLayout` | ancestry in the tree itself, and how subtrees lie in its preorder listing |
| `lca_blocks.dfy` | `LcaBlocks` | the blocks v - lsb(v) .. v + lsb(v) and the bits their numbers share |
| `lca_strips.dfy` | `LcaStrips` | the invariants build leaves, stated over preorder intervals, and what they say about heights and A |
| `lca_climb.dfy` | `LcaClimb` | enterIntoStrip lands on the lowest ancestor at the wanted height |
| `lca_meet.dfy` | `LcaMeet` | the strip lca picks, and lca's answer as the deepest common ancestor |
| `lca_correct.dfy` | `LcaCorrect` | the link from build's arrays to tree ancestry, and lca's correctness in the tree's own terms |
| `line_segment_intersection.dfy` | `LineSegmentIntersection` | segments, isIntersected, events, the sweep |
| `poly_algebra.dfy` | `PolyAlgebra` | the exact product of coefficient sequences, commutativity, associativity, reduction modulo m |
| `convolution.dfy` | `Convolution` | multPoly, multPolyMod |
| `rising_factorial.dfy` | `RisingFactorial` | the rising-factorial product and its shape |
| `rising_buckets.dfy` | `RisingBuckets` | multPolyPolyMod and its bucketing |
| `factorial_ntt.dfy` | `FactorialNtt` | multiplySlow and both rising-factorial variants |
| `walsh_hadamard.dfy` | `WalshHadamard` | slowXor, slowOr, slowAnd |

Modelling choices:

- **Integers.** Integers are unbounded. Where the source relies on 32-bit behaviour, the model says so:
  - the LCA bit tricks use the C `int` model of `CInt`;
  - C++ `%` is modelled for non-negative operands, where it agrees with Dafny's.
- **Functions from elsewhere.** Code in headers outside this model is passed in as a parameter:
  - the fast multiplies (FFT, NTT);
  - `cross()` from `vec2D.h`;
  - the order `std::sort` produces.

  Each parameter carries the specification the source relies on. For example, a fast multiply equals the naive product reduced modulo m.

## Model

| member | source | states |
|---|---|---|
| SplayCore.UpdateNode | library/tree/splayTreeRangeQuery.h:396-415 | recomputing cnt and rangeValue of a node keeps its value, tag and children; from exact children it yields cnt = 1 + cnt(left) + cnt(right) and the value-left-right aggregate; without a tag the node's sequence is left + [value] + right |
| SplayCore.Tag | library/tree/splayTreeRangeQuery.h:417-437 | tagging a subtree with v makes every position of its sequence v, keeps its size and shape, and leaves its aggregates consistent with the tag |
| SplayCore.BlockAround | library/tree/splayTreeRangeQuery.h:404-437 | under the laws, blockOp(v, 1 + l + r) is the value-left-right aggregate of a node holding v over two children tagged with v |
| SplayCore.AggIsFold | library/tree/splayTreeRangeQuery.h:404-410 | under the laws, the root aggregate of a well-formed tree is the in-order fold of its sequence |
| SplayCore.PushDown | library/tree/splayTreeRangeQuery.h:417-437 | pushDown changes nothing without a tag; otherwise it clears the tag, moves it to the children, and keeps the sequence, size, shape and well-formedness |
| SplayCore.PushDownTwice | library/tree/splayTreeRangeQuery.h:417-437 | a second pushDown changes nothing |
| SplayZip.PlugAbs | library/tree/splayTreeRangeQuery.h:321-355 | a subtree hung back under its path of parents reads as the path's left part, the subtree, then the path's right part |
| SplayZip.Rotate | library/tree/splayTreeRangeQuery.h:331-355 | rotate lifts the node over its parent, keeps the node's value, and leaves the in-order reading of the parent's subtree unchanged |
| SplayZip.RotateKeeps | library/tree/splayTreeRangeQuery.h:331-355 | after rotate, p and then x have exact cnt and aggregates recomputed from their new children |
| SplayZip.RotatePlug | library/tree/splayTreeRangeQuery.h:331-355 | rotate leaves the whole tree's sequence unchanged |
| SplayZip.ZigZig | library/tree/splayTreeRangeQuery.h:321-329 | the zig-zig step (rotate the parent, then x) removes two path levels and keeps the sequence and x's rank |
| SplayZip.ZigZag | library/tree/splayTreeRangeQuery.h:321-329 | the zig-zag step (rotate x twice) removes two path levels and keeps the sequence and x's rank |
| SplayZip.Splay | library/tree/splayTreeRangeQuery.h:321-329 | splay makes x the root with no parent, keeps the whole tree's sequence, and x's left subtree holds exactly the elements before x |
| SplayZip.SplayKeepsShape | library/tree/splayTreeRangeQuery.h:321-355 | splay leaves every count on the new tree exact |
| SplayZip.SplayKeepsAggs | library/tree/splayTreeRangeQuery.h:321-355 | splay leaves every aggregate on the new tree recomputed from its children |
| SplayPositional.Descend | library/tree/splayTreeRangeQuery.h:181-197 | the walk of operator[] pushes tags down on its way and stops at the node of global rank nth, with a clean path above it |
| SplayPositional.Select | library/tree/splayTreeRangeQuery.h:181-200 | operator[] returns nothing exactly when nth is outside [0, count); otherwise it splays the node of rank nth to the root and keeps count, the sequence and well-formedness |
| SplayPositional.IndexOf | library/tree/splayTreeRangeQuery.h:202-219 | indexOf of a node is the number of elements before it in the in-order sequence, and -1 for null |
| SplayPositional.SelectIndexOf | library/tree/splayTreeRangeQuery.h:181-219 | indexOf of the node operator[](nth) returns is nth |
| SplayPositional.Build | library/tree/splayTreeRangeQuery.h:66-89 | build(A, n) with n >= 1 makes a right chain whose sequence is A, grows count by n, keeps every cnt and aggregate exact, and gives the root the right-to-left fold of A; under the laws that is the fold of A |
| SplayPositional.Interval | library/tree/splayTreeRangeQuery.h:357-384 | for 0 <= l <= r < count, interval returns a node whose subtree holds exactly ranks l..r under a clean path, with the sequence unchanged |
| SplayPositional.IntervalMiddle | library/tree/splayTreeRangeQuery.h:370-381 | the middle case, 0 < l and r < count - 1, splays rank l - 1 and then rank r - l + 1 of its right subtree; the node found holds exactly ranks l..r |
| SplayPositional.Update | library/tree/splayTreeRangeQuery.h:109-127 | update(l, r, v) is a no-op under the range guard; otherwise the new sequence is the old one with positions max(0, l)..min(count - 1, r) set to v, count unchanged, well-formedness kept |
| SplayPositional.Query | library/tree/splayTreeRangeQuery.h:136-145 | query(l, r) returns defaultValue under the range guard; otherwise it clamps, keeps the sequence, and returns the fold of the clamped range |
| SplayPositional.QueryPoint | library/tree/splayTreeRangeQuery.h:129-133 | query(index) returns defaultValue out of range, else the element at index |
| SplayPositional.UpdatePoint | library/tree/splayTreeRangeQuery.h:99-106 | for 0 <= index < count, update(index, value) sets that one position of the sequence and keeps the aggregates exact |
| SplayPositional.SerializeKeeps | library/tree/splayTreeRangeQuery.h:386-393 | serialize lists the sequence in order, pushing every tag down, and leaves the tree's sequence unchanged |
| SplayPositional.Serialize | library/tree/splayTreeRangeQuery.h:147-151 | serialize() returns the sequence, leaves count and the sequence unchanged, and leaves no tag behind |
| SplayKeyed.Search | library/tree/splayTreeRangeQuery.h:155-176 | the walk of find stops at the key or at a node with no child on the key's side, pushing tags down and keeping the sequence; every node it leaves points toward the key |
| SplayKeyed.StopDecides | library/tree/splayTreeRangeQuery.h:161-176 | on a sorted sequence, where the walk stops decides membership: the key is present iff it is the stopping node's value, and that value is the key's neighbour |
| SplayKeyed.Find | library/tree/splayTreeRangeQuery.h:155-179 | find keeps the sequence and count, splays the last visited node, and reports found only on an exact match; on a sorted tree it reports found iff the key is present |
| SplayKeyed.Insert | library/tree/splayTreeRangeQuery.h:221-263 | insert returns false only with the tree unchanged; on true the key is the root, count grows by one and the multiset of elements gains exactly the key; on a sorted tree it returns true iff the key was absent and the sequence is the sorted insertion; this version counts the first node |
| SplayKeyed.InsertAsWritten | library/tree/splayTreeRangeQuery.h:225-230 | as written, inserting into an empty tree sets count to 1 but leaves the node's cnt at 0 |
| SplayKeyed.FirstInsertQueryAsWritten | library/tree/splayTreeRangeQuery.h:225-230 | with sum as merge, after the as-written first insert and update(0, 0, 5), query(0, 0) returns 0 although the sequence is [5] |
| SplayKeyed.FirstInsertQuery | library/tree/splayTreeRangeQuery.h:221-263 | with a counted first node, query(0, 0) after update(0, 0, v) returns v |
| SplayKeyed.EraseRoot | library/tree/splayTreeRangeQuery.h:270-297 | removing the root joins the left subtree's rightmost node to the right subtree; the sequence is left + right |
| SplayKeyed.Erase | library/tree/splayTreeRangeQuery.h:265-300 | erase of an absent key returns false with count and sequence unchanged; otherwise exactly one copy of the key leaves the sequence and count drops by one; on a sorted tree it returns true iff the key is present |
| SortedSeq.InsertSorted | library/tree/splayTreeRangeQuery.h:233-259 | the reference insertion into a sorted sequence: its members are the old members plus the key, order is kept, and the length grows by one when the key was absent |
| SortedSeq.InsertSortedSplit | library/tree/splayTreeRangeQuery.h:233-259 | inserting between a part below the key and a part above it is exactly the concatenation with the key in the middle |
| SortedSeq.WithoutSplit | library/tree/splayTreeRangeQuery.h:265-300 | removing the key from below + [key] + above leaves below + above |
| SparseTable.FloorLogTable | library/tree/sparseTable.h:37-40 | H[i] is floor(log2 i) for 1 <= i <= n: 2^H[i] <= i < 2^(H[i]+1) |
| SparseTable.BuildLevel | library/tree/sparseTable.h:46-55 | for an associative merge, the level built from a level of windows of length 2^(k-1) holds at every v the fold of a[v .. min(v + 2^k, n) - 1]; for any merge it has one entry per element |
| SparseTable.WinIsFold | library/tree/sparseTable.h:42-55 | for an associative merge, value[k][v] is the fold of a[v .. min(v + 2^k, n) - 1] |
| SparseTable.Init | library/tree/sparseTable.h:33-56 | the table has the levels above, with level 0 equal to the input |
| SparseTable.Query | library/tree/sparseTable.h:58-67 | query returns defaultValue for r < l; otherwise, for an associative idempotent merge, it returns the fold of a[l..r] |
| SparseTable.OverlapFold | library/tree/sparseTable.h:64-66 | two windows of length 2^k inside [l, r] that together cover it fold to the fold of [l, r] for an associative idempotent merge |
| SparseTable.QueryNoOverlap | library/tree/sparseTable.h:69-86 | queryNoOverlap returns defaultValue for r < l; otherwise, for an associative commutative merge with defaultValue as identity, it returns the fold of a[l..r] |
| SparseTable.BlockInTable | library/tree/sparseTable.h:78-82 | each block taken by the tiling loop lies in the table and inside [l, r] |
| SparseTable.MinInit | library/tree/sparseTable.h:129-151 | the min table over a[0..n) keeps n, uses min with default INT_MAX, and its every level holds at v the minimum of the window of length 2^k starting at v, cut at n |
| SparseTable.MinQuery | library/tree/sparseTable.h:153-162 | the min table returns INT_MAX for an empty range, else an element of a[l..r] that is at most every element there |
| SparseTable.BuildIndex | library/tree/sparseTable.h:180-212 | the min-index table copies the input, level 0 holds the identity indices, and level k holds the rightmost minimum index of each window |
| SparseTable.IndexQuery | library/tree/sparseTable.h:214-227 | the min-index query returns left for an invalid range, else the rightmost index in [l, r] that holds the minimum |
| SparseTable.PickRightmost | library/tree/sparseTable.h:203-206 | the strict comparison picks the right candidate on ties, so the chosen index is the rightmost minimum of the union |
| CInt.Lsb | library/tree/lcaSchieberVishkin.h:92-94 | x & -x is an int, and on a non-negative int it is the lowest set bit, 0 for 0 |
| CInt.Clz | library/tree/lcaSchieberVishkin.h:84-90 | clz of a non-zero int counts the zero bits above the highest set bit of its 32-bit pattern |
| CInt.Msb | library/tree/lcaSchieberVishkin.h:96-100 | msb(0) is 0; for 0 < x, msb(x) is a power of two h with h <= x < 2h; for a negative x it is the sign bit INT_MIN |
| CInt.LsbAboveMask | library/tree/lcaSchieberVishkin.h:45 | for a power of two h that is a bit of a, lsb(a & (~h + 1)) is h |
| LcaTree.Init | library/tree/lcaSchieberVishkin.h:25-33 | init(N) sizes every array to N and resets the clock |
| LcaNumbering.Dfs1 | library/tree/lcaSchieberVishkin.h:53-64 | dfs1 advances the clock by the subtree's size, keeps every I entry a valid index, and leaves A alone |
| LcaNumbering.Dfs1Numbers | library/tree/lcaSchieberVishkin.h:53-64 | dfs1 gives the subtree's nodes the consecutive preorder numbers from the clock on, sets parent[root] = p, and sets parent[v] = u along every tree edge |
| LcaHeads.Dfs1Max | library/tree/lcaSchieberVishkin.h:55-62 | after dfs1, I[u] is the number in u's subtree with the largest lowest set bit |
| LcaHeads.Dfs1Topmost | library/tree/lcaSchieberVishkin.h:63 | after dfs1, head[I[u]] is a node carrying I[u] numbered no later than u: the topmost carrier |
| LcaNumbering.Dfs1Keeps | library/tree/lcaSchieberVishkin.h:53-64 | dfs1 writes parent, preorder and I only at the nodes of the subtree |
| LcaMarks.Dfs2 | library/tree/lcaSchieberVishkin.h:67-74 | dfs2 writes only A, leaving parent, preorder, I, head and the clock as they were |
| LcaMarks.Dfs2Ors | library/tree/lcaSchieberVishkin.h:67-74 | dfs2 sets A[root] = up OR lsb(I[root]) and A[v] = A[u] OR lsb(I[v]) along every tree edge |
| LcaMarks.Dfs2Carries | library/tree/lcaSchieberVishkin.h:67-74 | after dfs2, every node's A holds the lowest bit of its own I |
| LcaSchieberVishkin.Build | library/tree/lcaSchieberVishkin.h:36-40 | build restarts the clock and leaves it at the number of nodes, every I entry a valid index |
| LcaSchieberVishkin.BuildFacts | library/tree/lcaSchieberVishkin.h:36-40 | build numbers the nodes 0..N-1 in preorder, sets parent[root] = -1, and leaves I, head and A with the properties above |
| LcaSchieberVishkin.EnterIntoStrip | library/tree/lcaSchieberVishkin.h:76-81 | enterIntoStrip answers only for an index inside the arrays, and its answer is x itself or the parent of some node; which ancestor it is is LcaCorrect.StripEntry |
| LcaSchieberVishkin.Lca | library/tree/lcaSchieberVishkin.h:43-49 | lca answers only for indexes inside the arrays, and its answer is a node index; which node it is is LcaCorrect.LcaCorrect |
| LcaSchieberVishkin.LcaSelf | library/tree/lcaSchieberVishkin.h:36-49 | after build, lca(x, x) == x for every node x of the tree |
| LcaSchieberVishkin.LcaSymmetric | library/tree/lcaSchieberVishkin.h:43-49 | with distinct preorder numbers, lca(x, y) == lca(y, x) |
| BitPositions.ClearBelow | library/tree/lcaSchieberVishkin.h:45 | for h = 2^k, a & (~h + 1) keeps exactly the bits of a at k and above |
| BitPositions.KeepBelow | library/tree/lcaSchieberVishkin.h:79 | for h = 2^k, a & (h - 1) keeps exactly the bits of a below k |
| BitPositions.MsbAt | library/tree/lcaSchieberVishkin.h:96-100 | msb of a positive int is 2^k for the set bit k with no set bit above it |
| BitPositions.LsbIs | library/tree/lcaSchieberVishkin.h:92-94 | lsb of a non-negative int is 2^j for the set bit j with no set bit below it |
| LcaLayout.SliceAt | library/tree/lcaSchieberVishkin.h:53-64 | in a tree's preorder listing, each node's subtree is the contiguous slice that starts at the node, which is why dfs1's consecutive numbers describe subtrees |
| LcaLayout.ParentAt | library/tree/lcaSchieberVishkin.h:53-59 | every node after the root is a child of an earlier node whose slice contains it, and no node in between has a slice reaching it |
| LcaCorrect.AncIff | library/tree/lcaSchieberVishkin.h:53-64 | after build, u is an ancestor of w in the tree exactly when preorder[u] <= preorder[w] < preorder[u] + the size of u's subtree |
| LcaCorrect.LaidParent | library/tree/lcaSchieberVishkin.h:53-59 | after build, the parent recorded for a non-root node is the nearest node before it in preorder whose subtree contains it |
| LcaStrips.Agrees | library/tree/lcaSchieberVishkin.h:55-62 | an ancestor's I has a lowest set bit at least as high as its descendant's I, and the two agree on every bit above the ancestor's lowest set bit |
| LcaStrips.StripMates | library/tree/lcaSchieberVishkin.h:55-63 | ancestors of x and of y with the same height carry the same I when I[x] and I[y] agree above that height |
| LcaStrips.MarkBit | library/tree/lcaSchieberVishkin.h:67-74 | after build, bit j of A[x] is set exactly when some ancestor of x has height j, that is lsb(I) == 2^j |
| LcaMeet.SplitAt | library/tree/lcaSchieberVishkin.h:44 | hb is 2^d for the highest bit d where I[x] and I[y] differ, or their common height when they are equal; above d they agree |
| LcaClimb.HighestBelow | library/tree/lcaSchieberVishkin.h:79 | msb(A[x] & (2^j - 1)) is 2^k for the highest set bit k of A[x] below j, and A[x] has no set bit strictly between k and j |
| LcaMeet.StripAt | library/tree/lcaSchieberVishkin.h:44-45 | hz is 2^j for the height j of some common ancestor of x and y, and no common ancestor is lower than height j |
| LcaClimb.Climb | library/tree/lcaSchieberVishkin.h:79-80 | when x is below height j but has an ancestor at j, enterIntoStrip(x, 2^j) returns the lowest ancestor of x at height j |
| LcaClimb.EntryAt | library/tree/lcaSchieberVishkin.h:76-81 | for an ancestor w0 of x, enterIntoStrip(x, lsb(I[w0])) returns the lowest ancestor of x at w0's height |
| LcaMeet.LcaAt | library/tree/lcaSchieberVishkin.h:43-49 | stated over the arrays build leaves, lca(x, y) is a common ancestor of x and y that every common ancestor encloses |
| LcaCorrect.StripEntry | library/tree/lcaSchieberVishkin.h:76-81 | after build over a tree, for an ancestor u of x, enterIntoStrip(x, lsb(I[u])) returns an ancestor of x with u's lsb(I) that lies under every other ancestor of x with that lsb(I) |
| LcaCorrect.LcaCorrect | library/tree/lcaSchieberVishkin.h:36-49 | after build over a tree, lca(x, y) for any two nodes returns a common ancestor of both in the tree that lies under every other common ancestor: their lowest common ancestor |
| LineSegmentIntersection.MakeSegment | library/computationalGeometry/lineSegmentIntersection.h:12-15 | the constructor orders the endpoints so that a <= b in the pair order, keeping the same two points |
| LineSegmentIntersection.IsIntersected | library/computationalGeometry/lineSegmentIntersection.h:28-45 | false when the bounding boxes are apart or when one segment lies strictly on one side of the other's line; true otherwise |
| LineSegmentIntersection.CommonPointIntersects | library/computationalGeometry/lineSegmentIntersection.h:28-45 | two segments that share a point, rational coordinates allowed, always pass the test |
| LineSegmentIntersection.IntersectedSymmetric | library/computationalGeometry/lineSegmentIntersection.h:28-45 | the test is symmetric |
| LineSegmentIntersection.IntersectedSelf | library/computationalGeometry/lineSegmentIntersection.h:28-45 | every segment intersects itself |
| LineSegmentIntersection.EventOrder | library/computationalGeometry/lineSegmentIntersection.h:57-64 | the event order is a strict weak order, lexicographic on (x, type, y), so starts precede ends at the same x |
| LineSegmentIntersection.LowerBound | library/computationalGeometry/lineSegmentIntersection.h:83-95 | lower_bound is the first position of the active set whose segment is not less than the key |
| LineSegmentIntersection.Number | library/computationalGeometry/lineSegmentIntersection.h:69-76 | the first loop sets v[i].id = i and builds the 2n events, start then end of each segment |
| LineSegmentIntersection.StartEvent | library/computationalGeometry/lineSegmentIntersection.h:82-93 | a start event reports only a pair that passes the test between an active segment and the new one, else inserts the new segment with std::set semantics |
| LineSegmentIntersection.EndEvent | library/computationalGeometry/lineSegmentIntersection.h:94-105 | an end event reports only a pair of two different active neighbours that pass the test, else erases the segment lower_bound lands on |
| LineSegmentIntersection.Sweep | library/computationalGeometry/lineSegmentIntersection.h:79-106 | the sweep over the sorted events returns (-1, -1) or two different segment ids whose segments pass isIntersected |
| LineSegmentIntersection.FindIntersection | library/computationalGeometry/lineSegmentIntersection.h:68-108 | findIntersection numbers the segments and returns either (-1, -1) or two different segment ids whose segments pass isIntersected |
| PolyAlgebra.MulComm | library/polynomial/multPoly.cpp:9-13 | the exact product is commutative |
| PolyAlgebra.MulAssoc | library/polynomial/multPolyMod.cpp:95-110 | the exact product is associative, which is what lets the buckets be merged in any grouping |
| PolyAlgebra.MulModBoth | library/polynomial/multPolyMod.cpp:10-14 | reducing a factor modulo m before multiplying does not change the reduced product |
| Convolution.MultPoly | library/polynomial/multPoly.cpp:6-16 | multPoly returns |left| + |right| - 1 coefficients, coefficient k being the sum of left[j] * right[i] over i + j = k, which is the exact product |
| Convolution.AccumulateRowMod | library/polynomial/multPolyMod.cpp:10-14 | after outer iteration i every entry is the sum over right[0..i] only, reduced into [0, m) |
| Convolution.MultPolyMod | library/polynomial/multPolyMod.cpp:7-17 | multPolyMod returns the exact product reduced modulo m, each entry in [0, m), for non-negative inputs |
| Convolution.SquareOfOneTwoOne | library/polynomial/multPoly.cpp:67-69 | the product of {1,2,1} with itself is {1,4,6,4,1} |
| RisingFactorial.RisingShape | library/polynomial/multPolyMod.cpp:69-78 | (x+a)…(x+k), high order first, has k - a + 2 coefficients with leading 1, and non-negative ones for a >= 0 |
| RisingFactorial.RisingConstant | library/polynomial/multPolyMod.cpp:69-78 | its constant coefficient is the product a·(a+1)·…·k |
| RisingBuckets.DirectProduct | library/polynomial/multPolyMod.cpp:72-78 | the small branch returns (x+a)…(x+k) reduced modulo m, and {1, a} when k <= a |
| RisingBuckets.FirstNonPow2 | library/polynomial/multPolyMod.cpp:84-86 | the scan stops at the first bucket whose length is not a power of two |
| RisingBuckets.BucketStep | library/polynomial/multPolyMod.cpp:83-103 | after factor i the buckets still hold reduced polynomials and their product is (x+a)…(x+i) modulo m |
| RisingBuckets.CombineBuckets | library/polynomial/multPolyMod.cpp:106-110 | the final right-to-left combination yields the product of all buckets modulo m |
| RisingBuckets.RisingProduct | library/polynomial/multPolyMod.cpp:71-111 | the shared algorithm of multPolyPolyMod, multiplyRisingFactorialSmall and multiplyRisingFactorial, for any multiply that returns the reduced product: (x+a)…(x+k) reduced modulo m when a < k and {1, a} when k <= a; the length is k - a + 2, and the leading coefficient is 1 when m > 1 |
| FactorialNtt.MultiplySlow | library/polynomial/factorialNTT.h:8-18 | multiplySlow returns |left| + |right| - 1 coefficients, each the convolution sum reduced modulo mod |
| FactorialNtt.VariantsAgree | library/polynomial/factorialNTT.h:24-107 | with the fast multiplies specified as the reduced product, multiplyRisingFactorialSmall, multiplyRisingFactorial and multPolyPolyMod return the same polynomial |
| WalshHadamard.OutputSize | library/polynomial/walshHadamard.cpp:61-63 | the size is the least power of two, at least 1, that is >= both input lengths |
| WalshHadamard.IndexInRange | library/polynomial/walshHadamard.cpp:59-102 | i ^ j, i \| j and i & j stay below a power-of-two size that bounds i and j |
| WalshHadamard.SlowXor | library/polynomial/walshHadamard.cpp:59-72 | C[k] is the sum of A[i] * B[j] over i ^ j = k, and the sum of C is the product of the sums |
| WalshHadamard.SlowOr | library/polynomial/walshHadamard.cpp:74-87 | C[k] is the sum of A[i] * B[j] over i \| j = k, and the sum of C is the product of the sums |
| WalshHadamard.SlowAnd | library/polynomial/walshHadamard.cpp:89-102 | C[k] is the sum of A[i] * B[j] over i & j = k, the sum of C is the product of the sums, and C[k] is 0 for k >= min(|A|, |B|) |

## Left out

- Heap allocation, `destroyNode` and `deleteRecursive` of the splay tree are not modelled: the tree is an immutable value. `createNode` is modelled only through `count` and the new node's initial fields.
- Amortised cost bounds of the splay tree and of the sweep are not modelled.
- The `makeSplayTreeRangeQuery` and `makeSparseTable` factories are not modelled: they only forward to the constructors.
- `build(n)` of the splay tree is not modelled: its aggregates are consistent only when `merge(d, d) == d`.
- SplayKeyed.Insert: the keyed operations require a tree with no pending tag. With tags, `insert` (lines 257-259) and `erase` (lines 280-281) call pushDown after attaching a child, so a tag would leak into it.
- SplayKeyed.Search: `insert` compares before pushing down while `find` pushes first. The model uses one walk for both; the two agree on a tree with no pending tag.
- SplayPositional.Build: requires a non-empty A, because the source reads `A[0]` whatever n is.
- SplayPositional.UpdatePoint: requires 0 <= index < count, because the source dereferences the result of `operator[]` without a check.
- SparseTable.Init: requires 1 <= n because `H[1]` is written; the element type is `int`, as `query` binds `vector<int>&`.
- LcaSchieberVishkin.Build: the adjacency lists become the rooted tree they describe, children in edge order. The walk's `v == p` skip is that tree's parent link.
- LcaSchieberVishkin.Lca: an index outside the arrays is undefined behaviour in C++ and gives `None` here. The function's own contract states only that an answer comes from indexes inside the arrays, because which node it is depends on the arrays having been filled by `build`; that is stated by `LcaCorrect.LcaCorrect`.
- LcaSchieberVishkin.EnterIntoStrip: the function's own contract states only that an answer is x itself or a recorded parent, for the same reason; `LcaCorrect.StripEntry` states which ancestor it is after `build`.
- LcaCorrect.LcaCorrect: the tree must have distinct ids that index the arrays, and at most 2^31 nodes so that the `int` clock can number them all. `build(edges, root)` on a tree given by adjacency lists with node ids 0..N-1 meets both.
- The usage comment at the top of `lcaSchieberVishkin.h` names `climb()` and `findLCA()`, which the file does not define. The model follows the code, whose query is `lca`.
- CInt: C `int` values are Dafny integers in [-2^31, 2^31) whose bitwise operators act on the 32-bit pattern. They are not `bv32`; this keeps the link with the natural-number bit lemmas direct.
- LineSegmentIntersection.CommonPointIntersects: only one direction of the test's meaning is proved, that segments sharing a point pass it. That passing segments always share a point is not proved.
- LineSegmentIntersection.FindIntersection: soundness only. Shamos–Hoey completeness depends on `cross()` and `Vec2D` from `vec2D.h`, which are not part of this model, and on the balanced-tree order of `std::set`.
- LineSegmentIntersection.EndEvent: when `lower_bound` lands on `end()` at an end event, the source steps or erases past the end. The model skips the probe and erases nothing.
- LineSegmentIntersection.SortsEvents: `std::sort` is given by the permutation it produces, a sorted permutation of the events.
- LineSegmentIntersection.MakeSegment: the constructor leaves `id` uninitialised; the model takes its value as a parameter, and `findIntersection` overwrites it.
- FactorialNtt.MultiplyRisingFactorial: the three rising-factorial functions share one algorithm and differ only in the multiply they call. They are one model, `RisingBuckets.RisingProduct`, applied to different multiply parameters; `FactorialNtt.MultiplyRisingFactorialSmall`, `FactorialNtt.MultiplyRisingFactorial` and `RisingBuckets.MultPolyPolyMod` only pass their multiply to it.
- The floating-point multiplies `multPolyFFT` and `multPolyFFTMod`, all of `fft.h`, and `NTT::multiply` / `PolyNTT::multiplyFast` (`polyNTT.h` is not part of this model) are parameters specified to equal the reduced naive product.
- Convolution.MultPoly: requires at least one input to be non-empty. With both inputs empty the source asks `vector` for `size_t(-1)` elements at `multPoly.cpp:7`, which throws; the model does not return that error. The products `left[j] * right[i]` and their sums (line 11) are exact integers here; overflow of the element type, `int` by default, is not modelled.
- Convolution.MultPolyMod: machine-integer overflow of `long long` products and C++ `%` on negative operands are not modelled; inputs are non-negative.
- The `test*` functions and the context files (suffix array, wavelet tree, sort, HLD path query, contest solutions) are not modelled: they only exercise headers outside this model.

## Findings

| source | as written | input that shows it | evidently intended | confidence | as-written member | corrected member |
|---|---|---|---|---|---|---|
| library/tree/splayTreeRangeQuery.h:225-230 | inserting into an empty tree creates the root with `new Node()` and never calls `init()`, so its `cnt` is 0 while `count` is 1 | with sum as merge: insert(7) into an empty tree, then update(0, 0, 5), then query(0, 0) returns 0 instead of 5, because the tag's block covers `cnt` = 0 elements | the first node counts itself (`cnt` = 1), as every later insert's recomputation gives | not executed | SplayKeyed.InsertAsWritten, SplayKeyed.FirstInsertQueryAsWritten | SplayKeyed.Insert, SplayKeyed.FirstInsertQuery |
