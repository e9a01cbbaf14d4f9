# Graham-scan convex hull, modelled in Dafny

This project models the convex-hull routine of `convex-hull-problem.go`: the
orientation predicate `crossProduct`, and `grahamScan` with its four steps —
the early return for fewer than three points, the scan for the lowest
(then leftmost) anchor, the in-place sort of the caller's points with the
polar-angle comparator `sortByPolarAngle`, and the monotone stack that pops
every entry that does not make a strict left turn before pushing the next
point. Everything lives in module `ConvexHull` in `convex_hull.dfy`.

Coordinates are exact integers, so every geometric decision is made by one
exact polynomial, `Cross`. The stack loop is a method over a sequence; its
inner pop loop is the method `PopNonLeftTurns`. The sort works in place on an
`array<Point>`, as `sort.Slice` reorders the caller's slice. The main
results are:

- the orientation is antisymmetric in its last two points and zero when two
  points coincide;
- the anchor is an input point that is lowest-then-leftmost among all of
  them, and it is unique;
- the comparator is irreflexive and asymmetric, and exactly one direction
  holds for two points not collinear with the anchor;
- sorting is a permutation of the caller's points;
- for three or more points the hull has between 2 and n entries, and it is
  a subsequence of the sorted points. It starts with the first sorted point
  and ends with the last one. Every three consecutive entries make a strict
  left turn. Every entry is an input point.
- nothing is popped exactly when the sorted points already turn left
  throughout. When every three input points are collinear, the hull is the
  first and last sorted points.

Three consequences of the code are worth stating, because a textbook
Graham scan, and the comment at the end of `convex-hull-problem.go`
(which says the routine "sorts the remaining points by polar angle" and
that "the result is a slice of Points representing the Convex Hull"),
suggest otherwise:

- The anchor need not sort to the front. Every orientation in which the
  anchor is also one of the two compared points (`Cross(anchor, anchor, q)`,
  `Cross(anchor, p, anchor)`) is zero, so the anchor is compared with other
  points by x alone (`AnchorComparedByX`). A point straight above the
  anchor is incomparable with it. A point to its upper left comes before
  it. With anchor (0,0), the points (0,0), (1,1) and (-1,5) form a cycle
  (`LessCycle`). So the first hull entry is the first sorted point, which
  need not be the anchor.
- Two or more copies of one point give two copies of that point, not a
  single vertex (`CollinearHull`); a single point is returned as it is.
- The caller's slice is reordered in place when it has three or more
  points (`GrahamScan` states the new contents are a permutation of the
  old).

## Model

| member | source | states |
|---|---|---|
| `ConvexHull.CrossAntisymmetric` | convex-hull-problem.go:12-14 | swapping the last two points negates the cross product |
| `ConvexHull.Cross` | convex-hull-problem.go:12-14 | the Go expression over exact integers; its contract states it is 0 when q == p, r == p or q == r |
| `ConvexHull.FindAnchor` | convex-hull-problem.go:24-29 | the anchor is an element of the points, and for every point p, either anchor.y < p.y, or anchor.y == p.y and anchor.x <= p.x |
| `ConvexHull.AnchorUnique` | convex-hull-problem.go:24-29 | two points that are both lowest-then-leftmost in the same collection are equal, so the anchor does not depend on the input order |
| `ConvexHull.Less` | convex-hull-problem.go:32-38 | a point never comes before itself; if p comes before q, the reversed call (q against p) returns false, since Cross(anchor,q,p) < 0 or it is 0 with p.x < q.x; when Cross(anchor,p,q) != 0, p comes first iff Cross(anchor,q,p) < 0 |
| `ConvexHull.LessIrreflexive` | convex-hull-problem.go:32-38 | the comparator never puts a point before itself |
| `ConvexHull.LessAsymmetric` | convex-hull-problem.go:32-38 | the comparator never holds in both directions |
| `ConvexHull.LessConnected` | convex-hull-problem.go:32-38 | one direction holds iff the two points are not collinear with the anchor or have different x; off the anchor's rays exactly one direction holds |
| `ConvexHull.AnchorComparedByX` | convex-hull-problem.go:33-35 | the anchor comes before p iff anchor.x < p.x, and p before the anchor iff p.x < anchor.x |
| `ConvexHull.LessCycle` | convex-hull-problem.go:32-38 | with anchor (0,0): (0,0) before (1,1), (1,1) before (-1,5), and (-1,5) before (0,0), though (0,0) is lowest; the order is not transitive |
| `ConvexHull.SortByPolarAngle` | convex-hull-problem.go:39-41 | reordering the array in place keeps its multiset of points (a permutation) |
| `ConvexHull.PopNonLeftTurns` | convex-hull-problem.go:46-48 | what stays is a non-empty prefix of the stack. Its top two entries (if two remain) turn strictly left into the new point. Every popped top made a non-left turn into it. |
| `ConvexHull.Scan` | convex-hull-problem.go:43-50 | for n >= 2 sorted points: the hull has between 2 and n entries, hull[0] is the first point and the last entry is the last point, hull is a subsequence, every consecutive triple turns strictly left, and hull == points iff the points already turn left throughout |
| `ConvexHull.ScanStart` | convex-hull-problem.go:43 | the first two sorted points establish the stack invariant |
| `ConvexHull.ScanStep` | convex-hull-problem.go:45-50 | popping towards point i and pushing it keeps the stack invariant (first entry kept, last entry is point i, subsequence with positions below i+1, left turns) |
| `ConvexHull.NoPopOnLeftTurns` | convex-hull-problem.go:46-49 | when the points turn left throughout, nothing is popped and the stack stays the whole prefix |
| `ConvexHull.ScanFinish` | convex-hull-problem.go:45-52 | after the last point the stack invariant yields the scan's result properties |
| `ConvexHull.StackTruncate` | convex-hull-problem.go:46-47 | popping keeps the subsequence embedding and the chain of left turns |
| `ConvexHull.LeftTurnsPush` | convex-hull-problem.go:46-49 | pushing after the `<= 0` test fails keeps every consecutive triple a strict left turn |
| `ConvexHull.EmbeddingPush` | convex-hull-problem.go:49 | pushing point i, later than every kept position, keeps the hull a subsequence |
| `ConvexHull.GrahamScan` | convex-hull-problem.go:16-53 | fewer than 3 points: the input is returned unchanged and not reordered; otherwise the caller's points become a permutation of themselves and the result has the `ScanResult` properties on them, equals them iff they turn left throughout, and uses each input point at most as often as it occurs |
| `ConvexHull.SubsequenceMultiset` | convex-hull-problem.go:43-50 | a subsequence's multiset is contained in the sequence's, so hull entries are input points and the hull is no longer than the input |
| `ConvexHull.SubsequenceHas` | convex-hull-problem.go:43-50 | every hull entry is one of the sorted points |
| `ConvexHull.LeftTurnsDistinct` | convex-hull-problem.go:46-49 | in a chain of strict left turns, the points of any three consecutive entries are pairwise distinct |
| `ConvexHull.CollinearHull` | convex-hull-problem.go:43-50 | if every three input points are collinear, the hull is exactly the first and last sorted points (two copies when two or more points all coincide) |

## Left out

- `main`, its literal point list and the printing (convex-hull-problem.go:73-90): harness and I/O.
- `float64` coordinates: points have exact integer coordinates. Rounding of the cross product near collinearity is not modelled.
- The library algorithm behind `sort.Slice` is not part of this model. `SortByPolarAngle` is an insertion sort with the same comparator.
- ConvexHull.SortByPolarAngle: states only that the result is a permutation. The comparator is not transitive (`LessCycle`), so no sortedness is claimed.
- ConvexHull.GrahamScan: does not state that the result starts at the anchor. It does not state that the result is the convex hull: no containment, no wrap-around convexity, no permutation invariance, no idempotence. The comparator does not guarantee any of these (`AnchorComparedByX`, `LessCycle`).
- Aliasing: for fewer than three points Go returns the caller's slice itself. The model returns its contents as a value.
