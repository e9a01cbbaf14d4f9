/** A model of the Graham-scan convex-hull routine: the orientation predicate,
    the lowest-then-leftmost anchor, the polar-angle comparator applied
    through an in-place sort, and the monotone stack that prunes every turn
    that is not strictly to the left. Coordinates are exact integers. */
module ConvexHull {

  /** A point of the plane; equality is componentwise. */
  datatype Point = Point(x: int, y: int)

  // ---------------------------------------------------------------------
  // Orientation predicate
  // ---------------------------------------------------------------------

  /** Twice the signed area of the triangle p, q, r: positive for a
      counter-clockwise (left) turn p -> q -> r, negative for a clockwise
      turn, zero when the three points are collinear, in particular when two
      of them coincide. */
  function Cross(p: Point, q: Point, r: Point): (c: int)
    ensures q == p || r == p || q == r ==> c == 0
  {
    (q.x - p.x) * (r.y - p.y) - (q.y - p.y) * (r.x - p.x)
  }

  /** Swapping the last two points flips the sign of the orientation. */
  lemma CrossAntisymmetric(p: Point, q: Point, r: Point)
    ensures Cross(p, q, r) == -Cross(p, r, q)
  {
  }

  // ---------------------------------------------------------------------
  // Anchor selection
  // ---------------------------------------------------------------------

  /** `a` is no higher than `p`, and no further right when both lie on the
      same horizontal line. */
  predicate LowerLeft(a: Point, p: Point) {
    a.y < p.y || (a.y == p.y && a.x <= p.x)
  }

  /** The point with the smallest y, ties broken by the smallest x: start
      from the first point and replace the candidate by every point that
      is strictly lower, or as low and strictly further left. */
  method FindAnchor(points: seq<Point>) returns (anchor: Point)
    requires |points| >= 1
    ensures anchor in points
    ensures forall p :: p in points ==> LowerLeft(anchor, p)
  {
    anchor := points[0];
    for i := 0 to |points|
      invariant anchor in points
      invariant forall k :: 0 <= k < i ==> LowerLeft(anchor, points[k])
    {
      var p := points[i];
      if p.y < anchor.y || (p.y == anchor.y && p.x < anchor.x) {
        anchor := p;
      }
    }
  }

  /** The lowest-then-leftmost point of a collection is unique, so the anchor
      depends only on which points are present, not on their order. */
  lemma AnchorUnique(points: seq<Point>, a: Point, b: Point)
    requires a in points && forall p :: p in points ==> LowerLeft(a, p)
    requires b in points && forall p :: p in points ==> LowerLeft(b, p)
    ensures a == b
  {
    assert LowerLeft(a, b) && LowerLeft(b, a);
  }

  // ---------------------------------------------------------------------
  // Polar-angle comparator
  // ---------------------------------------------------------------------

  /** `p` comes before `q` around `anchor`: `q` lies strictly to the left of
      the ray anchor -> p, or the three are collinear and `p` has the
      smaller x. A point never comes before itself; when `p` comes first,
      the reversed comparison (q against p) is false; and off a common ray
      through the anchor, `p` comes first exactly when `p` lies strictly to
      the right of the ray anchor -> q. */
  function Less(anchor: Point, p: Point, q: Point): (b: bool)
    ensures b ==> p != q
    ensures b ==> Cross(anchor, q, p) < 0 || (Cross(anchor, q, p) == 0 && p.x < q.x)
    ensures Cross(anchor, p, q) != 0 ==> (b <==> Cross(anchor, q, p) < 0)
  {
    var cp := Cross(anchor, p, q);
    if cp == 0 then p.x < q.x else cp > 0
  }

  /** No point comes before itself. */
  lemma LessIrreflexive(anchor: Point, p: Point)
    ensures !Less(anchor, p, p)
  {
  }

  /** No two points each come before the other. */
  lemma LessAsymmetric(anchor: Point, p: Point, q: Point)
    ensures !(Less(anchor, p, q) && Less(anchor, q, p))
  {
    CrossAntisymmetric(anchor, p, q);
  }

  /** Two points are comparable (one comes before the other) exactly when
      they are not collinear with the anchor or have different x; in
      particular, off a common ray through the anchor exactly one of the two
      comes first. */
  lemma LessConnected(anchor: Point, p: Point, q: Point)
    ensures Less(anchor, p, q) || Less(anchor, q, p)
        <==> Cross(anchor, p, q) != 0 || p.x != q.x
    ensures Cross(anchor, p, q) != 0 ==> Less(anchor, p, q) != Less(anchor, q, p)
  {
    CrossAntisymmetric(anchor, p, q);
  }

  /** Every orientation in which the anchor is also one of the two compared
      points (Cross(anchor, anchor, q), Cross(anchor, p, anchor)) is zero, so
      the anchor is compared with any other point by x alone: a point straight
      above the anchor is incomparable with it, and a point to its upper left
      comes before it. */
  lemma AnchorComparedByX(anchor: Point, p: Point)
    ensures Less(anchor, anchor, p) <==> anchor.x < p.x
    ensures Less(anchor, p, anchor) <==> p.x < anchor.x
  {
  }

  /** With (0,0) as the anchor, the point (-1,5) to its upper left comes
      before it, and (0,0), (1,1), (-1,5) each come before the next in a
      cycle: the comparator is not a strict weak order and the anchor need
      not be sorted first. */
  lemma LessCycle()
    ensures LowerLeft(Point(0, 0), Point(1, 1)) && LowerLeft(Point(0, 0), Point(-1, 5))
    ensures Less(Point(0, 0), Point(0, 0), Point(1, 1))
    ensures Less(Point(0, 0), Point(1, 1), Point(-1, 5))
    ensures Less(Point(0, 0), Point(-1, 5), Point(0, 0))
  {
  }

  // ---------------------------------------------------------------------
  // In-place sort by polar angle
  // ---------------------------------------------------------------------

  /** Reorders `a` in place with an insertion sort driven by the polar-angle
      comparator around `anchor`. Only the permutation property is claimed:
      the comparator is not transitive, so no sortedness follows. */
  method SortByPolarAngle(a: array<Point>, anchor: Point)
    modifies a
    ensures multiset(a[..]) == old(multiset(a[..]))
  {
    var i := 1;
    while i < a.Length
      invariant multiset(a[..]) == old(multiset(a[..]))
    {
      var j := i;
      while 0 < j && Less(anchor, a[j], a[j - 1])
        invariant 0 <= j <= i < a.Length
        invariant multiset(a[..]) == old(multiset(a[..]))
      {
        a[j - 1], a[j] := a[j], a[j - 1];
        j := j - 1;
      }
      i := i + 1;
    }
  }

  // ---------------------------------------------------------------------
  // Monotone stack
  // ---------------------------------------------------------------------

  /** Every three consecutive entries make a strict left turn (the chain is
      not closed: the last and first entries are not compared). */
  ghost predicate LeftTurns(h: seq<Point>) {
    forall k :: 0 <= k < |h| - 2 ==> Cross(h[k], h[k + 1], h[k + 2]) > 0
  }

  /** `idx` lists, in strictly increasing order, positions of `s` holding the
      entries of `h`. */
  ghost predicate IsEmbedding(idx: seq<int>, h: seq<Point>, s: seq<Point>) {
    && |idx| == |h|
    && (forall k :: 0 <= k < |idx| ==> 0 <= idx[k] < |s| && h[k] == s[idx[k]])
    && (forall j, k :: 0 <= j < k < |idx| ==> idx[j] < idx[k])
  }

  /** `h` is obtained from `s` by deleting entries. */
  ghost predicate IsSubsequence(h: seq<Point>, s: seq<Point>) {
    exists idx :: IsEmbedding(idx, h, s)
  }

  /** What the stack loop guarantees about its result `hull` for the sorted
      points `s`. */
  ghost predicate ScanResult(s: seq<Point>, hull: seq<Point>) {
    && |s| >= 2
    && 2 <= |hull| <= |s|
    && hull[0] == s[0]
    && hull[|hull| - 1] == s[|s| - 1]
    && IsSubsequence(hull, s)
    && LeftTurns(hull)
  }

  /** `kept` is what remains of `stack` after popping towards `p`: a
      non-empty prefix that turns strictly left into `p` (or has a single
      entry), every popped entry having been the top of a non-left turn into
      `p`. */
  ghost predicate PoppedTowards(stack: seq<Point>, p: Point, kept: seq<Point>) {
    && 1 <= |kept| <= |stack| && kept == stack[..|kept|]
    && (|kept| >= 2 ==> Cross(kept[|kept| - 2], kept[|kept| - 1], p) > 0)
    && (forall j :: |kept| <= j < |stack| ==> Cross(stack[j - 1], stack[j], p) <= 0)
  }

  /** The inner loop of the stack: pop the top while the top two entries and
      `p` do not make a strict left turn, stopping at one entry. */
  method PopNonLeftTurns(stack: seq<Point>, p: Point) returns (kept: seq<Point>)
    requires |stack| >= 1
    ensures PoppedTowards(stack, p, kept)
  {
    kept := stack;
    while |kept| >= 2 && Cross(kept[|kept| - 2], kept[|kept| - 1], p) <= 0
      invariant 1 <= |kept| <= |stack| && kept == stack[..|kept|]
      invariant forall j :: |kept| <= j < |stack| ==> Cross(stack[j - 1], stack[j], p) <= 0
      decreases |kept|
    {
      kept := kept[..|kept| - 1];
    }
  }

  /** The state of the stack before the point at position `i` is handled:
      `hull` starts with the first point (position 0 itself, never popped),
      ends with the previous one, is
      embedded by `idx` in the points seen so far, turns left throughout, and
      is the whole prefix when the points themselves turn left throughout. */
  ghost predicate StackInv(s: seq<Point>, i: int, hull: seq<Point>, idx: seq<int>) {
    && 2 <= i <= |s|
    && 2 <= |hull| <= i
    && hull[0] == s[0] && hull[|hull| - 1] == s[i - 1]
    && IsEmbedding(idx, hull, s) && idx[0] == 0
    && (forall k :: 0 <= k < |idx| ==> idx[k] < i)
    && LeftTurns(hull)
    && (LeftTurns(s) ==> hull == s[..i])
  }

  /** The stack loop over the sorted points: start from the first two; for
      each further point pop the entries that do not turn strictly left into
      it, then push it. The first point is never popped, since popping stops
      at one entry; no point at all is popped exactly when the points already
      turn left at every step. */
  method Scan(s: seq<Point>) returns (hull: seq<Point>)
    requires |s| >= 2
    ensures ScanResult(s, hull)
    ensures hull == s <==> LeftTurns(s)
  {
    hull := [s[0], s[1]];
    ghost var idx := [0, 1];
    ScanStart(s);
    for i := 2 to |s|
      invariant StackInv(s, i, hull, idx)
    {
      var kept := PopNonLeftTurns(hull, s[i]);
      ScanStep(s, i, hull, idx, kept);
      hull := kept + [s[i]];
      idx := idx[..|kept|] + [i];
    }
    ScanFinish(s, hull, idx);
  }

  /** The first two points establish the stack invariant. */
  lemma ScanStart(s: seq<Point>)
    requires |s| >= 2
    ensures StackInv(s, 2, [s[0], s[1]], [0, 1])
  {
    assert LeftTurns(s) ==> [s[0], s[1]] == s[..2];
  }

  /** Popping towards the next point and pushing it keeps the stack
      invariant. */
  lemma ScanStep(s: seq<Point>, i: int, hull: seq<Point>, idx: seq<int>, kept: seq<Point>)
    requires StackInv(s, i, hull, idx) && i < |s|
    requires PoppedTowards(hull, s[i], kept)
    ensures StackInv(s, i + 1, kept + [s[i]], idx[..|kept|] + [i])
  {
    var n := |kept|;
    StackTruncate(idx, hull, s, n);
    assert kept == hull[..n];
    LeftTurnsPush(kept, s[i]);
    EmbeddingPush(idx[..n], kept, s, i);
    NoPopOnLeftTurns(s, i, hull, kept);
  }

  /** When the points turn left throughout, nothing is popped, so the stack
      stays the whole prefix of the points. */
  lemma NoPopOnLeftTurns(s: seq<Point>, i: int, hull: seq<Point>, kept: seq<Point>)
    requires 2 <= i < |s| && (LeftTurns(s) ==> hull == s[..i])
    requires PoppedTowards(hull, s[i], kept)
    ensures LeftTurns(s) ==> kept + [s[i]] == s[..i + 1]
  {
    if LeftTurns(s) {
      LeftTurnsPrefix(s, i, hull);
      assert |kept| == |hull|;
      PrefixPush(s, i);
    }
  }

  /** Once every point is handled, the stack invariant gives the scan's
      guarantees. */
  lemma ScanFinish(s: seq<Point>, hull: seq<Point>, idx: seq<int>)
    requires StackInv(s, |s|, hull, idx)
    ensures ScanResult(s, hull)
    ensures hull == s <==> LeftTurns(s)
  {
    assert s[..|s|] == s;
  }

  /** Keeping a prefix of the stack keeps an embedding and a chain of left
      turns. */
  lemma StackTruncate(idx: seq<int>, h: seq<Point>, s: seq<Point>, n: int)
    requires IsEmbedding(idx, h, s) && LeftTurns(h)
    requires 0 <= n <= |h|
    ensures IsEmbedding(idx[..n], h[..n], s)
    ensures LeftTurns(h[..n])
  {
  }

  /** Pushing a point that makes a strict left turn with the top two entries
      (or onto fewer than two entries) keeps a chain of left turns. */
  lemma LeftTurnsPush(h: seq<Point>, p: Point)
    requires LeftTurns(h)
    requires |h| >= 2 ==> Cross(h[|h| - 2], h[|h| - 1], p) > 0
    ensures LeftTurns(h + [p])
  {
    var h' := h + [p];
    forall k | 0 <= k < |h'| - 2
      ensures Cross(h'[k], h'[k + 1], h'[k + 2]) > 0
    {
      if k < |h| - 2 {
        assert h'[k] == h[k] && h'[k + 1] == h[k + 1] && h'[k + 2] == h[k + 2];
      }
    }
  }

  /** Pushing position `i`, beyond every position used so far, keeps an
      embedding. */
  lemma EmbeddingPush(idx: seq<int>, h: seq<Point>, s: seq<Point>, i: int)
    requires IsEmbedding(idx, h, s)
    requires forall k :: 0 <= k < |idx| ==> idx[k] < i
    requires 0 <= i < |s|
    ensures IsEmbedding(idx + [i], h + [s[i]], s)
  {
  }

  /** A prefix one longer is the shorter prefix followed by the next entry. */
  lemma PrefixPush(s: seq<Point>, i: int)
    requires 0 <= i < |s|
    ensures s[..i + 1] == s[..i] + [s[i]]
  {
  }

  /** The last two points of a prefix of a chain of left turns and the point
      after that prefix make a strict left turn. */
  lemma LeftTurnsPrefix(s: seq<Point>, i: int, h: seq<Point>)
    requires LeftTurns(s)
    requires 2 <= i < |s| && h == s[..i]
    ensures Cross(h[|h| - 2], h[|h| - 1], s[i]) > 0
  {
    assert Cross(s[i - 2], s[i - 1], s[i]) > 0;
  }

  // ---------------------------------------------------------------------
  // The whole scan
  // ---------------------------------------------------------------------

  /** Fewer than three points are returned as they are, unsorted. Otherwise
      the anchor is found, the caller's points are reordered in place by
      polar angle around it, and the stack loop runs over them. */
  method GrahamScan(points: array<Point>) returns (hull: seq<Point>)
    modifies points
    ensures points.Length < 3 ==> hull == old(points[..]) && points[..] == old(points[..])
    ensures points.Length >= 3 ==>
      && multiset(points[..]) == old(multiset(points[..]))
      && ScanResult(points[..], hull)
      && (hull == points[..] <==> LeftTurns(points[..]))
      && multiset(hull) <= old(multiset(points[..]))
  {
    if points.Length < 3 {
      return points[..];
    }
    var anchor := FindAnchor(points[..]);
    SortByPolarAngle(points, anchor);
    hull := Scan(points[..]);
    SubsequenceMultiset(hull, points[..]);
  }

  // ---------------------------------------------------------------------
  // Properties of the result
  // ---------------------------------------------------------------------

  /** A subsequence uses each point at most as often as the sequence holds it:
      every hull entry is an input point and the hull is no longer than the
      input. */
  lemma {:induction false} SubsequenceMultiset(h: seq<Point>, s: seq<Point>)
    requires IsSubsequence(h, s)
    ensures multiset(h) <= multiset(s)
    decreases |h|
  {
    var idx :| IsEmbedding(idx, h, s);
    if h != [] {
      var n := |h| - 1;
      var m := idx[n];
      var h', s' := h[..n], s[..m];
      assert IsEmbedding(idx[..n], h', s');
      SubsequenceMultiset(h', s');
      assert h == h' + [s[m]];
      assert s == s' + [s[m]] + s[m + 1..];
    }
  }

  /** Every entry of a subsequence is an entry of the sequence. */
  lemma SubsequenceHas(h: seq<Point>, s: seq<Point>, k: int)
    requires IsSubsequence(h, s)
    requires 0 <= k < |h|
    ensures h[k] in s
  {
    var idx :| IsEmbedding(idx, h, s);
    assert h[k] == s[idx[k]];
  }

  /** In a chain of strict left turns no entry is repeated in any three
      consecutive positions; in particular, a hull of three or more entries
      never holds the same point twice in a row. */
  lemma LeftTurnsDistinct(h: seq<Point>, k: int)
    requires LeftTurns(h)
    requires 0 <= k < |h| - 2
    ensures h[k] != h[k + 1] && h[k + 1] != h[k + 2] && h[k] != h[k + 2]
  {
    assert Cross(h[k], h[k + 1], h[k + 2]) > 0;
  }

  /** When every three input points are collinear (all on one line, or all
      the same point), no left turn exists, so the hull is just the first
      and last sorted points. In particular, n copies of one point yield
      two copies of it. */
  lemma CollinearHull(s: seq<Point>, hull: seq<Point>)
    requires ScanResult(s, hull)
    requires forall a, b, c :: a in s && b in s && c in s ==> Cross(a, b, c) == 0
    ensures hull == [s[0], s[|s| - 1]]
  {
    if |hull| >= 3 {
      SubsequenceHas(hull, s, 0);
      SubsequenceHas(hull, s, 1);
      SubsequenceHas(hull, s, 2);
      assert false;
    }
  }
}
