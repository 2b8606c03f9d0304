/** Axis-aligned boxes in three dimensions (`util/src/point3.rs`). A box holds
    every point `p` with `start <= p < end` on each axis: the start corner is
    inclusive and the end corner exclusive. Coordinates are unbounded integers
    here; the source's `i32` can overflow in `volume`, which is not modelled. */
module Point3 {

  datatype Point3 = Point3(x: int, y: int, z: int)

  datatype Box = Box(start: Point3, end: Point3)

  /** How two boxes relate, as `get_overlap` reports it. */
  datatype Overlap =
    | Identical
    | FullyContainedByArg
    | FullyContainsArg
    | PartialOverlap(selfMidPoint: Point3, argMidPoint: Point3)
    | NoOverlap

  function Min(a: int, b: int): int { if a < b then a else b }
  function Max(a: int, b: int): int { if a > b then a else b }

  /** Every axis of the box runs forward (possibly with zero width). */
  predicate WellFormed(b: Box) {
    b.start.x <= b.end.x && b.start.y <= b.end.y && b.start.z <= b.end.z
  }

  // ---------------------------------------------------------------------------
  // Clamping

  /** `val` forced into the closed range `lo..=hi`, testing the lower bound first. */
  function Clamp(val: int, lo: int, hi: int): (r: int)
    ensures lo <= hi ==> lo <= r <= hi
    ensures lo <= val <= hi ==> r == val
    ensures r == val || r == lo || r == hi
  {
    if val < lo then lo else if val > hi then hi else val
  }

  /** A point moved onto the nearest point of the box, end corner included. */
  function ClampPoint(p: Point3, bound: Box): (r: Point3)
    ensures WellFormed(bound) ==> InClosed(bound, r)
    ensures InClosed(bound, p) ==> r == p
  {
    Point3(Clamp(p.x, bound.start.x, bound.end.x),
           Clamp(p.y, bound.start.y, bound.end.y),
           Clamp(p.z, bound.start.z, bound.end.z))
  }

  /** `p` lies between the corners, end corner included. */
  predicate InClosed(b: Box, p: Point3) {
    && b.start.x <= p.x <= b.end.x
    && b.start.y <= p.y <= b.end.y
    && b.start.z <= p.z <= b.end.z
  }

  /** Clamping twice is clamping once. */
  lemma ClampIdempotent(p: Point3, bound: Box)
    requires WellFormed(bound)
    ensures ClampPoint(ClampPoint(p, bound), bound) == ClampPoint(p, bound)
  {
  }

  // ---------------------------------------------------------------------------
  // Membership, intersection, union

  /** Half-open membership on every axis. */
  predicate Contains(b: Box, p: Point3) {
    && b.start.x <= p.x < b.end.x
    && b.start.y <= p.y < b.end.y
    && b.start.z <= p.z < b.end.z
  }

  /** The common part of two boxes. Where they do not meet, the end is pulled
      up to the start, so the result always has a forward extent. */
  function Intersect(a: Box, b: Box): (r: Box)
    ensures WellFormed(r)
    ensures r.start == Point3(Max(a.start.x, b.start.x), Max(a.start.y, b.start.y), Max(a.start.z, b.start.z))
  {
    var start := Point3(Max(a.start.x, b.start.x), Max(a.start.y, b.start.y), Max(a.start.z, b.start.z));
    var end := Point3(Max(Min(a.end.x, b.end.x), start.x),
                      Max(Min(a.end.y, b.end.y), start.y),
                      Max(Min(a.end.z, b.end.z), start.z));
    Box(start, end)
  }

  /** A point lies in the intersection exactly when it lies in both boxes,
      whatever the boxes are. */
  lemma IntersectContains(a: Box, b: Box, p: Point3)
    ensures Contains(Intersect(a, b), p) <==> Contains(a, p) && Contains(b, p)
  {
  }

  /** The smallest box spanning the corners of both boxes. */
  function Union(a: Box, b: Box): (r: Box)
    ensures r.start.x <= Min(a.start.x, b.start.x) && r.start.y <= Min(a.start.y, b.start.y)
    ensures r.start.z <= Min(a.start.z, b.start.z)
    ensures r.end.x >= Max(a.end.x, b.end.x) && r.end.y >= Max(a.end.y, b.end.y)
    ensures r.end.z >= Max(a.end.z, b.end.z)
  {
    var lo := (u: int, v: int, w: int, t: int) => Min(Min(u, v), Min(w, t));
    var hi := (u: int, v: int, w: int, t: int) => Max(Max(u, v), Max(w, t));
    Box(Point3(lo(a.start.x, a.end.x, b.start.x, b.end.x),
               lo(a.start.y, a.end.y, b.start.y, b.end.y),
               lo(a.start.z, a.end.z, b.start.z, b.end.z)),
        Point3(hi(a.start.x, a.end.x, b.start.x, b.end.x),
               hi(a.start.y, a.end.y, b.start.y, b.end.y),
               hi(a.start.z, a.end.z, b.start.z, b.end.z)))
  }

  /** For well-formed boxes, the union spans from the smaller start to the
      larger end on each axis, so it holds every point of either box. */
  lemma UnionContains(a: Box, b: Box, p: Point3)
    requires WellFormed(a) && WellFormed(b)
    ensures Union(a, b) == Box(
      Point3(Min(a.start.x, b.start.x), Min(a.start.y, b.start.y), Min(a.start.z, b.start.z)),
      Point3(Max(a.end.x, b.end.x), Max(a.end.y, b.end.y), Max(a.end.z, b.end.z)))
    ensures Contains(a, p) || Contains(b, p) ==> Contains(Union(a, b), p)
  {
  }

  /** The union of two well-formed boxes equals the second exactly when the
      first lies inside it. */
  lemma UnionIsArg(a: Box, b: Box)
    requires WellFormed(a) && WellFormed(b)
    ensures Union(a, b) == b <==> InClosed(b, a.start) && InClosed(b, a.end)
  {
    UnionContains(a, b, a.start);
  }

  // ---------------------------------------------------------------------------
  // Volume and emptiness

  /** The product of the three extents. */
  function Volume(b: Box): (r: int)
    ensures WellFormed(b) ==> r >= 0
  {
    var dx := b.end.x - b.start.x;
    var dy := b.end.y - b.start.y;
    var dz := b.end.z - b.start.z;
    NonNegativeProduct(dx, dy, dz);
    dx * dy * dz
  }

  lemma NonNegativeProduct(a: int, b: int, c: int)
    ensures a >= 0 && b >= 0 && c >= 0 ==> a * b * c >= 0
  {
    if a >= 0 && b >= 0 && c >= 0 {
      assert a * b >= 0;
    }
  }

  /** A box is empty when it holds no volume. */
  predicate IsEmpty(b: Box) {
    Volume(b) == 0
  }

  /** A well-formed box is empty exactly when it holds no point. */
  lemma IsEmptyMeansNoPoint(b: Box)
    requires WellFormed(b)
    ensures IsEmpty(b) <==> forall p :: !Contains(b, p)
  {
    var dx := b.end.x - b.start.x;
    var dy := b.end.y - b.start.y;
    var dz := b.end.z - b.start.z;
    if IsEmpty(b) {
      ZeroProduct(dx, dy, dz);
    } else {
      assert dx != 0 && dy != 0 && dz != 0;
      assert Contains(b, b.start);
    }
  }

  lemma ZeroProduct(a: nat, b: nat, c: nat)
    requires a * b * c == 0
    ensures a == 0 || b == 0 || c == 0
  {
    if a != 0 && b != 0 {
      assert a * b > 0;
    }
  }

  /** Two boxes share no point exactly when their intersection is empty. */
  lemma IntersectEmptyIffDisjoint(a: Box, b: Box)
    ensures IsEmpty(Intersect(a, b)) <==> forall p :: !(Contains(a, p) && Contains(b, p))
  {
    IsEmptyMeansNoPoint(Intersect(a, b));
    forall p
      ensures Contains(Intersect(a, b), p) <==> Contains(a, p) && Contains(b, p)
    {
      IntersectContains(a, b, p);
    }
  }

  /** The emptiness test as `util/src/point3.rs` writes it: the corners coincide. */
  predicate IsEmptyAsWritten(b: Box) {
    b.start == b.end
  }

  /** A box whose corners coincide has no volume. */
  lemma CoincidingCornersNoVolume(b: Box)
    ensures IsEmptyAsWritten(b) ==> IsEmpty(b)
  {
  }

  /** Two unit cubes that touch along a face: their intersection has no point
      but distinct corners, so the test as written calls it non-empty, and
      the classification as written reports a partial overlap where the
      corrected one reports none. */
  lemma IsEmptyAsWrittenMissesFlatBoxes()
    ensures var touching := Intersect(Box(Point3(0, 0, 0), Point3(1, 1, 1)), Box(Point3(1, 0, 0), Point3(2, 1, 1)));
      && !IsEmptyAsWritten(touching)
      && IsEmpty(touching)
      && forall p :: !Contains(touching, p)
    ensures GetOverlapAsWritten(Box(Point3(0, 0, 0), Point3(1, 1, 1)), Box(Point3(1, 0, 0), Point3(2, 1, 1))).PartialOverlap?
    ensures GetOverlap(Box(Point3(0, 0, 0), Point3(1, 1, 1)), Box(Point3(1, 0, 0), Point3(2, 1, 1))) == NoOverlap
  {
    var a, b := Box(Point3(0, 0, 0), Point3(1, 1, 1)), Box(Point3(1, 0, 0), Point3(2, 1, 1));
    var touching := Intersect(a, b);
    assert touching == Box(Point3(1, 0, 0), Point3(1, 1, 1));
    IsEmptyMeansNoPoint(touching);
    assert Union(a, b) == Box(Point3(0, 0, 0), Point3(2, 1, 1));
  }

  // ---------------------------------------------------------------------------
  // Corners and octants

  /** The coordinate `i` selects among `[first, second]`. */
  function Pick(i: nat, first: int, second: int): int {
    if i % 2 == 0 then first else second
  }

  /** The eight corners, x varying fastest, then y, then z. */
  function Corners(b: Box): (r: seq<Point3>)
    ensures r == [
      Point3(b.start.x, b.start.y, b.start.z), Point3(b.end.x, b.start.y, b.start.z),
      Point3(b.start.x, b.end.y, b.start.z), Point3(b.end.x, b.end.y, b.start.z),
      Point3(b.start.x, b.start.y, b.end.z), Point3(b.end.x, b.start.y, b.end.z),
      Point3(b.start.x, b.end.y, b.end.z), Point3(b.end.x, b.end.y, b.end.z)]
  {
    seq(8, i requires 0 <= i < 8 =>
      Point3(Pick(i, b.start.x, b.end.x), Pick(i / 2, b.start.y, b.end.y), Pick(i / 4, b.start.z, b.end.z)))
  }

  /** The window `k` (0 or 1) of `[start, mid, end]`. */
  function Window(k: nat, start: int, mid: int, end: int): (int, int) {
    if k % 2 == 0 then (start, mid) else (mid, end)
  }

  /** The eight boxes `mid` cuts the box into, x varying fastest, then y, then z. */
  function Octants(b: Box, mid: Point3): (r: seq<Box>)
    ensures |r| == 8
    ensures forall i :: 0 <= i < 8 ==> r[i] == Octant(b, mid, i % 2, (i / 2) % 2, i / 4)
  {
    seq(8, i requires 0 <= i < 8 =>
      var (x0, x1) := Window(i, b.start.x, mid.x, b.end.x);
      var (y0, y1) := Window(i / 2, b.start.y, mid.y, b.end.y);
      var (z0, z1) := Window(i / 4, b.start.z, mid.z, b.end.z);
      Box(Point3(x0, y0, z0), Point3(x1, y1, z1)))
  }

  /** The octant on side `sx`, `sy`, `sz` (0 below `mid`, 1 above) of each axis. */
  function Octant(b: Box, mid: Point3, sx: nat, sy: nat, sz: nat): Box
    requires sx < 2 && sy < 2 && sz < 2
  {
    Box(Point3(if sx == 0 then b.start.x else mid.x,
               if sy == 0 then b.start.y else mid.y,
               if sz == 0 then b.start.z else mid.z),
        Point3(if sx == 0 then mid.x else b.end.x,
               if sy == 0 then mid.y else b.end.y,
               if sz == 0 then mid.z else b.end.z))
  }

  /** `mid` lies between the corners of the box. */
  predicate Splits(b: Box, mid: Point3) {
    && b.start.x <= mid.x <= b.end.x
    && b.start.y <= mid.y <= b.end.y
    && b.start.z <= mid.z <= b.end.z
  }

  /** The side of `mid` a coordinate falls on. */
  function Side(v: int, mid: int): nat {
    if v < mid then 0 else 1
  }

  /** With `mid` inside the box, every point of the box lies in exactly one
      octant, namely the one on its side of `mid` on each axis, and no point
      outside the box lies in any octant. */
  lemma OctantsPartition(b: Box, mid: Point3, p: Point3)
    requires Splits(b, mid)
    ensures Contains(b, p) ==> Contains(Octants(b, mid)[Side(p.x, mid.x) + 2 * Side(p.y, mid.y) + 4 * Side(p.z, mid.z)], p)
    ensures forall i :: 0 <= i < 8 && Contains(Octants(b, mid)[i], p) ==>
      Contains(b, p) && i == Side(p.x, mid.x) + 2 * Side(p.y, mid.y) + 4 * Side(p.z, mid.z)
  {
    var r := Octants(b, mid);
    forall i | 0 <= i < 8 && Contains(r[i], p)
      ensures Contains(b, p) && i == Side(p.x, mid.x) + 2 * Side(p.y, mid.y) + 4 * Side(p.z, mid.z)
    {
      assert r[i] == Octant(b, mid, i % 2, (i / 2) % 2, i / 4);
    }
    var k := Side(p.x, mid.x) + 2 * Side(p.y, mid.y) + 4 * Side(p.z, mid.z);
    assert r[k] == Octant(b, mid, k % 2, (k / 2) % 2, k / 4);
  }

  /** With `mid` inside the box, the octants' volumes add up to the box's. */
  lemma OctantsVolume(b: Box, mid: Point3)
    requires Splits(b, mid)
    ensures var r := Octants(b, mid);
      Volume(r[0]) + Volume(r[1]) + Volume(r[2]) + Volume(r[3])
      + Volume(r[4]) + Volume(r[5]) + Volume(r[6]) + Volume(r[7]) == Volume(b)
  {
    var r := Octants(b, mid);
    var a0, a1 := mid.x - b.start.x, b.end.x - mid.x;
    var b0, b1 := mid.y - b.start.y, b.end.y - mid.y;
    var c0, c1 := mid.z - b.start.z, b.end.z - mid.z;
    assert r[0] == Octant(b, mid, 0, 0, 0) && r[1] == Octant(b, mid, 1, 0, 0);
    assert r[2] == Octant(b, mid, 0, 1, 0) && r[3] == Octant(b, mid, 1, 1, 0);
    assert r[4] == Octant(b, mid, 0, 0, 1) && r[5] == Octant(b, mid, 1, 0, 1);
    assert r[6] == Octant(b, mid, 0, 1, 1) && r[7] == Octant(b, mid, 1, 1, 1);
    ProductExpands(a0, a1, b0, b1, c0, c1);
  }

  lemma ProductExpands(a0: int, a1: int, b0: int, b1: int, c0: int, c1: int)
    ensures a0 * b0 * c0 + a1 * b0 * c0 + a0 * b1 * c0 + a1 * b1 * c0
          + a0 * b0 * c1 + a1 * b0 * c1 + a0 * b1 * c1 + a1 * b1 * c1
         == (a0 + a1) * (b0 + b1) * (c0 + c1)
  {
    var bs := b0 + b1;
    assert (a0 + a1) * bs == a0 * b0 + a0 * b1 + a1 * b0 + a1 * b1;
    var ab := (a0 + a1) * bs;
    assert ab * (c0 + c1) == ab * c0 + ab * c1;
  }

  // ---------------------------------------------------------------------------
  // Overlap classification

  /** How well `point` centres within the box: the sum over the axes of the
      distance to the nearer face. */
  function MidPointScore(b: Box, point: Point3): int {
    Min(point.x - b.start.x, b.end.x - point.x)
    + Min(point.y - b.start.y, b.end.y - point.y)
    + Min(point.z - b.start.z, b.end.z - point.z)
  }

  /** The position of the first of `points` whose score is highest (the
      source groups the points by score, keeping their order, and takes the
      first of the top group). */
  function BestIndex(b: Box, points: seq<Point3>): (k: nat)
    requires |points| >= 1
    ensures k < |points|
    ensures forall j :: 0 <= j < |points| ==> MidPointScore(b, points[j]) <= MidPointScore(b, points[k])
    ensures forall j :: 0 <= j < k ==> MidPointScore(b, points[j]) < MidPointScore(b, points[k])
    decreases |points|
  {
    if |points| == 1 then 0
    else
      var rest := 1 + BestIndex(b, points[1..]);
      if MidPointScore(b, points[0]) >= MidPointScore(b, points[rest]) then 0 else rest
  }

  /** The corner of `options` that sits most centrally in `b`. */
  function BestMidPoint(b: Box, options: Box): (r: Point3)
    ensures r in Corners(options)
    ensures forall q :: q in Corners(options) ==> MidPointScore(b, q) <= MidPointScore(b, r)
  {
    Corners(options)[BestIndex(b, Corners(options))]
  }

  /** Identical boxes first; then containment either way, read off the union;
      then a partial overlap when the intersection has volume, with the
      intersection corner each box would best split at; otherwise none. */
  function GetOverlap(a: Box, b: Box): (r: Overlap)
    ensures r == Identical <==> a == b
    ensures r.PartialOverlap? ==> r.selfMidPoint in Corners(Intersect(a, b)) && r.argMidPoint in Corners(Intersect(a, b))
  {
    var union := Union(a, b);
    var intersection := Intersect(a, b);
    if a == b then Identical
    else if union == b then FullyContainedByArg
    else if union == a then FullyContainsArg
    else if !IsEmpty(intersection) then
      PartialOverlap(BestMidPoint(a, intersection), BestMidPoint(b, intersection))
    else NoOverlap
  }

  /** `get_overlap` with the emptiness test as written. It differs from
      `GetOverlap` only where the intersection is flat: there it reports a
      partial overlap and the corrected classification reports none. */
  function GetOverlapAsWritten(a: Box, b: Box): (r: Overlap)
    ensures r == Identical <==> a == b
    ensures r != GetOverlap(a, b) ==> r.PartialOverlap? && GetOverlap(a, b) == NoOverlap
  {
    var union := Union(a, b);
    var intersection := Intersect(a, b);
    CoincidingCornersNoVolume(intersection);
    if a == b then Identical
    else if union == b then FullyContainedByArg
    else if union == a then FullyContainsArg
    else if !IsEmptyAsWritten(intersection) then
      PartialOverlap(BestMidPoint(a, intersection), BestMidPoint(b, intersection))
    else NoOverlap
  }

  /** What the classification means for the points of two well-formed boxes:
      containment either way holds every point of the inner box in the outer
      one, a partial overlap has a common point, and no overlap has none. */
  lemma GetOverlapMeaning(a: Box, b: Box, p: Point3)
    requires WellFormed(a) && WellFormed(b)
    ensures GetOverlap(a, b) == FullyContainedByArg ==> (Contains(a, p) ==> Contains(b, p))
    ensures GetOverlap(a, b) == FullyContainsArg ==> (Contains(b, p) ==> Contains(a, p))
    ensures GetOverlap(a, b).PartialOverlap? ==> exists q :: Contains(a, q) && Contains(b, q)
    ensures GetOverlap(a, b) == NoOverlap ==> !(Contains(a, p) && Contains(b, p))
  {
    UnionContains(a, b, p);
    IntersectContains(a, b, p);
    var i := Intersect(a, b);
    IsEmptyMeansNoPoint(i);
    if GetOverlap(a, b).PartialOverlap? {
      assert Contains(i, i.start);
      IntersectContains(a, b, i.start);
    }
  }

  /** A box compared with itself is Identical, which `get_overlap` tests first. */
  lemma SelfOverlapIsIdentical(a: Box)
    ensures GetOverlap(a, a) == Identical
  {
  }
}
