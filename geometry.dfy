/** Lattice geometry of the rings a radius marker draws around a tile.
    Offsets are integer lattice points; the float spacing of the engine is factored out.
    - Square layouts: `x` and `z` count `markerSpacing`.
    - Hex layout: doubled-width coordinates; `x` counts half a column (`offs`), `z` counts a row (`yOffs`),
      so the immediate neighbours are (±2, 0) and (±1, ±1). */
module RingGeometry {

  /** The kind of tile layout the marker is drawn for (MapNav.TilesLayout). */
  datatype Layout = Hex | Square4 | Square8

  /** A local offset of one marker node from the marker's anchor, in lattice units. */
  datatype Point = Point(x: int, z: int)

  function Abs(a: int): nat { if a < 0 then -a else a }

  function Max(a: int, b: int): int { if a < b then b else a }

  function Min(a: int, b: int): int { if a < b then a else b }

  /** Number of tiles in ring distance 1; ring distance k holds Spokes * k tiles. */
  function Spokes(layout: Layout): nat {
    match layout
    case Hex => 6
    case Square4 => 4
    case Square8 => 8
  }

  function RingSize(layout: Layout, k: nat): nat { Spokes(layout) * k }

  /** The points a layout can address: on the doubled-width hex lattice x + z is even. */
  predicate OnLattice(layout: Layout, p: Point) {
    layout.Hex? ==> (p.x + p.z) % 2 == 0
  }

  /** Grid distance from the origin under the layout's adjacency:
      hex steps, Manhattan (4 neighbours) or Chebyshev (8 neighbours). */
  function Dist(layout: Layout, p: Point): nat {
    match layout
    case Hex => Abs(p.z) + Max(0, (Abs(p.x) - Abs(p.z)) / 2)
    case Square4 => Abs(p.x) + Abs(p.z)
    case Square8 => Max(Abs(p.x), Abs(p.z))
  }

  /** p is one of the tiles at exactly distance k. */
  predicate OnRing(layout: Layout, p: Point, k: nat) {
    OnLattice(layout, p) && Dist(layout, p) == k
  }

  predicate Distinct(s: seq<Point>) {
    forall a, b :: 0 <= a < b < |s| ==> s[a] != s[b]
  }

  lemma DistinctAppend(s: seq<Point>, q: Point)
    requires Distinct(s) && q !in s
    ensures Distinct(s + [q])
  {
  }

  /** ring lists every tile at distance k exactly once, and nothing else. */
  ghost predicate IsRing(layout: Layout, ring: seq<Point>, k: nat) {
    |ring| == RingSize(layout, k) &&
    Distinct(ring) &&
    forall p :: p in ring <==> OnRing(layout, p, k)
  }

  /** Group i of a marker is the ring at distance i + 1. */
  ghost predicate AreRings(layout: Layout, groups: seq<seq<Point>>) {
    forall i :: 0 <= i < |groups| ==> IsRing(layout, groups[i], i + 1)
  }

  /** p belongs to some group whose flag is on. */
  ghost predicate Shown(groups: seq<seq<Point>>, flags: seq<bool>, p: Point) {
    exists i :: 0 <= i < |groups| && i < |flags| && flags[i] && p in groups[i]
  }

  /** Total number of marker nodes over all groups. */
  function TotalNodes(groups: seq<seq<Point>>): nat {
    if groups == [] then 0 else TotalNodes(groups[..|groups| - 1]) + |groups[|groups| - 1]|
  }

  /** The points a set of flags makes visible are exactly the lattice tiles whose
      ring (distance - 1) exists and is flagged. */
  lemma ShownIffFlagged(layout: Layout, groups: seq<seq<Point>>, flags: seq<bool>, p: Point)
    requires AreRings(layout, groups)
    requires |flags| == |groups|
    ensures Shown(groups, flags, p) <==>
            OnLattice(layout, p) && 1 <= Dist(layout, p) <= |groups| && flags[Dist(layout, p) - 1]
  {
  }

  /** Flags 0 .. m-1 on: the visible tiles form the filled disk of radius min(m, ring count),
      origin excluded. */
  lemma ShownDisk(layout: Layout, groups: seq<seq<Point>>, flags: seq<bool>, m: int, p: Point)
    requires AreRings(layout, groups)
    requires |flags| == |groups|
    requires forall i :: 0 <= i < |flags| ==> flags[i] == (i < m)
    ensures Shown(groups, flags, p) <==>
            OnLattice(layout, p) && 1 <= Dist(layout, p) <= Min(m, |groups|)
  {
    ShownIffFlagged(layout, groups, flags, p);
  }

  /** Only flag t on: the visible tiles are exactly the ring at distance t + 1. */
  lemma ShownOutline(layout: Layout, groups: seq<seq<Point>>, flags: seq<bool>, t: int, p: Point)
    requires AreRings(layout, groups)
    requires |flags| == |groups|
    requires forall i :: 0 <= i < |flags| ==> flags[i] == (i == t)
    ensures Shown(groups, flags, p) <==> 0 <= t < |groups| && OnRing(layout, p, t + 1)
  {
    ShownIffFlagged(layout, groups, flags, p);
  }

  /** Dropping the outermost group keeps the remaining groups at their distances. */
  lemma AreRingsFront(layout: Layout, groups: seq<seq<Point>>)
    requires AreRings(layout, groups) && groups != []
    ensures AreRings(layout, groups[..|groups| - 1])
    ensures |groups[|groups| - 1]| == RingSize(layout, |groups|)
  {
  }

  /** A marker of R rings holds Spokes * R * (R + 1) / 2 nodes: the whole disk of radius R
      without its centre (3R(R+1) hexes, 2R(R+1) or 4R(R+1) squares). */
  lemma {:induction false} TotalNodeCount(layout: Layout, groups: seq<seq<Point>>)
    requires AreRings(layout, groups)
    ensures 2 * TotalNodes(groups) == Spokes(layout) * |groups| * (|groups| + 1)
  {
    if groups != [] {
      var n := |groups|;
      AreRingsFront(layout, groups);
      TotalNodeCount(layout, groups[..n - 1]);
      TriangleStep(Spokes(layout), n);
    }
  }

  lemma TriangleStep(c: int, n: int)
    ensures c * (n - 1) * n + 2 * (c * n) == c * n * (n + 1)
  {
  }
}
