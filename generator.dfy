/** The ring generators of the radius marker: one per tile layout, each laying down the
    marker nodes of ring i (the tiles at distance i + 1) in the order the engine code does. */
module RingGenerator {
  import opened RingGeometry

  // ---------------------------------------------------------------------------------------------
  // Hex

  /** Right side: the point (2k, 0) and the diagonal steps (2k - m, ±m) for m = 1 .. j. */
  predicate HexRightArc(p: Point, k: int, j: int) {
    p.x == 2 * k - Abs(p.z) && Abs(p.z) <= j
  }

  /** Left side: the mirror image of the right side. */
  predicate HexLeftArc(p: Point, k: int, j: int) {
    p.x == Abs(p.z) - 2 * k && Abs(p.z) <= j
  }

  /** The first j interior points of the top (row == k) or bottom (row == -k) edge:
      x = 2t - (k - 2) for t < j. */
  predicate HexEdge(p: Point, row: int, k: int, j: int) {
    p.z == row && 2 - k <= p.x < 2 * j + 2 - k && (p.x + k) % 2 == 0
  }

  /** The four parts the generator lays down make up exactly the hex ring of radius k. */
  lemma HexRingParts(p: Point, k: int)
    requires k >= 1
    ensures OnRing(Hex, p, k) <==>
            HexRightArc(p, k, k) || HexLeftArc(p, k, k) || HexEdge(p, k, k, k - 1) || HexEdge(p, -k, k, k - 1)
  {
  }

  /** Ring i of a hex marker (body of the `for i` loop of CreateHexNodes). */
  method CreateHexRing(i: nat) returns (ring: seq<Point>)
    ensures IsRing(Hex, ring, i + 1)
  {
    var k: int := i + 1;
    // right, then up and down along the right side
    ring := [Point(2 * k, 0)];
    for j := 0 to i + 1
      invariant |ring| == 1 + 2 * j
      invariant Distinct(ring)
      invariant forall p :: p in ring <==> HexRightArc(p, k, j)
    {
      DistinctAppend(ring, Point(2 * k - (j + 1), j + 1));
      ring := ring + [Point(2 * k - (j + 1), j + 1)];
      DistinctAppend(ring, Point(2 * k - (j + 1), -(j + 1)));
      ring := ring + [Point(2 * k - (j + 1), -(j + 1))];
    }
    // left, then up and down along the left side
    DistinctAppend(ring, Point(-2 * k, 0));
    ring := ring + [Point(-2 * k, 0)];
    for j := 0 to i + 1
      invariant |ring| == 2 + 2 * k + 2 * j
      invariant Distinct(ring)
      invariant forall p :: p in ring <==> HexRightArc(p, k, k) || HexLeftArc(p, k, j)
    {
      DistinctAppend(ring, Point(-2 * k + (j + 1), j + 1));
      ring := ring + [Point(-2 * k + (j + 1), j + 1)];
      DistinctAppend(ring, Point(-2 * k + (j + 1), -(j + 1)));
      ring := ring + [Point(-2 * k + (j + 1), -(j + 1))];
    }
    // interior of the top edge
    for j := 0 to i
      invariant |ring| == 2 + 4 * k + j
      invariant Distinct(ring)
      invariant forall p :: p in ring <==> HexRightArc(p, k, k) || HexLeftArc(p, k, k) || HexEdge(p, k, k, j)
    {
      DistinctAppend(ring, Point(2 * j - (i - 1), k));
      ring := ring + [Point(2 * j - (i - 1), k)];
    }
    // interior of the bottom edge
    for j := 0 to i
      invariant |ring| == 2 + 4 * k + i + j
      invariant Distinct(ring)
      invariant forall p :: p in ring <==>
        HexRightArc(p, k, k) || HexLeftArc(p, k, k) || HexEdge(p, k, k, i) || HexEdge(p, -k, k, j)
    {
      DistinctAppend(ring, Point(2 * j - (i - 1), -k));
      ring := ring + [Point(2 * j - (i - 1), -k)];
    }
    forall p ensures p in ring <==> OnRing(Hex, p, k) {
      HexRingParts(p, k);
    }
  }

  // ---------------------------------------------------------------------------------------------
  // Square, 4 neighbours

  /** Upper half of the diamond: z = k - |x| for |x| <= j. */
  predicate DiamondUpper(p: Point, k: int, j: int) {
    p.z == k - Abs(p.x) && Abs(p.x) <= j
  }

  /** Lower half of the diamond: z = |x| - k for |x| <= j. */
  predicate DiamondLower(p: Point, k: int, j: int) {
    p.z == Abs(p.x) - k && Abs(p.x) <= j
  }

  lemma Square4RingParts(p: Point, k: int)
    requires k >= 1
    ensures OnRing(Square4, p, k) <==>
            DiamondUpper(p, k, k - 1) || DiamondLower(p, k, k - 1) || p == Point(k, 0) || p == Point(-k, 0)
  {
  }

  /** Ring i of a 4-neighbour square marker (body of the `for i` loop of CreateSquar4Nodes). */
  method CreateSquare4Ring(i: nat) returns (ring: seq<Point>)
    ensures IsRing(Square4, ring, i + 1)
  {
    var k: int := i + 1;
    // up, then towards the right and the left
    ring := [Point(0, k)];
    for j := 0 to i
      invariant |ring| == 1 + 2 * j
      invariant Distinct(ring)
      invariant forall p :: p in ring <==> DiamondUpper(p, k, j)
    {
      DistinctAppend(ring, Point(j + 1, i - j));
      ring := ring + [Point(j + 1, i - j)];
      DistinctAppend(ring, Point(-(j + 1), i - j));
      ring := ring + [Point(-(j + 1), i - j)];
    }
    // down, then towards the right and the left
    DistinctAppend(ring, Point(0, -k));
    ring := ring + [Point(0, -k)];
    for j := 0 to i
      invariant |ring| == 2 + 2 * i + 2 * j
      invariant Distinct(ring)
      invariant forall p :: p in ring <==> DiamondUpper(p, k, i) || DiamondLower(p, k, j)
    {
      DistinctAppend(ring, Point(j + 1, j - i));
      ring := ring + [Point(j + 1, j - i)];
      DistinctAppend(ring, Point(-(j + 1), j - i));
      ring := ring + [Point(-(j + 1), j - i)];
    }
    // right and left
    DistinctAppend(ring, Point(k, 0));
    ring := ring + [Point(k, 0)];
    DistinctAppend(ring, Point(-k, 0));
    ring := ring + [Point(-k, 0)];
    forall p ensures p in ring <==> OnRing(Square4, p, k) {
      Square4RingParts(p, k);
    }
  }

  // ---------------------------------------------------------------------------------------------
  // Square, 8 neighbours

  /** The first 2j + 1 points of a horizontal edge: z = row, |x| <= j. */
  predicate SquareRow(p: Point, row: int, j: int) {
    p.z == row && Abs(p.x) <= j
  }

  /** The first 2j + 1 points of a vertical edge: x = col, |z| <= j. */
  predicate SquareColumn(p: Point, col: int, j: int) {
    p.x == col && Abs(p.z) <= j
  }

  lemma Square8RingParts(p: Point, k: int)
    requires k >= 1
    ensures OnRing(Square8, p, k) <==>
            SquareRow(p, k, k) || SquareRow(p, -k, k) || SquareColumn(p, k, k - 1) || SquareColumn(p, -k, k - 1)
  {
  }

  /** Ring i of an 8-neighbour square marker (body of the `for i` loop of CreateSquar8Nodes). */
  method CreateSquare8Ring(i: nat) returns (ring: seq<Point>)
    ensures IsRing(Square8, ring, i + 1)
  {
    var k: int := i + 1;
    // top edge
    ring := [Point(0, k)];
    for j := 0 to i + 1
      invariant |ring| == 1 + 2 * j
      invariant Distinct(ring)
      invariant forall p :: p in ring <==> SquareRow(p, k, j)
    {
      DistinctAppend(ring, Point(j + 1, k));
      ring := ring + [Point(j + 1, k)];
      DistinctAppend(ring, Point(-(j + 1), k));
      ring := ring + [Point(-(j + 1), k)];
    }
    // bottom edge
    DistinctAppend(ring, Point(0, -k));
    ring := ring + [Point(0, -k)];
    for j := 0 to i + 1
      invariant |ring| == 2 + 2 * k + 2 * j
      invariant Distinct(ring)
      invariant forall p :: p in ring <==> SquareRow(p, k, k) || SquareRow(p, -k, j)
    {
      DistinctAppend(ring, Point(j + 1, -k));
      ring := ring + [Point(j + 1, -k)];
      DistinctAppend(ring, Point(-(j + 1), -k));
      ring := ring + [Point(-(j + 1), -k)];
    }
    // right edge, corners excluded
    DistinctAppend(ring, Point(k, 0));
    ring := ring + [Point(k, 0)];
    for j := 0 to i
      invariant |ring| == 3 + 4 * k + 2 * j
      invariant Distinct(ring)
      invariant forall p :: p in ring <==> SquareRow(p, k, k) || SquareRow(p, -k, k) || SquareColumn(p, k, j)
    {
      DistinctAppend(ring, Point(k, j + 1));
      ring := ring + [Point(k, j + 1)];
      DistinctAppend(ring, Point(k, -(j + 1)));
      ring := ring + [Point(k, -(j + 1))];
    }
    // left edge, corners excluded
    DistinctAppend(ring, Point(-k, 0));
    ring := ring + [Point(-k, 0)];
    for j := 0 to i
      invariant |ring| == 4 + 4 * k + 2 * i + 2 * j
      invariant Distinct(ring)
      invariant forall p :: p in ring <==>
        SquareRow(p, k, k) || SquareRow(p, -k, k) || SquareColumn(p, k, i) || SquareColumn(p, -k, j)
    {
      DistinctAppend(ring, Point(-k, j + 1));
      ring := ring + [Point(-k, j + 1)];
      DistinctAppend(ring, Point(-k, -(j + 1)));
      ring := ring + [Point(-k, -(j + 1))];
    }
    forall p ensures p in ring <==> OnRing(Square8, p, k) {
      Square8RingParts(p, k);
    }
  }

  // ---------------------------------------------------------------------------------------------
  // Whole markers

  /** CreateHexNodes: markerRadius groups, group i the hex ring at distance i + 1. */
  method CreateHexNodes(markerRadius: nat) returns (markerNodes: seq<seq<Point>>)
    ensures |markerNodes| == markerRadius
    ensures AreRings(Hex, markerNodes)
  {
    markerNodes := [];
    for i := 0 to markerRadius
      invariant |markerNodes| == i
      invariant AreRings(Hex, markerNodes)
    {
      var ring := CreateHexRing(i);
      markerNodes := markerNodes + [ring];
    }
  }

  /** CreateSquar4Nodes: markerRadius groups, group i the diamond at Manhattan distance i + 1. */
  method CreateSquare4Nodes(markerRadius: nat) returns (markerNodes: seq<seq<Point>>)
    ensures |markerNodes| == markerRadius
    ensures AreRings(Square4, markerNodes)
  {
    markerNodes := [];
    for i := 0 to markerRadius
      invariant |markerNodes| == i
      invariant AreRings(Square4, markerNodes)
    {
      var ring := CreateSquare4Ring(i);
      markerNodes := markerNodes + [ring];
    }
  }

  /** CreateSquar8Nodes: markerRadius groups, group i the square outline at Chebyshev distance i + 1. */
  method CreateSquare8Nodes(markerRadius: nat) returns (markerNodes: seq<seq<Point>>)
    ensures |markerNodes| == markerRadius
    ensures AreRings(Square8, markerNodes)
  {
    markerNodes := [];
    for i := 0 to markerRadius
      invariant |markerNodes| == i
      invariant AreRings(Square8, markerNodes)
    {
      var ring := CreateSquare8Ring(i);
      markerNodes := markerNodes + [ring];
    }
  }
}
