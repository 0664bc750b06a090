/**
 * Axis-aligned boxes and the connector zones of a block
 * (experiments/snapBlocks/index.js, class Box and StandardBlock's zone functions).
 *
 * JavaScript numbers are modelled as reals: the zones use half a block's height,
 * and nothing here depends on floating-point rounding.
 */
module Geometry {

  /** A rectangle given by two corners. Nothing forces (x1, y1) to be the smaller corner. */
  datatype Box = Box(x1: real, y1: real, x2: real, y2: real)

  /** The corners are in the order every box built by the workspace has them. */
  predicate WellOrdered(b: Box) {
    b.x1 <= b.x2 && b.y1 <= b.y2
  }

  /** The point (px, py) lies in b, edges included. */
  predicate HasPoint(b: Box, px: real, py: real) {
    b.x1 <= px <= b.x2 && b.y1 <= py <= b.y2
  }

  /** Every point of inner lies in outer. */
  predicate Contains(outer: Box, inner: Box) {
    outer.x1 <= inner.x1 && inner.x2 <= outer.x2 && outer.y1 <= inner.y1 && inner.y2 <= outer.y2
  }

  /** `lineOverlap`: the intervals [a1, a2] and [b1, b2] are not strictly apart. */
  predicate LineOverlap(a1: real, a2: real, b1: real, b2: real) {
    !(a2 < b1 || a1 > b2)
  }

  /** `Box.overlaps`: the boxes overlap on both axes, each as a closed interval. */
  predicate Overlaps(a: Box, b: Box) {
    LineOverlap(a.x1, a.x2, b.x1, b.x2) && LineOverlap(a.y1, a.y2, b.y1, b.y2)
  }

  /** `Box.combine`: the first corner takes the smaller coordinates, the second the larger. */
  function Combine(a: Box, b: Box): (r: Box)
    ensures r.x1 <= a.x1 && r.x1 <= b.x1
    ensures r.y1 <= a.y1 && r.y1 <= b.y1
    ensures r.x2 >= a.x2 && r.x2 >= b.x2
    ensures r.y2 >= a.y2 && r.y2 >= b.y2
  {
    Box(Min(a.x1, b.x1), Min(a.y1, b.y1), Max(a.x2, b.x2), Max(a.y2, b.y2))
  }

  function Min(a: real, b: real): real { if a < b then a else b }
  function Max(a: real, b: real): real { if a < b then b else a }

  /** `Box.translate`: both corners shifted by (dx, dy). */
  function Translate(b: Box, dx: real, dy: real): (r: Box)
    ensures r.x2 - r.x1 == b.x2 - b.x1 && r.y2 - r.y1 == b.y2 - b.y1
    ensures forall px, py :: HasPoint(b, px, py) <==> HasPoint(r, px + dx, py + dy)
  {
    Box(b.x1 + dx, b.y1 + dy, b.x2 + dx, b.y2 + dy)
  }

  /** Overlap does not depend on the order of the two boxes. */
  lemma OverlapsSymmetric(a: Box, b: Box)
    ensures Overlaps(a, b) == Overlaps(b, a)
  {
  }

  /**
   * For well-ordered boxes, `Overlaps` holds exactly when the boxes share a point,
   * edges included: two boxes that only touch along an edge or at a corner overlap.
   */
  lemma OverlapsIffSharedPoint(a: Box, b: Box)
    requires WellOrdered(a) && WellOrdered(b)
    ensures Overlaps(a, b) <==> exists px, py :: HasPoint(a, px, py) && HasPoint(b, px, py)
  {
    if Overlaps(a, b) {
      var px, py := Max(a.x1, b.x1), Max(a.y1, b.y1);
      assert HasPoint(a, px, py) && HasPoint(b, px, py);
    }
  }

  /** Boxes that meet only at a corner overlap. */
  lemma CornerTouchOverlaps(a: Box, b: Box)
    requires WellOrdered(a) && WellOrdered(b)
    requires a.x2 == b.x1 && a.y2 == b.y1
    ensures Overlaps(a, b)
  {
  }

  /**
   * Each coordinate of `combine` is taken from one of the two boxes, so with the bounds of
   * its contract the first corner is the componentwise minimum and the second the maximum.
   */
  lemma CombinePicksCorners(a: Box, b: Box)
    ensures var r := Combine(a, b);
      (r.x1 == a.x1 || r.x1 == b.x1) && (r.y1 == a.y1 || r.y1 == b.y1)
      && (r.x2 == a.x2 || r.x2 == b.x2) && (r.y2 == a.y2 || r.y2 == b.y2)
  {
  }

  /** `combine` is commutative. */
  lemma CombineCommutes(a: Box, b: Box)
    ensures Combine(a, b) == Combine(b, a)
  {
  }

  /** `combine` is associative, so folding it over a stack does not depend on grouping. */
  lemma CombineAssociates(a: Box, b: Box, c: Box)
    ensures Combine(Combine(a, b), c) == Combine(a, Combine(b, c))
  {
  }

  /**
   * For well-ordered boxes, `combine` gives the smallest box containing both:
   * it contains each of them, and any box containing both contains it.
   */
  lemma CombineIsSmallestCover(a: Box, b: Box, c: Box)
    requires WellOrdered(a) && WellOrdered(b)
    ensures WellOrdered(Combine(a, b))
    ensures Contains(Combine(a, b), a) && Contains(Combine(a, b), b)
    ensures Contains(c, a) && Contains(c, b) ==> Contains(c, Combine(a, b))
  {
  }

  /** Moving both boxes by the same amount does not change whether they overlap. */
  lemma TranslateKeepsOverlap(a: Box, b: Box, dx: real, dy: real)
    ensures Overlaps(Translate(a, dx, dy), Translate(b, dx, dy)) == Overlaps(a, b)
  {
  }

  /** Translating by (dx, dy) and then by (-dx, -dy) gives the box back. */
  lemma TranslateRoundTrip(b: Box, dx: real, dy: real)
    ensures Translate(Translate(b, dx, dy), -dx, -dy) == b
  {
  }

  // Connector zones of a block whose element is drawn at (x, y) with height h.
  // The horizontal reach (10 to the left, 70 to the right of x) and the vertical
  // margin (10) are the same for the top and the bottom zone.

  /** `connectorZoneTop`: from 10 above the block down to its middle. */
  function ZoneTop(x: real, y: real, h: real): Box {
    Box(x - 10.0, y - 10.0, x + 70.0, y + h / 2.0)
  }

  /** `connectorZoneBottom`: from the block's middle to 10 below it. */
  function ZoneBottom(x: real, y: real, h: real): Box {
    Box(x - 10.0, y + h / 2.0, x + 70.0, y + h + 10.0)
  }

  /** `connectorZone`: the combine of the two zones. */
  function Zone(x: real, y: real, h: real): Box {
    Combine(ZoneTop(x, y, h), ZoneBottom(x, y, h))
  }

  /**
   * The two zones of a block share their horizontal extent and meet at its middle line,
   * and for any height above -20 each is well ordered.
   */
  lemma ZonesMeet(x: real, y: real, h: real)
    ensures ZoneTop(x, y, h).x1 == ZoneBottom(x, y, h).x1 == x - 10.0
    ensures ZoneTop(x, y, h).x2 == ZoneBottom(x, y, h).x2 == x + 70.0
    ensures ZoneTop(x, y, h).y2 == ZoneBottom(x, y, h).y1 == y + h / 2.0
    ensures h >= -20.0 ==> WellOrdered(ZoneTop(x, y, h)) && WellOrdered(ZoneBottom(x, y, h))
  {
  }

  /** For any height above -20 the combined zone runs from 10 above the block to 10 below it. */
  lemma ZoneSpan(x: real, y: real, h: real)
    requires h >= -20.0
    ensures Zone(x, y, h) == Box(x - 10.0, y - 10.0, x + 70.0, y + h + 10.0)
  {
  }
}
