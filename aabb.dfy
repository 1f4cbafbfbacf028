/**
 The axis-aligned bounding-box test of the collision demo, restricted to the x-axis.
 Both blocks sit on the same horizontal line, so a block is described by its left
 edge `x` and its `width`, which is all the test reads of a sprite.
 */
module Aabb {

  /** The horizontal extent of a block: its left edge and its width. */
  datatype Box = Box(x: real, width: real)

  /** The test of the demo: strict overlap of the two open intervals. */
  predicate Overlaps(a: Box, b: Box)
  {
    a.x < b.x + b.width && a.x + a.width > b.x
  }

  /** The point `p` lies strictly inside the box. */
  predicate Inside(box: Box, p: real)
  {
    box.x < p < box.x + box.width
  }

  /** The test does not depend on the order of its arguments. */
  lemma OverlapsSymmetric(a: Box, b: Box)
    ensures Overlaps(a, b) <==> Overlaps(b, a)
  {
  }

  /** Blocks whose edges only touch do not overlap, whichever side they touch on. */
  lemma TouchingDoesNotOverlap(a: Box, b: Box)
    requires a.x + a.width == b.x || b.x + b.width == a.x
    ensures !Overlaps(a, b)
  {
  }

  /**
   For blocks of positive width the test holds exactly when some point lies strictly
   inside both blocks: it is the intersection test of the two open intervals.
   */
  lemma OverlapsIffCommonPoint(a: Box, b: Box)
    requires a.width > 0.0 && b.width > 0.0
    ensures Overlaps(a, b) <==> exists p :: Inside(a, p) && Inside(b, p)
  {
    if Overlaps(a, b) {
      var lo := if a.x < b.x then b.x else a.x;
      var hi := if a.x + a.width < b.x + b.width then a.x + a.width else b.x + b.width;
      var p := (lo + hi) / 2.0;
      assert Inside(a, p) && Inside(b, p);
    }
  }
}
