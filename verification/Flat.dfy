/** Row-major flattening of a position, y * width + x. */
module Flat {

  lemma MulMonotone(a: nat, b: nat, width: nat)
    requires a < b
    ensures a * width + width <= b * width
  {
    assert (a + 1) * width <= b * width by { MulLe(a + 1, b, width); }
  }

  lemma MulLe(a: nat, b: nat, width: nat)
    requires a <= b
    ensures a * width <= b * width
  {
  }

  /** Inside the width, two positions share an index only if they are the same. */
  lemma SamePosition(x: nat, y: nat, x': nat, y': nat, width: nat)
    requires x < width && x' < width
    ensures y * width + x == y' * width + x' <==> x == x' && y == y'
  {
    if y < y' {
      MulMonotone(y, y', width);
    } else if y' < y {
      MulMonotone(y', y, width);
    }
  }

  lemma IndexInRange(x: nat, y: nat, width: nat, height: nat)
    requires x < width && y < height
    ensures 0 <= y * width + x < width * height
  {
    MulMonotone(y, height, width);
  }
}
