/** A food item (food.ts): a stationary point a creature can eat once.
    Its sprite and particle container are rendering only and are not modelled. */
module Foods {

  datatype Food = Food(x: real, y: real)

  /** Squared distance from `(x, y)` to the food, `dx*dx + dy*dy`; the nearest-food
      search compares these without taking a square root. */
  function SqDist(f: Food, x: real, y: real): (d: real)
    ensures d >= 0.0
  {
    var dx, dy := f.x - x, f.y - y;
    SquareNonNegative(dx);
    SquareNonNegative(dy);
    dx * dx + dy * dy
  }

  lemma SquareNonNegative(a: real)
    ensures a * a >= 0.0
  {
    if a < 0.0 {
      assert a * a == (-a) * (-a);
    }
  }
}
