/** Facts about JavaScript number arithmetic on reals that the generator uses:
    scaling a `Math.random()` draw and taking `Math.floor` of the result. */
module Numbers {

  /** A draw in [0, 1) scales a non-negative total to a value in [0, total]. */
  lemma ScaledDraw(draw: real, t: real)
    requires 0.0 <= draw < 1.0 && t >= 0.0
    ensures 0.0 <= draw * t <= t
    ensures t > 0.0 ==> draw * t < t
  {
  }

  /** `Math.floor(draw * w)` for a draw in [0, 1) and a positive integer `w` is one of 0 .. w - 1. */
  lemma FloorOfScaledDraw(draw: real, w: int)
    requires 0.0 <= draw < 1.0 && w > 0
    ensures 0 <= (draw * w as real).Floor < w
  {
    ScaledDraw(draw, w as real);
    FloorBelow(draw * w as real, w);
  }

  lemma FloorBelow(x: real, w: int)
    requires 0.0 <= x < w as real
    ensures 0 <= x.Floor < w
  {
  }
}
