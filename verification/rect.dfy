/** `cvf::shape::Rect` (src/shape/shape.h): an integer box given by its
    left, top, right and bottom coordinates, all inclusive. */
module Rects {

  datatype Rect = Rect(left: int, top: int, right: int, bottom: int)
  {
    /** The point (x, y) lies in the box grown by `slack` on every side. */
    predicate Covers(slack: real, x: real, y: real)
    {
      left as real - slack <= x <= right as real + slack &&
      top as real - slack <= y <= bottom as real + slack
    }

    /** Neither axis is inverted. */
    predicate Proper()
    {
      left <= right && top <= bottom
    }

    /** Every integer point of this box lies in `other`. */
    predicate Within(other: Rect)
    {
      other.left <= left && right <= other.right &&
      other.top <= top && bottom <= other.bottom
    }
  }

  /** `Rect()`: all four fields zero. */
  function Empty(): Rect
  {
    Rect(0, 0, 0, 0)
  }

  /** A box that lies within another covers only points the other covers,
      with the same slack. */
  lemma WithinCovers(a: Rect, b: Rect, slack: real, x: real, y: real)
    requires a.Within(b) && a.Covers(slack, x, y)
    ensures b.Covers(slack, x, y)
  {
  }
}
