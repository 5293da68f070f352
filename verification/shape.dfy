/** `cvf::shape::Shape` (src/shape/shape.h): a geometry, whose SDF and box
    the virtual functions give, and the fill colour that `set_color`
    overwrites. Shapes are shared by pointer, so a `ShapeList` may hold the
    same object twice. */
module Shapes {
  import Colors
  import Operations

  /** What a shape is at a moment: its geometry and its current fill. */
  datatype ShapeValue = ShapeValue(geometry: Operations.Geometry, color: Colors.Color)

  class Shape {
    const geometry: Operations.Geometry
    var color: Colors.Color

    function Value(): (v: ShapeValue)
      reads this
      ensures v.geometry == geometry && v.color == color
    {
      ShapeValue(geometry, color)
    }

    /** A new shape has the default fill, a transparent solid colour. */
    constructor (g: Operations.Geometry)
      ensures geometry == g && color == Colors.Null()
    {
      geometry := g;
      color := Colors.Null();
    }

    /** `set_color`: only the fill changes. */
    method SetColor(c: Colors.Color)
      modifies this
      ensures Value() == ShapeValue(geometry, c)
    {
      color := c;
    }

    /** `color()`. */
    method GetColor() returns (c: Colors.Color)
      ensures c == color
    {
      c := color;
    }
  }

  /** `ShapeList`: the shapes in paint order, first painted first. */
  type ShapeList = seq<Shape>

  /** The values of a list's shapes, in list order. */
  function Snapshot(shapes: ShapeList): (vs: seq<ShapeValue>)
    reads set s | s in shapes
    ensures |vs| == |shapes|
    ensures forall k :: 0 <= k < |shapes| ==> vs[k] == shapes[k].Value()
  {
    if shapes == [] then [] else [shapes[0].Value()] + Snapshot(shapes[1..])
  }
}
