/** Bricks, their shapes and colours, and the catalogue of allowed bricks. */
module Bricks {

  /** A grid coordinate, or a width-height pair (Go's image.Point). */
  datatype Point = Point(x: int, y: int) {
    function Add(q: Point): Point {
      Point(x + q.x, y + q.y)
    }
  }

  /** An axis-aligned rectangle [min, max) (Go's image.Rectangle). */
  datatype Rect = Rect(min: Point, max: Point)

  /** A colour, compared by value only. */
  type Color = int

  /** A purchasable piece: a width-by-height shape in one colour. */
  datatype Brick = Brick(size: Point, color: Color)

  /** The same shape turned by a quarter: width and height swapped. */
  function Transpose(s: Point): Point {
    Point(s.y, s.x)
  }

  /** The shape list the packer tries, from last to first, at every cell; in declaration order here. */
  const BasicShapes: seq<Point> := [Point(1, 1), Point(1, 2), Point(1, 4), Point(2, 2), Point(2, 4)]

  /**
   * The brick with its smaller side first, used only for the bill of materials.
   * The three ensures clauses determine the result: it is the one orientation
   * of b's shape whose width does not exceed its height.
   */
  function Canonical(b: Brick): (c: Brick)
    ensures c.color == b.color
    ensures c.size.x <= c.size.y
    ensures c.size == b.size || c.size == Transpose(b.size)
  {
    if b.size.x <= b.size.y then b else Brick(Transpose(b.size), b.color)
  }

  /** Canonicalising twice is canonicalising once. */
  lemma CanonicalIdempotent(b: Brick)
    ensures Canonical(Canonical(b)) == Canonical(b)
  {
  }

  /** A brick and its turned twin are counted under the same canonical entry. */
  lemma CanonicalIgnoresOrientation(b: Brick)
    ensures Canonical(Brick(Transpose(b.size), b.color)) == Canonical(b)
  {
  }

  /** One colour's part of the catalogue: every shape, in order, in that colour. */
  function Row(shapes: seq<Point>, color: Color): seq<Brick> {
    seq(|shapes|, j requires 0 <= j < |shapes| => Brick(shapes[j], color))
  }

  /** The catalogue of every shape in every colour, colour-major, as a specification. */
  function Catalogue(shapes: seq<Point>, colors: seq<Color>): seq<Brick> {
    if colors == [] then []
    else Catalogue(shapes, colors[..|colors| - 1]) + Row(shapes, colors[|colors| - 1])
  }

  lemma MulStrictBound(i: nat, j: nat, m: nat, n: nat)
    requires i < n && j < m
    ensures i * m + j < n * m
  {
    assert i * m + j < i * m + m == (i + 1) * m;
    assert (i + 1) * m <= n * m;
  }

  /** The catalogue holds exactly one brick per (colour, shape) pair. */
  lemma {:induction false} CatalogueLength(shapes: seq<Point>, colors: seq<Color>)
    ensures |Catalogue(shapes, colors)| == |colors| * |shapes|
  {
    if colors != [] {
      CatalogueLength(shapes, colors[..|colors| - 1]);
      assert (|colors| - 1) * |shapes| + |shapes| == |colors| * |shapes|;
    }
  }

  /** Shape j of colour i sits at i * |shapes| + j. */
  lemma {:induction false} CatalogueAt(shapes: seq<Point>, colors: seq<Color>, i: nat, j: nat)
    requires i < |colors| && j < |shapes|
    ensures i * |shapes| + j < |Catalogue(shapes, colors)|
    ensures Catalogue(shapes, colors)[i * |shapes| + j] == Brick(shapes[j], colors[i])
  {
    var n, m := |colors|, |shapes|;
    var front := colors[..n - 1];
    CatalogueLength(shapes, colors);
    CatalogueLength(shapes, front);
    if i < n - 1 {
      CatalogueAt(shapes, front, i, j);
      MulStrictBound(i, j, m, n - 1);
      assert front[i] == colors[i];
    }
  }

  /**
   * Go's generateBricks: for each colour in order, append one brick of each
   * shape in order.
   */
  method GenerateBricks(shapes: seq<Point>, colors: seq<Color>) returns (result: seq<Brick>)
    ensures result == Catalogue(shapes, colors)
    ensures |result| == |colors| * |shapes|
  {
    result := [];
    for ci := 0 to |colors|
      invariant result == Catalogue(shapes, colors[..ci])
    {
      for si := 0 to |shapes|
        invariant result == Catalogue(shapes, colors[..ci]) + Row(shapes[..si], colors[ci])
      {
        result := result + [Brick(shapes[si], colors[ci])];
      }
      assert shapes[..|shapes|] == shapes;
      assert colors[..ci + 1][..ci] == colors[..ci];
    }
    assert colors[..|colors|] == colors;
    CatalogueLength(shapes, colors);
  }
}
