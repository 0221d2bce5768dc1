/**
 * The packer's rules stated as functions of the packer's state: which cells a
 * brick anchored at a point covers, when a brick fits there, in which order the
 * candidate bricks are tried, which one is chosen, and what a consistent set of
 * placements looks like.
 */
module Packing {
  import opened Bricks

  datatype Option<T> = None | Some(value: T)

  /** The quantised picture: the colour of every cell, total over the whole plane. */
  type Image = Point -> Color

  /** Cell c lies in the size.x-by-size.y rectangle whose top-left cell is anchor. */
  predicate Covers(anchor: Point, size: Point, c: Point) {
    anchor.x <= c.x < anchor.x + size.x && anchor.y <= c.y < anchor.y + size.y
  }

  /** The cells a brick of the given size anchored at the given point covers. */
  function Footprint(anchor: Point, size: Point): set<Point> {
    set x: int, y: int | anchor.x <= x < anchor.x + size.x && anchor.y <= y < anchor.y + size.y :: Point(x, y)
  }

  lemma FootprintMembers(anchor: Point, size: Point)
    ensures forall c :: c in Footprint(anchor, size) <==> Covers(anchor, size, c)
  {
    forall c | Covers(anchor, size, c)
      ensures c in Footprint(anchor, size)
    {
      assert c == Point(c.x, c.y);
    }
  }

  /** A row of w cells holds w cells. */
  lemma {:induction false} RowSize(q: Point, w: nat)
    ensures |Footprint(q, Point(w, 1))| == w
  {
    if w > 0 {
      RowSize(q, w - 1);
      FootprintMembers(q, Point(w, 1));
      FootprintMembers(q, Point(w - 1, 1));
      assert Footprint(q, Point(w, 1)) == Footprint(q, Point(w - 1, 1)) + {Point(q.x + w - 1, q.y)};
    } else {
      FootprintMembers(q, Point(w, 1));
      assert Footprint(q, Point(w, 1)) == {};
    }
  }

  /** A w-by-h rectangle is the w-by-(h-1) rectangle plus its last row, which it does not overlap. */
  lemma FootprintLastRow(anchor: Point, w: nat, h: nat)
    requires h > 0
    ensures Footprint(anchor, Point(w, h)) ==
            Footprint(anchor, Point(w, h - 1)) + Footprint(Point(anchor.x, anchor.y + h - 1), Point(w, 1))
    ensures Footprint(anchor, Point(w, h - 1)) !! Footprint(Point(anchor.x, anchor.y + h - 1), Point(w, 1))
  {
    var last := Point(anchor.x, anchor.y + h - 1);
    FootprintMembers(anchor, Point(w, h));
    FootprintMembers(anchor, Point(w, h - 1));
    FootprintMembers(last, Point(w, 1));
  }

  /** A w-by-h rectangle holds w * h cells. */
  lemma {:induction false} FootprintSize(anchor: Point, w: nat, h: nat)
    ensures |Footprint(anchor, Point(w, h))| == w * h
  {
    if h > 0 {
      FootprintSize(anchor, w, h - 1);
      RowSize(Point(anchor.x, anchor.y + h - 1), w);
      FootprintLastRow(anchor, w, h);
      assert w * (h - 1) + w == w * h;
    } else {
      FootprintMembers(anchor, Point(w, h));
      assert Footprint(anchor, Point(w, h)) == {};
    }
  }

  /** Cell c lies inside the rectangle r. */
  predicate InRect(c: Point, r: Rect) {
    r.min.x <= c.x < r.max.x && r.min.y <= c.y < r.max.y
  }

  /**
   * Brick b fits at p: every cell it would cover is still free and has b's
   * colour in the picture. There is no bounds test; the picture decides.
   */
  ghost predicate Fits(visited: set<Point>, img: Image, p: Point, b: Brick) {
    forall c :: Covers(p, b.size, c) ==> c !in visited && img(c) == b.color
  }

  /**
   * The bricks tried for one shape: nothing if the shape in its stored
   * orientation is not allowed in this colour; the stored orientation alone for
   * a square; otherwise the stored orientation, then the turned one.
   */
  function Tried(s: Point, allowed: set<Brick>, color: Color): seq<Brick> {
    if Brick(s, color) !in allowed then []
    else if s.x == s.y then [Brick(s, color)]
    else [Brick(s, color), Brick(Transpose(s), color)]
  }

  /** The bricks tried for a list of shapes, shape by shape. */
  function Candidates(shapes: seq<Point>, allowed: set<Brick>, color: Color): seq<Brick> {
    if shapes == [] then []
    else Tried(shapes[0], allowed, color) + Candidates(shapes[1..], allowed, color)
  }

  /** The basic shapes from last to first. */
  function TryShapes(): seq<Point> {
    seq(|BasicShapes|, i requires 0 <= i < |BasicShapes| => BasicShapes[|BasicShapes| - 1 - i])
  }

  /** Every brick the packer may try for a cell of this colour, in the order it tries them. */
  function TryOrder(allowed: set<Brick>, color: Color): seq<Brick> {
    Candidates(TryShapes(), allowed, color)
  }

  /** The first candidate that fits at p, if any. */
  ghost function FirstFit(cands: seq<Brick>, visited: set<Point>, img: Image, p: Point): Option<Brick> {
    if cands == [] then None
    else if Fits(visited, img, p, cands[0]) then Some(cands[0])
    else FirstFit(cands[1..], visited, img, p)
  }

  /** cands[k] fits at p and no earlier candidate does. */
  ghost predicate FirstFitting(cands: seq<Brick>, k: int, visited: set<Point>, img: Image, p: Point) {
    && 0 <= k < |cands|
    && Fits(visited, img, p, cands[k])
    && forall j :: 0 <= j < k ==> !Fits(visited, img, p, cands[j])
  }

  /** FirstFit picks b exactly when b is the candidate at the first index that fits. */
  lemma {:induction false} FirstFitIsFirstFitting(cands: seq<Brick>, visited: set<Point>, img: Image, p: Point, b: Brick)
    ensures FirstFit(cands, visited, img, p) == Some(b) <==>
            exists k :: FirstFitting(cands, k, visited, img, p) && cands[k] == b
  {
    if cands == [] {
      return;
    }
    var rest := cands[1..];
    FirstFitIsFirstFitting(rest, visited, img, p, b);
    if FirstFit(cands, visited, img, p) == Some(b) {
      if Fits(visited, img, p, cands[0]) {
        assert FirstFitting(cands, 0, visited, img, p);
      } else {
        var k :| FirstFitting(rest, k, visited, img, p) && rest[k] == b;
        assert FirstFitting(cands, k + 1, visited, img, p) by {
          forall j | 0 <= j < k + 1
            ensures !Fits(visited, img, p, cands[j])
          {
            if j > 0 {
              assert cands[j] == rest[j - 1];
            }
          }
        }
      }
    }
    if exists k :: FirstFitting(cands, k, visited, img, p) && cands[k] == b {
      var k :| FirstFitting(cands, k, visited, img, p) && cands[k] == b;
      if k > 0 {
        assert !Fits(visited, img, p, cands[0]);
        assert FirstFitting(rest, k - 1, visited, img, p) by {
          forall j | 0 <= j < k - 1
            ensures !Fits(visited, img, p, rest[j])
          {
            assert rest[j] == cands[j + 1];
          }
        }
      }
    }
  }

  /** FirstFit finds nothing exactly when no candidate fits. */
  lemma {:induction false} FirstFitNone(cands: seq<Brick>, visited: set<Point>, img: Image, p: Point)
    ensures FirstFit(cands, visited, img, p) == None <==>
            forall k :: 0 <= k < |cands| ==> !Fits(visited, img, p, cands[k])
  {
    if cands != [] {
      var rest := cands[1..];
      FirstFitNone(rest, visited, img, p);
      if !Fits(visited, img, p, cands[0]) {
        forall k | 0 < k < |cands|
          ensures cands[k] == rest[k - 1]
        {
        }
      }
    }
  }

  /** Trying one list of candidates and then another is trying their concatenation. */
  lemma {:induction false} FirstFitAppend(front: seq<Brick>, back: seq<Brick>, visited: set<Point>, img: Image, p: Point)
    ensures FirstFit(front + back, visited, img, p) ==
            if FirstFit(front, visited, img, p).Some? then FirstFit(front, visited, img, p)
            else FirstFit(back, visited, img, p)
  {
    if front == [] {
      assert front + back == back;
    } else {
      assert (front + back)[0] == front[0];
      assert (front + back)[1..] == front[1..] + back;
      FirstFitAppend(front[1..], back, visited, img, p);
    }
  }

  /** The candidates for the shapes from index i on are those for shape i followed by the rest. */
  lemma CandidatesFrom(shapes: seq<Point>, i: nat, allowed: set<Brick>, color: Color)
    requires i < |shapes|
    ensures Candidates(shapes[i..], allowed, color) ==
            Tried(shapes[i], allowed, color) + Candidates(shapes[i + 1..], allowed, color)
  {
    assert shapes[i..][1..] == shapes[i + 1..];
  }

  /**
   * What can be tried: only bricks of the requested colour, each of them a
   * listed shape whose stored orientation is allowed in that colour, or that
   * shape turned when it is not square. A brick whose shape is not listed is
   * never tried, whichever orientation is allowed.
   */
  lemma {:induction false} CandidatesAreListedShapes(shapes: seq<Point>, allowed: set<Brick>, color: Color, b: Brick)
    requires b in Candidates(shapes, allowed, color)
    ensures b.color == color
    ensures || (b.size in shapes && b in allowed)
            || (Transpose(b.size) in shapes && Brick(Transpose(b.size), color) in allowed && b.size.x != b.size.y)
  {
    if b !in Tried(shapes[0], allowed, color) {
      CandidatesAreListedShapes(shapes[1..], allowed, color, b);
    }
  }

  /**
   * Every shape listed and allowed in its stored orientation is tried, and so
   * is its turned twin when it is not square.
   */
  lemma {:induction false} AllowedShapesAreCandidates(shapes: seq<Point>, allowed: set<Brick>, color: Color, s: Point)
    requires s in shapes && Brick(s, color) in allowed
    ensures Brick(s, color) in Candidates(shapes, allowed, color)
    ensures s.x != s.y ==> Brick(Transpose(s), color) in Candidates(shapes, allowed, color)
  {
    if s != shapes[0] {
      AllowedShapesAreCandidates(shapes[1..], allowed, color, s);
    }
  }

  /**
   * The allowed set is consulted in the stored orientation only: with just the
   * turned 2x1 brick listed, nothing is ever tried in that colour.
   */
  lemma TurnedOnlyNeverTried(color: Color)
    ensures TryOrder({Brick(Point(2, 1), color)}, color) == []
  {
    TryShapesOrder();
    NoneAllowedNoneTried(TryShapes(), {Brick(Point(2, 1), color)}, color);
  }

  /** When no listed shape is allowed as it stands, nothing is tried. */
  lemma {:induction false} NoneAllowedNoneTried(shapes: seq<Point>, allowed: set<Brick>, color: Color)
    requires forall i :: 0 <= i < |shapes| ==> Brick(shapes[i], color) !in allowed
    ensures Candidates(shapes, allowed, color) == []
  {
    if shapes != [] {
      NoneAllowedNoneTried(shapes[1..], allowed, color);
    }
  }

  /** The shapes are tried in the order 2x4, 2x2, 1x4, 1x2, 1x1. */
  lemma TryShapesOrder()
    ensures TryShapes() == [Point(2, 4), Point(2, 2), Point(1, 4), Point(1, 2), Point(1, 1)]
  {
  }

  /**
   * With every basic shape allowed in a colour, the full try order: largest
   * first, the 2x2 square before the 1x4, each stored orientation before its
   * turned twin, and squares only once.
   */
  lemma TryOrderAllAllowed(allowed: set<Brick>, color: Color)
    requires forall s :: s in BasicShapes ==> Brick(s, color) in allowed
    ensures TryOrder(allowed, color) ==
            [ Brick(Point(2, 4), color), Brick(Point(4, 2), color), Brick(Point(2, 2), color)
            , Brick(Point(1, 4), color), Brick(Point(4, 1), color)
            , Brick(Point(1, 2), color), Brick(Point(2, 1), color), Brick(Point(1, 1), color) ]
  {
    TryShapesOrder();
    var t := TryShapes();
    assert Tried(t[0], allowed, color) == [Brick(Point(2, 4), color), Brick(Point(4, 2), color)];
    assert Tried(t[1], allowed, color) == [Brick(Point(2, 2), color)];
    assert Tried(t[2], allowed, color) == [Brick(Point(1, 4), color), Brick(Point(4, 1), color)];
    assert Tried(t[3], allowed, color) == [Brick(Point(1, 2), color), Brick(Point(2, 1), color)];
    assert Tried(t[4], allowed, color) == [Brick(Point(1, 1), color)];
    CandidatesFrom(t, 4, allowed, color);
    assert t[5..] == [];
    CandidatesFrom(t, 3, allowed, color);
    CandidatesFrom(t, 2, allowed, color);
    CandidatesFrom(t, 1, allowed, color);
    CandidatesFrom(t, 0, allowed, color);
    assert t[0..] == t;
  }

  /** Every brick in the try order has positive width and height. */
  lemma TryOrderPositive(allowed: set<Brick>, color: Color, b: Brick)
    requires b in TryOrder(allowed, color)
    ensures b.size.x >= 1 && b.size.y >= 1
  {
    CandidatesAreListedShapes(TryShapes(), allowed, color, b);
  }

  /** The chosen brick is a candidate and fits. */
  lemma {:induction false} FirstFitSound(cands: seq<Brick>, visited: set<Point>, img: Image, p: Point)
    ensures FirstFit(cands, visited, img, p).Some? ==>
              var b := FirstFit(cands, visited, img, p).value;
              b in cands && Fits(visited, img, p, b)
  {
    if cands != [] && !Fits(visited, img, p, cands[0]) {
      FirstFitSound(cands[1..], visited, img, p);
    }
  }

  /**
   * The packer never gives up on a free cell whose 1x1 brick is allowed in the
   * cell's colour, and whatever it chooses covers the cell itself.
   */
  lemma OneByOneFallback(allowed: set<Brick>, visited: set<Point>, img: Image, p: Point, color: Color)
    ensures p !in visited && img(p) == color && Brick(Point(1, 1), color) in allowed ==>
              FirstFit(TryOrder(allowed, color), visited, img, p).Some?
    ensures FirstFit(TryOrder(allowed, color), visited, img, p).Some? ==>
              Covers(p, FirstFit(TryOrder(allowed, color), visited, img, p).value.size, p)
  {
    var cands := TryOrder(allowed, color);
    if p !in visited && img(p) == color && Brick(Point(1, 1), color) in allowed {
      var unit := Brick(Point(1, 1), color);
      TryShapesOrder();
      AllowedShapesAreCandidates(TryShapes(), allowed, color, Point(1, 1));
      var k :| 0 <= k < |cands| && cands[k] == unit;
      assert Fits(visited, img, p, cands[k]) by {
        forall c | Covers(p, unit.size, c)
          ensures c !in visited && img(c) == unit.color
        {
          assert c == p;
        }
      }
      FirstFitNone(cands, visited, img, p);
    }
    FirstFitSound(cands, visited, img, p);
    if FirstFit(cands, visited, img, p).Some? {
      TryOrderPositive(allowed, color, FirstFit(cands, visited, img, p).value);
    }
  }

  /**
   * Placements that are consistent with the picture: every brick has positive
   * sides, covers only cells of its own colour, and no cell is covered twice.
   */
  ghost predicate WellPlaced(placed: map<Point, Brick>, img: Image) {
    && (forall a :: a in placed ==> placed[a].size.x >= 1 && placed[a].size.y >= 1)
    && (forall a, c :: a in placed && Covers(a, placed[a].size, c) ==> img(c) == placed[a].color)
    && (forall a1, a2, c ::
          a1 in placed && a2 in placed && Covers(a1, placed[a1].size, c) && Covers(a2, placed[a2].size, c) ==> a1 == a2)
  }

  /** The visited cells are exactly the cells the placements cover. */
  ghost predicate CoveredExactly(visited: set<Point>, placed: map<Point, Brick>) {
    && (forall a, c :: a in placed && Covers(a, placed[a].size, c) ==> c in visited)
    && (forall c :: c in visited ==> exists a :: a in placed && Covers(a, placed[a].size, c))
  }

  /** Nothing placed and nothing visited is consistent. */
  lemma EmptyIsConsistent(img: Image)
    ensures WellPlaced(map[], img) && CoveredExactly({}, map[])
  {
  }

  /**
   * Placing a fitting brick with positive sides at a free point keeps the
   * placements consistent, adds a new anchor, and visits exactly its footprint.
   */
  lemma PlaceKeepsConsistent(visited: set<Point>, placed: map<Point, Brick>, img: Image, p: Point, b: Brick)
    requires WellPlaced(placed, img) && CoveredExactly(visited, placed)
    requires Fits(visited, img, p, b) && b.size.x >= 1 && b.size.y >= 1
    ensures p !in placed
    ensures WellPlaced(placed[p := b], img)
    ensures CoveredExactly(visited + Footprint(p, b.size), placed[p := b])
  {
    assert Covers(p, b.size, p);
    if p in placed {
      assert Covers(p, placed[p].size, p);
      assert false;
    }
    var placed', visited' := placed[p := b], visited + Footprint(p, b.size);
    FootprintMembers(p, b.size);
    forall a1, a2, c | a1 in placed' && a2 in placed' && Covers(a1, placed'[a1].size, c) && Covers(a2, placed'[a2].size, c)
      ensures a1 == a2
    {
      if a1 != a2 && (a1 == p || a2 == p) {
        assert false;
      }
    }
    forall c | c in visited'
      ensures exists a :: a in placed' && Covers(a, placed'[a].size, c)
    {
      if c in visited {
        var a :| a in placed && Covers(a, placed[a].size, c);
        assert a != p;
        assert a in placed' && Covers(a, placed'[a].size, c);
      } else {
        assert p in placed' && Covers(p, placed'[p].size, c);
      }
    }
  }

  /**
   * Placements anchored inside a rectangle stay inside it when the picture's
   * colour outside the rectangle differs from every colour inside it. Without
   * that condition a brick can hang over the edge.
   */
  lemma PlacedInBounds(placed: map<Point, Brick>, img: Image, bounds: Rect)
    requires WellPlaced(placed, img)
    requires forall a :: a in placed ==> InRect(a, bounds)
    requires forall c, d :: InRect(d, bounds) && !InRect(c, bounds) ==> img(c) != img(d)
    ensures forall a, c :: a in placed && Covers(a, placed[a].size, c) ==> InRect(c, bounds)
  {
    forall a, c | a in placed && Covers(a, placed[a].size, c)
      ensures InRect(c, bounds)
    {
      assert Covers(a, placed[a].size, a);
    }
  }

  /**
   * Go's paletted image answers one colour, off, for every cell outside its
   * rectangle. A placed brick of any other colour stays inside the rectangle.
   */
  lemma OtherColorsInBounds(placed: map<Point, Brick>, img: Image, bounds: Rect, off: Color)
    requires WellPlaced(placed, img)
    requires forall c :: !InRect(c, bounds) ==> img(c) == off
    ensures forall a, c :: a in placed && placed[a].color != off && Covers(a, placed[a].size, c) ==> InRect(c, bounds)
  {
  }

  /**
   * A 1x1 picture whose off-grid colour is also its own colour: every brick of
   * that colour fits at the origin, so the 2x4 brick is chosen although it
   * covers seven cells outside the picture.
   */
  lemma OverhangWithoutBoundsTest(color: Color)
    ensures var img: Image := _ => color;
            var allowed := set s | s in BasicShapes :: Brick(s, color);
            && FirstFit(TryOrder(allowed, color), {}, img, Point(0, 0)) == Some(Brick(Point(2, 4), color))
            && !InRect(Point(1, 3), Rect(Point(0, 0), Point(1, 1)))
            && Covers(Point(0, 0), Point(2, 4), Point(1, 3))
  {
    var img: Image := _ => color;
    var allowed := set s | s in BasicShapes :: Brick(s, color);
    TryOrderAllAllowed(allowed, color);
    assert Fits({}, img, Point(0, 0), Brick(Point(2, 4), color));
  }
}
