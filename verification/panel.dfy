/**
 * The panel (the packer's output) and the packer itself: a helper object that
 * remembers which cells are covered and places one brick at a time, driven by
 * a row-major scan over the picture.
 */
module Panels {
  import opened Bricks
  import opened Packing

  /** What one call of PlaceBrick did. ImpossibleFit is where the program panics. */
  datatype Placement = AlreadyVisited | Placed(brick: Brick) | ImpossibleFit

  /** The mosaic: a brick per anchor cell, over the picture's bounds. */
  class Panel {
    var bricks: map<Point, Brick>
    const bounds: Rect

    constructor (bounds: Rect)
      ensures this.bounds == bounds && bricks == map[]
    {
      this.bounds := bounds;
      bricks := map[];
    }

    /** The panel's width and height in cells: the offset from its first corner to its far corner. */
    function Size(): (s: Point)
      ensures bounds.min.Add(s) == bounds.max
    {
      Point(bounds.max.x - bounds.min.x, bounds.max.y - bounds.min.y)
    }

    /**
     * The bill of materials: how many placed bricks there are of each
     * canonical brick. Keys are exactly the canonical forms of placed bricks,
     * and the counts add up to the number of placements.
     */
    method CountBricks() returns (result: map<Brick, int>)
      ensures Counted(bricks, bricks.Keys, result)
      ensures MapSum(result) == |bricks|
    {
      var placed := bricks;
      result := map[];
      var todo := placed.Keys;
      ghost var done: set<Point> := {};
      while todo != {}
        invariant todo <= placed.Keys && done == placed.Keys - todo
        invariant Counted(placed, done, result)
        decreases todo
      {
        var a :| a in todo;
        CountStep(placed, done, a, result);
        var k := Canonical(placed[a]);
        result := result[k := Get(result, k) + 1];
        todo, done := todo - {a}, done + {a};
      }
      CountedAll(placed, done, result);
    }
  }

  /**
   * A panel tiled entirely with 1x1 bricks, every cell of its bounds covered
   * and every anchor inside them, holds one placement per cell: width times
   * height of them.
   */
  lemma UnitBricksFillPanel(panel: Panel)
    requires panel.bounds.min.x <= panel.bounds.max.x && panel.bounds.min.y <= panel.bounds.max.y
    requires forall a :: a in panel.bricks ==> panel.bricks[a].size == Point(1, 1) && InRect(a, panel.bounds)
    requires forall c :: InRect(c, panel.bounds) ==> exists a :: a in panel.bricks && Covers(a, panel.bricks[a].size, c)
    ensures |panel.bricks| == panel.Size().x * panel.Size().y
  {
    var b, size := panel.bounds, panel.Size();
    assert forall c :: InRect(c, b) <==> Covers(b.min, size, c);
    UnitAnchorsAreCells(panel.bricks, b.min, size);
    FootprintSize(b.min, size.x, size.y);
    assert |panel.bricks| == |panel.bricks.Keys|;
  }

  /** When every brick is 1x1, anchored inside a rectangle and covering it, the anchors are its cells. */
  lemma UnitAnchorsAreCells(placed: map<Point, Brick>, min: Point, size: Point)
    requires forall a :: a in placed ==> placed[a].size == Point(1, 1) && Covers(min, size, a)
    requires forall c :: Covers(min, size, c) ==> exists a :: a in placed && Covers(a, placed[a].size, c)
    ensures placed.Keys == Footprint(min, size)
  {
    FootprintMembers(min, size);
    forall c | Covers(min, size, c)
      ensures c in placed
    {
      var a :| a in placed && Covers(a, placed[a].size, c);
      UnitCoverIsAnchor(a, placed[a].size, c);
    }
  }

  /** The only cell a 1x1 brick covers is its anchor. */
  lemma UnitCoverIsAnchor(a: Point, size: Point, c: Point)
    requires size == Point(1, 1) && Covers(a, size, c)
    ensures a == c
  {
  }

  /** The value stored under k, or zero when k is absent (Go's map read). */
  function Get(m: map<Brick, int>, k: Brick): (v: int)
    ensures k !in m ==> v == 0
  {
    if k in m then m[k] else 0
  }

  /** The anchors among `among` whose brick has canonical form k. */
  ghost function AnchorsOf(placed: map<Point, Brick>, among: set<Point>, k: Brick): set<Point> {
    set a | a in among && a in placed && Canonical(placed[a]) == k
  }

  /**
   * counts is the tally of the anchors in done: its keys are canonical, and it
   * holds, for each canonical brick that occurs, how many of them carry it.
   */
  ghost predicate Counted(placed: map<Point, Brick>, done: set<Point>, counts: map<Brick, int>) {
    && (forall k :: k in counts ==> Canonical(k) == k)
    && (forall k :: k in counts ==> counts[k] == |AnchorsOf(placed, done, k)|)
    && (forall k :: k in counts <==> AnchorsOf(placed, done, k) != {})
  }

  /** Adding anchor a to the anchors considered adds it to its own canonical brick's anchors only. */
  lemma AnchorsOfAdd(placed: map<Point, Brick>, among: set<Point>, a: Point, k: Brick)
    requires a in placed && a !in among
    ensures AnchorsOf(placed, among + {a}, k) ==
            if Canonical(placed[a]) == k then AnchorsOf(placed, among, k) + {a} else AnchorsOf(placed, among, k)
    ensures a !in AnchorsOf(placed, among, k)
  {
  }

  /** Counting one more anchor a adds one to the count of its canonical brick and leaves the others alone. */
  lemma CountStep(placed: map<Point, Brick>, done: set<Point>, a: Point, counts: map<Brick, int>)
    requires a in placed && a !in done
    requires Counted(placed, done, counts)
    ensures Counted(placed, done + {a}, counts[Canonical(placed[a]) := Get(counts, Canonical(placed[a])) + 1])
  {
    var c := Canonical(placed[a]);
    var counts' := counts[c := Get(counts, c) + 1];
    CanonicalIdempotent(placed[a]);
    forall k ensures k in counts' ==> counts'[k] == |AnchorsOf(placed, done + {a}, k)|
    {
      AnchorsOfAdd(placed, done, a, k);
    }
    forall k ensures k in counts' <==> AnchorsOf(placed, done + {a}, k) != {}
    {
      AnchorsOfAdd(placed, done, a, k);
    }
  }

  /** Once every anchor is done, the tally is complete and adds up to the number of placements. */
  lemma CountedAll(placed: map<Point, Brick>, done: set<Point>, counts: map<Brick, int>)
    requires done == placed.Keys && Counted(placed, done, counts)
    ensures Counted(placed, placed.Keys, counts) && MapSum(counts) == |placed|
  {
    CountedSum(placed, counts);
  }

  /** A complete tally has an entry for the canonical form of every placed brick. */
  lemma TallyHasEveryBrick(placed: map<Point, Brick>, counts: map<Brick, int>)
    requires Counted(placed, placed.Keys, counts)
    ensures forall a :: a in placed ==> Canonical(placed[a]) in counts
  {
    forall a | a in placed
      ensures Canonical(placed[a]) in counts
    {
      assert a in AnchorsOf(placed, placed.Keys, Canonical(placed[a]));
    }
  }

  /** A complete tally adds up to the number of placements. */
  lemma {:induction false} CountedSum(placed: map<Point, Brick>, counts: map<Brick, int>)
    requires Counted(placed, placed.Keys, counts)
    ensures MapSum(counts) == |placed|
    decreases |counts|
  {
    if counts == map[] {
      TallyHasEveryBrick(placed, counts);
      assert placed.Keys == {};
    } else {
      var k :| k in counts;
      var rest := Without(placed, k);
      TallyWithout(placed, counts, k);
      CountedSum(rest, counts - {k});
      MapSumRemove(counts, k);
    }
  }

  /** The placements whose canonical brick is not k. */
  ghost function Without(placed: map<Point, Brick>, k: Brick): map<Point, Brick> {
    map a | a in placed && Canonical(placed[a]) != k :: placed[a]
  }

  /** Taking out the placements of one canonical brick takes its entry out of the tally. */
  lemma TallyWithout(placed: map<Point, Brick>, counts: map<Brick, int>, k: Brick)
    requires Counted(placed, placed.Keys, counts) && k in counts
    ensures Counted(Without(placed, k), Without(placed, k).Keys, counts - {k})
    ensures |placed| == counts[k] + |Without(placed, k)|
  {
    var rest := Without(placed, k);
    forall k' ensures AnchorsOf(rest, rest.Keys, k') == if k' == k then {} else AnchorsOf(placed, placed.Keys, k') {
      WithoutAnchors(placed, k, k');
    }
    WithoutSplits(placed, k);
  }

  /** Without k, no anchor carries k and every other canonical brick keeps its anchors. */
  lemma WithoutAnchors(placed: map<Point, Brick>, k: Brick, k': Brick)
    ensures AnchorsOf(Without(placed, k), Without(placed, k).Keys, k') ==
            if k' == k then {} else AnchorsOf(placed, placed.Keys, k')
  {
    var rest := Without(placed, k);
    assert forall a :: a in rest <==> a in placed && Canonical(placed[a]) != k;
    assert forall a :: a in rest ==> rest[a] == placed[a];
    forall a
      ensures a in AnchorsOf(rest, rest.Keys, k') <==> a in (if k' == k then {} else AnchorsOf(placed, placed.Keys, k'))
    {
    }
  }

  /** The placements split into those of k and the rest. */
  lemma WithoutSplits(placed: map<Point, Brick>, k: Brick)
    ensures |placed| == |AnchorsOf(placed, placed.Keys, k)| + |Without(placed, k)|
  {
    var these := AnchorsOf(placed, placed.Keys, k);
    var rest := Without(placed, k);
    assert forall a :: a in rest <==> a in placed && Canonical(placed[a]) != k;
    assert placed.Keys == these + rest.Keys;
    assert these !! rest.Keys;
    assert |placed| == |placed.Keys| && |rest| == |rest.Keys|;
  }

  /** The sum of a map's values. */
  ghost function MapSum(m: map<Brick, int>): int
    decreases |m|
  {
    if m == map[] then 0
    else
      var k :| k in m;
      m[k] + MapSum(m - {k})
  }

  /** The sum does not depend on which key is taken out first. */
  lemma {:induction false} MapSumRemove(m: map<Brick, int>, k: Brick)
    requires k in m
    ensures MapSum(m) == m[k] + MapSum(m - {k})
    decreases |m|
  {
    var j :| j in m && MapSum(m) == m[j] + MapSum(m - {j});
    if j != k {
      MapSumRemove(m - {j}, k);
      MapSumRemove(m - {k}, j);
      assert m - {j} - {k} == m - {k} - {j};
    }
  }

  /**
   * The packer's working state: the covered cells, the panel being filled, the
   * set of allowed bricks and the picture.
   */
  class Helper {
    var visited: set<Point>
    const panel: Panel
    const allowed: set<Brick>
    const img: Image

    /** The covered cells are exactly those of the placements, and the placements are consistent. */
    ghost predicate Valid()
      reads this, panel
    {
      WellPlaced(panel.bricks, img) && CoveredExactly(visited, panel.bricks)
    }

    /** Go's newHelper: nothing covered yet, and the allowed set holds the given bricks. */
    constructor (bricks: seq<Brick>, img: Image, panel: Panel)
      ensures this.panel == panel && this.img == img && visited == {}
      ensures forall b :: b in allowed <==> b in bricks
      ensures panel.bricks == map[] ==> Valid()
    {
      var s: set<Brick> := {};
      for i := 0 to |bricks|
        invariant forall b :: b in s <==> b in bricks[..i]
      {
        s := s + {bricks[i]};
      }
      assert bricks[..|bricks|] == bricks;
      visited := {};
      this.panel := panel;
      allowed := s;
      this.img := img;
      EmptyIsConsistent(img);
    }

    /** Whether brick fits at p: every cell it would cover is free and has its colour. */
    method Fit(p: Point, brick: Brick) returns (ok: bool)
      ensures ok == Fits(visited, img, p, brick)
    {
      var y := 0;
      while y < brick.size.y
        invariant 0 <= y
        invariant forall c :: Covers(p, brick.size, c) && c.y < p.y + y ==> c !in visited && img(c) == brick.color
      {
        var x := 0;
        while x < brick.size.x
          invariant 0 <= x
          invariant forall c :: Covers(p, brick.size, c) && (c.y < p.y + y || (c.y == p.y + y && c.x < p.x + x)) ==>
                      c !in visited && img(c) == brick.color
        {
          var pt := p.Add(Point(x, y));
          if pt in visited {
            assert Covers(p, brick.size, pt);
            return false;
          }
          if img(pt) != brick.color {
            assert Covers(p, brick.size, pt);
            return false;
          }
          x := x + 1;
        }
        y := y + 1;
      }
      return true;
    }

    /**
     * Go's placeBrick: leave a covered cell alone; otherwise place the first
     * brick in the try order that fits at p, or report that none fits.
     */
    method PlaceBrick(p: Point, color: Color) returns (r: Placement)
      requires Valid()
      modifies this, panel
      ensures Valid()
      ensures old(p in visited) <==> r == AlreadyVisited
      ensures r == AlreadyVisited || r == ImpossibleFit ==>
                visited == old(visited) && panel.bricks == old(panel.bricks)
      ensures r == ImpossibleFit ==> FirstFit(TryOrder(allowed, color), old(visited), img, p) == None
      ensures r.Placed? ==>
                && FirstFit(TryOrder(allowed, color), old(visited), img, p) == Some(r.brick)
                && Fits(old(visited), img, p, r.brick)
                && visited == old(visited) + Footprint(p, r.brick.size)
                && p !in old(panel.bricks)
                && panel.bricks == old(panel.bricks)[p := r.brick]
                && p in visited
    {
      if p in visited {
        return AlreadyVisited;
      }
      ghost var cands := TryOrder(allowed, color);
      var shapes := TryShapes();
      for i := 0 to |BasicShapes|
        invariant visited == old(visited) && panel.bricks == old(panel.bricks)
        invariant FirstFit(cands, visited, img, p) == FirstFit(Candidates(shapes[i..], allowed, color), visited, img, p)
      {
        var shape := BasicShapes[|BasicShapes| - 1 - i];
        assert shape == shapes[i];
        CandidatesFrom(shapes, i, allowed, color);
        ghost var tried := Tried(shape, allowed, color);
        FirstFitAppend(tried, Candidates(shapes[i + 1..], allowed, color), visited, img, p);
        var brick := Brick(shape, color);
        if brick !in allowed {
          continue;
        }
        var ok := Fit(p, brick);
        if !ok {
          if shape.x == shape.y {
            assert tried == [brick] && tried[1..] == [];
            assert FirstFit(tried, visited, img, p) == None;
            continue;
          }
          brick := Brick(Point(shape.y, shape.x), color);
          ok := Fit(p, brick);
          if !ok {
            assert tried[1..] == [brick] && tried[1..][1..] == [];
            assert FirstFit(tried[1..], visited, img, p) == None;
            assert FirstFit(tried, visited, img, p) == None;
            continue;
          }
          assert tried[1..] == [brick];
        }
        assert FirstFit(cands, visited, img, p) == Some(brick);
        FirstFitSound(cands, visited, img, p);
        TryOrderPositive(allowed, color, brick);
        Mark(p, brick.size);
        PlaceKeepsConsistent(old(visited), old(panel.bricks), img, p, brick);
        panel.bricks := panel.bricks[p := brick];
        assert Covers(p, brick.size, p);
        FootprintMembers(p, brick.size);
        return Placed(brick);
      }
      FirstFitNone(cands, visited, img, p);
      return ImpossibleFit;
    }

    /** Marks every cell of the size.x-by-size.y rectangle at p visited, row by row. */
    method Mark(p: Point, size: Point)
      requires size.x >= 0 && size.y >= 0
      modifies this
      ensures visited == old(visited) + Footprint(p, size)
    {
      FootprintMembers(p, size);
      for y := 0 to size.y
        invariant forall c :: c in visited <==> c in old(visited) || Covers(p, Point(size.x, y), c)
      {
        for x := 0 to size.x
          invariant forall c :: c in visited <==>
                      c in old(visited) || Covers(p, Point(size.x, y), c) || (c.y == p.y + y && p.x <= c.x < p.x + x)
        {
          visited := visited + {p.Add(Point(x, y))};
        }
      }
    }
  }

  /** Every anchor of the panel lies in its bounds and every placed brick was tried for its colour. */
  ghost predicate Anchored(placed: map<Point, Brick>, bounds: Rect, allowed: set<Brick>) {
    forall a :: a in placed ==> InRect(a, bounds) && placed[a] in TryOrder(allowed, placed[a].color)
  }

  /**
   * A brick that was tried is a basic shape allowed as it stands, or the turned
   * twin of a non-square basic shape allowed as it stands.
   */
  lemma AnchoredIsAllowed(placed: map<Point, Brick>, bounds: Rect, allowed: set<Brick>)
    requires Anchored(placed, bounds, allowed)
    ensures forall a :: a in placed ==>
              || (placed[a] in allowed && placed[a].size in BasicShapes)
              || (&& placed[a].size.x != placed[a].size.y
                  && Transpose(placed[a].size) in BasicShapes
                  && Brick(Transpose(placed[a].size), placed[a].color) in allowed)
  {
    TryShapesOrder();
    forall a | a in placed
      ensures || (placed[a] in allowed && placed[a].size in BasicShapes)
              || (&& placed[a].size.x != placed[a].size.y
                  && Transpose(placed[a].size) in BasicShapes
                  && Brick(Transpose(placed[a].size), placed[a].color) in allowed)
    {
      CandidatesAreListedShapes(TryShapes(), allowed, placed[a].color, placed[a]);
    }
  }

  /**
   * The scan in Go's NewPanel, over an already quantised picture: visit every
   * cell of the bounds row by row, top to bottom and left to right, and place a
   * brick of the cell's colour there unless the cell is already covered. ok is
   * false where the program panics, which happens only at a cell whose colour
   * has no 1x1 brick in the catalogue.
   */
  method NewPanel(img: Image, bounds: Rect, bricks: seq<Brick>) returns (panel: Panel, ok: bool)
    ensures fresh(panel) && panel.bounds == bounds
    ensures WellPlaced(panel.bricks, img)
    ensures forall a :: a in panel.bricks ==>
              && InRect(a, bounds)
              && (|| (panel.bricks[a] in bricks && panel.bricks[a].size in BasicShapes)
                  || (&& panel.bricks[a].size.x != panel.bricks[a].size.y
                      && Transpose(panel.bricks[a].size) in BasicShapes
                      && Brick(Transpose(panel.bricks[a].size), panel.bricks[a].color) in bricks))
    ensures ok ==> forall c :: InRect(c, bounds) ==>
              exists a :: a in panel.bricks && Covers(a, panel.bricks[a].size, c)
    ensures !ok ==> exists c :: InRect(c, bounds) && Brick(Point(1, 1), img(c)) !in bricks
  {
    panel := new Panel(bounds);
    var h := new Helper(bricks, img, panel);
    ok := true;
    var y := bounds.min.y;
    while y < bounds.max.y
      invariant h.Valid() && h.panel == panel && h.img == img && panel.bounds == bounds
      invariant Anchored(panel.bricks, bounds, h.allowed)
      invariant bounds.min.y <= y
      invariant forall c :: InRect(c, bounds) && c.y < y ==> c in h.visited
    {
      ok := ScanRow(h, y);
      if !ok {
        break;
      }
      y := y + 1;
    }
    AnchoredIsAllowed(panel.bricks, bounds, h.allowed);
  }

  /**
   * One row of the scan: x runs over the bounds left to right at row y. The
   * row is fully covered afterwards unless some cell of it has a colour with no
   * allowed 1x1 brick.
   */
  method ScanRow(h: Helper, y: int) returns (ok: bool)
    requires h.Valid() && Anchored(h.panel.bricks, h.panel.bounds, h.allowed)
    requires h.panel.bounds.min.y <= y < h.panel.bounds.max.y
    modifies h, h.panel
    ensures h.Valid() && Anchored(h.panel.bricks, h.panel.bounds, h.allowed)
    ensures old(h.visited) <= h.visited
    ensures Extends(h.panel.bricks, old(h.panel.bricks))
    ensures forall a :: a in h.panel.bricks && a !in old(h.panel.bricks) ==>
              a.y == y && h.panel.bounds.min.x <= a.x < h.panel.bounds.max.x
    ensures ok ==> forall c :: InRect(c, h.panel.bounds) && c.y == y ==> c in h.visited
    ensures !ok ==> exists c :: InRect(c, h.panel.bounds) && c.y == y && c !in h.visited &&
                      Brick(Point(1, 1), h.img(c)) !in h.allowed
  {
    var bounds := h.panel.bounds;
    ghost var start := h.panel.bricks;
    var x := bounds.min.x;
    while x < bounds.max.x
      invariant h.Valid() && Anchored(h.panel.bricks, bounds, h.allowed)
      invariant old(h.visited) <= h.visited
      invariant Extends(h.panel.bricks, start)
      invariant forall a :: a in h.panel.bricks && a !in start ==> a.y == y && bounds.min.x <= a.x < x
      invariant bounds.min.x <= x
      invariant forall c :: InRect(c, bounds) && c.y == y && c.x < x ==> c in h.visited
    {
      var p := Point(x, y);
      ghost var before, mid := h.visited, h.panel.bricks;
      var r := h.PlaceBrick(p, h.img(p));
      OneByOneFallback(h.allowed, before, h.img, p, h.img(p));
      if r == ImpossibleFit {
        assert InRect(p, bounds) && p !in h.visited;
        return false;
      }
      if r.Placed? {
        FirstFitSound(TryOrder(h.allowed, h.img(p)), before, h.img, p);
        AnchoredPlace(mid, bounds, h.allowed, p, r.brick, h.img(p));
        ExtendsPlace(start, mid, p, r.brick);
      }
      assert before <= h.visited && p in h.visited;
      forall c | InRect(c, bounds) && c.y == y && c.x < x + 1
        ensures c in h.visited
      {
        if c.x == x {
          assert c == p;
        }
      }
      x := x + 1;
    }
    return true;
  }

  /** Every placement of earlier is still in placed, with the same brick. */
  ghost predicate Extends(placed: map<Point, Brick>, earlier: map<Point, Brick>) {
    forall a :: a in earlier ==> a in placed && placed[a] == earlier[a]
  }

  /** Adding a brick at a new anchor keeps every placement made so far. */
  lemma ExtendsPlace(start: map<Point, Brick>, placed: map<Point, Brick>, p: Point, b: Brick)
    requires Extends(placed, start) && p !in placed
    ensures Extends(placed[p := b], start)
  {
  }

  /** Placing a tried brick at an anchor inside the bounds keeps every placement anchored and tried. */
  lemma AnchoredPlace(placed: map<Point, Brick>, bounds: Rect, allowed: set<Brick>, p: Point, b: Brick, color: Color)
    requires Anchored(placed, bounds, allowed) && InRect(p, bounds)
    requires b in TryOrder(allowed, color)
    ensures Anchored(placed[p := b], bounds, allowed)
  {
    CandidatesAreListedShapes(TryShapes(), allowed, color, b);
  }
}
