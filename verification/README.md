# Lego mosaic tile packer, modelled in Dafny

The Go package `lego` turns a picture into a mosaic of Lego bricks. It shrinks
the picture and reduces it to the colours of the allowed bricks. Then it covers
the picture greedily with rectangular bricks. Each brick is one colour, and no
two bricks overlap. Finally it draws the mosaic and counts the bricks needed.
This project models the covering step and the small pieces around it:

- `bricks.dfy` (module `Bricks`): points, bricks, the basic shapes, `canonical`
  (smaller side first), and `generateBricks`, the colour-major catalogue
  builder.
- `packing.dfy` (module `Packing`): the packer's rules as functions of its
  state. It defines the cells a brick covers and when a brick fits: every
  covered cell is unvisited and has the brick's colour, with no bounds test.
  It defines the order in which bricks are tried for a cell: the basic shapes
  from last to first (2x4, 2x2, 1x4, 1x2, 1x1). A shape is tried only if its
  stored orientation is allowed in that colour. The stored orientation comes
  first, and the turned one follows, except for squares. The chosen brick is
  the first in that order that fits. The module also defines what a consistent
  set of placements is, and proves that each placement keeps it consistent.
- `panel.dfy` (module `Panels`): the imperative part.
  - `Panel` holds the anchor-to-brick map and the bounds, with `Size` and
    `CountBricks`.
  - `Helper` holds the visited set, the panel, the allowed set and the picture,
    with `Fit` and `PlaceBrick`.
  - `NewPanel` is the row-major scan that drives `PlaceBrick` over every cell.

The picture is a total function from cells to colours. Go's paletted image
answers `Palette[0]` for cells outside its rectangle, and `fit` never checks
bounds. So a brick can reach past the right or bottom edge when the
first palette colour is the brick's colour (`OverhangWithoutBoundsTest`).
Placements are guaranteed to stay inside the bounds under that condition (`PlacedInBounds`), and a brick of any colour other than the off-grid one always stays inside (`OtherColorsInBounds`).

Colours are opaque values compared by value. In the program, `NewPanel` passes
`m[dst.At(x, y)]` to `placeBrick`, and that value is the colour of the cell
itself. In the model, the colour passed is `img(p)`.

Three facts about the code shape the model:

- There is no unknown-colour error. Every cell's colour comes from the palette
  built from the bricks.
- The try order is the basic shapes reversed: 2x4, 2x2, 1x4, 1x2, 1x1. So 2x2
  is tried before 1x4.
- `fit` does not test bounds.

The program's `panic("Impossible fit")` becomes the `ImpossibleFit` outcome of
`PlaceBrick`, and `NewPanel` then returns `ok == false`.

## Model

| member | source | states |
|---|---|---|
| `Bricks.Canonical` | lego.go:83-88 | keeps the colour, puts the smaller side first, and the result is the brick's shape or its transpose; these three facts determine the result |
| `Bricks.CanonicalIdempotent` | lego.go:83-88 | canonicalising twice equals canonicalising once |
| `Bricks.CanonicalIgnoresOrientation` | lego.go:83-88 | a brick and its turned twin have the same canonical form, so 1x2 and 2x1 of one colour are counted together |
| `Bricks.CatalogueLength` | lego.go:52-60 | the catalogue has exactly one brick per (colour, shape) pair, |colors| * |shapes| in all |
| `Bricks.CatalogueAt` | lego.go:52-60 | colour-major layout: shape j of colour i is at index i * |shapes| + j |
| `Bricks.GenerateBricks` | lego.go:52-60 | the nested append loops build exactly the catalogue specification, of length |colors| * |shapes| |
| `Packing.FirstFitIsFirstFitting` | lego.go:140-154 | the chosen brick is b exactly when b is at the first index of the candidate list whose brick fits |
| `Packing.FirstFitNone` | lego.go:140-163 | nothing is chosen exactly when no candidate fits (the case that reaches the panic) |
| `Packing.FirstFitAppend` | lego.go:140-154 | trying the bricks of one shape and then the rest is trying their concatenation |
| `Packing.FirstFitSound` | lego.go:146-154 | the chosen brick is one of the candidates and fits |
| `Packing.TryShapesOrder` | lego.go:140-141 | shapes are tried as the basic shapes reversed: 2x4, 2x2, 1x4, 1x2, 1x1 |
| `Packing.TryOrderAllAllowed` | lego.go:140-154 | with every basic shape allowed in a colour, the full try order is 2x4, 4x2, 2x2, 1x4, 4x1, 1x2, 2x1, 1x1: stored before turned, squares once |
| `Packing.CandidatesAreListedShapes` | lego.go:140-154 | every tried brick has the requested colour and is a listed shape allowed in its stored orientation, or that shape turned when not square; bricks of other shapes are never tried |
| `Packing.AllowedShapesAreCandidates` | lego.go:140-154 | every listed shape allowed in its stored orientation is tried, and so is its turned twin when it is not square |
| `Packing.TurnedOnlyNeverTried` | lego.go:140-145 | the allowed set is tested in the stored orientation only: when only the 2x1 brick of a colour is listed, no brick is ever tried in that colour |
| `Packing.TryOrderPositive` | lego.go:63-65 | every tried brick has positive width and height |
| `Packing.OneByOneFallback` | lego.go:140-163 | at an unvisited cell of the given colour whose 1x1 brick is allowed, some brick is chosen; the chosen brick always covers the cell itself |
| `Packing.FootprintSize` | lego.go:155-159 | a w-by-h brick covers w * h cells |
| `Packing.EmptyIsConsistent` | lego.go:186-187 | no placements and no visited cells form a consistent start |
| `Packing.PlaceKeepsConsistent` | lego.go:155-161 | placing a fitting brick at a free cell adds a new anchor and keeps placements disjoint and single-coloured; the visited cells stay exactly the covered cells |
| `Packing.PlacedInBounds` | lego.go:121-134 | placements anchored in the bounds stay in the bounds when the off-grid colour differs from every on-grid colour |
| `Packing.OtherColorsInBounds` | lego.go:121-134 | when every cell outside the bounds has one off-grid colour, every placed brick of another colour lies inside the bounds |
| `Packing.OverhangWithoutBoundsTest` | lego.go:121-134 | without that condition a 2x4 brick is chosen on a 1x1 picture and covers cells outside it |
| `Panels.Panel.constructor` | lego.go:186 | a new panel has the given bounds and no bricks |
| `Panels.Panel.Size` | lego.go:218-220 | the size is the offset from the bounds' first corner to their far corner |
| `Panels.Panel.CountBricks` | lego.go:222-228 | every key is canonical; a key is present exactly when some placed brick has that canonical form; its count is the number of such placements; the counts add up to the number of placements |
| `Panels.CountStep` | lego.go:224-226 | counting one more placement adds one to its canonical brick's count and changes no other count |
| `Panels.CountedSum` | lego.go:222-228 | a complete tally's counts add up to the number of placements |
| `Panels.TallyWithout` | lego.go:222-228 | setting aside the placements of one canonical brick leaves a complete tally of the rest without that entry, and that entry's count is the number set aside |
| `Panels.UnitAnchorsAreCells` | lego.go:218-228 | when 1x1 bricks are anchored inside a rectangle and cover it, the anchors are exactly its cells |
| `Panels.UnitBricksFillPanel` | lego.go:218-228 | a panel fully covered by 1x1 bricks anchored inside it has width times height placements |
| `Panels.Helper.constructor` | lego.go:108-119 | nothing is visited yet, and a brick is allowed exactly when it is in the given list |
| `Panels.Helper.Fit` | lego.go:121-134 | returns true exactly when every cell of the brick's rectangle at p is unvisited and has the brick's colour |
| `Panels.Helper.PlaceBrick` | lego.go:136-164 | at a visited cell it changes nothing. Otherwise it places the first brick in the try order that fits. It visits exactly that brick's cells, which were free and of its colour, and adds the single entry p to brick. If nothing fits it reports ImpossibleFit and changes nothing. It keeps the visited set equal to the union of the placements |
| `Panels.Helper.Mark` | lego.go:155-159 | the visited set grows by exactly the brick's rectangle |
| `Panels.AnchoredIsAllowed` | lego.go:140-154 | every placed brick is a basic shape allowed as it stands, or the turned twin of a non-square basic shape that is allowed as it stands; a listed brick whose shape is not basic never leads to a placement |
| `Panels.ScanRow` | lego.go:189-191 | one row of the scan keeps every earlier placement and only adds visited cells. Every new placement is anchored at a cell of row y inside the bounds. Afterwards every cell of the row is visited, or the scan stopped at an unvisited cell of the row whose colour has no allowed 1x1 brick |
| `Panels.NewPanel` | lego.go:186-193 | the placements are disjoint, single-coloured and anchored in the bounds. Each is a basic shape listed in that orientation, or the turned twin of a listed non-square basic shape. On success every cell of the bounds is covered. Failure happens only at a cell whose colour has no 1x1 brick in the list |

## Left out

- Resizing the picture with Lanczos3 and the floating-point scale and height (lego.go:167-168, 179): floating point and a foreign library. `NewPanel` takes the already resized, quantised picture and its bounds.
- Palette quantisation and Floyd–Steinberg dithering (lego.go:180-185): library behaviour with colour-distance arithmetic. The palette map `m` (lego.go:170-177) only maps each cell's colour value back to its named colour, so it is not modelled; colour names are not modelled, so two colours with equal values but different names are one colour here.
- `Panel.Draw` (lego.go:196-216): pixel filling through `image/draw`.
- The colour table, `Color.Name`, `Color.Color` and the `BASIC_BRICKS`, `ADVANCED_BRICKS` and `ALL_BRICKS` catalogues (lego.go:17-45, 62-77): static data; the catalogue builder they use is modelled.
- `Brick.String` (lego.go:79-81): text formatting.
- Go map iteration order in `CountBricks`: the model takes the anchors in an arbitrary order, and its contract does not depend on the order.
- NewPanel: its contract does not repeat, cell by cell, which brick was chosen; that is `Helper.PlaceBrick`'s contract for each call of the scan. The inner loop of the scan is written as the separate method `ScanRow`.
- ScanRow: its contract does not give which brick is placed at each cell of the row; `Helper.PlaceBrick`'s contract gives that for each call.
- NewPanel: after a panic the program returns nothing; the model returns the partly filled panel with `ok == false`.
