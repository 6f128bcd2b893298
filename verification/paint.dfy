/** Painting the brush into a tile layer, extracting a brush from a layer and
    resizing a layer.

    Each operation has a cell-wise definition (a function, used by the rest of
    the model) and a method that walks the grids with the same loops as the
    editor and is proved to compute exactly that definition.
 */
module Paint {
  import opened Tiles
  import opened Grids

  /** The clamp helper of the engine's math header. */
  function Clamp(v: int, lo: int, hi: int): int {
    if v < lo then lo else if v > hi then hi else v
  }

  function Min(a: int, b: int): int { if a < b then a else b }
  function Max(a: int, b: int): int { if a > b then a else b }

  // ---------------------------------------------------------------------
  // Single stamp

  /** The brush stamped with its top-left corner on layer cell (px, py):
      a layer cell covered by the brush takes the brush tile, every other
      cell keeps its tile; brush cells falling outside the layer are lost. */
  function Stamp(layer: Grid, brush: Grid, px: int, py: int): (r: Grid)
    requires Valid(layer) && Valid(brush)
    ensures Valid(r) && r.width == layer.width && r.height == layer.height
    ensures forall x, y :: InBounds(r, x, y) && InBounds(brush, x - px, y - py) ==>
              Get(r, x, y) == Get(brush, x - px, y - py)
    ensures forall x, y :: InBounds(r, x, y) && !InBounds(brush, x - px, y - py) ==>
              Get(r, x, y) == Get(layer, x, y)
  {
    Build(layer.width, layer.height,
      (x, y) => if InBounds(brush, x - px, y - py) then Get(brush, x - px, y - py) else Get(layer, x, y))
  }

  /** Brush cell (cx, cy) comes before row `ty`, column `tx` of the
      row-by-row walk over the brush. */
  predicate Visited(cx: int, cy: int, tx: int, ty: int) {
    cy < ty || (cy == ty && cx < tx)
  }

  /** The editor's stamp loop: visits every brush cell row by row and writes
      it to the layer when the target cell lies inside the layer. */
  method BrushPaintLayer(layer: Grid, brush: Grid, paintTX: int, paintTY: int) returns (r: Grid)
    requires Valid(layer) && Valid(brush)
    ensures r == Stamp(layer, brush, paintTX, paintTY)
  {
    r := layer;
    var ty := 0;
    while ty < brush.height
      invariant 0 <= ty <= brush.height
      invariant Valid(r) && r.width == layer.width && r.height == layer.height
      invariant forall x, y :: InBounds(layer, x, y) ==>
                  Get(r, x, y) == if InBounds(brush, x - paintTX, y - paintTY) && y - paintTY < ty
                                  then Get(brush, x - paintTX, y - paintTY) else Get(layer, x, y)
    {
      var tx := 0;
      while tx < brush.width
        invariant 0 <= tx <= brush.width
        invariant Valid(r) && r.width == layer.width && r.height == layer.height
        invariant forall x, y :: InBounds(layer, x, y) ==>
                    Get(r, x, y) == if InBounds(brush, x - paintTX, y - paintTY)
                                       && Visited(x - paintTX, y - paintTY, tx, ty)
                                    then Get(brush, x - paintTX, y - paintTY) else Get(layer, x, y)
      {
        var layerTx := tx + paintTX;
        var layerTy := ty + paintTY;
        if !(layerTx < 0 || layerTx > layer.width - 1 || layerTy < 0 || layerTy > layer.height - 1) {
          r := SetCell(r, layerTx, layerTy, Get(brush, tx, ty));
        }
        tx := tx + 1;
      }
      ty := ty + 1;
    }
    Extensionality(r, Stamp(layer, brush, paintTX, paintTY));
  }

  /** Stamping the same brush twice at the same place changes nothing more. */
  lemma {:induction false} StampIdempotent(layer: Grid, brush: Grid, px: int, py: int)
    requires Valid(layer) && Valid(brush)
    ensures Stamp(Stamp(layer, brush, px, py), brush, px, py) == Stamp(layer, brush, px, py)
  {
    var once := Stamp(layer, brush, px, py);
    Extensionality(Stamp(once, brush, px, py), once);
  }

  // ---------------------------------------------------------------------
  // Repeated fill of a rectangle

  predicate InRect(x: int, y: int, px: int, py: int, pw: int, ph: int) {
    px <= x < px + pw && py <= y < py + ph
  }

  /** The brush repeated like wallpaper over the `pw` x `ph` rectangle whose
      top-left cell is (px, py), the pattern anchored at that corner; cells
      outside the rectangle keep their tiles. */
  function FillRect(layer: Grid, brush: Grid, px: int, py: int, pw: int, ph: int): (r: Grid)
    requires Valid(layer) && Valid(brush)
    requires pw <= 0 || ph <= 0 || (brush.width > 0 && brush.height > 0)
    ensures Valid(r) && r.width == layer.width && r.height == layer.height
    ensures forall x, y :: InBounds(r, x, y) && !InRect(x, y, px, py, pw, ph) ==>
              Get(r, x, y) == Get(layer, x, y)
  {
    Build(layer.width, layer.height,
      (x, y) => if InRect(x, y, px, py, pw, ph)
                then Get(brush, (x - px) % brush.width, (y - py) % brush.height)
                else Get(layer, x, y))
  }

  /** The editor's fill loop: walks the rectangle row by row, picks brush cell
      (tx mod width, ty mod height) for rectangle cell (tx, ty) and writes it
      when the target lies inside the layer. */
  method BrushPaintLayerFillRectRepeat(layer: Grid, brush: Grid, paintTX: int, paintTY: int,
                                       paintW: int, paintH: int) returns (r: Grid)
    requires Valid(layer) && Valid(brush)
    requires paintW <= 0 || paintH <= 0 || (brush.width > 0 && brush.height > 0)
    ensures r == FillRect(layer, brush, paintTX, paintTY, paintW, paintH)
  {
    r := layer;
    var ty := 0;
    while ty < paintH
      invariant 0 <= ty && (paintH > 0 ==> ty <= paintH)
      invariant Valid(r) && r.width == layer.width && r.height == layer.height
      invariant forall x, y :: InBounds(layer, x, y) ==>
                  Get(r, x, y) == if InRect(x, y, paintTX, paintTY, paintW, paintH) && y - paintTY < ty
                                  then Get(brush, (x - paintTX) % brush.width, (y - paintTY) % brush.height)
                                  else Get(layer, x, y)
    {
      var tx := 0;
      while tx < paintW
        invariant 0 <= tx && (paintW > 0 ==> tx <= paintW)
        invariant Valid(r) && r.width == layer.width && r.height == layer.height
        invariant forall x, y :: InBounds(layer, x, y) ==>
                    Get(r, x, y) == if InRect(x, y, paintTX, paintTY, paintW, paintH)
                                       && Visited(x - paintTX, y - paintTY, tx, ty)
                                    then Get(brush, (x - paintTX) % brush.width, (y - paintTY) % brush.height)
                                    else Get(layer, x, y)
      {
        var brushTile := Get(brush, tx % brush.width, ty % brush.height);
        var layerTx := tx + paintTX;
        var layerTy := ty + paintTY;
        if !(layerTx < 0 || layerTx > layer.width - 1 || layerTy < 0 || layerTy > layer.height - 1) {
          r := SetCell(r, layerTx, layerTy, brushTile);
        }
        tx := tx + 1;
      }
      ty := ty + 1;
    }
    Extensionality(r, FillRect(layer, brush, paintTX, paintTY, paintW, paintH));
  }

  /** Inside the rectangle and the layer, the fill shows brush cell
      ((x - px) mod width, (y - py) mod height). */
  lemma FillRectCell(layer: Grid, brush: Grid, px: int, py: int, pw: int, ph: int, x: int, y: int)
    requires Valid(layer) && Valid(brush) && brush.width > 0 && brush.height > 0
    requires InBounds(layer, x, y) && InRect(x, y, px, py, pw, ph)
    ensures Get(FillRect(layer, brush, px, py, pw, ph), x, y)
         == Get(brush, (x - px) % brush.width, (y - py) % brush.height)
  {
  }

  /** A 1x1 brush fills the part of the rectangle inside the layer with its
      one tile. */
  lemma {:induction false} FillRectUniform(layer: Grid, t: Tile, px: int, py: int, pw: int, ph: int)
    requires Valid(layer)
    ensures var r := FillRect(layer, Grid(1, 1, [t]), px, py, pw, ph);
            forall x, y :: InBounds(layer, x, y) && InRect(x, y, px, py, pw, ph) ==> Get(r, x, y) == t
  {
    var b := Grid(1, 1, [t]);
    forall x, y | InBounds(layer, x, y) && InRect(x, y, px, py, pw, ph)
      ensures Get(FillRect(layer, b, px, py, pw, ph), x, y) == t
    {
      FillRectCell(layer, b, px, py, pw, ph, x, y);
    }
  }

  /** The fill repeats with the brush's period along both axes. */
  lemma {:induction false} FillRectPeriodic(layer: Grid, brush: Grid, px: int, py: int, pw: int, ph: int,
                                            x: int, y: int)
    requires Valid(layer) && Valid(brush) && brush.width > 0 && brush.height > 0
    requires InBounds(layer, x, y) && InRect(x, y, px, py, pw, ph)
    ensures var r := FillRect(layer, brush, px, py, pw, ph);
            && (InBounds(layer, x + brush.width, y) && InRect(x + brush.width, y, px, py, pw, ph) ==>
                  Get(r, x + brush.width, y) == Get(r, x, y))
            && (InBounds(layer, x, y + brush.height) && InRect(x, y + brush.height, px, py, pw, ph) ==>
                  Get(r, x, y + brush.height) == Get(r, x, y))
  {
    var bw, bh := brush.width, brush.height;
    FillRectCell(layer, brush, px, py, pw, ph, x, y);
    if InBounds(layer, x + bw, y) && InRect(x + bw, y, px, py, pw, ph) {
      FillRectCell(layer, brush, px, py, pw, ph, x + bw, y);
      ModShift(x - px, bw);
    }
    if InBounds(layer, x, y + bh) && InRect(x, y + bh, px, py, pw, ph) {
      FillRectCell(layer, brush, px, py, pw, ph, x, y + bh);
      ModShift(y - py, bh);
    }
  }

  lemma ModShift(a: int, n: int)
    requires n > 0
    ensures (a + n) % n == a % n
  {
    DivModUnique(a + n, n, a / n + 1, a % n);
  }

  lemma ModSmall(a: int, n: int)
    requires 0 <= a < n
    ensures a % n == a
  {
    DivModUnique(a, n, 0, a);
  }

  /** Filling a rectangle exactly the size of the brush is a single stamp. */
  lemma {:induction false} FillBrushSizedRectIsStamp(layer: Grid, brush: Grid, px: int, py: int)
    requires Valid(layer) && Valid(brush) && brush.width > 0 && brush.height > 0
    ensures FillRect(layer, brush, px, py, brush.width, brush.height) == Stamp(layer, brush, px, py)
  {
    var f := FillRect(layer, brush, px, py, brush.width, brush.height);
    var s := Stamp(layer, brush, px, py);
    forall x, y | InBounds(layer, x, y)
      ensures Get(f, x, y) == Get(s, x, y)
    {
      if InRect(x, y, px, py, brush.width, brush.height) {
        FillRectCell(layer, brush, px, py, brush.width, brush.height, x, y);
        ModSmall(x - px, brush.width);
        ModSmall(y - py, brush.height);
      }
    }
    Extensionality(f, s);
  }

  // ---------------------------------------------------------------------
  // Extracting a brush from a layer

  /** The drag rectangle from (startTX, startTY) to (endTX, endTY), taken in
      either direction and clamped to the layer: columns x0 .. x1-1 and rows
      y0 .. y1-1. */
  datatype Region = Region(x0: int, y0: int, x1: int, y1: int)

  function SelectionRegion(layer: Grid, startTX: int, startTY: int, endTX: int, endTY: int): (g: Region)
    requires layer.width > 0 && layer.height > 0
    ensures 0 <= g.x0 < g.x1 <= layer.width && 0 <= g.y0 < g.y1 <= layer.height
  {
    Region(Clamp(Min(startTX, endTX), 0, layer.width - 1),
           Clamp(Min(startTY, endTY), 0, layer.height - 1),
           Clamp(Max(startTX, endTX), 0, layer.width - 1) + 1,
           Clamp(Max(startTY, endTY), 0, layer.height - 1) + 1)
  }

  /** The brush copied out of the clamped drag rectangle. */
  function RegionToBrush(layer: Grid, startTX: int, startTY: int, endTX: int, endTY: int): (r: Grid)
    requires Valid(layer) && layer.width > 0 && layer.height > 0
    ensures IsBrush(r)
    ensures 1 <= r.width <= layer.width && 1 <= r.height <= layer.height
    ensures var g := SelectionRegion(layer, startTX, startTY, endTX, endTY);
            && r.width == g.x1 - g.x0 && r.height == g.y1 - g.y0
            && forall x, y :: InBounds(r, x, y) ==> Get(r, x, y) == Get(layer, g.x0 + x, g.y0 + y)
  {
    Crop(layer, SelectionRegion(layer, startTX, startTY, endTX, endTY))
  }

  /** The cells of `layer` inside region `g`, as a grid of their own. */
  function Crop(layer: Grid, g: Region): (r: Grid)
    requires 0 <= g.x0 < g.x1 <= layer.width && 0 <= g.y0 < g.y1 <= layer.height
    ensures Valid(r) && r.width == g.x1 - g.x0 && r.height == g.y1 - g.y0
    ensures forall x, y :: InBounds(r, x, y) ==> Get(r, x, y) == Get(layer, g.x0 + x, g.y0 + y)
  {
    Build(g.x1 - g.x0, g.y1 - g.y0, (x, y) => Get(layer, g.x0 + x, g.y0 + y))
  }

  /** The row-major position of a layer cell. */
  function Flat(w: int, x: int, y: int): int { y * w + x }

  /** The cells of `r` whose layer position comes before flat index `ti`
      hold the layer's tiles; the others are still empty. */
  ghost predicate ExtractedBefore(layer: Grid, g: Region, r: Grid, ti: int) {
    forall x, y :: InBounds(r, x, y) ==>
      Get(r, x, y) == if Flat(layer.width, g.x0 + x, g.y0 + y) < ti
                      then Get(layer, g.x0 + x, g.y0 + y) else EmptyTile
  }

  predicate InWindow(g: Region, lw: int, ti: int)
    requires lw > 0
  {
    0 <= ti % lw - g.x0 < g.x1 - g.x0 && 0 <= ti / lw - g.y0 < g.y1 - g.y0
  }

  /** The editor's extraction loop: walks the flat layer indices from the
      region's first cell to just past its last cell, keeping the indices
      whose column and row fall inside the region. */
  method TileLayerRegionToBrush(layer: Grid, startTX: int, startTY: int, endTX: int, endTY: int)
    returns (r: Grid)
    requires Valid(layer) && layer.width > 0 && layer.height > 0
    ensures r == RegionToBrush(layer, startTX, startTY, endTX, endTY)
  {
    var g := SelectionRegion(layer, startTX, startTY, endTX, endTY);
    var width, height := g.x1 - g.x0, g.y1 - g.y0;
    var lw := layer.width;
    r := Build(width, height, (x, y) => EmptyTile);
    var startTid := Flat(lw, g.x0, g.y0);
    var lastTid := Flat(lw, g.x1, g.y1 - 1);
    RegionFlatBounds(layer, g);
    ExtractStart(layer, g, r);
    var ti := startTid;
    while ti < lastTid
      invariant 0 <= startTid <= ti <= lastTid
      invariant Valid(r) && r.width == width && r.height == height
      invariant ExtractedBefore(layer, g, r, ti)
    {
      r := CopyIfInside(layer, g, r, ti);
      ti := ti + 1;
    }
    ExtractDone(layer, g, r, lastTid);
    Extensionality(r, RegionToBrush(layer, startTX, startTY, endTX, endTY));
  }

  /** The loop body: copies layer tile `ti` into the brush when its column
      and row fall inside the region. */
  method CopyIfInside(layer: Grid, g: Region, r: Grid, ti: int) returns (r': Grid)
    requires Valid(layer) && 0 <= g.x0 < g.x1 <= layer.width && 0 <= g.y0 < g.y1 <= layer.height
    requires Valid(r) && r.width == g.x1 - g.x0 && r.height == g.y1 - g.y0
    requires 0 <= ti && ExtractedBefore(layer, g, r, ti)
    ensures Valid(r') && r'.width == r.width && r'.height == r.height
    ensures ExtractedBefore(layer, g, r', ti + 1)
  {
    var tx := ti % layer.width - g.x0;
    var ty := ti / layer.width - g.y0;
    ExtractStep(layer, g, r, ti);
    if tx >= 0 && tx < r.width && ty >= 0 && ty < r.height {
      assert InWindow(g, layer.width, ti);
      r' := SetCell(r, tx, ty, layer.tiles[ti]);
    } else {
      r' := r;
    }
  }

  /** One step of the extraction loop keeps `ExtractedBefore`. */
  lemma ExtractStep(layer: Grid, g: Region, r: Grid, ti: int)
    requires Valid(layer) && 0 <= g.x0 < g.x1 <= layer.width && 0 <= g.y0 < g.y1 <= layer.height
    requires Valid(r) && r.width == g.x1 - g.x0 && r.height == g.y1 - g.y0
    requires 0 <= ti && ExtractedBefore(layer, g, r, ti)
    ensures InWindow(g, layer.width, ti) ==>
              && ti < |layer.tiles|
              && ExtractedBefore(layer, g, SetCell(r, ti % layer.width - g.x0, ti / layer.width - g.y0, layer.tiles[ti]), ti + 1)
    ensures !InWindow(g, layer.width, ti) ==> ExtractedBefore(layer, g, r, ti + 1)
  {
    var lw := layer.width;
    var tx, ty := ti % lw - g.x0, ti / lw - g.y0;
    assert Flat(lw, g.x0 + tx, g.y0 + ty) == ti;
    forall x, y | InBounds(r, x, y) && Flat(lw, g.x0 + x, g.y0 + y) == ti
      ensures tx == x && ty == y
    {
      DivModCell(g.x0 + x, g.y0 + y, lw);
    }
    if InWindow(g, lw, ti) {
      LayerIndexCell(layer, ti);
    }
  }

  /** Before the walk no region cell has been copied: every cell of the
      region lies at or after its first cell. */
  lemma ExtractStart(layer: Grid, g: Region, r: Grid)
    requires 0 <= g.x0 < g.x1 <= layer.width && 0 <= g.y0 < g.y1 <= layer.height
    requires Valid(r) && forall x, y :: InBounds(r, x, y) ==> Get(r, x, y) == EmptyTile
    ensures ExtractedBefore(layer, g, r, Flat(layer.width, g.x0, g.y0))
  {
    forall x, y | InBounds(r, x, y)
      ensures Flat(layer.width, g.x0 + x, g.y0 + y) >= Flat(layer.width, g.x0, g.y0)
    {
      MulMonotone(g.y0, g.y0 + y, layer.width);
    }
  }

  /** When the walk reaches its end every region cell has been copied. */
  lemma ExtractDone(layer: Grid, g: Region, r: Grid, lastTid: int)
    requires Valid(layer) && 0 <= g.x0 < g.x1 <= layer.width && 0 <= g.y0 < g.y1 <= layer.height
    requires Valid(r) && r.width == g.x1 - g.x0 && r.height == g.y1 - g.y0
    requires lastTid == Flat(layer.width, g.x1, g.y1 - 1)
    requires ExtractedBefore(layer, g, r, lastTid)
    ensures forall x, y :: InBounds(r, x, y) ==> Get(r, x, y) == Get(layer, g.x0 + x, g.y0 + y)
  {
    forall x, y | InBounds(r, x, y)
      ensures Flat(layer.width, g.x0 + x, g.y0 + y) < lastTid
    {
      MulMonotone(g.y0 + y, g.y1 - 1, layer.width);
    }
  }

  lemma RegionFlatBounds(layer: Grid, g: Region)
    requires 0 <= g.x0 < g.x1 <= layer.width && 0 <= g.y0 < g.y1 <= layer.height
    ensures 0 <= Flat(layer.width, g.x0, g.y0) <= Flat(layer.width, g.x1, g.y1 - 1)
  {
    MulMonotone(g.y0, g.y1 - 1, layer.width);
  }

  /** Flat index `ti` of a valid layer holds the cell (ti mod width, ti / width). */
  lemma LayerIndexCell(layer: Grid, ti: int)
    requires Valid(layer) && layer.width > 0
    requires 0 <= ti && 0 <= ti / layer.width < layer.height
    ensures 0 <= ti < |layer.tiles|
    ensures Get(layer, ti % layer.width, ti / layer.width) == layer.tiles[ti]
  {
    var x, y := ti % layer.width, ti / layer.width;
    assert ti == y * layer.width + x;
    CellIndexBound(x, y, layer.width, layer.height);
  }

  /** The extracted brush does not depend on the direction of the drag. */
  lemma DragDirection(layer: Grid, startTX: int, startTY: int, endTX: int, endTY: int)
    requires Valid(layer) && layer.width > 0 && layer.height > 0
    ensures RegionToBrush(layer, startTX, startTY, endTX, endTY)
         == RegionToBrush(layer, endTX, endTY, startTX, startTY)
    ensures RegionToBrush(layer, startTX, startTY, endTX, endTY)
         == RegionToBrush(layer, startTX, endTY, endTX, startTY)
  {
    var g := SelectionRegion(layer, startTX, startTY, endTX, endTY);
    assert SelectionRegion(layer, endTX, endTY, startTX, startTY) == g;
    assert SelectionRegion(layer, startTX, endTY, endTX, startTY) == g;
  }

  /** Dragging from (5, 5) to (3, 7) over a large enough layer selects
      columns 3 to 5 and rows 5 to 7. */
  lemma SelectionRegionExample(layer: Grid)
    requires layer.width >= 8 && layer.height >= 8
    ensures SelectionRegion(layer, 5, 5, 3, 7) == Region(3, 5, 6, 8)
  {
  }

  /** Stamping an extracted brush back at the region's corner restores the
      layer exactly. */
  lemma {:induction false} ExtractStampRoundTrip(layer: Grid, startTX: int, startTY: int, endTX: int, endTY: int)
    requires Valid(layer) && layer.width > 0 && layer.height > 0
    ensures var g := SelectionRegion(layer, startTX, startTY, endTX, endTY);
            Stamp(layer, RegionToBrush(layer, startTX, startTY, endTX, endTY), g.x0, g.y0) == layer
  {
    var g := SelectionRegion(layer, startTX, startTY, endTX, endTY);
    var b := RegionToBrush(layer, startTX, startTY, endTX, endTY);
    StampCopyOfWindow(layer, b, g.x0, g.y0);
  }

  /** Stamping a brush that already matches the layer under it is a no-op. */
  lemma {:induction false} StampCopyOfWindow(layer: Grid, b: Grid, px: int, py: int)
    requires Valid(layer) && Valid(b)
    requires forall x, y :: InBounds(b, x, y) ==> Get(b, x, y) == Get(layer, px + x, py + y)
    ensures Stamp(layer, b, px, py) == layer
  {
    var s := Stamp(layer, b, px, py);
    forall x, y | InBounds(layer, x, y)
      ensures Get(s, x, y) == Get(layer, x, y)
    {
      if InBounds(b, x - px, y - py) {
        assert Get(b, x - px, y - py) == Get(layer, px + (x - px), py + (y - py));
      }
    }
    Extensionality(s, layer);
  }

  // ---------------------------------------------------------------------
  // Resizing a layer

  /** The layer reallocated to `newWidth` x `newHeight`: the cells both sizes
      share keep their tiles, new cells are empty. */
  function Resize(layer: Grid, newWidth: nat, newHeight: nat): (r: Grid)
    requires Valid(layer) && newWidth > 0 && newHeight > 0
    ensures Valid(r) && r.width == newWidth && r.height == newHeight
    ensures forall x, y :: InBounds(r, x, y) && InBounds(layer, x, y) ==> Get(r, x, y) == Get(layer, x, y)
    ensures forall x, y :: InBounds(r, x, y) && !InBounds(layer, x, y) ==> Get(r, x, y) == EmptyTile
  {
    if newWidth == layer.width && newHeight == layer.height then layer
    else Build(newWidth, newHeight, (x, y) => if InBounds(layer, x, y) then Get(layer, x, y) else EmptyTile)
  }

  /** The editor's resize loop: a fresh zeroed buffer into which every old cell
      that still fits is copied. */
  method TileLayerResize(layer: Grid, newWidth: nat, newHeight: nat) returns (r: Grid)
    requires Valid(layer) && newWidth > 0 && newHeight > 0
    ensures r == Resize(layer, newWidth, newHeight)
  {
    if newWidth == layer.width && newHeight == layer.height {
      return layer;
    }
    r := Build(newWidth, newHeight, (x, y) => EmptyTile);
    var oty := 0;
    while oty < layer.height
      invariant 0 <= oty <= layer.height
      invariant Valid(r) && r.width == newWidth && r.height == newHeight
      invariant forall x, y :: InBounds(r, x, y) ==>
                  Get(r, x, y) == if InBounds(layer, x, y) && y < oty then Get(layer, x, y) else EmptyTile
    {
      var otx := 0;
      while otx < layer.width
        invariant 0 <= otx <= layer.width
        invariant Valid(r) && r.width == newWidth && r.height == newHeight
        invariant forall x, y :: InBounds(r, x, y) ==>
                    Get(r, x, y) == if InBounds(layer, x, y) && Visited(x, y, otx, oty)
                                    then Get(layer, x, y) else EmptyTile
      {
        if !(oty > newHeight - 1 || otx > newWidth - 1) {
          r := SetCell(r, otx, oty, Get(layer, otx, oty));
        }
        otx := otx + 1;
      }
      oty := oty + 1;
    }
    Extensionality(r, Resize(layer, newWidth, newHeight));
  }

  /** Growing a layer and shrinking it back to its old size gives back the
      original layer. */
  lemma {:induction false} ResizeGrowShrink(layer: Grid, newWidth: nat, newHeight: nat)
    requires Valid(layer) && layer.width > 0 && layer.height > 0
    requires newWidth >= layer.width && newHeight >= layer.height
    ensures Resize(Resize(layer, newWidth, newHeight), layer.width, layer.height) == layer
  {
    var r := Resize(Resize(layer, newWidth, newHeight), layer.width, layer.height);
    Extensionality(r, layer);
  }
}
