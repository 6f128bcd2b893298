/** The tile selection of the select tool and how it is fitted to a layer.

    A selection is an inclusive rectangle of tile coordinates. Whenever the
    selected layer may have changed, the editor fits the selection to it: a
    selection overlapping the layer is clamped to the layer's cells, any other
    selection is dropped. Overlap is decided by the editor's rectangle
    intersection test, whose fourth comparison is mistyped (see
    `RectsIntersectAsWritten`).
 */
module Selection {
  import opened Paint

  /** An axis-aligned rectangle with its top-left corner and size. The editor
      uses floating-point rectangles, here only ever holding whole numbers. */
  datatype Rect = Rect(x: int, y: int, w: int, h: int)

  predicate CellIn(px: int, py: int, r: Rect) {
    r.x <= px < r.x + r.w && r.y <= py < r.y + r.h
  }

  /** The intersection test exactly as the editor writes it: its last
      comparison `Rect1.h + Rect2.y > Rect2.y` reduces to `Rect1.h > 0`, so
      the test never rejects a rectangle lying wholly above the other. */
  predicate RectsIntersectAsWritten(r1: Rect, r2: Rect) {
    && r1.x < r2.x + r2.w
    && r1.x + r1.w > r2.x
    && r1.y < r2.y + r2.h
    && r1.h + r2.y > r2.y
  }

  /** The intended intersection test, the fourth comparison reading
      `Rect1.y + Rect1.h > Rect2.y` like its horizontal counterpart. */
  predicate RectsIntersect(r1: Rect, r2: Rect) {
    && r1.x < r2.x + r2.w
    && r1.x + r1.w > r2.x
    && r1.y < r2.y + r2.h
    && r1.y + r1.h > r2.y
  }

  /** For rectangles of positive size, the corrected test holds exactly when
      the two share a cell. */
  lemma {:induction false} RectsIntersectIffSharedCell(r1: Rect, r2: Rect)
    requires r1.w > 0 && r1.h > 0 && r2.w > 0 && r2.h > 0
    ensures RectsIntersect(r1, r2) <==> exists px, py :: CellIn(px, py, r1) && CellIn(px, py, r2)
  {
    if RectsIntersect(r1, r2) {
      var px, py := Max(r1.x, r2.x), Max(r1.y, r2.y);
      assert CellIn(px, py, r1) && CellIn(px, py, r2);
    }
  }

  datatype TileSelection = TileSelection(startTX: int, startTY: int, endTX: int, endTY: int, active: bool)

  function Deselect(s: TileSelection): (r: TileSelection)
    ensures !r.active
  {
    s.(active := false)
  }

  /** The selection's cells as a rectangle. */
  function SelectionRect(s: TileSelection): Rect {
    Rect(s.startTX, s.startTY, s.endTX + 1 - s.startTX, s.endTY + 1 - s.startTY)
  }

  function LayerRect(layerWidth: int, layerHeight: int): Rect {
    Rect(0, 0, layerWidth, layerHeight)
  }

  /** The selection clamped to the layer's cells. */
  function ClampToLayer(s: TileSelection, layerWidth: int, layerHeight: int): TileSelection {
    s.(startTX := Clamp(s.startTX, 0, layerWidth - 1),
       startTY := Clamp(s.startTY, 0, layerHeight - 1),
       endTX := Clamp(s.endTX, 0, layerWidth - 1),
       endTY := Clamp(s.endTY, 0, layerHeight - 1))
  }

  /** Fitting with the intersection test as written. */
  function FitLayerAsWritten(s: TileSelection, layerWidth: int, layerHeight: int): TileSelection
    requires layerWidth > 0 && layerHeight > 0
  {
    if RectsIntersectAsWritten(SelectionRect(s), LayerRect(layerWidth, layerHeight))
    then ClampToLayer(s, layerWidth, layerHeight)
    else Deselect(s)
  }

  predicate Normalized(s: TileSelection) {
    s.startTX <= s.endTX && s.startTY <= s.endTY
  }

  ghost predicate OverlapsLayer(s: TileSelection, layerWidth: int, layerHeight: int) {
    exists px, py :: CellIn(px, py, SelectionRect(s)) && CellIn(px, py, LayerRect(layerWidth, layerHeight))
  }

  /** Fitting with the corrected test: a normalised selection sharing a cell
      with the layer is clamped into it and keeps its state, any other is
      dropped. */
  function FitLayer(s: TileSelection, layerWidth: int, layerHeight: int): (r: TileSelection)
    requires layerWidth > 0 && layerHeight > 0
    ensures Normalized(s) && OverlapsLayer(s, layerWidth, layerHeight) ==> r.active == s.active
    ensures Normalized(s) && OverlapsLayer(s, layerWidth, layerHeight) ==> r == ClampToLayer(s, layerWidth, layerHeight)
    ensures Normalized(s) && !OverlapsLayer(s, layerWidth, layerHeight) ==> r == Deselect(s)
    ensures r.active ==> (0 <= r.startTX < layerWidth && 0 <= r.endTX < layerWidth
                          && 0 <= r.startTY < layerHeight && 0 <= r.endTY < layerHeight)
  {
    if Normalized(s) then
      RectsIntersectIffSharedCell(SelectionRect(s), LayerRect(layerWidth, layerHeight));
      FitWithTest(s, layerWidth, layerHeight)
    else
      FitWithTest(s, layerWidth, layerHeight)
  }

  function FitWithTest(s: TileSelection, layerWidth: int, layerHeight: int): TileSelection
  {
    if RectsIntersect(SelectionRect(s), LayerRect(layerWidth, layerHeight))
    then ClampToLayer(s, layerWidth, layerHeight)
    else Deselect(s)
  }

  /** A fitted selection covers exactly the cells the selection shares with
      the layer. */
  lemma {:induction false} FitLayerCells(s: TileSelection, layerWidth: int, layerHeight: int, px: int, py: int)
    requires layerWidth > 0 && layerHeight > 0
    requires Normalized(s) && OverlapsLayer(s, layerWidth, layerHeight)
    ensures CellIn(px, py, SelectionRect(FitLayer(s, layerWidth, layerHeight)))
            <==> CellIn(px, py, SelectionRect(s)) && CellIn(px, py, LayerRect(layerWidth, layerHeight))
  {
    var qx, qy :| CellIn(qx, qy, SelectionRect(s)) && CellIn(qx, qy, LayerRect(layerWidth, layerHeight));
    assert s.startTX < layerWidth && s.endTX >= 0 && s.startTY < layerHeight && s.endTY >= 0;
  }

  /** A selection inside the layer is left as it is. */
  lemma FitLayerKeepsInsideSelection(s: TileSelection, layerWidth: int, layerHeight: int)
    requires layerWidth > 0 && layerHeight > 0
    requires 0 <= s.startTX <= s.endTX < layerWidth && 0 <= s.startTY <= s.endTY < layerHeight
    ensures FitLayer(s, layerWidth, layerHeight) == s
  {
  }

  /** The discrepancy: a selection whose rows all lie above the layer but
      whose columns overlap it shares no cell with the layer, yet the test as
      written lets it through and the selection is clamped onto row 0 instead
      of being dropped. */
  lemma {:induction false} SelectionAboveLayerSurvives(s: TileSelection, layerWidth: int, layerHeight: int)
    requires layerWidth > 0 && layerHeight > 0 && s.active
    requires s.startTY <= s.endTY < 0
    requires s.startTX <= s.endTX && s.startTX < layerWidth && s.endTX >= 0
    ensures !OverlapsLayer(s, layerWidth, layerHeight)
    ensures FitLayerAsWritten(s, layerWidth, layerHeight).active
    ensures FitLayerAsWritten(s, layerWidth, layerHeight).startTY == 0
    ensures FitLayerAsWritten(s, layerWidth, layerHeight).endTY == 0
    ensures !FitLayer(s, layerWidth, layerHeight).active
  {
  }

  /** The concrete case: rows -5 to -3 of column 0 over a 4x4 layer. */
  lemma SelectionAboveLayerExample()
    ensures FitLayerAsWritten(TileSelection(0, -5, 0, -3, true), 4, 4) == TileSelection(0, 0, 0, 0, true)
    ensures FitLayer(TileSelection(0, -5, 0, -3, true), 4, 4) == TileSelection(0, -5, 0, -3, false)
  {
  }
}
