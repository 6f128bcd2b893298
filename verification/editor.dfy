/** The editor's state and its recorded edits.

    The editor holds the map being edited, the selected layer and group, the
    active tool, the brush, the tile selection and the undo history. Every
    edit changes the map and then records a history entry holding a copy of
    the new map and of the UI selection (layer, group, tool). Undo and redo
    restore a neighbouring entry: its map, its UI selection, and always an
    empty brush and no tile selection.

    Entries are committed with the corrected `History.NewEntry`, which drops
    the redo branch before allocating a slot.
 */
module Editor {
  import opened Wrappers
  import opened Tiles
  import opened Grids
  import opened Paint
  import opened BrushTransforms
  import opened Selection
  import opened Maps
  import opened History

  datatype Tool = ToolSelect | ToolTileBrush | ToolDimension

  /** CUISnapshot: the UI selection stored with each history entry. */
  datatype UiSnapshot = UiSnapshot(layer: int, group: int, tool: Tool)

  type Log = Pool<EditorMap, UiSnapshot>

  datatype Editor = Editor(edited: EditorMap, layer: int, group: int, tool: Tool,
                           brush: Grid, selection: TileSelection, history: Log)

  // ---------------------------------------------------------------------
  // Tools and brush

  function BrushClear(ed: Editor): (r: Editor)
    ensures IsBrush(r.brush) && r.brush.width == 0
    ensures r.(brush := ed.brush) == ed
  {
    ed.(brush := EmptyBrush)
  }

  /** Switching to another tool; leaving the tile brush drops the brush. */
  function ChangeTool(ed: Editor, tool: Tool): (r: Editor)
    ensures r.tool == tool
    ensures ed.tool == ToolTileBrush && tool != ToolTileBrush ==> r.brush == EmptyBrush
    ensures ed.tool != ToolTileBrush || tool == ToolTileBrush ==> r.brush == ed.brush
    ensures r.(tool := ed.tool, brush := ed.brush) == ed
  {
    if ed.tool == tool then ed
    else if ed.tool == ToolTileBrush then BrushClear(ed).(tool := tool)
    else ed.(tool := tool)
  }

  /** Choosing the same tool twice is choosing it once, and a brush left
      behind by switching away from the tile brush is gone on coming back. */
  lemma ChangeToolSettles(ed: Editor, tool: Tool)
    ensures ChangeTool(ChangeTool(ed, tool), tool) == ChangeTool(ed, tool)
    ensures ed.tool == ToolTileBrush && tool != ToolTileBrush ==>
              ChangeTool(ChangeTool(ed, tool), ToolTileBrush) == ed.(brush := EmptyBrush)
  {
  }

  // ---------------------------------------------------------------------
  // UI snapshots

  function SaveUiSnapshot(ed: Editor): UiSnapshot {
    UiSnapshot(ed.layer, ed.group, ed.tool)
  }

  /** The selected layer and group of `u` exist in map `m`. */
  predicate UiValidIn(m: EditorMap, u: UiSnapshot) {
    LayerValid(m, u.layer) && GroupValid(m, u.group)
  }

  /** Restores layer, group and tool (the editor asserts that the layer and
      group exist) and clears brush and tile selection. */
  function RestoreUiSnapshot(ed: Editor, u: UiSnapshot): (r: Editor)
    requires UiValidIn(ed.edited, u)
    ensures SaveUiSnapshot(r) == u && UiValidIn(r.edited, SaveUiSnapshot(r))
    ensures r.brush == EmptyBrush && !r.selection.active
    ensures r.edited == ed.edited && r.history == ed.history
  {
    BrushClear(ed.(layer := u.layer, group := u.group, tool := u.tool)).(selection := Deselect(ed.selection))
  }

  /** Restoring the snapshot just taken changes only brush and selection. */
  lemma SaveRestoreRoundTrip(ed: Editor)
    requires UiValidIn(ed.edited, SaveUiSnapshot(ed))
    ensures RestoreUiSnapshot(ed, SaveUiSnapshot(ed)) == ed.(brush := EmptyBrush, selection := Deselect(ed.selection))
  {
  }

  // ---------------------------------------------------------------------
  // History on the editor

  /** Slot `i` holds both snapshots and its UI selection exists in its map. */
  predicate Restorable(h: Log, i: nat) {
    && i < |h.entries| && h.entries[i].snap.Some? && h.entries[i].ui.Some?
    && UiValidIn(h.entries[i].snap.value, h.entries[i].ui.value)
  }

  /** Undo or redo along `link` passes the editor's assertions. */
  predicate StepAllowed(h: Log, link: Option<nat>) {
    link.Some? ==> Restorable(h, link.value)
  }

  /** HistoryRestoreToEntry: the entry's map, then its UI selection, and the
      entry becomes current. */
  function RestoreToEntry(ed: Editor, i: nat): (r: Editor)
    requires Restorable(ed.history, i)
    ensures Some(r.edited) == ed.history.entries[i].snap
    ensures Some(SaveUiSnapshot(r)) == ed.history.entries[i].ui
    ensures r.history == ed.history.(current := Some(i))
    ensures r.brush == EmptyBrush && !r.selection.active
  {
    var e := ed.history.entries[i];
    RestoreUiSnapshot(ed.(edited := e.snap.value), e.ui.value).(history := ed.history.(current := Some(i)))
  }

  /** The live map is the one the current entry holds. */
  predicate Synced(ed: Editor) {
    CurrentInRange(ed.history) && ed.history.entries[ed.history.current.value].snap == Some(ed.edited)
  }

  function Undo(ed: Editor): (r: Editor)
    requires CurrentInRange(ed.history)
    requires StepAllowed(ed.history, ed.history.entries[ed.history.current.value].prev)
    ensures r.history == StepBack(ed.history)
    ensures ed.history.entries[ed.history.current.value].prev.None? ==> r == ed
    ensures ed.history.entries[ed.history.current.value].prev.Some? ==>
              Synced(r) && r.brush == EmptyBrush && !r.selection.active
              && UiValidIn(r.edited, SaveUiSnapshot(r))
  {
    match ed.history.entries[ed.history.current.value].prev
    case None => ed
    case Some(k) => RestoreToEntry(ed, k)
  }

  function Redo(ed: Editor): (r: Editor)
    requires CurrentInRange(ed.history)
    requires StepAllowed(ed.history, ed.history.entries[ed.history.current.value].next)
    ensures r.history == StepForward(ed.history)
    ensures ed.history.entries[ed.history.current.value].next.None? ==> r == ed
    ensures ed.history.entries[ed.history.current.value].next.Some? ==>
              Synced(r) && r.brush == EmptyBrush && !r.selection.active
              && UiValidIn(r.edited, SaveUiSnapshot(r))
  {
    match ed.history.entries[ed.history.current.value].next
    case None => ed
    case Some(k) => RestoreToEntry(ed, k)
  }

  /** A commit is possible: there is a current entry and, once its redo
      branch is dropped, a slot to take. */
  predicate Committable(h: Log) {
    CurrentInRange(h) && CanAlloc(FreeFrom(h, h.entries[h.current.value].next, |h.entries|))
  }

  /** `after` is `before` with one more entry committed, holding `m` and
      `u`, as `History.CommitsAfter` states it. */
  ghost predicate Recorded(before: Log, after: Log, m: EditorMap, u: UiSnapshot) {
    && CurrentInRange(before) && WellFormed(after) && |after.entries| == |before.entries|
    && CommitsAfter(before, after, m, u)
  }

  /** HistoryNewEntry on the editor: the live map and UI selection become the
      new current entry; nothing else changes. */
  function Commit(ed: Editor, action: string, description: string): (r: Editor)
    requires Committable(ed.history)
    ensures Recorded(ed.history, r.history, ed.edited, SaveUiSnapshot(ed))
    ensures Synced(r)
    ensures r.(history := ed.history) == ed
  {
    ed.(history := NewEntry(ed.history, action, description, ed.edited, SaveUiSnapshot(ed)))
  }

  /** An edit: the map becomes `m'` and the result is committed. */
  function Record(ed: Editor, m': EditorMap, action: string, description: string): (r: Editor)
    requires Committable(ed.history)
    ensures r.edited == m' && Synced(r)
    ensures Recorded(ed.history, r.history, m', SaveUiSnapshot(ed))
    ensures r.(edited := ed.edited, history := ed.history) == ed
  {
    Commit(ed.(edited := m'), action, description)
  }

  /** The history of a running editor: a timeline in a pool of at least two
      slots, every entry on which can be restored. */
  ghost predicate Sound(h: Log, t: seq<nat>) {
    && Timeline(h, t) && |h.entries| >= 2
    && forall k :: 0 <= k < |t| ==> Restorable(h, t[k])
  }

  /** Recording an edit whose UI selection exists in the edited map keeps
      the history sound, and the new map is the current entry's. */
  lemma {:induction false} RecordKeepsSound(ed: Editor, t: seq<nat>, m': EditorMap, action: string, description: string)
    returns (t': seq<nat>)
    requires Sound(ed.history, t) && UiValidIn(m', SaveUiSnapshot(ed))
    ensures Committable(ed.history)
    ensures Sound(Record(ed, m', action, description).history, t')
  {
    var h := ed.history;
    var u := SaveUiSnapshot(ed);
    t' := NewEntryKeepsTimeline(h, t, action, description, m', u);
    var r := Record(ed, m', action, description);
    assert r.history == NewEntry(h, action, description, m', u);
    var c := r.history.current.value;
    assert Restorable(r.history, c);
    KeptRestorable(h, r.history, t, t', IndexOf(t, h.current.value));
  }

  /** Entries carried over from `t` into `t'` keep their snapshots, so they
      stay restorable; `t'` is a prefix or a proper suffix of `t` followed by
      the current entry of `h'`. */
  lemma KeptRestorable(h: Log, h': Log, t: seq<nat>, t': seq<nat>, j: nat)
    requires |h'.entries| == |h.entries| && j < |t| && |t'| >= 1
    requires forall k :: 0 <= k < |t| ==> Restorable(h, t[k])
    requires t'[..|t'| - 1] == t[..j + 1] || t'[..|t'| - 1] == t[1..]
    requires forall i :: 0 <= i < |h'.entries| && i != t'[|t'| - 1] ==>
               h'.entries[i].snap == h.entries[i].snap && h'.entries[i].ui == h.entries[i].ui
    requires Restorable(h', t'[|t'| - 1])
    ensures forall k :: 0 <= k < |t'| ==> Restorable(h', t'[k])
  {
    var last := |t'| - 1;
    forall k | 0 <= k < |t'|
      ensures Restorable(h', t'[k])
    {
      if t'[k] != t'[last] {
        assert t'[k] == t'[..last][k];
        var k0 := if t'[..last] == t[..j + 1] then k else k + 1;
        assert t'[k] == t[k0];
        assert Restorable(h, t[k0]);
      }
    }
  }

  /** Undo right after recording an edit returns to the map of the entry
      that was current before the edit (the pre-edit map when the editor was
      in sync), with `current` back where it was; redo does nothing. */
  lemma {:induction false} UndoAfterRecord(ed: Editor, t: seq<nat>, m': EditorMap, action: string, description: string)
    requires Sound(ed.history, t) && UiValidIn(m', SaveUiSnapshot(ed))
    ensures Committable(ed.history)
    ensures var r := Record(ed, m', action, description);
            && CurrentInRange(r.history)
            && StepAllowed(r.history, r.history.entries[r.history.current.value].prev)
            && StepAllowed(r.history, r.history.entries[r.history.current.value].next)
            && Some(Undo(r).edited) == ed.history.entries[ed.history.current.value].snap
            && Undo(r).history.current == ed.history.current
            && (Synced(ed) ==> Undo(r).edited == ed.edited)
            && Redo(r) == r
  {
    var h := ed.history;
    var u := SaveUiSnapshot(ed);
    var t' := NewEntryKeepsTimeline(h, t, action, description, m', u);
    var r := Record(ed, m', action, description);
    var _ := RecordKeepsSound(ed, t, m', action, description);
    CommitThenStep(h, t, action, description, m', u);
    assert r.history == NewEntry(h, action, description, m', u);
    var c := r.history.current.value;
    assert c == t'[|t'| - 1];
    assert r.history.entries[c].prev == Some(h.current.value);
    assert r.history.entries[c].next == None;
    assert h.current.value == t'[|t'| - 2];
  }

  /** Undo and redo keep the history sound and may always be applied. */
  lemma {:induction false} StepsKeepSound(ed: Editor, t: seq<nat>)
    requires Sound(ed.history, t)
    ensures CurrentInRange(ed.history)
    ensures StepAllowed(ed.history, ed.history.entries[ed.history.current.value].prev)
    ensures StepAllowed(ed.history, ed.history.entries[ed.history.current.value].next)
    ensures Sound(Undo(ed).history, t) && Sound(Redo(ed).history, t)
  {
    var h := ed.history;
    var j := IndexOf(t, h.current.value);
    StepsKeepTimeline(h, t);
    if j > 0 {
      assert h.entries[t[j]].prev == Some(t[j - 1]);
    }
    if j + 1 < |t| {
      assert h.entries[t[j]].next == Some(t[j + 1]);
    }
  }

  /** Redo after undo comes back to the same entry: the map and `current`
      are those of before, the UI selection is the entry's, and brush and
      tile selection are cleared. */
  lemma {:induction false} UndoRedoRoundTrip(ed: Editor, t: seq<nat>)
    requires Sound(ed.history, t) && Synced(ed)
    requires ed.history.entries[ed.history.current.value].prev.Some?
    ensures StepAllowed(ed.history, ed.history.entries[ed.history.current.value].prev)
    ensures var u := Undo(ed);
            && CurrentInRange(u.history)
            && StepAllowed(u.history, u.history.entries[u.history.current.value].next)
            && Redo(u) == RestoreUiSnapshot(ed, ed.history.entries[ed.history.current.value].ui.value)
  {
    var h := ed.history;
    StepsKeepSound(ed, t);
    StepRoundTrips(h, t);
    var u := Undo(ed);
    StepsKeepSound(u, t);
    assert u.history.entries == h.entries;
  }

  // ---------------------------------------------------------------------
  // Loading a map

  /** After a map is loaded: the game layer and group are selected, the
      brush is dropped and the history restarts with one entry holding the
      loaded map, described by its path. */
  function MapLoaded(ed: Editor, m: EditorMap, path: string): (r: Editor)
    requires WellFormed(ed.history) && |ed.history.entries| > 0
    ensures r.edited == m && r.layer == m.gameLayerId && r.group == m.gameGroupId
    ensures r.brush == EmptyBrush && r.tool == ed.tool
    ensures Timeline(r.history, [0]) && Synced(r)
    ensures r.history.entries[0].ui == Some(SaveUiSnapshot(r))
  {
    var ed' := BrushClear(ed.(edited := m, layer := m.gameLayerId, group := m.gameGroupId));
    ed'.(history := Start(ed.history, path, m, SaveUiSnapshot(ed')))
  }

  /** A map holding its game layer and group starts a sound history. */
  lemma MapLoadedSound(ed: Editor, m: EditorMap, path: string)
    requires WellFormed(ed.history) && |ed.history.entries| >= 2
    requires LayerValid(m, m.gameLayerId) && GroupValid(m, m.gameGroupId)
    ensures Sound(MapLoaded(ed, m, path).history, [0])
  {
  }

  // ---------------------------------------------------------------------
  // Tile edits

  function LayerGrid(m: EditorMap, id: int): Grid
    requires IsTileLayer(m, id)
  {
    m.layers[id].grid
  }

  function WithGrid(m: EditorMap, id: int, g: Grid): (r: EditorMap)
    ensures IsTileLayer(m, id) && Grids.Valid(g) ==> IsTileLayer(r, id) && LayerGrid(r, id) == g
    ensures r.groups == m.groups && r.layers.Keys == m.layers.Keys + {id}
    ensures forall k :: k in m.layers && k != id ==> r.layers[k] == m.layers[k]
  {
    m.(layers := m.layers[id := TileLayer(g)])
  }

  /** EditBrushPaintLayer: the brush stamped at (px, py), recorded. */
  function EditBrushPaintLayer(ed: Editor, px: int, py: int, id: int): (r: Editor)
    requires IsTileLayer(ed.edited, id) && Grids.Valid(ed.brush) && Committable(ed.history)
    ensures IsTileLayer(r.edited, id) && r.edited.groups == ed.edited.groups
    ensures LayerGrid(r.edited, id) == Stamp(LayerGrid(ed.edited, id), ed.brush, px, py)
    ensures Recorded(ed.history, r.history, r.edited, SaveUiSnapshot(ed))
  {
    Record(ed, WithGrid(ed.edited, id, Stamp(LayerGrid(ed.edited, id), ed.brush, px, py)),
           "brush paint", "")
  }

  /** EditBrushPaintLayerFillRectRepeat: the brush repeated over the
      rectangle, recorded. */
  function EditBrushPaintLayerFillRectRepeat(ed: Editor, px: int, py: int, pw: int, ph: int, id: int): (r: Editor)
    requires IsTileLayer(ed.edited, id) && Grids.Valid(ed.brush) && Committable(ed.history)
    requires pw <= 0 || ph <= 0 || (ed.brush.width > 0 && ed.brush.height > 0)
    ensures IsTileLayer(r.edited, id) && r.edited.groups == ed.edited.groups
    ensures LayerGrid(r.edited, id) == FillRect(LayerGrid(ed.edited, id), ed.brush, px, py, pw, ph)
    ensures Recorded(ed.history, r.history, r.edited, SaveUiSnapshot(ed))
  {
    Record(ed, WithGrid(ed.edited, id, FillRect(LayerGrid(ed.edited, id), ed.brush, px, py, pw, ph)),
           "brush paint", "")
  }

  /** EditTileLayerResize: nothing happens (and nothing is recorded) when the
      size stays; otherwise the layer is reallocated and the change recorded. */
  function EditTileLayerResize(ed: Editor, id: int, newWidth: int, newHeight: int): (r: Editor)
    requires IsTileLayer(ed.edited, id) && newWidth > 0 && newHeight > 0
    requires newWidth != LayerGrid(ed.edited, id).width || newHeight != LayerGrid(ed.edited, id).height ==>
               Committable(ed.history)
    ensures newWidth == LayerGrid(ed.edited, id).width && newHeight == LayerGrid(ed.edited, id).height ==> r == ed
    ensures IsTileLayer(r.edited, id)
    ensures LayerGrid(r.edited, id).width == newWidth && LayerGrid(r.edited, id).height == newHeight
    ensures r.edited.groups == ed.edited.groups
    ensures newWidth != LayerGrid(ed.edited, id).width || newHeight != LayerGrid(ed.edited, id).height ==>
              && LayerGrid(r.edited, id) == Resize(LayerGrid(ed.edited, id), newWidth, newHeight)
              && Recorded(ed.history, r.history, r.edited, SaveUiSnapshot(ed))
  {
    var g := LayerGrid(ed.edited, id);
    if newWidth == g.width && newHeight == g.height then ed
    else Record(ed, WithGrid(ed.edited, id, Resize(g, newWidth, newHeight)), "resized", "")
  }

  // ---------------------------------------------------------------------
  // Flipping the tile selection

  /** The selection's cells copied into a brush, mirrored, and stamped back
      at the selection's start corner. */
  function FlipRegionX(layer: Grid, s: TileSelection): (r: Grid)
    requires Grids.Valid(layer) && layer.width > 0 && layer.height > 0
    ensures Grids.Valid(r) && r.width == layer.width && r.height == layer.height
  {
    Stamp(layer, FlipX(RegionToBrush(layer, s.startTX, s.startTY, s.endTX, s.endTY)), s.startTX, s.startTY)
  }

  function FlipRegionY(layer: Grid, s: TileSelection): (r: Grid)
    requires Grids.Valid(layer) && layer.width > 0 && layer.height > 0
    ensures Grids.Valid(r) && r.width == layer.width && r.height == layer.height
  {
    Stamp(layer, FlipY(RegionToBrush(layer, s.startTX, s.startTY, s.endTX, s.endTY)), s.startTX, s.startTY)
  }

  /** The selection lies inside the layer, start corner first. */
  predicate Inside(layer: Grid, s: TileSelection) {
    0 <= s.startTX <= s.endTX < layer.width && 0 <= s.startTY <= s.endTY < layer.height
  }

  predicate InSelection(s: TileSelection, x: int, y: int) {
    s.startTX <= x <= s.endTX && s.startTY <= y <= s.endTY
  }

  /** The brush cut from an inside selection has the selection's size. */
  lemma RegionBrushSize(layer: Grid, s: TileSelection)
    requires Grids.Valid(layer) && Inside(layer, s)
    ensures var b := RegionToBrush(layer, s.startTX, s.startTY, s.endTX, s.endTY);
            && b.width == s.endTX - s.startTX + 1 && b.height == s.endTY - s.startTY + 1
            && forall x, y :: InBounds(b, x, y) ==> Get(b, x, y) == Get(layer, s.startTX + x, s.startTY + y)
  {
  }

  /** One cell of a stamp, read inside and outside the brush. */
  lemma StampCell(layer: Grid, f: Grid, px: int, py: int, x: int, y: int)
    requires Grids.Valid(layer) && Grids.Valid(f) && InBounds(layer, x, y)
    ensures InBounds(f, x - px, y - py) ==> Get(Stamp(layer, f, px, py), x, y) == Get(f, x - px, y - py)
    ensures !InBounds(f, x - px, y - py) ==> Get(Stamp(layer, f, px, py), x, y) == Get(layer, x, y)
  {
  }

  lemma FlipXCell(b: Grid, x: int, y: int)
    requires Grids.Valid(b) && InBounds(b, x, y)
    ensures FlipX(b).width == b.width && FlipX(b).height == b.height
    ensures Get(FlipX(b), x, y) == FlipXTile(Get(b, b.width - 1 - x, y))
  {
  }

  lemma FlipYCell(b: Grid, x: int, y: int)
    requires Grids.Valid(b) && InBounds(b, x, y)
    ensures FlipY(b).width == b.width && FlipY(b).height == b.height
    ensures Get(FlipY(b), x, y) == FlipYTile(Get(b, x, b.height - 1 - y))
  {
  }

  /** Cell (x, y) of an inside selection, read through the mirrored brush. */
  lemma FlippedRegionCellX(layer: Grid, s: TileSelection, x: int, y: int)
    requires Grids.Valid(layer) && Inside(layer, s) && InSelection(s, x, y)
    ensures var f := FlipX(RegionToBrush(layer, s.startTX, s.startTY, s.endTX, s.endTY));
            && InBounds(f, x - s.startTX, y - s.startTY)
            && Get(f, x - s.startTX, y - s.startTY) == FlipXTile(Get(layer, s.startTX + s.endTX - x, y))
  {
    RegionBrushSize(layer, s);
    MirroredCellX(layer, RegionToBrush(layer, s.startTX, s.startTY, s.endTX, s.endTY), s, x, y);
  }

  /** The same for any brush holding the selection's cells. */
  lemma MirroredCellX(layer: Grid, b: Grid, s: TileSelection, x: int, y: int)
    requires Grids.Valid(b) && InSelection(s, x, y)
    requires b.width == s.endTX - s.startTX + 1 && b.height == s.endTY - s.startTY + 1
    requires forall u, v :: InBounds(b, u, v) ==> Get(b, u, v) == Get(layer, s.startTX + u, s.startTY + v)
    ensures InBounds(FlipX(b), x - s.startTX, y - s.startTY)
    ensures Get(FlipX(b), x - s.startTX, y - s.startTY) == FlipXTile(Get(layer, s.startTX + s.endTX - x, y))
  {
    var u, v := x - s.startTX, y - s.startTY;
    FlipXCell(b, u, v);
    assert Get(b, b.width - 1 - u, v) == Get(layer, s.startTX + (b.width - 1 - u), s.startTY + v);
    assert s.startTX + (b.width - 1 - u) == s.startTX + s.endTX - x;
    assert s.startTY + v == y;
  }

  lemma FlipRegionXCell(layer: Grid, s: TileSelection, x: int, y: int)
    requires Grids.Valid(layer) && Inside(layer, s) && InBounds(layer, x, y)
    ensures InSelection(s, x, y) ==>
              Get(FlipRegionX(layer, s), x, y) == FlipXTile(Get(layer, s.startTX + s.endTX - x, y))
    ensures !InSelection(s, x, y) ==> Get(FlipRegionX(layer, s), x, y) == Get(layer, x, y)
  {
    if InSelection(s, x, y) {
      FlipRegionXIn(layer, s, x, y);
    } else {
      FlipRegionXOut(layer, s, x, y);
    }
  }

  lemma FlipRegionXIn(layer: Grid, s: TileSelection, x: int, y: int)
    requires Grids.Valid(layer) && Inside(layer, s) && InBounds(layer, x, y) && InSelection(s, x, y)
    ensures Get(FlipRegionX(layer, s), x, y) == FlipXTile(Get(layer, s.startTX + s.endTX - x, y))
  {
    var f := FlipX(RegionToBrush(layer, s.startTX, s.startTY, s.endTX, s.endTY));
    FlippedRegionCellX(layer, s, x, y);
    StampCell(layer, f, s.startTX, s.startTY, x, y);
  }

  lemma FlipRegionXOut(layer: Grid, s: TileSelection, x: int, y: int)
    requires Grids.Valid(layer) && Inside(layer, s) && InBounds(layer, x, y) && !InSelection(s, x, y)
    ensures Get(FlipRegionX(layer, s), x, y) == Get(layer, x, y)
  {
    var f := FlipX(RegionToBrush(layer, s.startTX, s.startTY, s.endTX, s.endTY));
    RegionBrushSize(layer, s);
    StampCell(layer, f, s.startTX, s.startTY, x, y);
  }

  lemma FlippedRegionCellY(layer: Grid, s: TileSelection, x: int, y: int)
    requires Grids.Valid(layer) && Inside(layer, s) && InSelection(s, x, y)
    ensures var f := FlipY(RegionToBrush(layer, s.startTX, s.startTY, s.endTX, s.endTY));
            && InBounds(f, x - s.startTX, y - s.startTY)
            && Get(f, x - s.startTX, y - s.startTY) == FlipYTile(Get(layer, x, s.startTY + s.endTY - y))
  {
    RegionBrushSize(layer, s);
    MirroredCellY(layer, RegionToBrush(layer, s.startTX, s.startTY, s.endTX, s.endTY), s, x, y);
  }

  lemma MirroredCellY(layer: Grid, b: Grid, s: TileSelection, x: int, y: int)
    requires Grids.Valid(b) && InSelection(s, x, y)
    requires b.width == s.endTX - s.startTX + 1 && b.height == s.endTY - s.startTY + 1
    requires forall u, v :: InBounds(b, u, v) ==> Get(b, u, v) == Get(layer, s.startTX + u, s.startTY + v)
    ensures InBounds(FlipY(b), x - s.startTX, y - s.startTY)
    ensures Get(FlipY(b), x - s.startTX, y - s.startTY) == FlipYTile(Get(layer, x, s.startTY + s.endTY - y))
  {
    var u, v := x - s.startTX, y - s.startTY;
    FlipYCell(b, u, v);
    assert Get(b, u, b.height - 1 - v) == Get(layer, s.startTX + u, s.startTY + (b.height - 1 - v));
    assert s.startTY + (b.height - 1 - v) == s.startTY + s.endTY - y;
    assert s.startTX + u == x;
  }

  lemma FlipRegionYCell(layer: Grid, s: TileSelection, x: int, y: int)
    requires Grids.Valid(layer) && Inside(layer, s) && InBounds(layer, x, y)
    ensures InSelection(s, x, y) ==>
              Get(FlipRegionY(layer, s), x, y) == FlipYTile(Get(layer, x, s.startTY + s.endTY - y))
    ensures !InSelection(s, x, y) ==> Get(FlipRegionY(layer, s), x, y) == Get(layer, x, y)
  {
    if InSelection(s, x, y) {
      FlipRegionYIn(layer, s, x, y);
    } else {
      FlipRegionYOut(layer, s, x, y);
    }
  }

  lemma FlipRegionYIn(layer: Grid, s: TileSelection, x: int, y: int)
    requires Grids.Valid(layer) && Inside(layer, s) && InBounds(layer, x, y) && InSelection(s, x, y)
    ensures Get(FlipRegionY(layer, s), x, y) == FlipYTile(Get(layer, x, s.startTY + s.endTY - y))
  {
    var f := FlipY(RegionToBrush(layer, s.startTX, s.startTY, s.endTX, s.endTY));
    FlippedRegionCellY(layer, s, x, y);
    StampCell(layer, f, s.startTX, s.startTY, x, y);
  }

  lemma FlipRegionYOut(layer: Grid, s: TileSelection, x: int, y: int)
    requires Grids.Valid(layer) && Inside(layer, s) && InBounds(layer, x, y) && !InSelection(s, x, y)
    ensures Get(FlipRegionY(layer, s), x, y) == Get(layer, x, y)
  {
    var f := FlipY(RegionToBrush(layer, s.startTX, s.startTY, s.endTX, s.endTY));
    RegionBrushSize(layer, s);
    StampCell(layer, f, s.startTX, s.startTY, x, y);
  }

  /** Flipping an inside selection horizontally mirrors its columns, each
      tile's flags mirrored as well, and leaves every other cell alone. */
  lemma FlipRegionXMirrors(layer: Grid, s: TileSelection)
    requires Grids.Valid(layer) && Inside(layer, s)
    ensures forall x, y :: InBounds(layer, x, y) && InSelection(s, x, y) ==>
              Get(FlipRegionX(layer, s), x, y) == FlipXTile(Get(layer, s.startTX + s.endTX - x, y))
    ensures forall x, y :: InBounds(layer, x, y) && !InSelection(s, x, y) ==>
              Get(FlipRegionX(layer, s), x, y) == Get(layer, x, y)
  {
    forall x, y | InBounds(layer, x, y) {
      FlipRegionXCell(layer, s, x, y);
    }
  }

  /** Flipping an inside selection vertically mirrors its rows. */
  lemma FlipRegionYMirrors(layer: Grid, s: TileSelection)
    requires Grids.Valid(layer) && Inside(layer, s)
    ensures forall x, y :: InBounds(layer, x, y) && InSelection(s, x, y) ==>
              Get(FlipRegionY(layer, s), x, y) == FlipYTile(Get(layer, x, s.startTY + s.endTY - y))
    ensures forall x, y :: InBounds(layer, x, y) && !InSelection(s, x, y) ==>
              Get(FlipRegionY(layer, s), x, y) == Get(layer, x, y)
  {
    forall x, y | InBounds(layer, x, y) {
      FlipRegionYCell(layer, s, x, y);
    }
  }

  /** Mirroring the columns of a selection twice gives back the grid. */
  lemma {:induction false} MirrorTwiceX(layer: Grid, once: Grid, twice: Grid, s: TileSelection)
    requires Grids.Valid(layer) && Grids.Valid(twice) && Inside(layer, s)
    requires twice.width == layer.width && twice.height == layer.height
    requires forall x, y :: InBounds(layer, x, y) && InSelection(s, x, y) ==>
               Get(once, x, y) == FlipXTile(Get(layer, s.startTX + s.endTX - x, y))
    requires forall x, y :: InBounds(layer, x, y) && InSelection(s, x, y) ==>
               Get(twice, x, y) == FlipXTile(Get(once, s.startTX + s.endTX - x, y))
    requires forall x, y :: InBounds(layer, x, y) && !InSelection(s, x, y) ==> Get(once, x, y) == Get(layer, x, y)
    requires forall x, y :: InBounds(layer, x, y) && !InSelection(s, x, y) ==> Get(twice, x, y) == Get(once, x, y)
    ensures twice == layer
  {
    forall x, y | InBounds(layer, x, y)
      ensures Get(twice, x, y) == Get(layer, x, y)
    {
      if InSelection(s, x, y) {
        var x' := s.startTX + s.endTX - x;
        assert InBounds(layer, x', y) && InSelection(s, x', y);
        assert s.startTX + s.endTX - x' == x;
        FlagInverses(Get(layer, x, y).flags);
      }
    }
    Extensionality(twice, layer);
  }

  /** Mirroring the rows of a selection twice gives back the grid. */
  lemma {:induction false} MirrorTwiceY(layer: Grid, once: Grid, twice: Grid, s: TileSelection)
    requires Grids.Valid(layer) && Grids.Valid(twice) && Inside(layer, s)
    requires twice.width == layer.width && twice.height == layer.height
    requires forall x, y :: InBounds(layer, x, y) && InSelection(s, x, y) ==>
               Get(once, x, y) == FlipYTile(Get(layer, x, s.startTY + s.endTY - y))
    requires forall x, y :: InBounds(layer, x, y) && InSelection(s, x, y) ==>
               Get(twice, x, y) == FlipYTile(Get(once, x, s.startTY + s.endTY - y))
    requires forall x, y :: InBounds(layer, x, y) && !InSelection(s, x, y) ==> Get(once, x, y) == Get(layer, x, y)
    requires forall x, y :: InBounds(layer, x, y) && !InSelection(s, x, y) ==> Get(twice, x, y) == Get(once, x, y)
    ensures twice == layer
  {
    forall x, y | InBounds(layer, x, y)
      ensures Get(twice, x, y) == Get(layer, x, y)
    {
      if InSelection(s, x, y) {
        var y' := s.startTY + s.endTY - y;
        assert InBounds(layer, x, y') && InSelection(s, x, y');
        assert s.startTY + s.endTY - y' == y;
        FlagInverses(Get(layer, x, y).flags);
      }
    }
    Extensionality(twice, layer);
  }

  /** Flipping the same inside selection twice gives back the layer. */
  lemma {:induction false} FlipRegionXTwice(layer: Grid, s: TileSelection)
    requires Grids.Valid(layer) && Inside(layer, s)
    ensures FlipRegionX(FlipRegionX(layer, s), s) == layer
  {
    var once := FlipRegionX(layer, s);
    FlipRegionXMirrors(layer, s);
    FlipRegionXMirrors(once, s);
    MirrorTwiceX(layer, once, FlipRegionX(once, s), s);
  }

  lemma {:induction false} FlipRegionYTwice(layer: Grid, s: TileSelection)
    requires Grids.Valid(layer) && Inside(layer, s)
    ensures FlipRegionY(FlipRegionY(layer, s), s) == layer
  {
    var once := FlipRegionY(layer, s);
    FlipRegionYMirrors(layer, s);
    FlipRegionYMirrors(once, s);
    MirrorTwiceY(layer, once, FlipRegionY(once, s), s);
  }

  /** A tile layer the editor can cut a brush from. */
  predicate Cuttable(m: EditorMap, id: int) {
    IsTileLayer(m, id) && LayerGrid(m, id).width > 0 && LayerGrid(m, id).height > 0
  }

  /** EditTileSelectionFlipX: the selection mirrored through the brush, the
      brush cleared afterwards, and the change recorded. */
  function EditTileSelectionFlipX(ed: Editor, id: int): (r: Editor)
    requires Cuttable(ed.edited, id) && Committable(ed.history)
    ensures Cuttable(r.edited, id) && r.edited.groups == ed.edited.groups
    ensures LayerGrid(r.edited, id) == FlipRegionX(LayerGrid(ed.edited, id), ed.selection)
    ensures r.brush == EmptyBrush && r.selection == ed.selection
    ensures Recorded(ed.history, r.history, r.edited, SaveUiSnapshot(ed))
  {
    var g := LayerGrid(ed.edited, id);
    Record(BrushClear(ed), WithGrid(ed.edited, id, FlipRegionX(g, ed.selection)), "tile selection", "Flipped X")
  }

  function EditTileSelectionFlipY(ed: Editor, id: int): (r: Editor)
    requires Cuttable(ed.edited, id) && Committable(ed.history)
    ensures Cuttable(r.edited, id) && r.edited.groups == ed.edited.groups
    ensures LayerGrid(r.edited, id) == FlipRegionY(LayerGrid(ed.edited, id), ed.selection)
    ensures r.brush == EmptyBrush && r.selection == ed.selection
    ensures Recorded(ed.history, r.history, r.edited, SaveUiSnapshot(ed))
  {
    var g := LayerGrid(ed.edited, id);
    Record(BrushClear(ed), WithGrid(ed.edited, id, FlipRegionY(g, ed.selection)), "tile selection", "Flipped Y")
  }

  // ---------------------------------------------------------------------
  // Reordering and clipping

  datatype Moved = Moved(ed: Editor, index: int)

  /** EditGroupOrderMove: a move that changes the order is recorded. */
  function EditGroupOrderMove(ed: Editor, i: int, rel: int): (r: Moved)
    requires 0 <= i < |ed.edited.groups|
    requires GroupOrderMove(ed.edited, i, rel).changed ==> Committable(ed.history)
    ensures r.index == GroupOrderMove(ed.edited, i, rel).index
    ensures r.ed.edited == GroupOrderMove(ed.edited, i, rel).after
    ensures r.index == i ==> r.ed == ed
    ensures r.index != i ==> Recorded(ed.history, r.ed.history, r.ed.edited, SaveUiSnapshot(ed))
  {
    var mv := GroupOrderMove(ed.edited, i, rel);
    if mv.changed then Moved(Record(ed, mv.after, "change order", ""), mv.index)
    else Moved(ed, i)
  }

  /** EditLayerOrderMove, with the corrected move that never drops a layer;
      a move that changes the map is recorded. */
  function EditLayerOrderMove(ed: Editor, p: int, l: int, rel: int, maxLayers: int): (r: Moved)
    requires 0 <= p < |ed.edited.groups| && 0 <= l < |ed.edited.groups[p].layerIds|
    requires LayerOrderMove(ed.edited, p, l, rel, maxLayers).changed ==> Committable(ed.history)
    ensures r.index == LayerOrderMove(ed.edited, p, l, rel, maxLayers).index
    ensures r.ed.edited == LayerOrderMove(ed.edited, p, l, rel, maxLayers).after
    ensures !LayerOrderMove(ed.edited, p, l, rel, maxLayers).changed ==> r.ed == ed
    ensures LayerOrderMove(ed.edited, p, l, rel, maxLayers).changed ==>
              Recorded(ed.history, r.ed.history, r.ed.edited, SaveUiSnapshot(ed))
  {
    var mv := LayerOrderMove(ed.edited, p, l, rel, maxLayers);
    if mv.changed then Moved(Record(ed, mv.after, "change order", ""), mv.index)
    else Moved(ed, mv.index)
  }

  datatype ClipEdge = ClipLeft | ClipTop | ClipRight | ClipBottom

  function ClipChange(g: Group, edge: ClipEdge, v: int): ClipEdit {
    match edge
    case ClipLeft => ChangeClipX(g, v)
    case ClipTop => ChangeClipY(g, v)
    case ClipRight => ChangeClipRight(g, v)
    case ClipBottom => ChangeClipBottom(g, v)
  }

  /** EditHistCondGroupChangeClip*: an edge set to where it already is changes
      nothing; otherwise the group's clip rectangle changes, and the change
      is recorded only when the caller asks for it (sliders record once,
      at the end of a drag). */
  function EditGroupClip(ed: Editor, gid: int, edge: ClipEdge, v: int, historyCondition: bool): (r: Editor)
    requires GroupValid(ed.edited, gid)
    requires historyCondition && ClipChange(ed.edited.groups[FindGroup(ed.edited.groups, gid)], edge, v).changed ==>
               Committable(ed.history)
    ensures var k := FindGroup(ed.edited.groups, gid);
            var c := ClipChange(ed.edited.groups[k], edge, v);
            && (!c.changed ==> r == ed)
            && (c.changed ==> r.edited == ed.edited.(groups := ed.edited.groups[k := c.group]))
            && (c.changed && !historyCondition ==> r.history == ed.history)
            && (c.changed && historyCondition ==>
                  Recorded(ed.history, r.history, r.edited, SaveUiSnapshot(ed)))
  {
    var k := FindGroup(ed.edited.groups, gid);
    var c := ClipChange(ed.edited.groups[k], edge, v);
    var m' := ed.edited.(groups := ed.edited.groups[k := c.group]);
    if !c.changed then ed
    else if historyCondition then Record(ed, m', "changed clip", "")
    else ed.(edited := m')
  }
}
