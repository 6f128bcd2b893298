# Map editor brush pipeline and server vote bookkeeping, in Dafny

This project models two parts of a Teeworlds-based game (the fcatch mod):

- **The tile-map editor's brush pipeline and history** (`src/game/editor/editor2.cpp`):
  - tiles and their orientation flags;
  - the brush and its four transforms (mirror along X or Y, quarter turn either way);
  - stamping a brush onto a tile layer, and filling a rectangle with a brush repeated like wallpaper;
  - cutting a brush out of a dragged rectangle, and resizing a layer;
  - fitting a tile selection to a layer, and flipping the selected region;
  - moving groups and layers in the layer list, and editing a group's clip rectangle;
  - the `load`/`save` console path rule;
  - the bounded undo/redo history: a fixed pool of entry slots linked into one timeline, with map and UI snapshots.
- **The game server's vote bookkeeping** (`src/game/server/gamecontext.cpp`):
  - the per-tick tally, which counts one ballot per client address, and the majority decision;
  - casting a ballot;
  - the vote-option list (`add_vote`, `remove_vote`, `clear_votes`);
  - aborting a kick vote when its target disconnects.

## Modules

| Module | File | What it covers |
|---|---|---|
| `Wrappers` | `wrappers.dfy` | `Option`, which stands in for nullable pointers and links. |
| `Tiles` | `tiles.dfy` | Tiles, and the per-tile flag rewrites of the brush transforms. |
| `Grids` | `grids.dfy` | Row-major grids. They serve as brushes and as tile layers. |
| `BrushTransforms` | `brush_transforms.dfy` | The four brush transforms. |
| `Paint` | `paint.dfy` | The paint operations: stamp, repeated fill, brush extraction and layer resize. |
| `Selection` | `selection.dfy` | The rectangle intersection test and `FitLayer`. |
| `Maps` | `maps.dfy` | Groups and layers, the two order moves and the clip edits. |
| `History` | `history.dfy` | The history pool. |
| `Editor` | `editor.dfy` | The editor state that ties these together: tool, brush, selection, UI snapshot, and the `Edit*` operations that record history. |
| `Text` | `text.dfy` | Case-insensitive comparison. |
| `MapPath` | `map_path.dfy` | The `load`/`save` path rule. |
| `Votes` | `votes.dfy` | The server's vote code. |

Loops of the source appear as Dafny methods whose postcondition is a functional definition:

- `Paint.BrushPaintLayer`;
- `Paint.BrushPaintLayerFillRectRepeat`;
- `Paint.TileLayerRegionToBrush`;
- `Paint.TileLayerResize`;
- `Votes.Tally`.

The rest is written as pure functions with named results.

The flag constants follow the map format: VFLIP is 1, HFLIP is 2 and ROTATE is 8. The map-format header is not part of this model.

The brush mirror along X toggles HFLIP on a rotated tile and VFLIP otherwise (editor2.cpp line 3743).

## Model

E is `src/game/editor/editor2.cpp`, G is `src/game/server/gamecontext.cpp`.

| member | source | states |
|---|---|---|
| Tiles.FlipXFlags | src/game/editor/editor2.cpp:3743 | Mirroring along X keeps the rotation bit. It toggles exactly HFLIP on a rotated tile and exactly VFLIP otherwise. |
| Tiles.FlipYFlags | src/game/editor/editor2.cpp:3765 | Mirroring along Y keeps the rotation bit. It toggles exactly VFLIP on a rotated tile and exactly HFLIP otherwise. |
| Tiles.RotateCWFlags | src/game/editor/editor2.cpp:3787-3789 | A clockwise turn always flips the rotation bit. Both flip bits change as well when the tile was already rotated. |
| Tiles.RotateCCWFlags | src/game/editor/editor2.cpp:3814-3816 | A counter-clockwise turn always flips the rotation bit. Both flip bits change as well when the tile was not rotated. |
| Tiles.TransformsKeepOtherBits | src/game/editor/editor2.cpp:3726-3822 | No transform touches a flag bit outside VFLIP, HFLIP and ROTATE. |
| Tiles.FlagInverses | src/game/editor/editor2.cpp:3726-3822 | On the flags, each mirror undoes itself and the two quarter turns undo each other. |
| Tiles.HalfTurnFlags | src/game/editor/editor2.cpp:3770-3795 | Two clockwise turns rewrite the flags like the two mirrors do: both flip bits toggle. |
| BrushTransforms.FlipX | src/game/editor/editor2.cpp:3726-3746 | The brush keeps its size. Cell (x, y) holds the tile from column width-1-x of the same row, with flags rewritten. The empty brush is unchanged. |
| BrushTransforms.FlipY | src/game/editor/editor2.cpp:3748-3768 | The brush keeps its size. Cell (x, y) holds the tile from row height-1-y of the same column, with flags rewritten. The empty brush is unchanged. |
| BrushTransforms.RotateCW | src/game/editor/editor2.cpp:3770-3795 | Width and height swap. The tile at (tx, ty) moves to column height-1-ty of row tx. The empty brush is unchanged. |
| BrushTransforms.RotateCCW | src/game/editor/editor2.cpp:3797-3822 | Width and height swap. The tile at (tx, ty) moves to column ty of row width-1-tx. The empty brush is unchanged. |
| BrushTransforms.FlipXInvolution | src/game/editor/editor2.cpp:3726-3746 | Mirroring a brush along X twice gives back the brush. |
| BrushTransforms.FlipYInvolution | src/game/editor/editor2.cpp:3748-3768 | Mirroring a brush along Y twice gives back the brush. |
| BrushTransforms.RotateRoundTrip | src/game/editor/editor2.cpp:3770-3822 | On any brush, a clockwise then a counter-clockwise turn gives back the brush, and so does the opposite order. |
| BrushTransforms.HalfTurnIsDoubleFlip | src/game/editor/editor2.cpp:3726-3795 | Two clockwise quarter turns equal a mirror along X followed by one along Y, in positions and flags alike. |
| BrushTransforms.FlipXExample | src/game/editor/editor2.cpp:3726-3746 | Mirroring a 2x2 brush of unrotated tiles 1 to 4 along X swaps its columns and sets VFLIP on every tile. |
| Paint.Stamp | src/game/editor/editor2.cpp:3824-3850 | The layer keeps its size. Each layer cell under the brush shows the brush cell. Every other layer cell is unchanged. Brush cells that fall outside the layer are dropped. |
| Paint.BrushPaintLayer | src/game/editor/editor2.cpp:3824-3850 | The editor's row-by-row stamp loop produces exactly `Stamp`. |
| Paint.StampIdempotent | src/game/editor/editor2.cpp:3824-3850 | Stamping the same brush twice at one place is stamping it once. |
| Paint.FillRect | src/game/editor/editor2.cpp:3852-3878 | The layer keeps its size, and cells outside the rectangle are unchanged. |
| Paint.BrushPaintLayerFillRectRepeat | src/game/editor/editor2.cpp:3852-3878 | The editor's fill loop produces exactly `FillRect`. |
| Paint.FillRectCell | src/game/editor/editor2.cpp:3852-3878 | A cell inside both the rectangle and the layer shows the brush cell at its offset from the rectangle's corner, modulo the brush size. |
| Paint.FillRectUniform | src/game/editor/editor2.cpp:3852-3878 | A 1x1 brush paints its tile on every layer cell inside the rectangle and nowhere else. |
| Paint.FillRectPeriodic | src/game/editor/editor2.cpp:3852-3878 | Inside the rectangle, the fill repeats with the brush's width along X and its height along Y. |
| Paint.FillBrushSizedRectIsStamp | src/game/editor/editor2.cpp:3852-3878 | Filling a rectangle exactly the brush's size is a single stamp. |
| Paint.SelectionRegion | src/game/editor/editor2.cpp:3880-3895 | The drag rectangle, taken in either direction and clamped, is a non-empty region inside the layer. |
| Paint.RegionToBrush | src/game/editor/editor2.cpp:3880-3909 | The cut brush is a valid non-empty brush, no larger than the layer. Each of its cells is the layer cell at the region's corner plus its offset. |
| Paint.TileLayerRegionToBrush | src/game/editor/editor2.cpp:3880-3909 | The editor's walk over flat layer indices produces exactly `RegionToBrush`. |
| Paint.DragDirection | src/game/editor/editor2.cpp:3880-3909 | The cut brush does not depend on which corner the drag started from. |
| Paint.SelectionRegionExample | src/game/editor/editor2.cpp:3880-3895 | Dragging from (5, 5) to (3, 7) selects columns 3 to 5 and rows 5 to 7. |
| Paint.ExtractStampRoundTrip | src/game/editor/editor2.cpp:3824-3909 | Stamping a cut brush back at the region's corner leaves the layer as it was. |
| Paint.StampCopyOfWindow | src/game/editor/editor2.cpp:3824-3850 | Stamping a brush that equals the layer cells under it changes nothing. |
| Paint.Resize | src/game/editor/editor2.cpp:4529-4576 | The resized layer has the new size. Cells inside both sizes keep their tile, and new cells are empty tiles. |
| Paint.TileLayerResize | src/game/editor/editor2.cpp:4529-4576 | The editor's copy loop into a zeroed buffer produces exactly `Resize`. |
| Paint.ResizeGrowShrink | src/game/editor/editor2.cpp:4529-4576 | Growing a layer and shrinking it back to its old size gives back the layer. |
| Selection.RectsIntersectIffSharedCell | src/game/editor/editor2.cpp:64-74 | For rectangles of positive size, the corrected intersection test holds exactly when they share a cell. |
| Selection.FitLayer | src/game/editor/editor2.cpp:5054-5080 | A normalised selection that shares a cell with the layer keeps its active state and has each corner clamped into the layer. One sharing no cell is deselected and otherwise unchanged. An active result lies inside the layer. |
| Selection.FitLayerCells | src/game/editor/editor2.cpp:5054-5080 | A fitted selection covers exactly the cells the selection shares with the layer. |
| Selection.FitLayerKeepsInsideSelection | src/game/editor/editor2.cpp:5054-5080 | A selection already inside the layer is left as it is. |
| Selection.SelectionAboveLayerSurvives | src/game/editor/editor2.cpp:64-74 | With the test as written, a selection lying wholly above the layer stays active and is squashed onto row 0. The corrected fit deselects it. |
| Selection.SelectionAboveLayerExample | src/game/editor/editor2.cpp:5054-5080 | Rows -5 to -3 of column 0 over a 4x4 layer. As written the selection becomes the active cell (0, 0); corrected it is deselected. |
| Maps.GroupOrderMove | src/game/editor/editor2.cpp:4306-4327 | The target index is the clamped one. The group swaps with the one there and every other group stays put, so the list is a permutation. It counts as a change exactly when the index moved. |
| Maps.GroupOrderMoveBack | src/game/editor/editor2.cpp:4306-4327 | Moving the group back by the distance it travelled restores the map. |
| Maps.LayerOrderMoveAsWritten | src/game/editor/editor2.cpp:4329-4407 | The step is clamped to one. The result stays in the same group or goes to a neighbour. Group IDs, the layer table and the group count are kept. |
| Maps.LayerOrderMove | src/game/editor/editor2.cpp:4329-4407 | The same shape as the move as written, and unchanged when not changed. |
| Maps.LayerOrderMoveKeepsLayers | src/game/editor/editor2.cpp:4329-4407 | The corrected move keeps the multiset of layer IDs listed by the groups. The moved layer ends in the reported group, and no group grows beyond the layer limit. |
| Maps.LayerOrderMoveShape | src/game/editor/editor2.cpp:4329-4407 | A change is one of three things: a swap inside the group, a move of the first layer to the end of the group above, or a move of the last layer to the start of the group below. |
| Maps.MoveUpKeepsLayers | src/game/editor/editor2.cpp:4350-4369 | Moving the first layer to the group above keeps every layer listed once and puts the layer in that group. |
| Maps.MoveDownKeepsLayers | src/game/editor/editor2.cpp:4371-4394 | Moving the last layer to the group below keeps every layer listed once and puts the layer in that group. |
| Maps.SwapKeepsLayers | src/game/editor/editor2.cpp:4395-4403 | Swapping two layers inside a group keeps the listed layers and exchanges the two positions. |
| Maps.LayerVanishesIntoFullGroup | src/game/editor/editor2.cpp:4358-4387 | As written, a move across into a full group takes the layer out of its group, puts it in no group, and still counts as a change. |
| Maps.LayerOrderMoveAgrees | src/game/editor/editor2.cpp:4329-4407 | The corrected and the written move differ exactly on moves into a full neighbouring group. |
| Maps.LayerVanishesExample | src/game/editor/editor2.cpp:4371-4394 | Two groups with one layer each and a limit of one. As written, moving the first group's layer down leaves it in no group; corrected, the map is unchanged. |
| Maps.ChangeClipX | src/game/editor/editor2.cpp:4750-4776 | The edit counts as a change exactly when the left edge moves, and then the right edge stays put. The width becomes 0 when the left edge passes the right one. |
| Maps.ChangeClipY | src/game/editor/editor2.cpp:4778-4805 | The same for the top edge, keeping the bottom edge. |
| Maps.ChangeClipRight | src/game/editor/editor2.cpp:4807-4830 | The edit counts as a change exactly when the right edge moves. The left edge stays, and the width becomes 0 when the right edge is set before the left one. |
| Maps.ChangeClipBottom | src/game/editor/editor2.cpp:4832-4855 | The same for the bottom edge, keeping the top edge. |
| Maps.ClipEditsSettle | src/game/editor/editor2.cpp:4750-4855 | Setting an edge to where it is changes nothing. Setting it twice to the same value changes nothing the second time. |
| History.FirstFree | src/game/editor/editor2.cpp:4864-4872 | The allocation search returns the lowest free slot, or none when every slot is used. |
| History.Alloc | src/game/editor/editor2.cpp:4862-4884 | The allocated slot is marked used and holds a blank entry. `current` is unchanged. |
| History.FreeFrom | src/game/editor/editor2.cpp:4905-4912 | Freeing along the `next` links only frees slots. Entries and `current` are unchanged. |
| History.Clear | src/game/editor/editor2.cpp:4857-4860 | Every slot becomes free while contents stay, so the next allocation takes slot 0. |
| History.NewEntryAsWritten | src/game/editor/editor2.cpp:4896-4917 | The commit in the editor's order (allocate first, then drop the redo branch) leaves the new entry current, holding the snapshots. |
| History.NewEntry | src/game/editor/editor2.cpp:4896-4917 | The corrected commit (drop the redo branch, then allocate) leaves the new entry current, holding the snapshots, and linked after the old current entry. |
| History.TimelineFits | src/game/editor/editor2.cpp:4862-4917 | The used slots are exactly the timeline's entries, so the timeline never outgrows the pool. |
| History.RootIsOldest | src/game/editor/editor2.cpp:4874-4879 | Allocation's backwards walk from `current` reaches the timeline's oldest entry. |
| History.FreeRedoBranch | src/game/editor/editor2.cpp:4905-4912 | Dropping the redo branch frees exactly the entries after `current` on the timeline. |
| History.NewEntryKeepsTimeline | src/game/editor/editor2.cpp:4896-4917 | On any valid pool with at least two slots, the corrected commit keeps one timeline. The timeline is the old one up to `current`, oldest entry dropped when the pool was full, followed by the new entry. |
| History.NewEntryIntoFreeSlot | src/game/editor/editor2.cpp:4862-4917 | When a slot is free after dropping the redo branch, the new entry takes the first free slot and extends the kept prefix. |
| History.NewEntryRecyclingOldest | src/game/editor/editor2.cpp:4874-4917 | When no slot is free, the oldest entry's slot is reused and its successor becomes the oldest. |
| History.FullPoolAtNewest | src/game/editor/editor2.cpp:4862-4912 | No slot is free after dropping the redo branch only when the timeline fills the pool and `current` is its newest entry. |
| History.RecycledCurrentLinksToItself | src/game/editor/editor2.cpp:4896-4917 | As written, with a full pool and `current` at the oldest entry, the new entry reuses `current`'s slot and becomes its own predecessor and successor. The backwards walk never ends and no timeline remains. |
| History.SelfLinkBreaksTimeline | src/game/editor/editor2.cpp:4914-4916 | A current entry that is its own predecessor lies on no timeline. |
| History.StepsKeepTimeline | src/game/editor/editor2.cpp:4927-4939 | Undo and redo keep the timeline and move `current` one entry back or forward, staying put at either end. |
| History.StepRoundTrips | src/game/editor/editor2.cpp:4927-4939 | Redo after undo returns to the same entry, and undo after redo too. |
| History.CommitThenStep | src/game/editor/editor2.cpp:4896-4939 | After a commit there is nothing to redo, and undo returns to the entry that was current before. |
| History.Rewind | src/game/editor/editor2.cpp:4927-4932 | Any number of undos keeps the timeline and the slots. |
| History.RewindToOldest | src/game/editor/editor2.cpp:4927-4932 | Undoing as often as there are earlier entries reaches the oldest entry. |
| Editor.BrushClear | src/game/editor/editor2.cpp:3718-3724 | The brush becomes the empty 0x0 brush and nothing else changes. |
| Editor.ChangeTool | src/game/editor/editor2.cpp:3668-3676 | The tool is set. Leaving the tile brush clears the brush, any other change keeps it, and nothing else changes. |
| Editor.ChangeToolSettles | src/game/editor/editor2.cpp:3668-3676 | Choosing a tool twice is choosing it once. A brush left behind on switching away from the tile brush is gone on switching back. |
| Editor.RestoreUiSnapshot | src/game/editor/editor2.cpp:4952-4961 | The selected layer, group and tool are the snapshot's. The brush is cleared, the tile selection is deselected, and map and history are untouched. |
| Editor.SaveRestoreRoundTrip | src/game/editor/editor2.cpp:4941-4961 | Restoring the snapshot just taken changes only the brush and the selection. |
| Editor.RestoreToEntry | src/game/editor/editor2.cpp:4919-4925 | The map and UI selection become the entry's, and the entry becomes current. |
| Editor.Undo | src/game/editor/editor2.cpp:4927-4932 | With no previous entry nothing changes. Otherwise the previous entry is restored. |
| Editor.Redo | src/game/editor/editor2.cpp:4934-4939 | With no next entry nothing changes. Otherwise the next entry is restored. |
| Editor.Commit | src/game/editor/editor2.cpp:4896-4917 | The live map and UI selection are committed as the new current entry, and nothing but the history changes. Entries are committed with the corrected `History.NewEntry`, which drops the redo branch before allocating (see Findings). |
| Editor.Record | src/game/editor/editor2.cpp:4896-4917 | An edit: the map becomes the edited one and is committed, and nothing else changes. Entries are committed with the corrected `History.NewEntry`, which drops the redo branch before allocating (see Findings). |
| Editor.RecordKeepsSound | src/game/editor/editor2.cpp:4896-4917 | Recording an edit whose selected layer and group exist keeps a sound history, in which every entry on the timeline can be restored. |
| Editor.UndoAfterRecord | src/game/editor/editor2.cpp:4896-4932 | Undo right after an edit returns to the map of the previous current entry, which is the pre-edit map when the editor was in sync, and redo is then possible. |
| Editor.StepsKeepSound | src/game/editor/editor2.cpp:4919-4939 | Undo and redo always pass the editor's assertions and keep the history sound. |
| Editor.UndoRedoRoundTrip | src/game/editor/editor2.cpp:4919-4939 | Redo after undo restores the same map, the same `current` and the entry's UI selection. |
| Editor.MapLoaded | src/game/editor/editor2.cpp:3964-4014 | After loading, the game layer and group are selected and the brush is empty. The history is the single entry 0, holding the loaded map and UI selection. |
| Editor.MapLoadedSound | src/game/editor/editor2.cpp:3964-4014 | A map holding its game layer and group starts a sound history. |
| Editor.EditBrushPaintLayer | src/game/editor/editor2.cpp:4445-4459 | The layer becomes the stamped layer, the groups are unchanged, and the result is recorded. Entries are committed with the corrected `History.NewEntry`, which drops the redo branch before allocating (see Findings). |
| Editor.EditBrushPaintLayerFillRectRepeat | src/game/editor/editor2.cpp:4461-4475 | The layer becomes the filled layer, the groups are unchanged, and the result is recorded. Entries are committed with the corrected `History.NewEntry`, which drops the redo branch before allocating (see Findings). |
| Editor.EditTileLayerResize | src/game/editor/editor2.cpp:4529-4576 | Resizing to the current size does nothing and records nothing. Otherwise the layer becomes the resized copy of the old one, the groups are unchanged, and the result is recorded. Entries are committed with the corrected `History.NewEntry`, which drops the redo branch before allocating (see Findings). |
| Editor.FlipRegionX | src/game/editor/editor2.cpp:4409-4425 | The layer keeps its size through cutting the selection, mirroring it and stamping it back. |
| Editor.FlipRegionY | src/game/editor/editor2.cpp:4427-4443 | The layer keeps its size through cutting the selection, flipping it vertically and stamping it back. |
| Editor.FlipRegionXMirrors | src/game/editor/editor2.cpp:4409-4425 | Inside the selection, cell (x, y) shows the mirrored column's tile with flags rewritten. Outside it the layer is unchanged. |
| Editor.FlipRegionYMirrors | src/game/editor/editor2.cpp:4427-4443 | Inside the selection, cell (x, y) shows the mirrored row's tile with flags rewritten. Outside it the layer is unchanged. |
| Editor.FlipRegionXTwice | src/game/editor/editor2.cpp:4409-4425 | Flipping the same selection twice along X gives back the layer. |
| Editor.FlipRegionYTwice | src/game/editor/editor2.cpp:4427-4443 | Flipping the same selection twice along Y gives back the layer. |
| Editor.EditTileSelectionFlipX | src/game/editor/editor2.cpp:4409-4425 | The layer becomes the X-flipped region, the brush is dropped, the selection is kept, and the result is recorded. Entries are committed with the corrected `History.NewEntry`, which drops the redo branch before allocating (see Findings). |
| Editor.EditTileSelectionFlipY | src/game/editor/editor2.cpp:4427-4443 | The layer becomes the Y-flipped region, the brush is dropped, the selection is kept, and the result is recorded. Entries are committed with the corrected `History.NewEntry`, which drops the redo branch before allocating (see Findings). |
| Editor.EditGroupOrderMove | src/game/editor/editor2.cpp:4306-4327 | The map becomes the reordered one. The move is recorded exactly when the index changed, and otherwise nothing changes. Entries are committed with the corrected `History.NewEntry`, which drops the redo branch before allocating (see Findings). |
| Editor.EditLayerOrderMove | src/game/editor/editor2.cpp:4329-4407 | The map becomes the corrected move's result and is recorded when it changed. Otherwise nothing changes. Entries are committed with the corrected `History.NewEntry`, which drops the redo branch before allocating (see Findings). |
| Editor.EditGroupClip | src/game/editor/editor2.cpp:4750-4855 | An edge set to where it is changes nothing. Otherwise the group's clip rectangle changes, and the change is recorded exactly when the history condition asks for it. Entries are committed with the corrected `History.NewEntry`, which drops the redo branch before allocating (see Findings). |
| MapPath.NormalizedPath | src/game/editor/editor2.cpp:4983-4998 | The path fits the 256-byte buffer and lies under `maps/`. Unless truncated it ends in `.map`. |
| MapPath.KeepsArgument | src/game/editor/editor2.cpp:4983-4998 | Without truncation the argument appears whole, right after `maps/` if that was added, followed only by `.map` if that was added. |
| MapPath.Idempotent | src/game/editor/editor2.cpp:5000-5015 | Normalising twice is normalising once. |
| MapPath.FixedIff | src/game/editor/editor2.cpp:4983-4998 | A path is left unchanged exactly when it fits the buffer, lies under `maps/` ignoring case, and ends in `.map` or fills the buffer. |
| MapPath.PlainNameExample | src/game/editor/editor2.cpp:4983-4998 | `ctf5` becomes `maps/ctf5.map`. |
| MapPath.MixedCaseExample | src/game/editor/editor2.cpp:4983-4998 | `MAPS/Dm1.MAP` is left as it is. |
| MapPath.DirOnlyExample | src/game/editor/editor2.cpp:5000-5015 | `maps/x` only gains the extension. |
| MapPath.ShortNameExample | src/game/editor/editor2.cpp:4983-4998 | `.map` alone is too short to count as having the extension and becomes `maps/.map.map`. |
| Votes.GroupBallotIsEarliest | src/game/server/gamecontext.cpp:543-558 | The ballot counted for a leader is 0 exactly when every player of its address from the leader on voted 0. Otherwise it is the ballot of such a player who voted no later than any other. |
| Votes.Counted | src/game/server/gamecontext.cpp:538-565 | Yes and no are non-negative, and their sum is at most the total, which is at most the number of slots. |
| Votes.OneBallotPerAddress | src/game/server/gamecontext.cpp:538-565 | The total is the number of distinct addresses with a non-spectator, non-bot player. |
| Votes.LeadsIffUnmarked | src/game/server/gamecontext.cpp:538-541 | The loop's skip test picks exactly the first eligible player of each address. |
| Votes.Tally | src/game/server/gamecontext.cpp:529-565 | The tick's two nested loops with their `checked` marks compute exactly `Counted`. |
| Votes.ScanGroup | src/game/server/gamecontext.cpp:546-558 | The inner loop settles on the group's ballot and marks exactly the later players sharing a leader's address. |
| Votes.SpectatorBallotCounts | src/game/server/gamecontext.cpp:547-557 | The inner scan takes the ballots of spectators of the same address: a spectator's yes stands for a player who did not vote. |
| Votes.Decide | src/game/server/gamecontext.cpp:567-570 | Yes wins exactly when more than half the counted ballots are yes, or when the vote was already forced yes and fewer than half are no. No wins exactly when yes lacks a majority and either at least half are no or the vote was already forced no. Otherwise the earlier setting stands. |
| Votes.EmptyOrTiedCountFails | src/game/server/gamecontext.cpp:567-570 | A count with no ballots decides no, and so does an exact tie of yes and no. |
| Votes.DecideFromTally | src/game/server/gamecontext.cpp:529-570 | Over a tally, a yes majority and a no decision exclude each other. Once every ballot is yes or no, some decision is made. |
| Votes.VoteTick | src/game/server/gamecontext.cpp:519-595 | With no vote nothing happens. An abort request ends the vote as aborted. A pass carries the vote's command. A vote that ends has close time 0. A running one keeps its close time, clears the update flag, and reports the tally's count when it recounted. |
| Votes.TickPassesOnMajority | src/game/server/gamecontext.cpp:567-583 | After a change, a running vote passes exactly when yes has a majority, or when it was forced yes and no lacks half. |
| Votes.QuietTickKeepsRunning | src/game/server/gamecontext.cpp:573-593 | Without a change, an undecided vote that has not timed out keeps running, unchanged. |
| Votes.TimeoutEndsVote | src/game/server/gamecontext.cpp:584-588 | A timed-out vote ends on that tick. |
| Votes.CastVote | src/game/server/gamecontext.cpp:1071-1086 | Only the sender's slot may change, and only its vote and position. Anything changes exactly when a vote runs, the player has not voted and the vote is nonzero. The ballot then gets the next position and marks the tally for an update. |
| Votes.CastOnce | src/game/server/gamecontext.cpp:1076-1085 | A player's first ballot is final: a later message changes nothing. |
| Votes.CastKeepsOrder | src/game/server/gamecontext.cpp:1083 | Ballots keep distinct positions from 1 up to the last one handed out, and a new ballot comes after every earlier one. |
| Votes.StripLeadingSpaces | src/game/server/gamecontext.cpp:1590-1591 | The result is the input with leading blanks removed, and it does not start with a blank. |
| Votes.AddVote | src/game/server/gamecontext.cpp:1570-1637 | Each outcome holds exactly under its condition, with the checks in the source's order: full list, then bad command, then empty or over-long stripped description, then a duplicate ignoring case. A rejection leaves the list unchanged. An option passing every check is appended at the tail, stripped of leading blanks. |
| Votes.FirstMatch | src/game/server/gamecontext.cpp:1645-1651 | The search finds the first option matching the description regardless of case, or none when none matches. |
| Votes.RemoveVote | src/game/server/gamecontext.cpp:1639-1702 | An option is removed exactly when one matches regardless of case. The matching option is dropped, one fewer remain in their old order, and a miss changes nothing. |
| Votes.ClearVotes | src/game/server/gamecontext.cpp:1773-1784 | The list is empty and well formed under any limits. |
| Votes.AddKeepsWellFormed | src/game/server/gamecontext.cpp:1570-1637 | Adding keeps the list within the limit, with valid options and descriptions distinct regardless of case. |
| Votes.RemoveKeepsWellFormed | src/game/server/gamecontext.cpp:1639-1702 | Removing keeps the list well formed and leaves no option matching the description. |
| Votes.RemoveUndoesAdd | src/game/server/gamecontext.cpp:1570-1702 | Removing the description just added restores the list. |
| Votes.DecimalRoundTrip | src/game/server/gamecontext.cpp:998 | Reading a `%d`-formatted number back gives the number. |
| Votes.ToIntOfDecimal | src/game/server/gamecontext.cpp:405-406 | `str_toint` reads back a formatted client number when no digit follows it. |
| Votes.AbortVoteKickOnDisconnect | src/game/server/gamecontext.cpp:403-408 | The vote is marked for abort exactly when it is running and its command starts with `kick ` or `set_team ` followed by the leaving client's number. Otherwise nothing changes. |
| Votes.KickVoteAbortsForTarget | src/game/server/gamecontext.cpp:998 | A running kick vote is aborted by its target leaving and by no other client. |
| Votes.SpectateVoteAbortsForTarget | src/game/server/gamecontext.cpp:1033 | A running vote to move a player to the spectators is aborted by that player leaving and by no other client. |

## Left out

- Rendering, immediate-mode UI, camera and zoom are left out: they are graphics and float arithmetic.
- Map snapshots are left out: they are taken and restored by code that is not part of this model. A snapshot is an opaque copied value.
- Automap painting is left out. `CTilesetMapper2` is not part of this model.
- Image add and delete, layer and group creation and deletion, and the name, colour, parallax and offset edits are left out. They are not part of the brush pipeline.
- `time_get` is not modelled. The vote timeout enters `VoteTick` as a boolean, and `StartVote` (which sets the close time) is left out.
- Message sending and chat are left out: they are I/O.
- Executing a passed vote's command is left out: `VoteTick` returns the command in its `Passed` outcome. Resetting the creator's `m_LastVoteCall` on a pass is also left out, because vote-start throttling is not modelled.
- `StartVote`, `CanStartVote` and forced votes are left out. `VoteTick` takes the enforcement setting they leave behind as part of its state.
- `Console()->LineIsValid` enters `AddVote` as a boolean, since the console is not part of this model.
- Constants defined outside the two files become parameters: `MAX_GROUP_LAYERS`, `MAX_VOTE_OPTIONS`, `VOTE_CMD_LENGTH`, `VOTE_DESC_LENGTH` and `MAX_CLIENTS` (the length of the slot sequence). The history pool's size (`MAX_HISTORY`, 50 in the editor) is the length of its entry sequence; the history properties hold for any pool of at least two slots.
- The client address of each player is a plain string. `GetClientAddr` is not part of this model.
- `str_toint` is modelled as C `atoi` (blanks, optional sign, digits). `system.c` is not part of this model.
- Votes.ToIntOfDecimal: does not model 32-bit overflow of `atoi` or of the vote position counter. Integers are unbounded, and client numbers and positions are small.
- Strings are character sequences. Embedded NUL characters and buffer truncation are not modelled, except in `MapPath`, where the 256-byte buffer is modelled.
- History.WalkPrev: the backwards walk carries a fuel bound equal to the pool size, which is enough on any valid pool.
- History: the `dbg_assert`s of `HistoryDeallocEntry` are not modelled, and freeing a slot only clears its used mark.
- Editor.Commit: commits with the corrected `History.NewEntry`, so the editor's self-linking commit (a full pool with `current` at the oldest entry, editor2.cpp 4899 and 4914-4916) is not reproduced by `Commit`, `Record` or the `Edit*` operations. `History.NewEntryAsWritten` and `History.RecycledCurrentLinksToItself` model it.
- Editor.MapLoaded: the file loading behind `LoadMap` is a parameter, so only the state `OnMapLoaded` sets up is modelled.
- `SetNewBrush` is folded into the operations that set a brush. Tile layers are assumed to have positive size.
- Editor.FlipRegionX: states only the size; the contents are stated by `Editor.FlipRegionXMirrors`.
- Editor.FlipRegionY: states only the size; the contents are stated by `Editor.FlipRegionYMirrors`.

## Findings

| source | as written | input that shows it | evidently intended | confidence | as-written member | corrected member |
|---|---|---|---|---|---|---|
| src/game/editor/editor2.cpp:69 | The fourth comparison of `DoRectIntersect` reads `Rect1.h + Rect2.y > Rect2.y`, which is just `Rect1.h > 0`. | A 1x3 selection at column 0, rows -5 to -3, fitted to a 4x4 layer. It stays active and is squashed onto cell (0, 0). | `Rect1.y + Rect1.h > Rect2.y`: a selection sharing no cell with the layer is deselected. | not executed | Selection.SelectionAboveLayerSurvives | Selection.FitLayer |
| src/game/editor/editor2.cpp:4899-4916 | `HistoryNewEntry` allocates the new entry before it frees the redo branch. | A full pool (50 entries) with `current` at the oldest entry, after undoing all the way back. The allocator recycles the `current` entry itself, which then becomes its own predecessor and successor. | Free the redo branch first, so a slot is free or the oldest entry is not `current`. | not executed | History.RecycledCurrentLinksToItself | History.NewEntryKeepsTimeline |
| src/game/editor/editor2.cpp:4358-4387 | `EditLayerOrderMove` removes the layer from its group even when the neighbouring group is full and did not take it. | Two groups with one layer each and a group limit of one; move the first group's layer down. It ends in no group, and a history entry is still recorded. | Leave the map unchanged when the target group is full. | not executed | Maps.LayerVanishesIntoFullGroup | Maps.LayerOrderMoveKeepsLayers |
