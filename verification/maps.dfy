/** The editor's map: groups in list order, each listing its layers by ID,
    and the layers themselves keyed by ID.

    The editor keeps groups in an ID-indexed store plus a separate list of
    group IDs giving their order; every valid group appears once in that
    list, so here the groups are simply kept in list order and carry their
    ID. Only the group fields the modelled edits touch are represented: the
    layer list and the clipping rectangle.
 */
module Maps {
  import opened Grids
  import opened Paint

  datatype Layer = TileLayer(grid: Grid) | QuadLayer

  datatype Group = Group(id: int, layerIds: seq<int>,
                         clipX: int, clipY: int, clipWidth: int, clipHeight: int)

  datatype EditorMap = EditorMap(groups: seq<Group>, layers: map<int, Layer>,
                                 gameGroupId: int, gameLayerId: int)

  predicate LayerValid(m: EditorMap, id: int) {
    id in m.layers
  }

  predicate GroupValid(m: EditorMap, id: int) {
    exists k :: 0 <= k < |m.groups| && m.groups[k].id == id
  }

  predicate IsTileLayer(m: EditorMap, id: int) {
    id in m.layers && m.layers[id].TileLayer? && Valid(m.layers[id].grid)
  }

  /** The list position of the group with ID `id`. */
  function FindGroup(groups: seq<Group>, id: int): (k: nat)
    requires exists k :: 0 <= k < |groups| && groups[k].id == id
    ensures k < |groups| && groups[k].id == id
    ensures forall l :: 0 <= l < k ==> groups[l].id != id
  {
    if groups[0].id == id then 0
    else
      assert exists k :: 0 <= k < |groups[1..]| && groups[1..][k].id == id by {
        var k :| 0 <= k < |groups| && groups[k].id == id;
        assert groups[1..][k - 1].id == id;
      }
      1 + FindGroup(groups[1..], id)
  }

  /** The layer IDs listed by the groups, with multiplicity. */
  function Members(groups: seq<Group>): multiset<int>
  {
    if |groups| == 0 then multiset{} else multiset(groups[0].layerIds) + Members(groups[1..])
  }

  /** Replacing one group changes the listed layers by exactly that group's
      old and new layer lists. */
  lemma {:induction false} MembersUpdate(groups: seq<Group>, i: nat, g: Group)
    requires i < |groups|
    ensures Members(groups[i := g]) + multiset(groups[i].layerIds)
         == Members(groups) + multiset(g.layerIds)
  {
    var u := groups[i := g];
    if i > 0 {
      assert u[0] == groups[0];
      assert u[1..] == groups[1..][i - 1 := g];
      assert groups[1..][i - 1] == groups[i];
      MembersUpdate(groups[1..], i - 1, g);
      var a, c := multiset(groups[0].layerIds), multiset(groups[i].layerIds);
      assert Members(u) == a + Members(u[1..]);
      assert Members(u) + c == a + (Members(u[1..]) + c);
    } else {
      assert u[1..] == groups[1..];
    }
  }

  /** Taking one layer out of the group at `from` and adding it to the group
      at `to` leaves the listed layers as they were. */
  lemma {:induction false} MembersMove(groups: seq<Group>, from: nat, to: nat, gFrom: Group, gTo: Group, id: int)
    requires from < |groups| && to < |groups| && from != to
    requires multiset(gFrom.layerIds) + multiset{id} == multiset(groups[from].layerIds)
    requires multiset(gTo.layerIds) == multiset(groups[to].layerIds) + multiset{id}
    ensures Members(groups[to := gTo][from := gFrom]) == Members(groups)
  {
    var g1 := groups[to := gTo];
    MembersUpdate(groups, to, gTo);
    MembersUpdate(g1, from, gFrom);
    assert g1[from] == groups[from];
    forall x
      ensures Members(g1[from := gFrom])[x] == Members(groups)[x]
    {
      assert (Members(g1[from := gFrom]) + multiset(groups[from].layerIds))[x]
          == (Members(g1) + multiset(gFrom.layerIds))[x];
      assert (Members(g1) + multiset(groups[to].layerIds))[x]
          == (Members(groups) + multiset(gTo.layerIds))[x];
    }
  }

  /** Taking one layer out of the group at `from` and adding it nowhere. */
  lemma {:induction false} MembersDrop(groups: seq<Group>, from: nat, gFrom: Group, id: int)
    requires from < |groups|
    requires multiset(gFrom.layerIds) + multiset{id} == multiset(groups[from].layerIds)
    ensures Members(groups[from := gFrom]) + multiset{id} == Members(groups)
  {
    MembersUpdate(groups, from, gFrom);
    forall x
      ensures (Members(groups[from := gFrom]) + multiset{id})[x] == Members(groups)[x]
    {
      assert (Members(groups[from := gFrom]) + multiset(groups[from].layerIds))[x]
          == (Members(groups) + multiset(gFrom.layerIds))[x];
    }
  }

  // ---------------------------------------------------------------------
  // Reordering groups and layers

  /** The reordered map, the resulting list index, and whether the editor
      records a history entry for the move. */
  datatype Reordered = Reordered(after: EditorMap, index: int, changed: bool)

  /** EditGroupOrderMove: the group at list index `i` swaps places with the
      group at `i + rel`, clamped to the list; a clamped move back onto `i`
      changes nothing. */
  function GroupOrderMove(m: EditorMap, i: int, rel: int): (r: Reordered)
    requires 0 <= i < |m.groups|
    ensures 0 <= r.index < |m.groups| && r.index == Clamp(i + rel, 0, |m.groups| - 1)
    ensures r.changed <==> r.index != i
    ensures r.after.layers == m.layers && |r.after.groups| == |m.groups|
    ensures multiset(r.after.groups) == multiset(m.groups)
    ensures r.after.groups[r.index] == m.groups[i] && r.after.groups[i] == m.groups[r.index]
    ensures forall k :: 0 <= k < |m.groups| && k != i && k != r.index ==> r.after.groups[k] == m.groups[k]
  {
    var j := Clamp(i + rel, 0, |m.groups| - 1);
    if j == i then Reordered(m, i, false)
    else Reordered(m.(groups := m.groups[i := m.groups[j]][j := m.groups[i]]), j, true)
  }

  /** Moving the group back by the distance it travelled restores the map. */
  lemma GroupOrderMoveBack(m: EditorMap, i: int, rel: int)
    requires 0 <= i < |m.groups|
    ensures var r := GroupOrderMove(m, i, rel);
            GroupOrderMove(r.after, r.index, i - r.index).after == m
  {
    var r := GroupOrderMove(m, i, rel);
    var s := GroupOrderMove(r.after, r.index, i - r.index);
    assert s.after.groups == m.groups;
  }

  /** Whether moving layer `l` of group `p` by `rel` takes it to a
      neighbouring group that already holds `maxLayers` layers. */
  predicate MovesIntoFullGroup(m: EditorMap, p: int, l: int, rel: int, maxLayers: int)
    requires 0 <= p < |m.groups| && 0 <= l < |m.groups[p].layerIds|
  {
    var step := Clamp(rel, -1, 1);
    var g := m.groups[p];
    var isGame := g.layerIds[l] == m.gameLayerId;
    && step != 0 && !isGame
    && ((l + step < 0 && p > 0 && |m.groups[p - 1].layerIds| >= maxLayers)
        || (l + step >= |g.layerIds| && p < |m.groups| - 1 && |m.groups[p + 1].layerIds| >= maxLayers))
  }

  /** EditLayerOrderMove as the editor writes it. The step is clamped to one
      position. Inside the group the layer swaps with its neighbour; past the
      group's first (last) layer it moves to the end (start) of the previous
      (next) group, unless it is the game layer or there is no such group.
      The layer leaves its group even when the target group already holds
      `maxLayers` layers and so does not take it. */
  function LayerOrderMoveAsWritten(m: EditorMap, p: int, l: int, rel: int, maxLayers: int): (r: Reordered)
    requires 0 <= p < |m.groups| && 0 <= l < |m.groups[p].layerIds|
    ensures r.index == p || (r.changed && (r.index == p - 1 || r.index == p + 1))
    ensures 0 <= r.index < |m.groups|
    ensures !r.changed ==> r.after == m
    ensures r.after.layers == m.layers && |r.after.groups| == |m.groups|
    ensures forall k :: 0 <= k < |m.groups| ==> r.after.groups[k].id == m.groups[k].id
  {
    var step := Clamp(rel, -1, 1);
    var g := m.groups[p];
    var id := g.layerIds[l];
    var newPos := l + step;
    var isGame := id == m.gameLayerId;
    if step == 0 then Reordered(m, p, false)
    else if newPos < 0 then
      if p > 0 && !isGame then
        var up := m.groups[p - 1];
        var up' := if |up.layerIds| < maxLayers then up.(layerIds := up.layerIds + [id]) else up;
        Reordered(m.(groups := m.groups[p - 1 := up'][p := g.(layerIds := g.layerIds[1..])]), p - 1, true)
      else Reordered(m, p, false)
    else if newPos >= |g.layerIds| then
      if p < |m.groups| - 1 && !isGame then
        var down := m.groups[p + 1];
        var down' := if |down.layerIds| < maxLayers then down.(layerIds := [id] + down.layerIds) else down;
        Reordered(m.(groups := m.groups[p + 1 := down'][p := g.(layerIds := g.layerIds[..|g.layerIds| - 1])]), p + 1, true)
      else Reordered(m, p, false)
    else
      var ids := g.layerIds[l := g.layerIds[newPos]][newPos := id];
      Reordered(m.(groups := m.groups[p := g.(layerIds := ids)]), p, true)
  }

  /** EditLayerOrderMove leaving the map unchanged when the target group is
      full, so that a layer never leaves its group without arriving in
      another. */
  function LayerOrderMove(m: EditorMap, p: int, l: int, rel: int, maxLayers: int): (r: Reordered)
    requires 0 <= p < |m.groups| && 0 <= l < |m.groups[p].layerIds|
    ensures r.index == p || (r.changed && (r.index == p - 1 || r.index == p + 1))
    ensures 0 <= r.index < |m.groups|
    ensures !r.changed ==> r.after == m
    ensures r.after.layers == m.layers && |r.after.groups| == |m.groups|
    ensures forall k :: 0 <= k < |m.groups| ==> r.after.groups[k].id == m.groups[k].id
  {
    if MovesIntoFullGroup(m, p, l, rel, maxLayers) then Reordered(m, p, false)
    else LayerOrderMoveAsWritten(m, p, l, rel, maxLayers)
  }

  /** The corrected move keeps every layer in exactly as many groups as
      before, the moved layer ends up in the group at the returned index,
      and no group grows beyond `maxLayers` layers. */
  lemma {:induction false} LayerOrderMoveKeepsLayers(m: EditorMap, p: int, l: int, rel: int, maxLayers: int)
    requires 0 <= p < |m.groups| && 0 <= l < |m.groups[p].layerIds|
    ensures var r := LayerOrderMove(m, p, l, rel, maxLayers);
            && Members(r.after.groups) == Members(m.groups)
            && m.groups[p].layerIds[l] in r.after.groups[r.index].layerIds
            && Bounded(m.groups, r.after.groups, maxLayers)
  {
    var r := LayerOrderMove(m, p, l, rel, maxLayers);
    LayerOrderMoveShape(m, p, l, rel, maxLayers);
    var id := m.groups[p].layerIds[l];
    if !r.changed {
      assert r.after.groups[r.index] == m.groups[p];
      assert id in m.groups[p].layerIds;
    } else if r.index == p - 1 {
      MoveUpKeepsLayers(m.groups, p, maxLayers);
      assert r.after.groups[r.index] == MovedUp(m.groups, p)[p - 1];
    } else if r.index == p + 1 {
      MoveDownKeepsLayers(m.groups, p, maxLayers);
      assert r.after.groups[r.index] == MovedDown(m.groups, p)[p + 1];
    } else {
      var newPos := l + Clamp(rel, -1, 1);
      SwapKeepsLayers(m.groups, p, l, newPos, maxLayers);
      assert r.after.groups[r.index] == Swapped(m.groups, p, l, newPos)[p];
    }
  }

  /** The three ways the corrected move can change the map. */
  lemma LayerOrderMoveShape(m: EditorMap, p: int, l: int, rel: int, maxLayers: int)
    requires 0 <= p < |m.groups| && 0 <= l < |m.groups[p].layerIds|
    ensures var r := LayerOrderMove(m, p, l, rel, maxLayers);
            var newPos := l + Clamp(rel, -1, 1);
            && (!r.changed ==> r.after == m && r.index == p)
            && (r.changed && r.index == p - 1 ==>
                  l == 0 && 0 < p && |m.groups[p - 1].layerIds| < maxLayers
                  && r.after.groups == MovedUp(m.groups, p))
            && (r.changed && r.index == p + 1 ==>
                  l == |m.groups[p].layerIds| - 1 && p < |m.groups| - 1
                  && |m.groups[p + 1].layerIds| < maxLayers
                  && r.after.groups == MovedDown(m.groups, p))
            && (r.changed && r.index == p ==>
                  0 <= newPos < |m.groups[p].layerIds|
                  && r.after.groups == Swapped(m.groups, p, l, newPos))
  {
  }

  /** The groups after swapping layers `l` and `newPos` of group `p`. */
  function Swapped(groups: seq<Group>, p: int, l: int, newPos: int): seq<Group>
    requires 0 <= p < |groups| && 0 <= l < |groups[p].layerIds| && 0 <= newPos < |groups[p].layerIds|
  {
    var g := groups[p];
    groups[p := g.(layerIds := g.layerIds[l := g.layerIds[newPos]][newPos := g.layerIds[l]])]
  }

  /** The groups after moving the first layer of group `p` to the end of
      group `p - 1`. */
  function MovedUp(groups: seq<Group>, p: int): seq<Group>
    requires 0 < p < |groups| && |groups[p].layerIds| > 0
  {
    var g := groups[p];
    var up := groups[p - 1];
    groups[p - 1 := up.(layerIds := up.layerIds + [g.layerIds[0]])][p := g.(layerIds := g.layerIds[1..])]
  }

  /** The groups after moving the last layer of group `p` to the start of
      group `p + 1`. */
  function MovedDown(groups: seq<Group>, p: int): seq<Group>
    requires 0 <= p < |groups| - 1 && |groups[p].layerIds| > 0
  {
    var g := groups[p];
    var down := groups[p + 1];
    var n := |g.layerIds|;
    groups[p + 1 := down.(layerIds := [g.layerIds[n - 1]] + down.layerIds)][p := g.(layerIds := g.layerIds[..n - 1])]
  }

  /** No group other than the two touched grows, and the receiving one stays
      within `maxLayers` if it had room. */
  ghost predicate Bounded(before: seq<Group>, after: seq<Group>, maxLayers: int) {
    |after| == |before| &&
    forall k :: 0 <= k < |before| && |before[k].layerIds| <= maxLayers ==> |after[k].layerIds| <= maxLayers
  }

  lemma MoveUpKeepsLayers(groups: seq<Group>, p: int, maxLayers: int)
    requires 0 < p < |groups| && |groups[p].layerIds| > 0
    requires |groups[p - 1].layerIds| < maxLayers
    ensures Members(MovedUp(groups, p)) == Members(groups)
    ensures groups[p].layerIds[0] in MovedUp(groups, p)[p - 1].layerIds
    ensures Bounded(groups, MovedUp(groups, p), maxLayers)
  {
    var g := groups[p];
    var id := g.layerIds[0];
    var up := groups[p - 1];
    var up' := up.(layerIds := up.layerIds + [id]);
    var g' := g.(layerIds := g.layerIds[1..]);
    assert MovedUp(groups, p) == groups[p - 1 := up'][p := g'];
    assert g.layerIds == [id] + g.layerIds[1..];
    MembersMove(groups, p, p - 1, g', up', id);
    assert up'.layerIds[|up.layerIds|] == id;
  }

  lemma MoveDownKeepsLayers(groups: seq<Group>, p: int, maxLayers: int)
    requires 0 <= p < |groups| - 1 && |groups[p].layerIds| > 0
    requires |groups[p + 1].layerIds| < maxLayers
    ensures Members(MovedDown(groups, p)) == Members(groups)
    ensures groups[p].layerIds[|groups[p].layerIds| - 1] in MovedDown(groups, p)[p + 1].layerIds
    ensures Bounded(groups, MovedDown(groups, p), maxLayers)
  {
    var g := groups[p];
    var n := |g.layerIds|;
    var id := g.layerIds[n - 1];
    var down := groups[p + 1];
    var down' := down.(layerIds := [id] + down.layerIds);
    var g' := g.(layerIds := g.layerIds[..n - 1]);
    assert MovedDown(groups, p) == groups[p + 1 := down'][p := g'];
    assert g.layerIds == g.layerIds[..n - 1] + [id];
    MembersMove(groups, p, p + 1, g', down', id);
    assert down'.layerIds[0] == id;
  }

  /** Replacing a group by one listing the same layers keeps the members. */
  lemma MembersPermute(groups: seq<Group>, p: int, g: Group)
    requires 0 <= p < |groups| && multiset(g.layerIds) == multiset(groups[p].layerIds)
    ensures Members(groups[p := g]) == Members(groups)
  {
    MembersUpdate(groups, p, g);
    forall x
      ensures Members(groups[p := g])[x] == Members(groups)[x]
    {
      assert (Members(groups[p := g]) + multiset(groups[p].layerIds))[x]
          == (Members(groups) + multiset(g.layerIds))[x];
    }
  }

  lemma SwapKeepsLayers(groups: seq<Group>, p: int, l: int, newPos: int, maxLayers: int)
    requires 0 <= p < |groups| && 0 <= l < |groups[p].layerIds| && 0 <= newPos < |groups[p].layerIds|
    ensures var g := groups[p];
            var after := Swapped(groups, p, l, newPos);
            && Members(after) == Members(groups)
            && g.layerIds[l] in after[p].layerIds
            && Bounded(groups, after, maxLayers)
  {
    var g := groups[p];
    var ids := g.layerIds[l := g.layerIds[newPos]][newPos := g.layerIds[l]];
    assert multiset(ids) == multiset(g.layerIds);
    MembersPermute(groups, p, g.(layerIds := ids));
    assert ids[newPos] == g.layerIds[l];
  }

  /** The move as written, across into a full group: the layer is taken out
      of its group, put in no other, and the move still counts as a change
      (the editor records a history entry for it). */
  lemma {:induction false} LayerVanishesIntoFullGroup(m: EditorMap, p: int, l: int, rel: int, maxLayers: int)
    requires 0 <= p < |m.groups| && 0 <= l < |m.groups[p].layerIds|
    requires MovesIntoFullGroup(m, p, l, rel, maxLayers)
    ensures var r := LayerOrderMoveAsWritten(m, p, l, rel, maxLayers);
            && r.changed
            && Members(r.after.groups) + multiset{m.groups[p].layerIds[l]} == Members(m.groups)
  {
    var r := LayerOrderMoveAsWritten(m, p, l, rel, maxLayers);
    var step := Clamp(rel, -1, 1);
    var g := m.groups[p];
    var n := |g.layerIds|;
    if l + step < 0 {
      assert m.groups[p - 1 := m.groups[p - 1]] == m.groups;
      assert l == 0 && r.after.groups == m.groups[p := g.(layerIds := g.layerIds[1..])];
      DropFirst(m.groups, p);
    } else {
      assert m.groups[p + 1 := m.groups[p + 1]] == m.groups;
      assert l == n - 1 && r.after.groups == m.groups[p := g.(layerIds := g.layerIds[..n - 1])];
      DropLast(m.groups, p);
    }
  }

  lemma DropFirst(groups: seq<Group>, p: int)
    requires 0 <= p < |groups| && |groups[p].layerIds| > 0
    ensures var g := groups[p];
            Members(groups[p := g.(layerIds := g.layerIds[1..])]) + multiset{g.layerIds[0]} == Members(groups)
  {
    var g := groups[p];
    assert g.layerIds == [g.layerIds[0]] + g.layerIds[1..];
    MembersDrop(groups, p, g.(layerIds := g.layerIds[1..]), g.layerIds[0]);
  }

  lemma DropLast(groups: seq<Group>, p: int)
    requires 0 <= p < |groups| && |groups[p].layerIds| > 0
    ensures var g := groups[p];
            var n := |g.layerIds|;
            Members(groups[p := g.(layerIds := g.layerIds[..n - 1])]) + multiset{g.layerIds[n - 1]} == Members(groups)
  {
    var g := groups[p];
    var n := |g.layerIds|;
    assert g.layerIds == g.layerIds[..n - 1] + [g.layerIds[n - 1]];
    MembersDrop(groups, p, g.(layerIds := g.layerIds[..n - 1]), g.layerIds[n - 1]);
  }

  /** Away from a full target group the two versions agree. */
  lemma LayerOrderMoveAgrees(m: EditorMap, p: int, l: int, rel: int, maxLayers: int)
    requires 0 <= p < |m.groups| && 0 <= l < |m.groups[p].layerIds|
    ensures MovesIntoFullGroup(m, p, l, rel, maxLayers) <==>
            LayerOrderMove(m, p, l, rel, maxLayers) != LayerOrderMoveAsWritten(m, p, l, rel, maxLayers)
  {
    if MovesIntoFullGroup(m, p, l, rel, maxLayers) {
      LayerVanishesIntoFullGroup(m, p, l, rel, maxLayers);
    }
  }

  /** The concrete case: two groups, the second full at one layer; moving
      layer 1 (the only layer of the first group) down loses it. */
  lemma LayerVanishesExample()
    ensures var m := EditorMap([Group(0, [1], 0, 0, 0, 0), Group(1, [2], 0, 0, 0, 0)],
                               map[1 := QuadLayer, 2 := QuadLayer], 1, 2);
            && LayerOrderMoveAsWritten(m, 0, 0, 1, 1).after.groups
               == [Group(0, [], 0, 0, 0, 0), Group(1, [2], 0, 0, 0, 0)]
            && LayerOrderMove(m, 0, 0, 1, 1).after == m
  {
  }

  // ---------------------------------------------------------------------
  // Clipping edges

  /** The group after a clip edit, and whether it changed. */
  datatype ClipEdit = ClipEdit(group: Group, changed: bool)

  /** Moving the left clip edge to `newX` keeps the right edge where it is,
      the width dropping to 0 if the left edge passes it. */
  function ChangeClipX(g: Group, newX: int): (r: ClipEdit)
    ensures r.changed <==> newX != g.clipX
    ensures !r.changed ==> r.group == g
    ensures r.changed ==> r.group == g.(clipX := newX, clipWidth := r.group.clipWidth)
    ensures r.changed && newX <= g.clipX + g.clipWidth ==>
              r.group.clipX + r.group.clipWidth == g.clipX + g.clipWidth
    ensures r.changed && newX > g.clipX + g.clipWidth ==> r.group.clipWidth == 0
  {
    if newX == g.clipX then ClipEdit(g, false)
    else ClipEdit(g.(clipX := newX, clipWidth := Max(g.clipWidth + g.clipX - newX, 0)), true)
  }

  /** Moving the top clip edge, keeping the bottom edge. */
  function ChangeClipY(g: Group, newY: int): (r: ClipEdit)
    ensures r.changed <==> newY != g.clipY
    ensures !r.changed ==> r.group == g
    ensures r.changed ==> r.group == g.(clipY := newY, clipHeight := r.group.clipHeight)
    ensures r.changed && newY <= g.clipY + g.clipHeight ==>
              r.group.clipY + r.group.clipHeight == g.clipY + g.clipHeight
    ensures r.changed && newY > g.clipY + g.clipHeight ==> r.group.clipHeight == 0
  {
    if newY == g.clipY then ClipEdit(g, false)
    else ClipEdit(g.(clipY := newY, clipHeight := Max(g.clipHeight + g.clipY - newY, 0)), true)
  }

  /** Moving the right clip edge to `newRight`, keeping the left edge; the
      width drops to 0 if the right edge passes the left one. */
  function ChangeClipRight(g: Group, newRight: int): (r: ClipEdit)
    ensures r.changed <==> newRight != g.clipX + g.clipWidth
    ensures !r.changed ==> r.group == g
    ensures r.changed ==> r.group == g.(clipWidth := r.group.clipWidth)
    ensures r.changed && newRight >= g.clipX ==> r.group.clipX + r.group.clipWidth == newRight
    ensures r.changed && newRight < g.clipX ==> r.group.clipWidth == 0
  {
    if newRight - g.clipX == g.clipWidth then ClipEdit(g, false)
    else ClipEdit(g.(clipWidth := Max(newRight - g.clipX, 0)), true)
  }

  /** Moving the bottom clip edge, keeping the top edge. */
  function ChangeClipBottom(g: Group, newBottom: int): (r: ClipEdit)
    ensures r.changed <==> newBottom != g.clipY + g.clipHeight
    ensures !r.changed ==> r.group == g
    ensures r.changed ==> r.group == g.(clipHeight := r.group.clipHeight)
    ensures r.changed && newBottom >= g.clipY ==> r.group.clipY + r.group.clipHeight == newBottom
    ensures r.changed && newBottom < g.clipY ==> r.group.clipHeight == 0
  {
    if newBottom - g.clipY == g.clipHeight then ClipEdit(g, false)
    else ClipEdit(g.(clipHeight := Max(newBottom - g.clipY, 0)), true)
  }

  /** Setting an edge to where it already is changes nothing; setting it
      twice in a row is the same as setting it once. */
  lemma ClipEditsSettle(g: Group, x: int, y: int, right: int, bottom: int)
    ensures ChangeClipX(g, g.clipX) == ClipEdit(g, false)
    ensures ChangeClipX(ChangeClipX(g, x).group, x) == ClipEdit(ChangeClipX(g, x).group, false)
    ensures ChangeClipY(ChangeClipY(g, y).group, y) == ClipEdit(ChangeClipY(g, y).group, false)
    ensures right >= g.clipX ==>
              ChangeClipRight(ChangeClipRight(g, right).group, right)
              == ClipEdit(ChangeClipRight(g, right).group, false)
    ensures bottom >= g.clipY ==>
              ChangeClipBottom(ChangeClipBottom(g, bottom).group, bottom)
              == ClipEdit(ChangeClipBottom(g, bottom).group, false)
  {
  }
}
