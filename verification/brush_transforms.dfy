/** Mirroring and quarter-turn rotation of the editor brush.

    Each transform permutes the brush cells and rewrites every moved tile's
    orientation flags (see `Tiles`). All four return the brush unchanged when
    its width is not positive, as the editor does.
 */
module BrushTransforms {
  import opened Tiles
  import opened Grids

  /** Reverses every row; each tile's flags get `FlipXFlags`. */
  function FlipX(b: Grid): (r: Grid)
    requires Valid(b)
    ensures Valid(r) && r.width == b.width && r.height == b.height
    ensures b.width == 0 ==> r == b
    ensures forall x, y :: InBounds(r, x, y) ==>
              Get(r, x, y) == FlipXTile(Get(b, b.width - 1 - x, y))
  {
    if b.width == 0 then b
    else Build(b.width, b.height, (x, y) => FlipXTile(Get(b, b.width - 1 - x, y)))
  }

  /** Reverses the order of the rows; each tile's flags get `FlipYFlags`. */
  function FlipY(b: Grid): (r: Grid)
    requires Valid(b)
    ensures Valid(r) && r.width == b.width && r.height == b.height
    ensures b.width == 0 ==> r == b
    ensures forall x, y :: InBounds(r, x, y) ==>
              Get(r, x, y) == FlipYTile(Get(b, x, b.height - 1 - y))
  {
    if b.width == 0 then b
    else Build(b.width, b.height, (x, y) => FlipYTile(Get(b, x, b.height - 1 - y)))
  }

  /** Clockwise quarter turn: the tile at (tx, ty) moves to column
      `height - 1 - ty` of row `tx`, and width and height swap. */
  function RotateCW(b: Grid): (r: Grid)
    requires Valid(b)
    ensures Valid(r)
    ensures b.width == 0 ==> r == b
    ensures b.width > 0 ==> r.width == b.height && r.height == b.width
    ensures forall tx, ty :: InBounds(b, tx, ty) && b.width > 0 ==>
              Get(r, b.height - 1 - ty, tx) == RotateCWTile(Get(b, tx, ty))
  {
    if b.width == 0 then b
    else
      var r := Build(b.height, b.width, (x, y) => RotateCWTile(Get(b, y, b.height - 1 - x)));
      assert forall tx, ty :: InBounds(b, tx, ty) ==> InBounds(r, b.height - 1 - ty, tx);
      r
  }

  /** Counter-clockwise quarter turn: the tile at (tx, ty) moves to column
      `ty` of row `width - 1 - tx`, and width and height swap. */
  function RotateCCW(b: Grid): (r: Grid)
    requires Valid(b)
    ensures Valid(r)
    ensures b.width == 0 ==> r == b
    ensures b.width > 0 ==> r.width == b.height && r.height == b.width
    ensures forall tx, ty :: InBounds(b, tx, ty) && b.width > 0 ==>
              Get(r, ty, b.width - 1 - tx) == RotateCCWTile(Get(b, tx, ty))
  {
    if b.width == 0 then b
    else
      var r := Build(b.height, b.width, (x, y) => RotateCCWTile(Get(b, b.width - 1 - y, x)));
      assert forall tx, ty :: InBounds(b, tx, ty) ==> InBounds(r, ty, b.width - 1 - tx);
      r
  }

  lemma {:induction false} FlipXInvolution(b: Grid)
    requires Valid(b)
    ensures FlipX(FlipX(b)) == b
  {
    var r := FlipX(FlipX(b));
    forall x, y | InBounds(b, x, y)
      ensures Get(r, x, y) == Get(b, x, y)
    {
      FlagInverses(Get(b, x, y).flags);
    }
    Extensionality(r, b);
  }

  lemma {:induction false} FlipYInvolution(b: Grid)
    requires Valid(b)
    ensures FlipY(FlipY(b)) == b
  {
    var r := FlipY(FlipY(b));
    forall x, y | InBounds(b, x, y)
      ensures Get(r, x, y) == Get(b, x, y)
    {
      FlagInverses(Get(b, x, y).flags);
    }
    Extensionality(r, b);
  }

  /** A clockwise turn followed by a counter-clockwise one gives back the
      brush, its dimensions and every tile's index and flags; so does the
      opposite order. */
  lemma {:induction false} RotateRoundTrip(b: Grid)
    requires IsBrush(b)
    ensures RotateCCW(RotateCW(b)) == b
    ensures RotateCW(RotateCCW(b)) == b
  {
    if b.width > 0 {
      var r := RotateCCW(RotateCW(b));
      forall x, y | InBounds(b, x, y)
        ensures Get(r, x, y) == Get(b, x, y)
      {
        TurnBackCell(b, x, y);
      }
      Extensionality(r, b);
      var s := RotateCW(RotateCCW(b));
      forall x, y | InBounds(b, x, y)
        ensures Get(s, x, y) == Get(b, x, y)
      {
        TurnForthCell(b, x, y);
      }
      Extensionality(s, b);
    }
  }

  lemma TurnBackCell(b: Grid, x: int, y: int)
    requires IsBrush(b) && b.width > 0 && InBounds(b, x, y)
    ensures RotateCCW(RotateCW(b)).width == b.width && RotateCCW(RotateCW(b)).height == b.height
    ensures Get(RotateCCW(RotateCW(b)), x, y) == Get(b, x, y)
  {
    var c := RotateCW(b);
    assert Get(c, b.height - 1 - y, x) == RotateCWTile(Get(b, x, y));
    FlagInverses(Get(b, x, y).flags);
  }

  lemma TurnForthCell(b: Grid, x: int, y: int)
    requires IsBrush(b) && b.width > 0 && InBounds(b, x, y)
    ensures RotateCW(RotateCCW(b)).width == b.width && RotateCW(RotateCCW(b)).height == b.height
    ensures Get(RotateCW(RotateCCW(b)), x, y) == Get(b, x, y)
  {
    var d := RotateCCW(b);
    assert Get(d, y, b.width - 1 - x) == RotateCCWTile(Get(b, x, y));
    FlagInverses(Get(b, x, y).flags);
  }

  /** Two clockwise quarter turns equal mirroring along both axes, positions
      and flags alike. */
  lemma {:induction false} HalfTurnIsDoubleFlip(b: Grid)
    requires IsBrush(b)
    ensures RotateCW(RotateCW(b)) == FlipY(FlipX(b))
  {
    if b.width > 0 {
      var c := RotateCW(b);
      var r := RotateCW(c);
      var f := FlipX(b);
      var s := FlipY(f);
      forall x, y | InBounds(b, x, y)
        ensures Get(r, x, y) == Get(s, x, y)
      {
        HalfTurnCell(b, x, y);
      }
      Extensionality(r, s);
    }
  }

  lemma HalfTurnCell(b: Grid, x: int, y: int)
    requires IsBrush(b) && b.width > 0 && InBounds(b, x, y)
    ensures Get(RotateCW(RotateCW(b)), x, y) == Get(FlipY(FlipX(b)), x, y)
  {
    var t := Get(b, b.width - 1 - x, b.height - 1 - y);
    TwoTurnsCell(b, x, y);
    TwoFlipsCell(b, x, y);
    HalfTurnFlags(t.flags);
  }

  lemma TwoTurnsCell(b: Grid, x: int, y: int)
    requires IsBrush(b) && b.width > 0 && InBounds(b, x, y)
    ensures Get(RotateCW(RotateCW(b)), x, y)
         == RotateCWTile(RotateCWTile(Get(b, b.width - 1 - x, b.height - 1 - y)))
  {
    var c := RotateCW(b);
    var tx, ty := b.width - 1 - x, b.height - 1 - y;
    assert InBounds(c, y, tx);
    assert Get(c, y, tx) == RotateCWTile(Get(b, tx, ty));
  }

  lemma TwoFlipsCell(b: Grid, x: int, y: int)
    requires IsBrush(b) && b.width > 0 && InBounds(b, x, y)
    ensures Get(FlipY(FlipX(b)), x, y)
         == FlipYTile(FlipXTile(Get(b, b.width - 1 - x, b.height - 1 - y)))
  {
  }

  /** The worked example of a 2x2 brush of unrotated tiles 1..4: mirroring
      along X swaps the columns and sets VFLIP on every tile. */
  lemma FlipXExample()
    ensures FlipX(Grid(2, 2, [Tile(1, 0), Tile(2, 0), Tile(3, 0), Tile(4, 0)]))
         == Grid(2, 2, [Tile(2, 1), Tile(1, 1), Tile(4, 1), Tile(3, 1)])
  {
    var b := Grid(2, 2, [Tile(1, 0), Tile(2, 0), Tile(3, 0), Tile(4, 0)]);
    var e := Grid(2, 2, [Tile(2, 1), Tile(1, 1), Tile(4, 1), Tile(3, 1)]);
    var r := FlipX(b);
    assert Get(r, 0, 0) == Get(e, 0, 0);
    assert Get(r, 1, 0) == Get(e, 1, 0);
    assert Get(r, 0, 1) == Get(e, 0, 1);
    assert Get(r, 1, 1) == Get(e, 1, 1);
    Extensionality(r, e);
  }
}
