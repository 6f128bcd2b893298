/** Map tiles and their orientation flags.

    A tile is an index into a tileset image plus a byte of flags. Three of the
    flag bits describe the tile's orientation: a vertical flip, a horizontal
    flip and a quarter-turn rotation. The rotation bit changes which geometric
    axis each flip bit acts on, which is why flipping a brush along X toggles a
    different flip bit depending on whether the tile is rotated.
 */
module Tiles {

  datatype Tile = Tile(index: bv8, flags: bv8)

  /** The zero-initialised tile a fresh layer or brush cell holds. */
  const EmptyTile: Tile := Tile(0, 0)

  /** TILEFLAG_VFLIP, TILEFLAG_HFLIP and TILEFLAG_ROTATE of the map format. */
  const VFlip: bv8 := 1
  const HFlip: bv8 := 2
  const Rotate: bv8 := 8

  /** The bits the brush transforms may touch. */
  const OrientationBits: bv8 := VFlip | HFlip | Rotate

  predicate IsRotated(f: bv8) {
    f & Rotate != 0
  }

  /** Flag rewrite of a tile moved by a horizontal mirror of the brush:
      toggles HFLIP on a rotated tile and VFLIP otherwise. */
  function FlipXFlags(f: bv8): (r: bv8)
    ensures IsRotated(r) == IsRotated(f)
    ensures r ^ f == (if IsRotated(f) then HFlip else VFlip)
  {
    if IsRotated(f) then f ^ HFlip else f ^ VFlip
  }

  /** Flag rewrite of a tile moved by a vertical mirror of the brush:
      toggles VFLIP on a rotated tile and HFLIP otherwise. */
  function FlipYFlags(f: bv8): (r: bv8)
    ensures IsRotated(r) == IsRotated(f)
    ensures r ^ f == (if IsRotated(f) then VFlip else HFlip)
  {
    if IsRotated(f) then f ^ VFlip else f ^ HFlip
  }

  /** Flag rewrite of a clockwise quarter turn: both flips toggle when the
      tile was already rotated, and the rotation bit always toggles. */
  function RotateCWFlags(f: bv8): (r: bv8)
    ensures IsRotated(r) != IsRotated(f)
    ensures r ^ f == (if IsRotated(f) then HFlip | VFlip | Rotate else Rotate)
  {
    (if IsRotated(f) then f ^ (HFlip | VFlip) else f) ^ Rotate
  }

  /** Flag rewrite of a counter-clockwise quarter turn: both flips toggle when
      the tile was NOT rotated, and the rotation bit always toggles. */
  function RotateCCWFlags(f: bv8): (r: bv8)
    ensures IsRotated(r) != IsRotated(f)
    ensures r ^ f == (if IsRotated(f) then Rotate else HFlip | VFlip | Rotate)
  {
    (if !IsRotated(f) then f ^ (HFlip | VFlip) else f) ^ Rotate
  }

  function FlipXTile(t: Tile): Tile {
    t.(flags := FlipXFlags(t.flags))
  }

  function FlipYTile(t: Tile): Tile {
    t.(flags := FlipYFlags(t.flags))
  }

  function RotateCWTile(t: Tile): Tile {
    t.(flags := RotateCWFlags(t.flags))
  }

  function RotateCCWTile(t: Tile): Tile {
    t.(flags := RotateCCWFlags(t.flags))
  }

  /** Every flag transform leaves the bits outside the orientation mask alone. */
  lemma TransformsKeepOtherBits(f: bv8)
    ensures FlipXFlags(f) & !OrientationBits == f & !OrientationBits
    ensures FlipYFlags(f) & !OrientationBits == f & !OrientationBits
    ensures RotateCWFlags(f) & !OrientationBits == f & !OrientationBits
    ensures RotateCCWFlags(f) & !OrientationBits == f & !OrientationBits
  {
  }

  /** Each mirror undoes itself, on rotated and unrotated tiles alike, and the
      two quarter turns undo each other. */
  lemma FlagInverses(f: bv8)
    ensures FlipXFlags(FlipXFlags(f)) == f
    ensures FlipYFlags(FlipYFlags(f)) == f
    ensures RotateCCWFlags(RotateCWFlags(f)) == f
    ensures RotateCWFlags(RotateCCWFlags(f)) == f
  {
  }

  /** A half turn made of two clockwise quarter turns rewrites the flags the
      same way as mirroring along both axes: both flip bits toggle. */
  lemma HalfTurnFlags(f: bv8)
    ensures RotateCWFlags(RotateCWFlags(f)) == FlipYFlags(FlipXFlags(f))
    ensures RotateCWFlags(RotateCWFlags(f)) == f ^ (HFlip | VFlip)
  {
  }
}
