/** Row-major rectangular tile buffers: the brush and the tile layer.

    Both the editor's brush and a map tile layer store `width * height` tiles
    row by row, the tile at column x and row y living at index `y * width + x`.
    `Get` reads a cell (a default tile outside the grid), `SetCell` writes one
    and `Build` makes a grid from a cell function; everything else in the model
    is phrased through these three.
 */
module Grids {
  import opened Tiles

  datatype Grid = Grid(width: nat, height: nat, tiles: seq<Tile>)

  predicate Valid(g: Grid) {
    |g.tiles| == g.width * g.height
  }

  predicate InBounds(g: Grid, x: int, y: int) {
    0 <= x < g.width && 0 <= y < g.height
  }

  /** A brush is either the empty 0x0 brush or has both dimensions positive:
      clearing sets both to zero and setting a new brush demands both > 0. */
  predicate IsBrush(b: Grid) {
    Valid(b) && (b.width == 0 <==> b.height == 0)
  }

  const EmptyBrush: Grid := Grid(0, 0, [])

  lemma CellIndexBound(x: nat, y: nat, w: nat, h: nat)
    requires x < w && y < h
    ensures y * w + x < w * h
  {
    calc {
      y * w + x;
    <
      y * w + w;
    ==
      (y + 1) * w;
    <=  { MulMonotone(y + 1, h, w); }
      h * w;
    }
  }

  lemma MulMonotone(a: nat, b: nat, c: nat)
    requires a <= b
    ensures a * c <= b * c
  {
  }

  /** The flat index of a cell determines the cell. */
  lemma DivModCell(x: nat, y: nat, w: nat)
    requires x < w
    ensures (y * w + x) / w == y
    ensures (y * w + x) % w == x
  {
    DivModUnique(y * w + x, w, y, x);
  }

  /** Euclidean division is determined by quotient and remainder. */
  lemma DivModUnique(n: int, w: int, q: int, r: int)
    requires 0 <= r < w && n == q * w + r
    ensures n / w == q && n % w == r
  {
    var q', r' := n / w, n % w;
    assert (q' - q) * w == r - r';
    MulBounds(q' - q, w);
  }

  lemma MulBounds(k: int, w: int)
    requires w >= 0
    ensures k >= 1 ==> k * w >= w
    ensures k <= -1 ==> k * w <= -w
  {
  }

  lemma FlatIndexInjective(x1: nat, y1: nat, x2: nat, y2: nat, w: nat)
    requires x1 < w && x2 < w
    requires y1 * w + x1 == y2 * w + x2
    ensures x1 == x2 && y1 == y2
  {
    DivModCell(x1, y1, w);
    DivModCell(x2, y2, w);
  }

  /** Every flat index below `w * h` names a cell of the grid. */
  lemma FlatIndexCell(i: nat, w: nat, h: nat)
    requires i < w * h
    ensures w > 0
    ensures i % w < w && i / w < h
    ensures i == (i / w) * w + i % w
  {
    if i / w >= h {
      MulMonotone(h, i / w, w);
    }
  }

  function Get(g: Grid, x: int, y: int): Tile {
    if Valid(g) && InBounds(g, x, y) then
      CellIndexBound(x, y, g.width, g.height);
      g.tiles[y * g.width + x]
    else
      EmptyTile
  }

  /** Overwrites one in-bounds cell. */
  function SetCell(g: Grid, x: int, y: int, t: Tile): (r: Grid)
    requires Valid(g) && InBounds(g, x, y)
    ensures Valid(r) && r.width == g.width && r.height == g.height
    ensures Get(r, x, y) == t
    ensures forall x', y' :: (x' != x || y' != y) ==> Get(r, x', y') == Get(g, x', y')
  {
    CellIndexBound(x, y, g.width, g.height);
    var r := g.(tiles := g.tiles[y * g.width + x := t]);
    forall x', y' | (x' != x || y' != y) && InBounds(g, x', y')
      ensures Get(r, x', y') == Get(g, x', y')
    {
      CellIndexBound(x', y', g.width, g.height);
      if y' * g.width + x' == y * g.width + x {
        FlatIndexInjective(x', y', x, y, g.width);
      }
    }
    r
  }

  /** The `w` x `h` grid whose cell (x, y) is `f(x, y)`. */
  function Build(w: nat, h: nat, f: (int, int) -> Tile): (r: Grid)
    ensures Valid(r) && r.width == w && r.height == h
    ensures forall x, y :: InBounds(r, x, y) ==> Get(r, x, y) == f(x, y)
  {
    var r := Grid(w, h, seq(w * h, i requires 0 <= i < w * h => f(i % w, i / w)));
    forall x, y | InBounds(r, x, y)
      ensures Get(r, x, y) == f(x, y)
    {
      CellIndexBound(x, y, w, h);
      DivModCell(x, y, w);
    }
    r
  }

  /** Two valid grids of the same size with the same cells are equal. */
  lemma Extensionality(a: Grid, b: Grid)
    requires Valid(a) && Valid(b)
    requires a.width == b.width && a.height == b.height
    requires forall x, y :: InBounds(a, x, y) ==> Get(a, x, y) == Get(b, x, y)
    ensures a == b
  {
    forall i | 0 <= i < |a.tiles|
      ensures a.tiles[i] == b.tiles[i]
    {
      FlatIndexCell(i, a.width, a.height);
      var x, y := i % a.width, i / a.width;
      assert Get(a, x, y) == Get(b, x, y);
    }
  }
}
