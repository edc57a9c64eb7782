/** Output tile size selection and ROI planning of `apply_function_to_file`
    (delta/scripts/landsat_toa.py): the image is cut into a row-major grid of
    tile-sized rectangles, each clipped to the image bounds. */
module Planner {
  import opened Rectangles

  /** A horizontal and a vertical extent: `block_size_out[X]`, `block_size_out[Y]`. */
  datatype Size = Size(x: int, y: int)

  predicate PositiveTile(tile: Size) {
    tile.x > 0 && tile.y > 0
  }

  /** Each axis of the output tile is the user's value when it is positive
      and the input's native block size otherwise. */
  function OutputTileSize(user: Size, native: Size): (tile: Size)
    ensures user.x > 0 ==> tile.x == user.x
    ensures user.x <= 0 ==> tile.x == native.x
    ensures user.y > 0 ==> tile.y == user.y
    ensures user.y <= 0 ==> tile.y == native.y
    ensures PositiveTile(native) ==> PositiveTile(tile)
  {
    Size(if user.x > 0 then user.x else native.x, if user.y > 0 then user.y else native.y)
  }

  /** `ceil(n / t)`: the fewest tiles of extent `t` that cover `n` pixels. */
  function CeilDiv(n: nat, t: int): (q: nat)
    requires t > 0
    ensures n <= q * t
    ensures (q - 1) * t < n
  {
    (n + t - 1) / t
  }

  function Bounds(cols: nat, rows: nat): Rect {
    Rect(0, 0, cols, rows)
  }

  /** Tile `(c, r)` of the output grid before clipping. */
  function TileRect(c: int, r: int, tile: Size): Rect {
    Rect(c * tile.x, r * tile.y, tile.x, tile.y)
  }

  /** Tile `(c, r)` clipped to the image; a cell of the grid gives a
      non-empty rectangle inside the image. */
  function PlannedRoi(c: int, r: int, cols: nat, rows: nat, tile: Size): (roi: Rect)
    ensures roi.Valid()
    ensures PositiveTile(tile) && 0 <= c < TilesX(cols, tile) && 0 <= r < TilesY(rows, tile) ==>
      !roi.IsEmpty() && Bounds(cols, rows).ContainsRect(roi)
  {
    if PositiveTile(tile) && 0 <= c < TilesX(cols, tile) && 0 <= r < TilesY(rows, tile) then
      TileInside(c, cols, tile.x);
      TileInside(r, rows, tile.y);
      Intersection(TileRect(c, r, tile), Bounds(cols, rows))
    else
      Intersection(TileRect(c, r, tile), Bounds(cols, rows))
  }

  function TilesX(cols: nat, tile: Size): nat
    requires PositiveTile(tile)
  {
    CeilDiv(cols, tile.x)
  }

  function TilesY(rows: nat, tile: Size): nat
    requires PositiveTile(tile)
  {
    CeilDiv(rows, tile.y)
  }

  /** Reference definition of the ROI list: one ROI per grid cell, row-major,
      so the ROI at position `k` is the clipped tile `(k % nx, k / nx)`. */
  ghost predicate IsPlan(rois: seq<Rect>, cols: nat, rows: nat, tile: Size)
    requires PositiveTile(tile)
  {
    var nx := TilesX(cols, tile);
    var ny := TilesY(rows, tile);
    && |rois| == nx * ny
    && forall k :: 0 <= k < |rois| ==> rois[k] == PlannedRoi(k % nx, k / nx, cols, rows, tile)
  }

  lemma MulMono(a: int, b: int, t: int)
    requires a <= b && t >= 0
    ensures a * t <= b * t
  {
    assert b * t - a * t == (b - a) * t;
  }

  lemma MulStrict(a: int, b: int, t: int)
    requires t > 0 && a * t < b * t
    ensures a < b
  {
    if a >= b {
      MulMono(b, a, t);
    }
  }

  lemma Euclid(x: int, t: int)
    requires t > 0
    ensures x == (x / t) * t + x % t && 0 <= x % t < t
  {
  }

  /** Quotient and remainder are unique. */
  lemma DivModOf(k: int, n: int, q: int, m: int)
    requires n > 0 && 0 <= m < n && k == q * n + m
    ensures k / n == q && k % n == m
  {
    var q', m' := k / n, k % n;
    assert k == q' * n + m';
    assert (q' + 1) * n == q' * n + n;
    assert (q + 1) * n == q * n + n;
    MulStrict(q, q' + 1, n);
    MulStrict(q', q + 1, n);
  }

  /** `k == q * n + m` with `0 <= m < n` exactly when `q` and `m` are the
      quotient and remainder of `k` by `n`. */
  lemma DivModUnique(k: int, n: int, q: int, m: int)
    requires n > 0 && 0 <= m < n
    ensures k == q * n + m <==> k / n == q && k % n == m
  {
    Euclid(k, n);
    if k == q * n + m {
      DivModOf(k, n, q, m);
    }
  }

  /** A position below `nx * ny` has a column below `nx` and a row below
      `ny`, and is recovered from them. */
  lemma GridIndex(k: int, nx: int, ny: int)
    requires nx >= 0 && ny >= 0 && 0 <= k < nx * ny
    ensures nx > 0
    ensures 0 <= k % nx < nx && 0 <= k / nx < ny
    ensures k == (k / nx) * nx + k % nx
  {
    assert 0 * ny == 0;
    Euclid(k, nx);
    assert nx * ny == ny * nx;
    MulStrict(k / nx, ny, nx);
  }

  /** Two positions with the same column and row are the same position. */
  lemma GridIndexInjective(k1: int, k2: int, n: int)
    requires n > 0
    ensures k1 % n == k2 % n && k1 / n == k2 / n ==> k1 == k2
  {
    Euclid(k1, n);
    Euclid(k2, n);
  }

  /** The nested loops that build `output_rois`, rows outer, columns inner. */
  method PlanRois(cols: nat, rows: nat, tile: Size) returns (rois: seq<Rect>)
    requires PositiveTile(tile)
    ensures IsPlan(rois, cols, rows, tile)
  {
    var nx := TilesX(cols, tile);
    var ny := TilesY(rows, tile);
    rois := [];
    var r := 0;
    while r < ny
      invariant 0 <= r <= ny
      invariant |rois| == r * nx
      invariant forall k :: 0 <= k < |rois| ==> rois[k] == PlannedRoi(k % nx, k / nx, cols, rows, tile)
    {
      var c := 0;
      while c < nx
        invariant 0 <= c <= nx
        invariant |rois| == r * nx + c
        invariant forall k :: 0 <= k < |rois| ==> rois[k] == PlannedRoi(k % nx, k / nx, cols, rows, tile)
      {
        var roi := Rect(c * tile.x, r * tile.y, tile.x, tile.y);
        roi := Intersection(roi, Bounds(cols, rows));
        var k := |rois|;
        DivModOf(k, nx, r, c);
        assert roi == PlannedRoi(k % nx, k / nx, cols, rows, tile);
        rois := rois + [roi];
        c := c + 1;
      }
      assert r * nx + nx == (r + 1) * nx;
      r := r + 1;
    }
  }

  /** The ROI for grid cell `(c, r)` sits at position `r * nx + c`. */
  lemma PlanRowMajor(rois: seq<Rect>, cols: nat, rows: nat, tile: Size, c: int, r: int)
    requires PositiveTile(tile) && IsPlan(rois, cols, rows, tile)
    requires 0 <= c < TilesX(cols, tile) && 0 <= r < TilesY(rows, tile)
    ensures 0 <= r * TilesX(cols, tile) + c < |rois|
    ensures rois[r * TilesX(cols, tile) + c] == PlannedRoi(c, r, cols, rows, tile)
    ensures rois[r * TilesX(cols, tile) + c].minX == c * tile.x
    ensures rois[r * TilesX(cols, tile) + c].minY == r * tile.y
  {
    var nx, ny := TilesX(cols, tile), TilesY(rows, tile);
    MulLess(r, ny, nx);
    DivModOf(r * nx + c, nx, r, c);
    TileInside(c, cols, tile.x);
    TileInside(r, rows, tile.y);
  }

  lemma MulLess(r: int, ny: int, nx: int)
    requires 0 <= r < ny && nx >= 0
    ensures r * nx + nx <= ny * nx
  {
    assert r * nx + nx == (r + 1) * nx;
  }

  /** A tile index below `ceil(n / t)` starts inside the image, and the tile
      ends inside it unless it is the last one. */
  lemma TileInside(c: int, n: nat, t: int)
    requires t > 0 && 0 <= c < CeilDiv(n, t)
    ensures 0 <= c * t < n
    ensures c < CeilDiv(n, t) - 1 ==> c * t + t < n
    ensures c == CeilDiv(n, t) - 1 ==> n <= c * t + t
  {
    var q := CeilDiv(n, t);
    MulMono(0, c, t);
    MulMono(c, q - 1, t);
    assert (c + 1) * t == c * t + t;
    if c < q - 1 {
      MulMono(c + 1, q - 1, t);
    }
  }

  /** `x / t == c` exactly when `x` falls in the `c`-th stretch of `t`. */
  lemma DivIff(x: int, t: int, c: int)
    requires t > 0
    ensures x / t == c <==> c * t <= x < c * t + t
  {
    if c * t <= x < c * t + t {
      DivModOf(x, t, c, x - c * t);
    }
  }

  /** Every planned ROI lies inside the image and is non-empty; interior
      ROIs are exactly one tile, the last column and row are clipped to what
      is left of the image. */
  lemma PlannedRoiShape(c: int, r: int, cols: nat, rows: nat, tile: Size)
    requires PositiveTile(tile)
    requires 0 <= c < TilesX(cols, tile) && 0 <= r < TilesY(rows, tile)
    ensures var roi := PlannedRoi(c, r, cols, rows, tile);
      && roi.minX == c * tile.x && roi.minY == r * tile.y
      && roi.width > 0 && roi.height > 0
      && Bounds(cols, rows).ContainsRect(roi)
      && (c < TilesX(cols, tile) - 1 ==> roi.width == tile.x)
      && (c == TilesX(cols, tile) - 1 ==> roi.width == cols - c * tile.x)
      && (r < TilesY(rows, tile) - 1 ==> roi.height == tile.y)
      && (r == TilesY(rows, tile) - 1 ==> roi.height == rows - r * tile.y)
  {
    TileInside(c, cols, tile.x);
    TileInside(r, rows, tile.y);
  }

  /** Which planned tile holds a pixel: tile `(c, r)` holds `(x, y)` iff the
      pixel is in the image and `c`, `r` are its coordinates divided by the
      tile size. */
  lemma PlannedRoiContains(c: int, r: int, cols: nat, rows: nat, tile: Size, x: int, y: int)
    requires PositiveTile(tile)
    ensures PlannedRoi(c, r, cols, rows, tile).Contains(x, y)
        <==> Bounds(cols, rows).Contains(x, y) && x / tile.x == c && y / tile.y == r
  {
    DivIff(x, tile.x, c);
    DivIff(y, tile.y, r);
  }

  /** Every pixel of the image lies in exactly the ROI at position
      `(y / th) * nx + x / tw`, and no ROI holds a pixel outside the image. */
  lemma {:induction false} PlanPixelOwner(rois: seq<Rect>, cols: nat, rows: nat, tile: Size, k: int, x: int, y: int)
    requires PositiveTile(tile) && IsPlan(rois, cols, rows, tile)
    requires 0 <= k < |rois|
    ensures rois[k].Contains(x, y)
        <==> Bounds(cols, rows).Contains(x, y) && k == (y / tile.y) * TilesX(cols, tile) + x / tile.x
  {
    var nx := TilesX(cols, tile);
    PlanCell(rois, cols, rows, tile, k);
    var c, r := k % nx, k / nx;
    PlannedRoiContains(c, r, cols, rows, tile, x, y);
    if Bounds(cols, rows).Contains(x, y) {
      PixelTileInGrid(cols, tile.x, x);
      DivModUnique(k, nx, y / tile.y, x / tile.x);
    }
  }

  lemma PixelTileInGrid(n: nat, t: int, x: int)
    requires t > 0 && 0 <= x < n
    ensures 0 <= x / t < CeilDiv(n, t)
  {
    assert x == (x / t) * t + x % t;
    MulStrict(x / t, CeilDiv(n, t), t);
  }

  /** The ROIs partition the image: pairwise disjoint, and their union is
      every pixel of the image and nothing else. */
  lemma PlanPartitions(rois: seq<Rect>, cols: nat, rows: nat, tile: Size)
    requires PositiveTile(tile) && IsPlan(rois, cols, rows, tile)
    ensures forall k1, k2, x, y :: 0 <= k1 < |rois| && 0 <= k2 < |rois| && rois[k1].Contains(x, y) && rois[k2].Contains(x, y) ==> k1 == k2
    ensures forall x, y :: (exists k :: 0 <= k < |rois| && rois[k].Contains(x, y)) <==> Bounds(cols, rows).Contains(x, y)
  {
    var nx := TilesX(cols, tile);
    forall k1, k2, x, y | 0 <= k1 < |rois| && 0 <= k2 < |rois| && rois[k1].Contains(x, y) && rois[k2].Contains(x, y)
      ensures k1 == k2
    {
      PlanPixelOwner(rois, cols, rows, tile, k1, x, y);
      PlanPixelOwner(rois, cols, rows, tile, k2, x, y);
    }
    forall x, y | Bounds(cols, rows).Contains(x, y)
      ensures exists k :: 0 <= k < |rois| && rois[k].Contains(x, y)
    {
      var c, r := x / tile.x, y / tile.y;
      PixelTileInGrid(cols, tile.x, x);
      PixelTileInGrid(rows, tile.y, y);
      PlanRowMajor(rois, cols, rows, tile, c, r);
      PlanPixelOwner(rois, cols, rows, tile, r * nx + c, x, y);
    }
    forall x, y, k | 0 <= k < |rois| && rois[k].Contains(x, y)
      ensures Bounds(cols, rows).Contains(x, y)
    {
      PlanPixelOwner(rois, cols, rows, tile, k, x, y);
    }
  }

  /** Position `k` of a plan is grid cell `(k % nx, k / nx)`. */
  lemma PlanCell(rois: seq<Rect>, cols: nat, rows: nat, tile: Size, k: int)
    requires PositiveTile(tile) && IsPlan(rois, cols, rows, tile)
    requires 0 <= k < |rois|
    ensures TilesX(cols, tile) > 0
    ensures 0 <= k % TilesX(cols, tile) < TilesX(cols, tile)
    ensures 0 <= k / TilesX(cols, tile) < TilesY(rows, tile)
    ensures rois[k] == PlannedRoi(k % TilesX(cols, tile), k / TilesX(cols, tile), cols, rows, tile)
  {
    GridIndex(k, TilesX(cols, tile), TilesY(rows, tile));
  }

  /** Every planned ROI is non-empty, inside the image, and starts on a
      multiple of the tile size, so `min_x / tw` and `min_y / th` are exact
      and give back the loop's column and row. */
  lemma PlanRoiGeometry(rois: seq<Rect>, cols: nat, rows: nat, tile: Size, k: int)
    requires PositiveTile(tile) && IsPlan(rois, cols, rows, tile)
    requires 0 <= k < |rois|
    ensures rois[k].width > 0 && rois[k].height > 0
    ensures Bounds(cols, rows).ContainsRect(rois[k])
    ensures rois[k].minX % tile.x == 0 && rois[k].minY % tile.y == 0
    ensures rois[k].minX / tile.x == k % TilesX(cols, tile) < TilesX(cols, tile)
    ensures rois[k].minY / tile.y == k / TilesX(cols, tile) < TilesY(rows, tile)
  {
    PlanCell(rois, cols, rows, tile, k);
    var nx := TilesX(cols, tile);
    var c, r := k % nx, k / nx;
    PlannedRoiShape(c, r, cols, rows, tile);
    DivModOf(c * tile.x, tile.x, c, 0);
    DivModOf(r * tile.y, tile.y, r, 0);
  }

  /** Distinct ROIs have distinct tile coordinates. */
  lemma PlanTileCoordsDistinct(rois: seq<Rect>, cols: nat, rows: nat, tile: Size, k1: int, k2: int)
    requires PositiveTile(tile) && IsPlan(rois, cols, rows, tile)
    requires 0 <= k1 < |rois| && 0 <= k2 < |rois| && k1 != k2
    ensures (rois[k1].minX / tile.x, rois[k1].minY / tile.y) != (rois[k2].minX / tile.x, rois[k2].minY / tile.y)
  {
    PlanRoiGeometry(rois, cols, rows, tile, k1);
    PlanRoiGeometry(rois, cols, rows, tile, k2);
    GridIndexInjective(k1, k2, TilesX(cols, tile));
  }
}
