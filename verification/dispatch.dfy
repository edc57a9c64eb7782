/** The per-ROI callback of `apply_function_to_file`
    (delta/scripts/landsat_toa.py): crop the block the reader delivered to the
    output ROI, transform it, and write it at its tile coordinate.

    The reader and the writer are not part of this model. The reader is an
    oracle that, for each output ROI in order, delivers the pixels of some
    read region containing it (`readRegion`); the writer is a map from tile
    coordinate to block. */
module Dispatch {
  import opened Rectangles
  import opened Planner

  /** One band of pixels, row-major: `img[y][x]`. */
  type Raster<T> = seq<seq<T>>

  ghost predicate HasShape<T>(g: Raster<T>, width: int, height: int) {
    |g| == height && forall i :: 0 <= i < |g| ==> |g[i]| == width
  }

  /** The reader's side of the contract: the read region is a valid
      rectangle inside the image that contains the output ROI. */
  ghost predicate ReadCovers(out: Rect, read: Rect, cols: nat, rows: nat) {
    out.Valid() && read.Valid() && read.ContainsRect(out) && Bounds(cols, rows).ContainsRect(read)
  }

  /** The pixels of `img` inside `roi`: what the reader hands over for a
      read region, and what the output tile should hold for an output ROI. */
  function Window<T>(img: Raster<T>, cols: nat, rows: nat, roi: Rect): (w: Raster<T>)
    requires HasShape(img, cols, rows)
    requires roi.Valid() && Bounds(cols, rows).ContainsRect(roi)
    ensures HasShape(w, roi.width, roi.height)
  {
    seq(roi.height, i requires 0 <= i < roi.height => img[roi.minY + i][roi.minX..roi.minX + roi.width])
  }

  lemma WindowPixel<T>(img: Raster<T>, cols: nat, rows: nat, roi: Rect, i: int, j: int)
    requires HasShape(img, cols, rows)
    requires roi.Valid() && Bounds(cols, rows).ContainsRect(roi)
    requires 0 <= i < roi.height && 0 <= j < roi.width
    ensures Window(img, cols, rows, roi)[i][j] == img[roi.minY + i][roi.minX + j]
  {
  }

  /** Crop bounds `[y0:y1, x0:x1]` inside the read block. */
  datatype CropBox = CropBox(x0: int, y0: int, x1: int, y1: int)

  /** Where the output ROI falls inside the read ROI. When the read ROI
      contains the output ROI the box lies inside the read block, and in any
      case it has exactly the output ROI's width and height. */
  function CropOffsets(out: Rect, read: Rect): (b: CropBox)
    ensures b.x1 - b.x0 == out.width && b.y1 - b.y0 == out.height
    ensures read.minX + b.x0 == out.minX && read.minY + b.y0 == out.minY
    ensures read.ContainsRect(out) && out.Valid() ==>
      0 <= b.x0 <= b.x1 <= read.width && 0 <= b.y0 <= b.y1 <= read.height
  {
    var x0 := out.minX - read.minX;
    var y0 := out.minY - read.minY;
    CropBox(x0, y0, x0 + out.width, y0 + out.height)
  }

  /** numpy's `data[y0:y1, x0:x1]` for bounds inside the array. */
  function Slice<T>(data: Raster<T>, b: CropBox): (s: Raster<T>)
    requires 0 <= b.y0 <= b.y1 <= |data|
    requires 0 <= b.x0 <= b.x1
    requires forall i :: 0 <= i < |data| ==> b.x1 <= |data[i]|
  {
    seq(b.y1 - b.y0, i requires 0 <= i < b.y1 - b.y0 => data[b.y0 + i][b.x0..b.x1])
  }

  /** Cropping the read block to the offsets of the output ROI yields exactly
      the output ROI's pixels of the image. */
  lemma CropIsWindow<T>(img: Raster<T>, cols: nat, rows: nat, out: Rect, read: Rect)
    requires HasShape(img, cols, rows) && ReadCovers(out, read, cols, rows)
    ensures var b := CropOffsets(out, read);
      var data := Window(img, cols, rows, read);
      && 0 <= b.y0 <= b.y1 <= |data|
      && 0 <= b.x0 <= b.x1
      && (forall i :: 0 <= i < |data| ==> b.x1 <= |data[i]|)
      && Slice(data, b) == Window(img, cols, rows, out)
  {
    var b := CropOffsets(out, read);
    var data := Window(img, cols, rows, read);
    var s := Slice(data, b);
    var w := Window(img, cols, rows, out);
    assert |s| == |w|;
    forall i | 0 <= i < |s|
      ensures s[i] == w[i]
    {
      assert |s[i]| == |w[i]|;
      forall j | 0 <= j < |s[i]|
        ensures s[i][j] == w[i][j]
      {
        WindowPixel(img, cols, rows, read, b.y0 + i, b.x0 + j);
        WindowPixel(img, cols, rows, out, i, j);
      }
    }
  }

  /** A call `write_geotiff_block(block, col, row)`. */
  datatype Write<U> = Write(col: int, row: int, block: Raster<U>)

  function Coord<U>(w: Write<U>): (int, int) {
    (w.col, w.row)
  }

  /** One callback invocation: tile coordinate from the ROI's corner, crop
      of the delivered block, transform, write. The block handed to the
      transform is exactly the output ROI of the image. */
  function Callback<T, U>(img: Raster<T>, cols: nat, rows: nat, tile: Size,
                          f: Raster<T> -> Raster<U>, out: Rect, read: Rect): (w: Write<U>)
    requires PositiveTile(tile) && HasShape(img, cols, rows)
    requires ReadCovers(out, read, cols, rows)
    ensures Coord(w) == (out.minX / tile.x, out.minY / tile.y)
    ensures w.block == f(Window(img, cols, rows, out))
  {
    var col := out.minX / tile.x;
    var row := out.minY / tile.y;
    var data := Window(img, cols, rows, read);
    var b := CropOffsets(out, read);
    CropIsWindow(img, cols, rows, out, read);
    Write(col, row, f(Slice(data, b)))
  }

  /** `process_rois`: one callback per ROI, in the order given. */
  function ProcessRois<T, U>(img: Raster<T>, cols: nat, rows: nat, tile: Size,
                             f: Raster<T> -> Raster<U>, rois: seq<Rect>, readRois: seq<Rect>): (log: seq<Write<U>>)
    requires PositiveTile(tile) && HasShape(img, cols, rows)
    requires |readRois| == |rois|
    requires forall k :: 0 <= k < |rois| ==> ReadCovers(rois[k], readRois[k], cols, rows)
    ensures IsDispatchLog(log, img, cols, rows, tile, f, rois)
  {
    var log := seq(|rois|, k requires 0 <= k < |rois| => Callback(img, cols, rows, tile, f, rois[k], readRois[k]));
    forall k | 0 <= k < |log|
      ensures rois[k].Valid() && Bounds(cols, rows).ContainsRect(rois[k])
      ensures Coord(log[k]) == (rois[k].minX / tile.x, rois[k].minY / tile.y)
      ensures log[k].block == f(Window(img, cols, rows, rois[k]))
    {
      assert ReadCovers(rois[k], readRois[k], cols, rows);
      assert log[k] == Callback(img, cols, rows, tile, f, rois[k], readRois[k]);
    }
    log
  }

  /** What the callbacks leave behind, one write per ROI: the coordinate of
      the ROI's corner and the transform of the ROI's pixels. */
  ghost predicate IsDispatchLog<T, U>(log: seq<Write<U>>, img: Raster<T>, cols: nat, rows: nat, tile: Size,
                                      f: Raster<T> -> Raster<U>, rois: seq<Rect>)
    requires PositiveTile(tile) && HasShape(img, cols, rows)
  {
    && |log| == |rois|
    && forall k :: 0 <= k < |log| ==>
      && Coord(log[k]) == (rois[k].minX / tile.x, rois[k].minY / tile.y)
      && rois[k].Valid() && Bounds(cols, rows).ContainsRect(rois[k])
      && log[k].block == f(Window(img, cols, rows, rois[k]))
  }

  /** The writer's content: the last block written at each coordinate. */
  function Mosaic<U>(log: seq<Write<U>>): (m: map<(int, int), Raster<U>>)
    ensures forall k :: 0 <= k < |log| ==> Coord(log[k]) in m
    ensures forall p :: p in m ==> exists k :: 0 <= k < |log| && Coord(log[k]) == p
    decreases |log|
  {
    if |log| == 0 then map[]
    else
      var last := log[|log| - 1];
      Mosaic(log[..|log| - 1])[Coord(last) := last.block]
  }

  /** How many writes hit coordinate `p`. */
  function WriteCount<U>(log: seq<Write<U>>, p: (int, int)): nat
    decreases |log|
  {
    if |log| == 0 then 0
    else WriteCount(log[..|log| - 1], p) + (if Coord(log[|log| - 1]) == p then 1 else 0)
  }

  ghost predicate DistinctCoords<U>(log: seq<Write<U>>) {
    forall k1, k2 :: 0 <= k1 < |log| && 0 <= k2 < |log| && k1 != k2 ==> Coord(log[k1]) != Coord(log[k2])
  }

  /** With distinct coordinates, every write survives in the mosaic and each
      coordinate is written once. */
  lemma {:induction false} MosaicOfDistinct<U>(log: seq<Write<U>>)
    requires DistinctCoords(log)
    ensures forall k :: 0 <= k < |log| ==> Mosaic(log)[Coord(log[k])] == log[k].block
    ensures forall k :: 0 <= k < |log| ==> WriteCount(log, Coord(log[k])) == 1
    ensures forall p :: (forall k :: 0 <= k < |log| ==> Coord(log[k]) != p) ==> WriteCount(log, p) == 0
    decreases |log|
  {
    if |log| > 0 {
      var init := log[..|log| - 1];
      assert forall k :: 0 <= k < |init| ==> init[k] == log[k];
      MosaicOfDistinct(init);
    }
  }

  function TileCells(nx: nat, ny: nat): set<(int, int)> {
    set c: int, r: int | 0 <= c < nx && 0 <= r < ny :: (c, r)
  }

  /** Over a plan, the write at position `k` goes to grid cell
      `(k % nx, k / nx)`, so the writes hit pairwise distinct cells. */
  lemma DispatchCoords<T, U>(log: seq<Write<U>>, img: Raster<T>, cols: nat, rows: nat, tile: Size,
                             f: Raster<T> -> Raster<U>, rois: seq<Rect>)
    requires PositiveTile(tile) && HasShape(img, cols, rows)
    requires IsPlan(rois, cols, rows, tile)
    requires IsDispatchLog(log, img, cols, rows, tile, f, rois)
    ensures forall k :: 0 <= k < |log| ==>
      Coord(log[k]) == (k % TilesX(cols, tile), k / TilesX(cols, tile))
      && Coord(log[k]) in TileCells(TilesX(cols, tile), TilesY(rows, tile))
    ensures DistinctCoords(log)
  {
    var nx, ny := TilesX(cols, tile), TilesY(rows, tile);
    forall k | 0 <= k < |log|
      ensures Coord(log[k]) == (k % nx, k / nx) && Coord(log[k]) in TileCells(nx, ny)
    {
      PlanRoiGeometry(rois, cols, rows, tile, k);
    }
    forall k1, k2 | 0 <= k1 < |log| && 0 <= k2 < |log| && k1 != k2
      ensures Coord(log[k1]) != Coord(log[k2])
    {
      PlanTileCoordsDistinct(rois, cols, rows, tile, k1, k2);
    }
  }

  /** The write for grid cell `(c, r)` is the one at position `r * nx + c`,
      and it holds the transform of planned tile `(c, r)`. */
  lemma DispatchCellWrite<T, U>(log: seq<Write<U>>, img: Raster<T>, cols: nat, rows: nat, tile: Size,
                                f: Raster<T> -> Raster<U>, rois: seq<Rect>, c: int, r: int)
    requires PositiveTile(tile) && HasShape(img, cols, rows)
    requires IsPlan(rois, cols, rows, tile)
    requires IsDispatchLog(log, img, cols, rows, tile, f, rois)
    requires 0 <= c < TilesX(cols, tile) && 0 <= r < TilesY(rows, tile)
    ensures 0 <= r * TilesX(cols, tile) + c < |log|
    ensures Coord(log[r * TilesX(cols, tile) + c]) == (c, r)
    ensures log[r * TilesX(cols, tile) + c].block == f(Window(img, cols, rows, PlannedRoi(c, r, cols, rows, tile)))
  {
    var nx := TilesX(cols, tile);
    var k := r * nx + c;
    PlanRowMajor(rois, cols, rows, tile, c, r);
    assert rois[k] == PlannedRoi(c, r, cols, rows, tile);
    DivModOf(c * tile.x, tile.x, c, 0);
    DivModOf(r * tile.y, tile.y, r, 0);
    assert Coord(log[k]) == (rois[k].minX / tile.x, rois[k].minY / tile.y);
    assert log[k].block == f(Window(img, cols, rows, rois[k]));
  }

  /** Grid cell `(c, r)` ends up holding the transform of planned tile
      `(c, r)`, written by exactly one callback. */
  lemma DispatchMosaicCell<T, U>(log: seq<Write<U>>, img: Raster<T>, cols: nat, rows: nat, tile: Size,
                                 f: Raster<T> -> Raster<U>, rois: seq<Rect>, c: int, r: int)
    requires PositiveTile(tile) && HasShape(img, cols, rows)
    requires IsPlan(rois, cols, rows, tile)
    requires IsDispatchLog(log, img, cols, rows, tile, f, rois)
    requires 0 <= c < TilesX(cols, tile) && 0 <= r < TilesY(rows, tile)
    ensures (c, r) in Mosaic(log)
    ensures WriteCount(log, (c, r)) == 1
    ensures Mosaic(log)[(c, r)] == f(Window(img, cols, rows, PlannedRoi(c, r, cols, rows, tile)))
  {
    DispatchCoords(log, img, cols, rows, tile, f, rois);
    MosaicOfDistinct(log);
    DispatchCellWrite(log, img, cols, rows, tile, f, rois, c, r);
  }

  /** The whole dispatch over a plan: every grid cell is written exactly
      once, nothing outside the grid is written, and the block at `(c, r)`
      is the transform of the image's pixels in planned tile `(c, r)`. */
  lemma DispatchWritesEveryTileOnce<T, U>(log: seq<Write<U>>, img: Raster<T>, cols: nat, rows: nat, tile: Size,
                                          f: Raster<T> -> Raster<U>, rois: seq<Rect>)
    requires PositiveTile(tile) && HasShape(img, cols, rows)
    requires IsPlan(rois, cols, rows, tile)
    requires IsDispatchLog(log, img, cols, rows, tile, f, rois)
    ensures Mosaic(log).Keys == TileCells(TilesX(cols, tile), TilesY(rows, tile))
    ensures forall p :: WriteCount(log, p) == if p in TileCells(TilesX(cols, tile), TilesY(rows, tile)) then 1 else 0
    ensures forall c, r :: 0 <= c < TilesX(cols, tile) && 0 <= r < TilesY(rows, tile) ==>
      Mosaic(log)[(c, r)] == f(Window(img, cols, rows, PlannedRoi(c, r, cols, rows, tile)))
  {
    DispatchCoversGrid(log, img, cols, rows, tile, f, rois);
    DispatchStaysInGrid(log, img, cols, rows, tile, f, rois);
  }

  /** Every grid cell is written once, with its tile's transform. */
  lemma DispatchCoversGrid<T, U>(log: seq<Write<U>>, img: Raster<T>, cols: nat, rows: nat, tile: Size,
                                 f: Raster<T> -> Raster<U>, rois: seq<Rect>)
    requires PositiveTile(tile) && HasShape(img, cols, rows)
    requires IsPlan(rois, cols, rows, tile)
    requires IsDispatchLog(log, img, cols, rows, tile, f, rois)
    ensures forall c, r :: 0 <= c < TilesX(cols, tile) && 0 <= r < TilesY(rows, tile) ==>
      && (c, r) in Mosaic(log)
      && WriteCount(log, (c, r)) == 1
      && Mosaic(log)[(c, r)] == f(Window(img, cols, rows, PlannedRoi(c, r, cols, rows, tile)))
  {
    forall c, r | 0 <= c < TilesX(cols, tile) && 0 <= r < TilesY(rows, tile)
      ensures (c, r) in Mosaic(log)
      ensures WriteCount(log, (c, r)) == 1
      ensures Mosaic(log)[(c, r)] == f(Window(img, cols, rows, PlannedRoi(c, r, cols, rows, tile)))
    {
      DispatchMosaicCell(log, img, cols, rows, tile, f, rois, c, r);
    }
  }

  /** Nothing outside the grid is written. */
  lemma DispatchStaysInGrid<T, U>(log: seq<Write<U>>, img: Raster<T>, cols: nat, rows: nat, tile: Size,
                                  f: Raster<T> -> Raster<U>, rois: seq<Rect>)
    requires PositiveTile(tile) && HasShape(img, cols, rows)
    requires IsPlan(rois, cols, rows, tile)
    requires IsDispatchLog(log, img, cols, rows, tile, f, rois)
    ensures forall p :: p in Mosaic(log) ==> p in TileCells(TilesX(cols, tile), TilesY(rows, tile))
    ensures forall p :: p !in TileCells(TilesX(cols, tile), TilesY(rows, tile)) ==> WriteCount(log, p) == 0
  {
    var cells := TileCells(TilesX(cols, tile), TilesY(rows, tile));
    DispatchCoords(log, img, cols, rows, tile, f, rois);
    MosaicOfDistinct(log);
    forall p | p in Mosaic(log)
      ensures p in cells
    {
      var k :| 0 <= k < |log| && Coord(log[k]) == p;
    }
  }

  /** Pixel `(x, y)` of the image sits at offset `(x % tw, y % th)` of the
      planned tile `(x / tw, y / th)`. */
  lemma TileOffsetPixel<T>(img: Raster<T>, cols: nat, rows: nat, tile: Size, x: int, y: int)
    requires PositiveTile(tile) && HasShape(img, cols, rows)
    requires 0 <= x < cols && 0 <= y < rows
    ensures 0 <= x / tile.x < TilesX(cols, tile) && 0 <= y / tile.y < TilesY(rows, tile)
    ensures var w := Window(img, cols, rows, PlannedRoi(x / tile.x, y / tile.y, cols, rows, tile));
      && 0 <= y % tile.y < |w| && 0 <= x % tile.x < |w[y % tile.y]|
      && w[y % tile.y][x % tile.x] == img[y][x]
  {
    var c, r := x / tile.x, y / tile.y;
    PixelTileInGrid(cols, tile.x, x);
    PixelTileInGrid(rows, tile.y, y);
    var roi := PlannedRoi(c, r, cols, rows, tile);
    PlannedRoiShape(c, r, cols, rows, tile);
    PlannedRoiContains(c, r, cols, rows, tile, x, y);
    Euclid(x, tile.x);
    Euclid(y, tile.y);
    assert roi.minY + y % tile.y == y && roi.minX + x % tile.x == x;
    WindowPixel(img, cols, rows, roi, y % tile.y, x % tile.x);
  }

  /** With the identity transform the written tiles reassemble the image:
      pixel `(x, y)` is found in tile `(x / tw, y / th)` at offset
      `(x % tw, y % th)`. */
  lemma IdentityRoundTrip<T>(log: seq<Write<T>>, img: Raster<T>, cols: nat, rows: nat, tile: Size,
                             f: Raster<T> -> Raster<T>, rois: seq<Rect>, x: int, y: int)
    requires PositiveTile(tile) && HasShape(img, cols, rows)
    requires forall g :: f(g) == g
    requires IsPlan(rois, cols, rows, tile)
    requires IsDispatchLog(log, img, cols, rows, tile, f, rois)
    requires 0 <= x < cols && 0 <= y < rows
    ensures (x / tile.x, y / tile.y) in Mosaic(log)
    ensures 0 <= y % tile.y < |Mosaic(log)[(x / tile.x, y / tile.y)]|
    ensures 0 <= x % tile.x < |Mosaic(log)[(x / tile.x, y / tile.y)][y % tile.y]|
    ensures Mosaic(log)[(x / tile.x, y / tile.y)][y % tile.y][x % tile.x] == img[y][x]
  {
    var c, r := x / tile.x, y / tile.y;
    TileOffsetPixel(img, cols, rows, tile, x, y);
    DispatchMosaicCell(log, img, cols, rows, tile, f, rois, c, r);
    var w := Window(img, cols, rows, PlannedRoi(c, r, cols, rows, tile));
    assert Mosaic(log)[(c, r)] == f(w) == w;
  }

  /** `apply_function_to_file` end to end: choose the tile size, plan the
      ROIs, let the reader deliver each ROI's read region in order, and
      collect the writes. The output holds one block per grid cell, the
      transform of that cell's pixels. */
  method ApplyFunctionToFile<T, U>(img: Raster<T>, cols: nat, rows: nat, native: Size, user: Size,
                                   readRegion: Rect -> Rect, f: Raster<T> -> Raster<U>)
    returns (tile: Size, written: map<(int, int), Raster<U>>)
    requires HasShape(img, cols, rows) && PositiveTile(native)
    requires forall roi: Rect :: roi.Valid() && Bounds(cols, rows).ContainsRect(roi) ==>
      ReadCovers(roi, readRegion(roi), cols, rows)
    ensures PositiveTile(tile)
    ensures tile.x == (if user.x > 0 then user.x else native.x)
    ensures tile.y == (if user.y > 0 then user.y else native.y)
    ensures written.Keys == TileCells(TilesX(cols, tile), TilesY(rows, tile))
    ensures forall c, r :: 0 <= c < TilesX(cols, tile) && 0 <= r < TilesY(rows, tile) ==>
      written[(c, r)] == f(Window(img, cols, rows, PlannedRoi(c, r, cols, rows, tile)))
  {
    tile := OutputTileSize(user, native);
    var rois := PlanRois(cols, rows, tile);
    forall k | 0 <= k < |rois|
      ensures rois[k].Valid() && Bounds(cols, rows).ContainsRect(rois[k])
    {
      PlanRoiGeometry(rois, cols, rows, tile, k);
    }
    var readRois := seq(|rois|, k requires 0 <= k < |rois| => readRegion(rois[k]));
    var log := ProcessRois(img, cols, rows, tile, f, rois, readRois);
    DispatchWritesEveryTileOnce(log, img, cols, rows, tile, f, rois);
    written := Mosaic(log);
  }
}
