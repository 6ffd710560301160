/** Pixel buffers and their decomposition into 8x8 regions.

    An `Image` stands for a `BufferedImage`: `rows[y][x]` is `getRGB(x, y)`.
    The row-major scan with y outer and x inner is the loop shared by the
    composing constructor, `initialize` and the tile-map resolver of
    TilesetHolder.java; `Recompose` is the grid placement of
    `recreatePictureFromDmgTiles`. */
module Images {

  import opened Arith
  import opened Pixels

  const TILE_DIMENSION: nat := 8

  datatype Raster = Raster(width: nat, height: nat, rows: seq<seq<Argb>>)

  predicate WellFormed(r: Raster) {
    && r.width > 0 && r.height > 0
    && |r.rows| == r.height
    && forall y | 0 <= y < |r.rows| :: |r.rows[y]| == r.width
  }

  /** A raster image: at least one pixel, every row as wide as the image. */
  type Image = r: Raster | WellFormed(r) witness Raster(1, 1, [[0]])

  /** The image of the given size with every pixel equal to `p`. */
  function Fill(width: nat, height: nat, p: Argb): (img: Image)
    requires width > 0 && height > 0
    ensures img.width == width && img.height == height
    ensures forall y, x | 0 <= y < height && 0 <= x < width :: img.rows[y][x] == p
  {
    Raster(width, height, seq(height, _ => seq(width, _ => p)))
  }

  /** The pixel content of one tile. */
  type TileImage = i: Image | i.width == TILE_DIMENSION && i.height == TILE_DIMENSION
    witness Fill(8, 8, 0)

  /** A fully transparent 8x8 region: what an undrawn part of a new ARGB canvas holds. */
  function BlankTile(): TileImage {
    Fill(8, 8, 0)
  }

  predicate IsDimensionMultipleOf8(img: Image) {
    img.width % TILE_DIMENSION == 0 && img.height % TILE_DIMENSION == 0
  }

  /** Number of 8x8 regions per row of regions. */
  function Cols(img: Image): nat {
    img.width / TILE_DIMENSION
  }

  /** Number of rows of 8x8 regions. */
  function TileRows(img: Image): nat {
    img.height / TILE_DIMENSION
  }

  function TileCount(img: Image): nat {
    Cols(img) * TileRows(img)
  }

  /** `getSubimage(x, y, 8, 8)`. */
  function SubImage(img: Image, x: nat, y: nat): (t: TileImage)
    requires x + 8 <= img.width && y + 8 <= img.height
    ensures forall j, i | 0 <= j < 8 && 0 <= i < 8 :: t.rows[j][i] == img.rows[y + j][x + i]
  {
    Raster(8, 8, seq(8, j requires 0 <= j < 8 => img.rows[y + j][x .. x + 8]))
  }

  /** Position of the k-th cell of a row-major grid that is `cols` cells wide. */
  lemma RowMajor(k: nat, cols: nat, rows: nat)
    requires cols > 0 && k < cols * rows
    ensures 0 <= k % cols < cols && 0 <= k / cols < rows
    ensures (k / cols) * cols + k % cols == k
  {
    DivBelow(k, cols, rows);
  }

  /** The k-th cell of a row-major grid, from its row and column. */
  lemma CellOf(row: nat, col: nat, cols: nat)
    requires col < cols
    ensures (row * cols + col) / cols == row && (row * cols + col) % cols == col
  {
    DivModUnique(row * cols + col, cols, row, col);
  }

  /** The k-th 8x8 region of the image, counting row-major. */
  function Region(img: Image, k: nat): TileImage
    requires IsDimensionMultipleOf8(img) && k < TileCount(img)
  {
    RowMajor(k, Cols(img), TileRows(img));
    SubImage(img, 8 * (k % Cols(img)), 8 * (k / Cols(img)))
  }

  /** The inner loop of the scan: regions of one row of regions, left to right. */
  function ScanRow(img: Image, x: nat, y: nat): (r: seq<TileImage>)
    requires IsDimensionMultipleOf8(img) && x % 8 == 0 && x <= img.width && y + 8 <= img.height
    ensures |r| == (img.width - x) / 8
    ensures forall i | 0 <= i < |r| :: r[i] == SubImage(img, x + 8 * i, y)
    decreases img.width - x
  {
    if x >= img.width then [] else [SubImage(img, x, y)] + ScanRow(img, x + 8, y)
  }

  lemma ScanRowsStep(img: Image, a: nat, row: seq<TileImage>, rest: seq<TileImage>)
    requires IsDimensionMultipleOf8(img) && 8 * a + 8 <= img.height
    requires |row| == Cols(img)
    requires forall i | 0 <= i < |row| :: row[i] == SubImage(img, 8 * i, 8 * a)
    requires (a + 1) * Cols(img) + |rest| == TileCount(img)
    requires forall k | 0 <= k < |rest| :: rest[k] == Region(img, (a + 1) * Cols(img) + k)
    ensures a * Cols(img) + |row + rest| == TileCount(img)
    ensures forall k | 0 <= k < |row + rest| :: (row + rest)[k] == Region(img, a * Cols(img) + k)
  {
    var c := Cols(img);
    var s := row + rest;
    assert (a + 1) * c == a * c + c;
    forall k | 0 <= k < |s|
      ensures s[k] == Region(img, a * c + k)
    {
      if k < c {
        CellOf(a, k, c);
      } else {
        assert s[k] == rest[k - c];
        assert (a + 1) * c + (k - c) == a * c + k;
      }
    }
  }

  /** The outer loop of the scan: rows of regions from `y` down. */
  function ScanRows(img: Image, y: nat): (r: seq<TileImage>)
    requires IsDimensionMultipleOf8(img) && y % 8 == 0 && y <= img.height
    ensures (y / 8) * Cols(img) + |r| == TileCount(img)
    ensures forall k | 0 <= k < |r| :: r[k] == Region(img, (y / 8) * Cols(img) + k)
    decreases img.height - y
  {
    if y >= img.height then []
    else
      var row := ScanRow(img, 0, y);
      var rest := ScanRows(img, y + 8);
      assert (y + 8) / 8 == y / 8 + 1;
      ScanRowsStep(img, y / 8, row, rest);
      row + rest
  }

  /** All 8x8 regions of an image, row-major with y outer and x inner:
      (w/8)*(h/8) regions, the k-th at (8*(k mod w/8), 8*(k div w/8)). */
  function Scan(img: Image): (r: seq<TileImage>)
    requires IsDimensionMultipleOf8(img)
    ensures |r| == TileCount(img)
    ensures forall k | 0 <= k < |r| :: r[k] == Region(img, k)
  {
    ScanRows(img, 0)
  }

  /** What the canvas holds at (x, y) after the tiles were drawn in grid order,
      `cols` tiles per row: the pixel of the tile drawn there, or transparent. */
  function CanvasPixel(tiles: seq<TileImage>, cols: nat, x: nat, y: nat): Argb
    requires cols > 0
  {
    var k := (y / 8) * cols + x / 8;
    if k < |tiles| then tiles[k].rows[y % 8][x % 8] else 0
  }

  /** The canvas of `cols` x `rows` tiles with tile k drawn at (8*(k mod cols), 8*(k div cols)). */
  function Recompose(tiles: seq<TileImage>, cols: nat, rows: nat): (img: Image)
    requires cols > 0 && rows > 0
    ensures img.width == 8 * cols && img.height == 8 * rows
    ensures IsDimensionMultipleOf8(img) && TileCount(img) == cols * rows
  {
    Raster(8 * cols, 8 * rows, seq(8 * rows, y requires 0 <= y < 8 * rows =>
      seq(8 * cols, x requires 0 <= x < 8 * cols => CanvasPixel(tiles, cols, x, y))))
  }

  /** Two 8x8 images with the same pixels are the same image. */
  lemma TileImageExt(a: TileImage, b: TileImage)
    requires forall j, i | 0 <= j < 8 && 0 <= i < 8 :: a.rows[j][i] == b.rows[j][i]
    ensures a == b
  {
    forall j | 0 <= j < 8
      ensures a.rows[j] == b.rows[j]
    {
    }
  }

  /** The pixel of the recomposed canvas at (x, y). */
  lemma RecomposePixel(tiles: seq<TileImage>, cols: nat, rows: nat, x: nat, y: nat)
    requires cols > 0 && rows > 0 && x < 8 * cols && y < 8 * rows
    ensures Recompose(tiles, cols, rows).rows[y][x] == CanvasPixel(tiles, cols, x, y)
  {
  }

  /** The pixel (i, j) of the k-th region, read from the image. */
  lemma RegionPixel(img: Image, k: nat, j: nat, i: nat)
    requires IsDimensionMultipleOf8(img) && k < TileCount(img) && j < 8 && i < 8
    ensures var row, col := k / Cols(img), k % Cols(img);
      && 0 <= row && 0 <= col && 8 * row + j < img.height && 8 * col + i < img.width
      && Region(img, k).rows[j][i] == img.rows[8 * row + j][8 * col + i]
  {
    RowMajor(k, Cols(img), TileRows(img));
  }

  /** The pixel (i, j) of the region in grid row `row` and column `col`. */
  lemma RegionPixelAt(img: Image, row: nat, col: nat, j: nat, i: nat)
    requires IsDimensionMultipleOf8(img) && row < TileRows(img) && col < Cols(img) && j < 8 && i < 8
    ensures row * Cols(img) + col < TileCount(img)
    ensures Region(img, row * Cols(img) + col).rows[j][i] == img.rows[8 * row + j][8 * col + i]
  {
    var c := Cols(img);
    var k := row * c + col;
    assert k < TileCount(img) by {
      MulMonotone(row, c, TileRows(img) - 1, c);
      assert (TileRows(img) - 1) * c + c == TileRows(img) * c;
    }
    assert k / c == row && k % c == col by {
      CellOf(row, col, c);
    }
    RegionPixel(img, k, j, i);
  }

  /** Grid cell (c, r) of the canvas, offset (i, j), belongs to tile r * cols + c. */
  lemma CanvasCell(tiles: seq<TileImage>, cols: nat, r: nat, c: nat, j: nat, i: nat)
    requires cols > 0 && c < cols && j < 8 && i < 8
    ensures CanvasPixel(tiles, cols, 8 * c + i, 8 * r + j) ==
      if r * cols + c < |tiles| then tiles[r * cols + c].rows[j][i] else 0
  {
    DivModUnique(8 * r + j, 8, r, j);
    DivModUnique(8 * c + i, 8, c, i);
  }

  /** Cutting the k-th region out of the recomposed canvas gives back tile k,
      and a transparent tile where no tile was drawn. */
  lemma {:induction false} RegionOfRecompose(tiles: seq<TileImage>, cols: nat, rows: nat, k: nat)
    requires cols > 0 && rows > 0 && k < cols * rows
    ensures Region(Recompose(tiles, cols, rows), k) == if k < |tiles| then tiles[k] else BlankTile()
  {
    var img := Recompose(tiles, cols, rows);
    var t := if k < |tiles| then tiles[k] else BlankTile();
    RowMajor(k, cols, rows);
    var r, c := k / cols, k % cols;
    assert Cols(img) == cols;
    forall j, i | 0 <= j < 8 && 0 <= i < 8
      ensures Region(img, k).rows[j][i] == t.rows[j][i]
    {
      RegionPixel(img, k, j, i);
      RecomposePixel(tiles, cols, rows, 8 * c + i, 8 * r + j);
      CanvasCell(tiles, cols, r, c, j, i);
    }
    TileImageExt(Region(img, k), t);
  }

  /** Scanning a full recomposed canvas gives back the tiles in order. */
  lemma ScanRecompose(tiles: seq<TileImage>, cols: nat, rows: nat)
    requires cols > 0 && rows > 0 && |tiles| == cols * rows
    ensures Scan(Recompose(tiles, cols, rows)) == tiles
  {
    var s := Scan(Recompose(tiles, cols, rows));
    forall k | 0 <= k < |tiles|
      ensures s[k] == tiles[k]
    {
      RegionOfRecompose(tiles, cols, rows, k);
    }
  }

  /** Two images of the same size with the same pixels are the same image. */
  lemma ImageExt(a: Image, b: Image)
    requires a.width == b.width && a.height == b.height
    requires forall y, x | 0 <= y < a.height && 0 <= x < a.width :: a.rows[y][x] == b.rows[y][x]
    ensures a == b
  {
    forall y | 0 <= y < a.height
      ensures a.rows[y] == b.rows[y]
    {
    }
  }

  /** Images of the same size with the same regions are the same image. */
  lemma ScanInjective(a: Image, b: Image)
    requires IsDimensionMultipleOf8(a) && a.width == b.width && a.height == b.height
    requires Scan(a) == Scan(b)
    ensures a == b
  {
    var c, r := Cols(a), TileRows(a);
    assert a.width == 8 * c && a.height == 8 * r;
    forall y, x | 0 <= y < a.height && 0 <= x < a.width
      ensures a.rows[y][x] == b.rows[y][x]
    {
      var row, col, j, i := y / 8, x / 8, y % 8, x % 8;
      assert col < c && row < r && 8 * row + j == y && 8 * col + i == x by {
        GridIndex(x, y, c, r);
      }
      RegionPixelAt(a, row, col, j, i);
      RegionPixelAt(b, row, col, j, i);
      var k := row * c + col;
      assert Region(a, k) == Scan(a)[k] == Scan(b)[k] == Region(b, k);
    }
    ImageExt(a, b);
  }

  /** Laying the scanned regions of an image back on their grid gives the image. */
  lemma RecomposeScan(img: Image)
    requires IsDimensionMultipleOf8(img)
    ensures Recompose(Scan(img), Cols(img), TileRows(img)) == img
  {
    var c, r := Cols(img), TileRows(img);
    var tiles := Scan(img);
    var out := Recompose(tiles, c, r);
    ScanRecompose(tiles, c, r);
    ScanInjective(out, img);
  }

  /** Pixel (x, y) of a grid of 8x8 cells, `cols` wide and `rows` high, lies in
      cell (y/8)*cols + x/8, at offset (x mod 8, y mod 8). */
  lemma GridIndex(x: nat, y: nat, cols: nat, rows: nat)
    requires x < 8 * cols && y < 8 * rows
    ensures var k := (y / 8) * cols + x / 8;
      && 0 <= k < cols * rows && k / cols == y / 8 && k % cols == x / 8
      && 8 * (y / 8) + y % 8 == y && 8 * (x / 8) + x % 8 == x
  {
    var row, col := y / 8, x / 8;
    DivBelow(x, 8, cols);
    DivBelow(y, 8, rows);
    MulMonotone(row, cols, rows - 1, cols);
    assert row * cols + col < cols * rows by {
      assert (rows - 1) * cols + cols == rows * cols;
    }
    CellOf(row, col, cols);
  }
}
