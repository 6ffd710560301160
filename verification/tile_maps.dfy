/** TilesetHolder.java, second half: resolving tile maps against the tile
    collection, and redrawing the tile set from its tiles. */
module TileMaps {

  import opened Arith
  import opened Results
  import opened Pixels
  import opened Images
  import opened DmgTiles
  import opened Tilesets

  /** `Integer.MAX_VALUE`: the resolver's "no tile found" marker. */
  const INT_MAX: int := 0x7FFF_FFFF

  // ---------------------------------------------------------------------
  // Tile maps

  /** Tile i matches `region` and no later tile does. */
  predicate IsLastMatch(ts: seq<Tile>, region: TileImage, i: nat)
    requires i < |ts|
  {
    ts[i].image == region && forall j | i < j < |ts| :: ts[j].image != region
  }

  /** The index the resolver's inner loop ends with: that of the last tile
      whose pixels match `region` (the loop does not stop at the first), or
      INT_MAX when none does. */
  function LastMatch(ts: seq<Tile>, region: TileImage): (v: int)
    ensures (forall i | 0 <= i < |ts| :: ts[i].image != region) ==> v == INT_MAX
    ensures forall i | 0 <= i < |ts| && IsLastMatch(ts, region, i) :: v == ts[i].index
  {
    if |ts| == 0 then INT_MAX
    else
      var init, last := ts[..|ts| - 1], ts[|ts| - 1];
      MatchesIffEqual(last.image, region);
      if Matches(last.image, region) then last.index
      else
        assert forall i | 0 <= i < |init| :: init[i] == ts[i];
        assert forall i | 0 <= i < |ts| && IsLastMatch(ts, region, i) :: i < |init| && IsLastMatch(init, region, i);
        LastMatch(init, region)
  }

  /** Some tile matches exactly when there is a last matching tile. */
  lemma LastMatchExists(ts: seq<Tile>, region: TileImage, i: nat)
    requires i < |ts| && ts[i].image == region
    ensures exists m | i <= m < |ts| :: IsLastMatch(ts, region, m)
    decreases |ts| - i
  {
    if !IsLastMatch(ts, region, i) {
      var j :| i < j < |ts| && ts[j].image == region;
      LastMatchExists(ts, region, j);
    }
  }

  /** The map byte of one region: the last matching tile's index `& 0xFF`,
      or an error when no tile matched (or the match carries INT_MAX). */
  function ResolveRegion(ts: seq<Tile>, region: TileImage): (r: Result<bv8>)
    ensures (forall i | 0 <= i < |ts| :: ts[i].image != region) ==> r == Failure(TileMapResolutionError)
    ensures forall i | 0 <= i < |ts| && IsLastMatch(ts, region, i) ::
      r == if ts[i].index == INT_MAX then Failure(TileMapResolutionError) else Success((ts[i].index % 256) as bv8)
  {
    var v := LastMatch(ts, region);
    if v == INT_MAX then Failure(TileMapResolutionError) else Success((v % 256) as bv8)
  }

  /** With indices as `createIndices` assigns them, resolution fails exactly
      when no tile matches, and otherwise yields the position of the last
      matching tile modulo 256. */
  lemma ResolveIndexed(ts: seq<Tile>, region: TileImage)
    requires IndexedAsCreated(ts)
    ensures ResolveRegion(ts, region).Failure? <==> !Contains(ts, NewTile(region))
    ensures ResolveRegion(ts, region).Success? ==> exists i | 0 <= i < |ts| ::
      IsLastMatch(ts, region, i) && ResolveRegion(ts, region).value == (i % 256) as bv8
  {
    var r := ResolveRegion(ts, region);
    if Contains(ts, NewTile(region)) {
      var i :| 0 <= i < |ts| && ts[i].image == region;
      LastMatchExists(ts, region, i);
      var m :| i <= m < |ts| && IsLastMatch(ts, region, m);
      assert ts[m].index == m % 256 != INT_MAX;
      assert r == Success((m % 256) as bv8);
    } else {
      assert forall i | 0 <= i < |ts| :: ts[i].image != region;
    }
  }

  /** In a set of distinct tiles the matching tile is unique, so its own
      position (modulo 256) is the map byte. */
  lemma ResolveDistinct(ts: seq<Tile>, region: TileImage, i: nat)
    requires AllDistinct(ts) && IndexedAsCreated(ts)
    requires i < |ts| && ts[i].image == region
    ensures ResolveRegion(ts, region) == Success((i % 256) as bv8)
  {
    assert IsLastMatch(ts, region, i);
  }

  /** The bytes of a sequence of regions; the first region without a tile
      aborts the whole map. */
  function ResolveRegions(ts: seq<Tile>, regions: seq<TileImage>): (r: Result<seq<bv8>>)
    ensures r.Failure? <==> exists k | 0 <= k < |regions| :: ResolveRegion(ts, regions[k]).Failure?
    ensures r.Failure? ==> r.error == TileMapResolutionError
    ensures r.Success? ==> |r.value| == |regions|
    ensures r.Success? ==> forall k | 0 <= k < |regions| :: ResolveRegion(ts, regions[k]) == Success(r.value[k])
  {
    var r := AllSucceed(ResolveEach(ts, regions));
    assert r.Failure? ==> r.error == TileMapResolutionError;
    r
  }

  /** The outcome for each region, in order. */
  function ResolveEach(ts: seq<Tile>, regions: seq<TileImage>): (rs: seq<Result<bv8>>)
    ensures |rs| == |regions| && forall k | 0 <= k < |regions| :: rs[k] == ResolveRegion(ts, regions[k])
  {
    seq(|regions|, k requires 0 <= k < |regions| => ResolveRegion(ts, regions[k]))
  }

  /** The tile map of one layout image: one byte per 8x8 region in scan
      order, which is the row-by-row order the map file is written in. */
  function ResolveLayout(ts: seq<Tile>, layout: Image): (r: Result<seq<bv8>>)
    requires IsDimensionMultipleOf8(layout)
    ensures r.Failure? <==> exists k | 0 <= k < TileCount(layout) :: ResolveRegion(ts, Region(layout, k)).Failure?
    ensures r.Success? ==> |r.value| == TileCount(layout)
    ensures r.Success? ==> forall k | 0 <= k < TileCount(layout) ::
      ResolveRegion(ts, Region(layout, k)) == Success(r.value[k])
  {
    ResolveRegions(ts, Scan(layout))
  }

  /** The outcome for one layout image: skipped (`None`) when it is not a
      multiple of 8 in both dimensions, otherwise its map or the resolver's error. */
  function LayoutMap(ts: seq<Tile>, layout: Image): (r: Result<Option<seq<bv8>>>)
    ensures r.Failure? <==> IsDimensionMultipleOf8(layout) && ResolveLayout(ts, layout).Failure?
    ensures r.Failure? ==> r.error == TileMapResolutionError
    ensures r.Success? && !IsDimensionMultipleOf8(layout) ==> r.value == None
    ensures r.Success? && IsDimensionMultipleOf8(layout) ==> r.value == Some(ResolveLayout(ts, layout).value)
  {
    if !IsDimensionMultipleOf8(layout) then Success(None)
    else
      var m :- ResolveLayout(ts, layout);
      Success(Some(m))
  }

  /** The outcome for each layout, in order. */
  function LayoutMaps(ts: seq<Tile>, layouts: seq<Image>): (rs: seq<Result<Option<seq<bv8>>>>)
    ensures |rs| == |layouts| && forall i | 0 <= i < |layouts| :: rs[i] == LayoutMap(ts, layouts[i])
  {
    seq(|layouts|, i requires 0 <= i < |layouts| => LayoutMap(ts, layouts[i]))
  }

  /** `createDmgTileMaps`: one outcome per layout image, in order; the first
      layout that cannot be resolved aborts the whole run. */
  function CreateDmgTileMaps(ts: seq<Tile>, layouts: seq<Image>): (r: Result<seq<Option<seq<bv8>>>>)
    ensures r.Failure? <==> exists i | 0 <= i < |layouts| :: LayoutMap(ts, layouts[i]).Failure?
    ensures r.Failure? ==> r.error == TileMapResolutionError
    ensures r.Success? ==> |r.value| == |layouts|
    ensures r.Success? ==> forall i | 0 <= i < |layouts| :: LayoutMap(ts, layouts[i]) == Success(r.value[i])
  {
    var rs := LayoutMaps(ts, layouts);
    var r := AllSucceed(rs);
    assert r.Failure? ==> r.error == TileMapResolutionError;
    r
  }

  /** Tiles numbered by `createIndices` after composing keep the composed
      tiles' pixels, so they are distinct too. */
  lemma IndexedCopyDistinct(composed: seq<Tile>, ts: seq<Tile>)
    requires AllDistinct(composed) && |ts| == |composed|
    requires forall i | 0 <= i < |ts| :: ts[i].image == composed[i].image
    ensures AllDistinct(ts)
  {
  }

  /** A map of an image drawn with the composed tiles resolves: every byte
      names (modulo 256) the position of the one tile holding that region. */
  lemma LayoutOfComposedImage(images: seq<Image>, ts: seq<Tile>, j: nat)
    requires Compose(images, true).Success? && j < |images|
    requires |ts| == |Compose(images, true).value| && IndexedAsCreated(ts)
    requires forall i | 0 <= i < |ts| :: ts[i].image == Compose(images, true).value[i].image
    ensures IsDimensionMultipleOf8(images[j])
    ensures ResolveLayout(ts, images[j]).Success?
    ensures forall k | 0 <= k < TileCount(images[j]) :: exists i | 0 <= i < |ts| ::
      (ts[i].image == Region(images[j], k) && ResolveLayout(ts, images[j]).value[k] == (i % 256) as bv8)
  {
    var composed := Compose(images, true).value;
    var layout := images[j];
    assert AllMultipleOf8(images);
    IndexedCopyDistinct(composed, ts);
    forall k | 0 <= k < TileCount(layout)
      ensures exists i | 0 <= i < |ts| ::
        (ts[i].image == Region(layout, k) && ResolveRegion(ts, Region(layout, k)) == Success((i % 256) as bv8))
    {
      ComposeCovers(images, true, j, k);
      var i :| 0 <= i < |composed| && composed[i].image == Region(layout, k);
      ResolveDistinct(ts, Region(layout, k), i);
    }
  }

  // ---------------------------------------------------------------------
  // Redrawing the tile set

  /** Where the redraw loop draws the k-th tile: x advances by 8 and wraps to
      the next row of tiles when it reaches a multiple of the canvas width. */
  function Placement(k: nat, width: nat): (nat, nat)
    requires width > 0
  {
    if k == 0 then (0, 0)
    else
      var prev := Placement(k - 1, width);
      if (prev.0 + 8) % width == 0 then (0, prev.1 + 8) else (prev.0 + 8, prev.1)
  }

  /** On a canvas whose width is whole tiles, tile k lands in grid cell k:
      column k mod (width/8), row k div (width/8). */
  lemma {:induction false} PlacementOnGrid(k: nat, width: nat)
    requires width > 0 && width % 8 == 0
    ensures Placement(k, width) == (8 * (k % (width / 8)), 8 * (k / (width / 8)))
  {
    if k > 0 {
      var c := width / 8;
      var prev := Placement(k - 1, width);
      assert prev == (8 * ((k - 1) % c), 8 * ((k - 1) / c)) by {
        PlacementOnGrid(k - 1, width);
      }
      assert Placement(k, width) == if (prev.0 + 8) % width == 0 then (0, prev.1 + 8) else (prev.0 + 8, prev.1);
      NextPlacement(k - 1, width);
    }
  }

  /** One step of the placement loop on a canvas whose width is whole tiles. */
  lemma NextPlacement(k: nat, width: nat)
    requires width > 0 && width % 8 == 0
    ensures var c := width / 8; var x, y := 8 * (k % c), 8 * (k / c);
      && ((x + 8) % width == 0 ==> (0, y + 8) == (8 * ((k + 1) % c), 8 * ((k + 1) / c)))
      && ((x + 8) % width != 0 ==> (x + 8, y) == (8 * ((k + 1) % c), 8 * ((k + 1) / c)))
  {
    var c := width / 8;
    assert width == 8 * c;
    var q, m := k / c, k % c;
    assert k + 1 == q * c + (m + 1);
    if m + 1 == c {
      DivModUnique(k + 1, c, q + 1, 0);
      DivModUnique(8 * m + 8, width, 1, 0);
    } else {
      DivModUnique(k + 1, c, q, m + 1);
      DivModUnique(8 * m + 8, width, 0, 8 * m + 8);
    }
  }

  predicate Covers(p: (nat, nat), x: nat, y: nat) {
    p.0 <= x < p.0 + 8 && p.1 <= y < p.1 + 8
  }

  /** The placements of the first n tiles. */
  function Placements(n: nat, width: nat): (ps: seq<(nat, nat)>)
    requires width > 0
    ensures |ps| == n && forall k | 0 <= k < n :: ps[k] == Placement(k, width)
  {
    seq(n, k requires 0 <= k < n => Placement(k, width))
  }

  /** The last of the first n placements that covers pixel (x, y), if any. */
  function Drawn(ps: seq<(nat, nat)>, x: nat, y: nat, n: nat): (r: Option<nat>)
    requires n <= |ps|
    ensures r.Some? ==> r.value < n && Covers(ps[r.value], x, y)
    ensures r.Some? ==> forall j | r.value < j < n :: !Covers(ps[j], x, y)
    ensures r.None? <==> forall j | 0 <= j < n :: !Covers(ps[j], x, y)
  {
    if n == 0 then None
    else if Covers(ps[n - 1], x, y) then Some(n - 1)
    else Drawn(ps, x, y, n - 1)
  }

  /** The canvas pixel at (x, y) after drawing all tiles: the pixel of the
      last tile drawn over it, or transparent. */
  function DrawnPixel(tiles: seq<Tile>, width: nat, x: nat, y: nat): Argb
    requires width > 0
  {
    var ps := Placements(|tiles|, width);
    match Drawn(ps, x, y, |tiles|)
    case None => 0
    case Some(k) =>
      tiles[k].image.rows[y - ps[k].1][x - ps[k].0]
  }

  /** `recreatePictureFromDmgTiles`: a canvas of the tile-set image's size
      with the tiles drawn one after another at their placements. */
  function RecreatePicture(canvas: Image, tiles: seq<Tile>): (img: Image)
    ensures img.width == canvas.width && img.height == canvas.height
  {
    Raster(canvas.width, canvas.height, seq(canvas.height, y requires 0 <= y < canvas.height =>
      seq(canvas.width, x requires 0 <= x < canvas.width => DrawnPixel(tiles, canvas.width, x, y))))
  }

  /** On a grid `c` tiles wide, the tile drawn over (x, y) is tile (y/8)*c + x/8. */
  lemma CoversOnGrid(j: nat, c: nat, x: nat, y: nat)
    requires c > 0 && x < 8 * c
    ensures Covers((8 * (j % c), 8 * (j / c)), x, y) <==> j == (y / 8) * c + x / 8
  {
    DivBelow(x, 8, c);
    var col, row := x / 8, y / 8;
    if Covers((8 * (j % c), 8 * (j / c)), x, y) {
      DivModUnique(x, 8, j % c, x - 8 * (j % c));
      DivModUnique(y, 8, j / c, y - 8 * (j / c));
    }
    if j == row * c + col {
      CellOf(row, col, c);
    }
  }

  /** The tiles' pixel contents, in order. */
  function TileImages(tiles: seq<Tile>): (r: seq<TileImage>)
    ensures |r| == |tiles| && forall k | 0 <= k < |tiles| :: r[k] == tiles[k].image
  {
    seq(|tiles|, k requires 0 <= k < |tiles| => tiles[k].image)
  }

  /** On a canvas of whole tiles, only tile (y/8)*c + x/8 covers pixel (x, y). */
  lemma OnlyCellCovers(width: nat, x: nat, y: nat, n: nat)
    requires width > 0 && width % 8 == 0 && x < width
    ensures var ps := Placements(n, width);
      forall j | 0 <= j < n :: Covers(ps[j], x, y) <==> j == (y / 8) * (width / 8) + x / 8
  {
    var ps := Placements(n, width);
    forall j | 0 <= j < n
      ensures Covers(ps[j], x, y) <==> j == (y / 8) * (width / 8) + x / 8
    {
      PlacementOnGrid(j, width);
      CoversOnGrid(j, width / 8, x, y);
    }
  }

  /** When exactly placement k covers a pixel, it is the one drawn last there. */
  lemma DrawnOnlyCover(ps: seq<(nat, nat)>, x: nat, y: nat, n: nat, k: nat)
    requires n <= |ps|
    requires forall j | 0 <= j < n :: Covers(ps[j], x, y) <==> j == k
    ensures Drawn(ps, x, y, n) == if k < n then Some(k) else None
  {
  }

  /** The tile that covers pixel (x, y) sits at the corner of the pixel's grid cell. */
  lemma CellPlacement(width: nat, x: nat, y: nat)
    requires width > 0 && width % 8 == 0 && x < width
    ensures Placement((y / 8) * (width / 8) + x / 8, width) == (8 * (x / 8), 8 * (y / 8))
    ensures y - 8 * (y / 8) == y % 8 && x - 8 * (x / 8) == x % 8
  {
    var c := width / 8;
    PlacementOnGrid((y / 8) * c + x / 8, width);
    DivBelow(x, 8, c);
    CellOf(y / 8, x / 8, c);
  }

  /** On a canvas of whole tiles, the redrawn pixel (x, y) comes from tile
      (y/8)*c + x/8 at offset (x mod 8, y mod 8), or is transparent. */
  lemma DrawnPixelOnGrid(tiles: seq<Tile>, width: nat, x: nat, y: nat)
    requires width > 0 && width % 8 == 0 && x < width
    ensures DrawnPixel(tiles, width, x, y) == CanvasPixel(TileImages(tiles), width / 8, x, y)
  {
    var k := (y / 8) * (width / 8) + x / 8;
    var v := if k < |tiles| then tiles[k].image.rows[y % 8][x % 8] else 0;
    assert DrawnPixel(tiles, width, x, y) == v by {
      var ps := Placements(|tiles|, width);
      OnlyCellCovers(width, x, y, |tiles|);
      DrawnOnlyCover(ps, x, y, |tiles|, k);
      if k < |tiles| {
        CellPlacement(width, x, y);
      }
    }
    assert CanvasPixel(TileImages(tiles), width / 8, x, y) == v;
  }

  /** On a canvas of whole tiles the redraw puts tile k in grid cell k, so
      it is the grid composition of the tiles' images. */
  lemma RecreateIsRecompose(canvas: Image, tiles: seq<Tile>)
    requires IsDimensionMultipleOf8(canvas)
    ensures RecreatePicture(canvas, tiles) == Recompose(TileImages(tiles), Cols(canvas), TileRows(canvas))
  {
    var c, rows := Cols(canvas), TileRows(canvas);
    var a := RecreatePicture(canvas, tiles);
    var b := Recompose(TileImages(tiles), c, rows);
    forall y, x | 0 <= y < canvas.height && 0 <= x < canvas.width
      ensures a.rows[y][x] == b.rows[y][x]
    {
      DrawnPixelOnGrid(tiles, canvas.width, x, y);
    }
    ImageExt(a, b);
  }

  /** Reading a tile set and drawing its tiles back reproduces the image. */
  lemma InitializeThenRecreate(img: Image, extraction: ExtractingMethod, palette: seq<string>)
    requires Initialize(img, extraction, palette).Success?
    ensures RecreatePicture(img, Initialize(img, extraction, palette).value) == img
  {
    var ts := Initialize(img, extraction, palette).value;
    RecreateIsRecompose(img, ts);
    assert TileImages(ts) == Scan(img);
    RecomposeScan(img);
  }
}
