# GfxTool tile pipeline in Dafny

GfxTool turns PNG images into Game Boy (DMG) graphics. It cuts images into
8x8 tiles and encodes each tile as 16 bytes of 2-bit-per-pixel data. It
composes a tile set of at most 384 tiles, optionally with duplicates removed,
and numbers the tiles modulo 256. It resolves layout images into tile maps
(one byte per 8x8 region) and can redraw the tile set from its tiles. Its
palette helpers parse hex colour strings, requantise an image to a palette,
and sort a palette by brightness.

This project models that core as pure functions over immutable values.

- **Pixels.** A pixel is the unsigned 32-bit ARGB value `getRGB` returns. It
  is an `int` subset type, `Pixels.Argb`.
- **Images.** An image is a non-empty rectangular `seq<seq<Argb>>`
  (`Images.Image`).
- **Tiles.** A tile is its 8x8 pixel content plus the extracting method,
  palette and index the Java object carries (`DmgTiles.Tile`).
- **Collections.** Collections of tiles are sequences in iteration order. An
  insertion-ordered set of tiles is a sequence without two tiles of equal
  pixels.
- **Errors.** Every exception the core throws is a `Results.Error` in a
  `Result`:
  - `DimensionError`: an image that is not whole tiles;
  - `CapacityError`: the size checks of the composing constructor;
  - `ClassificationError`: a PIXEL_PERFECT pixel matches no palette entry;
  - `InvalidColor` and `PaletteParseError`: colour strings without hex digits;
  - `TileMapResolutionError`: a region that matches no tile.

Modules follow the Java classes:

- `DmgTiles` (`dmg_tile.dfy`): `DmgTile`.
- `GfxUtils` (`gfx_utils.dfy`): `GfxUtils`.
- `Tilesets` (`tileset.dfy`) and `TileMaps` (`tile_maps.dfy`): the two halves
  of `TilesetHolder`.
- `Pixels`, `Images`, `Text`, `Results` and `Arith`: the Java platform
  behaviour the core relies on.
  - `Text` covers `Integer.toHexString`, `String.strip`, `toLowerCase`,
    `endsWith` and `replaceAll` on hex digits.
  - `Images` covers `getSubimage` and the row-major scan.

## Model

| member | source | states |
|---|---|---|
| DmgTiles.FirstMatch | src/main/java/de/kswmd/gfxtool/tiles/DmgTile.java:93-97 | The position of the first palette entry whose lower-cased text ends with the pixel's hex string; no earlier entry matches; `None` exactly when no entry matches. |
| DmgTiles.PerfectIndex | src/main/java/de/kswmd/gfxtool/tiles/DmgTile.java:91-98 | PIXEL_PERFECT gives `i % 4` for the first matching entry `i`, and no index exactly when no entry matches. |
| DmgTiles.PixelIndex | src/main/java/de/kswmd/gfxtool/tiles/DmgTile.java:89-105 | Any index found is in 0..3. GRAY_SCALE always finds one (the grayscale bucket). PIXEL_PERFECT uses the palette rule. |
| Pixels.GrayIndex | src/main/java/de/kswmd/gfxtool/tiles/DmgTile.java:100-104 | The grayscale index is in 0..3. It is 0 for a transparent pixel and 0 for a black pixel. It is 3 for opaque white. |
| Pixels.GrayBucket | src/main/java/de/kswmd/gfxtool/tiles/DmgTile.java:102-103 | `4 * luminance * alpha/255 / 256` truncated lies in 0..3. It is 0 when luminance or alpha is 0, and 3 at full luminance and alpha. |
| DmgTiles.OpaquePixelNeedsEightDigits | src/main/java/de/kswmd/gfxtool/tiles/DmgTile.java:92-94 | An opaque pixel's hex string has 8 digits. So no palette entry shorter than 8 characters (such as `9bbc0f`) ever matches it. |
| DmgTiles.PerfectIndexIgnoresCase | src/main/java/de/kswmd/gfxtool/tiles/DmgTile.java:94 | Palettes that agree up to letter case give every pixel the same PIXEL_PERFECT index. |
| DmgTiles.IndexGrid | src/main/java/de/kswmd/gfxtool/tiles/DmgTile.java:80-109 | Fails exactly when some pixel of the tile has no index. Otherwise the grid holds each pixel's index. |
| DmgTiles.PlaneBit | src/main/java/de/kswmd/gfxtool/tiles/DmgTile.java:111-124 | After the first `k` columns, bit `x` of a plane byte is set exactly when `x < k` and column `x`'s index sets that plane. This holds in both directions. |
| DmgTiles.PlaneBits | src/main/java/de/kswmd/gfxtool/tiles/DmgTile.java:81-124 | After a whole row, bit `x` of `hb` is set exactly for indices 1 and 3, and bit `x` of `lb` exactly for indices 2 and 3. |
| DmgTiles.ReverseBits | src/main/java/de/kswmd/gfxtool/tiles/DmgTile.java:126-127 | `Reverse8` (the bit reversal of `Integer.reverse(...) >>> 24`) moves bit `x` to bit `7 - x`. |
| DmgTiles.PackBits | src/main/java/de/kswmd/gfxtool/tiles/DmgTile.java:111-127 | `Pack` (the loop building the two bit planes per row): in the stored bytes of row `y`, column `x` sits at bit `7 - x`. The first byte's bit is set exactly for indices 1 and 3, the second byte's exactly for 2 and 3. |
| DmgTiles.UnpackPack | src/main/java/de/kswmd/gfxtool/tiles/DmgTile.java:78-130 | Reading the bytes `Pack` stores back recovers every index of the grid (round trip). |
| DmgTiles.Encode | src/main/java/de/kswmd/gfxtool/tiles/DmgTile.java:78-131 | `get2BppArrayFromTile` fails exactly when some pixel has no index; there is no fallback. Otherwise it gives 16 bytes, two per row, whose decoding is each pixel's index. |
| DmgTiles.DarkTileEncodesToZeros | src/main/java/de/kswmd/gfxtool/tiles/DmgTile.java:100-113 | A grayscale tile whose pixels are all transparent or black encodes to 16 zero bytes. |
| DmgTiles.PackZeroGrid | src/main/java/de/kswmd/gfxtool/tiles/DmgTile.java:111-127 | Index 0 sets no bit: an all-zero grid packs to 16 zero bytes. |
| DmgTiles.MatchesIffEqual | src/main/java/de/kswmd/gfxtool/tiles/DmgTile.java:62-76 | `Matches` (the model of `matches`) holds exactly when the two pixel buffers are equal, dimensions included. |
| DmgTiles.EqualIffSamePixels | src/main/java/de/kswmd/gfxtool/tiles/DmgTile.java:152-165 | `Equal` (the model of `equals`) holds for two tiles exactly when their pixels are equal, whatever their index, method or palette. |
| DmgTiles.HashCode | src/main/java/de/kswmd/gfxtool/tiles/DmgTile.java:133-150 | `hashCode` is a 32-bit signed value. |
| DmgTiles.HashCodeRespectsEqual | src/main/java/de/kswmd/gfxtool/tiles/DmgTile.java:133-165 | `HashCode`, built from `RowKey`, `PixelKey` and `StringHashBits` (the string of ARGB values and its `String.hashCode`), gives equal tiles equal hash codes, so a hash-based set keeps one tile per pixel content. |
| Text.ToHex | src/main/java/de/kswmd/gfxtool/tiles/DmgTile.java:92 | `Integer.toHexString` of the unsigned value. It has lower-case digits and no leading zero, and its value is the number. |
| Text.ToHexLength | src/main/java/de/kswmd/gfxtool/tiles/DmgTile.java:92 | A value with `k` significant hex digits is written with exactly `k` digits. |
| Text.ToHexInjective | src/main/java/de/kswmd/gfxtool/TilesetHolder.java:141 | Distinct pixel values have distinct hex strings, so the colour set loses no colour. |
| Text.HexDigits | src/main/java/de/kswmd/gfxtool/utils/GfxUtils.java:99 | Removing all non-hex characters keeps exactly the hex digits and nothing longer than the input. A string of hex digits is left unchanged. The order is stated by `Text.HexDigitsConcat`. |
| Text.HexDigitsOne | src/main/java/de/kswmd/gfxtool/utils/GfxUtils.java:99 | A single character is kept exactly when it is a hex digit. |
| Text.HexDigitsConcat | src/main/java/de/kswmd/gfxtool/utils/GfxUtils.java:99 | Filtering the concatenation `a + b` gives the filtered `a` followed by the filtered `b`. With `Text.HexDigitsOne`, the result is the hex digits in their original order. |
| Text.HexSuffixValue | src/main/java/de/kswmd/gfxtool/utils/GfxUtils.java:100 | The last `k` digits of a hex string have the string's value modulo `16^k`. |
| Text.Strip | src/main/java/de/kswmd/gfxtool/utils/GfxUtils.java:26 | `strip` leaves a slice of the input with only whitespace around it. The slice neither starts nor ends with whitespace. |
| GfxUtils.LastSixDigits | src/main/java/de/kswmd/gfxtool/utils/GfxUtils.java:100 | Keeping at most the last six digits keeps the value modulo `2^24`. |
| GfxUtils.GetColor | src/main/java/de/kswmd/gfxtool/utils/GfxUtils.java:98-102 | Fails exactly when no hex digit remains. Otherwise the colour is opaque and its RGB is the digits' value modulo `2^24`. |
| GfxUtils.GetColorOfHex | src/main/java/de/kswmd/gfxtool/utils/GfxUtils.java:98-102 | Parsing a pixel's hex string gives back that pixel, made opaque. |
| GfxUtils.ParsePalette | src/main/java/de/kswmd/gfxtool/utils/GfxUtils.java:84-85 | Fails exactly when some entry does not parse. Otherwise it gives one opaque colour per entry, each the parse of its entry. |
| GfxUtils.ColorDistance | src/main/java/de/kswmd/gfxtool/utils/GfxUtils.java:52-74 | The (squared) RGB distance is zero exactly when the RGB parts agree. |
| GfxUtils.ColorDistanceSymmetric | src/main/java/de/kswmd/gfxtool/utils/GfxUtils.java:52-57 | The distance is symmetric. |
| GfxUtils.ColorDistanceIgnoresAlpha | src/main/java/de/kswmd/gfxtool/utils/GfxUtils.java:59-74 | Alpha never changes the distance. |
| GfxUtils.NearestFrom | src/main/java/de/kswmd/gfxtool/utils/GfxUtils.java:84-91 | The palette loop with a strict `<` ends at the first colour of minimal distance. |
| GfxUtils.Nearest | src/main/java/de/kswmd/gfxtool/utils/GfxUtils.java:82-91 | The first entry beats the initial `Double.MAX_VALUE`. The result is the first colour at minimal distance. |
| GfxUtils.FirstNearestUnique | src/main/java/de/kswmd/gfxtool/utils/GfxUtils.java:87 | There is only one first position of minimal distance, so ties are decided the same way by every correct search. |
| GfxUtils.Requantize | src/main/java/de/kswmd/gfxtool/utils/GfxUtils.java:80-92 | The new colour is opaque. With an empty palette it is the pixel made opaque. Otherwise it is the colour at the first position of minimal distance. |
| GfxUtils.RequantizeImage | src/main/java/de/kswmd/gfxtool/utils/GfxUtils.java:77-94 | Same size, and every pixel is replaced by its requantised colour. |
| GfxUtils.ConvertImagePixelsToColorPal | src/main/java/de/kswmd/gfxtool/utils/GfxUtils.java:76-96 | Fails exactly when a palette entry does not parse. Otherwise it keeps width and height and every output pixel is opaque. With an empty palette each pixel keeps its RGB. |
| GfxUtils.ConvertPicksFirstNearest | src/main/java/de/kswmd/gfxtool/utils/GfxUtils.java:80-92 | With a non-empty palette, each output pixel parses from a palette entry at the first position of minimal distance from the input pixel. |
| GfxUtils.Distinct | src/main/java/de/kswmd/gfxtool/utils/GfxUtils.java:24-35 | The map keys: no duplicates, and exactly the names of the input. |
| GfxUtils.InsertEntry | src/main/java/de/kswmd/gfxtool/utils/GfxUtils.java:41 | Inserting an entry adds exactly that entry (multiset). |
| GfxUtils.InsertEntrySorted | src/main/java/de/kswmd/gfxtool/utils/GfxUtils.java:41 | Inserting into entries ascending by value keeps them ascending. |
| GfxUtils.SortEntries | src/main/java/de/kswmd/gfxtool/utils/GfxUtils.java:40-41 | `sort(comparingByValue())`: ascending by brightness (`SortKey`, the luma of the parsed entry), and a permutation of the entries. |
| GfxUtils.SortedNames | src/main/java/de/kswmd/gfxtool/utils/GfxUtils.java:40-48 | Sorting distinct keyed names gives distinct names, ascending in brightness, and exactly the input names. |
| GfxUtils.NamesOfPermutation | src/main/java/de/kswmd/gfxtool/utils/GfxUtils.java:48 | The keys of a permutation of the entries are exactly the original names. |
| GfxUtils.AscendingNames | src/main/java/de/kswmd/gfxtool/utils/GfxUtils.java:24-48 | Every distinct name exactly once, darkest first. |
| GfxUtils.ReverseProperties | src/main/java/de/kswmd/gfxtool/utils/GfxUtils.java:45-47 | `reversed()` keeps the names and their distinctness, and turns a darkest-first order into brightest-first. |
| GfxUtils.GetSortedColorPalet | src/main/java/de/kswmd/gfxtool/utils/GfxUtils.java:23-50 | Fails (ParseException) exactly when some stripped entry does not parse. Otherwise every distinct stripped entry appears exactly once and nothing else does. The order is brightest first, or darkest first when `reverse` is set. |
| GfxUtils.SortedPaletteReversed | src/main/java/de/kswmd/gfxtool/utils/GfxUtils.java:45-47 | Both orders succeed or fail together, and the default order is exactly the reverse of the `reverse` order. |
| Images.SubImage | src/main/java/de/kswmd/gfxtool/TilesetHolder.java:85 | `getSubimage(x, y, 8, 8)` holds the image's pixels at offset `(x, y)`. |
| Images.ScanRow | src/main/java/de/kswmd/gfxtool/TilesetHolder.java:84-88 | The inner loop cuts the regions of one row of tiles, left to right, `width/8` of them. |
| Images.ScanRows | src/main/java/de/kswmd/gfxtool/TilesetHolder.java:83-89 | The outer loop from row `y` on yields the remaining regions, row-major. |
| Images.Scan | src/main/java/de/kswmd/gfxtool/TilesetHolder.java:128-133 | An image yields `(w/8)*(h/8)` regions, row-major with y outer and x inner. |
| Images.ScanInjective | src/main/java/de/kswmd/gfxtool/TilesetHolder.java:83-89 | Two images of the same size with the same regions are the same image: the scan loses no pixel. |
| Images.RegionOfRecompose | src/main/java/de/kswmd/gfxtool/TilesetHolder.java:299-310 | Cutting cell `k` out of a canvas with the tiles drawn in grid order gives tile `k`, or a transparent tile past the last one. |
| Images.ScanRecompose | src/main/java/de/kswmd/gfxtool/TilesetHolder.java:299-310 | Scanning a full grid of drawn tiles gives back the tiles in order. |
| Images.RecomposeScan | src/main/java/de/kswmd/gfxtool/TilesetHolder.java:128-133 | Drawing an image's scanned regions back on their grid gives the image. |
| Tilesets.AddAll | src/main/java/de/kswmd/gfxtool/TilesetHolder.java:96 | `addAll` into a `LinkedHashSet` keeps the set distinct, leaves what was there first, and adds at most the batch. |
| Tilesets.AddAllContains | src/main/java/de/kswmd/gfxtool/TilesetHolder.java:96 | Afterwards the set holds a tile exactly when it held it before or the batch did. |
| Tilesets.AddAllConcat | src/main/java/de/kswmd/gfxtool/TilesetHolder.java:80-97 | Adding two batches one after the other is adding their concatenation. |
| Tilesets.AddAllFresh | src/main/java/de/kswmd/gfxtool/TilesetHolder.java:96 | Tiles that are new and distinct are appended unchanged. |
| Tilesets.Dedup | src/main/java/de/kswmd/gfxtool/TilesetHolder.java:175-177 | `uniqueTilesOnly` gives distinct tiles holding exactly the same pixel contents, each one of the originals. |
| Tilesets.DedupOfDistinct | src/main/java/de/kswmd/gfxtool/TilesetHolder.java:175-177 | A collection without duplicates is unchanged. |
| Tilesets.DedupIdempotent | src/main/java/de/kswmd/gfxtool/TilesetHolder.java:175-177 | Making tiles unique twice is making them unique once. |
| Tilesets.DedupIsFirstOccurrences | src/main/java/de/kswmd/gfxtool/TilesetHolder.java:74-76 | The set keeps exactly the first occurrence of each pixel content, in the original order. |
| Tilesets.PixelAmountOfTiles | src/main/java/de/kswmd/gfxtool/TilesetHolder.java:57-64 | For whole-tile images `PixelAmount` (the summed `pixelAmount`) is 64 times the number of tiles. |
| Tilesets.ImageTiles | src/main/java/de/kswmd/gfxtool/TilesetHolder.java:83-89 | One `new DmgTile(subImg)` per region, `(w/8)*(h/8)` of them, in scan order. |
| Tilesets.CollectIsConcat | src/main/java/de/kswmd/gfxtool/TilesetHolder.java:80-97 | `Collect` into a list appends the tiles of the images in input order. |
| Tilesets.CollectIsDedup | src/main/java/de/kswmd/gfxtool/TilesetHolder.java:74-97 | `Collect` into a `LinkedHashSet` is adding all tiles, image after image, to the set. |
| Tilesets.ComposeWithBudget | src/main/java/de/kswmd/gfxtool/TilesetHolder.java:51-108 | Fails with `DimensionError` exactly when some image is not whole tiles. It succeeds exactly when the images are whole tiles, the pixel check passes (unique only warns), and at most 384 tiles result. The result is all tiles in order, or their first occurrences when `unique` is set. |
| Tilesets.ComposeAsWritten | src/main/java/de/kswmd/gfxtool/TilesetHolder.java:66-72 | As written, a plain composition succeeds only within the 3072-pixel budget. |
| Tilesets.Compose | src/main/java/de/kswmd/gfxtool/TilesetHolder.java:104-106 | A composed tile set never holds more than 384 tiles. |
| Tilesets.ComposeAcceptsWhatFits | src/main/java/de/kswmd/gfxtool/TilesetHolder.java:66-106 | With the budget of a whole tile set, a composition succeeds exactly when the images are whole tiles and the (unique) tiles number at most 384. |
| Tilesets.ComposeAsWrittenRefusesFullSheet | src/main/java/de/kswmd/gfxtool/TilesetHolder.java:66-72 | As written, one 128x192 image (exactly 384 tiles) is refused with a capacity error. |
| Tilesets.ComposeAcceptsFullSheet | src/main/java/de/kswmd/gfxtool/TilesetHolder.java:104-106 | With the corrected budget the same image composes into 384 tiles. |
| Tilesets.AllTilesContains | src/main/java/de/kswmd/gfxtool/TilesetHolder.java:80-97 | Every region of every image is among the collected tiles. |
| Tilesets.ComposeCovers | src/main/java/de/kswmd/gfxtool/TilesetHolder.java:74-106 | A composed tile set, unique or not, holds a tile for every region of every input image. |
| Tilesets.Initialize | src/main/java/de/kswmd/gfxtool/TilesetHolder.java:121-134 | `initialize` gives one tile per region in scan order, with the given method and palette. It fails when the image is not whole tiles. |
| Tilesets.CreateIndices | src/main/java/de/kswmd/gfxtool/TilesetHolder.java:246-256 | Tile `k` gets index `k % 256`, so every index is in 0..255. Pixels, method and palette are unchanged. |
| Tilesets.TileBinary | src/main/java/de/kswmd/gfxtool/TilesetHolder.java:236-244 | The export fails exactly when some tile cannot be encoded. Otherwise bytes `16k..16k+16` are tile `k`'s encoding. |
| Tilesets.Concat16 | src/main/java/de/kswmd/gfxtool/TilesetHolder.java:238-241 | Writing 16-byte chunks one after another puts chunk `k` at bytes `16k..16k+16`. |
| Tilesets.GetColorPalSetFromImage | src/main/java/de/kswmd/gfxtool/TilesetHolder.java:136-145 | The set holds exactly the `Integer.toHexString` values of the image's pixels. |
| Tilesets.ColorSetEntryParses | src/main/java/de/kswmd/gfxtool/TilesetHolder.java:141 | Every colour-set entry parses back to one of the image's pixels, made opaque. |
| Tilesets.OwnColorClassifies | src/main/java/de/kswmd/gfxtool/tiles/DmgTile.java:91-98 | A palette holding a pixel's own hex string gives that pixel a PIXEL_PERFECT index. |
| Tilesets.EncodeWithColorSet | src/main/java/de/kswmd/gfxtool/tiles/DmgTile.java:91-109 | A tile cut from an image always encodes under PIXEL_PERFECT when its palette lists the image's colour set. |
| TileMaps.LastMatch | src/main/java/de/kswmd/gfxtool/TilesetHolder.java:270-278 | The inner loop ends with the index of the last matching tile, or `Integer.MAX_VALUE` when none matches. |
| TileMaps.LastMatchExists | src/main/java/de/kswmd/gfxtool/TilesetHolder.java:271-278 | Whenever some tile matches, there is a last matching one. |
| TileMaps.ResolveRegion | src/main/java/de/kswmd/gfxtool/TilesetHolder.java:270-285 | The byte is `index & 0xFF` of the last matching tile. It fails when no tile matches, or when the match carries `Integer.MAX_VALUE`. |
| TileMaps.ResolveIndexed | src/main/java/de/kswmd/gfxtool/TilesetHolder.java:246-285 | With indices from `createIndices`, resolution fails exactly when no tile matches. Otherwise the byte is the last match's position modulo 256. |
| TileMaps.ResolveDistinct | src/main/java/de/kswmd/gfxtool/TilesetHolder.java:270-285 | In a set of distinct tiles the byte is the matching tile's own position modulo 256. |
| TileMaps.ResolveRegions | src/main/java/de/kswmd/gfxtool/TilesetHolder.java:268-286 | One byte per region. The first region without a tile aborts the map. |
| TileMaps.ResolveLayout | src/main/java/de/kswmd/gfxtool/TilesetHolder.java:264-288 | A layout's map has `(w/8)*(h/8)` bytes, row-major. It fails exactly when some region resolves to nothing. |
| TileMaps.LayoutMap | src/main/java/de/kswmd/gfxtool/TilesetHolder.java:262-291 | A layout that is not whole tiles is skipped without error. Otherwise it yields its map or the resolution error. |
| TileMaps.CreateDmgTileMaps | src/main/java/de/kswmd/gfxtool/TilesetHolder.java:258-293 | One outcome per layout, in order. It fails exactly when some layout fails. |
| TileMaps.LayoutOfComposedImage | src/main/java/de/kswmd/gfxtool/TilesetHolder.java:258-293 | Take the unique tile set composed from images, numbered by `createIndices`. Then every input image resolves, and each byte is the position (mod 256) of the tile holding that region. |
| TileMaps.PlacementOnGrid | src/main/java/de/kswmd/gfxtool/TilesetHolder.java:299-310 | On a canvas of whole tiles, `W` tiles wide, the redraw loop's position for tile `k`, `Placement`, is `(8*(k mod W), 8*(k div W))`. |
| TileMaps.NextPlacement | src/main/java/de/kswmd/gfxtool/TilesetHolder.java:305-309 | One step of the loop moves from grid cell `k` to cell `k + 1`. |
| TileMaps.Drawn | src/main/java/de/kswmd/gfxtool/TilesetHolder.java:302-310 | The tile visible at a pixel is the last one drawn over it, or none. |
| TileMaps.RecreatePicture | src/main/java/de/kswmd/gfxtool/TilesetHolder.java:295-312 | The redrawn picture has the tile-set image's size. |
| TileMaps.CoversOnGrid | src/main/java/de/kswmd/gfxtool/TilesetHolder.java:304 | Tile `j` drawn at its grid cell covers pixel `(x, y)` exactly when `j = (y/8)*W + x/8`. |
| TileMaps.OnlyCellCovers | src/main/java/de/kswmd/gfxtool/TilesetHolder.java:302-310 | Among all drawn tiles only the pixel's own grid cell covers it. |
| TileMaps.CellPlacement | src/main/java/de/kswmd/gfxtool/TilesetHolder.java:304-309 | The tile covering a pixel sits at the corner of the pixel's 8x8 cell. |
| TileMaps.DrawnPixelOnGrid | src/main/java/de/kswmd/gfxtool/TilesetHolder.java:299-310 | Redrawn pixel `(x, y)` is pixel `(x mod 8, y mod 8)` of tile `(y/8)*W + x/8`, or transparent past the last tile. |
| TileMaps.RecreateIsRecompose | src/main/java/de/kswmd/gfxtool/TilesetHolder.java:295-312 | On a canvas of whole tiles the redraw is the grid composition of the tiles. |
| TileMaps.InitializeThenRecreate | src/main/java/de/kswmd/gfxtool/TilesetHolder.java:121-134 | Reading a tile set with `initialize` and redrawing its tiles reproduces the image exactly (round trip), in the model's opaque ARGB drawing. See `drawImage` under Left out. |

## Left out

- Pixels.GrayIndex: computes the GRAY_SCALE bucket in exact rational arithmetic.
  - Java uses `float`, which can round a pixel at a bucket edge into the
    neighbouring bucket.
  - The proved properties (range 0..3, 0 for transparent or black, 3 for
    opaque white) hold in both.
- GfxUtils.ColorDistance: is the squared distance. `Math.sqrt` is monotone, so every
  comparison, and with it every nearest-colour choice, is the same.
- DmgTiles.HashCode: the contract states only the 32-bit range. That the hash depends
  only on the pixels is `HashCodeRespectsEqual`. The exact value of Java's
  string hash is not stated.
- Tilesets.Compose: its own contract states only the 384-tile bound. Its
  full behaviour is `Tilesets.ComposeWithBudget`'s contract with the
  corrected budget, and `Tilesets.ComposeAcceptsWhatFits`.
- TileMaps.RecreatePicture: its own contract states only the canvas size.
  The pixels are stated by `TileMaps.DrawnPixelOnGrid` and
  `TileMaps.RecreateIsRecompose`.
- Text.Lower: `toLowerCase` is modelled for ASCII letters only. Palette entries
  are free text, but only the last `|hex|` characters of the lowercased entry
  are compared, and those must be ASCII hex digits. No non-ASCII character
  lowercases to an ASCII hex digit in any locale, so the match is the same.
- Palette sorting depends on `HashMap` iteration order, which Java leaves
  unspecified.
  - The model takes the entries in order of first occurrence and sorts them
    stably.
  - The contracts state only what every order satisfies: each name exactly
    once, brightness non-increasing (or non-decreasing with `reverse`).
  - The order among equal brightness is not promised.
- The sort key is the integer `299 R + 587 G + 114 B`, not the `float` sum
  Java computes. Rounding could reorder colours whose brightness differs by
  less than a float step.
- `getColorPalArrayFromImage`: the colour set's array form and its `HashSet`
  order. Only the set itself (`GetColorPalSetFromImage`) is modelled.
- `fill`: the random tiles (`createRandomDitstinctTile*`, `Math.random`).
  Compositions are modelled with `fill` off.
- File and image I/O: `ImageIO` reads and writes, `FileOutputStream`, the
  `.png` to `.tlm` rename.
  - Tile maps and the tile binary are returned byte sequences.
  - A partial file written before an exception is not modelled.
- `drawImage`: compositing, the canvas type, and tiles drawn past the canvas
  edge. The model draws ARGB pixels opaquely, so the last tile drawn at a
  pixel wins, and only the pixels inside the canvas are kept.
  - The canvas takes the source image's type. An indexed type quantises the
    colours and `TYPE_CUSTOM` throws, neither of which is modelled.
  - Java draws with SrcOver, so a fully transparent pixel such as `0x00FFFFFF`
    comes out as `0x00000000`. The model keeps it as it is.
- Tilesets.Initialize: `getSubimage` throws `RasterFormatException` for a region
  that crosses the border of an image that is not whole tiles. That is
  modelled as `DimensionError`.
- The single-path constructor (an `ImageIO` read), `getDmgTileWidth` and
  `getDmgTileHeight`, and the blank `tilesetImage` of the composing
  constructor.
- A `null` palette under PIXEL_PERFECT throws a `NullPointerException`; the
  model's palette is a sequence, possibly empty.
- `pixelAmount` is a Java `int`. Its overflow for images of more than `2^31`
  pixels in total is not modelled.
- The shared `_2bppArray` field that `get2BppArrayFromTile` returns and
  overwrites on every call. `Encode` returns a fresh 16-byte value; every call
  writes all 16 bytes, so the contents agree.
- The command-line front end (`GfxTool.java`).

## Findings

| source | as written | input that shows it | evidently intended | confidence | as-written member | corrected member |
|---|---|---|---|---|---|---|
| src/main/java/de/kswmd/gfxtool/TilesetHolder.java:66 | `pixelAmount > 24 * 16 * 8` refuses a plain composition above 3072 pixels, the area of only 48 tiles | one 128x192 image, which is exactly 384 tiles, with `unique` off: refused with "Image exceeds the maximum tile size." | the budget of a whole tile set, `24 * 16 * 8 * 8` = 24576 pixels; only the final check at lines 104-106 limits the tile count | medium, not executed | Tilesets.ComposeAsWrittenRefusesFullSheet | Tilesets.ComposeAcceptsWhatFits |

`Tilesets.ComposeAsWritten` is the constructor with the budget as written.
`Tilesets.Compose` uses the corrected budget, and the rest of the model
builds on it (`TileMaps.LayoutOfComposedImage`). With the corrected budget
the pixel check refuses nothing the final tile-count check would accept
(`Tilesets.ComposeAcceptsWhatFits`).
