/** TilesetHolder.java, first half: the tile collection, composing a tile set
    from several images, `initialize`, `createIndices`, the binary export and
    the colour set of an image.

    Tiles compare by their pixels (`DmgTile.equals`, see `EqualIffSamePixels`),
    so an insertion-ordered set of tiles keeps the first tile of each pixel
    content, in order of first insertion. */
module Tilesets {

  import opened Arith
  import opened Results
  import opened Text
  import opened Pixels
  import opened Images
  import opened DmgTiles
  import opened GfxUtils

  const TILESET_HEIGHT_IN_TILES: nat := 24
  const TILESET_WIDTH_IN_TILES: nat := 16
  const TILESET_SPRITES_SIZE: nat := 128
  /** 16 x 24 = 384 tiles. */
  const TILES_AMOUNT: nat := TILESET_HEIGHT_IN_TILES * TILESET_WIDTH_IN_TILES

  // ---------------------------------------------------------------------
  // Insertion-ordered set of tiles

  /** Some tile of `ts` equals `t`. */
  predicate Contains(ts: seq<Tile>, t: Tile) {
    exists i | 0 <= i < |ts| :: ts[i].image == t.image
  }

  /** No two tiles of `ts` are equal. */
  predicate AllDistinct(ts: seq<Tile>) {
    forall i, j | 0 <= i < j < |ts| :: ts[i].image != ts[j].image
  }

  /** A tile with the same pixels at a known position witnesses `Contains`. */
  lemma ContainsAt(ts: seq<Tile>, t: Tile, j: nat)
    requires j < |ts| && ts[j].image == t.image
    ensures Contains(ts, t)
  {
  }

  lemma ConcatContains(s: seq<Tile>, u: seq<Tile>, t: Tile)
    ensures Contains(s + u, t) <==> Contains(s, t) || Contains(u, t)
  {
    if Contains(s, t) {
      var i :| 0 <= i < |s| && s[i].image == t.image;
      ContainsAt(s + u, t, i);
    }
    if Contains(u, t) {
      var i :| 0 <= i < |u| && u[i].image == t.image;
      ContainsAt(s + u, t, |s| + i);
    }
    if Contains(s + u, t) {
      var i :| 0 <= i < |s + u| && (s + u)[i].image == t.image;
      if i < |s| {
        ContainsAt(s, t, i);
      } else {
        ContainsAt(u, t, i - |s|);
      }
    }
  }

  lemma ContainsAppend(s: seq<Tile>, x: Tile, t: Tile)
    ensures Contains(s + [x], t) <==> Contains(s, t) || x.image == t.image
  {
    if Contains(s + [x], t) {
      var i :| 0 <= i < |s + [x]| && (s + [x])[i].image == t.image;
      if i < |s| {
        assert s[i] == (s + [x])[i];
      }
    }
    if Contains(s, t) {
      var i :| 0 <= i < |s| && s[i].image == t.image;
      assert (s + [x])[i] == s[i];
    }
    assert (s + [x])[|s|] == x;
  }

  /** `addAll` into a `LinkedHashSet`: each tile whose pixels are not present
      yet is appended; the others are dropped. What was there stays first. */
  function AddAll(acc: seq<Tile>, ts: seq<Tile>): (r: seq<Tile>)
    requires AllDistinct(acc)
    ensures AllDistinct(r)
    ensures |acc| <= |r| <= |acc| + |ts| && r[..|acc|] == acc
    decreases |ts|
  {
    if |ts| == 0 then acc
    else if Contains(acc, ts[0]) then AddAll(acc, ts[1..])
    else
      var r := AddAll(acc + [ts[0]], ts[1..]);
      assert r[..|acc|] == r[..|acc| + 1][..|acc|];
      r
  }

  lemma ContainsCons(ts: seq<Tile>, t: Tile)
    requires |ts| > 0
    ensures Contains(ts, t) <==> ts[0].image == t.image || Contains(ts[1..], t)
  {
    if Contains(ts, t) && ts[0].image != t.image {
      var i :| 0 <= i < |ts| && ts[i].image == t.image;
      assert ts[1..][i - 1] == ts[i];
    }
    if Contains(ts[1..], t) {
      var i :| 0 <= i < |ts[1..]| && ts[1..][i].image == t.image;
      assert ts[i + 1] == ts[1..][i];
    }
  }

  /** The set after `addAll` holds a tile exactly when it held it before or the batch did. */
  lemma {:induction false} AddAllContains(acc: seq<Tile>, ts: seq<Tile>, t: Tile)
    requires AllDistinct(acc)
    ensures Contains(AddAll(acc, ts), t) <==> Contains(acc, t) || Contains(ts, t)
    decreases |ts|
  {
    if |ts| > 0 {
      ContainsCons(ts, t);
      if Contains(acc, ts[0]) {
        AddAllContains(acc, ts[1..], t);
      } else {
        ContainsAppend(acc, ts[0], t);
        AddAllContains(acc + [ts[0]], ts[1..], t);
      }
    }
  }

  /** Every tile of the set after `addAll` is a tile that was there or was added. */
  lemma {:induction false} AddAllFrom(acc: seq<Tile>, ts: seq<Tile>, i: nat)
    requires AllDistinct(acc) && i < |AddAll(acc, ts)|
    ensures AddAll(acc, ts)[i] in acc || AddAll(acc, ts)[i] in ts
    decreases |ts|
  {
    if |ts| > 0 {
      if Contains(acc, ts[0]) {
        AddAllFrom(acc, ts[1..], i);
      } else {
        AddAllFrom(acc + [ts[0]], ts[1..], i);
      }
    }
  }

  /** `uniqueTilesOnly`: the tiles copied into a `LinkedHashSet`. */
  function Dedup(ts: seq<Tile>): (r: seq<Tile>)
    ensures AllDistinct(r) && |r| <= |ts|
    ensures forall t :: Contains(r, t) <==> Contains(ts, t)
    ensures forall i | 0 <= i < |r| :: r[i] in ts
  {
    var r := AddAll([], ts);
    assert forall t :: Contains(r, t) <==> Contains(ts, t) by {
      forall t ensures Contains(r, t) <==> Contains(ts, t) {
        AddAllContains([], ts, t);
      }
    }
    assert forall i | 0 <= i < |r| :: r[i] in ts by {
      forall i | 0 <= i < |r| ensures r[i] in ts {
        AddAllFrom([], ts, i);
      }
    }
    r
  }

  /** Adding two batches one after the other is adding their concatenation. */
  lemma {:induction false} AddAllConcat(acc: seq<Tile>, a: seq<Tile>, b: seq<Tile>)
    requires AllDistinct(acc)
    ensures AddAll(AddAll(acc, a), b) == AddAll(acc, a + b)
    decreases |a|
  {
    if |a| > 0 {
      assert (a + b)[0] == a[0] && (a + b)[1..] == a[1..] + b;
      if Contains(acc, a[0]) {
        AddAllConcat(acc, a[1..], b);
      } else {
        AddAllConcat(acc + [a[0]], a[1..], b);
      }
    } else {
      assert a + b == b;
    }
  }

  /** Adding tiles that are distinct and new appends them unchanged. */
  lemma {:induction false} AddAllFresh(acc: seq<Tile>, ts: seq<Tile>)
    requires AllDistinct(acc + ts)
    ensures AllDistinct(acc)
    ensures AddAll(acc, ts) == acc + ts
    decreases |ts|
  {
    assert forall i | 0 <= i < |acc| :: acc[i] == (acc + ts)[i];
    if |ts| > 0 {
      assert acc + ts == (acc + [ts[0]]) + ts[1..];
      assert (acc + ts)[|acc|] == ts[0];
      assert !Contains(acc, ts[0]) by {
        forall i | 0 <= i < |acc|
          ensures acc[i].image != ts[0].image
        {
          assert (acc + ts)[i] == acc[i];
        }
      }
      AddAllFresh(acc + [ts[0]], ts[1..]);
    }
  }

  /** A collection without duplicates is its own set. */
  lemma DedupOfDistinct(ts: seq<Tile>)
    requires AllDistinct(ts)
    ensures Dedup(ts) == ts
  {
    assert [] + ts == ts;
    AddAllFresh([], ts);
  }

  /** Making tiles unique twice is making them unique once. */
  lemma DedupIdempotent(ts: seq<Tile>)
    ensures Dedup(Dedup(ts)) == Dedup(ts)
  {
    DedupOfDistinct(Dedup(ts));
  }

  /** Position i holds the first tile of its pixel content. */
  predicate FirstOccurrence(ts: seq<Tile>, i: nat)
    requires i < |ts|
  {
    forall j | 0 <= j < i :: ts[j].image != ts[i].image
  }

  /** Reference definition: the tiles at first occurrences, in order. */
  function FirstOccurrences(ts: seq<Tile>): seq<Tile> {
    if |ts| == 0 then []
    else FirstOccurrences(ts[..|ts| - 1]) + (if FirstOccurrence(ts, |ts| - 1) then [ts[|ts| - 1]] else [])
  }

  /** The set keeps exactly the first occurrences, in their original order. */
  lemma {:induction false} DedupIsFirstOccurrences(ts: seq<Tile>)
    ensures Dedup(ts) == FirstOccurrences(ts)
  {
    if |ts| > 0 {
      var init, last := ts[..|ts| - 1], ts[|ts| - 1];
      var d := Dedup(init);
      assert Dedup(ts) == AddAll(d, [last]) by {
        assert ts == init + [last];
        AddAllConcat([], init, [last]);
      }
      assert d == FirstOccurrences(init) by {
        DedupIsFirstOccurrences(init);
      }
      assert Contains(d, last) <==> !FirstOccurrence(ts, |ts| - 1) by {
        if !FirstOccurrence(ts, |ts| - 1) {
          var j :| 0 <= j < |ts| - 1 && ts[j].image == last.image;
          assert init[j] == ts[j];
          ContainsAt(init, last, j);
        }
        if Contains(init, last) {
          var j :| 0 <= j < |init| && init[j].image == last.image;
          assert ts[j] == init[j];
        }
      }
      assert AddAll(d, [last]) == if Contains(d, last) then d else d + [last] by {
        assert [last][1..] == [];
      }
    }
  }

  // ---------------------------------------------------------------------
  // Composing a tile set from images

  predicate AllMultipleOf8(images: seq<Image>) {
    forall i | 0 <= i < |images| :: IsDimensionMultipleOf8(images[i])
  }

  /** The `pixelAmount` accumulated by the validation loop. */
  function PixelAmount(images: seq<Image>): nat {
    if |images| == 0 then 0 else images[0].width * images[0].height + PixelAmount(images[1..])
  }

  /** Number of 8x8 regions of all images together. */
  function TotalTiles(images: seq<Image>): nat
    requires AllMultipleOf8(images)
  {
    if |images| == 0 then 0 else TileCount(images[0]) + TotalTiles(images[1..])
  }

  /** An image of whole tiles has 64 pixels per tile. */
  lemma PixelsOfTiles(img: Image)
    requires IsDimensionMultipleOf8(img)
    ensures img.width * img.height == 64 * TileCount(img)
  {
    var c, r := Cols(img), TileRows(img);
    assert img.width == 8 * c && img.height == 8 * r;
    assert (8 * c) * (8 * r) == 64 * (c * r);
  }

  lemma {:induction false} PixelAmountOfTiles(images: seq<Image>)
    requires AllMultipleOf8(images)
    ensures PixelAmount(images) == 64 * TotalTiles(images)
  {
    if |images| > 0 {
      PixelsOfTiles(images[0]);
      PixelAmountOfTiles(images[1..]);
    }
  }

  /** The tiles `new DmgTile(subImg)` of one image, in scan order. */
  function ImageTiles(img: Image): (r: seq<Tile>)
    requires IsDimensionMultipleOf8(img)
    ensures |r| == TileCount(img)
    ensures forall k | 0 <= k < |r| :: r[k] == NewTile(Region(img, k))
  {
    var regions := Scan(img);
    seq(|regions|, k requires 0 <= k < |regions| => NewTile(regions[k]))
  }

  /** The tiles of all images, image after image. */
  function AllTiles(images: seq<Image>): (r: seq<Tile>)
    requires AllMultipleOf8(images)
    ensures |r| == TotalTiles(images)
  {
    if |images| == 0 then [] else ImageTiles(images[0]) + AllTiles(images[1..])
  }

  /** The collect loop: each image's tiles go into the collection, which is a
      plain list, or an insertion-ordered set when `unique` is set. */
  function Collect(acc: seq<Tile>, images: seq<Image>, unique: bool): seq<Tile>
    requires AllMultipleOf8(images)
    requires unique ==> AllDistinct(acc)
    decreases |images|
  {
    if |images| == 0 then acc
    else
      var tiles := ImageTiles(images[0]);
      Collect(if unique then AddAll(acc, tiles) else acc + tiles, images[1..], unique)
  }

  lemma ConcatAssoc(a: seq<Tile>, b: seq<Tile>, c: seq<Tile>)
    ensures a + b + c == a + (b + c)
  {
  }

  /** Collecting into a list concatenates the tiles of all images. */
  lemma {:induction false} CollectIsConcat(acc: seq<Tile>, images: seq<Image>)
    requires AllMultipleOf8(images)
    ensures Collect(acc, images, false) == acc + AllTiles(images)
    decreases |images|
  {
    if |images| > 0 {
      var tiles, rest := ImageTiles(images[0]), AllTiles(images[1..]);
      assert Collect(acc, images, false) == acc + tiles + rest by {
        CollectIsConcat(acc + tiles, images[1..]);
      }
      assert AllTiles(images) == tiles + rest;
      ConcatAssoc(acc, tiles, rest);
    }
  }

  /** Collecting into an insertion-ordered set adds the tiles of all images
      in order, skipping those already present. */
  lemma {:induction false} CollectIsDedup(acc: seq<Tile>, images: seq<Image>)
    requires AllMultipleOf8(images) && AllDistinct(acc)
    ensures Collect(acc, images, true) == AddAll(acc, AllTiles(images))
    decreases |images|
  {
    if |images| > 0 {
      var tiles, rest := ImageTiles(images[0]), AllTiles(images[1..]);
      assert Collect(acc, images, true) == AddAll(AddAll(acc, tiles), rest) by {
        CollectIsDedup(AddAll(acc, tiles), images[1..]);
      }
      assert AllTiles(images) == tiles + rest;
      AddAllConcat(acc, tiles, rest);
    }
  }

  /** The composing constructor with the pixel budget as a parameter: every
      image must be a multiple of 8 in both dimensions; above the budget a
      plain composition is refused (a unique one only warns); the collected
      tiles must fit the 384 tiles of a tile set. `fill` is not modelled. */
  function ComposeWithBudget(images: seq<Image>, unique: bool, budget: nat): (r: Result<seq<Tile>>)
    ensures r == Failure(DimensionError) <==> !AllMultipleOf8(images)
    ensures r.Failure? ==> r.error == DimensionError || r.error == CapacityError
    ensures r.Success? ==> |r.value| <= TILES_AMOUNT
    ensures r.Success? <==> && AllMultipleOf8(images)
                            && (unique || PixelAmount(images) <= budget)
                            && |if unique then Dedup(AllTiles(images)) else AllTiles(images)| <= TILES_AMOUNT
    ensures r.Success? && unique ==> r.value == Dedup(AllTiles(images))
    ensures r.Success? && !unique ==> r.value == AllTiles(images)
  {
    if !AllMultipleOf8(images) then Failure(DimensionError)
    else if PixelAmount(images) > budget && !unique then Failure(CapacityError)
    else
      var ts := Collect([], images, unique);
      assert unique ==> ts == Dedup(AllTiles(images)) by {
        if unique {
          CollectIsDedup([], images);
        }
      }
      assert !unique ==> ts == AllTiles(images) by {
        if !unique {
          CollectIsConcat([], images);
          assert [] + AllTiles(images) == AllTiles(images);
        }
      }
      if |ts| > TILES_AMOUNT then Failure(CapacityError) else Success(ts)
  }

  /** The budget as written: 24 * 16 * 8 = 3072 pixels, the size of 48 tiles. */
  const PIXEL_BUDGET_AS_WRITTEN: nat := TILESET_HEIGHT_IN_TILES * TILESET_WIDTH_IN_TILES * TILE_DIMENSION

  /** The budget the check evidently means: 384 tiles of 64 pixels. */
  const PIXEL_BUDGET: nat := TILES_AMOUNT * TILE_DIMENSION * TILE_DIMENSION

  /** The composing constructor exactly as written. */
  function ComposeAsWritten(images: seq<Image>, unique: bool): (r: Result<seq<Tile>>)
    ensures r.Success? ==> PixelAmount(images) <= PIXEL_BUDGET_AS_WRITTEN || unique
  {
    ComposeWithBudget(images, unique, PIXEL_BUDGET_AS_WRITTEN)
  }

  /** The composing constructor with the pixel budget of a whole tile set. */
  function Compose(images: seq<Image>, unique: bool): (r: Result<seq<Tile>>)
    ensures r.Success? ==> |r.value| <= TILES_AMOUNT
  {
    ComposeWithBudget(images, unique, PIXEL_BUDGET)
  }

  /** With the corrected budget the pixel check refuses nothing the final
      tile-count check would accept: a plain composition succeeds exactly
      when every image is whole tiles and there are at most 384 of them. */
  lemma ComposeAcceptsWhatFits(images: seq<Image>)
    ensures Compose(images, false).Success? <==> AllMultipleOf8(images) && TotalTiles(images) <= TILES_AMOUNT
    ensures Compose(images, true).Success? <==> AllMultipleOf8(images) && |Dedup(AllTiles(images))| <= TILES_AMOUNT
  {
    if AllMultipleOf8(images) {
      PixelAmountOfTiles(images);
    }
  }

  /** One image of exactly the tile set's size, 128 x 192 pixels. */
  function FullSheet(): (img: Image)
    ensures IsDimensionMultipleOf8(img) && TileCount(img) == TILES_AMOUNT
  {
    Fill(TILESET_WIDTH_IN_TILES * 8, TILESET_HEIGHT_IN_TILES * 8, 0)
  }

  /** As written, a single image holding exactly one tile set (384 tiles) is
      refused as too large: its 24576 pixels exceed the 3072 budget. */
  lemma ComposeAsWrittenRefusesFullSheet()
    ensures TotalTiles([FullSheet()]) == TILES_AMOUNT
    ensures ComposeAsWritten([FullSheet()], false) == Failure(CapacityError)
  {
    var images := [FullSheet()];
    assert images[1..] == [];
    assert PixelAmount(images) == 128 * 192;
  }

  /** With the corrected budget the same image composes into 384 tiles. */
  lemma ComposeAcceptsFullSheet()
    ensures Compose([FullSheet()], false).Success?
    ensures |Compose([FullSheet()], false).value| == TILES_AMOUNT
  {
    var images := [FullSheet()];
    assert images[1..] == [];
    ComposeAcceptsWhatFits(images);
  }

  /** Every region of every image is among the tiles of all images. */
  lemma {:induction false} AllTilesContains(images: seq<Image>, i: nat, k: nat)
    requires AllMultipleOf8(images) && i < |images| && k < TileCount(images[i])
    ensures Contains(AllTiles(images), NewTile(Region(images[i], k)))
    decreases i
  {
    var tile := NewTile(Region(images[i], k));
    var head, rest := ImageTiles(images[0]), AllTiles(images[1..]);
    if i == 0 {
      ContainsAt(head, tile, k);
    } else {
      assert images[1..][i - 1] == images[i];
      AllTilesContains(images[1..], i - 1, k);
    }
    ConcatContains(head, rest, tile);
  }

  /** A composed tile set holds a tile for every region of every input image. */
  lemma ComposeCovers(images: seq<Image>, unique: bool, i: nat, k: nat)
    requires Compose(images, unique).Success?
    requires i < |images|
    ensures IsDimensionMultipleOf8(images[i]) && k < TileCount(images[i]) ==>
      Contains(Compose(images, unique).value, NewTile(Region(images[i], k)))
  {
    if IsDimensionMultipleOf8(images[i]) && k < TileCount(images[i]) {
      AllTilesContains(images, i, k);
    }
  }

  // ---------------------------------------------------------------------
  // Reading a tile set back

  /** `initialize(method, colorPal)`: the tiles of the tile-set image in scan
      order, each with the given method and palette and index 0. Cutting a
      region that crosses the image border fails. */
  function Initialize(img: Image, extraction: ExtractingMethod, palette: seq<string>): (r: Result<seq<Tile>>)
    ensures r.Failure? <==> !IsDimensionMultipleOf8(img)
    ensures r.Failure? ==> r.error == DimensionError
    ensures r.Success? ==> |r.value| == TileCount(img)
    ensures r.Success? ==> forall k | 0 <= k < |r.value| ::
      r.value[k] == Tile(Region(img, k), extraction, palette, 0)
  {
    if !IsDimensionMultipleOf8(img) then Failure(DimensionError)
    else
      Success(seq(TileCount(img), k requires 0 <= k < TileCount(img) => Tile(Region(img, k), extraction, palette, 0)))
  }

  /** Every tile carries its position in the collection modulo 256. */
  predicate IndexedAsCreated(ts: seq<Tile>) {
    forall k | 0 <= k < |ts| :: ts[k].index == k % 256
  }

  /** `createIndices`: number the tiles in collection order, wrapping at 256;
      nothing but the index changes. */
  method CreateIndices(ts: seq<Tile>) returns (r: seq<Tile>)
    ensures |r| == |ts| && IndexedAsCreated(r)
    ensures forall k | 0 <= k < |ts| ::
      r[k].image == ts[k].image && r[k].extraction == ts[k].extraction && r[k].palette == ts[k].palette
    ensures forall k | 0 <= k < |ts| :: 0 <= r[k].index < 256
  {
    r := [];
    var i := 0;
    while i < |ts|
      invariant 0 <= i <= |ts| && |r| == i
      invariant IndexedAsCreated(r)
      invariant forall k | 0 <= k < i ::
        r[k].image == ts[k].image && r[k].extraction == ts[k].extraction && r[k].palette == ts[k].palette
    {
      r := r + [ts[i].(index := i % 256)];
      i := i + 1;
    }
  }

  // ---------------------------------------------------------------------
  // Binary export

  /** `writeAllTiles`: the 16-byte encodings of all tiles, in collection
      order. The first tile that cannot be encoded stops the export. */
  function TileBinary(ts: seq<Tile>): (r: Result<seq<bv8>>)
    ensures r.Failure? <==> exists i | 0 <= i < |ts| :: Encode(ts[i]).Failure?
    ensures r.Failure? ==> r.error == ClassificationError
    ensures r.Success? ==> |r.value| == 16 * |ts|
    ensures r.Success? ==> forall i | 0 <= i < |ts| :: Encode(ts[i]) == Success(r.value[16 * i .. 16 * i + 16])
  {
    var encs :- AllSucceed(EncodeEach(ts));
    Success(Concat16(encs))
  }

  /** The encoding of each tile, in order. */
  function EncodeEach(ts: seq<Tile>): (rs: seq<Result<seq<bv8>>>)
    ensures |rs| == |ts| && forall i | 0 <= i < |ts| :: rs[i] == Encode(ts[i])
  {
    seq(|ts|, i requires 0 <= i < |ts| => Encode(ts[i]))
  }

  lemma PrefixSlice(a: seq<bv8>, b: seq<bv8>, i: nat, j: nat)
    requires i <= j <= |a|
    ensures (a + b)[i..j] == a[i..j]
  {
  }

  /** 16-byte chunks written one after another. */
  function Concat16(chunks: seq<seq<bv8>>): (r: seq<bv8>)
    requires forall i | 0 <= i < |chunks| :: |chunks[i]| == 16
    ensures |r| == 16 * |chunks|
    ensures forall i | 0 <= i < |chunks| :: r[16 * i .. 16 * i + 16] == chunks[i]
  {
    if |chunks| == 0 then []
    else
      var n := |chunks| - 1;
      var prefix := Concat16(chunks[..n]);
      var r := prefix + chunks[n];
      assert r[16 * n .. 16 * n + 16] == chunks[n];
      assert forall i | 0 <= i < n :: r[16 * i .. 16 * i + 16] == chunks[i] by {
        forall i | 0 <= i < n
          ensures r[16 * i .. 16 * i + 16] == chunks[i]
        {
          PrefixSlice(prefix, chunks[n], 16 * i, 16 * i + 16);
          assert chunks[..n][i] == chunks[i];
        }
      }
      r
  }

  // ---------------------------------------------------------------------
  // Colours of an image

  /** `h` is the `Integer.toHexString` of some pixel of `img`. */
  predicate InColorSet(img: Image, h: string) {
    exists y, x | 0 <= y < img.height && 0 <= x < img.width :: ToHex(img.rows[y][x]) == h
  }

  /** The scan has visited pixel (yy, xx) before reaching (y, x), rows first. */
  predicate Visited(img: Image, y: nat, x: nat, yy: nat, xx: nat) {
    yy < img.height && xx < img.width && (yy < y || (yy == y && xx < x))
  }

  /** `h` is the hex string of a pixel visited before (y, x). */
  ghost predicate Seen(img: Image, y: nat, x: nat, h: string) {
    exists yy: nat, xx: nat | Visited(img, y, x, yy, xx) :: ToHex(img.rows[yy][xx]) == h
  }

  lemma SeenStep(img: Image, y: nat, x: nat, h: string)
    requires y < img.height && x < img.width
    ensures Seen(img, y, x + 1, h) <==> Seen(img, y, x, h) || ToHex(img.rows[y][x]) == h
  {
    if ToHex(img.rows[y][x]) == h {
      assert Visited(img, y, x + 1, y, x);
    }
    if Seen(img, y, x, h) {
      var yy: nat, xx: nat :| Visited(img, y, x, yy, xx) && ToHex(img.rows[yy][xx]) == h;
      assert Visited(img, y, x + 1, yy, xx);
    }
  }

  lemma SeenRow(img: Image, y: nat, h: string)
    requires y < img.height
    ensures Seen(img, y, img.width, h) <==> Seen(img, y + 1, 0, h)
  {
    if Seen(img, y, img.width, h) {
      var yy: nat, xx: nat :| Visited(img, y, img.width, yy, xx) && ToHex(img.rows[yy][xx]) == h;
      assert Visited(img, y + 1, 0, yy, xx);
    }
    if Seen(img, y + 1, 0, h) {
      var yy: nat, xx: nat :| Visited(img, y + 1, 0, yy, xx) && ToHex(img.rows[yy][xx]) == h;
      assert Visited(img, y, img.width, yy, xx);
    }
  }

  lemma SeenAll(img: Image, h: string)
    ensures Seen(img, img.height, 0, h) <==> InColorSet(img, h)
  {
    if InColorSet(img, h) {
      var y, x :| 0 <= y < img.height && 0 <= x < img.width && ToHex(img.rows[y][x]) == h;
      assert Visited(img, img.height, 0, y, x);
    }
  }

  /** `getColorPalSetFromImage`: the hex strings of all pixel values. */
  method GetColorPalSetFromImage(img: Image) returns (s: set<string>)
    ensures forall h :: h in s <==> InColorSet(img, h)
  {
    s := {};
    var y := 0;
    while y < img.height
      invariant 0 <= y <= img.height
      invariant forall h :: h in s <==> Seen(img, y, 0, h)
    {
      var x := 0;
      while x < img.width
        invariant 0 <= x <= img.width
        invariant forall h :: h in s <==> Seen(img, y, x, h)
      {
        forall h ensures Seen(img, y, x + 1, h) <==> Seen(img, y, x, h) || ToHex(img.rows[y][x]) == h {
          SeenStep(img, y, x, h);
        }
        s := s + {ToHex(img.rows[y][x])};
        x := x + 1;
      }
      forall h ensures Seen(img, y, img.width, h) <==> Seen(img, y + 1, 0, h) {
        SeenRow(img, y, h);
      }
      y := y + 1;
    }
    forall h ensures Seen(img, img.height, 0, h) <==> InColorSet(img, h) {
      SeenAll(img, h);
    }
  }

  /** Every colour string of an image parses back to one of its pixels, made opaque. */
  lemma ColorSetEntryParses(img: Image, h: string)
    requires InColorSet(img, h)
    ensures exists y, x | 0 <= y < img.height && 0 <= x < img.width ::
      GetColor(h) == Success(Opaque(img.rows[y][x]))
  {
    var y, x :| 0 <= y < img.height && 0 <= x < img.width && ToHex(img.rows[y][x]) == h;
    GetColorOfHex(img.rows[y][x]);
  }

  lemma LowerOfLowercase(s: string)
    requires forall i | 0 <= i < |s| :: !('A' <= s[i] <= 'Z')
    ensures Lower(s) == s
  {
  }

  /** A palette holding a pixel's own hex string classifies that pixel. */
  lemma OwnColorClassifies(p: Argb, palette: seq<string>)
    requires ToHex(p) in palette
    ensures PixelIndex(p, PixelPerfect, palette).Some?
  {
    var i :| 0 <= i < |palette| && palette[i] == ToHex(p);
    LowerOfLowercase(ToHex(p));
    assert EntryMatches(palette[i], p);
  }

  /** So a tile cut from an image encodes whenever its palette lists the image's colours. */
  lemma EncodeWithColorSet(img: Image, k: nat, palette: seq<string>)
    requires IsDimensionMultipleOf8(img) && k < TileCount(img)
    requires forall h | InColorSet(img, h) :: h in palette
    ensures Encode(Tile(Region(img, k), PixelPerfect, palette, 0)).Success?
  {
    var t := Tile(Region(img, k), PixelPerfect, palette, 0);
    RowMajor(k, Cols(img), TileRows(img));
    var x0, y0 := 8 * (k % Cols(img)), 8 * (k / Cols(img));
    forall y, x | 0 <= y < 8 && 0 <= x < 8
      ensures PixelIndex(t.image.rows[y][x], t.extraction, t.palette).Some?
    {
      assert t.image.rows[y][x] == img.rows[y0 + y][x0 + x];
      assert InColorSet(img, ToHex(img.rows[y0 + y][x0 + x]));
      OwnColorClassifies(img.rows[y0 + y][x0 + x], palette);
    }
  }
}
