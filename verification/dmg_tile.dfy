/** DmgTile.java: one 8x8 tile, its 2-bit-per-pixel encoding and its
    pixel-content identity. */
module DmgTiles {

  import opened Results
  import opened Text
  import opened Pixels
  import opened Images

  /** TileExtractingMethod: how a pixel is turned into a 2-bit index. */
  datatype ExtractingMethod = GrayScale | PixelPerfect

  /** A DmgTile: its pixels, the extracting method and palette used to
      encode it, and the index assigned to it (0 until assigned). */
  datatype Tile = Tile(image: TileImage, extraction: ExtractingMethod, palette: seq<string>, index: int)

  /** `new DmgTile(subImg)`: grayscale, no palette, index 0. */
  function NewTile(image: TileImage): Tile {
    Tile(image, GrayScale, [], 0)
  }

  // ---------------------------------------------------------------------
  // Pixel classification

  /** The PIXEL_PERFECT test: the lower-cased palette entry ends with the
      pixel's `Integer.toHexString`. */
  predicate EntryMatches(entry: string, p: Argb) {
    EndsWith(Lower(entry), ToHex(p))
  }

  /** Position of the first set flag at or after `i`. */
  function FirstSetFrom(flags: seq<bool>, i: nat): (r: Option<nat>)
    requires i <= |flags|
    ensures r.Some? ==> i <= r.value < |flags| && flags[r.value]
    ensures r.Some? ==> forall j | i <= j < r.value :: !flags[j]
    ensures r.None? <==> forall j | i <= j < |flags| :: !flags[j]
    decreases |flags| - i
  {
    if i == |flags| then None
    else if flags[i] then Some(i)
    else FirstSetFrom(flags, i + 1)
  }

  /** For each palette entry, whether it matches `p`. */
  function MatchFlags(p: Argb, palette: seq<string>): (flags: seq<bool>)
    ensures |flags| == |palette| && forall j | 0 <= j < |palette| :: flags[j] == EntryMatches(palette[j], p)
  {
    seq(|palette|, j requires 0 <= j < |palette| => EntryMatches(palette[j], p))
  }

  /** Position of the first palette entry that matches `p`. */
  function FirstMatch(p: Argb, palette: seq<string>): (r: Option<nat>)
    ensures r.Some? ==> r.value < |palette| && EntryMatches(palette[r.value], p)
    ensures r.Some? ==> forall j | 0 <= j < r.value :: !EntryMatches(palette[j], p)
    ensures r.None? <==> forall j | 0 <= j < |palette| :: !EntryMatches(palette[j], p)
  {
    FirstSetFrom(MatchFlags(p, palette), 0)
  }

  /** The PIXEL_PERFECT index: position of the first matching entry, modulo 4. */
  function PerfectIndex(p: Argb, palette: seq<string>): (r: Option<nat>)
    ensures r.None? <==> forall j | 0 <= j < |palette| :: !EntryMatches(palette[j], p)
    ensures r.Some? ==> exists i | 0 <= i < |palette| ::
      && EntryMatches(palette[i], p)
      && (forall j | 0 <= j < i :: !EntryMatches(palette[j], p))
      && r.value == i % 4
  {
    match FirstMatch(p, palette)
    case None => None
    case Some(i) => Some(i % 4)
  }

  /** The 2-bit index of a pixel under a method, or None when PIXEL_PERFECT finds no entry. */
  function PixelIndex(p: Argb, extraction: ExtractingMethod, palette: seq<string>): (r: Option<nat>)
    ensures r.Some? ==> r.value <= 3
    ensures extraction == GrayScale ==> r == Some(GrayIndex(p))
    ensures extraction == PixelPerfect ==> r == PerfectIndex(p, palette)
  {
    match extraction
    case GrayScale => Some(GrayIndex(p))
    case PixelPerfect => PerfectIndex(p, palette)
  }

  /** An opaque pixel's hex string has 8 digits, so no entry shorter than 8
      characters (such as a plain "9bbc0f") can match it. */
  lemma OpaquePixelNeedsEightDigits(entry: string, p: Argb)
    requires Alpha(p) == 255 && |entry| < 8
    ensures !EntryMatches(entry, p)
  {
    assert p >= 0xFF00_0000;
    ToHexLength(p, 8);
  }

  /** Palettes whose entries agree up to ASCII case give every pixel the same index. */
  lemma PerfectIndexIgnoresCase(p: Argb, palette: seq<string>, other: seq<string>)
    requires |palette| == |other|
    requires forall j | 0 <= j < |palette| :: Lower(palette[j]) == Lower(other[j])
    ensures PerfectIndex(p, palette) == PerfectIndex(p, other)
  {
    var a, b := MatchFlags(p, palette), MatchFlags(p, other);
    forall j | 0 <= j < |palette| ensures a[j] == b[j] {
      assert Lower(palette[j]) == Lower(other[j]);
    }
    assert a == b;
  }

  /** The grid of 2-bit indices of the tile's pixels, or the error that
      `get2BppArrayFromTile` throws when one pixel has none. */
  function IndexGrid(t: Tile): (r: Result<seq<seq<nat>>>)
    ensures r.Failure? <==> exists y, x | 0 <= y < 8 && 0 <= x < 8 ::
      PixelIndex(t.image.rows[y][x], t.extraction, t.palette).None?
    ensures r.Failure? ==> r.error == ClassificationError
    ensures r.Success? ==> IsIndexGrid(r.value)
    ensures r.Success? ==> forall y, x | 0 <= y < 8 && 0 <= x < 8 ::
      PixelIndex(t.image.rows[y][x], t.extraction, t.palette) == Some(r.value[y][x])
  {
    if exists y, x | 0 <= y < 8 && 0 <= x < 8 :: PixelIndex(t.image.rows[y][x], t.extraction, t.palette).None? then
      Failure(ClassificationError)
    else
      Success(seq(8, y requires 0 <= y < 8 =>
        seq(8, x requires 0 <= x < 8 => PixelIndex(t.image.rows[y][x], t.extraction, t.palette).value)))
  }

  // ---------------------------------------------------------------------
  // 2bpp packing

  /** An 8x8 grid of indices 0..3. */
  predicate IsIndexGrid(g: seq<seq<nat>>) {
    |g| == 8 && forall y | 0 <= y < 8 :: |g[y]| == 8 && forall x | 0 <= x < 8 :: g[y][x] <= 3
  }

  /** `1 << i` for a bit position i of a byte. */
  function Mask(i: nat): bv8
    requires i < 8
  {
    if i == 0 then 0x01 else if i == 1 then 0x02 else if i == 2 then 0x04 else if i == 3 then 0x08
    else if i == 4 then 0x10 else if i == 5 then 0x20 else if i == 6 then 0x40 else 0x80
  }

  /** Bit i of a byte is set. */
  predicate Bit(b: bv8, i: nat)
    requires i < 8
  {
    b & Mask(i) != 0
  }

  /** Index 1 and 3 set their bit in the row's first byte (`hb`). */
  predicate SetsFirstPlane(v: nat) {
    v == 1 || v == 3
  }

  /** Index 2 and 3 set their bit in the row's second byte (`lb`). */
  predicate SetsSecondPlane(v: nat) {
    v == 2 || v == 3
  }

  predicate SetsPlane(v: nat, first: bool) {
    if first then SetsFirstPlane(v) else SetsSecondPlane(v)
  }

  /** One bit plane of the first `k` columns of a row before reversal:
      `plane |= (1 << x)` for each column x < k whose index sets that plane. */
  function PlaneUpTo(row: seq<nat>, first: bool, k: nat): bv8
    requires k <= |row| <= 8
  {
    if k == 0 then 0
    else PlaneUpTo(row, first, k - 1) | (if SetsPlane(row[k - 1], first) then Mask(k - 1) else 0)
  }

  /** One bit plane of a whole row before reversal. */
  function Plane(row: seq<nat>, first: bool): bv8
    requires |row| <= 8
  {
    PlaneUpTo(row, first, |row|)
  }

  /** Bit x of the plane of the first k columns is set exactly when column
      x < k's index sets that plane. */
  lemma {:induction false} PlaneBit(row: seq<nat>, first: bool, k: nat, x: nat)
    requires k <= |row| <= 8 && x < 8
    ensures Bit(PlaneUpTo(row, first, k), x) <==> x < k && SetsPlane(row[x], first)
  {
    if k > 0 {
      var a := PlaneUpTo(row, first, k - 1);
      var b: bv8 := if SetsPlane(row[k - 1], first) then Mask(k - 1) else 0;
      assert Bit(PlaneUpTo(row, first, k), x) <==> Bit(a, x) || Bit(b, x) by {
        OrBit(a, b, x);
      }
      assert Bit(b, x) <==> x == k - 1 && SetsPlane(row[k - 1], first) by {
        ShiftedOneBit(k - 1, x);
      }
      PlaneBit(row, first, k - 1, x);
    }
  }

  lemma PlaneBits(row: seq<nat>, first: bool)
    requires |row| <= 8
    ensures forall x | 0 <= x < 8 :: Bit(Plane(row, first), x) <==> x < |row| && SetsPlane(row[x], first)
  {
    forall x | 0 <= x < 8
      ensures Bit(Plane(row, first), x) <==> x < |row| && SetsPlane(row[x], first)
    {
      PlaneBit(row, first, |row|, x);
    }
  }

  lemma OrBit(a: bv8, b: bv8, x: nat)
    requires x < 8
    ensures Bit(a | b, x) <==> Bit(a, x) || Bit(b, x)
  {
  }

  lemma ShiftedOneBit(n: nat, x: nat)
    requires n < 8 && x < 8
    ensures Bit(Mask(n), x) <==> x == n
    ensures !Bit(0, x)
  {
  }

  /** `(byte) (Integer.reverse(b & 0xFF) >>> 24)`: bit x moves to bit 7 - x. */
  function Reverse8(b: bv8): bv8 {
    ((b & 0x01) << 7) | ((b & 0x02) << 5) | ((b & 0x04) << 3) | ((b & 0x08) << 1)
    | ((b & 0x10) >> 1) | ((b & 0x20) >> 3) | ((b & 0x40) >> 5) | ((b & 0x80) >> 7)
  }

  lemma ReverseBits(b: bv8)
    ensures forall x | 0 <= x < 8 :: Bit(Reverse8(b), x) <==> Bit(b, 7 - x)
  {
  }

  /** Rows top to bottom, two bytes per row: the first plane's byte, then the second's. */
  function Pack(g: seq<seq<nat>>): (r: seq<bv8>)
    requires forall y | 0 <= y < |g| :: |g[y]| <= 8
    ensures |r| == 2 * |g|
  {
    seq(2 * |g|, k requires 0 <= k < 2 * |g| => Reverse8(Plane(g[k / 2], k % 2 == 0)))
  }

  /** Bit-plane mapping of the stored bytes: pixel column x sits at bit 7 - x;
      index 0 sets no bit, 1 only the first byte, 2 only the second, 3 both. */
  lemma PackBits(g: seq<seq<nat>>, y: nat, x: nat)
    requires IsIndexGrid(g) && y < 8 && x < 8
    ensures Bit(Pack(g)[2 * y], 7 - x) <==> g[y][x] == 1 || g[y][x] == 3
    ensures Bit(Pack(g)[2 * y + 1], 7 - x) <==> g[y][x] == 2 || g[y][x] == 3
  {
    var bs := Pack(g);
    assert bs[2 * y] == Reverse8(Plane(g[y], true));
    assert bs[2 * y + 1] == Reverse8(Plane(g[y], false));
    PlaneBits(g[y], true);
    PlaneBits(g[y], false);
    ReverseBits(Plane(g[y], true));
    ReverseBits(Plane(g[y], false));
  }

  /** Reading a 16-byte tile back into its grid of indices. */
  function Unpack(bs: seq<bv8>): (g: seq<seq<nat>>)
    requires |bs| == 16
    ensures IsIndexGrid(g)
  {
    seq(8, y requires 0 <= y < 8 => seq(8, x requires 0 <= x < 8 =>
      (if Bit(bs[2 * y], 7 - x) then 1 else 0) + (if Bit(bs[2 * y + 1], 7 - x) then 2 else 0)))
  }

  /** Unpacking the packed bytes recovers every index. */
  lemma UnpackPack(g: seq<seq<nat>>)
    requires IsIndexGrid(g)
    ensures Unpack(Pack(g)) == g
  {
    var u := Unpack(Pack(g));
    forall y | 0 <= y < 8
      ensures u[y] == g[y]
    {
      forall x | 0 <= x < 8
        ensures u[y][x] == g[y][x]
      {
        PackBits(g, y, x);
      }
    }
  }

  /** `get2BppArrayFromTile`: 16 bytes, two per row, rows top to bottom; the
      stored bytes decode to each pixel's 2-bit index. Fails when a
      PIXEL_PERFECT pixel matches no palette entry. */
  function Encode(t: Tile): (r: Result<seq<bv8>>)
    ensures r.Failure? <==> exists y, x | 0 <= y < 8 && 0 <= x < 8 ::
      PixelIndex(t.image.rows[y][x], t.extraction, t.palette).None?
    ensures r.Failure? ==> r.error == ClassificationError
    ensures r.Success? ==> |r.value| == 16
    ensures r.Success? ==> forall y, x | 0 <= y < 8 && 0 <= x < 8 ::
      PixelIndex(t.image.rows[y][x], t.extraction, t.palette) == Some(Unpack(r.value)[y][x])
  {
    var g :- IndexGrid(t);
    UnpackPack(g);
    Success(Pack(g))
  }

  /** A grayscale tile of transparent or black pixels encodes to 16 zero bytes. */
  lemma DarkTileEncodesToZeros(t: Tile)
    requires t.extraction == GrayScale
    requires forall y, x | 0 <= y < 8 && 0 <= x < 8 ::
      var p := t.image.rows[y][x];
      Alpha(p) == 0 || (Red(p) == 0 && Green(p) == 0 && Blue(p) == 0)
    ensures Encode(t) == Success(seq(16, _ => 0 as bv8))
  {
    var r := IndexGrid(t);
    assert r.Success?;
    var g := r.value;
    forall y, x | 0 <= y < 8 && 0 <= x < 8
      ensures g[y][x] == 0
    {
      assert PixelIndex(t.image.rows[y][x], t.extraction, t.palette) == Some(g[y][x]);
    }
    PackZeroGrid(g);
  }

  /** The all-zero index grid packs to zero bytes. */
  lemma PackZeroGrid(g: seq<seq<nat>>)
    requires IsIndexGrid(g)
    requires forall y, x | 0 <= y < 8 && 0 <= x < 8 :: g[y][x] == 0
    ensures Pack(g) == seq(16, _ => 0 as bv8)
  {
    var bs := Pack(g);
    forall k | 0 <= k < 16
      ensures bs[k] == 0
    {
      var y := k / 2;
      var first, second := bs[2 * y], bs[2 * y + 1];
      forall i | 0 <= i < 8
        ensures !Bit(first, i)
      {
        PackBits(g, y, 7 - i);
      }
      forall i | 0 <= i < 8
        ensures !Bit(second, i)
      {
        PackBits(g, y, 7 - i);
      }
      ZeroByte(first);
      ZeroByte(second);
    }
  }

  lemma ZeroByte(b: bv8)
    requires forall x | 0 <= x < 8 :: !Bit(b, x)
    ensures b == 0
  {
    assert !Bit(b, 0) && !Bit(b, 1) && !Bit(b, 2) && !Bit(b, 3);
    assert !Bit(b, 4) && !Bit(b, 5) && !Bit(b, 6) && !Bit(b, 7);
  }

  // ---------------------------------------------------------------------
  // Identity

  /** `matches(BufferedImage)`: same dimensions and the same ARGB value everywhere. */
  predicate Matches(a: Image, b: Image) {
    && a.width == b.width && a.height == b.height
    && forall y, x | 0 <= y < a.height && 0 <= x < a.width :: a.rows[y][x] == b.rows[y][x]
  }

  /** Matching is exactly equality of the pixel buffers. */
  lemma MatchesIffEqual(a: Image, b: Image)
    ensures Matches(a, b) <==> a == b
  {
    if Matches(a, b) {
      forall y | 0 <= y < a.height
        ensures a.rows[y] == b.rows[y]
      {
      }
    }
  }

  /** `equals`: the other tile's pixels match this tile's. */
  predicate Equal(a: Tile, b: Tile) {
    Matches(a.image, b.image)
  }

  /** Two tiles are equal exactly when their pixels are, whatever their index,
      method or palette. */
  lemma EqualIffSamePixels(a: Tile, b: Tile)
    ensures Equal(a, b) <==> a.image == b.image
  {
    MatchesIffEqual(a.image, b.image);
  }

  /** The pixel values of one row as `StringBuilder.append(int)` writes them. */
  function RowKey(row: seq<Argb>): string {
    if |row| == 0 then "" else RowKey(row[..|row| - 1]) + IntToString(ToInt32(row[|row| - 1]))
  }

  /** `hashCodeOfPixels`: all pixel values in decimal, row by row, without separators. */
  function PixelKey(rows: seq<seq<Argb>>): string {
    if |rows| == 0 then "" else PixelKey(rows[..|rows| - 1]) + RowKey(rows[|rows| - 1])
  }

  /** `String.hashCode` before its final reinterpretation as a signed int. */
  function StringHashBits(s: string): (h: nat)
    ensures h < TWO_POW_32
  {
    if |s| == 0 then 0 else (31 * StringHashBits(s[..|s| - 1]) + s[|s| - 1] as int) % TWO_POW_32
  }

  /** `hashCode`: 17 * 7 + the string hash of the pixel key, in 32-bit arithmetic. */
  function HashCode(t: Tile): (h: int)
    ensures -0x8000_0000 <= h < 0x8000_0000
  {
    ToInt32(17 * 7 + ToInt32(StringHashBits(PixelKey(t.image.rows))))
  }

  /** Equal tiles hash alike, so a hash-based set keeps one tile per pixel content. */
  lemma HashCodeRespectsEqual(a: Tile, b: Tile)
    requires Equal(a, b)
    ensures HashCode(a) == HashCode(b)
  {
    EqualIffSamePixels(a, b);
  }
}
