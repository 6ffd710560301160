/** 32-bit ARGB pixels as `BufferedImage.getRGB` returns them, read as
    unsigned values, with the channel arithmetic the core performs on them. */
module Pixels {

  import opened Arith

  const TWO_POW_32: int := 0x1_0000_0000
  const TWO_POW_24: int := 0x100_0000

  /** An ARGB pixel: alpha in bits 31..24, red 23..16, green 15..8, blue 7..0. */
  type Argb = n: int | 0 <= n < 0x1_0000_0000

  function Alpha(p: Argb): (a: nat)
    ensures a < 256
  {
    p / 0x100_0000
  }

  function Red(p: Argb): (r: nat)
    ensures r < 256
  {
    (p / 0x1_0000) % 256
  }

  function Green(p: Argb): (g: nat)
    ensures g < 256
  {
    (p / 0x100) % 256
  }

  function Blue(p: Argb): (b: nat)
    ensures b < 256
  {
    p % 256
  }

  /** The colour bits of a pixel: everything but alpha. */
  function Rgb(p: Argb): (c: nat)
    ensures c < TWO_POW_24
  {
    p % TWO_POW_24
  }

  /** The pixel with the given channels. */
  function MakeArgb(a: nat, r: nat, g: nat, b: nat): Argb
    requires a < 256 && r < 256 && g < 256 && b < 256
  {
    a * 0x100_0000 + r * 0x1_0000 + g * 0x100 + b
  }

  /** Reading the channels back from a composed pixel gives the channels. */
  lemma ChannelsOfMakeArgb(a: nat, r: nat, g: nat, b: nat)
    requires a < 256 && r < 256 && g < 256 && b < 256
    ensures var p := MakeArgb(a, r, g, b);
      Alpha(p) == a && Red(p) == r && Green(p) == g && Blue(p) == b
      && Rgb(p) == r * 0x1_0000 + g * 0x100 + b
  {
    var p := MakeArgb(a, r, g, b);
    DivModUnique(p, 0x100_0000, a, r * 0x1_0000 + g * 0x100 + b);
    DivModUnique(p, 0x1_0000, a * 256 + r, g * 0x100 + b);
    DivModUnique(a * 256 + r, 256, a, r);
    DivModUnique(p, 0x100, a * 0x1_0000 + r * 256 + g, b);
    DivModUnique(a * 0x1_0000 + r * 256 + g, 256, a * 256 + r, g);
  }

  /** Every pixel is composed of its four channels. */
  lemma ArgbOfChannels(p: Argb)
    ensures p == MakeArgb(Alpha(p), Red(p), Green(p), Blue(p))
  {
    var q := p / 0x100;
    var s := q / 0x100;
    assert p == q * 0x100 + Blue(p);
    assert q == s * 0x100 + Green(p);
    assert s == Alpha(p) * 0x100 + Red(p) by {
      DivModUnique(p, 0x1_0000, s, (q % 0x100) * 0x100 + Blue(p));
      DivModUnique(p, 0x100_0000, s / 0x100, (s % 0x100) * 0x1_0000 + (q % 0x100) * 0x100 + Blue(p));
    }
  }

  /** The colour bits are the red, green and blue channels side by side. */
  lemma RgbParts(p: Argb)
    ensures Rgb(p) == Red(p) * 0x1_0000 + Green(p) * 0x100 + Blue(p)
  {
    ArgbOfChannels(p);
    ChannelsOfMakeArgb(Alpha(p), Red(p), Green(p), Blue(p));
  }

  /** Two pixels agree on red, green and blue exactly when their colour bits agree. */
  lemma SameChannelsIffSameRgb(p: Argb, q: Argb)
    ensures (Red(p) == Red(q) && Green(p) == Green(q) && Blue(p) == Blue(q)) <==> Rgb(p) == Rgb(q)
  {
    RgbParts(p);
    RgbParts(q);
    if Rgb(p) == Rgb(q) {
      var x := Rgb(p);
      DivModUnique(x, 0x1_0000, Red(p), Green(p) * 0x100 + Blue(p));
      DivModUnique(x, 0x1_0000, Red(q), Green(q) * 0x100 + Blue(q));
      var y := x % 0x1_0000;
      DivModUnique(y, 0x100, Green(p), Blue(p));
      DivModUnique(y, 0x100, Green(q), Blue(q));
    }
  }

  /** A pixel is determined by its alpha and its colour bits. */
  lemma AlphaRgbDetermine(p: Argb, q: Argb)
    requires Alpha(p) == Alpha(q) && Rgb(p) == Rgb(q)
    ensures p == q
  {
    assert p == Alpha(p) * TWO_POW_24 + Rgb(p);
    assert q == Alpha(q) * TWO_POW_24 + Rgb(q);
  }

  /** `new Color(rgb).getRGB()`: the same colour with alpha forced to 255. */
  function Opaque(p: Argb): (q: Argb)
    ensures Alpha(q) == 255 && Rgb(q) == Rgb(p)
    ensures Red(q) == Red(p) && Green(q) == Green(p) && Blue(q) == Blue(p)
  {
    ArgbOfChannels(p);
    ChannelsOfMakeArgb(Alpha(p), Red(p), Green(p), Blue(p));
    ChannelsOfMakeArgb(255, Red(p), Green(p), Blue(p));
    0xFF00_0000 + Rgb(p)
  }

  /** Java's `int` view of the same 32 bits (two's complement). */
  function ToInt32(x: int): (i: int)
    ensures -0x8000_0000 <= i < 0x8000_0000
    ensures (i - x) % TWO_POW_32 == 0
  {
    var m := x % TWO_POW_32;
    if m >= 0x8000_0000 then m - TWO_POW_32 else m
  }

  /** Perceptual brightness with the weights 0.299, 0.587 and 0.114, scaled by 1000. */
  function Luma(p: Argb): (l: nat)
    ensures l <= 255000
  {
    299 * Red(p) + 587 * Green(p) + 114 * Blue(p)
  }

  /** floor(4 * luminance * (alpha / 255) / 256) for a luminance scaled by 1000. */
  function GrayBucket(l: nat, a: nat): (v: nat)
    requires l <= 255000 && a <= 255
    ensures v <= 3
    ensures l == 0 || a == 0 ==> v == 0
    ensures l == 255000 && a == 255 ==> v == 3
  {
    var n := 4 * (l * a);
    MulMonotone(l, a, 255000, 255);
    DivBelow(n, 1000 * 255 * 256, 4);
    n / (1000 * 255 * 256)
  }

  lemma WhiteChannels()
    ensures Alpha(0xFFFF_FFFF) == 255 && Luma(0xFFFF_FFFF) == 255000
  {
    assert 0xFFFF_FFFF == MakeArgb(255, 255, 255, 255);
    ChannelsOfMakeArgb(255, 255, 255, 255);
  }

  /** The GRAY_SCALE bucket of a pixel, in exact arithmetic: 0 for transparent
      or black pixels, 3 for opaque white. */
  function GrayIndex(p: Argb): (v: nat)
    ensures v <= 3
    ensures Alpha(p) == 0 ==> v == 0
    ensures Red(p) == 0 && Green(p) == 0 && Blue(p) == 0 ==> v == 0
    ensures p == 0xFFFF_FFFF ==> v == 3
  {
    WhiteChannels();
    GrayBucket(Luma(p), Alpha(p))
  }
}
