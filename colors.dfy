/**
 * RGBA colours and the colour-uniformity check (ColorChecker). A colour is the uint32_t
 * 0xRRGGBBAA; an image is a row-major run of RGBA bytes, four per pixel.
 */
module Colors {
  import opened FixedWidth
  import opened Wrappers

  /** (r << 24) | (g << 16) | (b << 8) | a */
  function Pack(r: byte, g: byte, b: byte, a: byte): u32 {
    r * 0x100_0000 + g * 0x1_0000 + b * 0x100 + a
  }

  /** (c >> 24) & 0xFF */
  function Red(c: u32): byte { (c / 0x100_0000) % 0x100 }

  /** (c >> 16) & 0xFF */
  function Green(c: u32): byte { (c / 0x1_0000) % 0x100 }

  /** (c >> 8) & 0xFF */
  function Blue(c: u32): byte { (c / 0x100) % 0x100 }

  /** c & 0xFF */
  function Alpha(c: u32): byte { c % 0x100 }

  /** Unpacking a packed colour gives back its four channels. */
  lemma UnpackPack(r: byte, g: byte, b: byte, a: byte)
    ensures Red(Pack(r, g, b, a)) == r && Green(Pack(r, g, b, a)) == g
    ensures Blue(Pack(r, g, b, a)) == b && Alpha(Pack(r, g, b, a)) == a
  {
    var c := Pack(r, g, b, a);
    DivModUnique(c, 0x100_0000, r, g * 0x1_0000 + b * 0x100 + a);
    DivModUnique(r, 0x100, 0, r);
    DivModUnique(c, 0x1_0000, r * 0x100 + g, b * 0x100 + a);
    DivModUnique(r * 0x100 + g, 0x100, r, g);
    DivModUnique(c, 0x100, r * 0x1_0000 + g * 0x100 + b, a);
    DivModUnique(r * 0x1_0000 + g * 0x100 + b, 0x100, r * 0x100 + g, b);
  }

  /** Packing the four channels of a colour gives back the colour. */
  lemma PackUnpack(c: u32)
    ensures Pack(Red(c), Green(c), Blue(c), Alpha(c)) == c
  {
    var a, c1 := c % 0x100, c / 0x100;
    var b, c2 := c1 % 0x100, c1 / 0x100;
    var g, r := c2 % 0x100, c2 / 0x100;
    assert c == Pack(r, g, b, a);
    UnpackPack(r, g, b, a);
  }

  /** Index of the first of the four bytes of pixel (x, y): (y * imageWidth + x) * 4. */
  function PixelOffset(imageWidth: int, x: int, y: int): int {
    (y * imageWidth + x) * 4
  }

  predicate PixelReadable(img: seq<byte>, imageWidth: int, x: int, y: int) {
    0 <= PixelOffset(imageWidth, x, y) && PixelOffset(imageWidth, x, y) + 4 <= |img|
  }

  /** ColorChecker::getPixelColor: the four bytes of pixel (x, y) as 0xRRGGBBAA. */
  function GetPixelColor(img: seq<byte>, imageWidth: int, x: int, y: int): u32
    requires PixelReadable(img, imageWidth, x, y)
  {
    var o := PixelOffset(imageWidth, x, y);
    Pack(img[o], img[o + 1], img[o + 2], img[o + 3])
  }

  /** The colour of a pixel carries its R, G, B and A bytes in that order, from the high byte down. */
  lemma GetPixelColorChannels(img: seq<byte>, imageWidth: int, x: int, y: int)
    requires PixelReadable(img, imageWidth, x, y)
    ensures var c, o := GetPixelColor(img, imageWidth, x, y), PixelOffset(imageWidth, x, y);
      Red(c) == img[o] && Green(c) == img[o + 1] && Blue(c) == img[o + 2] && Alpha(c) == img[o + 3]
  {
    var o := PixelOffset(imageWidth, x, y);
    UnpackPack(img[o], img[o + 1], img[o + 2], img[o + 3]);
  }

  function Abs(n: int): nat { if n < 0 then -n else n }

  /**
   * ColorChecker::colorsEqual under the given tolerance: exact equality when the
   * tolerance is 0, otherwise each channel may differ by at most the tolerance.
   */
  function ColorsEqual(tolerance: int, c1: u32, c2: u32): bool {
    if tolerance == 0 then c1 == c2
    else
      Abs(Red(c1) - Red(c2)) <= tolerance && Abs(Green(c1) - Green(c2)) <= tolerance &&
      Abs(Blue(c1) - Blue(c2)) <= tolerance && Abs(Alpha(c1) - Alpha(c2)) <= tolerance
  }

  /** With tolerance 0 the test is exact equality of the 32-bit values. */
  lemma ColorsEqualExact(c1: u32, c2: u32)
    ensures ColorsEqual(0, c1, c2) <==> c1 == c2
  {
  }

  /** With a positive tolerance two colours are equal iff every channel is within it. */
  lemma ColorsEqualPerChannel(t: int, c1: u32, c2: u32)
    requires t > 0
    ensures ColorsEqual(t, c1, c2) <==>
      (Abs(Red(c1) - Red(c2)) <= t && Abs(Green(c1) - Green(c2)) <= t &&
       Abs(Blue(c1) - Blue(c2)) <= t && Abs(Alpha(c1) - Alpha(c2)) <= t)
  {
  }

  /** The relation is symmetric for every tolerance and reflexive exactly when the tolerance is not negative. */
  lemma ColorsEqualReflexiveSymmetric(t: int, c1: u32, c2: u32)
    ensures ColorsEqual(t, c1, c2) == ColorsEqual(t, c2, c1)
    ensures ColorsEqual(t, c1, c1) <==> t >= 0
  {
  }

  /** Equal colours that differ as 32-bit values exist for every positive tolerance. */
  lemma ToleranceMergesDistinctColors(t: int)
    requires t > 0
    ensures exists c1: u32, c2: u32 :: c1 != c2 && ColorsEqual(t, c1, c2)
  {
    assert ColorsEqual(t, 0, 1);
  }

  /** Every pixel of the width x height region at (x, y) can be read. */
  predicate RegionReadable(img: seq<byte>, imageWidth: int, x: int, y: int, width: int, height: int) {
    forall py, px :: y <= py < y + height && x <= px < x + width ==> PixelReadable(img, imageWidth, px, py)
  }

  /** Every pixel of the region is colorsEqual to its top-left pixel. */
  predicate RegionUniform(tolerance: int, img: seq<byte>, imageWidth: int, x: int, y: int, width: int, height: int)
    requires width > 0 && height > 0 && RegionReadable(img, imageWidth, x, y, width, height)
  {
    forall py, px :: y <= py < y + height && x <= px < x + width ==>
      ColorsEqual(tolerance, GetPixelColor(img, imageWidth, px, py), GetPixelColor(img, imageWidth, x, y))
  }

  /** With tolerance 0 a uniform region is one whose pixels are all identical. */
  lemma UniformExactMeansIdentical(img: seq<byte>, imageWidth: int, x: int, y: int, width: int, height: int)
    requires width > 0 && height > 0 && RegionReadable(img, imageWidth, x, y, width, height)
    ensures RegionUniform(0, img, imageWidth, x, y, width, height) <==>
      forall py, px, qy, qx :: y <= py < y + height && x <= px < x + width && y <= qy < y + height && x <= qx < x + width ==>
        GetPixelColor(img, imageWidth, px, py) == GetPixelColor(img, imageWidth, qx, qy)
  {
  }

  /** ColorChecker::isValidCoordinate */
  predicate IsValidCoordinate(imageWidth: int, imageHeight: int, x: int, y: int) {
    x >= 0 && y >= 0 && x < imageWidth && y < imageHeight
  }

  /** A valid coordinate names a pixel that lies inside an imageWidth x imageHeight RGBA buffer. */
  lemma ValidCoordinateReadable(img: seq<byte>, imageWidth: int, imageHeight: int, x: int, y: int)
    requires |img| == imageWidth * imageHeight * 4
    requires IsValidCoordinate(imageWidth, imageHeight, x, y)
    ensures PixelReadable(img, imageWidth, x, y)
  {
    assert y * imageWidth + x < (y + 1) * imageWidth;
    assert (y + 1) * imageWidth <= imageHeight * imageWidth;
  }

  /** ColorChecker: compares colours under a tolerance that setColorTolerance changes. */
  class ColorChecker {
    var colorTolerance: int

    constructor ()
      ensures colorTolerance == 0
    {
      colorTolerance := 0;
    }

    method SetColorTolerance(tolerance: int)
      modifies this
      ensures colorTolerance == tolerance
    {
      colorTolerance := tolerance;
    }

    /**
     * isUniformColor with the colour out-parameter: false for a null image or an empty
     * region, leaving the colour as the caller had it; otherwise the colour becomes the
     * top-left pixel and the answer is whether the whole region matches it.
     */
    method IsUniformColor(imageData: Option<seq<byte>>, imageWidth: int, x: int, y: int,
                          width: int, height: int, color: u32)
      returns (uniform: bool, colorOut: u32)
      requires imageData.Some? && width > 0 && height > 0 ==>
        RegionReadable(imageData.value, imageWidth, x, y, width, height)
      ensures imageData.None? || width <= 0 || height <= 0 ==> !uniform && colorOut == color
      ensures imageData.Some? && width > 0 && height > 0 ==>
        colorOut == GetPixelColor(imageData.value, imageWidth, x, y) &&
        (uniform <==> RegionUniform(colorTolerance, imageData.value, imageWidth, x, y, width, height))
    {
      if imageData.None? || width <= 0 || height <= 0 {
        return false, color;
      }
      var img := imageData.value;
      colorOut := GetPixelColor(img, imageWidth, x, y);
      var dy := 0;
      var row := y;
      while dy < height
        invariant row == y + dy
        invariant 0 <= dy <= height
        invariant forall py, px :: y <= py < y + dy && x <= px < x + width ==>
          ColorsEqual(colorTolerance, GetPixelColor(img, imageWidth, px, py), colorOut)
      {
        var dx := 0;
        while dx < width
          invariant 0 <= dx <= width
          invariant forall py, px :: y <= py < y + dy && x <= px < x + width ==>
            ColorsEqual(colorTolerance, GetPixelColor(img, imageWidth, px, py), colorOut)
          invariant forall px :: x <= px < x + dx ==>
            ColorsEqual(colorTolerance, GetPixelColor(img, imageWidth, px, row), colorOut)
        {
          var pixelColor := GetPixelColor(img, imageWidth, x + dx, row);
          if !ColorsEqual(colorTolerance, pixelColor, colorOut) {
            return false, colorOut;
          }
          dx := dx + 1;
        }
        dy := dy + 1;
        row := row + 1;
      }
      uniform := true;
    }

    /** isUniformColor without the out-parameter: the same answer. */
    method IsUniform(imageData: Option<seq<byte>>, imageWidth: int, x: int, y: int, width: int, height: int)
      returns (uniform: bool)
      requires imageData.Some? && width > 0 && height > 0 ==>
        RegionReadable(imageData.value, imageWidth, x, y, width, height)
      ensures imageData.None? || width <= 0 || height <= 0 ==> !uniform
      ensures imageData.Some? && width > 0 && height > 0 ==>
        (uniform <==> RegionUniform(colorTolerance, imageData.value, imageWidth, x, y, width, height))
    {
      var dummyColor: u32;
      uniform, dummyColor := IsUniformColor(imageData, imageWidth, x, y, width, height, 0);
    }
  }
}
