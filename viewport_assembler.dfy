/**
 * ViewportAssembler: paints the tiles an index returns for a viewport onto an RGBA canvas
 * of vp.w x vp.h pixels (a byte vector, four bytes per pixel, row by row), and either hands
 * the canvas to the PNG writer or prints it as comma-separated 0xRRGGBBAA words.
 *
 * The alpha blend is floating point; the model takes it as a parameter (Blending) and
 * proves where it is applied, not what it computes. Image decoding and PNG writing are
 * parameters too: load answers a path with the decoded image or None, write answers
 * whether the PNG was written. The assembler keeps no state of its own, so its members
 * are module-level.
 */
module ViewportAssembly {
  import opened FixedWidth
  import opened Wrappers
  import opened Colors
  import opened HexText
  import opened TileTypes
  import opened TileIndexing
  import QuadTreeSplitting
  import TileSplitting

  // ---------------------------------------------------------------------------------
  // Solid-colour tile names
  // ---------------------------------------------------------------------------------

  /** isPureColorTile as this class writes it: any name of exactly eight characters. */
  predicate LengthOnlyPureColor(name: string) {
    |name| == 8
  }

  /** parseColorFromFileName: 0 unless the name has eight characters, else the shift-and-or fold of them. */
  function AssemblerColor(name: string): u32 {
    if LengthOnlyPureColor(name) then HexFold(name) else 0
  }

  /** parseColorFromFileName as a loop over the name. */
  method ParseColorFromFileName(fileName: string) returns (color: u32)
    ensures color == AssemblerColor(fileName)
  {
    if |fileName| != 8 {
      return 0;
    }
    color := FoldHexDigits(fileName);
  }

  /** The digit a character stands for in the parse, written back as an upper-case digit. */
  function CanonicalDigits(s: string): (r: string)
    ensures |r| == |s|
    ensures forall i :: 0 <= i < |s| ==> r[i] == HexDigitUpper(HexValue(s[i]))
  {
    seq(|s|, i requires 0 <= i < |s| => HexDigitUpper(HexValue(s[i])))
  }

  /**
   * The parse reads each character only through its digit value: a lower-case digit
   * counts as its upper-case twin and any other character as '0'.
   */
  lemma {:induction false} HexFoldCanonical(s: string)
    ensures HexFold(CanonicalDigits(s)) == HexFold(s)
    decreases |s|
  {
    if s != [] {
      var n := |s| - 1;
      var t := CanonicalDigits(s);
      assert t[..n] == CanonicalDigits(s[..n]);
      HexFoldCanonical(s[..n]);
      assert HexValue(t[n]) == HexValue(s[n]);
    }
  }

  /** The parse is blind to case and counts any non-digit as 0. */
  lemma ParseIgnoresCase(name: string)
    ensures AssemblerColor(CanonicalDigits(name)) == AssemblerColor(name)
  {
    HexFoldCanonical(name);
  }

  /** The splitter's %08X names parse back to their colour. */
  lemma ParseColorName(c: u32)
    ensures LengthOnlyPureColor(Format08X(c)) && AssemblerColor(Format08X(c)) == c
  {
    ParseFormat08X(c);
  }

  /**
   * On the names the splitter writes for solid tiles, the length-only test and the full
   * test agree, and so do the two parses.
   */
  lemma PureColorTestsAgreeOnColorNames(name: string)
    requires QuadTreeSplitting.IsPureColorName(name)
    ensures LengthOnlyPureColor(name) && AssemblerColor(name) == QuadTreeSplitting.ParsedColor(name)
  {
  }

  /**
   * The length-only test takes an ordinary eight-character image name for a solid
   * colour: "tile.png" parses to 0x000E0000, a colour of alpha 0, so the image is never
   * loaded. The full test rejects the name.
   */
  lemma LengthOnlyTestTakesImageName()
    ensures LengthOnlyPureColor("tile.png") && AssemblerColor("tile.png") == 0x000E_0000
    ensures Alpha(AssemblerColor("tile.png")) == 0
    ensures !QuadTreeSplitting.IsPureColorName("tile.png")
  {
    ImageNameFold("tile.png");
  }

  /**
   * An eight-character name whose only hexadecimal digit is an 'e' (or 'E') in fourth place,
   * as in "tile.png", parses to 0xE0000.
   */
  lemma ImageNameFold(s: string)
    requires |s| == 8 && HexValue(s[3]) == 0xE
    requires HexValue(s[0]) == HexValue(s[1]) == HexValue(s[2]) == 0
    requires HexValue(s[4]) == HexValue(s[5]) == HexValue(s[6]) == HexValue(s[7]) == 0
    ensures HexFold(s) == 0x000E_0000
  {
    HexFoldStep(s, 1, 0);
    HexFoldStep(s, 2, 0);
    HexFoldStep(s, 3, 0);
    HexFoldStep(s, 4, 0);
    HexFoldStep(s, 5, 0xE);
    HexFoldStep(s, 6, 0xE0);
    HexFoldStep(s, 7, 0xE00);
    HexFoldStep(s, 8, 0xE000);
    assert s[..8] == s;
  }

  /** One step of the parse loop: reading character k - 1 after the first k - 1. */
  lemma HexFoldStep(s: string, k: nat, prev: u32)
    requires 0 < k <= |s| && HexFold(s[..k - 1]) == prev
    ensures HexFold(s[..k]) == ShiftIn(prev, HexValue(s[k - 1]))
  {
    assert s[..k][..k - 1] == s[..k - 1];
  }

  /**
   * The test the assembler uses in this model: a solid tile is one whose name is eight
   * hexadecimal digits, as the splitter's isPureColorTile and the class's own header
   * describe it. Every %08X name passes, "tile.png" does not.
   */
  predicate IsPureColorTile(name: string) {
    QuadTreeSplitting.IsPureColorName(name)
  }

  lemma PureColorTileCorrected(c: u32)
    ensures IsPureColorTile(Format08X(c)) && AssemblerColor(Format08X(c)) == c
    ensures !IsPureColorTile("tile.png") && LengthOnlyPureColor("tile.png")
  {
    QuadTreeSplitting.ColorNameRoundTrip(c);
    assert !IsHexChar("tile.png"[0]);
  }

  // ---------------------------------------------------------------------------------
  // Canvas geometry
  // ---------------------------------------------------------------------------------

  /** The byte for channel c of pixel (px, py) of a canvas cw pixels wide and ch high. */
  function ByteIndex(cw: int, ch: int, px: int, py: int, c: int): (k: int)
    ensures 0 <= px < cw && 0 <= py < ch && 0 <= c < 4 ==> 0 <= k < cw * ch * 4
  {
    var k := (py * cw + px) * 4 + c;
    assert 0 <= px < cw && 0 <= py < ch && 0 <= c < 4 ==> 0 <= k < cw * ch * 4 by {
      if 0 <= px < cw && 0 <= py < ch && 0 <= c < 4 {
        PixelBelowArea(cw, ch, px, py);
      }
    }
    k
  }

  lemma MulLe(a: int, b: int, c: int)
    requires 0 <= a <= b && 0 <= c
    ensures a * c <= b * c
  {
    assert b * c - a * c == (b - a) * c;
  }

  /** Pixel (px, py) comes before pixel cw * ch in row-major order. */
  lemma PixelBelowArea(cw: int, ch: int, px: int, py: int)
    requires 0 <= px < cw && 0 <= py < ch
    ensures 0 <= py * cw + px && (py * cw + px) * 4 + 3 < cw * ch * 4
  {
    MulLe(0, py, cw);
    MulLe(py + 1, ch, cw);
    assert (py + 1) * cw == py * cw + cw;
    assert ch * cw == cw * ch;
  }

  /** The column of the pixel byte k belongs to. */
  function Col(k: int, cw: int): int {
    if cw <= 0 then 0 else (k / 4) % cw
  }

  /** The row of the pixel byte k belongs to. */
  function Row(k: int, cw: int): int {
    if cw <= 0 then 0 else (k / 4) / cw
  }

  lemma ByteOfPixel(cw: int, ch: int, px: int, py: int, c: int)
    requires 0 <= px < cw && 0 <= py < ch && 0 <= c < 4
    ensures Col(ByteIndex(cw, ch, px, py, c), cw) == px && Row(ByteIndex(cw, ch, px, py, c), cw) == py
    ensures ByteIndex(cw, ch, px, py, c) % 4 == c
  {
    var k := ByteIndex(cw, ch, px, py, c);
    DivModUnique(k, 4, py * cw + px, c);
    DivModUnique(py * cw + px, cw, py, px);
  }

  lemma PixelOfByte(k: int, cw: int, ch: int)
    requires 0 <= cw && 0 <= ch && 0 <= k < cw * ch * 4
    ensures 0 <= Col(k, cw) < cw && 0 <= Row(k, cw) < ch
    ensures k == ByteIndex(cw, ch, Col(k, cw), Row(k, cw), k % 4)
  {
    assert cw > 0;
    var p := k / 4;
    var row, col := p / cw, p % cw;
    assert k == p * 4 + k % 4;
    assert p == row * cw + col;
    assert p < cw * ch;
    if row >= ch {
      MulLe(ch, row, cw);
      assert false;
    }
  }

  /** Every byte of a cw x ch canvas lies in some pixel of it. */
  lemma CanvasCoords(cw: int, ch: int)
    requires 0 <= cw && 0 <= ch
    ensures forall k :: 0 <= k < cw * ch * 4 ==> 0 <= Col(k, cw) < cw && 0 <= Row(k, cw) < ch
  {
    forall k | 0 <= k < cw * ch * 4
      ensures 0 <= Col(k, cw) < cw && 0 <= Row(k, cw) < ch
    {
      PixelOfByte(k, cw, ch);
    }
  }

  // ---------------------------------------------------------------------------------
  // blit and blitSolidColor
  // ---------------------------------------------------------------------------------

  datatype Rgba = Rgba(r: byte, g: byte, b: byte, a: byte)

  function Channel(p: Rgba, c: int): byte {
    if c == 0 then p.r else if c == 1 then p.g else if c == 2 then p.b else p.a
  }

  /**
   * The "simple over" blend, left uninterpreted: mix(source channel, source alpha,
   * destination channel) gives a colour byte, alpha(source alpha, destination alpha)
   * the alpha byte.
   */
  datatype Blending = Blending(mix: (byte, byte, byte) -> byte, alpha: (byte, byte) -> byte)

  /** The byte the blend writes into channel c of a destination pixel. */
  function BlendByte(bl: Blending, c: int, s: Rgba, d: byte): byte {
    if c < 3 then bl.mix(Channel(s, c), s.a, d) else bl.alpha(s.a, d)
  }

  /** What is painted: a decoded image read with a row stride, or one colour everywhere. */
  datatype Source = Raster(data: seq<byte>, stride: int) | Solid(color: u32)

  /** The image holds every pixel of a sw x sh source, four bytes each. */
  predicate Covers(s: Source, sw: int, sh: int) {
    match s
    case Solid(_) => true
    case Raster(data, stride) => sw <= 0 || sh <= 0 || (stride >= 0 && (sh - 1) * stride + 4 * sw <= |data|)
  }

  lemma RasterBounds(data: seq<byte>, stride: int, sw: int, sh: int, x: int, y: int)
    requires Covers(Raster(data, stride), sw, sh) && 0 <= x < sw && 0 <= y < sh
    ensures 0 <= y * stride + 4 * x && y * stride + 4 * x + 3 < |data|
  {
    assert (sh - 1) * stride - y * stride == (sh - 1 - y) * stride;
    assert (sh - 1 - y) * stride >= 0;
  }

  /** The source pixel (x, y); a solid colour is unpacked from bits 24-31, 16-23, 8-15 and 0-7. */
  function SourcePixel(s: Source, sw: int, sh: int, x: int, y: int): Rgba
    requires Covers(s, sw, sh) && 0 <= x < sw && 0 <= y < sh
  {
    match s
    case Solid(c) => Rgba(Red(c), Green(c), Blue(c), Alpha(c))
    case Raster(data, stride) =>
      RasterBounds(data, stride, sw, sh, x, y);
      var i := y * stride + 4 * x;
      Rgba(data[i], data[i + 1], data[i + 2], data[i + 3])
  }

  /** A solid colour built from four channels is painted with exactly those channels. */
  lemma SolidPixelChannels(r: byte, g: byte, b: byte, a: byte, sw: int, sh: int, x: int, y: int)
    requires 0 <= x < sw && 0 <= y < sh
    ensures SourcePixel(Solid(Pack(r, g, b, a)), sw, sh, x, y) == Rgba(r, g, b, a)
  {
    UnpackPack(r, g, b, a);
  }

  /** Byte k after painting s at (dstX, dstY): blended where the source lands, kept elsewhere. */
  function PaintedByte(before: seq<byte>, cw: int, s: Source, sw: int, sh: int, dstX: int, dstY: int, bl: Blending, k: int): byte
    requires 0 <= k < |before| && Covers(s, sw, sh)
  {
    var x, y := Col(k, cw) - dstX, Row(k, cw) - dstY;
    if 0 <= x < sw && 0 <= y < sh then BlendByte(bl, k % 4, SourcePixel(s, sw, sh, x, y), before[k]) else before[k]
  }

  /** The canvas after painting a sw x sh source with its top-left corner at (dstX, dstY). */
  function Painted(before: seq<byte>, cw: int, s: Source, sw: int, sh: int, dstX: int, dstY: int, bl: Blending): (r: seq<byte>)
    requires Covers(s, sw, sh)
    ensures |r| == |before|
  {
    seq(|before|, k requires 0 <= k < |before| => PaintedByte(before, cw, s, sw, sh, dstX, dstY, bl, k))
  }

  /**
   * The clipping footprint of blit and blitSolidColor: source pixel (x, y) lands on canvas
   * pixel (dstX + x, dstY + y) when that lies in [0, cw) x [0, ch), and every byte of
   * every other pixel keeps its value.
   */
  lemma PaintFootprint(before: seq<byte>, cw: int, ch: int, s: Source, sw: int, sh: int, dstX: int, dstY: int, bl: Blending)
    requires 0 <= cw && 0 <= ch && |before| == cw * ch * 4 && Covers(s, sw, sh)
    ensures forall px, py, c :: 0 <= px < cw && 0 <= py < ch && 0 <= c < 4 && 0 <= px - dstX < sw && 0 <= py - dstY < sh ==>
      Painted(before, cw, s, sw, sh, dstX, dstY, bl)[ByteIndex(cw, ch, px, py, c)] ==
      BlendByte(bl, c, SourcePixel(s, sw, sh, px - dstX, py - dstY), before[ByteIndex(cw, ch, px, py, c)])
    ensures forall k :: 0 <= k < |before| && !(0 <= Col(k, cw) - dstX < sw && 0 <= Row(k, cw) - dstY < sh) ==>
      Painted(before, cw, s, sw, sh, dstX, dstY, bl)[k] == before[k]
  {
    var r := Painted(before, cw, s, sw, sh, dstX, dstY, bl);
    forall px, py, c | 0 <= px < cw && 0 <= py < ch && 0 <= c < 4 && 0 <= px - dstX < sw && 0 <= py - dstY < sh
      ensures r[ByteIndex(cw, ch, px, py, c)] == BlendByte(bl, c, SourcePixel(s, sw, sh, px - dstX, py - dstY), before[ByteIndex(cw, ch, px, py, c)])
    {
      ByteOfPixel(cw, ch, px, py, c);
    }
  }

  /** A source that lies wholly outside the canvas leaves it unchanged. */
  lemma PaintOutsideIsNoop(before: seq<byte>, cw: int, ch: int, s: Source, sw: int, sh: int, dstX: int, dstY: int, bl: Blending)
    requires 0 <= cw && 0 <= ch && |before| == cw * ch * 4 && Covers(s, sw, sh)
    requires dstX >= cw || dstY >= ch || dstX + sw <= 0 || dstY + sh <= 0
    ensures Painted(before, cw, s, sw, sh, dstX, dstY, bl) == before
  {
    CanvasCoords(cw, ch);
    var r := Painted(before, cw, s, sw, sh, dstX, dstY, bl);
    forall k | 0 <= k < |before|
      ensures r[k] == before[k]
    {
    }
  }

  /** The four bytes of canvas pixel (px, py) are the ones at ByteIndex(.., 0) to ByteIndex(.., 3), and no others. */
  lemma PixelBytes(cw: int, ch: int, px: int, py: int)
    requires 0 <= px < cw && 0 <= py < ch
    ensures var base := ByteIndex(cw, ch, px, py, 0);
      0 <= base && base + 3 < cw * ch * 4 &&
      forall k :: 0 <= k < cw * ch * 4 ==>
        ((Col(k, cw) == px && Row(k, cw) == py) <==> base <= k < base + 4) &&
        (base <= k < base + 4 ==> k % 4 == k - base)
  {
    var base := ByteIndex(cw, ch, px, py, 0);
    assert ByteIndex(cw, ch, px, py, 3) == base + 3;
    forall k | 0 <= k < cw * ch * 4
      ensures ((Col(k, cw) == px && Row(k, cw) == py) <==> base <= k < base + 4)
      ensures base <= k < base + 4 ==> k % 4 == k - base
    {
      if base <= k < base + 4 {
        assert k == ByteIndex(cw, ch, px, py, k - base);
        ByteOfPixel(cw, ch, px, py, k - base);
      }
      if Col(k, cw) == px && Row(k, cw) == py {
        PixelOfByte(k, cw, ch);
      }
    }
  }

  /** Blends the source pixel p into canvas pixel (px, py). */
  method BlendPixel(canvas: array<byte>, cw: int, ch: int, px: int, py: int, p: Rgba, bl: Blending)
    requires 0 <= px < cw && 0 <= py < ch && canvas.Length == cw * ch * 4
    modifies canvas
    ensures forall k :: 0 <= k < canvas.Length ==>
      canvas[k] == (if Col(k, cw) == px && Row(k, cw) == py then BlendByte(bl, k % 4, p, old(canvas[k])) else old(canvas[k]))
  {
    var base := ByteIndex(cw, ch, px, py, 0);
    PixelBytes(cw, ch, px, py);
    canvas[base] := BlendByte(bl, 0, p, canvas[base]);
    canvas[base + 1] := BlendByte(bl, 1, p, canvas[base + 1]);
    canvas[base + 2] := BlendByte(bl, 2, p, canvas[base + 2]);
    canvas[base + 3] := BlendByte(bl, 3, p, canvas[base + 3]);
  }

  /** The row and column loops shared by blit and blitSolidColor, skipping what falls off the canvas. */
  method PaintLoop(canvas: array<byte>, cw: int, ch: int, s: Source, sw: int, sh: int, dstX: int, dstY: int, bl: Blending)
    requires 0 <= cw && 0 <= ch && canvas.Length == cw * ch * 4 && Covers(s, sw, sh)
    modifies canvas
    ensures canvas[..] == Painted(old(canvas[..]), cw, s, sw, sh, dstX, dstY, bl)
  {
    ghost var before := canvas[..];
    CanvasCoords(cw, ch);
    var y := 0;
    while y < sh
      invariant 0 <= y && (sh >= 0 ==> y <= sh)
      invariant forall k :: 0 <= k < canvas.Length ==>
        canvas[k] == (if Row(k, cw) < dstY + y then PaintedByte(before, cw, s, sw, sh, dstX, dstY, bl, k) else before[k])
    {
      if 0 <= dstY + y < ch {
        var x := 0;
        while x < sw
          invariant 0 <= x && (sw >= 0 ==> x <= sw)
          invariant forall k :: 0 <= k < canvas.Length ==>
            canvas[k] == (if Row(k, cw) < dstY + y || (Row(k, cw) == dstY + y && Col(k, cw) < dstX + x)
                          then PaintedByte(before, cw, s, sw, sh, dstX, dstY, bl, k) else before[k])
        {
          if 0 <= dstX + x < cw {
            BlendPixel(canvas, cw, ch, dstX + x, dstY + y, SourcePixel(s, sw, sh, x, y), bl);
          }
          x := x + 1;
        }
      }
      y := y + 1;
    }
    forall k | 0 <= k < canvas.Length
      ensures canvas[k] == Painted(before, cw, s, sw, sh, dstX, dstY, bl)[k]
    {
    }
  }

  /** blit: paint a decoded image of sw x sh pixels, rows stride bytes apart, at (dstX, dstY). */
  method Blit(canvas: array<byte>, cw: int, ch: int, src: seq<byte>, sw: int, sh: int, stride: int, dstX: int, dstY: int, bl: Blending)
    requires 0 <= cw && 0 <= ch && canvas.Length == cw * ch * 4 && Covers(Raster(src, stride), sw, sh)
    modifies canvas
    ensures canvas[..] == Painted(old(canvas[..]), cw, Raster(src, stride), sw, sh, dstX, dstY, bl)
  {
    PaintLoop(canvas, cw, ch, Raster(src, stride), sw, sh, dstX, dstY, bl);
  }

  /** blitSolidColor: paint a w x h block of one colour at (dstX, dstY). */
  method BlitSolidColor(canvas: array<byte>, cw: int, ch: int, color: u32, w: int, h: int, dstX: int, dstY: int, bl: Blending)
    requires 0 <= cw && 0 <= ch && canvas.Length == cw * ch * 4
    modifies canvas
    ensures canvas[..] == Painted(old(canvas[..]), cw, Solid(color), w, h, dstX, dstY, bl)
  {
    PaintLoop(canvas, cw, ch, Solid(color), w, h, dstX, dstY, bl);
  }

  // ---------------------------------------------------------------------------------
  // The hex output of assembleToHex
  // ---------------------------------------------------------------------------------

  /** (r << 24) | (g << 16) | (b << 8) | a for pixel i of the canvas. */
  function PixelWord(canvas: seq<byte>, i: int): u32
    requires 0 <= i && 4 * i + 3 < |canvas|
  {
    Pack(canvas[4 * i], canvas[4 * i + 1], canvas[4 * i + 2], canvas[4 * i + 3])
  }

  /** "0x" followed by the word in eight upper-case hexadecimal digits. */
  function HexEntry(v: u32): (s: string)
    ensures |s| == 10
  {
    "0x" + Format08X(v)
  }

  /** The entries of the first count pixels. */
  function HexEntries(canvas: seq<byte>, count: nat): (ws: seq<string>)
    requires 4 * count <= |canvas|
    ensures |ws| == count && forall j :: 0 <= j < count ==> ws[j] == HexEntry(PixelWord(canvas, j))
  {
    seq(count, j requires 0 <= j < count => HexEntry(PixelWord(canvas, j)))
  }

  /** What the output stream holds after the first i words: each followed by a comma unless it is the last. */
  function Joined(ws: seq<string>, i: nat): string
    requires i <= |ws|
  {
    if i == 0 then ""
    else Joined(ws, i - 1) + ws[i - 1] + (if i < |ws| then "," else "")
  }

  /** The full output for count pixels. */
  function HexWords(canvas: seq<byte>, count: nat): string
    requires 4 * count <= |canvas|
  {
    Joined(HexEntries(canvas, count), count)
  }

  /** Words of ten characters take 11 characters each, except that the last of all has no comma. */
  lemma {:induction false} JoinedLength(ws: seq<string>, i: nat)
    requires i <= |ws| && forall k :: 0 <= k < |ws| ==> |ws[k]| == 10
    ensures |Joined(ws, i)| == if 0 < i == |ws| then 11 * i - 1 else 11 * i
  {
    if i > 0 {
      JoinedLength(ws, i - 1);
    }
  }

  lemma SliceLeft(a: string, b: string, lo: int, hi: int)
    requires 0 <= lo <= hi <= |a|
    ensures (a + b)[lo..hi] == a[lo..hi]
  {
  }

  lemma SliceRight(a: string, b: string, lo: int, hi: int)
    requires |a| <= lo <= hi <= |a| + |b|
    ensures (a + b)[lo..hi] == b[lo - |a|..hi - |a|]
  {
  }

  /** Word j sits at offset 11j. */
  lemma {:induction false} JoinedWord(ws: seq<string>, i: nat, j: nat)
    requires j < i <= |ws| && forall k :: 0 <= k < |ws| ==> |ws[k]| == 10
    ensures 11 * j + 10 <= |Joined(ws, i)| && Joined(ws, i)[11 * j .. 11 * j + 10] == ws[j]
  {
    var prev := Joined(ws, i - 1);
    var e := ws[i - 1];
    var sep := if i < |ws| then "," else "";
    assert Joined(ws, i) == (prev + e) + sep;
    JoinedLength(ws, i - 1);
    SliceLeft(prev + e, sep, 11 * j, 11 * j + 10);
    if j < i - 1 {
      JoinedWord(ws, i - 1, j);
      SliceLeft(prev, e, 11 * j, 11 * j + 10);
    } else {
      SliceRight(prev, e, 11 * j, 11 * j + 10);
      assert e[0..10] == e;
    }
  }

  /** Word j is followed by a comma unless it is the last of all. */
  lemma {:induction false} JoinedComma(ws: seq<string>, i: nat, j: nat)
    requires j < i <= |ws| && j + 1 < |ws| && forall k :: 0 <= k < |ws| ==> |ws[k]| == 10
    ensures 11 * j + 10 < |Joined(ws, i)| && Joined(ws, i)[11 * j + 10] == ','
  {
    var prev := Joined(ws, i - 1);
    var e := ws[i - 1];
    var sep := if i < |ws| then "," else "";
    assert Joined(ws, i) == (prev + e) + sep;
    JoinedLength(ws, i - 1);
    if j < i - 1 {
      JoinedComma(ws, i - 1, j);
    }
  }

  /** An entry of the hex output that spells v: "0x" and eight digits that read back as v. */
  predicate ReadsBackAs(entry: string, v: u32) {
    |entry| == 10 && entry[..2] == "0x" && HexFold(entry[2..]) == v
  }

  /** The word's red, green, blue and alpha bytes are pixel i's four bytes, in that order. */
  predicate ChannelsAre(v: u32, pixels: seq<byte>, i: nat)
    requires 4 * i + 3 < |pixels|
  {
    Red(v) == pixels[4 * i] && Green(v) == pixels[4 * i + 1] &&
    Blue(v) == pixels[4 * i + 2] && Alpha(v) == pixels[4 * i + 3]
  }

  /** Every entry reads back as the word it was printed from. */
  lemma EntryReadsBack(v: u32)
    ensures ReadsBackAs(HexEntry(v), v)
  {
    assert HexEntry(v)[2..] == Format08X(v);
    ParseFormat08X(v);
  }

  /** Pixel i's packed word carries the pixel's four bytes as its channels. */
  lemma PixelChannels(pixels: seq<byte>, i: nat)
    requires 4 * i + 3 < |pixels|
    ensures ChannelsAre(PixelWord(pixels, i), pixels, i)
  {
    UnpackPack(pixels[4 * i], pixels[4 * i + 1], pixels[4 * i + 2], pixels[4 * i + 3]);
  }

  /**
   * The printed words read back: the eight digits of entry j parse to the pixel's packed
   * word, whose four bytes are the pixel's red, green, blue and alpha bytes.
   */
  lemma HexWordsReadBack(canvas: seq<byte>, count: nat, j: nat)
    requires j < count && 4 * count <= |canvas|
    ensures var out := HexWords(canvas, count);
      |out| == 11 * count - 1 && (j + 1 < count ==> out[11 * j + 10] == ',') &&
      out[11 * j .. 11 * j + 2] == "0x" &&
      HexFold(out[11 * j + 2 .. 11 * j + 10]) == PixelWord(canvas, j) &&
      Red(PixelWord(canvas, j)) == canvas[4 * j] && Green(PixelWord(canvas, j)) == canvas[4 * j + 1] &&
      Blue(PixelWord(canvas, j)) == canvas[4 * j + 2] && Alpha(PixelWord(canvas, j)) == canvas[4 * j + 3]
  {
    var ws := HexEntries(canvas, count);
    var out := HexWords(canvas, count);
    JoinedLength(ws, count);
    JoinedWord(ws, count, j);
    if j + 1 < count {
      JoinedComma(ws, count, j);
    }
    var e := out[11 * j .. 11 * j + 10];
    EntryReadsBack(PixelWord(canvas, j));
    assert out[11 * j .. 11 * j + 2] == e[..2];
    assert out[11 * j + 2 .. 11 * j + 10] == e[2..];
    PixelChannels(canvas, j);
  }

  /**
   * ss << "0x" << std::setw(8) << v, with std::hex, std::uppercase and fill '0' in effect:
   * ten characters, "0x" and eight digits that read back as v.
   */
  method WriteWord(v: u32) returns (entry: string)
    ensures entry == HexEntry(v)
    ensures ReadsBackAs(entry, v)
  {
    entry := "0x" + Format08X(v);
    EntryReadsBack(v);
  }

  /**
   * The four bytes of pixel i, packed as (r << 24) | (g << 16) | (b << 8) | a: the word's
   * red, green, blue and alpha bytes are the pixel's four bytes in that order.
   */
  method ReadPixel(canvas: array<byte>, i: nat) returns (v: u32)
    requires 4 * i + 3 < canvas.Length
    ensures v == PixelWord(canvas[..], i)
    ensures ChannelsAre(v, canvas[..], i)
  {
    var r, g, b, a := canvas[i * 4 + 0], canvas[i * 4 + 1], canvas[i * 4 + 2], canvas[i * 4 + 3];
    v := Pack(r, g, b, a);
    PixelChannels(canvas[..], i);
  }

  /** One more pixel's entry, and its comma unless it is the last, extends the joined text. */
  lemma JoinedNext(pixels: seq<byte>, count: nat, i: nat, entry: string, sep: string)
    requires 4 * count <= |pixels| && i < count
    requires entry == HexEntry(PixelWord(pixels, i)) && sep == if i + 1 < count then "," else ""
    ensures Joined(HexEntries(pixels, count), i + 1) == Joined(HexEntries(pixels, count), i) + entry + sep
  {
  }

  /** The loop at the end of assembleToHex over count = vp.w * vp.h pixels. */
  method HexOutput(canvas: array<byte>, count: nat) returns (out: string)
    requires 4 * count <= canvas.Length
    ensures out == HexWords(canvas[..], count)
    ensures |out| == if count == 0 then 0 else 11 * count - 1
  {
    ghost var ws := HexEntries(canvas[..], count);
    out := "";
    var i := 0;
    while i < count
      invariant 0 <= i <= count
      invariant out == Joined(ws, i)
    {
      var v := ReadPixel(canvas, i);
      var entry := WriteWord(v);
      var sep := if i + 1 < count then "," else "";
      JoinedNext(canvas[..], count, i, entry, sep);
      out := out + entry + sep;
      i := i + 1;
    }
    JoinedLength(ws, count);
  }

  // ---------------------------------------------------------------------------------
  // assemble and assembleToHex
  // ---------------------------------------------------------------------------------

  /** What stbi_load hands back on success. */
  type Decoded = img: Image | TileTypes.Decoded(img) witness Image([0, 0, 0, 0], 1, 1)

  lemma DecodedCovers(img: Decoded)
    ensures Covers(Raster(img.data, img.width * 4), img.width, img.height)
  {
    assert (img.height - 1) * (img.width * 4) + 4 * img.width == img.width * img.height * 4;
  }

  /**
   * Whether a tile name is painted as a solid colour: with strict false by the length-only
   * test that assemble and assembleToHex apply, with strict true by the eight-hex-digit
   * test the class's header describes.
   */
  predicate SolidName(name: string, strict: bool) {
    if strict then IsPureColorTile(name) else LengthOnlyPureColor(name)
  }

  /** The two tests agree on a name: either it is not eight characters long or it is a hex name. */
  predicate SolidTestsAgree(name: string) {
    LengthOnlyPureColor(name) ==> IsPureColorTile(name)
  }

  /**
   * The canvas after painting tile t, placed at (t.x - vp.x, t.y - vp.y): a solid tile is
   * blended in with the colour parsed from its name, an image tile is loaded and blitted,
   * and an image that does not load is skipped.
   */
  function PaintTile(canvas: seq<byte>, vp: Viewport, t: TileMeta, strict: bool, resourceDir: string,
                     load: string -> Option<Decoded>, bl: Blending): (r: seq<byte>)
    ensures |r| == |canvas|
  {
    var lx, ly := t.x - vp.x, t.y - vp.y;
    if SolidName(t.file, strict) then
      Painted(canvas, vp.w, Solid(AssemblerColor(t.file)), t.w, t.h, lx, ly, bl)
    else
      match load(resourceDir + "/" + t.file)
      case None => canvas
      case Some(img) =>
        DecodedCovers(img);
        Painted(canvas, vp.w, Raster(img.data, img.width * 4), img.width, img.height, lx, ly, bl)
  }

  /** The canvas after painting the tiles in order onto a transparent black one. */
  function AssembledCanvas(tiles: seq<TileMeta>, vp: Viewport, strict: bool, resourceDir: string,
                           load: string -> Option<Decoded>, bl: Blending): (r: seq<byte>)
    requires vp.w >= 0 && vp.h >= 0
    ensures |r| == vp.w * vp.h * 4
    decreases |tiles|
  {
    if tiles == [] then seq(vp.w * vp.h * 4, _ => 0)
    else PaintTile(AssembledCanvas(tiles[..|tiles| - 1], vp, strict, resourceDir, load, bl), vp, tiles[|tiles| - 1], strict, resourceDir, load, bl)
  }

  /**
   * When every tile's name gets the same answer from both tests, as the names both
   * splitters write do, the length-only test paints the same canvas as the hex test.
   */
  lemma {:induction false} AssembledCanvasTestsAgree(tiles: seq<TileMeta>, vp: Viewport, resourceDir: string,
                                                     load: string -> Option<Decoded>, bl: Blending)
    requires vp.w >= 0 && vp.h >= 0
    requires forall i :: 0 <= i < |tiles| ==> SolidTestsAgree(tiles[i].file)
    ensures AssembledCanvas(tiles, vp, false, resourceDir, load, bl) == AssembledCanvas(tiles, vp, true, resourceDir, load, bl)
    decreases |tiles|
  {
    if tiles != [] {
      var front := tiles[..|tiles| - 1];
      assert forall i :: 0 <= i < |front| ==> front[i] == tiles[i];
      AssembledCanvasTestsAgree(front, vp, resourceDir, load, bl);
      var t := tiles[|tiles| - 1];
      assert SolidName(t.file, false) == SolidName(t.file, true) by {
        assert SolidTestsAgree(t.file);
        if IsPureColorTile(t.file) {
          assert |t.file| == 8;
        }
      }
    }
  }

  /**
   * The names the two splitters write get the same answer from both tests: %08X colour
   * names, qtile_ names and the grid's tile_ names.
   */
  lemma SplitterNamesAgree(c: u32, x: int, y: int, w: int, h: int)
    ensures SolidTestsAgree(Format08X(c))
    ensures SolidTestsAgree(QuadTreeSplitting.TileFileName(x, y, w, h))
    ensures SolidTestsAgree(TileSplitting.GridTileName(x, y))
  {
    QuadTreeSplitting.ColorNameRoundTrip(c);
    QuadTreeSplitting.TileFileNameIsNoColorName(x, y, w, h);
    TileSplitting.GridTileNameLength(x, y);
  }

  /**
   * With a blend that keeps the destination under source alpha 0, as the floating-point
   * blend does (a * 0 + d * 1 and min(255, 0 + d * 1)), the length-only test makes a tile
   * named "tile.png" leave the canvas as it was instead of showing its image.
   */
  lemma ImageNameLeavesCanvas(canvas: seq<byte>, vp: Viewport, t: TileMeta, resourceDir: string,
                              load: string -> Option<Decoded>, bl: Blending)
    requires t.file == "tile.png"
    requires forall s, d :: bl.mix(s, 0, d) == d
    requires forall d :: bl.alpha(0, d) == d
    ensures PaintTile(canvas, vp, t, false, resourceDir, load, bl) == canvas
    ensures !SolidName(t.file, true)
  {
    LengthOnlyTestTakesImageName();
    var c := AssemblerColor(t.file);
    var r := PaintTile(canvas, vp, t, false, resourceDir, load, bl);
    forall k | 0 <= k < |canvas|
      ensures r[k] == canvas[k]
    {
    }
  }

  /** The width and height of what a tile paints: its own for a solid tile, the decoded image's otherwise, nothing when it does not load. */
  function PaintedSize(t: TileMeta, strict: bool, resourceDir: string, load: string -> Option<Decoded>): Option<(int, int)> {
    if SolidName(t.file, strict) then Some((t.w, t.h))
    else match load(resourceDir + "/" + t.file)
      case None => None
      case Some(img) => Some((img.width, img.height))
  }

  /**
   * A tile only ever changes canvas pixels whose world position (vp.x + px, vp.y + py)
   * lies on the tile: within t.w x t.h of its corner for a solid tile, within the decoded
   * image's size for an image tile. Within that area and the canvas every byte is the
   * blend of the source pixel over the byte before.
   */
  lemma PaintTileFootprint(canvas: seq<byte>, vp: Viewport, t: TileMeta, strict: bool, resourceDir: string,
                           load: string -> Option<Decoded>, bl: Blending, k: int)
    requires vp.w >= 0 && vp.h >= 0 && |canvas| == vp.w * vp.h * 4 && 0 <= k < |canvas|
    requires PaintTile(canvas, vp, t, strict, resourceDir, load, bl)[k] != canvas[k]
    ensures var wx, wy, size := vp.x + Col(k, vp.w), vp.y + Row(k, vp.w), PaintedSize(t, strict, resourceDir, load);
      size.Some? && t.x <= wx < t.x + size.value.0 && t.y <= wy < t.y + size.value.1
  {
    var lx, ly := t.x - vp.x, t.y - vp.y;
    if SolidName(t.file, strict) {
      PaintFootprint(canvas, vp.w, vp.h, Solid(AssemblerColor(t.file)), t.w, t.h, lx, ly, bl);
    } else if load(resourceDir + "/" + t.file).Some? {
      var img := load(resourceDir + "/" + t.file).value;
      DecodedCovers(img);
      PaintFootprint(canvas, vp.w, vp.h, Raster(img.data, img.width * 4), img.width, img.height, lx, ly, bl);
    }
  }

  /** The body of the per-tile loop: a tile passing the length-only test is blended in from its name, any other loaded and blitted, skipped when it does not load. */
  method PlaceTile(canvas: array<byte>, vp: Viewport, t: TileMeta, resourceDir: string,
                   load: string -> Option<Decoded>, bl: Blending)
    requires vp.w >= 0 && vp.h >= 0 && canvas.Length == vp.w * vp.h * 4
    modifies canvas
    ensures canvas[..] == PaintTile(old(canvas[..]), vp, t, false, resourceDir, load, bl)
  {
    var lx := t.x - vp.x;
    var ly := t.y - vp.y;
    if LengthOnlyPureColor(t.file) {
      var color := ParseColorFromFileName(t.file);
      BlitSolidColor(canvas, vp.w, vp.h, color, t.w, t.h, lx, ly, bl);
    } else {
      var data := load(resourceDir + "/" + t.file);
      if data.Some? {
        var img := data.value;
        DecodedCovers(img);
        Blit(canvas, vp.w, vp.h, img.data, img.width, img.height, img.width * 4, lx, ly, bl);
      }
    }
  }

  /** The per-tile loop shared by assemble and assembleToHex. */
  method PaintTiles(tiles: seq<TileMeta>, vp: Viewport, resourceDir: string,
                    load: string -> Option<Decoded>, bl: Blending) returns (canvas: array<byte>)
    requires vp.w >= 0 && vp.h >= 0
    ensures fresh(canvas) && canvas[..] == AssembledCanvas(tiles, vp, false, resourceDir, load, bl)
  {
    canvas := new byte[vp.w * vp.h * 4](_ => 0);
    assert canvas[..] == AssembledCanvas([], vp, false, resourceDir, load, bl);
    var i := 0;
    while i < |tiles|
      invariant 0 <= i <= |tiles|
      invariant canvas.Length == vp.w * vp.h * 4
      invariant canvas[..] == AssembledCanvas(tiles[..i], vp, false, resourceDir, load, bl)
    {
      assert tiles[..i + 1][..i] == tiles[..i];
      PlaceTile(canvas, vp, tiles[i], resourceDir, load, bl);
      i := i + 1;
    }
    assert tiles[..i] == tiles;
  }

  /**
   * assembleToHex: "" when no tile overlaps the viewport; otherwise the painted canvas as
   * vp.w * vp.h comma-separated words.
   */
  method AssembleToHex(index: TileIndex, vp: Viewport, resourceDir: string,
                       load: string -> Option<Decoded>, bl: Blending) returns (out: string)
    requires vp.w >= 0 && vp.h >= 0
    ensures QueryTiles(index.tiles, vp) == [] ==> out == ""
    ensures QueryTiles(index.tiles, vp) != [] ==>
      out == HexWords(AssembledCanvas(QueryTiles(index.tiles, vp), vp, false, resourceDir, load, bl), vp.w * vp.h)
    ensures QueryTiles(index.tiles, vp) != [] && vp.w * vp.h > 0 ==> |out| == 11 * (vp.w * vp.h) - 1
  {
    var tiles := index.Query(vp);
    if tiles == [] {
      return "";
    }
    var canvas := PaintTiles(tiles, vp, resourceDir, load, bl);
    out := HexOutput(canvas, vp.w * vp.h);
  }

  /**
   * assemble: false when no tile overlaps the viewport; otherwise whatever the PNG writer
   * answers for the painted vp.w x vp.h canvas.
   */
  method Assemble(index: TileIndex, vp: Viewport, resourceDir: string, outFile: string,
                  load: string -> Option<Decoded>, write: (string, int, int, seq<byte>) -> bool,
                  bl: Blending) returns (ok: bool)
    requires vp.w >= 0 && vp.h >= 0
    ensures ok <==> (QueryTiles(index.tiles, vp) != [] &&
                     write(outFile, vp.w, vp.h, AssembledCanvas(QueryTiles(index.tiles, vp), vp, false, resourceDir, load, bl)))
  {
    var tiles := index.Query(vp);
    if tiles == [] {
      return false;
    }
    var canvas := PaintTiles(tiles, vp, resourceDir, load, bl);
    ok := write(outFile, vp.w, vp.h, canvas[..]);
  }
}
