/**
 * TileSplitter::split: cuts a decoded RGBA image into a fixed grid of tiles of at most
 * tileW x tileH pixels, row by row from the top-left corner, clipping the tiles on the
 * right and bottom edges. Each tile's pixels are copied row by row into a buffer that is
 * handed to the PNG writer, and its metadata is recorded whatever the write's outcome.
 */
module TileSplitting {
  import opened FixedWidth
  import opened Wrappers
  import opened Rects
  import opened Decimal
  import opened TileTypes

  // ---------------------------------------------------------------------------------
  // The grid
  // ---------------------------------------------------------------------------------

  /** "tile_" + to_string(x) + "_" + to_string(y) + ".png" */
  function GridTileName(x: int, y: int): string {
    "tile_" + IntToString(x) + "_" + IntToString(y) + ".png"
  }

  /** A grid tile name is at least twelve characters long, so never an eight-character colour name. */
  lemma GridTileNameLength(x: int, y: int)
    ensures |GridTileName(x, y)| >= 12
  {
  }

  /** The top-left corners of the row at y, from column x to the right edge, x stepping by tileW. */
  function RowCorners(W: int, tileW: int, y: int, x: int): seq<(int, int)>
    requires tileW > 0
    decreases W - x
  {
    if x >= W then [] else [(x, y)] + RowCorners(W, tileW, y, x + tileW)
  }

  /** The corners of the rows from y to the bottom edge, y stepping by tileH. */
  function CornersFrom(W: int, H: int, tileW: int, tileH: int, y: int): seq<(int, int)>
    requires tileW > 0 && tileH > 0
    decreases H - y
  {
    if y >= H then [] else RowCorners(W, tileW, y, 0) + CornersFrom(W, H, tileW, tileH, y + tileH)
  }

  /** The corners of all tiles, in the order of split's two loops. */
  function Corners(W: int, H: int, tileW: int, tileH: int): seq<(int, int)>
    requires tileW > 0 && tileH > 0
  {
    CornersFrom(W, H, tileW, tileH, 0)
  }

  /** The rectangle of the tile at corner c: min(tileW, W - x) wide and min(tileH, H - y) high. */
  function CornerRect(W: int, H: int, tileW: int, tileH: int, c: (int, int)): Rect {
    Rect(c.0, c.1, Min(tileW, W - c.0), Min(tileH, H - c.1))
  }

  /** The metadata split records for the tile at corner c. */
  function GridMeta(W: int, H: int, tileW: int, tileH: int, c: (int, int)): (m: TileMeta)
    ensures MetaRect(m) == CornerRect(W, H, tileW, tileH, c) && m.file == GridTileName(c.0, c.1)
  {
    TileMeta(c.0, c.1, Min(tileW, W - c.0), Min(tileH, H - c.1), GridTileName(c.0, c.1))
  }

  function CornerRects(W: int, H: int, tileW: int, tileH: int, cs: seq<(int, int)>): (rs: seq<Rect>)
    ensures |rs| == |cs| && forall i :: 0 <= i < |cs| ==> rs[i] == CornerRect(W, H, tileW, tileH, cs[i])
  {
    seq(|cs|, i requires 0 <= i < |cs| => CornerRect(W, H, tileW, tileH, cs[i]))
  }

  function GridMetas(W: int, H: int, tileW: int, tileH: int, cs: seq<(int, int)>): (ms: seq<TileMeta>)
    ensures |ms| == |cs| && forall i :: 0 <= i < |cs| ==> ms[i] == GridMeta(W, H, tileW, tileH, cs[i])
  {
    seq(|cs|, i requires 0 <= i < |cs| => GridMeta(W, H, tileW, tileH, cs[i]))
  }

  /** All tiles of a W x H image, in the order split produces them. */
  function Grid(W: int, H: int, tileW: int, tileH: int): seq<TileMeta>
    requires tileW > 0 && tileH > 0
  {
    GridMetas(W, H, tileW, tileH, Corners(W, H, tileW, tileH))
  }

  /** Distributivity step, kept out of the proofs that use it. */
  lemma MulSucc(a: int, b: int)
    ensures (a + 1) * b == a * b + b
  {
  }

  lemma MulComm(a: int, b: int)
    ensures a * b == b * a
  {
  }

  lemma MulZero(a: int)
    ensures a * 0 == 0 * a == 0
  {
  }

  /** Multiplication by a non-negative factor is monotone. */
  lemma MulMonotone(a: int, c: int, b: int)
    requires a <= c && 0 <= b
    ensures a * b <= c * b
  {
  }

  /** ceil(a / b) for b > 0, counted the way the loops count: steps of b from 0 while below a. */
  function CeilDiv(a: int, b: int): nat
    requires b > 0
    decreases a
  {
    if a <= 0 then 0 else 1 + CeilDiv(a - b, b)
  }

  /** The closed form of ceiling division: (a + b - 1) / b for a > 0, and 0 otherwise. */
  lemma {:induction false} CeilDivClosedForm(a: int, b: int)
    requires b > 0
    ensures CeilDiv(a, b) == if a <= 0 then 0 else (a + b - 1) / b
    decreases a
  {
    if a > 0 {
      CeilDivClosedForm(a - b, b);
      if a - b <= 0 {
        DivModUnique(a + b - 1, b, 1, a - 1);
      } else {
        var q, r := (a - 1) / b, (a - 1) % b;
        MulSucc(q, b);
        DivModUnique(a + b - 1, b, q + 1, r);
      }
    }
  }

  /** The row at y from column x has ceil((W - x) / tileW) corners, the j-th at column x + j * tileW. */
  lemma {:induction false} RowCornersShape(W: int, tileW: int, y: int, x: int)
    requires tileW > 0
    ensures |RowCorners(W, tileW, y, x)| == CeilDiv(W - x, tileW)
    ensures forall j :: 0 <= j < |RowCorners(W, tileW, y, x)| ==> RowCorners(W, tileW, y, x)[j] == (x + j * tileW, y)
    decreases W - x
  {
    if x < W {
      var row := RowCorners(W, tileW, y, x);
      var rest := RowCorners(W, tileW, y, x + tileW);
      RowCornersShape(W, tileW, y, x + tileW);
      assert W - x - tileW == W - (x + tileW);
      forall j | 1 <= j < |row|
        ensures row[j] == (x + j * tileW, y)
      {
        assert row[j] == rest[j - 1];
        MulSucc(j - 1, tileW);
      }
    }
  }

  /** i / cols and i % cols one row further down. */
  lemma RowMajorShift(i: int, cols: int)
    requires cols > 0 && i >= cols
    ensures i / cols == (i - cols) / cols + 1 && i % cols == (i - cols) % cols
  {
    var q, r := (i - cols) / cols, (i - cols) % cols;
    MulSucc(q, cols);
    DivModUnique(i, cols, q + 1, r);
  }

  /**
   * The rows from y have ceil((H - y) / tileH) * cols corners, cols = ceil(W / tileW), and
   * corner i is in column (i % cols) * tileW of row y + (i / cols) * tileH.
   */
  lemma {:induction false} CornersFromShape(W: int, H: int, tileW: int, tileH: int, y: int)
    requires tileW > 0 && tileH > 0
    ensures |CornersFrom(W, H, tileW, tileH, y)| == CeilDiv(H - y, tileH) * CeilDiv(W, tileW)
    ensures CeilDiv(W, tileW) > 0 ==> forall i :: 0 <= i < |CornersFrom(W, H, tileW, tileH, y)| ==>
      CornersFrom(W, H, tileW, tileH, y)[i] ==
        ((i % CeilDiv(W, tileW)) * tileW, y + (i / CeilDiv(W, tileW)) * tileH)
    decreases H - y
  {
    if y < H {
      var cols := CeilDiv(W, tileW);
      var row := RowCorners(W, tileW, y, 0);
      var rest := CornersFrom(W, H, tileW, tileH, y + tileH);
      RowCornersShape(W, tileW, y, 0);
      CornersFromShape(W, H, tileW, tileH, y + tileH);
      assert H - y - tileH == H - (y + tileH);
      MulSucc(CeilDiv(H - (y + tileH), tileH), cols);
      if cols > 0 {
        forall i | 0 <= i < |row + rest|
          ensures (row + rest)[i] == ((i % cols) * tileW, y + (i / cols) * tileH)
        {
          if i < cols {
            DivModUnique(i, cols, 0, i);
            assert (row + rest)[i] == row[i];
          } else {
            var k := i - cols;
            assert (row + rest)[i] == rest[k];
            RowMajorShift(i, cols);
            MulSucc(k / cols, tileH);
          }
        }
      }
    }
  }

  /**
   * Row-major order and count: there are ceil(W / tileW) * ceil(H / tileH) tiles, and tile i
   * (the GridMeta of corner i) has its corner at column (i % cols) * tileW of row
   * (i / cols) * tileH, cols = ceil(W / tileW).
   */
  lemma GridRowMajor(W: int, H: int, tileW: int, tileH: int)
    requires tileW > 0 && tileH > 0
    ensures |Grid(W, H, tileW, tileH)| == |Corners(W, H, tileW, tileH)| == CeilDiv(W, tileW) * CeilDiv(H, tileH)
    ensures forall i :: 0 <= i < |Corners(W, H, tileW, tileH)| ==>
      CeilDiv(W, tileW) > 0 &&
      Corners(W, H, tileW, tileH)[i] == ((i % CeilDiv(W, tileW)) * tileW, (i / CeilDiv(W, tileW)) * tileH)
  {
    var cs := Corners(W, H, tileW, tileH);
    var cols := CeilDiv(W, tileW);
    CornersFromShape(W, H, tileW, tileH, 0);
    assert H - 0 == H;
    MulComm(CeilDiv(H, tileH), cols);
    assert |Grid(W, H, tileW, tileH)| == |cs|;
    if cols == 0 {
      MulZero(CeilDiv(H, tileH));
    } else {
      forall i | 0 <= i < |cs|
        ensures cs[i] == ((i % cols) * tileW, (i / cols) * tileH)
      {
        assert cs[i] == ((i % cols) * tileW, 0 + (i / cols) * tileH);
      }
    }
  }

  /** A tile of the grid: inside the image, not empty, and at most tileW x tileH. */
  predicate GridTileFits(W: int, H: int, tileW: int, tileH: int, m: TileMeta) {
    0 <= m.x && 0 <= m.y && 0 < m.w <= tileW && 0 < m.h <= tileH && m.x + m.w <= W && m.y + m.h <= H
  }

  /** The corners of the rows from y lie in [0, W) x [y, H). */
  lemma {:induction false} RowCornersInside(W: int, tileW: int, y: int, x: int)
    requires tileW > 0 && 0 <= x
    ensures forall c :: c in RowCorners(W, tileW, y, x) ==> 0 <= c.0 < W && c.1 == y
    decreases W - x
  {
    if x < W {
      RowCornersInside(W, tileW, y, x + tileW);
    }
  }

  lemma {:induction false} CornersFromInside(W: int, H: int, tileW: int, tileH: int, y: int)
    requires tileW > 0 && tileH > 0 && 0 <= y
    ensures forall c :: c in CornersFrom(W, H, tileW, tileH, y) ==> 0 <= c.0 < W && y <= c.1 < H
    decreases H - y
  {
    if y < H {
      RowCornersInside(W, tileW, y, 0);
      CornersFromInside(W, H, tileW, tileH, y + tileH);
    }
  }

  /** Every tile of the grid lies inside the image, with positive sides of at most tileW and tileH. */
  lemma GridTilesFit(W: int, H: int, tileW: int, tileH: int)
    requires tileW > 0 && tileH > 0
    ensures forall i :: 0 <= i < |Grid(W, H, tileW, tileH)| ==> GridTileFits(W, H, tileW, tileH, Grid(W, H, tileW, tileH)[i])
  {
    var cs := Corners(W, H, tileW, tileH);
    CornersFromInside(W, H, tileW, tileH, 0);
    forall i | 0 <= i < |cs|
      ensures GridTileFits(W, H, tileW, tileH, Grid(W, H, tileW, tileH)[i])
    {
      assert cs[i] in cs;
    }
  }

  lemma CornerRectsAppend(W: int, H: int, tileW: int, tileH: int, a: seq<(int, int)>, b: seq<(int, int)>)
    ensures CornerRects(W, H, tileW, tileH, a + b) == CornerRects(W, H, tileW, tileH, a) + CornerRects(W, H, tileW, tileH, b)
  {
  }

  /** The row at y covers [x, W) x [y, y + min(tileH, H - y)) once, and nothing else. */
  lemma {:induction false} RowCornersCover(W: int, H: int, tileW: int, tileH: int, y: int, x: int, px: int, py: int)
    requires tileW > 0
    ensures CountInside(CornerRects(W, H, tileW, tileH, RowCorners(W, tileW, y, x)), px, py) ==
      if x <= px < W && y <= py < y + Min(tileH, H - y) then 1 else 0
    decreases W - x
  {
    if x < W {
      var rest := RowCorners(W, tileW, y, x + tileW);
      RowCornersCover(W, H, tileW, tileH, y, x + tileW, px, py);
      CornerRectsAppend(W, H, tileW, tileH, [(x, y)], rest);
      CountInsideAppend(CornerRects(W, H, tileW, tileH, [(x, y)]), CornerRects(W, H, tileW, tileH, rest), px, py);
    }
  }

  /** The rows from y cover [0, W) x [y, H) once, and nothing else. */
  lemma {:induction false} CornersFromCover(W: int, H: int, tileW: int, tileH: int, y: int, px: int, py: int)
    requires tileW > 0 && tileH > 0
    ensures CountInside(CornerRects(W, H, tileW, tileH, CornersFrom(W, H, tileW, tileH, y)), px, py) ==
      if 0 <= px < W && y <= py < H then 1 else 0
    decreases H - y
  {
    if y < H {
      var row := RowCorners(W, tileW, y, 0);
      var rest := CornersFrom(W, H, tileW, tileH, y + tileH);
      RowCornersCover(W, H, tileW, tileH, y, 0, px, py);
      CornersFromCover(W, H, tileW, tileH, y + tileH, px, py);
      CornerRectsAppend(W, H, tileW, tileH, row, rest);
      CountInsideAppend(CornerRects(W, H, tileW, tileH, row), CornerRects(W, H, tileW, tileH, rest), px, py);
    }
  }

  /** The tiles partition the image: each pixel of W x H lies in exactly one tile and no other pixel in any. */
  lemma GridPartitionsImage(W: int, H: int, tileW: int, tileH: int, px: int, py: int)
    requires tileW > 0 && tileH > 0
    ensures CountInside(MetaRects(Grid(W, H, tileW, tileH)), px, py) ==
      if Inside(Rect(0, 0, W, H), px, py) then 1 else 0
  {
    var cs := Corners(W, H, tileW, tileH);
    CornersFromCover(W, H, tileW, tileH, 0, px, py);
    assert MetaRects(Grid(W, H, tileW, tileH)) == CornerRects(W, H, tileW, tileH, cs);
  }

  // ---------------------------------------------------------------------------------
  // The tile buffer
  // ---------------------------------------------------------------------------------

  /** The region [x, x+cw) x [y, y+ch) is a non-empty part of a decoded image. */
  predicate RegionInImage(img: Image, x: int, y: int, cw: int, ch: int) {
    Decoded(img) && 0 <= x && 0 <= y && cw > 0 && ch > 0 && x + cw <= img.width && y + ch <= img.height
  }

  /** data + (y+row)*stride + x*4 with stride = W*4: where source row y + row of the region starts. */
  function RowStart(img: Image, x: int, y: int, row: int): int {
    (y + row) * (img.width * 4) + x * 4
  }

  /** The cw*4 bytes of every row of the region lie inside the image data. */
  lemma RowInImage(img: Image, x: int, y: int, cw: int, ch: int, row: int)
    requires RegionInImage(img, x, y, cw, ch) && 0 <= row < ch
    ensures 0 <= RowStart(img, x, y, row) && RowStart(img, x, y, row) + cw * 4 <= |img.data|
  {
    var stride := img.width * 4;
    MulSucc(y + row, stride);
    MulMonotone(y + row + 1, img.height, stride);
    assert img.height * stride == |img.data|;
  }

  /** The first `rows` rows of the region, cw*4 bytes each, one after the other. */
  function RegionRows(img: Image, x: int, y: int, cw: int, ch: int, rows: int): (b: seq<byte>)
    requires RegionInImage(img, x, y, cw, ch) && 0 <= rows <= ch
    ensures |b| == rows * (cw * 4)
    decreases rows
  {
    if rows == 0 then []
    else
      RowInImage(img, x, y, cw, ch, rows - 1);
      var s := RowStart(img, x, y, rows - 1);
      RegionRows(img, x, y, cw, ch, rows - 1) + img.data[s..s + cw * 4]
  }

  /**
   * Byte k of row r of the buffer (at r*cw*4 + k) is byte x*4 + k of source row y + r:
   * the buffer holds exactly the region's pixels, row by row.
   */
  lemma {:induction false} RegionRowsByte(img: Image, x: int, y: int, cw: int, ch: int, rows: int, r: int, k: int)
    requires RegionInImage(img, x, y, cw, ch) && 0 <= rows <= ch && 0 <= r < rows && 0 <= k < cw * 4
    ensures 0 <= RowStart(img, x, y, r) + k < |img.data|
    ensures 0 <= r * (cw * 4) + k < rows * (cw * 4)
    ensures RegionRows(img, x, y, cw, ch, rows)[r * (cw * 4) + k] == img.data[RowStart(img, x, y, r) + k]
    decreases rows
  {
    var n := cw * 4;
    RowInImage(img, x, y, cw, ch, rows - 1);
    RowInImage(img, x, y, cw, ch, r);
    MulSucc(r, n);
    MulMonotone(r + 1, rows, n);
    MulSucc(rows - 1, n);
    var prev := RegionRows(img, x, y, cw, ch, rows - 1);
    var s := RowStart(img, x, y, rows - 1);
    assert RegionRows(img, x, y, cw, ch, rows) == prev + img.data[s..s + n];
    if r < rows - 1 {
      RegionRowsByte(img, x, y, cw, ch, rows - 1, r, k);
      MulMonotone(r + 1, rows - 1, n);
    }
  }

  /** The buffer of a tile; empty for a metadata record that is not a region of the image. */
  function TileBytes(img: Image, m: TileMeta): seq<byte> {
    if RegionInImage(img, m.x, m.y, m.w, m.h) then RegionRows(img, m.x, m.y, m.w, m.h, m.h) else []
  }

  /** memcpy(buf + dst, src + from, n) */
  method CopyBytes(buf: array<byte>, dst: int, src: seq<byte>, from: int, n: int)
    requires 0 <= dst && 0 <= from && 0 <= n && dst + n <= buf.Length && from + n <= |src|
    modifies buf
    ensures buf[..dst + n] == old(buf[..dst]) + src[from..from + n]
    ensures buf[dst + n..] == old(buf[dst + n..])
  {
    var i := 0;
    while i < n
      invariant 0 <= i <= n
      invariant buf[..dst] == old(buf[..dst])
      invariant buf[dst..dst + i] == src[from..from + i]
      invariant buf[dst + n..] == old(buf[dst + n..])
    {
      buf[dst + i] := src[from + i];
      i := i + 1;
    }
    assert buf[..dst + n] == buf[..dst] + buf[dst..dst + n];
  }

  /** One more row of the region: the next source row appended. */
  lemma RegionRowsNext(img: Image, x: int, y: int, cw: int, ch: int, row: int)
    requires RegionInImage(img, x, y, cw, ch) && 0 <= row < ch
    ensures 0 <= RowStart(img, x, y, row) && RowStart(img, x, y, row) + cw * 4 <= |img.data|
    ensures RegionRows(img, x, y, cw, ch, row + 1) ==
      RegionRows(img, x, y, cw, ch, row) + img.data[RowStart(img, x, y, row)..RowStart(img, x, y, row) + cw * 4]
  {
    RowInImage(img, x, y, cw, ch, row);
  }

  /** A cw x ch RGBA buffer holds ch rows of cw*4 bytes. */
  lemma BufferSize(cw: int, ch: int)
    requires cw > 0 && ch > 0
    ensures cw * ch * 4 == (ch - 0) * (cw * 4) + 0 >= 0
  {
  }

  /** The copy of row `row` of the region to offset `at` of the buffer, right after the rows before it. */
  method CopyRow(buf: array<byte>, img: Image, x: int, y: int, cw: int, ch: int, row: int, at: int)
    requires RegionInImage(img, x, y, cw, ch) && 0 <= row < ch
    requires 0 <= at && at + cw * 4 <= buf.Length && buf[..at] == RegionRows(img, x, y, cw, ch, row)
    modifies buf
    ensures buf[..at + cw * 4] == RegionRows(img, x, y, cw, ch, row + 1)
  {
    RegionRowsNext(img, x, y, cw, ch, row);
    var from := RowStart(img, x, y, row);
    ghost var copied := buf[..at];
    CopyBytes(buf, at, img.data, from, cw * 4);
    assert buf[..at + cw * 4] == copied + img.data[from..from + cw * 4];
  }

  /** The row copy of split: a cw x ch RGBA buffer holding the region's rows one after the other. */
  method CopyRegion(img: Image, x: int, y: int, cw: int, ch: int) returns (buf: array<byte>)
    requires RegionInImage(img, x, y, cw, ch)
    ensures fresh(buf) && buf[..] == RegionRows(img, x, y, cw, ch, ch)
  {
    var rowBytes := cw * 4;
    BufferSize(cw, ch);
    buf := new byte[cw * ch * 4];
    var row, at := 0, 0;
    while row < ch
      invariant 0 <= row <= ch && 0 <= at
      invariant at + (ch - row) * rowBytes == buf.Length
      invariant buf[..at] == RegionRows(img, x, y, cw, ch, row)
    {
      MulSucc(ch - row - 1, rowBytes);
      CopyRow(buf, img, x, y, cw, ch, row, at);
      row, at := row + 1, at + rowBytes;
    }
    MulZero(rowBytes);
    assert buf[..] == buf[..at];
  }

  // ---------------------------------------------------------------------------------
  // split
  // ---------------------------------------------------------------------------------

  /** A call stbi_write_png(path, width, height, 4, data, width * 4). */
  datatype PngWrite = PngWrite(path: string, width: int, height: int, data: seq<byte>)

  /** The write split issues for the tile m: its file in outDir and the tile's pixels. */
  function TileWrite(img: Image, outDir: string, m: TileMeta): PngWrite {
    PngWrite(outDir + "/" + m.file, m.w, m.h, TileBytes(img, m))
  }

  /** runtime_error("Failed to load PNG: " + inputPath + ...), without stb's failure reason. */
  function LoadError(inputPath: string): string {
    "Failed to load PNG: " + inputPath
  }

  /**
   * One pass of the inner loop of split at (x, y): the clipped size, the name, the row copy
   * into a fresh buffer, the write (whose outcome only decides a warning) and the metadata.
   */
  method SplitOne(img: Image, outDir: string, tileW: int, tileH: int, x: int, y: int, written: string -> bool)
    returns (m: TileMeta, w: PngWrite)
    requires Decoded(img) && tileW > 0 && tileH > 0 && 0 <= x < img.width && 0 <= y < img.height
    ensures m == GridMeta(img.width, img.height, tileW, tileH, (x, y)) && w == TileWrite(img, outDir, m)
  {
    var cw := Min(tileW, img.width - x);
    var ch := Min(tileH, img.height - y);
    var tileName := "tile_" + IntToString(x) + "_" + IntToString(y) + ".png";
    var outPath := outDir + "/" + tileName;
    var buf := CopyRegion(img, x, y, cw, ch);
    var ok := written(outPath);
    m := TileMeta(x, y, cw, ch, tileName);
    w := PngWrite(outPath, cw, ch, buf[..]);
  }

  /** writes[i] is the write of tiles[i], for every tile. */
  predicate WritesOf(img: Image, outDir: string, tiles: seq<TileMeta>, writes: seq<PngWrite>) {
    |writes| == |tiles| && forall i :: 0 <= i < |writes| ==> writes[i] == TileWrite(img, outDir, tiles[i])
  }

  lemma WritesAppend(img: Image, outDir: string, tiles: seq<TileMeta>, writes: seq<PngWrite>,
                     tiles': seq<TileMeta>, writes': seq<PngWrite>)
    requires WritesOf(img, outDir, tiles, writes)
    requires |writes'| == |tiles'| && forall i :: 0 <= i < |writes'| ==> writes'[i] == TileWrite(img, outDir, tiles'[i])
    ensures WritesOf(img, outDir, tiles + tiles', writes + writes')
  {
  }

  lemma GridMetasAppend(W: int, H: int, tileW: int, tileH: int, a: seq<(int, int)>, b: seq<(int, int)>)
    ensures GridMetas(W, H, tileW, tileH, a + b) == GridMetas(W, H, tileW, tileH, a) + GridMetas(W, H, tileW, tileH, b)
  {
  }

  /** The row from x is the corner at x followed by the row from x + tileW. */
  lemma RowCornersStep(W: int, tileW: int, y: int, x: int, done: seq<(int, int)>)
    requires tileW > 0 && x < W
    ensures done + RowCorners(W, tileW, y, x) == (done + [(x, y)]) + RowCorners(W, tileW, y, x + tileW)
  {
  }

  /** The rows from y are the row at y followed by the rows from y + tileH. */
  lemma CornersFromStep(W: int, H: int, tileW: int, tileH: int, y: int, done: seq<(int, int)>)
    requires tileW > 0 && tileH > 0 && y < H
    ensures done + CornersFrom(W, H, tileW, tileH, y) ==
      (done + RowCorners(W, tileW, y, 0)) + CornersFrom(W, H, tileW, tileH, y + tileH)
  {
  }

  /** The inner loop of split: the tiles of the row at y, left to right, and their writes. */
  method SplitRow(img: Image, outDir: string, tileW: int, tileH: int, y: int, written: string -> bool)
    returns (tiles: seq<TileMeta>, writes: seq<PngWrite>)
    requires Decoded(img) && tileW > 0 && tileH > 0 && 0 <= y < img.height
    ensures tiles == GridMetas(img.width, img.height, tileW, tileH, RowCorners(img.width, tileW, y, 0))
    ensures |writes| == |tiles| && forall i :: 0 <= i < |writes| ==> writes[i] == TileWrite(img, outDir, tiles[i])
  {
    var W, H := img.width, img.height;
    tiles, writes := [], [];
    ghost var done: seq<(int, int)> := [];
    var x := 0;
    while x < W
      invariant 0 <= x
      invariant done + RowCorners(W, tileW, y, x) == RowCorners(W, tileW, y, 0)
      invariant tiles == GridMetas(W, H, tileW, tileH, done)
      invariant WritesOf(img, outDir, tiles, writes)
    {
      var m, w := SplitOne(img, outDir, tileW, tileH, x, y, written);
      RowCornersStep(W, tileW, y, x, done);
      GridMetasAppend(W, H, tileW, tileH, done, [(x, y)]);
      WritesAppend(img, outDir, tiles, writes, [m], [w]);
      tiles := tiles + [m];
      writes := writes + [w];
      done := done + [(x, y)];
      x := x + tileW;
    }
    assert done == RowCorners(W, tileW, y, 0);
  }

  /**
   * TileSplitter::split on the image stbi_load produced (None when it failed). The writes
   * issued are returned; written(path) is whether the PNG writer succeeded, which only
   * decides whether a warning is printed, so the metadata of every tile is returned.
   */
  method Split(loaded: Option<Image>, inputPath: string, outDir: string, tileW: int, tileH: int,
               written: string -> bool)
    returns (metas: Result<seq<TileMeta>, string>, writes: seq<PngWrite>)
    requires tileW > 0 && tileH > 0
    requires loaded.Some? ==> Decoded(loaded.value)
    ensures loaded.None? ==> metas == Err(LoadError(inputPath)) && writes == []
    ensures loaded.Some? ==>
      metas == Ok(Grid(loaded.value.width, loaded.value.height, tileW, tileH)) &&
      |writes| == |metas.value| &&
      forall i :: 0 <= i < |writes| ==> writes[i] == TileWrite(loaded.value, outDir, metas.value[i])
  {
    if loaded.None? {
      return Err(LoadError(inputPath)), [];
    }
    var img := loaded.value;
    var W, H := img.width, img.height;
    var tiles: seq<TileMeta> := [];
    ghost var done: seq<(int, int)> := [];
    writes := [];
    var y := 0;
    while y < H
      invariant 0 <= y
      invariant done + CornersFrom(W, H, tileW, tileH, y) == Corners(W, H, tileW, tileH)
      invariant tiles == GridMetas(W, H, tileW, tileH, done)
      invariant WritesOf(img, outDir, tiles, writes)
    {
      var rowTiles, rowWrites := SplitRow(img, outDir, tileW, tileH, y, written);
      ghost var row := RowCorners(W, tileW, y, 0);
      CornersFromStep(W, H, tileW, tileH, y, done);
      GridMetasAppend(W, H, tileW, tileH, done, row);
      WritesAppend(img, outDir, tiles, writes, rowTiles, rowWrites);
      tiles := tiles + rowTiles;
      writes := writes + rowWrites;
      done := done + row;
      y := y + tileH;
    }
    assert CornersFrom(W, H, tileW, tileH, y) == [];
    assert done == Corners(W, H, tileW, tileH);
    metas := Ok(tiles);
  }

  /** Row r of the buffer of grid tile i is source row y + r from column x on, four bytes per pixel. */
  lemma GridTileBytes(img: Image, tileW: int, tileH: int, i: int, r: int, k: int)
    requires tileW > 0 && tileH > 0 && Decoded(img)
    requires 0 <= i < |Grid(img.width, img.height, tileW, tileH)|
    requires var m := Grid(img.width, img.height, tileW, tileH)[i]; 0 <= r < m.h && 0 <= k < m.w * 4
    ensures var m := Grid(img.width, img.height, tileW, tileH)[i];
      0 <= r * (m.w * 4) + k < |TileBytes(img, m)| &&
      0 <= RowStart(img, m.x, m.y, r) + k < |img.data| &&
      TileBytes(img, m)[r * (m.w * 4) + k] == img.data[RowStart(img, m.x, m.y, r) + k]
  {
    var m := Grid(img.width, img.height, tileW, tileH)[i];
    GridTilesFit(img.width, img.height, tileW, tileH);
    RegionRowsByte(img, m.x, m.y, m.w, m.h, m.h, r, k);
  }
}
