/**
 * QuadTreeSplitter: splits a decoded image into a quad tree of QuadTreeNodes and turns
 * the leaves into tiles. A node stops splitting when its region (clipped to the image)
 * is uniform, when the maximum depth is reached or when a clipped side is at most the
 * minimum tile size. A uniform leaf becomes a tile named by its colour with no file
 * written; any other leaf becomes a PNG file. The image is a decoded value and the
 * outcome of each PNG write is an oracle on the file's path.
 */
module QuadTreeSplitting {
  import opened FixedWidth
  import opened Wrappers
  import opened Rects
  import opened Colors
  import opened HexText
  import opened Decimal
  import opened TileTypes
  import opened QuadTreeNodes

  /** QuadTreeSplitter::Config. */
  datatype Config = Config(maxDepth: int, minTileSize: int, colorTolerance: int)

  /** The defaults: depth 8, minimum tile size 4, exact colour comparison. */
  const DefaultConfig := Config(8, 4, 0)

  /** std::min(width, imageWidth - x): the width of r that lies inside the image. */
  function ClippedWidth(img: Image, r: Rect): int {
    Min(r.w, img.width - r.x)
  }

  /** std::min(height, imageHeight - y): the height of r that lies inside the image. */
  function ClippedHeight(img: Image, r: Rect): int {
    Min(r.h, img.height - r.y)
  }

  /** The origin of r is a pixel of the image. */
  predicate OriginInImage(img: Image, r: Rect) {
    0 <= r.x < img.width && 0 <= r.y < img.height
  }

  /** A region whose origin is a pixel of the image can be read up to its clipped sides. */
  lemma ClippedReadable(img: Image, r: Rect)
    requires Decoded(img) && OriginInImage(img, r)
    ensures RegionReadable(img.data, img.width, r.x, r.y, ClippedWidth(img, r), ClippedHeight(img, r))
  {
    forall py, px | r.y <= py < r.y + ClippedHeight(img, r) && r.x <= px < r.x + ClippedWidth(img, r)
      ensures PixelReadable(img.data, img.width, px, py)
    {
      ValidCoordinateReadable(img.data, img.width, img.height, px, py);
    }
  }

  /** The colour of the region's top-left pixel. */
  function TopLeftColor(img: Image, r: Rect): u32
    requires Decoded(img) && OriginInImage(img, r)
  {
    ValidCoordinateReadable(img.data, img.width, img.height, r.x, r.y);
    GetPixelColor(img.data, img.width, r.x, r.y)
  }

  /** isUniformColor's answer for the clipped region of r. */
  predicate ClippedUniform(img: Image, tolerance: int, r: Rect)
    requires Decoded(img) && OriginInImage(img, r)
  {
    ClippedReadable(img, r);
    ClippedWidth(img, r) > 0 && ClippedHeight(img, r) > 0 &&
    RegionUniform(tolerance, img.data, img.width, r.x, r.y, ClippedWidth(img, r), ClippedHeight(img, r))
  }

  /** The three stop rules of subdivideNode: a uniform region, the maximum depth, the minimum size. */
  predicate Stops(img: Image, cfg: Config, tolerance: int, depth: int, r: Rect)
    requires Decoded(img) && OriginInImage(img, r)
  {
    ClippedUniform(img, tolerance, r) || depth >= cfg.maxDepth ||
    ClippedWidth(img, r) <= cfg.minTileSize || ClippedHeight(img, r) <= cfg.minTileSize
  }

  /**
   * The tree subdivideNode grows from a fresh leaf at the given depth, with the colour
   * checker's tolerance. A node outside the image is left alone; a stopped node stays a
   * leaf and records its colour when uniform; otherwise, when both clipped sides exceed
   * 1, it is subdivided and each child is split one level deeper.
   */
  function Split(t: QNode, img: Image, cfg: Config, tolerance: int, depth: int): (r: QNode)
    requires Decoded(img) && t == NewLeaf(t.rect) && t.rect.x >= 0 && t.rect.y >= 0
    ensures r.rect == t.rect
    decreases cfg.maxDepth - depth
  {
    var rc := t.rect;
    if !OriginInImage(img, rc) then t
    else if Stops(img, cfg, tolerance, depth, rc) then
      if ClippedUniform(img, tolerance, rc) then
        t.(uniformColor := TopLeftColor(img, rc), hasUniformColor := true)
      else t
    else if ClippedWidth(img, rc) > 1 && ClippedHeight(img, rc) > 1 then
      var s := Subdivided(t);
      s.(kids := [Split(s.kids[0], img, cfg, tolerance, depth + 1), Split(s.kids[1], img, cfg, tolerance, depth + 1),
                  Split(s.kids[2], img, cfg, tolerance, depth + 1), Split(s.kids[3], img, cfg, tolerance, depth + 1)])
    else t
  }

  /** Four children, each a fresh leaf with a non-negative origin. */
  predicate FourSplittable(img: Image, kids: seq<QNode>) {
    |kids| == 4 && Splittable(img, kids[0]) && Splittable(img, kids[1]) && Splittable(img, kids[2]) && Splittable(img, kids[3])
  }

  lemma FourSplittableAt(img: Image, kids: seq<QNode>, i: int)
    requires FourSplittable(img, kids) && 0 <= i < 4
    ensures Splittable(img, kids[i])
  {
  }

  /** Split applied to each of four children, one level deeper. */
  function SplitFour(kids: seq<QNode>, img: Image, cfg: Config, tolerance: int, depth: int): (r: seq<QNode>)
    requires FourSplittable(img, kids)
    ensures |r| == 4
  {
    [Split(kids[0], img, cfg, tolerance, depth), Split(kids[1], img, cfg, tolerance, depth),
     Split(kids[2], img, cfg, tolerance, depth), Split(kids[3], img, cfg, tolerance, depth)]
  }

  /** The precondition of Split: a fresh leaf with a non-negative origin. */
  predicate Splittable(img: Image, t: QNode) {
    Decoded(img) && t == NewLeaf(t.rect) && t.rect.x >= 0 && t.rect.y >= 0
  }

  /** subdivideNode subdivides the node: its origin is in the image, no stop rule holds and both clipped sides exceed 1. */
  predicate Splits(img: Image, cfg: Config, tolerance: int, depth: int, r: Rect)
    requires Decoded(img)
  {
    OriginInImage(img, r) && !Stops(img, cfg, tolerance, depth, r) &&
    ClippedWidth(img, r) > 1 && ClippedHeight(img, r) > 1
  }

  /**
   * A node that splits is below the maximum depth, becomes internal without a uniform
   * colour, and its children are the quadrants of its rectangle, each a fresh leaf split
   * one level deeper.
   */
  lemma SplitInternal(t: QNode, img: Image, cfg: Config, tolerance: int, depth: int)
    requires Splittable(img, t) && Splits(img, cfg, tolerance, depth, t.rect)
    ensures var r, s := Split(t, img, cfg, tolerance, depth), Subdivided(t);
      depth < cfg.maxDepth && CanSplit(t) && !r.isLeaf && !r.hasUniformColor && r.uniformColor == 0 &&
      |s.kids| == 4 && ChildRects(s) == Quadrants(t.rect) && FourSplittable(img, s.kids) &&
      r == s.(kids := SplitFour(s.kids, img, cfg, tolerance, depth + 1))
  {
    SubdividedLeaf(t);
  }

  /**
   * A node that does not split stays a leaf; it is flagged uniform, with its top-left
   * colour, exactly when its origin is in the image and its clipped region is uniform.
   */
  lemma SplitLeaf(t: QNode, img: Image, cfg: Config, tolerance: int, depth: int)
    requires Splittable(img, t) && !Splits(img, cfg, tolerance, depth, t.rect)
    ensures var r := Split(t, img, cfg, tolerance, depth);
      r.isLeaf && r.kids == [] &&
      (r.hasUniformColor <==> OriginInImage(img, t.rect) && ClippedUniform(img, tolerance, t.rect)) &&
      r.uniformColor == if r.hasUniformColor then TopLeftColor(img, t.rect) else 0
  {
  }

  /** Whether Split leaves children is decided by Splits alone. */
  lemma SplitHasChildren(t: QNode, img: Image, cfg: Config, tolerance: int, depth: int)
    requires Splittable(img, t)
    ensures Split(t, img, cfg, tolerance, depth).kids != [] <==> Splits(img, cfg, tolerance, depth, t.rect)
  {
    if Splits(img, cfg, tolerance, depth, t.rect) {
      SplitInternal(t, img, cfg, tolerance, depth);
    } else {
      SplitLeaf(t, img, cfg, tolerance, depth);
    }
  }

  /** A split tree is one subdivide built: every internal node's children are its quadrants. */
  lemma {:induction false} SplitTiled(t: QNode, img: Image, cfg: Config, tolerance: int, depth: int)
    requires Splittable(img, t)
    ensures Tiled(Split(t, img, cfg, tolerance, depth))
    decreases cfg.maxDepth - depth
  {
    var r := Split(t, img, cfg, tolerance, depth);
    if Splits(img, cfg, tolerance, depth, t.rect) {
      SplitInternal(t, img, cfg, tolerance, depth);
      var s := Subdivided(t);
      SplitTiled(s.kids[0], img, cfg, tolerance, depth + 1);
      SplitTiled(s.kids[1], img, cfg, tolerance, depth + 1);
      SplitTiled(s.kids[2], img, cfg, tolerance, depth + 1);
      SplitTiled(s.kids[3], img, cfg, tolerance, depth + 1);
      assert ChildRects(r) == ChildRects(s);
      TiledOfFour(r);
    } else {
      SplitLeaf(t, img, cfg, tolerance, depth);
    }
  }

  /** Children are visited one level deeper and only below maxDepth, so no leaf lies deeper than maxDepth. */
  lemma {:induction false} SplitDepth(t: QNode, img: Image, cfg: Config, tolerance: int, depth: int)
    requires Splittable(img, t)
    ensures DepthAtMost(Split(t, img, cfg, tolerance, depth), if depth >= cfg.maxDepth then 0 else cfg.maxDepth - depth)
    decreases cfg.maxDepth - depth
  {
    var r := Split(t, img, cfg, tolerance, depth);
    if Splits(img, cfg, tolerance, depth, t.rect) {
      SplitInternal(t, img, cfg, tolerance, depth);
      var s := Subdivided(t);
      SplitDepth(s.kids[0], img, cfg, tolerance, depth + 1);
      SplitDepth(s.kids[1], img, cfg, tolerance, depth + 1);
      SplitDepth(s.kids[2], img, cfg, tolerance, depth + 1);
      SplitDepth(s.kids[3], img, cfg, tolerance, depth + 1);
      DepthOfFour(r, cfg.maxDepth - depth);
    } else {
      SplitLeaf(t, img, cfg, tolerance, depth);
    }
  }

  /** Every node of a split tree has a non-negative origin. */
  lemma {:induction false} SplitPlaced(t: QNode, img: Image, cfg: Config, tolerance: int, depth: int)
    requires Splittable(img, t)
    ensures Placed(Split(t, img, cfg, tolerance, depth))
    decreases cfg.maxDepth - depth
  {
    var r := Split(t, img, cfg, tolerance, depth);
    if Splits(img, cfg, tolerance, depth, t.rect) {
      SplitInternal(t, img, cfg, tolerance, depth);
      var s := Subdivided(t);
      SplitPlaced(s.kids[0], img, cfg, tolerance, depth + 1);
      SplitPlaced(s.kids[1], img, cfg, tolerance, depth + 1);
      SplitPlaced(s.kids[2], img, cfg, tolerance, depth + 1);
      SplitPlaced(s.kids[3], img, cfg, tolerance, depth + 1);
      PlacedOfFour(r);
    } else {
      SplitLeaf(t, img, cfg, tolerance, depth);
    }
  }

  /** Every node flagged uniform is a leaf whose clipped region is uniform, and carries its top-left colour. */
  predicate UniformSound(img: Image, tolerance: int, t: QNode)
    requires Decoded(img)
    decreases t
  {
    (t.hasUniformColor ==>
      t.isLeaf && OriginInImage(img, t.rect) && ClippedUniform(img, tolerance, t.rect) &&
      t.uniformColor == TopLeftColor(img, t.rect)) &&
    forall i :: 0 <= i < |t.kids| ==> UniformSound(img, tolerance, t.kids[i])
  }

  /** A node without the uniform flag whose four children are sound is sound. */
  lemma UniformSoundOfFour(img: Image, tolerance: int, t: QNode)
    requires Decoded(img) && !t.hasUniformColor && |t.kids| == 4
    requires UniformSound(img, tolerance, t.kids[0]) && UniformSound(img, tolerance, t.kids[1])
    requires UniformSound(img, tolerance, t.kids[2]) && UniformSound(img, tolerance, t.kids[3])
    ensures UniformSound(img, tolerance, t)
  {
  }

  /** The uniform flags Split sets are sound. */
  lemma {:induction false} SplitUniformSound(t: QNode, img: Image, cfg: Config, tolerance: int, depth: int)
    requires Splittable(img, t)
    ensures UniformSound(img, tolerance, Split(t, img, cfg, tolerance, depth))
    decreases cfg.maxDepth - depth
  {
    var r := Split(t, img, cfg, tolerance, depth);
    if Splits(img, cfg, tolerance, depth, t.rect) {
      SplitInternal(t, img, cfg, tolerance, depth);
      var s := Subdivided(t);
      SplitUniformSound(s.kids[0], img, cfg, tolerance, depth + 1);
      SplitUniformSound(s.kids[1], img, cfg, tolerance, depth + 1);
      SplitUniformSound(s.kids[2], img, cfg, tolerance, depth + 1);
      SplitUniformSound(s.kids[3], img, cfg, tolerance, depth + 1);
      UniformSoundOfFour(img, tolerance, r);
    } else {
      SplitLeaf(t, img, cfg, tolerance, depth);
    }
  }

  /** The root buildQuadTree starts from: a fresh leaf over the whole image. */
  function Root(img: Image): QNode {
    NewLeaf(Rect(0, 0, img.width, img.height))
  }

  /** The leaves of the tree split from the root partition the image: each pixel lies in exactly one leaf. */
  lemma LeavesPartitionImage(img: Image, cfg: Config, tolerance: int, px: int, py: int)
    requires Decoded(img)
    ensures CountInside(LeafRects(Split(Root(img), img, cfg, tolerance, 0)), px, py) ==
      if 0 <= px < img.width && 0 <= py < img.height then 1 else 0
  {
    SplitTiled(Root(img), img, cfg, tolerance, 0);
    LeavesTile(Split(Root(img), img, cfg, tolerance, 0), px, py);
  }

  // ---------------------------------------------------------------------------------
  // File names
  // ---------------------------------------------------------------------------------

  /** generateTileFileName: qtile_<x>_<y>_<width>x<height>.png */
  function TileFileName(x: int, y: int, width: int, height: int): string {
    "qtile_" + IntToString(x) + "_" + IntToString(y) + "_" + IntToString(width) + "x" + IntToString(height) + ".png"
  }

  /** isPureColorTile: exactly eight characters, each a hexadecimal digit in either case. */
  predicate IsPureColorName(name: string) {
    |name| == 8 && forall i :: 0 <= i < 8 ==> IsHexChar(name[i])
  }

  /** parseColorFromFileName: 0 for a name that is not a colour name, else its hexadecimal value. */
  function ParsedColor(name: string): u32 {
    if IsPureColorName(name) then HexFold(name) else 0
  }

  /** The %08X name of a colour is a colour name, and parses back to the colour. */
  lemma ColorNameRoundTrip(c: u32)
    ensures IsPureColorName(Format08X(c)) && ParsedColor(Format08X(c)) == c
  {
    ParseFormat08X(c);
  }

  /** A generated tile file name is at least 17 characters long, so it is never a colour name. */
  lemma TileFileNameIsNoColorName(x: int, y: int, width: int, height: int)
    ensures |TileFileName(x, y, width, height)| >= 17 && !IsPureColorName(TileFileName(x, y, width, height))
  {
  }

  // ---------------------------------------------------------------------------------
  // Leaf collection
  // ---------------------------------------------------------------------------------

  /**
   * The tile collectLeafTiles records for one leaf: none when its origin is outside the
   * image or its clipped region is empty; for a uniform leaf a tile named by its colour;
   * for any other leaf a tile named by its unclipped rectangle, recorded only when the
   * write of outDir/name succeeds. The recorded sides are the clipped ones.
   */
  function LeafTile(t: QNode, img: Image, outDir: string, written: string -> bool): seq<TileMeta> {
    var r := t.rect;
    if r.x >= img.width || r.y >= img.height then []
    else
      var aw, ah := ClippedWidth(img, r), ClippedHeight(img, r);
      if aw <= 0 || ah <= 0 then []
      else if t.hasUniformColor then [TileMeta(r.x, r.y, aw, ah, Format08X(t.uniformColor))]
      else
        var name := TileFileName(r.x, r.y, r.w, r.h);
        if written(outDir + "/" + name) then [TileMeta(r.x, r.y, aw, ah, name)] else []
  }

  /** collectLeafTiles: the leaves' tiles, depth first, children in order. */
  function Collected(t: QNode, img: Image, outDir: string, written: string -> bool): seq<TileMeta>
    decreases t, 1
  {
    if t.isLeaf then LeafTile(t, img, outDir, written) else CollectedUpTo(t, |t.kids|, img, outDir, written)
  }

  /** The tiles of the first n children. */
  function CollectedUpTo(t: QNode, n: nat, img: Image, outDir: string, written: string -> bool): seq<TileMeta>
    requires n <= |t.kids|
    decreases t, 0, n
  {
    if n == 0 then [] else CollectedUpTo(t, n - 1, img, outDir, written) + Collected(t.kids[n - 1], img, outDir, written)
  }

  /** The whole image as a rectangle. */
  function ImageRect(img: Image): Rect {
    Rect(0, 0, img.width, img.height)
  }

  /**
   * When every write succeeds, the tiles of a subdivided tree inside the image are its
   * leaves, one tile per leaf, in order.
   */
  lemma {:induction false} CollectedAreLeaves(t: QNode, img: Image, outDir: string, written: string -> bool)
    requires Tiled(t) && Contains(ImageRect(img), t.rect) && NonEmpty(t.rect)
    requires forall p :: written(p)
    ensures MetaRects(Collected(t, img, outDir, written)) == LeafRects(t)
    decreases t
  {
    if !t.isLeaf {
      var k := t.kids;
      forall i | 0 <= i < 4
        ensures MetaRects(Collected(k[i], img, outDir, written)) == LeafRects(k[i])
      {
        assert k[i].rect == Quadrants(t.rect)[i];
        CollectedAreLeaves(k[i], img, outDir, written);
      }
      var c0, c1, c2 := Collected(k[0], img, outDir, written), Collected(k[1], img, outDir, written), Collected(k[2], img, outDir, written);
      var c3 := Collected(k[3], img, outDir, written);
      assert CollectedUpTo(t, 1, img, outDir, written) == c0;
      assert CollectedUpTo(t, 2, img, outDir, written) == c0 + c1;
      assert CollectedUpTo(t, 3, img, outDir, written) == c0 + c1 + c2;
      assert Collected(t, img, outDir, written) == c0 + c1 + c2 + c3;
      MetaRectsAppend(c0 + c1 + c2, c3);
      MetaRectsAppend(c0 + c1, c2);
      MetaRectsAppend(c0, c1);
      LeafRectsOfFour(t);
    }
  }

  /**
   * When every write succeeds, the tiles splitQuadTree records partition the image: each
   * pixel lies in exactly one tile.
   */
  lemma TilesPartitionImage(img: Image, cfg: Config, tolerance: int, outDir: string, written: string -> bool, px: int, py: int)
    requires Decoded(img)
    requires forall p :: written(p)
    ensures CountInside(MetaRects(Collected(Split(Root(img), img, cfg, tolerance, 0), img, outDir, written)), px, py) ==
      if 0 <= px < img.width && 0 <= py < img.height then 1 else 0
  {
    var r := Split(Root(img), img, cfg, tolerance, 0);
    SplitTiled(Root(img), img, cfg, tolerance, 0);
    CollectedAreLeaves(r, img, outDir, written);
    LeavesPartitionImage(img, cfg, tolerance, px, py);
  }

  /** A tile whose rectangle lies in the image, has positive sides, is uniform and has the colour its name spells. */
  predicate ShowsItsColor(img: Image, tolerance: int, m: TileMeta)
    requires Decoded(img)
  {
    0 <= m.x && 0 <= m.y && m.w > 0 && m.h > 0 && m.x + m.w <= img.width && m.y + m.h <= img.height &&
    ClippedUniform(img, tolerance, MetaRect(m)) && TopLeftColor(img, MetaRect(m)) == ParsedColor(m.file)
  }

  /**
   * Every tile a tree with sound uniform flags yields lies in the image with positive
   * sides, and every tile named by a colour covers a uniform region of that colour.
   */
  lemma {:induction false} CollectedTilesSound(t: QNode, img: Image, tolerance: int, outDir: string, written: string -> bool)
    requires Decoded(img) && UniformSound(img, tolerance, t) && Placed(t)
    ensures forall m :: m in Collected(t, img, outDir, written) ==>
      Contains(ImageRect(img), MetaRect(m)) && NonEmpty(MetaRect(m)) &&
      (IsPureColorName(m.file) ==> ShowsItsColor(img, tolerance, m))
    decreases t, 1
  {
    if t.isLeaf {
      var r := t.rect;
      if OriginInImage(img, r) && ClippedWidth(img, r) > 0 && ClippedHeight(img, r) > 0 {
        if t.hasUniformColor {
          ColorNameRoundTrip(t.uniformColor);
        } else {
          TileFileNameIsNoColorName(r.x, r.y, r.w, r.h);
        }
      }
    } else {
      CollectedUpToSound(t, |t.kids|, img, tolerance, outDir, written);
    }
  }

  lemma {:induction false} CollectedUpToSound(t: QNode, n: nat, img: Image, tolerance: int, outDir: string, written: string -> bool)
    requires Decoded(img) && UniformSound(img, tolerance, t) && Placed(t) && n <= |t.kids|
    ensures forall m :: m in CollectedUpTo(t, n, img, outDir, written) ==>
      Contains(ImageRect(img), MetaRect(m)) && NonEmpty(MetaRect(m)) &&
      (IsPureColorName(m.file) ==> ShowsItsColor(img, tolerance, m))
    decreases t, 0, n
  {
    if n > 0 {
      CollectedUpToSound(t, n - 1, img, tolerance, outDir, written);
      CollectedTilesSound(t.kids[n - 1], img, tolerance, outDir, written);
    }
  }

  /**
   * splitQuadTree's tiles lie in the image, and a tile named by a colour covers a region
   * uniform under the tolerance whose top-left pixel has that colour.
   */
  lemma SplitTilesSound(img: Image, cfg: Config, tolerance: int, outDir: string, written: string -> bool)
    requires Decoded(img)
    ensures forall m :: m in Collected(Split(Root(img), img, cfg, tolerance, 0), img, outDir, written) ==>
      Contains(ImageRect(img), MetaRect(m)) && NonEmpty(MetaRect(m)) &&
      (IsPureColorName(m.file) ==> ShowsItsColor(img, tolerance, m))
  {
    SplitUniformSound(Root(img), img, cfg, tolerance, 0);
    SplitPlaced(Root(img), img, cfg, tolerance, 0);
    CollectedTilesSound(Split(Root(img), img, cfg, tolerance, 0), img, tolerance, outDir, written);
  }

  // ---------------------------------------------------------------------------------
  // The tile buffer
  // ---------------------------------------------------------------------------------

  /** The index of channel k of pixel (px, py) in a row-major RGBA buffer of the given width. */
  function ByteIndex(width: int, px: int, py: int, k: int): int {
    PixelOffset(width, px, py) + k
  }

  /**
   * Channel k of pixel (dx, dy) of the tile at (x, y): the image's byte when (x+dx, y+dy)
   * is a pixel of the image, and 0 (transparent black) otherwise.
   */
  function TileByte(img: Image, x: int, y: int, dx: int, dy: int, k: int): byte
    requires Decoded(img) && 0 <= x && 0 <= y && 0 <= dx && 0 <= dy && 0 <= k < 4
  {
    if x + dx < img.width && y + dy < img.height then
      ValidCoordinateReadable(img.data, img.width, img.height, x + dx, y + dy);
      img.data[ByteIndex(img.width, x + dx, y + dy, k)]
    else 0
  }

  /** The four bytes of a pixel of a width x height buffer lie inside it. */
  lemma PixelInBuffer(width: int, height: int, px: int, py: int)
    requires 0 <= px < width && 0 <= py < height
    ensures 0 <= PixelOffset(width, px, py) && PixelOffset(width, px, py) + 4 <= width * height * 4
  {
    assert py * width + px < (py + 1) * width;
    assert (py + 1) * width <= height * width;
  }

  /** Byte j of the tile buffer as the copy loop leaves it: channel j % 4 of pixel j / 4, in row-major order. */
  function TileByteAt(img: Image, x: int, y: int, width: int, j: int): byte
    requires Decoded(img) && 0 <= x && 0 <= y && width > 0 && j >= 0
  {
    TileByte(img, x, y, (j / 4) % width, (j / 4) / width, j % 4)
  }

  /** Channel k of pixel (px, py) sits at byte 4 * (py * width + px) + k, and only there. */
  lemma ByteIndexDecode(width: int, px: int, py: int, k: int)
    requires 0 <= px < width && 0 <= py && 0 <= k < 4
    ensures var j := ByteIndex(width, px, py, k);
      j >= 0 && j / 4 == py * width + px && j % 4 == k && (j / 4) % width == px && (j / 4) / width == py
  {
    var j := ByteIndex(width, px, py, k);
    DivModUnique(j, 4, py * width + px, k);
    DivModUnique(py * width + px, width, py, px);
  }

  /** Writes four consecutive bytes at offset o and leaves the rest of the buffer alone. */
  method PutPixel(buf: array<byte>, o: int, b0: byte, b1: byte, b2: byte, b3: byte)
    requires 0 <= o && o + 4 <= buf.Length
    modifies buf
    ensures buf[o] == b0 && buf[o + 1] == b1 && buf[o + 2] == b2 && buf[o + 3] == b3
    ensures forall j :: 0 <= j < buf.Length && !(o <= j < o + 4) ==> buf[j] == old(buf[j])
  {
    buf[o] := b0;
    buf[o + 1] := b1;
    buf[o + 2] := b2;
    buf[o + 3] := b3;
  }

  /** One step of the copy loop: the four bytes of pixel (dx, dy). */
  method CopyPixel(img: Image, x: int, y: int, width: int, height: int, dx: int, dy: int, tileData: array<byte>)
    requires Decoded(img) && 0 <= x && 0 <= y && 0 <= dx < width && 0 <= dy < height
    requires tileData.Length == width * height * 4 && PixelOffset(width, dx, dy) + 4 <= tileData.Length
    modifies tileData
    ensures forall j :: 0 <= j < PixelOffset(width, dx, dy) ==> tileData[j] == old(tileData[j])
    ensures forall j :: PixelOffset(width, dx, dy) <= j < PixelOffset(width, dx, dy) + 4 ==>
      tileData[j] == TileByteAt(img, x, y, width, j)
  {
    var srcX := x + dx;
    var srcY := y + dy;
    var dst := PixelOffset(width, dx, dy);
    PixelInBuffer(width, height, dx, dy);
    if srcX < img.width && srcY < img.height {
      var src := PixelOffset(img.width, srcX, srcY);
      ValidCoordinateReadable(img.data, img.width, img.height, srcX, srcY);
      PutPixel(tileData, dst, img.data[src], img.data[src + 1], img.data[src + 2], img.data[src + 3]);
    } else {
      PutPixel(tileData, dst, 0, 0, 0, 0);
    }
    ByteIndexDecode(width, dx, dy, 0);
    ByteIndexDecode(width, dx, dy, 1);
    ByteIndexDecode(width, dx, dy, 2);
    ByteIndexDecode(width, dx, dy, 3);
    forall j | dst <= j < dst + 4
      ensures tileData[j] == TileByteAt(img, x, y, width, j)
    {
      assert j == dst || j == dst + 1 || j == dst + 2 || j == dst + 3;
    }
  }

  /**
   * The copy loop of generateTile: a width x height RGBA buffer whose pixel (dx, dy) is the
   * image's pixel (x+dx, y+dy) where that exists and transparent black elsewhere.
   */
  method FillTile(img: Image, x: int, y: int, width: int, height: int) returns (tileData: array<byte>)
    requires Decoded(img) && 0 <= x && 0 <= y && width > 0 && height > 0
    ensures fresh(tileData) && tileData.Length == width * height * 4
    ensures forall dy, dx, k :: 0 <= dy < height && 0 <= dx < width && 0 <= k < 4 ==>
      0 <= ByteIndex(width, dx, dy, k) < tileData.Length &&
      tileData[ByteIndex(width, dx, dy, k)] == TileByte(img, x, y, dx, dy, k)
  {
    tileData := new byte[width * height * 4];
    var dy := 0;
    RowStartInBuffer(width, height, 0);
    while dy < height
      invariant 0 <= dy <= height
      invariant 0 <= PixelOffset(width, 0, dy) <= tileData.Length
      invariant forall j :: 0 <= j < PixelOffset(width, 0, dy) ==> tileData[j] == TileByteAt(img, x, y, width, j)
    {
      var dx := 0;
      while dx < width
        invariant 0 <= dx <= width
        invariant 0 <= PixelOffset(width, dx, dy) <= tileData.Length
        invariant forall j :: 0 <= j < PixelOffset(width, dx, dy) ==> tileData[j] == TileByteAt(img, x, y, width, j)
      {
        PixelInBuffer(width, height, dx, dy);
        CopyPixel(img, x, y, width, height, dx, dy, tileData);
        assert PixelOffset(width, dx + 1, dy) == PixelOffset(width, dx, dy) + 4;
        dx := dx + 1;
      }
      assert PixelOffset(width, width, dy) == PixelOffset(width, 0, dy + 1);
      RowStartInBuffer(width, height, dy + 1);
      dy := dy + 1;
    }
    assert PixelOffset(width, 0, height) == tileData.Length;
    TileFromBytes(img, x, y, width, height, tileData[..]);
  }

  /** A buffer whose every byte is TileByteAt holds the tile, pixel by pixel. */
  lemma TileFromBytes(img: Image, x: int, y: int, width: int, height: int, buf: seq<byte>)
    requires Decoded(img) && 0 <= x && 0 <= y && width > 0 && height > 0 && |buf| == width * height * 4
    requires forall j :: 0 <= j < |buf| ==> buf[j] == TileByteAt(img, x, y, width, j)
    ensures forall dy, dx, k :: 0 <= dy < height && 0 <= dx < width && 0 <= k < 4 ==>
      0 <= ByteIndex(width, dx, dy, k) < |buf| && buf[ByteIndex(width, dx, dy, k)] == TileByte(img, x, y, dx, dy, k)
  {
    forall dy, dx, k | 0 <= dy < height && 0 <= dx < width && 0 <= k < 4
      ensures 0 <= ByteIndex(width, dx, dy, k) < |buf| && buf[ByteIndex(width, dx, dy, k)] == TileByte(img, x, y, dx, dy, k)
    {
      ByteIndexDecode(width, dx, dy, k);
      PixelInBuffer(width, height, dx, dy);
    }
  }

  /** Row r of a width x height buffer starts inside it, or at its end for r == height. */
  lemma RowStartInBuffer(width: int, height: int, r: int)
    requires width > 0 && 0 <= r <= height
    ensures 0 <= PixelOffset(width, 0, r) <= width * height * 4
  {
    assert r * width <= height * width;
  }

  // ---------------------------------------------------------------------------------
  // The splitter
  // ---------------------------------------------------------------------------------

  /** isPureColorTile as a loop over the name. */
  method IsPureColorTile(fileName: string) returns (pure: bool)
    ensures pure == IsPureColorName(fileName)
  {
    if |fileName| != 8 {
      return false;
    }
    var i := 0;
    while i < |fileName|
      invariant 0 <= i <= |fileName|
      invariant forall j :: 0 <= j < i ==> IsHexChar(fileName[j])
    {
      var c := fileName[i];
      if !(('0' <= c <= '9') || ('A' <= c <= 'F') || ('a' <= c <= 'f')) {
        return false;
      }
      i := i + 1;
    }
    return true;
  }

  /** parseColorFromFileName: 0 for a name that is not a colour name, else the shift-and-or fold of its digits. */
  method ParseColorFromFileName(fileName: string) returns (color: u32)
    ensures color == ParsedColor(fileName)
  {
    var pure := IsPureColorTile(fileName);
    if !pure {
      return 0;
    }
    color := FoldHexDigits(fileName);
  }

  /**
   * QuadTreeSplitter: owns the colour checker whose tolerance the uniformity test uses.
   * The image arrives decoded (None when stbi_load fails), the directory check arrives
   * as a boolean and each PNG write is answered by the oracle written.
   */
  class QuadTreeSplitter {
    const checker: ColorChecker

    constructor ()
      ensures fresh(checker) && checker.colorTolerance == 0
    {
      checker := new ColorChecker();
    }

    /** subdivideNode on a fresh leaf: the node's subtree becomes Split of the leaf. */
    method SubdivideNode(node: QuadTreeNode, img: Image, cfg: Config, depth: int)
      requires Decoded(img) && node.Valid() && Splittable(img, node.Model)
      modifies node.Repr
      ensures node.Valid() && fresh(node.Repr - old(node.Repr))
      ensures node.Model == Split(old(node.Model), img, cfg, checker.colorTolerance, depth)
      decreases cfg.maxDepth - depth, 3
    {
      ghost var t := node.Model;
      ghost var tolerance := checker.colorTolerance;
      if node.x >= img.width || node.y >= img.height {
        SplitLeaf(t, img, cfg, tolerance, depth);
        return;
      }
      var actualWidth := Min(node.width, img.width - node.x);
      var actualHeight := Min(node.height, img.height - node.y);
      ClippedReadable(img, t.rect);
      var isUniform, uniformColor := checker.IsUniformColor(Some(img.data), img.width, node.x, node.y, actualWidth, actualHeight, 0);
      assert isUniform == ClippedUniform(img, tolerance, t.rect);
      if isUniform || depth >= cfg.maxDepth || actualWidth <= cfg.minTileSize || actualHeight <= cfg.minTileSize {
        SplitLeaf(t, img, cfg, tolerance, depth);
        if isUniform {
          assert uniformColor == TopLeftColor(img, t.rect);
          node.SetUniformColor(uniformColor);
          node.SetHasUniformColor(true);
        }
        return;
      }
      if actualWidth > 1 && actualHeight > 1 {
        SplitInternal(t, img, cfg, tolerance, depth);
        SubdivideAndSplit(node, img, cfg, depth);
      } else {
        SplitLeaf(t, img, cfg, tolerance, depth);
      }
    }

    /** The splitting branch of subdivideNode: subdivide, then split each new child one level deeper. */
    method SubdivideAndSplit(node: QuadTreeNode, img: Image, cfg: Config, depth: int)
      requires Decoded(img) && node.Valid() && CanSplit(node.Model) && node.Model.kids == [] && depth < cfg.maxDepth
      requires FourSplittable(img, Subdivided(node.Model).kids)
      modifies node.Repr
      ensures node.Valid() && fresh(node.Repr - old(node.Repr))
      ensures node.Model == Subdivided(old(node.Model)).(kids := SplitFour(Subdivided(old(node.Model)).kids, img, cfg, checker.colorTolerance, depth + 1))
      decreases cfg.maxDepth - depth, 2
    {
      node.Subdivide();
      SplitChildren(node, img, cfg, depth);
    }

    /** The loop over the children of a freshly subdivided node, one level deeper. */
    method SplitChildren(node: QuadTreeNode, img: Image, cfg: Config, depth: int)
      requires Decoded(img) && node.Valid() && depth < cfg.maxDepth && |node.children| == 4
      requires FourSplittable(img, node.Model.kids)
      modifies node.Repr
      ensures node.Valid() && fresh(node.Repr - old(node.Repr))
      ensures node.Model == old(node.Model).(kids := SplitFour(old(node.Model).kids, img, cfg, checker.colorTolerance, depth + 1))
      decreases cfg.maxDepth - depth, 1
    {
      ghost var before := node.Model.kids;
      ghost var added: set<object> := {};
      var i := 0;
      while i < 4
        invariant 0 <= i <= 4
        invariant unchanged(node)
        invariant forall j :: 0 <= j < 4 ==> node.children[j].Valid() && node !in node.children[j].Repr
        invariant fresh(added)
        invariant forall j :: 0 <= j < 4 ==> node.children[j].Repr <= old(node.Repr) + added
        invariant forall j, k :: 0 <= j < k < 4 ==> node.children[j].Repr !! node.children[k].Repr
        invariant forall j :: 0 <= j < 4 ==>
          node.children[j].Model == if j < i then Split(before[j], img, cfg, checker.colorTolerance, depth + 1) else before[j]
      {
        FourSplittableAt(img, before, i);
        ghost var grown := node.children[i].Repr;
        SplitChild(node, i, img, cfg, depth);
        added := added + (node.children[i].Repr - grown);
        i := i + 1;
      }
      node.AdoptChildren();
    }

    /** One iteration of the loop: subdivideNode on child i. */
    method SplitChild(node: QuadTreeNode, i: int, img: Image, cfg: Config, depth: int)
      requires Decoded(img) && 0 <= i < 4 == |node.children| && depth < cfg.maxDepth
      requires forall j :: 0 <= j < 4 ==> node.children[j].Valid() && node !in node.children[j].Repr
      requires forall j, k :: 0 <= j < k < 4 ==> node.children[j].Repr !! node.children[k].Repr
      requires Splittable(img, node.children[i].Model)
      modifies node.children[i].Repr
      ensures forall j :: 0 <= j < 4 ==> node.children[j].Valid() && node !in node.children[j].Repr
      ensures forall j, k :: 0 <= j < k < 4 ==> node.children[j].Repr !! node.children[k].Repr
      ensures forall j :: 0 <= j < 4 && j != i ==>
        node.children[j].Repr == old(node.children[j].Repr) && node.children[j].Model == old(node.children[j].Model)
      ensures fresh(node.children[i].Repr - old(node.children[i].Repr))
      ensures node.children[i].Model == Split(old(node.children[i].Model), img, cfg, checker.colorTolerance, depth + 1)
      decreases cfg.maxDepth - depth, 0
    {
      var child := node.children[i];
      SubdivideNode(child, img, cfg, depth + 1);
      forall j | 0 <= j < 4 && j != i
        ensures node.children[j].Repr == old(node.children[j].Repr) && node.children[j].Model == old(node.children[j].Model)
        ensures node.children[j].Valid()
      {
        assert node.children[j] in old(node.children[j].Repr);
      }
    }

    /** buildQuadTree: a root over the whole image, split from depth 0. */
    method BuildQuadTree(img: Image, cfg: Config) returns (root: QuadTreeNode)
      requires Decoded(img)
      ensures root.Valid() && fresh(root.Repr)
      ensures root.Model == Split(Root(img), img, cfg, checker.colorTolerance, 0)
    {
      root := new QuadTreeNode(0, 0, img.width, img.height);
      SubdivideNode(root, img, cfg, 0);
    }

    /**
     * generateTile: false when the clipped region is empty; otherwise the tile buffer is
     * filled and the answer is the outcome of writing it to outputPath.
     */
    method GenerateTile(img: Image, x: int, y: int, width: int, height: int, outputPath: string, written: string -> bool)
      returns (success: bool)
      requires Decoded(img) && 0 <= x && 0 <= y
      ensures success == (ClippedWidth(img, Rect(x, y, width, height)) > 0 &&
                          ClippedHeight(img, Rect(x, y, width, height)) > 0 && written(outputPath))
    {
      var actualWidth := Min(width, img.width - x);
      var actualHeight := Min(height, img.height - y);
      if actualWidth <= 0 || actualHeight <= 0 {
        return false;
      }
      var tileData := FillTile(img, x, y, width, height);
      success := written(outputPath);
    }

    /** The leaf branch of collectLeafTiles: appends the leaf's tile, if it yields one. */
    method LeafTileOf(node: QuadTreeNode, img: Image, outDir: string, written: string -> bool, tiles: seq<TileMeta>)
      returns (out: seq<TileMeta>)
      requires Decoded(img) && node.Valid() && node.isLeaf && Placed(node.Model)
      ensures out == tiles + LeafTile(node.Model, img, outDir, written)
    {
      var x, y, width, height := node.x, node.y, node.width, node.height;
      if x >= img.width || y >= img.height {
        return tiles;
      }
      var actualWidth := Min(width, img.width - x);
      var actualHeight := Min(height, img.height - y);
      if actualWidth <= 0 || actualHeight <= 0 {
        return tiles;
      }
      var fileName: string;
      var success: bool;
      if node.hasUniformColor {
        fileName := Format08X(node.uniformColor);
        success := true;
      } else {
        fileName := TileFileName(x, y, width, height);
        var filePath := outDir + "/" + fileName;
        success := GenerateTile(img, x, y, width, height, filePath, written);
      }
      out := tiles;
      if success {
        out := out + [TileMeta(x, y, actualWidth, actualHeight, fileName)];
      }
    }

    /** collectLeafTiles: appends the tiles of the node's leaves, depth first. */
    method CollectLeafTiles(node: QuadTreeNode, img: Image, outDir: string, written: string -> bool, tiles: seq<TileMeta>)
      returns (out: seq<TileMeta>)
      requires Decoded(img) && node.Valid() && Placed(node.Model)
      ensures out == tiles + Collected(node.Model, img, outDir, written)
      decreases node.Repr, 1
    {
      if node.isLeaf {
        out := LeafTileOf(node, img, outDir, written, tiles);
      } else {
        out := tiles;
        var i := 0;
        while i < |node.children|
          invariant 0 <= i <= |node.children|
          invariant out == tiles + CollectedUpTo(node.Model, i, img, outDir, written)
        {
          out := CollectChild(node, i, img, outDir, written, tiles, out);
          i := i + 1;
        }
      }
    }

    /** One iteration of the loop over the children: the tiles of child i appended. */
    method CollectChild(node: QuadTreeNode, i: nat, img: Image, outDir: string, written: string -> bool,
                        tiles: seq<TileMeta>, before: seq<TileMeta>)
      returns (out: seq<TileMeta>)
      requires Decoded(img) && node.Valid() && Placed(node.Model) && i < |node.children|
      requires before == tiles + CollectedUpTo(node.Model, i, img, outDir, written)
      ensures out == tiles + CollectedUpTo(node.Model, i + 1, img, outDir, written)
      decreases node.Repr, 0
    {
      var child := node.children[i];
      assert child.Valid() && child.Repr < node.Repr && Placed(child.Model) by {
        assert child.Model == node.Model.kids[i];
      }
      out := CollectLeafTiles(child, img, outDir, written, before);
    }

    /**
     * splitQuadTree: nothing when the image failed to load or the output directory could
     * not be made; otherwise the tolerance is set, the tree is built and its leaves collected.
     */
    method SplitQuadTree(loaded: Option<Image>, directoryReady: bool, outDir: string, cfg: Config, written: string -> bool)
      returns (tiles: seq<TileMeta>)
      requires loaded.Some? ==> Decoded(loaded.value)
      modifies checker
      ensures loaded.None? || !directoryReady ==> tiles == [] && checker.colorTolerance == old(checker.colorTolerance)
      ensures loaded.Some? && directoryReady ==>
        checker.colorTolerance == cfg.colorTolerance &&
        tiles == Collected(Split(Root(loaded.value), loaded.value, cfg, cfg.colorTolerance, 0), loaded.value, outDir, written)
    {
      tiles := [];
      if loaded.None? {
        return;
      }
      var img := loaded.value;
      if !directoryReady {
        return;
      }
      checker.SetColorTolerance(cfg.colorTolerance);
      var quadTree := BuildQuadTree(img, cfg);
      SplitPlaced(Root(img), img, cfg, cfg.colorTolerance, 0);
      tiles := CollectLeafTiles(quadTree, img, outDir, written, tiles);
    }

    /** split: splitQuadTree with the default configuration except a minimum tile size of min(tileW, tileH). */
    method SplitImage(loaded: Option<Image>, directoryReady: bool, outDir: string, tileW: int, tileH: int, written: string -> bool)
      returns (tiles: seq<TileMeta>)
      requires loaded.Some? ==> Decoded(loaded.value)
      modifies checker
      ensures loaded.Some? && directoryReady ==>
        tiles == Collected(Split(Root(loaded.value), loaded.value, DefaultConfig.(minTileSize := Min(tileW, tileH)), 0, 0),
                           loaded.value, outDir, written)
      ensures loaded.None? || !directoryReady ==> tiles == []
    {
      var config := DefaultConfig.(minTileSize := Min(tileW, tileH));
      tiles := SplitQuadTree(loaded, directoryReady, outDir, config, written);
    }
  }
}
