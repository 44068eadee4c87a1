# Map tiling library: a verified model

This project models the integer core of a map-tiling library:

- a region quadtree over a square grid of labels (`quadtree.py`);
- the rectangle quadtree node used by the C++ library (`QuadTreeNode`);
- the colour-uniformity checker (`ColorChecker`);
- the quadtree image splitter that cuts a map image into uniform or mixed tiles (`QuadTreeSplitter`);
- the fixed-grid splitter (`TileSplitter`);
- the linear tile index with its `x y w h file` metadata format (`TileIndex`);
- the quadtree spatial index built over the tile list (`QuadTreeIndex`, `IndexQuadTreeNode`);
- the LRU tile cache with memory and count accounting (`TileCache`);
- the viewport assembler's colour-name parser, canvas painting footprint and hex serialisation (`ViewportAssembler`).

Each source file is one Dafny module:

| module | file | models |
|---|---|---|
| `RegionQuadTree` | region_quadtree.dfy | quadtree.py |
| `QuadTreeNodes` | quadtree_node.dfy | QuadTreeNode.cpp/.hpp |
| `Colors` | colors.dfy | ColorChecker.cpp |
| `QuadTreeSplitting` | quadtree_splitter.dfy | QuadTreeSplitter.cpp |
| `TileSplitting` | tile_splitter.dfy | TileSplitter.cpp |
| `TileIndexing` | tile_index.dfy | TileIndex.cpp |
| `QuadTreeIndexing` | quadtree_index.dfy | QuadTreeIndex.cpp/.hpp |
| `TileCaching` | tile_cache.dfy | TileCache.cpp/.hpp |
| `ViewportAssembly` | viewport_assembler.dfy | ViewportAssembler.cpp |

Shared modules:

- `Rects` holds half-open rectangles, the overlap and containment tests, and the four-way split.
- `HexText` holds `%08X` formatting and the shift-by-four hex fold.
- `Decimal` holds `std::to_string` and `operator>>` over strings.
- `TileTypes` holds `TileMeta`, `Viewport` and the decoded image.
- `FixedWidth` holds the 8-bit and 32-bit unsigned types.
- `Wrappers` holds `Option` and `Result`.

How the source's form carries over:

- Code that changes objects in place is written as classes with `modifies` clauses:
  - the Python node, `QuadTreeNode`, `ColorChecker`, `QuadTreeSplitter`, `TileIndex`, `QuadTreeIndex` and `TileCache`.
- Their methods are proved against pure specification functions over a ghost model of the structure.
- The lemmas about those functions carry the properties: round trips, partitions, accounting invariants and query equivalence.
- Loops are loops with invariants:
  - the tile copy loops;
  - the hex parse and hex output loops;
  - the canvas painting;
  - the meta-file reading;
  - the eviction loops.
- I/O is replaced by parameters:
  - an image load becomes an `Option` of a decoded image;
  - a PNG write becomes a predicate on the output path, or a writer function;
  - a meta file becomes its text content, or an "opened" flag;
  - directory creation becomes a flag;
  - the floating-point alpha blend becomes a `Blending` value of two uninterpreted byte functions.

## Model

| member | source | states |
|---|---|---|
| Rects.OverlapsSymmetric | lib/include/QuadTreeIndex.hpp:22-28 | the half-open intersection test gives the same answer with its two rectangles swapped |
| Rects.OverlapsIffSharedPixel | lib/src/TileIndex.cpp:42 | for non-empty rectangles the overlap test holds exactly when some pixel lies in both |
| Rects.ContainsOverlaps | lib/src/QuadTreeIndex.cpp:117-123 | a rectangle that contains a tile overlapping the viewport overlaps the viewport too, so pruning a non-intersecting node loses no tile |
| Rects.Quadrants | lib/src/QuadTreeNode.cpp:22-42 | the four quadrants of a rectangle wider and taller than 1 are non-empty and lie inside it |
| Rects.QuadrantsTile | lib/src/QuadTreeNode.cpp:22-42 | every pixel of the rectangle lies in exactly one quadrant, and no pixel outside it lies in any |
| Colors.UnpackPack | lib/src/ColorChecker.cpp:43-46 | the red, green, blue and alpha bytes read back out of the packed 0xRRGGBBAA word |
| Colors.PackUnpack | lib/src/ViewportAssembler.cpp:168-171 | packing the four unpacked channels of a colour gives the colour back |
| Colors.GetPixelColorChannels | lib/src/ColorChecker.cpp:37-47 | the pixel colour's channels are the four bytes at offset (y*imageWidth+x)*4, in R, G, B, A order |
| Colors.ColorsEqualExact | lib/src/ColorChecker.cpp:49-53 | with tolerance 0 two colours are equal exactly when the 32-bit words are equal |
| Colors.ColorsEqualPerChannel | lib/src/ColorChecker.cpp:55-70 | with tolerance t > 0 two colours are equal exactly when every channel differs by at most t |
| Colors.ColorsEqualReflexiveSymmetric | lib/src/ColorChecker.cpp:49-71 | the comparison is symmetric, and reflexive exactly when the tolerance is not negative |
| Colors.ToleranceMergesDistinctColors | lib/src/ColorChecker.cpp:66-70 | any positive tolerance makes two different colours compare equal |
| Colors.UniformExactMeansIdentical | lib/src/ColorChecker.cpp:16-26 | with tolerance 0 a region is uniform exactly when all its pixels have the same colour |
| Colors.ValidCoordinateReadable | lib/src/ColorChecker.cpp:73-76 | a valid coordinate of a W×H RGBA buffer addresses four readable bytes |
| Colors.ColorChecker.constructor | lib/include/ColorChecker.hpp:92 | a new checker has tolerance 0 |
| Colors.ColorChecker.SetColorTolerance | lib/include/ColorChecker.hpp:78 | the tolerance becomes the given value |
| Colors.ColorChecker.IsUniformColor | lib/src/ColorChecker.cpp:5-27 | false and the colour unchanged for missing data or a non-positive size; otherwise the colour is the top-left pixel and the result is true exactly when every pixel of the region compares equal to it |
| Colors.ColorChecker.IsUniform | lib/src/ColorChecker.cpp:29-35 | the overload without an out-colour gives the same verdict |
| HexText.HexValue | lib/src/QuadTreeSplitter.cpp:290-299 | a character contributes a value below 16, and 0 unless it is a hex digit of either case |
| HexText.HexDigitUpper | lib/src/QuadTreeSplitter.cpp:161 | a digit below 16 prints as an uppercase hex character that reads back as the digit |
| HexText.Format08X | lib/src/QuadTreeSplitter.cpp:160-162 | the `%08X` text of a 32-bit colour has eight characters |
| HexText.ParseFormat08X | lib/src/QuadTreeSplitter.cpp:283-302 | folding the `%08X` text gives the colour back, and all eight characters are uppercase hex digits |
| HexText.Format08XInjective | lib/src/QuadTreeSplitter.cpp:157-162 | different colours get different pure-colour names |
| HexText.FoldHexDigits | lib/src/QuadTreeSplitter.cpp:289-299 | the shift-and-or loop computes the hex fold of the name |
| Decimal.NatToString | lib/src/TileIndex.cpp:28 | a natural number prints as a non-empty run of digits |
| Decimal.IntToString | lib/src/TileIndex.cpp:28 | an integer prints as an optional minus sign followed by digits |
| Decimal.DigitsValueOfNatToString | lib/src/TileIndex.cpp:16 | the digits printed for n have value n |
| Decimal.ReadInt | lib/src/TileIndex.cpp:16 | a successful integer extraction consumes at least one character and stops inside the line |
| Decimal.ReadWord | lib/src/TileIndex.cpp:16 | a successful word extraction returns a non-empty word and stops inside the line |
| Decimal.ReadIntToString | lib/src/TileIndex.cpp:16 | extracting an integer from its printed form followed by a non-digit gives the integer and the end of its text |
| Decimal.ReadWordBack | lib/src/TileIndex.cpp:16 | extracting a word from a non-empty run of non-space characters ended by space or end of line gives the run back |
| RegionQuadTree.Quarters | quadtree.py:15-21 | four leaf quarters of side size//2 at (x,y), (x+h,y), (x,y+h), (x+h,y+h), in that order |
| RegionQuadTree.QuartersInImage | quadtree.py:13-23 | the quarters of an in-grid square of side at least 2 are in the grid and have side at least 1 |
| RegionQuadTree.Built | quadtree.py:25-29 | building keeps the node's position and size |
| RegionQuadTree.Subdivided | quadtree.py:13-23 | subdividing keeps the node's position, size and value |
| RegionQuadTree.Compressed | quadtree.py:31-40 | compressing keeps position and size, and leaves either no children or the same number of children |
| RegionQuadTree.ExactIsWellFormed | quadtree.py:10-23 | an exactly halving tree has 0 or 4 children at every node |
| RegionQuadTree.CompressedKeepsShape | quadtree.py:31-40 | compressing keeps the tree well formed and exactly halving |
| RegionQuadTree.PaintOutside | quadtree.py:42-49 | reconstruction leaves every cell outside the node's square as it was |
| RegionQuadTree.PaintOneChild | quadtree.py:47-49 | inside an internal node's square, only the one quarter holding the cell decides what is written there |
| RegionQuadTree.PaintInside | quadtree.py:42-49 | every cell inside the square is written, whatever it held before |
| RegionQuadTree.BuildExact | quadtree.py:25-29 | building a power-of-two square gives an exactly halving tree |
| RegionQuadTree.BuildSplits | quadtree.py:13-29 | a square of side at least 2 builds into an internal node with the four built quarters |
| RegionQuadTree.BuildReconstruct | quadtree.py:25-49 | for a power-of-two square, build then reconstruct writes exactly the grid's value into every cell |
| RegionQuadTree.BuildWellFormed | quadtree.py:25-29 | the built tree is well formed, and its root has four children exactly when the size is at least 2 |
| RegionQuadTree.BuildLeavesMatch | quadtree.py:26-27 | every built leaf is a unit cell holding `image[y][x]` |
| RegionQuadTree.CompressPreservesPaint | quadtree.py:31-49 | reconstruction after compress writes the same value into every cell as before it |
| RegionQuadTree.BuildTwo | quadtree.py:25-29 | a 2×2 square builds into four unit leaves in TL, TR, BL, BR order |
| RegionQuadTree.BuildFour | quadtree.py:25-29 | a 4×4 square builds into the four built 2×2 quarters |
| RegionQuadTree.CompressFour | quadtree.py:35-40 | one compress of a built 4×4 tree keeps the root internal and compresses each 2×2 quarter |
| RegionQuadTree.CompressTwo | quadtree.py:35-37 | a built 2×2 square of equal cells compresses into one leaf with that value |
| RegionQuadTree.CompressOneLevelPerCall | quadtree.py:31-40 | a uniform 4×4 grid needs two compress calls: the first leaves four leaf children, the second collapses them into one leaf |
| RegionQuadTree.Sample | quadtree.py:52-57 | the sample grid is 4×4 |
| RegionQuadTree.SampleVector | quadtree.py:52-64 | after build and compress, the sample's root has leaf children valued 0, 1, 1, 0, and reconstruction gives back every sample cell |
| RegionQuadTree.Node.constructor | quadtree.py:2-8 | a new node is a leaf with no value at the given position and size |
| RegionQuadTree.Node.IsLeaf | quadtree.py:10-11 | a node is a leaf exactly when it has no children, and otherwise it has four |
| RegionQuadTree.Node.Build | quadtree.py:25-29 | the node's tree becomes the built tree |
| RegionQuadTree.Node.Subdivide | quadtree.py:13-23 | the node's tree becomes the subdivided tree |
| RegionQuadTree.Node.Compress | quadtree.py:31-40 | the node's tree becomes the compressed tree |
| RegionQuadTree.Node.Reconstruct | quadtree.py:42-49 | each grid cell afterwards is what the tree paints over its old content |
| RegionQuadTree.Example | quadtree.py:59-64 | the sample's reconstructed 4×4 grid holds every sample value |
| QuadTreeNodes.Subdivided | lib/src/QuadTreeNode.cpp:15-46 | subdividing keeps the rectangle and both colour fields |
| QuadTreeNodes.SubdivideEffect | lib/src/QuadTreeNode.cpp:17-28 | a leaf changes exactly when width and height both exceed 1; then it has four fresh non-empty leaf children and is no longer a leaf, so the halves are always positive |
| QuadTreeNodes.SubdivideTiles | lib/src/QuadTreeNode.cpp:22-42 | each pixel of the parent is in exactly one child, and no pixel outside it is in any |
| QuadTreeNodes.SubdividedLeaf | lib/src/QuadTreeNode.cpp:34-45 | the children are new leaves on the four quadrants, in order, each non-empty and inside the parent |
| QuadTreeNodes.SubdivideSides | lib/src/QuadTreeNode.cpp:22-42 | left widths are w/2 and right widths w-w/2; top heights are h/2 and bottom heights h-h/2 |
| QuadTreeNodes.SubdivideIdempotent | lib/src/QuadTreeNode.cpp:15-19 | a second subdivide changes nothing |
| QuadTreeNodes.LeavesTile | lib/src/QuadTreeNode.cpp:22-42 | in a tree built by subdivide, every pixel of the root is in exactly one leaf |
| QuadTreeNodes.QuadTreeNode.constructor | lib/src/QuadTreeNode.cpp:3-13 | a new node is a leaf on the given rectangle with no uniform colour and colour 0 |
| QuadTreeNodes.QuadTreeNode.Subdivide | lib/src/QuadTreeNode.cpp:15-46 | the node's model becomes the subdivided model |
| QuadTreeNodes.QuadTreeNode.SetUniformColor | lib/include/QuadTreeNode.hpp:84 | only the uniform colour changes |
| QuadTreeNodes.QuadTreeNode.SetHasUniformColor | lib/include/QuadTreeNode.hpp:96 | only the uniform flag changes |
| QuadTreeSplitting.ClippedReadable | lib/src/QuadTreeSplitter.cpp:96-103 | the clipped region of a node whose origin is in the image can be read |
| QuadTreeSplitting.Split | lib/src/QuadTreeSplitter.cpp:86-126 | splitting keeps the node's rectangle |
| QuadTreeSplitting.SplitInternal | lib/src/QuadTreeSplitter.cpp:106-125 | a node that splits is below the depth limit and splittable, has no uniform colour, and its children are the split quadrants at depth+1 |
| QuadTreeSplitting.SplitLeaf | lib/src/QuadTreeSplitter.cpp:96-115 | a node that stops stays a leaf, and is marked uniform, with the top-left colour, exactly when its origin is in the image and the clipped region is uniform |
| QuadTreeSplitting.SplitHasChildren | lib/src/QuadTreeSplitter.cpp:99-125 | a node gets children exactly when its origin is in the image, no stop rule holds and both clipped sides exceed 1 |
| QuadTreeSplitting.SplitTiled | lib/src/QuadTreeSplitter.cpp:117-125 | the split tree is built by exact quadrant splits |
| QuadTreeSplitting.SplitDepth | lib/src/QuadTreeSplitter.cpp:106-125 | no node is deeper than maxDepth |
| QuadTreeSplitting.SplitUniformSound | lib/src/QuadTreeSplitter.cpp:101-113 | every node marked uniform has a uniform clipped region and holds its top-left colour |
| QuadTreeSplitting.LeavesPartitionImage | lib/src/QuadTreeSplitter.cpp:71-84 | with the root on (0,0,W,H), every image pixel lies in exactly one leaf, and no pixel outside the image lies in any |
| QuadTreeSplitting.ColorNameRoundTrip | lib/src/QuadTreeSplitter.cpp:266-302 | a `%08X` name passes the pure-colour test and parses back to the colour |
| QuadTreeSplitting.TileFileNameIsNoColorName | lib/src/QuadTreeSplitter.cpp:260-264 | a `qtile_<x>_<y>_<w>x<h>.png` name is at least 17 characters long and never passes the pure-colour test |
| QuadTreeSplitting.CollectedAreLeaves | lib/src/QuadTreeSplitter.cpp:128-199 | when every write succeeds, the collected tiles are the tree's leaves in depth-first TL, TR, BL, BR order |
| QuadTreeSplitting.TilesPartitionImage | lib/src/QuadTreeSplitter.cpp:128-199 | when every write succeeds, every image pixel lies in exactly one collected tile |
| QuadTreeSplitting.CollectedTilesSound | lib/src/QuadTreeSplitter.cpp:157-183 | every collected tile is non-empty and inside the image, and a pure-colour name means the tile's pixels are uniform in the colour it names |
| QuadTreeSplitting.SplitTilesSound | lib/src/QuadTreeSplitter.cpp:44-52 | the same holds for every tile that the split collects from the image |
| QuadTreeSplitting.FillTile | lib/src/QuadTreeSplitter.cpp:214-241 | buffer pixel (dx,dy) is the source pixel (x+dx,y+dy) when that is inside the image, and transparent black otherwise |
| QuadTreeSplitting.IsPureColorTile | lib/src/QuadTreeSplitter.cpp:266-281 | the loop accepts exactly the eight-character names made only of hex digits |
| QuadTreeSplitting.ParseColorFromFileName | lib/src/QuadTreeSplitter.cpp:283-302 | the loop gives 0 for names that are not pure-colour names, and the hex fold otherwise |
| QuadTreeSplitting.QuadTreeSplitter.constructor | lib/src/QuadTreeSplitter.cpp:11-13 | a new splitter's checker has tolerance 0 |
| QuadTreeSplitting.QuadTreeSplitter.SubdivideNode | lib/src/QuadTreeSplitter.cpp:86-126 | the node's model becomes the split model |
| QuadTreeSplitting.QuadTreeSplitter.BuildQuadTree | lib/src/QuadTreeSplitter.cpp:71-84 | a fresh root on (0,0,W,H), split from depth 0 |
| QuadTreeSplitting.QuadTreeSplitter.GenerateTile | lib/src/QuadTreeSplitter.cpp:201-247 | succeeds exactly when the clipped size is positive and the PNG write succeeds |
| QuadTreeSplitting.QuadTreeSplitter.LeafTileOf | lib/src/QuadTreeSplitter.cpp:133-191 | appends the leaf's tile: clipped size, `%08X` or `qtile_` name, nothing if the origin is outside the image or the write failed |
| QuadTreeSplitting.QuadTreeSplitter.CollectLeafTiles | lib/src/QuadTreeSplitter.cpp:128-199 | appends the depth-first collection of the node's leaf tiles |
| QuadTreeSplitting.QuadTreeSplitter.SplitQuadTree | lib/src/QuadTreeSplitter.cpp:15-60 | no tiles on a load or directory failure; otherwise the tolerance is set and the tiles collected from the split tree are returned |
| QuadTreeSplitting.QuadTreeSplitter.SplitImage | lib/src/QuadTreeSplitter.cpp:62-69 | the quadtree split under the default configuration, with minTileSize = min(tileW, tileH) |
| TileSplitting.CeilDivClosedForm | lib/src/TileSplitter.cpp:21-22 | the number of loop steps is ceil(a/b), and 0 when a ≤ 0 |
| TileSplitting.GridRowMajor | lib/src/TileSplitter.cpp:21-22 | there are ceil(W/tileW)·ceil(H/tileH) tiles, and tile i has corner ((i mod cols)·tileW, (i div cols)·tileH) |
| TileSplitting.GridTilesFit | lib/src/TileSplitter.cpp:23-24 | every tile has positive clipped sides and lies inside the image |
| TileSplitting.GridPartitionsImage | lib/src/TileSplitter.cpp:21-37 | every image pixel lies in exactly one tile, and no pixel outside the image lies in any |
| TileSplitting.RegionRows | lib/src/TileSplitter.cpp:28-31 | the first k copied rows hold k·cw·4 bytes |
| TileSplitting.RegionRowsByte | lib/src/TileSplitter.cpp:28-31 | byte k of buffer row r is byte k of source row y+r, starting at column x |
| TileSplitting.CopyBytes | lib/src/TileSplitter.cpp:30 | the memcpy puts the source slice at the destination and leaves the rest of the buffer as it was |
| TileSplitting.CopyRegion | lib/src/TileSplitter.cpp:28-31 | the fresh buffer holds the cw·ch region, row by row |
| TileSplitting.SplitOne | lib/src/TileSplitter.cpp:23-35 | one tile's metadata and its PNG write of the copied region |
| TileSplitting.SplitRow | lib/src/TileSplitter.cpp:22-36 | the row's tiles left to right, each with its write |
| TileSplitting.Split | lib/src/TileSplitter.cpp:10-40 | a load error and no writes when the image is missing; otherwise the whole grid of tiles in row-major order, each with its write, whatever the write outcome |
| TileSplitting.GridTileBytes | lib/src/TileSplitter.cpp:28-31 | each grid tile's written bytes are its source pixels, row by row |
| TileIndexing.QuerySelectsOverlapping | lib/src/TileIndex.cpp:39-46 | the query returns, in stored order, exactly the tiles overlapping the viewport, as a subsequence of the stored tiles |
| TileIndexing.QueryMembers | lib/src/TileIndex.cpp:39-46 | a tile is in the result exactly when it is stored and overlaps the viewport |
| TileIndexing.ExtentIsMax | lib/src/TileIndex.cpp:33-37 | the map extent is the maximum of x+w and of y+h over the tiles, and 0 for none |
| TileIndexing.MetaLines | lib/src/TileIndex.cpp:27-29 | one line per tile |
| TileIndexing.LineEnd | lib/src/TileIndex.cpp:13 | a line runs to the next newline or to the end of the text, with no newline inside |
| TileIndexing.ParseMetaText | lib/src/TileIndex.cpp:15-16 | a saved line parses back to its tile when the file name is a non-empty word |
| TileIndexing.LinesOfSavedText | lib/src/TileIndex.cpp:26-29 | the saved text splits into the header line and one line per tile |
| TileIndexing.ParseTileLines | lib/src/TileIndex.cpp:13-17 | reading the tile lines gives the tiles back |
| TileIndexing.SaveLoadRoundTrip | lib/src/TileIndex.cpp:7-31 | loading the saved text gives back every tile list whose file names are non-empty words |
| TileIndexing.ReadTileLines | lib/src/TileIndex.cpp:13-17 | the loop keeps the parsed tiles of the non-empty lines, in order |
| TileIndexing.ComputeExtent | lib/src/TileIndex.cpp:18-19 | the loop computes the map extent |
| TileIndexing.TileIndex.constructor | lib/include/TileIndex.hpp:24-26 | no tiles and a 0×0 map |
| TileIndexing.TileIndex.Query | lib/src/TileIndex.cpp:39-46 | the result is the overlap query of the stored tiles, and the index is unchanged |
| TileIndexing.TileIndex.SetTiles | lib/src/TileIndex.cpp:33-37 | the tiles are replaced and the extent is recomputed |
| TileIndexing.TileIndex.Save | lib/src/TileIndex.cpp:23-31 | false and no text when the file cannot be opened; otherwise the header and one line per tile |
| TileIndexing.TileIndex.Load | lib/src/TileIndex.cpp:7-21 | when the file cannot be opened, false with the tiles cleared and the extent stale; otherwise the parsed tiles and their extent |
| QuadTreeIndexing.FirstContaining | lib/src/QuadTreeIndex.cpp:92-98 | the first child that fully contains the tile, or past the end when none does |
| QuadTreeIndexing.SubdivideShape | lib/include/QuadTreeIndex.hpp:33-47 | the corrected subdivide keeps the rectangle and the stored indices, and either changes nothing or creates four index children on the quadrants |
| QuadTreeIndexing.InsertShape | lib/src/QuadTreeIndex.cpp:39-105 | with the corrected split: insertion keeps the tree well formed and its rectangle, and splits only below maxDepth |
| QuadTreeIndexing.InsertStored | lib/src/QuadTreeIndex.cpp:39-105 | with the corrected split: insertion adds the index exactly once when the tile intersects the node, and otherwise stores nothing |
| QuadTreeIndexing.SplitStored | lib/src/QuadTreeIndex.cpp:59-87 | with the corrected split: an overflow split loses and duplicates no index: the tree then holds the old indices plus the new one |
| QuadTreeIndexing.RedistributeStored | lib/src/QuadTreeIndex.cpp:69-87 | with the corrected split: moving a leaf's indices into children or keeping them keeps the multiset of indices |
| QuadTreeIndexing.InsertNested | lib/src/QuadTreeIndex.cpp:90-103 | with the corrected split: every index stored below a node's child belongs to a tile that the child fully contains |
| QuadTreeIndexing.InsertBelow | lib/src/QuadTreeIndex.cpp:39-105 | with the corrected split: insertion stores only indices of the tile list |
| QuadTreeIndexing.TilesInRoot | lib/src/QuadTreeIndex.cpp:30-31 | every placeable tile lies inside the root (0,0,mapWidth,mapHeight) |
| QuadTreeIndexing.BuildInvariant | lib/src/QuadTreeIndex.cpp:34-36 | with the corrected split: after inserting the first k tiles in index order, the tree holds exactly indices 0..k-1, each once, with every child holding only tiles it contains |
| QuadTreeIndexing.HitsCount | lib/src/QuadTreeIndex.cpp:126-135 | a node reports each stored index that overlaps the viewport as often as it is stored, and no other |
| QuadTreeIndexing.QueryCount | lib/src/QuadTreeIndex.cpp:117-143 | the pruned query reports each overlapping index as often as the subtree stores it, and no other |
| QuadTreeIndexing.QueryMatchesLinear | lib/src/QuadTreeIndex.cpp:107-143 | with the corrected split: for placeable tiles, the tree query returns the same indices as the linear query, in some order, and so the same count |
| QuadTreeIndexing.BuiltShape | lib/src/QuadTreeIndex.cpp:24-37 | the built tree is well formed, respects maxDepth and stores only indices of the tile list |
| QuadTreeIndexing.QueryInRange | lib/src/QuadTreeIndex.cpp:126-127 | every index the tree query reads is inside the tile list |
| QuadTreeIndexing.QueryTilesMatchLinear | lib/src/QuadTreeIndex.cpp:107-143 | with the corrected split: for placeable tiles, the tree query returns the same tiles as the linear query, as a multiset |
| QuadTreeIndexing.AccumulateCounts | lib/src/QuadTreeIndex.cpp:157-170 | statistics over a subtree: 4·leaves = 3·nodes + 1, tiles counted equal those held in leaves, and the depth bound holds |
| QuadTreeIndexing.BuiltStatistics | lib/src/QuadTreeIndex.cpp:145-170 | no tiles gives zero statistics; otherwise 4·leaves = 3·nodes + 1, the max depth is between 0 and maxDepth, and leaf tiles number at most the tiles |
| QuadTreeIndexing.LeafTilesBound | lib/src/QuadTreeIndex.cpp:162-165 | tiles held in leaves number at most the tile list's length |
| QuadTreeIndexing.SubdivideAsWrittenMissesChildren | lib/include/QuadTreeIndex.hpp:33-47 | an overfull 1×2 leaf passes the `w>1 \|\| h>1` guard, but the inner subdivide makes no children to mirror, and the corrected subdivide leaves it alone |
| QuadTreeIndexing.StaleRootAfterEmptyReload | lib/src/QuadTreeIndex.cpp:13-27 | reloading an empty tile list keeps the old root, which still stores tile 0 and meets a viewport |
| QuadTreeIndexing.StaleRootAfterFailedLoad | lib/src/QuadTreeIndex.cpp:13-17 | a failed load after a load of one tile keeps a root that stores tile 0 and meets a viewport, though the tile list is empty |
| QuadTreeIndexing.BuildTreeMatchesTiles | lib/src/QuadTreeIndex.cpp:24-37 | the corrected build has no root exactly when there are no tiles, and stores only indices of the tile list |
| QuadTreeIndexing.QuadTreeIndex.constructor | lib/src/QuadTreeIndex.cpp:10-11 | the given configuration, no tiles and no root |
| QuadTreeIndexing.QuadTreeIndex.Load | lib/src/QuadTreeIndex.cpp:13-22 | corrected: succeeds exactly when the file opens; the tiles are those loaded (or none); on success the map extent is the tiles' extent and on failure it is left as it was; the root matches the tiles, also after a failed load |
| QuadTreeIndexing.QuadTreeIndex.LoadAsWritten | lib/src/QuadTreeIndex.cpp:13-27 | as written: the tiles and the map extent as TileIndex::load leaves them (the tiles' extent on success, the old extent on failure), and the root kept on a failed load or an empty list, otherwise rebuilt |
| QuadTreeIndexing.QuadTreeIndex.BuildQuadTree | lib/src/QuadTreeIndex.cpp:24-37 | corrected: the root becomes the tree built from the tiles, and none for no tiles |
| QuadTreeIndexing.QuadTreeIndex.Query | lib/src/QuadTreeIndex.cpp:107-115 | the tiles of the tree query, and for placeable tiles the same multiset as the linear query |
| QuadTreeIndexing.QuadTreeIndex.GetStatistics | lib/src/QuadTreeIndex.cpp:145-155 | the statistics of the root, zero without tiles, and 4·leaves = 3·nodes + 1 with tiles |
| TileCaching.EstimateMatchesFootprint | lib/include/TileCache.hpp:99-101 | for w·h·c bytes of data, the estimate equals the memory the cache charges for the tile |
| TileCaching.MemoryRemove | lib/src/TileCache.cpp:165-170 | removing an entry takes exactly its footprint off the memory total |
| TileCaching.MemoryAdd | lib/src/TileCache.cpp:39 | adding a new entry puts exactly its footprint on the memory total |
| TileCaching.MemorySubset | lib/src/TileCache.cpp:165-170 | a part of the cache accounts for no more memory than the whole |
| TileCaching.EvictionWasNeeded | lib/src/TileCache.cpp:43-46 | an eviction made while the loop condition held leaves the evicted entry as the witness that the loop could not stop earlier |
| TileCaching.StoppedCompose | lib/src/TileCache.cpp:41-46 | the `evictIfNeeded` loop followed by `put`'s own loop stops as early as the second loop alone requires |
| TileCaching.NoEvictionWithRoom | lib/src/TileCache.cpp:41-46 | an eviction loop that starts with room for the new size evicts nothing and counts nothing |
| TileCaching.TileCache.constructor | lib/src/TileCache.cpp:6-8 | an empty cache, empty LRU list and zero statistics |
| TileCaching.TileCache.Get | lib/src/TileCache.cpp:10-28 | a hit returns the entry, counts a hit and moves the id to the front with LRU on; a miss returns nothing, counts a miss and changes nothing else |
| TileCaching.TileCache.MoveToFront | lib/src/TileCache.cpp:135-142 | a listed id moves to the front; an unlisted id changes nothing |
| TileCaching.TileCache.RemoveTile | lib/src/TileCache.cpp:165-179 | the entry and its list item go, and memory and count drop by exactly its footprint and one |
| TileCaching.TileCache.EvictLRU | lib/src/TileCache.cpp:144-156 | removes one entry when there is one and names it: with LRU on, the back of the list, counted as an eviction |
| TileCaching.TileCache.EvictOnce | lib/src/TileCache.cpp:43-46 | one turn of the loop: one entry fewer, and that entry could not have stayed |
| TileCaching.TileCache.EvictWhile | lib/src/TileCache.cpp:43-46 | evicts least recent entries first, each counted, until the cache is empty or the new size fits under both limits; if it evicted anything, putting the last evicted entry back would still be over a limit; if it evicted nothing, nothing changed |
| TileCaching.TileCache.EvictIfNeeded | lib/src/TileCache.cpp:158-163 | evicts least recent entries first until the cache is empty or under both limits, and no further |
| TileCaching.TileCache.Add | lib/src/TileCache.cpp:48-57 | stores the entry, charges its footprint and one tile, and puts the id at the front with LRU on |
| TileCaching.TileCache.MakeRoom | lib/src/TileCache.cpp:34-46 | drops any old entry for the id uncounted; then, from the rest, only least recent entries go, each counted, and no more than the new size needs |
| TileCaching.TileCache.PutTile | lib/src/TileCache.cpp:48-57 | the new entry at the LRU front of what MakeRoom left, with the count and memory bounds |
| TileCaching.TileCache.Put | lib/src/TileCache.cpp:30-58 | the id holds the new data tile at the LRU front; behind it are the entries and list that evicting least recent entries left, with one eviction counted each and no more than needed; count ≤ maxTileCount, and memory ≤ max unless the tile alone exceeds it |
| TileCaching.TileCache.PutPureColor | lib/src/TileCache.cpp:60-89 | the same for a pure-colour tile, charged only its overhead and id length |
| TileCaching.TileCache.EvictOutOfViewport | lib/src/TileCache.cpp:91-107 | exactly the entries whose id is not visible go, one eviction counted each; visible entries and their LRU order stay |
| TileCaching.TileCache.Clear | lib/src/TileCache.cpp:109-118 | everything is emptied; memory and count become 0, and hits, misses and evictions are kept |
| TileCaching.TileCache.GetStatistics | lib/src/TileCache.cpp:120-123 | the current statistics |
| TileCaching.TileCache.GetMemoryUsage | lib/src/TileCache.cpp:125-128 | the sum of the entries' footprints |
| TileCaching.TileCache.GetTileCount | lib/src/TileCache.cpp:130-133 | the number of entries |
| ViewportAssembly.ParseColorFromFileName | lib/src/ViewportAssembler.cpp:142-161 | the loop gives 0 for names not 8 long, and the hex fold otherwise |
| ViewportAssembly.ParseIgnoresCase | lib/src/ViewportAssembler.cpp:151-157 | a name and its uppercase canonical digits parse to the same colour |
| ViewportAssembly.ParseColorName | lib/src/ViewportAssembler.cpp:142-161 | the assembler parses every `%08X` name back to its colour |
| ViewportAssembly.PureColorTestsAgreeOnColorNames | lib/src/ViewportAssembler.cpp:135-161 | on the splitter's pure-colour names the assembler's test and parser agree with the splitter's |
| ViewportAssembly.LengthOnlyTestTakesImageName | lib/src/ViewportAssembler.cpp:135-140 | the length-only test accepts `tile.png` and parses it to 0x000E0000, a transparent colour, though it is no colour name |
| ViewportAssembly.PureColorTileCorrected | lib/include/ViewportAssembler.hpp:20-28 | the corrected test accepts every `%08X` name, which parses back to its colour, and rejects `tile.png` |
| ViewportAssembly.ByteIndex | lib/src/ViewportAssembler.cpp:21-26 | a canvas pixel's channel byte lies inside the cw·ch·4 canvas |
| ViewportAssembly.SolidPixelChannels | lib/src/ViewportAssembler.cpp:168-171 | a solid colour paints its R, G, B, A bytes from bits 24-31, 16-23, 8-15 and 0-7 |
| ViewportAssembly.Painted | lib/src/ViewportAssembler.cpp:16-37 | painting keeps the canvas length |
| ViewportAssembly.PaintFootprint | lib/src/ViewportAssembler.cpp:19-26 | a canvas pixel covered by the source becomes the blend of source and old byte; every other byte is unchanged |
| ViewportAssembly.PaintOutsideIsNoop | lib/src/ViewportAssembler.cpp:19-24 | a source placed wholly outside the canvas changes nothing |
| ViewportAssembly.Blit | lib/src/ViewportAssembler.cpp:16-37 | the canvas becomes the painting of the raster source |
| ViewportAssembly.BlitSolidColor | lib/src/ViewportAssembler.cpp:163-192 | the canvas becomes the painting of the solid colour |
| ViewportAssembly.HexEntry | lib/src/ViewportAssembler.cpp:128-129 | one entry is 10 characters |
| ViewportAssembly.JoinedLength | lib/src/ViewportAssembler.cpp:129-130 | n comma-joined entries take 11n-1 characters, with no trailing comma |
| ViewportAssembly.HexWordsReadBack | lib/src/ViewportAssembler.cpp:120-131 | the text is 11n-1 long; entry j is `0x` plus 8 digits that fold to pixel j's word, followed by a comma unless it is last; the word's channels are the pixel's bytes |
| ViewportAssembly.WriteWord | lib/src/ViewportAssembler.cpp:128-129 | the entry is ten characters, `0x` and eight digits that read back as the word |
| ViewportAssembly.ReadPixel | lib/src/ViewportAssembler.cpp:124-128 | the word's red, green, blue and alpha bytes are pixel i's four bytes in that order |
| ViewportAssembly.HexOutput | lib/src/ViewportAssembler.cpp:119-132 | the loop builds the comma-joined hex text of the first n pixels, 11n-1 characters long |
| ViewportAssembly.PaintTile | lib/src/ViewportAssembler.cpp:53-73 | placing one tile, with the length-only test or the hex test, keeps the canvas length |
| ViewportAssembly.AssembledCanvas | lib/src/ViewportAssembler.cpp:50-73 | the assembled canvas has vp.w·vp.h·4 bytes |
| ViewportAssembly.PaintTileFootprint | lib/src/ViewportAssembler.cpp:54-72 | under either test, a byte that a tile changes lies in that tile's painted rectangle at (t.x-vp.x, t.y-vp.y), and a tile that fails to load changes nothing |
| ViewportAssembly.AssembledCanvasTestsAgree | lib/src/ViewportAssembler.cpp:50-73 | when every 8-character tile name is a hex name, the length-only test and the hex test assemble the same canvas |
| ViewportAssembly.SplitterNamesAgree | lib/src/ViewportAssembler.cpp:135-140 | `%08X` names, `qtile_` names and `tile_` names get the same answer from both tests |
| ViewportAssembly.ImageNameLeavesCanvas | lib/src/ViewportAssembler.cpp:57-60 | with a blend that keeps the destination under alpha 0, as the float blend does, a tile named `tile.png` leaves the canvas unchanged instead of showing its image |
| ViewportAssembly.PlaceTile | lib/src/ViewportAssembler.cpp:54-72 | with the length-only test as written, the canvas becomes the one-tile painting |
| ViewportAssembly.PaintTiles | lib/src/ViewportAssembler.cpp:50-73 | a fresh canvas holding all the queried tiles painted in order onto zeros, with the length-only test |
| ViewportAssembly.AssembleToHex | lib/src/ViewportAssembler.cpp:89-133 | "" when no tile overlaps; otherwise the hex text of the assembled canvas, 11·w·h-1 characters long |
| ViewportAssembly.Assemble | lib/src/ViewportAssembler.cpp:39-87 | succeeds exactly when some tile overlaps and the PNG write of the assembled canvas succeeds |

## Left out

- Concurrency: the `AsyncTileLoader` threads, futures and condition variables are not part of this model.
- `EnhancedViewportAssembler` is not part of this model. It orchestrates the cache, the loader and stb I/O, and its hex loop and parse helpers copy the ones modelled here.
- The cache's mutex is dropped; the cache is modelled single-threaded.
- The cache's access timestamps (`updateAccessTime`, `lastAccessed`) are dropped.
- Floating point is not modelled:
  - the alpha blend of `blit` and `blitSolidColor` is the uninterpreted `Blending` parameter;
  - `getHitRate` and `avgTilesPerLeaf` are left out.
- Image decoding and PNG encoding are replaced:
  - a load result is an `Option` of decoded RGBA data;
  - a write outcome is a predicate or function parameter;
  - directory creation is a flag;
  - a meta file is its text, or a flag saying whether it opens.
- Timing, logging to standard output or error, and the command-line and test drivers are not part of this model.
- Integer widths: every `int` and `size_t` is unbounded, so overflow is not modelled. This includes:
  - the `int` overflow of `estimateTileSize`;
  - the wrap-around of a `size_t` memory total;
  - the promotion of `r << 24` to a signed `int` in the hex loop.
  Colours are 32-bit values, and every bit operation on them is written as arithmetic.
- `sizeof(CachedTile)` is the constant 96, a 64-bit layout. The exact value depends on the platform.
- Iteration order of `unordered_map` is not modelled:
  - `evictLRU` with an empty list removes some entry;
  - `evictOutOfViewport` removes its set in an order the model does not fix.
  The LRU map is represented by membership in the LRU list.
- TileCaching.TileCache.Get: the returned `shared_ptr` aliasing is not modelled; the entry is returned by value.
- `quadtree.py` parts not modelled:
  - negative Python indices and sizes below 1 are excluded by the preconditions;
  - the printing at the end is dropped;
  - `threshold` is accepted and ignored, as in the source.
- QuadTreeIndexing.Insert splits an overfull leaf through the corrected `Subdivide`, which splits only when both sides exceed 1. For an overfull leaf with one side equal to 1, the model keeps the tiles in the leaf, where the source reads past the end of the empty children vector (see Findings). `InsertShape`, `InsertStored`, `SplitStored`, `RedistributeStored`, `InsertNested`, `InsertBelow`, `BuildInvariant`, `QueryMatchesLinear` and `QueryTilesMatchLinear` are proved about this corrected insertion.
- QuadTreeIndexing: the index tree is a value of a datatype held in the `QuadTreeIndex` class, not a heap of nodes. The model therefore does not capture in-place update of nodes.
- The inheritance from `TileIndex` is composition: `QuadTreeIndex` holds its `TileIndex`.
- The inherited `setTiles`, which does not rebuild the tree, is left out.
- `contains`, used but not declared in the index header, is full rectangle containment, as the comments beside its calls say.
- The header's `queryRecursive` declaration carries a `visited` set that the definition lacks. The definition is the one modelled.
- QuadTreeIndexing.QueryMatchesLinear: the equivalence is proved only for placeable tiles (x, y ≥ 0 and w, h > 0), the tiles the splitters produce. A tile at a negative position lies outside the root (0,0,mapWidth,mapHeight), and `insertTile` drops it, so the two queries can differ for such tiles.
- QuadTreeIndexing.QuadTreeIndex.Query requires the class invariant. The constructor and the corrected `Load` establish it; `LoadAsWritten` does not, after a failed load or an empty list (see Findings), and a query then reads out of range, which is undefined behaviour the model does not follow.
- TileSplitting.Split requires tileW, tileH > 0. The source loops forever on a step of 0 or less.
- The tile-write warning printed by `TileSplitter` is not modelled.
- TileIndexing.SaveLoadRoundTrip requires file names that are non-empty and free of white space. `>>` splits at white space, so other names do not come back.
- TileIndexing.TileIndex.Load: white space is the six C locale characters (space, tab, newline, CR, VT, FF); locale-dependent classification is not modelled.
- ViewportAssembly: `Assemble`, `AssembleToHex`, `PaintTiles` and `PlaceTile` keep the length-only test as written; the hex test appears only through `AssembledCanvas` with strict set.
- ViewportAssembly.Assemble and ViewportAssembly.AssembleToHex require vp.w, vp.h ≥ 0. The source's canvas size is not meaningful for negative sides.
- ViewportAssembly.Blit requires a canvas of exactly cw·ch·4 bytes, which is how both callers allocate it.
- The stateless `ViewportAssembler` and `QuadTreeSplitter` helpers are module-level functions and methods.
- The `QuadTreeSplitter` object keeps only its colour checker.

## Findings

| source | as written | input that shows it | evidently intended | confidence | as-written member | corrected member |
|---|---|---|---|---|---|---|
| lib/include/QuadTreeIndex.hpp:34-42 | `subdivide` is guarded by `width>1 \|\| height>1`, but `QuadTreeNode::subdivide` creates children only when both sides exceed 1 | an overfull 1×2 leaf: the inner split does nothing, and `origChildren[0..3]` is read past the end of an empty vector | split only when both sides exceed 1, as the inner node does | not executed | QuadTreeIndexing.SubdivideAsWrittenMissesChildren | QuadTreeIndexing.SubdivideShape |
| lib/src/QuadTreeIndex.cpp:24-27 | `buildQuadTree` returns early on an empty tile list without resetting `root_` | build over one tile, then reload an empty meta file: `query` still walks the old root, and its stored index 0 is out of range of the empty tile list | an empty tile list leaves no root | not executed | QuadTreeIndexing.StaleRootAfterEmptyReload | QuadTreeIndexing.BuildTreeMatchesTiles |
| lib/src/QuadTreeIndex.cpp:13-17 | a failed `load` returns before `buildQuadTree` and keeps `root_`, while `TileIndex::load` has already cleared `tiles_` | load a meta file holding `0 0 1 1 a`, then load a missing file, then query (0,0,1,1): the old root's index 0 is read from the empty tile list | a failed load also clears the tree | not executed | QuadTreeIndexing.StaleRootAfterFailedLoad | QuadTreeIndexing.QuadTreeIndex.Load |
| lib/src/ViewportAssembler.cpp:135-140 | `isPureColorTile` checks only that the name is 8 characters long; `assemble` and `assembleToHex` rely on it | the 8-character image name `tile.png` is taken as colour 0x000E0000, fully transparent, and its PNG is never loaded | the documented test: 8 hex characters, as the splitter checks; on the names both splitters write the two tests paint the same canvas | not executed | ViewportAssembly.LengthOnlyTestTakesImageName | ViewportAssembly.PureColorTileCorrected |
