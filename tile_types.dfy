/**
 * The records the tile library passes between its parts: the metadata of one tile
 * (TileSplitter.hpp), the viewport of a query (TileIndex.hpp) and a decoded RGBA image.
 */
module TileTypes {
  import opened FixedWidth
  import opened Rects

  /** TileMeta: the tile's rectangle in map pixels and the name of its file. */
  datatype TileMeta = TileMeta(x: int, y: int, w: int, h: int, file: string)

  /** Viewport: the rectangle of the map a client looks at. */
  datatype Viewport = Viewport(x: int, y: int, w: int, h: int)

  function MetaRect(m: TileMeta): Rect {
    Rect(m.x, m.y, m.w, m.h)
  }

  function ViewRect(v: Viewport): Rect {
    Rect(v.x, v.y, v.w, v.h)
  }

  function MetaRects(ms: seq<TileMeta>): (rs: seq<Rect>)
    ensures |rs| == |ms| && forall i :: 0 <= i < |ms| ==> rs[i] == MetaRect(ms[i])
  {
    seq(|ms|, i requires 0 <= i < |ms| => MetaRect(ms[i]))
  }

  lemma MetaRectsAppend(a: seq<TileMeta>, b: seq<TileMeta>)
    ensures MetaRects(a + b) == MetaRects(a) + MetaRects(b)
  {
  }

  /** What stbi_load(path, &w, &h, &c, 4) hands back: width x height RGBA pixels, row by row. */
  datatype Image = Image(data: seq<byte>, width: int, height: int)

  /** A successfully decoded image has positive sides and four bytes per pixel. */
  predicate Decoded(img: Image) {
    img.width > 0 && img.height > 0 && |img.data| == img.width * img.height * 4
  }
}
