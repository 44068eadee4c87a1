/**
 * TileIndex: the flat list of tile metadata with the map extent derived from it, the
 * viewport query by rectangle overlap, and the text format of the metadata file: a header
 * line "x y w h file" followed by one "x y w h file" line per tile.
 */
module TileIndexing {
  import opened FixedWidth
  import opened Wrappers
  import opened Rects
  import opened Decimal
  import opened TileTypes

  // ---------------------------------------------------------------------------------
  // Query
  // ---------------------------------------------------------------------------------

  /** The overlap test of query: the tile's and the viewport's half-open rectangles overlap. */
  predicate Overlapping(m: TileMeta, vp: Viewport) {
    Overlaps(MetaRect(m), ViewRect(vp))
  }

  /** The tiles of ts that overlap vp, in the order of ts. */
  function QueryTiles(ts: seq<TileMeta>, vp: Viewport): seq<TileMeta>
    decreases |ts|
  {
    if ts == [] then []
    else
      var last := ts[|ts| - 1];
      QueryTiles(ts[..|ts| - 1], vp) + (if Overlapping(last, vp) then [last] else [])
  }

  /** The positions in ts of the tiles that overlap vp, in increasing order. */
  function OverlapIndices(ts: seq<TileMeta>, vp: Viewport): seq<int>
    decreases |ts|
  {
    if ts == [] then []
    else OverlapIndices(ts[..|ts| - 1], vp) + (if Overlapping(ts[|ts| - 1], vp) then [|ts| - 1] else [])
  }

  /** The indices in idx are strictly increasing and lie in [0, n). */
  predicate IncreasingBelow(idx: seq<int>, n: int) {
    (forall k :: 0 <= k < |idx| ==> 0 <= idx[k] < n) &&
    (forall k, l :: 0 <= k < l < |idx| ==> idx[k] < idx[l])
  }

  /**
   * The query selects exactly the overlapping tiles and keeps their order: its result is
   * ts at a strictly increasing run of positions, and a position is in that run exactly
   * when its tile overlaps the viewport.
   */
  lemma QuerySelectsOverlapping(ts: seq<TileMeta>, vp: Viewport)
    ensures var idx, out := OverlapIndices(ts, vp), QueryTiles(ts, vp);
      |idx| == |out| && IncreasingBelow(idx, |ts|) &&
      (forall k :: 0 <= k < |idx| ==> out[k] == ts[idx[k]]) &&
      (forall j :: 0 <= j < |ts| ==> (j in idx <==> Overlapping(ts[j], vp)))
  {
    QueryPositions(ts, vp);
    QueryMembership(ts, vp);
  }

  /** The result is ts read at the positions of OverlapIndices, which increase and lie in ts. */
  lemma {:induction false} QueryPositions(ts: seq<TileMeta>, vp: Viewport)
    ensures var idx, out := OverlapIndices(ts, vp), QueryTiles(ts, vp);
      |idx| == |out| && IncreasingBelow(idx, |ts|) &&
      (forall k :: 0 <= k < |idx| ==> out[k] == ts[idx[k]])
    decreases |ts|
  {
    if ts != [] {
      var n := |ts| - 1;
      var front := ts[..n];
      QueryPositions(front, vp);
      var idx, out := OverlapIndices(ts, vp), QueryTiles(ts, vp);
      var idx0, out0 := OverlapIndices(front, vp), QueryTiles(front, vp);
      assert forall k :: 0 <= k < |idx0| ==> idx[k] == idx0[k] && out[k] == out0[k];
      assert forall j :: 0 <= j < n ==> ts[j] == front[j];
    }
  }

  /** A position of ts is selected exactly when its tile overlaps the viewport. */
  lemma {:induction false} QueryMembership(ts: seq<TileMeta>, vp: Viewport)
    ensures forall j :: 0 <= j < |ts| ==> (j in OverlapIndices(ts, vp) <==> Overlapping(ts[j], vp))
    decreases |ts|
  {
    if ts != [] {
      var n := |ts| - 1;
      var front := ts[..n];
      QueryMembership(front, vp);
      QueryPositions(front, vp);
      var idx, idx0 := OverlapIndices(ts, vp), OverlapIndices(front, vp);
      assert idx == idx0 + (if Overlapping(ts[n], vp) then [n] else []);
      assert n !in idx0;
      forall j | 0 <= j < n
        ensures j in idx <==> Overlapping(ts[j], vp)
      {
        assert ts[j] == front[j];
      }
    }
  }

  /** A tile is in the query's result exactly when it is stored and overlaps the viewport. */
  lemma QueryMembers(ts: seq<TileMeta>, vp: Viewport, m: TileMeta)
    ensures m in QueryTiles(ts, vp) <==> m in ts && Overlapping(m, vp)
  {
    QuerySelectsOverlapping(ts, vp);
    var idx, out := OverlapIndices(ts, vp), QueryTiles(ts, vp);
    if m in out {
      var k :| 0 <= k < |out| && out[k] == m;
      assert idx[k] in idx;
    }
    if m in ts && Overlapping(m, vp) {
      var j :| 0 <= j < |ts| && ts[j] == m;
      assert j in idx;
      var k :| 0 <= k < |idx| && idx[k] == j;
    }
  }

  // ---------------------------------------------------------------------------------
  // Map extent
  // ---------------------------------------------------------------------------------

  /** (max(x + w), max(y + h)) over ts, both starting from 0, folded in stored order. */
  function Extent(ts: seq<TileMeta>): (int, int)
    decreases |ts|
  {
    if ts == [] then (0, 0)
    else
      var e := Extent(ts[..|ts| - 1]);
      var m := ts[|ts| - 1];
      (Max(e.0, m.x + m.w), Max(e.1, m.y + m.h))
  }

  /**
   * The extent is the smallest non-negative bound on every tile's right and bottom edge:
   * no edge exceeds it, and each component is 0 or the edge of some tile.
   */
  lemma {:induction false} ExtentIsMax(ts: seq<TileMeta>)
    ensures var e := Extent(ts);
      0 <= e.0 && 0 <= e.1 &&
      (forall i :: 0 <= i < |ts| ==> ts[i].x + ts[i].w <= e.0 && ts[i].y + ts[i].h <= e.1) &&
      (e.0 == 0 || exists i :: 0 <= i < |ts| && ts[i].x + ts[i].w == e.0) &&
      (e.1 == 0 || exists i :: 0 <= i < |ts| && ts[i].y + ts[i].h == e.1)
    decreases |ts|
  {
    if ts != [] {
      var n := |ts| - 1;
      var front := ts[..n];
      ExtentIsMax(front);
      var e, f := Extent(ts), Extent(front);
      assert forall i :: 0 <= i < n ==> ts[i] == front[i];
      if e.0 != 0 && e.0 != ts[n].x + ts[n].w {
        var i :| 0 <= i < n && front[i].x + front[i].w == f.0;
        assert ts[i].x + ts[i].w == e.0;
      }
      if e.1 != 0 && e.1 != ts[n].y + ts[n].h {
        var i :| 0 <= i < n && front[i].y + front[i].h == f.1;
        assert ts[i].y + ts[i].h == e.1;
      }
    }
  }

  // ---------------------------------------------------------------------------------
  // The metadata file
  // ---------------------------------------------------------------------------------

  const Header: string := "x y w h file"

  /** One tile as save writes it, without the line break: x, y, w, h and file, space separated. */
  function MetaText(m: TileMeta): string {
    IntToString(m.x) + (" " + (IntToString(m.y) + (" " + (IntToString(m.w) + (" " + (IntToString(m.h) + (" " + m.file)))))))
  }

  /** The text lines of the tiles, in order. */
  function MetaLines(ts: seq<TileMeta>): (ls: seq<string>)
    ensures |ls| == |ts|
  {
    seq(|ts|, i requires 0 <= i < |ts| => MetaText(ts[i]))
  }

  /** Lines written one after the other, each followed by '\n'. */
  function Join(lines: seq<string>): string
    decreases |lines|
  {
    if lines == [] then "" else lines[0] + "\n" + Join(lines[1..])
  }

  /** The whole file save writes: the header line, then one line per tile. */
  function SavedText(ts: seq<TileMeta>): string {
    Join([Header] + MetaLines(ts))
  }

  lemma {:induction false} JoinAppend(lines: seq<string>, line: string)
    ensures Join(lines + [line]) == Join(lines) + line + "\n"
    decreases |lines|
  {
    if lines != [] {
      assert (lines + [line])[1..] == lines[1..] + [line];
      JoinAppend(lines[1..], line);
    } else {
      assert Join([line]) == line + "\n" + Join([]);
    }
  }

  /** The position of the first '\n' at or after i, or |s| when there is none. */
  function LineEnd(s: string, i: nat): (j: nat)
    requires i <= |s|
    ensures i <= j <= |s| && (j == |s| || s[j] == '\n')
    ensures forall k :: i <= k < j ==> s[k] != '\n'
    decreases |s| - i
  {
    if i == |s| || s[i] == '\n' then i else LineEnd(s, i + 1)
  }

  /**
   * The lines successive getline calls return from position i: the text up to each '\n'
   * without it; a last line with no '\n' still counts, and nothing follows a final '\n'.
   */
  function LinesFrom(s: string, i: nat): seq<string>
    requires i <= |s|
    decreases |s| - i
  {
    if i == |s| then []
    else
      var j := LineEnd(s, i);
      [s[i..j]] + (if j == |s| then [] else LinesFrom(s, j + 1))
  }

  /** ss >> x >> y >> w >> h >> file on one line; None when an extraction fails. */
  function ParseMetaLine(line: string): Option<TileMeta> {
    var x := ReadInt(line, 0);
    if x.None? then None
    else
      var y := ReadInt(line, x.value.1);
      if y.None? then None
      else
        var w := ReadInt(line, y.value.1);
        if w.None? then None
        else
          var h := ReadInt(line, w.value.1);
          if h.None? then None
          else
            var file := ReadWord(line, h.value.1);
            if file.None? then None
            else Some(TileMeta(x.value.0, y.value.0, w.value.0, h.value.0, file.value.0))
  }

  /** What one line adds to the list: nothing for an empty or malformed line, else its tile. */
  function LineTiles(line: string): seq<TileMeta> {
    if line == [] then []
    else
      var m := ParseMetaLine(line);
      if m.Some? then [m.value] else []
  }

  /** The tiles of the lines after the header, in file order. */
  function ParsedLines(lines: seq<string>): seq<TileMeta>
    decreases |lines|
  {
    if lines == [] then [] else LineTiles(lines[0]) + ParsedLines(lines[1..])
  }

  lemma {:induction false} ParsedLinesAppend(lines: seq<string>, line: string)
    ensures ParsedLines(lines + [line]) == ParsedLines(lines) + LineTiles(line)
    decreases |lines|
  {
    if lines != [] {
      var longer := lines + [line];
      assert longer[0] == lines[0];
      assert longer[1..] == lines[1..] + [line];
      assert ParsedLines(longer) == LineTiles(lines[0]) + ParsedLines(longer[1..]);
      ParsedLinesAppend(lines[1..], line);
      assert ParsedLines(lines) == LineTiles(lines[0]) + ParsedLines(lines[1..]);
    } else {
      assert ParsedLines([line]) == LineTiles(line) + ParsedLines([]);
    }
  }

  /** The tiles load reads from a file's text: the first line is skipped as the header. */
  function LoadedTiles(text: string): seq<TileMeta> {
    var lines := LinesFrom(text, 0);
    if lines == [] then [] else ParsedLines(lines[1..])
  }

  /** A file name save can write and load read back: not empty and free of white space. */
  predicate WordName(file: string) {
    |file| > 0 && forall k :: 0 <= k < |file| ==> !IsSpace(file[k])
  }

  /** White space before an operator>> extraction is skipped. */
  lemma ReadSkipsSpace(s: string, i: nat)
    requires i < |s| && IsSpace(s[i])
    ensures ReadInt(s, i) == ReadInt(s, i + 1) && ReadWord(s, i) == ReadWord(s, i + 1)
  {
    assert SkipSpaces(s, i) == SkipSpaces(s, i + 1);
  }

  /** Reads an int written by to_string at position i of s, when a space follows it. */
  lemma ReadIntThenSpace(n: int, s: string, i: nat)
    requires i + |IntToString(n)| < |s| && s[i..i + |IntToString(n)|] == IntToString(n)
    requires s[i + |IntToString(n)|] == ' '
    ensures ReadInt(s, i) == Some((n, i + |IntToString(n)|))
  {
    ReadIntToString(n, s, i);
  }

  /** Where f sits in p + (f + r), and the character after it. */
  lemma FieldAt(s: string, p: string, f: string, r: string)
    requires s == p + (f + r)
    ensures |p| + |f| <= |s| && s[|p|..|p| + |f|] == f
    ensures |r| > 0 ==> s[|p| + |f|] == r[0]
  {
    assert s[|p|..|p| + |f|] == (f + r)[..|f|];
  }

  lemma Assoc(x: string, y: string, z: string)
    ensures x + (y + z) == (x + y) + z
  {
  }

  /**
   * Reads the int field n of s = p + (T + (" " + r)), T its text, from position at: the
   * start of that text or the space just before it. The read stops at the space after T,
   * position stop = |p + T + " "| - 1.
   */
  lemma ReadIntField(s: string, p: string, n: int, r: string, p': string, at: nat, stop: nat)
    requires s == p + (IntToString(n) + (" " + r))
    requires p' == p + IntToString(n) + " " && stop == |p'| - 1
    requires at == |p| || (at + 1 == |p| && s[at] == ' ')
    ensures s == p' + r
    ensures ReadInt(s, at) == Some((n, stop)) && s[stop] == ' '
  {
    var t := IntToString(n);
    FieldAt(s, p, t, " " + r);
    assert |p'| == |p| + |t| + 1;
    ReadIntThenSpace(n, s, |p|);
    var read := ReadInt(s, |p|);
    assert read == Some((n, stop));
    Assoc(p, t, " " + r);
    Assoc(p + t, " ", r);
    if at < |p| {
      ReadSkipsSpace(s, at);
      assert ReadInt(s, at) == read;
    }
  }

  /** The last field of p + f, a word after the space at position at, is read whole. */
  lemma ReadLastWord(s: string, p: string, f: string, at: nat)
    requires s == p + f && WordName(f)
    requires at + 1 == |p| && s[at] == ' '
    ensures ReadWord(s, at) == Some((f, |s|))
  {
    assert s[|p|..|p| + |f|] == f;
    ReadWordBack(f, s, |p|);
    ReadSkipsSpace(s, at);
  }

  /** A line whose five extractions succeed in turn parses to the tile they read. */
  lemma ParseOfReads(line: string, m: TileMeta, i1: nat, i2: nat, i3: nat, i4: nat, e: nat)
    requires ReadInt(line, 0) == Some((m.x, i1)) && ReadInt(line, i1) == Some((m.y, i2))
    requires ReadInt(line, i2) == Some((m.w, i3)) && ReadInt(line, i3) == Some((m.h, i4))
    requires ReadWord(line, i4) == Some((m.file, e))
    ensures ParseMetaLine(line) == Some(m)
  {
  }

  /** The line save writes for a tile with a word file name parses back to that tile. */
  lemma ParseMetaText(m: TileMeta)
    requires WordName(m.file)
    ensures ParseMetaLine(MetaText(m)) == Some(m)
  {
    var s := MetaText(m);
    var a, b, c, d := IntToString(m.x), IntToString(m.y), IntToString(m.w), IntToString(m.h);
    var r3 := d + (" " + m.file);
    var r2 := c + (" " + r3);
    var r1 := b + (" " + r2);
    var p1 := "" + a + " ";
    var p2 := p1 + b + " ";
    var p3 := p2 + c + " ";
    var p4 := p3 + d + " ";
    var i1: nat, i2: nat, i3: nat, i4: nat := |p1| - 1, |p2| - 1, |p3| - 1, |p4| - 1;
    assert s == "" + (a + (" " + r1));
    ReadIntField(s, "", m.x, r1, p1, 0, i1);
    ReadIntField(s, p1, m.y, r2, p2, i1, i2);
    ReadIntField(s, p2, m.w, r3, p3, i2, i3);
    ReadIntField(s, p3, m.h, m.file, p4, i3, i4);
    ReadLastWord(s, p4, m.file, i4);
    ParseOfReads(s, m, i1, i2, i3, i4, |s|);
  }

  /** A line without '\n' followed by '\n' is what getline returns there. */
  lemma {:induction false} LineEndOfText(s: string, i: nat, line: string)
    requires i + |line| < |s| && s[i..i + |line|] == line && s[i + |line|] == '\n'
    requires forall k :: 0 <= k < |line| ==> line[k] != '\n'
    ensures LineEnd(s, i) == i + |line|
    decreases |line|
  {
    if line != [] {
      assert s[i] == line[0];
      assert s[i + 1..i + 1 + |line[1..]|] == line[1..];
      LineEndOfText(s, i + 1, line[1..]);
    }
  }

  /** The characters to_string writes are never white space. */
  lemma IntTextHasNoSpace(n: int)
    ensures forall k :: 0 <= k < |IntToString(n)| ==> !IsSpace(IntToString(n)[k])
  {
  }

  /** A tile's line has no '\n' when its file name is a word. */
  lemma MetaTextOneLine(m: TileMeta)
    requires WordName(m.file)
    ensures forall k :: 0 <= k < |MetaText(m)| ==> MetaText(m)[k] != '\n'
  {
    IntTextHasNoSpace(m.x);
    IntTextHasNoSpace(m.y);
    IntTextHasNoSpace(m.w);
    IntTextHasNoSpace(m.h);
    var s := MetaText(m);
    forall k | 0 <= k < |s|
      ensures s[k] != '\n'
    {
      assert !IsSpace(s[k]) || s[k] == ' ';
    }
  }

  /** A getline at i returns line, and the next one starts after its '\n'. */
  lemma LinesFromStep(s: string, i: nat, line: string, next: nat)
    requires i + |line| < |s| && s[i..i + |line|] == line && s[i + |line|] == '\n'
    requires forall k :: 0 <= k < |line| ==> line[k] != '\n'
    requires next == i + |line| + 1
    ensures LinesFrom(s, i) == [line] + LinesFrom(s, next)
  {
    LineEndOfText(s, i, line);
  }

  /** getline over joined lines without '\n' returns exactly those lines. */
  lemma {:induction false} LinesOfJoin(s: string, pre: string, lines: seq<string>)
    requires s == pre + Join(lines)
    requires forall i, k :: 0 <= i < |lines| && 0 <= k < |lines[i]| ==> lines[i][k] != '\n'
    ensures LinesFrom(s, |pre|) == lines
    decreases |lines|
  {
    if lines == [] {
      assert s == pre;
    } else {
      var line := lines[0];
      var pre' := pre + line + "\n";
      assert s == pre + (line + ("\n" + Join(lines[1..])));
      FieldAt(s, pre, line, "\n" + Join(lines[1..]));
      assert s == pre' + Join(lines[1..]);
      LinesFromStep(s, |pre|, line, |pre'|);
      LinesOfJoin(s, pre', lines[1..]);
      assert [line] + lines[1..] == lines;
    }
  }

  /** The lines of a saved file: the header, then the text of each tile. */
  lemma LinesOfSavedText(ts: seq<TileMeta>)
    requires forall i :: 0 <= i < |ts| ==> WordName(ts[i].file)
    ensures LinesFrom(SavedText(ts), 0) == [Header] + MetaLines(ts)
  {
    var lines := [Header] + MetaLines(ts);
    forall i, k | 0 <= i < |lines| && 0 <= k < |lines[i]|
      ensures lines[i][k] != '\n'
    {
      if i > 0 {
        MetaTextOneLine(ts[i - 1]);
      }
    }
    assert SavedText(ts) == "" + Join(lines);
    LinesOfJoin(SavedText(ts), "", lines);
  }

  /** The tile lines parse back to the tiles they were written from. */
  lemma {:induction false} ParseTileLines(ts: seq<TileMeta>)
    requires forall i :: 0 <= i < |ts| ==> WordName(ts[i].file)
    ensures ParsedLines(MetaLines(ts)) == ts
    decreases |ts|
  {
    if ts != [] {
      var lines := MetaLines(ts);
      assert lines[1..] == MetaLines(ts[1..]);
      LineTilesOfMeta(ts[0]);
      ParseTileLines(ts[1..]);
      assert ParsedLines(lines) == LineTiles(lines[0]) + ParsedLines(lines[1..]);
      assert [ts[0]] + ts[1..] == ts;
    }
  }

  /** The line of a tile with a word file name contributes exactly that tile. */
  lemma LineTilesOfMeta(m: TileMeta)
    requires WordName(m.file)
    ensures LineTiles(MetaText(m)) == [m]
  {
    ParseMetaText(m);
    assert MetaText(m) != [];
  }

  /** Saving and loading back gives the same tiles when every file name is a non-empty word. */
  lemma SaveLoadRoundTrip(ts: seq<TileMeta>)
    requires forall i :: 0 <= i < |ts| ==> WordName(ts[i].file)
    ensures LoadedTiles(SavedText(ts)) == ts
  {
    LinesOfSavedText(ts);
    var lines := LinesFrom(SavedText(ts), 0);
    assert lines[1..] == MetaLines(ts);
    ParseTileLines(ts);
  }

  /** One more tile written: its line and a '\n' follow what was written before. */
  lemma SavedLinesStep(ts: seq<TileMeta>, i: nat)
    requires i < |ts|
    ensures Join([Header] + MetaLines(ts[..i + 1])) == Join([Header] + MetaLines(ts[..i])) + MetaText(ts[i]) + "\n"
  {
    var before := [Header] + MetaLines(ts[..i]);
    var line := MetaText(ts[i]);
    assert MetaLines(ts[..i + 1]) == MetaLines(ts[..i]) + [line] by {
      var a, b := MetaLines(ts[..i + 1]), MetaLines(ts[..i]) + [line];
      assert |a| == |b|;
      forall k | 0 <= k < |a|
        ensures a[k] == b[k]
      {
        assert ts[..i + 1][k] == (if k < i then ts[..i][k] else ts[i]);
      }
    }
    assert [Header] + MetaLines(ts[..i + 1]) == before + [line];
    JoinAppend(before, line);
  }

  lemma ParsedLinesPrefix(body: seq<string>, i: nat)
    requires i < |body|
    ensures ParsedLines(body[..i + 1]) == ParsedLines(body[..i]) + LineTiles(body[i])
  {
    assert body[..i + 1] == body[..i] + [body[i]];
    ParsedLinesAppend(body[..i], body[i]);
  }

  /** The loop of load after the header: empty lines are skipped, a line that parses adds its tile. */
  method ReadTileLines(body: seq<string>) returns (loaded: seq<TileMeta>)
    ensures loaded == ParsedLines(body)
  {
    loaded := [];
    var i := 0;
    while i < |body|
      invariant 0 <= i <= |body|
      invariant loaded == ParsedLines(body[..i])
    {
      var line := body[i];
      ParsedLinesPrefix(body, i);
      if line != [] {
        var m := ParseMetaLine(line);
        if m.Some? {
          loaded := loaded + [m.value];
        }
      }
      i := i + 1;
    }
    assert body[..i] == body;
  }

  // ---------------------------------------------------------------------------------
  // The index
  // ---------------------------------------------------------------------------------

  /** The fold of setTiles and load: (max(x + w), max(y + h)) over the tiles, from 0. */
  method ComputeExtent(ts: seq<TileMeta>) returns (mapWidth: int, mapHeight: int)
    ensures (mapWidth, mapHeight) == Extent(ts)
  {
    mapWidth, mapHeight := 0, 0;
    var i := 0;
    while i < |ts|
      invariant 0 <= i <= |ts|
      invariant (mapWidth, mapHeight) == Extent(ts[..i])
    {
      var m := ts[i];
      assert ts[..i + 1][..i] == ts[..i];
      mapWidth := Max(mapWidth, m.x + m.w);
      mapHeight := Max(mapHeight, m.y + m.h);
      i := i + 1;
    }
    assert ts[..i] == ts;
  }

  class TileIndex {
    var tiles: seq<TileMeta>
    var mapWidth: int
    var mapHeight: int

    /** An empty index with a 0 x 0 map. */
    constructor ()
      ensures tiles == [] && mapWidth == 0 && mapHeight == 0
    {
      tiles := [];
      mapWidth := 0;
      mapHeight := 0;
    }

    /** query: the stored tiles that overlap vp, in stored order; the index is not changed. */
    method Query(vp: Viewport) returns (out: seq<TileMeta>)
      ensures out == QueryTiles(tiles, vp)
    {
      out := [];
      var i := 0;
      while i < |tiles|
        invariant 0 <= i <= |tiles|
        invariant out == QueryTiles(tiles[..i], vp)
      {
        var m := tiles[i];
        assert tiles[..i + 1][..i] == tiles[..i];
        var overlap := !(m.x + m.w <= vp.x || m.y + m.h <= vp.y || m.x >= vp.x + vp.w || m.y >= vp.y + vp.h);
        if overlap {
          out := out + [m];
        }
        i := i + 1;
      }
      assert tiles[..i] == tiles;
    }

    /** setTiles: replaces the tiles and recomputes the map extent from them. */
    method SetTiles(ts: seq<TileMeta>)
      modifies this
      ensures tiles == ts && (mapWidth, mapHeight) == Extent(ts)
    {
      tiles := ts;
      mapWidth, mapHeight := ComputeExtent(tiles);
    }

    /**
     * save: when the file opens (fileOpens), writes the header and one line per tile and
     * returns true; otherwise writes nothing and returns false. The text is returned.
     */
    method Save(fileOpens: bool) returns (ok: bool, text: string)
      ensures ok == fileOpens
      ensures text == if fileOpens then SavedText(tiles) else ""
    {
      if !fileOpens {
        return false, "";
      }
      text := Header + "\n";
      assert text == Join([Header] + MetaLines(tiles[..0]));
      var i := 0;
      while i < |tiles|
        invariant 0 <= i <= |tiles|
        invariant text == Join([Header] + MetaLines(tiles[..i]))
      {
        var m := tiles[i];
        SavedLinesStep(tiles, i);
        text := text + MetaText(m) + "\n";
        i := i + 1;
      }
      assert tiles[..i] == tiles;
      ok := true;
    }

    /**
     * load from the file's text (None when the file does not open). The tiles are cleared
     * first, so a file that does not open leaves no tiles and the extent as it was;
     * otherwise the header is skipped, each non-empty line that parses adds its tile, and
     * the extent is recomputed.
     */
    method Load(content: Option<string>) returns (ok: bool)
      modifies this
      ensures content.None? ==> !ok && tiles == [] && mapWidth == old(mapWidth) && mapHeight == old(mapHeight)
      ensures content.Some? ==> ok && tiles == LoadedTiles(content.value) && (mapWidth, mapHeight) == Extent(tiles)
    {
      tiles := [];
      if content.None? {
        return false;
      }
      var lines := LinesFrom(content.value, 0);
      var loaded: seq<TileMeta> := [];
      if |lines| > 0 {
        loaded := ReadTileLines(lines[1..]);
      }
      tiles := loaded;
      mapWidth, mapHeight := ComputeExtent(tiles);
      ok := true;
    }
  }
}
