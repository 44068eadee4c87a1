/**
 * The region quad-tree of quadtree.py: a node covers the square [x, x+size) x [y, y+size)
 * of a grid and either is a leaf holding one value or has four children, the quarters
 * top-left, top-right, bottom-left, bottom-right. `build` splits down to unit cells,
 * `compress` merges four equal leaf children (one level per call), `reconstruct` writes
 * the leaf values back into a grid.
 *
 * The pure part (datatype Tree and the functions Built, Subdivided, Compressed and Paint) states what
 * the node methods do; the class Node is the mutable tree itself.
 */
module RegionQuadTree {
  import opened Wrappers

  /** The state of a node: its square, its value (None until set) and its children. */
  datatype Tree<V> = Tree(x: int, y: int, size: int, value: Option<V>, kids: seq<Tree<V>>)

  /** A node as RegionQuadTreeNode.__init__ leaves it: no value, no children. */
  function Fresh<V>(x: int, y: int, size: int): Tree<V> {
    Tree(x, y, size, None, [])
  }

  predicate InSquare<V>(t: Tree<V>, c: int, r: int) {
    t.x <= c < t.x + t.size && t.y <= r < t.y + t.size
  }

  /** k has the square of the i-th quarter of t (0 top-left, 1 top-right, 2 bottom-left, 3 bottom-right). */
  predicate IsQuarter<V>(t: Tree<V>, i: int, k: Tree<V>) {
    var h := t.size / 2;
    k.x == t.x + (if i % 2 == 1 then h else 0) && k.y == t.y + (if i >= 2 then h else 0) && k.size == h
  }

  /** Every node has no children or exactly the four quarters of its square, of a side of at least 2. */
  predicate WellFormed<V>(t: Tree<V>)
    decreases t
  {
    t.kids == [] ||
    (|t.kids| == 4 && t.size >= 2 &&
     forall i :: 0 <= i < 4 ==> IsQuarter(t, i, t.kids[i]) && WellFormed(t.kids[i]))
  }

  /** Well formed, and every split square has an even side, so its quarters tile it exactly. */
  predicate Exact<V>(t: Tree<V>)
    decreases t
  {
    t.kids == [] ||
    (|t.kids| == 4 && t.size >= 2 && t.size % 2 == 0 &&
     forall i :: 0 <= i < 4 ==> IsQuarter(t, i, t.kids[i]) && Exact(t.kids[i]))
  }

  predicate PowerOfTwo(n: int)
    decreases if n < 0 then 0 else n
  {
    n == 1 || (n >= 2 && n % 2 == 0 && PowerOfTwo(n / 2))
  }

  /** Cells [x, x+size) x [y, y+size) can be read as image[row][column]. */
  predicate RegionInImage<V>(image: seq<seq<V>>, x: int, y: int, size: int) {
    0 <= x && 0 <= y && y + size <= |image| &&
    forall r :: y <= r < y + size ==> x + size <= |image[r]|
  }

  /** image[y][x], or None where the image has no such cell. */
  function Cell<V>(image: seq<seq<V>>, x: int, y: int): Option<V> {
    if 0 <= y < |image| && 0 <= x < |image[y]| then Some(image[y][x]) else None
  }

  /** The four fresh children that subdivide creates before building them. */
  function Quarters<V>(t: Tree<V>): (q: seq<Tree<V>>)
    ensures |q| == 4 && forall i :: 0 <= i < 4 ==> IsQuarter(t, i, q[i]) && q[i].kids == []
  {
    var h := t.size / 2;
    [Fresh(t.x, t.y, h), Fresh(t.x + h, t.y, h), Fresh(t.x, t.y + h, h), Fresh(t.x + h, t.y + h, h)]
  }

  /** The quarters of a square of side at least 2 inside the image are inside the image. */
  lemma QuartersInImage<V>(t: Tree<V>, image: seq<seq<V>>)
    requires t.size >= 2 && RegionInImage(image, t.x, t.y, t.size)
    ensures forall i :: 0 <= i < 4 ==>
      (Quarters(t)[i].size >= 1 && RegionInImage(image, Quarters(t)[i].x, Quarters(t)[i].y, Quarters(t)[i].size))
  {
  }

  /**
   * `build`: a node of size 1 takes image[y][x] as its value; a larger node is subdivided.
   * Sizes below 1 are excluded: there the recursion of quadtree.py never ends. A cell
   * outside the image reads as None here; the methods never get there, as they require
   * the square to lie inside the image (quadtree.py raises IndexError otherwise).
   */
  function Built<V>(t: Tree<V>, image: seq<seq<V>>): (r: Tree<V>)
    requires t.size >= 1
    requires t.kids != [] ==> t.size >= 2
    ensures r.x == t.x && r.y == t.y && r.size == t.size
    decreases t.size, 1
  {
    if t.size == 1 then t.(value := Cell(image, t.x, t.y)) else Subdivided(t, image)
  }

  /** `subdivide`: a leaf gets its four quarters as children, each built; an internal node is left alone. */
  function Subdivided<V>(t: Tree<V>, image: seq<seq<V>>): (r: Tree<V>)
    requires t.kids == [] ==> t.size >= 2
    ensures r.x == t.x && r.y == t.y && r.size == t.size && r.value == t.value
    decreases t.size, 0
  {
    if t.kids == [] then
      var q := Quarters(t);
      t.(kids := [Built(q[0], image), Built(q[1], image), Built(q[2], image), Built(q[3], image)])
    else t
  }

  /** The merge test of `compress`: every child is a leaf with the value of the first child. */
  predicate Mergeable<V(==)>(t: Tree<V>) {
    t.kids != [] && forall i :: 0 <= i < |t.kids| ==> t.kids[i].kids == [] && t.kids[i].value == t.kids[0].value
  }

  /**
   * `compress`: a leaf is left alone; a node whose children are all leaves with one value
   * becomes a leaf with that value; any other node stays internal and each child is
   * compressed in turn. The threshold argument of quadtree.py plays no part.
   */
  function Compressed<V(==)>(t: Tree<V>): (r: Tree<V>)
    ensures r.x == t.x && r.y == t.y && r.size == t.size
    ensures |r.kids| == 0 || |r.kids| == |t.kids|
    decreases t
  {
    if t.kids == [] then t
    else if Mergeable(t) then t.(value := t.kids[0].value, kids := [])
    else
      var ks := seq(|t.kids|, i requires 0 <= i < |t.kids| => Compressed(t.kids[i]));
      assert forall i :: 0 <= i < |t.kids| ==> IsQuarter(t, i, t.kids[i]) ==> IsQuarter(t, i, ks[i]);
      t.(kids := ks)
  }

  /**
   * `reconstruct` seen from one cell: the value the cell (c, r) holds after the tree has
   * written into a grid where it held o. A leaf writes its value into every cell of its
   * square; an internal node lets its children write in order.
   */
  function Paint<V>(t: Tree<V>, c: int, r: int, o: Option<V>): Option<V>
    decreases t, 1
  {
    if t.kids == [] then (if InSquare(t, c, r) then t.value else o)
    else PaintKids(t, |t.kids|, c, r, o)
  }

  /** The cell after the first n children of t have written into it. */
  function PaintKids<V>(t: Tree<V>, n: nat, c: int, r: int, o: Option<V>): Option<V>
    requires n <= |t.kids|
    decreases t, 0, n
  {
    if n == 0 then o else Paint(t.kids[n - 1], c, r, PaintKids(t, n - 1, c, r, o))
  }

  // ---------------------------------------------------------------------------------
  // Properties of the pure model
  // ---------------------------------------------------------------------------------

  lemma {:induction false} ExactIsWellFormed<V>(t: Tree<V>)
    requires Exact(t)
    ensures WellFormed(t)
    decreases t
  {
    if t.kids != [] {
      forall i | 0 <= i < 4 ensures WellFormed(t.kids[i]) {
        ExactIsWellFormed(t.kids[i]);
      }
    }
  }

  /** `compress` keeps a tree a quad-tree, and an exactly tiled one exactly tiled. */
  lemma {:induction false} CompressedKeepsShape<V>(t: Tree<V>)
    ensures WellFormed(t) ==> WellFormed(Compressed(t))
    ensures Exact(t) ==> Exact(Compressed(t))
    decreases t
  {
    if t.kids != [] && !Mergeable(t) {
      forall i | 0 <= i < |t.kids| {
        CompressedKeepsShape(t.kids[i]);
      }
    }
  }

  /** Four children writing in turn, spelled out. */
  lemma PaintFour<V>(t: Tree<V>, c: int, r: int, o: Option<V>)
    requires |t.kids| == 4
    ensures Paint(t, c, r, o) ==
      Paint(t.kids[3], c, r, Paint(t.kids[2], c, r, Paint(t.kids[1], c, r, Paint(t.kids[0], c, r, o))))
  {
    assert PaintKids(t, 1, c, r, o) == Paint(t.kids[0], c, r, o);
    assert PaintKids(t, 2, c, r, o) == Paint(t.kids[1], c, r, PaintKids(t, 1, c, r, o));
    assert PaintKids(t, 3, c, r, o) == Paint(t.kids[2], c, r, PaintKids(t, 2, c, r, o));
  }

  /** `reconstruct` writes nothing outside the node's square. */
  lemma {:induction false} PaintOutside<V>(t: Tree<V>, c: int, r: int, o: Option<V>)
    requires WellFormed(t) && !InSquare(t, c, r)
    ensures Paint(t, c, r, o) == o
    decreases t
  {
    if t.kids != [] {
      forall i | 0 <= i < 4 ensures !InSquare(t.kids[i], c, r) {
      }
      PaintFour(t, c, r, o);
      PaintOutside(t.kids[0], c, r, o);
      PaintOutside(t.kids[1], c, r, o);
      PaintOutside(t.kids[2], c, r, o);
      PaintOutside(t.kids[3], c, r, o);
    }
  }

  /** The quarter of an even square that contains a cell of it. */
  function QuarterOf<V>(t: Tree<V>, c: int, r: int): (j: nat)
    requires t.size >= 2 && t.size % 2 == 0 && InSquare(t, c, r)
    ensures j < 4
  {
    var h := t.size / 2;
    (if c < t.x + h then 0 else 1) + (if r < t.y + h then 0 else 2)
  }

  /**
   * When exactly one child's square holds the cell, the node writes there what that
   * child writes.
   */
  lemma PaintOneChild<V>(t: Tree<V>, c: int, r: int, o: Option<V>)
    requires Exact(t) && t.kids != [] && InSquare(t, c, r)
    ensures InSquare(t.kids[QuarterOf(t, c, r)], c, r)
    ensures Paint(t, c, r, o) == Paint(t.kids[QuarterOf(t, c, r)], c, r, o)
  {
    var j := QuarterOf(t, c, r);
    forall i | 0 <= i < 4 ensures WellFormed(t.kids[i]) && (InSquare(t.kids[i], c, r) <==> i == j) {
      ExactIsWellFormed(t.kids[i]);
    }
    PaintFour(t, c, r, o);
    if j == 0 {
      var v := Paint(t.kids[0], c, r, o);
      PaintOutside(t.kids[1], c, r, v);
      PaintOutside(t.kids[2], c, r, v);
      PaintOutside(t.kids[3], c, r, v);
    } else if j == 1 {
      PaintOutside(t.kids[0], c, r, o);
      var v := Paint(t.kids[1], c, r, o);
      PaintOutside(t.kids[2], c, r, v);
      PaintOutside(t.kids[3], c, r, v);
    } else if j == 2 {
      PaintOutside(t.kids[0], c, r, o);
      PaintOutside(t.kids[1], c, r, o);
      var v := Paint(t.kids[2], c, r, o);
      PaintOutside(t.kids[3], c, r, v);
    } else {
      PaintOutside(t.kids[0], c, r, o);
      PaintOutside(t.kids[1], c, r, o);
      PaintOutside(t.kids[2], c, r, o);
    }
  }

  /**
   * In an exactly tiled tree `reconstruct` writes every cell of the node's square: what
   * a cell ends up holding does not depend on what it held before.
   */
  lemma {:induction false} PaintInside<V>(t: Tree<V>, c: int, r: int, o1: Option<V>, o2: Option<V>)
    requires Exact(t) && InSquare(t, c, r)
    ensures Paint(t, c, r, o1) == Paint(t, c, r, o2)
    decreases t
  {
    if t.kids != [] {
      var j := QuarterOf(t, c, r);
      PaintOneChild(t, c, r, o1);
      PaintOneChild(t, c, r, o2);
      PaintInside(t.kids[j], c, r, o1, o2);
    }
  }

  lemma {:induction false} PowerOfTwoHalf(n: int)
    requires PowerOfTwo(n) && n >= 2
    ensures n % 2 == 0 && PowerOfTwo(n / 2) && n / 2 >= 1
  {
  }

  /** Building a fresh node over a power-of-two square gives an exactly tiled tree. */
  lemma {:induction false} BuildExact<V>(x: int, y: int, n: int, image: seq<seq<V>>)
    requires PowerOfTwo(n) && RegionInImage(image, x, y, n)
    ensures n >= 1
    ensures Exact(Built(Fresh(x, y, n), image))
    decreases n
  {
    if n >= 2 {
      PowerOfTwoHalf(n);
      var t: Tree<V> := Fresh(x, y, n);
      var q := Quarters(t);
      forall i | 0 <= i < 4 ensures Exact(Built(q[i], image)) {
        BuildExact(q[i].x, q[i].y, n / 2, image);
      }
    }
  }

  /** A fresh node of side at least 2 is built into its four built quarters. */
  lemma BuildSplits<V>(x: int, y: int, n: int, image: seq<seq<V>>)
    requires n >= 2 && RegionInImage(image, x, y, n)
    ensures var q := Quarters(Fresh<V>(x, y, n));
      Built(Fresh(x, y, n), image) == Tree(x, y, n, None, [Built(q[0], image), Built(q[1], image), Built(q[2], image), Built(q[3], image)])
  {
    assert Built(Fresh(x, y, n), image) == Subdivided(Fresh(x, y, n), image);
  }

  /**
   * Round trip: building a fresh node over a power-of-two square of the image and then
   * reconstructing writes image[r][c] into every cell of the square, whatever it held.
   */
  lemma {:induction false} BuildReconstruct<V>(x: int, y: int, n: int, image: seq<seq<V>>, c: int, r: int, o: Option<V>)
    requires PowerOfTwo(n) && RegionInImage(image, x, y, n)
    requires x <= c < x + n && y <= r < y + n
    ensures Paint(Built(Fresh(x, y, n), image), c, r, o) == Some(image[r][c])
    decreases n
  {
    if n >= 2 {
      var k := BuiltChildAt(x, y, n, image, c, r, o);
      BuildReconstruct(k.x, k.y, n / 2, image, c, r, o);
    }
  }

  /** The step of BuildReconstruct: the quarter of a built square holding (c, r) paints it. */
  lemma BuiltChildAt<V>(x: int, y: int, n: int, image: seq<seq<V>>, c: int, r: int, o: Option<V>) returns (k: Tree<V>)
    requires n >= 2 && PowerOfTwo(n) && RegionInImage(image, x, y, n)
    requires x <= c < x + n && y <= r < y + n
    ensures k == Fresh(k.x, k.y, n / 2) && PowerOfTwo(n / 2) && RegionInImage(image, k.x, k.y, n / 2)
    ensures k.x <= c < k.x + n / 2 && k.y <= r < k.y + n / 2
    ensures Paint(Built(Fresh(x, y, n), image), c, r, o) == Paint(Built(k, image), c, r, o)
  {
    var t := Built(Fresh(x, y, n), image);
    PowerOfTwoHalf(n);
    BuildExact(x, y, n, image);
    BuildSplits(x, y, n, image);
    var q := Quarters(Fresh<V>(x, y, n));
    QuartersInImage(Fresh<V>(x, y, n), image);
    var j := QuarterOf(t, c, r);
    PaintOneChild(t, c, r, o);
    assert t.kids[j] == Built(q[j], image);
    k := q[j];
  }

  /** Every leaf of a freshly built tree is a unit cell holding its image value, for any size. */
  ghost predicate LeavesMatch<V>(t: Tree<V>, image: seq<seq<V>>)
    decreases t
  {
    if t.kids == [] then
      t.size == 1 && 0 <= t.y < |image| && 0 <= t.x < |image[t.y]| && t.value == Some(image[t.y][t.x])
    else forall i :: 0 <= i < |t.kids| ==> LeavesMatch(t.kids[i], image)
  }

  /** A freshly built tree is well formed, and it is split exactly when its side is at least 2. */
  lemma {:induction false} BuildWellFormed<V>(x: int, y: int, n: int, image: seq<seq<V>>)
    requires n >= 1 && RegionInImage(image, x, y, n)
    ensures WellFormed(Built(Fresh(x, y, n), image))
    ensures n >= 2 <==> |Built(Fresh(x, y, n), image).kids| == 4
    decreases n
  {
    if n >= 2 {
      BuildSplits(x, y, n, image);
      var q := Quarters(Fresh<V>(x, y, n));
      forall i | 0 <= i < 4 ensures WellFormed(Built(q[i], image)) {
        BuildWellFormed(q[i].x, q[i].y, n / 2, image);
      }
    }
  }

  lemma {:induction false} BuildLeavesMatch<V>(x: int, y: int, n: int, image: seq<seq<V>>)
    requires n >= 1 && RegionInImage(image, x, y, n)
    ensures LeavesMatch(Built(Fresh(x, y, n), image), image)
    decreases n
  {
    if n >= 2 {
      BuildSplits(x, y, n, image);
      var q := Quarters(Fresh<V>(x, y, n));
      forall i | 0 <= i < 4 ensures LeavesMatch(Built(q[i], image), image) {
        BuildLeavesMatch(q[i].x, q[i].y, n / 2, image);
      }
    }
  }

  lemma {:induction false} PaintKidsCongruent<V>(t: Tree<V>, u: Tree<V>, n: nat, c: int, r: int, o: Option<V>)
    requires n <= |t.kids| && n <= |u.kids|
    requires forall i, o' :: 0 <= i < n ==> Paint(t.kids[i], c, r, o') == Paint(u.kids[i], c, r, o')
    ensures PaintKids(t, n, c, r, o) == PaintKids(u, n, c, r, o)
  {
    if n > 0 {
      PaintKidsCongruent(t, u, n - 1, c, r, o);
    }
  }

  /** `compress` keeps the meaning of an exactly tiled tree: reconstructing after it writes the same grid. */
  lemma {:induction false} CompressPreservesPaint<V>(t: Tree<V>, c: int, r: int, o: Option<V>)
    requires Exact(t)
    ensures Paint(Compressed(t), c, r, o) == Paint(t, c, r, o)
    decreases t
  {
    if t.kids == [] {
    } else if Mergeable(t) {
      ExactIsWellFormed(t);
      if InSquare(t, c, r) {
        PaintOneChild(t, c, r, o);
      } else {
        PaintOutside(t, c, r, o);
      }
    } else {
      var u := Compressed(t);
      forall i, o' | 0 <= i < 4 ensures Paint(u.kids[i], c, r, o') == Paint(t.kids[i], c, r, o') {
        CompressPreservesPaint(t.kids[i], c, r, o');
      }
      PaintKidsCongruent(u, t, 4, c, r, o);
    }
  }

  /** A grid whose every cell holds v. */
  ghost predicate Uniform<V>(image: seq<seq<V>>, n: nat, v: V) {
    |image| == n && forall r :: 0 <= r < n ==> |image[r]| == n && forall c :: 0 <= c < n ==> image[r][c] == v
  }

  function Leaf<V>(x: int, y: int, v: V): Tree<V> {
    Tree(x, y, 1, Some(v), [])
  }

  /** Building a 2x2 square gives four unit leaves. */
  lemma BuildTwo<V>(x: int, y: int, image: seq<seq<V>>)
    requires RegionInImage(image, x, y, 2)
    ensures Built(Fresh(x, y, 2), image) == Tree(x, y, 2, None,
      [Leaf(x, y, image[y][x]), Leaf(x + 1, y, image[y][x + 1]), Leaf(x, y + 1, image[y + 1][x]), Leaf(x + 1, y + 1, image[y + 1][x + 1])])
  {
    var q := Quarters(Fresh<V>(x, y, 2));
    assert Built(Fresh(x, y, 2), image).kids == [Built(q[0], image), Built(q[1], image), Built(q[2], image), Built(q[3], image)];
  }

  /** Building a 4x4 grid gives four built 2x2 squares. */
  lemma BuildFour<V>(image: seq<seq<V>>)
    requires RegionInImage(image, 0, 0, 4)
    ensures Built(Fresh(0, 0, 4), image) == Tree(0, 0, 4, None,
      [Built(Fresh(0, 0, 2), image), Built(Fresh(2, 0, 2), image), Built(Fresh(0, 2, 2), image), Built(Fresh(2, 2, 2), image)])
  {
    var q := Quarters(Fresh<V>(0, 0, 4));
    assert q == [Fresh(0, 0, 2), Fresh(2, 0, 2), Fresh(0, 2, 2), Fresh(2, 2, 2)];
    assert Built(Fresh(0, 0, 4), image) == Subdivided(Fresh(0, 0, 4), image);
    assert Built(Fresh(0, 0, 4), image).kids == [Built(q[0], image), Built(q[1], image), Built(q[2], image), Built(q[3], image)];
  }

  /**
   * The first compress of a built 4x4 grid: the root stays internal (its children are not
   * leaves) and each 2x2 child whose four cells agree becomes a leaf.
   */
  lemma CompressFour<V>(image: seq<seq<V>>)
    requires RegionInImage(image, 0, 0, 4)
    ensures var once := Compressed(Built(Fresh(0, 0, 4), image));
      |once.kids| == 4 &&
      forall i :: 0 <= i < 4 ==> once.kids[i] == Compressed(Built(Fresh(2 * (i % 2), 2 * (i / 2), 2), image))
  {
    BuildFour(image);
    var t := Built(Fresh(0, 0, 4), image);
    assert !Mergeable(t) by {
      BuildTwo(0, 0, image);
      assert t.kids[0].kids != [];
    }
  }

  /** A built 2x2 square whose cells all hold v compresses to one leaf holding v. */
  lemma CompressTwo<V>(x: int, y: int, image: seq<seq<V>>, v: V)
    requires RegionInImage(image, x, y, 2)
    requires image[y][x] == v && image[y][x + 1] == v && image[y + 1][x] == v && image[y + 1][x + 1] == v
    ensures Compressed(Built(Fresh(x, y, 2), image)) == Tree(x, y, 2, Some(v), [])
  {
    BuildTwo(x, y, image);
    assert Mergeable(Built(Fresh(x, y, 2), image));
  }

  /**
   * `compress` merges one level per call: on a uniform 4x4 grid the first call leaves the
   * root internal with four equal leaf children, and only a second call collapses it.
   */
  lemma CompressOneLevelPerCall<V>(image: seq<seq<V>>, v: V)
    requires Uniform(image, 4, v)
    ensures var once := Compressed(Built(Fresh(0, 0, 4), image));
      |once.kids| == 4 && (forall i :: 0 <= i < 4 ==> once.kids[i].kids == [] && once.kids[i].value == Some(v)) &&
      Compressed(once) == Tree(0, 0, 4, Some(v), [])
  {
    CompressFour(image);
    CompressTwo(0, 0, image, v);
    CompressTwo(2, 0, image, v);
    CompressTwo(0, 2, image, v);
    CompressTwo(2, 2, image, v);
    var once := Compressed(Built(Fresh(0, 0, 4), image));
    assert Mergeable(once);
  }

  /** The grid of the example in quadtree.py. */
  function Sample(): (g: seq<seq<int>>)
    ensures |g| == 4 && forall r :: 0 <= r < 4 ==> |g[r]| == 4
  {
    [[0, 0, 1, 1],
     [0, 0, 1, 1],
     [1, 1, 0, 0],
     [1, 1, 0, 0]]
  }

  /**
   * The example: after build and compress the root stays internal with four leaf
   * children holding 0, 1, 1, 0, and reconstruction reproduces the grid.
   */
  lemma SampleVector(c: int, r: int, o: Option<int>)
    requires 0 <= c < 4 && 0 <= r < 4
    ensures var t := Compressed(Built(Fresh(0, 0, 4), Sample()));
      |t.kids| == 4 && (forall i :: 0 <= i < 4 ==> t.kids[i].kids == []) &&
      [t.kids[0].value, t.kids[1].value, t.kids[2].value, t.kids[3].value] == [Some(0), Some(1), Some(1), Some(0)] &&
      Paint(t, c, r, o) == Some(Sample()[r][c])
  {
    var image := Sample();
    var t := Built(Fresh(0, 0, 4), image);
    CompressFour(image);
    CompressTwo(0, 0, image, 0);
    CompressTwo(2, 0, image, 1);
    CompressTwo(0, 2, image, 1);
    CompressTwo(2, 2, image, 0);
    assert PowerOfTwo(4) by { assert PowerOfTwo(2); }
    BuildExact(0, 0, 4, image);
    CompressPreservesPaint(t, c, r, o);
    BuildReconstruct(0, 0, 4, image, c, r, o);
  }

  // ---------------------------------------------------------------------------------
  // The mutable tree
  // ---------------------------------------------------------------------------------

  /**
   * RegionQuadTreeNode. The image and the square never change after construction; the
   * value and the children do. Model is the node's state as a Tree, Repr the nodes of
   * its subtree.
   */
  class Node<V(==)> {
    const image: seq<seq<V>>
    const x: int
    const y: int
    const size: int
    var value: Option<V>
    var children: seq<Node<V>>
    ghost var Model: Tree<V>
    ghost var Repr: set<Node<V>>

    ghost predicate Valid()
      reads this, Repr
      decreases Repr
    {
      this in Repr &&
      Model.x == x && Model.y == y && Model.size == size && Model.value == value &&
      |children| == |Model.kids| &&
      (children == [] || (|children| == 4 && size >= 2)) &&
      (forall i :: 0 <= i < |children| ==>
        children[i] in Repr && children[i].Repr <= Repr && this !in children[i].Repr &&
        children[i].image == image && children[i].Valid() && children[i].Model == Model.kids[i]) &&
      (forall i, j :: 0 <= i < j < |children| ==> children[i].Repr !! children[j].Repr)
    }

    constructor (image: seq<seq<V>>, x: int, y: int, size: int)
      ensures Valid() && fresh(Repr)
      ensures this.image == image && Model == Fresh(x, y, size)
    {
      this.image := image;
      this.x := x;
      this.y := y;
      this.size := size;
      value := None;
      children := [];
      Model := Fresh(x, y, size);
      Repr := {this};
    }

    /** `is_leaf`: no children; a node that has children has the four quarters. */
    function IsLeaf(): (leaf: bool)
      reads this, Repr
      requires Valid()
      ensures leaf <==> Model.kids == []
      ensures !leaf ==> |children| == 4 && size >= 2
    {
      |children| == 0
    }

    /** `build`: a unit node reads its value from the image, a larger one subdivides. */
    method Build()
      requires Valid() && size >= 1 && RegionInImage(image, x, y, size)
      modifies Repr
      ensures Valid() && fresh(Repr - old(Repr))
      ensures Model == Built(old(Model), image)
      decreases size, 2
    {
      if size == 1 {
        value := Some(image[y][x]);
        Model := Model.(value := value);
      } else {
        Subdivide();
      }
    }

    /** `subdivide`: a leaf gets its four quarters as new children and builds each of them. */
    method Subdivide()
      requires Valid() && (children == [] ==> size >= 2 && RegionInImage(image, x, y, size))
      modifies Repr
      ensures Valid() && fresh(Repr - old(Repr))
      ensures Model == Subdivided(old(Model), image)
      decreases size, 1
    {
      if IsLeaf() {
        var kids := NewQuarters();
        ghost var q := Quarters(Fresh<V>(x, y, size));
        assert Quarters(Model) == q;
        ghost var built := [Built(q[0], image), Built(q[1], image), Built(q[2], image), Built(q[3], image)];
        assert Subdivided(Model, image) == Model.(kids := built);
        assert [kids[0].Model, kids[1].Model, kids[2].Model, kids[3].Model] == built;
        assert fresh(kids[0].Repr + kids[1].Repr + kids[2].Repr + kids[3].Repr);
        Attach(kids);
      }
    }

    /** `self.children = [...]` on a leaf: the new, disjoint subtrees become its children. */
    method Attach(kids: seq<Node<V>>)
      requires Valid() && children == [] && size >= 2 && |kids| == 4
      requires forall i :: 0 <= i < 4 ==> kids[i].Valid() && kids[i].Repr !! Repr && kids[i].image == image
      requires forall i, j :: 0 <= i < j < 4 ==> kids[i].Repr !! kids[j].Repr
      modifies this
      ensures Valid() && children == kids
      ensures Repr == old(Repr + kids[0].Repr + kids[1].Repr + kids[2].Repr + kids[3].Repr)
      ensures Model == old(Model.(kids := [kids[0].Model, kids[1].Model, kids[2].Model, kids[3].Model]))
    {
      children := kids;
      Repr := Repr + kids[0].Repr + kids[1].Repr + kids[2].Repr + kids[3].Repr;
      Model := Model.(kids := [kids[0].Model, kids[1].Model, kids[2].Model, kids[3].Model]);
    }

    /**
     * The four quarters of this node's square as new nodes, each built. quadtree.py
     * creates all four before building them; building one touches only its own new
     * subtree, so creating and building them one after the other is the same.
     */
    method NewQuarters() returns (kids: seq<Node<V>>)
      requires size >= 2 && RegionInImage(image, x, y, size)
      ensures |kids| == 4
      ensures forall i :: 0 <= i < 4 ==>
        kids[i].Valid() && fresh(kids[i].Repr) && kids[i].image == image && kids[i].Model == Built(Quarters(Fresh(x, y, size))[i], image)
      ensures forall i, j :: 0 <= i < j < 4 ==> kids[i].Repr !! kids[j].Repr
      decreases size, 0
    {
      var q := Quarters(Fresh<V>(x, y, size));
      QuartersInImage(Fresh<V>(x, y, size), image);
      kids := [];
      var i := 0;
      while i < 4
        invariant 0 <= i <= 4 && |kids| == i
        invariant forall j :: 0 <= j < i ==>
          kids[j].Valid() && fresh(kids[j].Repr) && kids[j].image == image && kids[j].Model == Built(q[j], image)
        invariant forall j, k :: 0 <= j < k < i ==> kids[j].Repr !! kids[k].Repr
      {
        var kid := NewBuilt(image, q[i].x, q[i].y, q[i].size);
        kids := kids + [kid];
        i := i + 1;
      }
    }

    /**
     * `compress`: four equal leaf children are merged into this node; otherwise each
     * child is compressed in turn. The threshold is accepted and ignored.
     */
    method Compress(threshold: int)
      requires Valid()
      modifies Repr
      ensures Valid() && Repr == old(Repr)
      ensures Model == Compressed(old(Model))
      decreases Repr, 2
    {
      if IsLeaf() {
        return;
      }
      if forall i :: 0 <= i < |children| ==> children[i].IsLeaf() && children[i].value == children[0].value {
        value := children[0].value;
        children := [];
        Model := Model.(value := value, kids := []);
      } else {
        CompressChildren(threshold);
      }
    }

    /** The loop of `compress` over the children of a node that is not merged. */
    method CompressChildren(threshold: int)
      requires Valid() && children != [] && !Mergeable(Model)
      modifies Repr
      ensures Valid() && Repr == old(Repr)
      ensures Model == Compressed(old(Model))
      decreases Repr, 1
    {
      ghost var target := Compressed(Model).kids;
      assert |target| == 4 && forall j :: 0 <= j < 4 ==> target[j] == Compressed(Model.kids[j]);
      var i := 0;
      while i < |children|
        invariant 0 <= i <= |children| == |old(Model).kids| == 4
        invariant children == old(children) && Repr == old(Repr) && Model == old(Model) && value == old(value)
        invariant forall j :: 0 <= j < 4 ==>
          children[j].Valid() && children[j] in children[j].Repr && children[j].Repr <= Repr && this !in children[j].Repr
        invariant forall j, k :: 0 <= j < k < 4 ==> children[j].Repr !! children[k].Repr
        invariant forall j :: 0 <= j < 4 ==> children[j].Model == if j < i then target[j] else old(Model).kids[j]
      {
        CompressChild(i, threshold);
        i := i + 1;
      }
      Model := Model.(kids := target);
    }

    /** One round of that loop: child i is compressed, its siblings are untouched. */
    method CompressChild(i: nat, threshold: int)
      requires this in Repr && i < |children| == 4
      requires forall j :: 0 <= j < 4 ==>
        children[j].Valid() && children[j] in children[j].Repr && children[j].Repr <= Repr && this !in children[j].Repr
      requires forall j, k :: 0 <= j < k < 4 ==> children[j].Repr !! children[k].Repr
      modifies children[i].Repr
      ensures forall j :: 0 <= j < 4 ==> children[j].Valid() && children[j].Repr == old(children[j].Repr)
      ensures forall j :: 0 <= j < 4 ==>
        children[j].Model == if j == i then Compressed(old(children[j].Model)) else old(children[j].Model)
      decreases Repr, 0
    {
      children[i].Compress(threshold);
      forall j | 0 <= j < 4 && j != i
        ensures children[j].Valid() && children[j].Repr == old(children[j].Repr) && children[j].Model == old(children[j].Model)
      {
        assert children[j] in old(children[j].Repr);
      }
    }

    /**
     * `reconstruct`: a leaf writes its value into every cell of its square of the grid,
     * an internal node lets its children write in order.
     */
    method Reconstruct(grid: array2<Option<V>>)
      requires Valid() && WellFormed(Model)
      requires 0 <= x && 0 <= y && y + size <= grid.Length0 && x + size <= grid.Length1
      modifies grid
      ensures forall r, c :: 0 <= r < grid.Length0 && 0 <= c < grid.Length1 ==>
        grid[r, c] == Paint(Model, c, r, old(grid[r, c]))
      decreases Repr
    {
      if IsLeaf() {
        var r := y;
        while r < y + size
          invariant r == y || y <= r <= y + size
          invariant forall rr, cc :: 0 <= rr < grid.Length0 && 0 <= cc < grid.Length1 ==>
            grid[rr, cc] == (if y <= rr < r && x <= cc < x + size then value else old(grid[rr, cc]))
        {
          var c := x;
          while c < x + size
            invariant c == x || x <= c <= x + size
            invariant forall rr, cc :: 0 <= rr < grid.Length0 && 0 <= cc < grid.Length1 ==>
              grid[rr, cc] == (if (y <= rr < r && x <= cc < x + size) || (rr == r && x <= cc < c) then value else old(grid[rr, cc]))
          {
            grid[r, c] := value;
            c := c + 1;
          }
          r := r + 1;
        }
      } else {
        var i := 0;
        while i < |children|
          invariant 0 <= i <= |children|
          invariant forall rr, cc :: 0 <= rr < grid.Length0 && 0 <= cc < grid.Length1 ==>
            grid[rr, cc] == PaintKids(Model, i, cc, rr, old(grid[rr, cc]))
        {
          assert IsQuarter(Model, i, Model.kids[i]);
          children[i].Reconstruct(grid);
          i := i + 1;
        }
      }
    }
  }

  /** A new node over the given square, built. */
  method NewBuilt<V(==)>(image: seq<seq<V>>, x: int, y: int, size: int) returns (node: Node<V>)
    requires size >= 1 && RegionInImage(image, x, y, size)
    ensures node.Valid() && fresh(node.Repr) && node.image == image
    ensures node.Model == Built(Fresh(x, y, size), image)
    decreases size, 3
  {
    node := new Node(image, x, y, size);
    node.Build();
  }

  /**
   * The example run of quadtree.py: build a tree over the sample grid, compress it once
   * and reconstruct it into a grid of zeros; the result equals the sample.
   */
  method Example() returns (reconstructed: array2<Option<int>>)
    ensures reconstructed.Length0 == 4 && reconstructed.Length1 == 4
    ensures forall r, c :: 0 <= r < 4 && 0 <= c < 4 ==> reconstructed[r, c] == Some(Sample()[r][c])
  {
    var image := Sample();
    var tree := new Node(image, 0, 0, |image|);
    tree.Build();
    tree.Compress(1);
    BuildWellFormed(0, 0, 4, image);
    CompressedKeepsShape(Built(Fresh(0, 0, 4), image));
    reconstructed := new Option<int>[4, 4]((r, c) => Some(0));
    tree.Reconstruct(reconstructed);
    forall r, c | 0 <= r < 4 && 0 <= c < 4
      ensures Paint(tree.Model, c, r, Some(0)) == Some(Sample()[r][c])
    {
      SampleVector(c, r, Some(0));
    }
  }
}
