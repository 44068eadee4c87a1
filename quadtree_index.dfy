/**
 * QuadTreeIndex: a spatial index over the tile list of TileIndex. Each IndexQuadTreeNode
 * wraps a QuadTreeNode (its rectangle and leaf flag) and holds the indices of the tiles
 * stored at it. A tile goes down only into a child that contains it whole; a leaf that
 * holds more than maxTilesPerNode tiles splits (above maxDepth) and hands its tiles down.
 *
 * The tree is modelled as a value, INode, that the QuadTreeIndex class holds in a field;
 * insertTile, queryRecursive and calculateStatistics are recursive functions over it.
 */
module QuadTreeIndexing {
  import opened FixedWidth
  import opened Wrappers
  import opened Rects
  import opened TileTypes
  import opened QuadTreeNodes
  import opened TileIndexing

  /** QuadTreeIndex::Config: the deepest level a split may create and the leaf capacity. */
  datatype Config = Config(maxDepth: int, maxTilesPerNode: int)

  const DefaultConfig: Config := Config(8, 8)

  /** IndexQuadTreeNode: the wrapped QuadTreeNode, the tile indices stored here and the index children. */
  datatype INode = INode(node: QNode, tileIndices: seq<int>, children: seq<INode>)

  /** The IndexQuadTreeNode constructor: a fresh leaf QuadTreeNode, no tiles and no children. */
  function NewIndexNode(r: Rect): (n: INode)
    ensures n.node == NewLeaf(r) && n.tileIndices == [] && n.children == []
  {
    INode(NewLeaf(r), [], [])
  }

  function NodeRect(n: INode): Rect {
    n.node.rect
  }

  /**
   * IndexQuadTreeNode::intersects(rx, ry, rw, rh): the rectangle r and the node overlap,
   * the same half-open test as the linear index uses for tiles against a viewport.
   */
  predicate Intersects(n: INode, r: Rect) {
    Overlaps(r, NodeRect(n))
  }

  /** The contains test insertTile uses: r lies entirely within the node's rectangle. */
  predicate NodeContains(n: INode, r: Rect) {
    Contains(NodeRect(n), r)
  }

  /**
   * The rectangle of tile k. Every index the tree stores is below |ts| (see StoredGood),
   * so the fallback is never taken for a stored index.
   */
  function TileRect(ts: seq<TileMeta>, k: int): Rect {
    if 0 <= k < |ts| then MetaRect(ts[k]) else Rect(0, 0, 0, 0)
  }

  // ---------------------------------------------------------------------------------
  // subdivide
  // ---------------------------------------------------------------------------------

  /** The index children subdivide creates: one fresh node per child of the wrapped node, in order. */
  function MirrorChildren(q: QNode): (ks: seq<INode>)
    ensures |ks| == |q.kids| && forall j :: 0 <= j < |ks| ==> ks[j] == NewIndexNode(q.kids[j].rect)
  {
    seq(|q.kids|, j requires 0 <= j < |q.kids| => NewIndexNode(q.kids[j].rect))
  }

  /**
   * IndexQuadTreeNode::subdivide as written: on a leaf with width > 1 or height > 1 it
   * subdivides the wrapped node and reads that node's four children. When only one side
   * exceeds 1 the wrapped node stays a leaf without children and the read of
   * origChildren[0] is out of range: that outcome is None.
   */
  function SubdivideAsWritten(n: INode): Option<INode> {
    if n.node.isLeaf && (NodeRect(n).w > 1 || NodeRect(n).h > 1) then
      var inner := Subdivided(n.node);
      if |inner.kids| < 4 then None
      else Some(INode(inner, n.tileIndices, MirrorChildren(inner)))
    else Some(n)
  }

  /**
   * subdivide with the guard QuadTreeNode::subdivide itself applies (both sides above 1):
   * a splittable leaf gets four index children mirroring the wrapped node's new children;
   * any other node is left as it is.
   */
  function Subdivide(n: INode): INode {
    if CanSplit(n.node) then
      var inner := Subdivided(n.node);
      INode(inner, n.tileIndices, MirrorChildren(inner))
    else n
  }

  /** The first child that contains r, or |ks| when none does. */
  function FirstContaining(ks: seq<INode>, r: Rect): (k: nat)
    ensures k <= |ks| && (k < |ks| ==> NodeContains(ks[k], r))
    ensures forall j :: 0 <= j < k ==> !NodeContains(ks[j], r)
  {
    if ks == [] then 0
    else if NodeContains(ks[0], r) then 0
    else 1 + FirstContaining(ks[1..], r)
  }

  // ---------------------------------------------------------------------------------
  // insertTile
  // ---------------------------------------------------------------------------------

  /** How many more levels may still split below depth; it falls by one at each level above maxDepth. */
  function Rank(depth: int, cfg: Config): nat {
    if depth < cfg.maxDepth then cfg.maxDepth - depth else 0
  }

  /** The split condition of insertTile after a leaf has taken a tile. */
  predicate Overfull(n: INode, depth: int, cfg: Config) {
    |n.tileIndices| > cfg.maxTilesPerNode && depth < cfg.maxDepth &&
    (NodeRect(n).w > 1 || NodeRect(n).h > 1)
  }

  /**
   * insertTile(node, i, depth): a tile that does not intersect the node is dropped. A leaf
   * stores it and, when that makes it overfull, splits and hands each stored tile to the
   * first child containing it, keeping the rest. An internal node hands the tile to the
   * first child containing it, or stores it when none does. The split is the corrected
   * Subdivide: an overfull leaf with a side of 1 keeps its tiles.
   */
  function Insert(n: INode, ts: seq<TileMeta>, i: int, depth: int, cfg: Config): INode
    decreases Rank(depth, cfg), 0, n
  {
    var t := TileRect(ts, i);
    if !Intersects(n, t) then n
    else if n.node.isLeaf then
      var n1 := n.(tileIndices := n.tileIndices + [i]);
      if Overfull(n1, depth, cfg) then
        var n2 := Subdivide(n1);
        var moved := Redistribute(n2.children, n2.tileIndices, ts, depth + 1, cfg);
        n2.(children := moved.0, tileIndices := moved.1)
      else n1
    else
      var k := FirstContaining(n.children, t);
      if k < |n.children| then n.(children := n.children[k := Insert(n.children[k], ts, i, depth + 1, cfg)])
      else n.(tileIndices := n.tileIndices + [i])
  }

  /**
   * The redistribution loop of a split at depth depth1 - 1: each index in turn goes into
   * the first child containing its tile, and the others are returned in their order.
   */
  function Redistribute(ks: seq<INode>, idxs: seq<int>, ts: seq<TileMeta>, depth1: int, cfg: Config): (seq<INode>, seq<int>)
    decreases Rank(depth1, cfg), 1, |idxs|
  {
    if idxs == [] then (ks, [])
    else
      var k := FirstContaining(ks, TileRect(ts, idxs[0]));
      if k < |ks| then Redistribute(ks[k := Insert(ks[k], ts, idxs[0], depth1, cfg)], idxs[1..], ts, depth1, cfg)
      else
        var r := Redistribute(ks, idxs[1..], ts, depth1, cfg);
        (r.0, [idxs[0]] + r.1)
  }

  // ---------------------------------------------------------------------------------
  // Invariants of the tree
  // ---------------------------------------------------------------------------------

  /** The indices stored in a node and all its descendants, with multiplicity. */
  function Stored(n: INode): multiset<int>
    decreases n, 1
  {
    multiset(n.tileIndices) + StoredAll(n.children)
  }

  function StoredAll(ks: seq<INode>): multiset<int>
    decreases ks, 0
  {
    if ks == [] then multiset{} else Stored(ks[0]) + StoredAll(ks[1..])
  }

  /**
   * The shape subdivide leaves: the wrapped node is a leaf exactly when there are no index
   * children, and the index children mirror the wrapped node's children one for one.
   */
  predicate WF(n: INode)
    decreases n
  {
    LeafShape(n.node) && (n.node.isLeaf <==> n.children == []) && |n.children| == |n.node.kids| &&
    forall j :: 0 <= j < |n.children| ==> NodeRect(n.children[j]) == n.node.kids[j].rect && WF(n.children[j])
  }

  predicate AllWF(ks: seq<INode>) {
    forall j :: 0 <= j < |ks| ==> WF(ks[j])
  }

  /** Only nodes above maxDepth are internal: with the root at depth 0, no node lies deeper than maxDepth. */
  predicate DepthOK(n: INode, depth: int, cfg: Config)
    decreases n
  {
    (!n.node.isLeaf ==> depth < cfg.maxDepth) &&
    forall j :: 0 <= j < |n.children| ==> DepthOK(n.children[j], depth + 1, cfg)
  }

  /** Every tile stored under n lies inside n's rectangle. */
  predicate Within(n: INode, ts: seq<TileMeta>) {
    forall idx :: idx in Stored(n) ==> NodeContains(n, TileRect(ts, idx))
  }

  /** Every child holds only tiles it contains, and so on down. */
  predicate Nested(n: INode, ts: seq<TileMeta>)
    decreases n
  {
    forall j :: 0 <= j < |n.children| ==> Within(n.children[j], ts) && Nested(n.children[j], ts)
  }

  /** idx names a tile of ts, and that tile has positive width and height. */
  predicate GoodIndex(ts: seq<TileMeta>, idx: int) {
    0 <= idx < |ts| && NonEmpty(TileRect(ts, idx))
  }

  /** Every index stored under n is a good index. */
  predicate Good(n: INode, ts: seq<TileMeta>) {
    forall idx :: idx in Stored(n) ==> GoodIndex(ts, idx)
  }

  // ---------------------------------------------------------------------------------
  // Shape: insertTile keeps the shape and the depth bound
  // ---------------------------------------------------------------------------------

  /** The corrected subdivide never reads a missing child: it keeps the node or gives it four mirrored children. */
  lemma SubdivideShape(n: INode, depth: int, cfg: Config)
    requires WF(n) && n.node.isLeaf && depth < cfg.maxDepth
    ensures var r := Subdivide(n);
      WF(r) && NodeRect(r) == NodeRect(n) && r.tileIndices == n.tileIndices && DepthOK(r, depth, cfg) &&
      (r == n || (|r.children| == 4 && !r.node.isLeaf && ChildRects(r.node) == Quadrants(NodeRect(n)) &&
         forall j :: 0 <= j < 4 ==> r.children[j] == NewIndexNode(Quadrants(NodeRect(n))[j])))
  {
    if CanSplit(n.node) {
      SubdividedLeaf(n.node);
      var r := Subdivide(n);
      forall j | 0 <= j < |r.children|
        ensures WF(r.children[j]) && DepthOK(r.children[j], depth + 1, cfg)
      {
        assert r.children[j] == NewIndexNode(r.node.kids[j].rect);
      }
    }
  }

  /** insertTile keeps the shape and the rectangle, and never makes a node at maxDepth or below internal. */
  lemma {:induction false} InsertShape(n: INode, ts: seq<TileMeta>, i: int, depth: int, cfg: Config)
    requires WF(n)
    ensures var r := Insert(n, ts, i, depth, cfg);
      WF(r) && NodeRect(r) == NodeRect(n) && (DepthOK(n, depth, cfg) ==> DepthOK(r, depth, cfg))
    decreases Rank(depth, cfg), 0, n
  {
    var t := TileRect(ts, i);
    if !Intersects(n, t) {
    } else if n.node.isLeaf {
      var n1 := n.(tileIndices := n.tileIndices + [i]);
      if Overfull(n1, depth, cfg) {
        SubdivideShape(n1, depth, cfg);
        var n2 := Subdivide(n1);
        RedistributeShape(n2.children, n2.tileIndices, ts, depth + 1, cfg);
      }
    } else {
      var k := FirstContaining(n.children, t);
      if k < |n.children| {
        InsertShape(n.children[k], ts, i, depth + 1, cfg);
      }
    }
  }

  lemma {:induction false} RedistributeShape(ks: seq<INode>, idxs: seq<int>, ts: seq<TileMeta>, depth1: int, cfg: Config)
    requires forall j :: 0 <= j < |ks| ==> WF(ks[j])
    ensures var r := Redistribute(ks, idxs, ts, depth1, cfg).0;
      |r| == |ks| && (forall j :: 0 <= j < |ks| ==> WF(r[j]) && NodeRect(r[j]) == NodeRect(ks[j])) &&
      ((forall j :: 0 <= j < |ks| ==> DepthOK(ks[j], depth1, cfg)) ==> forall j :: 0 <= j < |ks| ==> DepthOK(r[j], depth1, cfg))
    decreases Rank(depth1, cfg), 1, |idxs|
  {
    if idxs != [] {
      var k := FirstContaining(ks, TileRect(ts, idxs[0]));
      if k < |ks| {
        InsertShape(ks[k], ts, idxs[0], depth1, cfg);
        RedistributeShape(ks[k := Insert(ks[k], ts, idxs[0], depth1, cfg)], idxs[1..], ts, depth1, cfg);
      } else {
        RedistributeShape(ks, idxs[1..], ts, depth1, cfg);
      }
    }
  }

  // ---------------------------------------------------------------------------------
  // Content: insertTile stores the tile exactly once and loses nothing
  // ---------------------------------------------------------------------------------

  /** A tile of positive area inside a node intersects it. */
  lemma ContainedIntersects(n: INode, r: Rect)
    requires NodeContains(n, r) && NonEmpty(r)
    ensures Intersects(n, r)
  {
  }

  lemma AddFront(a: multiset<int>, b: multiset<int>, x: multiset<int>, b': multiset<int>, y: multiset<int>)
    requires b + x == b' + y
    ensures (a + b) + x == (a + b') + y
  {
    assert forall v :: ((a + b) + x)[v] == a[v] + (b + x)[v];
    assert forall v :: ((a + b') + y)[v] == a[v] + (b' + y)[v];
  }

  lemma PartOf(a: multiset<int>, x: multiset<int>, c: multiset<int>, d: multiset<int>)
    requires a + x == c
    ensures x <= d + c
  {
    assert forall v :: c[v] == a[v] + x[v];
  }

  lemma Cancel(a: multiset<int>, x: multiset<int>, b: multiset<int>, y: multiset<int>, z: multiset<int>)
    requires a + x == b + y && y == x + z
    ensures a == b + z
  {
    assert forall v :: (a + x)[v] == a[v] + x[v] && (b + y)[v] == b[v] + x[v] + z[v];
  }

  lemma Regroup(a: multiset<int>, m: multiset<int>, b: multiset<int>, x: multiset<int>, n: multiset<int>)
    requires a + m == b + n
    ensures a + (x + m) == b + (x + n)
  {
    assert forall v :: (a + m)[v] == a[v] + m[v] && (b + n)[v] == b[v] + n[v];
  }

  lemma ShiftOne(t: multiset<int>, s: multiset<int>, x: multiset<int>, m: multiset<int>)
    requires t == (s + x) + m
    ensures t == s + (x + m)
  {
    assert forall v :: t[v] == s[v] + x[v] + m[v];
  }

  lemma Swap(a: multiset<int>, m: multiset<int>, c: multiset<int>)
    requires a + m == c
    ensures m + a == c
  {
    assert forall v :: (a + m)[v] == a[v] + m[v];
  }

  lemma {:induction false} StoredAllUpdate(ks: seq<INode>, k: int, c: INode)
    requires 0 <= k < |ks|
    ensures StoredAll(ks[k := c]) + Stored(ks[k]) == StoredAll(ks) + Stored(c)
    decreases |ks|
  {
    var ks' := ks[k := c];
    assert StoredAll(ks) == Stored(ks[0]) + StoredAll(ks[1..]);
    assert StoredAll(ks') == Stored(ks'[0]) + StoredAll(ks'[1..]);
    if k > 0 {
      assert ks'[0] == ks[0] && ks'[1..] == ks[1..][k - 1 := c] && ks[1..][k - 1] == ks[k];
      StoredAllUpdate(ks[1..], k - 1, c);
      AddFront(Stored(ks[0]), StoredAll(ks'[1..]), Stored(ks[k]), StoredAll(ks[1..]), Stored(c));
    } else {
      assert ks'[0] == c && ks'[1..] == ks[1..];
    }
  }

  lemma {:induction false} StoredAllFresh(ks: seq<INode>)
    requires forall j :: 0 <= j < |ks| ==> ks[j].tileIndices == [] && ks[j].children == []
    ensures StoredAll(ks) == multiset{}
    decreases |ks|
  {
    if ks != [] {
      assert Stored(ks[0]) == multiset{};
      StoredAllFresh(ks[1..]);
    }
  }

  /** What a child stores is stored by its parent. */
  lemma StoredIn(n: INode, k: int)
    requires 0 <= k < |n.children|
    ensures Stored(n.children[k]) <= Stored(n)
  {
    var e := NewIndexNode(Rect(0, 0, 0, 0));
    assert Stored(e) == multiset{};
    StoredAllUpdate(n.children, k, e);
    PartOf(StoredAll(n.children[k := e]), Stored(n.children[k]), StoredAll(n.children), multiset(n.tileIndices));
  }

  /**
   * insertTile stores tile i exactly once when it intersects the node, and the tiles
   * already stored stay stored exactly as often as before: a split moves them, never drops
   * or copies them.
   */
  lemma {:induction false} InsertStored(n: INode, ts: seq<TileMeta>, i: int, depth: int, cfg: Config)
    requires WF(n) && Good(n, ts) && GoodIndex(ts, i)
    ensures Stored(Insert(n, ts, i, depth, cfg)) ==
      Stored(n) + if Intersects(n, TileRect(ts, i)) then multiset{i} else multiset{}
    decreases Rank(depth, cfg), 0, n, 1
  {
    var t := TileRect(ts, i);
    if !Intersects(n, t) {
    } else if n.node.isLeaf {
      var n1 := n.(tileIndices := n.tileIndices + [i]);
      if Overfull(n1, depth, cfg) {
        SplitStored(n, ts, i, depth, cfg);
      } else {
        assert Stored(n1) == Stored(n) + multiset{i};
      }
    } else {
      var k := FirstContaining(n.children, t);
      if k < |n.children| {
        StoredIn(n, k);
        MoveStored(n.children, k, ts, i, depth + 1, cfg);
      } else {
        assert Stored(n.(tileIndices := n.tileIndices + [i])) == Stored(n) + multiset{i};
      }
    }
  }

  /** The split branch of insertTile: the leaf's tiles and i end up stored once each. */
  lemma {:induction false} SplitStored(n: INode, ts: seq<TileMeta>, i: int, depth: int, cfg: Config)
    requires WF(n) && Good(n, ts) && GoodIndex(ts, i) && n.node.isLeaf
    requires Overfull(n.(tileIndices := n.tileIndices + [i]), depth, cfg)
    ensures var n2 := Subdivide(n.(tileIndices := n.tileIndices + [i]));
      var moved := Redistribute(n2.children, n2.tileIndices, ts, depth + 1, cfg);
      Stored(n2.(children := moved.0, tileIndices := moved.1)) == Stored(n) + multiset{i}
    decreases Rank(depth, cfg), 0, n, 0
  {
    var n1 := n.(tileIndices := n.tileIndices + [i]);
    var n2 := Subdivide(n1);
    StoredAllFresh(n2.children);
    StoredAllFresh(n.children);
    forall idx | idx in n2.tileIndices
      ensures GoodIndex(ts, idx)
    {
      assert idx in n.tileIndices || idx == i;
    }
    forall j | 0 <= j < |n2.children|
      ensures WF(n2.children[j]) && Good(n2.children[j], ts)
    {
      assert Stored(n2.children[j]) == multiset{};
    }
    RedistributeStored(n2.children, n2.tileIndices, ts, depth + 1, cfg);
    var moved := Redistribute(n2.children, n2.tileIndices, ts, depth + 1, cfg);
    assert multiset(n2.tileIndices) == multiset(n.tileIndices) + multiset{i};
    assert StoredAll(moved.0) + multiset(moved.1) == multiset(n.tileIndices) + multiset{i};
    Swap(StoredAll(moved.0), multiset(moved.1), multiset(n.tileIndices) + multiset{i});
  }

  /** Inserting tile i into the child k that contains it adds i to what the children store. */
  lemma {:induction false} MoveStored(ks: seq<INode>, k: int, ts: seq<TileMeta>, i: int, depth1: int, cfg: Config)
    requires 0 <= k < |ks| && WF(ks[k]) && Good(ks[k], ts) && GoodIndex(ts, i)
    requires NodeContains(ks[k], TileRect(ts, i))
    ensures var c := Insert(ks[k], ts, i, depth1, cfg);
      StoredAll(ks[k := c]) == StoredAll(ks) + multiset{i} && Stored(c) == Stored(ks[k]) + multiset{i} &&
      WF(c) && Good(c, ts) && NodeRect(c) == NodeRect(ks[k])
    decreases Rank(depth1, cfg), 0, ks[k], 2
  {
    var c := Insert(ks[k], ts, i, depth1, cfg);
    InsertStored(ks[k], ts, i, depth1, cfg);
    ContainedIntersects(ks[k], TileRect(ts, i));
    InsertShape(ks[k], ts, i, depth1, cfg);
    StoredAllUpdate(ks, k, c);
    Cancel(StoredAll(ks[k := c]), Stored(ks[k]), StoredAll(ks), Stored(c), multiset{i});
  }

  /** The redistribution loop moves each index into a child or keeps it, once. */
  lemma {:induction false} RedistributeStored(ks: seq<INode>, idxs: seq<int>, ts: seq<TileMeta>, depth1: int, cfg: Config)
    requires forall j :: 0 <= j < |ks| ==> WF(ks[j]) && Good(ks[j], ts)
    requires forall idx :: idx in idxs ==> GoodIndex(ts, idx)
    ensures var r := Redistribute(ks, idxs, ts, depth1, cfg);
      StoredAll(r.0) + multiset(r.1) == StoredAll(ks) + multiset(idxs)
    decreases Rank(depth1, cfg), 1, |idxs|, 0
  {
    if idxs != [] {
      var idx := idxs[0];
      var t := TileRect(ts, idx);
      assert idxs == [idx] + idxs[1..];
      var k := FirstContaining(ks, t);
      assert multiset(idxs) == multiset{idx} + multiset(idxs[1..]);
      if k < |ks| {
        var ks' := ks[k := Insert(ks[k], ts, idx, depth1, cfg)];
        MoveStored(ks, k, ts, idx, depth1, cfg);
        RedistributeStored(ks', idxs[1..], ts, depth1, cfg);
        var r := Redistribute(ks', idxs[1..], ts, depth1, cfg);
        assert Redistribute(ks, idxs, ts, depth1, cfg) == r;
        ShiftOne(StoredAll(r.0) + multiset(r.1), StoredAll(ks), multiset{idx}, multiset(idxs[1..]));
      } else {
        RedistributeStored(ks, idxs[1..], ts, depth1, cfg);
        var r := Redistribute(ks, idxs[1..], ts, depth1, cfg);
        assert Redistribute(ks, idxs, ts, depth1, cfg) == (r.0, [idx] + r.1);
        assert multiset([idx] + r.1) == multiset{idx} + multiset(r.1);
        Regroup(StoredAll(r.0), multiset(r.1), StoredAll(ks), multiset{idx}, multiset(idxs[1..]));
      }
    }
  }

  /** insertTile keeps every child's tiles inside that child, all the way down. */
  lemma {:induction false} InsertNested(n: INode, ts: seq<TileMeta>, i: int, depth: int, cfg: Config)
    requires WF(n) && Good(n, ts) && GoodIndex(ts, i) && Nested(n, ts)
    ensures Nested(Insert(n, ts, i, depth, cfg), ts)
    decreases Rank(depth, cfg), 0, n, 1
  {
    var t := TileRect(ts, i);
    if !Intersects(n, t) {
    } else if n.node.isLeaf {
      var n1 := n.(tileIndices := n.tileIndices + [i]);
      if Overfull(n1, depth, cfg) {
        SplitNested(n, ts, i, depth, cfg);
      }
    } else {
      var k := FirstContaining(n.children, t);
      if k < |n.children| {
        StoredIn(n, k);
        MoveNested(n.children, k, ts, i, depth + 1, cfg);
      }
    }
  }

  lemma {:induction false} SplitNested(n: INode, ts: seq<TileMeta>, i: int, depth: int, cfg: Config)
    requires WF(n) && Good(n, ts) && GoodIndex(ts, i) && n.node.isLeaf
    requires Overfull(n.(tileIndices := n.tileIndices + [i]), depth, cfg)
    ensures var n2 := Subdivide(n.(tileIndices := n.tileIndices + [i]));
      var moved := Redistribute(n2.children, n2.tileIndices, ts, depth + 1, cfg);
      Nested(n2.(children := moved.0, tileIndices := moved.1), ts)
    decreases Rank(depth, cfg), 0, n, 0
  {
    var n1 := n.(tileIndices := n.tileIndices + [i]);
    var n2 := Subdivide(n1);
    forall idx | idx in n2.tileIndices
      ensures GoodIndex(ts, idx)
    {
      assert idx in n.tileIndices || idx == i;
    }
    forall j | 0 <= j < |n2.children|
      ensures WF(n2.children[j]) && Good(n2.children[j], ts) && Within(n2.children[j], ts) && Nested(n2.children[j], ts)
    {
      assert Stored(n2.children[j]) == multiset{};
    }
    RedistributeNested(n2.children, n2.tileIndices, ts, depth + 1, cfg);
  }

  lemma {:induction false} MoveNested(ks: seq<INode>, k: int, ts: seq<TileMeta>, i: int, depth1: int, cfg: Config)
    requires 0 <= k < |ks| && WF(ks[k]) && Good(ks[k], ts) && GoodIndex(ts, i)
    requires Within(ks[k], ts) && Nested(ks[k], ts)
    requires NodeContains(ks[k], TileRect(ts, i))
    ensures var c := Insert(ks[k], ts, i, depth1, cfg);
      Within(c, ts) && Nested(c, ts)
    decreases Rank(depth1, cfg), 0, ks[k], 2
  {
    MoveStored(ks, k, ts, i, depth1, cfg);
    InsertNested(ks[k], ts, i, depth1, cfg);
  }

  lemma {:induction false} RedistributeNested(ks: seq<INode>, idxs: seq<int>, ts: seq<TileMeta>, depth1: int, cfg: Config)
    requires forall j :: 0 <= j < |ks| ==> WF(ks[j]) && Good(ks[j], ts) && Within(ks[j], ts) && Nested(ks[j], ts)
    requires forall idx :: idx in idxs ==> GoodIndex(ts, idx)
    ensures var r := Redistribute(ks, idxs, ts, depth1, cfg).0;
      |r| == |ks| && forall j :: 0 <= j < |r| ==> Within(r[j], ts) && Nested(r[j], ts)
    decreases Rank(depth1, cfg), 1, |idxs|, 0
  {
    RedistributeShape(ks, idxs, ts, depth1, cfg);
    if idxs != [] {
      var idx := idxs[0];
      var k := FirstContaining(ks, TileRect(ts, idx));
      if k < |ks| {
        var ks' := ks[k := Insert(ks[k], ts, idx, depth1, cfg)];
        MoveStored(ks, k, ts, idx, depth1, cfg);
        MoveNested(ks, k, ts, idx, depth1, cfg);
        RedistributeNested(ks', idxs[1..], ts, depth1, cfg);
      } else {
        RedistributeNested(ks, idxs[1..], ts, depth1, cfg);
      }
    }
  }

  /** Every index in m lies in [0, bound). */
  ghost predicate Below(m: multiset<int>, bound: int) {
    forall idx :: idx in m ==> 0 <= idx < bound
  }

  lemma BelowSum(a: multiset<int>, b: multiset<int>, bound: int)
    ensures Below(a + b, bound) <==> Below(a, bound) && Below(b, bound)
  {
    assert forall v :: (a + b)[v] == a[v] + b[v];
  }

  lemma BelowPart(a: multiset<int>, b: multiset<int>, bound: int)
    requires a <= b && Below(b, bound)
    ensures Below(a, bound)
  {
  }

  /** A child's indices are among its siblings' indices taken together. */
  lemma {:induction false} StoredAllPart(ks: seq<INode>, k: int)
    requires 0 <= k < |ks|
    ensures Stored(ks[k]) <= StoredAll(ks)
    decreases |ks|
  {
    assert StoredAll(ks) == Stored(ks[0]) + StoredAll(ks[1..]);
    if k > 0 {
      assert ks[1..][k - 1] == ks[k];
      StoredAllPart(ks[1..], k - 1);
    }
  }

  /**
   * insertTile stores no index but i in addition to those already stored, whatever the
   * tiles look like: a tree holding only indices below bound keeps doing so.
   */
  lemma {:induction false} InsertBelow(n: INode, ts: seq<TileMeta>, i: int, depth: int, cfg: Config, bound: int)
    requires Below(Stored(n), bound) && 0 <= i < bound
    ensures Below(Stored(Insert(n, ts, i, depth, cfg)), bound)
    decreases Rank(depth, cfg), 0, n, 1
  {
    var t := TileRect(ts, i);
    BelowSum(multiset(n.tileIndices), StoredAll(n.children), bound);
    BelowSum(multiset(n.tileIndices), multiset{i}, bound);
    assert multiset(n.tileIndices + [i]) == multiset(n.tileIndices) + multiset{i};
    BelowSum(multiset(n.tileIndices + [i]), StoredAll(n.children), bound);
    if !Intersects(n, t) {
    } else if n.node.isLeaf {
      var n1 := n.(tileIndices := n.tileIndices + [i]);
      if Overfull(n1, depth, cfg) {
        SplitBelow(n, ts, i, depth, cfg, bound);
      }
    } else {
      var k := FirstContaining(n.children, t);
      if k < |n.children| {
        MoveBelow(n.children, k, ts, i, depth + 1, cfg, bound);
        var ks' := n.children[k := Insert(n.children[k], ts, i, depth + 1, cfg)];
        BelowSum(multiset(n.tileIndices), StoredAll(ks'), bound);
      }
    }
  }

  lemma {:induction false} SplitBelow(n: INode, ts: seq<TileMeta>, i: int, depth: int, cfg: Config, bound: int)
    requires Below(multiset(n.tileIndices + [i]) + StoredAll(n.children), bound) && n.node.isLeaf
    requires Overfull(n.(tileIndices := n.tileIndices + [i]), depth, cfg)
    ensures var n2 := Subdivide(n.(tileIndices := n.tileIndices + [i]));
      var moved := Redistribute(n2.children, n2.tileIndices, ts, depth + 1, cfg);
      Below(Stored(n2.(children := moved.0, tileIndices := moved.1)), bound)
    decreases Rank(depth, cfg), 0, n, 0
  {
    var n1 := n.(tileIndices := n.tileIndices + [i]);
    var n2 := Subdivide(n1);
    BelowSum(multiset(n1.tileIndices), StoredAll(n1.children), bound);
    if CanSplit(n1.node) {
      StoredAllFresh(n2.children);
    }
    RedistributeBelow(n2.children, n2.tileIndices, ts, depth + 1, cfg, bound);
    var moved := Redistribute(n2.children, n2.tileIndices, ts, depth + 1, cfg);
    BelowSum(StoredAll(moved.0), multiset(moved.1), bound);
    BelowSum(multiset(moved.1), StoredAll(moved.0), bound);
  }

  lemma {:induction false} MoveBelow(ks: seq<INode>, k: int, ts: seq<TileMeta>, i: int, depth1: int, cfg: Config, bound: int)
    requires 0 <= k < |ks| && Below(StoredAll(ks), bound) && 0 <= i < bound
    ensures Below(StoredAll(ks[k := Insert(ks[k], ts, i, depth1, cfg)]), bound)
    decreases Rank(depth1, cfg), 0, ks[k], 2
  {
    var c := Insert(ks[k], ts, i, depth1, cfg);
    StoredAllPart(ks, k);
    BelowPart(Stored(ks[k]), StoredAll(ks), bound);
    InsertBelow(ks[k], ts, i, depth1, cfg, bound);
    StoredAllUpdate(ks, k, c);
    BelowSum(StoredAll(ks), Stored(c), bound);
    BelowSum(StoredAll(ks[k := c]), Stored(ks[k]), bound);
  }

  lemma {:induction false} RedistributeBelow(ks: seq<INode>, idxs: seq<int>, ts: seq<TileMeta>, depth1: int, cfg: Config, bound: int)
    requires Below(StoredAll(ks), bound) && Below(multiset(idxs), bound)
    ensures var r := Redistribute(ks, idxs, ts, depth1, cfg);
      Below(StoredAll(r.0), bound) && Below(multiset(r.1), bound)
    decreases Rank(depth1, cfg), 1, |idxs|, 0
  {
    if idxs != [] {
      var idx := idxs[0];
      assert idxs == [idx] + idxs[1..];
      BelowSum(multiset{idx}, multiset(idxs[1..]), bound);
      var k := FirstContaining(ks, TileRect(ts, idx));
      if k < |ks| {
        MoveBelow(ks, k, ts, idx, depth1, cfg, bound);
        RedistributeBelow(ks[k := Insert(ks[k], ts, idx, depth1, cfg)], idxs[1..], ts, depth1, cfg, bound);
      } else {
        RedistributeBelow(ks, idxs[1..], ts, depth1, cfg, bound);
        var r := Redistribute(ks, idxs[1..], ts, depth1, cfg);
        assert multiset([idx] + r.1) == multiset{idx} + multiset(r.1);
        BelowSum(multiset{idx}, multiset(r.1), bound);
      }
    }
  }

  // ---------------------------------------------------------------------------------
  // buildQuadTree
  // ---------------------------------------------------------------------------------

  /** The root's rectangle: (0, 0, mapWidth, mapHeight). */
  function RootRect(ts: seq<TileMeta>): Rect {
    Rect(0, 0, Extent(ts).0, Extent(ts).1)
  }

  /** The root after tiles 0 .. k-1 have been inserted, in index order, at depth 0. */
  function BuiltUpTo(ts: seq<TileMeta>, cfg: Config, k: nat): INode
    requires k <= |ts|
  {
    if k == 0 then NewIndexNode(RootRect(ts)) else Insert(BuiltUpTo(ts, cfg, k - 1), ts, k - 1, 0, cfg)
  }

  /** The tree of a tile list: none for an empty list, else every tile inserted into the map-sized root. */
  function BuildTree(ts: seq<TileMeta>, cfg: Config): Option<INode> {
    if ts == [] then None else Some(BuiltUpTo(ts, cfg, |ts|))
  }

  /** Tiles as the splitters produce them: at non-negative coordinates, with positive width and height. */
  predicate Placeable(ts: seq<TileMeta>) {
    forall j :: 0 <= j < |ts| ==> ts[j].x >= 0 && ts[j].y >= 0 && ts[j].w > 0 && ts[j].h > 0
  }

  /** Every placeable tile lies inside the root rectangle. */
  lemma TilesInRoot(ts: seq<TileMeta>, j: int)
    requires Placeable(ts) && 0 <= j < |ts|
    ensures Contains(RootRect(ts), TileRect(ts, j)) && GoodIndex(ts, j)
  {
    ExtentIsMax(ts);
  }

  /** The stored multiset holds each of 0 .. k-1 once and nothing else. */
  ghost predicate HoldsFirst(m: multiset<int>, k: int) {
    forall j :: m[j] == if 0 <= j < k then 1 else 0
  }

  /** Everything the build keeps true of a partial tree. */
  ghost predicate BuildOK(b: INode, ts: seq<TileMeta>, cfg: Config, k: int) {
    WF(b) && DepthOK(b, 0, cfg) && Good(b, ts) && Within(b, ts) && Nested(b, ts) &&
    NodeRect(b) == RootRect(ts) && HoldsFirst(Stored(b), k)
  }

  /** One insertion of the build loop keeps BuildOK and adds tile k once. */
  lemma BuildStep(ts: seq<TileMeta>, cfg: Config, prev: INode, b: INode, k: int)
    requires Placeable(ts) && 0 <= k < |ts| && BuildOK(prev, ts, cfg, k)
    requires b == Insert(prev, ts, k, 0, cfg)
    ensures BuildOK(b, ts, cfg, k + 1)
  {
    TilesInRoot(ts, k);
    ContainedIntersects(prev, TileRect(ts, k));
    InsertShape(prev, ts, k, 0, cfg);
    InsertStored(prev, ts, k, 0, cfg);
    InsertNested(prev, ts, k, 0, cfg);
    assert Stored(b) == Stored(prev) + multiset{k};
    forall idx | idx in Stored(b)
      ensures GoodIndex(ts, idx) && NodeContains(b, TileRect(ts, idx))
    {
      TilesInRoot(ts, idx);
    }
  }

  /** The fresh map-sized root satisfies BuildOK with nothing stored. */
  lemma EmptyRootOK(ts: seq<TileMeta>, cfg: Config)
    ensures BuildOK(NewIndexNode(RootRect(ts)), ts, cfg, 0)
  {
    assert Stored(NewIndexNode(RootRect(ts))) == multiset{};
  }

  /**
   * Building inserts every tile exactly once: after k insertions the tree stores each of
   * tiles 0 .. k-1 once and nothing else, keeps its shape, puts no internal node at or
   * below maxDepth, and every node holds only tiles inside its rectangle.
   */
  lemma {:induction false} BuildInvariant(ts: seq<TileMeta>, cfg: Config, k: nat)
    requires Placeable(ts) && k <= |ts|
    ensures BuildOK(BuiltUpTo(ts, cfg, k), ts, cfg, k)
  {
    if k == 0 {
      EmptyRootOK(ts, cfg);
    } else {
      BuildInvariant(ts, cfg, k - 1);
      BuildStep(ts, cfg, BuiltUpTo(ts, cfg, k - 1), BuiltUpTo(ts, cfg, k), k - 1);
    }
  }

  // ---------------------------------------------------------------------------------
  // query
  // ---------------------------------------------------------------------------------

  /** The overlap test queryRecursive applies to each stored tile. */
  predicate Hit(ts: seq<TileMeta>, idx: int, vp: Viewport) {
    Overlaps(TileRect(ts, idx), ViewRect(vp))
  }

  /** The stored indices of one node whose tiles overlap the viewport, in stored order. */
  function Hits(idxs: seq<int>, ts: seq<TileMeta>, vp: Viewport): seq<int> {
    if idxs == [] then []
    else (if Hit(ts, idxs[0], vp) then [idxs[0]] else []) + Hits(idxs[1..], ts, vp)
  }

  /**
   * queryRecursive: nothing from a node that does not intersect the viewport; otherwise
   * its own overlapping tiles, then, for an internal node, the results of its children in
   * order.
   */
  function QueryIdx(n: INode, ts: seq<TileMeta>, vp: Viewport): seq<int>
    decreases n, 1
  {
    if !Intersects(n, ViewRect(vp)) then []
    else Hits(n.tileIndices, ts, vp) + (if n.node.isLeaf then [] else QueryAll(n.children, ts, vp))
  }

  function QueryAll(ks: seq<INode>, ts: seq<TileMeta>, vp: Viewport): seq<int>
    decreases ks, 0
  {
    if ks == [] then [] else QueryIdx(ks[0], ts, vp) + QueryAll(ks[1..], ts, vp)
  }

  /** query: empty without a root. */
  function TreeQuery(root: Option<INode>, ts: seq<TileMeta>, vp: Viewport): seq<int> {
    if root.None? then [] else QueryIdx(root.value, ts, vp)
  }

  lemma {:induction false} HitsCount(idxs: seq<int>, ts: seq<TileMeta>, vp: Viewport)
    ensures forall j :: multiset(Hits(idxs, ts, vp))[j] == if Hit(ts, j, vp) then multiset(idxs)[j] else 0
    decreases |idxs|
  {
    if idxs != [] {
      HitsCount(idxs[1..], ts, vp);
      assert idxs == [idxs[0]] + idxs[1..];
    }
  }

  /**
   * The pruned query finds each stored tile that overlaps the viewport as often as it is
   * stored and no other: pruning a node that misses the viewport loses nothing, because
   * every tile under it lies inside it.
   */
  lemma {:induction false} QueryCount(n: INode, ts: seq<TileMeta>, vp: Viewport)
    requires WF(n) && Within(n, ts) && Nested(n, ts)
    ensures forall j :: multiset(QueryIdx(n, ts, vp))[j] == if Hit(ts, j, vp) then Stored(n)[j] else 0
    decreases n, 1
  {
    var v := ViewRect(vp);
    if !Intersects(n, v) {
      forall j | Hit(ts, j, vp) && j in Stored(n)
        ensures false
      {
        ContainsOverlaps(NodeRect(n), TileRect(ts, j), v);
        OverlapsSymmetric(NodeRect(n), v);
      }
    } else {
      HitsCount(n.tileIndices, ts, vp);
      if n.node.isLeaf {
        assert StoredAll(n.children) == multiset{};
      } else {
        QueryAllCount(n.children, ts, vp);
      }
    }
  }

  lemma {:induction false} QueryAllCount(ks: seq<INode>, ts: seq<TileMeta>, vp: Viewport)
    requires forall j :: 0 <= j < |ks| ==> WF(ks[j]) && Within(ks[j], ts) && Nested(ks[j], ts)
    ensures forall j :: multiset(QueryAll(ks, ts, vp))[j] == if Hit(ts, j, vp) then StoredAll(ks)[j] else 0
    decreases ks, 0
  {
    if ks != [] {
      QueryCount(ks[0], ts, vp);
      QueryAllCount(ks[1..], ts, vp);
    }
  }

  /** A strictly increasing sequence holds each value at most once. */
  lemma {:induction false} CountInIncreasing(s: seq<int>, n: int, j: int)
    requires IncreasingBelow(s, n)
    ensures multiset(s)[j] == if j in s then 1 else 0
    decreases |s|
  {
    if s != [] {
      assert s == [s[0]] + s[1..];
      assert IncreasingBelow(s[1..], n);
      CountInIncreasing(s[1..], n, j);
      if j == s[0] {
        assert j !in s[1..];
      }
    }
  }

  /**
   * The quadtree query returns the same tile indices as the linear TileIndex::query, each
   * once, in its own order, when the tiles are placeable.
   */
  lemma QueryMatchesLinear(ts: seq<TileMeta>, cfg: Config, vp: Viewport)
    requires Placeable(ts)
    ensures multiset(TreeQuery(BuildTree(ts, cfg), ts, vp)) == multiset(OverlapIndices(ts, vp))
    ensures |TreeQuery(BuildTree(ts, cfg), ts, vp)| == |QueryTiles(ts, vp)|
  {
    var got := TreeQuery(BuildTree(ts, cfg), ts, vp);
    var want := OverlapIndices(ts, vp);
    QuerySelectsOverlapping(ts, vp);
    if ts != [] {
      BuildInvariant(ts, cfg, |ts|);
      QueryCount(BuiltUpTo(ts, cfg, |ts|), ts, vp);
    }
    forall j
      ensures multiset(got)[j] == multiset(want)[j]
    {
      CountInIncreasing(want, |ts|, j);
    }
    assert multiset(got) == multiset(want);
    assert |multiset(got)| == |got| && |multiset(want)| == |want|;
  }

  /**
   * Whatever the tiles, the built tree keeps its shape, puts no internal node at or below
   * maxDepth and stores only positions of the tile list.
   */
  lemma {:induction false} BuiltShape(ts: seq<TileMeta>, cfg: Config, k: nat)
    requires k <= |ts|
    ensures var b := BuiltUpTo(ts, cfg, k);
      WF(b) && DepthOK(b, 0, cfg) && Below(Stored(b), |ts|)
  {
    if k == 0 {
      assert Stored(BuiltUpTo(ts, cfg, 0)) == multiset{};
    } else {
      BuiltShape(ts, cfg, k - 1);
      ShapeStep(ts, cfg, BuiltUpTo(ts, cfg, k - 1), BuiltUpTo(ts, cfg, k), k - 1);
    }
  }

  lemma ShapeStep(ts: seq<TileMeta>, cfg: Config, prev: INode, b: INode, i: int)
    requires 0 <= i < |ts| && WF(prev) && DepthOK(prev, 0, cfg) && Below(Stored(prev), |ts|)
    requires b == Insert(prev, ts, i, 0, cfg)
    ensures WF(b) && DepthOK(b, 0, cfg) && Below(Stored(b), |ts|)
  {
    InsertShape(prev, ts, i, 0, cfg);
    InsertBelow(prev, ts, i, 0, cfg, |ts|);
  }

  /** Every index a query returns is stored in the tree it searched. */
  lemma {:induction false} QueryFromStored(n: INode, ts: seq<TileMeta>, vp: Viewport)
    ensures multiset(QueryIdx(n, ts, vp)) <= Stored(n)
    decreases n, 1
  {
    if Intersects(n, ViewRect(vp)) {
      HitsCount(n.tileIndices, ts, vp);
      var h := multiset(Hits(n.tileIndices, ts, vp));
      HitsSub(n.tileIndices, ts, vp);
      if n.node.isLeaf {
        assert multiset(QueryIdx(n, ts, vp)) == h;
        SubSum(h, multiset{}, multiset(n.tileIndices), StoredAll(n.children));
      } else {
        QueryAllFromStored(n.children, ts, vp);
        assert multiset(QueryIdx(n, ts, vp)) == h + multiset(QueryAll(n.children, ts, vp));
        SubSum(h, multiset(QueryAll(n.children, ts, vp)), multiset(n.tileIndices), StoredAll(n.children));
      }
    }
  }

  lemma {:induction false} HitsSub(idxs: seq<int>, ts: seq<TileMeta>, vp: Viewport)
    ensures multiset(Hits(idxs, ts, vp)) <= multiset(idxs)
    decreases |idxs|
  {
    if idxs != [] {
      HitsSub(idxs[1..], ts, vp);
      assert idxs == [idxs[0]] + idxs[1..];
    }
  }

  lemma SubSum(a: multiset<int>, b: multiset<int>, c: multiset<int>, d: multiset<int>)
    requires a <= c && b <= d
    ensures a + b <= c + d
  {
    assert forall v :: (a + b)[v] == a[v] + b[v] && (c + d)[v] == c[v] + d[v];
  }

  lemma {:induction false} QueryAllFromStored(ks: seq<INode>, ts: seq<TileMeta>, vp: Viewport)
    ensures multiset(QueryAll(ks, ts, vp)) <= StoredAll(ks)
    decreases ks, 0
  {
    if ks != [] {
      QueryFromStored(ks[0], ts, vp);
      QueryAllFromStored(ks[1..], ts, vp);
    }
  }

  /** Every index the query of a built tree returns names a tile of the list it was built from. */
  lemma QueryInRange(ts: seq<TileMeta>, cfg: Config, vp: Viewport)
    ensures IndicesBelow(TreeQuery(BuildTree(ts, cfg), ts, vp), |ts|)
  {
    var q := TreeQuery(BuildTree(ts, cfg), ts, vp);
    if ts != [] {
      BuiltShape(ts, cfg, |ts|);
      QueryFromStored(BuiltUpTo(ts, cfg, |ts|), ts, vp);
      forall k | 0 <= k < |q|
        ensures 0 <= q[k] < |ts|
      {
        assert q[k] in multiset(q);
      }
    }
  }

  // ---------------------------------------------------------------------------------
  // From indices to tiles
  // ---------------------------------------------------------------------------------

  predicate IndicesBelow(idx: seq<int>, n: int) {
    forall k :: 0 <= k < |idx| ==> 0 <= idx[k] < n
  }

  /** The tiles at the given positions, in the order of the positions. */
  function TilesOf(ts: seq<TileMeta>, idx: seq<int>): (out: seq<TileMeta>)
    requires IndicesBelow(idx, |ts|)
    ensures |out| == |idx| && forall k :: 0 <= k < |idx| ==> out[k] == ts[idx[k]]
  {
    seq(|idx|, k requires 0 <= k < |idx| => ts[idx[k]])
  }

  lemma TilesOfCons(ts: seq<TileMeta>, a: seq<int>)
    requires a != [] && IndicesBelow(a, |ts|)
    ensures IndicesBelow(a[1..], |ts|) && TilesOf(ts, a) == [ts[a[0]]] + TilesOf(ts, a[1..])
  {
    assert IndicesBelow(a[1..], |ts|);
    var u, v := TilesOf(ts, a), [ts[a[0]]] + TilesOf(ts, a[1..]);
    forall k | 0 <= k < |u|
      ensures u[k] == v[k]
    {
      if k > 0 {
        assert a[1..][k - 1] == a[k];
      }
    }
  }

  lemma TilesOfSplit(ts: seq<TileMeta>, b: seq<int>, p: int)
    requires 0 <= p < |b| && IndicesBelow(b, |ts|)
    ensures IndicesBelow(b[..p], |ts|) && IndicesBelow(b[p + 1..], |ts|)
    ensures TilesOf(ts, b) == TilesOf(ts, b[..p]) + [ts[b[p]]] + TilesOf(ts, b[p + 1..])
  {
    assert IndicesBelow(b[..p], |ts|) && IndicesBelow(b[p + 1..], |ts|);
    var u, v := TilesOf(ts, b), TilesOf(ts, b[..p]) + [ts[b[p]]] + TilesOf(ts, b[p + 1..]);
    forall k | 0 <= k < |u|
      ensures u[k] == v[k]
    {
      if k > p {
        assert b[p + 1..][k - p - 1] == b[k];
      }
    }
  }

  lemma TilesOfAppend(ts: seq<TileMeta>, a: seq<int>, b: seq<int>)
    requires IndicesBelow(a, |ts|) && IndicesBelow(b, |ts|)
    ensures IndicesBelow(a + b, |ts|) && TilesOf(ts, a + b) == TilesOf(ts, a) + TilesOf(ts, b)
  {
    assert IndicesBelow(a + b, |ts|);
  }

  lemma MultisetMiddle<T>(l: seq<T>, x: T, r: seq<T>)
    ensures multiset(l + [x] + r) == multiset(l + r) + multiset{x}
  {
    assert l + [x] + r == l + ([x] + r);
  }

  lemma CancelOne<T>(m1: multiset<T>, m2: multiset<T>, x: T)
    requires m1 + multiset{x} == m2 + multiset{x}
    ensures m1 == m2
  {
    assert forall v :: (m1 + multiset{x})[v] == m1[v] + multiset{x}[v];
    assert forall v :: (m2 + multiset{x})[v] == m2[v] + multiset{x}[v];
  }

  /** The first element of a can be matched with some position of b, leaving equal multisets. */
  lemma RemoveMatch(a: seq<int>, b: seq<int>) returns (p: int)
    requires a != [] && multiset(a) == multiset(b)
    ensures 0 <= p < |b| && b[p] == a[0] && multiset(a[1..]) == multiset(b[..p] + b[p + 1..])
  {
    var x := a[0];
    assert x in multiset(b);
    p :| 0 <= p < |b| && b[p] == x;
    var l, r := b[..p], b[p + 1..];
    assert b == l + [x] + r;
    assert a == [x] + a[1..];
    MultisetMiddle(l, x, r);
    assert multiset(a) == multiset(a[1..]) + multiset{x};
    CancelOne(multiset(a[1..]), multiset(l + r), x);
  }

  /** Putting a matched pair back on both sides keeps the tile multisets equal. */
  lemma TilesPutBack(ts: seq<TileMeta>, a: seq<int>, b: seq<int>, p: int)
    requires a != [] && IndicesBelow(a, |ts|) && IndicesBelow(b, |ts|) && 0 <= p < |b| && b[p] == a[0]
    requires IndicesBelow(b[..p] + b[p + 1..], |ts|) && IndicesBelow(a[1..], |ts|)
    requires multiset(TilesOf(ts, a[1..])) == multiset(TilesOf(ts, b[..p] + b[p + 1..]))
    ensures multiset(TilesOf(ts, a)) == multiset(TilesOf(ts, b))
  {
    var x := a[0];
    TilesOfSplit(ts, b, p);
    TilesOfCons(ts, a);
    TilesOfAppend(ts, b[..p], b[p + 1..]);
    MultisetMiddle(TilesOf(ts, b[..p]), ts[x], TilesOf(ts, b[p + 1..]));
    assert multiset([ts[x]] + TilesOf(ts, a[1..])) == multiset(TilesOf(ts, a[1..])) + multiset{ts[x]};
  }

  /** The same positions in any order give the same tiles, each as often. */
  lemma {:induction false} TilesOfPermutation(ts: seq<TileMeta>, a: seq<int>, b: seq<int>)
    requires IndicesBelow(a, |ts|) && IndicesBelow(b, |ts|) && multiset(a) == multiset(b)
    ensures multiset(TilesOf(ts, a)) == multiset(TilesOf(ts, b))
    decreases |a|
  {
    if a == [] {
      assert |b| == |multiset(b)| == 0;
    } else {
      var p := RemoveMatch(a, b);
      var rest := b[..p] + b[p + 1..];
      assert IndicesBelow(rest, |ts|) by {
        forall k | 0 <= k < |rest|
          ensures 0 <= rest[k] < |ts|
        {
          if k >= p {
            assert rest[k] == b[k + 1];
          }
        }
      }
      assert IndicesBelow(a[1..], |ts|);
      TilesOfPermutation(ts, a[1..], rest);
      TilesPutBack(ts, a, b, p);
    }
  }

  /**
   * The tiles the quadtree query returns are, as a collection, those the linear
   * TileIndex::query returns, when the tiles are placeable.
   */
  lemma QueryTilesMatchLinear(ts: seq<TileMeta>, cfg: Config, vp: Viewport)
    requires Placeable(ts)
    ensures IndicesBelow(TreeQuery(BuildTree(ts, cfg), ts, vp), |ts|)
    ensures multiset(TilesOf(ts, TreeQuery(BuildTree(ts, cfg), ts, vp))) == multiset(QueryTiles(ts, vp))
  {
    var q := TreeQuery(BuildTree(ts, cfg), ts, vp);
    var want := OverlapIndices(ts, vp);
    QueryInRange(ts, cfg, vp);
    QueryMatchesLinear(ts, cfg, vp);
    QuerySelectsOverlapping(ts, vp);
    assert TilesOf(ts, want) == QueryTiles(ts, vp);
    TilesOfPermutation(ts, q, want);
  }

  // ---------------------------------------------------------------------------------
  // getStatistics
  // ---------------------------------------------------------------------------------

  /** The integer part of QuadTreeIndex::Statistics. */
  datatype Statistics = Statistics(totalNodes: int, leafNodes: int, maxDepth: int, totalTiles: int)

  const NoStatistics := Statistics(0, 0, 0, 0)

  /**
   * calculateStatistics(node, stats, depth): count the node and raise maxDepth to depth; a
   * leaf also counts as a leaf and adds its tiles, an internal node visits its children
   * one level deeper, in order.
   */
  function Accumulate(n: INode, s: Statistics, depth: int): Statistics
    decreases n, 1
  {
    var s1 := s.(totalNodes := s.totalNodes + 1, maxDepth := Max(s.maxDepth, depth));
    if n.node.isLeaf then s1.(leafNodes := s1.leafNodes + 1, totalTiles := s1.totalTiles + |n.tileIndices|)
    else AccumulateAll(n.children, s1, depth + 1)
  }

  function AccumulateAll(ks: seq<INode>, s: Statistics, depth: int): Statistics
    decreases ks, 0
  {
    if ks == [] then s else AccumulateAll(ks[1..], Accumulate(ks[0], s, depth), depth)
  }

  /** getStatistics: all zero without a root, else the walk from the root at depth 0. */
  function TreeStatistics(root: Option<INode>): Statistics {
    if root.None? then NoStatistics else Accumulate(root.value, NoStatistics, 0)
  }

  /** The indices held by the leaves under n. */
  function LeafStored(n: INode): multiset<int>
    decreases n, 1
  {
    if n.node.isLeaf then multiset(n.tileIndices) else LeafStoredAll(n.children)
  }

  function LeafStoredAll(ks: seq<INode>): multiset<int>
    decreases ks, 0
  {
    if ks == [] then multiset{} else LeafStored(ks[0]) + LeafStoredAll(ks[1..])
  }

  /**
   * The walk over a well-formed tree: as every internal node has four children, four times
   * the leaves it counts is three times the nodes plus one; the tiles it counts are those
   * held by leaves; maxDepth reaches depth and, with the depth bound, goes no further than
   * maxDepth of the configuration.
   */
  lemma {:induction false} AccumulateCounts(n: INode, s: Statistics, depth: int, cfg: Config)
    requires WF(n)
    ensures var r := Accumulate(n, s, depth);
      4 * (r.leafNodes - s.leafNodes) == 3 * (r.totalNodes - s.totalNodes) + 1 &&
      r.totalTiles == s.totalTiles + |LeafStored(n)| && r.maxDepth >= Max(s.maxDepth, depth) &&
      (DepthOK(n, depth, cfg) ==> r.maxDepth <= Max(s.maxDepth, Max(depth, cfg.maxDepth)))
    decreases n, 1
  {
    if !n.node.isLeaf {
      var s1 := s.(totalNodes := s.totalNodes + 1, maxDepth := Max(s.maxDepth, depth));
      AccumulateAllCounts(n.children, s1, depth + 1, cfg);
    }
  }

  lemma {:induction false} AccumulateAllCounts(ks: seq<INode>, s: Statistics, depth: int, cfg: Config)
    requires forall j :: 0 <= j < |ks| ==> WF(ks[j])
    ensures var r := AccumulateAll(ks, s, depth);
      4 * (r.leafNodes - s.leafNodes) == 3 * (r.totalNodes - s.totalNodes) + |ks| &&
      r.totalTiles == s.totalTiles + |LeafStoredAll(ks)| && r.maxDepth >= s.maxDepth &&
      ((forall j :: 0 <= j < |ks| ==> DepthOK(ks[j], depth, cfg)) ==>
        r.maxDepth <= Max(s.maxDepth, Max(depth, cfg.maxDepth)))
    decreases ks, 0
  {
    if ks != [] {
      AccumulateCounts(ks[0], s, depth, cfg);
      AccumulateAllCounts(ks[1..], Accumulate(ks[0], s, depth), depth, cfg);
    }
  }

  /** Leaves hold only tiles the tree stores. */
  lemma {:induction false} LeafStoredPart(n: INode)
    ensures LeafStored(n) <= Stored(n)
    decreases n, 1
  {
    if !n.node.isLeaf {
      LeafStoredAllPart(n.children);
      SubSum(multiset{}, LeafStoredAll(n.children), multiset(n.tileIndices), StoredAll(n.children));
    }
  }

  lemma {:induction false} LeafStoredAllPart(ks: seq<INode>)
    ensures LeafStoredAll(ks) <= StoredAll(ks)
    decreases ks, 0
  {
    if ks != [] {
      LeafStoredPart(ks[0]);
      LeafStoredAllPart(ks[1..]);
      SubSum(LeafStored(ks[0]), LeafStoredAll(ks[1..]), Stored(ks[0]), StoredAll(ks[1..]));
    }
  }

  /** The multiset of 0 .. k-1. */
  function Upto(k: nat): (s: seq<int>)
    ensures |s| == k && IncreasingBelow(s, k) && forall j :: 0 <= j < k ==> s[j] == j
  {
    seq(k, j requires 0 <= j < k => j)
  }

  lemma HoldsFirstSize(m: multiset<int>, k: nat)
    requires HoldsFirst(m, k)
    ensures |m| == k
  {
    var u := Upto(k);
    forall j
      ensures m[j] == multiset(u)[j]
    {
      CountInIncreasing(u, k, j);
      if 0 <= j < k {
        assert u[j] == j;
      }
    }
    assert m == multiset(u);
  }

  /**
   * The statistics of a built tree: none for no tiles; otherwise 4 * leafNodes ==
   * 3 * totalNodes + 1, maxDepth between 0 and the configured maxDepth (or 0 when that is
   * negative), and, for placeable tiles, no more tiles counted in leaves than there are tiles.
   */
  lemma BuiltStatistics(ts: seq<TileMeta>, cfg: Config)
    ensures ts == [] ==> TreeStatistics(BuildTree(ts, cfg)) == NoStatistics
    ensures var st := TreeStatistics(BuildTree(ts, cfg));
      ts != [] ==> 4 * st.leafNodes == 3 * st.totalNodes + 1 && 0 <= st.maxDepth <= Max(0, cfg.maxDepth)
    ensures Placeable(ts) ==> TreeStatistics(BuildTree(ts, cfg)).totalTiles <= |ts|
  {
    if ts != [] {
      var b := BuiltUpTo(ts, cfg, |ts|);
      BuiltShape(ts, cfg, |ts|);
      AccumulateCounts(b, NoStatistics, 0, cfg);
      if Placeable(ts) {
        LeafTilesBound(ts, cfg);
      }
    }
  }

  lemma SubSize(a: multiset<int>, b: multiset<int>)
    requires a <= b
    ensures |a| <= |b|
  {
    assert b == a + (b - a);
  }

  /** With placeable tiles, the leaves of the built tree hold at most one index per tile. */
  lemma LeafTilesBound(ts: seq<TileMeta>, cfg: Config)
    requires Placeable(ts) && ts != []
    ensures |LeafStored(BuiltUpTo(ts, cfg, |ts|))| <= |ts|
  {
    var b := BuiltUpTo(ts, cfg, |ts|);
    BuildInvariant(ts, cfg, |ts|);
    HoldsFirstSize(Stored(b), |ts|);
    LeafStoredPart(b);
    SubSize(LeafStored(b), Stored(b));
  }

  // ---------------------------------------------------------------------------------
  // Findings
  // ---------------------------------------------------------------------------------

  /**
   * A leaf 1 pixel wide and 2 high that holds eight tiles overflows at depth 0 with the
   * default configuration when it takes a ninth; subdivide as written then asks the
   * wrapped node to split, which refuses (its width is 1), and reads a child that does not
   * exist. The corrected Subdivide leaves the leaf as it is.
   */
  lemma SubdivideAsWrittenMissesChildren()
    ensures var n := INode(NewLeaf(Rect(0, 0, 1, 2)), [0, 1, 2, 3, 4, 5, 6, 7, 8], []);
      Overfull(n, 0, DefaultConfig) && SubdivideAsWritten(n) == None && Subdivide(n) == n
  {
    var n := INode(NewLeaf(Rect(0, 0, 1, 2)), [0, 1, 2, 3, 4, 5, 6, 7, 8], []);
    assert !CanSplit(n.node);
    assert Subdivided(n.node) == n.node;
  }

  /** buildQuadTree as written: an empty tile list returns early and keeps the old root. */
  function BuildAsWritten(oldRoot: Option<INode>, ts: seq<TileMeta>, cfg: Config): Option<INode> {
    if ts == [] then oldRoot else Some(BuiltUpTo(ts, cfg, |ts|))
  }

  /**
   * After a load of one 1x1 tile, a reload that yields no tiles keeps the old root: it
   * still stores index 0 and intersects the viewport (0, 0, 1, 1), so queryRecursive would
   * read tiles_[0] of an empty list.
   */
  lemma StaleRootAfterEmptyReload()
    ensures var old1 := BuildTree([TileMeta(0, 0, 1, 1, "a")], DefaultConfig);
      var r := BuildAsWritten(old1, [], DefaultConfig);
      r.Some? && 0 in r.value.tileIndices && Intersects(r.value, ViewRect(Viewport(0, 0, 1, 1)))
  {
    var ts := [TileMeta(0, 0, 1, 1, "a")];
    assert Extent(ts) == (1, 1) by {
      assert ts[..0] == [];
    }
    var root := NewIndexNode(Rect(0, 0, 1, 1));
    assert BuiltUpTo(ts, DefaultConfig, 1) == Insert(root, ts, 0, 0, DefaultConfig);
    assert Insert(root, ts, 0, 0, DefaultConfig) == root.(tileIndices := [0]);
  }

  /**
   * The root after load as written: a load that fails returns before buildQuadTree and
   * keeps the old root (TileIndex::load has cleared the tiles by then); a load that
   * succeeds runs buildQuadTree as written.
   */
  function LoadRootAsWritten(oldRoot: Option<INode>, content: Option<string>, cfg: Config): Option<INode> {
    if content.None? then oldRoot else BuildAsWritten(oldRoot, LoadedTiles(content.value), cfg)
  }

  /**
   * After a load of one 1x1 tile, a load of a file that does not open keeps the old root:
   * it still stores index 0 and intersects the viewport (0, 0, 1, 1), while the tile list
   * is now empty, so queryRecursive would read tiles_[0] of an empty list.
   */
  lemma StaleRootAfterFailedLoad()
    ensures var old1 := BuildTree([TileMeta(0, 0, 1, 1, "a")], DefaultConfig);
      var r := LoadRootAsWritten(old1, None, DefaultConfig);
      r.Some? && 0 in r.value.tileIndices && Intersects(r.value, ViewRect(Viewport(0, 0, 1, 1))) &&
      r != BuildTree([], DefaultConfig)
  {
    StaleRootAfterEmptyReload();
  }

  /**
   * The corrected build always matches the tile list: no tree for no tiles, and otherwise
   * a tree that stores only positions of the list.
   */
  lemma BuildTreeMatchesTiles(ts: seq<TileMeta>, cfg: Config)
    ensures BuildTree(ts, cfg).None? <==> ts == []
    ensures BuildTree(ts, cfg).Some? ==> Below(Stored(BuildTree(ts, cfg).value), |ts|)
  {
    if ts != [] {
      BuiltShape(ts, cfg, |ts|);
    }
  }

  // ---------------------------------------------------------------------------------
  // The QuadTreeIndex object
  // ---------------------------------------------------------------------------------

  /**
   * QuadTreeIndex: a TileIndex (the tile list and the map size) together with a quadtree
   * over the tile positions, built with the configuration given at construction.
   */
  class QuadTreeIndex {
    const config: Config
    const base: TileIndex
    var root: Option<INode>

    /** The tree is the one built from the current tile list. */
    ghost predicate Valid()
      reads this, base
    {
      root == BuildTree(base.tiles, config)
    }

    constructor (config: Config)
      ensures this.config == config && fresh(base) && base.tiles == [] && root == None && Valid()
    {
      this.config := config;
      base := new TileIndex();
      root := None;
    }

    /**
     * load, corrected: load the tile list, which on success also sets the map extent to
     * the tiles' extent and on failure leaves it as it was; on success build the tree. A failed load clears
     * the tree along with the tiles, so the tree never outlives the list it indexes.
     */
    method Load(content: Option<string>) returns (ok: bool)
      modifies this, base
      ensures ok == content.Some?
      ensures base.tiles == if content.Some? then LoadedTiles(content.value) else []
      ensures content.Some? ==> (base.mapWidth, base.mapHeight) == Extent(base.tiles)
      ensures content.None? ==> base.mapWidth == old(base.mapWidth) && base.mapHeight == old(base.mapHeight)
      ensures Valid()
    {
      ok := base.Load(content);
      if !ok {
        root := None;
        return;
      }
      BuildQuadTree();
    }

    /**
     * load as written: a failed load returns with the old root in place, and an empty tile
     * list returns early from buildQuadTree with the old root in place too.
     */
    method LoadAsWritten(content: Option<string>) returns (ok: bool)
      modifies this, base
      ensures ok == content.Some?
      ensures base.tiles == if content.Some? then LoadedTiles(content.value) else []
      ensures content.Some? ==> (base.mapWidth, base.mapHeight) == Extent(base.tiles)
      ensures content.None? ==> base.mapWidth == old(base.mapWidth) && base.mapHeight == old(base.mapHeight)
      ensures root == LoadRootAsWritten(old(root), content, config)
    {
      ok := base.Load(content);
      if !ok {
        return;
      }
      if base.tiles != [] {
        BuildQuadTree();
      }
    }

    /**
     * buildQuadTree, corrected: no tree for no tiles; otherwise a map-sized root into which
     * every tile is inserted in index order at depth 0.
     */
    method BuildQuadTree()
      requires (base.mapWidth, base.mapHeight) == Extent(base.tiles)
      modifies this
      ensures root == BuildTree(base.tiles, config)
    {
      var ts := base.tiles;
      if ts == [] {
        root := None;
        return;
      }
      var r := NewIndexNode(Rect(0, 0, base.mapWidth, base.mapHeight));
      var i := 0;
      while i < |ts|
        invariant 0 <= i <= |ts|
        invariant r == BuiltUpTo(ts, config, i)
      {
        r := Insert(r, ts, i, 0, config);
        i := i + 1;
      }
      root := Some(r);
    }

    /**
     * query: the tiles of the tree's query, read from the tile list; for placeable tiles the
     * same collection TileIndex::query returns.
     */
    method Query(vp: Viewport) returns (out: seq<TileMeta>)
      requires Valid()
      ensures IndicesBelow(TreeQuery(root, base.tiles, vp), |base.tiles|)
      ensures out == TilesOf(base.tiles, TreeQuery(root, base.tiles, vp))
      ensures Placeable(base.tiles) ==> multiset(out) == multiset(QueryTiles(base.tiles, vp))
    {
      QueryInRange(base.tiles, config, vp);
      out := TilesOf(base.tiles, TreeQuery(root, base.tiles, vp));
      if Placeable(base.tiles) {
        QueryTilesMatchLinear(base.tiles, config, vp);
      }
    }

    /** getStatistics, without the floating-point average. */
    method GetStatistics() returns (st: Statistics)
      ensures st == TreeStatistics(root)
      ensures Valid() && base.tiles != [] ==>
        4 * st.leafNodes == 3 * st.totalNodes + 1 && 0 <= st.maxDepth <= Max(0, config.maxDepth)
      ensures Valid() && base.tiles == [] ==> st == NoStatistics
    {
      st := TreeStatistics(root);
      if Valid() {
        BuiltStatistics(base.tiles, config);
      }
    }
  }
}
