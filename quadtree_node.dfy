/**
 * QuadTreeNode of the tile library: a node covers the rectangle [x, x+width) x [y, y+height)
 * of an image and is either a leaf or has four children, the quadrants of its rectangle.
 * QNode is the value a node and its subtree stand for; the class QuadTreeNode is the
 * mutable node, tied to a QNode by Valid().
 */
module QuadTreeNodes {
  import opened FixedWidth
  import opened Rects

  /** A node's fields (the rectangle, the leaf flag and the uniform-colour pair) and its children. */
  datatype QNode = QNode(rect: Rect, isLeaf: bool, uniformColor: u32, hasUniformColor: bool, kids: seq<QNode>)

  /** The state the constructor leaves: a leaf without a uniform colour. */
  function NewLeaf(r: Rect): QNode {
    QNode(r, true, 0, false, [])
  }

  /** subdivide acts only on a leaf whose sides both exceed 1. */
  predicate CanSplit(t: QNode) {
    t.isLeaf && t.rect.w > 1 && t.rect.h > 1
  }

  /** QuadTreeNode::subdivide: a splittable leaf gets four fresh leaves over its quadrants; any other node is left as it is. */
  function Subdivided(t: QNode): (r: QNode)
    ensures r.rect == t.rect && r.uniformColor == t.uniformColor && r.hasUniformColor == t.hasUniformColor
  {
    if CanSplit(t) then
      var q := Quadrants(t.rect);
      t.(isLeaf := false, kids := t.kids + [NewLeaf(q[0]), NewLeaf(q[1]), NewLeaf(q[2]), NewLeaf(q[3])])
    else t
  }

  /** The rectangles of a node's children, in order. */
  function ChildRects(t: QNode): (rs: seq<Rect>)
    ensures |rs| == |t.kids| && forall i :: 0 <= i < |rs| ==> rs[i] == t.kids[i].rect
  {
    seq(|t.kids|, i requires 0 <= i < |t.kids| => t.kids[i].rect)
  }

  /** A leaf has no children and an internal node has four. */
  predicate LeafShape(t: QNode) {
    (t.isLeaf <==> t.kids == []) && (t.kids == [] || |t.kids| == 4)
  }

  // ---------------------------------------------------------------------------------
  // Properties of subdivide
  // ---------------------------------------------------------------------------------

  /**
   * subdivide changes a node exactly when it can split it; a split node is internal with
   * four leaf children without a uniform colour, each of positive width and height, so
   * the halfWidth <= 0 || halfHeight <= 0 guard never fires.
   */
  lemma SubdivideEffect(t: QNode)
    requires LeafShape(t)
    ensures LeafShape(Subdivided(t))
    ensures CanSplit(t) <==> Subdivided(t) != t
    ensures CanSplit(t) ==> t.rect.w / 2 > 0 && t.rect.h / 2 > 0
    ensures CanSplit(t) ==> var r := Subdivided(t);
      !r.isLeaf && |r.kids| == 4 &&
      forall i :: 0 <= i < 4 ==> r.kids[i] == NewLeaf(r.kids[i].rect) && NonEmpty(r.kids[i].rect)
  {
  }

  /**
   * The children of a split node tile its rectangle exactly, also for odd sides: every
   * pixel of the parent lies in exactly one child, and no other pixel in any.
   */
  lemma SubdivideTiles(t: QNode, px: int, py: int)
    requires CanSplit(t) && t.kids == []
    ensures CountInside(ChildRects(Subdivided(t)), px, py) == if Inside(t.rect, px, py) then 1 else 0
  {
    assert ChildRects(Subdivided(t)) == Quadrants(t.rect);
    QuadrantsTile(t.rect, px, py);
  }

  /** Subdividing a leaf without children gives it fresh leaves over its quadrants, in order. */
  lemma SubdividedLeaf(t: QNode)
    requires CanSplit(t) && t.kids == []
    ensures var k := Subdivided(t).kids; var q := Quadrants(t.rect);
      |k| == 4 && ChildRects(Subdivided(t)) == q &&
      forall i :: 0 <= i < 4 ==> k[i] == NewLeaf(q[i]) && Contains(t.rect, k[i].rect) && NonEmpty(k[i].rect)
  {
    assert ChildRects(Subdivided(t)) == Quadrants(t.rect);
  }

  /** The left children are w/2 wide and the right ones w - w/2; the top ones h/2 high and the bottom ones h - h/2. */
  lemma SubdivideSides(t: QNode)
    requires CanSplit(t) && t.kids == []
    ensures var k := Subdivided(t).kids; var r := t.rect;
      k[0].rect == Rect(r.x, r.y, r.w / 2, r.h / 2) &&
      k[1].rect == Rect(r.x + r.w / 2, r.y, r.w - r.w / 2, r.h / 2) &&
      k[2].rect == Rect(r.x, r.y + r.h / 2, r.w / 2, r.h - r.h / 2) &&
      k[3].rect == Rect(r.x + r.w / 2, r.y + r.h / 2, r.w - r.w / 2, r.h - r.h / 2)
  {
  }

  /** A second subdivide does nothing. */
  lemma SubdivideIdempotent(t: QNode)
    ensures Subdivided(Subdivided(t)) == Subdivided(t)
  {
  }

  // ---------------------------------------------------------------------------------
  // Trees of subdivided nodes
  // ---------------------------------------------------------------------------------

  /** Every internal node was split by subdivide: its children are the quadrants of its rectangle. */
  predicate Tiled(t: QNode)
    decreases t
  {
    if t.kids == [] then t.isLeaf
    else
      !t.isLeaf && t.rect.w > 1 && t.rect.h > 1 && |t.kids| == 4 &&
      forall i :: 0 <= i < 4 ==> t.kids[i].rect == Quadrants(t.rect)[i] && Tiled(t.kids[i])
  }

  /** The rectangles of the tree's leaves, depth first, children in order. */
  function LeafRects(t: QNode): seq<Rect>
    decreases t, 1
  {
    if t.kids == [] then [t.rect] else LeafRectsUpTo(t, |t.kids|)
  }

  /** The leaf rectangles under the first n children. */
  function LeafRectsUpTo(t: QNode, n: nat): seq<Rect>
    requires n <= |t.kids|
    decreases t, 0, n
  {
    if n == 0 then [] else LeafRectsUpTo(t, n - 1) + LeafRects(t.kids[n - 1])
  }

  /** The leaf rectangles of a node with four children, child by child. */
  lemma LeafRectsOfFour(t: QNode)
    requires |t.kids| == 4
    ensures LeafRects(t) == LeafRects(t.kids[0]) + LeafRects(t.kids[1]) + LeafRects(t.kids[2]) + LeafRects(t.kids[3])
  {
    assert LeafRectsUpTo(t, 1) == LeafRects(t.kids[0]);
    assert LeafRectsUpTo(t, 2) == LeafRects(t.kids[0]) + LeafRects(t.kids[1]);
    assert LeafRectsUpTo(t, 3) == LeafRects(t.kids[0]) + LeafRects(t.kids[1]) + LeafRects(t.kids[2]);
  }

  /**
   * The leaves of a tree built by subdivide partition its root: every pixel of the root
   * lies in exactly one leaf, and no other pixel in any.
   */
  lemma {:induction false} LeavesTile(t: QNode, px: int, py: int)
    requires Tiled(t)
    ensures CountInside(LeafRects(t), px, py) == if Inside(t.rect, px, py) then 1 else 0
    decreases t
  {
    if t.kids != [] {
      var q := Quadrants(t.rect);
      var l0, l1, l2, l3 := LeafRects(t.kids[0]), LeafRects(t.kids[1]), LeafRects(t.kids[2]), LeafRects(t.kids[3]);
      LeavesTile(t.kids[0], px, py);
      LeavesTile(t.kids[1], px, py);
      LeavesTile(t.kids[2], px, py);
      LeavesTile(t.kids[3], px, py);
      LeafRectsOfFour(t);
      CountInsideAppend(l0 + l1 + l2, l3, px, py);
      CountInsideAppend(l0 + l1, l2, px, py);
      CountInsideAppend(l0, l1, px, py);
      QuadrantsTile(t.rect, px, py);
      assert q == [q[0]] + [q[1]] + [q[2]] + [q[3]];
      CountInsideAppend([q[0]] + [q[1]] + [q[2]], [q[3]], px, py);
      CountInsideAppend([q[0]] + [q[1]], [q[2]], px, py);
      CountInsideAppend([q[0]], [q[1]], px, py);
    }
  }

  /** No path from the root passes through more than d internal nodes. */
  predicate DepthAtMost(t: QNode, d: int)
    decreases t
  {
    if t.kids == [] then d >= 0
    else d >= 1 && forall i :: 0 <= i < |t.kids| ==> DepthAtMost(t.kids[i], d - 1)
  }

  /** Every node's origin is at or right of and below (0, 0). */
  predicate Placed(t: QNode)
    decreases t
  {
    t.rect.x >= 0 && t.rect.y >= 0 && forall i :: 0 <= i < |t.kids| ==> Placed(t.kids[i])
  }

  /** A node with four subdivided children over its quadrants is subdivided. */
  lemma TiledOfFour(t: QNode)
    requires !t.isLeaf && t.rect.w > 1 && t.rect.h > 1 && |t.kids| == 4
    requires ChildRects(t) == Quadrants(t.rect)
    requires Tiled(t.kids[0]) && Tiled(t.kids[1]) && Tiled(t.kids[2]) && Tiled(t.kids[3])
    ensures Tiled(t)
  {
  }

  /** A node whose four children have depth at most d - 1 has depth at most d. */
  lemma DepthOfFour(t: QNode, d: int)
    requires |t.kids| == 4 && d >= 1
    requires DepthAtMost(t.kids[0], d - 1) && DepthAtMost(t.kids[1], d - 1)
    requires DepthAtMost(t.kids[2], d - 1) && DepthAtMost(t.kids[3], d - 1)
    ensures DepthAtMost(t, d)
  {
  }

  /** A placed node whose four children are placed is placed. */
  lemma PlacedOfFour(t: QNode)
    requires |t.kids| == 4 && t.rect.x >= 0 && t.rect.y >= 0
    requires Placed(t.kids[0]) && Placed(t.kids[1]) && Placed(t.kids[2]) && Placed(t.kids[3])
    ensures Placed(t)
  {
  }

  // ---------------------------------------------------------------------------------
  // The mutable node
  // ---------------------------------------------------------------------------------

  /**
   * QuadTreeNode. The rectangle is fixed at construction; the leaf flag, the uniform
   * colour and the children change. Model is the node's state as a QNode, Repr the
   * nodes of its subtree (the children are owned, as through std::unique_ptr).
   */
  class QuadTreeNode {
    const x: int
    const y: int
    const width: int
    const height: int
    var isLeaf: bool
    var uniformColor: u32
    var hasUniformColor: bool
    var children: seq<QuadTreeNode>
    ghost var Model: QNode
    ghost var Repr: set<QuadTreeNode>

    /** The node's own fields agree with its model, and it has no children or four. */
    ghost predicate FieldsMatch()
      reads this
    {
      Model.rect == Rect(x, y, width, height) && Model.isLeaf == isLeaf &&
      Model.uniformColor == uniformColor && Model.hasUniformColor == hasUniformColor &&
      |children| == |Model.kids| && (isLeaf <==> children == []) && (children == [] || |children| == 4)
    }

    ghost predicate Valid()
      reads this, Repr
      decreases Repr
    {
      this in Repr && FieldsMatch() &&
      (forall i :: 0 <= i < |children| ==>
        children[i] in Repr && children[i].Repr <= Repr && this !in children[i].Repr &&
        children[i].Valid() && children[i].Model == Model.kids[i]) &&
      (forall i, j :: 0 <= i < j < |children| ==> children[i].Repr !! children[j].Repr)
    }

    /** Every node of a valid tree is a leaf without children or an internal node with four. */
    lemma ValidShape()
      requires Valid()
      ensures LeafShape(Model)
    {
    }

    /** The node as the constructor leaves it: a leaf alone in its subtree. */
    ghost predicate FreshLeaf()
      reads this
    {
      Repr == {this} && isLeaf && children == [] && uniformColor == 0 && !hasUniformColor &&
      Model == NewLeaf(Rect(x, y, width, height))
    }

    constructor (x: int, y: int, width: int, height: int)
      ensures Valid() && fresh(Repr) && FreshLeaf()
      ensures Model == NewLeaf(Rect(x, y, width, height))
    {
      this.x := x;
      this.y := y;
      this.width := width;
      this.height := height;
      isLeaf := true;
      uniformColor := 0;
      hasUniformColor := false;
      children := [];
      Model := NewLeaf(Rect(x, y, width, height));
      Repr := {this};
    }

    /** subdivide: a leaf with both sides above 1 gets its four quadrants as fresh leaf children. */
    method Subdivide()
      requires Valid()
      modifies this
      ensures Valid() && fresh(Repr - old(Repr))
      ensures Model == Subdivided(old(Model))
    {
      if !isLeaf || width <= 1 || height <= 1 {
        return;
      }
      var halfWidth := width / 2;
      var halfHeight := height / 2;
      var kids := NewChildren(halfWidth, halfHeight);
      assert Model.kids == [];
      Attach(kids);
    }

    /** The four new leaves of subdivide: top-left, top-right, bottom-left, bottom-right. */
    method NewChildren(halfWidth: int, halfHeight: int) returns (kids: seq<QuadTreeNode>)
      requires width > 1 && height > 1 && halfWidth == width / 2 && halfHeight == height / 2
      ensures |kids| == 4
      ensures forall i :: 0 <= i < 4 ==> fresh(kids[i]) && kids[i].FreshLeaf()
      ensures forall i, j :: 0 <= i < j < 4 ==> kids[i] != kids[j]
      ensures var q := Quadrants(Rect(x, y, width, height));
        [kids[0].Model, kids[1].Model, kids[2].Model, kids[3].Model] == [NewLeaf(q[0]), NewLeaf(q[1]), NewLeaf(q[2]), NewLeaf(q[3])]
    {
      var tl := new QuadTreeNode(x, y, halfWidth, halfHeight);
      var tr := new QuadTreeNode(x + halfWidth, y, width - halfWidth, halfHeight);
      var bl := new QuadTreeNode(x, y + halfHeight, halfWidth, height - halfHeight);
      var br := new QuadTreeNode(x + halfWidth, y + halfHeight, width - halfWidth, height - halfHeight);
      kids := [tl, tr, bl, br];
    }

    /** The end of subdivide: the new nodes become the children and the node stops being a leaf. */
    method Attach(kids: seq<QuadTreeNode>)
      requires Valid() && isLeaf && |kids| == 4
      requires forall i :: 0 <= i < 4 ==> kids[i].FreshLeaf() && kids[i] !in Repr
      requires forall i, j :: 0 <= i < j < 4 ==> kids[i] != kids[j]
      modifies this
      ensures Valid() && children == kids
      ensures Repr == old(Repr) + {kids[0], kids[1], kids[2], kids[3]}
      ensures Model == old(Model).(isLeaf := false, kids := [kids[0].Model, kids[1].Model, kids[2].Model, kids[3].Model])
    {
      children := kids;
      isLeaf := false;
      Repr := Repr + {kids[0], kids[1], kids[2], kids[3]};
      Model := Model.(isLeaf := false, kids := [kids[0].Model, kids[1].Model, kids[2].Model, kids[3].Model]);
    }

    /**
     * A ghost step for callers that grow the children's subtrees (the splitter does):
     * the node takes the children's nodes into its footprint and their states into its model.
     */
    ghost method AdoptChildren()
      requires this in Repr && FieldsMatch() && |children| == 4
      requires forall i :: 0 <= i < 4 ==> children[i].Valid() && this !in children[i].Repr
      requires forall i, j :: 0 <= i < j < 4 ==> children[i].Repr !! children[j].Repr
      modifies this
      ensures Valid() && children == old(children)
      ensures Repr == old(Repr + children[0].Repr + children[1].Repr + children[2].Repr + children[3].Repr)
      ensures Model == old(Model.(kids := [children[0].Model, children[1].Model, children[2].Model, children[3].Model]))
    {
      Repr := Repr + children[0].Repr + children[1].Repr + children[2].Repr + children[3].Repr;
      Model := Model.(kids := [children[0].Model, children[1].Model, children[2].Model, children[3].Model]);
    }

    /** setUniformColor */
    method SetUniformColor(color: u32)
      requires Valid()
      modifies this
      ensures Valid() && Repr == old(Repr)
      ensures Model == old(Model).(uniformColor := color)
    {
      uniformColor := color;
      Model := Model.(uniformColor := color);
    }

    /** setHasUniformColor */
    method SetHasUniformColor(uniform: bool)
      requires Valid()
      modifies this
      ensures Valid() && Repr == old(Repr)
      ensures Model == old(Model).(hasUniformColor := uniform)
    {
      hasUniformColor := uniform;
      Model := Model.(hasUniformColor := uniform);
    }
  }
}
