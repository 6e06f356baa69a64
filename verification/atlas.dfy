/**
  * The guillotine rectangle packer behind font atlases (neon/src/core/atlas.c):
  * a binary tree of rectangles whose leaves tile the atlas; a surface is placed in
  * the first free leaf (left before right) that holds it with its padding, splitting
  * the leaf along its larger leftover.
  */
module Atlas {
  import opened Wrappers

  datatype Rect = Rect(x: int, y: int, w: int, h: int)

  /** A leaf is free or used; an inner node is split into two children that tile it. */
  datatype Node = Leaf(r: Rect, used: bool) | Split(r: Rect, left: Node, right: Node)

  /** The two children tile the parent exactly: side by side or one above the other. */
  predicate Tiles(p: Rect, a: Rect, b: Rect)
  {
    (a == Rect(p.x, p.y, a.w, p.h) && b == Rect(p.x + a.w, p.y, p.w - a.w, p.h)) ||
    (a == Rect(p.x, p.y, p.w, a.h) && b == Rect(p.x, p.y + a.h, p.w, p.h - a.h))
  }

  /** Every node has a positive size and every split tiles its node. */
  predicate Valid(n: Node)
  {
    n.r.w > 0 && n.r.h > 0 &&
    match n
    case Leaf(_, _) => true
    case Split(r, left, right) => Valid(left) && Valid(right) && Tiles(r, left.r, right.r)
  }

  predicate Inside(a: Rect, b: Rect)
  {
    b.x <= a.x && a.x + a.w <= b.x + b.w && b.y <= a.y && a.y + a.h <= b.y + b.h
  }

  predicate Disjoint(a: Rect, b: Rect)
  {
    a.x + a.w <= b.x || b.x + b.w <= a.x || a.y + a.h <= b.y || b.y + b.h <= a.y
  }

  function Depth(n: Node): nat
  {
    match n
    case Leaf(_, _) => 0
    case Split(_, left, right) => 1 + (if Depth(left) > Depth(right) then Depth(left) else Depth(right))
  }

  /** The leaves left to right. */
  function Leaves(n: Node): (ls: seq<Node>)
    ensures |ls| > 0 && forall k :: 0 <= k < |ls| ==> ls[k].Leaf?
  {
    match n
    case Leaf(_, _) => [n]
    case Split(_, left, right) => Leaves(left) + Leaves(right)
  }

  /** The rectangles handed out so far. */
  function UsedSet(n: Node): set<Rect>
  {
    match n
    case Leaf(r, used) => if used then {r} else {}
    case Split(_, left, right) => UsedSet(left) + UsedSet(right)
  }

  /** `atlas_alloc`'s root: the whole atlas, free and childless. */
  function Alloc(width: int, height: int): (n: Node)
    requires width > 0 && height > 0
    ensures Valid(n) && n.r == Rect(0, 0, width, height) && UsedSet(n) == {} && |Leaves(n)| == 1
  {
    Leaf(Rect(0, 0, width, height), false)
  }

  /**
    * `insert_child_atlas_node` for a padded image of `iw` by `ih`: an inner node
    * tries its left child, then its right; a used or too small leaf refuses; an exact
    * fit is marked used; any other leaf is split along its larger leftover and the
    * image goes into the new left child.
    */
  function Insert(n: Node, iw: int, ih: int): (res: (Node, Option<Rect>))
    requires Valid(n) && iw > 0 && ih > 0
    decreases Depth(n), n.r.w + n.r.h
  {
    match n
    case Split(r, left, right) =>
      var (l1, found) := Insert(left, iw, ih);
      if found.Some? then (Split(r, l1, right), found)
      else
        var (r1, found2) := Insert(right, iw, ih);
        (Split(r, l1, r1), found2)
    case Leaf(r, used) =>
      if used || iw > r.w || ih > r.h then (n, None)
      else if iw == r.w && ih == r.h then (Leaf(r, true), Some(r))
      else
        var (a, b) :=
          if r.w - iw > r.h - ih then (Rect(r.x, r.y, iw, r.h), Rect(r.x + iw, r.y, r.w - iw, r.h))
          else (Rect(r.x, r.y, r.w, ih), Rect(r.x, r.y + ih, r.w, r.h - ih));
        var (l1, found) := Insert(Leaf(a, false), iw, ih);
        (Split(r, l1, Leaf(b, false)), found)
  }

  /**
    * What one insertion does: the tree stays a valid tiling of the same rectangle;
    * a refusal changes nothing; a placement returns an `iw` by `ih` rectangle inside
    * a leaf that was free, and adds exactly that rectangle to the used ones.
    */
  predicate Inserted(n: Node, iw: int, ih: int, n': Node, found: Option<Rect>)
  {
    Valid(n') && n'.r == n.r &&
    (found.None? ==> n' == n) &&
    (found.Some? ==> found.value.w == iw && found.value.h == ih &&
                     UsedSet(n') == UsedSet(n) + {found.value} &&
                     exists k :: 0 <= k < |Leaves(n)| && !Leaves(n)[k].used && Inside(found.value, Leaves(n)[k].r))
  }

  lemma {:induction false} InsertSpec(n: Node, iw: int, ih: int)
    requires Valid(n) && iw > 0 && ih > 0
    ensures Inserted(n, iw, ih, Insert(n, iw, ih).0, Insert(n, iw, ih).1)
    decreases Depth(n), n.r.w + n.r.h, 1
  {
    if n.Split? {
      InsertSplitSpec(n, iw, ih);
    } else {
      InsertLeafSpec(n, iw, ih);
    }
  }

  /**
    * At an inner node: the left child is tried first and, when it takes the image,
    * the right child is left untouched; otherwise the left child is unchanged and
    * the right child's answer is the node's.
    */
  lemma {:induction false} InsertSplitSpec(n: Node, iw: int, ih: int)
    requires Valid(n) && iw > 0 && ih > 0 && n.Split?
    ensures Inserted(n, iw, ih, Insert(n, iw, ih).0, Insert(n, iw, ih).1)
    ensures Insert(n.left, iw, ih).1.Some? ==>
      Insert(n, iw, ih).1 == Insert(n.left, iw, ih).1 && Insert(n, iw, ih).0.right == n.right
    ensures Insert(n.left, iw, ih).1.None? ==>
      Insert(n, iw, ih).1 == Insert(n.right, iw, ih).1 && Insert(n, iw, ih).0.left == n.left
    decreases Depth(n), n.r.w + n.r.h, 0
  {
    var left, right := n.left, n.right;
    InsertSpec(left, iw, ih);
    var (l1, found) := Insert(left, iw, ih);
    if found.Some? {
      var k :| 0 <= k < |Leaves(left)| && !Leaves(left)[k].used && Inside(found.value, Leaves(left)[k].r);
      assert Leaves(n)[k] == Leaves(left)[k];
    } else {
      InsertSpec(right, iw, ih);
      var (r1, found2) := Insert(right, iw, ih);
      if found2.Some? {
        var k :| 0 <= k < |Leaves(right)| && !Leaves(right)[k].used && Inside(found2.value, Leaves(right)[k].r);
        assert Leaves(n)[|Leaves(left)| + k] == Leaves(right)[k];
      }
    }
  }

  /**
    * At a leaf: a used or too small leaf refuses; an exact fit is marked used; any
    * other fit becomes a subtree whose first leaf is the image at the leaf's top-left
    * corner, marked used, and whose other leaves are free.
    */
  lemma {:induction false} InsertLeafSpec(n: Node, iw: int, ih: int)
    requires Valid(n) && iw > 0 && ih > 0 && n.Leaf?
    ensures Inserted(n, iw, ih, Insert(n, iw, ih).0, Insert(n, iw, ih).1)
    ensures !Fits(n, iw, ih) ==> Insert(n, iw, ih) == (n, None)
    ensures Fits(n, iw, ih) && iw == n.r.w && ih == n.r.h ==> Insert(n, iw, ih) == (Leaf(n.r, true), Some(n.r))
    ensures Fits(n, iw, ih) ==>
      var ls := Leaves(Insert(n, iw, ih).0);
      ls[0] == Leaf(Rect(n.r.x, n.r.y, iw, ih), true) && forall k :: 1 <= k < |ls| ==> !ls[k].used
    decreases Depth(n), n.r.w + n.r.h, 0
  {
    var r := n.r;
    assert Leaves(n)[0] == n;
    if n.used || iw > r.w || ih > r.h {
    } else if iw == r.w && ih == r.h {
    } else {
      var (a, b) :=
        if r.w - iw > r.h - ih then (Rect(r.x, r.y, iw, r.h), Rect(r.x + iw, r.y, r.w - iw, r.h))
        else (Rect(r.x, r.y, r.w, ih), Rect(r.x, r.y + ih, r.w, r.h - ih));
      InsertLeafSpec(Leaf(a, false), iw, ih);
      var (l1, found) := Insert(Leaf(a, false), iw, ih);
      assert found.Some?;
      var k :| 0 <= k < |Leaves(Leaf(a, false))| && Inside(found.value, Leaves(Leaf(a, false))[k].r);
      assert Inside(found.value, n.r);
      assert Insert(n, iw, ih).0 == Split(r, l1, Leaf(b, false));
      var ls := Leaves(Insert(n, iw, ih).0);
      assert Leaves(Leaf(b, false)) == [Leaf(b, false)];
      assert ls == Leaves(l1) + [Leaf(b, false)];
      forall k | 1 <= k < |ls| ensures !ls[k].used {
        if k < |Leaves(l1)| {
          assert ls[k] == Leaves(l1)[k];
        }
      }
    }
  }

  /** A leaf that takes an `iw` by `ih` image: free and at least that large. */
  predicate Fits(l: Node, iw: int, ih: int)
  {
    l.Leaf? && !l.used && iw <= l.r.w && ih <= l.r.h
  }

  /** Leaf k is the first, left to right, that takes the image. */
  predicate FirstFit(ls: seq<Node>, k: int, iw: int, ih: int)
  {
    0 <= k < |ls| && Fits(ls[k], iw, ih) && forall j :: 0 <= j < k ==> !Fits(ls[j], iw, ih)
  }

  /**
    * Insertion is first fit: it refuses exactly when no leaf takes the image, and
    * otherwise places the image at the top-left corner of the leftmost leaf that does.
    */
  lemma {:induction false} InsertFirstFit(n: Node, iw: int, ih: int)
    requires Valid(n) && iw > 0 && ih > 0
    ensures var found := Insert(n, iw, ih).1;
      (found.None? <==> forall k :: 0 <= k < |Leaves(n)| ==> !Fits(Leaves(n)[k], iw, ih)) &&
      (found.Some? ==> exists k :: FirstFit(Leaves(n), k, iw, ih) &&
                                   found.value == Rect(Leaves(n)[k].r.x, Leaves(n)[k].r.y, iw, ih))
    decreases Depth(n), n.r.w + n.r.h
  {
    match n
    case Leaf(r, used) =>
      assert Leaves(n) == [n];
      if !(used || iw > r.w || ih > r.h) && !(iw == r.w && ih == r.h) {
        var a :=
          if r.w - iw > r.h - ih then Rect(r.x, r.y, iw, r.h) else Rect(r.x, r.y, r.w, ih);
        InsertFirstFit(Leaf(a, false), iw, ih);
        assert Leaves(Leaf(a, false)) == [Leaf(a, false)];
        assert FirstFit(Leaves(n), 0, iw, ih);
      } else if !(used || iw > r.w || ih > r.h) {
        assert FirstFit(Leaves(n), 0, iw, ih);
      }
    case Split(r, left, right) =>
      var ll, lr := Leaves(left), Leaves(right);
      assert Leaves(n) == ll + lr;
      InsertFirstFit(left, iw, ih);
      var found := Insert(left, iw, ih).1;
      if found.Some? {
        var k :| FirstFit(ll, k, iw, ih) && found.value == Rect(ll[k].r.x, ll[k].r.y, iw, ih);
        assert Leaves(n)[k] == ll[k];
        assert FirstFit(Leaves(n), k, iw, ih);
      } else {
        InsertFirstFit(right, iw, ih);
        var found2 := Insert(right, iw, ih).1;
        assert Insert(left, iw, ih).1.None?;
        assert forall k :: 0 <= k < |Leaves(left)| ==> !Fits(Leaves(left)[k], iw, ih);
        if found2.Some? {
          var k :| FirstFit(lr, k, iw, ih) && found2.value == Rect(lr[k].r.x, lr[k].r.y, iw, ih);
          assert Leaves(n)[|ll| + k] == lr[k];
          forall j | 0 <= j < |ll| + k ensures !Fits(Leaves(n)[j], iw, ih) {
            if j < |ll| {
              assert Leaves(n)[j] == ll[j];
            } else {
              assert Leaves(n)[j] == lr[j - |ll|];
            }
          }
          assert FirstFit(Leaves(n), |ll| + k, iw, ih);
        } else {
          assert Insert(right, iw, ih).1.None?;
          assert forall k :: 0 <= k < |Leaves(right)| ==> !Fits(Leaves(right)[k], iw, ih);
          forall j | 0 <= j < |Leaves(n)| ensures !Fits(Leaves(n)[j], iw, ih) {
            if j < |ll| {
              assert Leaves(n)[j] == ll[j];
            } else {
              assert Leaves(n)[j] == lr[j - |ll|];
            }
          }
        }
      }
  }

  /** Every leaf of a valid tree lies inside the tree's rectangle. */
  lemma {:induction false} LeavesInside(n: Node)
    requires Valid(n)
    ensures forall k :: 0 <= k < |Leaves(n)| ==> Inside(Leaves(n)[k].r, n.r)
  {
    match n
    case Leaf(_, _) =>
    case Split(r, left, right) =>
      LeavesInside(left);
      LeavesInside(right);
      forall k | 0 <= k < |Leaves(n)| ensures Inside(Leaves(n)[k].r, n.r) {
        if k < |Leaves(left)| {
          assert Leaves(n)[k] == Leaves(left)[k];
        } else {
          assert Leaves(n)[k] == Leaves(right)[k - |Leaves(left)|];
        }
      }
  }

  /** The leaves of a valid tree are pairwise disjoint. */
  lemma {:induction false} LeavesDisjoint(n: Node)
    requires Valid(n)
    ensures forall i, j :: 0 <= i < j < |Leaves(n)| ==> Disjoint(Leaves(n)[i].r, Leaves(n)[j].r)
  {
    match n
    case Leaf(_, _) =>
    case Split(r, left, right) =>
      LeavesDisjoint(left);
      LeavesDisjoint(right);
      LeavesInside(left);
      LeavesInside(right);
      var ll := Leaves(left);
      forall i, j | 0 <= i < j < |Leaves(n)| ensures Disjoint(Leaves(n)[i].r, Leaves(n)[j].r) {
        if j < |ll| {
          assert Leaves(n)[i] == ll[i] && Leaves(n)[j] == ll[j];
        } else if i >= |ll| {
          assert Leaves(n)[i] == Leaves(right)[i - |ll|] && Leaves(n)[j] == Leaves(right)[j - |ll|];
        } else {
          assert Leaves(n)[i] == ll[i] && Leaves(n)[j] == Leaves(right)[j - |ll|];
          assert Inside(Leaves(n)[i].r, left.r) && Inside(Leaves(n)[j].r, right.r);
        }
      }
  }

  /** Every used rectangle is the rectangle of a used leaf. */
  lemma {:induction false} UsedAreLeaves(n: Node, u: Rect)
    requires u in UsedSet(n)
    ensures exists k :: 0 <= k < |Leaves(n)| && Leaves(n)[k].used && Leaves(n)[k].r == u
  {
    match n
    case Leaf(_, _) =>
      assert Leaves(n)[0] == n;
    case Split(_, left, right) =>
      if u in UsedSet(left) {
        UsedAreLeaves(left, u);
        var k :| 0 <= k < |Leaves(left)| && Leaves(left)[k].used && Leaves(left)[k].r == u;
        assert Leaves(n)[k] == Leaves(left)[k];
      } else {
        UsedAreLeaves(right, u);
        var k :| 0 <= k < |Leaves(right)| && Leaves(right)[k].used && Leaves(right)[k].r == u;
        assert Leaves(n)[|Leaves(left)| + k] == Leaves(right)[k];
      }
  }

  /**
    * No rectangle is handed out twice: a placement is disjoint from every rectangle
    * already in use, so it is not one of them.
    */
  lemma PlacementIsFresh(n: Node, iw: int, ih: int)
    requires Valid(n) && iw > 0 && ih > 0
    ensures var (_, found) := Insert(n, iw, ih);
      found.Some? ==> found.value !in UsedSet(n) && forall u :: u in UsedSet(n) ==> Disjoint(u, found.value)
  {
    InsertSpec(n, iw, ih);
    var (_, found) := Insert(n, iw, ih);
    if found.Some? {
      assert Inserted(n, iw, ih, Insert(n, iw, ih).0, found);
      var p := found.value;
      var k :| 0 <= k < |Leaves(n)| && !Leaves(n)[k].used && Inside(p, Leaves(n)[k].r);
      LeavesDisjoint(n);
      forall u | u in UsedSet(n) ensures Disjoint(u, p) {
        UsedAreLeaves(n, u);
        var j :| 0 <= j < |Leaves(n)| && Leaves(n)[j].used && Leaves(n)[j].r == u;
        assert j != k;
        if j < k {
          assert Disjoint(Leaves(n)[j].r, Leaves(n)[k].r);
        } else {
          assert Disjoint(Leaves(n)[k].r, Leaves(n)[j].r);
        }
      }
    }
  }

  /** An atlas: the tree and the padding put around every surface. */
  datatype AtlasSurface = AtlasSurface(root: Node, width: int, height: int, padding: int)

  /**
    * `atlas_add`: the surface's own rectangle inside the padded placement, or the
    * all-zero rectangle when nothing fits.
    */
  function AtlasAdd(atlas: AtlasSurface, w: int, h: int): (res: (AtlasSurface, Rect))
    requires Valid(atlas.root) && atlas.padding >= 0 && w + 2 * atlas.padding > 0 && h + 2 * atlas.padding > 0
    ensures var (a', rect) := res;
      var (_, found) := Insert(atlas.root, w + 2 * atlas.padding, h + 2 * atlas.padding);
      (found.None? ==> rect == Rect(0, 0, 0, 0) && a' == atlas) &&
      (found.Some? ==> rect == Rect(found.value.x + atlas.padding, found.value.y + atlas.padding, w, h) &&
                       Inside(rect, found.value) && Valid(a'.root) &&
                       UsedSet(a'.root) == UsedSet(atlas.root) + {found.value})
  {
    var p := atlas.padding;
    var (root', found) := Insert(atlas.root, w + 2 * p, h + 2 * p);
    InsertSpec(atlas.root, w + 2 * p, h + 2 * p);
    match found
    case None => (atlas, Rect(0, 0, 0, 0))
    case Some(node) => (atlas.(root := root'), Rect(node.x + p, node.y + p, w, h))
  }
}
