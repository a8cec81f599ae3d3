/** AK/RedBlackTree.h: the linked tree itself. */
module RedBlackTree {
  import opened Basics
  import opened RedBlackShape

  class BaseRedBlackTree {
    var root: Node?
    var size: nat
    var minimum: Node?
    ghost var shape: Tree
    ghost var repr: set<Node>
    ghost var history: seq<Operation>

    /** The linked structure, seen from one position in it: `t` hangs in the hole of `p`. */
    ghost predicate At(p: Path, t: Tree)
      reads this`root, this`repr, repr
    {
      Distinct(t) && PathDistinct(p) && Nodes(t) !! PathNodes(p)
      && Nodes(t) + PathNodes(p) == repr
      && Linked(t, NodeOf(p)) && PathLinked(p, RootOf(t))
      && root == Anchor(p, RootOf(t))
    }

    lemma Up(p: Path, t: Tree)
      requires At(p, t) && !p.Top?
      ensures At(p.up, Join(p, t))
    {
    }

    lemma DownLeft(p: Path, t: Tree)
      requires At(p, t) && t.Fork?
      ensures At(BelowLeft(t.color, t.node, t.right, p), t.left)
    {
    }

    lemma DownRight(p: Path, t: Tree)
      requires At(p, t) && t.Fork?
      ensures At(BelowRight(t.color, t.node, t.left, p), t.right)
    {
    }

    lemma Over(p: Path, t: Tree)
      requires At(p, t) && !p.Top?
      ensures At(Across(p, t), p.sibling)
    {
    }

    /** What the fields around the position hold. */
    lemma Fields(p: Path, t: Tree)
      requires At(p, t)
      ensures t.Fork? ==> t.node in repr && t.node.color == t.color && t.node.parent == NodeOf(p)
                          && t.node.left == RootOf(t.left) && t.node.right == RootOf(t.right)
      ensures !p.Top? ==> p.node in repr && p.node.color == p.color && p.node.parent == NodeOf(p.up)
                          && (if p.BelowLeft? then p.node.left == RootOf(t) && p.node.right == RootOf(p.sibling)
                              else p.node.right == RootOf(t) && p.node.left == RootOf(p.sibling))
      ensures p.Top? <==> root == RootOf(t)
      ensures t.Fork? && !p.Top? ==> RootOf(p.sibling) != t.node
    {
      if !p.Top? {
        AnchorOnPath(p, RootOf(t));
      }
    }

    method SetColor(n: Node, c: Color, ghost p: Path, ghost t: Tree)
      requires At(p, t) && t.Fork? && t.node == n
      modifies n`color
      ensures At(p, Paint(t, c))
    {
      n.color := c;
    }

    /** Gives a child, if there is one, another parent. */
    static method SetParent(child: Node?, parent: Node?, ghost s: Tree, ghost was: Node?)
      requires Distinct(s) && Linked(s, was) && child == RootOf(s)
      modifies Nodes(s)
      ensures Linked(s, parent)
    {
      if child != null {
        child.parent := parent;
      }
    }

    /** Hang `pivot` where `x` hung: in the root pointer or in a child field of `parent`. */
    method ReplaceChild(parent: Node?, x: Node, pivot: Node?, ghost p: Path)
      requires PathDistinct(p) && PathLinked(p, x) && root == Anchor(p, x)
      requires parent == NodeOf(p) && x !in PathNodes(p)
      modifies this`root, PathNodes(p)
      ensures PathLinked(p, pivot) && root == Anchor(p, pivot)
    {
      if parent == null {
        root := pivot;
      } else if parent.left == x {
        parent.left := pivot;
      } else {
        parent.right := pivot;
      }
    }

    ghost predicate Apart(p: Path, x: Node, y: Node, a: Tree, b: Tree, g: Tree)
      reads this`repr
    {
      Nodes(a) !! Nodes(b) && Nodes(a) !! Nodes(g) && Nodes(b) !! Nodes(g)
      && {x, y} !! Nodes(a) && {x, y} !! Nodes(b) && {x, y} !! Nodes(g) && x != y
      && Nodes(a) !! PathNodes(p) && Nodes(b) !! PathNodes(p) && Nodes(g) !! PathNodes(p) && {x, y} !! PathNodes(p)
      && Nodes(a) <= repr && Nodes(b) <= repr && Nodes(g) <= repr && PathNodes(p) <= repr && x in repr && y in repr
    }

    method RotateLeftLinks(x: Node, ghost y: Node, ghost p: Path, ghost a: Tree, ghost b: Tree, ghost g: Tree)
      requires Apart(p, x, y, a, b, g) && Distinct(b) && PathDistinct(p)
      requires x.left == RootOf(a) && x.right == y && x.parent == NodeOf(p)
      requires y.left == RootOf(b) && y.right == RootOf(g)
      requires Linked(a, x) && Linked(b, y) && Linked(g, y) && PathLinked(p, x) && root == Anchor(p, x)
      modifies this`root, repr
      ensures x.left == RootOf(a) && x.right == RootOf(b) && x.parent == y && x.color == old(x.color)
      ensures y.left == x && y.right == RootOf(g) && y.parent == NodeOf(p) && y.color == old(y.color)
      ensures Linked(a, x) && Linked(b, x) && Linked(g, y) && PathLinked(p, y) && root == Anchor(p, y)
    {
      hide Linked, PathLinked, Nodes, PathNodes, Distinct, PathDistinct, Anchor;
      var pivot := x.right;
      var parent := x.parent;
      x.right := pivot.left;
      SetParent(x.right, x, b, pivot);
      pivot.left := x;
      x.parent := pivot;
      pivot.parent := parent;
      ReplaceChild(parent, x, pivot, p);
    }
    
    method RotateRightLinks(x: Node, ghost y: Node, ghost p: Path, ghost a: Tree, ghost b: Tree, ghost g: Tree)
      requires Apart(p, x, y, a, b, g) && Distinct(b) && PathDistinct(p)
      requires x.left == y && x.right == RootOf(g) && x.parent == NodeOf(p)
      requires y.left == RootOf(a) && y.right == RootOf(b)
      requires Linked(a, y) && Linked(b, y) && Linked(g, x) && PathLinked(p, x) && root == Anchor(p, x)
      modifies this`root, repr
      ensures x.left == RootOf(b) && x.right == RootOf(g) && x.parent == y && x.color == old(x.color)
      ensures y.left == RootOf(a) && y.right == x && y.parent == NodeOf(p) && y.color == old(y.color)
      ensures Linked(a, y) && Linked(b, x) && Linked(g, x) && PathLinked(p, y) && root == Anchor(p, y)
    {
      hide Linked, PathLinked, Nodes, PathNodes, Distinct, PathDistinct, Anchor;
      var pivot := x.left;
      var parent := x.parent;
      x.left := pivot.right;
      SetParent(x.left, x, b, pivot);
      pivot.right := x;
      x.parent := pivot;
      pivot.parent := parent;
      ReplaceChild(parent, x, pivot, p);
    }

    method RotateLeft(x: Node, ghost p: Path, ghost t: Tree)
      requires At(p, t) && t.Fork? && t.node == x && t.right.Fork?
      modifies this`root, repr
      ensures At(p, RotatedLeft(t))
    {
      DownRight(p, t);
      RotateLeftLinks(x, t.right.node, p, t.left, t.right.left, t.right.right);
      assert Linked(RotatedLeft(t).left, t.right.node);
    }

    method RotateRight(x: Node, ghost p: Path, ghost t: Tree)
      requires At(p, t) && t.Fork? && t.node == x && t.left.Fork?
      modifies this`root, repr
      ensures At(p, RotatedRight(t))
    {
      DownLeft(p, t);
      RotateRightLinks(x, t.left.node, p, t.left.left, t.left.right, t.right);
      assert Linked(RotatedRight(t).right, t.left.node);
    }

    // ---------- insertion ----------

    method RecolorFamily(parent: Node, uncle: Node, grandParent: Node, ghost p: Path, ghost t: Tree)
      requires At(p, t) && RedPath(p) && !p.up.Top? && p.up.sibling.Fork?
      requires parent == p.node && uncle == p.up.sibling.node && grandParent == p.up.node
      modifies repr
      ensures At(p.up.up, Recolored(p, t))
    {
      hide RedBlackShape.Linked, PathLinked, Nodes, PathNodes, Distinct, PathDistinct, Anchor, At;
      ghost var q := p.up;
      Fields(p, t);
      Up(p, t);
      Fields(q, Join(p, t));
      SetColor(parent, Black, q, Join(p, t));
      ghost var t1 := Paint(Join(p, t), Black);
      Over(q, t1);
      Fields(Across(q, t1), q.sibling);
      SetColor(uncle, Black, Across(q, t1), q.sibling);
      Up(Across(q, t1), Paint(q.sibling, Black));
      ghost var t2 := Join(WithSibling(q, Paint(q.sibling, Black)), t1);
      SetColor(grandParent, Red, q.up, t2);
    }

    method FixOuterRight(parent: Node, grandParent: Node, ghost p: Path, ghost t: Tree)
      requires At(p, t) && t.Fork? && p.BelowRight? && p.up.BelowRight?
      requires parent == p.node && grandParent == p.up.node
      modifies this`root, repr
      ensures At(BelowRight(Black, parent, Fork(Red, p.up.sibling, grandParent, p.sibling), p.up.up), t)
    {
      hide Linked, PathLinked, Nodes, PathNodes, Distinct, PathDistinct, Anchor, At;
      ghost var q, r := p.up, p.up.up;
      Fields(p, t);
      Up(p, t);
      Fields(q, Join(p, t));
      SetColor(parent, Black, q, Join(p, t));
      ghost var t1 := Paint(Join(p, t), Black);
      Up(q, t1);
      SetColor(grandParent, Red, r, Join(q, t1));
      RotateLeft(grandParent, r, Paint(Join(q, t1), Red));
      DownRight(r, RotatedLeft(Paint(Join(q, t1), Red)));
    }

    method FixOuterLeft(parent: Node, grandParent: Node, ghost p: Path, ghost t: Tree)
      requires At(p, t) && t.Fork? && p.BelowLeft? && p.up.BelowLeft?
      requires parent == p.node && grandParent == p.up.node
      modifies this`root, repr
      ensures At(BelowLeft(Black, parent, Fork(Red, p.sibling, grandParent, p.up.sibling), p.up.up), t)
    {
      hide Linked, PathLinked, Nodes, PathNodes, Distinct, PathDistinct, Anchor, At;
      ghost var q, r := p.up, p.up.up;
      Fields(p, t);
      Up(p, t);
      Fields(q, Join(p, t));
      SetColor(parent, Black, q, Join(p, t));
      ghost var t1 := Paint(Join(p, t), Black);
      Up(q, t1);
      SetColor(grandParent, Red, r, Join(q, t1));
      RotateRight(grandParent, r, Paint(Join(q, t1), Red));
      DownLeft(r, RotatedRight(Paint(Join(q, t1), Red)));
    }

    /** One pass of the fix-up loop when the parent is the grandparent's right child. */
    method FixRight(node: Node, ghost p: Path, ghost t: Tree, ghost h: int)
      returns (next: Node, ghost p': Path, ghost t': Tree, ghost h': int)
      requires At(p, t) && t.Fork? && t.node == node && t.color == Red && RedPath(p)
      requires RedBlack(t, h) && Fits(p, h) && p.up.BelowRight?
      modifies this`root, repr
      ensures At(p', t') && t'.Fork? && t'.node == next && t'.color == Red
      ensures RedBlack(t', h') && Fits(p', h') && Keeps(Plug(p, t), Plug(p', t'))
      ensures RedPath(p') ==> Depth(p') < Depth(p)
    {
      hide Linked, PathLinked, Nodes, PathNodes, Distinct, PathDistinct, Anchor, At, RedBlack, Fits, Plug, InOrder, FirstIsBare;
      Fields(p, t);
      Up(p, t);
      Fields(p.up, Join(p, t));
      Over(p.up, Join(p, t));
      Fields(Across(p.up, Join(p, t)), p.up.sibling);
      var grandParent := node.parent.parent;
      var uncle := grandParent.left;
      if uncle != null && uncle.color == Red {
        RecolorStep(p, t, h);
        RecolorFamily(node.parent, uncle, grandParent, p, t);
        next, p', t', h' := grandParent, p.up.up, Recolored(p, t), h + 1;
      } else {
        next, p', t', h' := node, p, t, h;
        if next.parent.left == next {
          InnerRightStep(p, t, h);
          next := next.parent;
          RotateRight(next, p.up, Join(p, t));
          p', t' := BelowRight(Red, t.node, t.left, p.up), Fork(Red, t.right, p.node, p.sibling);
          DownRight(p.up, RotatedRight(Join(p, t)));
        }
        OuterRightStep(p', t', h');
        Fields(p', t');
        FixOuterRight(next.parent, grandParent, p', t');
        p' := BelowRight(Black, p'.node, Fork(Red, p'.up.sibling, grandParent, p'.sibling), p'.up.up);
      }
    }

    /** One pass of the fix-up loop when the parent is the grandparent's left child. */
    method FixLeft(node: Node, ghost p: Path, ghost t: Tree, ghost h: int)
      returns (next: Node, ghost p': Path, ghost t': Tree, ghost h': int)
      requires At(p, t) && t.Fork? && t.node == node && t.color == Red && RedPath(p)
      requires RedBlack(t, h) && Fits(p, h) && p.up.BelowLeft?
      modifies this`root, repr
      ensures At(p', t') && t'.Fork? && t'.node == next && t'.color == Red
      ensures RedBlack(t', h') && Fits(p', h') && Keeps(Plug(p, t), Plug(p', t'))
      ensures RedPath(p') ==> Depth(p') < Depth(p)
    {
      hide Linked, PathLinked, Nodes, PathNodes, Distinct, PathDistinct, Anchor, At, RedBlack, Fits, Plug, InOrder, FirstIsBare;
      Fields(p, t);
      Up(p, t);
      Fields(p.up, Join(p, t));
      Over(p.up, Join(p, t));
      Fields(Across(p.up, Join(p, t)), p.up.sibling);
      var grandParent := node.parent.parent;
      var uncle := grandParent.right;
      if uncle != null && uncle.color == Red {
        RecolorStep(p, t, h);
        RecolorFamily(node.parent, uncle, grandParent, p, t);
        next, p', t', h' := grandParent, p.up.up, Recolored(p, t), h + 1;
      } else {
        next, p', t', h' := node, p, t, h;
        if next.parent.right == next {
          InnerLeftStep(p, t, h);
          next := next.parent;
          RotateLeft(next, p.up, Join(p, t));
          p', t' := BelowLeft(Red, t.node, t.right, p.up), Fork(Red, p.sibling, p.node, t.left);
          DownLeft(p.up, RotatedLeft(Join(p, t)));
        }
        OuterLeftStep(p', t', h');
        Fields(p', t');
        FixOuterLeft(next.parent, grandParent, p', t');
        p' := BelowLeft(Black, p'.node, Fork(Red, p'.sibling, grandParent, p'.up.sibling), p'.up.up);
      }
    }

    lemma {:induction false} ToTop(p: Path, t: Tree)
      requires At(p, t)
      ensures At(Top, Plug(p, t))
      decreases p
    {
      if !p.Top? {
        Up(p, t);
        ToTop(p.up, Join(p, t));
      }
    }

    method InsertFixups(inserted: Node, ghost p0: Path, ghost t0: Tree, ghost h0: int) returns (ghost t': Tree)
      requires At(p0, t0) && t0.Fork? && t0.node == inserted && t0.color == Red
      requires RedBlack(t0, h0) && Fits(p0, h0)
      modifies this`root, repr
      ensures At(Top, t') && t'.Fork? && t'.color == Black && RedBlack(t', BlackHeight(t'))
      ensures Keeps(Plug(p0, t0), t')
    {
      hide Linked, PathLinked, Nodes, PathNodes, Distinct, PathDistinct, Anchor, At, InOrder, FirstIsBare;
      var node := inserted;
      ghost var p, t, h := p0, t0, h0;
      PlugFork(p, t);
      Fields(p, t);
      while node.parent != null && node.parent.color == Red
        invariant At(p, t) && t.Fork? && t.node == node && t.color == Red
        invariant RedBlack(t, h) && Fits(p, h) && Keeps(Plug(p0, t0), Plug(p, t))
        invariant node.parent == NodeOf(p) && (!p.Top? ==> p.node.color == p.color)
        decreases if RedPath(p) then 1 + Depth(p) else 0
      {
        var grandParent := node.parent.parent;
        Up(p, t);
        Fields(p.up, Join(p, t));
        if grandParent.right == node.parent {
          node, p, t, h := FixRight(node, p, t, h);
        } else {
          node, p, t, h := FixLeft(node, p, t, h);
        }
        Fields(p, t);
      }
      t' := Plug(p, t);
      ToTop(p, t);
      Fields(Top, t');
      PlugFork(p, t);
      if p.Top? {} else { PlugRedBlack(p, t, h); }
      SetColor(root, Black, Top, t');
      PaintBlack(t', HeightAbove(h, p));
      t' := Paint(t', Black);
    }

    // ---------- the class invariant ----------

    ghost predicate Valid()
      reads this, repr
    {
      At(Top, shape) && IsBlack(shape) && RedBlack(shape, BlackHeight(shape))
      && Sorted(InOrder(shape)) && size == |InOrder(shape)| && InOrder(shape) == Play(history)
      && minimum == if shape.Fork? then InOrder(shape)[0] else LastMoved(history)
    }

    /** Where a node of the tree sits. */
    lemma {:induction false} Locate(p: Path, t: Tree, n: Node) returns (p': Path, t': Tree)
      requires At(p, t) && n in Nodes(t)
      ensures At(p', t') && t'.Fork? && t'.node == n && Plug(p', t') == Plug(p, t)
      decreases t
    {
      if n == t.node {
        p', t' := p, t;
      } else if n in Nodes(t.left) {
        DownLeft(p, t);
        p', t' := Locate(BelowLeft(t.color, t.node, t.right, p), t.left, n);
      } else {
        DownRight(p, t);
        p', t' := Locate(BelowRight(t.color, t.node, t.left, p), t.right, n);
      }
    }

    // ---------- walking ----------

    method SuccessorAt(start: Node, ghost p0: Path, ghost t0: Tree) returns (r: Node?)
      requires At(p0, t0) && t0.Fork? && t0.node == start
      ensures r == FirstOf(InOrder(t0.right) + After(p0))
    {
      hide Linked, PathLinked, Nodes, PathNodes, Distinct, PathDistinct, Anchor, At;
      var node := start;
      ghost var p, t := p0, t0;
      Fields(p, t);
      if node.right != null {
        DownRight(p, t);
        node, p, t := node.right, BelowRight(t.color, t.node, t.left, p), t.right;
        Fields(p, t);
        while node.left != null
          invariant At(p, t) && t.Fork? && t.node == node && node.left == RootOf(t.left)
          invariant FirstOf(InOrder(t)) == FirstOf(InOrder(t0.right))
          decreases t
        {
          DownLeft(p, t);
          node, p, t := node.left, BelowLeft(t.color, t.node, t.right, p), t.left;
          Fields(p, t);
        }
        return node;
      } else {
        var temp := node.parent;
        while temp != null && node == temp.right
          invariant At(p, t) && t.Fork? && t.node == node && temp == NodeOf(p)
          invariant FirstOf(After(p)) == FirstOf(After(p0))
          invariant !p.Top? ==> (p.BelowRight? <==> temp.right == node)
          invariant !p.Top? ==> temp.parent == NodeOf(p.up)
          decreases p
        {
          Up(p, t);
          node, temp, p, t := temp, temp.parent, p.up, Join(p, t);
          Fields(p, t);
        }
        return temp;
      }
    }

    method Successor(node: Node) returns (r: Node?)
      requires Valid() && node in repr
      ensures forall i :: 0 <= i < |InOrder(shape)| && InOrder(shape)[i] == node ==> r == FirstOf(InOrder(shape)[i + 1..])
    {
      ghost var p, t := Locate(Top, shape, node);
      r := SuccessorAt(node, p, t);
      forall i | 0 <= i < |InOrder(shape)| && InOrder(shape)[i] == node
        ensures r == FirstOf(InOrder(shape)[i + 1..])
      {
        NeighboursAt(p, t, i);
      }
    }

    method PredecessorAt(start: Node, ghost p0: Path, ghost t0: Tree) returns (r: Node?)
      requires At(p0, t0) && t0.Fork? && t0.node == start
      ensures r == LastOf(Before(p0) + InOrder(t0.left))
    {
      hide Linked, PathLinked, Nodes, PathNodes, Distinct, PathDistinct, Anchor, At;
      var node := start;
      ghost var p, t := p0, t0;
      Fields(p, t);
      if node.left != null {
        DownLeft(p, t);
        node, p, t := node.left, BelowLeft(t.color, t.node, t.right, p), t.left;
        Fields(p, t);
        while node.right != null
          invariant At(p, t) && t.Fork? && t.node == node && node.right == RootOf(t.right)
          invariant LastOf(InOrder(t)) == LastOf(InOrder(t0.left))
          decreases t
        {
          DownRight(p, t);
          node, p, t := node.right, BelowRight(t.color, t.node, t.left, p), t.right;
          Fields(p, t);
        }
        return node;
      } else {
        var temp := node.parent;
        while temp != null && node == temp.left
          invariant At(p, t) && t.Fork? && t.node == node && temp == NodeOf(p)
          invariant LastOf(Before(p)) == LastOf(Before(p0))
          invariant !p.Top? ==> (p.BelowLeft? <==> temp.left == node)
          invariant !p.Top? ==> temp.parent == NodeOf(p.up)
          decreases p
        {
          Up(p, t);
          node, temp, p, t := temp, temp.parent, p.up, Join(p, t);
          Fields(p, t);
        }
        return temp;
      }
    }

    method Predecessor(node: Node) returns (r: Node?)
      requires Valid() && node in repr
      ensures forall i :: 0 <= i < |InOrder(shape)| && InOrder(shape)[i] == node ==> r == LastOf(InOrder(shape)[..i])
    {
      ghost var p, t := Locate(Top, shape, node);
      r := PredecessorAt(node, p, t);
      forall i | 0 <= i < |InOrder(shape)| && InOrder(shape)[i] == node
        ensures r == LastOf(InOrder(shape)[..i])
      {
        NeighboursAt(p, t, i);
      }
    }

    // ---------- searching ----------

    method Find(key: int) returns (node: Node?)
      requires Valid()
      ensures node != null ==> node in InOrder(shape) && node.key == key
      ensures node == null ==> forall n :: n in InOrder(shape) ==> n.key != key
    {
      hide Linked, PathLinked, Nodes, PathNodes, Distinct, PathDistinct, Anchor, At, RedBlack;
      node := root;
      ghost var p, t := Path.Top, shape;
      Fields(p, t);
      while node != null && node.key != key
        invariant At(p, t) && node == RootOf(t) && Plug(p, t) == shape
        invariant AllAbove(After(p), key) && AllNotAbove(Before(p), key - 1)
        decreases t
      {
        Fields(p, t);
        if key < node.key {
          SortedAround(p, t, key);
          DownLeft(p, t);
          node, p, t := node.left, BelowLeft(t.color, t.node, t.right, p), t.left;
        } else {
          SortedAround(p, t, key - 1);
          DownRight(p, t);
          node, p, t := node.right, BelowRight(t.color, t.node, t.left, p), t.right;
        }
      }
      PlugInOrder(p, t);
    }

    method FindLargestNotAbove(key: int) returns (r: Node?)
      requires Valid()
      ensures r == null ==> AllAbove(InOrder(shape), key)
      ensures r != null ==> r in InOrder(shape) && r.key <= key
                            && forall n :: n in InOrder(shape) && n.key <= key ==> n.key <= r.key
    {
      hide Linked, PathLinked, Nodes, PathNodes, Distinct, PathDistinct, Anchor, At, RedBlack;
      var candidate: Node? := null;
      var node := root;
      ghost var p, t := Path.Top, shape;
      Fields(p, t);
      while node != null
        invariant At(p, t) && node == RootOf(t) && Plug(p, t) == shape
        invariant AllAbove(After(p), key) && candidate == LastOf(Before(p))
        invariant candidate != null ==> candidate.key <= key
        decreases t
      {
        Fields(p, t);
        if key == node.key {
          PlugInOrder(p, t);
          return node;
        } else if key < node.key {
          SortedAround(p, t, key);
          DownLeft(p, t);
          node, p, t := node.left, BelowLeft(t.color, t.node, t.right, p), t.left;
        } else {
          candidate := node;
          DownRight(p, t);
          node, p, t := node.right, BelowRight(t.color, t.node, t.left, p), t.right;
        }
      }
      PlugInOrder(p, t);
      assert InOrder(shape) == Before(p) + After(p);
      if candidate != null {
        LastIsLargest(Before(p), After(p), key);
      }
      return candidate;
    }

    // ---------- insertion ----------

    /** The empty place where a node with this key belongs. */
    method PlaceFor(key: int) returns (parent: Node?, ghost p: Path)
      requires Valid()
      ensures At(p, Leaf) && parent == NodeOf(p) && Plug(p, Leaf) == shape
      ensures AllNotAbove(Before(p), key) && AllAbove(After(p), key)
      ensures Fits(p, 0)
    {
      hide Linked, PathLinked, Nodes, PathNodes, Distinct, PathDistinct, Anchor, At;
      hide Leads, Fits, RedBlack, InOrder, Sorted, AllAbove, AllNotAbove, Before, After;
      parent := null;
      var temp := root;
      p := Top;
      ghost var t, h := shape, BlackHeight(shape);
      Fields(p, t);
      LeadsFromTop(t, key);
      while temp != null
        invariant At(p, t) && temp == RootOf(t) && Plug(p, t) == shape && parent == NodeOf(p)
        invariant Leads(p, t, key, h)
        decreases t
      {
        Fields(p, t);
        parent := temp;
        if key < temp.key {
          LeadsLeft(p, t, key, h);
          DownLeft(p, t);
          h := if t.color == Black then h - 1 else h;
          temp, p, t := temp.left, BelowLeft(t.color, t.node, t.right, p), t.left;
        } else {
          LeadsRight(p, t, key, h);
          DownRight(p, t);
          h := if t.color == Black then h - 1 else h;
          temp, p, t := temp.right, BelowRight(t.color, t.node, t.left, p), t.right;
        }
      }
      LeadsHere(p, key, h);
    }

    method Attach(node: Node, parent: Node, ghost p: Path)
      requires At(p, Leaf) && !p.Top? && parent == p.node
      requires AllNotAbove(Before(p), node.key) && AllAbove(After(p), node.key)
      requires node !in repr && node.left == null && node.right == null && node.color == Red
      modifies this`repr, repr, node
      ensures repr == old(repr) + {node} && At(p, NewNode(node))
    {
      hide Before, After, AllNotAbove, AllAbove;
      SideOf(p, node.key);
      assert PathLinked(p.up, p.node) && Linked(p.sibling, p.node);
      if node.key < parent.key {
        parent.left := node;
      } else {
        parent.right := node;
      }
      node.parent := parent;
      repr := repr + {node};
      assert PathLinked(p, node) && Linked(NewNode(node), parent);
      assert Nodes(NewNode(node)) == {node} && Nodes(NewNode(node)) !! PathNodes(p);
    }

    method LinkNew(node: Node, parent: Node, ghost p: Path) returns (ghost t': Tree)
      requires At(p, Leaf) && !p.Top? && parent == p.node && Fits(p, 0)
      requires AllNotAbove(Before(p), node.key) && AllAbove(After(p), node.key)
      requires node !in repr && node.left == null && node.right == null && node.color == Red
      modifies this`root, this`repr, repr, node
      ensures repr == old(repr) + {node} && At(Top, t')
      ensures t'.Fork? && t'.color == Black && RedBlack(t', BlackHeight(t'))
      ensures InOrder(t') == Before(p) + [node] + After(p)
      ensures Before(p) == [] ==> FirstIsBare(t')
    {
      hide Linked, PathLinked, Nodes, PathNodes, Distinct, PathDistinct, Anchor, At, AllNotAbove, AllAbove;
      hide InOrder, Before, After, FirstIsBare, Plug, RedBlack;
      ghost var t := NewNode(node);
      Fields(p, Leaf);
      Attach(node, parent, p);
      Fields(p, t);
      NewNodeAt(p, node);
      if node.parent.parent != null {
        t' := InsertFixups(node, p, t, 0);
      } else {
        t' := Plug(p, t);
        ToTop(p, t);
        PlugRedBlack(p, t, 0);
        BlackHeightIs(t', HeightAbove(0, p));
      }
    }

    /** A new node is the first in order exactly when it hangs left of the old minimum. */
    lemma {:induction false} SecondHoldsFirst(p: Path, t: Tree)
      requires At(p, t) && t.Fork?
      ensures InOrder(t)[0].left == null
      ensures FirstIsBare(t) && |InOrder(t)| >= 2 ==> InOrder(t)[1].left == InOrder(t)[0]
      decreases t
    {
      Fields(p, t);
      if t.left.Fork? {
        DownLeft(p, t);
        SecondHoldsFirst(BelowLeft(t.color, t.node, t.right, p), t.left);
      }
    }

    method Insert(node: Node)
      requires Valid()
      requires node !in repr && node.left == null && node.right == null && node.parent == null && node.color == Red
      modifies this, repr, node
      ensures Valid() && repr == old(repr) + {node} && history == old(history) + [Put(node)]
      ensures InOrder(shape) == Inserted(old(InOrder(shape)), node)
    {
      hide Linked, PathLinked, Nodes, PathNodes, Distinct, PathDistinct, Anchor, At, AllNotAbove, AllAbove;
      hide Fits, RedBlack, Sorted, Inserted, InOrder, Before, After, FirstIsBare;
      var parent; ghost var p, t';
      parent, p := PlaceFor(node.key);
      OrderAround(p);
      OrderOfFork(shape);
      InsertedSplits(Before(p), After(p), node);
      SplitSorted(Before(p), After(p), node);
      history := history + [Put(node)];
      if parent == null {
        InsertFirst(node);
        return;
      }
      t' := LinkNew(node, parent, p);
      size := size + 1;
      AdjustMinimum(node, t', Before(p), After(p));
      shape := t';
    }

    /** A new node left of the minimum is the new minimum. */
    method AdjustMinimum(node: Node, ghost t: Tree, ghost before: seq<Node>, ghost after: seq<Node>)
      requires At(Top, t) && t.Fork? && InOrder(t) == before + [node] + after && (before == [] ==> FirstIsBare(t))
      requires before + after != [] && minimum == (before + after)[0]
      modifies this`minimum
      ensures minimum == InOrder(t)[0]
    {
      hide Linked, PathLinked, Nodes, PathNodes, Distinct, PathDistinct, Anchor, At, InOrder, FirstIsBare;
      SecondHoldsFirst(Top, t);
      if minimum.left == node {
        minimum := node;
      }
    }

    method InsertFirst(node: Node)
      requires At(Top, Leaf) && node !in repr && node.left == null && node.right == null && node.parent == null
      requires Play(history) == [node]
      modifies this, node
      ensures Valid() && repr == old(repr) + {node} && history == old(history)
      ensures InOrder(shape) == [node]
    {
      node.color := Black;
      root := node;
      size := 1;
      minimum := node;
      repr := repr + {node};
      shape := Fork(Black, Leaf, node, Leaf);
    }

    // ---------- removal: the node is a left child ----------

    /** A red sibling: rotate it above the parent, which turns red. */
    method DemoteParentLeft(parent: Node, sibling: Node, ghost p: Path, ghost t: Tree)
      requires At(p, t) && p.BelowLeft? && p.sibling.Fork? && parent == p.node && sibling == p.sibling.node
      modifies this`root, repr
      ensures At(BelowLeft(Red, parent, p.sibling.left, BelowLeft(Black, sibling, p.sibling.right, p.up)), t)
    {
      hide Linked, PathLinked, Nodes, PathNodes, Distinct, PathDistinct, Anchor, At;
      Over(p, t);
      Fields(Across(p, t), p.sibling);
      SetColor(sibling, Black, Across(p, t), p.sibling);
      ghost var s := Paint(p.sibling, Black);
      Up(Across(p, t), s);
      ghost var j := Join(Across(p, t), s);
      Fields(p.up, j);
      SetColor(parent, Red, p.up, j);
      RotateLeft(parent, p.up, Paint(j, Red));
      ghost var r := RotatedLeft(Paint(j, Red));
      DownLeft(p.up, r);
      DownLeft(BelowLeft(Black, sibling, p.sibling.right, p.up), r.left);
    }

    /** A red inner nephew: rotate it above the sibling. */
    method TurnSiblingLeft(sibling: Node, ghost p: Path, ghost t: Tree)
      requires At(p, t) && p.BelowLeft? && p.sibling.Fork? && p.sibling.left.Fork? && sibling == p.sibling.node
      modifies this`root, repr
      ensures At(WithSibling(p, TurnedRight(p.sibling)), t)
    {
      hide Linked, PathLinked, Nodes, PathNodes, Distinct, PathDistinct, Anchor, At;
      ghost var q, s := Across(p, t), p.sibling;
      Over(p, t);
      Fields(q, s);
      DownLeft(q, s);
      ghost var n := BelowLeft(s.color, s.node, s.right, q);
      Fields(n, s.left);
      SetColor(sibling.left, Black, n, s.left);
      Up(n, Paint(s.left, Black));
      ghost var s1 := Fork(s.color, Paint(s.left, Black), s.node, s.right);
      SetColor(sibling, Red, q, s1);
      RotateRight(sibling, q, Paint(s1, Red));
      Over(q, TurnedRight(s));
    }

    /** A red outer nephew: rotate the sibling into the parent's place and colour. */
    method RepayLeft(parent: Node, sibling: Node, ghost p: Path, ghost t: Tree)
      requires At(p, t) && p.BelowLeft? && p.sibling.Fork? && p.sibling.right.Fork?
      requires parent == p.node && sibling == p.sibling.node
      modifies this`root, repr
      ensures At(p.up, Repaid(p, t))
    {
      hide Linked, PathLinked, Nodes, PathNodes, Distinct, PathDistinct, Anchor, At;
      ghost var s := p.sibling;
      Fields(p, t);
      Over(p, t);
      Fields(Across(p, t), s);
      SetColor(sibling, parent.color, Across(p, t), s);
      ghost var s1 := Paint(s, p.color);
      Up(Across(p, t), s1);
      ghost var j := Join(Across(p, t), s1);
      SetColor(parent, Black, p.up, j);
      ghost var j1 := Paint(j, Black);
      DownRight(p.up, j1);
      ghost var q := BelowRight(Black, parent, t, p.up);
      Fields(q, s1);
      DownRight(q, s1);
      ghost var o := BelowRight(p.color, sibling, s.left, q);
      Fields(o, s.right);
      SetColor(sibling.right, Black, o, s.right);
      Up(o, Paint(s.right, Black));
      Up(q, s1.(right := Paint(s.right, Black)));
      ghost var j2 := Fork(Black, t, parent, s1.(right := Paint(s.right, Black)));
      RotateLeft(parent, p.up, j2);
      assert RotatedLeft(j2) == Repaid(p, t);
    }

    /** One pass of the removal fix-up loop when the node is a left child. */
    method UnshortLeft(parent: Node, ghost p: Path, ghost t: Tree, ghost k: int)
      returns (next: Node, ghost p': Path, ghost t': Tree, ghost k': int)
      requires At(p, t) && p.BelowLeft? && parent == p.node && IsBlack(t) && Fits(p, k) && Short(t, k)
      modifies this`root, repr
      ensures At(p', t') && t'.Fork? && t'.node == next && Fits(p', k') && Short(t', k')
      ensures InOrder(Plug(p', t')) == InOrder(Plug(p, t))
      ensures !p'.Top? && IsBlack(t') ==> Depth(p') < Depth(p)
    {
      hide Linked, PathLinked, Nodes, PathNodes, Distinct, PathDistinct, Anchor, At, Fits, RedBlack, Short, Plug, InOrder, Repaid, TurnedRight;
      ShortHasSibling(p, t, k);
      Fields(p, t);
      Over(p, t);
      Fields(Across(p, t), p.sibling);
      p', t', k' := p, t, k;
      var sibling := parent.right;
      if sibling.color == Red {
        RedSiblingLeftStep(p, t, k);
        DemoteParentLeft(parent, sibling, p, t);
        p' := BelowLeft(Red, parent, p.sibling.left, BelowLeft(Black, sibling, p.sibling.right, p.up));
        Fields(p', t);
        Over(p', t);
        Fields(Across(p', t), p'.sibling);
        sibling := parent.right;
      }
      ghost var p1 := p';
      ShortHasSibling(p1, t, k);
      Nephews(p1, t);
      if (sibling.left == null || sibling.left.color == Black) && (sibling.right == null || sibling.right.color == Black) {
        PassUpStep(p1, t, k);
        SetColor(sibling, Red, Across(p1, t), p1.sibling);
        Up(Across(p1, t), Paint(p1.sibling, Red));
        next, p', t', k' := parent, p1.up, Join(WithSibling(p1, Paint(p1.sibling, Red)), t), if p1.color == Black then k + 1 else k;
      } else {
        if sibling.right == null || sibling.right.color == Black {
          TurnStep(p1, t, TurnedRight(p1.sibling), k);
          TurnSiblingLeft(sibling, p1, t);
          p' := WithSibling(p1, TurnedRight(p1.sibling));
          Fields(p', t);
          Over(p', t);
          Fields(Across(p', t), p'.sibling);
          sibling := parent.right;
        }
        RepayStep(p', t, k);
        RepayLeft(parent, sibling, p', t);
        ToTop(p'.up, Repaid(p', t));
        t' := Plug(p'.up, Repaid(p', t));
        Fields(Top, t');
        next, p', k' := root, Top, BlackHeight(t') + 1;
        TopShort(t');
      }
    }

    // ---------- removal: the node is a right child ----------

    /** A red sibling: rotate it above the parent, which turns red. */
    method DemoteParentRight(parent: Node, sibling: Node, ghost p: Path, ghost t: Tree)
      requires At(p, t) && p.BelowRight? && p.sibling.Fork? && parent == p.node && sibling == p.sibling.node
      modifies this`root, repr
      ensures At(BelowRight(Red, parent, p.sibling.right, BelowRight(Black, sibling, p.sibling.left, p.up)), t)
    {
      hide Linked, PathLinked, Nodes, PathNodes, Distinct, PathDistinct, Anchor, At;
      Over(p, t);
      Fields(Across(p, t), p.sibling);
      SetColor(sibling, Black, Across(p, t), p.sibling);
      ghost var s := Paint(p.sibling, Black);
      Up(Across(p, t), s);
      ghost var j := Join(Across(p, t), s);
      Fields(p.up, j);
      SetColor(parent, Red, p.up, j);
      RotateRight(parent, p.up, Paint(j, Red));
      ghost var r := RotatedRight(Paint(j, Red));
      DownRight(p.up, r);
      DownRight(BelowRight(Black, sibling, p.sibling.left, p.up), r.right);
    }

    /** A red inner nephew: rotate it above the sibling. */
    method TurnSiblingRight(sibling: Node, ghost p: Path, ghost t: Tree)
      requires At(p, t) && p.BelowRight? && p.sibling.Fork? && p.sibling.right.Fork? && sibling == p.sibling.node
      modifies this`root, repr
      ensures At(WithSibling(p, TurnedLeft(p.sibling)), t)
    {
      hide Linked, PathLinked, Nodes, PathNodes, Distinct, PathDistinct, Anchor, At;
      ghost var q, s := Across(p, t), p.sibling;
      Over(p, t);
      Fields(q, s);
      DownRight(q, s);
      ghost var n := BelowRight(s.color, s.node, s.left, q);
      Fields(n, s.right);
      SetColor(sibling.right, Black, n, s.right);
      Up(n, Paint(s.right, Black));
      ghost var s1 := Fork(s.color, s.left, s.node, Paint(s.right, Black));
      SetColor(sibling, Red, q, s1);
      RotateLeft(sibling, q, Paint(s1, Red));
      Over(q, TurnedLeft(s));
    }

    /** A red outer nephew: rotate the sibling into the parent's place and colour. */
    method RepayRight(parent: Node, sibling: Node, ghost p: Path, ghost t: Tree)
      requires At(p, t) && p.BelowRight? && p.sibling.Fork? && p.sibling.left.Fork?
      requires parent == p.node && sibling == p.sibling.node
      modifies this`root, repr
      ensures At(p.up, Repaid(p, t))
    {
      hide Linked, PathLinked, Nodes, PathNodes, Distinct, PathDistinct, Anchor, At;
      ghost var s := p.sibling;
      Fields(p, t);
      Over(p, t);
      Fields(Across(p, t), s);
      SetColor(sibling, parent.color, Across(p, t), s);
      ghost var s1 := Paint(s, p.color);
      Up(Across(p, t), s1);
      ghost var j := Join(Across(p, t), s1);
      SetColor(parent, Black, p.up, j);
      ghost var j1 := Paint(j, Black);
      DownLeft(p.up, j1);
      ghost var q := BelowLeft(Black, parent, t, p.up);
      Fields(q, s1);
      DownLeft(q, s1);
      ghost var o := BelowLeft(p.color, sibling, s.right, q);
      Fields(o, s.left);
      SetColor(sibling.left, Black, o, s.left);
      Up(o, Paint(s.left, Black));
      Up(q, s1.(left := Paint(s.left, Black)));
      ghost var j2 := Fork(Black, s1.(left := Paint(s.left, Black)), parent, t);
      RotateRight(parent, p.up, j2);
      assert RotatedRight(j2) == Repaid(p, t);
    }

    /** One pass of the removal fix-up loop when the node is a right child. */
    method UnshortRight(parent: Node, ghost p: Path, ghost t: Tree, ghost k: int)
      returns (next: Node, ghost p': Path, ghost t': Tree, ghost k': int)
      requires At(p, t) && p.BelowRight? && parent == p.node && IsBlack(t) && Fits(p, k) && Short(t, k)
      modifies this`root, repr
      ensures At(p', t') && t'.Fork? && t'.node == next && Fits(p', k') && Short(t', k')
      ensures InOrder(Plug(p', t')) == InOrder(Plug(p, t))
      ensures !p'.Top? && IsBlack(t') ==> Depth(p') < Depth(p)
    {
      hide Linked, PathLinked, Nodes, PathNodes, Distinct, PathDistinct, Anchor, At, Fits, RedBlack, Short, Plug, InOrder, Repaid, TurnedLeft;
      ShortHasSibling(p, t, k);
      Fields(p, t);
      Over(p, t);
      Fields(Across(p, t), p.sibling);
      p', t', k' := p, t, k;
      var sibling := parent.left;
      if sibling.color == Red {
        RedSiblingRightStep(p, t, k);
        DemoteParentRight(parent, sibling, p, t);
        p' := BelowRight(Red, parent, p.sibling.right, BelowRight(Black, sibling, p.sibling.left, p.up));
        Fields(p', t);
        Over(p', t);
        Fields(Across(p', t), p'.sibling);
        sibling := parent.left;
      }
      ghost var p1 := p';
      ShortHasSibling(p1, t, k);
      Nephews(p1, t);
      if (sibling.right == null || sibling.right.color == Black) && (sibling.left == null || sibling.left.color == Black) {
        PassUpStep(p1, t, k);
        SetColor(sibling, Red, Across(p1, t), p1.sibling);
        Up(Across(p1, t), Paint(p1.sibling, Red));
        next, p', t', k' := parent, p1.up, Join(WithSibling(p1, Paint(p1.sibling, Red)), t), if p1.color == Black then k + 1 else k;
      } else {
        if sibling.left == null || sibling.left.color == Black {
          TurnStep(p1, t, TurnedLeft(p1.sibling), k);
          TurnSiblingRight(sibling, p1, t);
          p' := WithSibling(p1, TurnedLeft(p1.sibling));
          Fields(p', t);
          Over(p', t);
          Fields(Across(p', t), p'.sibling);
          sibling := parent.left;
        }
        RepayStep(p', t, k);
        RepayRight(parent, sibling, p', t);
        ToTop(p'.up, Repaid(p', t));
        t' := Plug(p'.up, Repaid(p', t));
        Fields(Top, t');
        next, p', k' := root, Top, BlackHeight(t') + 1;
        TopShort(t');
      }
    }

    lemma Nephews(p: Path, t: Tree)
      requires At(p, t) && !p.Top? && p.sibling.Fork?
      ensures var s := p.sibling;
              s.node.left == RootOf(s.left) && s.node.right == RootOf(s.right) && s.node.color == s.color
              && (s.left.Fork? ==> s.left.node.color == s.left.color)
              && (s.right.Fork? ==> s.right.node.color == s.right.color)
    {
      Over(p, t);
      DownLeft(Across(p, t), p.sibling);
      DownRight(Across(p, t), p.sibling);
    }

    method RemoveFixups(start: Node?, above: Node?, ghost p0: Path, ghost t0: Tree, ghost k0: int) returns (ghost t': Tree)
      requires At(p0, t0) && start == RootOf(t0) && above == NodeOf(p0)
      requires Fits(p0, k0) && Short(t0, k0) && (p0.Top? ==> t0.Fork?)
      modifies this`root, repr
      ensures At(Top, t') && t'.Fork? && t'.color == Black && RedBlack(t', BlackHeight(t'))
      ensures InOrder(t') == InOrder(Plug(p0, t0))
    {
      hide Linked, PathLinked, Nodes, PathNodes, Distinct, PathDistinct, Anchor, At, RedBlack, Fits, Short, InOrder, Plug;
      var node, parent := start, above;
      ghost var p, t, k := p0, t0, k0;
      Fields(p, t);
      while node != root && (node == null || node.color == Black)
        invariant At(p, t) && node == RootOf(t) && parent == NodeOf(p)
        invariant p.Top? <==> node == root
        invariant t.Fork? ==> node.color == t.color
        invariant Fits(p, k) && Short(t, k) && (p.Top? ==> t.Fork?)
        invariant InOrder(Plug(p, t)) == InOrder(Plug(p0, t0))
        decreases if !p.Top? && IsBlack(t) then 1 + Depth(p) else 0
      {
        ShortHasSibling(p, t, k);
        Fields(p, t);
        if parent.left == node {
          node, p, t, k := UnshortLeft(parent, p, t, k);
        } else {
          node, p, t, k := UnshortRight(parent, p, t, k);
        }
        Fields(p, t);
        parent := node.parent;
      }
      SettledShort(p, t, k);
      Fields(p, t);
      SetColor(node, Black, p, t);
      ToTop(p, Paint(t, Black));
      t' := Plug(p, Paint(t, Black));
    }

    // ---------- removal: trading places with the successor ----------

    /** Parent links and child links agree everywhere in the tree. */
    lemma {:induction false} LinksAgree(t: Tree, parent: Node?)
      requires Distinct(t) && Linked(t, parent)
      ensures forall n :: n in Nodes(t) ==>
                (n.left != null ==> n.left in Nodes(t) && n.left.parent == n)
                && (n.right != null ==> n.right in Nodes(t) && n.right.parent == n)
                && (n.left != null ==> n.left != n.right)
                && (if n == t.node then n.parent == parent
                    else n.parent != null && n.parent in Nodes(t) && (n.parent.left == n || n.parent.right == n))
    {
      if t.Fork? {
        LinksAgree(t.left, t.node);
        LinksAgree(t.right, t.node);
        assert t.left.Fork? ==> t.left.node in Nodes(t.left);
        assert t.right.Fork? ==> t.right.node in Nodes(t.right);
      }
    }

    /** Every node of `u` but `s` holds what it held `before`, except that `x` stands
        for `s` and the root of `u` hangs below `now`. */
    static ghost predicate SameExcept(before: map<Node, Fields>, u: Tree, s: Node, x: Node, now: Node?)
      reads Nodes(u)
    {
      forall n :: n in Nodes(u) && n != s ==>
        n in before
        && n.color == before[n].color && n.right == before[n].right
        && n.left == (if before[n].left == s then x else before[n].left)
        && n.parent == (if n == RootOf(u) then now else if before[n].parent == s then x else before[n].parent)
    }

    static lemma {:induction false} UndisturbedBelow(before: map<Node, Fields>, u: Tree, s: Node, x: Node, was: Node?, now: Node?)
      requires Distinct(u) && Spelled(before, u, was) && s !in Nodes(u)
      requires SameExcept(before, u, s, x, now)
      ensures Linked(u, now)
    {
      if u.Fork? {
        UndisturbedBelow(before, u.left, s, x, u.node, u.node);
        UndisturbedBelow(before, u.right, s, x, u.node, u.node);
      }
    }

    static lemma {:induction false} FirstExchanged(before: map<Node, Fields>, r: Tree, s: Node, x: Node, was: Node?, now: Node?)
      requires r.Fork? && Distinct(r) && Spelled(before, r, was) && FirstNode(r) == s && s in before
      requires SameExcept(before, r, s, x, now)
      requires x.left == null && x.right == before[s].right && x.color == before[s].color
      requires x.parent == if r.node == s then now else before[s].parent
      ensures Linked(WithFirst(r, x), now)
    {
      if r.left.Leaf? {
        UndisturbedBelow(before, r.right, s, x, s, x);
      } else {
        FirstNodeIn(r.left);
        if r.left.left.Fork? {
          FirstNodeIn(r.left.left);
        }
        FirstExchanged(before, r.left, s, x, r.node, r.node);
        UndisturbedBelow(before, r.right, s, x, r.node, r.node);
      }
    }

    /** The two nodes exchange places when the successor is the node's own child... */
    static method ExchangeAdjacent(node: Node, s: Node)
      requires node != s && s.right != node && s.right != s
      modifies node, s, s.right
      ensures s.parent == old(node.parent) && s.left == old(node.left) && s.right == node && s.color == old(node.color)
      ensures node.parent == s && node.left == old(s.left) && node.right == old(s.right) && node.color == old(s.color)
      ensures var t := node.right; t != null ==>
                t.parent == node && t.left == old(s.right.left) && t.right == old(s.right.right) && t.color == old(s.right.color)
    {
      if s.right != null {
        s.right.parent := node;
      }
      s.parent := node.parent;
      node.parent := s;
      node.left, s.left := s.left, node.left;
      node.right := s.right;
      s.right := node;
      node.color, s.color := s.color, node.color;
    }

    /** ... and when it is further down. */
    static method ExchangeDistant(node: Node, s: Node)
      requires node != s && s.right != node && s.right != s
      requires s.parent != null && s.parent != node && s.parent != s && s.parent != s.right && s.parent.left == s
      modifies node, s, s.right, s.parent
      ensures s.parent == old(node.parent) && s.left == old(node.left) && s.right == old(node.right) && s.color == old(node.color)
      ensures node.parent == old(s.parent) && node.left == old(s.left) && node.right == old(s.right) && node.color == old(s.color)
      ensures var t := node.right; t != null ==>
                t.parent == node && t.left == old(s.right.left) && t.right == old(s.right.right) && t.color == old(s.right.color)
      ensures var p := node.parent;
              p.left == node && p.right == old(s.parent.right) && p.parent == old(s.parent.parent) && p.color == old(s.parent.color)
    {
      if s.right != null {
        s.right.parent := node;
      }
      s.parent.left := node;
      node.parent, s.parent := s.parent, node.parent;
      node.left, s.left := s.left, node.left;
      node.right, s.right := s.right, node.right;
      node.color, s.color := s.color, node.color;
    }

    /** What surrounds the node is hung on the successor `s`. */
    method HangAround(node: Node, s: Node, neighbours: bool, ghost c: Path, ghost l: Tree, ghost r: Tree)
      requires Surrounded(node, c, l, r) && (neighbours <==> s == r.node)
      modifies this`root, Nodes(l), PathNodes(c), r.node
      ensures Linked(l, s) && PathLinked(c, s) && root == Anchor(c, s)
      ensures r.node.parent == if neighbours then node else s
      ensures r.node.left == old(r.node.left) && r.node.right == old(r.node.right) && r.node.color == old(r.node.color)
    {
      hide Linked, PathLinked, Nodes, PathNodes, Distinct, PathDistinct, Anchor;
      SetParent(node.left, s, l, node);
      if !neighbours {
        node.right.parent := s;
      }
      ReplaceChild(node.parent, node, s, c);
    }

    ghost predicate Surrounded(node: Node, c: Path, l: Tree, r: Tree)
      reads this`root, this`repr, repr
    {
      l.Fork? && r.Fork? && r.node in Nodes(r) && node in repr
      && node !in Nodes(l) && node !in Nodes(r) && node !in PathNodes(c)
      && Nodes(l) !! Nodes(r) && Nodes(l) !! PathNodes(c) && Nodes(r) !! PathNodes(c)
      && Nodes(l) <= repr && Nodes(r) <= repr && PathNodes(c) <= repr
      && Linked(l, node) && Distinct(l)
      && PathLinked(c, node) && PathDistinct(c) && root == Anchor(c, node)
      && node.left == l.node && node.right == r.node && node.parent == NodeOf(c) && r.node.parent == node
    }

    /** Node `s` is the first of `r`, seen from the fields next to it. */
    ghost predicate FirstWithin(s: Node, node: Node, r: Tree)
      requires r.Fork?
      reads Nodes(r)
    {
      s in Nodes(r) && s.left == null && s.parent != null && (s == r.node <==> s.parent == node)
      && (s != r.node ==> s.parent in Nodes(r) && s.parent != s && s.parent != s.right && s.parent.left == s)
      && (s.right != null ==> s.right in Nodes(r) && s.right != s && s.right.parent == s && s.right != r.node)
      && (forall n :: n in Nodes(r) && n.left == s ==> s != r.node && n == s.parent)
      && (forall n :: n in Nodes(r) && n.parent == s ==> n == s.right)
    }

    /** The relinking of a node with its successor `s`, field by field. */
    method SwapLinks(node: Node, s: Node, ghost c: Path, ghost l: Tree, ghost r: Tree, ghost before: map<Node, Fields>)
      requires Surrounded(node, c, l, r) && FirstWithin(s, node, r)
      requires forall n :: n in Nodes(r) ==> n in before && before[n] == FieldsOf(n)
      modifies this`root, repr
      ensures Linked(l, s) && PathLinked(c, s) && root == Anchor(c, s)
      ensures s.left == l.node && s.parent == NodeOf(c) && s.color == old(node.color)
      ensures s.right == if s == r.node then node else r.node
      ensures node.left == null && node.right == before[s].right && node.color == before[s].color
      ensures node.parent == if s == r.node then s else before[s].parent
      ensures SameExcept(before, r, s, node, s)
    {
      hide Linked, PathLinked, Nodes, PathNodes, Distinct, PathDistinct, Anchor;
      var neighbours := s.parent == node;
      HangAround(node, s, neighbours, c, l, r);
      if neighbours {
        ExchangeAdjacent(node, s);
      } else {
        ExchangeDistant(node, s);
      }
    }

    lemma SuccessorWithin(c: Path, t: Tree)
      requires At(c, t) && t.Fork? && t.left.Fork? && t.right.Fork?
      ensures Surrounded(t.node, c, t.left, t.right) && FirstWithin(FirstNode(t.right), t.node, t.right)
    {
      FirstNodeIn(t.right);
      LinksAgree(t.right, t.node);
      DownRight(c, t);
      FirstHasNoLeft(t.right, t.node);
    }

    lemma {:induction false} FirstHasNoLeft(t: Tree, parent: Node?)
      requires t.Fork? && Distinct(t) && Linked(t, parent)
      ensures FirstNode(t).left == null
      ensures FirstNode(t) != t.node ==> FirstNode(t).parent != null && FirstNode(t).parent.left == FirstNode(t)
                                         && FirstNode(t).parent != FirstNode(t).right
    {
      if t.left.Fork? {
        FirstNodeIn(t.left);
        assert t.left.right.Fork? ==> t.left.right.node in Nodes(t.left.right) && Nodes(t.left.right) <= Nodes(t.left);
        FirstHasNoLeft(t.left, t.node);
      }
    }

    lemma SwapFolds(c: Path, t: Tree, s: Node)
      requires t.Fork? && t.left.Fork? && t.right.Fork? && s == FirstNode(t.right)
      requires Distinct(t) && PathDistinct(c) && Nodes(t) !! PathNodes(c) && Nodes(t) + PathNodes(c) == repr
      requires Linked(t.left, s) && PathLinked(c, s) && root == Anchor(c, s)
      requires s.left == t.left.node && s.parent == NodeOf(c) && s.color == t.color
      requires s.right == (if s == t.right.node then t.node else t.right.node)
      requires Linked(WithFirst(t.right, t.node), s)
      ensures At(c, Fork(t.color, t.left, s, WithFirst(t.right, t.node)))
    {
      hide Linked, PathLinked, PathNodes, PathDistinct, Anchor;
      FirstNodeIn(t.right);
      WithFirstKeeps(t.right, t.node);
      if t.right.left.Fork? {
        FirstNodeIn(t.right.left);
      }
      var r := WithFirst(t.right, t.node);
      assert Nodes(Fork(t.color, t.left, s, r)) == Nodes(t);
      LinkedFork(t.color, t.left, s, r, NodeOf(c));
    }

    static lemma LinkedFork(c: Color, l: Tree, s: Node, r: Tree, parent: Node?)
      requires s.color == c && s.left == RootOf(l) && s.right == RootOf(r) && s.parent == parent
      requires Linked(l, s) && Linked(r, s)
      ensures Linked(Fork(c, l, s, r), parent)
    {
    }

    method SwapWithSuccessor(node: Node, ghost c: Path, ghost t: Tree)
      requires At(c, t) && t.Fork? && t.node == node && t.left.Fork? && t.right.Fork?
      modifies this`root, repr
      ensures At(c, Swapped(t))
    {
      hide Nodes, PathNodes, Linked, PathLinked, PathDistinct, Anchor, FirstNode, WithFirst, InOrder, SameExcept;
      ghost var l, r := t.left, t.right;
      FirstNodeIn(r);
      var s := SuccessorAt(node, c, t);
      Fields(c, t);
      DownRight(c, t);
      SuccessorWithin(c, t);
      ghost var before := map n | n in Nodes(r) :: FieldsOf(n);
      RecordSpells(before, r, node);
      SwapLinks(node, s, c, l, r, before);
      FirstExchanged(before, r, s, node, node, s);
      SwapFolds(c, t, s);
    }

    method Unlink(node: Node, ghost p: Path, ghost t: Tree) returns (child: Node?, ghost u: Tree)
      requires At(p, t) && t.Fork? && t.node == node && (t.left.Leaf? || t.right.Leaf?)
      modifies this`root, this`repr, repr
      ensures u == if t.left.Fork? then t.left else t.right
      ensures repr == old(repr) - {node} && At(p, u) && child == RootOf(u)
      ensures node.parent == NodeOf(p) && node.color == t.color
    {
      hide Nodes, Distinct, PathNodes, PathDistinct, PathLinked, Linked, Anchor;
      u := if t.left.Fork? then t.left else t.right;
      OnlyChild(t, u, NodeOf(p));
      child := if node.left != null then node.left else node.right;
      SetParent(child, node.parent, u, node);
      ReplaceChild(node.parent, node, child, p);
      repr := repr - {node};
    }

    lemma {:induction false} ToFirst(p: Path, t: Tree) returns (p': Path, t': Tree)
      requires At(p, t) && t.Fork?
      ensures At(p', t') && t'.Fork? && t'.node == FirstNode(t) && t'.left.Leaf? && Plug(p', t') == Plug(p, t)
      decreases t
    {
      if t.left.Leaf? {
        p', t' := p, t;
      } else {
        DownLeft(p, t);
        p', t' := ToFirst(BelowLeft(t.color, t.node, t.right, p), t.left);
      }
    }

    /** The position of the node once it has at most one child. */
    method Settle(node: Node, ghost c: Path, ghost t: Tree) returns (ghost p: Path, ghost u: Tree)
      requires At(c, t) && t.Fork? && t.node == node
      requires IsBlack(Plug(c, t)) && RedBlack(Plug(c, t), BlackHeight(Plug(c, t)))
      modifies this`root, repr
      ensures At(p, u) && u.Fork? && u.node == node && (u.left.Leaf? || u.right.Leaf?)
      ensures Distinct(Plug(p, u)) && IsBlack(Plug(p, u)) && RedBlack(Plug(p, u), BlackHeight(Plug(c, t)))
      ensures Without(InOrder(Plug(p, u)), node) == Without(InOrder(Plug(c, t)), node)
    {
      hide Nodes, PathNodes, Linked, PathLinked, PathDistinct, Anchor, InOrder, At;
      hide RedBlack, Plug, Without, BlackHeight, Distinct, WithFirst, FirstNode;
      p, u := c, t;
      Fields(c, t);
      ToTop(c, t);
      WholeDistinct(Plug(c, t));
      if node.left != null && node.right != null {
        SwapWithSuccessor(node, c, t);
        SwapKeepsNodes(c, t);
        SwapThenWithout(c, t);
        SwapRedBlack(c, t, BlackHeight(Plug(c, t)));
        DownRight(c, Swapped(t));
        ghost var q := BelowRight(t.color, FirstNode(t.right), t.left, c);
        p, u := ToFirst(q, WithFirst(t.right, node));
        PlugUp(q, WithFirst(t.right, node));
      }
    }

    lemma WholeDistinct(t: Tree)
      requires At(Top, t)
      ensures Distinct(t) && repr == Nodes(t)
    {
    }

    /** Take the node out of its place and repair the colours. */
    method Detach(node: Node, ghost p: Path, ghost t: Tree, ghost h: int) returns (ghost t': Tree)
      requires At(p, t) && t.Fork? && t.node == node && (t.left.Leaf? || t.right.Leaf?)
      requires Distinct(Plug(p, t)) && IsBlack(Plug(p, t)) && RedBlack(Plug(p, t), h)
      requires Without(InOrder(Plug(p, t)), node) != []
      modifies this`root, this`repr, repr
      ensures repr == old(repr) - {node} && At(Top, t')
      ensures IsBlack(t') && RedBlack(t', BlackHeight(t')) && InOrder(t') == Without(InOrder(Plug(p, t)), node)
    {
      hide Nodes, PathNodes, Linked, PathLinked, PathDistinct, Anchor, At, RedBlack, Distinct, Without, Before, After;
      WithoutAt(p, t);
      ghost var k := OneChildLess(p, t, h);
      var child; ghost var u;
      child, u := Unlink(node, p, t);
      if node.color != Red {
        t' := RemoveFixups(child, node.parent, p, u, k);
      } else {
        t' := Plug(p, u);
        ToTop(p, u);
      }
    }

    lemma Members(node: Node)
      requires Valid() && node in repr
      ensures shape.Fork? && node in InOrder(shape) && node in Nodes(shape) && NoDuplicates(InOrder(shape))
      ensures size == 1 ==> repr == {node} && InOrder(shape) == [node]
    {
      NodesInOrder(shape);
      DistinctInOrder(shape);
    }

    method Remove(node: Node)
      requires Valid() && node in repr
      modifies this, repr
      ensures Valid() && repr == old(repr) - {node} && history == old(history) + [Take(node)]
      ensures InOrder(shape) == Without(old(InOrder(shape)), node)
    {
      hide Nodes, PathNodes, Linked, PathLinked, PathDistinct, Anchor, RedBlack, Distinct, InOrder, Without, Before, After, Sorted;
      ghost var was := InOrder(shape);
      Members(node);
      WithoutShrinks(was, node);
      WithoutSorted(was, node);
      if size == 1 {
        history := history + [Take(node)];
        RemoveOnly(node);
        return;
      }
      if minimum == node {
        assert was[0] == node;
        minimum := Successor(node);
      }
      assert minimum == Without(was, node)[0];
      ghost var p, u;
      p, u := Locate(Top, shape, node);
      p, u := Settle(node, p, u);
      shape := Detach(node, p, u, BlackHeight(shape));
      OrderOfFork(shape);
      size := size - 1;
      history := history + [Take(node)];
    }

    method RemoveOnly(node: Node)
      requires repr == {node} && Play(history) == [] && minimum == LastMoved(history)
      modifies this
      ensures Valid() && repr == {} && InOrder(shape) == [] && history == old(history) && minimum == old(minimum)
    {
      root := null;
      size := 0;
      repr := {};
      shape := Leaf;
    }

    constructor ()
      ensures Valid() && repr == {} && history == []
    {
      root, size, minimum := null, 0, null;
      shape, repr, history := Leaf, {}, [];
    }

    /** `begin()`: the first node, or `end()` in an empty tree, except that removing the only node leaves that node there. */
    method Begin() returns (node: Node?)
      requires Valid()
      ensures node == FirstOf(InOrder(shape)) <==> size != 0 || history == []
      ensures size == 0 && history != [] ==> node == LastMoved(history) && node != null && node !in repr
    {
      node := minimum;
      OrderInRepr();
    }

    /** From `begin()`, stepping the iterator to the end meets every node once, in order. */
    method Traverse() returns (visited: seq<Node>)
      requires Valid() && (size != 0 || history == [])
      ensures visited == InOrder(shape)
    {
      hide Nodes, PathNodes, Linked, PathLinked, PathDistinct, Anchor, RedBlack, Distinct, Plug, At;
      visited := [];
      ghost var s := InOrder(shape);
      OrderInRepr();
      var node := Begin();
      while node != null
        invariant |visited| <= |s| && visited == s[..|visited|]
        invariant node == FirstOf(s[|visited|..])
        decreases |s| - |visited|
      {
        ghost var i := |visited|;
        assert s[i..][0] == s[i];
        visited := visited + [node];
        node := Successor(node);
      }
    }

    /** What holds between any two operations, whatever insertions and removals came before. */
    lemma AfterAnyRun()
      requires Valid()
      ensures IsBlack(shape) && RedBlack(shape, BlackHeight(shape)) && root == RootOf(shape)
      ensures Sorted(InOrder(shape)) && multiset(InOrder(shape)) == Balance(history) && size == |Balance(history)|
      ensures Pow2(HeightOf(shape)) <= (size + 1) * (size + 1)
      ensures forall n :: n in repr ==>
                && (n.left != null ==> n.left in repr && n.left.parent == n)
                && (n.right != null ==> n.right in repr && n.right.parent == n)
                && (n.left != null ==> n.left != n.right)
                && (if n == root then n.parent == null
                    else n.parent != null && n.parent in repr && (n.parent.left == n || n.parent.right == n))
    {
      hide InOrder, Play, Balance, Sorted, HeightOf, RedBlack;
      PlayedRun(history);
      HeightBound(shape);
      LinksAgree(shape, null);
    }

    lemma OrderInRepr()
      requires Valid()
      ensures forall i :: 0 <= i < |InOrder(shape)| ==> InOrder(shape)[i] in repr
      ensures NoDuplicates(InOrder(shape)) && (shape.Leaf? <==> size == 0)
    {
      NodesInOrder(shape);
      DistinctInOrder(shape);
    }

    lemma Emptied()
      requires Valid() && repr == {}
      ensures size == 0 && InOrder(shape) == []
    {
      OrderInRepr();
    }

    /** `predecessor` undoes `successor`. */
    method ThereAndBack(node: Node) returns (next: Node?, back: Node?)
      requires Valid() && node in repr
      ensures next == null <==> node == LastOf(InOrder(shape))
      ensures next != null ==> back == node
    {
      hide Linked, PathLinked, Nodes, PathNodes, Distinct, PathDistinct, Anchor, At, Plug, InOrder, RedBlack, Valid;
      Members(node);
      OrderInRepr();
      ghost var s := InOrder(shape);
      ghost var i :| 0 <= i < |s| && s[i] == node;
      next := Successor(node);
      back := null;
      if next != null {
        assert s[i + 1] == next;
        back := Predecessor(next);
        assert s[..i + 1][i] == node;
      }
    }
  }

  /** A node inserted and removed again: the tree is empty, and `begin()` is that node. */
  method EmptiedTree(key: int) returns (tree: BaseRedBlackTree, node: Node, begin: Node?)
    ensures tree.Valid() && tree.size == 0 && InOrder(tree.shape) == []
    ensures begin == node
  {
    hide BaseRedBlackTree.Valid, BaseRedBlackTree.At, Play;
    tree := new BaseRedBlackTree();
    node := new Node(key);
    tree.Insert(node);
    tree.Remove(node);
    tree.Emptied();
    begin := tree.Begin();
  }
}
