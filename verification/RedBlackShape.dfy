/**
 The mathematical side of AK/RedBlackTree.h: the shape a linked red-black tree
 has, the path from a position in it to the root, and what the fix-up steps do
 to both.  Nothing here touches the heap except `Linked` and `PathLinked`, which
 say that the nodes' fields spell out a given shape.
 */
module RedBlackShape {
  import opened Basics

  datatype Color = Red | Black

  /** A node as the source declares it: fresh nodes are red and unlinked. */
  class Node {
    var left: Node?
    var right: Node?
    var parent: Node?
    var color: Color
    const key: int

    constructor (key: int)
      ensures this.key == key
      ensures left == null && right == null && parent == null && color == Red
    {
      this.key := key;
      left, right, parent := null, null, null;
      color := Red;
    }
  }

  // ---------- shapes ----------

  datatype Tree =
    | Leaf
    | Fork(color: Color, left: Tree, node: Node, right: Tree)

  /** A path from a hole up to the root: `Below*` says which child of `node` the
      hole is, and `sibling` is that node's other subtree. */
  datatype Path =
    | Top
    | BelowLeft(color: Color, node: Node, sibling: Tree, up: Path)
    | BelowRight(color: Color, node: Node, sibling: Tree, up: Path)

  ghost function RootOf(t: Tree): Node? {
    if t.Leaf? then null else t.node
  }

  ghost function NodeOf(p: Path): Node? {
    if p.Top? then null else p.node
  }

  ghost function Nodes(t: Tree): set<Node> {
    if t.Leaf? then {} else Nodes(t.left) + {t.node} + Nodes(t.right)
  }

  ghost function PathNodes(p: Path): set<Node> {
    if p.Top? then {} else {p.node} + Nodes(p.sibling) + PathNodes(p.up)
  }

  ghost function InOrder(t: Tree): seq<Node> {
    if t.Leaf? then [] else InOrder(t.left) + [t.node] + InOrder(t.right)
  }

  /** A node with at most one child, and that child. */
  lemma OnlyChild(t: Tree, u: Tree, parent: Node?)
    requires Distinct(t) && Linked(t, parent) && t.Fork? && (t.left.Leaf? || t.right.Leaf?)
    requires u == if t.left.Fork? then t.left else t.right
    ensures Distinct(u) && Nodes(t) == Nodes(u) + {t.node} && t.node !in Nodes(u) && Linked(u, t.node)
    ensures RootOf(u) == (if t.node.left != null then t.node.left else t.node.right)
    ensures t.node.parent == parent && t.node.color == t.color
  {
  }

  lemma OrderOfFork(t: Tree)
    ensures t.Fork? <==> InOrder(t) != []
  {
  }

  /** The nodes that come before the hole in order, and those after it. */
  ghost function Before(p: Path): seq<Node> {
    match p
    case Top => []
    case BelowLeft(_, _, _, up) => Before(up)
    case BelowRight(_, n, s, up) => Before(up) + InOrder(s) + [n]
  }

  ghost function After(p: Path): seq<Node> {
    match p
    case Top => []
    case BelowLeft(_, n, s, up) => [n] + InOrder(s) + After(up)
    case BelowRight(_, _, _, up) => After(up)
  }

  /** One level up: the tree that fills the hole one step closer to the root. */
  ghost function Join(p: Path, t: Tree): Tree
    requires !p.Top?
  {
    match p
    case BelowLeft(c, n, s, _) => Fork(c, t, n, s)
    case BelowRight(c, n, s, _) => Fork(c, s, n, t)
  }

  /** The path to the hole's sibling, `t` filling the hole. */
  ghost function Across(p: Path, t: Tree): Path
    requires !p.Top?
  {
    match p
    case BelowLeft(c, n, _, up) => BelowRight(c, n, t, up)
    case BelowRight(c, n, _, up) => BelowLeft(c, n, t, up)
  }

  ghost function WithSibling(p: Path, s: Tree): Path
    requires !p.Top?
  {
    match p
    case BelowLeft(c, n, _, up) => BelowLeft(c, n, s, up)
    case BelowRight(c, n, _, up) => BelowRight(c, n, s, up)
  }

  ghost function Plug(p: Path, t: Tree): Tree
    decreases p
  {
    if p.Top? then t else Plug(p.up, Join(p, t))
  }

  /** The node the tree's root pointer must hold. */
  ghost function Anchor(p: Path, hole: Node?): Node?
    decreases p
  {
    if p.Top? then hole else Anchor(p.up, p.node)
  }

  // ---------- no node occurs twice ----------

  ghost predicate Distinct(t: Tree) {
    t.Leaf? ||
    (Distinct(t.left) && Distinct(t.right) && t.node !in Nodes(t.left) && t.node !in Nodes(t.right)
     && Nodes(t.left) !! Nodes(t.right))
  }

  ghost predicate PathDistinct(p: Path) {
    p.Top? ||
    (Distinct(p.sibling) && PathDistinct(p.up) && p.node !in Nodes(p.sibling) && p.node !in PathNodes(p.up)
     && Nodes(p.sibling) !! PathNodes(p.up))
  }

  // ---------- the heap spells out a shape ----------

  ghost predicate Linked(t: Tree, parent: Node?)
    reads Nodes(t)
  {
    t.Leaf? ||
    (t.node.color == t.color && t.node.parent == parent
     && t.node.left == RootOf(t.left) && t.node.right == RootOf(t.right)
     && Linked(t.left, t.node) && Linked(t.right, t.node))
  }

  ghost predicate PathLinked(p: Path, hole: Node?)
    reads PathNodes(p)
    decreases p
  {
    match p
    case Top => true
    case BelowLeft(c, n, s, up) =>
      n.color == c && n.parent == NodeOf(up) && n.left == hole && n.right == RootOf(s)
      && Linked(s, n) && PathLinked(up, n)
    case BelowRight(c, n, s, up) =>
      n.color == c && n.parent == NodeOf(up) && n.right == hole && n.left == RootOf(s)
      && Linked(s, n) && PathLinked(up, n)
  }

  // ---------- red-black trees ----------

  ghost predicate IsBlack(t: Tree) {
    t.Leaf? || t.color == Black
  }

  /** No red node has a red child, and every path down meets `h` black nodes. */
  ghost predicate RedBlack(t: Tree, h: int) {
    if t.Leaf? then h == 0
    else if t.color == Red then
      IsBlack(t.left) && IsBlack(t.right) && RedBlack(t.left, h) && RedBlack(t.right, h)
    else
      RedBlack(t.left, h - 1) && RedBlack(t.right, h - 1)
  }

  /** The rest of the tree is red-black and wants `h` black nodes below the hole. */
  ghost predicate Fits(p: Path, h: int)
    decreases p
  {
    p.Top? ||
    (RedBlack(p.sibling, h)
     && (p.color == Red ==> IsBlack(p.sibling) && !p.up.Top? && p.up.color == Black)
     && Fits(p.up, if p.color == Black then h + 1 else h))
  }

  ghost predicate RedPath(p: Path) {
    !p.Top? && p.color == Red
  }

  ghost predicate Sorted(s: seq<Node>) {
    forall i, j :: 0 <= i < j < |s| ==> s[i].key <= s[j].key
  }

  ghost function Paint(t: Tree, c: Color): Tree
    requires t.Fork?
  {
    t.(color := c)
  }

  ghost function RotatedLeft(t: Tree): Tree
    requires t.Fork? && t.right.Fork?
  {
    Fork(t.right.color, Fork(t.color, t.left, t.node, t.right.left), t.right.node, t.right.right)
  }

  ghost function RotatedRight(t: Tree): Tree
    requires t.Fork? && t.left.Fork?
  {
    Fork(t.left.color, t.left.left, t.left.node, Fork(t.color, t.left.right, t.node, t.right))
  }

  /** A red parent and a red uncle trade colours with the grandparent. */
  ghost function Recolored(p: Path, t: Tree): Tree
    requires !p.Top? && !p.up.Top? && p.up.sibling.Fork?
  {
    Paint(Join(WithSibling(p.up, Paint(p.up.sibling, Black)), Paint(Join(p, t), Black)), Red)
  }

  // ---------- lemmas about plugging ----------

  lemma Regroup<T>(a: seq<T>, b: seq<T>, c: seq<T>, d: seq<T>, e: seq<T>)
    ensures a + (b + c + d) + e == a + b + (c + d + e)
    ensures a + (b + c + d) + e == (a + b + c) + d + e
  {
  }

  lemma {:induction false} PlugInOrder(p: Path, t: Tree)
    ensures InOrder(Plug(p, t)) == Before(p) + InOrder(t) + After(p)
    decreases p
  {
    if p.Top? {
      assert [] + InOrder(t) + [] == InOrder(t);
    } else {
      PlugInOrder(p.up, Join(p, t));
      if p.BelowLeft? {
        Regroup(Before(p.up), InOrder(t), [p.node], InOrder(p.sibling), After(p.up));
      } else {
        Regroup(Before(p.up), InOrder(p.sibling), [p.node], InOrder(t), After(p.up));
      }
    }
  }

  lemma {:induction false} PlugNodes(p: Path, t: Tree)
    ensures Nodes(Plug(p, t)) == PathNodes(p) + Nodes(t)
    decreases p
  {
    if !p.Top? {
      PlugNodes(p.up, Join(p, t));
    }
  }

  lemma {:induction false} NodesInOrder(t: Tree)
    ensures forall n :: n in Nodes(t) ==> n in InOrder(t)
    ensures forall i :: 0 <= i < |InOrder(t)| ==> InOrder(t)[i] in Nodes(t)
  {
    if t.Fork? {
      NodesInOrder(t.left);
      NodesInOrder(t.right);
    }
  }

  lemma {:induction false} PlugDistinct(p: Path, t: Tree)
    ensures Distinct(Plug(p, t)) <==> Distinct(t) && PathDistinct(p) && Nodes(t) !! PathNodes(p)
    decreases p
  {
    if !p.Top? {
      PlugDistinct(p.up, Join(p, t));
    }
  }

  lemma {:induction false} AnchorOnPath(p: Path, hole: Node?)
    requires !p.Top?
    ensures Anchor(p, hole) in PathNodes(p)
    decreases p
  {
    if !p.up.Top? {
      AnchorOnPath(p.up, p.node);
    }
  }

  ghost function HeightAbove(h: int, p: Path): int
    decreases p
  {
    if p.Top? then h else HeightAbove(if p.color == Black then h + 1 else h, p.up)
  }

  /** Filling the hole with a tree of the wanted black height, black where the
      path is red, makes the whole tree red-black. */
  lemma {:induction false} PlugRedBlack(p: Path, t: Tree, h: int)
    requires Fits(p, h) && RedBlack(t, h) && (RedPath(p) ==> IsBlack(t))
    ensures RedBlack(Plug(p, t), HeightAbove(h, p))
    ensures !p.Top? ==> Plug(p, t).Fork? && Plug(p, t).color == Black
    decreases p
  {
    if !p.Top? {
      PlugRedBlack(p.up, Join(p, t), if p.color == Black then h + 1 else h);
    }
  }

  ghost function Depth(p: Path): nat {
    if p.Top? then 0 else 1 + Depth(p.up)
  }

  ghost function BlackHeight(t: Tree): int {
    if t.Leaf? then 0 else BlackHeight(t.left) + if t.color == Black then 1 else 0
  }

  lemma {:induction false} BlackHeightIs(t: Tree, h: int)
    requires RedBlack(t, h)
    ensures h == BlackHeight(t) >= 0
  {
    if t.Fork? {
      BlackHeightIs(t.left, if t.color == Black then h - 1 else h);
    }
  }

  // ---------- what restructuring keeps ----------

  /** The first node in order has no right child. */
  ghost predicate FirstIsBare(t: Tree) {
    t.Fork? && if t.left.Leaf? then t.right.Leaf? else FirstIsBare(t.left)
  }

  /** `u` is `t` restructured: same nodes in the same order, and the first node
      stays without a right child if it had none. */
  ghost predicate Keeps(t: Tree, u: Tree) {
    t.Fork? && u.Fork? && InOrder(t) == InOrder(u) && (FirstIsBare(t) ==> FirstIsBare(u))
  }

  lemma {:induction false} PlugKeeps(p: Path, t: Tree, u: Tree)
    requires Keeps(t, u)
    ensures Keeps(Plug(p, t), Plug(p, u))
    decreases p
  {
    if !p.Top? {
      assert Keeps(Join(p, t), Join(p, u)) by {
        var a, b := Join(p, t), Join(p, u);
        if p.BelowLeft? {
          assert a.left == t && b.left == u && a.right == b.right == p.sibling;
        } else {
          assert a.left == b.left == p.sibling && a.right == t && b.right == u;
        }
      }
      PlugKeeps(p.up, Join(p, t), Join(p, u));
    }
  }

  lemma RotationKeepsOrder(t: Tree)
    ensures t.Fork? && t.right.Fork? ==> InOrder(RotatedLeft(t)) == InOrder(t)
    ensures t.Fork? && t.left.Fork? ==> InOrder(RotatedRight(t)) == InOrder(t)
  {
    if t.Fork? && t.right.Fork? {
      RotationOrder(t.color, t.left, t.node, t.right.color, t.right.left, t.right.node, t.right.right);
    }
    if t.Fork? && t.left.Fork? {
      RotationOrder(t.left.color, t.left.left, t.left.node, t.color, t.left.right, t.node, t.right);
    }
  }

  lemma RotationOrder(c: Color, x: Tree, m: Node, d: Color, y: Tree, n: Node, z: Tree)
    ensures forall e, f :: InOrder(Fork(e, Fork(f, x, m, y), n, z)) == InOrder(Fork(c, x, m, Fork(d, y, n, z)))
    ensures forall e, f :: InOrder(Fork(e, x, m, Fork(f, y, n, z))) == InOrder(Fork(d, Fork(c, x, m, y), n, z))
  {
    hide InOrder;
    var order := InOrder(x) + [m] + InOrder(y) + [n] + InOrder(z);
    forall e, f
      ensures InOrder(Fork(e, Fork(f, x, m, y), n, z)) == order
      ensures InOrder(Fork(e, x, m, Fork(f, y, n, z))) == order
    {
      InOrderFork(Fork(e, Fork(f, x, m, y), n, z));
      InOrderFork(Fork(f, x, m, y));
      InOrderFork(Fork(e, x, m, Fork(f, y, n, z)));
      InOrderFork(Fork(f, y, n, z));
      Regroup(InOrder(x) + [m], InOrder(y), [n], InOrder(z), []);
    }
  }

  // ---------- insertion: the fix-up steps ----------

  /** The hole is below a red node: the grandparent exists and is black. */
  lemma RedPathHasGrandparent(p: Path, h: int)
    requires Fits(p, h) && RedPath(p)
    ensures !p.up.Top? && p.up.color == Black && RedBlack(p.sibling, h) && IsBlack(p.sibling)
    ensures RedBlack(p.up.sibling, h) && Fits(p.up.up, h + 1)
  {
    assert Fits(p.up, h);
  }

  lemma RecolorStep(p: Path, t: Tree, h: int)
    requires t.Fork? && RedBlack(t, h) && Fits(p, h) && RedPath(p)
    requires !IsBlack(p.up.sibling)
    ensures Fits(p.up.up, h + 1) && RedBlack(Recolored(p, t), h + 1) && Recolored(p, t).color == Red
    ensures Keeps(Plug(p, t), Plug(p.up.up, Recolored(p, t)))
  {
    RedPathHasGrandparent(p, h);
    var g, g' := Join(p.up, Join(p, t)), Recolored(p, t);
    assert Plug(p, t) == Plug(p.up, Join(p, t)) == Plug(p.up.up, g);
    var q, q' := Join(p, t), Paint(Join(p, t), Black);
    assert RedBlack(q', h + 1);
    var u, u' := p.up.sibling, Paint(p.up.sibling, Black);
    assert RedBlack(u', h + 1) && InOrder(u) == InOrder(u') && InOrder(q) == InOrder(q');
    assert FirstIsBare(u) == FirstIsBare(u') && FirstIsBare(q) == FirstIsBare(q');
    assert Keeps(g, g');
    PlugKeeps(p.up.up, g, g');
  }

  lemma OuterRightStep(p: Path, t: Tree, h: int)
    requires t.Fork? && RedBlack(t, h) && Fits(p, h) && RedPath(p)
    requires p.BelowRight? && p.up.BelowRight? && IsBlack(p.up.sibling)
    ensures var p' := BelowRight(Black, p.node, Fork(Red, p.up.sibling, p.up.node, p.sibling), p.up.up);
            Fits(p', h) && Keeps(Plug(p, t), Plug(p', t))
  {
    RedPathHasGrandparent(p, h);
    var p' := BelowRight(Black, p.node, Fork(Red, p.up.sibling, p.up.node, p.sibling), p.up.up);
    var g := Join(p.up, Join(p, t));
    assert Plug(p, t) == Plug(p.up, Join(p, t)) == Plug(p.up.up, g);
    RotationKeepsOrder(g);
    assert InOrder(Join(p', t)) == InOrder(RotatedLeft(g));
    assert FirstIsBare(g) ==> FirstIsBare(p'.sibling);
    PlugKeeps(p.up.up, g, Join(p', t));
  }

  lemma OuterLeftStep(p: Path, t: Tree, h: int)
    requires t.Fork? && RedBlack(t, h) && Fits(p, h) && RedPath(p)
    requires p.BelowLeft? && p.up.BelowLeft? && IsBlack(p.up.sibling)
    ensures var p' := BelowLeft(Black, p.node, Fork(Red, p.sibling, p.up.node, p.up.sibling), p.up.up);
            Fits(p', h) && Keeps(Plug(p, t), Plug(p', t))
  {
    RedPathHasGrandparent(p, h);
    var p' := BelowLeft(Black, p.node, Fork(Red, p.sibling, p.up.node, p.up.sibling), p.up.up);
    var g := Join(p.up, Join(p, t));
    assert Plug(p, t) == Plug(p.up, Join(p, t)) == Plug(p.up.up, g);
    RotationKeepsOrder(g);
    assert InOrder(Join(p', t)) == InOrder(RotatedRight(g));
    assert FirstIsBare(g) ==> FirstIsBare(g.left) ==> FirstIsBare(t);
    PlugKeeps(p.up.up, g, Join(p', t));
  }

  /** Turning an inner grandchild into an outer one: the old parent becomes the child. */
  lemma InnerRightStep(p: Path, t: Tree, h: int)
    requires t.Fork? && t.color == Red && RedBlack(t, h) && Fits(p, h) && RedPath(p)
    requires p.BelowLeft? && p.up.BelowRight?
    ensures var p', t' := BelowRight(Red, t.node, t.left, p.up), Fork(Red, t.right, p.node, p.sibling);
            Fits(p', h) && RedBlack(t', h) && Keeps(Plug(p, t), Plug(p', t'))
  {
    RedPathHasGrandparent(p, h);
    var p', t' := BelowRight(Red, t.node, t.left, p.up), Fork(Red, t.right, p.node, p.sibling);
    RotationKeepsOrder(Join(p, t));
    assert RotatedRight(Join(p, t)) == Join(p', t');
    assert Keeps(Join(p.up, Join(p, t)), Join(p.up, Join(p', t')));
    PlugKeeps(p.up.up, Join(p.up, Join(p, t)), Join(p.up, Join(p', t')));
    assert Plug(p, t) == Plug(p.up, Join(p, t)) && Plug(p', t') == Plug(p.up, Join(p', t'));
  }

  lemma InnerLeftStep(p: Path, t: Tree, h: int)
    requires t.Fork? && t.color == Red && RedBlack(t, h) && Fits(p, h) && RedPath(p)
    requires p.BelowRight? && p.up.BelowLeft?
    ensures var p', t' := BelowLeft(Red, t.node, t.right, p.up), Fork(Red, p.sibling, p.node, t.left);
            Fits(p', h) && RedBlack(t', h) && Keeps(Plug(p, t), Plug(p', t'))
  {
    RedPathHasGrandparent(p, h);
    var p', t' := BelowLeft(Red, t.node, t.right, p.up), Fork(Red, p.sibling, p.node, t.left);
    RotationKeepsOrder(Join(p, t));
    assert RotatedLeft(Join(p, t)) == Join(p', t');
    PlugKeeps(p.up, Join(p, t), Join(p', t'));
    assert Plug(p, t) == Plug(p.up, Join(p, t)) && Plug(p', t') == Plug(p.up, Join(p', t'));
  }

  lemma {:induction false} PlugFork(p: Path, t: Tree)
    requires t.Fork?
    ensures Plug(p, t).Fork?
    decreases p
  {
    if !p.Top? {
      PlugFork(p.up, Join(p, t));
    }
  }

  lemma PaintBlack(t: Tree, h: int)
    requires t.Fork? && RedBlack(t, h)
    ensures RedBlack(Paint(t, Black), BlackHeight(Paint(t, Black))) && Keeps(t, Paint(t, Black))
  {
    BlackHeightIs(t, h);
    assert RedBlack(Paint(t, Black), if t.color == Black then h else h + 1);
    BlackHeightIs(Paint(t, Black), if t.color == Black then h else h + 1);
  }

  // ---------- positions in order ----------

  ghost function FirstOf(s: seq<Node>): Node? {
    if s == [] then null else s[0]
  }

  ghost function LastOf(s: seq<Node>): Node? {
    if s == [] then null else s[|s| - 1]
  }

  ghost predicate NoDuplicates(s: seq<Node>) {
    forall i, j :: 0 <= i < j < |s| ==> s[i] != s[j]
  }

  lemma {:induction false} DistinctInOrder(t: Tree)
    requires Distinct(t)
    ensures NoDuplicates(InOrder(t))
  {
    if t.Fork? {
      DistinctInOrder(t.left);
      DistinctInOrder(t.right);
      NodesInOrder(t.left);
      NodesInOrder(t.right);
      NoDuplicatesAround(InOrder(t.left), t.node, InOrder(t.right));
    }
  }

  lemma NoDuplicatesAround(b: seq<Node>, n: Node, a: seq<Node>)
    requires NoDuplicates(b) && NoDuplicates(a)
    requires forall i :: 0 <= i < |b| ==> b[i] != n
    requires forall i :: 0 <= i < |a| ==> a[i] != n
    requires forall i, j :: 0 <= i < |b| && 0 <= j < |a| ==> b[i] != a[j]
    ensures NoDuplicates(b + [n] + a)
  {
  }

  lemma PositionInOrder(p: Path, t: Tree)
    requires t.Fork?
    ensures InOrder(Plug(p, t)) == (Before(p) + InOrder(t.left)) + [t.node] + (InOrder(t.right) + After(p))
  {
    hide InOrder, Plug, Before, After;
    PlugInOrder(p, t);
    InOrderFork(t);
    Around(Before(p), InOrder(t.left), [t.node], InOrder(t.right), After(p));
  }

  lemma InOrderFork(t: Tree)
    requires t.Fork?
    ensures InOrder(t) == InOrder(t.left) + [t.node] + InOrder(t.right)
  {
  }

  lemma Around<T>(a: seq<T>, b: seq<T>, c: seq<T>, d: seq<T>, e: seq<T>)
    ensures a + (b + c + d) + e == (a + b) + c + (d + e)
  {
  }

  /** In order, a position splits the nodes into those before it, its own node
      and those after it; the split is unique when no node occurs twice. */
  lemma NeighboursAt(p: Path, t: Tree, i: nat)
    requires t.Fork? && Distinct(Plug(p, t))
    requires i < |InOrder(Plug(p, t))| && InOrder(Plug(p, t))[i] == t.node
    ensures InOrder(Plug(p, t))[..i] == Before(p) + InOrder(t.left)
    ensures InOrder(Plug(p, t))[i + 1..] == InOrder(t.right) + After(p)
  {
    PositionInOrder(p, t);
    DistinctInOrder(Plug(p, t));
    var s, b, a := InOrder(Plug(p, t)), Before(p) + InOrder(t.left), InOrder(t.right) + After(p);
    assert s[|b|] == t.node;
    assert i == |b|;
  }

  // ---------- keys around a position ----------

  ghost predicate AllNotAbove(s: seq<Node>, key: int) {
    forall i :: 0 <= i < |s| ==> s[i].key <= key
  }

  ghost predicate AllAbove(s: seq<Node>, key: int) {
    forall i :: 0 <= i < |s| ==> key < s[i].key
  }

  /** At a node whose key is above `key`, everything from there on is above it;
      at a node whose key is not, everything up to there is not. */
  lemma SortedAround(p: Path, t: Tree, key: int)
    requires t.Fork? && Sorted(InOrder(Plug(p, t)))
    ensures key < t.node.key ==> AllAbove([t.node] + InOrder(t.right) + After(p), key)
    ensures t.node.key <= key ==> AllNotAbove(Before(p) + InOrder(t.left) + [t.node], key)
  {
    hide InOrder, Plug, Before, After, AllAbove, AllNotAbove, Sorted;
    PositionInOrder(p, t);
    SortedSides(Before(p) + InOrder(t.left), t.node, InOrder(t.right) + After(p), key);
    assert [t.node] + InOrder(t.right) + After(p) == [t.node] + (InOrder(t.right) + After(p));
  }

  /** The place t of a tree, where a node with this key may go and which wants h black nodes. */
  ghost predicate Leads(p: Path, t: Tree, key: int, h: int) {
    && AllNotAbove(Before(p), key) && AllAbove(After(p), key)
    && Fits(p, h) && RedBlack(t, h) && (RedPath(p) || p.Top? ==> IsBlack(t))
  }

  lemma LeadsLeft(p: Path, t: Tree, key: int, h: int)
    requires t.Fork? && Sorted(InOrder(Plug(p, t))) && key < t.node.key && Leads(p, t, key, h)
    ensures Leads(BelowLeft(t.color, t.node, t.right, p), t.left, key, if t.color == Black then h - 1 else h)
  {
    hide InOrder, Plug, Sorted, AllAbove, AllNotAbove;
    SortedAround(p, t, key);
  }

  lemma LeadsRight(p: Path, t: Tree, key: int, h: int)
    requires t.Fork? && Sorted(InOrder(Plug(p, t))) && t.node.key <= key && Leads(p, t, key, h)
    ensures Leads(BelowRight(t.color, t.node, t.left, p), t.right, key, if t.color == Black then h - 1 else h)
  {
    hide InOrder, Plug, Sorted, AllAbove, AllNotAbove;
    SortedAround(p, t, key);
  }

  lemma LeadsFromTop(t: Tree, key: int)
    requires IsBlack(t) && RedBlack(t, BlackHeight(t))
    ensures Leads(Top, t, key, BlackHeight(t))
  {
  }

  lemma LeadsHere(p: Path, key: int, h: int)
    requires Leads(p, Leaf, key, h)
    ensures AllNotAbove(Before(p), key) && AllAbove(After(p), key) && Fits(p, 0)
  {
  }

  lemma SortedSides(b: seq<Node>, n: Node, a: seq<Node>, key: int)
    requires Sorted(b + [n] + a)
    ensures key < n.key ==> AllAbove([n] + a, key)
    ensures n.key <= key ==> AllNotAbove(b + [n], key)
  {
    var s := b + [n] + a;
    assert s[|b|] == n;
    forall i | 0 <= i < |[n] + a| && key < n.key ensures key < ([n] + a)[i].key {
      assert ([n] + a)[i] == s[|b| + i];
    }
    forall i | 0 <= i < |b + [n]| && n.key <= key ensures (b + [n])[i].key <= key {
      assert (b + [n])[i] == s[i];
    }
  }

  lemma LastIsLargest(b: seq<Node>, a: seq<Node>, key: int)
    requires Sorted(b + a) && AllAbove(a, key) && b != []
    ensures forall n :: n in b + a && n.key <= key ==> n.key <= b[|b| - 1].key
  {
    var s := b + a;
    assert s[|b| - 1] == b[|b| - 1];
    forall n | n in s && n.key <= key ensures n.key <= b[|b| - 1].key {
      var i :| 0 <= i < |s| && s[i] == n;
      AboveFrom(b, a, key, i);
    }
  }

  lemma AboveFrom(b: seq<Node>, a: seq<Node>, key: int, i: int)
    requires AllAbove(a, key) && 0 <= i < |b + a|
    ensures |b| <= i ==> key < (b + a)[i].key
  {
    if |b| <= i {
      assert (b + a)[i] == a[i - |b|];
    }
  }

  /** Insertion into a sorted sequence, after every node with an equal key. */
  ghost function Inserted(s: seq<Node>, n: Node): (r: seq<Node>) {
    if s == [] || n.key < s[0].key then [n] + s else [s[0]] + Inserted(s[1..], n)
  }

  lemma {:induction false} InsertedSplits(b: seq<Node>, a: seq<Node>, n: Node)
    requires AllNotAbove(b, n.key) && AllAbove(a, n.key)
    ensures Inserted(b + a, n) == b + [n] + a
  {
    if b == [] {
      assert b + a == a;
      if a != [] {
        assert n.key < a[0].key;
      }
    } else {
      HeadOfJoin(b, a);
      assert b[0].key <= n.key;
      InsertedSplits(b[1..], a, n);
      HeadOfJoin(b, [n] + a);
      assert b + [n] + a == b + ([n] + a) && b[1..] + [n] + a == b[1..] + ([n] + a);
    }
  }

  lemma HeadOfJoin<T>(b: seq<T>, a: seq<T>)
    requires b != []
    ensures (b + a)[0] == b[0] && (b + a)[1..] == b[1..] + a && b + a == [b[0]] + (b[1..] + a)
  {
  }

  lemma SplitSorted(b: seq<Node>, a: seq<Node>, n: Node)
    requires Sorted(b + a) && AllNotAbove(b, n.key) && AllAbove(a, n.key)
    ensures Sorted(b + [n] + a)
  {
    var s, r := b + a, b + [n] + a;
    forall i, j | 0 <= i < j < |r| ensures r[i].key <= r[j].key {
      assert r[i] == if i < |b| then s[i] else if i == |b| then n else s[i - 1];
      assert r[j] == if j < |b| then s[j] else if j == |b| then n else s[j - 1];
      if i == |b| {
        assert a[j - 1 - |b|] == r[j];
      } else if j == |b| {
        assert b[i] == r[i];
      }
    }
  }

  /** A key that fits here is below the parent's exactly on the left of it. */
  lemma SideOf(p: Path, key: int)
    requires !p.Top? && AllNotAbove(Before(p), key) && AllAbove(After(p), key)
    ensures key < p.node.key <==> p.BelowLeft?
  {
    assert p.BelowLeft? ==> After(p)[0] == p.node;
    assert p.BelowRight? ==> Before(p)[|Before(p)| - 1] == p.node;
  }

  lemma OrderAround(p: Path)
    ensures InOrder(Plug(p, Leaf)) == Before(p) + After(p)
    ensures !p.Top? ==> Before(p) + After(p) != []
  {
    PlugInOrder(p, Leaf);
    assert p.BelowLeft? ==> After(p)[0] == p.node;
    assert p.BelowRight? ==> Before(p)[|Before(p)| - 1] == p.node;
  }

  ghost function NewNode(n: Node): Tree {
    Fork(Red, Leaf, n, Leaf)
  }

  lemma NewNodeAt(p: Path, n: Node)
    ensures InOrder(Plug(p, NewNode(n))) == Before(p) + [n] + After(p)
    ensures Before(p) == [] ==> FirstIsBare(Plug(p, NewNode(n)))
    ensures RedBlack(NewNode(n), 0)
  {
    hide Plug, Before, After;
    PlugInOrder(p, NewNode(n));
    assert InOrder(NewNode(n)) == [n];
    if Before(p) == [] {
      BareWhenFirst(p, NewNode(n));
    }
  }

  lemma {:induction false} BareWhenFirst(p: Path, t: Tree)
    requires FirstIsBare(t) && Before(p) == []
    ensures FirstIsBare(Plug(p, t))
    decreases p
  {
    if !p.Top? {
      BareWhenFirst(p.up, Join(p, t));
    }
  }

  // ---------- removal: the fix-up steps ----------

  /** `t` lacks one black node where `k` are wanted; a red root makes up for it
      by turning black, whatever its children are. */
  ghost predicate Short(t: Tree, k: int) {
    if IsBlack(t) then RedBlack(t, k - 1)
    else RedBlack(t.left, k - 1) && RedBlack(t.right, k - 1)
  }

  lemma PlugSameOrder(p: Path, t: Tree, u: Tree)
    requires InOrder(t) == InOrder(u)
    ensures InOrder(Plug(p, t)) == InOrder(Plug(p, u))
  {
    PlugInOrder(p, t);
    PlugInOrder(p, u);
  }

  /** Beside a short black tree there is always a sibling node. */
  lemma ShortHasSibling(p: Path, t: Tree, k: int)
    requires Fits(p, k) && Short(t, k) && IsBlack(t) && !p.Top?
    ensures k >= 1 && RedBlack(t, k - 1) && RedBlack(p.sibling, k) && p.sibling.Fork?
    ensures p.sibling.color == Red ==> p.color == Black && p.sibling.left.Fork? && p.sibling.right.Fork?
  {
    BlackHeightIs(t, k - 1);
    if p.sibling.color == Red {
      assert RedBlack(p.sibling.left, k) && RedBlack(p.sibling.right, k);
    }
  }

  lemma RedSiblingLeftStep(p: Path, t: Tree, k: int)
    requires Fits(p, k) && Short(t, k) && IsBlack(t) && p.BelowLeft? && !IsBlack(p.sibling)
    ensures var p' := BelowLeft(Red, p.node, p.sibling.left, BelowLeft(Black, p.sibling.node, p.sibling.right, p.up));
            Fits(p', k) && IsBlack(p'.sibling) && InOrder(Plug(p', t)) == InOrder(Plug(p, t))
  {
    ShortHasSibling(p, t, k);
    var q := BelowLeft(Black, p.sibling.node, p.sibling.right, p.up);
    var p' := BelowLeft(Red, p.node, p.sibling.left, q);
    assert Fits(q, k);
    RotationKeepsOrder(Join(p, t));
    assert InOrder(Join(q, Join(p', t))) == InOrder(RotatedLeft(Join(p, t)));
    PlugSameOrder(p.up, Join(p, t), Join(q, Join(p', t)));
    assert Plug(p', t) == Plug(q, Join(p', t)) == Plug(p.up, Join(q, Join(p', t)));
  }

  lemma RedSiblingRightStep(p: Path, t: Tree, k: int)
    requires Fits(p, k) && Short(t, k) && IsBlack(t) && p.BelowRight? && !IsBlack(p.sibling)
    ensures var p' := BelowRight(Red, p.node, p.sibling.right, BelowRight(Black, p.sibling.node, p.sibling.left, p.up));
            Fits(p', k) && IsBlack(p'.sibling) && InOrder(Plug(p', t)) == InOrder(Plug(p, t))
  {
    ShortHasSibling(p, t, k);
    var q := BelowRight(Black, p.sibling.node, p.sibling.left, p.up);
    var p' := BelowRight(Red, p.node, p.sibling.right, q);
    assert Fits(q, k);
    RotationKeepsOrder(Join(p, t));
    assert InOrder(Join(q, Join(p', t))) == InOrder(RotatedRight(Join(p, t)));
    PlugSameOrder(p.up, Join(p, t), Join(q, Join(p', t)));
    assert Plug(p', t) == Plug(q, Join(p', t)) == Plug(p.up, Join(q, Join(p', t)));
  }

  /** A black sibling with black children turns red and the shortage moves up. */
  lemma PassUpStep(p: Path, t: Tree, k: int)
    requires Fits(p, k) && Short(t, k) && IsBlack(t) && !p.Top?
    requires p.sibling.Fork? && p.sibling.color == Black && IsBlack(p.sibling.left) && IsBlack(p.sibling.right)
    ensures var t' := Join(WithSibling(p, Paint(p.sibling, Red)), t);
            var k' := if p.color == Black then k + 1 else k;
            Fits(p.up, k') && Short(t', k') && InOrder(Plug(p.up, t')) == InOrder(Plug(p, t))
  {
    var t' := Join(WithSibling(p, Paint(p.sibling, Red)), t);
    assert InOrder(Paint(p.sibling, Red)) == InOrder(p.sibling);
    assert RedBlack(Paint(p.sibling, Red), k - 1);
    assert InOrder(Join(p, t)) == InOrder(t');
    PlugSameOrder(p.up, Join(p, t), t');
  }

  /** A red inner nephew becomes the sibling. */
  ghost function TurnedRight(s: Tree): Tree
    requires s.Fork? && s.left.Fork?
  {
    RotatedRight(Fork(Red, Paint(s.left, Black), s.node, s.right))
  }

  ghost function TurnedLeft(s: Tree): Tree
    requires s.Fork? && s.right.Fork?
  {
    RotatedLeft(Fork(Red, s.left, s.node, Paint(s.right, Black)))
  }

  lemma TurnStep(p: Path, t: Tree, s: Tree, k: int)
    requires Fits(p, k) && !p.Top? && p.sibling.Fork? && p.sibling.color == Black
    requires p.BelowLeft? ==> IsBlack(p.sibling.right) && !IsBlack(p.sibling.left) && s == TurnedRight(p.sibling)
    requires p.BelowRight? ==> IsBlack(p.sibling.left) && !IsBlack(p.sibling.right) && s == TurnedLeft(p.sibling)
    ensures s.Fork? && s.color == Black && !IsBlack(if p.BelowLeft? then s.right else s.left)
    ensures Fits(WithSibling(p, s), k)
    ensures InOrder(Plug(WithSibling(p, s), t)) == InOrder(Plug(p, t))
  {
    var b := p.sibling;
    assert RedBlack(b, k);
    if p.BelowLeft? {
      var c := Fork(Red, Paint(b.left, Black), b.node, b.right);
      RotationKeepsOrder(c);
      assert InOrder(Paint(b.left, Black)) == InOrder(b.left);
      assert RedBlack(b.left, k - 1);
      assert RedBlack(s.right, k - 1);
    } else {
      var c := Fork(Red, b.left, b.node, Paint(b.right, Black));
      RotationKeepsOrder(c);
      assert InOrder(Paint(b.right, Black)) == InOrder(b.right);
      assert RedBlack(b.right, k - 1);
      assert RedBlack(s.left, k - 1);
    }
    assert InOrder(Join(WithSibling(p, s), t)) == InOrder(Join(p, t));
    PlugSameOrder(p.up, Join(p, t), Join(WithSibling(p, s), t));
  }

  /** A red outer nephew pays for the missing black node. */
  ghost function Repaid(p: Path, t: Tree): Tree
    requires p.BelowLeft? ==> p.sibling.Fork? && p.sibling.right.Fork?
    requires p.BelowRight? ==> p.sibling.Fork? && p.sibling.left.Fork?
    requires !p.Top?
  {
    var s := p.sibling;
    if p.BelowLeft? then Fork(p.color, Fork(Black, t, p.node, s.left), s.node, Paint(s.right, Black))
    else Fork(p.color, Paint(s.left, Black), s.node, Fork(Black, s.right, p.node, t))
  }

  lemma RepayStep(p: Path, t: Tree, k: int)
    requires Fits(p, k) && Short(t, k) && IsBlack(t) && !p.Top?
    requires p.sibling.Fork? && p.sibling.color == Black
    requires !IsBlack(if p.BelowLeft? then p.sibling.right else p.sibling.left)
    ensures var u := Plug(p.up, Repaid(p, t));
            u.Fork? && u.color == Black && RedBlack(u, BlackHeight(u)) && InOrder(u) == InOrder(Plug(p, t))
  {
    var s, r, u := p.sibling, Repaid(p, t), Plug(p.up, Repaid(p, t));
    var k' := if p.color == Black then k + 1 else k;
    RotationKeepsOrder(Join(p, t));
    if p.BelowLeft? {
      assert InOrder(r) == InOrder(RotatedLeft(Join(p, t)));
      assert RedBlack(s.right, k - 1) && RedBlack(Paint(s.right, Black), k) && RedBlack(r.left, k);
    } else {
      assert InOrder(r) == InOrder(RotatedRight(Join(p, t)));
      assert RedBlack(s.left, k - 1) && RedBlack(Paint(s.left, Black), k) && RedBlack(r.right, k);
    }
    assert RedBlack(r, k');
    PlugSameOrder(p.up, Join(p, t), r);
    PlugRedBlack(p.up, r, k');
    BlackHeightIs(u, HeightAbove(k', p.up));
    if p.up.Top? { assert r.color == Black; }
  }

  lemma TopShort(t: Tree)
    requires t.Fork? && t.color == Black && RedBlack(t, BlackHeight(t))
    ensures Short(t, BlackHeight(t) + 1) && Fits(Top, BlackHeight(t) + 1) && Plug(Top, t) == t
  {
  }

  /** When the loop stops, painting the node black settles the shortage. */
  lemma SettledShort(p: Path, t: Tree, k: int)
    requires Fits(p, k) && Short(t, k) && t.Fork? && (p.Top? || t.color == Red)
    ensures var u := Plug(p, Paint(t, Black));
            u.Fork? && u.color == Black && RedBlack(u, BlackHeight(u)) && InOrder(u) == InOrder(Plug(p, t))
  {
    var b, u := Paint(t, Black), Plug(p, Paint(t, Black));
    PlugSameOrder(p, t, b);
    var k' := if t.color == Red then k else k - 1;
    assert RedBlack(b, k');
    PlugRedBlack(p, b, k');
    BlackHeightIs(u, HeightAbove(k', p));
  }

  // ---------- removal: the successor ----------

  ghost function FirstNode(t: Tree): Node
    requires t.Fork?
  {
    if t.left.Leaf? then t.node else FirstNode(t.left)
  }

  /** The same tree with another node in the first place. */
  ghost function WithFirst(t: Tree, x: Node): Tree
    requires t.Fork?
  {
    if t.left.Leaf? then t.(node := x) else t.(left := WithFirst(t.left, x))
  }

  lemma {:induction false} FirstNodeIn(t: Tree)
    requires t.Fork?
    ensures FirstNode(t) in Nodes(t) && |InOrder(t)| > 0 && FirstNode(t) == InOrder(t)[0]
  {
    if t.left.Fork? {
      FirstNodeIn(t.left);
    }
  }

  // ---------- recorded fields ----------

  datatype Fields = Fields(left: Node?, right: Node?, parent: Node?, color: Color)

  ghost function FieldsOf(n: Node): Fields
    reads n
  {
    Fields(n.left, n.right, n.parent, n.color)
  }

  /** `Linked`, of recorded fields instead of the heap. */
  ghost predicate Spelled(m: map<Node, Fields>, t: Tree, parent: Node?) {
    t.Leaf? ||
    (t.node in m && m[t.node] == Fields(RootOf(t.left), RootOf(t.right), parent, t.color)
     && Spelled(m, t.left, t.node) && Spelled(m, t.right, t.node))
  }

  lemma {:induction false} RecordSpells(m: map<Node, Fields>, t: Tree, parent: Node?)
    requires Linked(t, parent)
    requires forall n :: n in Nodes(t) ==> n in m && m[n] == FieldsOf(n)
    ensures Spelled(m, t, parent)
  {
    if t.Fork? {
      RecordSpells(m, t.left, t.node);
      RecordSpells(m, t.right, t.node);
    }
  }

  lemma {:induction false} WithFirstOrder(t: Tree, x: Node)
    requires t.Fork?
    ensures InOrder(t) != [] && InOrder(WithFirst(t, x)) == [x] + InOrder(t)[1..]
  {
    if t.left.Fork? {
      WithFirstOrder(t.left, x);
      HeadOfJoin(InOrder(t.left), [t.node] + InOrder(t.right));
      assert InOrder(t) == InOrder(t.left) + ([t.node] + InOrder(t.right));
      var rest := InOrder(t.left)[1..];
      assert ([x] + rest) + [t.node] + InOrder(t.right) == [x] + (rest + ([t.node] + InOrder(t.right)));
    }
  }

  lemma {:induction false} WithFirstNodes(t: Tree, x: Node)
    requires t.Fork? && Distinct(t) && x !in Nodes(t)
    ensures Nodes(WithFirst(t, x)) == Nodes(t) - {FirstNode(t)} + {x}
    ensures Distinct(WithFirst(t, x)) && FirstNode(WithFirst(t, x)) == x
  {
    hide InOrder;
    FirstNodeIn(t);
    if t.left.Fork? {
      FirstNodeIn(t.left);
      WithFirstNodes(t.left, x);
    }
  }

  lemma WithFirstKeeps(t: Tree, x: Node)
    requires t.Fork? && Distinct(t) && x !in Nodes(t)
    ensures InOrder(t) != [] && InOrder(WithFirst(t, x)) == [x] + InOrder(t)[1..]
    ensures Nodes(WithFirst(t, x)) == Nodes(t) - {FirstNode(t)} + {x}
    ensures Distinct(WithFirst(t, x)) && FirstNode(WithFirst(t, x)) == x
  {
    hide InOrder, Nodes, Distinct;
    WithFirstOrder(t, x);
    WithFirstNodes(t, x);
  }

  lemma {:induction false} WithFirstRedBlack(t: Tree, x: Node, h: int)
    requires t.Fork? && RedBlack(t, h)
    ensures RedBlack(WithFirst(t, x), h) && WithFirst(t, x).color == t.color
  {
    if t.left.Fork? {
      WithFirstRedBlack(t.left, x, if t.color == Red then h else h - 1);
    }
  }

  /** Taking a red-black tree apart at any position. */
  lemma {:induction false} Unplug(p: Path, t: Tree, h: int) returns (k: int)
    requires RedBlack(Plug(p, t), h) && IsBlack(Plug(p, t))
    ensures Fits(p, k) && RedBlack(t, k) && (RedPath(p) ==> IsBlack(t)) && (p.Top? ==> IsBlack(t))
    decreases p
  {
    if p.Top? {
      k := h;
    } else {
      var j := Unplug(p.up, Join(p, t), h);
      k := if p.color == Black then j - 1 else j;
    }
  }

  ghost function Without(s: seq<Node>, n: Node): (r: seq<Node>) {
    if s == [] then [] else if s[0] == n then s[1..] else [s[0]] + Without(s[1..], n)
  }

  lemma {:induction false} WithoutSplits(b: seq<Node>, n: Node, a: seq<Node>)
    requires forall i :: 0 <= i < |b| ==> b[i] != n
    ensures Without(b + [n] + a, n) == b + a
  {
    if b == [] {
      assert [] + [n] + a == [n] + a;
      assert ([n] + a)[1..] == [] + a;
    } else {
      assert (b + [n] + a)[0] == b[0] && (b + [n] + a)[1..] == b[1..] + [n] + a;
      WithoutSplits(b[1..], n, a);
      assert [b[0]] + (b[1..] + a) == b + a;
    }
  }

  /** Removing a node from a sorted tree's order. */
  lemma WithoutAt(p: Path, t: Tree)
    requires t.Fork? && Distinct(Plug(p, t))
    ensures Without(InOrder(Plug(p, t)), t.node)
         == (Before(p) + InOrder(t.left)) + (InOrder(t.right) + After(p))
  {
    PositionInOrder(p, t);
    DistinctInOrder(Plug(p, t));
    var b := Before(p) + InOrder(t.left);
    assert InOrder(Plug(p, t))[|b|] == t.node;
    forall i | 0 <= i < |b| ensures b[i] != t.node {
      assert InOrder(Plug(p, t))[i] == b[i];
    }
    WithoutSplits(b, t.node, InOrder(t.right) + After(p));
  }

  ghost function Swapped(t: Tree): Tree
    requires t.Fork? && t.right.Fork?
  {
    Fork(t.color, t.left, FirstNode(t.right), WithFirst(t.right, t.node))
  }

  lemma SwapKeepsNodes(c: Path, t: Tree)
    requires t.Fork? && t.right.Fork? && Distinct(Plug(c, t))
    ensures Swapped(t).right.Fork? && FirstNode(Swapped(t).right) == t.node
    ensures Distinct(t) && Distinct(Plug(c, Swapped(t))) && Nodes(Plug(c, Swapped(t))) == Nodes(Plug(c, t))
  {
    hide Plug, PathDistinct, PathNodes;
    var u := Swapped(t);
    PlugDistinct(c, t);
    FirstNodeIn(t.right);
    WithFirstKeeps(t.right, t.node);
    assert Nodes(u) == Nodes(t);
    PlugNodes(c, t);
    PlugNodes(c, u);
    PlugDistinct(c, u);
  }

  /** Exchanging a node with its successor changes nothing once the node is gone. */
  lemma SwapThenWithout(c: Path, t: Tree)
    requires t.Fork? && t.right.Fork? && Distinct(Plug(c, t))
    ensures Without(InOrder(Plug(c, Swapped(t))), t.node) == Without(InOrder(Plug(c, t)), t.node)
  {
    hide Plug, Nodes, PathNodes, WithFirst, FirstNode, InOrder, Without, Before, After, NoDuplicates;
    SwapKeepsNodes(c, t);
    var s, u := FirstNode(t.right), Swapped(t);
    FirstNodeIn(t.right);
    WithFirstKeeps(t.right, t.node);
    WithoutAt(c, t);
    PositionInOrder(c, u);
    DistinctInOrder(Plug(c, u));
    var b, a := Before(c) + InOrder(t.left), InOrder(t.right)[1..] + After(c);
    assert InOrder(u.right) + After(c) == [t.node] + a;
    SwappedOrder(b, s, t.node, a, InOrder(Plug(c, u)));
    assert InOrder(t.right) == [s] + InOrder(t.right)[1..];
    assert b + [s] + a == b + (InOrder(t.right) + After(c));
  }

  lemma SwappedOrder(b: seq<Node>, s: Node, x: Node, a: seq<Node>, o: seq<Node>)
    requires NoDuplicates(o) && o == b + [s] + ([x] + a)
    ensures Without(o, x) == b + [s] + a
  {
    assert o == (b + [s]) + [x] + a;
    assert o[|b| + 1] == x;
    forall i | 0 <= i < |b + [s]| ensures (b + [s])[i] != x {
      assert o[i] == (b + [s])[i];
    }
    WithoutSplits(b + [s], x, a);
  }

  lemma PlugUp(p: Path, t: Tree)
    requires !p.Top?
    ensures Plug(p, t) == Plug(p.up, Join(p, t))
  {
  }

  lemma SwapRedBlack(c: Path, t: Tree, h: int)
    requires t.Fork? && t.right.Fork? && IsBlack(Plug(c, t)) && RedBlack(Plug(c, t), h)
    ensures IsBlack(Plug(c, Swapped(t))) && RedBlack(Plug(c, Swapped(t)), h)
  {
    var k := Unplug(c, t, h);
    WithFirstRedBlack(t.right, t.node, if t.color == Red then k else k - 1);
    PlugRedBlack(c, t, k);
    PlugRedBlack(c, Swapped(t), k);
    BlackHeightIs(Plug(c, t), h);
    BlackHeightIs(Plug(c, t), HeightAbove(k, c));
  }

  /** Taking out a red node leaves the tree red-black; taking out a black one
      leaves its place one black node short. */
  lemma OneChildLess(p: Path, t: Tree, h: int) returns (k: int)
    requires t.Fork? && (t.left.Leaf? || t.right.Leaf?)
    requires IsBlack(Plug(p, t)) && RedBlack(Plug(p, t), h)
    ensures var u := if t.left.Fork? then t.left else t.right;
            InOrder(Plug(p, u)) == (Before(p) + InOrder(t.left)) + (InOrder(t.right) + After(p))
            && if t.color == Black then Fits(p, k) && Short(u, k)
               else IsBlack(Plug(p, u)) && RedBlack(Plug(p, u), BlackHeight(Plug(p, u)))
  {
    var u := if t.left.Fork? then t.left else t.right;
    k := Unplug(p, t, h);
    PlugInOrder(p, u);
    assert Before(p) + InOrder(u) + After(p) == (Before(p) + InOrder(t.left)) + (InOrder(t.right) + After(p));
    if t.color == Red {
      PlugRedBlack(p, u, k);
      BlackHeightIs(Plug(p, u), HeightAbove(k, p));
    }
  }

  lemma {:induction false} WithoutShrinks(s: seq<Node>, n: Node)
    requires n in s
    ensures |Without(s, n)| == |s| - 1
    ensures s[0] != n ==> Without(s, n) != [] && Without(s, n)[0] == s[0]
    ensures s[0] == n ==> Without(s, n) == s[1..]
  {
    if s[0] != n {
      WithoutShrinks(s[1..], n);
    }
  }

  lemma {:induction false} WithoutSorted(s: seq<Node>, n: Node)
    requires Sorted(s)
    ensures Sorted(Without(s, n))
    ensures forall x :: x in Without(s, n) ==> x in s
  {
    if s != [] && s[0] != n {
      WithoutSorted(s[1..], n);
      SortedPrepend(s[0], Without(s[1..], n));
    }
  }

  lemma SortedPrepend(x: Node, s: seq<Node>)
    requires Sorted(s) && forall y :: y in s ==> x.key <= y.key
    ensures Sorted([x] + s)
  {
    var r := [x] + s;
    forall i, j | 0 <= i < j < |r| ensures r[i].key <= r[j].key {
      assert r[j] == s[j - 1] && s[j - 1] in s;
    }
  }

  // ---------- whole runs ----------

  datatype Operation = Put(node: Node) | Take(node: Node)

  ghost function LastMoved(run: seq<Operation>): Node? {
    if run == [] then null else run[|run| - 1].node
  }

  /** The order after a run, by inserting into and removing from a sorted sequence. */
  ghost function Play(run: seq<Operation>): seq<Node> {
    if run == [] then []
    else
      var before, last := Play(run[..|run| - 1]), run[|run| - 1];
      if last.Put? then Inserted(before, last.node) else Without(before, last.node)
  }

  /** What a run put in and did not take out again. */
  ghost function Balance(run: seq<Operation>): multiset<Node> {
    if run == [] then multiset{}
    else
      var before, last := Balance(run[..|run| - 1]), run[|run| - 1];
      if last.Put? then before + multiset{last.node} else before - multiset{last.node}
  }

  lemma {:induction false} InsertedContents(s: seq<Node>, n: Node)
    ensures multiset(Inserted(s, n)) == multiset(s) + multiset{n}
  {
    if s != [] && s[0].key <= n.key {
      assert s == [s[0]] + s[1..];
      InsertedContents(s[1..], n);
    }
  }

  lemma {:induction false} InsertedSorted(s: seq<Node>, n: Node)
    requires Sorted(s)
    ensures Sorted(Inserted(s, n))
  {
    if s == [] || n.key < s[0].key {
      SortedPrepend(n, s);
    } else {
      InsertedSorted(s[1..], n);
      InsertedContents(s[1..], n);
      OnlyThose(Inserted(s[1..], n), s[1..], n);
      SortedPrepend(s[0], Inserted(s[1..], n));
    }
  }

  lemma OnlyThose(r: seq<Node>, s: seq<Node>, n: Node)
    requires multiset(r) == multiset(s) + multiset{n}
    ensures forall y :: y in r ==> y == n || y in s
  {
    forall y | y in r
      ensures y == n || y in s
    {
      assert y in multiset(r);
    }
  }

  lemma {:induction false} WithoutContents(s: seq<Node>, n: Node)
    ensures multiset(Without(s, n)) == multiset(s) - multiset{n}
  {
    if s != [] {
      assert s == [s[0]] + s[1..];
      WithoutContents(s[1..], n);
    }
  }

  /** After any run the order is sorted and holds exactly the run's balance. */
  lemma {:induction false} PlayedRun(run: seq<Operation>)
    ensures Sorted(Play(run)) && multiset(Play(run)) == Balance(run)
  {
    if run != [] {
      var before, last := run[..|run| - 1], run[|run| - 1];
      PlayedRun(before);
      if last.Put? {
        InsertedContents(Play(before), last.node);
        InsertedSorted(Play(before), last.node);
      } else {
        WithoutContents(Play(before), last.node);
        WithoutSorted(Play(before), last.node);
      }
    }
  }

  // ---------- height ----------

  ghost function HeightOf(t: Tree): nat {
    if t.Leaf? then 0
    else 1 + if HeightOf(t.left) > HeightOf(t.right) then HeightOf(t.left) else HeightOf(t.right)
  }

  lemma {:induction false} BlackHeightBounds(t: Tree, h: nat)
    requires RedBlack(t, h)
    ensures HeightOf(t) <= 2 * h + if IsBlack(t) then 0 else 1
    ensures Pow2(h) <= |InOrder(t)| + 1
  {
    if t.Fork? {
      var k := if t.color == Black then h - 1 else h;
      BlackHeightIs(t.left, k);
      BlackHeightBounds(t.left, k);
      BlackHeightBounds(t.right, k);
    }
  }

  /** The height is at most twice the logarithm of the number of nodes plus one. */
  lemma HeightBound(t: Tree)
    requires IsBlack(t) && RedBlack(t, BlackHeight(t))
    ensures Pow2(HeightOf(t)) <= (|InOrder(t)| + 1) * (|InOrder(t)| + 1)
  {
    var h := BlackHeight(t);
    BlackHeightIs(t, h);
    BlackHeightBounds(t, h);
    Pow2Grows(HeightOf(t), 2 * h);
    Pow2Adds(h, h);
    SquareGrows(Pow2(h), |InOrder(t)| + 1);
  }

  lemma SquareGrows(a: nat, b: nat)
    requires a <= b
    ensures a * a <= b * b
  {
    assert a * a <= a * b <= b * b;
  }
}
