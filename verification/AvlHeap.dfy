/** The AVL tree in the heap (supertel/lib/avl-tree.c): nodes with child and parent links, relinked in place.
    A ghost tree of node references says which nodes hang where; its shape is a tree of `AvlShape`. */
module AvlHeap {
  import S = AvlShape

  class Node {
    var left: Node?
    var right: Node?
    var parent: Node?
    var height: nat
    const key: int

    constructor (k: int)
      ensures left == null && right == null && parent == null && height == 1 && key == k
    {
      left, right, parent, height, key := null, null, null, 1, k;
    }
  }

  /** Where the nodes hang; `all` caches the set of nodes. */
  datatype Places = Nowhere | At(left: Places, node: Node, height: nat, right: Places, all: set<Node>)

  ghost function Root(t: Places): Node? {
    if t.Nowhere? then null else t.node
  }

  ghost function Nodes(t: Places): set<Node> {
    if t.Nowhere? then {} else t.all
  }

  /** No node occurs twice. */
  ghost predicate Proper(t: Places) {
    t.At? ==>
      && Proper(t.left) && Proper(t.right)
      && t.all == Nodes(t.left) + {t.node} + Nodes(t.right)
      && t.node !in Nodes(t.left) && t.node !in Nodes(t.right) && Nodes(t.left) !! Nodes(t.right)
  }

  /** The nodes in order. */
  ghost function Line(t: Places): seq<Node> {
    if t.Nowhere? then [] else Line(t.left) + [t.node] + Line(t.right)
  }

  ghost function Shape(t: Places): (s: S.Tree)
    ensures s.Leaf? <==> t.Nowhere?
  {
    if t.Nowhere? then S.Leaf else S.Node(Shape(t.left), t.node.key, t.height, Shape(t.right))
  }

  /** Every child link leads where it should, and every node stores its height. */
  ghost predicate Children(t: Places)
    requires Proper(t)
    reads Nodes(t)`left, Nodes(t)`right, Nodes(t)`height
  {
    t.At? ==>
      && t.node.left == Root(t.left) && t.node.right == Root(t.right) && t.node.height == t.height
      && Children(t.left) && Children(t.right)
  }

  /** The place of a subtree: the node it hangs below, and its anchor, the node on whose right side it hangs, reached
      from there by left children only. */
  datatype Hook = Hook(parent: Node?, anchor: Node?)

  ghost function LeftOf(n: Node, h: Hook): Hook { Hook(n, h.anchor) }
  ghost function RightOf(n: Node): Hook { Hook(n, n) }

  /** The place of a whole tree. */
  const TOP: Hook := Hook(null, null)

  /** Which parent links may be wrong, all of them or that of `one`, and the nodes that have been removed. */
  datatype Slack = Slack(all: bool, one: Node?, dead: set<Node>)

  const STRICT: Slack := Slack(false, null, {})

  /** A parent link is exact or, where that is allowed, leads to the anchor or to a removed node. */
  ghost predicate Up(n: Node, h: Hook, s: Slack)
    reads n`parent
  {
    n.parent == h.parent || ((s.all || n == s.one) && (n.parent == h.anchor || n.parent in s.dead))
  }

  ghost predicate Parents(t: Places, h: Hook, s: Slack)
    requires Proper(t)
    reads Nodes(t)`parent
  {
    t.At? ==> Up(t.node, h, s) && Parents(t.left, LeftOf(t.node, h), s) && Parents(t.right, RightOf(t.node), s)
  }

  /** A proper tree whose child links and heights are exact, with parent links as `s` allows. */
  ghost predicate LinkedBut(t: Places, h: Hook, s: Slack)
    reads Nodes(t)
  {
    Proper(t) && Children(t) && Parents(t, h, s)
  }

  /** Every parent link is exact, and the root's parent is `parent`. */
  ghost predicate Exact(t: Places, parent: Node?)
    requires Proper(t)
    reads Nodes(t)`parent
  {
    t.At? ==> t.node.parent == parent && Exact(t.left, t.node) && Exact(t.right, t.node)
  }

  /** A proper tree with exact links. */
  ghost predicate Linked(t: Places, parent: Node?)
    reads Nodes(t)
  {
    Proper(t) && Children(t) && Exact(t, parent)
  }

  /** With nothing allowed to be wrong nothing is. */
  lemma {:induction false} StrictIsExact(t: Places, h: Hook, s: Slack)
    requires Proper(t) && !s.all && (s.one == null || s.one !in Nodes(t))
    ensures Parents(t, h, s) <==> Exact(t, h.parent)
  {
    if t.At? {
      StrictIsExact(t.left, LeftOf(t.node, h), s);
      StrictIsExact(t.right, RightOf(t.node), s);
    }
  }

  /** What is allowed with less slack is allowed with more. */
  lemma {:induction false} Loosen(t: Places, h: Hook, s: Slack, s': Slack)
    requires Proper(t) && Parents(t, h, s) && s.dead <= s'.dead
    requires s'.all || (!s.all && (s.one == null || s.one == s'.one || s.one !in Nodes(t)))
    ensures Parents(t, h, s')
  {
    if t.At? {
      Loosen(t.left, LeftOf(t.node, h), s, s');
      Loosen(t.right, RightOf(t.node), s, s');
    }
  }

  // ---------------------------------------------------------------- rotations

  function HeightOf(n: Node?): nat
    reads n
  {
    if n == null then 0 else n.height
  }

  /** `node_fix_height`, for children of heights `hl` and `hr`. */
  function Above(hl: nat, hr: nat): nat {
    ((if hl > hr then hl else hr) + 1) % 256
  }

  ghost function Height(t: Places): nat {
    if t.Nowhere? then 0 else t.height
  }

  ghost function Plant(l: Places, n: Node, h: nat, r: Places): Places {
    At(l, n, h, r, Nodes(l) + {n} + Nodes(r))
  }

  ghost function Fixed(l: Places, n: Node, r: Places): Places {
    Plant(l, n, Above(Height(l), Height(r)), r)
  }

  lemma RootIsIn(t: Places)
    requires Proper(t)
    ensures t.At? ==> t.node in Nodes(t)
  {
  }

  /** Hang the root of `t`, if there is one, below `parent`, with the anchor it has. */
  method Adopt(child: Node?, parent: Node?, ghost t: Places, ghost h: Hook, ghost s: Slack)
    requires child == Root(t) && LinkedBut(t, h, s)
    modifies {child}`parent
    ensures LinkedBut(t, Hook(parent, h.anchor), s) && (child != null ==> child.parent == parent)
  {
    RootIsIn(t);
    if child != null {
      child.parent := parent;
      ghost var l, r := LeftOf(child, h), RightOf(child);
      assert Parents(t.left, l, s) == old(Parents(t.left, l, s))
             && Parents(t.right, r, s) == old(Parents(t.right, r, s));
    }
  }

  /** `node_rotate_left` on a node `a` with subtrees `x` and, below its right child, `y` and `z`. */
  method RotateLeft(a: Node, ghost x: Places, ghost y: Places, ghost z: Places, ghost s: Slack) returns (b: Node)
    requires a.right != null && a.left == Root(x) && a.right.left == Root(y) && a.right.right == Root(z)
    requires Proper(x) && Children(x) && LinkedBut(y, Hook(a.right, a), s) && Proper(z) && Children(z)
    requires a != a.right && a !in Nodes(x) && a !in Nodes(y) && a !in Nodes(z)
    requires a.right !in Nodes(x) && a.right !in Nodes(y) && a.right !in Nodes(z)
    modifies a, a.right, {Root(y)}`parent
    ensures b == old(a.right) && b.left == a && b.right == Root(z) && a.left == Root(x) && a.right == Root(y)
    ensures b.parent == old(a.parent) && a.parent == b
    ensures LinkedBut(y, RightOf(a), s)
    ensures a.height == Fixed(x, a, y).height && b.height == Fixed(Fixed(x, a, y), b, z).height
  {
    b := a.right;
    var c := b.left;
    assert HeightOf(a.left) == Height(x) && HeightOf(c) == Height(y) && HeightOf(b.right) == Height(z);

    b.parent := a.parent;
    a.parent := b;
    Adopt(c, a, y, Hook(b, a), s);
    b.left := a;
    a.right := c;
    a.height := Above(HeightOf(a.left), HeightOf(a.right));
    b.height := Above(HeightOf(b.left), HeightOf(b.right));
  }

  /** `node_rotate_right` on a node `a` with subtrees `z` and, below its left child, `x` and `y`. */
  method RotateRight(a: Node, ghost x: Places, ghost y: Places, ghost z: Places, ghost s: Slack) returns (b: Node)
    requires a.left != null && a.right == Root(z) && a.left.left == Root(x) && a.left.right == Root(y)
    requires Proper(x) && Children(x) && LinkedBut(y, RightOf(a.left), s) && Proper(z) && Children(z)
    requires a != a.left && a !in Nodes(x) && a !in Nodes(y) && a !in Nodes(z)
    requires a.left !in Nodes(x) && a.left !in Nodes(y) && a.left !in Nodes(z)
    modifies a, a.left, {Root(y)}`parent
    ensures b == old(a.left) && b.right == a && b.left == Root(x) && a.right == Root(z) && a.left == Root(y)
    ensures b.parent == old(a.parent) && a.parent == b
    ensures LinkedBut(y, Hook(a, b), s)
    ensures a.height == Fixed(y, a, z).height && b.height == Fixed(x, b, Fixed(y, a, z)).height
  {
    b := a.left;
    var c := b.right;
    assert HeightOf(a.right) == Height(z) && HeightOf(c) == Height(y) && HeightOf(b.left) == Height(x);

    b.parent := a.parent;
    a.parent := b;
    Adopt(c, a, y, RightOf(b), s);
    b.right := a;
    a.left := c;
    a.height := Above(HeightOf(a.left), HeightOf(a.right));
    b.height := Above(HeightOf(b.left), HeightOf(b.right));
  }

  lemma Assemble(l: Places, n: Node, height: nat, r: Places, h: Hook, s: Slack)
    requires LinkedBut(l, LeftOf(n, h), s) && LinkedBut(r, RightOf(n), s) && Up(n, h, s)
    requires n !in Nodes(l) && n !in Nodes(r) && Nodes(l) !! Nodes(r)
    requires n.left == Root(l) && n.right == Root(r) && n.height == height
    ensures LinkedBut(Plant(l, n, height, r), h, s)
  {
  }

  ghost function TurnedLeft(t: Places): Places
    requires t.At? && t.right.At?
  {
    Fixed(Fixed(t.left, t.node, t.right.left), t.right.node, t.right.right)
  }

  ghost function TurnedRight(t: Places): Places
    requires t.At? && t.left.At?
  {
    Fixed(t.left.left, t.left.node, Fixed(t.left.right, t.node, t.right))
  }

  /** The heights a node reads off its children. */
  lemma RootHeights(t: Places, h: Hook, s: Slack)
    requires t.At? && LinkedBut(t, h, s)
    ensures LinkedBut(t.left, LeftOf(t.node, h), s) && LinkedBut(t.right, RightOf(t.node), s) && Up(t.node, h, s)
    ensures HeightOf(t.node.left) == Height(t.left) && HeightOf(t.node.right) == Height(t.right)
    ensures t == Plant(t.left, t.node, t.height, t.right)
  {
  }

  method TurnLeft(a: Node, ghost t: Places, ghost h: Hook, ghost s: Slack) returns (b: Node)
    requires t.At? && t.node == a && t.right.At? && LinkedBut(t, h, s) && (s.all || s.one != a)
    modifies a, t.right.node, {Root(t.right.left)}`parent
    ensures b == t.right.node && LinkedBut(TurnedLeft(t), h, s) && Nodes(TurnedLeft(t)) == Nodes(t)
  {
    ghost var x, y, z, u := t.left, t.right.left, t.right.right, TurnedLeft(t);
    RootHeights(t, h, s);
    RootHeights(t.right, RightOf(a), s);
    RootIsIn(y);
    b := RotateLeft(a, x, y, z, s);
    Assemble(x, a, u.left.height, y, LeftOf(b, h), s);
    Assemble(u.left, b, u.height, z, h, s);
  }

  method TurnRight(a: Node, ghost t: Places, ghost h: Hook, ghost s: Slack) returns (b: Node)
    requires t.At? && t.node == a && t.left.At? && LinkedBut(t, h, s) && (s.all || s.one != a)
    modifies a, t.left.node, {Root(t.left.right)}`parent
    ensures b == t.left.node && LinkedBut(TurnedRight(t), h, s) && Nodes(TurnedRight(t)) == Nodes(t)
    ensures a.left == Root(t.left.right) && a.right == Root(t.right)
  {
    ghost var x, y, z, u := t.left.left, t.left.right, t.right, TurnedRight(t);
    RootHeights(t, h, s);
    RootHeights(t.left, LeftOf(a, h), s);
    RootIsIn(y);
    b := RotateRight(a, x, y, z, s);
    Assemble(y, a, u.right.height, z, RightOf(b), s);
    Assemble(x, b, u.height, u.right, h, s);
  }

  // ---------------------------------------------------------------- rebalancing

  lemma {:induction false} ShapeOfFixed(l: Places, n: Node, r: Places)
    ensures Shape(Fixed(l, n, r)) == S.Fixed(Shape(l), n.key, Shape(r))
    ensures Line(Fixed(l, n, r)) == Line(l) + [n] + Line(r)
  {
  }

  lemma {:induction false} TurnedShapes(t: Places)
    requires t.At?
    ensures t.right.At? ==> Shape(TurnedLeft(t)) == S.RotateLeft(Shape(t)) && Line(TurnedLeft(t)) == Line(t)
    ensures t.left.At? ==> Shape(TurnedRight(t)) == S.RotateRight(Shape(t)) && Line(TurnedRight(t)) == Line(t)
  {
    if t.right.At? {
      ShapeOfFixed(t.left, t.node, t.right.left);
      ShapeOfFixed(Fixed(t.left, t.node, t.right.left), t.right.node, t.right.right);
    }
    if t.left.At? {
      ShapeOfFixed(t.left.right, t.node, t.right);
      ShapeOfFixed(t.left.left, t.left.node, Fixed(t.left.right, t.node, t.right));
    }
  }

  /** What `node_balance` makes of a node with subtrees `l` and `r`. */
  ghost function Balanced(l: Places, n: Node, r: Places): Places
    requires S.Rotatable(Shape(l), Shape(r))
  {
    var t := Fixed(l, n, r);
    if Height(l) - Height(r) == 2 then
      TurnedRight(Plant(if Height(l.left) < Height(l.right) then TurnedLeft(l) else l, n, t.height, r))
    else if Height(l) - Height(r) == -2 then
      TurnedLeft(Plant(l, n, t.height, if Height(r.left) > Height(r.right) then TurnedRight(r) else r))
    else t
  }

  lemma {:induction false} BalancedShape(l: Places, n: Node, r: Places)
    requires S.Rotatable(Shape(l), Shape(r))
    ensures Shape(Balanced(l, n, r)) == S.Balance(Shape(l), n.key, Shape(r))
    ensures Line(Balanced(l, n, r)) == Line(l) + [n] + Line(r)
  {
    var t := Fixed(l, n, r);
    if Height(l) - Height(r) == 2 {
      TurnedShapes(l);
      TurnedShapes(Plant(if Height(l.left) < Height(l.right) then TurnedLeft(l) else l, n, t.height, r));
    } else if Height(l) - Height(r) == -2 {
      TurnedShapes(r);
      TurnedShapes(Plant(l, n, t.height, if Height(r.left) > Height(r.right) then TurnedRight(r) else r));
    }
  }

  /** Rebalancing a tree that is balanced changes nothing. */
  lemma {:induction false} BalancedAlready(t: Places)
    requires t.At? && Proper(t) && S.Avl(Shape(t)) && S.Height(Shape(t)) < 255
    ensures S.Rotatable(Shape(t.left), Shape(t.right)) && Balanced(t.left, t.node, t.right) == t
  {
  }

  /** The subtree that a rotation takes apart. */
  ghost function Lowered(l: Places, r: Places): Places {
    if Height(l) - Height(r) == 2 then l else if Height(l) - Height(r) == -2 then r else Nowhere
  }

  /** `node_balance`, on a node whose stored height may be out of date. */
  method Balance(n: Node, ghost l: Places, ghost r: Places, ghost h: Hook, ghost s: Slack)
    returns (m: Node, ghost t: Places)
    requires n.left == Root(l) && n.right == Root(r) && LinkedBut(l, LeftOf(n, h), s) && LinkedBut(r, RightOf(n), s)
    requires n !in Nodes(l) && n !in Nodes(r) && Nodes(l) !! Nodes(r) && Up(n, h, s)
    requires S.Rotatable(Shape(l), Shape(r)) && (s.all || (s.one != n && s.one !in Nodes(Lowered(l, r))))
    modifies {n} + Nodes(Lowered(l, r))
    ensures t == Balanced(l, n, r) && m == t.node && LinkedBut(t, h, s)
    ensures Nodes(t) == Nodes(l) + {n} + Nodes(r)
    ensures Height(l) - Height(r) != -2 ==> (n.left == null || n.left in Nodes(l)) && n.right == Root(r)
  {
    n.height := Above(HeightOf(n.left), HeightOf(n.right));
    t := Fixed(l, n, r);
    Assemble(l, n, t.height, r, h, s);
    if HeightOf(n.left) - HeightOf(n.right) == 2 {
      m, t := LowerLeft(n, t, h, s);
    } else if HeightOf(n.left) - HeightOf(n.right) == -2 {
      m, t := LowerRight(n, t, h, s);
    } else {
      m := n;
    }
  }

  method LowerLeft(n: Node, ghost t: Places, ghost h: Hook, ghost s: Slack) returns (m: Node, ghost u: Places)
    requires t.At? && t.node == n && t.left.At? && LinkedBut(t, h, s)
             && (s.all || (s.one != n && s.one !in Nodes(t.left)))
    requires Height(t.left.left) < Height(t.left.right) ==> t.left.right.At?
    modifies {n} + Nodes(t.left)
    ensures var l := t.left;
            u == TurnedRight(Plant(if Height(l.left) < Height(l.right) then TurnedLeft(l) else l, n, t.height, t.right))
    ensures m == u.node && LinkedBut(u, h, s) && Nodes(u) == Nodes(t)
    ensures (n.left == null || n.left in Nodes(t.left)) && n.right == Root(t.right)
  {
    ghost var l := t.left;
    RootHeights(t, h, s);
    RootHeights(l, LeftOf(n, h), s);
    u := t;
    if HeightOf(n.left.left) < HeightOf(n.left.right) {
      RootIsIn(l.right);
      RootIsIn(l.right.left);
      n.left := TurnLeft(n.left, l, LeftOf(n, h), s);
      u := Plant(TurnedLeft(l), n, t.height, t.right);
      Assemble(TurnedLeft(l), n, t.height, t.right, h, s);
    }
    RootHeights(u, h, s);
    RootIsIn(u.left);
    RootIsIn(u.left.right);
    m := TurnRight(n, u, h, s);
    u := TurnedRight(u);
  }

  method LowerRight(n: Node, ghost t: Places, ghost h: Hook, ghost s: Slack) returns (m: Node, ghost u: Places)
    requires t.At? && t.node == n && t.right.At? && LinkedBut(t, h, s)
             && (s.all || (s.one != n && s.one !in Nodes(t.right)))
    requires Height(t.right.left) > Height(t.right.right) ==> t.right.left.At?
    modifies {n} + Nodes(t.right)
    ensures var r := t.right;
            u == TurnedLeft(Plant(t.left, n, t.height, if Height(r.left) > Height(r.right) then TurnedRight(r) else r))
    ensures m == u.node && LinkedBut(u, h, s) && Nodes(u) == Nodes(t)
  {
    ghost var r := t.right;
    RootHeights(t, h, s);
    RootHeights(r, RightOf(n), s);
    u := t;
    if HeightOf(n.right.left) > HeightOf(n.right.right) {
      RootIsIn(r.left);
      RootIsIn(r.left.right);
      n.right := TurnRight(n.right, r, RightOf(n), s);
      u := Plant(t.left, n, t.height, TurnedRight(r));
      Assemble(t.left, n, t.height, TurnedRight(r), h, s);
    }
    RootHeights(u, h, s);
    RootIsIn(u.right);
    RootIsIn(u.right.left);
    m := TurnLeft(n, u, h, s);
    u := TurnedLeft(u);
  }

  // ---------------------------------------------------------------- insertion

  /** `n` is put into a line of nodes at position `i`. */
  ghost predicate IsPutIn(line: seq<Node>, r: seq<Node>, n: Node, i: nat) {
    i <= |line| && r == line[..i] + [n] + line[i..]
  }

  /** Position `i` is where `k` belongs: after the keys that are not greater, before the greater ones. */
  ghost predicate IsRank(line: seq<Node>, k: int, i: nat) {
    && i <= |line|
    && (forall p :: 0 <= p < i ==> line[p].key <= k)
    && (forall p :: i <= p < |line| ==> k < line[p].key)
  }

  /** The keys along the line are the keys of the shape. */
  lemma {:induction false} KeysOfLine(t: Places)
    ensures |Line(t)| == S.Size(Shape(t))
    ensures forall i :: 0 <= i < |Line(t)| ==> Line(t)[i].key == S.InOrder(Shape(t))[i]
  {
    if t.At? {
      KeysOfLine(t.left);
      KeysOfLine(t.right);
    }
  }

  /** The new node follows every node whose key is not greater and precedes the rest, whose order is as before. */
  ghost predicate GainsInOrder(line: seq<Node>, r: seq<Node>, x: Node) {
    exists i: nat :: IsPutIn(line, r, x, i) && IsRank(line, x.key, i)
  }

  /** The keys on either side of the root, in a tree in order. */
  lemma {:induction false} LineAroundRoot(t: Places)
    requires t.At? && S.Sorted(S.InOrder(Shape(t)))
    ensures S.Sorted(S.InOrder(Shape(t.left))) && S.Sorted(S.InOrder(Shape(t.right)))
    ensures forall p :: 0 <= p < |Line(t.left)| ==> Line(t.left)[p].key <= t.node.key
    ensures forall p :: 0 <= p < |Line(t.right)| ==> t.node.key <= Line(t.right)[p].key
  {
    KeysOfLine(t.left);
    KeysOfLine(t.right);
    S.SortedParts(S.InOrder(Shape(t.left)), t.node.key, S.InOrder(Shape(t.right)));
  }

  lemma FirstPartGains(a: seq<Node>, y: Node, b: seq<Node>, r: seq<Node>, x: Node)
    requires GainsInOrder(a, r, x) && x.key < y.key && forall p :: 0 <= p < |b| ==> y.key <= b[p].key
    ensures GainsInOrder(a + [y] + b, r + [y] + b, x)
  {
    var s := a + [y] + b;
    var i: nat :| IsPutIn(a, r, x, i) && IsRank(a, x.key, i);
    assert s[..i] == a[..i] && s[i..] == a[i..] + [y] + b;
    assert IsPutIn(s, r + [y] + b, x, i) && IsRank(s, x.key, i);
  }

  lemma LastPartGains(a: seq<Node>, y: Node, b: seq<Node>, r: seq<Node>, x: Node)
    requires GainsInOrder(b, r, x) && x.key >= y.key && forall p :: 0 <= p < |a| ==> a[p].key <= y.key
    ensures GainsInOrder(a + [y] + b, a + [y] + r, x)
  {
    var s := a + [y] + b;
    var i: nat :| IsPutIn(b, r, x, i) && IsRank(b, x.key, i);
    var j := |a| + 1 + i;
    assert s[..j] == a + [y] + b[..i] && s[j..] == b[i..];
    assert IsPutIn(s, a + [y] + r, x, j);
    assert IsRank(s, x.key, j);
  }

  /** Where the nodes hang once `x` has been inserted. */
  ghost function Inserted(t: Places, x: Node): (u: Places)
    requires S.Avl(Shape(t)) && S.Height(Shape(t)) < 254
    ensures Shape(u) == S.Insert(Shape(t), x.key)
  {
    if t.Nowhere? then Plant(Nowhere, x, 1, Nowhere)
    else if x.key < t.node.key then
      var l := Inserted(t.left, x);
      S.BalanceRestores(Shape(l), t.node.key, Shape(t.right));
      BalancedShape(l, t.node, t.right);
      Balanced(l, t.node, t.right)
    else
      var r := Inserted(t.right, x);
      S.BalanceRestores(Shape(t.left), t.node.key, Shape(r));
      BalancedShape(t.left, t.node, r);
      Balanced(t.left, t.node, r)
  }

  /** Rebalancing is possible after the insertion into either side. */
  lemma {:induction false} LeftInsertedStep(t: Places, x: Node)
    requires t.At? && x.key < t.node.key && S.Avl(Shape(t)) && S.Height(Shape(t)) < 254
    ensures S.Avl(Shape(t.left)) && S.Height(Shape(t.left)) < 254
            && S.Rotatable(Shape(Inserted(t.left, x)), Shape(t.right))
    ensures Inserted(t, x) == Balanced(Inserted(t.left, x), t.node, t.right)
  {
    S.BalanceRestores(Shape(Inserted(t.left, x)), t.node.key, Shape(t.right));
  }

  lemma {:induction false} RightInsertedStep(t: Places, x: Node)
    requires t.At? && x.key >= t.node.key && S.Avl(Shape(t)) && S.Height(Shape(t)) < 254
    ensures S.Avl(Shape(t.right)) && S.Height(Shape(t.right)) < 254
            && S.Rotatable(Shape(t.left), Shape(Inserted(t.right, x)))
    ensures Inserted(t, x) == Balanced(t.left, t.node, Inserted(t.right, x))
  {
    S.BalanceRestores(Shape(t.left), t.node.key, Shape(Inserted(t.right, x)));
  }

  lemma WithOneMore(a: set<Node>, n: Node, b: set<Node>, x: Node)
    ensures (a + {x}) + {n} + b == (a + {n} + b) + {x} && a + {n} + (b + {x}) == (a + {n} + b) + {x}
  {
  }

  /** The line after an insertion, one level down. */
  lemma {:induction false} InsertedStep(t: Places, x: Node)
    requires t.At? && S.Avl(Shape(t)) && S.Height(Shape(t)) < 254
    ensures S.Avl(Shape(t.left)) && S.Height(Shape(t.left)) < 254 && S.Avl(Shape(t.right))
            && S.Height(Shape(t.right)) < 254
    ensures Line(Inserted(t, x)) == if x.key < t.node.key then Line(Inserted(t.left, x)) + [t.node] + Line(t.right)
                                    else Line(t.left) + [t.node] + Line(Inserted(t.right, x))
  {
    if x.key < t.node.key {
      LeftInsertedStep(t, x);
      BalancedShape(Inserted(t.left, x), t.node, t.right);
    } else {
      RightInsertedStep(t, x);
      BalancedShape(t.left, t.node, Inserted(t.right, x));
    }
  }

  /** Insertion does not change the order of the other nodes, and puts the new one where its key belongs. */
  lemma {:induction false} InsertedLine(t: Places, x: Node)
    requires S.Avl(Shape(t)) && S.Height(Shape(t)) < 254 && S.Sorted(S.InOrder(Shape(t)))
    ensures GainsInOrder(Line(t), Line(Inserted(t, x)), x)
  {
    if t.Nowhere? {
      assert IsPutIn([], [x], x, 0) && IsRank([], x.key, 0);
    } else {
      InsertedStep(t, x);
      LineAroundRoot(t);
      if x.key < t.node.key {
        InsertedLine(t.left, x);
        FirstPartGains(Line(t.left), t.node, Line(t.right), Line(Inserted(t.left, x)), x);
      } else {
        InsertedLine(t.right, x);
        LastPartGains(Line(t.left), t.node, Line(t.right), Line(Inserted(t.right, x)), x);
      }
    }
  }

  /** `node_insert`: the links stay as exact as they were. The argument `parent` matters only for a missing subtree. */
  method Insert(n: Node?, parent: Node?, k: int, ghost t: Places, ghost h: Hook, ghost s: Slack)
    returns (m: Node, inserted: Node)
    requires n == Root(t) && LinkedBut(t, h, s) && (s.all || s.one == null) && (n == null ==> parent == h.parent)
    requires S.Avl(Shape(t)) && S.Height(Shape(t)) < 254
    modifies Nodes(t)
    ensures fresh(inserted) && inserted.key == k
    ensures var u := Inserted(t, inserted);
            LinkedBut(u, h, s) && m == Root(u) && Nodes(u) == Nodes(t) + {inserted}
    decreases t, 2
  {
    if n == null {
      m := new Node(k);
      m.parent := parent;
      inserted := m;
    } else if k < n.key {
      m, inserted := InsertBelowLeft(n, k, t, h, s);
    } else {
      m, inserted := InsertBelowRight(n, k, t, h, s);
    }
  }

  method InsertBelowLeft(n: Node, k: int, ghost t: Places, ghost h: Hook, ghost s: Slack)
    returns (m: Node, inserted: Node)
    requires n == Root(t) && LinkedBut(t, h, s) && (s.all || s.one == null)
    requires S.Avl(Shape(t)) && S.Height(Shape(t)) < 254 && k < n.key
    modifies Nodes(t)
    ensures fresh(inserted) && inserted.key == k
    ensures var u := Inserted(t, inserted);
            LinkedBut(u, h, s) && m == Root(u) && Nodes(u) == Nodes(t) + {inserted}
    decreases t, 1
  {
    RootHeights(t, h, s);
    inserted := InsertIntoLeft(n, k, t, h, s);
    LeftInsertedStep(t, inserted);
    WithOneMore(Nodes(t.left), n, Nodes(t.right), inserted);
    ghost var u;
    m, u := Balance(n, Inserted(t.left, inserted), t.right, h, s);
  }

  /** The first half of the step: the left child link of `n` leads to the grown subtree, and the right side is
      untouched. */
  method InsertIntoLeft(n: Node, k: int, ghost t: Places, ghost h: Hook, ghost s: Slack) returns (inserted: Node)
    requires n == Root(t) && LinkedBut(t, h, s) && (s.all || s.one == null)
    requires S.Avl(Shape(t.left)) && S.Height(Shape(t.left)) < 254
    modifies Nodes(t.left), n`left
    ensures fresh(inserted) && inserted.key == k
    ensures var l := Inserted(t.left, inserted);
            LinkedBut(l, LeftOf(n, h), s) && n.left == Root(l) && Nodes(l) == Nodes(t.left) + {inserted}
    ensures LinkedBut(t.right, RightOf(n), s) && Up(n, h, s)
    decreases t, 0
  {
    RootHeights(t, h, s);
    n.left, inserted := Insert(n.left, n, k, t.left, LeftOf(n, h), s);
  }

  method InsertBelowRight(n: Node, k: int, ghost t: Places, ghost h: Hook, ghost s: Slack)
    returns (m: Node, inserted: Node)
    requires n == Root(t) && LinkedBut(t, h, s) && (s.all || s.one == null)
    requires S.Avl(Shape(t)) && S.Height(Shape(t)) < 254 && k >= n.key
    modifies Nodes(t)
    ensures fresh(inserted) && inserted.key == k
    ensures var u := Inserted(t, inserted);
            LinkedBut(u, h, s) && m == Root(u) && Nodes(u) == Nodes(t) + {inserted}
    decreases t, 1
  {
    RootHeights(t, h, s);
    inserted := InsertIntoRight(n, k, t, h, s);
    RightInsertedStep(t, inserted);
    WithOneMore(Nodes(t.left), n, Nodes(t.right), inserted);
    ghost var u;
    m, u := Balance(n, t.left, Inserted(t.right, inserted), h, s);
  }

  method InsertIntoRight(n: Node, k: int, ghost t: Places, ghost h: Hook, ghost s: Slack) returns (inserted: Node)
    requires n == Root(t) && LinkedBut(t, h, s) && (s.all || s.one == null)
    requires S.Avl(Shape(t.right)) && S.Height(Shape(t.right)) < 254
    modifies Nodes(t.right), n`right
    ensures fresh(inserted) && inserted.key == k
    ensures var r := Inserted(t.right, inserted);
            LinkedBut(r, RightOf(n), s) && n.right == Root(r) && Nodes(r) == Nodes(t.right) + {inserted}
    ensures LinkedBut(t.left, LeftOf(n, h), s) && Up(n, h, s)
    decreases t, 0
  {
    RootHeights(t, h, s);
    n.right, inserted := Insert(n.right, n, k, t.right, RightOf(n), s);
  }

  // ---------------------------------------------------------------- the leftmost node

  /** The subtree of the leftmost node. */
  ghost function Least(t: Places): (s: Places)
    requires t.At?
    ensures s.At? && s.left.Nowhere? && s.node.key == S.Leftmost(Shape(t))
  {
    if t.left.At? then Least(t.left) else t
  }

  /** `node_leftmost`. */
  method Leftmost(n: Node, ghost t: Places) returns (r: Node)
    requires n == Root(t) && Proper(t) && Children(t)
    ensures r == Least(t).node == Line(t)[0]
    decreases t
  {
    if n.left != null {
      r := Leftmost(n.left, t.left);
    } else {
      r := n;
    }
  }
}
