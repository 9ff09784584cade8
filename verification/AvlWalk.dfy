/** When walking the tree is right (supertel/lib/avl-tree.c): exactly when the parent links are exact, and after a
    removal from a tree with exact links exactly when no parent was lost. */
module AvlWalks {
  import S = AvlShape
  import opened AvlHeap
  import opened AvlTraversal
  import opened AvlRemoval

  ghost function End(t: Places, f: Spot): nat { f.lo + |Line(t)| }

  /** A climb out of a subtree, or from its anchor, does not end within it. */
  ghost predicate LeadsOn(t: Places, f: Spot) { End(t, f) <= f.exit && End(t, f) <= f.far }

  // ---------------------------------------------------------------- successors

  lemma {:induction false} NextGoesOn(t: Places, w: set<Node>, f: Spot, i: nat, last: nat)
    requires LeadsOn(t, f) && f.lo <= i < End(t, f) && f.exit <= last && f.far <= last
    ensures i < NextAt(t, w, f, i) <= last
  {
    var p := f.lo + |Line(t.left)|;
    if i < p {
      NextGoesOn(t.left, w, LeftSpot(t, w, f), i, last);
    } else if i > p {
      NextGoesOn(t.right, w, RightSpot(t, f), i, last);
    }
  }

  lemma {:induction false} NextIsRight(t: Places, w: set<Node>, f: Spot, i: nat)
    requires Proper(t) && w !! Nodes(t) && f.exit == End(t, f) && f.lo <= i < End(t, f)
    ensures NextAt(t, w, f, i) == i + 1
  {
    RootIsIn(t.left);
    var p := f.lo + |Line(t.left)|;
    if i < p {
      NextIsRight(t.left, w, LeftSpot(t, w, f), i);
    } else if i > p {
      NextIsRight(t.right, w, RightSpot(t, f), i);
    } else {
      assert |Line(t)| == |Line(t.left)| + 1 + |Line(t.right)|;
    }
  }

  /** From the last node of a subtree one climbs out of it. */
  lemma {:induction false} LastExits(t: Places, w: set<Node>, f: Spot)
    requires t.At?
    ensures NextAt(t, w, f, End(t, f) - 1) == f.exit
  {
    assert |Line(t)| == |Line(t.left)| + 1 + |Line(t.right)|;
    if t.right.At? {
      assert |Line(t.right)| > 0;
      LastExits(t.right, w, RightSpot(t, f));
    }
  }

  /** A wrong link spoils a successor: that of the last node below it. */
  lemma {:induction false} NextIsWrong(t: Places, w: set<Node>, f: Spot) returns (i: nat)
    requires Walkable(t, f.hook, w) && t.At? && t.node !in w && !(w !! Nodes(t)) && LeadsOn(t, f)
    ensures f.lo <= i < End(t, f) && NextAt(t, w, f, i) != i + 1
  {
    if t.left.At? && t.left.node in w {
      LastExits(t.left, w, LeftSpot(t, w, f));
      i := f.lo + |Line(t.left)| - 1;
    } else if !(w !! Nodes(t.left)) {
      i := NextIsWrong(t.left, w, LeftSpot(t, w, f));
    } else {
      i := NextIsWrong(t.right, w, RightSpot(t, f));
    }
  }

  ghost predicate NextAllRight(t: Places, w: set<Node>) {
    forall i: nat :: i < |Line(t)| ==> NextPos(t, w, i) == i + 1
  }

  /** The successor is right from every node if and only if the parent links are exact. */
  lemma {:induction false} NextIsRightExactly(t: Places, w: set<Node>)
    requires Walkable(t, TOP, w)
    ensures NextAllRight(t, w) <==> Exact(t, null)
  {
    ExactIfNoneWrong(t, TOP, w);
    if w !! Nodes(t) {
      forall i: nat | i < |Line(t)| ensures NextPos(t, w, i) == i + 1 { NextIsRight(t, w, Top(t), i); }
    } else {
      var i := NextIsWrong(t, w, Top(t));
      assert NextPos(t, w, i) != i + 1;
    }
  }

  // ---------------------------------------------------------------- predecessors

  /** Every node whose link leads to an anchor has a left child. */
  ghost predicate Backed(t: Places, h: Hook, w: set<Node>) {
    t.At? ==>
      && (t.node in w && h.anchor != null ==> t.left.At?)
      && Backed(t.left, LeftOf(t.node, h), w) && Backed(t.right, RightOf(t.node), w)
  }

  /** The subtree of an anchor starts before what hangs on its right. */
  ghost predicate StartsBefore(f: Spot) {
    if f.hook.anchor == null then f.start == f.lo == 0 else f.start < f.lo
  }

  lemma {:induction false} PrevIsRight(t: Places, w: set<Node>, f: Spot, i: nat)
    requires Backed(t, f.hook, w) && StartsBefore(f) && f.lo <= i < End(t, f)
    ensures PrevAt(t, w, f, i) == i - 1
  {
    var p := f.lo + |Line(t.left)|;
    if i < p {
      PrevIsRight(t.left, w, LeftSpot(t, w, f), i);
    } else if i > p {
      PrevIsRight(t.right, w, RightSpot(t, f), i);
    }
  }

  lemma {:induction false} PrevIsWrong(t: Places, w: set<Node>, f: Spot) returns (i: nat)
    requires !Backed(t, f.hook, w) && StartsBefore(f)
    ensures f.lo <= i < End(t, f) && PrevAt(t, w, f, i) != i - 1
  {
    if t.node in w && f.hook.anchor != null && t.left.Nowhere? {
      i := f.lo;
    } else if !Backed(t.left, LeftOf(t.node, f.hook), w) {
      i := PrevIsWrong(t.left, w, LeftSpot(t, w, f));
    } else {
      i := PrevIsWrong(t.right, w, RightSpot(t, f));
    }
  }

  ghost predicate PrevAllRight(t: Places, w: set<Node>) {
    forall i: nat :: i < |Line(t)| ==> PrevPos(t, w, i) == i - 1
  }

  /** The predecessor is right from every node if and only if each node with a wrong link has a left child. */
  lemma {:induction false} PrevIsRightExactly(t: Places, w: set<Node>)
    ensures PrevAllRight(t, w) <==> Backed(t, TOP, w)
  {
    if Backed(t, TOP, w) {
      forall i: nat | i < |Line(t)| ensures PrevPos(t, w, i) == i - 1 { PrevIsRight(t, w, Top(t), i); }
    } else {
      var i: int := PrevIsWrong(t, w, Top(t));
      assert PrevPos(t, w, i) != i - 1;
    }
  }

  lemma {:induction false} ExactIsBacked(t: Places, h: Hook, w: set<Node>)
    requires Proper(t) && w !! Nodes(t)
    ensures Backed(t, h, w)
  {
    if t.At? {
      ExactIsBacked(t.left, LeftOf(t.node, h), w);
      ExactIsBacked(t.right, RightOf(t.node), w);
    }
  }

  // ---------------------------------------------------------------- after a removal

  /** The node above a subtree has it for a child. */
  ghost predicate Hangs(t: Places, h: Hook)
    reads {h.parent}
  {
    t.At? && h.parent != null ==> h.parent.left == t.node || h.parent.right == t.node
  }

  /** The links that a removal leaves, which lead to no removed node. */
  lemma {:induction false} OneAstray(t: Places, h: Hook, s: Slack, w: set<Node>)
    requires LinkedBut(t, h, s) && !s.all && Hangs(t, h) && w == (if s.one == null then {} else {s.one})
    requires s.one != null ==> Misplaced(s.one) && s.one.parent !in s.dead
    ensures Walkable(t, h, w)
  {
    if t.At? {
      OneAstray(t.left, LeftOf(t.node, h), s, w);
      OneAstray(t.right, RightOf(t.node), s, w);
    }
  }

  /** The misplaced node has no left child. */
  lemma {:induction false} MisplacedIsBare(t: Places, h: Hook, w: set<Node>, e: Node)
    requires Walkable(t, h, w) && w == {e} && e in Nodes(t) && Misplaced(e)
    ensures !Backed(t, h, w)
  {
    if t.node != e {
      if e in Nodes(t.left) {
        MisplacedIsBare(t.left, LeftOf(t.node, h), w, e);
      } else {
        MisplacedIsBare(t.right, RightOf(t.node), w, e);
      }
    }
  }

  /** Where the links lead after a removal from a tree with exact links. */
  ghost function Strays(t: Places, k: int): set<Node> {
    if Stale(t, k) == null then {} else {Stale(t, k)}
  }

  /** After a removal from a tree with exact links, the successor is right from every node if and only if no parent was
      lost, and so is the predecessor. */
  lemma {:induction false} WalkAfterRemovalExactly(t: Places, k: int, s: Slack, m: Node?)
    requires S.Avl(Shape(t)) && S.Height(Shape(t)) < 255 && Leaves(t, k, TOP, s, m)
    requires !s.all && (s.dead + Gone(t, k)) !! Nodes(Removed(t, k))
    ensures var u, w := Removed(t, k), Strays(t, k);
            && Walkable(u, TOP, w)
            && (NextAllRight(u, w) <==> !LosesParent(Shape(t), k))
            && (PrevAllRight(u, w) <==> !LosesParent(Shape(t), k))
  {
    var u, w := Removed(t, k), Strays(t, k);
    OneAstray(u, TOP, AfterRemoval(s, t, k), w);
    NextIsRightExactly(u, w);
    ExactAfterRemovalExactly(t, k, s, m);
    PrevIsRightExactly(u, w);
    StaleExactly(t, k);
    if Stale(t, k) == null {
      ExactIsBacked(u, TOP, w);
    } else {
      MisplacedIsBare(u, TOP, w, Stale(t, k));
    }
  }

  // ---------------------------------------------------------------- whole walks

  /** The nodes that one visits from position `i` on. */
  ghost function Walked(t: Places, w: set<Node>, i: nat): seq<Node>
    decreases |Line(t)| - i
  {
    if i >= |Line(t)| then []
    else
      var j := NextPos(t, w, i);
      [Line(t)[i]] + if j <= i then [] else Walked(t, w, j)
  }

  lemma {:induction false} WalkedIsShort(t: Places, w: set<Node>, i: nat)
    ensures |Walked(t, w, i)| <= if i < |Line(t)| then |Line(t)| - i else 0
    decreases |Line(t)| - i
  {
    if i < |Line(t)| && NextPos(t, w, i) > i { WalkedIsShort(t, w, NextPos(t, w, i)); }
  }

  lemma {:induction false} WalkedIsWhole(t: Places, w: set<Node>, i: nat)
    requires NextAllRight(t, w) && i <= |Line(t)|
    ensures Walked(t, w, i) == Line(t)[i..]
    decreases |Line(t)| - i
  {
    if i < |Line(t)| {
      WalkedIsWhole(t, w, i + 1);
      assert NextPos(t, w, i) == i + 1;
    }
  }

  lemma {:induction false} WalkedSkips(t: Places, w: set<Node>, i: nat, j: nat)
    requires j <= i < |Line(t)| && NextPos(t, w, i) != i + 1
    ensures |Walked(t, w, j)| < |Line(t)| - j
    decreases i - j
  {
    var next := NextPos(t, w, j);
    NextGoesOn(t, w, Top(t), j, |Line(t)|);
    if next == j + 1 {
      WalkedSkips(t, w, i, j + 1);
    } else {
      WalkedIsShort(t, w, next);
    }
  }

  /** A walk from the first node on visits every node, in order, if and only if the parent links are exact. */
  lemma {:induction false} WalkIsWholeExactly(t: Places, w: set<Node>)
    requires Walkable(t, TOP, w)
    ensures Walked(t, w, 0) == Line(t) <==> Exact(t, null)
  {
    NextIsRightExactly(t, w);
    if NextAllRight(t, w) {
      WalkedIsWhole(t, w, 0);
      assert Line(t)[0..] == Line(t);
    } else {
      var i: nat :| i < |Line(t)| && NextPos(t, w, i) != i + 1;
      WalkedSkips(t, w, i, 0);
    }
  }

  /** The nodes whose links lead to their anchors, where none leads to a removed node. */
  lemma {:induction false} FindAstray(t: Places, h: Hook, s: Slack) returns (w: set<Node>)
    requires LinkedBut(t, h, s) && (s.all || s.one == null) && forall n :: n in Nodes(t) ==> n.parent !in s.dead
    ensures Walkable(t, h, w) && w <= Nodes(t)
  {
    w := {};
    if t.At? {
      var a := FindAstray(t.left, LeftOf(t.node, h), s);
      var b := FindAstray(t.right, RightOf(t.node), s);
      w := a + b + if t.node.parent == h.parent then {} else {t.node};
      SameUpward(t.left, LeftOf(t.node, h), a, w);
      SameUpward(t.right, RightOf(t.node), b, w);
    }
  }

  lemma {:induction false} SameUpward(t: Places, h: Hook, w: set<Node>, w': set<Node>)
    requires Proper(t) && forall n :: n in Nodes(t) ==> (n in w <==> n in w')
    ensures Upward(t, h, w) == Upward(t, h, w')
  {
    if t.At? {
      SameUpward(t.left, LeftOf(t.node, h), w, w');
      SameUpward(t.right, RightOf(t.node), w, w');
    }
  }

  // ---------------------------------------------------------------- a walk that ends too early

  /** The seven nodes of a tree after the removal of its root. */
  lemma {:induction false} SevenWithoutRoot(t: Places, a: int, b: int, c: int, d: int, e: int, f: int, g: int)
    requires Shape(t) == SevenTree(a, b, c, d, e, f, g) && S.Avl(Shape(t))
    ensures t.At? && t.right.At? && t.right.left.At? && t.right.left.right.At?
    ensures Stale(t, c) == t.right.left.right.node
    ensures var r := t.right; Removed(t, c) == Fixed(t.left, r.left.node, Fixed(r.left.right, r.node, r.right))
  {
    var r := t.right;
    assert Shape(r.left) == S.Node(S.Leaf, d, 2, One(e)) && Shape(r.right) == One(g);
    LeastStep(r);
    assert WithoutLeast(r.left) == r.left.right && Height(r.left.right) == Height(r.right) == 1;
    RootStep(t);
    assert Height(t.left) == 2 && Height(WithoutLeast(r)) == 2;
  }

  lemma LineOfLeaf(t: Places, k: int)
    requires Shape(t) == One(k)
    ensures t.At? && Line(t) == [t.node] && t.node.key == k && t.left.Nowhere? && t.right.Nowhere?
  {
  }

  /** Where the smallest, the second, the fourth, the fifth and the two largest of seven keys remain, the successor of
      the fifth is taken to be null: the two largest are never visited. */
  lemma {:induction false} SevenKeysCutTheWalk(t: Places, a: int, b: int, c: int, d: int, e: int, f: int, g: int)
    requires a < b < c < d < e < f < g && Proper(t) && Shape(t) == SevenTree(a, b, c, d, e, f, g) && S.Avl(Shape(t))
    ensures var u, w := Removed(t, c), Strays(t, c);
            && |Line(u)| == 6 && Line(u)[3].key == e && Line(u)[4].key == f && Line(u)[5].key == g
            && NextPos(u, w, 3) == 6
  {
    SevenWithoutRoot(t, a, b, c, d, e, f, g);
    var r := t.right;
    var x := r.left.right;
    LineOfLeaf(x, e);
    LineOfLeaf(r.right, g);
    LineOfLeaf(t.left.left, a);
    assert Line(t.left) == [t.left.left.node, t.left.node];
    var v := Fixed(x, r.node, r.right);
    assert Line(v) == [x.node, r.node, r.right.node];
    assert Line(Removed(t, c)) == Line(t.left) + [r.left.node] + Line(v);

    var u, w := Removed(t, c), Strays(t, c);
    var right := RightSpot(u, Top(u));
    assert NextAt(u, w, Top(u), 3) == NextAt(v, w, right, 3);
    assert LeftSpot(v, w, right).exit == 6;
    assert NextAt(v, w, right, 3) == NextAt(x, w, LeftSpot(v, w, right), 3);
  }
}
