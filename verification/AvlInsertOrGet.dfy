/** Insert-or-get in the heap (supertel/lib/avl-tree.c): an insertion if the key is absent, no change otherwise. */
module AvlInsertOrGet {
  import S = AvlShape
  import opened AvlHeap

  /** Where the nodes hang once `x` has been found or inserted. */
  ghost function Grown(t: Places, x: Node, inserted: bool): Places
    requires S.Avl(Shape(t)) && S.Height(Shape(t)) < 254
  {
    if inserted then Inserted(t, x) else t
  }

  lemma {:induction false} LeftGrownStep(t: Places, x: Node, inserted: bool)
    requires t.At? && x.key < t.node.key && Proper(t) && S.Avl(Shape(t)) && S.Height(Shape(t)) < 254
    ensures S.Avl(Shape(t.left)) && S.Height(Shape(t.left)) < 254
    ensures S.Rotatable(Shape(Grown(t.left, x, inserted)), Shape(t.right))
    ensures Grown(t, x, inserted) == Balanced(Grown(t.left, x, inserted), t.node, t.right)
  {
    if inserted { LeftInsertedStep(t, x); } else { BalancedAlready(t); }
  }

  lemma {:induction false} RightGrownStep(t: Places, x: Node, inserted: bool)
    requires t.At? && x.key >= t.node.key && Proper(t) && S.Avl(Shape(t)) && S.Height(Shape(t)) < 254
    ensures S.Avl(Shape(t.right)) && S.Height(Shape(t.right)) < 254
    ensures S.Rotatable(Shape(t.left), Shape(Grown(t.right, x, inserted)))
    ensures Grown(t, x, inserted) == Balanced(t.left, t.node, Grown(t.right, x, inserted))
  {
    if inserted { RightInsertedStep(t, x); } else { BalancedAlready(t); }
  }

  /** `node_insert_or_get`: the links stay as exact as they were; a present key leaves every link, height and node as
      it was. */
  method InsertOrGet(n: Node?, parent: Node?, k: int, ghost t: Places, ghost h: Hook, ghost s: Slack)
    returns (m: Node, got: Node, inserted: bool)
    requires n == Root(t) && LinkedBut(t, h, s) && (s.all || s.one == null) && (n == null ==> parent == h.parent)
    requires S.Avl(Shape(t)) && S.Height(Shape(t)) < 254
    modifies Nodes(t)
    ensures got.key == k && inserted == !S.Finds(Shape(t), k) && (inserted ==> fresh(got))
    ensures var u := Grown(t, got, inserted);
            LinkedBut(u, h, s) && m == Root(u) && Nodes(u) == Nodes(t) + {got}
    decreases t, 2
  {
    if n == null {
      m := new Node(k);
      m.parent := parent;
      got, inserted := m, true;
    } else if k == n.key {
      RootIsIn(t);
      return n, n, false;
    } else if k < n.key {
      m, got, inserted := FollowLeft(n, k, t, h, s);
    } else {
      m, got, inserted := FollowRight(n, k, t, h, s);
    }
  }

  method FollowLeft(n: Node, k: int, ghost t: Places, ghost h: Hook, ghost s: Slack)
    returns (m: Node, got: Node, inserted: bool)
    requires n == Root(t) && LinkedBut(t, h, s) && (s.all || s.one == null)
    requires S.Avl(Shape(t)) && S.Height(Shape(t)) < 254 && k < n.key
    modifies Nodes(t)
    ensures got.key == k && inserted == !S.Finds(Shape(t), k) && (inserted ==> fresh(got))
    ensures var u := Grown(t, got, inserted);
            LinkedBut(u, h, s) && m == Root(u) && Nodes(u) == Nodes(t) + {got}
    decreases t, 1
  {
    RootHeights(t, h, s);
    got, inserted := GrowLeft(n, k, t, h, s);
    LeftGrownStep(t, got, inserted);
    WithOneMore(Nodes(t.left), n, Nodes(t.right), got);
    ghost var u;
    m, u := Balance(n, Grown(t.left, got, inserted), t.right, h, s);
  }

  method GrowLeft(n: Node, k: int, ghost t: Places, ghost h: Hook, ghost s: Slack) returns (got: Node, inserted: bool)
    requires n == Root(t) && LinkedBut(t, h, s) && (s.all || s.one == null)
    requires S.Avl(Shape(t.left)) && S.Height(Shape(t.left)) < 254
    modifies Nodes(t.left), n`left
    ensures got.key == k && inserted == !S.Finds(Shape(t.left), k) && (inserted ==> fresh(got))
    ensures var l := Grown(t.left, got, inserted);
            LinkedBut(l, LeftOf(n, h), s) && n.left == Root(l) && Nodes(l) == Nodes(t.left) + {got}
    ensures LinkedBut(t.right, RightOf(n), s) && Up(n, h, s) && (got in Nodes(t.left) || fresh(got))
    decreases t, 0
  {
    RootHeights(t, h, s);
    n.left, got, inserted := InsertOrGet(n.left, n, k, t.left, LeftOf(n, h), s);
  }

  method FollowRight(n: Node, k: int, ghost t: Places, ghost h: Hook, ghost s: Slack)
    returns (m: Node, got: Node, inserted: bool)
    requires n == Root(t) && LinkedBut(t, h, s) && (s.all || s.one == null)
    requires S.Avl(Shape(t)) && S.Height(Shape(t)) < 254 && k > n.key
    modifies Nodes(t)
    ensures got.key == k && inserted == !S.Finds(Shape(t), k) && (inserted ==> fresh(got))
    ensures var u := Grown(t, got, inserted);
            LinkedBut(u, h, s) && m == Root(u) && Nodes(u) == Nodes(t) + {got}
    decreases t, 1
  {
    RootHeights(t, h, s);
    got, inserted := GrowRight(n, k, t, h, s);
    RightGrownStep(t, got, inserted);
    WithOneMore(Nodes(t.left), n, Nodes(t.right), got);
    ghost var u;
    m, u := Balance(n, t.left, Grown(t.right, got, inserted), h, s);
  }

  method GrowRight(n: Node, k: int, ghost t: Places, ghost h: Hook, ghost s: Slack) returns (got: Node, inserted: bool)
    requires n == Root(t) && LinkedBut(t, h, s) && (s.all || s.one == null)
    requires S.Avl(Shape(t.right)) && S.Height(Shape(t.right)) < 254
    modifies Nodes(t.right), n`right
    ensures got.key == k && inserted == !S.Finds(Shape(t.right), k) && (inserted ==> fresh(got))
    ensures var r := Grown(t.right, got, inserted);
            LinkedBut(r, RightOf(n), s) && n.right == Root(r) && Nodes(r) == Nodes(t.right) + {got}
    ensures LinkedBut(t.left, LeftOf(n, h), s) && Up(n, h, s) && (got in Nodes(t.right) || fresh(got))
    decreases t, 0
  {
    RootHeights(t, h, s);
    n.right, got, inserted := InsertOrGet(n.right, n, k, t.right, RightOf(n), s);
  }
}
