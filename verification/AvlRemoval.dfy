/** Removal in the heap (supertel/lib/avl-tree.c): what it keeps, and the one parent link it may leave behind. */
module AvlRemoval {
  import opened Common
  import S = AvlShape
  import opened AvlHeap

  // ---------------------------------------------------------------- where the nodes hang afterwards

  ghost function WithoutLeast(t: Places): (u: Places)
    requires t.At? && S.Avl(Shape(t)) && S.Height(Shape(t)) < 255
    ensures Shape(u) == S.RemoveMin(Shape(t))
  {
    if t.left.Nowhere? then t.right
    else
      var l := WithoutLeast(t.left);
      S.BalanceRestores(Shape(l), t.node.key, Shape(t.right));
      BalancedShape(l, t.node, t.right);
      Balanced(l, t.node, t.right)
  }

  ghost function Removed(t: Places, k: int): (u: Places)
    requires S.Avl(Shape(t)) && S.Height(Shape(t)) < 255
    ensures Shape(u) == S.Remove(Shape(t), k)
  {
    if t.Nowhere? then t
    else if k < t.node.key then
      var l := Removed(t.left, k);
      S.BalanceRestores(Shape(l), t.node.key, Shape(t.right));
      BalancedShape(l, t.node, t.right);
      Balanced(l, t.node, t.right)
    else if k > t.node.key then
      var r := Removed(t.right, k);
      S.BalanceRestores(Shape(t.left), t.node.key, Shape(r));
      BalancedShape(t.left, t.node, r);
      Balanced(t.left, t.node, r)
    else if t.right.Nowhere? then t.left
    else
      var r := WithoutLeast(t.right);
      S.BalanceRestores(Shape(t.left), Least(t.right).node.key, Shape(r));
      BalancedShape(t.left, Least(t.right).node, r);
      Balanced(t.left, Least(t.right).node, r)
  }

  /** The node whose parent link is out of date afterwards: the right child of the node that replaces the removed
      one, unless that node was the removed node's own child. */
  ghost function Stale(t: Places, k: int): Node? {
    if t.Nowhere? then null
    else if k < t.node.key then Stale(t.left, k)
    else if k > t.node.key then Stale(t.right, k)
    else if t.right.Nowhere? || t.right.left.Nowhere? then null
    else Root(Least(t.right).right)
  }

  /** The node that is removed, if any. */
  ghost function Gone(t: Places, k: int): set<Node> {
    if t.Nowhere? then {}
    else if k < t.node.key then Gone(t.left, k)
    else if k > t.node.key then Gone(t.right, k)
    else {t.node}
  }

  // ---------------------------------------------------------------- facts about a rebalanced tree

  /** Rebalancing after the left side has shrunk takes the left side apart in no case. */
  lemma {:induction false} LeastStep(t: Places)
    requires t.At? && t.left.At? && S.Avl(Shape(t)) && S.Height(Shape(t)) < 255
    ensures S.Avl(Shape(t.left)) && S.Height(Shape(t.left)) < 255
    ensures S.Rotatable(Shape(WithoutLeast(t.left)), Shape(t.right))
    ensures Height(WithoutLeast(t.left)) - Height(t.right) != 2
    ensures WithoutLeast(t) == Balanced(WithoutLeast(t.left), t.node, t.right)
  {
    S.BalanceRestores(Shape(WithoutLeast(t.left)), t.node.key, Shape(t.right));
  }

  lemma {:induction false} LeastIsIn(t: Places)
    requires t.At? && Proper(t)
    ensures Least(t).node in Nodes(t) && Nodes(Least(t).right) <= Nodes(t) && Least(t).node !in Nodes(Least(t).right)
    ensures Proper(Least(t).right)
  {
    if t.left.At? { LeastIsIn(t.left); }
  }

  // ---------------------------------------------------------------- removal of the minimum

  /** The slack once the least node of `t` has been taken out, below `anchor`, which is about to go: the right child
      of the least node is the one that may hang wrong. */
  ghost function LeastTaken(s: Slack, t: Places, anchor: Node): Slack
    requires t.At?
  {
    Slack(s.all, if s.all then null else Root(Least(t).right), s.dead + {anchor})
  }

  /** The right child of the least node `n` moves up to where `n` was. Its parent link leads to `n`, which becomes its
      anchor. */
  lemma {:induction false} MovesUp(t: Places, n: Node, parent: Node?, s: Slack, s': Slack)
    requires LinkedBut(t, RightOf(n), s) && s.dead <= s'.dead && s.all == s'.all
    requires s.all || (s.one == null && s'.one == Root(t))
    ensures LinkedBut(t, Hook(parent, n), s')
  {
    if t.At? {
      Loosen(t.left, Hook(t.node, n), s, s');
      Loosen(t.right, RightOf(t.node), s, s');
    }
  }

  /** What hangs on the right of a node without a left child is a leaf at most. */
  lemma {:induction false} LeastHasLeaf(t: Places)
    requires t.At? && t.left.Nowhere? && S.Avl(Shape(t))
    ensures t.right.At? ==> t.right.left.Nowhere?
  {
    var s := Shape(t);
    assert S.Avl(s.right) && S.Height(s.right) <= 1;
    if t.right.At? {
      assert S.Avl(s.right.left) && S.Height(s.right.left) == 0;
      assert s.right == Shape(t.right) && s.right.left == Shape(t.right.left);
      assert s.right.left.Leaf?;
    }
  }

  /** What `node_remove_min` leaves where `t` was: the least node is the new anchor, and the right child of the least
      node still has it as parent. */
  ghost predicate LeavesButLeast(t: Places, h: Hook, s: Slack, m: Node?)
    requires t.At? && S.Avl(Shape(t)) && S.Height(Shape(t)) < 255 && h.anchor != null
    reads Nodes(WithoutLeast(t)), {Root(Least(t).right)}
  {
    var u, c := WithoutLeast(t), Root(Least(t).right);
    && m == Root(u) && LinkedBut(u, Hook(h.parent, Least(t).node), LeastTaken(s, t, h.anchor))
    && (c != null ==> c in Nodes(u) && (!s.all ==> c.parent == Least(t).node && c.left == null))
  }

  /** `node_remove_min`. */
  method RemoveMin(n: Node, ghost t: Places, ghost h: Hook, ghost s: Slack) returns (m: Node?)
    requires n == Root(t) && LinkedBut(t, h, s) && (s.all || s.one == null) && h.anchor != null
    requires S.Avl(Shape(t)) && S.Height(Shape(t)) < 255
    modifies Nodes(t)
    ensures LeavesButLeast(t, h, s, m) && Nodes(WithoutLeast(t)) == Nodes(t) - {Least(t).node}
    decreases t, 2
  {
    RootHeights(t, h, s);
    if n.left == null {
      MovesUp(t.right, n, h.parent, s, LeastTaken(s, t, h.anchor));
      RootIsIn(t.right);
      LeastHasLeaf(t);
      m := n.right;
    } else {
      m := RemoveMinBelow(n, t, h, s);
    }
  }

  /** `node_balance` after the left side has shrunk: the left side is left alone. */
  method BalanceLeftShrunk(n: Node, ghost l: Places, ghost r: Places, ghost h: Hook, ghost s: Slack)
    returns (m: Node, ghost t: Places)
    requires n.left == Root(l) && n.right == Root(r) && LinkedBut(l, LeftOf(n, h), s) && LinkedBut(r, RightOf(n), s)
    requires n !in Nodes(l) && n !in Nodes(r) && Nodes(l) !! Nodes(r) && Up(n, h, s)
    requires S.Rotatable(Shape(l), Shape(r)) && Height(l) - Height(r) != 2 && (s.one == null || s.one in Nodes(l))
    modifies {n} + Nodes(r)
    ensures t == Balanced(l, n, r) && m == t.node && LinkedBut(t, h, s)
    ensures Nodes(t) == Nodes(l) + {n} + Nodes(r)
  {
    m, t := Balance(n, l, r, h, s);
  }

  /** `node_balance` after the right side has shrunk: the right side is left alone. */
  method BalanceRightShrunk(n: Node, ghost l: Places, ghost r: Places, ghost h: Hook, ghost s: Slack)
    returns (m: Node, ghost t: Places)
    requires n.left == Root(l) && n.right == Root(r) && LinkedBut(l, LeftOf(n, h), s) && LinkedBut(r, RightOf(n), s)
    requires n !in Nodes(l) && n !in Nodes(r) && Nodes(l) !! Nodes(r) && Up(n, h, s)
    requires S.Rotatable(Shape(l), Shape(r)) && Height(l) - Height(r) != -2 && (s.one == null || s.one in Nodes(r))
    modifies {n} + Nodes(l)
    ensures t == Balanced(l, n, r) && m == t.node && LinkedBut(t, h, s)
    ensures Nodes(t) == Nodes(l) + {n} + Nodes(r)
    ensures (n.left == null || n.left in Nodes(l)) && n.right == Root(r)
  {
    m, t := Balance(n, l, r, h, s);
  }

  method RemoveMinBelow(n: Node, ghost t: Places, ghost h: Hook, ghost s: Slack) returns (m: Node?)
    requires n == Root(t) && n.left != null && LinkedBut(t, h, s) && (s.all || s.one == null) && h.anchor != null
    requires S.Avl(Shape(t)) && S.Height(Shape(t)) < 255
    modifies Nodes(t)
    ensures LeavesButLeast(t, h, s, m) && Nodes(WithoutLeast(t)) == Nodes(t) - {Least(t).node}
    decreases t, 1
  {
    RootHeights(t, h, s);
    LeastStep(t);
    RemoveMinFromLeft(n, t, h, s);
    ghost var u;
    m, u := BalanceLeftShrunk(n, WithoutLeast(t.left), t.right, Hook(h.parent, Least(t).node),
                              LeastTaken(s, t, h.anchor));
  }

  /** The first half of the step: the left child link of `n` leads to what is left, and the right side is untouched. */
  method RemoveMinFromLeft(n: Node, ghost t: Places, ghost h: Hook, ghost s: Slack)
    requires n == Root(t) && n.left != null && LinkedBut(t, h, s) && (s.all || s.one == null) && h.anchor != null
    requires S.Avl(Shape(t.left)) && S.Height(Shape(t.left)) < 255
    modifies Nodes(t.left), n`left
    ensures LeavesButLeast(t.left, LeftOf(n, h), s, n.left)
            && Nodes(WithoutLeast(t.left)) == Nodes(t.left) - {Least(t).node}
    ensures LinkedBut(t.right, RightOf(n), LeastTaken(s, t, h.anchor)) && Least(t).node in Nodes(t.left)
    ensures Up(n, Hook(h.parent, Least(t).node), LeastTaken(s, t, h.anchor))
    decreases t, 0
  {
    RootHeights(t, h, s);
    LeastIsIn(t.left);
    Loosen(t.right, RightOf(n), s, LeastTaken(s, t, h.anchor));
    n.left := RemoveMin(n.left, t.left, LeftOf(n, h), s);
  }

  // ---------------------------------------------------------------- removal

  /** A node without a left child that its parent link leads away from: the node it leads to has it on neither side. */
  ghost predicate Misplaced(e: Node)
    reads e, e.parent
  {
    e.parent != null && e.parent.left != e && e.parent.right != e && e.left == null
  }

  /** The right child of the minimum does not become the root, unless the minimum was the root. */
  lemma {:induction false} LeastNotRoot(t: Places)
    requires t.At? && t.left.At? && Proper(t) && S.Avl(Shape(t)) && S.Height(Shape(t)) < 255
    ensures var c := Root(Least(t).right); c != null ==> Root(WithoutLeast(t)) != c
  {
    LeastStep(t);
    LeastIsIn(t.left);
    RootIsIn(Least(t).right);
    RootIsIn(t.right);
    if t.right.At? { RootIsIn(t.right.left); }
  }

  /** An exception that turns out exact is none. */
  lemma {:induction false} ExactRoot(t: Places, h: Hook, s: Slack, s': Slack)
    requires LinkedBut(t, h, s) && (t.At? ==> t.node.parent == h.parent) && s'.dead == s.dead && s'.all == s.all
    requires s.all || s.one == null || s.one == s'.one || s.one == Root(t)
    ensures LinkedBut(t, h, s')
  {
    if t.At? {
      Loosen(t.left, LeftOf(t.node, h), s, s');
      Loosen(t.right, RightOf(t.node), s, s');
    }
  }

  /** The replacement takes the place of the removed node `n` between its subtrees, and becomes a child of the node that
      the parent link leads to, on the side where `n` was. */
  method Replant(min: Node, left: Node?, parent: Node?, isLeft: bool, ghost n: Node, ghost l: Places, ghost r: Places,
                 ghost h: Hook, ghost s: Slack)
    requires left == Root(l) && min.right == Root(r) && LinkedBut(l, LeftOf(n, h), s) && LinkedBut(r, Hook(n, min), s)
    requires min !in Nodes(l) && min !in Nodes(r) && Nodes(l) !! Nodes(r)
    requires parent != min && parent !in Nodes(l) && parent !in Nodes(r)
    modifies min, {Root(l)}`parent, {Root(r)}`parent, {parent}`left, {parent}`right
    ensures min.left == left && min.right == Root(r) && min.parent == parent && (r.At? ==> r.node.parent == min)
    ensures LinkedBut(l, LeftOf(min, h), s) && LinkedBut(r, RightOf(min), s)
    ensures parent != null ==> if isLeft then parent.right == old(parent.right) else parent.left == old(parent.left)
  {
    RootIsIn(l);
    RootIsIn(r);
    min.left := left;
    min.parent := parent;
    if min.parent != null {
      if isLeft { min.parent.left := min; } else { min.parent.right := min; }
    }
    Adopt(min.left, min, l, LeftOf(n, h), s);
    Adopt(min.right, min, r, Hook(n, min), s);
  }

  /** Rebalancing after the right side has shrunk takes the right side apart in no case. */
  lemma {:induction false} RootStep(t: Places)
    requires t.At? && t.right.At? && S.Avl(Shape(t)) && S.Height(Shape(t)) < 255
    ensures S.Avl(Shape(t.right)) && S.Height(Shape(t.right)) < 255
    ensures S.Rotatable(Shape(t.left), Shape(WithoutLeast(t.right)))
    ensures Height(t.left) - Height(WithoutLeast(t.right)) != -2
    ensures Removed(t, t.node.key) == Balanced(t.left, Least(t.right).node, WithoutLeast(t.right))
  {
    S.BalanceRestores(Shape(t.left), Least(t.right).node.key, Shape(WithoutLeast(t.right)));
  }

  /** The slack after a removal. */
  ghost function AfterRemoval(s: Slack, t: Places, k: int): Slack {
    Slack(s.all, if s.all then null else Stale(t, k), s.dead + Gone(t, k))
  }

  /** What a removal leaves behind where `t` was. Where all links were exact, the one that may be wrong is. */
  ghost predicate Leaves(t: Places, k: int, h: Hook, s: Slack, m: Node?)
    requires S.Avl(Shape(t)) && S.Height(Shape(t)) < 255
    reads Nodes(Removed(t, k)), if Stale(t, k) == null then {} else {Stale(t, k), Stale(t, k).parent}
  {
    var u, e := Removed(t, k), Stale(t, k);
    && m == Root(u) && LinkedBut(u, h, AfterRemoval(s, t, k))
    && (!s.all && e != null ==> e in Nodes(u) && e.parent in Nodes(u) && Misplaced(e))
  }

  /** Take the least node out of the tree `t` on the right of `n`. */
  method TakeLeast(right: Node, ghost t: Places, ghost n: Node, ghost s: Slack) returns (min: Node)
    requires right == Root(t) && LinkedBut(t, RightOf(n), s) && (s.all || s.one == null)
    requires S.Avl(Shape(t)) && S.Height(Shape(t)) < 255
    modifies Nodes(t)
    ensures min == Least(t).node && min in Nodes(t) && Nodes(WithoutLeast(t)) == Nodes(t) - {min}
    ensures LeavesButLeast(t, RightOf(n), s, min.right)
  {
    LeastIsIn(t);
    min := Leftmost(right, t);
    min.right := RemoveMin(right, t, RightOf(n), s);
  }

  /** A value that may be the parent link of a node in its place. */
  ghost predicate MayLead(parent: Node?, h: Hook, s: Slack) {
    parent == h.parent || (s.all && (parent == h.anchor || parent in s.dead))
  }

  /** Put `min` where `n` was, and rebalance. A right child `c` of `min` that has not become the root of `r` keeps
      its parent link to `min`, which is then wrong. */
  method PutAndBalance(min: Node, left: Node?, parent: Node?, isLeft: bool, ghost n: Node, ghost l: Places,
                       ghost r: Places,
                       ghost h: Hook, ghost s: Slack, ghost s': Slack)
    returns (m: Node, ghost u: Places)
    requires left == Root(l) && min.right == Root(r) && LinkedBut(l, LeftOf(n, h), s) && LinkedBut(r, Hook(n, min), s)
    requires min !in Nodes(l) && min !in Nodes(r) && Nodes(l) !! Nodes(r) && MayLead(parent, h, s)
    requires parent != min && parent !in Nodes(l) && parent !in Nodes(r)
    requires S.Rotatable(Shape(l), Shape(r)) && Height(l) - Height(r) != -2
    requires s' == Slack(s.all, if s.one == Root(r) then null else s.one, s.dead)
    requires s.one != null ==> s.one in Nodes(r) && s.one.parent == min && s.one.left == null
    modifies {min} + Nodes(l), {Root(r)}`parent, {parent}`left, {parent}`right
    ensures u == Balanced(l, min, r) && m == u.node && Nodes(u) == Nodes(l) + {min} + Nodes(r) && LinkedBut(u, h, s')
    ensures s'.one != null ==> s'.one.parent == min && Misplaced(s'.one)
    ensures parent != null ==> if isLeft then parent.right == old(parent.right) else parent.left == old(parent.left)
  {
    RootIsIn(l);
    Replant(min, left, parent, isLeft, n, l, r, h, s);
    ExactRoot(r, RightOf(min), s, s');
    Loosen(l, LeftOf(min, h), s, s');
    m, u := BalanceRightShrunk(min, l, r, h, s');
  }

  /** The node that a removal leaves with a wrong parent link, seen from the root of the removal. */
  lemma {:induction false} StaleAtRoot(t: Places)
    requires t.At? && t.right.At? && Proper(t) && S.Avl(Shape(t)) && S.Height(Shape(t)) < 255
    ensures var c, r := Root(Least(t.right).right), WithoutLeast(t.right);
            Stale(t, t.node.key) == if c == Root(r) then null else c
  {
    RootStep(t);
    if t.right.left.At? { LeastNotRoot(t.right); }
  }

  /** The first half of the step: the least node on the right of `n` is taken out, and the left side is untouched. */
  method TakeLeastOnRight(n: Node, ghost t: Places, ghost h: Hook, ghost s: Slack) returns (min: Node)
    requires n == Root(t) && n.right != null && LinkedBut(t, h, s) && (s.all || s.one == null)
    requires S.Avl(Shape(t.right)) && S.Height(Shape(t.right)) < 255
    modifies Nodes(t.right)
    ensures min == Least(t.right).node && min in Nodes(t.right)
            && Nodes(WithoutLeast(t.right)) == Nodes(t.right) - {min}
    ensures LeavesButLeast(t.right, RightOf(n), s, min.right)
    ensures LinkedBut(t.left, LeftOf(n, h), LeastTaken(s, t.right, n))
  {
    RootHeights(t, h, s);
    Loosen(t.left, LeftOf(n, h), s, LeastTaken(s, t.right, n));
    min := TakeLeast(n.right, t.right, n, s);
  }

  lemma MovedUp(a: set<Node>, n: Node, b: set<Node>, min: Node)
    requires min in b && n !in a && n !in b
    ensures a + {min} + (b - {min}) == (a + {n} + b) - {n}
  {
  }

  /** The nodes outside of `t` that its parent links may lead to: the one above, whose left child it is unless that is
      the anchor; the anchor, whose left side it is not on; and removed ones. */
  ghost predicate Outside(t: Places, h: Hook, s: Slack)
    reads {h.parent, h.anchor}`left
  {
    && h.parent !in Nodes(t) && h.anchor !in Nodes(t) && s.dead !! Nodes(t) && h.parent !in s.dead
        && h.anchor !in s.dead
    && (h.anchor != null ==> h.anchor.left !in Nodes(t))
    && (h.parent != null && h.parent != h.anchor ==> h.parent.left == Root(t))
  }

  /** Where the parent link of the root of `t` leads: outside of `t`, to a node whose child link on the side of the root
      may be written. */
  lemma {:induction false} LeadsOutside(t: Places, h: Hook, s: Slack)
    requires t.At? && LinkedBut(t, h, s) && (s.all || s.one == null) && Outside(t, h, s)
    ensures var w := t.node.parent;
            && MayLead(w, h, s) && w !in Nodes(t)
            && (w != null && w == h.anchor ==> w.left != t.node)
            && (w != null && w == h.parent != h.anchor ==> w.left == t.node)
  {
    RootIsIn(t);
  }

  /** The least node on the right takes the place of the root `n` of `t`. */
  method ReplaceRoot(n: Node, ghost t: Places, ghost h: Hook, ghost s: Slack) returns (m: Node?)
    requires n == Root(t) && n.right != null && LinkedBut(t, h, s) && (s.all || s.one == null) && Outside(t, h, s)
    requires S.Avl(Shape(t)) && S.Height(Shape(t)) < 255
    modifies Nodes(t), {h.parent, h.anchor}`left, {h.parent, h.anchor}`right, s.dead`left, s.dead`right
    ensures Leaves(t, n.key, h, s, m) && Nodes(Removed(t, n.key)) == Nodes(t) - {n}
    ensures h.anchor != null ==> h.anchor.left == old(h.anchor.left)
    ensures h.parent != null && h.parent != h.anchor ==> h.parent.right == old(h.parent.right)
  {
    LeadsOutside(t, h, s);
    var isLeft := n.parent != null && n.parent.left == n;
    m := Succeed(n, isLeft, t, h, s);
  }

  /** What `node_remove` does with a copy of the removed node: take the least node out, then put it in its place. */
  method Succeed(n: Node, isLeft: bool, ghost t: Places, ghost h: Hook, ghost s: Slack) returns (m: Node?)
    requires n == Root(t) && n.right != null && LinkedBut(t, h, s) && (s.all || s.one == null)
    requires S.Avl(Shape(t)) && S.Height(Shape(t)) < 255 && MayLead(n.parent, h, s) && n.parent !in Nodes(t)
    modifies Nodes(t), {n.parent}`left, {n.parent}`right
    ensures Leaves(t, n.key, h, s, m) && Nodes(Removed(t, n.key)) == Nodes(t) - {n}
    ensures var w := old(n.parent);
            w != null ==> if isLeft then w.right == old(n.parent.right) else w.left == old(n.parent.left)
  {
    RootHeights(t, h, s);
    RootStep(t);
    StaleAtRoot(t);
    var left, parent := n.left, n.parent;
    var min := TakeLeastOnRight(n, t, h, s);
    MovedUp(Nodes(t.left), n, Nodes(t.right), min);
    ghost var u;
    m, u := PutAndBalance(min, left, parent, isLeft, n, t.left, WithoutLeast(t.right), h, LeastTaken(s, t.right, n),
                          AfterRemoval(s, t, n.key));
  }

  /** The side that a removal shrinks is not the one a rotation takes apart. */
  lemma {:induction false} LeftRemovedStep(t: Places, k: int)
    requires t.At? && k < t.node.key && S.Avl(Shape(t)) && S.Height(Shape(t)) < 255
    ensures S.Avl(Shape(t.left)) && S.Height(Shape(t.left)) < 255
    ensures S.Rotatable(Shape(Removed(t.left, k)), Shape(t.right)) && Height(Removed(t.left, k)) - Height(t.right) != 2
    ensures Removed(t, k) == Balanced(Removed(t.left, k), t.node, t.right)
  {
    S.BalanceRestores(Shape(Removed(t.left, k)), t.node.key, Shape(t.right));
  }

  lemma {:induction false} RightRemovedStep(t: Places, k: int)
    requires t.At? && k > t.node.key && S.Avl(Shape(t)) && S.Height(Shape(t)) < 255
    ensures S.Avl(Shape(t.right)) && S.Height(Shape(t.right)) < 255
    ensures S.Rotatable(Shape(t.left), Shape(Removed(t.right, k))) && Height(t.left) - Height(Removed(t.right, k)) != -2
    ensures Removed(t, k) == Balanced(t.left, t.node, Removed(t.right, k))
  {
    S.BalanceRestores(Shape(t.left), t.node.key, Shape(Removed(t.right, k)));
  }

  lemma WithoutSome(a: set<Node>, n: Node, b: set<Node>, gone: set<Node>)
    requires n !in gone
    ensures gone !! b ==> (a - gone) + {n} + b == (a + {n} + b) - gone
    ensures gone !! a ==> a + {n} + (b - gone) == (a + {n} + b) - gone
  {
  }

  lemma {:induction false} GoneIsIn(t: Places, k: int)
    requires Proper(t)
    ensures Gone(t, k) <= Nodes(t) && (Gone(t, k) == {} <==> !S.Finds(Shape(t), k))
  {
    if t.At? {
      GoneIsIn(t.left, k);
      GoneIsIn(t.right, k);
    }
  }

  /** Removing an absent key leaves every node in its place. */
  lemma {:induction false} RemovedOfAbsent(t: Places, k: int)
    requires Proper(t) && S.Avl(Shape(t)) && S.Height(Shape(t)) < 255 && !S.Finds(Shape(t), k)
    ensures Removed(t, k) == t
  {
    if t.At? {
      BalancedAlready(t);
      if k < t.node.key {
        LeftRemovedStep(t, k);
        RemovedOfAbsent(t.left, k);
      } else {
        RightRemovedStep(t, k);
        RemovedOfAbsent(t.right, k);
      }
    }
  }

  /** `node_remove`: child links, heights and order are those of `S.Remove`, whatever parent links earlier removals
      have left wrong. On the way a child link of a node outside may be written: that of the node above, on the side
      of `n`, the right one of the anchor, or one of a removed node. */
  method Remove(n: Node?, k: int, ghost t: Places, ghost h: Hook, ghost s: Slack) returns (m: Node?, removed: bool)
    requires n == Root(t) && LinkedBut(t, h, s) && (s.all || s.one == null) && Outside(t, h, s)
    requires S.Avl(Shape(t)) && S.Height(Shape(t)) < 255
    modifies Nodes(t), {h.parent, h.anchor}`left, {h.parent, h.anchor}`right, s.dead`left, s.dead`right
    ensures Leaves(t, k, h, s, m) && Nodes(Removed(t, k)) == Nodes(t) - Gone(t, k) && removed == S.Finds(Shape(t), k)
    ensures h.anchor != null ==> h.anchor.left == old(h.anchor.left)
    ensures h.parent != null && h.parent != h.anchor ==> h.parent.right == old(h.parent.right)
    decreases t, 2
  {
    if n == null {
      return null, false;
    }
    if k < n.key {
      m, removed := RemoveBelowLeft(n, k, t, h, s);
    } else if k > n.key {
      m, removed := RemoveBelowRight(n, k, t, h, s);
    } else if n.right == null {
      RootHeights(t, h, s);
      RootIsIn(t.left);
      m := Unhook(n, t, h, s);
      removed := true;
    } else {
      m := ReplaceRoot(n, t, h, s);
      removed := true;
    }
  }

  /** The left child takes the place of a node without a right child. */
  method Unhook(n: Node, ghost t: Places, ghost h: Hook, ghost s: Slack) returns (m: Node?)
    requires n == Root(t) && n.right == null && LinkedBut(t, h, s) && (s.all || s.one == null)
    requires S.Avl(Shape(t)) && S.Height(Shape(t)) < 255
    modifies {n.left}`parent
    ensures Leaves(t, n.key, h, s, m) && Nodes(Removed(t, n.key)) == Nodes(t) - {n}
  {
    RootHeights(t, h, s);
    RootIsIn(t.left);
    Adopt(n.left, n.parent, t.left, LeftOf(n, h), s);
    TakesPlace(t.left, n, h, s, AfterRemoval(s, t, n.key));
    m := n.left;
  }

  /** A subtree whose root has the parent link of the node above it can take its place. */
  lemma {:induction false} TakesPlace(l: Places, n: Node, h: Hook, s: Slack, s': Slack)
    requires LinkedBut(l, Hook(n.parent, h.anchor), s) && Up(n, h, s) && (l.At? ==> l.node.parent == n.parent)
    requires (s.all || s.one == null) && s'.all == s.all && s.dead <= s'.dead
    ensures LinkedBut(l, h, s')
  {
    if l.At? {
      Loosen(l.left, LeftOf(l.node, h), s, s');
      Loosen(l.right, RightOf(l.node), s, s');
    }
  }

  method RemoveBelowLeft(n: Node, k: int, ghost t: Places, ghost h: Hook, ghost s: Slack)
    returns (m: Node?, removed: bool)
    requires n == Root(t) && k < n.key && LinkedBut(t, h, s) && (s.all || s.one == null) && Outside(t, h, s)
    requires S.Avl(Shape(t)) && S.Height(Shape(t)) < 255
    modifies Nodes(t), {h.anchor}`left, {h.anchor}`right, s.dead`left, s.dead`right
    ensures Leaves(t, k, h, s, m) && Nodes(Removed(t, k)) == Nodes(t) - Gone(t, k) && removed == S.Finds(Shape(t), k)
    ensures h.anchor != null ==> h.anchor.left == old(h.anchor.left)
    decreases t, 1
  {
    RootHeights(t, h, s);
    LeftRemovedStep(t, k);
    GoneIsIn(t.left, k);
    WithoutSome(Nodes(t.left), n, Nodes(t.right), Gone(t, k));
    removed := RemoveFromLeft(n, k, t, h, s);
    ghost var u;
    m, u := BalanceLeftShrunk(n, Removed(t.left, k), t.right, h, AfterRemoval(s, t, k));
  }

  /** The first half of the step: the left child link of `n` leads to what is left, and the right side is untouched. */
  method RemoveFromLeft(n: Node, k: int, ghost t: Places, ghost h: Hook, ghost s: Slack) returns (removed: bool)
    requires n == Root(t) && LinkedBut(t, h, s) && (s.all || s.one == null) && Outside(t, h, s)
    requires S.Avl(Shape(t.left)) && S.Height(Shape(t.left)) < 255
    modifies Nodes(t.left), n`left, n`right, {h.anchor}`left, {h.anchor}`right, s.dead`left, s.dead`right
    ensures Leaves(t.left, k, LeftOf(n, h), s, n.left) && Nodes(Removed(t.left, k)) == Nodes(t.left) - Gone(t.left, k)
    ensures removed == S.Finds(Shape(t.left), k)
    ensures LinkedBut(t.right, RightOf(n), AfterRemoval(s, t.left, k)) && n.right == Root(t.right)
    ensures Up(n, h, AfterRemoval(s, t.left, k)) && Gone(t.left, k) <= Nodes(t.left)
    ensures h.anchor != null ==> h.anchor.left == old(h.anchor.left)
    decreases t, 0
  {
    RootHeights(t, h, s);
    GoneIsIn(t.left, k);
    Loosen(t.right, RightOf(n), s, AfterRemoval(s, t.left, k));
    n.left, removed := Remove(n.left, k, t.left, LeftOf(n, h), s);
  }

  method RemoveBelowRight(n: Node, k: int, ghost t: Places, ghost h: Hook, ghost s: Slack)
    returns (m: Node?, removed: bool)
    requires n == Root(t) && k > n.key && LinkedBut(t, h, s) && (s.all || s.one == null) && Outside(t, h, s)
    requires S.Avl(Shape(t)) && S.Height(Shape(t)) < 255
    modifies Nodes(t), s.dead`left, s.dead`right
    ensures Leaves(t, k, h, s, m) && Nodes(Removed(t, k)) == Nodes(t) - Gone(t, k) && removed == S.Finds(Shape(t), k)
    decreases t, 1
  {
    RootHeights(t, h, s);
    RightRemovedStep(t, k);
    GoneIsIn(t.right, k);
    WithoutSome(Nodes(t.left), n, Nodes(t.right), Gone(t, k));
    removed := RemoveFromRight(n, k, t, h, s);
    ghost var u;
    m, u := BalanceRightShrunk(n, t.left, Removed(t.right, k), h, AfterRemoval(s, t, k));
  }

  method RemoveFromRight(n: Node, k: int, ghost t: Places, ghost h: Hook, ghost s: Slack) returns (removed: bool)
    requires n == Root(t) && LinkedBut(t, h, s) && (s.all || s.one == null) && Outside(t, h, s)
    requires S.Avl(Shape(t.right)) && S.Height(Shape(t.right)) < 255
    modifies Nodes(t.right), n`left, n`right, s.dead`left, s.dead`right
    ensures Leaves(t.right, k, RightOf(n), s, n.right)
            && Nodes(Removed(t.right, k)) == Nodes(t.right) - Gone(t.right, k)
    ensures removed == S.Finds(Shape(t.right), k)
    ensures LinkedBut(t.left, LeftOf(n, h), AfterRemoval(s, t.right, k)) && n.left == Root(t.left)
    ensures Up(n, h, AfterRemoval(s, t.right, k)) && Gone(t.right, k) <= Nodes(t.right)
    decreases t, 0
  {
    RootHeights(t, h, s);
    RootIsIn(t.left);
    GoneIsIn(t.right, k);
    Loosen(t.left, LeftOf(n, h), s, AfterRemoval(s, t.right, k));
    n.right, removed := Remove(n.right, k, t.right, RightOf(n), s);
  }

  // ---------------------------------------------------------------- order

  lemma {:induction false} WithoutLeastLine(t: Places)
    requires t.At? && S.Avl(Shape(t)) && S.Height(Shape(t)) < 255
    ensures Line(t) == [Least(t).node] + Line(WithoutLeast(t))
  {
    if t.left.At? {
      LeastStep(t);
      WithoutLeastLine(t.left);
      BalancedShape(WithoutLeast(t.left), t.node, t.right);
    }
  }

  /** The node at position `i` is gone from the line. */
  ghost predicate IsTakenOut(line: seq<Node>, r: seq<Node>, i: nat) {
    i < |line| && r == line[..i] + line[i + 1..]
  }

  /** One node with key `k` is gone from the line, and the others are as they were. */
  ghost predicate LosesOne(line: seq<Node>, r: seq<Node>, k: int) {
    exists i: nat :: IsTakenOut(line, r, i) && line[i].key == k
  }

  lemma FirstPartLosesOne(a: seq<Node>, x: Node, b: seq<Node>, r: seq<Node>, k: int)
    requires LosesOne(a, r, k)
    ensures LosesOne(a + [x] + b, r + [x] + b, k)
  {
    var s := a + [x] + b;
    var i: nat :| IsTakenOut(a, r, i) && a[i].key == k;
    assert s[..i] == a[..i] && s[i + 1..] == a[i + 1..] + [x] + b;
    assert IsTakenOut(s, r + [x] + b, i);
  }

  lemma LastPartLosesOne(a: seq<Node>, x: Node, b: seq<Node>, r: seq<Node>, k: int)
    requires LosesOne(b, r, k)
    ensures LosesOne(a + [x] + b, a + [x] + r, k)
  {
    var s := a + [x] + b;
    var i: nat :| IsTakenOut(b, r, i) && b[i].key == k;
    assert s[..|a| + 1 + i] == a + [x] + b[..i] && s[|a| + 1 + i + 1..] == b[i + 1..];
    assert IsTakenOut(s, a + [x] + r, |a| + 1 + i);
  }

  lemma MiddleIsLost(a: seq<Node>, x: Node, b: seq<Node>)
    ensures LosesOne(a + [x] + b, a + b, x.key)
  {
    assert IsTakenOut(a + [x] + b, a + b, |a|);
  }

  /** The line after a removal, one level down. */
  lemma {:induction false} RemovedLineStep(t: Places, k: int)
    requires t.At? && k != t.node.key && S.Avl(Shape(t)) && S.Height(Shape(t)) < 255
    ensures S.Avl(Shape(t.left)) && S.Height(Shape(t.left)) < 255 && S.Avl(Shape(t.right))
            && S.Height(Shape(t.right)) < 255
    ensures Line(Removed(t, k)) == if k < t.node.key then Line(Removed(t.left, k)) + [t.node] + Line(t.right)
                                   else Line(t.left) + [t.node] + Line(Removed(t.right, k))
  {
    if k < t.node.key {
      LeftRemovedStep(t, k);
      BalancedShape(Removed(t.left, k), t.node, t.right);
    } else {
      RightRemovedStep(t, k);
      BalancedShape(t.left, t.node, Removed(t.right, k));
    }
  }

  /** Removal takes one node with the key out of the line and keeps the order of the others. */
  lemma {:induction false} RemovedLine(t: Places, k: int)
    requires S.Avl(Shape(t)) && S.Height(Shape(t)) < 255 && S.Finds(Shape(t), k)
    ensures LosesOne(Line(t), Line(Removed(t, k)), k)
  {
    var a, b := Line(t.left), Line(t.right);
    if k < t.node.key {
      RemovedLineStep(t, k);
      RemovedLine(t.left, k);
      FirstPartLosesOne(a, t.node, b, Line(Removed(t.left, k)), k);
    } else if k > t.node.key {
      RemovedLineStep(t, k);
      RemovedLine(t.right, k);
      LastPartLosesOne(a, t.node, b, Line(Removed(t.right, k)), k);
    } else {
      RootRemovedLine(t);
      MiddleIsLost(a, t.node, b);
    }
  }

  lemma {:induction false} RootRemovedLine(t: Places)
    requires t.At? && S.Avl(Shape(t)) && S.Height(Shape(t)) < 255
    ensures Line(Removed(t, t.node.key)) == Line(t.left) + Line(t.right)
  {
    if t.right.At? {
      RootStep(t);
      WithoutLeastLine(t.right);
      BalancedShape(t.left, Least(t.right).node, WithoutLeast(t.right));
      Join(Line(t.left), [Least(t.right).node], Line(WithoutLeast(t.right)));
    }
  }

  // ---------------------------------------------------------------- when the links stay exact

  /** In a tree with exact links every node but the root is a child of the node its parent link leads to. */
  lemma {:induction false} HangsBelowParent(t: Places, parent: Node?, n: Node)
    requires Linked(t, parent) && n in Nodes(t)
    ensures n == Root(t) || (n.parent != null && (n.parent.left == n || n.parent.right == n))
  {
    if n != Root(t) {
      if n in Nodes(t.left) {
        HangsBelowParent(t.left, t.node, n);
      } else {
        HangsBelowParent(t.right, t.node, n);
      }
    }
  }

  /** Whether removing `k` leaves a wrong parent link, read off the shape: the node with `k` has a right subtree whose
      leftmost node is not its root and has a right child. */
  predicate LosesParent(t: S.Tree, k: int) {
    t.Node? &&
    if k < t.key then LosesParent(t.left, k)
    else if k > t.key then LosesParent(t.right, k)
    else t.right.Node? && t.right.left.Node? && LeastHasRight(t.right)
  }

  predicate LeastHasRight(t: S.Tree)
    requires t.Node?
  {
    if t.left.Node? then LeastHasRight(t.left) else t.right.Node?
  }

  lemma {:induction false} StaleExactly(t: Places, k: int)
    ensures Stale(t, k) != null <==> LosesParent(Shape(t), k)
  {
    if t.At? {
      if k < t.node.key {
        StaleExactly(t.left, k);
      } else if k > t.node.key {
        StaleExactly(t.right, k);
      } else if t.right.At? {
        LeastRightExactly(t.right);
      }
    }
  }

  lemma {:induction false} LeastRightExactly(t: Places)
    requires t.At?
    ensures Root(Least(t).right) != null <==> LeastHasRight(Shape(t))
  {
    if t.left.At? { LeastRightExactly(t.left); }
  }

  /** The parent links of a whole tree that were exact are exact after a removal if and only if no parent is lost. */
  lemma {:induction false} ExactAfterRemovalExactly(t: Places, k: int, s: Slack, m: Node?)
    requires S.Avl(Shape(t)) && S.Height(Shape(t)) < 255 && !s.all && Leaves(t, k, TOP, s, m)
    ensures Linked(Removed(t, k), null) <==> !LosesParent(Shape(t), k)
  {
    StaleExactly(t, k);
    if Stale(t, k) == null {
      StrictIsExact(Removed(t, k), TOP, AfterRemoval(s, t, k));
    } else if Linked(Removed(t, k), null) {
      HangsBelowParent(Removed(t, k), null, Stale(t, k));
    }
  }

  // ---------------------------------------------------------------- a tree that loses a parent

  /** The tree that insertions of `keys` build. */
  function Built(keys: seq<int>): (t: S.Tree)
    requires |keys| < S.SIZE_LIMIT
    ensures S.Valid(t) && S.Size(t) == |keys|
  {
    if keys == [] then S.Leaf
    else
      var t := Built(keys[..|keys| - 1]);
      S.HeightBound(t);
      S.InsertKeeps(t, keys[|keys| - 1]);
      S.Insert(t, keys[|keys| - 1])
  }

  function One(k: int): S.Tree { S.Node(S.Leaf, k, 1, S.Leaf) }

  /** Insertion without a rotation. */
  lemma {:induction false} GoesLeft(l: S.Tree, x: int, r: S.Tree, h: nat, k: int, l': S.Tree)
    requires S.Avl(S.Node(l, x, h, r)) && h < 254 && k < x && S.Insert(l, k) == l'
             && -1 <= S.Height(l') - S.Height(r) <= 1
    ensures S.Insert(S.Node(l, x, h, r), k) == S.Node(l', x, 1 + S.Max(S.Height(l'), S.Height(r)), r)
  {
    S.BalanceRestores(l', x, r);
  }

  lemma {:induction false} GoesRight(l: S.Tree, x: int, r: S.Tree, h: nat, k: int, r': S.Tree)
    requires S.Avl(S.Node(l, x, h, r)) && h < 254 && k >= x && S.Insert(r, k) == r'
             && -1 <= S.Height(l) - S.Height(r') <= 1
    ensures S.Insert(S.Node(l, x, h, r), k) == S.Node(l, x, 1 + S.Max(S.Height(l), S.Height(r')), r')
  {
    S.BalanceRestores(l, x, r');
  }

  lemma {:induction false} BuiltStep(keys: seq<int>, k: int)
    requires |keys| + 1 < S.SIZE_LIMIT
    ensures S.Height(Built(keys)) < 254 && Built(keys + [k]) == S.Insert(Built(keys), k)
  {
    S.HeightBound(Built(keys));
    assert (keys + [k])[..|keys|] == keys;
  }

  lemma {:induction false} ThreeKeys(b: int, c: int, f: int)
    requires b < c < f
    ensures Built([c] + [b] + [f]) == S.Node(One(b), c, 2, One(f))
  {
    BuiltStep([], c);
    assert [] + [c] == [c];
    BuiltStep([c], b);
    BuiltStep([c] + [b], f);
    GoesLeft(S.Leaf, c, S.Leaf, 1, b, One(b));
    GoesRight(One(b), c, S.Leaf, 2, f, One(f));
  }

  lemma {:induction false} FiveKeys(a: int, b: int, c: int, d: int, f: int)
    requires a < b < c < d < f
    ensures Built([c] + [b] + [f] + [a] + [d]) ==
            S.Node(S.Node(One(a), b, 2, S.Leaf), c, 3, S.Node(One(d), f, 2, S.Leaf))
  {
    ThreeKeys(b, c, f);
    BuiltStep([c] + [b] + [f], a);
    BuiltStep([c] + [b] + [f] + [a], d);
    GoesLeft(S.Leaf, b, S.Leaf, 1, a, One(a));
    GoesLeft(One(b), c, One(f), 2, a, S.Node(One(a), b, 2, S.Leaf));
    GoesLeft(S.Leaf, f, S.Leaf, 1, d, One(d));
    GoesRight(S.Node(One(a), b, 2, S.Leaf), c, One(f), 3, d, S.Node(One(d), f, 2, S.Leaf));
  }

  function SevenTree(a: int, b: int, c: int, d: int, e: int, f: int, g: int): S.Tree {
    S.Node(S.Node(One(a), b, 2, S.Leaf), c, 4, S.Node(S.Node(S.Leaf, d, 2, One(e)), f, 3, One(g)))
  }

  lemma {:induction false} SevenKeys(a: int, b: int, c: int, d: int, e: int, f: int, g: int)
    requires a < b < c < d < e < f < g
    ensures Built([c] + [b] + [f] + [a] + [d] + [g] + [e]) == SevenTree(a, b, c, d, e, f, g)
  {
    FiveKeys(a, b, c, d, f);
    BuiltStep([c] + [b] + [f] + [a] + [d], g);
    BuiltStep([c] + [b] + [f] + [a] + [d] + [g], e);
    var l := S.Node(One(a), b, 2, S.Leaf);
    GoesRight(One(d), f, S.Leaf, 2, g, One(g));
    GoesRight(l, c, S.Node(One(d), f, 2, S.Leaf), 3, g, S.Node(One(d), f, 2, One(g)));
    GoesRight(S.Leaf, d, S.Leaf, 1, e, One(e));
    GoesLeft(One(d), f, One(g), 2, e, S.Node(S.Leaf, d, 2, One(e)));
    GoesRight(l, c, S.Node(One(d), f, 2, One(g)), 3, e, S.Node(S.Node(S.Leaf, d, 2, One(e)), f, 3, One(g)));
  }

  /** Seven insertions and one removal are enough to leave a wrong parent link, with keys 3, 5, 10, 15, 17, 20 and 25
      as with any others. */
  lemma {:induction false} SevenKeysLoseAParent(a: int, b: int, c: int, d: int, e: int, f: int, g: int)
    requires a < b < c < d < e < f < g
    ensures LosesParent(Built([c] + [b] + [f] + [a] + [d] + [g] + [e]), c)
  {
    SevenKeys(a, b, c, d, e, f, g);
  }
}
