/** Walking the tree through the parent links (supertel/lib/avl-tree.c): successor and predecessor, also where some
    parent links lead to the anchor of a node instead of its parent. */
module AvlTraversal {
  import opened AvlHeap

  // ---------------------------------------------------------------- where the links lead

  /** Parent links are exact but for those of the nodes in `w`, which lead to the anchor. */
  ghost predicate Upward(t: Places, h: Hook, w: set<Node>)
    requires Proper(t)
    reads Nodes(t)`parent
  {
    t.At? ==>
      && t.node.parent == (if t.node in w then h.anchor else h.parent) && (t.node in w ==> h.parent != h.anchor)
      && Upward(t.left, LeftOf(t.node, h), w) && Upward(t.right, RightOf(t.node), w)
  }

  ghost predicate Walkable(t: Places, h: Hook, w: set<Node>)
    reads Nodes(t)
  {
    Proper(t) && Children(t) && Upward(t, h, w)
  }

  /** The links are exact if and only if none leads to an anchor. */
  lemma {:induction false} ExactIfNoneWrong(t: Places, h: Hook, w: set<Node>)
    requires Walkable(t, h, w)
    ensures Exact(t, h.parent) <==> w !! Nodes(t)
  {
    if t.At? {
      ExactIfNoneWrong(t.left, LeftOf(t.node, h), w);
      ExactIfNoneWrong(t.right, RightOf(t.node), w);
    }
  }

  ghost function Nth(line: seq<Node>, i: int): Node? {
    if 0 <= i < |line| then line[i] else null
  }

  /** A subtree in its place: where its nodes start in the line; where a climb to the right of it ends, and where one
      from its anchor does; and where the subtree of its anchor starts. */
  datatype Spot = Spot(hook: Hook, lo: nat, exit: nat, far: nat, start: nat)

  ghost function Top(t: Places): Spot { Spot(TOP, 0, |Line(t)|, |Line(t)|, 0) }

  ghost function LeftSpot(t: Places, w: set<Node>, f: Spot): Spot
    requires t.At?
  {
    var exit := if t.left.At? && t.left.node in w then f.far else f.lo + |Line(t.left)|;
    Spot(LeftOf(t.node, f.hook), f.lo, exit, f.far, f.start)
  }

  ghost function RightSpot(t: Places, f: Spot): Spot
    requires t.At?
  {
    Spot(RightOf(t.node), f.lo + |Line(t.left)| + 1, f.exit, f.exit, f.lo)
  }

  /** The position that the successor of position `i` is taken to be. */
  ghost function NextAt(t: Places, w: set<Node>, f: Spot, i: int): int {
    if t.Nowhere? then i + 1
    else
      var p := f.lo + |Line(t.left)|;
      if i < p then NextAt(t.left, w, LeftSpot(t, w, f), i)
      else if i > p then NextAt(t.right, w, RightSpot(t, f), i)
      else if t.right.At? then i + 1 else f.exit
  }

  /** The position that the predecessor of position `i` is taken to be. */
  ghost function PrevAt(t: Places, w: set<Node>, f: Spot, i: int): int {
    if t.Nowhere? then i - 1
    else
      var p := f.lo + |Line(t.left)|;
      if i < p then PrevAt(t.left, w, LeftSpot(t, w, f), i)
      else if i > p then PrevAt(t.right, w, RightSpot(t, f), i)
      else if t.left.At? || t.node !in w then i - 1 else f.start - 1
  }

  // ---------------------------------------------------------------- subtrees in their places

  /** `s` hangs in `t`, with `g` for its place where `f` is that of `t`. */
  ghost predicate Sits(t: Places, w: set<Node>, f: Spot, s: Places, g: Spot) {
    (s == t && g == f) ||
    (t.At? && (Sits(t.left, w, LeftSpot(t, w, f), s, g) || Sits(t.right, w, RightSpot(t, f), s, g)))
  }

  /** What holds of a tree holds of everything that hangs in it. */
  lemma {:induction false} SitsIsWalkable(t: Places, w: set<Node>, f: Spot, s: Places, g: Spot)
    requires Walkable(t, f.hook, w) && Sits(t, w, f, s, g) && s.At?
    ensures Walkable(s, g.hook, w) && s.node in Nodes(s) && Nodes(s) <= Nodes(t)
  {
    if !(s == t && g == f) {
      if Sits(t.left, w, LeftSpot(t, w, f), s, g) {
        SitsIsWalkable(t.left, w, LeftSpot(t, w, f), s, g);
      } else {
        SitsIsWalkable(t.right, w, RightSpot(t, f), s, g);
      }
    }
  }

  ghost predicate PartAt(line: seq<Node>, part: seq<Node>, k: int) {
    0 <= k && k + |part| <= |line| && line[k..k + |part|] == part
  }

  lemma PartOfFirst(a: seq<Node>, x: Node, b: seq<Node>, part: seq<Node>, k: int)
    requires PartAt(a, part, k)
    ensures PartAt(a + [x] + b, part, k)
  {
    assert (a + [x] + b)[k..k + |part|] == a[k..k + |part|];
  }

  lemma PartOfLast(a: seq<Node>, x: Node, b: seq<Node>, part: seq<Node>, k: int)
    requires PartAt(b, part, k)
    ensures PartAt(a + [x] + b, part, |a| + 1 + k)
  {
    assert (a + [x] + b)[|a| + 1 + k..|a| + 1 + k + |part|] == b[k..k + |part|];
  }

  /** The nodes of a subtree follow one another in the line. */
  lemma {:induction false} SitsInLine(t: Places, w: set<Node>, f: Spot, s: Places, g: Spot)
    requires Sits(t, w, f, s, g)
    ensures PartAt(Line(t), Line(s), g.lo - f.lo)
  {
    if !(s == t && g == f) {
      if Sits(t.left, w, LeftSpot(t, w, f), s, g) {
        SitsInLine(t.left, w, LeftSpot(t, w, f), s, g);
        PartOfFirst(Line(t.left), t.node, Line(t.right), Line(s), g.lo - f.lo);
      } else {
        SitsInLine(t.right, w, RightSpot(t, f), s, g);
        PartOfLast(Line(t.left), t.node, Line(t.right), Line(s), g.lo - RightSpot(t, f).lo);
      }
    }
  }

  /** Where the root and the first node on the right of a subtree stand. */
  lemma {:induction false} RootInLine(t: Places, w: set<Node>, s: Places, g: Spot)
    requires Sits(t, w, Top(t), s, g) && s.At?
    ensures g.lo + |Line(s)| <= |Line(t)| && Nth(Line(t), g.lo + |Line(s.left)|) == s.node
    ensures s.right.At? ==> Line(s.right) != [] && Nth(Line(t), g.lo + |Line(s.left)| + 1) == Line(s.right)[0]
    ensures s.left.At? ==>
              Line(s.left) != [] && Nth(Line(t), g.lo + |Line(s.left)| - 1) == Line(s.left)[|Line(s.left)| - 1]
  {
    SitsInLine(t, w, Top(t), s, g);
    var a, b, k := Line(s.left), Line(s.right), g.lo;
    assert Line(s) == a + [s.node] + b;
    assert Line(s)[|a|] == s.node == Line(t)[k + |a|];
    if s.right.At? { assert Line(s)[|a| + 1] == b[0] == Line(t)[k + |a| + 1]; }
    if s.left.At? { assert Line(s)[|a| - 1] == a[|a| - 1] == Line(t)[k + |a| - 1]; }
  }

  /** The node at position `i`, and where its neighbours are taken to be. */
  lemma {:induction false} Locate(t: Places, w: set<Node>, f: Spot, i: nat) returns (s: Places, g: Spot)
    requires f.lo <= i < f.lo + |Line(t)|
    ensures s.At? && s.node == Line(t)[i - f.lo] && Sits(t, w, f, s, g) && i == g.lo + |Line(s.left)|
    ensures NextAt(t, w, f, i) == if s.right.At? then i + 1 else g.exit
    ensures PrevAt(t, w, f, i) == if s.left.At? || s.node !in w then i - 1 else g.start - 1
  {
    var p := f.lo + |Line(t.left)|;
    if i < p {
      s, g := Locate(t.left, w, LeftSpot(t, w, f), i);
    } else if i == p {
      s, g := t, f;
    } else {
      s, g := Locate(t.right, w, RightSpot(t, f), i);
    }
  }

  /** A node hangs in one place only. */
  lemma {:induction false} SameRoot(t: Places, w: set<Node>, f: Spot, s: Places, g: Spot)
    requires Walkable(t, f.hook, w) && Sits(t, w, f, s, g) && s.At? && t.At? && t.node == s.node
    ensures s == t && g == f
  {
    if !(s == t && g == f) {
      if Sits(t.left, w, LeftSpot(t, w, f), s, g) {
        SitsIsWalkable(t.left, w, LeftSpot(t, w, f), s, g);
      } else {
        SitsIsWalkable(t.right, w, RightSpot(t, f), s, g);
      }
    }
  }

  /** The subtree that another one hangs below, on its left or on its right. */
  lemma {:induction false} Above(t: Places, w: set<Node>, f: Spot, s: Places, g: Spot) returns (u: Places, e: Spot)
    requires Sits(t, w, f, s, g) && !(s == t && g == f)
    ensures u.At? && Sits(t, w, f, u, e)
    ensures (u.left == s && g == LeftSpot(u, w, e)) || (u.right == s && g == RightSpot(u, e))
  {
    if Sits(t.left, w, LeftSpot(t, w, f), s, g) {
      if s == t.left && g == LeftSpot(t, w, f) {
        u, e := t, f;
      } else {
        u, e := Above(t.left, w, LeftSpot(t, w, f), s, g);
      }
    } else if s == t.right && g == RightSpot(t, f) {
      u, e := t, f;
    } else {
      u, e := Above(t.right, w, RightSpot(t, f), s, g);
    }
  }

  /** The anchor of a subtree: that of the whole tree, at whose start it then is, or the node it hangs on the right
      of. */
  ghost predicate Anchored(f: Spot, v: Places, e: Spot, s: Places, g: Spot) {
    if v.Nowhere? then g.hook.anchor == f.hook.anchor && g.far == f.far && g.start == f.start && g.lo == f.lo
    else
      && v.right.At? && v.node == g.hook.anchor && g.far == e.exit && g.start == e.lo
      && g.lo == e.lo + |Line(v.left)| + 1
      && s.At? && s.node in Nodes(v.right) && (g == RightSpot(v, e) || s.node != v.right.node) && |Line(s)| < |Line(v)|
  }

  lemma {:induction false} AnchorOf(t: Places, w: set<Node>, f: Spot, s: Places, g: Spot) returns (v: Places, e: Spot)
    requires Walkable(t, f.hook, w) && Sits(t, w, f, s, g) && s.At?
    ensures Anchored(f, v, e, s, g) && (v.At? ==> Sits(t, w, f, v, e))
  {
    v, e := Nowhere, f;
    if !(s == t && g == f) {
      if Sits(t.left, w, LeftSpot(t, w, f), s, g) {
        v, e := AnchorOf(t.left, w, LeftSpot(t, w, f), s, g);
      } else {
        var q := RightSpot(t, f);
        v, e := AnchorOf(t.right, w, q, s, g);
        if v.Nowhere? {
          SitsIsWalkable(t.right, w, q, s, g);
          SitsInLine(t.right, w, q, s, g);
          if s.node == t.right.node { SameRoot(t.right, w, q, s, g); }
          v, e := t, f;
        }
      }
    }
  }

  // ---------------------------------------------------------------- climbing

  predicate IsLeft(n: Node)
    reads n, n.parent
  {
    n.parent != null && n.parent.left == n
  }

  predicate IsRight(n: Node)
    reads n, n.parent
  {
    n.parent != null && n.parent.right == n
  }

  /** What a node of a whole tree is to the node its parent link leads to: the root, a child on the left, a child on the
      right, or neither, when that is its anchor. The node led to is the root of `v`, if there is one. */
  datatype Kin = AtTop | OnLeft | OnRight | Astray

  ghost predicate IsKin(t: Places, w: set<Node>, s: Places, g: Spot, kin: Kin, v: Places, e: Spot)
    requires s.At?
    reads s.node, s.node.parent
  {
    && (v.At? <==> s.node.parent != null) && (v.At? ==> s.node.parent == v.node && Sits(t, w, Top(t), v, e))
    && (v.At? ==> |Line(s)| < |Line(v)|)
    && (s.node in w <==> kin == Astray)
    && match kin
       case AtTop => v.Nowhere? && g == Top(t)
       case OnLeft => v.At? && v.left == s && g == LeftSpot(v, w, e) && IsLeft(s.node) && !IsRight(s.node)
       case OnRight => v.At? && v.right == s && g == RightSpot(v, e) && IsRight(s.node) && !IsLeft(s.node)
       case Astray =>
         && !IsLeft(s.node) && !IsRight(s.node) && g.exit == g.far
         && Anchored(Top(t), v, e, s, g)
  }

  lemma {:induction false} KinOf(t: Places, w: set<Node>, s: Places, g: Spot) returns (kin: Kin, v: Places, e: Spot)
    requires Walkable(t, TOP, w) && Sits(t, w, Top(t), s, g) && s.At?
    ensures IsKin(t, w, s, g, kin, v, e)
  {
    SitsIsWalkable(t, w, Top(t), s, g);
    if s.node == t.node {
      SameRoot(t, w, Top(t), s, g);
      kin, v, e := AtTop, Nowhere, g;
    } else {
      v, e := Above(t, w, Top(t), s, g);
      SitsIsWalkable(t, w, Top(t), v, e);
      RootIsIn(v.left);
      RootIsIn(v.right);
      if v.right == s && g == RightSpot(v, e) {
        kin := OnRight;
      } else if s.node !in w {
        kin := OnLeft;
      } else {
        v, e := AnchorOf(t, w, Top(t), s, g);
        kin := Astray;
        if v.At? {
          SitsIsWalkable(t, w, Top(t), v, e);
          RootIsIn(v.left);
        }
      }
    }
  }

  /** Where a climb to the right goes on, or ends. */
  lemma {:induction false} ClimbRight(t: Places, w: set<Node>, s: Places, g: Spot, kin: Kin, v: Places, e: Spot)
    requires s.At? && IsKin(t, w, s, g, kin, v, e)
    ensures v.At? ==> |Line(v)| <= |Line(t)|
    ensures if kin == OnLeft then Nth(Line(t), g.exit) == v.node
            else if v.At? then e.exit == g.exit else g.exit == |Line(t)|
  {
    if v.At? { RootInLine(t, w, v, e); }
  }

  /** Where a climb to the left goes on, or ends. */
  lemma {:induction false} ClimbLeft(t: Places, w: set<Node>, s: Places, g: Spot, kin: Kin, v: Places, e: Spot)
    requires s.At? && IsKin(t, w, s, g, kin, v, e)
    ensures v.At? ==> |Line(v)| <= |Line(t)|
    ensures if kin == OnLeft then e.lo == g.lo else Nth(Line(t), g.lo - 1) == s.node.parent
    ensures kin == Astray ==> if v.At? then e.lo == g.start else g.start == 0
  {
    if v.At? { RootInLine(t, w, v, e); }
  }

  // ---------------------------------------------------------------- the operations

  method Rightmost(n: Node, ghost t: Places) returns (r: Node)
    requires n == Root(t) && Proper(t) && Children(t)
    ensures Line(t) != [] && r == Line(t)[|Line(t)| - 1]
    decreases t
  {
    if n.right != null {
      r := Rightmost(n.right, t.right);
    } else {
      r := n;
    }
  }

  ghost function NextPos(t: Places, w: set<Node>, i: nat): int {
    if i < |Line(t)| then NextAt(t, w, Top(t), i) else i + 1
  }

  ghost function PrevPos(t: Places, w: set<Node>, i: int): int {
    if 0 <= i < |Line(t)| then PrevAt(t, w, Top(t), i) else -1
  }

  /** `node_next`: from the node at position `i` to the one that the links make its successor. */
  method Next(n: Node?, ghost t: Places, ghost w: set<Node>, ghost i: nat) returns (r: Node?)
    requires Walkable(t, TOP, w) && n == Nth(Line(t), i)
    ensures r == Nth(Line(t), NextPos(t, w, i))
  {
    if n == null { return null; }
    ghost var s: Places, g: Spot := Locate(t, w, Top(t), i);
    SitsIsWalkable(t, w, Top(t), s, g);
    RootInLine(t, w, s, g);
    if n.right != null {
      r := Leftmost(n.right, s.right);
      return;
    }
    r := ClimbFrom(n, t, w, s, g);
  }

  /** The loop of `node_next`. */
  method ClimbFrom(n: Node, ghost t: Places, ghost w: set<Node>, ghost s: Places, ghost g: Spot) returns (r: Node?)
    requires Walkable(t, TOP, w) && Sits(t, w, Top(t), s, g) && n == Root(s)
    ensures r == Nth(Line(t), g.exit)
  {
    ghost var s, g, exit := s, g, g.exit;
    ghost var kin: Kin, v: Places, e: Spot := KinOf(t, w, s, g);
    ClimbRight(t, w, s, g, kin, v, e);
    if IsLeft(n) { return n.parent; }
    r := n.parent;
    while r != null && !IsLeft(r)
      invariant r == Root(v) && (r == null ==> exit == |Line(t)|)
      invariant r != null ==> Sits(t, w, Top(t), v, e) && e.exit == exit && |Line(v)| <= |Line(t)|
      decreases if r == null then 0 else 1 + |Line(t)| - |Line(v)|
    {
      s, g := v, e;
      kin, v, e := KinOf(t, w, s, g);
      ClimbRight(t, w, s, g, kin, v, e);
      r := r.parent;
    }
    if r != null {
      s, g := v, e;
      kin, v, e := KinOf(t, w, s, g);
      ClimbRight(t, w, s, g, kin, v, e);
      if !IsRight(r) { r := r.parent; }
    }
  }

  /** `node_prev`: from the node at position `i` to the one that the links make its predecessor. */
  method Prev(n: Node?, ghost t: Places, ghost w: set<Node>, ghost i: int) returns (r: Node?)
    requires Walkable(t, TOP, w) && n == Nth(Line(t), i)
    ensures r == Nth(Line(t), PrevPos(t, w, i))
  {
    if n == null { return null; }
    ghost var s: Places, g: Spot := Locate(t, w, Top(t), i);
    SitsIsWalkable(t, w, Top(t), s, g);
    RootInLine(t, w, s, g);
    if n.left != null {
      r := Rightmost(n.left, s.left);
      return;
    }
    r := ClimbBackFrom(n, t, w, s, g);
  }

  /** The loop of `node_prev`. */
  method ClimbBackFrom(n: Node, ghost t: Places, ghost w: set<Node>, ghost s: Places, ghost g: Spot) returns (r: Node?)
    requires Walkable(t, TOP, w) && Sits(t, w, Top(t), s, g) && n == Root(s)
    ensures r == Nth(Line(t), (if n in w then g.start else g.lo) - 1)
  {
    ghost var s, g, lo := s, g, if n in w then g.start else g.lo;
    ghost var kin: Kin, v: Places, e: Spot := KinOf(t, w, s, g);
    ClimbLeft(t, w, s, g, kin, v, e);
    if IsRight(n) { return n.parent; }
    r := n.parent;
    while r != null && IsLeft(r)
      invariant r == Root(v) && (r == null ==> lo == 0)
      invariant r != null ==> Sits(t, w, Top(t), v, e) && e.lo == lo && |Line(v)| <= |Line(t)|
      decreases if r == null then 0 else 1 + |Line(t)| - |Line(v)|
    {
      s, g := v, e;
      kin, v, e := KinOf(t, w, s, g);
      ClimbLeft(t, w, s, g, kin, v, e);
      r := r.parent;
    }
    if r != null {
      s, g := v, e;
      kin, v, e := KinOf(t, w, s, g);
      ClimbLeft(t, w, s, g, kin, v, e);
      if !IsLeft(r) { r := r.parent; }
    }
  }

  /** A node occurs in the line once. */
  lemma {:induction false} LineIsInjective(t: Places)
    requires Proper(t)
    ensures forall i :: 0 <= i < |Line(t)| ==> Line(t)[i] in Nodes(t)
    ensures forall n :: n in Nodes(t) ==> n in Line(t)
    ensures forall i, j :: 0 <= i < j < |Line(t)| ==> Line(t)[i] != Line(t)[j]
  {
    if t.At? {
      LineIsInjective(t.left);
      LineIsInjective(t.right);
      var a, b := Line(t.left), Line(t.right);
      forall i, j | 0 <= i < j < |Line(t)| ensures Line(t)[i] != Line(t)[j] {
        var x, y := Line(t)[i], Line(t)[j];
        if j < |a| {
          assert x == a[i] && y == a[j];
        } else if i > |a| {
          assert x == b[i - |a| - 1] && y == b[j - |a| - 1];
        } else {
          assert i < |a| ==> x == a[i];
          assert j > |a| ==> y == b[j - |a| - 1];
          assert Line(t)[|a|] == t.node;
        }
      }
    }
  }
}
