/** The tree as its users see it (`avl_tree_t` in supertel/include/avl-tree.h). */
module AvlTrees {
  import opened Common
  import S = AvlShape
  import opened AvlHeap
  import opened AvlTraversal
  import opened AvlWalks
  import opened AvlRemoval
  import opened AvlInsertOrGet

  /** One node with key `k` is gone from the line, if there was one, and the others are as they were. */
  ghost predicate IsRemoval(t: Places, u: Places, k: int) {
    if S.Finds(Shape(t), k) then LosesOne(Line(t), Line(u), k)
    else u == t
  }

  /** Removal keeps the tree balanced, with exact heights and in order. */
  lemma {:induction false} RemovalIsValid(t: Places, k: int)
    requires S.Valid(Shape(t)) && S.Height(Shape(t)) < 254
    ensures S.Valid(Shape(Removed(t, k))) && |Line(Removed(t, k))| == |Line(t)| - if S.Finds(Shape(t), k) then 1 else 0
  {
    S.DropKeeps(Shape(t), k);
    KeysOfLine(t);
    KeysOfLine(Removed(t, k));
  }

  /** ... and takes one node with the key out, if there is one. */
  lemma {:induction false} RemovalKeeps(t: Places, k: int)
    requires Proper(t) && S.Valid(Shape(t)) && S.Height(Shape(t)) < 254
    ensures S.Valid(Shape(Removed(t, k))) && IsRemoval(t, Removed(t, k), k)
    ensures Shape(Removed(t, k)) == S.Remove(Shape(t), k)
    ensures |Line(Removed(t, k))| == |Line(t)| - if S.Finds(Shape(t), k) then 1 else 0
  {
    RemovalIsValid(t, k);
    if S.Finds(Shape(t), k) {
      RemovedLine(t, k);
    } else {
      RemovedOfAbsent(t, k);
    }
  }

  /** Insertion keeps the tree balanced, with exact heights and in order: the new node follows every node whose key is
      not greater, and precedes the rest. */
  lemma {:induction false} AdditionKeeps(t: Places, n: Node)
    requires S.Valid(Shape(t)) && S.Height(Shape(t)) < 254 && |Line(t)| + 1 < S.SIZE_LIMIT
    ensures S.Valid(Shape(Inserted(t, n))) && |Line(Inserted(t, n))| == |Line(t)| + 1
    ensures GainsInOrder(Line(t), Line(Inserted(t, n)), n)
  {
    InsertedLine(t, n);
    S.InsertKeeps(Shape(t), n.key);
    KeysOfLine(t);
    KeysOfLine(Inserted(t, n));
  }

  /** No removal of a run loses a parent. */
  ghost predicate KeepsParents(ops: seq<S.Op>) {
    forall i, h :: 0 <= i < |ops| && S.Reaches(ops[..i], h) && ops[i].Drop? ==> !LosesParent(h.root, ops[i].key)
  }

  lemma {:induction false} RunIsCountable(ops: seq<S.Op>, i: nat, h: S.Host)
    requires i < |ops| < S.SIZE_LIMIT && S.Reaches(ops[..i], h)
    ensures h.count + 1 < S.SIZE_LIMIT && S.Avl(h.root) && S.Height(h.root) < 254
  {
    S.EveryRunHolds(ops[..i], h);
    S.HeightBound(h.root);
  }

  lemma {:induction false} RunGoesOn(ops: seq<S.Op>, i: nat, h: S.Host)
    requires i < |ops| && S.Reaches(ops[..i], h) && S.Avl(h.root) && S.Height(h.root) < 254
    ensures S.Reaches(ops[..i + 1], S.Call(h, ops[i]))
  {
    S.OneCallMore(ops[..i], h, ops[i]);
    assert ops[..i + 1] == ops[..i] + [ops[i]];
  }

  function Additions(keys: seq<int>): (ops: seq<S.Op>)
    ensures |ops| == |keys| && forall i :: 0 <= i < |keys| ==> ops[i] == S.Add(keys[i])
  {
    seq(|keys|, i requires 0 <= i < |keys| => S.Add(keys[i]))
  }

  lemma {:induction false} BuiltLast(keys: seq<int>)
    requires 0 < |keys| < S.SIZE_LIMIT
    ensures var t := Built(keys[..|keys| - 1]); S.Height(t) < 254 && Built(keys) == S.Insert(t, keys[|keys| - 1])
  {
    S.HeightBound(Built(keys[..|keys| - 1]));
  }

  lemma {:induction false} LastAddition(keys: seq<int>, h: S.Host) returns (g: S.Host)
    requires keys != [] && S.Reaches(Additions(keys), h)
    ensures S.Reaches(Additions(keys[..|keys| - 1]), g) && S.Avl(g.root) && S.Height(g.root) < 254
    ensures h == S.Call(g, S.Add(keys[|keys| - 1]))
  {
    var last := |keys| - 1;
    var ops := Additions(keys);
    g :| S.Reaches(ops[..last], g) && S.Avl(g.root) && S.Height(g.root) < 254 && h == S.Call(g, ops[last]);
    assert ops[..last] == Additions(keys[..last]);
  }

  lemma {:induction false} AdditionsBuild(keys: seq<int>, h: S.Host)
    requires |keys| < S.SIZE_LIMIT && S.Reaches(Additions(keys), h)
    ensures h.root == Built(keys) && h.count == |keys|
  {
    if keys != [] {
      var g := LastAddition(keys, h);
      AdditionsBuild(keys[..|keys| - 1], g);
      BuiltLast(keys);
    }
  }

  /** The slack that a whole tree needs after a removal. */
  ghost function SlackAfter(s: Slack, t: Places, k: int): Slack {
    Slack(s.all || LosesParent(Shape(t), k), null, s.dead + Gone(t, k))
  }

  /** Removal from a whole tree. Parent links that were exact stay exact if and only if no parent is lost. */
  method RemoveBelow(root: Node?, k: int, ghost t: Places, ghost s: Slack)
    returns (m: Node?, removed: bool, ghost u: Places)
    requires root == Root(t) && LinkedBut(t, TOP, s) && s.one == null && s.dead !! Nodes(t)
    requires S.Valid(Shape(t)) && S.Height(Shape(t)) < 254
    modifies Nodes(t), s.dead
    ensures u == Removed(t, k) && m == Root(u) && removed == S.Finds(Shape(t), k) && Nodes(u) == Nodes(t) - Gone(t, k)
    ensures LinkedBut(u, TOP, SlackAfter(s, t, k)) && (!s.all ==> (Linked(u, null) <==> !LosesParent(Shape(t), k)))
    ensures S.Valid(Shape(u)) && |Line(u)| == |Line(t)| - if removed then 1 else 0
  {
    m, removed := AvlRemoval.Remove(root, k, t, TOP, s);
    u := Removed(t, k);
    StaleExactly(t, k);
    Loosen(u, TOP, AfterRemoval(s, t, k), SlackAfter(s, t, k));
    if !s.all { ExactAfterRemovalExactly(t, k, s, m); }
    RemovalIsValid(t, k);
  }

  /** Removal from a whole tree with exact links: both directions of walking are right from every node if and only if no
      parent is lost. */
  method RemoveFromExact(root: Node?, k: int, ghost t: Places) returns (m: Node?, ghost u: Places, ghost w: set<Node>)
    requires root == Root(t) && Linked(t, null) && S.Avl(Shape(t)) && S.Height(Shape(t)) < 255
    modifies Nodes(t)
    ensures u == Removed(t, k) && m == Root(u) && Walkable(u, TOP, w)
    ensures (NextAllRight(u, w) <==> !LosesParent(Shape(t), k)) && (PrevAllRight(u, w) <==> !LosesParent(Shape(t), k))
  {
    StrictIsExact(t, TOP, STRICT);
    var removed;
    m, removed := AvlRemoval.Remove(root, k, t, TOP, STRICT);
    u, w := Removed(t, k), Strays(t, k);
    WalkAfterRemovalExactly(t, k, STRICT, m);
  }

  /** The nodes from the first one on, each with `node_next` from the one before, until null. */
  method WalkAll(root: Node?, ghost t: Places, ghost w: set<Node>) returns (visited: seq<Node>)
    requires root == Root(t) && Walkable(t, TOP, w)
    ensures visited == Walked(t, w, 0)
  {
    visited := [];
    if root == null { return; }
    var n: Node? := Leftmost(root, t);
    ghost var i: nat := 0;
    while n != null
      invariant n == Nth(Line(t), i) && Walked(t, w, 0) == visited + Walked(t, w, i)
      decreases |Line(t)| - i
    {
      var next := Next(n, t, w, i);
      NextGoesOn(t, w, Top(t), i, |Line(t)|);
      ghost var j := NextPos(t, w, i);
      Join(visited, [n], Walked(t, w, j));
      visited := visited + [n];
      n, i := next, j;
    }
  }

  class AvlTree {
    var root: Node?
    var count: nat
    ghost var places: Places
    ghost var slack: Slack        // which parent links may be wrong, and the nodes that have been removed

    /** Exact child links and heights, balance, order and count. Every parent link is exact or, once a removal has
        lost a parent, leads to the anchor of the node or to a removed node. */
    ghost predicate Valid()
      reads this, Nodes(places)
    {
      && LinkedBut(places, TOP, slack) && slack.one == null && slack.dead !! Nodes(places) && root == Root(places)
      && S.Valid(Shape(places)) && count == |Line(places)|
    }

    constructor ()
      ensures Valid() && slack == STRICT && places == Nowhere
    {
      root, count, places, slack := null, 0, Nowhere, STRICT;
    }

    /** `avl_tree_get`. */
    method Get(k: int) returns (n: Node?)
      requires Valid()
      ensures n == null <==> k !in S.InOrder(Shape(places))
      ensures n != null ==> n in Nodes(places) && n.key == k
    {
      S.FindsExactly(Shape(places), k);
      n := root;
      ghost var t := places;
      while n != null && n.key != k
        invariant n == Root(t) && Proper(t) && Children(t) && Nodes(t) <= Nodes(places)
        invariant S.Finds(Shape(t), k) <==> S.Finds(Shape(places), k)
        decreases t
      {
        if k > n.key {
          n, t := n.right, t.right;
        } else {
          n, t := n.left, t.left;
        }
      }
    }

    /** `avl_tree_add`: the new node follows every node whose key is not greater, and precedes the rest. */
    method Add(k: int) returns (n: Node)
      requires Valid() && count + 1 < S.SIZE_LIMIT
      modifies this, Nodes(places)
      ensures old(S.Height(Shape(places))) < 254
      ensures Valid() && count == old(count) + 1 && slack == old(slack)
      ensures fresh(n) && n.key == k && Nodes(places) == old(Nodes(places)) + {n}
      ensures Shape(places) == S.Insert(old(Shape(places)), k)
      ensures GainsInOrder(old(Line(places)), Line(places), n)
    {
      ghost var before := places;
      S.HeightBound(Shape(before));
      root, n := Insert(root, root, k, before, TOP, slack);
      AdditionKeeps(before, n);
      places := Inserted(before, n);
      count := count + 1;
    }

    /** `avl_tree_add_or_get`: a present key changes nothing, an absent one is added. */
    method AddOrGet(k: int) returns (n: Node, inserted: bool)
      requires Valid() && count + 1 < S.SIZE_LIMIT
      modifies this, Nodes(places)
      ensures old(S.Height(Shape(places))) < 254
      ensures Valid() && count == old(count) + (if inserted then 1 else 0) && slack == old(slack)
      ensures inserted <==> k !in old(S.InOrder(Shape(places)))
      ensures n.key == k && Nodes(places) == old(Nodes(places)) + {n}
              && Shape(places) == S.InsertOrGet(old(Shape(places)), k)
      ensures inserted ==> fresh(n) && GainsInOrder(old(Line(places)), Line(places), n)
      ensures !inserted ==> places == old(places)
    {
      ghost var before := places;
      S.HeightBound(Shape(before));
      S.FindsExactly(Shape(before), k);
      S.InsertOrGetExactly(Shape(before), k);
      root, n, inserted := InsertOrGet(root, root, k, before, TOP, slack);
      places := Grown(before, n, inserted);
      if inserted {
        AdditionKeeps(before, n);
        count := count + 1;
      }
    }

    /** `avl_tree_remove`, whatever parent links earlier removals have left wrong: the nodes hang as `RemovalKeeps`
        says. The parent links need no more slack than that of a lost parent. */
    method Remove(k: int)
      requires Valid()
      modifies this, Nodes(places), slack.dead
      ensures old(S.Height(Shape(places))) < 254
      ensures Valid() && places == Removed(old(places), k) && slack == SlackAfter(old(slack), old(places), k)
      ensures Nodes(places) == old(Nodes(places)) - Gone(old(places), k)
    {
      ghost var before := places;
      S.HeightBound(Shape(before));
      var removed;
      root, removed, places := RemoveBelow(root, k, before, slack);
      slack := SlackAfter(slack, before, k);
      if removed { count := count - 1; }
    }

    /** One API call: the effect is that of the call on the shape. */
    method Execute(op: S.Op)
      requires Valid() && count + 1 < S.SIZE_LIMIT
      modifies this, Nodes(places), slack.dead
      ensures old(S.Height(Shape(places))) < 254
      ensures Valid()
      ensures forall n :: n in Nodes(places) || n in slack.dead ==>
                n in old(Nodes(places)) || n in old(slack.dead) || fresh(n)
      ensures S.Host(Shape(places), count) == S.Call(old(S.Host(Shape(places), count)), op)
      ensures slack.all <==> old(slack.all) || (op.Drop? && LosesParent(old(Shape(places)), op.key))
    {
      match op
      case Add(k) => var n := Add(k);
      case AddOrGet(k) =>
        S.FindsExactly(Shape(places), k);
        var n, inserted := AddOrGet(k);
      case Drop(k) =>
        S.HeightBound(Shape(places));
        GoneIsIn(places, k);
        RemovalKeeps(places, k);
        Remove(k);
    }

    /** Every run of API calls: child links, heights, balance and order are exact, and shape, count and contents are
        those of the run. The parent links are exact if no removal loses a parent. */
    method Run(ops: seq<S.Op>)
      requires Valid() && slack == STRICT && places == Nowhere && |ops| < S.SIZE_LIMIT
      modifies this
      ensures Valid() && S.Reaches(ops, S.Host(Shape(places), count))
              && multiset(S.InOrder(Shape(places))) == S.Bag(ops)
      ensures KeepsParents(ops) ==> Linked(places, null)
    {
      ghost var h := S.Host(S.Leaf, 0);
      for i := 0 to |ops|
        invariant Valid() && h == S.Host(Shape(places), count) && (KeepsParents(ops) ==> !slack.all)
        invariant forall n :: n in Nodes(places) || n in slack.dead ==> fresh(n)
        invariant S.Reaches(ops[..i], h)
      {
        RunIsCountable(ops, i, h);
        RunGoesOn(ops, i, h);
        Execute(ops[i]);
        h := S.Call(h, ops[i]);
      }
      assert ops[..|ops|] == ops;
      S.EveryRunHolds(ops, h);
      if !slack.all { StrictIsExact(places, TOP, slack); }
    }

    /** Any sequence of insertions: the links are exact, and the shape is the one the insertions build. */
    method AddAll(keys: seq<int>)
      requires Valid() && slack == STRICT && places == Nowhere && |keys| < S.SIZE_LIMIT
      modifies this
      ensures Valid() && Linked(places, null) && Shape(places) == Built(keys) && count == |keys|
    {
      Run(Additions(keys));
      AdditionsBuild(keys, S.Host(Shape(places), count));
    }

    /** Walking from the minimum with `Next` until null, where no parent link leads to a removed node: the nodes
        visited are those that the links say, and they are all nodes, in order, if and only if the parent links are
        exact. */
    method Walk() returns (visited: seq<Node>, ghost w: set<Node>)
      requires Valid() && forall n :: n in Nodes(places) ==> n.parent !in slack.dead
      ensures Walkable(places, TOP, w) && visited == Walked(places, w, 0)
      ensures visited == Line(places) <==> Linked(places, null)
      ensures Linked(places, null) ==> forall n :: n in Nodes(places) <==> n in visited
    {
      w := FindAstray(places, TOP, slack);
      visited := WalkAll(root, places, w);
      WalkIsWholeExactly(places, w);
      LineIsInjective(places);
    }
  }
}
