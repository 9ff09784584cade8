/** The shape of an AVL tree with stored one-byte heights (supertel/lib/avl-tree.c): rotations, rebalancing,
    insertion, insert-or-get and removal, without the parent links. */
module AvlShape {

  datatype Tree = Leaf | Node(left: Tree, key: int, height: nat, right: Tree)

  // ---------------------------------------------------------------- the operations

  function Height(t: Tree): nat {
    if t.Leaf? then 0 else t.height
  }

  function Factor(t: Tree): int
    requires t.Node?
  {
    Height(t.left) - Height(t.right)
  }

  function Max(a: int, b: int): int { if a > b then a else b }

  /** `node_fix_height`: the stored height is an unsigned char. */
  function Fixed(l: Tree, k: int, r: Tree): Tree {
    Node(l, k, (Max(Height(l), Height(r)) + 1) % 256, r)
  }

  function RotateLeft(a: Tree): Tree
    requires a.Node? && a.right.Node?
  {
    Fixed(Fixed(a.left, a.key, a.right.left), a.right.key, a.right.right)
  }

  function RotateRight(a: Tree): Tree
    requires a.Node? && a.left.Node?
  {
    Fixed(a.left.left, a.left.key, Fixed(a.left.right, a.key, a.right))
  }

  /** No rotation meets a missing child: what `Balance` needs of its argument. */
  predicate Rotatable(l: Tree, r: Tree) {
    && (Height(l) - Height(r) == 2 ==> l.Node? && (Factor(l) < 0 ==> l.right.Node?))
    && (Height(l) - Height(r) == -2 ==> r.Node? && (Factor(r) > 0 ==> r.left.Node?))
  }

  /** `node_balance` on a node whose children are `l` and `r`. */
  function Balance(l: Tree, k: int, r: Tree): Tree
    requires Rotatable(l, r)
  {
    var n := Fixed(l, k, r);
    match Factor(n)
    case 2 => RotateRight(n.(left := if Factor(l) < 0 then RotateLeft(l) else l))
    case -2 => RotateLeft(n.(right := if Factor(r) > 0 then RotateRight(r) else r))
    case _ => n
  }

  // ---------------------------------------------------------------- the invariant

  /** Balance factors within -1..1 and exact stored heights, everywhere. */
  predicate Avl(t: Tree) {
    t.Leaf? ||
    (Avl(t.left) && Avl(t.right) && -1 <= Factor(t) <= 1 && t.height == 1 + Max(Height(t.left), Height(t.right)))
  }

  function InOrder(t: Tree): seq<int> {
    if t.Leaf? then [] else InOrder(t.left) + [t.key] + InOrder(t.right)
  }

  function Size(t: Tree): nat { |InOrder(t)| }

  /** Ascending, with duplicates allowed. */
  predicate Sorted(s: seq<int>) {
    forall i, j :: 0 <= i < j < |s| ==> s[i] <= s[j]
  }

  /** Keys that the host's `size_t` can count. */
  const SIZE_LIMIT := 0x1_0000_0000_0000_0000

  predicate Valid(t: Tree) {
    Avl(t) && Sorted(InOrder(t)) && Size(t) < SIZE_LIMIT
  }

  // ---------------------------------------------------------------- the height bound

  function Fib(n: nat): nat {
    if n < 2 then n else Fib(n - 1) + Fib(n - 2)
  }

  /** A tree of height h has at least fib(h + 2) - 1 nodes. */
  lemma {:induction false} HeightNeedsNodes(t: Tree)
    requires Avl(t)
    ensures Size(t) + 1 >= Fib(Height(t) + 2)
  {
    if t.Node? {
      HeightNeedsNodes(t.left);
      HeightNeedsNodes(t.right);
      FibStep(Height(t.left), Height(t.right));
    }
  }

  lemma {:induction false} FibStep(l: nat, r: nat)
    requires -1 <= l - r <= 1
    ensures Fib(Max(l, r) + 3) <= Fib(l + 2) + Fib(r + 2)
  {
    if l <= r {
      FibGrows(r + 1, l + 2);
    } else {
      FibGrows(l + 1, r + 2);
    }
  }

  lemma {:induction false} FibGrows(m: nat, n: nat)
    requires m <= n
    ensures Fib(m) <= Fib(n)
    decreases n
  {
    if m < n && n >= 2 {
      FibGrows(if m <= n - 1 then m else n - 1, n - 1);
    }
  }

  lemma {:induction false} FibTen(n: nat)
    ensures Fib(n + 10) == 34 * Fib(n) + 55 * Fib(n + 1)
    ensures Fib(n + 11) == 55 * Fib(n) + 89 * Fib(n + 1)
  {
    assert Fib(n + 4) == 2 * Fib(n) + 3 * Fib(n + 1) && Fib(n + 5) == 3 * Fib(n) + 5 * Fib(n + 1);
    assert Fib(n + 8) == 2 * Fib(n + 4) + 3 * Fib(n + 5) && Fib(n + 9) == 3 * Fib(n + 4) + 5 * Fib(n + 5);
  }

  /** Ten steps of the recurrence at a time, `k` times. */
  function Tens(a: nat, b: nat, k: nat): nat
    decreases k
  {
    if k == 0 then a else Tens(34 * a + 55 * b, 55 * a + 89 * b, k - 1)
  }

  lemma {:induction false} FibTens(n: nat, a: nat, b: nat, k: nat)
    requires Fib(n) >= a && Fib(n + 1) >= b
    ensures Fib(n + 10 * k) >= Tens(a, b, k)
    decreases k
  {
    if k > 0 {
      FibTen(n);
      FibTens(n + 10, 34 * a + 55 * b, 55 * a + 89 * b, k - 1);
    }
  }

  lemma {:induction false} FibExceedsSizeLimit(m: nat)
    ensures Fib(m + 94) > SIZE_LIMIT
  {
    assert Fib(m + 4) >= 3 && Fib(m + 5) >= 5 by { FibGrows(1, m + 1); }
    FibTens(m + 4, 3, 5, 9);
    assert Tens(3, 5, 9) == 19740274219868223167;
  }

  /** The height bound: while the count fits a 64-bit size_t the height is at most 91, so that
      the one-byte height cannot wrap. */
  lemma {:induction false} HeightBound(t: Tree)
    requires Avl(t) && Size(t) < SIZE_LIMIT
    ensures Height(t) <= 91
  {
    HeightNeedsNodes(t);
    if Height(t) > 91 {
      FibExceedsSizeLimit(Height(t) - 92);
    }
  }

  // ---------------------------------------------------------------- rebalancing

  lemma {:induction false} RotationKeepsOrder(a: Tree)
    requires a.Node?
    ensures a.left.Node? ==> InOrder(RotateRight(a)) == InOrder(a)
    ensures a.right.Node? ==> InOrder(RotateLeft(a)) == InOrder(a)
  {
  }

  lemma {:induction false} BalanceKeepsOrder(l: Tree, k: int, r: Tree)
    requires Rotatable(l, r)
    ensures InOrder(Balance(l, k, r)) == InOrder(l) + [k] + InOrder(r)
  {
    var n := Fixed(l, k, r);
    match Factor(n)
    case 2 =>
      RotationKeepsOrder(l);
      RotationKeepsOrder(n.(left := if Factor(l) < 0 then RotateLeft(l) else l));
    case -2 =>
      RotationKeepsOrder(r);
      RotationKeepsOrder(n.(right := if Factor(r) > 0 then RotateRight(r) else r));
    case _ =>
  }

  lemma {:induction false} FixedIsAvl(l: Tree, k: int, r: Tree)
    requires Avl(l) && Avl(r) && -1 <= Height(l) - Height(r) <= 1 && Height(l) < 255 && Height(r) < 255
    ensures Avl(Fixed(l, k, r)) && Height(Fixed(l, k, r)) == 1 + Max(Height(l), Height(r))
  {
  }

  /** The nodes of a tree with its left child turned to the right. */
  lemma {:induction false} SingleRight(a: Tree, x: int, b: Tree, k: int, r: Tree)
    requires Avl(a) && Avl(b) && Avl(r) && Height(r) <= Height(b) <= Height(r) + 1 && Height(a) == Height(r) + 1
             && Height(r) < 253
    ensures var u := Fixed(a, x, Fixed(b, k, r)); Avl(u) && Height(r) + 2 <= Height(u) <= Height(r) + 3
  {
    FixedIsAvl(b, k, r);
    FixedIsAvl(a, x, Fixed(b, k, r));
  }

  lemma {:induction false} SingleLeft(l: Tree, k: int, a: Tree, x: int, b: Tree)
    requires Avl(a) && Avl(b) && Avl(l) && Height(l) <= Height(a) <= Height(l) + 1 && Height(b) == Height(l) + 1
             && Height(l) < 253
    ensures var u := Fixed(Fixed(l, k, a), x, b); Avl(u) && Height(l) + 2 <= Height(u) <= Height(l) + 3
  {
    FixedIsAvl(l, k, a);
    FixedIsAvl(Fixed(l, k, a), x, b);
  }

  /** Four trees, two of the same height and two that may be lower by one, below two nodes below one. */
  lemma {:induction false} Double(a: Tree, x: int, b: Tree, y: int, c: Tree, z: int, d: Tree)
    requires Avl(a) && Avl(b) && Avl(c) && Avl(d) && Height(a) == Height(d) < 253
    requires Height(a) - 1 <= Height(b) <= Height(a) && Height(a) - 1 <= Height(c) <= Height(a)
    ensures var u := Fixed(Fixed(a, x, b), y, Fixed(c, z, d)); Avl(u) && Height(u) == Height(a) + 2
  {
    FixedIsAvl(a, x, b);
    FixedIsAvl(c, z, d);
    FixedIsAvl(Fixed(a, x, b), y, Fixed(c, z, d));
  }

  lemma {:induction false} BalanceOfLeftHeavy(l: Tree, k: int, r: Tree)
    requires Avl(l) && Avl(r) && Height(l) == Height(r) + 2 && Height(l) < 255
    ensures Rotatable(l, r) && Avl(Balance(l, k, r)) && Height(l) <= Height(Balance(l, k, r)) <= Height(l) + 1
  {
    if Factor(l) < 0 {
      Double(l.left, l.key, l.right.left, l.right.key, l.right.right, k, r);
    } else {
      SingleRight(l.left, l.key, l.right, k, r);
    }
  }

  lemma {:induction false} BalanceOfRightHeavy(l: Tree, k: int, r: Tree)
    requires Avl(l) && Avl(r) && Height(r) == Height(l) + 2 && Height(r) < 255
    ensures Rotatable(l, r) && Avl(Balance(l, k, r)) && Height(r) <= Height(Balance(l, k, r)) <= Height(r) + 1
  {
    if Factor(r) > 0 {
      Double(l, k, r.left.left, r.left.key, r.left.right, r.key, r.right);
    } else {
      SingleLeft(l, k, r.left, r.key, r.right);
    }
  }

  /** Rebalancing restores the invariant after one child has grown or shrunk by one, keeps the
      sequence of keys, and loses at most one level. */
  lemma {:induction false} BalanceRestores(l: Tree, k: int, r: Tree)
    requires Avl(l) && Avl(r) && -2 <= Height(l) - Height(r) <= 2
    requires Height(l) < 255 && Height(r) < 255
    ensures Rotatable(l, r) && Avl(Balance(l, k, r))
    ensures InOrder(Balance(l, k, r)) == InOrder(l) + [k] + InOrder(r)
    ensures Max(Height(l), Height(r)) <= Height(Balance(l, k, r)) <= Max(Height(l), Height(r)) + 1
    ensures -1 <= Height(l) - Height(r) <= 1 ==> Balance(l, k, r) == Node(l, k, 1 + Max(Height(l), Height(r)), r)
  {
    if Height(l) - Height(r) == 2 {
      BalanceOfLeftHeavy(l, k, r);
    } else if Height(l) - Height(r) == -2 {
      BalanceOfRightHeavy(l, k, r);
    } else {
      FixedIsAvl(l, k, r);
    }
    BalanceKeepsOrder(l, k, r);
  }

  // ---------------------------------------------------------------- insertion

  /** `node_insert`: equal keys go to the right. */
  function Insert(t: Tree, k: int): (r: Tree)
    requires Avl(t) && Height(t) < 254
    ensures Avl(r) && Height(t) <= Height(r) <= Height(t) + 1 && r.Node?
  {
    if t.Leaf? then Node(Leaf, k, 1, Leaf)
    else if k < t.key then
      BalanceRestores(Insert(t.left, k), t.key, t.right);
      Balance(Insert(t.left, k), t.key, t.right)
    else
      BalanceRestores(t.left, t.key, Insert(t.right, k));
      Balance(t.left, t.key, Insert(t.right, k))
  }

  /** `k` is put at position `i`: after everything not greater, before everything greater. */
  ghost predicate IsInsertion(s: seq<int>, r: seq<int>, k: int, i: nat) {
    && i <= |s| && r == s[..i] + [k] + s[i..]
    && (forall p :: 0 <= p < i ==> s[p] <= k)
    && (forall p :: i <= p < |s| ==> k < s[p])
  }

  lemma {:induction false} InsertionAmong(a: seq<int>, x: int, b: seq<int>, k: int, r: seq<int>, i: nat)
    requires Sorted(a + [x] + b)
    ensures k < x && IsInsertion(a, r, k, i) ==> IsInsertion(a + [x] + b, r + [x] + b, k, i)
    ensures k >= x && IsInsertion(b, r, k, i) ==> IsInsertion(a + [x] + b, a + [x] + r, k, |a| + 1 + i)
  {
    SortedParts(a, x, b);
    var s := a + [x] + b;
    if k < x && IsInsertion(a, r, k, i) {
      assert s[..i] == a[..i] && s[i..] == a[i..] + [x] + b;
    }
    if k >= x && IsInsertion(b, r, k, i) {
      assert s[..|a| + 1 + i] == a + [x] + b[..i] && s[|a| + 1 + i..] == b[i..];
    }
  }

  /** Insertion puts the key after all keys that are not greater. */
  lemma {:induction false} InsertPlaces(t: Tree, k: int) returns (i: nat)
    requires Avl(t) && Height(t) < 254 && Sorted(InOrder(t))
    ensures IsInsertion(InOrder(t), InOrder(Insert(t, k)), k, i)
  {
    if t.Leaf? {
      i := 0;
    } else {
      var a, b := InOrder(t.left), InOrder(t.right);
      SortedParts(a, t.key, b);
      if k < t.key {
        i := InsertPlaces(t.left, k);
        BalanceRestores(Insert(t.left, k), t.key, t.right);
        InsertionAmong(a, t.key, b, k, InOrder(Insert(t.left, k)), i);
      } else {
        i := InsertPlaces(t.right, k);
        BalanceRestores(t.left, t.key, Insert(t.right, k));
        InsertionAmong(a, t.key, b, k, InOrder(Insert(t.right, k)), i);
        i := |a| + 1 + i;
      }
    }
  }

  /** A sorted sequence splits into sorted parts on either side of a key. */
  lemma {:induction false} SortedParts(a: seq<int>, k: int, b: seq<int>)
    requires Sorted(a + [k] + b)
    ensures Sorted(a) && Sorted(b)
    ensures forall p :: 0 <= p < |a| ==> a[p] <= k
    ensures forall p :: 0 <= p < |b| ==> k <= b[p]
  {
    var s := a + [k] + b;
    assert forall p :: 0 <= p < |a| ==> s[p] == a[p];
    assert forall p :: 0 <= p < |b| ==> s[|a| + 1 + p] == b[p];
    assert s[|a|] == k;
  }

  // ---------------------------------------------------------------- search and insert-or-get

  /** The loop of `avl_tree_get`, and the recursion of `node_get`. */
  predicate Finds(t: Tree, k: int) {
    t.Node? && (t.key == k || if k > t.key then Finds(t.right, k) else Finds(t.left, k))
  }

  lemma {:induction false} FindsExactly(t: Tree, k: int)
    requires Sorted(InOrder(t))
    ensures Finds(t, k) <==> k in InOrder(t)
  {
    if t.Node? {
      SortedParts(InOrder(t.left), t.key, InOrder(t.right));
      FindsExactly(t.left, k);
      FindsExactly(t.right, k);
    }
  }

  /** `node_insert_or_get`. */
  function InsertOrGet(t: Tree, k: int): (r: Tree)
    requires Avl(t) && Height(t) < 254
    ensures Avl(r) && Height(t) <= Height(r) <= Height(t) + 1
  {
    if t.Leaf? then Node(Leaf, k, 1, Leaf)
    else if k == t.key then t
    else if k < t.key then
      BalanceRestores(InsertOrGet(t.left, k), t.key, t.right);
      Balance(InsertOrGet(t.left, k), t.key, t.right)
    else
      BalanceRestores(t.left, t.key, InsertOrGet(t.right, k));
      Balance(t.left, t.key, InsertOrGet(t.right, k))
  }

  /** Insert-or-get of a present key leaves the tree as it is; of an absent key, it inserts. */
  lemma {:induction false} InsertOrGetExactly(t: Tree, k: int)
    requires Avl(t) && Height(t) < 254
    ensures InsertOrGet(t, k) == if Finds(t, k) then t else Insert(t, k)
  {
    if t.Node? && k != t.key {
      if k < t.key {
        InsertOrGetExactly(t.left, k);
        BalanceRestores(InsertOrGet(t.left, k), t.key, t.right);
      } else {
        InsertOrGetExactly(t.right, k);
        BalanceRestores(t.left, t.key, InsertOrGet(t.right, k));
      }
    }
  }

  // ---------------------------------------------------------------- removal

  function Leftmost(t: Tree): int
    requires t.Node?
  {
    if t.left.Node? then Leftmost(t.left) else t.key
  }

  /** `node_remove_min`. */
  function RemoveMin(t: Tree): (r: Tree)
    requires t.Node? && Avl(t) && Height(t) < 255
    ensures Avl(r) && Height(t) - 1 <= Height(r) <= Height(t)
    ensures InOrder(t) == [Leftmost(t)] + InOrder(r)
  {
    if t.left.Leaf? then t.right
    else
      BalanceRestores(RemoveMin(t.left), t.key, t.right);
      Balance(RemoveMin(t.left), t.key, t.right)
  }

  /** `node_remove`: the node found is replaced with the leftmost one to its right. */
  function Remove(t: Tree, k: int): (r: Tree)
    requires Avl(t) && Height(t) < 255
    ensures Avl(r) && Height(t) - 1 <= Height(r) <= Height(t)
  {
    if t.Leaf? then t
    else if k < t.key then
      BalanceRestores(Remove(t.left, k), t.key, t.right);
      Balance(Remove(t.left, k), t.key, t.right)
    else if k > t.key then
      BalanceRestores(t.left, t.key, Remove(t.right, k));
      Balance(t.left, t.key, Remove(t.right, k))
    else if t.right.Leaf? then t.left
    else
      BalanceRestores(t.left, Leftmost(t.right), RemoveMin(t.right));
      Balance(t.left, Leftmost(t.right), RemoveMin(t.right))
  }

  /** One occurrence of `k`, at position `i`, is gone. */
  ghost predicate IsDeletion(s: seq<int>, r: seq<int>, k: int, i: nat) {
    i < |s| && s[i] == k && r == s[..i] + s[i + 1..]
  }

  lemma {:induction false} DeletionAmong(a: seq<int>, x: int, b: seq<int>, k: int, r: seq<int>, i: nat)
    ensures IsDeletion(a, r, k, i) ==> IsDeletion(a + [x] + b, r + [x] + b, k, i)
    ensures IsDeletion(b, r, k, i) ==> IsDeletion(a + [x] + b, a + [x] + r, k, |a| + 1 + i)
    ensures IsDeletion(a + [x] + b, a + b, x, |a|)
  {
    var s := a + [x] + b;
    if IsDeletion(a, r, k, i) {
      assert s[..i] == a[..i] && s[i + 1..] == a[i + 1..] + [x] + b;
    }
    if IsDeletion(b, r, k, i) {
      assert s[..|a| + 1 + i] == a + [x] + b[..i] && s[|a| + 1 + i + 1..] == b[i + 1..];
    }
    assert s[..|a|] == a && s[|a| + 1..] == b;
  }

  /** Removal of a present key deletes exactly one occurrence of it. */
  lemma {:induction false} RemoveDeletes(t: Tree, k: int) returns (i: nat)
    requires Avl(t) && Height(t) < 255 && Finds(t, k)
    ensures IsDeletion(InOrder(t), InOrder(Remove(t, k)), k, i)
  {
    var a, b := InOrder(t.left), InOrder(t.right);
    if k < t.key {
      i := RemoveDeletes(t.left, k);
      BalanceRestores(Remove(t.left, k), t.key, t.right);
      DeletionAmong(a, t.key, b, k, InOrder(Remove(t.left, k)), i);
    } else if k > t.key {
      i := RemoveDeletes(t.right, k);
      BalanceRestores(t.left, t.key, Remove(t.right, k));
      DeletionAmong(a, t.key, b, k, InOrder(Remove(t.right, k)), i);
      i := |a| + 1 + i;
    } else {
      RemoveOfRoot(t);
      DeletionAmong(a, t.key, b, k, [], 0);
      i := |a|;
    }
  }

  lemma {:induction false} RemoveOfRoot(t: Tree)
    requires t.Node? && Avl(t) && Height(t) < 255
    ensures InOrder(Remove(t, t.key)) == InOrder(t.left) + InOrder(t.right)
  {
    if t.right.Node? {
      BalanceRestores(t.left, Leftmost(t.right), RemoveMin(t.right));
    }
  }

  /** Removing an absent key leaves the tree as it is. */
  lemma {:induction false} RemoveOfAbsent(t: Tree, k: int)
    requires Avl(t) && Height(t) < 255 && !Finds(t, k)
    ensures Remove(t, k) == t
  {
    if t.Node? {
      if k < t.key {
        RemoveOfAbsent(t.left, k);
      } else {
        RemoveOfAbsent(t.right, k);
      }
      BalanceRestores(t.left, t.key, t.right);
    }
  }

  // ---------------------------------------------------------------- every run

  datatype Op = Add(key: int) | AddOrGet(key: int) | Drop(key: int)

  /** A tree and its count, as the API functions keep them. */
  datatype Host = Host(root: Tree, count: nat)

  /** Arithmetic of the host's `size_t`. */
  function SizeT(n: int): (r: nat)
    ensures 0 <= n < SIZE_LIMIT ==> r == n
  {
    n % 0x1_0000_0000_0000_0000
  }

  /** The API call `op`. */
  function Call(h: Host, op: Op): Host
    requires Avl(h.root) && Height(h.root) < 254
  {
    match op
    case Add(k) => Host(Insert(h.root, k), SizeT(h.count + 1))
    case AddOrGet(k) => Host(InsertOrGet(h.root, k), SizeT(h.count + if Finds(h.root, k) then 0 else 1))
    case Drop(k) => Host(Remove(h.root, k), if Finds(h.root, k) then SizeT(h.count - 1) else h.count)
  }

  /** What the calls do to a bag of keys. */
  function Effect(keys: multiset<int>, op: Op): multiset<int> {
    match op
    case Add(k) => keys + multiset{k}
    case AddOrGet(k) => if k in keys then keys else keys + multiset{k}
    case Drop(k) => keys - multiset{k}
  }

  function Bag(ops: seq<Op>): multiset<int> {
    if ops == [] then multiset{} else Effect(Bag(ops[..|ops| - 1]), ops[|ops| - 1])
  }

  ghost predicate Holds(h: Host, keys: multiset<int>) {
    Valid(h.root) && h.count == Size(h.root) && multiset(InOrder(h.root)) == keys
  }

  /** One call keeps the tree valid, counts it and has the effect of the bag operation. */
  lemma {:induction false} CallKeeps(h: Host, op: Op)
    requires Valid(h.root) && h.count == Size(h.root) && h.count + 1 < SIZE_LIMIT
    ensures Height(h.root) < 254
    ensures Holds(Call(h, op), Effect(multiset(InOrder(h.root)), op))
  {
    HeightBound(h.root);
    match op
    case Add(k) => AddKeeps(h, k);
    case AddOrGet(k) => AddOrGetKeeps(h, k);
    case Drop(k) => RemovalKeeps(h, k);
  }

  lemma {:induction false} AddKeeps(h: Host, k: int)
    requires Valid(h.root) && h.count == Size(h.root) && h.count + 1 < SIZE_LIMIT && Height(h.root) < 254
    ensures Holds(Call(h, Add(k)), Effect(multiset(InOrder(h.root)), Add(k)))
  {
    InsertKeeps(h.root, k);
  }

  lemma {:induction false} RemovalKeeps(h: Host, k: int)
    requires Valid(h.root) && h.count == Size(h.root) && h.count + 1 < SIZE_LIMIT && Height(h.root) < 254
    ensures Holds(Call(h, Drop(k)), Effect(multiset(InOrder(h.root)), Drop(k)))
  {
    FindsExactly(h.root, k);
    DropKeeps(h.root, k);
  }

  lemma {:induction false} AddOrGetKeeps(h: Host, k: int)
    requires Valid(h.root) && h.count == Size(h.root) && h.count + 1 < SIZE_LIMIT && Height(h.root) < 254
    ensures Holds(Call(h, AddOrGet(k)), Effect(multiset(InOrder(h.root)), AddOrGet(k)))
  {
    FindsExactly(h.root, k);
    InsertOrGetExactly(h.root, k);
    InsertKeeps(h.root, k);
  }

  lemma {:induction false} InsertKeeps(t: Tree, k: int)
    requires Avl(t) && Height(t) < 254 && Sorted(InOrder(t))
    ensures Sorted(InOrder(Insert(t, k)))
    ensures multiset(InOrder(Insert(t, k))) == multiset(InOrder(t)) + multiset{k}
    ensures Size(Insert(t, k)) == Size(t) + 1
  {
    var i := InsertPlaces(t, k);
    InsertionKeeps(InOrder(t), InOrder(Insert(t, k)), k, i);
  }

  lemma {:induction false} InsertionKeeps(s: seq<int>, r: seq<int>, k: int, i: nat)
    requires Sorted(s) && IsInsertion(s, r, k, i)
    ensures Sorted(r) && multiset(r) == multiset(s) + multiset{k} && |r| == |s| + 1
  {
    assert s == s[..i] + s[i..];
  }

  lemma {:induction false} DropKeeps(t: Tree, k: int)
    requires Avl(t) && Height(t) < 254 && Sorted(InOrder(t))
    ensures Sorted(InOrder(Remove(t, k)))
    ensures multiset(InOrder(Remove(t, k))) == multiset(InOrder(t)) - multiset{k}
    ensures Size(Remove(t, k)) == Size(t) - if Finds(t, k) then 1 else 0
  {
    FindsExactly(t, k);
    if Finds(t, k) {
      var i := RemoveDeletes(t, k);
      DeletionKeeps(InOrder(t), InOrder(Remove(t, k)), k, i);
    } else {
      RemoveOfAbsent(t, k);
    }
  }

  lemma {:induction false} DeletionKeeps(s: seq<int>, r: seq<int>, k: int, i: nat)
    requires Sorted(s) && IsDeletion(s, r, k, i)
    ensures Sorted(r) && multiset(r) == multiset(s) - multiset{k} && |r| == |s| - 1
  {
    assert s == s[..i] + [k] + s[i + 1..];
  }

  /** The state after a list of calls on an empty tree, as long as the keys can be counted. */
  ghost predicate Reaches(ops: seq<Op>, h: Host)
  {
    if ops == [] then h == Host(Leaf, 0)
    else exists g :: Reaches(ops[..|ops| - 1], g) && Avl(g.root) && Height(g.root) < 254 && h == Call(g, ops[|ops| - 1])
  }

  /** Every run of API calls: balance factors, stored heights, order, count and contents. */
  lemma {:induction false} EveryRunHolds(ops: seq<Op>, h: Host)
    requires Reaches(ops, h) && |ops| < SIZE_LIMIT
    ensures Holds(h, Bag(ops)) && h.count <= |ops|
  {
    if ops != [] {
      var g :| Reaches(ops[..|ops| - 1], g) && Avl(g.root) && Height(g.root) < 254 && h == Call(g, ops[|ops| - 1]);
      EveryRunHolds(ops[..|ops| - 1], g);
      CallKeeps(g, ops[|ops| - 1]);
    }
  }

  lemma {:induction false} OneCallMore(ops: seq<Op>, g: Host, op: Op)
    requires Reaches(ops, g) && Avl(g.root) && Height(g.root) < 254
    ensures Reaches(ops + [op], Call(g, op))
  {
    assert (ops + [op])[..|ops|] == ops;
  }

  /** ... and every list of fewer calls than can be counted is such a run. */
  lemma {:induction false} EveryRunGoesOn(ops: seq<Op>) returns (h: Host)
    requires |ops| < SIZE_LIMIT
    ensures Reaches(ops, h)
  {
    if ops == [] {
      h := Host(Leaf, 0);
    } else {
      var g := EveryRunGoesOn(ops[..|ops| - 1]);
      EveryRunHolds(ops[..|ops| - 1], g);
      HeightBound(g.root);
      h := Call(g, ops[|ops| - 1]);
    }
  }
}
