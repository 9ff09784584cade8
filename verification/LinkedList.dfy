/** The doubly linked list (supertel/lib/containers.c): every operation acts on the sequence of elements, and keeps the
    links in both directions, the ends and the count exact. */
module LinkedLists {

  class Element {
    var prev: Element?
    var next: Element?

    constructor ()
      ensures prev == null && next == null
    {
      prev, next := null, null;
    }
  }

  /** The element at a position, null beyond either end. */
  function At(es: seq<Element>, i: int): Element? {
    if 0 <= i < |es| then es[i] else null
  }

  function Inserted(es: seq<Element>, i: nat, x: Element): seq<Element>
    requires i <= |es|
  {
    es[..i] + [x] + es[i..]
  }

  function Without(es: seq<Element>, i: nat): seq<Element>
    requires i < |es|
  {
    es[..i] + es[i + 1..]
  }

  ghost predicate Distinct(es: seq<Element>) {
    forall i, j :: 0 <= i < j < |es| ==> es[i] != es[j]
  }

  /** The links of every element lead to its neighbours. */
  ghost predicate Chained(es: seq<Element>)
    reads es
  {
    && (forall i {:trigger es[i].prev} :: 0 <= i < |es| ==> es[i].prev == At(es, i - 1))
    && (forall i {:trigger es[i].next} :: 0 <= i < |es| ==> es[i].next == At(es, i + 1))
  }

  /** The links around a new element `x` at position `i`, and those of all others as they were. */
  ghost predicate Spliced(es: seq<Element>, i: nat, x: Element)
    requires i <= |es|
    reads es, x
  {
    && x.prev == At(es, i - 1) && x.next == At(es, i)
    && (forall j {:trigger es[j].prev} :: 0 <= j < |es| ==> es[j].prev == if j == i then x else At(es, j - 1))
    && (forall j {:trigger es[j].next} :: 0 <= j < |es| ==> es[j].next == if j == i - 1 then x else At(es, j + 1))
  }

  /** The element at each position after an insertion. */
  lemma AtInserted(es: seq<Element>, i: nat, x: Element, j: int)
    requires i <= |es|
    ensures At(Inserted(es, i, x), j) == if j < i then At(es, j) else if j == i then x else At(es, j - 1)
  {
  }

  lemma InsertedIsDistinct(es: seq<Element>, i: nat, x: Element)
    requires i <= |es| && Distinct(es) && x !in es
    ensures Distinct(Inserted(es, i, x))
  {
    var r := Inserted(es, i, x);
    forall p, q | 0 <= p < q < |r| ensures r[p] != r[q] {
      AtInserted(es, i, x, p);
      AtInserted(es, i, x, q);
    }
  }

  lemma SplicedIsChained(es: seq<Element>, i: nat, x: Element)
    requires i <= |es| && Spliced(es, i, x)
    ensures Chained(Inserted(es, i, x))
  {
    var r := Inserted(es, i, x);
    forall j | 0 <= j < |r| ensures r[j].prev == At(r, j - 1) && r[j].next == At(r, j + 1) {
      AtInserted(es, i, x, j - 1);
      AtInserted(es, i, x, j);
      AtInserted(es, i, x, j + 1);
    }
  }

  /** The links around the element at position `i`, which lead past it, and those of all others as they were. */
  ghost predicate Bypassed(es: seq<Element>, i: nat)
    requires i < |es|
    reads es
  {
    && (forall j {:trigger es[j].prev} :: 0 <= j < |es| && j != i ==> es[j].prev == if j == i + 1 then At(es, i - 1)
        else At(es, j - 1))
    && (forall j {:trigger es[j].next} :: 0 <= j < |es| && j != i ==> es[j].next == if j == i - 1 then At(es, i + 1)
        else At(es, j + 1))
  }

  lemma AtWithout(es: seq<Element>, i: nat, j: int)
    requires i < |es|
    ensures At(Without(es, i), j) == if j < i then At(es, j) else At(es, j + 1)
  {
  }

  lemma WithoutIsDistinct(es: seq<Element>, i: nat)
    requires i < |es| && Distinct(es)
    ensures Distinct(Without(es, i))
  {
    var r := Without(es, i);
    forall p, q | 0 <= p < q < |r| ensures r[p] != r[q] {
      AtWithout(es, i, p);
      AtWithout(es, i, q);
    }
  }

  lemma BypassedIsChained(es: seq<Element>, i: nat)
    requires i < |es| && Bypassed(es, i)
    ensures Chained(Without(es, i))
  {
    var r := Without(es, i);
    forall j | 0 <= j < |r| ensures r[j].prev == At(r, j - 1) && r[j].next == At(r, j + 1) {
      AtWithout(es, i, j - 1);
      AtWithout(es, i, j);
      AtWithout(es, i, j + 1);
    }
  }

  /** Set the forward link of the element at `p`, if there is one. */
  method LinkForward(el: Element?, to: Element?, ghost es: seq<Element>, ghost p: int)
    requires Distinct(es) && el == At(es, p)
    modifies {el}`next
    ensures forall j {:trigger es[j].next} :: 0 <= j < |es| ==> es[j].next == if j == p then to else old(es[j].next)
  {
    if el != null { el.next := to; }
  }

  /** Set the backward link of the element at `p`, if there is one. */
  method LinkBackward(el: Element?, to: Element?, ghost es: seq<Element>, ghost p: int)
    requires Distinct(es) && el == At(es, p)
    modifies {el}`prev
    ensures forall j {:trigger es[j].prev} :: 0 <= j < |es| ==> es[j].prev == if j == p then to else old(es[j].prev)
  {
    if el != null { el.prev := to; }
  }

  /** A new element takes its place at `i`. */
  method Place(prev: Element?, next: Element?, ghost es: seq<Element>, ghost i: nat) returns (x: Element)
    requires Distinct(es) && Chained(es) && i <= |es| && prev == At(es, i - 1) && next == At(es, i)
    modifies {prev}`next, {next}`prev
    ensures fresh(x)
    ensures var r := Inserted(es, i, x);
            && Distinct(r) && Chained(r)
            && At(r, 0) == (if i == 0 then x else At(es, 0)) && At(r, |es|) == if i == |es| then x else At(es, |es| - 1)
  {
    x := new Element();
    x.prev := prev;
    x.next := next;
    LinkForward(prev, x, es, i - 1);
    LinkBackward(next, x, es, i);
    assert Spliced(es, i, x);
    InsertedIsDistinct(es, i, x);
    SplicedIsChained(es, i, x);
  }

  /** The neighbours of the element at `i` are linked to each other. */
  method Bypass(el: Element, ghost es: seq<Element>, ghost i: nat)
    requires Distinct(es) && Chained(es) && i < |es| && el == es[i]
    modifies {el.prev}`next, {el.next}`prev
    ensures var r := Without(es, i);
            && Distinct(r) && Chained(r)
            && At(r, 0) == At(es, if i == 0 then 1 else 0)
                && At(r, |es| - 2) == At(es, if i == |es| - 1 then |es| - 2 else |es| - 1)
  {
    var prev, next := el.prev, el.next;
    LinkForward(prev, next, es, i - 1);
    LinkBackward(next, prev, es, i + 1);
    assert Bypassed(es, i);
    WithoutIsDistinct(es, i);
    BypassedIsChained(es, i);
  }

  /** An element stands at one end only if it is the one there. */
  lemma OnlyAtEnd(es: seq<Element>, p: nat)
    requires Distinct(es) && p < |es|
    ensures es[p] == At(es, 0) <==> p == 0
    ensures es[p] == At(es, |es| - 1) <==> p == |es| - 1
  {
  }

  class List {
    var front: Element?
    var back: Element?
    var count: nat
    ghost var elements: seq<Element>

    /** The links in both directions and the ends are exact. */
    ghost predicate Valid()
      reads this, elements
    {
      && Distinct(elements) && Chained(elements)
      && front == At(elements, 0) && back == At(elements, |elements| - 1)
    }

    /** The count is exact, which it is not after every call: see `RemoveAndAdvance`. */
    ghost predicate Counted()
      reads this
    {
      count == |elements|
    }

    constructor ()
      ensures Valid() && Counted() && elements == []
    {
      front, back, count, elements := null, null, 0, [];
    }

    method Prepend() returns (el: Element)
      requires Valid()
      modifies this, elements
      ensures Valid() && fresh(el) && elements == Inserted(old(elements), 0, el) && count == old(count) + 1
    {
      el := Place(null, front, elements, 0);
      front := el;
      if back == null { back := el; }
      count := count + 1;
      elements := Inserted(elements, 0, el);
    }

    method Append() returns (el: Element)
      requires Valid()
      modifies this, elements
      ensures Valid() && fresh(el) && elements == Inserted(old(elements), |old(elements)|, el)
              && count == old(count) + 1
    {
      el := Place(back, null, elements, |elements|);
      back := el;
      if front == null { front := el; }
      count := count + 1;
      elements := Inserted(elements, |elements|, el);
    }

    /** Without an element to follow, the new one comes first. */
    method AddAfter(el: Element?, ghost p: int) returns (x: Element)
      requires Valid() && el == At(elements, p) && -1 <= p < |elements|
      modifies this, elements
      ensures Valid() && fresh(x) && elements == Inserted(old(elements), p + 1, x) && count == old(count) + 1
    {
      if el == null {
        x := Prepend();
        return;
      }
      OnlyAtEnd(elements, p);
      x := Place(el, el.next, elements, p + 1);
      front := if front == null then x else front;
      back := if back == null || back == el then x else back;
      count := count + 1;
      elements := Inserted(elements, p + 1, x);
    }

    /** Without an element to precede, the new one comes last. */
    method AddBefore(el: Element?, ghost p: nat) returns (x: Element)
      requires Valid() && el == At(elements, p) && p <= |elements|
      modifies this, elements
      ensures Valid() && fresh(x) && elements == Inserted(old(elements), p, x) && count == old(count) + 1
    {
      if el == null {
        x := Append();
        return;
      }
      OnlyAtEnd(elements, p);
      x := Place(el.prev, el, elements, p);
      front := if front == null || front == el then x else front;
      back := if back == null then x else back;
      count := count + 1;
      elements := Inserted(elements, p, x);
    }

    /** The element after the removed one is returned. Without an element to remove nothing is removed, but counted, so
        that an exact count stays exact if and only if there is one or the list is empty; and once the count is zero,
        nothing is removed at all. */
    method RemoveAndAdvance(el: Element?, ghost p: nat) returns (next: Element?)
      requires Valid() && el == At(elements, p) && p <= |elements|
      modifies this, elements
      ensures Valid() && count == if old(count) == 0 then 0 else old(count) - 1
      ensures if old(count) == 0 || el == null then elements == old(elements) && next == null
              else elements == Without(old(elements), p) && next == At(elements, p)
      ensures old(Counted()) ==> (Counted() <==> el != null || old(elements) == [])
    {
      if count == 0 { return null; }
      if el == null {
        count := count - 1;
        return null;
      }
      next := Take(el, p);
      count := count - 1;
    }

    /** An element leaves the list. */
    method Take(el: Element, ghost p: nat) returns (next: Element?)
      requires Valid() && p < |elements| && el == elements[p]
      modifies this`front, this`back, this`elements, elements
      ensures Valid() && elements == Without(old(elements), p) && next == At(elements, p)
    {
      OnlyAtEnd(elements, p);
      var prev := el.prev;
      next := el.next;
      front := if el == front then next else front;
      back := if el == back then prev else back;
      Bypass(el, elements, p);
      elements := Without(elements, p);
    }
  }
}
