/** Circular doubly linked lists (list.h:11-81). */
module CircularList {
  import opened Common

  class ListHead {
    var next: ListHead
    var prev: ListHead

    /** INIT_LIST_HEAD. */
    constructor ()
      ensures Ring(this, [])
    {
      next, prev := this, this;
    }
  }

  /** The head, the elements in order, and the head again. */
  function Place(head: ListHead, xs: seq<ListHead>, i: nat): ListHead {
    if 0 < i <= |xs| then xs[i - 1] else head
  }

  ghost predicate Joined(x: ListHead, y: ListHead)
    reads x, y
  {
    x.next == y && y.prev == x
  }

  ghost predicate Simple(head: ListHead, xs: seq<ListHead>) {
    && (forall i :: 0 <= i < |xs| ==> xs[i] != head)
    && forall i, j :: 0 <= i < j < |xs| ==> xs[i] != xs[j]
  }

  /** One cycle through the head and the elements, the same both ways round. */
  ghost predicate Ring(head: ListHead, xs: seq<ListHead>)
    reads head, xs
  {
    && Simple(head, xs)
    && forall i :: 0 <= i <= |xs| ==> Joined(Place(head, xs, i), Place(head, xs, i + 1))
  }

  /** `next` and `prev` undo each other all round the ring. */
  lemma Inverse(head: ListHead, xs: seq<ListHead>, x: ListHead)
    requires Ring(head, xs) && (x == head || x in xs)
    ensures x.next.prev == x && x.prev.next == x
    ensures (x.next == head || x.next in xs) && (x.prev == head || x.prev in xs)
  {
    var i := if x == head then 0 else var k :| 0 <= k < |xs| && xs[k] == x; k + 1;
    assert Joined(Place(head, xs, i), Place(head, xs, i + 1));
    var j := if x == head then |xs| else i - 1;
    assert Joined(Place(head, xs, j), Place(head, xs, j + 1));
  }

  function Inserted(xs: seq<ListHead>, k: nat, x: ListHead): (r: seq<ListHead>)
    requires k <= |xs|
    ensures |r| == |xs| + 1
    ensures forall i :: 0 <= i < |r| ==> r[i] == if i < k then xs[i] else if i == k then x else xs[i - 1]
  {
    xs[..k] + [x] + xs[k..]
  }

  method ListAddBetween(
      x: ListHead, prev: ListHead, next: ListHead, ghost head: ListHead, ghost xs: seq<ListHead>, ghost k: nat)
    requires Ring(head, xs) && k <= |xs| && prev == Place(head, xs, k) && next == Place(head, xs, k + 1)
    requires x != head && x !in xs
    modifies x, prev, next
    ensures Ring(head, Inserted(xs, k, x))
  {
    next.prev := x;
    x.next := next;
    x.prev := prev;
    prev.next := x;
    ghost var added := Inserted(xs, k, x);
    forall i | 0 <= i <= |added| ensures Joined(Place(head, added, i), Place(head, added, i + 1)) {
      if i < k {
        assert old(Joined(Place(head, xs, i), Place(head, xs, i + 1)));
      } else if i > k + 1 {
        assert old(Joined(Place(head, xs, i - 1), Place(head, xs, i)));
      }
    }
  }

  method ListAdd(x: ListHead, head: ListHead, ghost xs: seq<ListHead>)
    requires Ring(head, xs) && x != head && x !in xs
    modifies x, head, head.next
    ensures Ring(head, [x] + xs)
  {
    assert Joined(Place(head, xs, 0), Place(head, xs, 1));
    ListAddBetween(x, head, head.next, head, xs, 0);
    assert Inserted(xs, 0, x) == [x] + xs;
  }

  method ListAddTail(x: ListHead, head: ListHead, ghost xs: seq<ListHead>)
    requires Ring(head, xs) && x != head && x !in xs
    modifies x, head, head.prev
    ensures Ring(head, xs + [x])
  {
    assert Joined(Place(head, xs, |xs|), Place(head, xs, |xs| + 1));
    ListAddBetween(x, head.prev, head, head, xs, |xs|);
    assert Inserted(xs, |xs|, x) == xs + [x];
  }

  lemma SimpleWithout(head: ListHead, xs: seq<ListHead>, k: nat)
    requires Simple(head, xs) && k < |xs|
    ensures Simple(head, Without(xs, k))
  {
  }

  method ListDel(entry: ListHead, ghost head: ListHead, ghost xs: seq<ListHead>, ghost k: nat)
    requires Ring(head, xs) && k < |xs| && xs[k] == entry
    modifies entry.prev, entry.next
    ensures Ring(head, Without(xs, k))
    ensures entry.next == old(entry.next) && entry.next == Place(head, xs, k + 2)
  {
    assert Joined(Place(head, xs, k), Place(head, xs, k + 1));
    assert Joined(Place(head, xs, k + 1), Place(head, xs, k + 2));
    var prev, next := entry.prev, entry.next;
    next.prev := prev;
    prev.next := next;
    ghost var rest := Without(xs, k);
    SimpleWithout(head, xs, k);
    forall i | 0 <= i <= |rest| ensures Joined(Place(head, rest, i), Place(head, rest, i + 1)) {
      if i < k {
        assert old(Joined(Place(head, xs, i), Place(head, xs, i + 1)));
      } else if i > k {
        assert old(Joined(Place(head, xs, i + 1), Place(head, xs, i + 2)));
      }
    }
  }

  // ---- Traversals ---------------------------------------------------------------

  function Reversed<T>(s: seq<T>): (r: seq<T>)
    ensures |r| == |s|
  {
    if s == [] then [] else Reversed(s[1..]) + [s[0]]
  }

  lemma {:induction false} ReversedAt<T>(s: seq<T>, i: nat)
    requires i < |s|
    ensures Reversed(s)[i] == s[|s| - 1 - i]
  {
    if i < |s| - 1 { ReversedAt(s[1..], i); }
  }

  /** list_for_each_entry. */
  method ForEach(head: ListHead, ghost xs: seq<ListHead>) returns (visited: seq<ListHead>)
    requires Ring(head, xs)
    ensures visited == xs
  {
    visited := [];
    assert Joined(Place(head, xs, 0), Place(head, xs, 1));
    var pos := head.next;
    while pos != head
      invariant |visited| <= |xs| && visited == xs[..|visited|] && pos == Place(head, xs, |visited| + 1)
      decreases |xs| - |visited|
    {
      visited := visited + [pos];
      assert Joined(Place(head, xs, |visited|), Place(head, xs, |visited| + 1));
      pos := pos.next;
    }
  }

  /** list_for_each_entry_reverse. */
  method ForEachReverse(head: ListHead, ghost xs: seq<ListHead>) returns (visited: seq<ListHead>)
    requires Ring(head, xs)
    ensures visited == Reversed(xs)
  {
    visited := [];
    assert Joined(Place(head, xs, |xs|), Place(head, xs, |xs| + 1));
    var pos := head.prev;
    while pos != head
      invariant |visited| <= |xs| && pos == Place(head, xs, |xs| - |visited|)
      invariant forall i :: 0 <= i < |visited| ==> visited[i] == xs[|xs| - 1 - i]
      decreases |xs| - |visited|
    {
      visited := visited + [pos];
      assert Joined(Place(head, xs, |xs| - |visited|), Place(head, xs, |xs| - |visited| + 1));
      pos := pos.prev;
    }
    forall i | 0 <= i < |xs| ensures visited[i] == Reversed(xs)[i] { ReversedAt(xs, i); }
  }

  function Kept(xs: seq<ListHead>, drop: ListHead -> bool): seq<ListHead> {
    if xs == [] then [] else (if drop(xs[0]) then [] else [xs[0]]) + Kept(xs[1..], drop)
  }

  function First(head: ListHead, todo: seq<ListHead>): ListHead {
    if todo == [] then head else todo[0]
  }

  /** What the element at hand and those before it leave of the list. */
  function Sofar(kept: seq<ListHead>, pos: ListHead, drop: ListHead -> bool): seq<ListHead> {
    if drop(pos) then kept else kept + [pos]
  }

  lemma RingNext(head: ListHead, kept: seq<ListHead>, todo: seq<ListHead>)
    requires Ring(head, kept + todo) && todo != []
    ensures todo[0] != head && todo[0].next == First(head, todo[1..])
    ensures todo[0].prev == head || todo[0].prev in kept + todo
    ensures todo[0].next == head || todo[0].next in kept + todo
  {
    var ring := kept + todo;
    assert ring[|kept|] == todo[0];
    assert Joined(Place(head, ring, |kept| + 1), Place(head, ring, |kept| + 2));
    Inverse(head, ring, todo[0]);
  }

  /** The body of the safe traversal, which deletes the element when `drop` picks it. */
  method Visit(
      pos: ListHead, head: ListHead, ghost kept: seq<ListHead>, ghost todo: seq<ListHead>, drop: ListHead -> bool)
    requires todo != [] && todo[0] == pos && Ring(head, kept + todo)
    modifies pos.prev, pos.next
    ensures Ring(head, Sofar(kept, pos, drop) + todo[1..])
  {
    ghost var ring, k := kept + todo, |kept|;
    assert ring[k] == pos;
    hide Ring;
    if drop(pos) {
      ListDel(pos, head, ring, k);
      assert Without(ring, k) == kept + todo[1..];
    } else {
      assert ring == (kept + [pos]) + todo[1..];
    }
  }

  lemma KeptStep(kept: seq<ListHead>, todo: seq<ListHead>, drop: ListHead -> bool)
    requires todo != []
    ensures kept + Kept(todo, drop) == Sofar(kept, todo[0], drop) + Kept(todo[1..], drop)
  {
    var rest := Kept(todo[1..], drop);
    assert Kept(todo, drop) == (if drop(todo[0]) then [] else [todo[0]]) + rest;
    hide Kept;
    if drop(todo[0]) {
      assert [] + rest == rest;
    } else {
      assert kept + ([todo[0]] + rest) == kept + [todo[0]] + rest;
    }
  }

  /** list_for_each_entry_safe: every element is visited, whichever of them are deleted on the way. */
  method ForEachSafe(head: ListHead, ghost xs: seq<ListHead>, drop: ListHead -> bool) returns (visited: seq<ListHead>)
    requires Ring(head, xs)
    modifies head, xs
    ensures visited == xs
    ensures Ring(head, Kept(xs, drop))
  {
    visited := [];
    ghost var kept: seq<ListHead>, todo := [], xs;
    assert kept + todo == xs;
    assert Joined(Place(head, xs, 0), Place(head, xs, 1));
    var pos := head.next;
    hide Ring, Kept, Sofar;
    var n := pos.next;
    while pos != head
      invariant xs == visited + todo && pos == First(head, todo)
      invariant (forall x :: x in kept ==> x in xs) && Ring(head, kept + todo)
      invariant kept + Kept(todo, drop) == Kept(xs, drop)
      invariant n == pos.next
      decreases |todo|
    {
      RingNext(head, kept, todo);
      KeptStep(kept, todo, drop);
      InRing(kept, todo, visited, xs, drop);
      Visit(pos, head, kept, todo, drop);
      kept := Sofar(kept, pos, drop);
      todo := todo[1..];
      visited := visited + [pos];
      pos := n;
      n := n.next;
    }
    NoneLeft(head, kept, todo, drop);
  }

  lemma InRing(
      kept: seq<ListHead>, todo: seq<ListHead>, visited: seq<ListHead>, xs: seq<ListHead>, drop: ListHead -> bool)
    requires todo != [] && xs == visited + todo && forall x :: x in kept ==> x in xs
    ensures xs == visited + [todo[0]] + todo[1..]
    ensures forall x :: x in kept + todo ==> x in xs
    ensures forall x :: x in Sofar(kept, todo[0], drop) ==> x in xs
  {
    assert todo[0] in xs;
  }

  lemma RingElement(head: ListHead, kept: seq<ListHead>, todo: seq<ListHead>)
    requires Ring(head, kept + todo)
    ensures todo != [] ==> todo[0] != head
  {
    if todo != [] { assert (kept + todo)[|kept|] == todo[0]; }
  }

  lemma NoneLeft(head: ListHead, kept: seq<ListHead>, todo: seq<ListHead>, drop: ListHead -> bool)
    requires First(head, todo) == head && Ring(head, kept + todo)
    ensures todo == [] && kept + todo == kept && kept + Kept(todo, drop) == kept
  {
    RingElement(head, kept, todo);
  }
}
