/**
 Hash chains (list.h:83-112).

 A node points at the next one and back at the pointer that points at it. That back pointer
 is a pointer to a pointer in C; here it says which pointer it is, that of the chain's head
 or the `next` of another node.
 */
module HashList {
  import opened Common

  /** The structure a node is embedded in, as `container_of` finds it. */
  datatype Entry = Entry(index: nat, kind: nat, name: string)

  class Head {
    var first: Node?

    constructor ()
      ensures first == null
    {
      first := null;
    }
  }

  datatype Link = Nowhere | AtHead(head: Head) | AtNext(node: Node)

  class Node {
    var next: Node?
    var pprev: Link
    const entry: Entry

    constructor (e: Entry)
      ensures entry == e && next == null && pprev == Nowhere
    {
      entry, next, pprev := e, null, Nowhere;
    }
  }

  function At(ns: seq<Node>, i: nat): Node? {
    if i < |ns| then ns[i] else null
  }

  ghost predicate Distinct(ns: seq<Node>) {
    forall i, j :: 0 <= i < j < |ns| ==> ns[i] != ns[j]
  }

  function Back(h: Head, ns: seq<Node>, i: nat): Link
    requires i < |ns|
  {
    if i == 0 then AtHead(h) else AtNext(ns[i - 1])
  }

  ghost predicate Linked(h: Head, ns: seq<Node>, i: nat)
    requires i < |ns|
    reads ns[i]
  {
    ns[i].next == At(ns, i + 1) && ns[i].pprev == Back(h, ns, i)
  }

  /** The chain of `h` is `ns`: forward pointers, back pointers, no node twice. */
  ghost predicate Chain(h: Head, ns: seq<Node>)
    reads h, ns
  {
    && h.first == At(ns, 0)
    && (forall i :: 0 <= i < |ns| ==> Linked(h, ns, i))
    && Distinct(ns)
  }

  ghost function Deref(link: Link): Node?
    requires !link.Nowhere?
    reads if link.AtHead? then {link.head} else {}, if link.AtNext? then {link.node} else {}
  {
    match link case AtHead(h) => h.first case AtNext(n) => n.next
  }

  /** In a chain every node is what its back pointer points at. */
  lemma BackPointers(h: Head, ns: seq<Node>, i: nat)
    requires Chain(h, ns) && i < |ns|
    ensures !ns[i].pprev.Nowhere? && Deref(ns[i].pprev) == ns[i]
  {
    assert Linked(h, ns, i);
    if i > 0 { assert Linked(h, ns, i - 1); }
  }

  /** No node is in the chains of two heads. */
  lemma {:induction false} Apart(h: Head, ns: seq<Node>, g: Head, ms: seq<Node>, i: nat, j: nat)
    requires Chain(h, ns) && Chain(g, ms) && h != g && i < |ns| && j < |ms|
    ensures ns[i] != ms[j]
    decreases i
  {
    assert Linked(h, ns, i) && Linked(g, ms, j);
    if i > 0 && j > 0 {
      Apart(h, ns, g, ms, i - 1, j - 1);
    }
  }

  /** A head has one chain. */
  lemma {:induction false} SameChain(h: Head, ns: seq<Node>, ms: seq<Node>, k: nat)
    requires Chain(h, ns) && Chain(h, ms) && k <= |ns| && k <= |ms| && ns[..k] == ms[..k]
    ensures ns == ms
    decreases |ns| - k
  {
    if k > 0 {
      assert ns[..k][k - 1] == ms[..k][k - 1];
      assert Linked(h, ns, k - 1) && Linked(h, ms, k - 1);
    }
    assert At(ns, k) == At(ms, k);
    hide Chain, Linked;
    if k < |ns| {
      assert ns[..k + 1] == ns[..k] + [ns[k]] && ms[..k + 1] == ms[..k] + [ms[k]];
      SameChain(h, ns, ms, k + 1);
    }
  }

  method HlistAddHead(n: Node, h: Head, ghost ns: seq<Node>)
    requires Chain(h, ns) && n !in ns
    modifies h, n, if ns == [] then {} else {ns[0]}
    ensures Chain(h, [n] + ns)
  {
    var first := h.first;
    n.next := first;
    if first != null {
      first.pprev := AtNext(n);
    }
    h.first := n;
    n.pprev := AtHead(h);
    ghost var added := [n] + ns;
    forall i | 0 <= i < |added| ensures Linked(h, added, i) {
      if i > 0 { assert old(Linked(h, ns, i - 1)); }
    }
  }

  ghost function Neighbours(h: Head, ns: seq<Node>, k: nat): set<object>
    requires k < |ns|
  {
    {if k == 0 then h else ns[k - 1]} + if k + 1 < |ns| then {ns[k + 1]} else {}
  }

  lemma DistinctWithout(ns: seq<Node>, k: nat)
    requires Distinct(ns) && k < |ns|
    ensures Distinct(Without(ns, k))
  {
  }

  /** The node is taken out of whatever chain it is in; its own pointers are left as they are. */
  method HlistDel(n: Node, ghost h: Head, ghost ns: seq<Node>, ghost k: nat)
    requires Chain(h, ns) && k < |ns| && ns[k] == n
    modifies Neighbours(h, ns, k)
    ensures Chain(h, Without(ns, k))
  {
    assert Linked(h, ns, k);
    var next, pprev := n.next, n.pprev;
    match pprev {
      case AtHead(head) => head.first := next;
      case AtNext(node) => node.next := next;
    }
    if next != null {
      next.pprev := pprev;
    }
    ghost var rest := Without(ns, k);
    DistinctWithout(ns, k);
    forall i | 0 <= i < |rest| ensures Linked(h, rest, i) {
      ghost var j := if i < k then i else i + 1;
      assert old(Linked(h, ns, j)) && rest[i] == ns[j];
      assert At(rest, i + 1) == if j + 1 == k then At(ns, k + 1) else At(ns, j + 1);
      assert Back(h, rest, i) == if j == k + 1 then Back(h, ns, k) else Back(h, ns, j);
    }
  }
}
