/** The interface cache, hashed by index (ll_map.c:27-85). */
module LlMap {
  import opened Bytes
  import opened BitOps
  import opened Common
  import opened HashList
  import opened Text

  const IDXMAP_SIZE := 1024
  const IFNAMSIZ := 16

  function Bucket(index: nat): (b: nat)
    ensures b < IDXMAP_SIZE
  {
    AndLowMask(index, 10);
    assert Pow2(10) == 1024 by { PowAdd(5, 5); }
    And(index, IDXMAP_SIZE - 1)
  }

  /** The nodes of one bucket, in the same order. */
  ghost function InBucket(live: seq<Node>, b: nat): (r: seq<Node>)
    ensures forall i :: 0 <= i < |r| ==> r[i] in live && Bucket(r[i].entry.index) == b
    ensures forall m :: m in live && Bucket(m.entry.index) == b ==> m in r
  {
    if live == [] then []
    else
      var rest := InBucket(live[1..], b);
      assert live == [live[0]] + live[1..];
      if Bucket(live[0].entry.index) == b then [live[0]] + rest else rest
  }

  lemma BucketCons(n: Node, live: seq<Node>, b: nat)
    ensures InBucket([n] + live, b) == if Bucket(n.entry.index) == b then [n] + InBucket(live, b) else InBucket(live, b)
  {
    assert ([n] + live)[1..] == live;
  }

  /** Where the `j`th live node stands in its bucket. */
  ghost function Position(live: seq<Node>, j: nat): nat
    requires j < |live|
  {
    |InBucket(live[..j], Bucket(live[j].entry.index))|
  }

  /** Taking out a node leaves the other buckets alone. */
  lemma {:induction false} OtherBucket(live: seq<Node>, j: nat, b: nat)
    requires j < |live| && b != Bucket(live[j].entry.index)
    ensures InBucket(Without(live, j), b) == InBucket(live, b)
  {
    hide Bucket, InBucket, Without;
    var head, rest := live[0], live[1..];
    assert live == [head] + rest;
    BucketCons(head, rest, b);
    WithoutCons(head, rest, j);
    if j > 0 {
      OtherBucket(rest, j - 1, b);
      BucketCons(head, Without(rest, j - 1), b);
    }
  }

  /** Taking out a node takes it out of its bucket, where it stands at its position. */
  lemma {:induction false} OwnBucket(live: seq<Node>, j: nat, b: nat, k: nat)
    requires j < |live| && b == Bucket(live[j].entry.index) && k == Position(live, j)
    ensures k < |InBucket(live, b)| && InBucket(live, b)[k] == live[j]
    ensures InBucket(Without(live, j), b) == Without(InBucket(live, b), k)
  {
    hide Bucket, InBucket, Without;
    var head, rest := live[0], live[1..];
    assert live == [head] + rest;
    BucketCons(head, rest, b);
    WithoutCons(head, rest, j);
    if j == 0 {
      NoneBefore(live, b);
      WithoutCons(head, InBucket(rest, b), 0);
    } else {
      assert live[..j] == [head] + rest[..j - 1];
      BucketCons(head, rest[..j - 1], b);
      BucketCons(head, Without(rest, j - 1), b);
      var k' := Position(rest, j - 1);
      OwnBucket(rest, j - 1, b, k');
      if b == Bucket(head.entry.index) { WithoutCons(head, InBucket(rest, b), k); }
    }
  }

  lemma NoneBefore(live: seq<Node>, b: nat)
    ensures InBucket(live[..0], b) == []
  {
  }

  lemma WithoutCons<T>(x: T, s: seq<T>, k: nat)
    requires k <= |s|
    ensures Without([x] + s, k) == if k == 0 then s else [x] + Without(s, k - 1)
  {
  }

  // ---- Looking up ---------------------------------------------------------------

  ghost function Find(ns: seq<Node>, index: nat): Node? {
    if ns == [] then null else if ns[0].entry.index == index then ns[0] else Find(ns[1..], index)
  }

  /** The most recently added entry of each index. */
  ghost function Latest(live: seq<Node>): map<nat, Entry> {
    if live == [] then map[] else Latest(live[1..])[live[0].entry.index := live[0].entry]
  }

  lemma {:induction false} FindIsLatest(live: seq<Node>, index: nat)
    ensures Find(live, index) == null <==> index !in Latest(live)
    ensures Find(live, index) != null ==> Find(live, index).entry == Latest(live)[index]
  {
    if live != [] { FindIsLatest(live[1..], index); }
  }

  /** One bucket is enough to look through. */
  lemma {:induction false} FindInBucket(live: seq<Node>, index: nat)
    ensures Find(InBucket(live, Bucket(index)), index) == Find(live, index)
  {
    hide Bucket;
    if live != [] {
      FindInBucket(live[1..], index);
      assert live == [live[0]] + live[1..];
      BucketCons(live[0], live[1..], Bucket(index));
    }
  }

  lemma {:induction false} FindFrom(ns: seq<Node>, index: nat, k: nat)
    requires k <= |ns| && forall i :: 0 <= i < k ==> ns[i].entry.index != index
    ensures Find(ns, index) == Find(ns[k..], index)
    decreases k
  {
    if k == 0 {
      assert ns[0..] == ns;
    } else {
      assert ns[1..][k - 1..] == ns[k..];
      forall i | 0 <= i < k - 1 ensures ns[1..][i].entry.index != index { assert ns[1..][i] == ns[i + 1]; }
      FindFrom(ns[1..], index, k - 1);
    }
  }

  ghost predicate DistinctHeads(heads: seq<Head>) {
    |heads| == IDXMAP_SIZE && forall b, c :: 0 <= b < c < IDXMAP_SIZE ==> heads[b] != heads[c]
  }

  /** The table: a chain for each bucket, holding the live nodes of that bucket. */
  ghost predicate Table(heads: seq<Head>, live: seq<Node>)
    reads heads, live
  {
    && DistinctHeads(heads) && Distinct(live)
    && forall b :: 0 <= b < IDXMAP_SIZE ==> Chain(heads[b], InBucket(live, b))
  }

  /** Buckets share neither head nor node, and a node that is not live is in none. */
  lemma BucketsApart(heads: seq<Head>, live: seq<Node>, b: nat, c: nat)
    requires DistinctHeads(heads) && b < IDXMAP_SIZE && c < IDXMAP_SIZE && b != c
    ensures heads[b] != heads[c]
    ensures forall i :: 0 <= i < |InBucket(live, c)| ==>
              InBucket(live, c)[i] in live && InBucket(live, c)[i] !in InBucket(live, b)
  {
    hide Chain, Bucket, InBucket;
  }

  lemma TableWith(heads: seq<Head>, live: seq<Node>, n: Node)
    requires DistinctHeads(heads)
    requires Distinct(live) && n !in live
    requires var b := Bucket(n.entry.index);
             && Chain(heads[b], [n] + InBucket(live, b))
             && forall c :: 0 <= c < IDXMAP_SIZE && c != b ==> Chain(heads[c], InBucket(live, c))
    ensures Table(heads, [n] + live)
  {
    hide Chain, Bucket, InBucket;
    forall c | 0 <= c < IDXMAP_SIZE ensures Chain(heads[c], InBucket([n] + live, c)) { BucketCons(n, live, c); }
  }

  lemma TableWithout(heads: seq<Head>, live: seq<Node>, j: nat)
    requires DistinctHeads(heads)
    requires Distinct(live) && j < |live|
    requires var b := Bucket(live[j].entry.index);
             && Position(live, j) < |InBucket(live, b)|
             && Chain(heads[b], Without(InBucket(live, b), Position(live, j)))
             && forall c :: 0 <= c < IDXMAP_SIZE && c != b ==> Chain(heads[c], InBucket(live, c))
    ensures Table(heads, Without(live, j))
  {
    DistinctWithout(live, j);
    hide Chain, Bucket, InBucket, Position, Without;
    forall c | 0 <= c < IDXMAP_SIZE ensures Chain(heads[c], InBucket(Without(live, j), c)) {
      if c == Bucket(live[j].entry.index) {
        OwnBucket(live, j, c, Position(live, j));
      } else {
        OtherBucket(live, j, c);
      }
    }
  }

  method EmptyHeads(n: nat) returns (heads: seq<Head>)
    ensures |heads| == n && fresh(heads)
    ensures forall b :: 0 <= b < n ==> heads[b].first == null
    ensures forall b, c :: 0 <= b < c < n ==> heads[b] != heads[c]
  {
    heads := [];
    while |heads| < n
      invariant |heads| <= n && fresh(heads)
      invariant forall b :: 0 <= b < |heads| ==> heads[b].first == null
      invariant forall b, c :: 0 <= b < c < |heads| ==> heads[b] != heads[c]
    {
      var h := new Head();
      heads := heads + [h];
    }
  }

  // ---- The table ------------------------------------------------------------------

  class IdxMap {
    const idxHead: seq<Head>
    /** The nodes in the table, the last one added first. */
    ghost var live: seq<Node>

    ghost predicate Valid()
      reads this, idxHead, live
    {
      Table(idxHead, live)
    }

    /** The static table, all heads empty. */
    constructor ()
      ensures Valid() && live == [] && fresh(idxHead)
    {
      var heads := EmptyHeads(IDXMAP_SIZE);
      idxHead, live := heads, [];
    }

    /** What changes when a node comes or goes. */
    ghost function Chained(b: nat): set<object>
      requires b < |idxHead|
      reads this
    {
      var head: set<object>, nodes: set<object> := {idxHead[b]}, set m | m in InBucket(live, b);
      head + nodes
    }

    /** `hlist_add_head` at the bucket of the index. */
    method Add(n: Node)
      requires Valid() && n !in live
      modifies this`live, n, Chained(Bucket(n.entry.index))
      ensures Valid() && live == [n] + old(live)
    {
      hide Bucket, InBucket, Chain;
      var b := Bucket(n.entry.index);
      label before:
      HlistAddHead(n, idxHead[b], InBucket(live, b));
      forall c | 0 <= c < IDXMAP_SIZE && c != b ensures Chain(idxHead[c], InBucket(live, c)) {
        assert old@before(Chain(idxHead[c], InBucket(live, c)));
        BucketsApart(idxHead, live, b, c);
      }
      TableWith(idxHead, live, n);
      live := [n] + live;
    }

    method Remove(n: Node, ghost j: nat)
      requires Valid() && j < |live| && live[j] == n
      modifies this`live, Chained(Bucket(n.entry.index))
      ensures Valid() && live == Without(old(live), j)
    {
      hide Bucket, InBucket, Chain, Position, Without;
      ghost var b, k := Bucket(n.entry.index), Position(live, j);
      OwnBucket(live, j, b, k);
      label before:
      HlistDel(n, idxHead[b], InBucket(live, b), k);
      forall c | 0 <= c < IDXMAP_SIZE && c != b ensures Chain(idxHead[c], InBucket(live, c)) {
        assert old@before(Chain(idxHead[c], InBucket(live, c)));
        BucketsApart(idxHead, live, b, c);
      }
      TableWithout(idxHead, live, j);
      live := Without(live, j);
    }

    method GetByIndex(index: nat) returns (im: Node?)
      requires Valid()
      ensures im == Find(live, index)
      ensures im == null <==> forall n :: n in live ==> n.entry.index != index
      ensures forall k :: 0 <= k < |live| && IsLatest(live, k, index) ==> im == live[k]
    {
      FoundIsLatest(live, index);
      var h := Bucket(index);
      ghost var ns, k := InBucket(live, h), 0;
      FindInBucket(live, index);
      assert Chain(idxHead[h], ns);
      var n := idxHead[h].first;
      while n != null
        invariant 0 <= k <= |ns| && n == At(ns, k)
        invariant forall i :: 0 <= i < k ==> ns[i].entry.index != index
        decreases |ns| - k
      {
        FindFrom(ns, index, k);
        if n.entry.index == index {
          return n;
        }
        assert Linked(idxHead[h], ns, k);
        n := n.next;
        k := k + 1;
      }
      FindFrom(ns, index, k);
      return null;
    }

    method IndexToType(idx: nat) returns (t: int)
      requires Valid()
      ensures t == KindOf(Latest(live), idx)
      ensures idx == 0 || (forall n :: n in live ==> n.entry.index != idx) ==> t == -1
      ensures forall k :: 0 <= k < |live| && idx != 0 && IsLatest(live, k, idx) ==> t == live[k].entry.kind
    {
      LatestEntry(live, idx);
      if idx == 0 {
        return -1;
      }
      FindIsLatest(live, idx);
      var im := GetByIndex(idx);
      return if im != null then im.entry.kind else -1;
    }

    /** `known` is what `if_indextoname` answers. */
    method IdxN2a(idx: nat, known: Option<string>) returns (name: string)
      requires Valid() && idx < TWO_TO_THE_32
      ensures name == NameOf(Latest(live), known, idx)
      ensures idx == 0 ==> name == "*"
      ensures forall k :: 0 <= k < |live| && idx != 0 && IsLatest(live, k, idx) ==> name == live[k].entry.name
      ensures idx != 0 && (forall n :: n in live ==> n.entry.index != idx) ==>
                name == if known.Some? then known.value else MadeUp(idx)
    {
      LatestEntry(live, idx);
      MadeUpIs(idx);
      if idx == 0 {
        return "*";
      }
      FindIsLatest(live, idx);
      var im := GetByIndex(idx);
      if im != null {
        return im.entry.name;
      }
      match known
      case Some(s) => return s;
      case None =>
        FallbackFits(idx);
        return CStr(Bounded("if" + Signed(Signed32(idx)), IFNAMSIZ));
    }
  }

  /** No later node has the index of the `k`th; the latest come first. */
  ghost predicate IsLatest(live: seq<Node>, k: nat, index: nat)
    reads live
  {
    k < |live| && live[k].entry.index == index && forall j :: 0 <= j < k ==> live[j].entry.index != index
  }

  lemma {:induction false} FoundIsLatest(live: seq<Node>, index: nat)
    ensures Find(live, index) == null <==> forall n :: n in live ==> n.entry.index != index
    ensures forall k :: 0 <= k < |live| && IsLatest(live, k, index) ==> Find(live, index) == live[k]
  {
    if live != [] {
      var rest := live[1..];
      assert live == [live[0]] + rest;
      FoundIsLatest(rest, index);
      if live[0].entry.index != index {
        forall k | 0 <= k < |live| && IsLatest(live, k, index) ensures Find(live, index) == live[k] {
          assert k > 0 && rest[k - 1] == live[k];
          assert forall j :: 0 <= j < k - 1 ==> rest[j] == live[j + 1];
          assert IsLatest(rest, k - 1, index);
        }
      }
    }
  }

  lemma LatestEntry(live: seq<Node>, index: nat)
    ensures (forall n :: n in live ==> n.entry.index != index) ==> index !in Latest(live)
    ensures forall k :: 0 <= k < |live| && IsLatest(live, k, index) ==>
              index in Latest(live) && Latest(live)[index] == live[k].entry
  {
    FoundIsLatest(live, index);
    FindIsLatest(live, index);
  }

  /** "if" and the index as a signed number. */
  function MadeUp(idx: nat): string
    requires idx < TWO_TO_THE_32
  {
    if idx < 0x8000_0000 then "if" + Dec(idx) else "if-" + Dec(0x1_0000_0000 - idx)
  }

  lemma MadeUpIs(idx: nat)
    requires idx < TWO_TO_THE_32
    ensures "if" + Signed(Signed32(idx)) == MadeUp(idx)
  {
    hide Dec;
    assert idx >= 0x8000_0000 ==> Signed32(idx) == idx - 0x1_0000_0000;
  }

  // ---- What the lookups say of a cache ------------------------------------------------

  /** -1 for no interface and for one that is not in the cache. */
  function KindOf(cache: map<nat, Entry>, idx: nat): int {
    if idx != 0 && idx in cache then cache[idx].kind else -1
  }

  /** An asterisk for no interface, else the name in the cache, the name that the system
      knows, or a made-up one. */
  function NameOf(cache: map<nat, Entry>, known: Option<string>, idx: nat): string {
    if idx == 0 then "*"
    else if idx in cache then cache[idx].name
    else match known case Some(s) => s case None => "if" + Signed(Signed32(idx % TWO_TO_THE_32))
  }

  // ---- The made-up name --------------------------------------------------------------

  /** "%d". */
  function Signed(v: int): string {
    if v < 0 then "-" + Dec(-v) else Dec(v)
  }

  lemma {:induction false} DecLength(n: nat, digits: nat, bound: nat)
    requires digits >= 1 && n < bound && bound == Ten(digits)
    ensures |Dec(n)| <= digits
    decreases digits
  {
    if n >= 10 { DecLength(n / 10, digits - 1, bound / 10); }
  }

  function Ten(k: nat): nat {
    if k == 0 then 1 else 10 * Ten(k - 1)
  }

  /** "if%d" with any index fits the buffer, and tells the index. */
  lemma FallbackFits(idx: nat)
    requires idx < TWO_TO_THE_32
    ensures var text := "if" + Signed(Signed32(idx));
            CStr(Bounded(text, IFNAMSIZ)) == text
  {
    var v := Signed32(idx);
    var magnitude := if v < 0 then -v else v;
    assert Ten(10) == 10_000_000_000 by { assert Ten(5) == 100_000; }
    DecLength(magnitude, 10, Ten(10));
    DecFree(magnitude, NUL);
    var text := "if" + Signed(v);
    hide Dec;
    assert Free(text, NUL);
    CStrBounded(text, IFNAMSIZ);
    assert text[..|text|] == text;
  }

  lemma FallbackDetermines(i: nat, j: nat)
    requires i < TWO_TO_THE_32 && j < TWO_TO_THE_32
    requires "if" + Signed(Signed32(i)) == "if" + Signed(Signed32(j))
    ensures i == j
  {
    var v, w := Signed32(i), Signed32(j);
    assert Signed(v) == ("if" + Signed(v))[2..] && Signed(w) == ("if" + Signed(w))[2..];
    var m, n := if v < 0 then -v else v, if w < 0 then -w else w;
    DecFree(m, '-');
    DecFree(n, '-');
    assert (v < 0) == (Signed(v)[0] == '-') && (w < 0) == (Signed(w)[0] == '-');
    if v < 0 { assert Signed(v)[1..] == Dec(m) && Signed(w)[1..] == Dec(n); }
    DecRoundTrip(m);
    DecRoundTrip(n);
  }
}
