/** The lists of a scan of one subnet. */
module ScanLists {
  import opened Bytes
  import opened ScanRange
  import opened ScanWorkers

  function Lists(ip: address32, prefix: nat): (r: seq<seq<int>>)
    requires prefix <= 32
    ensures |r| == Workers(prefix)
    ensures forall t :: 0 <= t < |r| ==> r[t] == Visited(ip, prefix, t)
  {
    seq(Workers(prefix), t requires 0 <= t < Workers(prefix) => Visited(ip, prefix, t))
  }

  predicate IsHostOf(ip: address32, prefix: nat, a: int)
    requires prefix <= 32
  {
    0 <= a < TWO_TO_THE_32 && IsHost(ip, prefix, a)
  }

  lemma VisitedIsAddress(ip: address32, prefix: nat, t: nat, a: int)
    requires prefix <= 32 && t < Workers(prefix) && a in Visited(ip, prefix, t)
    ensures 0 <= a < TWO_TO_THE_32
  {
    var n, step := Size(prefix) - 2, Workers(prefix);
    SubnetFits(ip, prefix);
    hide Size, Network, Workers;
    var j :| 0 <= j < |Visited(ip, prefix, t)| && Visited(ip, prefix, t)[j] == a;
    var i := Indices(t, n, step)[j];
    IndicesMember(t, n, step, i);
  }

  lemma NoListHas(workers: seq<Worker>, a: int)
    requires forall t :: 0 <= t < |workers| ==> a !in workers[t].todo
    ensures Pending(workers, a) == 0
  {
    if workers != [] {
      CountIn(workers[0].todo, a);
      NoListHas(workers[1..], a);
    }
  }

  lemma OneListHas(workers: seq<Worker>, t: nat, a: int)
    requires t < |workers| && Count(workers[t].todo, a) == 1
    requires forall u :: 0 <= u < |workers| && u != t ==> a !in workers[u].todo
    ensures Pending(workers, a) == 1
  {
    var without := workers[t := Worker(Looping, [])];
    NoListHas(without, a);
    PendingUpdate(workers, t, Worker(Looping, []), a);
  }

  predicate Listed(lists: seq<seq<int>>, a: int) {
    exists t :: 0 <= t < |lists| && a in lists[t]
  }

  ghost predicate NothingTwice(lists: seq<seq<int>>) {
    forall t, u, j, k | 0 <= t < |lists| && 0 <= u < |lists| && 0 <= j < |lists[t]| && 0 <= k < |lists[u]| ::
      lists[t][j] == lists[u][k] ==> t == u && j == k
  }

  lemma ListedOnce(lists: seq<seq<int>>, t: nat, a: int)
    requires NothingTwice(lists) && t < |lists| && a in lists[t]
    ensures Count(lists[t], a) == 1
    ensures forall u :: 0 <= u < |lists| && u != t ==> a !in lists[u]
  {
    hide Count;
    var j :| 0 <= j < |lists[t]| && lists[t][j] == a;
    CountDistinct(lists[t], a);
    CountIn(lists[t], a);
    forall u | 0 <= u < |lists| && u != t ensures a !in lists[u] {
      forall k | 0 <= k < |lists[u]| ensures lists[u][k] != a {
        assert lists[t][j] == a;
      }
    }
  }

  lemma CrewCount(lists: seq<seq<int>>, a: int)
    requires NothingTwice(lists)
    ensures Pending(Crew(lists), a) == (if Listed(lists, a) then 1 else 0)
  {
    hide Count, Pending, NothingTwice;
    if Listed(lists, a) {
      var t :| 0 <= t < |lists| && a in lists[t];
      ListedOnce(lists, t, a);
      OneListHas(Crew(lists), t, a);
    } else {
      NoListHas(Crew(lists), a);
    }
  }

  /** Before the first step each host of the subnet is on one list, once, and nothing else is. */
  lemma StartCount(ip: address32, prefix: nat, a: int)
    requires prefix <= 32
    ensures Pending(Crew(Lists(ip, prefix)), a) == (if IsHostOf(ip, prefix, a) then 1 else 0)
  {
    hide Visited, IsHost, Count, Pending, Size, ScanRange.Workers;
    var lists := Lists(ip, prefix);
    forall t, u, j, k | 0 <= t < |lists| && 0 <= u < |lists| && 0 <= j < |lists[t]| && 0 <= k < |lists[u]| &&
        lists[t][j] == lists[u][k]
      ensures t == u && j == k
    {
      VisitedOnce(ip, prefix, t, u, j, k);
    }
    CrewCount(lists, a);
    ListedIsHost(ip, prefix, a);
  }

  lemma ListedIsHost(ip: address32, prefix: nat, a: int)
    requires prefix <= 32
    ensures Listed(Lists(ip, prefix), a) <==> IsHostOf(ip, prefix, a)
  {
    hide Visited, IsHost, Size, ScanRange.Workers;
    if IsHostOf(ip, prefix, a) {
      ExactCoverage(ip, prefix, a);
      var t :| 0 <= t < ScanRange.Workers(prefix) && a in Visited(ip, prefix, t);
      assert a in Lists(ip, prefix)[t];
    }
    if t :| 0 <= t < |Lists(ip, prefix)| && a in Lists(ip, prefix)[t] {
      VisitedIsAddress(ip, prefix, t, a);
      ExactCoverage(ip, prefix, a);
    }
  }
}
