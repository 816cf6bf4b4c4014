/**
 Reading a query by the layout of sections 4.1.1 and 4.1.2 of RFC 1035, and what both platforms
 ask (MDNSResolver.kt:48-56, MDNSResolver.swift:162-186).
 */
module DnsQuery {
  import opened Bytes
  import opened Common
  import Text
  import opened DnsName
  import opened DottedQuad
  import opened Mdns

  const TYPE_PTR := 12
  const CLASS_IN := 1

  /** The counts are those of the question, answer, authority and additional sections. */
  datatype Query = Query(id: nat, flags: nat, counts: seq<nat>, name: seq<bytes>, kind: nat, class_: nat)

  /** Two bytes in network order. */
  function Net16(p: bytes, at: nat): nat
    requires at + 2 <= |p|
  {
    p[at] as int * 256 + p[at + 1] as int
  }

  /** The labels from `at` to the zero that ends the name, and where that leaves off. A length byte
      above 63 is no label. */
  function ReadName(p: bytes, at: nat): Option<(seq<bytes>, nat)>
    decreases |p| - at
  {
    if at >= |p| then None
    else if p[at] == 0 then Some(([], at + 1))
    else if p[at] > 63 || at + 1 + p[at] > |p| then None
    else
      match ReadName(p, at + 1 + p[at])
      case None => None
      case Some((rest, end)) => Some(([p[at + 1..at + 1 + p[at]]] + rest, end))
  }

  /** A message that consists of its header and one question. */
  function ReadQuery(p: bytes): Option<Query> {
    if |p| < 12 then None
    else
      match ReadName(p, 12)
      case None => None
      case Some((name, end)) =>
        if |p| != end + 4 then None
        else Some(Query(Net16(p, 0), Net16(p, 2), [Net16(p, 4), Net16(p, 6), Net16(p, 8), Net16(p, 10)], name,
                        Net16(p, end), Net16(p, end + 2)))
  }

  function LabelBytes(labels: seq<string>): (r: seq<bytes>)
    requires AllAscii(labels)
    ensures |r| == |labels| && forall k :: 0 <= k < |r| ==> r[k] == AsBytes(labels[k])
  {
    seq(|labels|, k requires 0 <= k < |labels| => AsBytes(labels[k]))
  }

  lemma {:induction false} NameReads(before: bytes, labels: seq<string>, after: bytes)
    requires AllAscii(labels) && forall k :: 0 <= k < |labels| ==> 0 < |labels[k]| <= 63
    ensures ReadName(before + EncodeLabels(labels) + [0] + after, |before|)
         == Some((LabelBytes(labels), |before| + |EncodeLabels(labels)| + 1))
    decreases |labels|
  {
    hide ReadName;
    if labels == [] {
      NameEnds(before, EncodeLabels(labels), after);
      assert LabelBytes(labels) == [];
    } else {
      var first, rest := labels[0], labels[1..];
      assert AllAscii(rest) && Ascii(first);
      var head: bytes := [|first|] + AsBytes(first);
      assert |first| % 256 == |first|;
      assert EncodeLabels(labels) == head + EncodeLabels(rest);
      assert LabelBytes(labels) == [AsBytes(first)] + LabelBytes(rest);
      hide EncodeLabels, AllAscii, LabelBytes;
      var p := before + head + (EncodeLabels(rest) + [0] + after);
      Regroup(before, head, EncodeLabels(rest), after);
      var next := |before| + 1 + |first|;
      assert |before + head| == next && |EncodeLabels(labels)| == 1 + |first| + |EncodeLabels(rest)|;
      NameReads(before + head, rest, after);
      assert ReadName(p, next) == Some((LabelBytes(rest), next + |EncodeLabels(rest)| + 1));
      assert p == before + EncodeLabels(labels) + [0] + after;
      PieceAt(before, |first|, AsBytes(first), EncodeLabels(rest) + [0] + after);
      LabelRead(p, |before|, AsBytes(first));
    }
  }

  lemma Regroup(before: bytes, head: bytes, rest: bytes, after: bytes)
    ensures before + (head + rest) + [0] + after == before + head + (rest + [0] + after)
    ensures before + head + rest + [0] + after == before + head + (rest + [0] + after)
  {
  }

  lemma NameEnds(before: bytes, none: bytes, after: bytes)
    requires none == []
    ensures ReadName(before + none + [0] + after, |before|) == Some(([], |before| + 1))
  {
    assert (before + none + [0] + after)[|before|] == 0;
  }

  /** Reading one label, and what comes after it. */
  lemma LabelRead(p: bytes, at: nat, piece: bytes)
    requires 0 < |piece| <= 63 && at + 1 + |piece| <= |p|
    requires p[at] == |piece| && p[at + 1..at + 1 + |piece|] == piece
    ensures ReadName(p, at) ==
            match ReadName(p, at + 1 + |piece|)
            case None => None
            case Some((rest, end)) => Some(([piece] + rest, end))
  {
  }

  lemma PieceAt(before: bytes, length: byte, piece: bytes, after: bytes)
    requires length == |piece|
    ensures var p, at := before + ([length] + piece) + after, |before|;
            at + 1 + |piece| <= |p| && p[at] == length && p[at + 1..at + 1 + |piece|] == piece
  {
    var p, at := before + ([length] + piece) + after, |before|;
    assert p[at..] == [length] + piece + after;
    assert p[at] == p[at..][0];
    assert p[at + 1..at + 1 + |piece|] == p[at..][1..1 + |piece|];
  }

  /** A request with the given id and labels asks one question, for the pointer record of that name,
      with no flag set, and holds nothing else. */
  lemma RequestAsks(id: nat, labels: seq<string>)
    requires Proper(labels) && id < TWO_TO_THE_16
    ensures AllAscii(labels)
    ensures ReadQuery(Request(id, labels)) == Some(Query(id, 0, [1, 0, 0, 0], LabelBytes(labels), TYPE_PTR, CLASS_IN))
  {
    var head: bytes := [id / 256, id % 256, 0, 0, 0, 1, 0, 0, 0, 0, 0, 0];
    hide *;
    ProperSizes(labels);
    var tail: bytes := [0, 12, 0, 1];
    RequestParts(id, labels, head, tail);
    NameReads(head, labels, tail);
    QueryOf(head, EncodeLabels(labels), tail);
    FieldsOf(id, head, tail);
  }

  lemma ProperSizes(labels: seq<string>)
    requires Proper(labels)
    ensures AllAscii(labels) && forall k :: 0 <= k < |labels| ==> 0 < |labels[k]| <= 63
  {
    forall k | 0 <= k < |labels| ensures Ascii(labels[k]) && 0 < |labels[k]| <= 63 {
      assert ProperLabel(labels[k]);
    }
  }

  lemma FieldsOf(id: nat, head: bytes, tail: bytes)
    requires id < TWO_TO_THE_16
    requires head == [id / 256, id % 256, 0, 0, 0, 1, 0, 0, 0, 0, 0, 0] && tail == [0, 12, 0, 1]
    ensures Net16(head, 0) == id && Net16(head, 2) == 0 && Net16(head, 4) == 1
    ensures Net16(head, 6) == Net16(head, 8) == Net16(head, 10) == 0
    ensures Net16(tail, 0) == TYPE_PTR && Net16(tail, 2) == CLASS_IN
  {
  }

  lemma RequestParts(id: nat, labels: seq<string>, head: bytes, tail: bytes)
    requires AllAscii(labels) && id < TWO_TO_THE_16
    requires head == [id / 256, id % 256, 0, 0, 0, 1, 0, 0, 0, 0, 0, 0] && tail == [0, 12, 0, 1]
    ensures Request(id, labels) == head + EncodeLabels(labels) + [0] + tail
  {
    hide EncodeLabels, AllAscii;
    assert [id / 256, id % 256] + [0, 0, 0, 1, 0, 0, 0, 0, 0, 0] == head;
  }

  lemma QueryOf(head: bytes, name: bytes, tail: bytes)
    requires |head| == 12 && |tail| == 4
    ensures var p := head + name + [0] + tail;
            var read := ReadName(p, 12);
            var counts := [Net16(head, 4), Net16(head, 6), Net16(head, 8), Net16(head, 10)];
            read.Some? && read.value.1 == 12 + |name| + 1 ==>
              ReadQuery(p) ==
              Some(Query(Net16(head, 0), Net16(head, 2), counts, read.value.0, Net16(tail, 0), Net16(tail, 2)))
  {
    hide ReadName;
    var p, end := head + name + [0] + tail, 12 + |name| + 1;
    assert p[end] == tail[0] && p[end + 1] == tail[1] && p[end + 2] == tail[2] && p[end + 3] == tail[3];
    assert p[..12] == head;
    assert forall i :: 0 <= i < 12 ==> p[i] == p[..12][i];
  }

  /** What is sent for an address: the question for the pointer record of its four octets in reverse
      order, in decimal, under in-addr.arpa. */
  lemma AddressAsks(addr: octets, id: nat)
    requires id < TWO_TO_THE_16
    ensures AllAscii(ReverseLabels(addr))
    ensures var query := ReadQuery(Request(id, ReverseLabels(addr)));
            && query.Some? && query.value.id == id && query.value.kind == 12 && query.value.class_ == 1
            && |query.value.name| == 6
            && (forall k :: 0 <= k < 4 ==> TextOf(query.value.name[k]) == Text.Dec(addr[3 - k]))
            && TextOf(query.value.name[4]) == "in-addr" && TextOf(query.value.name[5]) == "arpa"
  {
    ReverseNames(addr);
    var labels := ReverseLabels(addr);
    assert forall k :: 0 <= k < 4 ==> labels[k] == Text.Dec(addr[3 - k]);
    assert labels[4] == "in-addr" && labels[5] == "arpa";
    hide ReadQuery, Request, TextOf, AsBytes, Text.Dec, ReverseLabels, Proper;
    RequestAsks(id, labels);
    forall k | 0 <= k < 6 ensures TextOf(LabelBytes(labels)[k]) == labels[k] { TextOfBytes(labels[k]); }
  }

  /** The characters that the bytes stand for. */
  function TextOf(b: bytes): string {
    seq(|b|, i requires 0 <= i < |b| => b[i] as char)
  }

  lemma TextOfBytes(s: string)
    requires Ascii(s)
    ensures TextOf(AsBytes(s)) == s
  {
  }
}
