/**
 The mDNS query for an address, and where its answer is looked for
 (MDNSResolver.kt:48-77, MDNSResolver.swift:107-186).
 */
module Mdns {
  import opened Bytes
  import opened Common
  import opened Text
  import opened DnsName
  import opened DottedQuad

  // ---- Request ids --------------------------------------------------------------

  /** A Kotlin byte is signed. */
  function SignedByte(b: byte): int {
    if b < 128 then b else (b as int) - 256
  }

  function RequestIdKt(addr: octets): int {
    SignedByte(addr[2]) * 0xFF + SignedByte(addr[3])
  }

  function CalculateRequestID(ip: string): Option<int> {
    var addrParts := ParseInts(SwiftSplit(ip));
    if |addrParts| != 4 then None else Some(addrParts[2] * 255 + addrParts[3])
  }

  lemma RequestIdOfQuad(addr: octets)
    ensures CalculateRequestID(Quad(addr)) == Some(addr[2] as int * 255 + addr[3])
  {
    QuadParts(addr);
    var a, b, c, d := addr[0] as int, addr[1] as int, addr[2] as int, addr[3] as int;
    ParseDec(a); ParseDec(b); ParseDec(c); ParseDec(d);
    hide ParseInt, Dec, SwiftSplit, Quad;
    ParseFour(Dec(a), Dec(b), Dec(c), Dec(d), a, b, c, d);
  }

  /** The ids of two addresses collide exactly when the last two octets agree or are (a, 255) and (a + 1, 0). */
  lemma RequestIdCollides(x: octets, y: octets)
    ensures CalculateRequestID(Quad(x)) == CalculateRequestID(Quad(y)) <==>
            (x[2] == y[2] && x[3] == y[3])
            || (x[3] == 255 && y[3] == 0 && y[2] == x[2] as int + 1)
            || (y[3] == 255 && x[3] == 0 && x[2] == y[2] as int + 1)
  {
    RequestIdOfQuad(x);
    RequestIdOfQuad(y);
    hide CalculateRequestID, Quad;
  }

  /** Both platforms put the same id on the wire exactly when the last two octets are both
      below 128 or both not. */
  lemma SameIdIff(addr: octets)
    ensures CalculateRequestID(Quad(addr)) == Some(RequestIdKt(addr) % TWO_TO_THE_16) <==>
              (addr[2] >= 128 <==> addr[3] >= 128)
    ensures 0 <= addr[2] as int * 255 + addr[3] < TWO_TO_THE_16
  {
    RequestIdOfQuad(addr);
    hide CalculateRequestID, Quad;
  }

  // ---- Names and requests -------------------------------------------------------------

  function ReverseNameKt(addr: octets): string {
    Dec(addr[3]) + "." + Dec(addr[2]) + "." + Dec(addr[1]) + "." + Dec(addr[0]) + ".in-addr.arpa"
  }

  /** None is the trap of a missing part. */
  function ReverseNameSw(name: string): Option<string> {
    var addr := SwiftSplit(name);
    if |addr| < 4 then None
    else Some(addr[3] + "." + addr[2] + "." + addr[1] + "." + addr[0] + ".in-addr.arpa")
  }

  function ReverseLabels(addr: octets): seq<string> {
    [Dec(addr[3]), Dec(addr[2]), Dec(addr[1]), Dec(addr[0]), "in-addr", "arpa"]
  }

  predicate ProperLabel(s: string) {
    0 < |s| <= 63 && Ascii(s) && Free(s, DOT)
  }

  /** A dotted name, as section 3.1 of RFC 1035 has it. */
  predicate Proper(labels: seq<string>) {
    labels != [] && forall k :: 0 <= k < |labels| ==> ProperLabel(labels[k])
  }

  lemma DecLabel(n: nat)
    requires n < 256
    ensures ProperLabel(Dec(n))
  {
    var s := Dec(n);
    forall i | 0 <= i < |s| ensures s[i] < 128 as char && s[i] != DOT { assert s[i] in s; }
    assert |Dec(n / 10 / 10)| == 1;
    assert |Dec(n / 10)| <= 2;
  }

  lemma {:induction false} ProperJoin(labels: seq<string>)
    requires Proper(labels)
    ensures Ascii(Join(labels, DOT))
    ensures SplitOn(Join(labels, DOT), DOT) == labels
    ensures Encodable(labels, 64) && "" !in labels && AllFree(labels, DOT)
  {
    assert ProperLabel(labels[0]);
    assert AllFree(labels, DOT);
    SplitJoin(labels, DOT);
    if |labels| > 1 {
      assert Proper(labels[1..]);
      ProperJoin(labels[1..]);
    }
  }

  lemma SuffixText(x: string, p: string, q: string)
    requires p == "in-addr" && q == "arpa"
    ensures x + ".in-addr.arpa" == x + [DOT] + p + [DOT] + q
    ensures ProperLabel(p) && ProperLabel(q)
  {
    assert ".in-addr.arpa" == [DOT] + p + [DOT] + q;
  }

  lemma JoinSix(p: string, q: string, r: string, s: string, t: string, u: string)
    ensures Join([p, q, r, s, t, u], DOT) == p + [DOT] + q + [DOT] + r + [DOT] + s + [DOT] + t + [DOT] + u
  {
    JoinSnoc([p], q, DOT);
    JoinSnoc([p, q], r, DOT);
    JoinSnoc([p, q, r], s, DOT);
    JoinSnoc([p, q, r, s], t, DOT);
    JoinSnoc([p, q, r, s, t], u, DOT);
    assert [p] + [q] == [p, q] && [p, q] + [r] == [p, q, r] && [p, q, r] + [s] == [p, q, r, s];
    assert [p, q, r, s] + [t] == [p, q, r, s, t] && [p, q, r, s, t] + [u] == [p, q, r, s, t, u];
    assert Join([p], DOT) == p;
    hide Join;
  }

  /** The name asked for is the same on both platforms and has the six labels of the reversed address. */
  lemma ReverseNames(addr: octets)
    ensures ReverseNameSw(Quad(addr)) == Some(ReverseNameKt(addr))
    ensures ReverseNameKt(addr) == Join(ReverseLabels(addr), DOT)
    ensures Proper(ReverseLabels(addr))
  {
    QuadParts(addr);
    var d, c, b, a := Dec(addr[3]), Dec(addr[2]), Dec(addr[1]), Dec(addr[0]);
    DecLabel(addr[0]); DecLabel(addr[1]); DecLabel(addr[2]); DecLabel(addr[3]);
    var p, q := "in-addr", "arpa";
    SuffixText(d + "." + c + "." + b + "." + a, p, q);
    hide Dec, SwiftSplit, Quad, Join, ProperLabel;
    JoinSix(d, c, b, a, p, q);
  }

  function Request(id: nat, labels: seq<string>): bytes
    requires AllAscii(labels) && id < TWO_TO_THE_16
  {
    [id / 256, id % 256] + [0, 0, 0, 1, 0, 0, 0, 0, 0, 0] + Encode(labels) + [0, 12, 0, 1]
  }

  method DnsRequestKt(id: int, name: string) returns (r: bytes)
    requires Ascii(name)
    ensures AllAscii(SplitOn(name, DOT)) && r == Request(id % TWO_TO_THE_16, SplitOn(name, DOT))
  {
    hide Encode, SplitOn, Ascii;
    var short := id % TWO_TO_THE_16;
    var out: bytes := [short / 256, short % 256];
    out := out + [0, 0, 0, 1, 0, 0, 0, 0, 0, 0];
    out := WriteName(out, name);
    r := out + [0, 12, 0, 1];
  }

  /** None is a trap: an id or a label length that does not fit. */
  method DnsRequestSw(id: int, name: string) returns (r: Option<bytes>)
    requires AllAscii(SwiftSplit(name))
    ensures r == if 0 <= id < TWO_TO_THE_16 && Countable(SwiftSplit(name))
                 then Some(Request(id, SwiftSplit(name))) else None
  {
    hide Encode, SwiftSplit, AllAscii, Countable;
    if id < 0 || id / 256 > 255 {
      return None;
    }
    var byteArray: bytes := [id / 256, id % 256];
    byteArray := byteArray + [0, 0, 0, 1, 0, 0, 0, 0, 0, 0];
    var named := AppendLabels(byteArray, SwiftSplit(name));
    match named
    case None => return None;
    case Some(out) => return Some(out + [0, 12, 0, 1]);
  }

  lemma RequestShape(id: nat, labels: seq<string>)
    requires Proper(labels) && id < TWO_TO_THE_16
    ensures SwiftSplit(Join(labels, DOT)) == labels && SplitOn(Join(labels, DOT), DOT) == labels
    ensures Encodable(labels, 64)
    ensures |Encode(labels)| == |Join(labels, DOT)| + 2
    ensures |Request(id, labels)| == 12 + |Join(labels, DOT)| + 2 + 4
  {
    ProperJoin(labels);
    SwiftSplitOfJoin(labels);
    EncodeLength(labels);
    hide Encode, Join, SwiftSplit, SplitOn, Proper;
  }

  /** Both platforms split a name into the same labels and ask with the same bytes after the id,
      and each decoder, started at byte 12 of the request, finds the labels of the name. */
  lemma RequestRoundTrip(id: nat, labels: seq<string>, limit: nat, decode: bytes -> Option<string>)
    requires Proper(labels) && id < TWO_TO_THE_16 && 64 <= limit <= 256 && ReadsAscii(decode)
    ensures SwiftSplit(Join(labels, DOT)) == labels && SplitOn(Join(labels, DOT), DOT) == labels
    ensures Encodable(labels, 64)
    ensures |Encode(labels)| == |Join(labels, DOT)| + 2
    ensures DnsName.Labels(Request(id, labels), 12, |Request(id, labels)|, limit, decode) == Some(labels)
  {
    RequestShape(id, labels);
    assert Encode(labels) == EncodeLabels(labels) + [0];
    var head, name, tail := [id / 256, id % 256] + [0, 0, 0, 1, 0, 0, 0, 0, 0, 0], Encode(labels), [0, 12, 0, 1];
    var request := Request(id, labels);
    assert request == head + name + tail;
    hide Encode, EncodeLabels, Join, SwiftSplit, SplitOn, Proper, DnsName.Labels, ReadsAscii;
    Written3(head, name, tail);
    assert Encodable(labels, limit);
    DecodeEncoded(request, 12, |request|, limit, labels, decode);
  }

  lemma Written3(head: bytes, body: bytes, tail: bytes)
    ensures Wrote(head + body + tail, |head|, body)
  {
  }

  // ---- The answer -------------------------------------------------------------------------

  /** Where both platforms look for the answer: `queries` is byte 5 of the response,
      `name` the reversed name, `requestSize` the size of the request. */
  function Offset(queries: byte, name: string, requestSize: nat): nat {
    (if queries == 0 then 12 + |name| else requestSize) + 2 + 2 + 2 + 4 + 2
  }

  /** A response with one answer: the header, the question section, then the owner name, type,
      class, TTL and length of the record, its data, and whatever follows. */
  function Response(header: bytes, question: bytes, owner: bytes, fields: bytes, rdata: bytes, rest: bytes): bytes {
    header + question + owner + fields + rdata + rest
  }

  /** With no question, the data of the answer are at the computed offset exactly when the owner
      name takes as much room as the uncompressed name asked for; with the question echoed,
      exactly when it takes the two bytes of a compression pointer. */
  lemma OffsetIsStartIff(header: bytes, question: bytes, owner: bytes, fields: bytes, labels: seq<string>, id: nat)
    requires Proper(labels) && Encodable(labels, 64) && id < TWO_TO_THE_16 && |header| == 12 && |fields| == 10
    requires question == if header[5] == 0 then [] else Encode(labels) + [0, 12, 0, 1]
    ensures var start := |header| + |question| + |owner| + |fields|;
            Offset(header[5], Join(labels, DOT), |Request(id, labels)|) == start <==>
            |owner| == if header[5] == 0 then |Encode(labels)| else 2
  {
    RequestShape(id, labels);
    hide Encode, Join, Proper, Encodable;
  }

  /** Decoding at that place an uncompressed target gives its dotted name in Kotlin and, the
      caller taking what comes before the first dot, its first label in Swift. */
  lemma AnswerIsTarget(response: bytes, packet: bytes, at: nat, target: seq<string>, before: bytes, rest: bytes,
                       text: bytes -> string, decode: bytes -> Option<string>)
    requires Proper(target) && Encodable(target, 64) && ReadsAscii(Always(text)) && ReadsAscii(decode)
    requires packet == before + Encode(target) + rest && packet <= response && at == |before|
    ensures DnsName.Labels(response, at, |packet|, 128, Always(text)) == Some(target)
    ensures DnsName.Labels(packet, at, |packet|, 256, decode) == Some(target)
    ensures SwiftSplit(Dotted(target))[..1] == [target[0]]
  {
    ProperJoin(target);
    DottedSplit(target);
    assert Encode(target) == EncodeLabels(target) + [0];
    hide Encode, EncodeLabels, Proper, SwiftSplit, ReadsAscii, Always;
    Written3(before, Encode(target), rest);
    WroteLonger(packet, response, at, Encode(target));
    DecodeEncoded(response, at, |packet|, 128, target, Always(text));
    DecodeEncoded(packet, at, |packet|, 256, target, decode);
  }

  lemma WroteLonger(s: bytes, s': bytes, at: nat, t: bytes)
    requires Wrote(s, at, t) && s <= s'
    ensures Wrote(s', at, t)
  {
  }

  lemma {:induction false} DottedSplit(labels: seq<string>)
    requires Proper(labels)
    ensures SwiftSplit(Dotted(labels))[..1] == [labels[0]]
  {
    var first, rest := labels[0], Dotted(labels[1..]);
    assert ProperLabel(first);
    SplitHead(first, DOT, rest);
    var parts := SplitOn(rest, DOT);
    assert ([first] + parts)[1..] == parts;
  }

  // ---- From a packet to a host name ---------------------------------------------------------

  /** The packet is not for this query, the name found, or an exception or trap. */
  datatype Outcome = Ignored | Named(name: string) | Unnamed | Failed

  predicate ForeignId(response: bytes, id: nat)
    requires |response| >= 2 && id < TWO_TO_THE_16
  {
    response[0] != id / 256 && response[1] != id % 256
  }

  function IdKt(addr: octets): (id: nat)
    ensures id < TWO_TO_THE_16
  {
    RequestIdKt(addr) % TWO_TO_THE_16
  }

  function IdSw(addr: octets): (id: nat)
    ensures id < TWO_TO_THE_16
  {
    var c, d := addr[2] as int, addr[3] as int;
    c * 255 + d
  }

  function OffsetFor(addr: octets, response: bytes): nat
    requires |response| > 5
  {
    var name := ReverseNameKt(addr);
    Offset(response[5], name, 12 + |name| + 2 + 4)
  }

  function AnswerKt(addr: octets, response: bytes, length: nat, text: bytes -> string): Outcome
    requires 5 < |response| && length <= |response|
  {
    if ForeignId(response, IdKt(addr)) then Ignored
    else
      match DnsName.Labels(response, OffsetFor(addr, response), length, 128, Always(text))
      case None => Failed
      case Some(labels) => if labels == [] then Failed else Named(Join(labels, DOT))
  }

  /** Reading an element that a short packet does not have is a trap. */
  function AnswerSw(addr: octets, response: bytes, decode: bytes -> Option<string>): Outcome {
    if |response| < 2 then Failed
    else if ForeignId(response, IdSw(addr)) then Ignored
    else if |response| < 6 then Failed
    else
      match DnsName.Labels(response, OffsetFor(addr, response), |response|, 256, decode)
      case None => Failed
      case Some(labels) =>
        var parts := SwiftSplit(Dotted(labels));
        if parts == [] then Unnamed else Named(parts[0])
  }

  lemma RequestOf(addr: octets, id: nat)
    requires id < TWO_TO_THE_16
    ensures Ascii(ReverseNameKt(addr)) && Proper(ReverseLabels(addr)) && Encodable(ReverseLabels(addr), 64)
    ensures SplitOn(ReverseNameKt(addr), DOT) == ReverseLabels(addr)
    ensures SwiftSplit(ReverseNameKt(addr)) == ReverseLabels(addr) && Countable(ReverseLabels(addr))
    ensures var request := Request(id, ReverseLabels(addr));
            |request| == 12 + |ReverseNameKt(addr)| + 2 + 4 && request[0] == id / 256 && request[1] == id % 256
  {
    ReverseNames(addr);
    ProperJoin(ReverseLabels(addr));
    RequestShape(id, ReverseLabels(addr));
    hide Encode, ReverseNameKt, Join, SplitOn, SwiftSplit, ReverseLabels, Proper;
  }

  /** `text` decodes the bytes of a label. What Kotlin's `resolve` makes of the 512-byte buffer it received into. */
  method ResolveKt(addr: octets, response: bytes, length: nat, text: bytes -> string) returns (r: Outcome)
    requires 5 < |response| && length <= |response|
    ensures r == AnswerKt(addr, response, length, text)
  {
    hide ReverseNameKt, Join, SplitOn, SwiftSplit, ReverseLabels, Proper, Request, DnsName.Labels;
    RequestOf(addr, IdKt(addr));
    var name := ReverseNameKt(addr);
    var request := DnsRequestKt(RequestIdKt(addr), name);
    if response[0] != request[0] && response[1] != request[1] {
      return Ignored;
    }
    var offset := Offset(response[5], name, |request|);
    var answer := DecodeNameKt(response, offset, length - offset, text);
    match answer
    case None => return Failed;
    case Some(host) => return Named(host);
  }

  lemma AppendedToNothing(labels: Option<seq<string>>)
    ensures labels.Some? ==> Appended("", labels) == Some(Dotted(labels.value))
  {
    if labels.Some? { assert "" + Dotted(labels.value) == Dotted(labels.value); }
  }

  /** What Swift's `channelRead` makes of a packet; `decode` refuses what is no UTF-8. */
  method ChannelRead(addr: octets, response: bytes, decode: bytes -> Option<string>) returns (r: Outcome)
    ensures r == AnswerSw(addr, response, decode)
  {
    hide ReverseNameKt, Quad, CalculateRequestID, Join, SplitOn, SwiftSplit, ReverseLabels, Proper, Request,
      DnsName.Labels, ReverseNameSw, Dotted;
    RequestOf(addr, IdSw(addr));
    RequestIdOfQuad(addr);
    ReverseNames(addr);
    var ip := Quad(addr);
    var requestID, name := CalculateRequestID(ip), ReverseNameSw(ip);
    var requestBytes := DnsRequestSw(requestID.value, name.value);
    if |response| == 0 {
      return Failed;
    }
    if response[0] != requestBytes.value[0] {
      if |response| == 1 {
        return Failed;
      }
      if response[1] != requestBytes.value[1] {
        return Ignored;
      }
    }
    if |response| < 6 {
      return Failed;
    }
    var offset := Offset(response[5], name.value, |requestBytes.value|);
    var hostName := DecodeNameSw(response, offset, |response| - offset, decode);
    match hostName
    case None => return Failed;
    case Some(found) =>
      AppendedToNothing(DnsName.Labels(response, offset, |response|, 256, decode));
      var parts := SwiftSplit(found);
      return if parts == [] then Unnamed else Named(parts[0]);
  }

  /** A response to the query, with no question and the owner name written out, or with the
      question echoed and the owner name a pointer to it. */
  predicate Answers(addr: octets, id: nat, header: bytes, question: bytes, owner: bytes, fields: bytes)
    requires id < TWO_TO_THE_16
    ensures Answers(addr, id, header, question, owner, fields) ==> |header| == 12
  {
    && |header| == 12 && header[0] == id / 256 && header[1] == id % 256 && |fields| == 10
    && AllAscii(ReverseLabels(addr))
    && var name := Encode(ReverseLabels(addr));
    if header[5] == 0 then question == [] && owner == name
    else question == name + [0, 12, 0, 1] && |owner| == 2
  }

  /** A response is ignored exactly when both of its first two bytes differ from those of the
      request: the third octet times 255 plus the fourth, of signed octets in Kotlin. Swift traps
      when there are no two bytes, or not six of a response that is not ignored. */
  lemma IgnoredIff(addr: octets, response: bytes, length: nat, text: bytes -> string, decode: bytes -> Option<string>)
    requires length <= |response|
    ensures |response| > 5 ==>
              var c, d := addr[2] as int, addr[3] as int;
              var id := ((if c < 128 then c else c - 256) * 255 + (if d < 128 then d else d - 256)) % 0x1_0000;
              (AnswerKt(addr, response, length, text) == Ignored <==>
                 response[0] != id / 256 && response[1] != id % 256)
    ensures var id := addr[2] as int * 255 + addr[3];
            && (AnswerSw(addr, response, decode) == Ignored <==>
                  |response| >= 2 && response[0] != id / 256 && response[1] != id % 256)
            && (|response| < 6 && AnswerSw(addr, response, decode) != Ignored ==>
                  AnswerSw(addr, response, decode) == Failed)
  {
    hide DnsName.Labels, OffsetFor, Join, SwiftSplit, Dotted;
  }

  /** When Kotlin returns a name, and which: at the place computed there are labels, one at least, none
      of more than 127 bytes or past the data, and the name is those labels with dots between. In
      every other case it ignores the response or fails. */
  lemma NamedByKtIff(addr: octets, response: bytes, length: nat, text: bytes -> string, name: string)
    requires 5 < |response| && length <= |response|
    ensures AnswerKt(addr, response, length, text) == Named(name) <==>
            && AnswerKt(addr, response, length, text) != Ignored
            && exists cuts, labels ::
                 && Spells(response, cuts, labels, length, 128, Always(text)) && cuts[0] == OffsetFor(addr, response)
                 && labels != [] && name == Join(labels, '.')
    ensures AnswerKt(addr, response, length, text) != Unnamed
  {
    hide DnsName.Labels, OffsetFor, Join, Spells, Always;
    var at := OffsetFor(addr, response);
    var found := DnsName.Labels(response, at, length, 128, Always(text));
    if found.Some? { LabelsIff(response, at, length, 128, Always(text), found.value); }
    if cuts, labels :| Spells(response, cuts, labels, length, 128, Always(text)) && cuts[0] == at &&
                       labels != [] && name == Join(labels, '.')
    {
      LabelsIff(response, at, length, 128, Always(text), labels);
    }
  }

  /** Swift returns what comes before the first dot of the labels there, an empty part left out; a label
      may have up to 255 bytes, and one that is no UTF-8 ends the name. */
  lemma NamedBySwIff(addr: octets, response: bytes, decode: bytes -> Option<string>, name: string)
    ensures AnswerSw(addr, response, decode) == Named(name) <==>
            && |response| >= 6 && AnswerSw(addr, response, decode) != Ignored
            && exists cuts, labels ::
                 && Spells(response, cuts, labels, |response|, 256, decode) && cuts[0] == OffsetFor(addr, response)
                 && SwiftSplit(Dotted(labels)) != [] && name == SwiftSplit(Dotted(labels))[0]
  {
    hide DnsName.Labels, OffsetFor, SwiftSplit, Dotted, Spells;
    if |response| >= 6 {
      var at := OffsetFor(addr, response);
      var found := DnsName.Labels(response, at, |response|, 256, decode);
      if found.Some? { LabelsIff(response, at, |response|, 256, decode, found.value); }
      if cuts, labels :| Spells(response, cuts, labels, |response|, 256, decode) && cuts[0] == at &&
                         SwiftSplit(Dotted(labels)) != [] && name == SwiftSplit(Dotted(labels))[0]
      {
        LabelsIff(response, at, |response|, 256, decode, labels);
      }
    }
  }

  /** Whatever follows the target, Kotlin returns its dotted name and Swift its first label. */
  lemma TargetIsReturned(addr: octets, header: bytes, question: bytes, owner: bytes, fields: bytes, target: seq<string>,
                         rest: bytes, padding: bytes, text: bytes -> string, decode: bytes -> Option<string>)
    requires Proper(target) && Encodable(target, 64) && ReadsAscii(Always(text)) && ReadsAscii(decode)
    ensures var packet := Response(header, question, owner, fields, Encode(target), rest);
            (Answers(addr, IdKt(addr), header, question, owner, fields) ==>
               AnswerKt(addr, packet + padding, |packet|, text) == Named(Join(target, DOT)))
            && (Answers(addr, IdSw(addr), header, question, owner, fields) ==>
                  AnswerSw(addr, packet, decode) == Named(target[0]))
  {
    if Answers(addr, IdKt(addr), header, question, owner, fields) {
      TargetAt(addr, IdKt(addr), header, question, owner, fields, target, rest, padding, text, decode);
    }
    if Answers(addr, IdSw(addr), header, question, owner, fields) {
      TargetAt(addr, IdSw(addr), header, question, owner, fields, target, rest, padding, text, decode);
    }
  }

  lemma TargetAt(
      addr: octets, id: nat, header: bytes, question: bytes, owner: bytes, fields: bytes, target: seq<string>,
      rest: bytes, padding: bytes, text: bytes -> string, decode: bytes -> Option<string>)
    requires Proper(target) && Encodable(target, 64) && ReadsAscii(Always(text)) && ReadsAscii(decode)
    requires id < TWO_TO_THE_16
    requires Answers(addr, id, header, question, owner, fields)
    ensures var packet := Response(header, question, owner, fields, Encode(target), rest);
            && |packet| >= 12 && packet[0] == header[0] && packet[1] == header[1] && packet[5] == header[5]
            && (packet + padding)[0] == header[0] && (packet + padding)[1] == header[1]
            && (packet + padding)[5] == header[5]
            && DnsName.Labels(packet + padding, OffsetFor(addr, packet + padding), |packet|, 128, Always(text))
               == Some(target)
            && DnsName.Labels(packet, OffsetFor(addr, packet), |packet|, 256, decode) == Some(target)
            && SwiftSplit(Dotted(target))[..1] == [target[0]]
  {
    assert AllAscii(target);
    hide *;
    var packet := Response(header, question, owner, fields, Encode(target), rest);
    var before := header + question + owner + fields;
    ResponseParts(header, question, owner, fields, Encode(target), rest, padding);
    OffsetOfAnswer(addr, id, header, question, owner, fields, packet);
    OffsetOfAnswer(addr, id, header, question, owner, fields, packet + padding);
    AnswerIsTarget(packet + padding, packet, |before|, target, before, rest, text, decode);
  }

  lemma ResponseParts(
      header: bytes, question: bytes, owner: bytes, fields: bytes, rdata: bytes, rest: bytes, padding: bytes)
    requires |header| == 12
    ensures var packet := Response(header, question, owner, fields, rdata, rest);
            && |packet| >= 12 && packet[0] == header[0] && packet[1] == header[1] && packet[5] == header[5]
            && (packet + padding)[0] == header[0] && (packet + padding)[1] == header[1]
            && (packet + padding)[5] == header[5]
            && packet <= packet + padding
            && packet == header + question + owner + fields + rdata + rest
  {
    var more := question + owner + fields + rdata + rest;
    assert Response(header, question, owner, fields, rdata, rest) == header + more;
  }

  lemma OffsetOfAnswer(
      addr: octets, id: nat, header: bytes, question: bytes, owner: bytes, fields: bytes, response: bytes)
    requires id < TWO_TO_THE_16 && |response| >= 12
    requires Answers(addr, id, header, question, owner, fields) && response[5] == header[5]
    ensures OffsetFor(addr, response) == |header + question + owner + fields|
  {
    RequestOf(addr, id);
    ReverseNames(addr);
    hide Encode, Join, ReverseNameKt, ReverseLabels, Proper, Encodable, SplitOn, SwiftSplit, Request, AllAscii, Offset;
    OffsetIsStartIff(header, question, owner, fields, ReverseLabels(addr), id);
  }
}
