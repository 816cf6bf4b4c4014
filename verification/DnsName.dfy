/**
 Names on the wire (section 3.1 of RFC 1035): each piece after its length, then a zero
 (MDNSResolver.kt:21-46, MDNSResolver.swift:162-210).

 Names are ASCII here, so that a character is one byte in UTF-8.
 */
module DnsName {
  import opened Bytes
  import opened Common
  import opened Text

  const DOT := '.'

  predicate Ascii(s: string) {
    forall i :: 0 <= i < |s| ==> s[i] < 128 as char
  }

  predicate AllAscii(labels: seq<string>) {
    forall k :: 0 <= k < |labels| ==> Ascii(labels[k])
  }

  function AsBytes(s: string): (b: bytes)
    requires Ascii(s)
    ensures |b| == |s|
  {
    seq(|s|, i requires 0 <= i < |s| => s[i] as int)
  }

  // ---- The wire form ----------------------------------------------------------

  /** The low byte of the length, then the label. */
  function EncodeLabels(labels: seq<string>): bytes
    requires AllAscii(labels)
  {
    if labels == [] then [] else [|labels[0]| % 256] + AsBytes(labels[0]) + EncodeLabels(labels[1..])
  }

  function Encode(labels: seq<string>): bytes
    requires AllAscii(labels)
  {
    EncodeLabels(labels) + [0]
  }

  /** The next dot, or the end. */
  function Dot(name: string, from: nat): (e: nat)
    requires from <= |name|
    ensures from <= e <= |name|
  {
    IndexOf(name, DOT, from)
  }

  /** The labels from index `from` on. */
  function LabelsFrom(name: string, from: nat): (labels: seq<string>)
    requires from <= |name|
    ensures labels != []
    decreases |name| - from
  {
    var e := Dot(name, from);
    if e == |name| then [name[from..]] else [name[from..e]] + LabelsFrom(name, e + 1)
  }

  lemma {:induction false} LabelsFromIsSplit(name: string, from: nat)
    requires from <= |name|
    ensures LabelsFrom(name, from) == SplitOn(name[from..], DOT)
    decreases |name| - from
  {
    hide Dot, SplitOn;
    var e := Dot(name, from);
    SplitAt(name, from, e);
    if e < |name| { LabelsFromIsSplit(name, e + 1); }
  }

  lemma SplitAt(name: string, from: nat, e: nat)
    requires from <= |name| && e == Dot(name, from)
    ensures SplitOn(name[from..], DOT)
         == if e == |name| then [name[from..]] else [name[from..e]] + SplitOn(name[e + 1..], DOT)
  {
    IndexOfFrom(name, DOT, from);
    SplitStep(name[from..], DOT, e - from);
    hide *;
    if e < |name| { Cut(name, from, e, e - from, e - from + 1); }
  }

  lemma Cut<T>(s: seq<T>, from: nat, e: nat, i: nat, j: nat)
    requires from <= e < |s| && i == e - from && j == i + 1
    ensures s[from..][..i] == s[from..e] && s[from..][j..] == s[e + 1..]
  {
  }

  lemma IndexOfUnique(s: string, c: char, from: nat, i: nat)
    requires from <= i <= |s| && (i < |s| ==> s[i] == c) && forall k :: from <= k < i ==> s[k] != c
    ensures IndexOf(s, c, from) == i
  {
  }

  lemma IndexOfFrom(s: string, c: char, from: nat)
    requires from <= |s|
    ensures IndexOf(s[from..], c, 0) == IndexOf(s, c, from) - from
  {
    IndexOfUnique(s[from..], c, 0, IndexOf(s, c, from) - from);
  }

  lemma {:induction false} LabelsFromAscii(name: string, from: nat)
    requires from <= |name| && Ascii(name)
    ensures AllAscii(LabelsFrom(name, from))
    decreases |name| - from
  {
    var e := Dot(name, from);
    if e < |name| { LabelsFromAscii(name, e + 1); }
  }

  /** What is written from index `from` on. */
  function EncodeFrom(name: string, from: nat): bytes
    requires from <= |name| && Ascii(name)
  {
    LabelsFromAscii(name, from);
    Encode(LabelsFrom(name, from))
  }

  /** What `out` becomes when the rest of the name has been written. */
  function Written(out: bytes, name: string, from: nat): bytes
    requires from <= |name| && Ascii(name)
  {
    out + EncodeFrom(name, from)
  }

  function Labelled(out: bytes, length: nat, piece: string): bytes
    requires Ascii(piece)
  {
    out + [length % 256] + AsBytes(piece)
  }

  lemma EncodeMore(name: string, from: nat, e: nat, out: bytes)
    requires from <= e < |name| && e == Dot(name, from) && Ascii(name)
    ensures Ascii(name[from..e])
    ensures Written(out, name, from) == Written(Labelled(out, e - from, name[from..e]), name, e + 1)
  {
    hide Dot, AsBytes, Encode, EncodeLabels, AllAscii;
    var piece := name[from..e];
    LabelsFromAscii(name, from);
    LabelsFromAscii(name, e + 1);
    EncodeCons(piece, LabelsFrom(name, e + 1));
    AppendFour(out, [|piece| % 256], AsBytes(piece), Encode(LabelsFrom(name, e + 1)));
  }

  lemma EncodeLast(name: string, from: nat, out: bytes)
    requires from <= |name| && |name| == Dot(name, from) && Ascii(name)
    ensures Ascii(name[from..])
    ensures Written(out, name, from) == Labelled(out, |name| - from, name[from..]) + [0]
  {
    hide Dot, AsBytes, Encode, EncodeLabels;
    var piece := name[from..];
    LabelsFromAscii(name, from);
    EncodeCons(piece, []);
    assert LabelsFrom(name, from) == [piece] + [];
    AppendFour(out, [|piece| % 256], AsBytes(piece), [0]);
  }

  lemma EncodeCons(piece: string, rest: seq<string>)
    requires Ascii(piece) && AllAscii(rest)
    ensures AllAscii([piece] + rest)
    ensures EncodeLabels([piece] + rest) == [|piece| % 256] + AsBytes(piece) + EncodeLabels(rest)
    ensures Encode([piece] + rest) == [|piece| % 256] + AsBytes(piece) + Encode(rest)
    ensures Encode([]) == [0]
  {
    hide AsBytes;
    var all := [piece] + rest;
    assert all[0] == piece && all[1..] == rest;
    assert [|piece| % 256] + AsBytes(piece) + EncodeLabels(rest) + [0] ==
        [|piece| % 256] + AsBytes(piece) + (EncodeLabels(rest) + [0]);
  }

  lemma AppendFour<T>(a: seq<T>, b: seq<T>, c: seq<T>, d: seq<T>)
    ensures a + (b + c + d) == a + b + c + d
  {
  }

  /** `writeByte` of a length, then the label. */
  method WriteLabel(out: bytes, length: nat, piece: string) returns (r: bytes)
    requires Ascii(piece)
    ensures r == Labelled(out, length, piece)
  {
    r := out + [length % 256];
    r := r + AsBytes(piece);
  }

  method WriteMore(out: bytes, name: string, s: nat, e: nat) returns (r: bytes)
    requires s <= e < |name| && e == Dot(name, s) && Ascii(name)
    ensures Written(r, name, e + 1) == Written(out, name, s)
  {
    hide *;
    EncodeMore(name, s, e, out);
    r := WriteLabel(out, e - s, name[s..e]);
  }

  /** Kotlin's `writeName`, on the stream written so far. */
  method WriteName(out: bytes, name: string) returns (r: bytes)
    requires Ascii(name)
    ensures AllAscii(SplitOn(name, DOT))
    ensures r == out + Encode(SplitOn(name, DOT))
  {
    WholeName(name);
    assert Written(out, name, 0) == out + Encode(SplitOn(name, DOT));
    hide *;
    r := out;
    var s, e := 0, Dot(name, 0);
    while e < |name|
      invariant s <= e <= |name| && e == Dot(name, s)
      invariant Written(r, name, s) == Written(out, name, 0)
      decreases |name| - s
    {
      r := WriteMore(r, name, s, e);
      s := e + 1;
      e := Dot(name, s);
    }
    EncodeLast(name, s, r);
    r := WriteLabel(r, |name| - s, name[s..]);
    r := r + [0];
  }

  lemma WholeName(name: string)
    requires Ascii(name)
    ensures AllAscii(SplitOn(name, DOT)) && EncodeFrom(name, 0) == Encode(SplitOn(name, DOT))
  {
    LabelsFromIsSplit(name, 0);
    LabelsFromAscii(name, 0);
    assert name[0..] == name;
    hide LabelsFrom, SplitOn, AllAscii, Encode;
  }

  // ---- Swift's encoder ----------------------------------------------------------

  function NonEmpty(labels: seq<string>): seq<string> {
    if labels == [] then []
    else if labels[0] == "" then NonEmpty(labels[1..])
    else [labels[0]] + NonEmpty(labels[1..])
  }

  /** `UInt8(label.count)` traps above 255. */
  predicate Countable(labels: seq<string>) {
    forall k :: 0 <= k < |labels| ==> |labels[k]| <= 255
  }

  /** The loop over `name.split(separator: ".")`, which leaves empty parts out; None is a trap. */
  method AppendLabels(byteArray: bytes, labels: seq<string>) returns (r: Option<bytes>)
    requires AllAscii(labels)
    ensures r == if Countable(labels) then Some(byteArray + Encode(labels)) else None
  {
    var out := byteArray;
    var k := 0;
    while k < |labels|
      invariant 0 <= k <= |labels|
      invariant AllAscii(labels[k..]) && Countable(labels[..k])
      invariant out + Encode(labels[k..]) == byteArray + Encode(labels)
    {
      var piece := labels[k];
      if |piece| > 255 {
        return None;
      }
      TakeLabel(labels, k);
      EncodeCons(piece, labels[k + 1..]);
      AppendFour(out, [|piece|], AsBytes(piece), Encode(labels[k + 1..]));
      out := out + [|piece|];
      out := out + AsBytes(piece);
      k := k + 1;
    }
    EncodeCons("", []);
    return Some(out + [0]);
  }

  lemma TakeLabel(labels: seq<string>, k: nat)
    requires k < |labels|
    ensures labels[k..] == [labels[k]] + labels[k + 1..]
    ensures labels[..k + 1] == labels[..k] + [labels[k]]
  {
  }

  // ---- The two encoders ----------------------------------------------------------

  /** What `name.split(separator: ".")` gives. */
  function SwiftSplit(name: string): seq<string> {
    NonEmpty(SplitOn(name, DOT))
  }

  lemma {:induction false} EncodeLength(labels: seq<string>)
    requires AllAscii(labels)
    ensures labels != [] ==> |Encode(labels)| == |Join(labels, DOT)| + 2
    ensures |Encode(NonEmpty'(labels))| <= |Encode(labels)|
    ensures "" in labels ==> |Encode(NonEmpty'(labels))| < |Encode(labels)|
    ensures "" !in labels ==> NonEmpty(labels) == labels
  {
    if labels != [] {
      var rest := labels[1..];
      assert labels == [labels[0]] + rest;
      EncodeCons(labels[0], rest);
      EncodeCons(labels[0], NonEmpty'(rest));
      EncodeLength(rest);
    }
  }

  /** The labels Swift encodes are ASCII when all are. */
  function NonEmpty'(labels: seq<string>): (r: seq<string>)
    requires AllAscii(labels)
    ensures AllAscii(r) && r == NonEmpty(labels)
  {
    if labels == [] then []
    else
      var rest := NonEmpty'(labels[1..]);
      if labels[0] == "" then rest else [labels[0]] + rest
  }

  /** For every dotted name the Kotlin encoder writes two bytes more than the name is long,
      and the Swift encoder writes the same bytes exactly when no label is empty. */
  lemma EncodersAgreeIff(name: string)
    requires Ascii(name)
    ensures AllAscii(SplitOn(name, DOT)) && AllAscii(SwiftSplit(name))
    ensures |Encode(SplitOn(name, DOT))| == |name| + 2
    ensures Encode(SwiftSplit(name)) == Encode(SplitOn(name, DOT)) <==> "" !in SplitOn(name, DOT)
  {
    WholeName(name);
    JoinSplit(name, DOT);
    var labels := SplitOn(name, DOT);
    hide *;
    EncodeLength(labels);
    assert NonEmpty'(labels) == SwiftSplit(name) by { SwiftSplitIs(name); }
  }

  lemma SwiftSplitIs(name: string)
    requires AllAscii(SplitOn(name, DOT))
    ensures SwiftSplit(name) == NonEmpty'(SplitOn(name, DOT))
  {
  }

  // ---- Decoding --------------------------------------------------------------------

  /** What a decoder of bytes makes of ASCII text; of other bytes nothing is said. */
  ghost predicate ReadsAscii(decode: bytes -> Option<string>) {
    forall s :: Ascii(s) ==> decode(AsBytes(s)) == Some(s)
  }

  /** The labels met from index `i` on, up to a zero, `end`, or a label that `decode` refuses;
      None when a length byte is at least `limit` or the label runs past the data. */
  function Labels(data: bytes, i: nat, end: int, limit: nat, decode: bytes -> Option<string>): Option<seq<string>>
    requires end <= |data|
    decreases end - i
  {
    if i >= end || data[i] == 0 then Some([])
    else
      var n := i + 1 + data[i];
      if data[i] >= limit || n > |data| then None
      else
        match decode(data[i + 1..n])
        case None => Some([])
        case Some(piece) =>
          match Labels(data, n, end, limit, decode)
          case None => None
          case Some(rest) => Some([piece] + rest)
  }

  /** Each label with a dot after it. */
  function Dotted(labels: seq<string>): string {
    if labels == [] then "" else labels[0] + [DOT] + Dotted(labels[1..])
  }

  function Appended(s: string, labels: Option<seq<string>>): Option<string> {
    match labels case None => None case Some(l) => Some(s + Dotted(l))
  }

  lemma {:induction false} DottedIsJoin(labels: seq<string>)
    requires labels != []
    ensures Dotted(labels) == Join(labels, DOT) + [DOT]
  {
    if |labels| > 1 { DottedIsJoin(labels[1..]); }
  }

  lemma AppendedStep(data: bytes, i: nat, end: int, limit: nat, s: string, decode: bytes -> Option<string>)
    requires i < end <= |data| && data[i] != 0 && data[i] < limit && i + 1 + data[i] <= |data|
    ensures var n := i + 1 + data[i];
            Appended(s, Labels(data, i, end, limit, decode)) ==
            match decode(data[i + 1..n])
            case None => Some(s)
            case Some(piece) => Appended(s + piece + [DOT], Labels(data, n, end, limit, decode))
  {
    var n := i + 1 + data[i];
    assert s + Dotted([]) == s;
    if decode(data[i + 1..n]).Some? {
      var piece, rest := decode(data[i + 1..n]).value, Labels(data, n, end, limit, decode);
      if rest.Some? {
        var all := [piece] + rest.value;
        assert all[1..] == rest.value;
        assert s + (piece + [DOT] + Dotted(rest.value)) == s + piece + [DOT] + Dotted(rest.value);
      }
    }
  }

  /** Kotlin's bytes always decode, those that are no UTF-8 to replacement characters. */
  function Always(text: bytes -> string): bytes -> Option<string> {
    b => Some(text(b))
  }

  /** Kotlin's `decodeName`; None is an exception. Length bytes are signed; `text` decodes a label. */
  method DecodeNameKt(data: bytes, offset: nat, length: int, text: bytes -> string) returns (r: Option<string>)
    requires offset + length <= |data|
    ensures r == match Labels(data, offset, offset + length, 128, Always(text))
                 case None => None
                 case Some(labels) => if labels == [] then None else Some(Join(labels, DOT))
  {
    var end := offset + length;
    var all := Labels(data, offset, end, 128, Always(text));
    if length < 0 {
      return None;
    }
    var s := "";
    var i := offset;
    while i < end && data[i] != 0
      invariant Appended(s, Labels(data, i, end, 128, Always(text))) == Appended("", all)
      decreases end - i
    {
      var unsigned: int := data[i];
      var len := if unsigned < 128 then unsigned else unsigned - 256;
      if len < 0 || i + 1 + len > |data| {
        return None;
      }
      AppendedStep(data, i, end, 128, s, Always(text));
      s := s + text(data[i + 1..i + 1 + len]) + [DOT];
      i := i + (len + 1);
    }
    r := DropDot(s, all);
  }

  /** `setLength(length - 1)`, an exception on an empty text. */
  method DropDot(s: string, ghost all: Option<seq<string>>) returns (r: Option<string>)
    requires Appended(s, Some([])) == Appended("", all)
    ensures all.Some? && r == if all.value == [] then None else Some(Join(all.value, DOT))
  {
    assert s + Dotted([]) == s;
    assert "" + Dotted(all.value) == Dotted(all.value);
    if s == "" {
      return None;
    }
    DottedIsJoin(all.value);
    return Some(s[..|s| - 1]);
  }

  /** Swift's `decodeName`; None is a trap. It stops at a label that is no UTF-8. */
  method DecodeNameSw(data: bytes, offset: nat, length: int, decode: bytes -> Option<string>)
    returns (r: Option<string>)
    requires offset + length <= |data|
    ensures r == Appended("", Labels(data, offset, offset + length, 256, decode))
  {
    var end := offset + length;
    var name := "";
    var i := offset;
    while i < end && data[i] != 0
      invariant Appended(name, Labels(data, i, end, 256, decode)) ==
                Appended("", Labels(data, offset, end, 256, decode))
      decreases end - i
    {
      var labelCount := data[i];
      if i + 1 + labelCount > |data| {
        return None;
      }
      AppendedStep(data, i, end, 256, name, decode);
      match decode(data[i + 1..i + 1 + labelCount]) {
        case None => return Some(name);
        case Some(str) => name := name + str + [DOT];
      }
      i := i + 1 + labelCount;
    }
    assert name + Dotted([]) == name;
    return Some(name);
  }

  // ---- What is decoded ---------------------------------------------------------------

  /** No label starts at `at`: the end of what is read, a zero, or bytes that `decode` refuses. */
  predicate NoMore(data: bytes, at: nat, end: int, limit: nat, decode: bytes -> Option<string>)
    requires end <= |data|
  {
    at >= end || data[at] == 0 ||
    (data[at] < limit && at + 1 + data[at] <= |data| && decode(data[at + 1..at + 1 + data[at]]) == None)
  }

  /** A label starts at `at` with its length, below `limit`, and ends at `next`, inside the data. */
  predicate LabelThere(data: bytes, at: nat, next: nat, s: string, end: int, limit: nat,
                       decode: bytes -> Option<string>)
    requires end <= |data|
  {
    at < end && 0 < data[at] < limit && next == at + 1 + data[at] <= |data| && decode(data[at + 1..next]) == Some(s)
  }

  /** The labels stand one after another, each from one cut to the next, and then there is no more. */
  ghost predicate Spells(data: bytes, cuts: seq<nat>, labels: seq<string>, end: int, limit: nat,
                         decode: bytes -> Option<string>)
    requires end <= |data|
    ensures Spells(data, cuts, labels, end, limit, decode) ==> |cuts| > 0
  {
    && |cuts| == |labels| + 1
    && (forall k :: 0 <= k < |labels| ==> LabelThere(data, cuts[k], cuts[k + 1], labels[k], end, limit, decode))
    && NoMore(data, cuts[|labels|], end, limit, decode)
  }

  /** Decoding succeeds with the labels that stand there, one after another, and otherwise fails. */
  lemma LabelsIff(data: bytes, i: nat, end: int, limit: nat, decode: bytes -> Option<string>, labels: seq<string>)
    requires end <= |data|
    ensures Labels(data, i, end, limit, decode) == Some(labels) <==>
            exists cuts :: Spells(data, cuts, labels, end, limit, decode) && cuts[0] == i
  {
    hide Labels, LabelThere, NoMore;
    if Labels(data, i, end, limit, decode) == Some(labels) {
      var cuts := CutsOf(data, i, end, limit, decode, labels);
    }
    if cuts :| Spells(data, cuts, labels, end, limit, decode) && cuts[0] == i {
      SpelledIsRead(data, cuts, labels, end, limit, decode);
    }
  }

  lemma NoMoreStops(data: bytes, at: nat, end: int, limit: nat, decode: bytes -> Option<string>)
    requires end <= |data| && NoMore(data, at, end, limit, decode)
    ensures Labels(data, at, end, limit, decode) == Some([])
  {
  }

  lemma LabelRead(data: bytes, at: nat, next: nat, s: string, end: int, limit: nat, decode: bytes -> Option<string>)
    requires end <= |data| && LabelThere(data, at, next, s, end, limit, decode)
    ensures Labels(data, at, end, limit, decode) ==
            match Labels(data, next, end, limit, decode)
            case None => None
            case Some(rest) => Some([s] + rest)
  {
  }

  lemma ReadIsThere(data: bytes, at: nat, end: int, limit: nat, decode: bytes -> Option<string>) returns (next: nat)
    requires end <= |data| && Labels(data, at, end, limit, decode).Some? && !NoMore(data, at, end, limit, decode)
    ensures var labels := Labels(data, at, end, limit, decode).value;
            && labels != [] && at < next && at < end && LabelThere(data, at, next, labels[0], end, limit, decode)
            && Labels(data, next, end, limit, decode) == Some(labels[1..])
  {
    next := at + 1 + data[at];
    var rest := Labels(data, next, end, limit, decode).value;
    assert Labels(data, at, end, limit, decode).value[1..] == rest;
  }

  lemma {:induction false} CutsOf(
      data: bytes, i: nat, end: int, limit: nat, decode: bytes -> Option<string>, labels: seq<string>)
    returns (cuts: seq<nat>)
    requires end <= |data| && Labels(data, i, end, limit, decode) == Some(labels)
    ensures Spells(data, cuts, labels, end, limit, decode) && cuts[0] == i
    decreases end - i
  {
    hide Labels, LabelThere, NoMore;
    cuts := [i];
    if NoMore(data, i, end, limit, decode) {
      NoMoreStops(data, i, end, limit, decode);
    } else {
      var next := ReadIsThere(data, i, end, limit, decode);
      var rest := CutsOf(data, next, end, limit, decode, labels[1..]);
      cuts := [i] + rest;
      SpellsCons(data, i, rest, labels, end, limit, decode);
    }
  }

  lemma SpellsCons(data: bytes, i: nat, rest: seq<nat>, labels: seq<string>, end: int, limit: nat,
                   decode: bytes -> Option<string>)
    requires end <= |data| && labels != [] && Spells(data, rest, labels[1..], end, limit, decode)
    requires LabelThere(data, i, rest[0], labels[0], end, limit, decode)
    ensures Spells(data, [i] + rest, labels, end, limit, decode)
  {
    hide LabelThere, NoMore;
    var cuts := [i] + rest;
    forall k | 0 <= k < |labels| ensures LabelThere(data, cuts[k], cuts[k + 1], labels[k], end, limit, decode) {
      if k > 0 {
        assert LabelThere(data, rest[k - 1], rest[k], labels[1..][k - 1], end, limit, decode);
      }
    }
  }

  lemma {:induction false} SpelledIsRead(data: bytes, cuts: seq<nat>, labels: seq<string>, end: int, limit: nat,
                                         decode: bytes -> Option<string>)
    requires end <= |data| && Spells(data, cuts, labels, end, limit, decode)
    ensures Labels(data, cuts[0], end, limit, decode) == Some(labels)
    decreases |labels|
  {
    hide Labels, LabelThere, NoMore;
    if labels == [] {
      NoMoreStops(data, cuts[0], end, limit, decode);
    } else {
      SpellsTail(data, cuts, labels, end, limit, decode);
      SpelledIsRead(data, cuts[1..], labels[1..], end, limit, decode);
      LabelRead(data, cuts[0], cuts[1], labels[0], end, limit, decode);
      assert labels == [labels[0]] + labels[1..];
    }
  }

  lemma SpellsTail(data: bytes, cuts: seq<nat>, labels: seq<string>, end: int, limit: nat,
                   decode: bytes -> Option<string>)
    requires end <= |data| && labels != [] && Spells(data, cuts, labels, end, limit, decode)
    ensures LabelThere(data, cuts[0], cuts[1], labels[0], end, limit, decode)
    ensures Spells(data, cuts[1..], labels[1..], end, limit, decode)
  {
    hide LabelThere, NoMore;
    forall k | 0 <= k < |labels| - 1
      ensures LabelThere(data, cuts[1..][k], cuts[1..][k + 1], labels[1..][k], end, limit, decode)
    {
      assert LabelThere(data, cuts[k + 1], cuts[k + 2], labels[k + 1], end, limit, decode);
    }
  }

  // ---- Round trip -------------------------------------------------------------------

  /** ASCII labels, none empty, none as long as `limit`. */
  predicate Encodable(labels: seq<string>, limit: nat) {
    AllAscii(labels) && forall k :: 0 <= k < |labels| ==> 0 < |labels[k]| < limit
  }

  lemma WroteApart(s: bytes, at: nat, t: bytes, u: bytes)
    requires Wrote(s, at, t + u)
    ensures Wrote(s, at, t) && Wrote(s, at + |t|, u)
  {
    forall i | 0 <= i < |t| ensures s[at + i] == t[i] { assert (t + u)[i] == t[i]; }
    forall i | 0 <= i < |u| ensures s[at + |t| + i] == u[i] {
      assert (t + u)[|t| + i] == u[i] && s[at + (|t| + i)] == (t + u)[|t| + i];
    }
  }

  lemma WroteIs(s: bytes, at: nat, t: bytes)
    requires Wrote(s, at, t)
    ensures at + |t| <= |s| && s[at..at + |t|] == t
  {
  }

  /** Where the encoded labels stand, whatever stands around them, decoding finds them. */
  lemma {:induction false} DecodeEncoded(data: bytes, at: nat, end: int, limit: nat, labels: seq<string>,
                                         decode: bytes -> Option<string>)
    requires ReadsAscii(decode) && Encodable(labels, limit) && limit <= 256
    requires at + |EncodeLabels(labels)| <= end <= |data|
    requires Wrote(data, at, Encode(labels))
    ensures Labels(data, at, end, limit, decode) == Some(labels)
    decreases |labels|
  {
    hide Wrote, AsBytes;
    if labels == [] {
      EncodeCons("", []);
      WroteIs(data, at, [0]);
      assert data[at..at + 1][0] == data[at];
    } else {
      var piece, rest := labels[0], labels[1..];
      var n := at + 1 + |piece|;
      assert labels == [piece] + rest;
      EncodeCons(piece, rest);
      HeadWritten(data, at, piece, Encode(rest));
      DecodeEncoded(data, n, end, limit, rest, decode);
      assert decode(AsBytes(piece)) == Some(piece);
    }
  }

  lemma HeadWritten(data: bytes, at: nat, piece: string, rest: bytes)
    requires Ascii(piece) && |piece| < 256 && Wrote(data, at, [|piece| % 256] + AsBytes(piece) + rest)
    ensures var n := at + 1 + |piece|;
            && n <= |data| && data[at] == |piece| && data[at + 1..n] == AsBytes(piece) && Wrote(data, n, rest)
  {
    hide AsBytes, Wrote;
    WroteApart(data, at, [|piece| % 256] + AsBytes(piece), rest);
    WroteApart(data, at, [|piece| % 256], AsBytes(piece));
    WroteIs(data, at, [|piece| % 256]);
    WroteIs(data, at + 1, AsBytes(piece));
    assert data[at..at + 1][0] == data[at];
  }
}
