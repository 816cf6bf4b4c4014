/** The MPLS label stack printer (mpls_ntop.c:9-37). */
module MplsPrinter {
  import opened Bytes
  import opened Text

  /** The stack in memory: entries in network order, one after another for ever.
      Section 2.1 of RFC 3032: 20 bits of label, then the bottom-of-stack bit. */
  type stack = nat -> octets

  function Label(entry: octets): nat {
    NetLong(entry) / 0x1000
  }

  predicate Bottom(entry: octets) {
    NetLong(entry) / 0x100 % 2 == 1
  }

  function Labels(addr: stack, n: nat): (ls: seq<string>)
    ensures |ls| == n
    ensures forall i :: 0 <= i < n ==> ls[i] == Dec(Label(addr(i)))
  {
    seq(n, i requires 0 <= i < n => Dec(Label(addr(i))))
  }

  /** Labels 0 to `k`, joined by slashes. */
  function StackText(addr: stack, k: nat): string {
    Join(Labels(addr, k + 1), '/')
  }

  /** The first `n` labels, each followed by a slash. */
  function Slashed(addr: stack, n: nat): string {
    if n == 0 then "" else Slashed(addr, n - 1) + Dec(Label(addr(n - 1))) + "/"
  }

  lemma {:induction false} StackTextLast(addr: stack, k: nat)
    ensures StackText(addr, k) == Slashed(addr, k) + Dec(Label(addr(k)))
  {
    if k > 0 {
      StackTextLast(addr, k - 1);
      assert Labels(addr, k + 1) == Labels(addr, k) + [Dec(Label(addr(k)))];
      JoinSnoc(Labels(addr, k), Dec(Label(addr(k))), '/');
    }
  }

  lemma {:induction false} SlashedGrows(addr: stack, m: nat, n: nat)
    requires m < n
    ensures |Slashed(addr, m)| + |Dec(Label(addr(m)))| + 1 <= |Slashed(addr, n)|
  {
    if m < n - 1 {
      SlashedGrows(addr, m, n - 1);
    }
  }

  ghost predicate FirstBottom(addr: stack, k: nat) {
    Bottom(addr(k)) && forall j: nat :: j < k ==> !Bottom(addr(j))
  }

  /** `mpls_ntop1`: succeeds exactly when the text of a stack with a bottom is
      shorter than the buffer, and never writes past `buflen`. */
  method MplsNtop1(addr: stack, buf: array<char>, buflen: nat) returns (ok: bool)
    requires buflen <= buf.Length
    modifies buf
    ensures ok <==> exists k: nat :: FirstBottom(addr, k) && |StackText(addr, k)| < buflen
    ensures forall k: nat :: ok && FirstBottom(addr, k) ==>
              buf[..] == Splice(old(buf[..]), 0, StackText(addr, k) + [NUL])
    ensures buf[buflen..] == old(buf[buflen..])
  {
    ghost var s := buf[..];
    hide StackText, Slashed, Dec, Splice, FirstBottom, NetLong;
    Nothing(addr, s);
    var destlen, dest, count := buflen, 0, 0;
    while true
      invariant dest + destlen == buflen && dest == |Slashed(addr, count)|
      invariant buf[..] == Splice(s, 0, Slashed(addr, count))
      invariant forall j: nat :: j < count ==> !Bottom(addr(j))
      decreases destlen
    {
      var entry := NetLong(addr(count));
      var len := PutLabel(buf, s, dest, Slashed(addr, count), destlen, Dec(entry / 0x1000));
      if len >= destlen {
        TooLong(addr, count, buflen);
        return false;
      }
      if entry / 0x100 % 2 == 1 {
        Complete(addr, count);
        SpliceTail(s, StackText(addr, count) + [NUL], buflen);
        return true;
      }
      SlashedNext(addr, count);
      PutSlash(buf, s, Slashed(addr, count) + Dec(entry / 0x1000), dest + len);
      count := count + 1;
      dest, destlen := dest + len + 1, destlen - len - 1;
    }
  }

  lemma Nothing(addr: stack, s: string)
    ensures Slashed(addr, 0) == "" && Splice(s, 0, "") == s
  {
  }

  lemma SlashedNext(addr: stack, n: nat)
    ensures Slashed(addr, n + 1) == Slashed(addr, n) + Dec(Label(addr(n))) + "/"
  {
  }

  lemma SpliceTail<T>(s: seq<T>, t: seq<T>, n: nat)
    requires |t| <= n <= |s|
    ensures Splice(s, 0, t)[n..] == s[n..]
  {
  }

  /** One label, after what is already there. */
  method PutLabel(buf: array<char>, ghost s: string, dest: nat, ghost before: string, destlen: nat, text: string)
    returns (len: nat)
    requires dest == |before| && dest + destlen <= buf.Length == |s| && buf[..] == Splice(s, 0, before)
    modifies buf
    ensures len == |text|
    ensures len < destlen ==> buf[..] == Splice(s, 0, before + text + [NUL])
    ensures buf[|before| + destlen..] == s[|before| + destlen..]
  {
    LabelFits(s, before, text, destlen);
    hide Splice, Bounded;
    len := Snprintf(buf, dest, destlen, text);
  }

  lemma LabelFits(s: string, before: string, text: string, destlen: nat)
    requires |before| + destlen <= |s|
    ensures var r := Splice(Splice(s, 0, before), |before|, Bounded(text, destlen));
      && (|text| < destlen ==> r == Splice(s, 0, before + text + [NUL]))
      && r[|before| + destlen..] == s[|before| + destlen..]
  {
    var b := Bounded(text, destlen);
    assert before + [] == before;
    SpliceOver(s, before, [], b);
    SpliceTail(s, before + b, |before| + destlen);
    if |text| < destlen {
      assert text[..|text|] == text;
      assert before + b == before + text + [NUL];
    }
  }

  method PutSlash(buf: array<char>, ghost s: string, ghost before: string, dest: nat)
    requires dest == |before| < buf.Length == |s| && buf[..] == Splice(s, 0, before + [NUL])
    modifies buf
    ensures buf[..] == Splice(s, 0, before + "/")
  {
    SpliceOver(s, before, [NUL], "/");
    hide Splice;
    Store(buf, dest, "/");
  }

  lemma TooLong(addr: stack, n: nat, buflen: nat)
    requires forall j: nat :: j < n ==> !Bottom(addr(j))
    requires |Slashed(addr, n)| + |Dec(Label(addr(n)))| >= buflen
    ensures forall k: nat :: FirstBottom(addr, k) ==> |StackText(addr, k)| >= buflen
  {
    hide StackText, Slashed, Dec, Bottom;
    forall k: nat | FirstBottom(addr, k) ensures |StackText(addr, k)| >= buflen {
      StackTextLast(addr, k);
      assert !(k < n);
      if n < k { SlashedGrows(addr, n, k); }
    }
  }

  lemma Complete(addr: stack, n: nat)
    requires Bottom(addr(n)) && forall j: nat :: j < n ==> !Bottom(addr(j))
    ensures forall k: nat :: FirstBottom(addr, k) <==> k == n
    ensures StackText(addr, n) == Slashed(addr, n) + Dec(Label(addr(n)))
  {
    StackTextLast(addr, n);
    hide StackText, Slashed, Dec;
    forall k: nat ensures FirstBottom(addr, k) <==> k == n {
      if k > n { assert Bottom(addr(n)); }
    }
  }

  /** The 20 bits of the label and the bottom-of-stack bit, in the bytes of an entry. */
  lemma EntryBits(entry: octets)
    ensures Label(entry) == entry[0] as int * 0x1000 + entry[1] as int * 0x10 + entry[2] as int / 0x10
    ensures Bottom(entry) <==> entry[2] % 2 == 1
  {
  }

  /** Split at the slashes, the text of a stack is its labels in decimal, the top one first. */
  lemma StackReads(addr: stack, k: nat)
    ensures var parts := SplitOn(StackText(addr, k), '/');
            |parts| == k + 1 && forall i :: 0 <= i <= k ==> DecValue(parts[i]) == Label(addr(i))
  {
    LabelsFree(addr, k + 1);
    SplitJoin(Labels(addr, k + 1), '/');
    forall i | 0 <= i <= k ensures DecValue(Labels(addr, k + 1)[i]) == Label(addr(i)) {
      DecRoundTrip(Label(addr(i)));
    }
  }

  /** The text determines the labels. */
  lemma TextDeterminesLabels(addr: stack, k: nat, addr': stack, k': nat)
    requires StackText(addr, k) == StackText(addr', k')
    ensures k == k' && forall i: nat :: i <= k ==> Label(addr(i)) == Label(addr'(i))
  {
    LabelsFree(addr, k + 1);
    LabelsFree(addr', k' + 1);
    SplitJoin(Labels(addr, k + 1), '/');
    SplitJoin(Labels(addr', k' + 1), '/');
    assert Labels(addr, k + 1) == Labels(addr', k' + 1);
    forall i: nat | i <= k ensures Label(addr(i)) == Label(addr'(i)) {
      assert Labels(addr, k + 1)[i] == Labels(addr', k' + 1)[i];
      DecRoundTrip(Label(addr(i)));
      DecRoundTrip(Label(addr'(i)));
    }
  }

  lemma LabelsFree(addr: stack, n: nat)
    ensures AllFree(Labels(addr, n), '/')
  {
    forall i | 0 <= i < n ensures Free(Labels(addr, n)[i], '/') {
      assert Labels(addr, n)[i] == Dec(Label(addr(i)));
      DecFree(Label(addr(i)), '/');
    }
  }
}
