/** The IPX address printer (ipx_ntop.c:9-57). */
module IpxPrinter {
  import opened Bytes
  import opened BitOps
  import opened Text
  import opened DigitPrinter

  const IPX_NODE_LEN := 6

  function UpperDigit(d: nat): (c: char)
    requires d < 16
  {
    if d < 10 then '0' + d as char else 'A' + (d - 10) as char
  }

  function UpperValue(c: char): int {
    if '0' <= c <= '9' then c as int - '0' as int else c as int - 'A' as int + 10
  }

  function Pow16(k: nat): (p: nat)
    ensures p > 0
  {
    if k == 0 then 1 else 16 * Pow16(k - 1)
  }

  /** The low `n` hex digits of a number, most significant first. */
  function Hex(v: nat, n: nat): (s: string)
    ensures |s| == n
  {
    if n == 0 then "" else Hex(v / 16, n - 1) + [UpperDigit(v % 16)]
  }

  function NodeHex(node: bytes): (s: string)
    ensures |s| == 2 * |node|
  {
    if node == [] then "" else Hex(node[0], 2) + NodeHex(node[1..])
  }

  /** The canonical text: 8 hex digits, a dot, 12 hex digits, and the terminator. */
  function FullText(net: nat, node: bytes): (s: string)
    requires |node| == IPX_NODE_LEN
    ensures |s| == 22
  {
    Hex(net, 8) + "." + NodeHex(node) + [NUL]
  }

  function HexNumber(s: string): int {
    if s == [] then 0 else 16 * HexNumber(s[..|s| - 1]) + UpperValue(s[|s| - 1])
  }

  lemma {:induction false} HexRoundTrip(v: nat, n: nat)
    ensures HexNumber(Hex(v, n)) == v % Pow16(n)
  {
    if n > 0 {
      HexRoundTrip(v / 16, n - 1);
      assert Hex(v, n)[..n - 1] == Hex(v / 16, n - 1);
      var p := Pow16(n - 1);
      assert Pow16(n) == 16 * p;
      hide Pow16;
      ModBy16(v, p);
    }
  }

  lemma ModBy16(v: nat, p: nat)
    requires p > 0
    ensures v % (16 * p) == 16 * (v / 16 % p) + v % 16
  {
    var q, r := v / 16 / p, v / 16 % p;
    assert v == 16 * (p * q + r) + v % 16 == (16 * p) * q + (16 * r + v % 16);
    ModUnique(v, 16 * p, q, 16 * r + v % 16);
  }

  /** The `i`-th digit from the left, as `do_digit` computes it: `scale` counts
      from the right. */
  lemma {:induction false} HexDigitAt(v: nat, n: nat, scale: nat)
    requires scale < n
    ensures Hex(v, n)[n - 1 - scale] == UpperDigit(v / Pow16(scale) % 16)
  {
    if scale > 0 {
      HexDigitAt(v / 16, n - 1, scale - 1);
      DivBy16(v, Pow16(scale - 1));
    }
  }

  lemma DivBy16(v: nat, p: nat)
    requires p > 0
    ensures v / (16 * p) == v / 16 / p
  {
    var q, r := v / 16 / p, v / 16 % p;
    assert v == 16 * (p * q + r) + v % 16 == (16 * p) * q + (16 * r + v % 16);
    ModUnique(v, 16 * p, q, 16 * r + v % 16);
  }

  lemma {:induction false} NodeHexAt(node: bytes, i: nat)
    requires i < |node|
    ensures NodeHex(node)[2 * i] == UpperDigit(node[i] / 16)
    ensures NodeHex(node)[2 * i + 1] == UpperDigit(node[i] % 16)
  {
    var head, tail := Hex(node[0], 2), NodeHex(node[1..]);
    if i == 0 {
      assert head[0] == Hex(node[0] / 16, 1)[0];
    } else {
      NodeHexAt(node[1..], i - 1);
      assert (head + tail)[2 * i] == tail[2 * (i - 1)];
      assert (head + tail)[2 * i + 1] == tail[2 * (i - 1) + 1];
    }
  }

  /** `do_digit`. */
  method DoDigit(str: array<char>, ghost s: string, ghost full: string, addr: nat, scale: nat, pos: nat, len: nat)
    returns (stop: bool, pos': nat)
    requires pos <= len <= str.Length == |s| && pos < |full| && Written(str, s, full, pos)
    requires full[pos] == UpperDigit(addr / Pow16(scale) % 16)
    modifies str
    ensures stop <==> pos == len
    ensures stop ==> str[..] == Splice(s, 0, Cut(full, len))
    ensures !stop ==> pos' == pos + 1 && pos' <= len && Written(str, s, full, pos')
  {
    var tmp := addr / Pow16(scale);
    stop, pos' := pos == len, pos;
    if stop {
      CutHere(str, s, full, len, pos);
      return;
    }
    hide Pow16, Splice;
    tmp := tmp % 16;
    Emit(str, s, full, pos, if tmp > 9 then 'A' + (tmp - 10) as char else '0' + tmp as char);
    pos' := pos + 1;
  }

  /** `ipx_ntop1`. */
  method IpxNtop1(ipxNet: octets, node: bytes, str: array<char>, len: nat)
    requires |node| == IPX_NODE_LEN && len <= str.Length
    modifies str
    ensures str[..] == Splice(old(str[..]), 0, Cut(FullText(NetLong(ipxNet), node), len))
  {
    var net := NetLong(ipxNet);
    ghost var s, full := str[..], FullText(net, node);
    StartWritten(str, s, full);
    var pos := 0;
    if len == 0 {
      CutHere(str, s, full, len, pos);
      return;
    }
    FullTextAt(net, node);
    hide FullText, Hex, Splice, Pow16, Written, UpperDigit;
    var stop;
    for i := 8 downto 0
      invariant pos == 8 - i && pos <= len && Written(str, s, full, pos)
    {
      stop, pos := DoDigit(str, s, full, net, i, pos, len);
      if stop {
        return;
      }
    }
    if pos == len {
      CutHere(str, s, full, len, pos);
      return;
    }
    Emit(str, s, full, pos, '.');
    PrintNode(str, s, full, node, pos + 1, len);
  }

  /** The node digits and the terminator. */
  method PrintNode(str: array<char>, ghost s: string, ghost full: string, node: bytes, pos0: nat, len: nat)
    requires |node| == IPX_NODE_LEN && pos0 == 9 <= len <= str.Length == |s|
    requires |full| == 22 && full[21] == NUL && Written(str, s, full, pos0)
    requires forall i {:trigger node[i]} :: 0 <= i < IPX_NODE_LEN ==>
               full[9 + 2 * i] == UpperDigit(node[i] / 16) && full[10 + 2 * i] == UpperDigit(node[i] % 16)
    modifies str
    ensures str[..] == Splice(s, 0, Cut(full, len))
  {
    hide Splice, Pow16, Written, UpperDigit;
    var pos, stop := pos0, false;
    for i := 0 to IPX_NODE_LEN
      invariant pos == 9 + 2 * i && pos <= len && Written(str, s, full, pos)
    {
      Nibbles(node[i]);
      stop, pos := DoDigit(str, s, full, node[i], 1, pos, len);
      if stop {
        return;
      }
      stop, pos := DoDigit(str, s, full, node[i], 0, pos, len);
      if stop {
        return;
      }
    }
    if pos != len {
      Emit(str, s, full, pos, NUL);
      pos := pos + 1;
    }
    CutHere(str, s, full, len, pos);
  }

  lemma Nibbles(b: byte)
    ensures b as int / Pow16(1) % 16 == b / 16 && b as int / Pow16(0) % 16 == b % 16
  {
    assert Pow16(0) == 1 && Pow16(1) == 16;
  }

  /** Every character of the full text. */
  lemma FullTextAt(net: nat, node: bytes)
    requires |node| == IPX_NODE_LEN
    ensures var full := FullText(net, node);
      && |full| == 22 && full[8] == '.' && full[21] == NUL
      && (forall i {:trigger Pow16(i)} :: 0 <= i < 8 ==> full[7 - i] == UpperDigit(net / Pow16(i) % 16))
      && (forall i {:trigger node[i]} :: 0 <= i < IPX_NODE_LEN ==>
            full[9 + 2 * i] == UpperDigit(node[i] / 16) && full[10 + 2 * i] == UpperDigit(node[i] % 16))
  {
    var full := FullText(net, node);
    forall i | 0 <= i < 8 ensures full[7 - i] == UpperDigit(net / Pow16(i) % 16) {
      HexDigitAt(net, 8, i);
    }
    forall i | 0 <= i < IPX_NODE_LEN
      ensures full[9 + 2 * i] == UpperDigit(node[i] / 16) && full[10 + 2 * i] == UpperDigit(node[i] % 16)
    {
      NodeHexAt(node, i);
    }
  }

  /** The address that a full text stands for. */
  function FromText(s: string): (int, seq<int>)
    requires |s| == 22
  {
    (HexNumber(s[..8]), seq(IPX_NODE_LEN, i requires 0 <= i < IPX_NODE_LEN => HexNumber(s[9 + 2 * i..11 + 2 * i])))
  }

  lemma FullTextRoundTrip(net: nat, node: bytes)
    requires net < TWO_TO_THE_32 && |node| == IPX_NODE_LEN
    ensures FromText(FullText(net, node)) == (net, node)
  {
    var full := FullText(net, node);
    NetPart(net, node);
    FullTextAt(net, node);
    hide FullText, HexNumber, Hex, UpperDigit;
    var back := FromText(full);
    forall i | 0 <= i < IPX_NODE_LEN ensures back.1[i] == node[i] {
      assert full[9 + 2 * i] == UpperDigit(node[i] / 16);
      TwoHex(full[9 + 2 * i..11 + 2 * i], node[i]);
    }
    assert back.0 == net && back.1 == node;
  }

  /** Upper-case hex digits, the dot after the eighth, and the terminator. */
  lemma FullTextChars(net: nat, node: bytes)
    requires |node| == IPX_NODE_LEN
    ensures FullText(net, node)[8] == '.' && FullText(net, node)[21] == '\0'
    ensures forall k :: 0 <= k < 21 && k != 8 ==> FullText(net, node)[k] in "0123456789ABCDEF"
  {
    forall k | 0 <= k < 21 && k != 8 ensures FullText(net, node)[k] in "0123456789ABCDEF" { HexThere(net, node, k); }
    hide Hex, NodeHex;
  }

  lemma HexThere(net: nat, node: bytes, k: nat)
    requires |node| == IPX_NODE_LEN && k < 21 && k != 8
    ensures FullText(net, node)[k] in "0123456789ABCDEF"
  {
    FullTextAt(net, node);
    hide FullText, UpperDigit, Pow16;
    if k < 8 {
      var i := 7 - k;
      assert FullText(net, node)[7 - i] == UpperDigit(net / Pow16(i) % 16);
      UpperIsHex(net / Pow16(i) % 16);
    } else {
      var i := (k - 9) / 2;
      UpperIsHex(node[i] / 16);
      UpperIsHex(node[i] % 16);
    }
  }

  lemma UpperIsHex(d: nat)
    requires d < 16
    ensures UpperDigit(d) in "0123456789ABCDEF"
  {
    assert "0123456789ABCDEF"[d] == UpperDigit(d);
  }

  lemma Pow16Of8()
    ensures Pow16(8) == TWO_TO_THE_32
  {
    assert Pow16(4) == 0x1_0000;
  }

  /** The text determines the address, with its number in network order. */
  lemma FullTextDetermines(net: octets, node: bytes, net': octets, node': bytes)
    requires |node| == |node'| == IPX_NODE_LEN && FullText(NetLong(net), node) == FullText(NetLong(net'), node')
    ensures net == net' && node == node'
  {
    FullTextRoundTrip(NetLong(net), node);
    FullTextRoundTrip(NetLong(net'), node');
    OctetsOfNetLong(net);
    OctetsOfNetLong(net');
    hide *;
  }

  lemma NetPart(net: nat, node: bytes)
    requires net < TWO_TO_THE_32 && |node| == IPX_NODE_LEN
    ensures HexNumber(FullText(net, node)[..8]) == net
  {
    assert FullText(net, node)[..8] == Hex(net, 8);
    Pow16Of8();
    hide FullText, Hex, HexNumber, Pow16;
    HexRoundTrip(net, 8);
  }

  lemma TwoHex(s: string, b: byte)
    requires |s| == 2 && s[0] == UpperDigit(b / 16) && s[1] == UpperDigit(b % 16)
    ensures HexNumber(s) == b
  {
    UpperRoundTrip(b / 16);
    UpperRoundTrip(b % 16);
    hide UpperDigit, UpperValue;
    assert s[..1][..0] == "";
    assert HexNumber(s[..1]) == UpperValue(s[0]);
  }

  lemma UpperRoundTrip(d: nat)
    requires d < 16
    ensures UpperValue(UpperDigit(d)) == d
  {
  }
}
