/** The DECnet address printer (dnet_ntop.c:8-86). */
module DnetPrinter {
  import opened Bytes
  import opened Text
  import opened DigitPrinter

  /** `dn_ntohs`: little-endian on the wire, whatever the host. */
  function DnNtohs(b: bytes): (v: nat)
    requires |b| == 2
    ensures v % 0x100 == b[0] && v / 0x100 == b[1]
  {
    Get16(b, 0)
  }

  function AreaText(addr: nat): string {
    Dec(addr / 0x400)
  }

  function NodeText(addr: nat): string {
    Dec(addr % 0x400)
  }

  /** The canonical text: decimal area and node, and the terminator. */
  function FullText(addr: nat): string {
    AreaText(addr) + "." + NodeText(addr) + [NUL]
  }

  /** The address that a text stands for. */
  function FromText(text: string): int {
    var parts := SplitOn(text, '.');
    if |parts| == 2 then DecValue(parts[0]) * 0x400 + DecValue(parts[1]) else -1
  }

  /** Neither number has a leading zero. */
  lemma NoLeadingZeros(addr: nat)
    ensures AreaText(addr)[0] == '0' ==> AreaText(addr) == "0"
    ensures NodeText(addr)[0] == '0' ==> NodeText(addr) == "0"
  {
    DecNoLeadingZero(addr / 0x400);
    DecNoLeadingZero(addr % 0x400);
  }

  lemma FullTextRoundTrip(addr: nat)
    ensures FromText(FullText(addr)[..|FullText(addr)| - 1]) == addr && FullText(addr)[|FullText(addr)| - 1] == '\0'
  {
    var a, n := AreaText(addr), NodeText(addr);
    assert FullText(addr)[..|FullText(addr)| - 1] == a + ['.'] + n;
    DecFree(addr / 0x400, '.');
    DecFree(addr % 0x400, '.');
    SplitHead(a, '.', n);
    SplitHead(n, '.', "");
    DecRoundTrip(addr / 0x400);
    DecRoundTrip(addr % 0x400);
  }

  /** What one `do_digit` prints. */
  function DigitAt(v: nat, scale: nat, started: bool): string
    requires scale > 0 && v / scale < 10
  {
    if v / scale > 0 || started || scale == 1 then [Digit(v / scale)] else ""
  }

  /** `do_digit`: `rest` is what the text goes on with. */
  method DoDigit(str: array<char>, ghost s: string, ghost full: string, ghost rest: string,
                 v: nat, scale: nat, pos: nat, len: nat, started: bool)
    returns (stop: bool, v': nat, pos': nat, started': bool)
    requires pos <= len <= str.Length == |s| && scale > 0 && v / scale < 10
    requires Written(str, s, full, pos) && full[pos..] == DigitAt(v, scale, started) + rest
    modifies str
    ensures stop ==> str[..] == Splice(s, 0, Cut(full, len))
    ensures !stop ==>
      && pos' <= len && Written(str, s, full, pos') && full[pos'..] == rest
      && v' == v % scale && started' == (started || v / scale > 0 || scale == 1)
  {
    var tmp := v / scale;
    stop, v', pos', started' := pos == len, v, pos, started;
    PrefixStep(full, pos, DigitAt(v, scale, started), rest);
    if stop {
      CutHere(str, s, full, len, pos);
      return;
    }
    if tmp > 0 || started || scale == 1 {
      assert full[pos] == full[pos..][0] == Digit(tmp);
      Emit(str, s, full, pos, Digit(tmp));
      started', pos', v' := true, pos + 1, v - tmp * scale;
    }
    Remainder(v, scale);
  }

  /** Two calls of `do_digit` in a row. */
  function TwoDigits(v: nat, scale: nat, scale': nat, started: bool): string
    requires scale > 0 && scale' > 0 && v / scale < 10 && v % scale / scale' < 10
  {
    DigitAt(v, scale, started) + DigitAt(v % scale, scale', started || v / scale > 0)
  }

  method DoTwoDigits(str: array<char>, ghost s: string, ghost full: string, ghost rest: string,
                     v: nat, scale: nat, scale': nat, pos: nat, len: nat, started: bool)
    returns (stop: bool, v': nat, pos': nat, started': bool)
    requires pos <= len <= str.Length == |s| && scale > 1 && scale' > 0 && v / scale < 10 && v % scale / scale' < 10
    requires Written(str, s, full, pos) && full[pos..] == TwoDigits(v, scale, scale', started) + rest
    modifies str
    ensures stop ==> str[..] == Splice(s, 0, Cut(full, len))
    ensures !stop ==>
      && pos' <= len && Written(str, s, full, pos') && full[pos'..] == rest && v' == v % scale % scale'
      && started' == (started || v / scale > 0 || v % scale / scale' > 0 || scale' == 1)
  {
    ghost var d := DigitAt(v % scale, scale', started || v / scale > 0);
    assert full[pos..] == DigitAt(v, scale, started) + (d + rest);
    hide DigitAt, Splice, Written;
    stop, v', pos', started' := DoDigit(str, s, full, d + rest, v, scale, pos, len, started);
    if !stop {
      stop, v', pos', started' := DoDigit(str, s, full, rest, v', scale', pos', len, started');
    }
  }

  lemma Remainder(v: nat, scale: nat)
    requires scale > 0
    ensures v - v / scale * scale == v % scale
    ensures v / scale == 0 ==> v % scale == v
  {
  }

  lemma Digits2(v: nat)
    requires v < 100
    ensures Dec(v) == TwoDigits(v, 10, 1, false)
  {
  }

  lemma Digits4(v: nat)
    requires v < 10000
    ensures Dec(v) == TwoDigits(v, 1000, 100, false) +
              TwoDigits(v % 1000 % 100, 10, 1, v / 1000 > 0 || v % 1000 / 100 > 0)
  {
    var hi, lo := v / 100, v % 100;
    SplitNumber(v);
    HighDigits(v, hi);
    LowDigits(lo, hi > 0);
    if hi > 0 {
      DecSplit(v);
    }
    assert v / 1000 > 0 || v % 1000 / 100 > 0 <==> hi > 0;
    hide TwoDigits, Dec, Digit;
  }

  lemma LowDigits(lo: nat, started: bool)
    requires lo < 100
    ensures TwoDigits(lo, 10, 1, started) == if started then [Digit(lo / 10), Digit(lo % 10)] else Dec(lo)
  {
    Digits2(lo);
  }

  lemma SplitNumber(v: nat)
    ensures v % 1000 % 100 == v % 100
    ensures v / 1000 == v / 100 / 10 && v % 1000 / 100 == v / 100 % 10
    ensures v / 10 % 10 == v % 100 / 10 && v % 10 == v % 100 % 10
  {
  }

  lemma HighDigits(v: nat, hi: nat)
    requires hi < 100 && v / 1000 == hi / 10 && v % 1000 / 100 == hi % 10
    ensures TwoDigits(v, 1000, 100, false) == if hi > 0 then Dec(hi) else ""
  {
    Digits2(hi);
  }

  lemma DecSplit(v: nat)
    requires v >= 100
    ensures Dec(v) == Dec(v / 100) + [Digit(v / 10 % 10), Digit(v % 10)]
  {
    assert v / 10 / 10 == v / 100;
    assert Dec(v) == Dec(v / 10) + [Digit(v % 10)];
    assert Dec(v / 10) == Dec(v / 100) + [Digit(v / 10 % 10)];
  }

  /** `dnet_ntop1`: the full text, cut at the end of the buffer. */
  method DnetNtop1(aLen: nat, aAddr: bytes, str: array<char>, len: nat) returns (ok: bool)
    requires |aAddr| == 2 && len <= str.Length
    modifies str
    ensures ok <==> aLen == 2
    ensures str[..] == if ok then Splice(old(str[..]), 0, Cut(FullText(DnNtohs(aAddr)), len)) else old(str[..])
  {
    var word := DnNtohs(aAddr);
    var area := word / 0x400;
    if aLen != 2 {
      return false;
    }
    var addr := word % 0x400;
    ok := true;
    hide *;
    PrintAddress(str, word, area, addr, len);
  }

  /** The area digits, the dot, and the rest. */
  method PrintAddress(str: array<char>, ghost word: nat, area0: nat, addr: nat, len: nat)
    requires word < 0x1_0000 && area0 == word / 0x400 && addr == word % 0x400 && len <= str.Length
    modifies str
    ensures str[..] == Splice(old(str[..]), 0, Cut(FullText(word), len))
  {
    ghost var s, full, node := str[..], FullText(word), Dec(addr);
    var area := area0;
    FullTextParts(word);
    hide *;
    StartWritten(str, s, full);
    if len == 0 {
      CutHere(str, s, full, len, 0);
      return;
    }
    var stop, started, pos := false, false, 0;
    stop, area, pos, started := DoTwoDigits(str, s, full, "." + node + [NUL], area, 10, 1, pos, len, started);
    if stop {
      return;
    }
    PrefixStep(full, pos, ".", node + [NUL]);
    if pos == len {
      CutHere(str, s, full, len, pos);
      return;
    }
    Emit(str, s, full, pos, '.');
    PrintNode(str, s, full, addr, pos + 1, len);
  }

  /** The node digits and the terminator. */
  method PrintNode(str: array<char>, ghost s: string, ghost full: string, addr0: nat, pos0: nat, len: nat)
    requires addr0 < 10000 && pos0 <= len <= str.Length == |s|
    requires Written(str, s, full, pos0) && full[pos0..] == Dec(addr0) + [NUL]
    modifies str
    ensures str[..] == Splice(s, 0, Cut(full, len))
  {
    var addr, pos, stop, started := addr0, pos0, false, false;
    ghost var low := TwoDigits(addr % 1000 % 100, 10, 1, addr / 1000 > 0 || addr % 1000 / 100 > 0);
    Digits4(addr);
    assert full[pos..] == TwoDigits(addr, 1000, 100, false) + (low + [NUL]);
    hide *;
    stop, addr, pos, started := DoTwoDigits(str, s, full, low + [NUL], addr, 1000, 100, pos, len, started);
    if stop {
      return;
    }
    stop, addr, pos, started := DoTwoDigits(str, s, full, [NUL], addr, 10, 1, pos, len, started);
    if stop {
      return;
    }
    PrefixStep(full, pos, [NUL], "");
    if pos == len {
      CutHere(str, s, full, len, pos);
      return;
    }
    Emit(str, s, full, pos, NUL);
    CutHere(str, s, full, len, pos + 1);
  }

  lemma FullTextParts(word: nat)
    requires word < TWO_TO_THE_16
    ensures var area, node := word / 0x400, Dec(word % 0x400);
      && area / 10 < 10 && area % 10 / 1 < 10
      && FullText(word)[0..] == TwoDigits(area, 10, 1, false) + ("." + node + [NUL])
  {
    Digits2(word / 0x400);
  }
}
