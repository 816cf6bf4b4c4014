/** Text as the printers write it and the parsers read it. */
module Text {
  import opened Bytes

  const NUL := '\0'

  // ---- Numbers --------------------------------------------------------------

  function Digit(d: nat): (c: char)
    requires d < 10
    ensures '0' <= c <= '9'
  {
    '0' + d as char
  }

  /** "%u": decimal, without leading zeros. */
  function Dec(n: nat): (s: string)
    ensures s != [] && forall c :: c in s ==> '0' <= c <= '9'
  {
    if n < 10 then [Digit(n)] else Dec(n / 10) + [Digit(n % 10)]
  }

  function DecValue(s: string): int {
    if s == [] then 0 else 10 * DecValue(s[..|s| - 1]) + (s[|s| - 1] as int - '0' as int)
  }

  lemma {:induction false} DecRoundTrip(n: nat)
    ensures DecValue(Dec(n)) == n
  {
    if n < 10 {
      assert DecValue([Digit(n)][..0]) == 0;
    } else {
      DecRoundTrip(n / 10);
      assert Dec(n)[..|Dec(n)| - 1] == Dec(n / 10);
    }
  }

  lemma {:induction false} DecNoLeadingZero(n: nat)
    ensures Dec(n)[0] == '0' ==> n == 0
    ensures n < 10 <==> |Dec(n)| == 1
  {
    if n >= 10 {
      DecNoLeadingZero(n / 10);
    }
  }

  function HexDigit(d: nat): char
    requires d < 16
  {
    if d < 10 then '0' + d as char else 'a' + (d - 10) as char
  }

  function HexValue(c: char): int {
    if '0' <= c <= '9' then c as int - '0' as int else c as int - 'a' as int + 10
  }

  /** "%02x". */
  function Hex2(b: byte): (s: string)
    ensures |s| == 2 && HexValue(s[0]) * 16 + HexValue(s[1]) == b
  {
    [HexDigit(b / 16), HexDigit(b % 16)]
  }

  // ---- Joining and splitting ------------------------------------------------

  /** The first index at or after `from` of `c`, or the length of `s`. */
  function IndexOf(s: string, c: char, from: nat): (i: nat)
    requires from <= |s|
    ensures from <= i <= |s|
    ensures forall k :: from <= k < i ==> s[k] != c
    ensures i < |s| ==> s[i] == c
    decreases |s| - from
  {
    if from == |s| || s[from] == c then from else IndexOf(s, c, from + 1)
  }

  function Join(parts: seq<string>, sep: char): string {
    if parts == [] then ""
    else if |parts| == 1 then parts[0]
    else parts[0] + [sep] + Join(parts[1..], sep)
  }

  /** Splits at every separator, keeping empty parts. */
  function SplitOn(s: string, sep: char): (parts: seq<string>)
    ensures parts != []
    decreases |s|
  {
    var i := IndexOf(s, sep, 0);
    if i == |s| then [s] else [s[..i]] + SplitOn(s[i + 1..], sep)
  }

  predicate Free(s: string, c: char) {
    forall i :: 0 <= i < |s| ==> s[i] != c
  }

  predicate AllFree(parts: seq<string>, c: char) {
    forall i :: 0 <= i < |parts| ==> Free(parts[i], c)
  }

  /** Numbers contain no separator. */
  lemma DecFree(n: nat, c: char)
    requires !('0' <= c <= '9')
    ensures Free(Dec(n), c)
  {
    var s := Dec(n);
    forall i | 0 <= i < |s| ensures s[i] != c {
      assert s[i] in s;
    }
  }

  lemma SplitHead(p: string, sep: char, rest: string)
    requires Free(p, sep)
    ensures SplitOn(p, sep) == [p]
    ensures SplitOn(p + [sep] + rest, sep) == [p] + SplitOn(rest, sep)
  {
    assert IndexOf(p, sep, 0) == |p|;
    var s := p + [sep] + rest;
    assert s[|p|] == sep && forall k :: 0 <= k < |p| ==> s[k] == p[k];
    assert IndexOf(s, sep, 0) == |p|;
    assert s[..|p|] == p && s[|p| + 1..] == rest;
  }

  lemma {:induction false} SplitJoin(parts: seq<string>, sep: char)
    requires parts != [] && AllFree(parts, sep)
    ensures SplitOn(Join(parts, sep), sep) == parts
  {
    if |parts| == 1 {
      SplitHead(parts[0], sep, "");
    } else {
      SplitJoin(parts[1..], sep);
      SplitHead(parts[0], sep, Join(parts[1..], sep));
    }
  }

  lemma JoinCons(p: string, rest: seq<string>, sep: char)
    ensures Join([p] + rest, sep) == p + (if rest != [] then [sep] else "") + Join(rest, sep)
  {
    assert ([p] + rest)[1..] == rest;
  }

  lemma {:induction false} JoinSnoc(parts: seq<string>, p: string, sep: char)
    requires parts != []
    ensures Join(parts + [p], sep) == Join(parts, sep) + [sep] + p
  {
    if |parts| == 1 {
      assert (parts + [p])[1..] == [p];
    } else {
      assert (parts + [p])[1..] == parts[1..] + [p];
      JoinSnoc(parts[1..], p, sep);
    }
  }

  lemma SplitStep(s: string, sep: char, i: nat)
    requires i == IndexOf(s, sep, 0)
    ensures SplitOn(s, sep) == if i == |s| then [s] else [s[..i]] + SplitOn(s[i + 1..], sep)
  {
    hide IndexOf;
  }

  /** Joining undoes splitting, whatever the text. */
  lemma {:induction false} JoinSplit(s: string, c: char)
    ensures Join(SplitOn(s, c), c) == s
    decreases |s|
  {
    var i := IndexOf(s, c, 0);
    SplitStep(s, c, i);
    if i < |s| {
      hide SplitOn;
      JoinSplit(s[i + 1..], c);
      JoinCons(s[..i], SplitOn(s[i + 1..], c), c);
      hide Join;
      assert s == s[..i] + [c] + s[i + 1..];
    } else {
      hide IndexOf;
    }
  }

  // ---- Bounded buffers ------------------------------------------------------

  function Min(a: nat, b: nat): nat {
    if a < b then a else b
  }

  /** What `snprintf` puts into a buffer of `size` characters. */
  function Bounded(t: string, size: nat): (r: string)
    ensures |r| <= size
  {
    if size == 0 then [] else t[..Min(|t|, size - 1)] + [NUL]
  }

  /** The C string at the start of a buffer. */
  function CStr(s: string): string {
    s[..IndexOf(s, NUL, 0)]
  }

  lemma CStrBounded(t: string, size: nat)
    requires Free(t, NUL) && size > 0
    ensures CStr(Bounded(t, size)) == t[..Min(|t|, size - 1)]
  {
    var b, n := Bounded(t, size), Min(|t|, size - 1);
    assert b[n] == NUL && forall k :: 0 <= k < n ==> b[k] == t[k];
    assert IndexOf(b, NUL, 0) == n;
  }

  lemma CStrPrefix(s: string, b: string)
    requires |b| <= |s| && NUL in b
    ensures CStr(Splice(s, 0, b)) == CStr(b)
  {
    var r := Splice(s, 0, b);
    assert forall k :: 0 <= k < |b| ==> r[k] == b[k];
    var i :| 0 <= i < |b| && b[i] == NUL;
    assert r[i] == NUL;
    assert IndexOf(r, NUL, 0) == IndexOf(b, NUL, 0);
  }

  method Snprintf(buf: array<char>, at: nat, size: nat, t: string) returns (len: nat)
    requires at + size <= buf.Length
    modifies buf
    ensures buf[..] == Splice(old(buf[..]), at, Bounded(t, size))
    ensures len == |t|
  {
    Store(buf, at, Bounded(t, size));
    len := |t|;
  }

  /** Printing `u` over the terminator of `t` prints `t + u`. */
  lemma BoundedAppend(s: string, t: string, u: string, size: nat)
    requires |t| < size <= |s|
    ensures Splice(Splice(s, 0, Bounded(t, size)), |t|, Bounded(u, size - |t|)) == Splice(s, 0, Bounded(t + u, size))
  {
    var n := Min(|u|, size - |t| - 1);
    var c := u[..n] + [NUL];
    BoundedParts(t, u, size);
    hide Bounded, Min;
    SpliceOver(s, t, [NUL], c);
  }

  lemma BoundedParts(t: string, u: string, size: nat)
    requires |t| < size
    ensures var c := u[..Min(|u|, size - |t| - 1)] + [NUL];
      && Bounded(t, size) == t + [NUL] && Bounded(u, size - |t|) == c && Bounded(t + u, size) == t + c
  {
    var n := Min(|u|, size - |t| - 1);
    assert (t + u)[..|t| + n] == t + u[..n];
  }

  lemma SpliceOver<T>(s: seq<T>, t: seq<T>, x: seq<T>, c: seq<T>)
    requires |t| + |x| <= |s| && |x| <= |c| && |t| + |c| <= |s|
    ensures Splice(Splice(s, 0, t + x), |t|, c) == Splice(s, 0, t + c)
  {
    var s1 := Splice(s, 0, t + x);
    assert s1[..|t|] == t;
    assert s1[|t| + |c|..] == s[|t| + |c|..];
  }
}
