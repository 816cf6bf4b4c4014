/**
 Reading the neighbour table from the pipe: `parseAndExtractValidArpFromInputStream`
 (LanDeviceScanner.kt:164-210).
 */
module ArpTable {
  import opened Common

  /** `\s` in a regular expression. */
  predicate IsSpace(c: char) {
    c == ' ' || c == '\t' || c == '\n' || c == 11 as char || c == 12 as char || c == '\r'
  }

  /** The end of the token, or of the run of spaces, that starts at `i`. */
  function RunEnd(s: string, i: nat, space: bool): (e: nat)
    requires i <= |s|
    ensures i <= e <= |s|
    ensures forall k :: i <= k < e ==> IsSpace(s[k]) == space
    ensures e < |s| ==> IsSpace(s[e]) != space
    decreases |s| - i
  {
    if i < |s| && IsSpace(s[i]) == space then RunEnd(s, i + 1, space) else i
  }

  /** `split(Regex("\\s+"))`: a leading or trailing run leaves an empty token. */
  function SplitSpaces(s: string): (tokens: seq<string>)
    ensures tokens != []
    decreases |s|
  {
    var i := RunEnd(s, 0, false);
    if i == |s| then [s] else [s[..i]] + SplitSpaces(s[RunEnd(s, i, true)..])
  }

  /** `readLines`: a line ends at a newline, a carriage return, or both in that
      order; an empty rest is no line. */
  function ReadLines(s: string): seq<string>
    decreases |s|
  {
    if s == "" then []
    else
      var i := LineEnd(s, 0);
      if i == |s| then [s]
      else
        var next := if s[i] == '\r' && i + 1 < |s| && s[i + 1] == '\n' then i + 2 else i + 1;
        [s[..i]] + ReadLines(s[next..])
  }

  function LineEnd(s: string, i: nat): (e: nat)
    requires i <= |s|
    ensures i <= e <= |s|
    ensures forall k :: i <= k < e ==> s[k] != '\n' && s[k] != '\r'
    ensures e < |s| ==> s[e] == '\n' || s[e] == '\r'
    decreases |s| - i
  {
    if i < |s| && s[i] != '\n' && s[i] != '\r' then LineEnd(s, i + 1) else i
  }

  datatype Host = Host(ip: string, mac: string)

  /** `InetAddress`: which texts name an address, and two of its tests. */
  datatype Inet = Inet(known: string -> bool, linkLocal: string -> bool, loopback: string -> bool)

  const NEIGHBOR_INCOMPLETE := "INCOMPLETE"
  const NEIGHBOR_FAILED := "FAILED"

  predicate Usable(inet: Inet, ip: string) {
    inet.known(ip) && !inet.linkLocal(ip) && !inet.loopback(ip)
  }

  /** The host that a line stands for, if it is kept. */
  function HostOf(inet: Inet, line: string): Option<Host> {
    HostFromTokens(inet, SplitSpaces(line))
  }

  function HostFromTokens(inet: Inet, tokens: seq<string>): Option<Host> {
    if |tokens| > 5 then
      var ip, mac, state := tokens[0], tokens[4], tokens[|tokens| - 1];
      if Usable(inet, ip) && state != NEIGHBOR_FAILED && state != NEIGHBOR_INCOMPLETE then Some(Host(ip, mac)) else None
    else None
  }

  /** Which lines yield a host, and which one: the first word is an address that is neither
      link-local nor loopback, and the last is neither FAILED nor INCOMPLETE. */
  lemma KeptIff(inet: Inet, line: string)
    ensures var t := SplitSpaces(line);
      && (HostOf(inet, line).Some? <==>
            |t| > 5 && inet.known(t[0]) && !inet.linkLocal(t[0]) && !inet.loopback(t[0])
            && t[|t| - 1] != "FAILED" && t[|t| - 1] != "INCOMPLETE")
      && (HostOf(inet, line).Some? ==> HostOf(inet, line).value == Host(t[0], t[4]))
  {
    hide SplitSpaces;
  }

  function HostsOf(inet: Inet, lines: seq<string>): seq<Host> {
    if lines == [] then []
    else (var h := HostOf(inet, lines[0]); if h.Some? then [h.value] else []) + HostsOf(inet, lines[1..])
  }

  lemma {:induction false} HostsOfAppend(inet: Inet, a: seq<string>, b: seq<string>)
    ensures HostsOf(inet, a + b) == HostsOf(inet, a) + HostsOf(inet, b)
  {
    hide HostOf;
    if a == [] {
      assert a + b == b;
    } else {
      assert (a + b)[1..] == a[1..] + b;
      HostsOfAppend(inet, a[1..], b);
    }
  }

  /** The line loop, with its list of hosts; a native failure yields no host. */
  method ParseArp(inet: Inet, returnCode: int, text: string) returns (hosts: seq<Host>)
    ensures hosts == if returnCode != 0 then [] else HostsOf(inet, ReadLines(text))
  {
    hosts := [];
    if returnCode != 0 {
      return;
    }
    var lines := ReadLines(text);
    hide ReadLines, SplitSpaces;
    for i := 0 to |lines|
      invariant hosts == HostsOf(inet, lines[..i])
    {
      var line := lines[i];
      assert lines[..i + 1] == lines[..i] + [line];
      HostsOfAppend(inet, lines[..i], [line]);
      var neighborLine := SplitSpaces(line);
      if |neighborLine| > 5 {
        var ip, macAddress, state := neighborLine[0], neighborLine[4], neighborLine[|neighborLine| - 1];
        if inet.known(ip) {
          if !inet.linkLocal(ip) && !inet.loopback(ip) {
            if state != NEIGHBOR_FAILED && state != NEIGHBOR_INCOMPLETE {
              hosts := hosts + [Host(ip, macAddress)];
            }
          }
        }
      }
    }
    assert lines[..|lines|] == lines;
  }

  // ---- Splitting what was joined by spaces ----------------------------------

  predicate Token(s: string) {
    s != "" && forall i :: 0 <= i < |s| ==> !IsSpace(s[i])
  }

  lemma SplitToken(t: string)
    requires Token(t)
    ensures SplitSpaces(t) == [t]
  {
  }

  /** Space, tab, newline, carriage return, vertical tab and form feed. */
  const WHITE := " \t\n\r\U{0B}\U{0C}"

  /** One token, a run of white space, and a rest that does not start with any. */
  lemma SplitCons(t: string, gap: string, rest: string)
    requires forall i :: 0 <= i < |t| ==> t[i] !in WHITE
    requires gap != "" && forall i :: 0 <= i < |gap| ==> gap[i] in WHITE
    requires rest == "" || rest[0] !in WHITE
    ensures SplitSpaces(t + gap + rest) == [t] + SplitSpaces(rest)
  {
    forall c: char ensures IsSpace(c) <==> c in WHITE { SpaceIsWhite(c); }
    SplitRun(t, gap, rest);
  }

  lemma SpaceIsWhite(c: char)
    ensures IsSpace(c) <==> c in WHITE
  {
    assert forall i :: 0 <= i < 6 ==> WHITE[i] in WHITE;
    assert WHITE[0] == ' ' && WHITE[1] == '\t' && WHITE[2] == '\n' && WHITE[3] == '\r';
    assert WHITE[4] == 11 as char && WHITE[5] == 12 as char;
  }

  lemma SplitRun(t: string, gap: string, rest: string)
    requires t == "" || Token(t)
    requires gap != "" && forall i :: 0 <= i < |gap| ==> IsSpace(gap[i])
    requires rest == "" || !IsSpace(rest[0])
    ensures SplitSpaces(t + gap + rest) == [t] + SplitSpaces(rest)
  {
    var s := t + gap + rest;
    var n := |t| + |gap|;
    assert forall k :: 0 <= k < |t| ==> s[k] == t[k];
    assert forall k :: |t| <= k < n ==> s[k] == gap[k - |t|];
    assert n < |s| ==> s[n] == rest[0];
    hide IsSpace;
    RunEndIs(s, 0, false, |t|);
    RunEndIs(s, |t|, true, n);
    hide RunEnd;
    assert s[..|t|] == t && s[n..] == rest;
  }

  lemma {:induction false} RunEndIs(s: string, i: nat, space: bool, e: nat)
    requires i <= e <= |s| && forall k :: i <= k < e ==> IsSpace(s[k]) == space
    requires e < |s| ==> IsSpace(s[e]) != space
    ensures RunEnd(s, i, space) == e
    decreases e - i
  {
    hide IsSpace;
    if i < e { RunEndIs(s, i + 1, space, e); }
  }

  /** Lines written one after another are read back one by one, whether they end in a newline,
      a carriage return or both; a last one may end in nothing. */
  lemma LinesCons(line: string, end: string, rest: string)
    requires forall i :: 0 <= i < |line| ==> line[i] != '\n' && line[i] != '\r'
    requires end == "\n" || end == "\r\n" || (end == "\r" && (rest == "" || rest[0] != '\n'))
    ensures ReadLines(line + end + rest) == [line] + ReadLines(rest)
    ensures ReadLines(line) == if line == "" then [] else [line]
  {
    var s := line + end + rest;
    assert forall k :: 0 <= k < |line| ==> s[k] == line[k];
    assert s[|line|] == end[0];
    assert end == "\r\n" ==> s[|line| + 1] == '\n';
    assert end == "\r" && rest != "" ==> s[|line| + 1] == rest[0];
    assert LineEnd(s, 0) == |line|;
    assert s[..|line|] == line && s[|line| + |end|..] == rest;
  }
}
