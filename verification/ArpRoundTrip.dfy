/**
 The printer in C and the parser in Kotlin as a pair (ipneigh.c:252-308,
 LanDeviceScanner.kt:181-206).
 */
module ArpRoundTrip {
  import opened Bytes
  import opened BitOps
  import opened Netlink
  import opened Common
  import opened Text
  import opened LinkAddress
  import opened Neighbour
  import opened StateNames
  import opened EntryFormat
  import opened ArpTable

  /** A new entry with a destination and an interface, whose texts are single
      words, in a state of the eight known flags. */
  ghost predicate Complete(env: Env, f: Filter, m: entry) {
    && MsgType(m) == RTM_NEWNEIGH && f.index == 0 && IfIndex(m) != 0
    && Field(m, NDA_DST).Some? && Token(IpOf(env, m)) && Token(env.ifName(IfIndex(m)))
    && State(m) < 0x100
    && (HasLink(m) ==> LinkFits(env, m))
  }

  predicate HasLink(m: entry) {
    Field(m, NDA_LLADDR).Some?
  }

  function Link(m: entry): bytes
    requires HasLink(m)
  {
    Field(m, NDA_LLADDR).value
  }

  /** The link address prints in full in its buffer, and as hex. */
  predicate LinkFits(env: Env, m: entry)
    requires HasLink(m)
  {
    1 <= |Link(m)| <= 21 && !IsTunnel(|Link(m)|, env.ifKind(IfIndex(m)))
  }

  function IpOf(env: Env, m: entry): string
    requires Field(m, NDA_DST).Some?
  {
    HostText(env, Family(m), Field(m, NDA_DST).value)
  }

  predicate Router(m: entry) {
    And(NdFlags(m), NTF_ROUTER) != 0
  }

  predicate Proxy(m: entry) {
    And(NdFlags(m), NTF_PROXY) != 0
  }

  /** The words after the link address. */
  function Trailer(m: entry): seq<string> {
    (if Router(m) then ["router"] else []) + (if Proxy(m) then ["proxy"] else []) +
    (if State(m) != 0 then [FlagText(State(m), 0)] else [])
  }

  function Spaced(words: seq<string>): string {
    if words == [] then "" else " " + words[0] + Spaced(words[1..])
  }

  ghost predicate AllTokens(words: seq<string>) {
    forall i :: 0 <= i < |words| ==> Token(words[i])
  }

  lemma PlainToken(s: string)
    requires PlainOrComma(s) && s != ""
    ensures Token(s)
  {
  }

  lemma TrailerTokens(m: entry)
    requires State(m) < 0x100
    ensures AllTokens(Trailer(m))
  {
    var nud := State(m);
    hide Token, FlagText, State, Router, Proxy, PlainOrComma;
    if nud != 0 {
      FlagTextPlain(nud);
      PlainToken(FlagText(nud, 0));
    }
    FlagWordsAreTokens();
  }

  lemma FlagWordsAreTokens()
    ensures Token("router") && Token("proxy") && Token("dev") && Token("lladdr")
  {
  }

  lemma SpacedAppend(a: seq<string>, b: seq<string>)
    ensures Spaced(a + b) == Spaced(a) + Spaced(b)
  {
    if a == [] {
      assert a + b == b;
    } else {
      assert (a + b)[1..] == a[1..] + b;
      SpacedAppend(a[1..], b);
    }
  }

  lemma SpacedOne(w: string)
    ensures Spaced([w]) == " " + w
  {
    assert [w][1..] == [];
  }

  /** The flag words as printed are the trailer. */
  lemma TrailerText(m: entry)
    ensures RouterText(m) + ProxyText(m) + StateText(State(m)) == Spaced(Trailer(m))
  {
    hide FlagText, State, NdFlags, And, Spaced;
    var r := if Router(m) then ["router"] else [];
    var p := if Proxy(m) then ["proxy"] else [];
    var s := if State(m) != 0 then [FlagText(State(m), 0)] else [];
    SpacedAppend(r + p, s);
    SpacedAppend(r, p);
    SpacedNone();
    assert Spaced(r) == RouterText(m) by { SpacedOne("router"); assert " " + "router" == " router"; }
    assert Spaced(p) == ProxyText(m) by { SpacedOne("proxy"); assert " " + "proxy" == " proxy"; }
    assert Spaced(s) == StateText(State(m)) by { SpacedOne(FlagText(State(m), 0)); }
  }

  lemma SpacedNone()
    ensures Spaced([]) == ""
  {
  }

  // ---- The tokens of a line -------------------------------------------------

  lemma SpacedCons(t: string, w: string, rest: seq<string>)
    ensures t + Spaced([w] + rest) == t + " " + (w + Spaced(rest))
  {
    var all, tail := [w] + rest, Spaced(rest);
    assert all[1..] == rest;
    assert Spaced(all) == " " + w + tail;
    hide Spaced;
    assert t + (" " + w + tail) == t + " " + (w + tail);
  }

  lemma {:induction false} SplitSpaced(t: string, words: seq<string>)
    requires Token(t) && AllTokens(words)
    ensures SplitSpaces(t + Spaced(words)) == [t] + words
    decreases |words|
  {
    hide SplitSpaces, Token;
    if words == [] {
      SplitToken(t);
      assert t + "" == t;
    } else {
      var w, rest := words[0], words[1..];
      assert AllTokens(rest);
      SplitSpaced(w, rest);
      TokenStart(w, Spaced(rest));
      assert words == [w] + rest;
      SpacedCons(t, w, rest);
      hide Spaced, AllTokens;
      SplitAtGap(t, " ", w + Spaced(rest));
    }
  }

  lemma TokenStart(w: string, more: string)
    requires Token(w)
    ensures StartsWithoutSpace(w + more)
  {
  }

  predicate StartsWithoutSpace(s: string) {
    s == "" || !IsSpace(s[0])
  }

  lemma SplitAtGap(t: string, gap: string, rest: string)
    requires Token(t) && (gap == " " || gap == "  ") && StartsWithoutSpace(rest)
    ensures SplitSpaces(t + gap + rest) == [t] + SplitSpaces(rest)
  {
    SplitRun(t, gap, rest);
  }

  /** The words of a line, when the third and what follows are known. */
  lemma TwoMore(a: string, b: string, tail: string)
    requires Token(a) && Token(b) && StartsWithoutSpace(tail)
    ensures SplitSpaces(a + " " + (b + " " + tail)) == [a, b] + SplitSpaces(tail)
  {
    hide SplitSpaces, Token;
    TokenStart(b, " " + tail);
    assert b + " " + tail == b + (" " + tail);
    hide StartsWithoutSpace;
    SplitAtGap(b, " ", tail);
    SplitAtGap(a, " ", b + " " + tail);
  }

  /** The words of the line of an entry with a link address. */
  lemma LinkTokens(ip: string, dev: string, name: string, lladdr: string, mac: string, words: seq<string>)
    requires Token(ip) && Token(dev) && Token(name) && Token(lladdr) && Token(mac) && AllTokens(words)
    ensures SplitSpaces(ip + " " + (dev + " " + (name + " " + (lladdr + " " + (mac + Spaced(words)))))) ==
            [ip, dev, name, lladdr, mac] + words
  {
    hide *;
    var tail := mac + Spaced(words);
    SplitSpaced(mac, words);
    TokenStart(mac, Spaced(words));
    TwoMore(name, lladdr, tail);
    TokenStart(name, " " + (lladdr + " " + tail));
    assert name + " " + (lladdr + " " + tail) == name + (" " + (lladdr + " " + tail));
    TwoMore(ip, dev, name + " " + (lladdr + " " + tail));
  }

  /** The words of the line of an entry without one: two spaces in a row. */
  lemma NoLinkTokens(ip: string, dev: string, name: string, words: seq<string>)
    requires Token(ip) && Token(dev) && Token(name) && AllTokens(words)
    ensures SplitSpaces(ip + " " + (dev + " " + (name + " " + Spaced(words)))) ==
            [ip, dev, name] + if words == [] then [""] else words
  {
    hide *;
    var tail := name + " " + Spaced(words);
    NameThenFlags(name, words);
    assert tail == name + (" " + Spaced(words));
    TokenStart(name, " " + Spaced(words));
    TwoMore(ip, dev, tail);
  }

  lemma NameThenFlags(name: string, words: seq<string>)
    requires Token(name) && AllTokens(words)
    ensures SplitSpaces(name + " " + Spaced(words)) == [name] + if words == [] then [""] else words
  {
    hide SplitSpaces, Token;
    if words == [] {
      NothingLeft();
      SplitAtGap(name, " ", "");
    } else {
      var w, rest := words[0], words[1..];
      assert AllTokens(rest);
      SplitSpaced(w, rest);
      TokenStart(w, Spaced(rest));
      assert name + " " + Spaced(words) == name + "  " + (w + Spaced(rest));
      hide Spaced, AllTokens;
      SplitAtGap(name, "  ", w + Spaced(rest));
    }
  }

  lemma NothingLeft()
    ensures SplitSpaces("") == [""]
  {
  }

  // ---- The line of an entry -------------------------------------------------

  lemma LinkIsHex(env: Env, m: entry)
    requires HasLink(m) && LinkFits(env, m)
    ensures LinkField(env, m, Link(m)) == HexColon(Link(m)) && Token(HexColon(Link(m)))
  {
    hide Field;
    var text := HexColon(Link(m));
    HexColonLength(Link(m));
    HexColonChars(Link(m));
    HexToken(text);
    assert Free(text, NUL);
    hide HexColon;
    CStrBounded(text, SPRINT_BSIZE);
    assert text[..|text|] == text;
  }

  predicate IsHexText(s: string) {
    forall i :: 0 <= i < |s| ==> '0' <= s[i] <= ':' || 'a' <= s[i] <= 'f'
  }

  lemma HexToken(s: string)
    requires IsHexText(s) && s != ""
    ensures Token(s) && Free(s, NUL)
  {
  }

  lemma {:induction false} HexColonChars(addr: bytes)
    ensures IsHexText(HexColon(addr))
  {
    if |addr| > 1 {
      assert HexParts(addr)[1..] == HexParts(addr[1..]);
      HexColonChars(addr[1..]);
    }
  }

  /** The tokens of a complete entry's line, the link address present or not. */
  lemma LineTokens(env: Env, f: Filter, m: entry)
    requires Complete(env, f, m)
    ensures SplitSpaces(Line(env, f, m)) ==
            if HasLink(m) then [IpOf(env, m), "dev", env.ifName(IfIndex(m)), "lladdr", HexColon(Link(m))] + Trailer(m)
            else [IpOf(env, m), "dev", env.ifName(IfIndex(m))] + if Trailer(m) == [] then [""] else Trailer(m)
  {
    hide Field, HostText, LinkText, HexColon, Trailer, SplitSpaces, Token, Spaced, LinkFits, LinkField, AllTokens;
    var ip, name := IpOf(env, m), env.ifName(IfIndex(m));
    FlagWordsAreTokens();
    TrailerTokens(m);
    if HasLink(m) {
      var mac := HexColon(Link(m));
      LinkIsHex(env, m);
      LineWithLink(env, f, m);
      LinkTokens(ip, "dev", name, "lladdr", mac, Trailer(m));
    } else {
      LineWithoutLink(env, f, m);
      NoLinkTokens(ip, "dev", name, Trailer(m));
    }
  }

  lemma LineWithLink(env: Env, f: Filter, m: entry)
    requires Complete(env, f, m) && HasLink(m)
    ensures Line(env, f, m) ==
            IpOf(env, m) + " " + ("dev" + " " + (env.ifName(IfIndex(m)) + " " + ("lladdr" + " " +
              (HexColon(Link(m)) + Spaced(Trailer(m))))))
  {
    hide Field, HostText, LinkText, HexColon, Trailer, Token, Spaced, LinkFits, LinkField, RouterText, ProxyText,
        StateText;
    LinkIsHex(env, m);
    TrailerText(m);
    assert "dev " == "dev" + " " && "lladdr " == "lladdr" + " ";
    Nest(IpOf(env, m), "dev", env.ifName(IfIndex(m)), "lladdr", HexColon(Link(m)), Spaced(Trailer(m)));
    Regroup(IpOf(env, m) + " ", "dev " + env.ifName(IfIndex(m)) + " ", "lladdr " + HexColon(Link(m)),
      RouterText(m), ProxyText(m), StateText(State(m)));
  }

  lemma LineWithoutLink(env: Env, f: Filter, m: entry)
    requires Complete(env, f, m) && !HasLink(m)
    ensures Line(env, f, m) ==
            IpOf(env, m) + " " + ("dev" + " " + (env.ifName(IfIndex(m)) + " " + Spaced(Trailer(m))))
  {
    hide Field, HostText, Trailer, Token, Spaced, RouterText, ProxyText, StateText;
    TrailerText(m);
    assert "dev " == "dev" + " ";
    NestThree(IpOf(env, m), "dev", env.ifName(IfIndex(m)), Spaced(Trailer(m)));
    Regroup(IpOf(env, m) + " ", "dev " + env.ifName(IfIndex(m)) + " ", "",
      RouterText(m), ProxyText(m), StateText(State(m)));
  }

  lemma NestThree(a: string, b: string, c: string, w: string)
    ensures (a + " ") + ((b + " ") + c + " " + ("" + w)) == a + " " + (b + " " + (c + " " + w))
  {
    assert "" + w == w;
    assert (b + " ") + c + " " + w == b + " " + (c + " " + w);
  }

  lemma Nest(a: string, b: string, c: string, d: string, e: string, w: string)
    ensures a + " " + ((b + " ") + c + " " + ((d + " ") + e + w)) ==
            a + " " + (b + " " + (c + " " + (d + " " + (e + w))))
  {
    assert (d + " ") + e + w == d + " " + (e + w);
    assert (b + " ") + c + " " + ((d + " ") + e + w) == b + " " + (c + " " + (d + " " + (e + w)));
  }

  lemma Regroup(b: string, c: string, d: string, r: string, p: string, s: string)
    ensures "" + b + c + d + r + p + s == b + (c + (d + (r + p + s)))
  {
  }

  // ---- What the parser makes of a line --------------------------------------

  /** Failed alone, or incomplete alone. */
  predicate Dead(state: nat) {
    state == 0x20 || state == 0x01
  }

  lemma LastWord(m: entry)
    requires State(m) < 0x100 && Trailer(m) != []
    ensures var t := Trailer(m); var last := t[|t| - 1];
      && (State(m) != 0 ==> last == FlagText(State(m), 0))
      && (last == NEIGHBOR_FAILED || last == NEIGHBOR_INCOMPLETE <==> Dead(State(m)))
  {
    hide FlagText, State, Router, Proxy;
    var nud := State(m);
    if nud != 0 {
      SingleFlag(nud, 5);
      SingleFlag(nud, 0);
      FlagConstants();
      hide FlagName, Pow2;
    }
  }

  lemma FlagConstants()
    ensures FlagName(5) == NEIGHBOR_FAILED && FlagName(0) == NEIGHBOR_INCOMPLETE && Pow2(5) == 0x20 && Pow2(0) == 0x01
  {
  }

  /** The host that a complete entry should become. An entry without a link address
      is kept when it is a router, a proxy and in some state, and then the word
      "proxy" passes for its link address. */
  function Found(env: Env, inet: Inet, m: entry): Option<Host>
    requires Field(m, 1).Some?
  {
    var ip, state := IpText(env, m[16], Field(m, 1).value), StateOfEntry(m);
    var router, proxy := m[26] >= 0x80, m[26] / 8 % 2 == 1;
    if !inet.known(ip) || inet.linkLocal(ip) || inet.loopback(ip) || state == 0x20 || state == 0x01 then None
    else
      match Field(m, 2)
      case Some(link) => if router || proxy || state != 0 then Some(Host(ip, HexColon(link))) else None
      case None => if router && proxy && state != 0 then Some(Host(ip, "proxy")) else None
  }

  /** The parts of an entry that the texts are made of are those that its bytes say. */
  lemma PartsSay(env: Env, m: entry)
    ensures Field(m, 1).Some? ==> IpOf(env, m) == IpText(env, m[16], Field(m, 1).value)
    ensures IfIndex(m) == IndexOfEntry(m) && State(m) == StateOfEntry(m)
    ensures (Router(m) <==> m[26] >= 0x80) && (Proxy(m) <==> m[26] / 8 % 2 == 1)
  {
    FlagBits(m[26]);
    if Field(m, 1).Some? { HostSaid(env, m[16], Field(m, 1).value); }
    hide Field, HostText, IpText, And;
  }

  function FlagWords(m: entry): seq<string> {
    When(m[26] >= 0x80, "router") + When(m[26] / 8 % 2 == 1, "proxy") +
    When(StateOfEntry(m) != 0, Join(StateWords(StateOfEntry(m)), ','))
  }

  /** The words of a complete entry's line, from its bytes: the address, the interface, the link
      address if any, the flags set and the names of the state. */
  lemma LineWords(env: Env, f: Filter, m: entry)
    requires Complete(env, f, m)
    ensures SplitSpaces(Line(env, f, m)) ==
            var ip, name := IpText(env, m[16], Field(m, 1).value), env.ifName(IndexOfEntry(m));
            match Field(m, 2)
            case Some(link) => [ip, "dev", name, "lladdr", HexColon(link)] + FlagWords(m)
            case None => [ip, "dev", name] + if FlagWords(m) == [] then [""] else FlagWords(m)
  {
    assert State(m) < 0x100;
    hide Line, SplitSpaces, Field, HexColon, Trailer, Token, State, IfIndex, IndexOfEntry, IpOf, IpText, FlagWords,
      LinkFits, Router, Proxy;
    LineTokens(env, f, m);
    PartsSay(env, m);
    TrailerSays(m);
  }

  /** The first word: what `inet_ntop` makes of an IPv4 (2) or IPv6 (10) address, hex cut to 255
      characters for a packet address (17), and question marks for any other family. */
  lemma FirstWord(env: Env, f: Filter, m: entry)
    requires Complete(env, f, m)
    ensures var word, d := SplitSpaces(Line(env, f, m))[0], Field(m, 1).value;
      && (m[16] == 2 || m[16] == 10 ==> word == env.ntop(m[16], d))
      && (m[16] == 17 ==> word == HexColon(d)[..Min(|HexColon(d)|, 255)])
      && (m[16] != 2 && m[16] != 10 && m[16] != 17 ==> word == "???")
  {
    hide Line, SplitSpaces, Field, HexColon, FlagWords, IndexOfEntry, Complete;
    LineWords(env, f, m);
  }

  lemma TrailerSays(m: entry)
    requires State(m) < 0x100
    ensures Trailer(m) == FlagWords(m)
  {
    FlagBits(m[26]);
    assert State(m) == StateOfEntry(m);
    NameWords(State(m));
    KnownFlagText(State(m));
    hide FlagText, Join, StateWords, Names, State, StateOfEntry, And;
  }

  /** Exactly which complete entries become hosts, and with which link address. */
  lemma HostOfLine(env: Env, f: Filter, inet: Inet, m: entry)
    requires Complete(env, f, m)
    ensures HostOf(inet, Line(env, f, m)) == Found(env, inet, m)
  {
    hide Line, SplitSpaces, Field, HostText, HexColon, Trailer, FlagText, Token, LinkFits, State, HostFromTokens;
    hide IpOf, IpText, Router, Proxy, StateOfEntry, IndexOfEntry, IfIndex;
    LineTokens(env, f, m);
    PartsSay(env, m);
    var t := Trailer(m);
    if t != [] {
      LastWord(m);
    }
    TrailerShape(m);
    if HasLink(m) {
      FiveAndMore(inet, IpOf(env, m), "dev", env.ifName(IfIndex(m)), "lladdr", HexColon(Link(m)), t);
    } else if t == [] {
      FourOnly(inet, IpOf(env, m), "dev", env.ifName(IfIndex(m)), "");
    } else {
      ThreeAndMore(inet, IpOf(env, m), "dev", env.ifName(IfIndex(m)), t);
    }
  }

  /** The state word does not rule the entry out. */
  predicate Alive(words: seq<string>)
    requires words != []
  {
    words[|words| - 1] != NEIGHBOR_FAILED && words[|words| - 1] != NEIGHBOR_INCOMPLETE
  }

  lemma FiveAndMore(inet: Inet, a: string, b: string, c: string, d: string, e: string, t: seq<string>)
    ensures HostFromTokens(inet, [a, b, c, d, e] + t) ==
            if t != [] && Usable(inet, a) && Alive(t) then Some(Host(a, e)) else None
  {
    var tokens := [a, b, c, d, e] + t;
    assert t != [] ==> tokens[|tokens| - 1] == t[|t| - 1];
  }

  lemma FourOnly(inet: Inet, a: string, b: string, c: string, d: string)
    ensures HostFromTokens(inet, [a, b, c] + [d]) == None
  {
  }

  lemma ThreeAndMore(inet: Inet, a: string, b: string, c: string, t: seq<string>)
    requires 1 <= |t| <= 3
    ensures HostFromTokens(inet, [a, b, c] + t) ==
            if |t| == 3 && Usable(inet, a) && Alive(t) then Some(Host(a, t[1])) else None
  {
    var tokens := [a, b, c] + t;
    assert tokens[|tokens| - 1] == t[|t| - 1];
    assert |t| == 3 ==> tokens[4] == t[1];
  }

  lemma TrailerShape(m: entry)
    ensures var t := Trailer(m);
      && |t| <= 3
      && (|t| == 3 <==> Router(m) && Proxy(m) && State(m) != 0)
      && (|t| == 3 ==> t[0] == "router" && t[1] == "proxy")
      && (t == [] <==> !Router(m) && !Proxy(m) && State(m) == 0)
  {
    hide FlagText, State, Router, Proxy;
  }

  lemma CompleteLink(env: Env, f: Filter, m: entry)
    requires Complete(env, f, m) && HasLink(m)
    ensures State(m) < 0x100 && Link(m) != []
  {
    hide Field, State;
  }

  /** The round trip: an entry with a link address and a state gives back its
      address, its link address and its state, whatever its flags, and is kept
      unless it is failed or incomplete alone or its address is unknown, link-local or loopback. */
  lemma EntryRoundTrip(env: Env, f: Filter, inet: Inet, m: entry)
    requires Complete(env, f, m) && Field(m, 2).Some? && StateOfEntry(m) != 0
    ensures var tokens, state := SplitSpaces(Line(env, f, m)), StateOfEntry(m);
      var ip := IpText(env, m[16], Field(m, 1).value);
      && |tokens| > 5 && tokens[0] == ip
      && FromHex(tokens[4]) == Field(m, 2).value
      && tokens[|tokens| - 1] == Join(StateWords(state), ',')
      && (forall other :: 0 < other < 0x100 && Join(StateWords(other), ',') == tokens[|tokens| - 1] ==> other == state)
      && HostOf(inet, Line(env, f, m)) ==
         if inet.known(ip) && !inet.linkLocal(ip) && !inet.loopback(ip) && state != 0x20 && state != 0x01
         then Some(Host(ip, tokens[4])) else None
  {
    hide Line, SplitSpaces, Field, HostText, HexColon, Trailer, FlagText, Token, State, FromHex, HostOf, Join;
    hide StateWords, IpOf, IpText, Router, Proxy, Usable, Complete, Dead, StateOfEntry;
    PartsSay(env, m);
    assert State(m) < 0x100 && Link(m) != [] by { CompleteLink(env, f, m); }
    LineWords(env, f, m);
    LineTokens(env, f, m);
    HostOfLine(env, f, inet, m);
    TrailerShape(m);
    LastWord(m);
    StateJoined(State(m));
    HexColonRoundTrip(Link(m));
    forall other | 0 < other < 0x100 && Join(StateWords(other), ',') == FlagText(State(m), 0)
      ensures other == State(m)
    {
      StateJoined(other);
      StateTextDetermines(other, State(m));
    }
  }

  lemma StateJoined(state: nat)
    requires state < 0x100
    ensures FlagText(state, 0) == Join(StateWords(state), ',')
  {
    NameWords(state);
    KnownFlagText(state);
    hide FlagText, Join, StateWords, Names;
  }

  /** What a kept host carries: the link address of its entry, and for an entry
      without one the word "proxy". */
  lemma KeptHostMac(env: Env, f: Filter, inet: Inet, m: entry)
    requires Complete(env, f, m) && HostOf(inet, Line(env, f, m)).Some?
    ensures var mac := HostOf(inet, Line(env, f, m)).value.mac;
      if HasLink(m) then FromHex(mac) == Link(m) else mac == "proxy"
  {
    HostOfLine(env, f, inet, m);
    hide Line, Field, HostText, HexColon, Trailer, LinkFits, State, FromHex, HostOf;
    if HasLink(m) {
      HexColonRoundTrip(Link(m));
    }
  }

  // ---- Lines in a stream ----------------------------------------------------

  predicate NoBreak(s: string) {
    forall i :: 0 <= i < |s| ==> s[i] != '\n' && s[i] != '\r'
  }

  lemma TokenNoBreak(t: string)
    requires Token(t)
    ensures NoBreak(t)
  {
  }

  lemma {:induction false} SpacedNoBreak(words: seq<string>)
    requires AllTokens(words)
    ensures NoBreak(Spaced(words))
  {
    if words != [] {
      assert AllTokens(words[1..]);
      SpacedNoBreak(words[1..]);
      TokenNoBreak(words[0]);
      hide Token;
    }
  }

  lemma NoBreakAppend(a: string, b: string)
    requires NoBreak(a) && NoBreak(b)
    ensures NoBreak(a + b)
  {
  }

  /** The line of a complete entry is one line. */
  lemma LineNoBreak(env: Env, f: Filter, m: entry)
    requires Complete(env, f, m)
    ensures NoBreak(Line(env, f, m))
  {
    hide Field, HostText, LinkText, HexColon, Trailer, Token, Spaced, LinkFits, LinkField, NoBreak, Line, AllTokens;
    var ip, name, tail := IpOf(env, m), env.ifName(IfIndex(m)), Spaced(Trailer(m));
    FlagWordsAreTokens();
    TrailerTokens(m);
    SpacedNoBreak(Trailer(m));
    TokenNoBreak(ip);
    TokenNoBreak(name);
    TokenNoBreak("dev");
    TokenNoBreak("lladdr");
    if HasLink(m) {
      LinkIsHex(env, m);
      TokenNoBreak(HexColon(Link(m)));
      LineWithLink(env, f, m);
      NoBreakAppend(HexColon(Link(m)), tail);
      NoBreakGap("lladdr", HexColon(Link(m)) + tail);
      tail := "lladdr" + " " + (HexColon(Link(m)) + tail);
    } else {
      LineWithoutLink(env, f, m);
    }
    NoBreakGap(name, tail);
    NoBreakGap("dev", name + " " + tail);
    NoBreakGap(ip, "dev" + " " + (name + " " + tail));
  }

  lemma NoBreakGap(a: string, b: string)
    requires NoBreak(a) && NoBreak(b)
    ensures NoBreak(a + " " + b)
  {
  }

  /** The texts of addresses and interfaces hold no line break. */
  ghost predicate UnbrokenNames(env: Env) {
    && (forall family, addr :: NoBreak(env.ntop(family, addr)))
    && (forall idx :: idx != 0 ==> NoBreak(env.ifName(idx)))
  }

  /** Then whatever an entry holds, its line is one line. */
  lemma UnbrokenLine(env: Env, f: Filter, m: entry)
    requires UnbrokenNames(env)
    ensures NoBreak(Line(env, f, m))
  {
    UnbrokenHead(env, f, m);
    UnbrokenAddresses(env, m);
    assert NoBreak(RouterText(m)) && NoBreak(ProxyText(m));
    if State(m) != 0 {
      UnbrokenFlags(State(m), 0);
      NoBreakAppend(" ", FlagText(State(m), 0));
    }
    hide *;
    assert Line(env, f, m) == TypeText(m) + DstText(env, m) + DevText(env, f, m) + LladdrText(env, m) +
                              RouterText(m) + ProxyText(m) + StateText(State(m)) by { UnfoldLine(env, f, m); }
    UnbrokenSeven(TypeText(m), DstText(env, m), DevText(env, f, m), LladdrText(env, m),
      RouterText(m), ProxyText(m), StateText(State(m)));
  }

  lemma UnfoldLine(env: Env, f: Filter, m: entry)
    ensures Line(env, f, m) == TypeText(m) + DstText(env, m) + DevText(env, f, m) + LladdrText(env, m) +
                               RouterText(m) + ProxyText(m) + StateText(State(m))
  {
  }

  lemma UnbrokenSeven(a: string, b: string, c: string, d: string, e: string, f: string, g: string)
    requires NoBreak(a) && NoBreak(b) && NoBreak(c) && NoBreak(d) && NoBreak(e) && NoBreak(f) && NoBreak(g)
    ensures NoBreak(a + b + c + d + e + f + g)
  {
    hide NoBreak;
    NoBreakAppend(a, b);
    NoBreakAppend(a + b, c);
    NoBreakAppend(a + b + c, d);
    NoBreakAppend(a + b + c + d, e);
    NoBreakAppend(a + b + c + d + e, f);
    NoBreakAppend(a + b + c + d + e + f, g);
  }

  lemma UnbrokenHead(env: Env, f: Filter, m: entry)
    requires UnbrokenNames(env)
    ensures NoBreak(TypeText(m)) && NoBreak(DevText(env, f, m)) && NoBreak(StateText(0))
  {
    hide IfIndex;
    if IfIndex(m) != 0 {
      NoBreakAppend("dev ", env.ifName(IfIndex(m)));
      NoBreakAppend("dev " + env.ifName(IfIndex(m)), " ");
    }
  }

  lemma UnbrokenAddresses(env: Env, m: entry)
    requires UnbrokenNames(env)
    ensures NoBreak(DstText(env, m)) && NoBreak(LladdrText(env, m))
  {
    hide Field, HostText, LinkField;
    if Field(m, NDA_DST).Some? {
      UnbrokenHost(env, Family(m), Field(m, NDA_DST).value);
      NoBreakAppend(HostText(env, Family(m), Field(m, NDA_DST).value), " ");
    }
    if HasLink(m) {
      UnbrokenLink(env, m);
      NoBreakAppend("lladdr ", LinkField(env, m, Link(m)));
    }
  }

  lemma UnbrokenHost(env: Env, family: nat, addr: bytes)
    requires UnbrokenNames(env)
    ensures NoBreak(HostText(env, family, addr))
  {
    hide HexColon, CStr, Bounded;
    UnbrokenHex(addr);
    UnbrokenCut(HexColon(addr), HOST_BSIZE);
  }

  lemma UnbrokenLink(env: Env, m: entry)
    requires UnbrokenNames(env) && HasLink(m)
    ensures NoBreak(LinkField(env, m, Link(m)))
  {
    hide HexColon, CStr, Bounded, Field;
    UnbrokenHex(Link(m));
    UnbrokenCut(LinkText(env.ntop, Link(m), env.ifKind(IfIndex(m))), SPRINT_BSIZE);
  }

  lemma UnbrokenHex(addr: bytes)
    ensures NoBreak(HexColon(addr))
  {
    HexColonChars(addr);
    hide HexColon;
  }

  lemma UnbrokenCut(t: string, size: nat)
    requires NoBreak(t)
    ensures NoBreak(CStr(Bounded(t, size)))
  {
  }

  lemma {:induction false} UnbrokenFlags(nud: nat, k: nat)
    requires k <= 8
    ensures NoBreak(FlagText(nud, k))
    decreases 8 - k
  {
    hide And, Pow2, AndNot16;
    if k < 8 {
      UnbrokenFlags(nud, k + 1);
      var left := AndNot16(nud, Pow2(k));
      UnbrokenFlags(left, k + 1);
      UnbrokenName(k);
      NoBreakAppend(FlagName(k), if left != 0 then "," else "");
      NoBreakAppend(FlagName(k) + (if left != 0 then "," else ""), FlagText(left, k + 1));
      hide NoBreak, FlagName;
    }
  }

  lemma UnbrokenName(k: nat)
    requires k < 8
    ensures NoBreak(FlagName(k))
  {
  }
}
