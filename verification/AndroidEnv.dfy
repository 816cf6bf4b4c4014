/**
 What the program itself runs with: an interface cache that nothing fills, and the show filter
 (ll_map.c:35, ipneigh.c:321-344).
 */
module AndroidEnv {
  import opened Bytes
  import opened Common
  import opened Netlink
  import opened DumpFilter
  import opened FlatDump
  import opened Text
  import HashList
  import LlMap
  import opened Neighbour
  import opened ArpTable
  import opened ArpRoundTrip
  import opened Pipeline

  /** `ntop` is `inet_ntop`, `known` is `if_indextoname`. */
  function EnvOf(ntop: (nat, bytes) -> string, known: nat -> Option<string>, cache: map<nat, HashList.Entry>): Env {
    Env(ntop, (idx: nat) => LlMap.NameOf(cache, known(idx), idx), (idx: nat) => LlMap.KindOf(cache, idx), false)
  }

  function ProgramEnv(ntop: (nat, bytes) -> string, known: nat -> Option<string>): Env {
    EnvOf(ntop, known, map[])
  }

  /** The system's interface names are words. */
  ghost predicate WordNames(known: nat -> Option<string>) {
    forall idx :: known(idx).Some? ==> Token(known(idx).value)
  }

  /** No interface is ever a tunnel, so every link address of 1 to 21 bytes prints in full as hex. */
  lemma NoTunnels(ntop: (nat, bytes) -> string, known: nat -> Option<string>, m: entry)
    requires HasLink(m)
    ensures LinkFits(ProgramEnv(ntop, known), m) <==> 1 <= |Link(m)| <= 21
  {
    hide Field;
  }

  /** A made-up interface name is a word too. */
  lemma NamesAreWords(ntop: (nat, bytes) -> string, known: nat -> Option<string>, idx: nat)
    requires WordNames(known) && idx != 0
    ensures Token(ProgramEnv(ntop, known).ifName(idx))
  {
    var v := Signed32(idx % TWO_TO_THE_32);
    var magnitude := if v < 0 then -v else v;
    var digits := Dec(magnitude);
    forall i | 0 <= i < |digits| ensures !IsSpace(digits[i]) { assert digits[i] in digits; }
    hide Dec;
  }

  /** What is left to ask of an entry: a new one with a destination whose text is a word, an
      interface, a state of the known flags, and a link address, if any, of 1 to 21 bytes. */
  predicate Ordinary(ntop: (nat, bytes) -> string, known: nat -> Option<string>, m: entry) {
    && MsgType(m) == RTM_NEWNEIGH && IfIndex(m) != 0 && State(m) < 0x100
    && Field(m, NDA_DST).Some? && Token(IpOf(ProgramEnv(ntop, known), m))
    && (HasLink(m) ==> 1 <= |Link(m)| <= 21)
  }

  lemma OrdinaryIsComplete(ntop: (nat, bytes) -> string, known: nat -> Option<string>, m: entry)
    requires WordNames(known)
    ensures Complete(ProgramEnv(ntop, known), ShowFilter(), m) <==> Ordinary(ntop, known, m)
  {
    if IfIndex(m) != 0 { NamesAreWords(ntop, known, IfIndex(m)); }
    if HasLink(m) { NoTunnels(ntop, known, m); }
    hide Field, Token, ProgramEnv, IpOf, LinkFits, State, IfIndex, WordNames;
  }

  /** What the code relies on: a message about an entry is as long as its header, and an entry
      that the show filter wants has no empty address that is to be printed as hex. */
  predicate Expected(m: message) {
    IsNeighType(MsgType(m)) ==> |m| >= ATTRS && (PassesHeader(ShowFilter(), false, m) ==> Printable(m))
  }

  /** `inet_ntop` writes no line break. */
  ghost predicate UnbrokenTexts(ntop: (nat, bytes) -> string) {
    forall family, addr :: NoBreak(ntop(family, addr))
  }

  lemma ProgramIsUnbroken(ntop: (nat, bytes) -> string, known: nat -> Option<string>)
    requires UnbrokenTexts(ntop) && WordNames(known)
    ensures UnbrokenNames(ProgramEnv(ntop, known))
  {
    hide NoBreak, Token, WordNames;
    var env := ProgramEnv(ntop, known);
    assert forall family, addr :: env.ntop(family, addr) == ntop(family, addr);
    forall idx | idx != 0 ensures NoBreak(env.ifName(idx)) {
      NamesAreWords(ntop, known, idx);
      TokenNoBreak(env.ifName(idx));
    }
  }

  lemma ExpectedIsClean(ntop: (nat, bytes) -> string, known: nat -> Option<string>, m: message)
    requires UnbrokenTexts(ntop) && WordNames(known) && Expected(m)
    ensures Clean(ProgramEnv(ntop, known), ShowFilter(), m)
  {
    var env, f := ProgramEnv(ntop, known), ShowFilter();
    hide Field, PassesHeader, ProgramEnv, Line, NoBreak, UnbrokenNames, Printable, UnbrokenTexts, WordNames;
    ProgramIsUnbroken(ntop, known);
    if |m| >= ATTRS { UnbrokenLine(env, f, m); }
  }

  /** The program's dump: the parser gets exactly the hosts of the entries that the show filter
      accepts before the end, whatever the cut into datagrams. */
  lemma ProgramDump(
      rs: seq<Receipt>, s: bytes, h: Handle, ntop: (nat, bytes) -> string, known: nat -> Option<string>, inet: Inet)
    requires !h.dumping && |s| == BUFFER_SIZE && AllWellFormed(rs) && UnbrokenTexts(ntop) && WordNames(known)
    requires forall m :: m in UpToEnd(Relevant(Flatten(rs), h, 0)) ==> Expected(m)
    ensures var ms, env, f := Relevant(Flatten(rs), h, 0), ProgramEnv(ntop, known), ShowFilter();
      var run, seen := Run(s, rs, h, [Callback(env, f)], []), UpToEnd(ms);
      && AllClean(env, f, seen) && AllLegible(env, f, seen)
      && run.1 == Calls(seen)
      && run.0 == (if seen == ms then Waiting
                   else var end := ms[|seen|];
                     Returned(if end[4..6] == [3, 0] && |end| >= 20 && end[19] < 0x80 then 0 else -1))
      && HostsOf(inet, ReadLines(PipeText(env, f, seen))) == AllFound(env, f, inet, seen)
  {
    hide Run, Flatten, Relevant, Clean, Expected, UnbrokenTexts, WordNames, UpToEnd, Calls, AllWellFormed, Msgs;
    var seen := UpToEnd(Relevant(Flatten(rs), h, 0));
    var env, f := ProgramEnv(ntop, known), ShowFilter();
    forall i | 0 <= i < |seen| ensures Clean(env, f, seen[i]) {
      assert seen[i] in seen;
      ExpectedIsClean(ntop, known, seen[i]);
    }
    DumpToHosts(rs, s, h, env, f, inet);
  }
}
