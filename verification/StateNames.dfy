/** The neighbour state as text, and back (ipneigh.c:291-307). */
module StateNames {
  import opened BitOps
  import opened PrefixMatch
  import opened Netlink
  import opened Text
  import opened Neighbour

  lemma {:induction false} AndPow2(n: nat, k: nat)
    ensures And(n, Pow2(k)) != 0 <==> Bit(n, k)
  {
    if n == 0 {
      BitOfZero(k);
    } else if k > 0 {
      AndPow2(n / 2, k - 1);
    }
  }

  lemma {:induction false} BitOfPow2(k: nat, j: nat)
    ensures Bit(Pow2(k), j) <==> j == k
  {
    if k == 0 {
      if j > 0 { BitOfZero(j - 1); }
    } else if j > 0 {
      BitOfPow2(k - 1, j - 1);
    }
  }

  lemma {:induction false} BitOfComplement(n: nat, m: nat, j: nat)
    requires n < Pow2(m)
    ensures Bit(Pow2(m) - 1 - n, j) <==> j < m && !Bit(n, j)
  {
    if m == 0 {
      BitOfZero(j);
    } else if j > 0 {
      assert (Pow2(m) - 1 - n) / 2 == Pow2(m - 1) - 1 - n / 2;
      BitOfComplement(n / 2, m - 1, j - 1);
    }
  }

  /** Clearing one flag clears its bit alone. */
  lemma ClearBit(n: nat, k: nat, j: nat)
    requires k < 16
    ensures Bit(AndNot16(n, Pow2(k)), j) <==> Bit(n, j) && j < 16 && j != k
  {
    hide And, Bit, Pow2;
    PowersOfTwo();
    Pow2Monotone(k, 16);
    AndBit(n, 0xFFFF - Pow2(k), j);
    BitOfComplement(Pow2(k), 16, j);
    BitOfPow2(k, j);
  }

  lemma {:induction false} Pow2Monotone(a: nat, b: nat)
    requires a < b
    ensures Pow2(a) < Pow2(b)
  {
    if a < b - 1 { Pow2Monotone(a, b - 1); }
  }

  /** The names of the flags set, from bit `k` on. */
  function Names(nud: nat, k: nat): seq<string>
    requires k <= 8
    decreases 8 - k
  {
    if k == 8 then [] else (if Bit(nud, k) then [FlagName(k)] else []) + Names(nud, k + 1)
  }

  lemma {:induction false} NamesAgree(n: nat, n': nat, k: nat)
    requires k <= 8 && forall j: nat :: k <= j < 8 ==> Bit(n, j) == Bit(n', j)
    ensures Names(n, k) == Names(n', k)
    decreases 8 - k
  {
    if k < 8 { NamesAgree(n, n', k + 1); }
  }

  lemma {:induction false} NoNames(n: nat, k: nat)
    requires k <= 8
    ensures (forall j: nat :: k <= j < 8 ==> !Bit(n, j)) ==> Names(n, k) == []
    ensures forall j: nat :: k <= j < 8 && Bit(n, j) ==> Names(n, k) != []
    decreases 8 - k
  {
    if k < 8 {
      NoNames(n, k + 1);
      hide Bit;
      var head := if Bit(n, k) then [FlagName(k)] else [];
      assert Names(n, k) == head + Names(n, k + 1);
      if forall j: nat :: k <= j < 8 ==> !Bit(n, j) {
        assert !Bit(n, k);
      }
    }
  }

  lemma {:induction false} HighBit(n: nat, m: nat, j: nat)
    requires n < Pow2(m) && m <= j
    ensures !Bit(n, j)
  {
    if m == 0 {
      BitOfZero(j);
    } else {
      HighBit(n / 2, m - 1, j - 1);
    }
  }

  /** A flag above the eight known ones makes the state at least 0x100, */
  lemma UnknownFlag(n: nat, j: nat)
    requires j >= 8 && Bit(n, j)
    ensures n >= 0x100
  {
    PowersOfTwo();
    if n < 0x100 { HighBit(n, 8, j); }
  }

  /** and such a state has one. */
  lemma SomeUnknownFlag(n: nat) returns (j: nat)
    requires n >= 0x100
    ensures j >= 8 && Bit(n, j)
  {
    var k := SomeBit(n / 0x100);
    j := k + 8;
    PowersOfTwo();
    BitOfShiftedSum(n % 0x100, n / 0x100, 8, j);
  }

  /** Clearing flag `k` leaves the names after it, and the unknown flags. */
  lemma AfterFlag(nud: nat, k: nat)
    requires k < 8 && nud < 0x1_0000 && forall j: nat :: j < k ==> !Bit(nud, j)
    ensures var left := AndNot16(nud, Pow2(k));
      && left < 0x1_0000 && (forall j: nat :: j <= k ==> !Bit(left, j))
      && Names(left, k + 1) == Names(nud, k + 1)
      && (left >= 0x100 <==> nud >= 0x100)
      && (left == 0 <==> Names(nud, k + 1) == [] && nud < 0x100)
  {
    var left := AndNot16(nud, Pow2(k));
    AndNot16Bound(nud, Pow2(k));
    hide AndNot16, Bit, Names;
    forall j: nat ensures Bit(left, j) <==> Bit(nud, j) && j < 16 && j != k { ClearBit(nud, k, j); }
    UnknownStay(nud, left, k);
    NamesAgree(left, nud, k + 1);
    NoNames(nud, k + 1);
    if left == 0 {
      forall j: nat | k + 1 <= j < 8 ensures !Bit(nud, j) {
        BitOfZero(j);
        ClearBit(nud, k, j);
      }
    } else if nud < 0x100 {
      var j := SomeBit(left);
      if j >= 8 { UnknownFlag(left, j); }
      ClearBit(nud, k, j);
      assert k + 1 <= j < 8 && Bit(nud, j);
    }
  }

  lemma UnknownStay(nud: nat, left: nat, k: nat)
    requires k < 8 && nud < 0x1_0000 && forall j: nat :: Bit(left, j) <==> Bit(nud, j) && j < 16 && j != k
    ensures left >= 0x100 <==> nud >= 0x100
  {
    hide Bit;
    PowersOfTwo();
    if nud >= 0x100 {
      var j := SomeUnknownFlag(nud);
      if j >= 16 { HighBit(nud, 16, j); }
      UnknownFlag(left, j);
    } else if left >= 0x100 {
      var j := SomeUnknownFlag(left);
      UnknownFlag(nud, j);
    }
  }

  /** The comma after the last name, printed when a flag without a name remains. */
  function TrailingComma(nud: nat, names: seq<string>): string {
    if names != [] && nud >= 0x100 then "," else ""
  }

  /** The macros print the names joined by commas. */
  lemma {:induction false} FlagTextIsJoin(nud: nat, k: nat)
    requires k <= 8 && nud < 0x1_0000 && forall j: nat :: j < k ==> !Bit(nud, j)
    ensures FlagText(nud, k) == Join(Names(nud, k), ',') + TrailingComma(nud, Names(nud, k))
    decreases 8 - k
  {
    hide *;
    if k == 8 {
      EndOfNames(nud);
    } else {
      FlagTextStep(nud, k);
      NamesStep(nud, k);
      if Bit(nud, k) {
        AfterFlag(nud, k);
        FlagTextIsJoin(AndNot16(nud, Pow2(k)), k + 1);
        JoinCons(FlagName(k), Names(nud, k + 1), ',');
        EmptyJoin();
        CommaMoves(nud, AndNot16(nud, Pow2(k)), FlagName(k), Names(nud, k + 1), Join(Names(nud, k + 1), ','));
      } else {
        FlagTextIsJoin(nud, k + 1);
      }
    }
  }

  /** Of the eight known flags there is no comma at the end. */
  lemma KnownFlagText(nud: nat)
    requires nud < 0x100
    ensures FlagText(nud, 0) == Join(Names(nud, 0), ',')
  {
    hide *;
    FlagTextIsJoin(nud, 0);
    NoComma(nud, Names(nud, 0), Join(Names(nud, 0), ','));
  }

  lemma NoComma(nud: nat, names: seq<string>, joined: string)
    requires nud < 0x100
    ensures joined + TrailingComma(nud, names) == joined
  {
  }

  lemma CommaMoves(nud: nat, left: nat, name: string, rest: seq<string>, joined: string)
    requires left >= 0x100 <==> nud >= 0x100
    requires left == 0 <==> rest == [] && nud < 0x100
    requires rest == [] ==> joined == ""
    ensures name + (if left != 0 then "," else "") + (joined + TrailingComma(left, rest)) ==
            name + (if rest != [] then [','] else "") + joined + TrailingComma(nud, [name] + rest)
  {
  }

  lemma EndOfNames(nud: nat)
    ensures FlagText(nud, 8) == Join(Names(nud, 8), ',') + TrailingComma(nud, Names(nud, 8))
  {
  }

  lemma FlagTextStep(nud: nat, k: nat)
    requires k < 8
    ensures var left := AndNot16(nud, Pow2(k));
      FlagText(nud, k) ==
      if Bit(nud, k) then FlagName(k) + (if left != 0 then "," else "") + FlagText(left, k + 1)
      else FlagText(nud, k + 1)
  {
    AndPow2(nud, k);
    hide And, AndNot16, FlagName, Pow2, Bit;
  }

  lemma NamesStep(nud: nat, k: nat)
    requires k < 8
    ensures Names(nud, k) == if Bit(nud, k) then [FlagName(k)] + Names(nud, k + 1) else Names(nud, k + 1)
  {
    hide Bit, FlagName;
  }

  // ---- Reading the state back -----------------------------------------------

  predicate Plain(s: string) {
    s != [] && forall i :: 0 <= i < |s| ==> 'A' <= s[i] <= 'Z'
  }

  lemma NamesPlain(k: nat)
    requires k < 8
    ensures Plain(FlagName(k))
  {
  }

  lemma NamesDistinct(k: nat, j: nat)
    requires k < 8 && j < 8 && FlagName(k) == FlagName(j)
    ensures k == j
  {
    assert FlagName(k)[..2] == FlagName(j)[..2];
  }

  lemma {:induction false} AllNamesPlain(nud: nat, k: nat)
    requires k <= 8
    ensures forall i :: 0 <= i < |Names(nud, k)| ==> Plain(Names(nud, k)[i])
    decreases 8 - k
  {
    if k < 8 {
      NamesPlain(k);
      hide FlagName, Bit, Plain;
      AllNamesPlain(nud, k + 1);
    }
  }

  /** The list of names determines the flags. */
  lemma {:induction false} NamesDetermine(n: nat, n': nat, k: nat, j: nat)
    requires k <= j < 8 && Names(n, k) == Names(n', k)
    ensures Bit(n, j) == Bit(n', j)
    decreases 8 - k
  {
    hide Bit;
    var a, b := Names(n, k + 1), Names(n', k + 1);
    NamesStart(n, k + 1);
    NamesStart(n', k + 1);
    StartsLater(a, k);
    StartsLater(b, k);
    assert Names(n, k) == if Bit(n, k) then [FlagName(k)] + a else a;
    assert Names(n', k) == if Bit(n', k) then [FlagName(k)] + b else b;
    hide FlagName;
    if Bit(n, k) == Bit(n', k) {
      if k < j {
        assert a == if Bit(n, k) then Names(n, k)[1..] else Names(n, k);
        assert b == if Bit(n, k) then Names(n', k)[1..] else Names(n', k);
        NamesDetermine(n, n', k + 1, j);
      }
    }
  }

  /** The first name, if any, is that of a flag at or after `k`. */
  ghost predicate StartsAt(names: seq<string>, k: nat) {
    names != [] ==> exists j :: k <= j < 8 && names[0] == FlagName(j)
  }

  lemma {:induction false} NamesStart(n: nat, k: nat)
    requires k <= 8
    ensures StartsAt(Names(n, k), k)
    decreases 8 - k
  {
    if k < 8 {
      hide FlagName, Bit;
      NamesStart(n, k + 1);
    }
  }

  lemma StartsLater(names: seq<string>, k: nat)
    requires k < 8 && StartsAt(names, k + 1)
    ensures names != [] ==> names[0] != FlagName(k)
  {
    if names != [] {
      var j :| k + 1 <= j < 8 && names[0] == FlagName(j);
      if FlagName(j) == FlagName(k) { NamesDistinct(j, k); }
    }
  }

  lemma PlainFree(names: seq<string>)
    requires forall i :: 0 <= i < |names| ==> Plain(names[i])
    ensures AllFree(names, ',')
  {
  }

  /** The text of a state of the eight known flags determines the state. */
  lemma StateTextDetermines(n: nat, n': nat)
    requires 0 < n < 0x100 && 0 < n' < 0x100 && FlagText(n, 0) == FlagText(n', 0)
    ensures n == n'
  {
    hide FlagText, Bit, Plain, Names, Join, SplitOn;
    NamesOf(n);
    NamesOf(n');
    forall j | 0 <= j < 8 ensures Bit(n, j) == Bit(n', j) { NamesDetermine(n, n', 0, j); }
    PowersOfTwo();
    BitsDetermine(n, n', 8);
  }

  lemma NamesOf(n: nat)
    requires 0 < n < 0x100
    ensures SplitOn(FlagText(n, 0), ',') == Names(n, 0) != []
  {
    hide FlagText, Bit, Plain, Names, Join, SplitOn;
    KnownFlagText(n);
    AllNamesPlain(n, 0);
    PlainFree(Names(n, 0));
    var j := SomeBit(n);
    PowersOfTwo();
    if j >= 8 { HighBit(n, 8, j); }
    NoNames(n, 0);
    SplitJoin(Names(n, 0), ',');
  }

  lemma {:induction false} NamesOfPow2(f: nat, k: nat)
    requires f < 8 && k <= 8
    ensures Names(Pow2(f), k) == if k <= f then [FlagName(f)] else []
    decreases 8 - k
  {
    if k < 8 {
      BitOfPow2(f, k);
      NamesOfPow2(f, k + 1);
      NamesStep(Pow2(f), k);
      hide Names, FlagName, Pow2, Bit;
    }
  }

  /** A single flag prints as its name, and nothing else does. */
  lemma SingleFlag(n: nat, f: nat)
    requires 0 < n < 0x100 && f < 8
    ensures FlagText(n, 0) == FlagName(f) <==> n == Pow2(f)
  {
    hide FlagText, Names, Join;
    PowersOfTwo();
    Pow2Monotone(f, 8);
    KnownFlagText(Pow2(f));
    NamesOfPow2(f, 0);
    JoinCons(FlagName(f), [], ',');
    EmptyJoin();
    assert [FlagName(f)] + [] == [FlagName(f)];
    assert FlagName(f) + "" + "" == FlagName(f);
    if FlagText(n, 0) == FlagName(f) {
      StateTextDetermines(n, Pow2(f));
    }
  }

  lemma EmptyJoin()
    ensures Join([], ',') == ""
  {
  }

  predicate PlainOrComma(s: string) {
    forall i :: 0 <= i < |s| ==> 'A' <= s[i] <= 'Z' || s[i] == ','
  }

  lemma {:induction false} JoinPlain(names: seq<string>)
    requires forall i :: 0 <= i < |names| ==> Plain(names[i])
    ensures PlainOrComma(Join(names, ',')) && (names != [] ==> Join(names, ',') != "")
  {
    if |names| > 1 {
      JoinPlain(names[1..]);
    }
  }

  lemma FlagTextPlain(n: nat)
    requires 0 < n < 0x100
    ensures PlainOrComma(FlagText(n, 0)) && FlagText(n, 0) != ""
  {
    hide FlagText, Plain, PlainOrComma, Names, Join;
    NamesOf(n);
    KnownFlagText(n);
    AllNamesPlain(n, 0);
    JoinPlain(Names(n, 0));
  }
}
