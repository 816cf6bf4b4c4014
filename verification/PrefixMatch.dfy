/** Word-by-word prefix comparison: `inet_addr_match` (ipneigh.c:112-138). */
module PrefixMatch {
  import opened Bytes
  import opened BitOps

  const DATA_SIZE := 256

  type address = d: bytes | |d| == DATA_SIZE witness seq(DATA_SIZE, _ => 0)

  /** The 32-bit word that four bytes in memory stand for, on either kind of host. */
  function HostWord(b: bytes, big: bool): (w: nat)
    requires |b| == 4
  {
    if big then Word(b[3], b[2], b[1], b[0]) else Word(b[0], b[1], b[2], b[3])
  }

  function Word(b0: byte, b1: byte, b2: byte, b3: byte): nat {
    b0 as int + 0x100 * (b1 as int + 0x100 * (b2 as int + 0x100 * b3 as int))
  }

  /** `htonl`: the word whose bytes in memory are `x` in network order. */
  function Htonl(x: nat, big: bool): nat
    requires x < TWO_TO_THE_32
  {
    HostWord(Octets(x), big)
  }

  function Mask(bits: nat): (m: nat)
    requires 1 <= bits <= 31
    ensures m < TWO_TO_THE_32
  {
    0xFFFF_FFFF * Pow2(32 - bits) % TWO_TO_THE_32
  }

  function InetAddrMatch(a: address, b: address, bits: nat, big: bool): int
    requires bits <= 8 * DATA_SIZE
  {
    var words, rest := bits / 32, bits % 32;
    if words != 0 && a[..4 * words] != b[..4 * words] then -1
    else if rest != 0 &&
            And(Xor(HostWord(a[4 * words..4 * words + 4], big), HostWord(b[4 * words..4 * words + 4], big)),
                Htonl(Mask(rest), big)) != 0 then 1
    else 0
  }

  /** Bit `j` of an address in network order. */
  predicate NetBit(a: bytes, j: nat)
    requires j < 8 * |a|
  {
    Bit(a[j / 8], 7 - j % 8)
  }

  ghost predicate SameBits(a: bytes, b: bytes, bits: nat)
    requires bits <= 8 * |a| && bits <= 8 * |b|
  {
    forall j :: 0 <= j < bits ==> NetBit(a, j) == NetBit(b, j)
  }

  // ---- Bits of bytes, words and masks ---------------------------------------

  lemma {:induction false} BitsDetermine(a: nat, b: nat, n: nat)
    requires a < Pow2(n) && b < Pow2(n)
    requires forall k :: 0 <= k < n ==> Bit(a, k) == Bit(b, k)
    ensures a == b
  {
    if n > 0 {
      assert Bit(a, 0) == Bit(b, 0);
      forall k | 0 <= k < n - 1 ensures Bit(a / 2, k) == Bit(b / 2, k) {
        assert Bit(a, k + 1) == Bit(b, k + 1);
      }
      BitsDetermine(a / 2, b / 2, n - 1);
    }
  }

  /** The low eight bits of `lo + 256 * hi` are those of `lo`, the rest those of `hi`. */
  lemma BitOfSum(lo: byte, hi: nat, k: nat)
    ensures Bit(lo as int + 0x100 * hi, k) == if k < 8 then Bit(lo, k) else Bit(hi, k - 8)
  {
    BitOfShiftedSum(lo, hi, 8, k);
    PowersOfTwo();
  }

  lemma Doubled(lo: nat, hi: nat, p: nat)
    ensures (lo + 2 * p * hi) / 2 == lo / 2 + p * hi && (lo + 2 * p * hi) % 2 == lo % 2 && lo + 2 * p * hi >= 0
  {
    var q := p * hi;
    assert lo + 2 * p * hi == lo + 2 * q;
  }

  lemma {:induction false} BitOfShiftedSum(lo: nat, hi: nat, n: nat, k: nat)
    requires lo < Pow2(n)
    ensures Bit(lo + Pow2(n) * hi, k) == if k < n then Bit(lo, k) else Bit(hi, k - n)
    decreases n
  {
    if n > 0 {
      var p := Pow2(n - 1);
      Doubled(lo, hi, p);
      assert Pow2(n) == 2 * p;
      hide Pow2;
      if k > 0 {
        BitOfShiftedSum(lo / 2, hi, n - 1, k - 1);
      }
    }
  }

  lemma {:induction false} BitOfOnes(m: nat, k: nat)
    ensures Bit(Pow2(m) - 1, k) == (k < m)
  {
    if m == 0 {
      BitOfZero(k);
    } else {
      assert Pow2(m) - 1 == 1 + 2 * (Pow2(m - 1) - 1);
      if k > 0 { BitOfOnes(m - 1, k - 1); }
    }
  }

  lemma MaskBits(bits: nat, k: nat)
    requires 1 <= bits <= 31
    ensures Bit(Mask(bits), k) == (32 - bits <= k < 32)
  {
    var p, q := Pow2(32 - bits), Pow2(bits);
    MaskIsShifted(bits);
    BitOfShiftedSum(0, q - 1, 32 - bits, k);
    if k >= 32 - bits {
      BitOfOnes(bits, k - (32 - bits));
    } else {
      BitOfZero(k);
    }
  }

  lemma MaskIsShifted(bits: nat)
    requires 1 <= bits <= 31
    ensures Mask(bits) == Pow2(32 - bits) * (Pow2(bits) - 1)
  {
    var p, q := Pow2(32 - bits), Pow2(bits);
    PowAdd(32 - bits, bits);
    PowersOfTwo();
    hide Pow2;
    Expand(p, q);
    ModUnique(0xFFFF_FFFF * p, p * q, p - 1, p * (q - 1));
  }

  lemma Expand(p: nat, q: nat)
    requires p >= 1 && q >= 1
    ensures 0 <= p * (q - 1) < p * q
    ensures (p * q - 1) * p == (p * q) * (p - 1) + p * (q - 1)
  {
    var n := p * q;
    assert p * (q - 1) == n - p;
    assert (n - 1) * p == n * p - p && n * (p - 1) == n * p - n;
  }

  lemma WordBit(b: bytes, big: bool, k: nat)
    requires |b| == 4 && k < 32
    ensures Bit(HostWord(b, big), k) == Bit(b[if big then 3 - k / 8 else k / 8], k % 8)
  {
    var c := if big then [b[3], b[2], b[1], b[0]] else b;
    BitOfSum(c[0], c[1] as int + 0x100 * (c[2] as int + 0x100 * c[3] as int), k);
    if k >= 8 {
      BitOfSum(c[1], c[2] as int + 0x100 * c[3] as int, k - 8);
    }
    if k >= 16 {
      BitOfSum(c[2], c[3], k - 16);
    }
  }

  lemma OctetsBit(x: nat, p: nat, r: nat)
    requires x < TWO_TO_THE_32 && p < 4 && r < 8
    ensures Bit(Octets(x)[p], r) == Bit(x, 8 * (3 - p) + r)
  {
    OctetsWord(x);
    var b := Octets(x);
    hide Octets, HostWord, Bit;
    var k := 8 * (3 - p) + r;
    assert 3 - k / 8 == p && k % 8 == r;
    WordBit(b, true, k);
  }

  lemma OctetsWord(x: nat)
    requires x < TWO_TO_THE_32
    ensures HostWord(Octets(x), true) == x
  {
    assert x / 0x1_0000 == 0x100 * (x / 0x1_00_0000) + x / 0x1_0000 % 0x100;
    assert x / 0x100 == 0x100 * (x / 0x1_0000) + x / 0x100 % 0x100;
    assert x == 0x100 * (x / 0x100) + x % 0x100;
  }

  // ---- The comparison -------------------------------------------------------

  /** The masked exclusive-or of two words vanishes exactly when the first `bits`
      bits, in network order, agree; whatever the host's byte order. */
  lemma WordMatch(a: bytes, b: bytes, bits: nat, big: bool)
    requires |a| == |b| == 4 && 1 <= bits <= 31
    ensures And(Xor(HostWord(a, big), HostWord(b, big)), Htonl(Mask(bits), big)) == 0 <==> SameBits(a, b, bits)
  {
    var n := And(Xor(HostWord(a, big), HostWord(b, big)), Htonl(Mask(bits), big));
    hide *;
    if SameBits(a, b, bits) {
      if n != 0 {
        var k := SomeBit(n);
        var j := WordDiffers(a, b, bits, big, k);
        SameBit(a, b, bits, j);
      }
    } else {
      var j := FirstDifference(a, b, bits);
      WordDetects(a, b, bits, big, j);
      BitOfZero(HostIndex(j, big));
    }
  }

  lemma SameBit(a: bytes, b: bytes, bits: nat, j: nat)
    requires bits <= 8 * |a| && bits <= 8 * |b| && SameBits(a, b, bits) && j < bits
    ensures NetBit(a, j) == NetBit(b, j)
  {
  }

  lemma FirstDifference(a: bytes, b: bytes, bits: nat) returns (j: nat)
    requires bits <= 8 * |a| && bits <= 8 * |b| && !SameBits(a, b, bits)
    ensures j < bits && NetBit(a, j) != NetBit(b, j)
  {
    j :| j < bits && NetBit(a, j) != NetBit(b, j);
  }

  /** A bit set in the masked difference is a difference within the prefix. */
  lemma WordDiffers(a: bytes, b: bytes, bits: nat, big: bool, k: nat) returns (j: nat)
    requires |a| == |b| == 4 && 1 <= bits <= 31
    requires Bit(And(Xor(HostWord(a, big), HostWord(b, big)), Htonl(Mask(bits), big)), k)
    ensures j < bits && NetBit(a, j) != NetBit(b, j)
  {
    hide HostWord, And, Xor, Htonl, Mask;
    AndBit(Xor(HostWord(a, big), HostWord(b, big)), Htonl(Mask(bits), big), k);
    if k >= 32 {
      MaskWordBound(bits, big, k);
      assert false;
    }
    XorBit(HostWord(a, big), HostWord(b, big), k);
    WordBit(a, big, k);
    WordBit(b, big, k);
    MaskBitAt(bits, big, k);
    NetIndexParts(k, big);
    j := NetIndex(k, big);
  }

  /** A difference within the prefix sets a bit. */
  lemma WordDetects(a: bytes, b: bytes, bits: nat, big: bool, j: nat)
    requires |a| == |b| == 4 && 1 <= bits <= 31 && j < bits && NetBit(a, j) != NetBit(b, j)
    ensures Bit(And(Xor(HostWord(a, big), HostWord(b, big)), Htonl(Mask(bits), big)), HostIndex(j, big))
  {
    hide HostWord, And, Xor, Htonl, Mask;
    var k := HostIndex(j, big);
    AndBit(Xor(HostWord(a, big), HostWord(b, big)), Htonl(Mask(bits), big), k);
    XorBit(HostWord(a, big), HostWord(b, big), k);
    WordBit(a, big, k);
    WordBit(b, big, k);
    MaskBitAt(bits, big, k);
    NetIndexParts(k, big);
  }

  /** The place in network order of bit `k` of a word in memory, and back. */
  function NetIndex(k: nat, big: bool): (j: nat)
    requires k < 32
    ensures j < 32
  {
    8 * (if big then 3 - k / 8 else k / 8) + (7 - k % 8)
  }

  function HostIndex(j: nat, big: bool): (k: nat)
    requires j < 32
    ensures k < 32 && NetIndex(k, big) == j
  {
    8 * (if big then 3 - j / 8 else j / 8) + (7 - j % 8)
  }

  lemma NetIndexParts(k: nat, big: bool)
    requires k < 32
    ensures var j := NetIndex(k, big);
      j / 8 == (if big then 3 - k / 8 else k / 8) && 7 - j % 8 == k % 8
  {
  }

  lemma MaskBitAt(bits: nat, big: bool, k: nat)
    requires 1 <= bits <= 31 && k < 32
    ensures Bit(Htonl(Mask(bits), big), k) == (NetIndex(k, big) < bits)
  {
    var p := if big then 3 - k / 8 else k / 8;
    hide Mask, HostWord;
    WordBit(Octets(Mask(bits)), big, k);
    hide Octets;
    OctetsBit(Mask(bits), p, k % 8);
    MaskBits(bits, 8 * (3 - p) + k % 8);
  }

  lemma MaskWordBound(bits: nat, big: bool, k: nat)
    requires 1 <= bits <= 31 && k >= 32
    ensures !Bit(Htonl(Mask(bits), big), k)
  {
    hide Mask, Octets;
    WordHighBits(Octets(Mask(bits)), big, k);
  }

  lemma WordHighBits(b: bytes, big: bool, k: nat)
    requires |b| == 4 && k >= 32
    ensures !Bit(HostWord(b, big), k)
  {
    var c := if big then [b[3], b[2], b[1], b[0]] else b;
    BitOfSum(c[0], c[1] as int + 0x100 * (c[2] as int + 0x100 * c[3] as int), k);
    BitOfSum(c[1], c[2] as int + 0x100 * c[3] as int, k - 8);
    BitOfSum(c[2], c[3], k - 16);
    BitOfSum(c[3], 0, k - 24);
    BitOfZero(k - 32);
  }

  /** Whole bytes agree exactly when all their bits do. */
  lemma BytesMatch(a: bytes, b: bytes, n: nat)
    requires n <= |a| && n <= |b|
    ensures a[..n] == b[..n] <==> SameBits(a, b, 8 * n)
  {
    if a[..n] == b[..n] {
      assert forall i :: 0 <= i < n ==> a[i] == a[..n][i] == b[..n][i] == b[i];
    } else if SameBits(a, b, 8 * n) {
      forall i | 0 <= i < n ensures a[i] == b[i] {
        forall k | 0 <= k < 8 ensures Bit(a[i], k) == Bit(b[i], k) {
          var j := 8 * i + (7 - k);
          assert j / 8 == i && j % 8 == 7 - k;
          assert NetBit(a, j) == NetBit(b, j);
        }
        PowersOfTwo();
        BitsDetermine(a[i], b[i], 8);
      }
      assert false;
    }
  }

  /** `inet_addr_match` is 0 exactly when the first `bits` bits agree in network
      order, for every prefix length and on either host. */
  lemma MatchIsPrefix(a: address, b: address, bits: nat, big: bool)
    requires bits <= 8 * DATA_SIZE
    ensures InetAddrMatch(a, b, bits, big) ==
            if SameBits(a, b, bits) then 0 else if SameBits(a, b, bits / 32 * 32) then 1 else -1
  {
    var words, rest := bits / 32, bits % 32;
    BytesMatch(a, b, 4 * words);
    assert 8 * (4 * words) == bits / 32 * 32;
    if rest != 0 {
      var n := 4 * words;
      WordMatch(a[n..n + 4], b[n..n + 4], rest, big);
      SplitBits(a, b, n, rest);
    }
  }

  lemma SplitBits(a: bytes, b: bytes, n: nat, rest: nat)
    requires |a| == |b| && n + 4 <= |a| && rest < 32
    ensures SameBits(a, b, 8 * n + rest) <==> SameBits(a, b, 8 * n) && SameBits(a[n..n + 4], b[n..n + 4], rest)
  {
    forall j {:trigger NetBit(a[n..n + 4], j)} | 0 <= j < rest
      ensures NetBit(a[n..n + 4], j) == NetBit(a, 8 * n + j) && NetBit(b[n..n + 4], j) == NetBit(b, 8 * n + j)
    {
      assert (8 * n + j) / 8 == n + j / 8 && (8 * n + j) % 8 == j % 8;
    }
    if SameBits(a, b, 8 * n) && SameBits(a[n..n + 4], b[n..n + 4], rest) {
      forall j | 0 <= j < 8 * n + rest ensures NetBit(a, j) == NetBit(b, j) {
        if j >= 8 * n {
          assert NetBit(a[n..n + 4], j - 8 * n) == NetBit(b[n..n + 4], j - 8 * n);
        }
      }
    }
  }

  /** For a fixed length the match is an equivalence, the same on both hosts, and
      a longer match implies every shorter one. */
  lemma MatchLaws(a: address, b: address, c: address, bits: nat, shorter: nat, big: bool, big': bool)
    requires shorter <= bits <= 8 * DATA_SIZE
    ensures InetAddrMatch(a, a, bits, big) == 0
    ensures InetAddrMatch(a, b, bits, big) == 0 ==> InetAddrMatch(b, a, bits, big) == 0
    ensures InetAddrMatch(a, b, bits, big) == 0 && InetAddrMatch(b, c, bits, big) == 0 ==>
              InetAddrMatch(a, c, bits, big) == 0
    ensures InetAddrMatch(a, b, bits, big) == 0 ==> InetAddrMatch(a, b, shorter, big) == 0
    ensures InetAddrMatch(a, b, bits, big) == 0 <==> InetAddrMatch(a, b, bits, big') == 0
  {
    hide InetAddrMatch;
    MatchIsPrefix(a, a, bits, big);
    MatchIsPrefix(a, b, bits, big);
    MatchIsPrefix(b, a, bits, big);
    MatchIsPrefix(b, c, bits, big);
    MatchIsPrefix(a, c, bits, big);
    MatchIsPrefix(a, b, shorter, big);
    MatchIsPrefix(a, b, bits, big');
  }
}
