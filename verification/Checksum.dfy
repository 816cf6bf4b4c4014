/** The ICMP checksum (ICMPPing.swift:140-164) against section 1 of RFC 1071. */
module Checksum {
  import opened Bytes
  import opened BitOps
  import opened Common

  const M := 0xFFFF

  // ---- The code -------------------------------------------------------------

  /** The `i`-th 16-bit word of the data as the little-endian host loads it. */
  function WordAt(data: bytes, i: nat): (w: nat)
    requires 2 * i + 2 <= |data|
    ensures w <= M
  {
    Get16(data, 2 * i)
  }

  /** The sum of the first `n` words. */
  function Total(data: bytes, n: nat): (t: nat)
    requires 2 * n <= |data|
  {
    if n == 0 then 0 else Total(data, n - 1) + WordAt(data, n - 1)
  }

  /** The two folds and the complement. */
  function Finish(sum: nat): nat
    requires sum < TWO_TO_THE_32
  {
    var s1 := sum / 0x1_0000 + sum % 0x1_0000;
    var s2 := s1 + s1 / 0x1_0000;
    M - s2 % 0x1_0000
  }

  /** None stands for the trap on overflow. */
  function Checksum(data: bytes): (r: Option<nat>)
    ensures r.Some? ==> r.value <= M
  {
    var sum := Total(data, |data| / 2);
    if sum < TWO_TO_THE_32 then Some(Finish(sum)) else None
  }

  lemma {:induction false} TotalMonotone(data: bytes, m: nat, n: nat)
    requires m <= n && 2 * n <= |data|
    ensures Total(data, m) <= Total(data, n) && Total(data, n) <= M * n
  {
    if n > 0 {
      TotalMonotone(data, if m < n then m else n - 1, n - 1);
    }
  }

  /** `calculateChecksum`: the 32-bit addition traps on overflow. A last odd byte is
      not part of any word. */
  method CalculateChecksum(data: bytes) returns (r: Option<nat>)
    ensures r == Checksum(data)
  {
    var sum := 0;
    for i := 0 to |data| / 2
      invariant sum == Total(data, i) < TWO_TO_THE_32
    {
      TotalMonotone(data, i + 1, |data| / 2);
      sum := sum + WordAt(data, i);
      if sum >= TWO_TO_THE_32 {
        return None;
      }
    }
    sum := sum / 0x1_0000 + sum % 0x1_0000;
    sum := sum + sum / 0x1_0000;
    return Some(M - sum % 0x1_0000);
  }

  /** Up to 65537 words the sum cannot overflow. */
  lemma NeverTraps(data: bytes)
    requires |data| <= 2 * 65537
    ensures Checksum(data).Some? && Total(data, |data| / 2) < TWO_TO_THE_32
  {
    TotalMonotone(data, 0, |data| / 2);
  }

  // ---- The definition -------------------------------------------------------

  /** One's complement addition of 16-bit words: the carry comes around. */
  function OnesAdd(a: nat, b: nat): nat {
    if a + b > M then a + b - M else a + b
  }

  /** The first `n` words of the data in network order, summed. */
  function OnesSum(data: bytes, n: nat): (s: nat)
    requires 2 * n <= |data|
    ensures s <= M
  {
    if n == 0 then 0 else OnesAdd(OnesSum(data, n - 1), NetWordAt(data, n - 1))
  }

  function NetWordAt(data: bytes, i: nat): (w: nat)
    requires 2 * i + 2 <= |data|
    ensures w <= M
  {
    data[2 * i + 1] as int + 0x100 * (data[2 * i] as int)
  }

  /** The checksum as it is defined: two bytes in network order. */
  function Defined(data: bytes): (c: bytes)
    requires |data| % 2 == 0
    ensures |c| == 2
  {
    var c := M - OnesSum(data, |data| / 2);
    [c / 0x100, c % 0x100]
  }

  // ---- One's complement values ----------------------------------------------

  /** The representative of a sum: 0 for 0, else the residue in 1..0xFFFF. */
  function Canon(t: nat): (c: nat)
    ensures c <= M && (c == 0 <==> t == 0)
  {
    if t == 0 then 0 else (t - 1) % M + 1
  }

  lemma CanonSame(a: nat, b: nat, k: int)
    requires a == b + M * k && a > 0 && b > 0
    ensures Canon(a) == Canon(b)
  {
    var q, r := (b - 1) / M, (b - 1) % M;
    assert a - 1 == M * (q + k) + r;
    ModUnique(a - 1, M, q + k, r);
  }

  lemma CanonSmall(t: nat)
    requires t <= M
    ensures Canon(t) == t
  {
  }

  lemma CanonAdd(t: nat, w: nat)
    requires w <= M
    ensures Canon(t + w) == OnesAdd(Canon(t), w)
  {
    if t == 0 {
      CanonSmall(w);
    } else {
      var c := Canon(t);
      var q := (t - 1) / M;
      assert t == c + M * q;
      var s := OnesAdd(c, w);
      CanonSmall(s);
      CanonSame(t + w, s, if c + w > M then q + 1 else q);
    }
  }

  /** Two folds give the representative. */
  lemma FinishIsCanon(t: nat)
    requires t < TWO_TO_THE_32
    ensures Finish(t) == M - Canon(t)
  {
    var s1 := t / 0x1_0000 + t % 0x1_0000;
    assert t == s1 + M * (t / 0x1_0000);
    assert s1 <= 2 * M;
    var r := if s1 > M then s1 - M else s1;
    assert (s1 + s1 / 0x1_0000) % 0x1_0000 == r;
    if t > 0 {
      CanonSmall(r);
      CanonSame(t, r, if s1 > M then t / 0x1_0000 + 1 else t / 0x1_0000);
    }
  }

  // ---- Byte order -----------------------------------------------------------

  function Swap(w: nat): nat
    requires w <= M
  {
    w / 0x100 + 0x100 * (w % 0x100)
  }

  /** The sum of the words in network order. */
  function NetTotal(data: bytes, n: nat): nat
    requires 2 * n <= |data|
  {
    if n == 0 then 0 else NetTotal(data, n - 1) + NetWordAt(data, n - 1)
  }

  function HighBytes(data: bytes, n: nat): nat
    requires 2 * n <= |data|
  {
    if n == 0 then 0 else HighBytes(data, n - 1) + data[2 * n - 1] as int
  }

  lemma {:induction false} TotalsAgree(data: bytes, n: nat)
    requires 2 * n <= |data|
    ensures 0x100 * Total(data, n) == NetTotal(data, n) + M * HighBytes(data, n)
    ensures Total(data, n) == 0 <==> NetTotal(data, n) == 0
  {
    if n > 0 { TotalsAgree(data, n - 1); }
  }

  lemma {:induction false} OnesSumIsCanon(data: bytes, n: nat)
    requires 2 * n <= |data|
    ensures OnesSum(data, n) == Canon(NetTotal(data, n))
  {
    if n > 0 {
      OnesSumIsCanon(data, n - 1);
      CanonAdd(NetTotal(data, n - 1), NetWordAt(data, n - 1));
    }
  }

  /** Summing in either byte order gives the same two bytes. */
  lemma SwappedCanon(data: bytes, n: nat)
    requires 2 * n <= |data|
    ensures Canon(NetTotal(data, n)) == Swap(Canon(Total(data, n)))
  {
    var t, u, h := Total(data, n), NetTotal(data, n), HighBytes(data, n);
    TotalsAgree(data, n);
    if t > 0 {
      var c := Canon(t);
      var q := (t - 1) / M;
      assert t == c + M * q;
      assert 0x100 * c == Swap(c) + M * (c / 0x100);
      assert u == Swap(c) + M * (c / 0x100 + 0x100 * q - h);
      CanonSmall(Swap(c));
      CanonSame(u, Swap(c), c / 0x100 + 0x100 * q - h);
    }
  }

  /** The code's checksum, stored in host order, is the defined one, for any even
      length that does not trap. */
  lemma ChecksumIsDefined(data: bytes)
    requires |data| % 2 == 0 && Checksum(data).Some?
    ensures Put16(Checksum(data).value) == Defined(data)
  {
    var n := |data| / 2;
    var c := Canon(Total(data, n));
    FinishIsCanon(Total(data, n));
    OnesSumIsCanon(data, n);
    SwappedCanon(data, n);
    SwapComplement(c);
    SwapBytes(M - c);
    hide Swap, Put16, Finish, Canon;
  }

  lemma SwapComplement(w: nat)
    requires w <= M
    ensures M - Swap(w) == Swap(M - w)
  {
    var hi, lo := w / 0x100, w % 0x100;
    DivMod256(M - w, 0xFF - hi, 0xFF - lo);
  }

  lemma SwapBytes(w: nat)
    requires w <= M
    ensures Put16(w) == [Swap(w) / 0x100, Swap(w) % 0x100]
  {
    DivMod256(Swap(w), w % 0x100, w / 0x100);
  }

  // ---- Using it -------------------------------------------------------------

  /** Storing a word changes the sum by the difference. */
  lemma {:induction false} TotalSplice(data: bytes, i: nat, c: nat, n: nat)
    requires 2 * n <= |data| && 2 * i + 2 <= |data| && c <= M && WordAt(data, i) == 0
    ensures Total(Splice(data, 2 * i, Put16(c)), n) == Total(data, n) + if i < n then c else 0
  {
    if n > 0 {
      TotalSplice(data, i, c, n - 1);
      SpliceWord(data, i, c, n - 1);
      hide Splice, Put16, WordAt;
    }
  }

  lemma SpliceWord(data: bytes, i: nat, c: nat, j: nat)
    requires 2 * i + 2 <= |data| && 2 * j + 2 <= |data| && c <= M
    ensures WordAt(Splice(data, 2 * i, Put16(c)), j) == if j == i then c else WordAt(data, j)
  {
    var t := Put16(c);
    assert t[0] as int + 0x100 * (t[1] as int) == c;
    SpliceIndex(data, 2 * i, t);
    hide Put16, Splice;
    var r := Splice(data, 2 * i, t);
    assert j == i ==> r[2 * j] == t[0] && r[2 * j + 1] == t[1];
    assert j != i ==> r[2 * j] == data[2 * j] && r[2 * j + 1] == data[2 * j + 1];
  }

  /** With the checksum in its field, which was zero, the checksum is zero. */
  lemma StoredChecksumVerifies(data: bytes, i: nat)
    requires |data| <= 2 * 65537 && 2 * i + 2 <= |data| && WordAt(data, i) == 0
    ensures Checksum(data).Some?
    ensures Checksum(Splice(data, 2 * i, Put16(Checksum(data).value))) == Some(0)
  {
    var n := |data| / 2;
    var t := Total(data, n);
    NeverTraps(data);
    FinishIsCanon(t);
    var c := M - Canon(t);
    TotalSplice(data, i, c, n);
    NeverTraps(Splice(data, 2 * i, Put16(c)));
    hide Splice, Put16, Total, Finish;
    FinishIsCanon(t + c);
    CanonSmall(M);
    if t > 0 {
      CanonSame(t + c, M, (t - 1) / M);
    }
  }

  /** An odd length: the last byte is left out, so the result is that of the data
      padded with a zero byte exactly when that byte is zero. */
  lemma OddLengthIff(data: bytes)
    requires |data| % 2 == 1 && Checksum(data + [0]).Some?
    ensures Checksum(data) == Checksum(data + [0]) <==> data[|data| - 1] == 0
  {
    var n := |data| / 2;
    var b: nat := data[|data| - 1];
    TotalPrefix(data, [0], n);
    assert WordAt(data + [0], n) == b;
    var t := Total(data, n);
    assert Total(data + [0], n + 1) == t + b;
    hide Total, WordAt, Finish, Canon;
    FinishIsCanon(t);
    FinishIsCanon(t + b);
    if b > 0 { CanonMoves(t, b); }
  }

  lemma CanonMoves(t: nat, b: nat)
    requires 0 < b < M
    ensures Canon(t + b) != Canon(t)
  {
    CanonAdd(t, b);
  }

  lemma {:induction false} TotalPrefix(data: bytes, more: bytes, n: nat)
    requires 2 * n <= |data|
    ensures Total(data + more, n) == Total(data, n)
  {
    if n > 0 {
      TotalPrefix(data, more, n - 1);
      assert (data + more)[2 * n - 2] == data[2 * n - 2] && (data + more)[2 * n - 1] == data[2 * n - 1];
    }
  }

  /** `createICMPPacket`: type 8, code 0, the checksum, the identifier, sequence 0. */
  method CreateIcmpPacket(identifier: nat) returns (packet: bytes)
    requires identifier <= M
    ensures packet == [8, 0] + Defined(IcmpHeader(identifier)) + Put16(identifier) + [0, 0]
    ensures Checksum(packet) == Some(0)
  {
    packet := IcmpHeader(identifier);
    var checksum := CalculateChecksum(packet);
    NeverTraps(packet);
    ChecksumIsDefined(packet);
    StoredChecksumVerifies(packet, 1);
    hide Defined, Checksum, Put16;
    ghost var header := packet;
    packet := Splice(packet, 2, Put16(checksum.value));
    assert header[4..] == Put16(identifier) + [0, 0] && header[..2] == [8, 0];
  }

  /** The header with its checksum field zero. */
  function IcmpHeader(identifier: nat): (h: bytes)
    ensures |h| == 8 && WordAt(h, 1) == 0
  {
    [8, 0, 0, 0] + Put16(identifier) + [0, 0]
  }
}
