/** Bytes in memory, and the little-endian host integers stored in them. */
module Bytes {

  type byte = n: int | 0 <= n < 256

  type bytes = seq<byte>

  const TWO_TO_THE_16 := 0x1_0000
  const TWO_TO_THE_32 := 0x1_0000_0000

  /** The largest signed 32-bit number. */
  const MAX_INT := 0x7FFF_FFFF

  function Get16(s: bytes, i: nat): (v: nat)
    requires i + 2 <= |s|
    ensures v < TWO_TO_THE_16
  {
    s[i] as int + 0x100 * (s[i + 1] as int)
  }

  function Get32(s: bytes, i: nat): (v: nat)
    requires i + 4 <= |s|
    ensures v < TWO_TO_THE_32
  {
    Get16(s, i) + 0x1_0000 * Get16(s, i + 2)
  }

  /** Storing keeps the low 16 bits, as an assignment to a `__u16` field does. */
  function Put16(v: nat): (s: bytes)
    ensures |s| == 2
    ensures Get16(s, 0) == v % TWO_TO_THE_16
  {
    [v % 0x100, v / 0x100 % 0x100]
  }

  lemma PutGet16(s: bytes, i: nat)
    requires i + 2 <= |s|
    ensures Put16(Get16(s, i)) == s[i..i + 2]
  {
  }

  function Put32(v: nat): (s: bytes)
    ensures |s| == 4
    ensures Get32(s, 0) == v % TWO_TO_THE_32
  {
    var lo, hi := Put16(v), Put16(v / 0x1_0000);
    assert Get16(lo + hi, 0) == Get16(lo, 0) && Get16(lo + hi, 2) == Get16(hi, 0);
    assert v % TWO_TO_THE_32 == v % 0x1_0000 + 0x1_0000 * (v / 0x1_0000 % 0x1_0000);
    lo + hi
  }

  lemma PutGet32(s: bytes, i: nat)
    requires i + 4 <= |s|
    ensures Put32(Get32(s, i)) == s[i..i + 4]
  {
    PutGet16(s, i);
    PutGet16(s, i + 2);
    Halves(Get16(s, i), Get16(s, i + 2));
    hide Put16, Get16;
    assert s[i..i + 4] == s[i..i + 2] + s[i + 2..i + 4];
  }

  lemma Halves(lo: nat, hi: nat)
    requires lo < 0x1_0000
    ensures Put32(lo + 0x1_0000 * hi) == Put16(lo) + Put16(hi)
  {
    var v, a, b := lo + 0x1_0000 * hi, lo / 0x100, lo % 0x100;
    DivMod256(v, a + 0x100 * hi, b);
    DivMod256(a + 0x100 * hi, hi, a);
    assert v / 0x1_0000 == hi;
  }

  lemma DivMod256(v: nat, q: nat, r: nat)
    requires v == 0x100 * q + r && r < 0x100
    ensures v / 0x100 == q && v % 0x100 == r
  {
  }

  /** Four bytes, of an address or of a number in network order. */
  type octets = b: bytes | |b| == 4 witness [0, 0, 0, 0]

  /** The number they stand for: `ntohl` of what a host loads from them. */
  function NetLong(b: octets): (v: nat)
    ensures v < TWO_TO_THE_32
  {
    b[0] as int * 0x100_0000 + b[1] as int * 0x1_0000 + b[2] as int * 0x100 + b[3]
  }

  function Octets(v: nat): octets
    requires v < TWO_TO_THE_32
  {
    [v / 0x100_0000, v / 0x1_0000 % 0x100, v / 0x100 % 0x100, v % 0x100]
  }

  lemma OctetsOfNetLong(b: octets)
    ensures Octets(NetLong(b)) == b
  {
    var v, w, x, y, z := NetLong(b), b[0] as int, b[1] as int, b[2] as int, b[3] as int;
    DivMod256(v, (w * 0x100 + x) * 0x100 + y, z);
    DivMod256((w * 0x100 + x) * 0x100 + y, w * 0x100 + x, y);
    DivMod256(w * 0x100 + x, w, x);
    ThreeDivisions(v);
    hide NetLong;
  }

  lemma NetLongOfOctets(v: nat)
    requires v < TWO_TO_THE_32
    ensures NetLong(Octets(v)) == v
  {
    ThreeDivisions(v);
  }

  lemma ThreeDivisions(v: nat)
    ensures v / 0x1_0000 == v / 0x100 / 0x100 && v / 0x100_0000 == v / 0x100 / 0x100 / 0x100
  {
  }

  /** The two's complement value of a 32-bit pattern, as `*(int *)p` reads it. */
  function Signed32(v: nat): (r: int)
    requires v < TWO_TO_THE_32
    ensures -0x8000_0000 <= r < 0x8000_0000
  {
    if v < 0x8000_0000 then v else v - TWO_TO_THE_32
  }

  /** Both NLMSG_ALIGN and RTA_ALIGN round up to a multiple of four. */
  function Align4(n: nat): (r: nat)
    ensures n <= r < n + 4
  {
    (n + 3) / 4 * 4
  }

  predicate Aligned(n: nat) {
    n % 4 == 0
  }

  lemma Align4Facts(n: nat)
    ensures Aligned(Align4(n))
    ensures Aligned(n) ==> Align4(n) == n
  {
  }

  lemma Align4Twice(n: nat)
    ensures Align4(Align4(n)) == Align4(n)
  {
  }

  lemma AlignedSum(m: nat, n: nat)
    requires Aligned(m) && Aligned(n)
    ensures Aligned(m + n)
  {
  }

  /** `s` with the elements from index `i` on overwritten by `t`. */
  function Splice<T>(s: seq<T>, i: nat, t: seq<T>): (r: seq<T>)
    requires i + |t| <= |s|
    ensures |r| == |s|
  {
    s[..i] + t + s[i + |t|..]
  }

  lemma SpliceParts<T>(s: seq<T>, i: nat, t: seq<T>)
    requires i + |t| <= |s|
    ensures var r := Splice(s, i, t);
      r[..i] == s[..i] && r[i..i + |t|] == t && r[i + |t|..] == s[i + |t|..]
  {
  }

  lemma SpliceIndex<T>(s: seq<T>, i: nat, t: seq<T>)
    requires i + |t| <= |s|
    ensures forall k {:trigger Splice(s, i, t)[k]} :: 0 <= k < |s| ==>
              Splice(s, i, t)[k] == if i <= k < i + |t| then t[k - i] else s[k]
  {
  }

  /** `s` and `s'` agree from index `lo` up to `hi`. */
  ghost predicate Same(s: bytes, s': bytes, lo: nat, hi: nat) {
    hi <= |s| && hi <= |s'| && forall i :: lo <= i < hi ==> s'[i] == s[i]
  }

  /** `s` holds `t` from index `at` on. */
  ghost predicate Wrote(s: bytes, at: nat, t: bytes) {
    at + |t| <= |s| && forall i :: 0 <= i < |t| ==> s[at + i] == t[i]
  }

  /** Stores `t` at index `i`, as `memcpy` or a field assignment does. */
  method Store<T>(a: array<T>, i: nat, t: seq<T>)
    requires i + |t| <= a.Length
    modifies a
    ensures a[..] == Splice(old(a[..]), i, t)
  {
    forall k | 0 <= k < |t| {
      a[i + k] := t[k];
    }
    assert a[..i] == old(a[..])[..i];
    assert a[i + |t|..] == old(a[..])[i + |t|..];
    assert a[i..i + |t|] == t;
    assert a[..] == a[..i] + a[i..i + |t|] + a[i + |t|..];
  }

  function Load16(a: array<byte>, i: nat): (v: nat)
    requires i + 2 <= a.Length
    reads a
  {
    Get16(a[..], i)
  }

  function Load32(a: array<byte>, i: nat): (v: nat)
    requires i + 4 <= a.Length
    reads a
  {
    Get32(a[..], i)
  }

  lemma Get16Within(s: bytes, lo: nat, hi: nat, i: nat)
    requires lo <= hi <= |s| && i + 2 <= hi - lo
    ensures Get16(s[lo..hi], i) == Get16(s, lo + i)
  {
  }

  lemma Get32Within(s: bytes, lo: nat, hi: nat, i: nat)
    requires lo <= hi <= |s| && i + 4 <= hi - lo
    ensures Get32(s[lo..hi], i) == Get32(s, lo + i)
  {
  }
}
