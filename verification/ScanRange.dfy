/**
 Which addresses a scan visits (LanDeviceScanner.kt:62-80, LanDeviceScanner.swift:27-40).

 Kotlin computes in signed 32-bit integers, Swift in 64-bit ones.
 */
module ScanRange {
  import opened Bytes
  import opened BitOps

  type address32 = a: nat | a < TWO_TO_THE_32

  // ---- The subnet -----------------------------------------------------------

  function HostBits(prefix: nat): nat
    requires prefix <= 32
  {
    32 - prefix
  }

  function Size(prefix: nat): (s: nat)
    requires prefix <= 32
    ensures s > 0
  {
    Pow2(HostBits(prefix))
  }

  /** An address of the subnet of `ip` other than its network and broadcast addresses. */
  predicate IsHost(ip: address32, prefix: nat, a: address32)
    requires prefix <= 32
  {
    var size := Size(prefix);
    a / size == ip / size && a % size != 0 && a % size != size - 1
  }

  function Network(ip: address32, prefix: nat): (n: nat)
    requires prefix <= 32
    ensures n <= ip
  {
    ModBounds(ip, Size(prefix));
    ip - ip % Size(prefix)
  }

  lemma ModBounds(x: nat, m: nat)
    requires m > 0
    ensures x % m <= x && x % m < m
    ensures x == x / m * m + x % m
  {
    var q := x / m;
    assert q >= 0 && q * m >= 0;
  }

  // ---- Kotlin's integers ----------------------------------------------------

  predicate IsInt(x: int) {
    -0x8000_0000 <= x <= MAX_INT
  }

  function Unsigned(x: int): address32 {
    x % TWO_TO_THE_32
  }

  /** The low 32 bits, as a signed number. */
  function ToInt(x: int): (r: int)
    ensures IsInt(r)
  {
    Signed32(Unsigned(x))
  }

  lemma UnsignedToInt(x: int)
    ensures Unsigned(ToInt(x)) == Unsigned(x)
  {
  }

  /** `shl` and `shr` use the low five bits of the distance. */
  function Shl(x: int, d: nat): int {
    ToInt(x * Pow2(d % 32))
  }

  function Shr(x: int, d: nat): int {
    x / Pow2(d % 32)
  }

  function AndInt(a: int, b: int): int {
    ToInt(And(Unsigned(a), Unsigned(b)))
  }

  /** `2.0.pow(hostBits).toInt()` saturates. */
  function PowToInt(bits: nat): int {
    if Pow2(bits) > MAX_INT then MAX_INT else Pow2(bits)
  }

  function NetmaskKt(prefix: nat): int
    requires prefix <= 32
  {
    Shl(Shr(-1, HostBits(prefix)), HostBits(prefix))
  }

  function FirstAddressKt(ipv4: int, prefix: nat): int
    requires prefix <= 32
  {
    ToInt(AndInt(ipv4, NetmaskKt(prefix)) + 1)
  }

  function NumberOfHostsKt(prefix: nat): int
    requires prefix <= 32
  {
    PowToInt(HostBits(prefix)) - 2
  }

  function Workers(prefix: nat): nat
    requires prefix <= 32
  {
    HostBits(prefix) * 4
  }

  /** `index + firstAddress`. */
  function AddressKt(ipv4: int, prefix: nat, index: nat): int
    requires prefix <= 32
  {
    ToInt(index + FirstAddressKt(ipv4, prefix))
  }

  // ---- Swift's --------------------------------------------------------------

  function NetmaskSw(prefix: nat): nat
    requires prefix <= 32
  {
    And(0xFFFF_FFFF * Size(prefix), 0xFFFF_FFFF)
  }

  function NumberOfHostsSw(prefix: nat): int
    requires prefix <= 32
  {
    Pow2(HostBits(prefix)) - 2
  }

  function AddressSw(ipv4: address32, prefix: nat, index: nat): nat
    requires prefix <= 32
  {
    And(ipv4, NetmaskSw(prefix)) + 1 + index
  }

  // ---- Masks ----------------------------------------------------------------

  lemma {:induction false} AndHighMask(x: nat, h: nat, m: nat)
    requires h <= m && x < Pow2(m)
    ensures Pow2(h) <= Pow2(m)
    ensures And(x, Pow2(m) - Pow2(h)) == x - x % Pow2(h)
  {
    hide And;
    if h == 0 {
      AndLowMask(x, m);
      SmallMod(x, Pow2(m));
      assert Pow2(0) == 1;
    } else {
      var p, q := Pow2(m - 1), Pow2(h - 1);
      assert Pow2(m) == 2 * p && Pow2(h) == 2 * q;
      hide Pow2;
      AndHighMask(x / 2, h - 1, m - 1);
      AndEvenMask(x, p - q);
      HalfMod(x, q);
    }
  }

  lemma AndEvenMask(x: nat, b: nat)
    ensures And(x, 2 * b) == 2 * And(x / 2, b)
  {
  }

  lemma SmallMod(x: nat, m: nat)
    requires x < m
    ensures x % m == x
  {
  }

  /** Masking an address with the subnet's mask gives its network address. */
  lemma MaskGivesNetwork(ip: address32, prefix: nat)
    requires prefix <= 32
    ensures Size(prefix) <= TWO_TO_THE_32
    ensures And(ip, TWO_TO_THE_32 - Size(prefix)) == Network(ip, prefix)
  {
    PowersOfTwo();
    AndHighMask(ip, HostBits(prefix), 32);
    hide And, Pow2;
  }

  // ---- Both computations give the same addresses -----------------------------

  /** The subnet does not run past the last address. */
  lemma SubnetFits(ip: address32, prefix: nat)
    requires prefix <= 32
    ensures Network(ip, prefix) + Size(prefix) <= TWO_TO_THE_32
  {
    PowAdd(HostBits(prefix), prefix);
    PowersOfTwo();
    hide Pow2;
    LastMultiple(ip, Size(prefix), Pow2(prefix));
  }

  lemma LastMultiple(x: nat, s: nat, t: nat)
    requires s > 0 && x < s * t
    ensures x - x % s + s <= s * t
  {
    ModBounds(x, s);
    QuotientBound(x / s, s, t, x);
  }

  lemma QuotientBound(q: nat, s: nat, t: nat, x: nat)
    requires q * s <= x < s * t
    ensures q * s + s <= s * t
  {
    if q < t {
      MulMonotone(q + 1, t, s);
    } else {
      MulMonotone(t, q, s);
    }
  }

  lemma MulMonotone(a: nat, b: nat, s: nat)
    requires a <= b
    ensures a * s <= b * s
  {
  }

  lemma SizeBounds(prefix: nat)
    requires prefix <= 32
    ensures Size(prefix) <= TWO_TO_THE_32
    ensures prefix >= 1 ==> Size(prefix) <= 0x8000_0000
    ensures prefix >= 2 ==> Size(prefix) <= 0x4000_0000
    ensures prefix == 1 ==> Size(prefix) == 0x8000_0000
    ensures prefix == 0 ==> Size(prefix) == TWO_TO_THE_32
  {
    PowersOfTwo();
    var p := Pow2(32 - prefix);
    if prefix >= 1 { assert Pow2(32) == 2 * Pow2(31); PowMonotone(32 - prefix, 31); } else { PowMonotone(32, 32); }
    if prefix >= 2 { assert Pow2(31) == 2 * Pow2(30); PowMonotone(32 - prefix, 30); }
  }

  lemma {:induction false} PowMonotone(a: nat, b: nat)
    requires a <= b
    ensures Pow2(a) <= Pow2(b)
  {
    if a < b { PowMonotone(a, b - 1); }
  }

  lemma NetmaskKtValue(prefix: nat)
    requires 1 <= prefix <= 32
    ensures Unsigned(NetmaskKt(prefix)) == TWO_TO_THE_32 - Size(prefix)
  {
    var h := HostBits(prefix);
    var s: int := Size(prefix);
    SizeBounds(prefix);
    assert h % 32 == h;
    hide Pow2;
    ModUnique(-1, s, -1, s - 1);
    assert Shr(-1, h) == -1;
    UnsignedToInt(-s);
  }

  lemma UnsignedAdd(a: int, b: int)
    ensures Unsigned(a + ToInt(b)) == Unsigned(a + b)
  {
  }

  /** A Kotlin address is, as an unsigned number, the network address plus one plus
      the index, in the 32-bit ring. */
  lemma AddressKtValue(ipv4: int, prefix: nat, index: nat)
    requires IsInt(ipv4) && 1 <= prefix <= 32
    ensures Unsigned(AddressKt(ipv4, prefix, index)) == Unsigned(Network(Unsigned(ipv4), prefix) + 1 + index)
  {
    hide *;
    var network := Network(Unsigned(ipv4), prefix);
    AddressKtShape(ipv4, prefix, index);
    var masked := ToInt(network);
    UnsignedToInt(index + ToInt(masked + 1));
    UnsignedAdd(index, masked + 1);
    UnsignedAdd(index + 1, network);
    assert index + (masked + 1) == (index + 1) + masked && (index + 1) + network == network + 1 + index;
  }

  lemma AddressKtShape(ipv4: int, prefix: nat, index: nat)
    requires IsInt(ipv4) && 1 <= prefix <= 32
    ensures AddressKt(ipv4, prefix, index) == ToInt(index + ToInt(ToInt(Network(Unsigned(ipv4), prefix)) + 1))
  {
    hide And, Network, NetmaskKt, ToInt, Unsigned;
    NetmaskKtValue(prefix);
    MaskGivesNetwork(Unsigned(ipv4), prefix);
  }

  lemma AddressSwValue(ipv4: address32, prefix: nat, index: nat)
    requires prefix <= 32
    ensures AddressSw(ipv4, prefix, index) == Network(ipv4, prefix) + 1 + index
  {
    NetmaskSwValue(prefix);
    MaskGivesNetwork(ipv4, prefix);
    hide And, Pow2, Network;
  }

  lemma LowMask32(x: nat)
    ensures And(x, 0xFFFF_FFFF) == x % TWO_TO_THE_32
  {
    PowersOfTwo();
    hide And, Pow2;
    AndLowMask(x, 32);
  }

  lemma NetmaskSwValue(prefix: nat)
    requires prefix <= 32
    ensures Size(prefix) <= TWO_TO_THE_32 && NetmaskSw(prefix) == TWO_TO_THE_32 - Size(prefix)
  {
    SizeBounds(prefix);
    PowersOfTwo();
    hide And, Pow2, Size;
    LowMask32(0xFFFF_FFFF * Size(prefix));
    Complement(Size(prefix));
  }

  lemma Complement(s: nat)
    requires 1 <= s <= TWO_TO_THE_32
    ensures 0xFFFF_FFFF * s % TWO_TO_THE_32 == TWO_TO_THE_32 - s
  {
    ModUnique(0xFFFF_FFFF * s, TWO_TO_THE_32, s - 1, TWO_TO_THE_32 - s);
  }

  /** The hosts are the addresses strictly between network and broadcast. */
  lemma HostRange(ip: address32, prefix: nat, a: address32)
    requires prefix <= 32
    ensures IsHost(ip, prefix, a) <==> Network(ip, prefix) < a < Network(ip, prefix) + Size(prefix) - 1
  {
    var s, n := Size(prefix), Network(ip, prefix);
    hide Size;
    ModBounds(ip, s);
    ModBounds(a, s);
    if n <= a < n + s {
      ModUnique(a, s, ip / s, a - n);
    }
  }

  // ---- The workers ----------------------------------------------------------

  /** `threadIndex until numberOfHosts step scanThreads`. */
  function Indices(t: nat, n: int, step: nat): seq<nat>
    requires step > 0
    decreases n - t
  {
    if t >= n then [] else [t] + Indices(t + step, n, step)
  }

  /** The loop of one Kotlin worker, when nothing cancels it. */
  method WorkerLoop(ipv4: int, prefix: nat, threadIndex: nat) returns (visited: seq<int>)
    requires prefix <= 32 && threadIndex < Workers(prefix)
    ensures visited == Addresses(ipv4, prefix, Indices(threadIndex, NumberOfHostsKt(prefix), Workers(prefix)))
  {
    var n, step, firstAddress := NumberOfHostsKt(prefix), Workers(prefix), FirstAddressKt(ipv4, prefix);
    StridesAreAddresses(ipv4, prefix, threadIndex, n, step);
    visited := Stride(firstAddress, threadIndex, n, step);
  }

  method Stride(firstAddress: int, threadIndex: nat, n: int, step: nat) returns (visited: seq<int>)
    requires step > 0
    ensures visited == Strides(firstAddress, threadIndex, n, step)
  {
    hide *;
    visited := [];
    var index := threadIndex;
    while index < n
      invariant visited + Strides(firstAddress, index, n, step) == Strides(firstAddress, threadIndex, n, step)
    {
      StridesStep(firstAddress, index, n, step, visited);
      visited := visited + [ToInt(index + firstAddress)];
      index := index + step;
    }
    StridesEnd(firstAddress, index, n, step);
  }

  function Strides(firstAddress: int, index: nat, n: int, step: nat): seq<int>
    requires step > 0
    decreases n - index
  {
    if index < n then [ToInt(index + firstAddress)] + Strides(firstAddress, index + step, n, step) else []
  }

  lemma StridesStep(firstAddress: int, index: nat, n: int, step: nat, visited: seq<int>)
    requires step > 0 && index < n
    ensures visited + Strides(firstAddress, index, n, step)
         == visited + [ToInt(index + firstAddress)] + Strides(firstAddress, index + step, n, step)
  {
    hide ToInt;
  }

  lemma StridesEnd(firstAddress: int, index: nat, n: int, step: nat)
    requires step > 0 && index >= n
    ensures Strides(firstAddress, index, n, step) == []
  {
  }

  lemma {:induction false} StridesAreAddresses(ipv4: int, prefix: nat, index: nat, n: int, step: nat)
    requires prefix <= 32 && step > 0
    ensures Strides(FirstAddressKt(ipv4, prefix), index, n, step) == Addresses(ipv4, prefix, Indices(index, n, step))
    decreases n - index
  {
    hide ToInt, FirstAddressKt, Addresses;
    if index < n {
      StridesAreAddresses(ipv4, prefix, index + step, n, step);
      AddressesCons(ipv4, prefix, index, Indices(index + step, n, step));
    } else {
      AddressesNil(ipv4, prefix);
    }
  }

  lemma AddressesNil(ipv4: int, prefix: nat)
    requires prefix <= 32
    ensures Addresses(ipv4, prefix, []) == []
  {
  }

  function Addresses(ipv4: int, prefix: nat, indices: seq<nat>): (r: seq<int>)
    requires prefix <= 32
    ensures |r| == |indices|
  {
    seq(|indices|, i requires 0 <= i < |indices| => AddressKt(ipv4, prefix, indices[i]))
  }

  lemma AddressesCons(ipv4: int, prefix: nat, i: nat, rest: seq<nat>)
    requires prefix <= 32
    ensures Addresses(ipv4, prefix, [i] + rest) == [AddressKt(ipv4, prefix, i)] + Addresses(ipv4, prefix, rest)
  {
    hide AddressKt;
  }

  lemma {:induction false} IndicesMember(t: nat, n: int, step: nat, i: nat)
    requires step > 0
    ensures i in Indices(t, n, step) <==> t <= i < n && (i - t) % step == 0
    decreases n - t
  {
    if t < n {
      IndicesMember(t + step, n, step, i);
      if i > t { ModStep(i - t, step); }
    }
  }

  lemma ModStep(x: int, m: nat)
    requires x > 0 && m > 0
    ensures (x - m) % m == x % m && (x % m == 0 ==> x >= m)
  {
    ModUnique(x - m, m, x / m - 1, x % m);
    if x < m { SmallMod(x, m); }
  }

  /** Each index belongs to one worker, which meets it once. */
  lemma {:induction false} IndicesIncrease(t: nat, n: int, step: nat, j: nat, k: nat)
    requires step > 0 && j < k < |Indices(t, n, step)|
    ensures t <= Indices(t, n, step)[j] < Indices(t, n, step)[k]
    decreases n - t
  {
    var rest := Indices(t + step, n, step);
    if j > 0 {
      IndicesIncrease(t + step, n, step, j - 1, k - 1);
    } else {
      assert Indices(t, n, step)[k] == rest[k - 1];
      assert rest[k - 1] in rest;
      IndicesMember(t + step, n, step, rest[k - 1]);
    }
  }

  lemma OneWorker(n: int, step: nat, i: nat)
    requires step > 0 && i < n
    ensures forall t: nat :: t < step ==> (i in Indices(t, n, step) <==> t == i % step)
  {
    forall t: nat | t < step ensures i in Indices(t, n, step) <==> t == i % step {
      IndicesMember(t, n, step, i);
      if t <= i {
        if (i - t) % step == 0 { ModUnique(i, step, (i - t) / step, t); }
        if t == i % step { ModUnique(i - t, step, i / step, 0); }
      } else {
        SmallMod(i, step);
      }
    }
  }

  // ---- Exact coverage -------------------------------------------------------

  /** What worker `t` of a complete scan of the subnet of `ip` should visit. */
  function Visited(ip: address32, prefix: nat, t: nat): seq<int>
    requires prefix <= 32 && t < Workers(prefix)
  {
    After(Network(ip, prefix) + 1, Indices(t, Size(prefix) - 2, Workers(prefix)))
  }

  function After(first: int, indices: seq<nat>): (r: seq<int>)
    ensures |r| == |indices|
    ensures forall j :: 0 <= j < |r| ==> r[j] == first + indices[j]
  {
    seq(|indices|, j requires 0 <= j < |indices| => first + indices[j])
  }

  function VisitedKt(ipv4: int, prefix: nat, t: nat): seq<int>
    requires prefix <= 32 && t < Workers(prefix)
  {
    Addresses(ipv4, prefix, Indices(t, NumberOfHostsKt(prefix), Workers(prefix)))
  }

  function VisitedSw(ipv4: address32, prefix: nat, t: nat): seq<int>
    requires prefix <= 32 && t < Workers(prefix)
  {
    var indices := Indices(t, NumberOfHostsSw(prefix), Workers(prefix));
    seq(|indices|, j requires 0 <= j < |indices| => AddressSw(ipv4, prefix, indices[j]))
  }

  function AsUnsigned(s: seq<int>): (r: seq<int>)
    ensures |r| == |s|
    ensures forall j :: 0 <= j < |s| ==> r[j] == Unsigned(s[j])
  {
    seq(|s|, j requires 0 <= j < |s| => Unsigned(s[j]))
  }

  /** The workers between them visit each host of the subnet, nothing else, and nothing twice. */
  lemma ExactCoverage(ip: address32, prefix: nat, a: address32)
    requires prefix <= 32
    ensures IsHost(ip, prefix, a) <==> exists t :: 0 <= t < Workers(prefix) && a in Visited(ip, prefix, t)
  {
    var n, step, first := Size(prefix) - 2, Workers(prefix), Network(ip, prefix) + 1;
    HostRange(ip, prefix, a);
    assert step == 0 ==> Size(prefix) == 1;
    hide IsHost, Size, Network, Workers, Indices;
    if IsHost(ip, prefix, a) {
      var i := a - first;
      OneWorker(n, step, i);
      var t := i % step;
      assert i in Indices(t, n, step);
      var j :| 0 <= j < |Indices(t, n, step)| && Indices(t, n, step)[j] == i;
      assert Visited(ip, prefix, t)[j] == a;
    }
    if t :| 0 <= t < step && a in Visited(ip, prefix, t) {
      var j :| 0 <= j < |Visited(ip, prefix, t)| && Visited(ip, prefix, t)[j] == a;
      var i := Indices(t, n, step)[j];
      IndicesMember(t, n, step, i);
    }
  }

  lemma IndexOnce(n: int, step: nat, t: nat, u: nat, j: nat, k: nat)
    requires t < step && u < step
    requires j < |Indices(t, n, step)| && k < |Indices(u, n, step)|
    requires Indices(t, n, step)[j] == Indices(u, n, step)[k]
    ensures t == u && j == k
  {
    var i := Indices(t, n, step)[j];
    assert i in Indices(t, n, step) && i in Indices(u, n, step);
    IndicesMember(t, n, step, i);
    OneWorker(n, step, i);
    if j < k { IndicesIncrease(t, n, step, j, k); }
    if k < j { IndicesIncrease(t, n, step, k, j); }
  }

  lemma VisitedOnce(ip: address32, prefix: nat, t: nat, u: nat, j: nat, k: nat)
    requires prefix <= 32 && t < Workers(prefix) && u < Workers(prefix)
    requires j < |Visited(ip, prefix, t)| && k < |Visited(ip, prefix, u)|
    requires Visited(ip, prefix, t)[j] == Visited(ip, prefix, u)[k]
    ensures t == u && j == k
  {
    hide Size, Network, Indices;
    IndexOnce(Size(prefix) - 2, Workers(prefix), t, u, j, k);
  }

  /** Whatever the prefix length, the Kotlin scan visits no address twice. */
  lemma VisitedOnceKt(ipv4: int, prefix: nat, t: nat, u: nat, j: nat, k: nat)
    requires prefix <= 32 && t < Workers(prefix) && u < Workers(prefix)
    requires j < |VisitedKt(ipv4, prefix, t)| && k < |VisitedKt(ipv4, prefix, u)|
    requires Unsigned(VisitedKt(ipv4, prefix, t)[j]) == Unsigned(VisitedKt(ipv4, prefix, u)[k])
    ensures t == u && j == k
  {
    hide FirstAddressKt, Indices, Unsigned, ToInt, Pow2;
    var n, step, first := NumberOfHostsKt(prefix), Workers(prefix), FirstAddressKt(ipv4, prefix);
    var i, i' := Indices(t, n, step)[j], Indices(u, n, step)[k];
    assert i in Indices(t, n, step) && i' in Indices(u, n, step);
    IndicesMember(t, n, step, i);
    IndicesMember(u, n, step, i');
    SameInRing(i, i', first);
    IndexOnce(n, step, t, u, j, k);
  }

  lemma SameInRing(i: nat, j: nat, first: int)
    requires i < MAX_INT && j < MAX_INT && Unsigned(ToInt(i + first)) == Unsigned(ToInt(j + first))
    ensures i == j
  {
    UnsignedToInt(i + first);
    UnsignedToInt(j + first);
    hide ToInt;
  }

  lemma SwiftVisits(ip: address32, prefix: nat, t: nat)
    requires prefix <= 32 && t < Workers(prefix)
    ensures VisitedSw(ip, prefix, t) == Visited(ip, prefix, t)
  {
    var indices := Indices(t, NumberOfHostsSw(prefix), Workers(prefix));
    assert NumberOfHostsSw(prefix) == Size(prefix) - 2;
    hide AddressSw, Network, Size, Indices, NumberOfHostsSw;
    forall j | 0 <= j < |indices|
      ensures AddressSw(ip, prefix, indices[j]) == Network(ip, prefix) + 1 + indices[j]
    {
      AddressSwValue(ip, prefix, indices[j]);
    }
  }

  lemma NumberOfHostsKtValue(prefix: nat)
    requires 2 <= prefix <= 32
    ensures NumberOfHostsKt(prefix) == Size(prefix) - 2
  {
    SizeBounds(prefix);
    hide Pow2;
  }

  lemma AddressIsHost(ipv4: int, prefix: nat, index: nat)
    requires IsInt(ipv4) && 2 <= prefix <= 32 && index < NumberOfHostsKt(prefix)
    ensures Unsigned(AddressKt(ipv4, prefix, index)) == Network(Unsigned(ipv4), prefix) + 1 + index
  {
    hide *;
    NumberOfHostsKtValue(prefix);
    SubnetFits(Unsigned(ipv4), prefix);
    AddressKtValue(ipv4, prefix, index);
    InRing(Network(Unsigned(ipv4), prefix) + 1 + index);
  }

  /** From prefix length 2 up, 32-bit signed arithmetic visits the same addresses in the same order. */
  lemma KotlinVisits(ipv4: int, prefix: nat, t: nat)
    requires IsInt(ipv4) && 2 <= prefix <= 32 && t < Workers(prefix)
    ensures AsUnsigned(VisitedKt(ipv4, prefix, t)) == Visited(Unsigned(ipv4), prefix, t)
  {
    hide AddressKt, Network, Size, Indices, NumberOfHostsKt, Unsigned, AsUnsigned, After;
    var ip := Unsigned(ipv4);
    var n, step := NumberOfHostsKt(prefix), Workers(prefix);
    NumberOfHostsKtValue(prefix);
    var indices := Indices(t, n, step);
    forall j | 0 <= j < |indices|
      ensures Unsigned(AddressKt(ipv4, prefix, indices[j])) == Network(ip, prefix) + 1 + indices[j]
    {
      assert indices[j] in indices;
      IndicesMember(t, n, step, indices[j]);
      AddressIsHost(ipv4, prefix, indices[j]);
    }
  }

  lemma InRing(x: nat)
    requires x < TWO_TO_THE_32
    ensures Unsigned(x) == x
  {
  }

  ghost predicate CoversKt(ipv4: int, prefix: nat)
    requires IsInt(ipv4) && prefix <= 32
  {
    forall a: address32 :: IsHost(Unsigned(ipv4), prefix, a) <==> Scanned(ipv4, prefix, a)
  }

  /** Some worker has the address on its list. */
  predicate Scanned(ipv4: int, prefix: nat, a: int)
    requires prefix <= 32
  {
    exists t :: 0 <= t < Workers(prefix) && a in AsUnsigned(VisitedKt(ipv4, prefix, t))
  }

  /** The Kotlin scan covers its subnet exactly when the prefix length is at least 2. */
  lemma KotlinCoversIff(ipv4: int, prefix: nat)
    requires IsInt(ipv4) && prefix <= 32
    ensures CoversKt(ipv4, prefix) <==> prefix >= 2
  {
    var ip := Unsigned(ipv4);
    if prefix >= 2 {
      hide IsHost, AsUnsigned, VisitedKt, Visited, Unsigned, Workers;
      forall a: address32 ensures IsHost(ip, prefix, a) <==> Scanned(ipv4, prefix, a) {
        forall t | 0 <= t < Workers(prefix) ensures AsUnsigned(VisitedKt(ipv4, prefix, t)) == Visited(ip, prefix, t) {
          KotlinVisits(ipv4, prefix, t);
        }
        ExactCoverage(ip, prefix, a);
      }
    } else {
      var a := Missed(ip, prefix);
      MissedIsHost(ip, prefix);
      hide IsHost, AsUnsigned, VisitedKt, Unsigned, Workers, Missed;
      forall t | 0 <= t < Workers(prefix) ensures a !in AsUnsigned(VisitedKt(ipv4, prefix, t)) {
        MissedIsNotVisited(ipv4, prefix, t);
      }
    }
  }

  /** A host that the saturated count leaves out. */
  function Missed(ip: address32, prefix: nat): address32
    requires prefix < 2
  {
    if prefix == 1 then ip / 0x8000_0000 * 0x8000_0000 + 0x7FFF_FFFE
    else if ip == 0x8000_0000 || ip == MAX_INT then ip
    else Unsigned(ip + 0x8000_0000)
  }

  lemma MissedIsHost(ip: address32, prefix: nat)
    requires prefix < 2
    ensures IsHost(ip, prefix, Missed(ip, prefix))
  {
    SizeBounds(prefix);
    hide Size, Pow2;
  }

  lemma MissedIsNotVisited(ipv4: int, prefix: nat, t: nat)
    requires IsInt(ipv4) && prefix < 2 && t < Workers(prefix)
    ensures Missed(Unsigned(ipv4), prefix) !in AsUnsigned(VisitedKt(ipv4, prefix, t))
  {
    var n, step := NumberOfHostsKt(prefix), Workers(prefix);
    var indices, a := Indices(t, n, step), Missed(Unsigned(ipv4), prefix);
    hide AddressKt, NumberOfHostsKt, Indices, Missed, Unsigned;
    forall j | 0 <= j < |indices| ensures Unsigned(AddressKt(ipv4, prefix, indices[j])) != a {
      assert indices[j] in indices;
      IndicesMember(t, n, step, indices[j]);
      IndexMisses(ipv4, prefix, indices[j]);
    }
  }

  lemma IndexMisses(ipv4: int, prefix: nat, index: nat)
    requires IsInt(ipv4) && prefix < 2 && index < NumberOfHostsKt(prefix)
    ensures Unsigned(AddressKt(ipv4, prefix, index)) != Missed(Unsigned(ipv4), prefix)
  {
    hide *;
    var ip := Unsigned(ipv4);
    SaturatedCount(prefix);
    if prefix == 1 {
      AddressKtValue(ipv4, prefix, index);
      HalfNetwork(ip);
      HalfRange(ip, index);
    } else {
      WholeRange(ipv4, index);
      WholeMiss(ip, index);
    }
  }

  lemma SaturatedCount(prefix: nat)
    requires prefix < 2
    ensures NumberOfHostsKt(prefix) == MAX_INT - 2
  {
    SizeBounds(prefix);
    hide Pow2;
  }

  lemma HalfNetwork(ip: address32)
    ensures Network(ip, 1) == ip - ip % 0x8000_0000
  {
    SizeBounds(1);
    hide Size;
  }

  lemma WholeMiss(ip: address32, index: nat)
    requires index < MAX_INT - 2
    ensures Unsigned(ip + 1 + index) != Missed(ip, 0)
  {
  }

  lemma HalfRange(ip: address32, index: nat)
    requires index < MAX_INT - 2
    ensures Unsigned(ip - ip % 0x8000_0000 + 1 + index) != Missed(ip, 1)
  {
  }

  /** With prefix length 0 the shift distance 32 acts as 0: the mask keeps the whole address. */
  lemma WholeRange(ipv4: int, index: nat)
    requires IsInt(ipv4)
    ensures Unsigned(AddressKt(ipv4, 0, index)) == Unsigned(Unsigned(ipv4) + 1 + index)
  {
    hide *;
    var ip := Unsigned(ipv4);
    WholeShape(ipv4, index);
    UnsignedToInt(index + ToInt(ToInt(ip) + 1));
    UnsignedAdd(index, ToInt(ip) + 1);
    UnsignedAdd(index + 1, ip);
    assert index + (ToInt(ip) + 1) == (index + 1) + ToInt(ip) && (index + 1) + ip == ip + 1 + index;
  }

  lemma WholeShape(ipv4: int, index: nat)
    requires IsInt(ipv4)
    ensures AddressKt(ipv4, 0, index) == ToInt(index + ToInt(ToInt(Unsigned(ipv4)) + 1))
  {
    hide ToInt, And, Pow2, NetmaskKt, Unsigned, Shl, Shr;
    NoMask();
    AllOnes(Unsigned(ipv4));
  }

  lemma AllOnes(a: address32)
    ensures And(a, Unsigned(-1)) == a
  {
    LowMask32(a);
    hide And;
  }

  lemma NoMask()
    ensures NetmaskKt(0) == -1
  {
    assert Pow2(0) == 1;
  }

  // ---- The bytes of an address ------------------------------------------------

  /** `BigInteger.toByteArray`: the shortest big-endian two's complement. */
  function MinBytes(v: int): (r: seq<byte>)
    ensures |r| >= 1
    decreases if v < 0 then -v else v
  {
    if -128 <= v < 128 then [v % 256] else MinBytes(v / 256) + [v % 256]
  }

  /** `InetAddress.getByAddress` takes four bytes; it gets them exactly when the signed
      address is outside [-2^23, 2^23), and then they are the octets of the address. */
  lemma FourBytesIff(v: int)
    requires IsInt(v)
    ensures |MinBytes(v)| <= 4
    ensures |MinBytes(v)| == 4 <==> v < -0x80_0000 || v >= 0x80_0000
    ensures |MinBytes(v)| == 4 ==> MinBytes(v) == Octets(Unsigned(v))
  {
    var x, y, z := v / 256, v / 256 / 256, v / 256 / 256 / 256;
    assert -0x80_0000 <= x < 0x80_0000 && -0x8000 <= y < 0x8000 && -0x80 <= z < 0x80;
    assert MinBytes(z) == [z % 256];
    if -0x80_0000 <= v < 0x80_0000 {
      assert MinBytes(y) == [y % 256];
    } else {
      assert MinBytes(y) == [z % 256] + [y % 256];
      assert MinBytes(x) == [z % 256] + [y % 256] + [x % 256];
      assert MinBytes(v) == [z % 256, y % 256, x % 256, v % 256];
      OctetsOfSigned(v);
    }
  }

  lemma OctetsOfSigned(v: int)
    requires IsInt(v)
    ensures Octets(Unsigned(v)) == [v / 256 / 256 / 256 % 256, v / 256 / 256 % 256, v / 256 % 256, v % 256]
  {
    var x, y, z := v / 256, v / 256 / 256, v / 256 / 256 / 256;
    var p, q, r := v % 256, x % 256, y % 256;
    var top := if v < 0 then z + 256 else z;
    assert -128 <= z < 128 && (z < 0 <==> v < 0);
    var u := Unsigned(v);
    ModUnique(v, TWO_TO_THE_32, if v < 0 then -1 else 0, if v < 0 then v + TWO_TO_THE_32 else v);
    ModUnique(z, 256, if v < 0 then -1 else 0, top);
    assert v == 256 * x + p && x == 256 * y + q && y == 256 * z + r;
    OctetsOfNetLong([top, r, q, p]);
    assert u == NetLong([top, r, q, p]);
    hide *;
  }

  function Margin(prefix: nat): nat
    requires prefix <= 32
  {
    if Size(prefix) > 0x80_0000 then Size(prefix) else 0x80_0000
  }

  /** The subnet keeps clear of both ends of the address space, or has no hosts. */
  predicate KeepsClear(ip: address32, prefix: nat)
    requires prefix <= 32
  {
    prefix >= 31 || Margin(prefix) <= ip < TWO_TO_THE_32 - Margin(prefix)
  }

  /** A scan builds four bytes for every host exactly when its subnet keeps clear of both
      ends of the address space. */
  lemma EveryHostHasFourBytesIff(ip: address32, prefix: nat)
    requires 2 <= prefix <= 32
    ensures (forall a: address32 :: IsHost(ip, prefix, a) ==> |MinBytes(ToInt(a))| == 4) <==> KeepsClear(ip, prefix)
  {
    if prefix >= 31 {
      forall a: address32 ensures !IsHost(ip, prefix, a) { NoHosts(ip, prefix, a); }
    } else {
      HostsHaveFourBytesIff(ip, prefix);
    }
    hide IsHost, MinBytes, ToInt, Margin;
  }

  lemma NoHosts(ip: address32, prefix: nat, a: address32)
    requires 31 <= prefix <= 32
    ensures !IsHost(ip, prefix, a)
  {
    HostRange(ip, prefix, a);
    assert Pow2(1) == 2 && Pow2(0) == 1;
    hide IsHost, Network;
  }

  lemma HostsHaveFourBytesIff(ip: address32, prefix: nat)
    requires 2 <= prefix <= 30
    ensures (forall a: address32 :: IsHost(ip, prefix, a) ==> |MinBytes(ToInt(a))| == 4)
            <==> Margin(prefix) <= ip < TWO_TO_THE_32 - Margin(prefix)
  {
    var network, size := Network(ip, prefix), Size(prefix);
    SubnetFits(ip, prefix);
    ClearOfEnds(ip, prefix);
    hide IsHost, MinBytes, ToInt, Margin, Network, Size;
    var clear := 0x80_0000 <= network + 1 && network + size - 2 < TWO_TO_THE_32 - 0x80_0000;
    if clear {
      forall a: address32 | IsHost(ip, prefix, a) ensures |MinBytes(ToInt(a))| == 4 {
        HostRange(ip, prefix, a);
        FourBytesIn(a);
      }
    } else {
      var a := if network + 1 < 0x80_0000 then network + 1 else network + size - 2;
      HostRange(ip, prefix, a);
      FourBytesIn(a);
    }
  }

  lemma FourBytesIn(a: address32)
    ensures |MinBytes(ToInt(a))| == 4 <==> 0x80_0000 <= a < TWO_TO_THE_32 - 0x80_0000
  {
    hide MinBytes, ToInt;
    FourBytesIff(ToInt(a));
    SmallSigned(a);
  }

  lemma SmallSigned(a: address32)
    ensures -0x80_0000 <= ToInt(a) < 0x80_0000 <==> a < 0x80_0000 || a >= TWO_TO_THE_32 - 0x80_0000
  {
    InRing(a);
    hide Unsigned;
  }

  lemma ClearOfEnds(ip: address32, prefix: nat)
    requires 2 <= prefix <= 30
    ensures Size(prefix) >= 4
    ensures Margin(prefix) <= ip < TWO_TO_THE_32 - Margin(prefix)
            <==> 0x80_0000 <= Network(ip, prefix) + 1
                 && Network(ip, prefix) + Size(prefix) - 2 < TWO_TO_THE_32 - 0x80_0000
  {
    var s, q, r := Size(prefix), ip / Size(prefix), ip % Size(prefix);
    var t, k := SizeDivides(prefix);
    ModBounds(ip, s);
    assert Network(ip, prefix) == q * s;
    hide *;
    Blocks(s, t, k, q, r);
  }

  lemma SizeDivides(prefix: nat) returns (t: nat, k: nat)
    requires 2 <= prefix <= 30
    ensures Size(prefix) >= 4 && k >= 1
    ensures t * Size(prefix) == TWO_TO_THE_32
    ensures k * Size(prefix) == Margin(prefix) && Margin(prefix) >= 0x80_0000
    ensures k > 1 ==> Margin(prefix) == 0x80_0000
  {
    hide Pow2;
    var h := HostBits(prefix);
    Pow23();
    PowMonotone(2, h);
    PowAdd(prefix, h);
    t := Pow2(prefix);
    if h <= 23 {
      k := Pow2(23 - h);
      PowAdd(23 - h, h);
      PowMonotone(h, 23);
      PowMonotone(0, 23 - h);
    } else {
      k := 1;
      PowMonotone(23, h);
    }
  }

  lemma Pow23()
    ensures Pow2(0) == 1 && Pow2(2) == 4 && Pow2(23) == 0x80_0000 && Pow2(32) == TWO_TO_THE_32
  {
    PowersOfTwo();
    assert Pow2(8) == 2 * Pow2(7);
    assert Pow2(1) == 2;
    PowAdd(16, 7);
  }

  lemma Blocks(s: nat, t: nat, k: nat, q: nat, r: nat)
    requires s >= 4 && k >= 1 && r < s && q * s + r < TWO_TO_THE_32
    requires t * s == TWO_TO_THE_32
    requires k * s >= 0x80_0000 && (k > 1 ==> k * s == 0x80_0000)
    ensures k * s <= q * s + r < TWO_TO_THE_32 - k * s
            <==> 0x80_0000 <= q * s + 1 && q * s + s - 2 < TWO_TO_THE_32 - 0x80_0000
  {
    Block(s, k, q, r);
    Block(s, k, t - 1 - q, s - 1 - r) by { BlockOf(s, t, q, r); }
    BlockOf(s, t, q, r);
  }

  lemma BlockOf(s: nat, t: nat, q: nat, r: nat)
    requires r < s && q * s + r < t * s
    ensures q < t && (t - 1 - q) * s == t * s - s - q * s
  {
    if q >= t { MulMonotone(t, q, s); }
  }

  lemma Block(s: nat, k: nat, q: nat, r: nat)
    requires s >= 4 && k >= 1 && r < s
    requires k * s >= 0x80_0000 && (k > 1 ==> k * s == 0x80_0000)
    ensures k * s <= q * s + r <==> q >= k
    ensures 0x80_0000 <= q * s + 1 <==> q >= k
  {
    if q >= k {
      MulMonotone(k, q, s);
    } else {
      MulMonotone(q, k - 1, s);
    }
  }
}
