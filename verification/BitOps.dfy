/** Bitwise operations on natural numbers, defined bit by bit. */
module BitOps {

  function Pow2(k: nat): (p: nat)
    ensures p >= 1
  {
    if k == 0 then 1 else 2 * Pow2(k - 1)
  }

  /** Bit `k` of `n`, counting from the least significant. */
  predicate Bit(n: nat, k: nat) {
    if k == 0 then n % 2 == 1 else Bit(n / 2, k - 1)
  }

  function And(a: nat, b: nat): (r: nat) {
    if a == 0 || b == 0 then 0
    else (if a % 2 == 1 && b % 2 == 1 then 1 else 0) + 2 * And(a / 2, b / 2)
  }

  function Xor(a: nat, b: nat): (r: nat)
    decreases a + b
  {
    if a == 0 then b
    else if b == 0 then a
    else (if a % 2 != b % 2 then 1 else 0) + 2 * Xor(a / 2, b / 2)
  }

  lemma {:induction false} AndBounds(a: nat, b: nat)
    ensures And(a, b) <= a && And(a, b) <= b
  {
    if a != 0 && b != 0 {
      AndBounds(a / 2, b / 2);
    }
  }

  lemma {:induction false} BitOfZero(k: nat)
    ensures !Bit(0, k)
  {
    if k > 0 { BitOfZero(k - 1); }
  }

  lemma {:induction false} AndBit(a: nat, b: nat, k: nat)
    ensures Bit(And(a, b), k) == (Bit(a, k) && Bit(b, k))
  {
    if a == 0 || b == 0 {
      BitOfZero(k);
    } else if k > 0 {
      AndBit(a / 2, b / 2, k - 1);
      assert And(a, b) / 2 == And(a / 2, b / 2);
    }
  }

  lemma {:induction false} XorBit(a: nat, b: nat, k: nat)
    ensures Bit(Xor(a, b), k) == (Bit(a, k) != Bit(b, k))
    decreases k
  {
    if a == 0 || b == 0 {
      BitOfZero(k);
    } else if k > 0 {
      XorBit(a / 2, b / 2, k - 1);
      assert Xor(a, b) / 2 == Xor(a / 2, b / 2);
    }
  }

  /** A non-zero number has a bit set. */
  lemma {:induction false} SomeBit(n: nat) returns (k: nat)
    requires n != 0
    ensures Bit(n, k)
  {
    if n % 2 == 1 {
      k := 0;
    } else {
      var j := SomeBit(n / 2);
      k := j + 1;
    }
  }

  /** Masking with 2^k - 1 keeps the low `k` bits. */
  lemma {:induction false} AndLowMask(a: nat, k: nat)
    ensures And(a, Pow2(k) - 1) == a % Pow2(k)
  {
    hide And, Pow2;
    if k == 0 || a == 0 {
      AndLowMaskBase(a, k);
    } else {
      AndLowMask(a / 2, k - 1);
      AndLowMaskStep(a, k);
    }
  }

  lemma AndLowMaskBase(a: nat, k: nat)
    requires k == 0 || a == 0
    ensures And(a, Pow2(k) - 1) == 0 == a % Pow2(k)
  {
    if k != 0 {
      ModUnique(0, Pow2(k), 0, 0);
    }
  }

  lemma AndLowMaskStep(a: nat, k: nat)
    requires k > 0
    requires And(a / 2, Pow2(k - 1) - 1) == a / 2 % Pow2(k - 1)
    ensures And(a, Pow2(k) - 1) == a % Pow2(k)
  {
    var p := Pow2(k - 1);
    assert Pow2(k) == 2 * p;
    hide And, Pow2;
    AndOddMask(a, p);
    HalfMod(a, p);
  }

  lemma AndOddMask(a: nat, p: nat)
    requires p > 0
    ensures And(a, 2 * p - 1) == a % 2 + 2 * And(a / 2, p - 1)
  {
    assert (2 * p - 1) % 2 == 1 && (2 * p - 1) / 2 == p - 1;
  }

  lemma HalfMod(a: nat, p: nat)
    requires p > 0
    ensures a % (2 * p) == a % 2 + 2 * (a / 2 % p)
  {
    var q, r := a / 2 / p, a / 2 % p;
    assert a == 2 * (p * q + r) + a % 2 == (2 * p) * q + (2 * r + a % 2);
    ModUnique(a, 2 * p, q, 2 * r + a % 2);
  }

  lemma ModUnique(a: int, m: int, q: int, r: int)
    requires m > 0 && 0 <= r < m && a == m * q + r
    ensures a % m == r && a / m == q
  {
    SmallMultiple(m, q - a / m, a % m - r);
  }

  lemma SmallMultiple(m: int, t: int, r: int)
    requires m * t == r && -m < r < m
    ensures t == 0 && r == 0
  {
  }

  /** `a & ~b` on 16-bit values. */
  function AndNot16(a: nat, b: nat): nat {
    And(a, 0xFFFF - b % 0x1_0000)
  }

  lemma AndNot16Bound(a: nat, b: nat)
    ensures AndNot16(a, b) <= a
  {
    AndBounds(a, 0xFFFF - b % 0x1_0000);
  }

  lemma AndNot16None(a: nat)
    requires a < 0x1_0000
    ensures AndNot16(a, 0) == a
  {
    hide And;
    PowersOfTwo();
    AndLowMask(a, 16);
  }

  lemma PowersOfTwo()
    ensures Pow2(8) == 0x100 && Pow2(16) == 0x1_0000 && Pow2(32) == 0x1_0000_0000
  {
    PowAdd(4, 4);
    PowAdd(8, 8);
    PowAdd(16, 16);
  }

  lemma {:induction false} PowAdd(a: nat, b: nat)
    ensures Pow2(a + b) == Pow2(a) * Pow2(b)
  {
    if a > 0 {
      PowAdd(a - 1, b);
      assert Pow2(a + b) == 2 * Pow2(a - 1 + b);
    }
  }
}
