/** Bitwise operations on unsigned numbers, defined bit by bit, and what they come to for masks. */
module Bits {

  function Pow2(k: nat): (p: nat)
    ensures p > 0
  {
    if k == 0 then 1 else 2 * Pow2(k - 1)
  }

  function And(a: nat, b: nat): nat {
    if a == 0 || b == 0 then 0
    else 2 * And(a / 2, b / 2) + if a % 2 == 1 && b % 2 == 1 then 1 else 0
  }

  function Or(a: nat, b: nat): nat {
    if a == 0 then b
    else if b == 0 then a
    else 2 * Or(a / 2, b / 2) + if a % 2 == 1 || b % 2 == 1 then 1 else 0
  }

  lemma {:induction false} HalfOfMultiple(a: nat, p: nat)
    requires p > 0 && a % (2 * p) == 0
    ensures a % 2 == 0 && (a / 2) % p == 0
  {
    var q := a / (2 * p);
    assert a == 2 * (p * q);
    assert a / 2 == p * q;
    RemainderUnique(p * q, p, q, 0);
  }

  lemma {:induction false} ModOfHalf(a: nat, p: nat)
    requires p > 0
    ensures a % (2 * p) == 2 * ((a / 2) % p) + a % 2
  {
    var h := a / 2;
    var q, r := h / p, h % p;
    assert a == 2 * h + a % 2 && h == p * q + r;
    assert a == (2 * p) * q + (2 * r + a % 2);
    RemainderUnique(a, 2 * p, q, 2 * r + a % 2);
  }

  lemma {:induction false} RemainderUnique(a: nat, d: nat, q: nat, r: nat)
    requires d > 0 && r < d && a == d * q + r
    ensures a % d == r && a / d == q
  {
    var q', r' := a / d, a % d;
    if q' < q {
      MulMonotone(d, q' + 1, q);
    } else if q < q' {
      MulMonotone(d, q + 1, q');
    }
  }

  lemma {:induction false} MulMonotone(d: nat, x: nat, y: nat)
    requires x <= y
    ensures d * x <= d * y
  {
  }

  lemma {:induction false} Powers()
    ensures Pow2(7) == 0x80 && Pow2(9) == 0x200 && Pow2(12) == 0x1000 && Pow2(21) == 0x20_0000
    ensures Pow2(16) == 0x1_0000 && Pow2(30) == 0x4000_0000 && Pow2(31) == 0x8000_0000
    ensures Pow2(39) == 0x80_0000_0000 && Pow2(64) == 0x1_0000_0000_0000_0000
  {
    assert Pow2(3) == 8;
    PowSum(3, 4);
    PowSum(7, 2);
    PowSum(7, 9);
    PowSum(9, 3);
    PowSum(12, 9);
    PowSum(21, 9);
    PowSum(30, 9);
    PowSum(30, 1);
    PowSum(39, 9);
    PowSum(48, 4);
    PowSum(52, 12);
  }

  lemma {:induction false} PowSum(a: nat, b: nat)
    ensures Pow2(a + b) == Pow2(a) * Pow2(b)
  {
    if b == 0 {
    } else {
      PowSum(a, b - 1);
      MulDouble(Pow2(a), Pow2(b - 1));
    }
  }

  lemma {:induction false} MulDouble(x: nat, y: nat)
    ensures 2 * (x * y) == x * (2 * y)
  {
  }

  /** Or-ing flags into the low bits of an aligned number adds them. */
  lemma {:induction false} OrIsSum(a: nat, b: nat, k: nat)
    requires a % Pow2(k) == 0 && b < Pow2(k)
    ensures Or(a, b) == a + b
    decreases k
  {
    if k == 0 || a == 0 || b == 0 {
    } else {
      HalfOfMultiple(a, Pow2(k - 1));
      OrIsSum(a / 2, b / 2, k - 1);
    }
  }

  lemma {:induction false} OrBelow(a: nat, b: nat, k: nat)
    requires a < Pow2(k) && b < Pow2(k)
    ensures Or(a, b) < Pow2(k)
    decreases k
  {
    if k == 0 || a == 0 || b == 0 {
    } else {
      OrBelow(a / 2, b / 2, k - 1);
    }
  }

  lemma {:induction false} AndHalves(a: nat, x: nat, r: nat, y: nat, t: nat)
    requires a == 2 * x + r && r < 2 && t < 2
    ensures And(a, 2 * y + t) == 2 * And(x, y) + if r == 1 && t == 1 then 1 else 0
  {
    assert a / 2 == x && (2 * y + t) / 2 == y;
  }

  /** Masking with `2^w - 2^k` clears the `k` low bits of a `w`-bit number. */
  lemma {:induction false} AndHighMask(a: nat, w: nat, k: nat)
    requires k <= w && a < Pow2(w)
    ensures Pow2(k) <= Pow2(w) && And(a, Pow2(w) - Pow2(k)) == a - a % Pow2(k)
    decreases w
  {
    hide And, Pow2;
    PowZero();
    AndZero(a);
    if w == 0 {
    } else {
      PowNext(w);
      AndHighMask(a / 2, w - 1, if k > 0 then k - 1 else 0);
      if k > 0 {
        PowNext(k);
        HighMaskStep(a, Pow2(w - 1), Pow2(k - 1));
      } else {
        AndHalves(a, a / 2, a % 2, Pow2(w - 1) - 1, 1);
      }
    }
  }

  lemma {:induction false} PowZero()
    ensures Pow2(0) == 1
  {
  }

  lemma {:induction false} AndZero(a: nat)
    ensures And(a, 0) == 0
  {
  }

  lemma {:induction false} PowNext(k: nat)
    requires k > 0
    ensures Pow2(k) == 2 * Pow2(k - 1)
  {
  }

  lemma {:induction false} HighMaskStep(a: nat, h: nat, q: nat)
    requires 0 < q <= h && And(a / 2, h - q) == a / 2 - (a / 2) % q
    ensures And(a, 2 * h - 2 * q) == a - a % (2 * q)
  {
    hide And;
    ModOfHalf(a, q);
    AndHalves(a, a / 2, a % 2, h - q, 0);
  }

  /** Masking with `2^k - 1` keeps the `k` low bits. */
  lemma {:induction false} AndLowMask(a: nat, k: nat)
    ensures And(a, Pow2(k) - 1) == a % Pow2(k)
    decreases k
  {
    if k == 0 {
    } else {
      hide And;
      var p := Pow2(k - 1);
      assert Pow2(k) == 2 * p;
      hide Pow2;
      AndLowMask(a / 2, k - 1);
      ModOfHalf(a, p);
      AndHalves(a, a / 2, a % 2, p - 1, 1);
    }
  }

  /** Masking with `2^k` reads bit `k`. */
  lemma {:induction false} AndBit(a: nat, k: nat)
    ensures And(a, Pow2(k)) != 0 <==> (a / Pow2(k)) % 2 == 1
    decreases k
  {
    if k == 0 {
      assert And(a, 1) == a % 2;
    } else {
      AndBit(a / 2, k - 1);
      DivideTwice(a, 2, Pow2(k - 1));
    }
  }

  lemma {:induction false} DivideTwice(a: nat, d: nat, p: nat)
    requires d > 0 && p > 0
    ensures d * p > 0 && a / (d * p) == a / d / p
  {
    var h, low := a / d, a % d;
    var q, r := h / p, h % p;
    Euclid(a, d);
    Euclid(h, p);
    Regroup(d, p, q, r, h);
    MulMonotone(d, r + 1, p);
    RemainderUnique(a, d * p, q, d * r + low);
  }

  lemma {:induction false} Euclid(a: nat, d: nat)
    requires d > 0
    ensures a == d * (a / d) + a % d && a % d < d
  {
  }

  lemma {:induction false} Regroup(d: nat, p: nat, q: nat, r: nat, h: nat)
    requires h == p * q + r
    ensures d * h == (d * p) * q + d * r && d * (r + 1) == d * r + d
  {
  }

  /** Or-ing `2^k` sets bit `k`. */
  lemma {:induction false} OrBit(a: nat, k: nat)
    ensures Or(a, Pow2(k)) == if (a / Pow2(k)) % 2 == 1 then a else a + Pow2(k)
    decreases k
  {
    if k > 0 && a != 0 {
      OrBit(a / 2, k - 1);
      DivideTwice(a, 2, Pow2(k - 1));
    } else if a == 0 {
      RemainderUnique(0, Pow2(k), 0, 0);
    }
  }

  /** Masking a `w`-bit number with all ones but bit `k` clears bit `k`. */
  lemma {:induction false} AndNotBit(a: nat, w: nat, k: nat)
    requires k < w && a < Pow2(w)
    ensures Pow2(k) < Pow2(w)
    ensures And(a, Pow2(w) - 1 - Pow2(k)) == if (a / Pow2(k)) % 2 == 1 then a - Pow2(k) else a
    decreases w
  {
    hide And;
    var h := Pow2(w - 1);
    if k == 0 {
      AndHighMask(a / 2, w - 1, 0);
      AndHalves(a, a / 2, a % 2, h - 1, 0);
    } else {
      var q := Pow2(k - 1);
      AndNotBit(a / 2, w - 1, k - 1);
      DivideTwice(a, 2, q);
      AndHalves(a, a / 2, a % 2, h - 1 - q, 1);
    }
  }

  // Bit by bit.

  function Bit(a: nat, k: nat): nat {
    a / Pow2(k) % 2
  }

  lemma {:induction false} NextBit(a: nat, k: nat)
    ensures Bit(a, 0) == a % 2 && Bit(a, k + 1) == Bit(a / 2, k)
  {
    DivideTwice(a, 2, Pow2(k));
    assert Pow2(k + 1) == 2 * Pow2(k);
  }

  lemma {:induction false} ZeroBit(k: nat)
    ensures Bit(0, k) == 0
  {
    RemainderUnique(0, Pow2(k), 0, 0);
  }

  /** Bit `k` of the conjunction and of the disjunction of any two numbers. */
  lemma {:induction false} BitsOf(a: nat, b: nat, k: nat)
    ensures Bit(And(a, b), k) == 1 <==> Bit(a, k) == 1 && Bit(b, k) == 1
    ensures Bit(Or(a, b), k) == 1 <==> Bit(a, k) == 1 || Bit(b, k) == 1
    decreases k
  {
    hide Bit;
    ZeroBit(k);
    if a == 0 || b == 0 {
    } else {
      HalvesOf(a, b);
      if k == 0 {
        NextBit(a, 0);
        NextBit(b, 0);
        NextBit(And(a, b), 0);
        NextBit(Or(a, b), 0);
      } else {
        BitsOf(a / 2, b / 2, k - 1);
        NextBit(a, k - 1);
        NextBit(b, k - 1);
        NextBit(And(a, b), k - 1);
        NextBit(Or(a, b), k - 1);
      }
    }
  }

  lemma {:induction false} HalvesOf(a: nat, b: nat)
    requires a > 0 && b > 0
    ensures And(a, b) / 2 == And(a / 2, b / 2) && Or(a, b) / 2 == Or(a / 2, b / 2)
    ensures And(a, b) % 2 == (if a % 2 == 1 && b % 2 == 1 then 1 else 0)
    ensures Or(a, b) % 2 == (if a % 2 == 1 || b % 2 == 1 then 1 else 0)
  {
  }
}
