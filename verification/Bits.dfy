/** Bitwise AND and complement on naturals, and the masks built from powers of two. */
module Bits {
  import opened Bytes

  function Pow2(k: nat): (r: nat)
    ensures r > 0
  {
    if k == 0 then 1 else 2 * Pow2(k - 1)
  }

  /** Bitwise AND, bit by bit from the least significant end. */
  function BitAnd(x: nat, y: nat): (r: nat)
    ensures r <= x
    ensures r <= y
  {
    if x == 0 || y == 0 then 0 else 2 * BitAnd(x / 2, y / 2) + (if x % 2 == 1 && y % 2 == 1 then 1 else 0)
  }

  /** Complement in `n` bits. */
  function BitNot(n: nat, x: nat): (r: nat)
    requires x < Pow2(n)
  {
    Pow2(n) - 1 - x
  }

  lemma {:induction false} Pow2Of64()
    ensures Pow2(64) == TWO_64
  {
    assert Pow2(4) == 16;
    Pow2Double(4);
    Pow2Double(8);
    Pow2Double(16);
    Pow2Double(32);
  }

  lemma {:induction false} Pow2Sum(a: nat, b: nat)
    ensures Pow2(a + b) == Pow2(a) * Pow2(b)
  {
    if a == 0 {
    } else {
      Pow2Sum(a - 1, b);
      assert Pow2(a) * Pow2(b) == 2 * (Pow2(a - 1) * Pow2(b));
    }
  }

  lemma {:induction false} Pow2Double(a: nat)
    ensures Pow2(a + a) == Pow2(a) * Pow2(a)
  {
    Pow2Sum(a, a);
  }

  lemma {:induction false} Pow2Monotone(a: nat, b: nat)
    requires a <= b
    ensures Pow2(a) <= Pow2(b)
    decreases b
  {
    if a < b {
      Pow2Monotone(a, b - 1);
    }
  }

  /** Smaller powers of two divide larger ones. */
  lemma {:induction false} Pow2Divides(a: nat, b: nat)
    requires a <= b
    ensures Pow2(b) % Pow2(a) == 0
  {
    Pow2Sum(b - a, a);
    MultipleMod(Pow2(b - a), Pow2(a));
  }

  lemma {:induction false} MultipleMod(q: nat, d: nat)
    requires d > 0
    ensures (q * d) % d == 0
  {
    ModUnique(q * d, d, q, 0);
  }

  lemma {:induction false} AtLeastOneMultiple(k: int, d: int)
    requires d > 0
    ensures k >= 1 ==> k * d >= d
    ensures k <= -1 ==> k * d <= -d
  {
  }

  lemma {:induction false} OneMore(a: int, x: int)
    ensures a * (x + 1) == a * x + a
  {
  }

  lemma {:induction false} Distribute(a: int, b: int, d: int)
    ensures (a - b) * d == a * d - b * d
    ensures (a + b) * d == a * d + b * d
  {
  }

  lemma {:induction false} BitAndSelf(x: nat)
    ensures BitAnd(x, x) == x
  {
    if x > 0 {
      BitAndSelf(x / 2);
    }
  }

  /** A mask and its complement split a number into two disjoint parts. */
  lemma {:induction false} MaskSplit(n: nat, x: nat, m: nat)
    requires x < Pow2(n) && m < Pow2(n)
    ensures BitAnd(x, BitNot(n, m)) + BitAnd(x, m) == x
  {
    if x == 0 {
    } else {
      MaskSplit(n - 1, x / 2, m / 2);
      assert BitNot(n, m) / 2 == BitNot(n - 1, m / 2);
      assert BitNot(n, m) % 2 == 1 - m % 2;
      assert m == 0 ==> BitAnd(x / 2, m / 2) == 0;
    }
  }

  /** Masking with 2^k - 1 is the remainder modulo 2^k. */
  lemma {:induction false} LowMask(x: nat, k: nat)
    ensures BitAnd(x, Pow2(k) - 1) == x % Pow2(k)
    decreases k
  {
    if k == 0 {
    } else {
      LowMask(x / 2, k - 1);
      var p := Pow2(k - 1);
      assert x % (2 * p) == 2 * ((x / 2) % p) + x % 2 by { HalveMod(x, p); }
      assert (Pow2(k) - 1) / 2 == p - 1;
    }
  }

  lemma {:induction false} HalveMod(x: nat, p: nat)
    requires p > 0
    ensures x % (2 * p) == 2 * ((x / 2) % p) + x % 2
  {
    var q, r := (x / 2) / p, (x / 2) % p;
    assert x / 2 == q * p + r;
    assert x == q * (2 * p) + (2 * r + x % 2);
    ModUnique(x, 2 * p, q, 2 * r + x % 2);
  }

  lemma {:induction false} ModUnique(x: int, d: int, q: int, r: int)
    requires d > 0 && x == q * d + r && 0 <= r < d
    ensures x % d == r && x / d == q
  {
    var q' := x / d;
    Distribute(q, q', d);
    AtLeastOneMultiple(q - q', d);
  }

  lemma {:induction false} OddPower(x: nat, k: nat)
    requires x > 1 && x % 2 == 1
    ensures x != Pow2(k)
  {
    if k > 0 {
      assert Pow2(k) == 2 * Pow2(k - 1);
    }
  }

  lemma {:induction false} OddNotPower(x: nat)
    requires x > 1 && x % 2 == 1
    ensures BitAnd(x, x - 1) != 0 && !exists k: nat :: x == Pow2(k)
  {
    BitAndSelf(x / 2);
    assert (x - 1) / 2 == x / 2;
    forall k: nat ensures x != Pow2(k) {
      OddPower(x, k);
    }
  }

  lemma {:induction false} EvenHalves(x: nat)
    requires x > 0 && x % 2 == 0
    ensures BitAnd(x, x - 1) == 2 * BitAnd(x / 2, x / 2 - 1)
  {
    assert (x - 1) / 2 == x / 2 - 1;
  }

  lemma {:induction false} EvenPower(x: nat)
    requires x > 0 && x % 2 == 0
    ensures (exists k: nat :: x == Pow2(k)) <==> exists k: nat :: x / 2 == Pow2(k)
  {
    if exists k: nat :: x == Pow2(k) {
      var k: nat :| x == Pow2(k);
      HalfPower(k);
      assert x / 2 == Pow2(k - 1);
    }
    if exists k: nat :: x / 2 == Pow2(k) {
      var k: nat :| x / 2 == Pow2(k);
      assert x == Pow2(k + 1);
    }
  }

  lemma {:induction false} HalfPower(k: nat)
    requires Pow2(k) % 2 == 0
    ensures k > 0 && Pow2(k) / 2 == Pow2(k - 1)
  {
  }

  /** The classic test: `x & (x - 1)` is zero exactly on powers of two. */
  lemma {:induction false} ClearLowestBit(x: nat)
    requires x > 0
    ensures BitAnd(x, x - 1) == 0 <==> exists k: nat :: x == Pow2(k)
  {
    if x == 1 {
      assert x == Pow2(0);
    } else if x % 2 == 1 {
      OddNotPower(x);
    } else {
      ClearLowestBit(x / 2);
      EvenHalves(x);
      EvenPower(x);
    }
  }
}
