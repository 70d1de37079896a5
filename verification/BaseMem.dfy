/** `is_pow` and `align` of base/base_mem.c, on 64-bit words. */
module BaseMem {
  import opened Bytes
  import opened Bits

  /** `2 * sizeof(void *)` on a 64-bit machine. */
  const ARENA_ALIGN: u64 := 16

  predicate IsPow(x: u64) {
    BitAnd(x, Wrap(x - 1)) == 0
  }

  /** `align` tests for powers of two the wrong way round (base/base_mem.c:15).  `AsWritten` keeps
      that test, `Repaired` negates it; every result that does not depend on the difference is
      proved for both. */
  datatype Form = AsWritten | Repaired

  function Align(form: Form, pointer: u64, alignment: u64): u64 {
    if IsPow(alignment) == (form == AsWritten) then
      pointer
    else
      MaskUp(pointer, alignment)
  }

  /** The bit trick `(pointer + alignment - 1) & ~(alignment - 1)`. */
  function MaskUp(pointer: u64, alignment: u64): u64 {
    BitAnd(Wrap(pointer + alignment - 1), TWO_64 - 1 - Wrap(alignment - 1))
  }

  /** The least multiple of `a` that is at least `p` (see `RoundUpLeast`). */
  function RoundUp(p: nat, a: nat): (r: nat)
    requires a > 0
    ensures p <= r < p + a
  {
    if p == 0 then 0 else if p <= a then a else a + RoundUp(p - a, a)
  }

  lemma {:induction false} ModStep(x: nat, a: nat)
    requires a > 0
    ensures (x + a) % a == x % a
    ensures (x + a) / a == x / a + 1
  {
    assert x == (x / a) * a + x % a;
    Distribute(x / a, -1, a);
    ModUnique(x + a, a, x / a + 1, x % a);
  }

  lemma {:induction false} RoundUpLeast(p: nat, a: nat, m: nat)
    requires a > 0
    ensures RoundUp(p, a) % a == 0
    ensures p <= m && m % a == 0 ==> RoundUp(p, a) <= m
  {
    if p == 0 {
      ModUnique(0, a, 0, 0);
    } else if p <= a {
      ModUnique(a, a, 1, 0);
      if m < a {
        ModUnique(m, a, 0, m);
      }
    } else if p <= m {
      RoundUpLeast(p - a, a, m - a);
      ModStep(RoundUp(p - a, a), a);
      ModStep(m - a, a);
    } else {
      RoundUpLeast(p - a, a, 0);
      ModStep(RoundUp(p - a, a), a);
    }
  }

  lemma {:induction false} RoundUpClosed(p: nat, a: nat)
    requires a > 0
    ensures RoundUp(p, a) == if p % a == 0 then p else p - p % a + a
  {
    if p == 0 {
      ModUnique(0, a, 0, 0);
    } else if p < a {
      ModUnique(p, a, 0, p);
    } else if p == a {
      ModUnique(p, a, 1, 0);
    } else {
      ModStep(p - a, a);
      RoundUpClosed(p - a, a);
    }
  }

  lemma {:induction false} PowersBelowTop(k: nat)
    ensures Pow2(k) < TWO_64 <==> k < 64
  {
    Pow2Of64();
    if k >= 64 {
      Pow2Monotone(64, k);
    } else {
      Pow2Monotone(k, 63);
    }
  }

  /** `is_pow` accepts exactly zero and the powers of two. */
  lemma {:induction false} IsPowExact(x: u64)
    ensures IsPow(x) <==> x == 0 || exists k: nat :: k < 64 && x == Pow2(k)
  {
    if x != 0 {
      WrapSum(0, x);
      ClearLowestBit(x);
      if IsPow(x) {
        var k: nat :| x == Pow2(k);
        PowersBelowTop(k);
        assert k < 64 && x == Pow2(k);
      }
    }
  }

  /** The exponent of a nonzero power of two. */
  lemma {:induction false} Exponent(x: u64) returns (k: nat)
    requires IsPow(x) && x != 0
    ensures k < 64 && x == Pow2(k)
  {
    IsPowExact(x);
    k :| k < 64 && x == Pow2(k);
  }

  lemma {:induction false} ArenaAlignIsPow()
    ensures IsPow(ARENA_ALIGN)
  {
    assert Pow2(4) == ARENA_ALIGN;
    IsPowExact(ARENA_ALIGN);
  }

  lemma {:induction false} MaskUpSplit(pointer: u64, alignment: u64, w: u64, m: u64)
    requires w == Wrap(pointer + alignment - 1) && m == Wrap(alignment - 1)
    ensures MaskUp(pointer, alignment) == w - BitAnd(w, m)
  {
    Pow2Of64();
    MaskSplit(64, w, m);
  }

  lemma {:induction false} WrapSum(pointer: u64, alignment: u64)
    requires alignment != 0
    ensures Wrap(alignment - 1) == alignment - 1
    ensures var s := pointer + alignment - 1; Wrap(s) == if s < TWO_64 then s else s - TWO_64
  {
  }

  /** As written, `align` lands in `[pointer, pointer + alignment)` exactly when the alignment is not
      zero and either the early return is taken or the addition does not wrap. */
  lemma {:induction false} AlignBracket(pointer: u64, alignment: u64)
    ensures pointer <= Align(AsWritten, pointer, alignment) < pointer + alignment
       <==> alignment != 0 && (IsPow(alignment) || pointer + alignment - 1 < TWO_64)
  {
    if alignment == 0 {
      IsPowExact(0);
    } else if !IsPow(alignment) {
      WrapSum(pointer, alignment);
      MaskUpSplit(pointer, alignment, Wrap(pointer + alignment - 1), alignment - 1);
    }
  }

  /** As written, `align` does not move a pointer to a power of two: the result is aligned exactly
      when the argument already was. */
  lemma {:induction false} AlignAsWrittenMisses(pointer: u64, k: nat)
    requires k < 64 && Pow2(k) < TWO_64
    ensures Align(AsWritten, pointer, Pow2(k)) % Pow2(k) == 0 <==> pointer % Pow2(k) == 0
  {
    IsPowExact(Pow2(k));
  }

  /** With the test repaired, `align` to a power of two is the least multiple at or above the
      pointer exactly when that multiple is reached without wrapping. */
  lemma {:induction false} AlignRepairedExact(pointer: u64, k: nat)
    requires k < 64 && Pow2(k) < TWO_64
    ensures Align(Repaired, pointer, Pow2(k)) == RoundUp(pointer, Pow2(k))
       <==> pointer + Pow2(k) - 1 < TWO_64
  {
    IsPowExact(Pow2(k));
    var w := Wrap(pointer + Pow2(k) - 1);
    MaskUpPow(pointer, k, w);
    RoundDownWrapped(pointer, Pow2(k), w);
  }

  lemma {:induction false} RoundDownWrapped(p: u64, a: u64, w: u64)
    requires a > 0 && w == Wrap(p + a - 1)
    ensures w - w % a == RoundUp(p, a) <==> p + a - 1 < TWO_64
  {
    if p + a - 1 < TWO_64 {
      assert w == p + a - 1;
      RoundDownIsRoundUp(p, a);
    } else {
      assert w == p + a - 1 - TWO_64;
    }
  }

  lemma {:induction false} MaskUpPow(pointer: u64, k: nat, w: u64)
    requires k < 64 && Pow2(k) < TWO_64 && w == Wrap(pointer + Pow2(k) - 1)
    ensures MaskUp(pointer, Pow2(k)) == w - w % Pow2(k)
  {
    WrapSum(pointer, Pow2(k));
    MaskUpSplit(pointer, Pow2(k), w, Pow2(k) - 1);
    LowMask(w, k);
  }

  lemma {:induction false} RoundDownIsRoundUp(p: nat, a: nat)
    requires a > 0
    ensures (p + a - 1) - (p + a - 1) % a == RoundUp(p, a)
  {
    var q, r := p / a, p % a;
    assert p == q * a + r;
    RoundUpClosed(p, a);
    Distribute(q, -1, a);
    if r == 0 {
      ModUnique(p + a - 1, a, q, a - 1);
    } else {
      ModUnique(p + a - 1, a, q + 1, r - 1);
    }
  }

  lemma {:induction false} RoundUpLaws(p: nat, q: nat, a: nat)
    requires a > 0 && p <= q
    ensures RoundUp(RoundUp(p, a), a) == RoundUp(p, a)
    ensures RoundUp(p, a) <= RoundUp(q, a)
  {
    var r := RoundUp(p, a);
    RoundUpLeast(p, a, 0);
    RoundUpLeast(r, a, r);
    RoundUpLeast(q, a, 0);
    RoundUpLeast(p, a, RoundUp(q, a));
  }

  /** Repaired alignment is idempotent and monotone. */
  lemma {:induction false} AlignRepairedLaws(p: u64, q: u64, k: nat)
    requires k < 64 && Pow2(k) < TWO_64
    requires p <= q && q + Pow2(k) - 1 < TWO_64
    ensures var a := Pow2(k);
      && Align(Repaired, Align(Repaired, p, a), a) == Align(Repaired, p, a)
      && Align(Repaired, p, a) <= Align(Repaired, q, a)
  {
    AlignRepairedExact(p, k);
    AlignRepairedExact(q, k);
    RoundUpLaws(p, q, Pow2(k));
    RoundUpLeast(p, Pow2(k), 0);
    Pow2Of64();
    Pow2Divides(k, 64);
    AlignedBelowTop(RoundUp(p, Pow2(k)), Pow2(k));
    AlignRepairedExact(RoundUp(p, Pow2(k)), k);
  }

  /** A multiple of `a` below 2^64 leaves room for a whole step when `a` divides 2^64. */
  lemma {:induction false} AlignedBelowTop(r: nat, a: nat)
    requires a > 0 && r % a == 0 && TWO_64 % a == 0 && r < TWO_64
    ensures r + a <= TWO_64
  {
    var m, n := r / a, TWO_64 / a;
    assert r == m * a && TWO_64 == n * a;
    Distribute(n, m, a);
    AtLeastOneMultiple(n - m - 1, a);
    Distribute(n - m, 1, a);
  }

  /** What the arena needs from either form: positions in a mapped range never move backwards, and
      move by less than one step. */
  lemma {:induction false} AlignInRange(form: Form, pointer: u64)
    requires pointer <= ADDRESS_LIMIT
    ensures pointer <= Align(form, pointer, ARENA_ALIGN) < pointer + ARENA_ALIGN
    ensures form == AsWritten ==> Align(form, pointer, ARENA_ALIGN) == pointer
    ensures form == Repaired ==> Align(form, pointer, ARENA_ALIGN) == RoundUp(pointer, ARENA_ALIGN)
  {
    ArenaAlignIsPow();
    assert Pow2(4) == ARENA_ALIGN;
    AlignRepairedExact(pointer, 4);
    RoundUpLeast(pointer, ARENA_ALIGN, 0);
  }
}
