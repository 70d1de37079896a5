/** `calculate_padding` of base/base_stack.c. */
module Padding {
  import opened Bytes
  import opened Bits
  import opened BaseMem

  /** The padding to put before a block.  Line 44 of the source takes the branch for a pointer that
      is already aligned; `Repaired` takes it for a pointer that is not. */
  function CalculatePadding(form: Form, pointer: u64, alignment: u64, headerSize: u64): u64
    requires alignment != 0
  {
    if !IsPow(alignment) then
      0
    else
      var modulo := BitAnd(pointer, alignment - 1);
      var padding := if (modulo == 0) == (form == AsWritten) then alignment - modulo else 0;
      RoomForHeader(padding, alignment, headerSize)
  }

  /** Multiplication and division as repeated addition and subtraction, which keeps the arithmetic
      linear for the verifier; `TimesIsProduct` says that they are the usual ones. */
  function Times(a: nat, n: nat): nat {
    if n == 0 then 0 else a + Times(a, n - 1)
  }

  function Quotient(x: nat, a: nat): nat
    requires a > 0
  {
    if x < a then 0 else 1 + Quotient(x - a, a)
  }

  lemma {:induction false} TimesIsProduct(a: nat, n: nat)
    ensures Times(a, n) == a * n
  {
    if n > 0 {
      TimesIsProduct(a, n - 1);
      OneMore(a, n - 1);
    }
  }

  lemma {:induction false} QuotientIsDivision(x: nat, a: nat)
    requires a > 0
    ensures Quotient(x, a) == x / a
  {
    if x < a {
      ModUnique(x, a, 0, x);
    } else {
      QuotientIsDivision(x - a, a);
      ModStep(x - a, a);
    }
  }

  /** Lines 49-63: whole steps are added until the header fits. */
  function RoomForHeader(padding: u64, alignment: u64, headerSize: u64): u64
    requires alignment != 0
  {
    if padding < headerSize then Wrap(padding + Steps(headerSize - padding, alignment)) else padding
  }

  /** The whole steps that hold `rest` more bytes. */
  function Steps(rest: nat, alignment: u64): nat
    requires alignment != 0
  {
    if BitAnd(rest, alignment - 1) != 0 then Times(alignment, 1 + Quotient(rest, alignment))
    else Times(alignment, Quotient(rest, alignment))
  }

  lemma {:induction false} RoundUpByDivision(h: nat, a: nat, m: nat)
    requires a > 0 && m == h % a
    ensures RoundUp(h, a) == (if m != 0 then Times(a, 1 + Quotient(h, a)) else Times(a, Quotient(h, a)))
  {
    if h < a {
      ModUnique(h, a, 0, h);
    } else {
      ModStep(h - a, a);
      RoundUpByDivision(h - a, a, m);
    }
  }

  lemma {:induction false} RoomForHeaderRounds(padding: u64, alignment: u64, headerSize: u64)
    requires IsPow(alignment) && alignment != 0
    ensures RoomForHeader(padding, alignment, headerSize)
         == Wrap(padding + if padding < headerSize then RoundUp(headerSize - padding, alignment) else 0)
  {
    if padding < headerSize {
      WholeSteps(headerSize - padding, alignment);
    }
  }

  lemma {:induction false} WholeSteps(rest: u64, alignment: u64)
    requires IsPow(alignment) && alignment != 0
    ensures Steps(rest, alignment) == RoundUp(rest, alignment)
  {
    MaskIsRemainder(rest, alignment);
    RoundUpByDivision(rest, alignment, BitAnd(rest, alignment - 1));
  }

  /** The padding before the header is considered. */
  lemma {:induction false} PaddingBranch(form: Form, pointer: u64, alignment: u64, headerSize: u64,
        modulo: u64, padding: u64)
    requires IsPow(alignment) && alignment != 0 && modulo == BitAnd(pointer, alignment - 1) <= alignment
    requires padding == if (modulo == 0) == (form == AsWritten) then alignment - modulo else 0
    ensures CalculatePadding(form, pointer, alignment, headerSize) == RoomForHeader(padding, alignment, headerSize)
  {
  }

  /** Starting from nothing or from one step comes to the same. */
  lemma {:induction false} FromStep(h: nat, a: nat, padding: nat)
    requires h > 0 && a > 0 && (padding == 0 || padding == a)
    ensures padding + (if padding < h then RoundUp(h - padding, a) else 0) == RoundUp(h, a)
  {
  }

  /** As written, the padding ignores the pointer: for a real header it is the least multiple of the
      alignment that holds the header. */
  lemma {:induction false} PaddingAsWritten(pointer: u64, alignment: u64, headerSize: u64)
    requires IsPow(alignment) && alignment != 0 && headerSize > 0
    ensures CalculatePadding(AsWritten, pointer, alignment, headerSize) == Wrap(RoundUp(headerSize, alignment))
  {
    var modulo := BitAnd(pointer, alignment - 1);
    MaskIsRemainder(pointer, alignment);
    var padding := if modulo == 0 then alignment else 0;
    PaddingBranch(AsWritten, pointer, alignment, headerSize, modulo, padding);
    RoomForHeaderRounds(padding, alignment, headerSize);
    FromStep(headerSize, alignment, padding);
  }

  /** The distance from a pointer to the next aligned address that leaves room for a header. */
  lemma {:induction false} DistanceToAligned(p: nat, a: nat, h: nat, m: nat)
    requires a > 0 && m == p % a
    ensures m < a
    ensures var padding := if m == 0 then 0 else a - m;
      RoundUp(p + h, a) == p + padding + if padding < h then RoundUp(h - padding, a) else 0
  {
    if p < a {
      ModUnique(p, a, 0, p);
    } else {
      ModStep(p - a, a);
      DistanceToAligned(p - a, a, h, m);
    }
  }

  /** With line 44 repaired, the padding leads from the pointer to the next aligned address that
      leaves room for the header. */
  lemma {:induction false} PaddingRepaired(pointer: u64, alignment: u64, headerSize: u64)
    requires IsPow(alignment) && alignment != 0
    ensures CalculatePadding(Repaired, pointer, alignment, headerSize)
         == Wrap(RoundUp(pointer + headerSize, alignment) - pointer)
  {
    MaskIsRemainder(pointer, alignment);
    DistanceToAligned(pointer, alignment, headerSize, BitAnd(pointer, alignment - 1));
    RepairedBranches(pointer, alignment, headerSize, BitAnd(pointer, alignment - 1),
                     RoundUp(pointer + headerSize, alignment));
  }

  lemma {:induction false} RepairedBranches(pointer: u64, alignment: u64, headerSize: u64, modulo: nat, r: nat)
    requires IsPow(alignment) && modulo < alignment
    requires modulo == BitAnd(pointer, alignment - 1)
    requires var padding := if modulo == 0 then 0 else alignment - modulo;
      r == pointer + padding + if padding < headerSize then RoundUp(headerSize - padding, alignment) else 0
    ensures CalculatePadding(Repaired, pointer, alignment, headerSize) == Wrap(r - pointer)
  {
    var padding := if modulo == 0 then 0 else alignment - modulo;
    PaddingBranch(Repaired, pointer, alignment, headerSize, modulo, padding);
    RoomForHeaderRounds(padding, alignment, headerSize);
  }

  lemma {:induction false} MaskIsRemainder(x: nat, a: u64)
    requires IsPow(a) && a != 0
    ensures BitAnd(x, a - 1) == x % a
  {
    var k := Exponent(a);
    LowMask(x, k);
  }

  /** Padding `p` holds the header and puts the block on an aligned address. */
  predicate Fits(pointer: nat, alignment: nat, headerSize: nat, p: nat)
    requires alignment != 0
  {
    headerSize <= p && (pointer + p) % alignment == 0
  }

  /** `p` is the padding that the callers ask for: the least one that fits. */
  ghost predicate IsLeastPadding(pointer: nat, alignment: nat, headerSize: nat, p: nat)
    requires alignment != 0
  {
    && Fits(pointer, alignment, headerSize, p)
    && forall p': nat :: Fits(pointer, alignment, headerSize, p') ==> p <= p'
  }

  lemma {:induction false} LeastPadding(pointer: nat, alignment: nat, headerSize: nat, r: nat)
    requires alignment != 0 && r == RoundUp(pointer + headerSize, alignment) - pointer
    ensures IsLeastPadding(pointer, alignment, headerSize, r)
  {
    RoundUpLeast(pointer + headerSize, alignment, 0);
    assert Fits(pointer, alignment, headerSize, r);
    forall p': nat | Fits(pointer, alignment, headerSize, p')
      ensures r <= p'
    {
      RoundUpLeast(pointer + headerSize, alignment, pointer + p');
    }
  }

  lemma {:induction false} SumOfMultiple(p: nat, r: nat, a: nat)
    requires a > 0 && r % a == 0
    ensures (p + r) % a == p % a
  {
    var q, n := p / a, r / a;
    assert p == q * a + p % a && r == n * a;
    Distribute(q, -n, a);
    ModUnique(p + r, a, q + n, p % a);
  }

  lemma {:induction false} RoundUpFits(h: nat, p: nat, a: nat)
    requires a > 0 && p <= h && h - p + a < TWO_64
    ensures Wrap(RoundUp(h, a) - p) == RoundUp(h, a) - p
  {
  }

  lemma {:induction false} RepairedIsDistance(pointer: u64, alignment: u64, headerSize: u64)
    requires IsPow(alignment) && alignment != 0 && headerSize + alignment < TWO_64
    ensures CalculatePadding(Repaired, pointer, alignment, headerSize)
         == RoundUp(pointer + headerSize, alignment) - pointer
  {
    PaddingRepaired(pointer, alignment, headerSize);
    RoundUpFits(pointer + headerSize, pointer, alignment);
  }

  /** The repaired padding is the least one that fits. */
  lemma {:induction false} PaddingIntent(pointer: u64, alignment: u64, headerSize: u64)
    requires IsPow(alignment) && alignment != 0 && headerSize + alignment < TWO_64
    ensures IsLeastPadding(pointer, alignment, headerSize, CalculatePadding(Repaired, pointer, alignment, headerSize))
  {
    RepairedIsDistance(pointer, alignment, headerSize);
    LeastPadding(pointer, alignment, headerSize, CalculatePadding(Repaired, pointer, alignment, headerSize));
  }

  lemma {:induction false} AsWrittenIsMultiple(pointer: u64, alignment: u64, headerSize: u64)
    requires IsPow(alignment) && alignment != 0 && headerSize > 0 && headerSize + alignment < TWO_64
    ensures CalculatePadding(AsWritten, pointer, alignment, headerSize) == RoundUp(headerSize, alignment)
  {
    PaddingAsWritten(pointer, alignment, headerSize);
    RoundUpFits(headerSize, 0, alignment);
  }

  /** The padding as written is the least one that fits exactly when the pointer is already aligned. */
  lemma {:induction false} PaddingMeetsIntent(pointer: u64, alignment: u64, headerSize: u64)
    requires IsPow(alignment) && alignment != 0 && headerSize > 0 && headerSize + alignment < TWO_64
    ensures IsLeastPadding(pointer, alignment, headerSize, CalculatePadding(AsWritten, pointer, alignment, headerSize))
       <==> pointer % alignment == 0
  {
    AsWrittenIsMultiple(pointer, alignment, headerSize);
    HeaderMultipleFits(pointer, alignment, headerSize, CalculatePadding(AsWritten, pointer, alignment, headerSize));
  }

  lemma {:induction false} HeaderMultipleFits(pointer: nat, alignment: nat, headerSize: nat, r: nat)
    requires alignment != 0 && r == RoundUp(headerSize, alignment)
    ensures IsLeastPadding(pointer, alignment, headerSize, r) <==> pointer % alignment == 0
  {
    RoundUpLeast(headerSize, alignment, 0);
    SumOfMultiple(pointer, r, alignment);
    if pointer % alignment == 0 {
      DistanceToAligned(pointer, alignment, headerSize, 0);
      LeastPadding(pointer, alignment, headerSize, r);
    }
  }

  /** With line 44 repaired too, the padding before a two-byte header fits in one byte for every
      alignment up to 128. */
  lemma {:induction false} RepairedPaddingFits(pointer: u64, alignment: u64)
    requires IsPow(alignment) && 0 < alignment <= 128
    ensures 2 <= CalculatePadding(Repaired, pointer, alignment, 2) <= 129
  {
    RepairedIsDistance(pointer, alignment, 2);
  }
}
