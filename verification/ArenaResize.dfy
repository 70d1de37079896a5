/** `arena_resize_align` of base/base_arena.c, as written and with its three slips repaired: the
    missing capacity check (line 118), the clearing of the arena's own header instead of the data
    (line 121), and the relocated block that is not returned (lines 127-130). */
module ArenaResize {
  import opened Bytes
  import opened BaseMem
  import opened BaseArena
  import AH = ArenaHeap
  import opened ArenaRuns

  // ---------------------------------------------------------------------------------------------
  // As written

  /** A little-endian word after `memset` cleared its first `n` bytes (all of it from 8 on). */
  function ClearLow(x: u64, n: int): (r: u64)
    ensures r <= x
  {
    if n <= 0 then x else if n >= 8 then 0 else 256 * ClearLow(x / 256, n - 1)
  }

  /** The `n` least significant bytes of a word are zero. */
  predicate LowBytesZero(x: nat, n: nat) {
    n == 0 || (x % 256 == 0 && LowBytesZero(x / 256, n - 1))
  }

  lemma {:induction false} ClearLowKeeps(x: u64, n: nat)
    requires n < 8
    ensures ClearLow(x, n) == x <==> LowBytesZero(x, n)
  {
    if n > 0 {
      ClearLowKeeps(x / 256, n - 1);
    }
  }

  /** The arena record lies directly before the buffer: current position, previous position,
      capacity and base address, eight bytes each.  `base` is the last of them. */
  datatype Image = Image(arena: Arena, base: u64)

  datatype ImageOutcome = Broken | Resized(image: Image, pointer: Option<nat>)

  /** `MemSet(&arena->current_position, n)`: the record, and what follows it in the buffer. */
  function ClearRecord(i: Image, n: nat): Option<Image>
    requires |i.arena.mem| == i.arena.capacity
  {
    if n - 32 > i.arena.capacity then None
    else
      var mem := if n <= 32 then i.arena.mem else Store(i.arena.mem, 0, Zeros(n - 32));
      Some(Image(i.arena.(cur := ClearLow(i.arena.cur, n), prev := ClearLow(i.arena.prev, n - 8),
                          capacity := ClearLow(i.arena.capacity, n - 16), mem := mem),
                 ClearLow(i.base, n - 24)))
  }

  /** `memmove` of the kept bytes; a NULL destination breaks unless there is nothing to move. */
  function MoveKept(a: Arena, to: Option<nat>, from: nat, size: nat): (o: Outcome)
    requires a.Mapped()
    ensures o.Done? ==> o.arena.Mapped()
  {
    if size == 0 then Done(a, to)
    else if to.None? || to.value + size > a.capacity || from + size > a.capacity then Fault
    else Done(a.(mem := Store(a.mem, to.value, a.mem[from..from + size])), to)
  }

  function AllocAndMove(a: Arena, from: nat, newSize: u64, oldSize: u64): Outcome
    requires a.Mapped()
  {
    match Alloc(a, newSize)
    case Fault => Fault
    case Done(a', to) => MoveKept(a', to, from, Min(oldSize, newSize))
  }

  function ResizeAlign(i: Image, block: Option<nat>, newSize: u64, oldSize: u64): ImageOutcome
    requires i.arena.Mapped()
  {
    var a := i.arena;
    if block.None? || oldSize == 0 then
      match Alloc(a, newSize)
      case Fault => Broken
      case Done(a', p) => Resized(i.(arena := a'), p)
    else if block.value < a.capacity then
      if a.prev == block.value then
        GrowInPlace(i, newSize, oldSize)
      else
        match AllocAndMove(a, block.value, newSize, oldSize)
        case Fault => Broken
        case Done(a', _) => Resized(i.(arena := a'), None)
    else
      Resized(i, None)
  }

  /** Lines 118-123. */
  function GrowInPlace(i: Image, newSize: u64, oldSize: u64): ImageOutcome
    requires i.arena.Mapped()
  {
    var moved := i.(arena := i.arena.(cur := Wrap(i.arena.prev + newSize)));
    if newSize > oldSize then
      match ClearRecord(moved, newSize - oldSize)
      case None => Broken
      case Some(i') => Resized(i', Some(i.arena.prev))
    else
      Resized(moved, Some(i.arena.prev))
  }

  // ---------------------------------------------------------------------------------------------
  // Repaired

  function ResizeRepaired(a: Arena, block: Option<nat>, newSize: u64, oldSize: u64): (o: Outcome)
    requires a.Mapped()
    ensures o.Done? ==> o.arena.Mapped()
  {
    if block.None? || oldSize == 0 then
      Alloc(a, newSize)
    else if block.value < a.capacity then
      if a.prev == block.value then
        if a.prev + newSize > a.capacity then Done(a, None)
        else Done(StretchInPlace(a, newSize, oldSize), Some(a.prev))
      else
        match Alloc(a, newSize)
        case Fault => Fault
        case Done(a', None) => Done(a', None)
        case Done(a', Some(to)) => MoveKept(a', Some(to), block.value, Min(oldSize, newSize))
    else
      Done(a, None)
  }

  function StretchInPlace(a: Arena, newSize: u64, oldSize: u64): Arena
    requires a.Mapped() && a.prev + newSize <= a.capacity
  {
    var mem := if newSize > oldSize then Store(a.mem, a.prev + oldSize, Zeros(newSize - oldSize)) else a.mem;
    a.(cur := a.prev + newSize, mem := mem)
  }

  // ---------------------------------------------------------------------------------------------
  // What a resize should do to the list of blocks

  /** The last block takes its new size where it is. */
  function InPlace(h: AH.Heap, newSize: nat): AH.Heap
    requires h.live != []
  {
    var n := |h.live| - 1;
    var b := h.live[n];
    AH.Heap(b.at + newSize, h.prev,
            if newSize == 0 then h.live[..n] else h.live[n := b.(data := Refit(b.data, newSize))])
  }

  /** A new block takes the kept bytes; the old one stays until it is popped. */
  function Relocated(form: Form, capacity: u64, h: AH.Heap, data: seq<byte>): AH.Effect {
    var at := AH.NextStart(form, h.cur);
    if at + |data| <= capacity then
      AH.Then(AH.Heap(at + |data|, h.cur, if data == [] then h.live else h.live + [AH.Block(at, data)]), Some(at))
    else if TWO_64 <= at + |data| <= TWO_64 + capacity then AH.Crash
    else AH.Then(h, None)
  }

  /** The previous position can only name the last live block. */
  lemma {:induction false} PrevNamesLast(h: AH.Heap, capacity: nat, k: nat)
    requires AH.Laid(h, capacity) && k < |h.live| && h.live[k].at == h.prev
    ensures k == |h.live| - 1
  {
  }

  lemma {:induction false} InPlaceLaid(h: AH.Heap, capacity: nat, newSize: nat)
    requires AH.Laid(h, capacity) && h.live != [] && h.live[|h.live| - 1].at + newSize <= capacity
    ensures AH.Laid(InPlace(h, newSize), capacity)
  {
  }

  lemma {:induction false} KeptBytes(mem: seq<byte>, b: AH.Block, newSize: nat)
    requires HoldsAt(mem, b) && newSize <= |b.data|
    ensures HoldsAt(mem, b.(data := Refit(b.data, newSize)))
  {
    assert mem[b.at..b.End()][..newSize] == mem[b.at..b.at + newSize];
  }

  lemma {:induction false} GrownBytes(mem: seq<byte>, b: AH.Block, newSize: nat)
    requires HoldsAt(mem, b) && newSize > |b.data| && b.at + newSize <= |mem|
    requires mem[b.End()..b.at + newSize] == Zeros(newSize - |b.data|)
    ensures HoldsAt(mem, b.(data := Refit(b.data, newSize)))
  {
    assert mem[b.at..b.at + newSize] == mem[b.at..b.End()] + mem[b.End()..b.at + newSize];
  }

  lemma {:induction false} InPlaceInBuffer(mem: seq<byte>, h: AH.Heap, newSize: nat)
    requires InBuffer(mem, h.live) && h.live != []
    requires newSize == 0 || HoldsAt(mem, h.live[|h.live| - 1].(data := Refit(h.live[|h.live| - 1].data, newSize)))
    ensures InBuffer(mem, InPlace(h, newSize).live)
  {
  }

  /** Repaired, in place: room permitting, the last block keeps its first bytes, the rest is zero, and
      every other block is as it was. */
  lemma {:induction false} RepairedInPlace(a: Arena, h: AH.Heap, k: nat, newSize: u64)
    requires Represents(a, h) && k < |h.live| && h.live[k].at == a.prev
    ensures |h.live[k].data| < TWO_64 && k == |h.live| - 1
    ensures ResizeRepaired(a, Some(h.live[k].at), newSize, |h.live[k].data|).Done?
    ensures var o := ResizeRepaired(a, Some(h.live[k].at), newSize, |h.live[k].data|);
      if h.live[k].at + newSize <= a.capacity
      then o.pointer == Some(h.live[k].at) && Represents(o.arena, InPlace(h, newSize))
      else o == Done(a, None)
  {
    var b := h.live[k];
    assert HoldsAt(a.mem, b);
    PrevNamesLast(h, a.capacity, k);
    if b.at + newSize <= a.capacity {
      InPlaceLaid(h, a.capacity, newSize);
      StretchAgrees(a, h, newSize);
    }
  }

  lemma {:induction false} StretchAgrees(a: Arena, h: AH.Heap, newSize: u64)
    requires Represents(a, h) && h.live != []
    requires var b := h.live[|h.live| - 1]; b.at == a.prev && b.at + newSize <= a.capacity && |b.data| < TWO_64
    ensures var b := h.live[|h.live| - 1];
      InBuffer(StretchInPlace(a, newSize, |b.data|).mem, InPlace(h, newSize).live)
  {
    var b := h.live[|h.live| - 1];
    assert HoldsAt(a.mem, b);
    var mem' := StretchInPlace(a, newSize, |b.data|).mem;
    if newSize > |b.data| {
      StretchBelow(a.mem, h.live, b.End(), newSize - |b.data|);
      GrownBytes(mem', b, newSize);
    } else {
      KeptBytes(a.mem, b, newSize);
    }
    InPlaceInBuffer(mem', h, newSize);
  }

  lemma {:induction false} StretchBelow(mem: seq<byte>, live: seq<AH.Block>, at: nat, size: nat)
    requires InBuffer(mem, live) && at + size <= |mem|
    requires live != [] && at == live[|live| - 1].End()
    requires forall j, k :: 0 <= j < k < |live| ==> live[j].End() <= live[k].at
    ensures InBuffer(Store(mem, at, Zeros(size)), live)
  {
    forall k | 0 <= k < |live| ensures HoldsAt(Store(mem, at, Zeros(size)), live[k]) {
      assert HoldsAt(mem, live[k]);
      if k < |live| - 1 {
        assert live[k].End() <= live[|live| - 1].at;
      }
      StoreElsewhere(mem, at, Zeros(size), live[k].at, live[k].End());
    }
  }

  // ---------------------------------------------------------------------------------------------
  // Relocation

  /** Filling the first bytes of a fresh block from another block. */
  lemma {:induction false} FillFresh(mem: seq<byte>, live: seq<AH.Block>, top: nat, at: nat, size: nat,
        prefix: seq<byte>)
    requires InBuffer(mem, live) && AH.Ordered(live, top) && top <= at && at + size <= |mem|
    requires HoldsAt(mem, AH.Block(at, Zeros(size))) && |prefix| <= size
    ensures InBuffer(Store(mem, at, prefix), live)
    ensures HoldsAt(Store(mem, at, prefix), AH.Block(at, prefix + Zeros(size - |prefix|)))
  {
    var mem' := Store(mem, at, prefix);
    forall k | 0 <= k < |live| ensures HoldsAt(mem', live[k]) {
      assert HoldsAt(mem, live[k]);
      StoreElsewhere(mem, at, prefix, live[k].at, live[k].End());
    }
    var mid := at + |prefix|;
    StoreElsewhere(mem, at, prefix, mid, at + size);
    assert mem[mid..at + size] == mem[at..at + size][|prefix|..];
    assert mem'[at..at + size] == mem'[at..mid] + mem'[mid..at + size];
    assert Zeros(size)[|prefix|..] == Zeros(size - |prefix|);
  }

  /** Allocation followed by the move: the new block holds the kept bytes and zeros, and no live block
      changes.  Without room the move goes to NULL. */
  lemma {:induction false} RelocationAgrees(a: Arena, h: AH.Heap, k: nat, newSize: u64, oldSize: u64)
    requires Represents(a, h) && k < |h.live| && oldSize == |h.live[k].data|
    ensures match Relocated(a.form, a.capacity, h, Refit(h.live[k].data, newSize))
      case Crash => AllocAndMove(a, h.live[k].at, newSize, oldSize) == Fault
      case Then(h', None) =>
        h' == h && AllocAndMove(a, h.live[k].at, newSize, oldSize) == if newSize == 0 then Done(a, None) else Fault
      case Then(h', Some(at)) =>
        var o := AllocAndMove(a, h.live[k].at, newSize, oldSize);
        && o.Done? && o.pointer == Some(at) && Represents(o.arena, h')
        && o.arena.form == a.form && o.arena.capacity == a.capacity
  {
    var b := h.live[k];
    var at := AH.NextStart(a.form, h.cur);
    AlignInRange(a.form, a.cur);
    AllocValue(a, newSize, at);
    if at + newSize <= a.capacity {
      RelocationFills(a, h, k, newSize, oldSize, at);
    }
  }

  lemma {:induction false} MoveValue(a: Arena, to: nat, from: nat, prefix: seq<byte>)
    requires a.Mapped() && to + |prefix| <= a.capacity && from + |prefix| <= a.capacity
    requires a.mem[from..from + |prefix|] == prefix
    ensures MoveKept(a, Some(to), from, |prefix|) == Done(a.(mem := Store(a.mem, to, prefix)), Some(to))
  {
    if prefix == [] {
      assert Store(a.mem, to, prefix) == a.mem;
    }
  }

  /** The arena after allocation and move, when there is room. */
  function Moved(a: Arena, newSize: u64, at: nat, prefix: seq<byte>): Arena
    requires a.Mapped() && at + newSize <= a.capacity && |prefix| <= newSize
  {
    Arena(a.form, a.capacity, at + newSize, a.cur, Store(Store(a.mem, at, Zeros(newSize)), at, prefix))
  }

  lemma {:induction false} MovedValue(a: Arena, h: AH.Heap, k: nat, newSize: u64, oldSize: u64, at: nat)
    requires Represents(a, h) && k < |h.live| && oldSize == |h.live[k].data|
    requires a.cur <= at && at + newSize <= a.capacity
    requires Alloc(a, newSize)
          == Done(Arena(a.form, a.capacity, at + newSize, a.cur, Store(a.mem, at, Zeros(newSize))), Some(at))
    ensures AllocAndMove(a, h.live[k].at, newSize, oldSize)
         == Done(Moved(a, newSize, at, h.live[k].data[..Min(oldSize, newSize)]), Some(at))
  {
    var prefix := h.live[k].data[..Min(oldSize, newSize)];
    var a1 := Arena(a.form, a.capacity, at + newSize, a.cur, Store(a.mem, at, Zeros(newSize)));
    AllocKeepsBlocks(a.mem, h.live, h.cur, at, newSize);
    ReadKept(a1.mem, h.live, k, |prefix|);
    MoveValue(a1, at, h.live[k].at, prefix);
  }

  lemma {:induction false} MovedBlocks(a: Arena, h: AH.Heap, newSize: u64, at: nat, prefix: seq<byte>)
    requires Represents(a, h) && a.cur <= at && at + newSize <= a.capacity && |prefix| <= newSize
    ensures InBuffer(Moved(a, newSize, at, prefix).mem, h.live)
    ensures HoldsAt(Moved(a, newSize, at, prefix).mem, AH.Block(at, prefix + Zeros(newSize - |prefix|)))
  {
    AllocKeepsBlocks(a.mem, h.live, h.cur, at, newSize);
    FillFresh(Store(a.mem, at, Zeros(newSize)), h.live, h.cur, at, newSize, prefix);
  }

  lemma {:induction false} MovedRepresents(a: Arena, h: AH.Heap, newSize: u64, at: nat, prefix: seq<byte>,
        data: seq<byte>)
    requires Represents(a, h) && |prefix| <= newSize && data == prefix + Zeros(newSize - |prefix|)
    requires at == AH.NextStart(a.form, h.cur) && a.cur <= at && at + newSize <= a.capacity
    ensures var e := Relocated(a.form, a.capacity, h, data);
      e.Then? && e.pointer == Some(at) && Represents(Moved(a, newSize, at, prefix), e.heap)
  {
    MovedBlocks(a, h, newSize, at, prefix);
    RelocatedLaid(a.form, a.capacity, h, data);
  }

  lemma {:induction false} RelocationFills(a: Arena, h: AH.Heap, k: nat, newSize: u64, oldSize: u64, at: nat)
    requires Represents(a, h) && k < |h.live| && oldSize == |h.live[k].data|
    requires at == AH.NextStart(a.form, h.cur) && a.cur <= at && at + newSize <= a.capacity
    requires Alloc(a, newSize)
          == Done(Arena(a.form, a.capacity, at + newSize, a.cur, Store(a.mem, at, Zeros(newSize))), Some(at))
    ensures var o := AllocAndMove(a, h.live[k].at, newSize, oldSize);
      var e := Relocated(a.form, a.capacity, h, Refit(h.live[k].data, newSize));
      && o.Done? && o.pointer == Some(at) && e.Then? && e.pointer == Some(at) && Represents(o.arena, e.heap)
      && o.arena.form == a.form && o.arena.capacity == a.capacity
  {
    var data := h.live[k].data;
    MovedValue(a, h, k, newSize, oldSize, at);
    RefitSplit(data, newSize);
    MovedRepresents(a, h, newSize, at, data[..Min(oldSize, newSize)], Refit(data, newSize));
  }

  lemma {:induction false} ReadKept(mem: seq<byte>, live: seq<AH.Block>, k: nat, keep: nat)
    requires InBuffer(mem, live) && k < |live| && keep <= |live[k].data|
    ensures live[k].at + keep <= |mem| && mem[live[k].at..live[k].at + keep] == live[k].data[..keep]
  {
    assert HoldsAt(mem, live[k]);
    KeptBytes(mem, live[k], keep);
  }

  lemma {:induction false} RelocatedLaid(form: Form, capacity: u64, h: AH.Heap, data: seq<byte>)
    requires AH.Laid(h, capacity)
    ensures var e := Relocated(form, capacity, h, data); e.Then? ==> AH.Laid(e.heap, capacity)
  {
  }

  /** Repaired, relocation: when the previous position does not name the block, the caller gets a new
      block with the kept bytes and zeros, or NULL when there is no room; no live block changes. */
  lemma {:induction false} RepairedRelocates(a: Arena, h: AH.Heap, k: nat, newSize: u64, oldSize: u64)
    requires Represents(a, h) && k < |h.live| && oldSize == |h.live[k].data| && h.live[k].at != a.prev
    ensures Agrees(a, ResizeRepaired(a, Some(h.live[k].at), newSize, oldSize),
                   Relocated(a.form, a.capacity, h, Refit(h.live[k].data, newSize)))
  {
    assert HoldsAt(a.mem, h.live[k]);
    RelocationAgrees(a, h, k, newSize, oldSize);
    AllocAgrees(a, h, newSize);
  }

  /** A resize of NULL, or from no bytes, is an allocation, as written and repaired. */
  lemma {:induction false} ResizeNullAgrees(a: Arena, h: AH.Heap, block: Option<nat>, newSize: u64, oldSize: u64)
    requires Represents(a, h) && (block.None? || oldSize == 0)
    ensures Agrees(a, ResizeRepaired(a, block, newSize, oldSize), AH.Allocated(a.form, a.capacity, h, newSize))
  {
    AllocAgrees(a, h, newSize);
  }

  lemma {:induction false} AsWrittenNull(i: Image, h: AH.Heap, block: Option<nat>, newSize: u64, oldSize: u64)
    requires Represents(i.arena, h) && (block.None? || oldSize == 0)
    ensures var o := ResizeAlign(i, block, newSize, oldSize);
      match AH.Allocated(i.arena.form, i.arena.capacity, h, newSize)
      case Crash => o == Broken
      case Then(h', pointer) =>
        && o.Resized? && o.pointer == pointer && Represents(o.image.arena, h') && o.image.base == i.base
        && o.image.arena.form == i.arena.form && o.image.arena.capacity == i.arena.capacity
  {
    AllocAgrees(i.arena, h, newSize);
  }

  /** A resize of an address outside the buffer changes nothing and returns NULL, as written and repaired. */
  lemma {:induction false} ResizeOutside(a: Arena, block: nat, newSize: u64, oldSize: u64)
    requires a.Mapped() && block >= a.capacity && oldSize != 0
    ensures ResizeRepaired(a, Some(block), newSize, oldSize) == Done(a, None)
    ensures forall base :: ResizeAlign(Image(a, base), Some(block), newSize, oldSize) == Resized(Image(a, base), None)
  {
  }

  /** As written, relocation copies the block in the same way but hands NULL to the caller, and breaks
      when there is no room. */
  lemma {:induction false} AsWrittenLosesBlock(i: Image, h: AH.Heap, k: nat, newSize: u64, oldSize: u64)
    requires Represents(i.arena, h) && k < |h.live| && oldSize == |h.live[k].data| && h.live[k].at != i.arena.prev
    ensures var o := ResizeAlign(i, Some(h.live[k].at), newSize, oldSize);
      match Relocated(i.arena.form, i.arena.capacity, h, Refit(h.live[k].data, newSize))
      case Crash => o == Broken
      case Then(h', Some(_)) => o.Resized? && o.pointer == None && Represents(o.image.arena, h')
      case Then(h', None) => o == if newSize == 0 then Resized(i, None) else Broken
  {
    assert HoldsAt(i.arena.mem, h.live[k]);
    RelocationAgrees(i.arena, h, k, newSize, oldSize);
  }

  /** The bytes that a grown block would gain are zero already. */
  ghost predicate TailIsZero(mem: seq<byte>, from: nat, to: nat) {
    from <= to <= |mem| && mem[from..to] == Zeros(to - from)
  }

  /** As written, a resize in place leaves a sound arena exactly when the block does not grow, or grows
      by at most seven bytes that are inside the buffer and zero already, and the new position has
      that many zero bytes at its low end: otherwise `MemSet` has damaged the arena's own record. */
  lemma {:induction false} AsWrittenInPlaceExact(i: Image, h: AH.Heap, k: nat, newSize: u64, oldSize: u64)
    requires Represents(i.arena, h) && k < |h.live| && h.live[k].at == i.arena.prev && oldSize == |h.live[k].data|
    ensures k == |h.live| - 1
    ensures var o := ResizeAlign(i, Some(h.live[k].at), newSize, oldSize);
      var end := i.arena.prev + newSize;
      (o.Resized? && o.image.base == i.base && o.image.arena.capacity == i.arena.capacity
         && Represents(o.image.arena, InPlace(h, newSize)))
      <==>
      || newSize <= oldSize
      || (newSize - oldSize <= 7 && end <= i.arena.capacity && LowBytesZero(end, newSize - oldSize)
          && TailIsZero(i.arena.mem, i.arena.prev + oldSize, end))
  {
    var b := h.live[k];
    assert HoldsAt(i.arena.mem, b);
    PrevNamesLast(h, i.arena.capacity, k);
    if newSize <= oldSize {
      ShrinkAgrees(i.arena, h, newSize);
      assert Wrap(i.arena.prev + newSize) == i.arena.prev + newSize;
    } else if newSize - oldSize >= 8 {
      GrowMuchBreaks(i, h, newSize, oldSize);
    } else {
      GrowLittle(i, h, newSize, oldSize);
    }
  }

  lemma {:induction false} ShrinkAgrees(a: Arena, h: AH.Heap, newSize: u64)
    requires Represents(a, h) && h.live != [] && newSize <= |h.live[|h.live| - 1].data|
    requires h.live[|h.live| - 1].at == a.prev
    ensures a.prev + newSize <= a.capacity
    ensures Represents(a.(cur := a.prev + newSize), InPlace(h, newSize))
  {
    var b := h.live[|h.live| - 1];
    assert HoldsAt(a.mem, b);
    KeptBytes(a.mem, b, newSize);
    InPlaceLaid(h, a.capacity, newSize);
    InPlaceInBuffer(a.mem, h, newSize);
  }

  lemma {:induction false} GrowMuchBreaks(i: Image, h: AH.Heap, newSize: u64, oldSize: u64)
    requires Represents(i.arena, h) && h.live != [] && h.live[|h.live| - 1].at == i.arena.prev
    requires newSize - oldSize >= 8
    ensures var o := GrowInPlace(i, newSize, oldSize);
      o.Resized? ==> !Represents(o.image.arena, InPlace(h, newSize))
  {
    var o := GrowInPlace(i, newSize, oldSize);
    if o.Resized? {
      assert o.image.arena.cur == 0;
    }
  }

  lemma {:induction false} GrowLittle(i: Image, h: AH.Heap, newSize: u64, oldSize: u64)
    requires Represents(i.arena, h) && h.live != [] && h.live[|h.live| - 1].at == i.arena.prev
    requires oldSize == |h.live[|h.live| - 1].data| && 0 < newSize - oldSize <= 7
    ensures var o := GrowInPlace(i, newSize, oldSize);
      var end := i.arena.prev + newSize;
      && o.Resized? && o.image.base == i.base && o.image.arena.capacity == i.arena.capacity
      && (Represents(o.image.arena, InPlace(h, newSize))
          <==> end <= i.arena.capacity && LowBytesZero(end, newSize - oldSize)
               && TailIsZero(i.arena.mem, i.arena.prev + oldSize, end))
  {
    LastInside(i.arena, h);
    var cur := GrowLittleValue(i, newSize, oldSize);
    var end := i.arena.prev + newSize;
    GrowLittleExact(i.arena, h, newSize, cur, end, LowBytesZero(end, newSize - oldSize));
  }

  /** The condition on the position enters as `low`. */
  lemma {:induction false} GrowLittleExact(a: Arena, h: AH.Heap, newSize: u64, cur: u64, end: nat, low: bool)
    requires Represents(a, h) && h.live != [] && h.live[|h.live| - 1].at == a.prev
    requires |h.live[|h.live| - 1].data| < newSize && end == a.prev + newSize && (cur == end <==> low)
    ensures Represents(a.(cur := cur), InPlace(h, newSize))
       <==> end <= a.capacity && low && TailIsZero(a.mem, a.prev + |h.live[|h.live| - 1].data|, end)
  {
    GrownRepresents(a, h, newSize, cur);
  }

  lemma {:induction false} LastInside(a: Arena, h: AH.Heap)
    requires Represents(a, h) && h.live != []
    ensures h.live[|h.live| - 1].at + |h.live[|h.live| - 1].data| <= a.capacity
  {
    assert HoldsAt(a.mem, h.live[|h.live| - 1]);
  }

  lemma {:induction false} GrownRepresents(a: Arena, h: AH.Heap, newSize: u64, cur: u64)
    requires Represents(a, h) && h.live != [] && h.live[|h.live| - 1].at == a.prev
    requires |h.live[|h.live| - 1].data| < newSize
    ensures Represents(a.(cur := cur), InPlace(h, newSize))
       <==> cur == a.prev + newSize <= a.capacity
            && TailIsZero(a.mem, a.prev + |h.live[|h.live| - 1].data|, a.prev + newSize)
  {
    if a.prev + newSize <= a.capacity {
      InPlaceLaid(h, a.capacity, newSize);
      GrownIffZero(a.mem, h, newSize);
    }
  }

  lemma {:induction false} GrowLittleValue(i: Image, newSize: u64, oldSize: u64) returns (cur: u64)
    requires i.arena.Mapped() && 0 < newSize - oldSize <= 7 && i.arena.prev + newSize < TWO_64
    ensures GrowInPlace(i, newSize, oldSize) == Resized(i.(arena := i.arena.(cur := cur)), Some(i.arena.prev))
    ensures cur == i.arena.prev + newSize <==> LowBytesZero(i.arena.prev + newSize, newSize - oldSize)
  {
    assert Wrap(i.arena.prev + newSize) == i.arena.prev + newSize;
    cur := ClearLow(i.arena.prev + newSize, newSize - oldSize);
    ClearLowKeeps(i.arena.prev + newSize, newSize - oldSize);
  }

  lemma {:induction false} GrownIffZero(mem: seq<byte>, h: AH.Heap, newSize: nat)
    requires InBuffer(mem, h.live) && h.live != []
    requires var b := h.live[|h.live| - 1]; |b.data| < newSize && b.at + newSize <= |mem|
    ensures var b := h.live[|h.live| - 1];
      InBuffer(mem, InPlace(h, newSize).live) <==> TailIsZero(mem, b.End(), b.at + newSize)
  {
    var n := |h.live| - 1;
    var b := h.live[n];
    var b' := b.(data := Refit(b.data, newSize));
    if TailIsZero(mem, b.End(), b.at + newSize) {
      GrownBytes(mem, b, newSize);
      InPlaceInBuffer(mem, h, newSize);
    }
    if InBuffer(mem, InPlace(h, newSize).live) {
      assert InPlace(h, newSize).live[n] == b';
      assert HoldsAt(mem, b');
      assert mem[b.at..b.at + newSize][|b.data|..] == mem[b.End()..b.at + newSize];
      assert b'.data[|b.data|..] == Zeros(newSize - |b.data|);
    }
  }
}
