/** The stack allocator refines a list of independent blocks.

    `Represents` ties a buffer to the list of live blocks that its clients see; every operation on the
    buffer then does to the list what `Next` says, in which no byte of the buffer appears. */
module StackLive {
  import opened Bytes
  import opened Bits
  import opened BaseMem
  import opened Padding
  import opened BaseStack

  /** A live block: the padding in front of it and the bytes its owner sees. */
  datatype Block = Block(padding: nat, data: seq<byte>)

  /** The bytes taken by padding and data of all blocks. */
  function Extent(live: seq<Block>): nat {
    if |live| == 0 then 0
    else
      var last := live[|live| - 1];
      Extent(live[..|live| - 1]) + last.padding + |last.data|
  }

  /** The position of the data of block `k`. */
  function StartOf(live: seq<Block>, k: nat): nat
    requires k < |live|
  {
    Extent(live[..k]) + live[k].padding
  }

  /** The header byte and the data of a block are in the buffer, the data at position `at`. */
  ghost predicate HoldsAt(mem: seq<byte>, b: Block, at: int) {
    && HEADER_SIZE <= b.padding <= 129
    && b.padding <= at && at + |b.data| <= |mem|
    && mem[at - HEADER_SIZE] == b.padding
    && mem[at..at + |b.data|] == b.data
  }

  ghost predicate Holds(mem: seq<byte>, live: seq<Block>, k: nat)
    requires k < |live|
  {
    HoldsAt(mem, live[k], StartOf(live, k))
  }

  ghost predicate InBuffer(mem: seq<byte>, live: seq<Block>) {
    forall k :: 0 <= k < |live| ==> Holds(mem, live, k)
  }

  ghost predicate Represents(s: Stack, live: seq<Block>) {
    && s.Mapped()
    && s.offset == Extent(live) <= s.capacity
    && InBuffer(s.mem, live)
  }

  lemma {:induction false} ExtentMonotone(live: seq<Block>, k: nat)
    requires k <= |live|
    ensures Extent(live[..k]) <= Extent(live)
  {
    if k == |live| {
      assert live[..k] == live;
    } else {
      var front := live[..|live| - 1];
      ExtentMonotone(front, k);
      assert front[..k] == live[..k];
    }
  }

  /** Block `k` ends where the blocks up to and including it end. */
  lemma {:induction false} EndOf(live: seq<Block>, k: nat)
    requires k < |live|
    ensures StartOf(live, k) + |live[k].data| == Extent(live[..k + 1]) <= Extent(live)
  {
    assert live[..k + 1][..k] == live[..k];
    ExtentMonotone(live, k + 1);
  }

  /** Distinct blocks, with their padding, lie one after the other. */
  lemma {:induction false} BlocksOrdered(live: seq<Block>, j: nat, k: nat)
    requires j < k < |live|
    ensures StartOf(live, j) + |live[j].data| <= StartOf(live, k) - live[k].padding
  {
    EndOf(live, j);
    ExtentMonotone(live[..k], j + 1);
    assert live[..k][..j + 1] == live[..j + 1];
  }

  /** Dropping blocks from the top. */
  lemma {:induction false} DropTop(mem: seq<byte>, live: seq<Block>, n: nat)
    requires n <= |live| && InBuffer(mem, live)
    ensures InBuffer(mem, live[..n])
  {
    forall k | 0 <= k < n ensures Holds(mem, live[..n], k) {
      assert live[..n][..k] == live[..k];
      assert Holds(mem, live, k);
    }
  }

  /** Only bytes below the extent matter. */
  lemma {:induction false} Frame(mem: seq<byte>, mem': seq<byte>, live: seq<Block>)
    requires InBuffer(mem, live) && |mem'| == |mem|
    requires Extent(live) <= |mem|
    requires forall i :: 0 <= i < Extent(live) ==> mem'[i] == mem[i]
    ensures InBuffer(mem', live)
  {
    forall k | 0 <= k < |live| ensures Holds(mem', live, k) {
      assert Holds(mem, live, k);
      EndOf(live, k);
    }
  }

  lemma {:induction false} TopOf(live: seq<Block>, b: Block)
    ensures StartOf(live + [b], |live|) == Extent(live) + b.padding
    ensures Extent(live + [b]) == Extent(live) + b.padding + |b.data|
  {
    assert (live + [b])[..|live|] == live;
  }

  lemma {:induction false} BelowTop(live: seq<Block>, b: Block, k: nat)
    requires k < |live|
    ensures StartOf(live + [b], k) == StartOf(live, k)
  {
    assert (live + [b])[..k] == live[..k];
  }

  /** Adding a block on top. */
  lemma {:induction false} AddTop(mem: seq<byte>, live: seq<Block>, b: Block)
    requires InBuffer(mem, live)
    requires HoldsAt(mem, b, Extent(live) + b.padding)
    ensures InBuffer(mem, live + [b])
  {
    TopOf(live, b);
    forall k | 0 <= k < |live + [b]| ensures Holds(mem, live + [b], k) {
      if k < |live| {
        BelowTop(live, b, k);
        assert Holds(mem, live, k);
      }
    }
  }

  // ---------------------------------------------------------------------------------------------
  // The list of blocks by itself

  datatype Op =
    | OpPush(size: u64)
    | OpPushAlign(size: u64, alignment: u64)
    | OpPop(k: nat)
    | OpPopFreed(pointer: u64)
    | OpPopAll
    | OpWrite(k: nat, at: nat, value: byte)
    | OpResize(k: nat, newSize: u64, alignment: u64)
    | OpResizeNone(pointer: u64, oldSize: u64, newSize: u64, alignment: u64)

  datatype Effect = Crash | Then(live: seq<Block>, pointer: u64)

  /** The padding of a block pushed at this address: as written, the address does not matter;
      repaired, it leads to the next aligned address behind the header. */
  function PaddingFor(form: Form, address: nat, alignment: u64): (p: nat)
    ensures HEADER_SIZE <= p <= 129
  {
    var a := Clamp(alignment);
    if form == AsWritten || a == 0 then
      if a < HEADER_SIZE then HEADER_SIZE else a
    else
      RoundUp(address + HEADER_SIZE, a) - address
  }

  /** The padding of the next block. */
  function TopPadding(setting: Setting, live: seq<Block>, alignment: u64): (p: nat)
    ensures HEADER_SIZE <= p <= 129
  {
    PaddingFor(setting.forms.padding, setting.base + Extent(live), alignment)
  }

  /** A block with the given bytes goes on top if there is room; the pointer is 0 if there is not.
      A size so large that the sum wraps back into the buffer crashes. */
  function Pushed(setting: Setting, live: seq<Block>, data: seq<byte>, alignment: u64): Effect
    requires setting.Sound()
  {
    var padding := TopPadding(setting, live, alignment);
    var top := Extent(live) + padding + |data|;
    if !IsPow(alignment) then Then(live, 0)
    else if alignment == 0 then Crash
    else if top <= setting.capacity then
      Then(live + [Block(padding, data)], setting.base + top - |data|)
    else if TWO_64 <= top <= TWO_64 + setting.capacity then Crash
    else Then(live, 0)
  }

  /** Blocks from this position on are out of reach of pop. */
  function Reach(setting: Setting, live: seq<Block>): nat {
    if setting.forms.popLimit == AsWritten then setting.base else Extent(live)
  }

  /** The addresses that lines 118 and 127 turn away.  With line 127 repaired these are exactly NULL, the
      addresses outside the buffer, and those at or above the end of the live blocks, so also every
      block that was freed and whose place was not used again. */
  predicate OutOfReach(setting: Setting, live: seq<Block>, pointer: u64) {
    || !(setting.base <= pointer < setting.base + setting.capacity)
    || pointer >= setting.base + Reach(setting, live)
  }

  function Popped(setting: Setting, live: seq<Block>, k: nat): seq<Block>
    requires k < |live|
  {
    if StartOf(live, k) < setting.capacity && StartOf(live, k) < Reach(setting, live) then live[..k] else live
  }

  /** A resize to another size puts a new block on top. */
  function Resized(setting: Setting, live: seq<Block>, k: nat, newSize: u64, alignment: u64): Effect
    requires setting.Sound()
    requires k < |live|
  {
    var data, pointer := live[k].data, Wrap(setting.base + StartOf(live, k));
    if newSize == 0 then
      Then(Popped(setting, live, k), 0)
    else if StartOf(live, k) >= Extent(live) then
      Then(live, 0)
    else if |data| == newSize then
      Then(live, pointer)
    else
      Relocated(setting, live, data, pointer, newSize, alignment)
  }

  function Relocated(setting: Setting, live: seq<Block>, data: seq<byte>, pointer: u64,
                     newSize: u64, alignment: u64): Effect
    requires setting.Sound()
  {
    match Pushed(setting, live, Refit(data, newSize), alignment)
    case Crash => Crash
    case Then(live', moved) =>
      if moved == 0 && |data| > 0 then Crash
      else Then(live', if setting.forms.resize == AsWritten then pointer else moved)
  }

  /** The addresses other than NULL for which a resize does nothing: those that lines 158 and 163 turn away,
      and for a resize to nothing those that pop turns away. */
  predicate NoBlock(setting: Setting, live: seq<Block>, pointer: u64, newSize: u64) {
    if newSize == 0 then OutOfReach(setting, live, pointer)
    else
      || !(setting.base <= pointer < setting.base + setting.capacity)
      || pointer >= setting.base + Extent(live)
  }

  /** Clients name live blocks and write inside them, or pop or resize NULL or an address without a block. */
  predicate Allowed(setting: Setting, live: seq<Block>, op: Op) {
    match op
    case OpPop(k) => k < |live|
    case OpPopFreed(pointer) => OutOfReach(setting, live, pointer)
    case OpWrite(k, at, _) => k < |live| && at < |live[k].data|
    case OpResize(k, _, _) => k < |live|
    case OpResizeNone(pointer, _, newSize, _) => pointer == 0 || NoBlock(setting, live, pointer, newSize)
    case _ => true
  }

  function Next(setting: Setting, live: seq<Block>, op: Op): Effect
    requires setting.Sound() && Allowed(setting, live, op)
  {
    match op
    case OpPush(size) => Pushed(setting, live, Zeros(size), ARENA_ALIGN)
    case OpPushAlign(size, alignment) => Pushed(setting, live, Zeros(size), alignment)
    case OpPop(k) => Then(Popped(setting, live, k), 0)
    case OpPopFreed(_) => Then(live, 0)
    case OpPopAll => Then([], 0)
    case OpWrite(k, at, value) => Then(live[k := live[k].(data := live[k].data[at := value])], 0)
    case OpResize(k, newSize, alignment) => Resized(setting, live, k, newSize, alignment)
    case OpResizeNone(pointer, _, newSize, alignment) =>
      if pointer == 0 then Pushed(setting, live, Zeros(newSize), alignment) else Then(live, 0)
  }

  // ---------------------------------------------------------------------------------------------
  // One operation on the buffer

  /** What reaches the allocator: addresses and sizes. */
  datatype Call =
    | CallPush(size: u64)
    | CallPushAlign(size: u64, alignment: u64)
    | CallPop(pointer: u64)
    | CallPopAll
    | CallWrite(pointer: u64, value: byte)
    | CallResize(pointer: u64, oldSize: u64, newSize: u64, alignment: u64)

  /** The call a client makes to act on the blocks it knows. */
  function Resolve(setting: Setting, live: seq<Block>, op: Op): Call
    requires Allowed(setting, live, op)
  {
    match op
    case OpPush(size) => CallPush(size)
    case OpPushAlign(size, alignment) => CallPushAlign(size, alignment)
    case OpPop(k) => CallPop(Wrap(setting.base + StartOf(live, k)))
    case OpPopFreed(pointer) => CallPop(pointer)
    case OpPopAll => CallPopAll
    case OpWrite(k, at, value) => CallWrite(Wrap(setting.base + StartOf(live, k) + at), value)
    case OpResize(k, newSize, alignment) =>
      CallResize(Wrap(setting.base + StartOf(live, k)), Wrap(|live[k].data|), newSize, alignment)
    case OpResizeNone(pointer, oldSize, newSize, alignment) => CallResize(pointer, oldSize, newSize, alignment)
  }

  function Execute(s: Stack, call: Call): Outcome
    requires s.Mapped()
  {
    match call
    case CallPush(size) => Push(s, size)
    case CallPushAlign(size, alignment) => PushAlign(s, size, alignment)
    case CallPop(pointer) => Done(Pop(s, pointer), 0)
    case CallPopAll => Done(PopAll(s), 0)
    case CallWrite(pointer, value) => WriteByte(s, pointer, value)
    case CallResize(pointer, oldSize, newSize, alignment) => ResizeAlign(s, pointer, oldSize, newSize, alignment)
  }

  /** A client's store through a pointer. */
  function WriteByte(s: Stack, pointer: u64, value: byte): Outcome
    requires s.Mapped()
  {
    if s.base <= pointer < s.base + s.capacity then
      Done(s.(mem := s.mem[pointer - s.base := value]), 0)
    else
      Fault
  }

  /** The buffer does what the list does. */
  ghost predicate Agrees(s: Stack, o: Outcome, e: Effect) {
    match e
    case Crash => o == Fault
    case Then(live, pointer) =>
      o.Done? && o.pointer == pointer && Represents(o.stack, live)
      && o.stack.Fixed() == s.Fixed()
  }

  /** The padding computed by the source fits in the header byte, and as written depends on the
      alignment alone. */
  lemma {:induction false} PaddingComputed(form: Form, pointer: u64, alignment: u64)
    requires IsPow(alignment) && alignment != 0
    ensures IsPow(Clamp(alignment))
    ensures CalculatePadding(form, pointer, Clamp(alignment), HEADER_SIZE) == PaddingFor(form, pointer, alignment)
    ensures HEADER_SIZE <= PaddingFor(form, pointer, alignment) <= if form == AsWritten then 128 else 129
  {
    ClampIsPow(alignment);
    if form == AsWritten {
      AsWrittenIsMultiple(pointer, Clamp(alignment), HEADER_SIZE);
      SmallHeader(Clamp(alignment));
    } else {
      RepairedIsDistance(pointer, Clamp(alignment), HEADER_SIZE);
      RepairedPaddingFits(pointer, Clamp(alignment));
    }
  }

  lemma {:induction false} ClampIsPow(alignment: u64)
    requires IsPow(alignment)
    ensures IsPow(Clamp(alignment))
  {
    assert Pow2(7) == 128;
    IsPowExact(128);
  }

  lemma {:induction false} SmallHeader(a: u64)
    requires a > 0
    ensures RoundUp(HEADER_SIZE, a) == if a < HEADER_SIZE then HEADER_SIZE else a
  {
  }

  /** The bytes that a push writes. */
  lemma {:induction false} PushWrites(mem: seq<byte>, at: nat, padding: byte, size: nat)
    requires HEADER_SIZE <= padding <= 129 && padding <= at && at + size <= |mem|
    ensures HoldsAt(WriteBlock(mem, at, padding, size), Block(padding, Zeros(size)), at)
    ensures forall i :: 0 <= i < at - padding ==> WriteBlock(mem, at, padding, size)[i] == mem[i]
  {
    var marked := Store(mem, at - HEADER_SIZE, [padding]);
    assert marked[at - HEADER_SIZE] == marked[at - HEADER_SIZE..at - HEADER_SIZE + 1][0];
  }

  lemma {:induction false} PushKeepsBlocks(mem: seq<byte>, live: seq<Block>, padding: byte, size: nat, at: nat)
    requires InBuffer(mem, live) && HEADER_SIZE <= padding <= 129
    requires at == Extent(live) + padding && at + size <= |mem|
    ensures InBuffer(WriteBlock(mem, at, padding, size), live + [Block(padding, Zeros(size))])
  {
    var mem' := WriteBlock(mem, at, padding, size);
    PushWrites(mem, at, padding, size);
    Frame(mem, mem', live);
    AddTop(mem', live, Block(padding, Zeros(size)));
  }

  /** `PushPadded` in terms of positions. */
  lemma {:induction false} PushPaddedIs(s: Stack, size: u64, address: u64, padding: u64,
        top: u64, next: u64, at: int, header: byte)
    requires s.Mapped() && top == Wrap(s.offset + padding + size) && header == padding % 256
    requires next == Wrap(address + padding) && at == next - s.base
    ensures var o := PushPadded(s, size, address, padding);
      if top > s.capacity then
        o == Done(s, 0)
      else if HEADER_SIZE <= at && at + size <= s.capacity then
        && o.Done? && o.pointer == next && o.stack.Fixed() == s.Fixed() && o.stack.offset == top
        && o.stack.mem == WriteBlock(s.mem, at, header, size)
      else
        o == Fault
  {
  }

  /** `MoveTo` in terms of positions. */
  lemma {:induction false} MoveToIs(s: Stack, pointer: u64, moved: u64, size: nat, from: nat, to: nat, at: int)
    requires s.Mapped() && from == pointer - s.base < s.capacity
    requires to == pointer - s.base + size && at == moved - s.base
    ensures var o := MoveTo(s, pointer, moved, size);
      && (o.Done? ==> o.stack.Fixed() == s.Fixed() && o.stack.offset == s.offset
                      && o.pointer == if s.forms.resize == AsWritten then pointer else moved)
      && if size == 0 then
           o.Done? && o.stack.mem == s.mem
         else if 0 <= at && at + size <= s.capacity && to <= s.capacity then
           o.Done? && o.stack.mem == Store(s.mem, at, s.mem[from..to])
         else
           o == Fault
  {
  }

  lemma {:induction false} PushFits(s: Stack, size: u64, address: u64, padding: byte, at: nat, top: u64, pointer: u64)
    requires s.Mapped() && HEADER_SIZE <= padding && address == s.base + s.offset && at == s.offset + padding
    requires top == s.offset + padding + size <= s.capacity && pointer == s.base + s.offset + padding
    ensures var o := PushPadded(s, size, address, padding);
      && o.Done? && o.pointer == pointer && o.stack.Fixed() == s.Fixed() && o.stack.offset == top
      && o.stack.mem == WriteBlock(s.mem, at, padding, size)
  {
    SumFits(s.offset, padding, size);
    SumFits(s.base, s.offset, padding);
    PushPaddedIs(s, size, address, padding, top, pointer, at, padding);
  }

  lemma {:induction false} SumFits(a: nat, b: nat, c: nat)
    requires a + b + c < TWO_64
    ensures Wrap(a + b + c) == a + b + c
  {
  }

  lemma {:induction false} PushDoesNotFit(s: Stack, size: u64, address: u64, padding: nat)
    requires s.Mapped() && s.offset <= s.capacity && HEADER_SIZE <= padding <= 129 && address == s.base + s.offset
    requires s.offset + padding + size > s.capacity
    ensures PushPadded(s, size, address, padding)
         == if TWO_64 <= s.offset + padding + size <= TWO_64 + s.capacity then Fault else Done(s, 0)
  {
    WrapOnce(s.offset + padding, size);
    SumFits(s.base, s.offset, padding);
    PushPaddedIs(s, size, address, padding, Wrap(s.offset + padding + size), s.base + s.offset + padding,
                 s.offset + padding, padding);
  }

  lemma {:induction false} WrapOnce(x: u64, size: u64)
    ensures Wrap(x + size) == if x + size < TWO_64 then x + size else x + size - TWO_64
  {
  }

  lemma {:induction false} PushedFits(setting: Setting, live: seq<Block>, data: seq<byte>, alignment: u64,
        padding: nat, pointer: u64)
    requires setting.Sound() && IsPow(alignment) && alignment != 0 && padding == TopPadding(setting, live, alignment)
    requires Extent(live) + padding + |data| <= setting.capacity && pointer == setting.base + Extent(live) + padding
    ensures Pushed(setting, live, data, alignment) == Then(live + [Block(padding, data)], pointer)
  {
  }

  lemma {:induction false} PushFitsAgrees(s: Stack, live: seq<Block>, size: u64, alignment: u64,
        address: u64, padding: nat)
    requires Represents(s, live) && IsPow(alignment) && alignment != 0
    requires address == s.base + s.offset && padding == TopPadding(s.Fixed(), live, alignment)
    requires s.offset + padding + size <= s.capacity
    ensures Agrees(s, PushPadded(s, size, address, padding), Pushed(s.Fixed(), live, Zeros(size), alignment))
  {
    var at, top, pointer := s.offset + padding, s.offset + padding + size, s.base + s.offset + padding;
    PushFits(s, size, address, padding, at, top, pointer);
    PushKeepsBlocks(s.mem, live, padding, size, at);
    TopOf(live, Block(padding, Zeros(size)));
    PushedFits(s.Fixed(), live, Zeros(size), alignment, padding, pointer);
  }

  lemma {:induction false} PushPaddedAgrees(s: Stack, live: seq<Block>, size: u64, alignment: u64,
        address: u64, padding: nat)
    requires Represents(s, live) && IsPow(alignment) && alignment != 0
    requires address == s.base + s.offset && padding == TopPadding(s.Fixed(), live, alignment)
    ensures Agrees(s, PushPadded(s, size, address, padding), Pushed(s.Fixed(), live, Zeros(size), alignment))
  {
    if s.offset + padding + size <= s.capacity {
      PushFitsAgrees(s, live, size, alignment, address, padding);
    } else {
      PushDoesNotFit(s, size, address, padding);
    }
  }

  lemma {:induction false} PushAgrees(s: Stack, live: seq<Block>, size: u64, alignment: u64)
    requires Represents(s, live)
    ensures Agrees(s, PushAlign(s, size, alignment), Pushed(s.Fixed(), live, Zeros(size), alignment))
  {
    if IsPow(alignment) && alignment != 0 {
      var address, padding := s.base + s.offset, TopPadding(s.Fixed(), live, alignment);
      PushAlignPads(s, live, size, alignment, address, padding);
      PushPaddedAgrees(s, live, size, alignment, address, padding);
    } else {
      PushRefused(s, live, size, alignment);
    }
  }

  lemma {:induction false} PushRefused(s: Stack, live: seq<Block>, size: u64, alignment: u64)
    requires Represents(s, live) && (!IsPow(alignment) || alignment == 0)
    ensures Agrees(s, PushAlign(s, size, alignment), Pushed(s.Fixed(), live, Zeros(size), alignment))
  {
  }

  lemma {:induction false} PushAlignIs(s: Stack, size: u64, alignment: u64, address: u64, padding: u64)
    requires s.Mapped() && IsPow(alignment) && alignment != 0
    requires address == Wrap(s.base + s.offset)
    requires padding == CalculatePadding(s.forms.padding, address, Clamp(alignment), HEADER_SIZE)
    ensures PushAlign(s, size, alignment) == PushPadded(s, size, address, padding)
  {
  }

  lemma {:induction false} PushAlignPads(s: Stack, live: seq<Block>, size: u64, alignment: u64,
        address: u64, padding: nat)
    requires Represents(s, live) && IsPow(alignment) && alignment != 0
    requires address == s.base + s.offset && padding == TopPadding(s.Fixed(), live, alignment)
    ensures PushAlign(s, size, alignment) == PushPadded(s, size, address, padding)
  {
    SmallSums(s.base, s.offset);
    TopPaddingComputed(s, live, alignment, address, padding);
    PushAlignIs(s, size, alignment, address, padding);
  }

  lemma {:induction false} TopPaddingComputed(s: Stack, live: seq<Block>, alignment: u64, address: u64, padding: nat)
    requires Represents(s, live) && IsPow(alignment) && alignment != 0
    requires address == s.base + s.offset && padding == TopPadding(s.Fixed(), live, alignment)
    ensures padding == CalculatePadding(s.forms.padding, address, Clamp(alignment), HEADER_SIZE)
  {
    assert padding == PaddingFor(s.forms.padding, address, alignment);
    PaddingComputed(s.forms.padding, address, alignment);
  }

  lemma {:induction false} AgreesThen(s: Stack, s': Stack, live: seq<Block>, pointer: u64)
    requires Represents(s', live) && s'.Fixed() == s.Fixed()
    ensures Agrees(s, Done(s', pointer), Then(live, pointer))
  {
  }

  /** The header byte that push wrote is what pop reads: the blocks above go, and nothing else. */
  lemma {:induction false} PopAgrees(s: Stack, live: seq<Block>, k: nat)
    requires Represents(s, live) && k < |live|
    ensures s.base + StartOf(live, k) < TWO_64
    ensures Agrees(s, Done(Pop(s, s.base + StartOf(live, k)), 0), Then(Popped(s.Fixed(), live, k), 0))
  {
    EndOf(live, k);
    PopAgreesAt(s, live, k, s.base + StartOf(live, k), StartOf(live, k));
  }

  lemma {:induction false} PopAgreesAt(s: Stack, live: seq<Block>, k: nat, pointer: u64, at: nat)
    requires Represents(s, live) && k < |live| && at == StartOf(live, k) && pointer == s.base + at
    ensures Agrees(s, Done(Pop(s, pointer), 0), Then(Popped(s.Fixed(), live, k), 0))
  {
    EndOf(live, k);
    assert Holds(s.mem, live, k);
    DropTop(s.mem, live, k);
    ExtentMonotone(live, k);
    PopValue(s, pointer, at, live[k].padding);
  }

  lemma {:induction false} PopValue(s: Stack, pointer: u64, at: nat, padding: byte)
    requires s.Mapped() && s.offset <= s.capacity && pointer == s.base + at
    requires HEADER_SIZE <= at <= s.capacity && padding <= at && s.mem[at - HEADER_SIZE] == padding
    ensures Pop(s, pointer)
         == if at < s.capacity && at < (if s.forms.popLimit == AsWritten then s.base else s.offset)
            then s.(offset := at - padding) else s
  {
    PopLimitIs(s);
    if at < s.capacity {
      assert pointer - s.base == at && HeaderByte(s, at) == padding;
      SmallSums(0, at - padding);
    }
  }

  lemma {:induction false} PopLimitIs(s: Stack)
    requires s.Mapped() && s.offset <= s.capacity
    ensures PopLimit(s) == s.base + if s.forms.popLimit == AsWritten then s.base else s.offset
  {
  }

  /** Positions depend on sizes alone. */
  lemma {:induction false} ExtentOfSizes(live: seq<Block>, live': seq<Block>)
    requires |live| == |live'|
    requires forall i :: 0 <= i < |live| ==> live[i].padding == live'[i].padding && |live[i].data| == |live'[i].data|
    ensures Extent(live) == Extent(live')
  {
    if |live| > 0 {
      ExtentOfSizes(live[..|live| - 1], live'[..|live'| - 1]);
    }
  }

  lemma {:induction false} StartOfSizes(live: seq<Block>, k: nat, data: seq<byte>, j: nat)
    requires k < |live| && j < |live| && |data| == |live[k].data|
    ensures var live' := live[k := live[k].(data := data)];
      StartOf(live', j) == StartOf(live, j) && Extent(live') == Extent(live)
  {
    var live' := live[k := live[k].(data := data)];
    ExtentOfSizes(live, live');
    ExtentOfSizes(live[..j], live'[..j]);
  }

  /** A write inside a block changes that block and no other. */
  lemma {:induction false} WriteAgrees(s: Stack, live: seq<Block>, k: nat, at: nat, value: byte)
    requires Represents(s, live) && k < |live| && at < |live[k].data|
    ensures StartOf(live, k) + at < |s.mem|
    ensures Represents(s.(mem := s.mem[StartOf(live, k) + at := value]),
                       live[k := live[k].(data := live[k].data[at := value])])
  {
    EndOf(live, k);
    var data := live[k].data[at := value];
    var live' := live[k := live[k].(data := data)];
    var mem' := s.mem[StartOf(live, k) + at := value];
    StartOfSizes(live, k, data, k);
    forall j | 0 <= j < |live'| ensures Holds(mem', live', j) {
      StartOfSizes(live, k, data, j);
      WriteKeeps(s.mem, live, k, at, value, j);
    }
  }

  lemma {:induction false} WriteKeeps(mem: seq<byte>, live: seq<Block>, k: nat, at: nat, value: byte, j: nat)
    requires k < |live| && at < |live[k].data| && j < |live|
    requires Holds(mem, live, k) && Holds(mem, live, j)
    ensures HoldsAt(mem[StartOf(live, k) + at := value],
                    if j == k then live[k].(data := live[k].data[at := value]) else live[j],
                    StartOf(live, j))
  {
    if j < k {
      BlocksOrdered(live, j, k);
    } else if k < j {
      BlocksOrdered(live, k, j);
    }
  }

  /** Filling the leading bytes of the top block. */
  lemma {:induction false} RewriteTop(s: Stack, live: seq<Block>, b: Block, prefix: seq<byte>, at: nat, b': Block)
    requires Represents(s, live + [b]) && |prefix| <= |b.data| && at == Extent(live) + b.padding
    requires b' == Block(b.padding, prefix + b.data[|prefix|..])
    ensures at + |prefix| <= |s.mem|
    ensures Represents(s.(mem := Store(s.mem, at, prefix)), live + [b'])
  {
    TopOf(live, b);
    TopOf(live, b');
    var mem' := Store(s.mem, at, prefix);
    assert Holds(s.mem, live + [b], |live|);
    assert (live + [b])[..|live|] == live;
    DropTop(s.mem, live + [b], |live|);
    Frame(s.mem, mem', live);
    RewriteBytes(s.mem, at, b.data, prefix);
    AddTop(mem', live, b');
  }

  lemma {:induction false} RewriteBytes(mem: seq<byte>, at: nat, data: seq<byte>, prefix: seq<byte>)
    requires at + |data| <= |mem| && mem[at..at + |data|] == data && |prefix| <= |data|
    ensures Store(mem, at, prefix)[at..at + |data|] == prefix + data[|prefix|..]
  {
  }

  lemma {:induction false} KeptThenZeros(data: seq<byte>, size: nat, m: nat)
    requires m == Min(|data|, size)
    ensures data[..m] + Zeros(size)[m..] == Refit(data, size)
  {
    RefitSplit(data, size);
    assert Zeros(size)[m..] == Zeros(size - m);
  }

  lemma {:induction false} ReadBlock(mem: seq<byte>, live: seq<Block>, k: nat, keep: nat)
    requires InBuffer(mem, live) && k < |live| && keep <= |live[k].data|
    ensures StartOf(live, k) + keep <= |mem|
    ensures mem[StartOf(live, k)..StartOf(live, k) + keep] == live[k].data[..keep]
  {
    assert Holds(mem, live, k);
    var at, data := StartOf(live, k), live[k].data;
    assert mem[at..at + |data|][..keep] == mem[at..at + keep];
  }

  lemma {:induction false} MoveValue(s: Stack, from: nat, at: nat, pointer: u64, moved: u64, data: seq<byte>, size: nat)
    requires s.Mapped() && from < s.capacity && from + |data| <= s.capacity && at + |data| <= s.capacity
    requires pointer == s.base + from && moved == s.base + at && size == |data|
    requires s.mem[from..from + |data|] == data
    ensures MoveTo(s, pointer, moved, size)
         == Done(s.(mem := Store(s.mem, at, data)), if s.forms.resize == AsWritten then pointer else moved)
  {
    if size == 0 {
      assert Store(s.mem, at, data) == s.mem;
    } else {
      MoveToIs(s, pointer, moved, size, from, from + |data|, at);
    }
  }

  /** After the push, the move fills the new block from the old one. */
  lemma {:induction false} MoveAgrees(s: Stack, live: seq<Block>, k: nat, padding: nat, size: u64,
        pointer: u64, moved: u64)
    requires k < |live| && Represents(s, live + [Block(padding, Zeros(size))])
    requires pointer == s.base + StartOf(live, k) < s.base + s.capacity
    requires moved == s.base + Extent(live) + padding
    ensures var data := live[k].data;
      Agrees(s, MoveTo(s, pointer, moved, Min(|data|, size)),
             Then(live + [Block(padding, Refit(data, size))], if s.forms.resize == AsWritten then pointer else moved))
  {
    var b, b' := Block(padding, Zeros(size)), Block(padding, Refit(live[k].data, size));
    var n, from, at := Min(|live[k].data|, size), StartOf(live, k), Extent(live) + padding;
    var kept := live[k].data[..n];
    BelowTop(live, b, k);
    ReadBlock(s.mem, live + [b], k, n);
    KeptThenZeros(live[k].data, size, n);
    RewriteTop(s, live, b, kept, at, b');
    MoveValue(s, from, at, pointer, moved, kept, n);
    AgreesThen(s, s.(mem := Store(s.mem, at, kept)), live + [b'],
               if s.forms.resize == AsWritten then pointer else moved);
  }

  lemma {:induction false} PushedSizes(setting: Setting, live: seq<Block>, data: seq<byte>, alignment: u64)
    requires setting.Sound()
    ensures var e, f := Pushed(setting, live, data, alignment), Pushed(setting, live, Zeros(|data|), alignment);
      && (e.Crash? <==> f.Crash?)
      && (e.Then? ==> e.pointer == f.pointer)
      && (e.Then? && e.pointer == 0 ==> e.live == f.live == live)
      && (e.Then? && e.pointer != 0 ==>
            var padding := TopPadding(setting, live, alignment);
            && e.live == live + [Block(padding, data)]
            && f.live == live + [Block(padding, Zeros(|data|))]
            && e.pointer == setting.base + Extent(live) + padding)
  {
  }

  lemma {:induction false} RelocateAgrees(s: Stack, live: seq<Block>, k: nat, pointer: u64, newSize: u64,
        alignment: u64)
    requires Represents(s, live) && k < |live|
    requires pointer == s.base + StartOf(live, k) < s.base + s.capacity
    requires newSize != 0
    ensures var data := live[k].data;
      Agrees(s, Relocate(s, pointer, Min(|data|, newSize), newSize, alignment),
             Relocated(s.Fixed(), live, data, pointer, newSize, alignment))
  {
    PushAgrees(s, live, newSize, alignment);
    PushedSizes(s.Fixed(), live, Refit(live[k].data, newSize), alignment);
    var o := PushAlign(s, newSize, alignment);
    if o.Done? && o.pointer != 0 {
      MoveAgrees(o.stack, live, k, TopPadding(s.Fixed(), live, alignment), newSize, pointer, o.pointer);
    }
  }

  lemma {:induction false} SmallSums(base: nat, offset: nat)
    requires base + offset <= ADDRESS_LIMIT
    ensures Wrap(base + offset) == base + offset
  {
  }

  /** A resize to nothing is a pop. */
  lemma {:induction false} ResizeToZeroAgrees(s: Stack, live: seq<Block>, k: nat, alignment: u64, pointer: u64,
        oldSize: u64)
    requires Represents(s, live) && k < |live|
    requires pointer == s.base + StartOf(live, k)
    ensures Agrees(s, ResizeAlign(s, pointer, oldSize, 0, alignment),
                   Resized(s.Fixed(), live, k, 0, alignment))
  {
    PopAgrees(s, live, k);
  }

  lemma {:induction false} ResizeRelocates(s: Stack, pointer: u64, oldSize: u64, newSize: u64, alignment: u64)
    requires s.Mapped() && s.offset <= s.capacity && s.base <= pointer < s.base + s.offset
    requires newSize != 0 && newSize != oldSize
    ensures ResizeAlign(s, pointer, oldSize, newSize, alignment)
         == Relocate(s, pointer, Min(oldSize, newSize), newSize, alignment)
  {
    SmallSums(s.base, s.offset);
    ResizeIsRelocate(s, pointer, oldSize, newSize, alignment, Min(oldSize, newSize));
  }

  lemma {:induction false} ResizeIsRelocate(s: Stack, pointer: u64, oldSize: u64, newSize: u64, alignment: u64,
        keep: nat)
    requires s.Mapped() && s.base <= pointer < s.base + s.capacity && pointer < Wrap(s.base + s.offset)
    requires newSize != 0 && newSize != oldSize && keep == Min(oldSize, newSize)
    ensures ResizeAlign(s, pointer, oldSize, newSize, alignment) == Relocate(s, pointer, keep, newSize, alignment)
  {
  }

  lemma {:induction false} ResizeMovesAgrees(s: Stack, live: seq<Block>, k: nat, newSize: u64, alignment: u64,
        pointer: u64, oldSize: u64)
    requires Represents(s, live) && k < |live|
    requires pointer == s.base + StartOf(live, k) && oldSize == |live[k].data|
    requires newSize != 0 && newSize != oldSize && StartOf(live, k) < Extent(live)
    ensures Agrees(s, ResizeAlign(s, pointer, oldSize, newSize, alignment),
                   Relocated(s.Fixed(), live, live[k].data, pointer, newSize, alignment))
  {
    ResizeRelocates(s, pointer, oldSize, newSize, alignment);
    RelocateAgrees(s, live, k, pointer, newSize, alignment);
  }

  lemma {:induction false} ResizedMoves(setting: Setting, live: seq<Block>, k: nat, newSize: u64,
        alignment: u64, pointer: u64)
    requires setting.Sound() && k < |live| && Extent(live) <= setting.capacity
    requires pointer == setting.base + StartOf(live, k)
    requires newSize != 0 && newSize != |live[k].data| && StartOf(live, k) < Extent(live)
    ensures Resized(setting, live, k, newSize, alignment)
         == Relocated(setting, live, live[k].data, pointer, newSize, alignment)
  {
    SmallSums(setting.base, StartOf(live, k));
  }

  lemma {:induction false} ResizeStaysAgrees(s: Stack, live: seq<Block>, k: nat, newSize: u64, alignment: u64,
        pointer: u64, oldSize: u64)
    requires Represents(s, live) && k < |live|
    requires pointer == s.base + StartOf(live, k) && oldSize == |live[k].data|
    requires newSize != 0 && (newSize == oldSize || StartOf(live, k) >= Extent(live))
    ensures Agrees(s, ResizeAlign(s, pointer, oldSize, newSize, alignment),
                   Resized(s.Fixed(), live, k, newSize, alignment))
  {
    EndOf(live, k);
    SmallSums(s.base, s.offset);
    SmallSums(s.base, StartOf(live, k));
  }

  lemma {:induction false} ResizeAgrees(s: Stack, live: seq<Block>, k: nat, newSize: u64, alignment: u64,
        pointer: u64, oldSize: u64)
    requires Represents(s, live) && k < |live|
    requires pointer == s.base + StartOf(live, k) && oldSize == |live[k].data|
    ensures Agrees(s, ResizeAlign(s, pointer, oldSize, newSize, alignment),
                   Resized(s.Fixed(), live, k, newSize, alignment))
  {
    if newSize == 0 {
      ResizeToZeroAgrees(s, live, k, alignment, pointer, oldSize);
    } else if newSize == oldSize || StartOf(live, k) >= Extent(live) {
      ResizeStaysAgrees(s, live, k, newSize, alignment, pointer, oldSize);
    } else {
      ResizeMovesAgrees(s, live, k, newSize, alignment, pointer, oldSize);
      ResizedMoves(s.Fixed(), live, k, newSize, alignment, pointer);
    }
  }

  /** What has to be shown of one operation. */
  ghost predicate OpAgrees(s: Stack, live: seq<Block>, op: Op)
    requires Represents(s, live) && Allowed(s.Fixed(), live, op)
  {
    Agrees(s, Execute(s, Resolve(s.Fixed(), live, op)), Next(s.Fixed(), live, op))
  }

  lemma {:induction false} PushOpAgrees(s: Stack, live: seq<Block>, op: Op)
    requires Represents(s, live) && (op.OpPush? || op.OpPushAlign?)
    ensures OpAgrees(s, live, op)
  {
    PushAgrees(s, live, op.size, if op.OpPush? then ARENA_ALIGN else op.alignment);
  }

  lemma {:induction false} PopOpAgrees(s: Stack, live: seq<Block>, op: Op)
    requires Represents(s, live) && Allowed(s.Fixed(), live, op) && op.OpPop?
    ensures OpAgrees(s, live, op)
  {
    EndOf(live, op.k);
    SmallSums(s.base, StartOf(live, op.k));
    PopAgrees(s, live, op.k);
    PopResolves(s, live, op, s.base + StartOf(live, op.k));
  }

  lemma {:induction false} PopResolves(s: Stack, live: seq<Block>, op: Op, pointer: u64)
    requires s.Mapped() && Allowed(s.Fixed(), live, op) && op.OpPop? && pointer == Wrap(s.base + StartOf(live, op.k))
    ensures Execute(s, Resolve(s.Fixed(), live, op)) == Done(Pop(s, pointer), 0)
    ensures Next(s.Fixed(), live, op) == Then(Popped(s.Fixed(), live, op.k), 0)
  {
  }

  lemma {:induction false} PopFreedAgrees(s: Stack, live: seq<Block>, op: Op)
    requires Represents(s, live) && Allowed(s.Fixed(), live, op) && op.OpPopFreed?
    ensures OpAgrees(s, live, op)
  {
    PopLimitIs(s);
  }

  lemma {:induction false} WriteOpAgrees(s: Stack, live: seq<Block>, op: Op)
    requires Represents(s, live) && Allowed(s.Fixed(), live, op) && op.OpWrite?
    ensures OpAgrees(s, live, op)
  {
    WriteAgrees(s, live, op.k, op.at, op.value);
    SmallSums(s.base, StartOf(live, op.k) + op.at);
    var at, data := StartOf(live, op.k) + op.at, live[op.k].data[op.at := op.value];
    WriteResolves(s, live, op, at, data);
    AgreesThen(s, s.(mem := s.mem[at := op.value]), live[op.k := live[op.k].(data := data)], 0);
  }

  lemma {:induction false} WriteResolves(s: Stack, live: seq<Block>, op: Op, at: nat, data: seq<byte>)
    requires s.Mapped() && Allowed(s.Fixed(), live, op) && op.OpWrite?
    requires at == StartOf(live, op.k) + op.at < s.capacity
    requires Wrap(s.base + (StartOf(live, op.k) + op.at)) == s.base + at
    requires data == live[op.k].data[op.at := op.value]
    ensures Execute(s, Resolve(s.Fixed(), live, op)) == Done(s.(mem := s.mem[at := op.value]), 0)
    ensures Next(s.Fixed(), live, op) == Then(live[op.k := live[op.k].(data := data)], 0)
  {
  }

  lemma {:induction false} ResizeResolves(setting: Setting, live: seq<Block>, op: Op, pointer: u64, oldSize: u64)
    requires setting.Sound() && Allowed(setting, live, op) && op.OpResize?
    requires pointer == Wrap(setting.base + StartOf(live, op.k)) && oldSize == Wrap(|live[op.k].data|)
    ensures Resolve(setting, live, op) == CallResize(pointer, oldSize, op.newSize, op.alignment)
    ensures Next(setting, live, op) == Resized(setting, live, op.k, op.newSize, op.alignment)
  {
  }

  lemma {:induction false} ResizeCallAgrees(s: Stack, live: seq<Block>, op: Op, pointer: u64, oldSize: u64, e: Effect)
    requires Represents(s, live) && op.OpResize? && op.k < |live|
    requires pointer == s.base + StartOf(live, op.k) && oldSize == |live[op.k].data|
    requires e == Resized(s.Fixed(), live, op.k, op.newSize, op.alignment)
    ensures Agrees(s, Execute(s, CallResize(pointer, oldSize, op.newSize, op.alignment)), e)
  {
    ResizeAgrees(s, live, op.k, op.newSize, op.alignment, pointer, oldSize);
  }

  /** The address and the size of a live block do not wrap. */
  lemma {:induction false} BlockFits(s: Stack, live: seq<Block>, k: nat)
    requires Represents(s, live) && k < |live|
    ensures s.base + StartOf(live, k) < TWO_64 && Wrap(s.base + StartOf(live, k)) == s.base + StartOf(live, k)
    ensures |live[k].data| < TWO_64 && Wrap(|live[k].data|) == |live[k].data|
  {
    EndOf(live, k);
    SmallSums(s.base, StartOf(live, k));
    SmallSums(0, |live[k].data|);
  }

  lemma {:induction false} OpAgreesBy(s: Stack, live: seq<Block>, op: Op, call: Call, e: Effect)
    requires Represents(s, live) && Allowed(s.Fixed(), live, op)
    requires Resolve(s.Fixed(), live, op) == call && Next(s.Fixed(), live, op) == e && Agrees(s, Execute(s, call), e)
    ensures OpAgrees(s, live, op)
  {
  }

  lemma {:induction false} ResizeOpAgrees(s: Stack, live: seq<Block>, op: Op)
    requires Represents(s, live) && Allowed(s.Fixed(), live, op) && op.OpResize?
    ensures OpAgrees(s, live, op)
  {
    BlockFits(s, live, op.k);
    var pointer, oldSize := s.base + StartOf(live, op.k), |live[op.k].data|;
    var e := Next(s.Fixed(), live, op);
    ResizeResolves(s.Fixed(), live, op, pointer, oldSize);
    ResizeCallAgrees(s, live, op, pointer, oldSize, e);
    OpAgreesBy(s, live, op, CallResize(pointer, oldSize, op.newSize, op.alignment), e);
  }

  /** A resize of NULL is a push, whatever the old size. */
  lemma {:induction false} ResizeNullAgrees(s: Stack, live: seq<Block>, oldSize: u64, newSize: u64, alignment: u64)
    requires Represents(s, live)
    ensures Agrees(s, ResizeAlign(s, 0, oldSize, newSize, alignment),
                   Pushed(s.Fixed(), live, Zeros(newSize), alignment))
  {
    PushAgrees(s, live, newSize, alignment);
  }

  /** A resize of an address without a block changes nothing and returns NULL. */
  lemma {:induction false} ResizeNoBlock(s: Stack, live: seq<Block>, pointer: u64, oldSize: u64, newSize: u64,
        alignment: u64)
    requires Represents(s, live) && pointer != 0 && NoBlock(s.Fixed(), live, pointer, newSize)
    ensures ResizeAlign(s, pointer, oldSize, newSize, alignment) == Done(s, 0)
  {
    if newSize == 0 {
      PopNoBlock(s, live, pointer);
      ResizeToNothing(s, pointer, oldSize, alignment);
    } else {
      SmallSums(s.base, s.offset);
      ResizeTurnedAway(s, pointer, oldSize, newSize, alignment);
    }
  }

  lemma {:induction false} PopNoBlock(s: Stack, live: seq<Block>, pointer: u64)
    requires Represents(s, live) && OutOfReach(s.Fixed(), live, pointer)
    ensures Pop(s, pointer) == s
  {
    PopLimitIs(s);
  }

  lemma {:induction false} ResizeToNothing(s: Stack, pointer: u64, oldSize: u64, alignment: u64)
    requires s.Mapped() && pointer != 0
    ensures ResizeAlign(s, pointer, oldSize, 0, alignment) == Done(Pop(s, pointer), 0)
  {
  }

  lemma {:induction false} ResizeTurnedAway(s: Stack, pointer: u64, oldSize: u64, newSize: u64, alignment: u64)
    requires s.Mapped() && pointer != 0 && newSize != 0
    requires pointer < s.base || pointer >= s.base + s.capacity || pointer >= Wrap(s.base + s.offset)
    ensures ResizeAlign(s, pointer, oldSize, newSize, alignment) == Done(s, 0)
  {
  }

  lemma {:induction false} ResizeNoneAgrees(s: Stack, live: seq<Block>, op: Op)
    requires Represents(s, live) && Allowed(s.Fixed(), live, op) && op.OpResizeNone?
    ensures OpAgrees(s, live, op)
  {
    var call := CallResize(op.pointer, op.oldSize, op.newSize, op.alignment);
    var e := Next(s.Fixed(), live, op);
    ResizeNoneResolves(s.Fixed(), live, op);
    ResizeNoneCall(s, live, op.pointer, op.oldSize, op.newSize, op.alignment, call, e);
    OpAgreesBy(s, live, op, call, e);
  }

  lemma {:induction false} ResizeNoneResolves(setting: Setting, live: seq<Block>, op: Op)
    requires setting.Sound() && Allowed(setting, live, op) && op.OpResizeNone?
    ensures Resolve(setting, live, op) == CallResize(op.pointer, op.oldSize, op.newSize, op.alignment)
    ensures Next(setting, live, op)
         == if op.pointer == 0 then Pushed(setting, live, Zeros(op.newSize), op.alignment) else Then(live, 0)
  {
  }

  lemma {:induction false} ResizeNoneCall(s: Stack, live: seq<Block>, pointer: u64, oldSize: u64, newSize: u64,
        alignment: u64, call: Call, e: Effect)
    requires Represents(s, live) && (pointer == 0 || NoBlock(s.Fixed(), live, pointer, newSize))
    requires call == CallResize(pointer, oldSize, newSize, alignment)
    requires e == if pointer == 0 then Pushed(s.Fixed(), live, Zeros(newSize), alignment) else Then(live, 0)
    ensures Agrees(s, Execute(s, call), e)
  {
    if pointer == 0 {
      ResizeNullAgrees(s, live, oldSize, newSize, alignment);
    } else {
      ResizeNoBlock(s, live, pointer, oldSize, newSize, alignment);
      AgreesThen(s, s, live, 0);
    }
  }

  /** One operation: the buffer and the list of blocks stay together, and crash together. */
  lemma {:induction false} StepAgrees(s: Stack, live: seq<Block>, op: Op)
    requires Represents(s, live) && Allowed(s.Fixed(), live, op)
    ensures OpAgrees(s, live, op)
  {
    match op
    case OpPush(_) => PushOpAgrees(s, live, op);
    case OpPushAlign(_, _) => PushOpAgrees(s, live, op);
    case OpPop(_) => PopOpAgrees(s, live, op);
    case OpPopFreed(_) => PopFreedAgrees(s, live, op);
    case OpPopAll =>
    case OpWrite(_, _, _) => WriteOpAgrees(s, live, op);
    case OpResize(_, _, _) => ResizeOpAgrees(s, live, op);
    case OpResizeNone(_, _, _, _) => ResizeNoneAgrees(s, live, op);
  }
}
