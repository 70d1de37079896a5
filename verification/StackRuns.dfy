/** Whole runs of the stack allocator, and what clients can rely on. */
module StackRuns {
  import opened Bytes
  import opened BaseMem
  import opened BaseStack
  import opened StackLive

  datatype ListRun = ListCrash | ListEnd(live: seq<Block>, pointers: seq<u64>)
  datatype BufferRun = BufferCrash | BufferEnd(stack: Stack, pointers: seq<u64>)

  /** Every operation of the run names a block that is live at that time. */
  ghost predicate AllowedRun(setting: Setting, live: seq<Block>, ops: seq<Op>)
    requires setting.Sound()
    decreases |ops|
  {
    ops != [] ==>
      && Allowed(setting, live, ops[0])
      && var e := Next(setting, live, ops[0]);
        e.Then? ==> AllowedRun(setting, e.live, ops[1..])
  }

  function RunList(setting: Setting, live: seq<Block>, ops: seq<Op>): ListRun
    requires setting.Sound()
    requires AllowedRun(setting, live, ops)
    decreases |ops|
  {
    if ops == [] then ListEnd(live, [])
    else
      match Next(setting, live, ops[0])
      case Crash => ListCrash
      case Then(live', pointer) =>
        match RunList(setting, live', ops[1..])
        case ListCrash => ListCrash
        case ListEnd(final, pointers) => ListEnd(final, [pointer] + pointers)
  }

  /** The buffer under the same run; the list only tells which address a client means. */
  function RunBuffer(s: Stack, live: seq<Block>, ops: seq<Op>): BufferRun
    requires Represents(s, live) && AllowedRun(s.Fixed(), live, ops)
    decreases |ops|
  {
    if ops == [] then BufferEnd(s, [])
    else
      StepAgrees(s, live, ops[0]);
      match Execute(s, Resolve(s.Fixed(), live, ops[0]))
      case Fault => BufferCrash
      case Done(s', pointer) =>
        match RunBuffer(s', Next(s.Fixed(), live, ops[0]).live, ops[1..])
        case BufferCrash => BufferCrash
        case BufferEnd(final, pointers) => BufferEnd(final, [pointer] + pointers)
  }

  /** Refinement over every run: the buffer returns the same pointers as the list of independent
      blocks, holds the same contents at the end, and crashes only when the list does. */
  lemma {:induction false} RunRefines(s: Stack, live: seq<Block>, ops: seq<Op>)
    requires Represents(s, live) && AllowedRun(s.Fixed(), live, ops)
    ensures match RunList(s.Fixed(), live, ops)
      case ListCrash => RunBuffer(s, live, ops) == BufferCrash
      case ListEnd(final, pointers) =>
        var r := RunBuffer(s, live, ops);
        r.BufferEnd? && r.pointers == pointers && Represents(r.stack, final) && r.stack.Fixed() == s.Fixed()
    decreases |ops|
  {
    if ops != [] {
      StepAgrees(s, live, ops[0]);
      var e := Next(s.Fixed(), live, ops[0]);
      if e.Then? {
        RunRefines(Execute(s, Resolve(s.Fixed(), live, ops[0])).stack, e.live, ops[1..]);
      }
    }
  }

  /** A fresh stack represents the empty list, whatever its memory holds. */
  lemma {:induction false} FreshStack(s: Stack)
    requires s.Mapped() && s.offset == 0
    ensures Represents(s, [])
  {
  }

  /** A live block in a represented state: its header byte, its contents and its bounds. */
  lemma {:induction false} LiveBlock(s: Stack, live: seq<Block>, k: nat)
    requires Represents(s, live) && k < |live|
    ensures HEADER_SIZE <= live[k].padding <= StartOf(live, k)
    ensures StartOf(live, k) + |live[k].data| <= s.offset <= s.capacity
    ensures s.mem[StartOf(live, k) - HEADER_SIZE] == live[k].padding == StartOf(live, k) - Extent(live[..k])
    ensures s.mem[StartOf(live, k)..StartOf(live, k) + |live[k].data|] == live[k].data
  {
    assert Holds(s.mem, live, k);
    EndOf(live, k);
  }

  /** Any two live blocks are separated by at least a header. */
  lemma {:induction false} LiveBlocksApart(s: Stack, live: seq<Block>, j: nat, k: nat)
    requires Represents(s, live) && j < k < |live|
    ensures StartOf(live, j) + |live[j].data| <= StartOf(live, k) - HEADER_SIZE
  {
    assert Holds(s.mem, live, k);
    BlocksOrdered(live, j, k);
  }

  // ---------------------------------------------------------------------------------------------
  // Push and pop

  /** Pushing and popping the new block restores the offset exactly when pop reaches the block.  With
      line 127 as written that is a block inside the buffer and below twice the base address; with
      the line repaired it is every block that is not empty. */
  lemma {:induction false} PushPop(s: Stack, live: seq<Block>, size: u64, alignment: u64)
    requires Represents(s, live)
    requires var o := PushAlign(s, size, alignment); o.Done? && o.pointer != 0
    ensures var o := PushAlign(s, size, alignment);
      && o.stack.Mapped()
      && (Pop(o.stack, o.pointer).offset == s.offset
          <==> if s.forms.popLimit == AsWritten
               then o.pointer < s.base + s.capacity && o.pointer < s.base + s.base
               else size > 0)
  {
    PushAgrees(s, live, size, alignment);
    var o := PushAlign(s, size, alignment);
    PopTop(o.stack, live, Block(TopPadding(s.Fixed(), live, alignment), Zeros(size)), o.pointer);
  }

  lemma {:induction false} PopTop(s: Stack, live: seq<Block>, b: Block, pointer: u64)
    requires Represents(s, live + [b]) && pointer == s.base + Extent(live) + b.padding
    ensures Pop(s, pointer).offset == Extent(live)
       <==> if s.forms.popLimit == AsWritten
            then pointer < s.base + s.capacity && pointer < s.base + s.base
            else |b.data| > 0
  {
    var more := live + [b];
    TopOf(live, b);
    assert more[..|live|] == live;
    assert Holds(s.mem, more, |live|);
    PopAgrees(s, more, |live|);
  }

  /** Pop of a live block: line 127 lets every live block through on a stack whose capacity does not
      exceed its base address, and on every stack once it is repaired. */
  lemma {:induction false} PopLeavesLowerBlocks(s: Stack, live: seq<Block>, k: nat)
    requires Represents(s, live) && k < |live| && |live[k].data| > 0
    requires s.forms.popLimit == Repaired || s.capacity <= s.base
    ensures s.base + StartOf(live, k) < TWO_64
    ensures Represents(Pop(s, s.base + StartOf(live, k)), live[..k])
    ensures Pop(s, s.base + StartOf(live, k)).mem == s.mem
  {
    EndOf(live, k);
    PopAgrees(s, live, k);
  }

  /** Pop of an address in the free part of the buffer.  Repaired, it is ignored.  As written, it is
      ignored only from twice the base address on, or when the byte two below it happens to lead
      back to the current offset. */
  lemma {:induction false} PopOfFree(s: Stack, pointer: u64)
    requires s.Mapped() && s.offset <= s.capacity && s.base + s.offset <= pointer < s.base + s.capacity
    ensures s.forms.popLimit == Repaired ==> Pop(s, pointer) == s
    ensures s.forms.popLimit == AsWritten ==>
      (Pop(s, pointer) == s
       <==> pointer >= s.base + s.base || pointer - s.base == s.offset + HeaderByte(s, pointer - s.base))
  {
    PopLimitIs(s);
    var at := pointer - s.base;
    WrapNear(pointer - HeaderByte(s, at) - s.base, s.offset);
  }

  lemma {:induction false} WrapNear(x: int, y: nat)
    requires -256 < x <= ADDRESS_LIMIT && y <= ADDRESS_LIMIT
    ensures Wrap(x) == y <==> x == y
  {
  }

  /** Popping block `j` frees block `k` above it.  A second pop, of block `k`, then changes nothing
      exactly when line 127 is repaired, or it is the same block again, or line 118 or 127 turns the
      address away.  Otherwise the freed blocks below `k` come back to life. */
  lemma {:induction false} PopTwice(s: Stack, live: seq<Block>, j: nat, k: nat)
    requires Represents(s, live) && j <= k < |live|
    requires StartOf(live, j) < s.capacity && StartOf(live, j) < Reach(s.Fixed(), live)
    ensures s.base + StartOf(live, j) < TWO_64 && s.base + StartOf(live, k) < TWO_64
    ensures var once := Pop(s, s.base + StartOf(live, j));
      && Represents(once, live[..j])
      && var twice := Pop(once, s.base + StartOf(live, k));
        && (twice == once <==> s.forms.popLimit == Repaired || j == k
                               || StartOf(live, k) >= s.base || StartOf(live, k) >= s.capacity)
        && (twice != once ==> Represents(twice, live[..k]) && twice.offset > once.offset)
  {
    LiveBlock(s, live, k);
    FirstPop(s, live, j);
    SecondPop(s, live, j, k);
  }

  /** The stack after block `j` was popped. */
  function Cut(s: Stack, live: seq<Block>, j: nat): Stack
    requires Represents(s, live) && j < |live|
  {
    ExtentMonotone(live, j);
    s.(offset := Extent(live[..j]))
  }

  lemma {:induction false} CutRepresents(s: Stack, live: seq<Block>, j: nat)
    requires Represents(s, live) && j < |live|
    ensures Represents(Cut(s, live, j), live[..j])
  {
    ExtentMonotone(live, j);
    DropTop(s.mem, live, j);
  }

  lemma {:induction false} FirstPop(s: Stack, live: seq<Block>, j: nat)
    requires Represents(s, live) && j < |live|
    requires StartOf(live, j) < s.capacity && StartOf(live, j) < Reach(s.Fixed(), live)
    ensures s.base + StartOf(live, j) < TWO_64
    ensures Pop(s, s.base + StartOf(live, j)) == Cut(s, live, j)
    ensures Represents(Cut(s, live, j), live[..j])
  {
    LiveBlock(s, live, j);
    CutRepresents(s, live, j);
    PopValue(s, s.base + StartOf(live, j), StartOf(live, j), live[j].padding);
  }

  lemma {:induction false} SecondPop(s: Stack, live: seq<Block>, j: nat, k: nat)
    requires Represents(s, live) && j <= k < |live|
    ensures s.base + StartOf(live, k) < TWO_64 && Cut(s, live, j).Mapped()
    ensures var once := Cut(s, live, j);
      var twice := Pop(once, s.base + StartOf(live, k));
        && (twice == once <==> s.forms.popLimit == Repaired || j == k
                               || StartOf(live, k) >= s.base || StartOf(live, k) >= s.capacity)
        && (twice != once ==> Represents(twice, live[..k]) && twice.offset > once.offset)
  {
    LiveBlock(s, live, k);
    CutRepresents(s, live, k);
    SecondPopValue(s, live, j, k);
    CutDiffers(s, live, j, k);
  }

  lemma {:induction false} CutDiffers(s: Stack, live: seq<Block>, j: nat, k: nat)
    requires Represents(s, live) && j <= k < |live|
    ensures if j == k then Cut(s, live, j) == Cut(s, live, k) else Cut(s, live, j).offset < Cut(s, live, k).offset
  {
    LiveBlock(s, live, j);
    if j < k {
      ExtentGrows(live, j, k);
    }
  }

  lemma {:induction false} SecondPopValue(s: Stack, live: seq<Block>, j: nat, k: nat)
    requires Represents(s, live) && j <= k < |live|
    ensures s.base + StartOf(live, k) < TWO_64 && Cut(s, live, j).Mapped()
    ensures Pop(Cut(s, live, j), s.base + StartOf(live, k))
         == if s.forms.popLimit == Repaired || StartOf(live, k) >= s.base || StartOf(live, k) >= s.capacity
            then Cut(s, live, j) else Cut(s, live, k)
  {
    LiveBlock(s, live, k);
    CutRepresents(s, live, j);
    CutDiffers(s, live, j, k);
    PopValue(Cut(s, live, j), s.base + StartOf(live, k), StartOf(live, k), live[k].padding);
  }

  lemma {:induction false} ExtentGrows(live: seq<Block>, j: nat, k: nat)
    requires j < k < |live|
    ensures Extent(live[..j]) + live[j].padding <= Extent(live[..k])
  {
    EndOf(live[..k], j);
    assert live[..k][..j] == live[..j];
  }

  /** As written, on a stack that lies above its own size: push A, push B, pop A, pop B.  The last call
      takes the offset from zero back to the end of A. */
  lemma {:induction false} FreedBlockReturns(s: Stack) returns (a: Stack, b: Stack, p: u64, q: u64)
    requires s.Mapped() && s.offset == 0 && 64 <= s.capacity <= s.base
    requires s.forms.padding == AsWritten && s.forms.popLimit == AsWritten
    ensures Push(s, 1) == Done(a, p) && p == s.base + 16 && a.Mapped()
    ensures Push(a, 1) == Done(b, q) && q == s.base + 33 && b.Mapped()
    ensures var once := Pop(b, p); once.offset == 0 && once.Mapped() && Pop(once, q).offset == 17
  {
    var block := Block(16, Zeros(1));
    p, q := s.base + 16, s.base + 33;
    FreshStack(s);
    a := FirstPushes(s, [], 1, p);
    TopOf([], block);
    assert [] + [block] == [block];
    b := FirstPushes(a, [block], 1, q);
    TwoPops(b, block, p, q);
  }

  lemma {:induction false} TwoPops(s: Stack, b: Block, p: u64, q: u64)
    requires Represents(s, [b] + [b]) && b.padding == 16 && |b.data| == 1 && p == s.base + 16 && q == s.base + 33
    requires s.capacity <= s.base && s.forms.popLimit == AsWritten
    ensures var once := Pop(s, p); once.offset == 0 && once.Mapped() && Pop(once, q).offset == 17
  {
    var live := [b] + [b];
    TopOf([], b);
    TopOf([b], b);
    assert [] + [b] == [b] && live[..0] == [] && live[..1] == [b];
    FirstPop(s, live, 0);
    SecondPopValue(s, live, 0, 1);
  }

  lemma {:induction false} FirstPushes(s: Stack, live: seq<Block>, size: u64, pointer: u64) returns (s': Stack)
    requires Represents(s, live) && s.forms.padding == AsWritten && Extent(live) + 16 + size <= s.capacity
    requires pointer == s.base + Extent(live) + 16
    ensures Push(s, size) == Done(s', pointer) && s'.Fixed() == s.Fixed()
    ensures Represents(s', live + [Block(16, Zeros(size))])
  {
    ArenaAlignIsPow();
    PushAgrees(s, live, size, ARENA_ALIGN);
    s' := Push(s, size).stack;
  }

  /** `stack_create` puts the buffer 24 bytes into a page, behind the record.  With line 44 as written
      the first block then starts 8 bytes beside the alignment that `stack_push` asks for. */
  lemma {:induction false} FirstPushMisaligned(s: Stack, page: nat, size: u64)
    requires s.Mapped() && s.offset == 0 && s.forms.padding == AsWritten
    requires page % 4096 == 0 && s.base == page + 24 && 16 + size <= s.capacity
    ensures var o := Push(s, size); o.Done? && o.pointer == s.base + 16 && o.pointer % ARENA_ALIGN == 8
  {
    FreshStack(s);
    var s' := FirstPushes(s, [], size, s.base + 16);
    BehindRecord(page);
  }

  lemma {:induction false} BehindRecord(page: nat)
    requires page % 4096 == 0
    ensures (page + 24 + 16) % ARENA_ALIGN == 8
  {
  }

  /** With line 44 as written a pushed block inherits the alignment of the current address, because
      the padding is a multiple of the alignment whatever that address is. */
  lemma {:induction false} PushKeepsResidue(s: Stack, live: seq<Block>, size: u64, alignment: u64)
    requires Represents(s, live) && s.forms.padding == AsWritten
    requires var o := PushAlign(s, size, alignment); o.Done? && o.pointer != 0
    ensures alignment != 0
    ensures var a := if alignment > 128 then 128 else alignment;
      && PushAlign(s, size, alignment).pointer == s.base + s.offset + (if a == 1 then 2 else a)
      && PushAlign(s, size, alignment).pointer % a == (s.base + s.offset) % a
  {
    PushAgrees(s, live, size, alignment);
    var a := Clamp(alignment);
    if a == 1 {
    } else {
      ModStep(s.base + s.offset, a);
    }
  }

  /** With line 44 repaired a pushed block is aligned, and no aligned address below it leaves room
      for the header. */
  lemma {:induction false} PushAligned(s: Stack, live: seq<Block>, size: u64, alignment: u64, other: nat)
    requires Represents(s, live) && s.forms.padding == Repaired
    requires var o := PushAlign(s, size, alignment); o.Done? && o.pointer != 0
    ensures alignment != 0
    ensures var a := if alignment > 128 then 128 else alignment;
      && PushAlign(s, size, alignment).pointer % a == 0
      && s.base + s.offset + 2 <= PushAlign(s, size, alignment).pointer
      && (s.base + s.offset + 2 <= other && other % a == 0 ==> PushAlign(s, size, alignment).pointer <= other)
  {
    PushRoundsUp(s, live, size, alignment);
    RoundUpLeast(s.base + s.offset + HEADER_SIZE, Clamp(alignment), other);
  }

  lemma {:induction false} PushRoundsUp(s: Stack, live: seq<Block>, size: u64, alignment: u64)
    requires Represents(s, live) && s.forms.padding == Repaired
    requires var o := PushAlign(s, size, alignment); o.Done? && o.pointer != 0
    ensures alignment != 0
    ensures PushAlign(s, size, alignment).pointer == RoundUp(s.base + s.offset + HEADER_SIZE, Clamp(alignment))
  {
    PushAgrees(s, live, size, alignment);
    PushedSizes(s.Fixed(), live, Zeros(size), alignment);
  }

  // ---------------------------------------------------------------------------------------------
  // Resize

  /** Two stretches of the buffer overlap. */
  predicate Overlap(lo: int, hi: int, lo': int, hi': int) {
    lo < hi' && lo' < hi
  }

  /** Some other block, with its padding, overlaps the `size` bytes at the start of block `k`. */
  ghost predicate RunsIntoOthers(live: seq<Block>, k: nat, size: nat)
    requires k < |live|
  {
    exists j :: 0 <= j < |live| && j != k
      && Overlap(StartOf(live, k), StartOf(live, k) + size,
                 StartOf(live, j) - live[j].padding, StartOf(live, j) + |live[j].data|)
  }

  /** Blocks as they lie in a buffer, with a block `k` whose resize puts a new block on top. */
  ghost predicate Moves(setting: Setting, live: seq<Block>, k: nat, newSize: u64, alignment: u64) {
    && setting.Sound() && k < |live| && Extent(live) <= setting.capacity
    && newSize != 0 && newSize != |live[k].data|
    && (forall i :: 0 <= i < |live| ==> live[i].padding > 0)
    && var e := Resized(setting, live, k, newSize, alignment); e.Then? && e.live != live
  }

  /** After a resize that moved a block, the new block on top holds the kept bytes and zeros.  The
      caller gets its address exactly when line 175 is repaired. */
  lemma {:induction false} ResizeMoves(setting: Setting, live: seq<Block>, k: nat, newSize: u64, alignment: u64)
    requires Moves(setting, live, k, newSize, alignment)
    ensures var e := Resized(setting, live, k, newSize, alignment);
      && e.live == live + [Block(TopPadding(setting, live, alignment), Refit(live[k].data, newSize))]
      && StartOf(e.live, k) < StartOf(e.live, |live|)
      && (e.pointer == setting.base + StartOf(e.live, k) <==> setting.forms.resize == AsWritten)
      && (e.pointer == setting.base + StartOf(e.live, |live|) <==> setting.forms.resize == Repaired)
  {
    var b := Block(TopPadding(setting, live, alignment), Refit(live[k].data, newSize));
    PushedSizes(setting, live, b.data, alignment);
    EndOf(live, k);
    SmallSums(setting.base, StartOf(live, k));
    BelowTop(live, b, k);
    TopOf(live, b);
  }

  /** As written, the `newSize` bytes at the address that is returned run into other blocks' headers
      or data exactly when the block was to grow. */
  lemma {:induction false} ResizePointerIsOld(setting: Setting, live: seq<Block>, k: nat, newSize: u64, alignment: u64)
    requires Moves(setting, live, k, newSize, alignment) && setting.forms.resize == AsWritten
    ensures var e := Resized(setting, live, k, newSize, alignment);
      && |e.live| == |live| + 1 && e.pointer == setting.base + StartOf(e.live, k)
      && (RunsIntoOthers(e.live, k, newSize) <==> newSize > |live[k].data|)
  {
    ResizeMoves(setting, live, k, newSize, alignment);
    RegionOverlaps(Resized(setting, live, k, newSize, alignment).live, k, newSize);
  }

  /** Repaired, they are the new block and touch no other. */
  lemma {:induction false} ResizePointerIsNew(setting: Setting, live: seq<Block>, k: nat, newSize: u64, alignment: u64)
    requires Moves(setting, live, k, newSize, alignment) && setting.forms.resize == Repaired
    ensures var e := Resized(setting, live, k, newSize, alignment);
      && |e.live| == |live| + 1 && e.pointer == setting.base + StartOf(e.live, |live|)
      && e.live[|live|].data == Refit(live[k].data, newSize)
      && !RunsIntoOthers(e.live, |live|, newSize)
  {
    ResizeMoves(setting, live, k, newSize, alignment);
    RegionFits(Resized(setting, live, k, newSize, alignment).live, |live|, newSize);
  }

  lemma {:induction false} RegionOverlaps(live: seq<Block>, k: nat, size: nat)
    requires k + 1 < |live| && size > 0
    requires live[k + 1].padding > 0
    ensures RunsIntoOthers(live, k, size) <==> size > |live[k].data|
  {
    if size > |live[k].data| {
      EndOf(live, k);
      assert StartOf(live, k + 1) - live[k + 1].padding == Extent(live[..k + 1]);
    } else {
      RegionFits(live, k, size);
    }
  }

  lemma {:induction false} RegionFits(live: seq<Block>, k: nat, size: nat)
    requires k < |live| && size <= |live[k].data|
    ensures !RunsIntoOthers(live, k, size)
  {
    forall j | 0 <= j < |live| && j != k
      ensures !Overlap(StartOf(live, k), StartOf(live, k) + size,
                       StartOf(live, j) - live[j].padding, StartOf(live, j) + |live[j].data|)
    {
      if j < k {
        BlocksOrdered(live, j, k);
      } else {
        BlocksOrdered(live, k, j);
      }
    }
  }

  // ---------------------------------------------------------------------------------------------
  // Whole runs with line 175 repaired

  /** The bytes at the pointer that a resize returned are the kept bytes and zeros, and they are
      block `k` if the size did not change and the new top block if it did. */
  ghost predicate Honoured(live: seq<Block>, op: Op, o: Outcome, live': seq<Block>)
    requires op.OpResize? ==> op.k < |live|
  {
    o.Done? && op.OpResize? && op.newSize != 0 && o.pointer != 0 ==>
      var j := if |live[op.k].data| == op.newSize then op.k else |live|;
      var data := Refit(live[op.k].data, op.newSize);
      && j < |live'| && live'[j].data == data
      && o.pointer == o.stack.base + StartOf(live', j)
      && StartOf(live', j) + |data| <= |o.stack.mem|
      && o.stack.mem[StartOf(live', j)..StartOf(live', j) + |data|] == data
  }

  /** Every resize of the run is honoured. */
  ghost predicate ResizesHonoured(s: Stack, live: seq<Block>, ops: seq<Op>)
    requires Represents(s, live) && AllowedRun(s.Fixed(), live, ops)
    decreases |ops|
  {
    ops == [] ||
      (StepAgrees(s, live, ops[0]);
       var o := Execute(s, Resolve(s.Fixed(), live, ops[0]));
       o.Done? ==>
         var live' := Next(s.Fixed(), live, ops[0]).live;
         Honoured(live, ops[0], o, live') && ResizesHonoured(o.stack, live', ops[1..]))
  }

  lemma {:induction false} ResizedNames(setting: Setting, live: seq<Block>, k: nat, newSize: u64, alignment: u64)
    requires setting.Sound() && k < |live| && Extent(live) <= setting.capacity
    requires setting.forms.resize == Repaired && newSize != 0
    requires var e := Resized(setting, live, k, newSize, alignment); e.Then? && e.pointer != 0
    ensures var e, j := Resized(setting, live, k, newSize, alignment), if |live[k].data| == newSize then k else |live|;
      j < |e.live| && e.live[j].data == Refit(live[k].data, newSize) && e.pointer == setting.base + StartOf(e.live, j)
  {
    EndOf(live, k);
    SmallSums(setting.base, StartOf(live, k));
    if |live[k].data| != newSize {
      PushedSizes(setting, live, Refit(live[k].data, newSize), alignment);
      TopOf(live, Block(TopPadding(setting, live, alignment), Refit(live[k].data, newSize)));
    }
  }

  lemma {:induction false} StepHonoured(s: Stack, live: seq<Block>, op: Op)
    requires Represents(s, live) && Allowed(s.Fixed(), live, op) && s.forms.resize == Repaired
    ensures var o := Execute(s, Resolve(s.Fixed(), live, op));
      o.Done? ==> Next(s.Fixed(), live, op).Then? && Honoured(live, op, o, Next(s.Fixed(), live, op).live)
  {
    StepAgrees(s, live, op);
    var o, e := Execute(s, Resolve(s.Fixed(), live, op)), Next(s.Fixed(), live, op);
    if o.Done? && op.OpResize? && op.newSize != 0 && o.pointer != 0 {
      ResizedNames(s.Fixed(), live, op.k, op.newSize, op.alignment);
      LiveBlock(o.stack, e.live, if |live[op.k].data| == op.newSize then op.k else |live|);
    }
  }

  /** Over every run, every resize that returns a pointer returns the block with the kept bytes. */
  lemma {:induction false} RunHonoursResizes(s: Stack, live: seq<Block>, ops: seq<Op>)
    requires Represents(s, live) && AllowedRun(s.Fixed(), live, ops) && s.forms.resize == Repaired
    ensures ResizesHonoured(s, live, ops)
    decreases |ops|
  {
    if ops != [] {
      StepAgrees(s, live, ops[0]);
      StepHonoured(s, live, ops[0]);
      var o := Execute(s, Resolve(s.Fixed(), live, ops[0]));
      if o.Done? {
        RunHonoursResizes(o.stack, Next(s.Fixed(), live, ops[0]).live, ops[1..]);
      }
    }
  }

  /** Some client was handed the address of every live block. */
  ghost predicate Known(base: int, live: seq<Block>, pointers: seq<u64>) {
    forall k :: 0 <= k < |live| ==> base + StartOf(live, k) in pointers
  }

  lemma {:induction false} KnownIffTop(base: int, live: seq<Block>, b: Block, all: seq<u64>, pointers: seq<u64>)
    requires Known(base, live, pointers) && pointers <= all
    ensures Known(base, live + [b], all) <==> base + Extent(live) + b.padding in all
  {
    TopOf(live, b);
    if base + Extent(live) + b.padding in all {
      forall k | 0 <= k < |live + [b]| ensures base + StartOf(live + [b], k) in all {
        if k < |live| {
          BelowTop(live, b, k);
          InLonger(pointers, all, base + StartOf(live, k));
        }
      }
    } else {
      assert StartOf(live + [b], |live|) == Extent(live) + b.padding;
    }
  }

  lemma {:induction false} InLonger(pointers: seq<u64>, all: seq<u64>, pointer: int)
    requires pointers <= all && pointer in pointers
    ensures pointer in all
  {
    var i :| 0 <= i < |pointers| && pointers[i] == pointer;
    assert all[i] == pointer;
  }

  lemma {:induction false} KnownTop(base: int, live: seq<Block>, b: Block, pointers: seq<u64>, pointer: u64)
    requires Known(base, live, pointers) && pointer == base + Extent(live) + b.padding
    ensures Known(base, live + [b], pointers + [pointer])
  {
    KnownIffTop(base, live, b, pointers + [pointer], pointers);
  }

  lemma {:induction false} KnownBelow(base: int, live: seq<Block>, n: nat, pointers: seq<u64>, pointer: u64)
    requires Known(base, live, pointers) && n <= |live|
    ensures Known(base, live[..n], pointers + [pointer])
  {
    forall k | 0 <= k < n ensures base + StartOf(live[..n], k) in pointers + [pointer] {
      assert live[..n][..k] == live[..k];
      assert base + StartOf(live, k) in pointers;
    }
  }

  lemma {:induction false} KnownWrite(base: int, live: seq<Block>, k: nat, data: seq<byte>, pointers: seq<u64>)
    requires Known(base, live, pointers) && k < |live| && |data| == |live[k].data|
    ensures Known(base, live[k := live[k].(data := data)], pointers + [0])
  {
    var live' := live[k := live[k].(data := data)];
    forall j | 0 <= j < |live'| ensures base + StartOf(live', j) in pointers + [0] {
      StartOfSizes(live, k, data, j);
    }
  }

  lemma {:induction false} KnownPushed(setting: Setting, live: seq<Block>, data: seq<byte>, alignment: u64,
        pointers: seq<u64>)
    requires setting.Sound() && Known(setting.base, live, pointers)
    ensures var e := Pushed(setting, live, data, alignment);
      e.Then? ==> Known(setting.base, e.live, pointers + [e.pointer])
  {
    PushedSizes(setting, live, data, alignment);
    var e := Pushed(setting, live, data, alignment);
    if e.Then? && e.pointer != 0 {
      KnownTop(setting.base, live, Block(TopPadding(setting, live, alignment), data), pointers, e.pointer);
    }
  }

  lemma {:induction false} KnownPopped(setting: Setting, live: seq<Block>, k: nat, pointers: seq<u64>)
    requires Known(setting.base, live, pointers) && k < |live|
    ensures Known(setting.base, Popped(setting, live, k), pointers + [0])
  {
    KnownBelow(setting.base, live, k, pointers, 0);
  }

  lemma {:induction false} KnownResized(setting: Setting, live: seq<Block>, k: nat, newSize: u64,
        alignment: u64, pointers: seq<u64>)
    requires setting.Sound() && setting.forms.resize == Repaired
    requires Known(setting.base, live, pointers) && k < |live|
    ensures var e := Resized(setting, live, k, newSize, alignment);
      e.Then? ==> Known(setting.base, e.live, pointers + [e.pointer])
  {
    KnownPopped(setting, live, k, pointers);
    KnownPushed(setting, live, Refit(live[k].data, newSize), alignment, pointers);
  }

  lemma {:induction false} KnownNext(setting: Setting, live: seq<Block>, op: Op, pointers: seq<u64>)
    requires setting.Sound() && setting.forms.resize == Repaired
    requires Known(setting.base, live, pointers) && Allowed(setting, live, op)
    ensures var e := Next(setting, live, op); e.Then? ==> Known(setting.base, e.live, pointers + [e.pointer])
  {
    match op
    case OpPush(size) => KnownPushed(setting, live, Zeros(size), ARENA_ALIGN, pointers);
    case OpPushAlign(size, alignment) => KnownPushed(setting, live, Zeros(size), alignment, pointers);
    case OpPop(k) => KnownPopped(setting, live, k, pointers);
    case OpPopFreed(_) => KnownBelow(setting.base, live, |live|, pointers, 0);
    case OpPopAll =>
    case OpWrite(k, at, value) => KnownWrite(setting.base, live, k, live[k].data[at := value], pointers);
    case OpResize(k, newSize, alignment) => KnownResized(setting, live, k, newSize, alignment, pointers);
    case OpResizeNone(pointer, _, newSize, alignment) =>
      KnownPushed(setting, live, Zeros(newSize), alignment, pointers);
      KnownBelow(setting.base, live, |live|, pointers, 0);
  }

  lemma {:induction false} KnownRun(setting: Setting, live: seq<Block>, ops: seq<Op>, pointers: seq<u64>)
    requires setting.Sound() && setting.forms.resize == Repaired
    requires Known(setting.base, live, pointers) && AllowedRun(setting, live, ops)
    ensures var r := RunList(setting, live, ops); r.ListEnd? ==> Known(setting.base, r.live, pointers + r.pointers)
    decreases |ops|
  {
    var r := RunList(setting, live, ops);
    if r.ListEnd? {
      if ops == [] {
        assert pointers + r.pointers == pointers;
      } else {
        var e := Next(setting, live, ops[0]);
        KnownNext(setting, live, ops[0], pointers);
        KnownRun(setting, e.live, ops[1..], pointers + [e.pointer]);
        assert pointers + r.pointers == pointers + [e.pointer] + r.pointers[1..];
      }
    }
  }

  lemma {:induction false} RunKnown(s: Stack, ops: seq<Op>)
    requires s.Mapped() && s.offset == 0 && AllowedRun(s.Fixed(), [], ops) && s.forms.resize == Repaired
    ensures Represents(s, [])
    ensures var r, l := RunBuffer(s, [], ops), RunList(s.Fixed(), [], ops);
      r.BufferEnd? ==> l.ListEnd? && Represents(r.stack, l.live) && Known(s.base, l.live, r.pointers)
  {
    FreshStack(s);
    RunRefines(s, [], ops);
    KnownRun(s.Fixed(), [], ops, []);
    var r := RunList(s.Fixed(), [], ops);
    if r.ListEnd? {
      assert [] + r.pointers == r.pointers;
    }
  }

  /** No block is lost: after every run from a fresh stack the address of every live block is one of
      the pointers that the calls returned. */
  lemma {:induction false} NoBlockLost(s: Stack, ops: seq<Op>, k: nat)
    requires s.Mapped() && s.offset == 0 && AllowedRun(s.Fixed(), [], ops) && s.forms.resize == Repaired
    ensures Represents(s, [])
    ensures var r, l := RunBuffer(s, [], ops), RunList(s.Fixed(), [], ops);
      r.BufferEnd? ==>
        l.ListEnd? && Represents(r.stack, l.live) && (k < |l.live| ==> s.base + StartOf(l.live, k) in r.pointers)
  {
    RunKnown(s, ops);
  }

  /** A resize that moves a block loses it exactly when line 175 is as written and no earlier call
      returned the address of the new block. */
  lemma {:induction false} MovedBlockKnown(setting: Setting, live: seq<Block>, k: nat, newSize: u64,
        alignment: u64, pointers: seq<u64>)
    requires Moves(setting, live, k, newSize, alignment) && Known(setting.base, live, pointers)
    ensures var e := Resized(setting, live, k, newSize, alignment);
      Known(setting.base, e.live, pointers + [e.pointer])
      <==> setting.forms.resize == Repaired
           || setting.base + Extent(live) + TopPadding(setting, live, alignment) in pointers
  {
    var b := Block(TopPadding(setting, live, alignment), Refit(live[k].data, newSize));
    var e := Resized(setting, live, k, newSize, alignment);
    ResizeMoves(setting, live, k, newSize, alignment);
    TopOf(live, b);
    KnownIffTop(setting.base, live, b, pointers + [e.pointer], pointers);
  }

  /** The shortest run that loses a block: one push and one resize that grows it. */
  lemma {:induction false} LostBlock(setting: Setting)
    requires setting.Sound() && setting.capacity >= 64
    requires setting.forms.padding == AsWritten && setting.forms.resize == AsWritten
    ensures var live := [Block(16, [0])];
      && Pushed(setting, [], Zeros(1), ARENA_ALIGN) == Then(live, setting.base + 16)
      && Known(setting.base, live, [setting.base + 16])
      && Resized(setting, live, 0, 2, ARENA_ALIGN) == Then(live + [Block(16, [0, 0])], setting.base + 16)
      && !Known(setting.base, live + [Block(16, [0, 0])], [setting.base + 16, setting.base + 16])
  {
    FirstBlock(setting);
    OneKnown(setting.base);
    GrowingResize(setting);
  }

  lemma {:induction false} FirstBlock(setting: Setting)
    requires setting.Sound() && setting.capacity >= 64 && setting.forms.padding == AsWritten
    ensures Pushed(setting, [], Zeros(1), ARENA_ALIGN) == Then([Block(16, [0])], setting.base + 16)
  {
    ArenaAlignIsPow();
    assert Zeros(1) == [0];
    assert [] + [Block(16, [0])] == [Block(16, [0])];
  }

  lemma {:induction false} OneKnown(base: u64)
    requires base + 64 <= ADDRESS_LIMIT
    ensures var live := [Block(16, [0])];
      && Extent(live) == 17 && StartOf(live, 0) == 16
      && Known(base, live, [base + 16])
      && !Known(base, live + [Block(16, [0, 0])], [base + 16, base + 16])
  {
    var live, b := [Block(16, [0])], Block(16, [0, 0]);
    assert live[..0] == [];
    TopOf(live, b);
    assert StartOf(live + [b], 1) == 33;
  }

  lemma {:induction false} GrowingResize(setting: Setting)
    requires setting.Sound() && setting.capacity >= 64
    requires setting.forms.padding == AsWritten && setting.forms.resize == AsWritten
    ensures var live := [Block(16, [0])];
      Resized(setting, live, 0, 2, ARENA_ALIGN) == Then(live + [Block(16, [0, 0])], setting.base + 16)
  {
    ArenaAlignIsPow();
    OneKnown(setting.base);
    assert Refit([0], 2) == [0, 0];
  }
}
