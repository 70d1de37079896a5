/** What every call of the stack allocator does, in terms of its arguments and of single bytes, and what a
    run of calls is.  Nothing here mentions the list of blocks except to say where a block is. */
module StackCalls {
  import opened Bytes
  import opened BaseMem
  import opened BaseStack
  import opened StackLive
  import opened StackRuns

  // ---------------------------------------------------------------------------------------------
  // Push

  lemma {:induction false} BlockBytes(mem: seq<byte>, at: nat, padding: byte, size: nat, i: nat)
    requires 2 <= at && at + size <= |mem| && i < |mem|
    ensures WriteBlock(mem, at, padding, size)[i]
         == if at <= i < at + size then 0 else if i == at - 2 then padding else mem[i]
  {
    var marked := Store(mem, at - 2, [padding]);
    StoredByte(mem, at - 2, [padding], i);
    StoredByte(marked, at, Zeros(size), i);
  }

  /** The padding for the alignment `a`, which is at most 128. */
  lemma {:induction false} PaddingIs(setting: Setting, live: seq<Block>, alignment: u64, address: nat, a: nat)
    requires address == setting.base + Extent(live) && a == (if alignment > 128 then 128 else alignment)
    ensures setting.forms.padding == AsWritten ==> TopPadding(setting, live, alignment) == if a < 2 then 2 else a
    ensures setting.forms.padding == Repaired && a != 0 ==>
      TopPadding(setting, live, alignment) == RoundUp(address + 2, a) - address
  {
  }

  /** `stack_push_align`, for every size and every alignment: the alignment is cut to 128; as written the
      padding is that alignment and at least 2; repaired it leads to the next multiple that leaves two
      bytes.  With room the header byte and the zeroed block are written and nothing else changes. */
  lemma {:induction false} PushExact(s: Stack, live: seq<Block>, size: u64, alignment: u64,
        address: nat, a: nat, padding: nat, at: nat, top: nat)
    requires Represents(s, live) && address == s.base + s.offset
    requires a == if alignment > 128 then 128 else alignment
    requires a != 0 ==> padding == if s.forms.padding == Repaired then RoundUp(address + 2, a) - address
                                   else if a == 1 then 2 else a
    requires at == s.offset + padding && top == s.offset + padding + size
    ensures var o := PushAlign(s, size, alignment);
      if !IsPow(alignment) then
        o == Done(s, 0)
      else if alignment == 0 then
        o == Fault
      else if top <= s.capacity then
        && o.Done? && o.pointer == s.base + at && o.stack.Fixed() == s.Fixed() && o.stack.offset == top
        && |o.stack.mem| == |s.mem|
        && forall i :: 0 <= i < |s.mem| ==>
             o.stack.mem[i] == if at <= i < at + size then 0 else if i == at - 2 then padding else s.mem[i]
      else if TWO_64 <= top <= TWO_64 + s.capacity then
        o == Fault
      else
        o == Done(s, 0)
  {
    if IsPow(alignment) && alignment != 0 {
      PaddingIs(s.Fixed(), live, alignment, address, a);
      PushAlignPads(s, live, size, alignment, address, padding);
      if top <= s.capacity {
        PushFits(s, size, address, padding, at, top, address + padding);
        forall i | 0 <= i < |s.mem|
          ensures WriteBlock(s.mem, at, padding, size)[i]
               == if at <= i < at + size then 0 else if i == at - 2 then padding else s.mem[i]
        {
          BlockBytes(s.mem, at, padding, size, i);
        }
      } else {
        PushDoesNotFit(s, size, address, padding);
      }
    }
  }

  /** `stack_push` asks for an alignment of 16. */
  lemma {:induction false} PushIsAlign16(s: Stack, size: u64)
    requires s.Mapped()
    ensures Push(s, size) == PushAlign(s, size, 16)
  {
  }

  // ---------------------------------------------------------------------------------------------
  // Pop

  /** `stack_pop`, for every pointer and every stack: NULL, addresses outside the buffer and addresses from
      the limit of line 127 on are ignored; otherwise the byte two below the pointer leads to the new
      offset.  The memory does not change. */
  lemma {:induction false} PopExact(s: Stack, pointer: u64)
    requires s.Mapped()
    ensures Pop(s, pointer) == s.(offset := Pop(s, pointer).offset)
    ensures var limit := (if s.forms.popLimit == AsWritten then s.base + s.base else s.base + s.offset) % TWO_64;
      && (pointer == 0 || pointer < s.base || pointer >= s.base + s.capacity || pointer >= limit ==>
            Pop(s, pointer) == s)
      && (s.base + 2 <= pointer < s.base + s.capacity && pointer < limit ==>
            Pop(s, pointer).offset == (pointer - s.mem[pointer - s.base - 2] - s.base) % TWO_64)
  {
  }

  /** For the first two addresses of the buffer that byte belongs to the capacity in the record before it. */
  lemma {:induction false} HeaderInRecord(s: Stack, low: nat, b6: byte, b7: byte)
    requires s.Mapped() && s.capacity > 1 && low < 0x1_0000_0000_0000
    requires s.capacity == low + 0x1_0000_0000_0000 * b6 + 0x100_0000_0000_0000 * b7
    ensures HeaderByte(s, 0) == b6 && HeaderByte(s, 1) == b7
  {
  }

  // ---------------------------------------------------------------------------------------------
  // Resize

  /** `stack_resize_align` of a live block, branch by branch.  A push that finds room decides the move:
      the first bytes of the old block, as many as both blocks have, go to the new block, which the push
      has cleared, and all other bytes are as the push left them. */
  lemma {:induction false} ResizeExact(s: Stack, live: seq<Block>, k: nat, newSize: u64, alignment: u64,
        pointer: u64, oldSize: u64, from: nat, n: nat, o: Outcome, r: Outcome)
    requires Represents(s, live) && k < |live| && from == StartOf(live, k) && oldSize == |live[k].data|
    requires pointer == s.base + from && n == if oldSize < newSize then oldSize else newSize
    requires o == PushAlign(s, newSize, alignment) && r == ResizeAlign(s, pointer, oldSize, newSize, alignment)
    ensures
      if newSize == 0 then
        r == Done(Pop(s, pointer), 0)
      else if pointer >= s.base + s.offset then
        r == Done(s, 0)
      else if newSize == oldSize then
        r == Done(s, pointer)
      else if o.Fault? then
        r == Fault
      else if o.pointer == 0 then
        r == if n > 0 then Fault else Done(s, if s.forms.resize == AsWritten then pointer else 0)
      else
        && s.base <= o.pointer
        && r.Done? && r.pointer == (if s.forms.resize == AsWritten then pointer else o.pointer)
        && r.stack.Fixed() == s.Fixed() && r.stack.offset == o.stack.offset
        && MovedOver(s.mem, o.stack.mem, r.stack.mem, from, o.pointer - s.base, n)
  {
    LiveBlock(s, live, k);
    if newSize == 0 || pointer >= s.base + s.offset || newSize == oldSize {
      ResizeStays(s, pointer, oldSize, newSize, alignment);
    } else {
      ResizeIsMove(s, live, pointer, oldSize, newSize, alignment, n, o);
      if o.Done? {
        MoveExact(s, o, pointer, newSize, from, n, r);
      }
    }
  }

  lemma {:induction false} ResizeStays(s: Stack, pointer: u64, oldSize: u64, newSize: u64, alignment: u64)
    requires s.Mapped() && s.base <= pointer <= s.base + s.offset && s.offset <= s.capacity
    requires newSize == 0 || pointer >= s.base + s.offset || newSize == oldSize
    ensures ResizeAlign(s, pointer, oldSize, newSize, alignment)
         == if newSize == 0 then Done(Pop(s, pointer), 0)
            else if pointer >= s.base + s.offset then Done(s, 0) else Done(s, pointer)
  {
    SmallSums(s.base, s.offset);
  }

  lemma {:induction false} ResizeIsMove(s: Stack, live: seq<Block>, pointer: u64, oldSize: u64, newSize: u64,
        alignment: u64, n: nat, o: Outcome)
    requires Represents(s, live) && s.base <= pointer < s.base + s.offset && newSize != 0 && newSize != oldSize
    requires n == Min(oldSize, newSize) && o == PushAlign(s, newSize, alignment)
    ensures o.Done? ==> PushedOn(s, o, newSize)
    ensures ResizeAlign(s, pointer, oldSize, newSize, alignment)
         == if o.Fault? then Fault else MoveTo(o.stack, pointer, o.pointer, n)
  {
    SmallSums(s.base, s.offset);
    ResizeIsRelocate(s, pointer, oldSize, newSize, alignment, n);
    PushKeeps(s, live, newSize, alignment);
    RelocateIs(s, o, pointer, newSize, alignment, n);
  }

  /** The move after a push, with the result `r`. */
  lemma {:induction false} MoveExact(s: Stack, o: Outcome, pointer: u64, size: u64, from: nat, n: nat, r: Outcome)
    requires s.Mapped() && pointer == s.base + from && from + n <= s.offset <= s.capacity && from < s.capacity
    requires o.Done? && PushedOn(s, o, size) && n <= size && r == MoveTo(o.stack, pointer, o.pointer, n)
    ensures
      if o.pointer == 0 then
        r == if n > 0 then Fault else Done(s, if s.forms.resize == AsWritten then pointer else 0)
      else
        && s.base <= o.pointer
        && r.Done? && r.pointer == (if s.forms.resize == AsWritten then pointer else o.pointer)
        && r.stack.Fixed() == s.Fixed() && r.stack.offset == o.stack.offset
        && MovedOver(s.mem, o.stack.mem, r.stack.mem, from, o.pointer - s.base, n)
  {
    if o.pointer != 0 {
      MoveBytes(s, o.stack, pointer, o.pointer, from, o.pointer - s.base, n);
    } else {
      MoveToNull(s, pointer, n);
    }
  }

  lemma {:induction false} RelocateIs(s: Stack, o: Outcome, pointer: u64, newSize: u64, alignment: u64, n: nat)
    requires s.Mapped() && s.base <= pointer < s.base + s.capacity && o == PushAlign(s, newSize, alignment)
    requires o.Done? ==> o.stack.Fixed() == s.Fixed() && o.stack.Mapped()
    ensures Relocate(s, pointer, n, newSize, alignment)
         == if o.Fault? then Fault else MoveTo(o.stack, pointer, o.pointer, n)
  {
  }

  lemma {:induction false} MoveToNull(s: Stack, pointer: u64, n: nat)
    requires s.Mapped() && s.base <= pointer < s.base + s.capacity
    ensures MoveTo(s, pointer, 0, n)
         == if n > 0 then Fault else Done(s, if s.forms.resize == AsWritten then pointer else 0)
  {
  }

  /** What a push leaves alone. */
  ghost predicate PushedOn(s: Stack, o: Outcome, size: u64)
    requires o.Done? && s.Mapped()
  {
    && o.stack.Fixed() == s.Fixed() && o.stack.Mapped()
    && (o.pointer == 0 ==> o.stack == s)
    && (o.pointer != 0 ==> s.base + s.offset + 2 <= o.pointer && o.pointer + size <= s.base + s.capacity)
    && forall i :: 0 <= i < s.offset && i < |s.mem| ==> o.stack.mem[i] == s.mem[i]
  }

  lemma {:induction false} PushKeeps(s: Stack, live: seq<Block>, size: u64, alignment: u64)
    requires Represents(s, live)
    ensures var o := PushAlign(s, size, alignment); o.Done? ==> PushedOn(s, o, size)
  {
    if IsPow(alignment) && alignment != 0 {
      var address, a := s.base + s.offset, if alignment > 128 then 128 else alignment;
      var padding := if s.forms.padding == Repaired then RoundUp(address + 2, a) - address else if a == 1 then 2 else a;
      PushExact(s, live, size, alignment, address, a, padding, s.offset + padding, s.offset + padding + size);
    }
  }

  lemma {:induction false} MoveBytes(s: Stack, s': Stack, pointer: u64, moved: u64, from: nat, at: nat, n: nat)
    requires s.Mapped() && s'.Mapped() && s'.Fixed() == s.Fixed() && from == pointer - s.base && at == moved - s.base
    requires from + n <= s.offset <= at && from < s.capacity && at + n <= s.capacity
    requires forall i :: 0 <= i < s.offset ==> s'.mem[i] == s.mem[i]
    ensures var r := MoveTo(s', pointer, moved, n);
      && r.Done? && r.pointer == (if s.forms.resize == AsWritten then pointer else moved)
      && r.stack.Fixed() == s.Fixed() && r.stack.offset == s'.offset
      && MovedOver(s.mem, s'.mem, r.stack.mem, from, at, n)
  {
    var to := from + n;
    MoveToIs(s', pointer, moved, n, from, to, at);
    if n > 0 {
      MovedOverStore(s.mem, s'.mem, from, to, at, n);
    }
  }

  // ---------------------------------------------------------------------------------------------
  // Runs are sequences of these calls

  function RunOf(o: Outcome): BufferRun {
    if o.Fault? then BufferCrash else BufferEnd(o.stack, [o.pointer])
  }

  predicate NamesBlock(op: Op) {
    op.OpPop? || op.OpResize? || op.OpWrite?
  }

  /** The call that each operation of a client is, when the block it names is at `at` and has `size` bytes. */
  function Called(s: Stack, op: Op, at: nat, pointer: u64, size: u64): BufferRun
    requires s.Mapped() && (op.OpWrite? ==> at + op.at < |s.mem|)
  {
    match op
    case OpPush(size) => RunOf(PushAlign(s, size, 16))
    case OpPushAlign(size, alignment) => RunOf(PushAlign(s, size, alignment))
    case OpPop(_) => BufferEnd(Pop(s, pointer), [0])
    case OpPopFreed(address) => BufferEnd(Pop(s, address), [0])
    case OpPopAll => BufferEnd(s.(offset := 0), [0])
    case OpWrite(_, i, value) => BufferEnd(s.(mem := s.mem[at + i := value]), [0])
    case OpResize(_, newSize, alignment) => RunOf(ResizeAlign(s, pointer, size, newSize, alignment))
    case OpResizeNone(address, oldSize, newSize, alignment) =>
      RunOf(ResizeAlign(s, address, oldSize, newSize, alignment))
  }

  /** What a client may do, and that it is this call: pops, resizes and writes of live blocks, and pops and
      resizes of NULL, of addresses outside the buffer and of those beyond the limit. */
  lemma {:induction false} OneCall(s: Stack, live: seq<Block>, op: Op, at: nat, pointer: u64, size: u64)
    requires Represents(s, live)
    requires NamesBlock(op) ==>
      op.k < |live| && at == StartOf(live, op.k) && pointer == s.base + at && size == |live[op.k].data|
    requires op.OpWrite? ==> op.at < size
    requires op.OpPopFreed? && op.pointer != 0 && s.base <= op.pointer < s.base + s.capacity ==>
      op.pointer >= if s.forms.popLimit == AsWritten then s.base + s.base else s.base + s.offset
    requires op.OpResizeNone? && op.pointer != 0 && s.base <= op.pointer < s.base + s.capacity ==>
      op.pointer >= if op.newSize == 0 && s.forms.popLimit == AsWritten then s.base + s.base else s.base + s.offset
    ensures AllowedRun(s.Fixed(), live, [op]) && (op.OpWrite? ==> at + op.at < |s.mem|)
    ensures RunBuffer(s, live, [op]) == Called(s, op, at, pointer, size)
  {
    assert Allowed(s.Fixed(), live, op);
    OneRun(s, live, op);
    if op.OpPop? {
      CalledPop(s, live, op, at, pointer, size);
    } else if op.OpWrite? {
      CalledWrite(s, live, op, at, pointer, size);
    } else if op.OpResize? {
      CalledResize(s, live, op, at, pointer, size);
    } else {
      CalledDirectly(s, live, op, at, pointer, size);
    }
  }

  lemma {:induction false} CalledDirectly(s: Stack, live: seq<Block>, op: Op, at: nat, pointer: u64, size: u64)
    requires s.Mapped() && Allowed(s.Fixed(), live, op) && !NamesBlock(op)
    ensures RunOf(Execute(s, Resolve(s.Fixed(), live, op))) == Called(s, op, at, pointer, size)
  {
  }

  lemma {:induction false} CalledPop(s: Stack, live: seq<Block>, op: Op, at: nat, pointer: u64, size: u64)
    requires Represents(s, live) && op.OpPop? && op.k < |live| && at == StartOf(live, op.k) && pointer == s.base + at
    ensures RunOf(Execute(s, Resolve(s.Fixed(), live, op))) == Called(s, op, at, pointer, size)
  {
    BlockFits(s, live, op.k);
    PopResolves(s, live, op, pointer);
  }

  lemma {:induction false} CalledWrite(s: Stack, live: seq<Block>, op: Op, at: nat, pointer: u64, size: u64)
    requires Represents(s, live) && op.OpWrite? && op.k < |live| && at == StartOf(live, op.k)
    requires op.at < |live[op.k].data|
    ensures at + op.at < |s.mem|
    ensures RunOf(Execute(s, Resolve(s.Fixed(), live, op))) == Called(s, op, at, pointer, size)
  {
    LiveBlock(s, live, op.k);
    SmallSums(s.base, at + op.at);
    WriteResolves(s, live, op, at + op.at, live[op.k].data[op.at := op.value]);
  }

  lemma {:induction false} CalledResize(s: Stack, live: seq<Block>, op: Op, at: nat, pointer: u64, size: u64)
    requires Represents(s, live) && op.OpResize? && op.k < |live| && at == StartOf(live, op.k)
    requires pointer == s.base + at && size == |live[op.k].data|
    ensures RunOf(Execute(s, Resolve(s.Fixed(), live, op))) == Called(s, op, at, pointer, size)
  {
    BlockFits(s, live, op.k);
    ResizeResolves(s.Fixed(), live, op, pointer, size);
    ExecuteResize(s, Resolve(s.Fixed(), live, op), pointer, size, op.newSize, op.alignment,
                  ResizeAlign(s, pointer, size, op.newSize, op.alignment));
  }

  lemma {:induction false} ExecuteResize(s: Stack, call: Call, pointer: u64, oldSize: u64, newSize: u64,
        alignment: u64, o: Outcome)
    requires s.Mapped() && call == CallResize(pointer, oldSize, newSize, alignment)
    requires o == ResizeAlign(s, pointer, oldSize, newSize, alignment)
    ensures Execute(s, call) == o
  {
  }

  lemma {:induction false} OneRun(s: Stack, live: seq<Block>, op: Op)
    requires Represents(s, live) && Allowed(s.Fixed(), live, op)
    ensures AllowedRun(s.Fixed(), live, [op])
    ensures RunBuffer(s, live, [op]) == RunOf(Execute(s, Resolve(s.Fixed(), live, op)))
  {
    StepAgrees(s, live, op);
    assert [op][1..] == [];
  }

  /** Earlier pointers go in front. */
  function After(pointers: seq<u64>, r: BufferRun): BufferRun {
    if r.BufferCrash? then r else BufferEnd(r.stack, pointers + r.pointers)
  }

  /** One run after another. */
  lemma {:induction false} RunAppend(s: Stack, live: seq<Block>, xs: seq<Op>, ys: seq<Op>)
    requires Represents(s, live) && AllowedRun(s.Fixed(), live, xs)
    ensures match RunList(s.Fixed(), live, xs)
      case ListCrash => AllowedRun(s.Fixed(), live, xs + ys) && RunBuffer(s, live, xs + ys) == BufferCrash
      case ListEnd(mid, _) =>
        var r := RunBuffer(s, live, xs);
        && r.BufferEnd? && Represents(r.stack, mid) && r.stack.Fixed() == s.Fixed()
        && (AllowedRun(s.Fixed(), live, xs + ys) <==> AllowedRun(s.Fixed(), mid, ys))
        && (AllowedRun(s.Fixed(), mid, ys) ==>
              RunBuffer(s, live, xs + ys) == After(r.pointers, RunBuffer(r.stack, mid, ys)))
    decreases |xs|
  {
    RunRefines(s, live, xs);
    if xs == [] {
      assert xs + ys == ys;
      if AllowedRun(s.Fixed(), live, ys) {
        AfterNothing(RunBuffer(s, live, ys));
      }
    } else {
      assert (xs + ys)[1..] == xs[1..] + ys;
      StepAgrees(s, live, xs[0]);
      var e := Next(s.Fixed(), live, xs[0]);
      if e.Then? {
        var o := Execute(s, Resolve(s.Fixed(), live, xs[0]));
        RunAppend(o.stack, e.live, xs[1..], ys);
        var rest := RunList(s.Fixed(), e.live, xs[1..]);
        if rest.ListEnd? && AllowedRun(s.Fixed(), rest.live, ys) {
          var r := RunBuffer(o.stack, e.live, xs[1..]);
          AfterTwice([o.pointer], r.pointers, RunBuffer(r.stack, rest.live, ys));
        }
      }
    }
  }

  lemma {:induction false} AfterNothing(r: BufferRun)
    ensures After([], r) == r
  {
    if r.BufferEnd? {
      assert [] + r.pointers == r.pointers;
    }
  }

  lemma {:induction false} AfterTwice(x: seq<u64>, y: seq<u64>, r: BufferRun)
    ensures After(x, After(y, r)) == After(x + y, r)
  {
    if r.BufferEnd? {
      assert x + (y + r.pointers) == (x + y) + r.pointers;
    }
  }
}
