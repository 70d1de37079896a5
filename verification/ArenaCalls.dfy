/** What every call of the arena allocator does, in terms of its arguments and of single bytes, and what a
    run of calls is. */
module ArenaCalls {
  import opened Bytes
  import opened BaseMem
  import opened BaseArena
  import AH = ArenaHeap
  import opened ArenaRuns
  import opened ArenaResize

  // ---------------------------------------------------------------------------------------------
  // Positions

  /** `arena_alloc`, for every size: the block starts at the position, or repaired at the next multiple of 16;
      with room it is cleared and nothing else changes. */
  lemma {:induction false} AllocExact(a: Arena, size: u64, at: nat)
    requires a.Mapped() && a.cur <= a.capacity
    requires at == if a.form == AsWritten then a.cur else RoundUp(a.cur, 16)
    ensures var o := Alloc(a, size);
      if at + size <= a.capacity then
        && o.Done? && o.pointer == Some(at) && o.arena.form == a.form && o.arena.capacity == a.capacity
        && o.arena.cur == at + size && o.arena.prev == a.cur && |o.arena.mem| == |a.mem|
        && forall i :: 0 <= i < |a.mem| ==> o.arena.mem[i] == if at <= i < at + size then 0 else a.mem[i]
      else if TWO_64 <= at + size <= TWO_64 + a.capacity then
        o == Fault
      else
        o == Done(a, None)
  {
    AlignInRange(a.form, a.cur);
    AllocValue(a, size, at);
    if at + size <= a.capacity {
      forall i | 0 <= i < |a.mem|
        ensures Store(a.mem, at, Zeros(size))[i] == if at <= i < at + size then 0 else a.mem[i]
      {
        StoredByte(a.mem, at, Zeros(size), i);
      }
    }
  }

  /** The calls that only move the position. */
  lemma {:induction false} PositionsExact(a: Arena, n: u64)
    ensures Pop(a, n) == a.(cur := if n < a.cur then a.cur - n else 0)
    ensures PopTo(a, n) == a.(cur := if n < a.cur then n else a.cur)
    ensures Clear(a) == a.(cur := 0)
    ensures TempEnd(a, n) == a.(cur := n)
  {
  }

  /** Each of them undoes an allocation as far as the position goes. */
  lemma {:induction false} AllocUndone(a: Arena, size: u64)
    requires a.Mapped() && a.cur <= a.capacity
    requires var o := Alloc(a, size); o.Done? && o.pointer.Some?
    ensures var a' := Alloc(a, size).arena;
      && a.cur <= a'.cur && a'.cur >= size
      && PopTo(a', a.cur).cur == Pop(a', a'.cur - a.cur).cur == TempEnd(a', a.cur).cur == a.cur
  {
    AllocExact(a, size, if a.form == AsWritten then a.cur else RoundUp(a.cur, 16));
  }

  // ---------------------------------------------------------------------------------------------
  // Resize, repaired

  /** In place: the new tail is cleared and nothing else changes; without room nothing happens. */
  lemma {:induction false} InPlaceExact(a: Arena, newSize: u64, oldSize: u64)
    requires a.Mapped() && a.prev < a.capacity && oldSize != 0
    ensures var o := ResizeRepaired(a, Some(a.prev), newSize, oldSize);
      if a.prev + newSize > a.capacity then
        o == Done(a, None)
      else
        && o.Done? && o.pointer == Some(a.prev) && o.arena.form == a.form && o.arena.capacity == a.capacity
        && o.arena.cur == a.prev + newSize && o.arena.prev == a.prev && |o.arena.mem| == |a.mem|
        && forall i :: 0 <= i < |a.mem| ==>
             o.arena.mem[i] == if a.prev + oldSize <= i < a.prev + newSize then 0 else a.mem[i]
  {
    if a.prev + newSize <= a.capacity && newSize > oldSize {
      forall i | 0 <= i < |a.mem|
        ensures Store(a.mem, a.prev + oldSize, Zeros(newSize - oldSize))[i]
             == if a.prev + oldSize <= i < a.prev + newSize then 0 else a.mem[i]
      {
        StoredByte(a.mem, a.prev + oldSize, Zeros(newSize - oldSize), i);
      }
    }
  }

  /** By relocation: an allocation decides, and the first bytes of the block, as many as both blocks have, go
      to the new one. */
  lemma {:induction false} RelocationExact(a: Arena, block: nat, newSize: u64, oldSize: u64, n: nat)
    requires a.Mapped() && a.cur <= a.capacity && block < a.capacity && block != a.prev
    requires oldSize != 0 && block + oldSize <= a.cur && n == if oldSize < newSize then oldSize else newSize
    ensures var r, o := ResizeRepaired(a, Some(block), newSize, oldSize), Alloc(a, newSize);
      if o.Fault? || o.pointer.None? then
        r == o
      else
        && r.Done? && r.pointer == o.pointer && r.arena == o.arena.(mem := r.arena.mem)
        && MovedOver(a.mem, o.arena.mem, r.arena.mem, block, o.pointer.value, n)
  {
    var o := Alloc(a, newSize);
    if o.Done? && o.pointer.Some? {
      var at := if a.form == AsWritten then a.cur else RoundUp(a.cur, 16);
      AllocExact(a, newSize, at);
      RelocationIs(a, block, newSize, oldSize, n, o);
      KeptBytesMoved(a.mem, o.arena, at, block, block + n, n);
    }
  }

  lemma {:induction false} KeptBytesMoved(was: seq<byte>, a: Arena, at: nat, from: nat, to: nat, n: nat)
    requires a.Mapped() && |was| == |a.mem| && to == from + n <= at && at + n <= a.capacity
    requires forall i :: 0 <= i < to ==> a.mem[i] == was[i]
    ensures var r := MoveKept(a, Some(at), from, n);
      && r.Done? && r.pointer == Some(at) && r.arena == a.(mem := r.arena.mem)
      && MovedOver(was, a.mem, r.arena.mem, from, at, n)
  {
    if n > 0 {
      MovedOverStore(was, a.mem, from, to, at, n);
    }
  }

  lemma {:induction false} RelocationIs(a: Arena, block: nat, newSize: u64, oldSize: u64, n: nat, o: Outcome)
    requires a.Mapped() && block < a.capacity && block != a.prev && oldSize != 0
    requires n == Min(oldSize, newSize) && o == Alloc(a, newSize) && o.Done? && o.pointer.Some?
    ensures ResizeRepaired(a, Some(block), newSize, oldSize) == MoveKept(o.arena, o.pointer, block, n)
  {
  }

  // ---------------------------------------------------------------------------------------------
  // Resize in place as written

  /** `memset` of the first `n` bytes of a word keeps the multiple of 256^n and clears the rest. */
  lemma {:induction false} ClearLowExact(x: u64, n: nat) returns (m: nat, low: nat)
    requires n < 8
    ensures x == Power256(n) * m + low && low < Power256(n) && ClearLow(x, n) == Power256(n) * m
    ensures LowBytesZero(x, n) <==> low == 0
  {
    if n == 0 {
      m, low := x, 0;
    } else {
      var low';
      m, low' := ClearLowExact(x / 256, n - 1);
      low := 256 * low' + x % 256;
      Regroup256(Power256(n - 1), m, low', x);
    }
  }

  lemma {:induction false} Regroup256(p: nat, m: nat, low: nat, x: nat)
    requires x / 256 == p * m + low
    ensures x == 256 * p * m + (256 * low + x % 256)
    ensures 256 * (p * m) == 256 * p * m
  {
    assert x == 256 * (x / 256) + x % 256;
  }

  /** Growth by `n` bytes in place clears the first `n` bytes of the record instead: the current position, the
      previous position, the capacity and the base address, eight bytes each, and then the buffer. */
  lemma {:induction false} GrowthDamage(i: Image, newSize: u64, oldSize: u64, n: nat)
    requires i.arena.Mapped() && n == newSize - oldSize > 0
    ensures var o := GrowInPlace(i, newSize, oldSize);
      && (o == Broken <==> n - 32 > i.arena.capacity)
      && (o.Resized? ==>
            var a := o.image.arena;
            && o.pointer == Some(i.arena.prev) && a.form == i.arena.form && |a.mem| == |i.arena.mem|
            && (n >= 8 ==> a.cur == 0)
            && (n <= 8 ==> a.prev == i.arena.prev) && (n >= 16 ==> a.prev == 0)
            && (n <= 16 ==> a.capacity == i.arena.capacity) && (n >= 24 ==> a.capacity == 0)
            && (n <= 24 ==> o.image.base == i.base) && (n >= 32 ==> o.image.base == 0)
            && forall k :: 0 <= k < |a.mem| ==> a.mem[k] == if k < n - 32 then 0 else i.arena.mem[k])
  {
    if 32 < n && n - 32 <= i.arena.capacity {
      forall k | 0 <= k < |i.arena.mem|
        ensures Store(i.arena.mem, 0, Zeros(n - 32))[k] == if k < n - 32 then 0 else i.arena.mem[k]
      {
        StoredByte(i.arena.mem, 0, Zeros(n - 32), k);
      }
    }
  }

  /** Growth by less than eight bytes clears that many low bytes of the position; no growth clears nothing. */
  lemma {:induction false} LittleGrowth(i: Image, newSize: u64, oldSize: u64)
    requires i.arena.Mapped() && newSize - oldSize < 8
    ensures var n := if newSize > oldSize then newSize - oldSize else 0;
      var cur := (i.arena.prev + newSize) % TWO_64;
      GrowInPlace(i, newSize, oldSize) == Resized(i.(arena := i.arena.(cur := ClearLow(cur, n))), Some(i.arena.prev))
  {
  }

  // ---------------------------------------------------------------------------------------------
  // Runs are sequences of these calls

  function RunOf(o: Outcome): BufferRun {
    if o.Fault? then BufferCrash else BufferEnd(o.arena, [o.pointer])
  }

  /** The call that each item of a client is. */
  function Called(a: Arena, h: AH.Heap, item: AH.Item): BufferRun
    requires a.Mapped() && !item.Scope?
    requires item.Write? ==> item.k < |h.live| && h.live[item.k].at + item.at < |a.mem|
  {
    match item
    case Alloc(size) => RunOf(Alloc(a, size))
    case Pop(size) => BufferEnd(Pop(a, size), [None])
    case PopTo(pos) => BufferEnd(PopTo(a, pos), [None])
    case Clear => BufferEnd(Clear(a), [None])
    case TempEnd(start) => BufferEnd(TempEnd(a, start), [None])
    case Write(k, at, value) => BufferEnd(a.(mem := a.mem[h.live[k].at + at := value]), [None])
  }

  /** What a client may do, and that it is this call. */
  lemma {:induction false} OneCall(a: Arena, h: AH.Heap, item: AH.Item)
    requires Represents(a, h) && !item.Scope?
    requires item.TempEnd? ==> item.start <= a.capacity
    requires item.Write? ==> item.k < |h.live| && item.at < |h.live[item.k].data|
    ensures item.Write? ==> h.live[item.k].at + item.at < |a.mem|
    ensures RunArena(a, h, [item]) == Called(a, h, item)
  {
    if item.Write? {
      assert HoldsAt(a.mem, h.live[item.k]);
    }
    ItemAgrees(a, [], h, [item]);
    StepAgrees(a, h, item);
    assert [item][1..] == [];
    var e := AH.Next(a.form, a.capacity, h, item);
    assert RunArena(a, h, [item]) == RunOf(Execute(a, Resolve(a.capacity, h, item)));
  }

  /** A scope runs its items and puts the position back. */
  lemma {:induction false} OneScope(a: Arena, h: AH.Heap, body: seq<AH.Item>)
    requires Represents(a, h)
    ensures var inner := RunArena(a, h, body);
      RunArena(a, h, [AH.Scope(body)])
      == if inner.BufferCrash? then BufferCrash else BufferEnd(inner.arena.(cur := a.cur), inner.results)
  {
    var items := [AH.Scope(body)];
    CallsRefine(a, [a.cur], h, body);
    CallsRefine(a, [], h, body);
    assert [] + [a.cur] == [a.cur];
    ScopeAgrees(a, [], h, items);
    MarksDoNotMatter(a, h, body);
    assert items[1..] == [];
    var r := AH.RunHeap(a.form, a.capacity, h, body);
    if r.Ended? {
      assert r.results + [] == r.results;
    }
  }

  /** The marks of enclosing scopes do not change what the calls of a run do. */
  lemma {:induction false} MarksDoNotMatter(a: Arena, h: AH.Heap, items: seq<AH.Item>)
    requires Represents(a, h)
    ensures var calls := CallsOf(a.form, a.capacity, h, items);
      var r, r' := RunCalls(a, [], calls), RunCalls(a, [a.cur], calls);
      if r.CallCrash? then r'.CallCrash? else r'.CallEnd? && r'.arena == r.arena && r'.results == r.results
  {
    var calls := CallsOf(a.form, a.capacity, h, items);
    CallsRefine(a, [], h, items);
    CallsRefine(a, [a.cur], h, items);
    if RunCalls(a, [], calls).CallEnd? {
      assert [a.cur] + [] == [a.cur];
      MoreMarks(a, [], [a.cur], calls);
    }
  }

  /** More marks below make no difference as long as the calls do not use them up. */
  lemma {:induction false} MoreMarks(a: Arena, marks: seq<u64>, below: seq<u64>, calls: seq<Call>)
    requires a.Mapped() && RunCalls(a, marks, calls).CallEnd?
    ensures var r, r' := RunCalls(a, marks, calls), RunCalls(a, below + marks, calls);
      r'.CallEnd? && r'.arena == r.arena && r'.results == r.results
    decreases |calls|
  {
    if calls != [] {
      if calls[0].CallScopeBegin? {
        assert (below + marks) + [a.cur] == below + (marks + [a.cur]);
        MoreMarks(a, marks + [a.cur], below, calls[1..]);
      } else if calls[0].CallScopeEnd? {
        var n := |marks| - 1;
        assert (below + marks)[..|below + marks| - 1] == below + marks[..n];
        MoreMarks(TempEnd(a, marks[n]), marks[..n], below, calls[1..]);
      } else {
        MoreMarks(Execute(a, calls[0]).arena, marks, below, calls[1..]);
      }
    }
  }

  /** Earlier results go in front. */
  function After(results: seq<Option<nat>>, r: BufferRun): BufferRun {
    if r.BufferCrash? then r else BufferEnd(r.arena, results + r.results)
  }

  /** The calls of `ys` after `xs`. */
  function RestOf(form: Form, capacity: u64, h: AH.Heap, xs: seq<AH.Item>, ys: seq<AH.Item>): seq<Call> {
    match AH.RunHeap(form, capacity, h, xs)
    case Crashed => []
    case Ended(mid, _, _) => CallsOf(form, capacity, mid, ys)
  }

  lemma {:induction false} CallsAppend(form: Form, capacity: u64, h: AH.Heap, xs: seq<AH.Item>, ys: seq<AH.Item>)
    ensures CallsOf(form, capacity, h, xs + ys) == CallsOf(form, capacity, h, xs) + RestOf(form, capacity, h, xs, ys)
    decreases |xs|
  {
    if xs == [] {
      assert xs + ys == ys;
    } else {
      assert (xs + ys)[1..] == xs[1..] + ys;
      if xs[0].Scope? {
        var r := AH.RunHeap(form, capacity, h, xs[0].body);
        if r.Ended? {
          var h' := AH.MoveTo(r.heap, h.cur);
          CallsAppend(form, capacity, h', xs[1..], ys);
          var body, rest := CallsOf(form, capacity, h, xs[0].body), CallsOf(form, capacity, h', xs[1..]);
          var last := RestOf(form, capacity, h', xs[1..], ys);
          Associate([CallScopeEnd], rest, last);
          Associate(body, [CallScopeEnd] + rest, last);
          Associate([CallScopeBegin], body + ([CallScopeEnd] + rest), last);
        }
      } else {
        var e := AH.Next(form, capacity, h, xs[0]);
        if e.Then? {
          CallsAppend(form, capacity, e.heap, xs[1..], ys);
          Associate([Resolve(capacity, h, xs[0])], CallsOf(form, capacity, e.heap, xs[1..]),
                    RestOf(form, capacity, e.heap, xs[1..], ys));
        }
      }
    }
  }

  /** One run after another. */
  lemma {:induction false} RunAppend(a: Arena, h: AH.Heap, xs: seq<AH.Item>, ys: seq<AH.Item>)
    requires Represents(a, h)
    ensures match AH.RunHeap(a.form, a.capacity, h, xs)
      case Crashed => RunArena(a, h, xs + ys) == BufferCrash
      case Ended(mid, _, _) =>
        var r := RunArena(a, h, xs);
        && r.BufferEnd? && Represents(r.arena, mid)
        && RunArena(a, h, xs + ys) == After(r.results, RunArena(r.arena, mid, ys))
  {
    RunRefines(a, h, xs);
    CallsRefine(a, [], h, xs);
    CallsAppend(a.form, a.capacity, h, xs, ys);
    RunCallsAppend(a, [], CallsOf(a.form, a.capacity, h, xs), RestOf(a.form, a.capacity, h, xs, ys));
  }

  /** The same of the heap, where `outer` has the results outside scopes. */
  lemma {:induction false} HeapAppend(form: Form, capacity: u64, h: AH.Heap, xs: seq<AH.Item>, ys: seq<AH.Item>)
    ensures match AH.RunHeap(form, capacity, h, xs)
      case Crashed => AH.RunHeap(form, capacity, h, xs + ys) == AH.Crashed
      case Ended(mid, results, outer) =>
        match AH.RunHeap(form, capacity, mid, ys)
        case Crashed => AH.RunHeap(form, capacity, h, xs + ys) == AH.Crashed
        case Ended(final, results', outer') =>
          AH.RunHeap(form, capacity, h, xs + ys) == AH.Ended(final, results + results', outer + outer')
    decreases |xs|
  {
    if xs == [] {
      assert xs + ys == ys;
      var r := AH.RunHeap(form, capacity, h, ys);
      if r.Ended? {
        assert [] + r.results == r.results && [] + r.outer == r.outer;
      }
    } else {
      assert (xs + ys)[1..] == xs[1..] + ys;
      if xs[0].Scope? {
        var r := AH.RunHeap(form, capacity, h, xs[0].body);
        if r.Ended? {
          HeapAppend(form, capacity, AH.MoveTo(r.heap, h.cur), xs[1..], ys);
          FirstThen(form, capacity, AH.MoveTo(r.heap, h.cur), xs[1..], ys, r.results, []);
        }
      } else {
        var e := AH.Next(form, capacity, h, xs[0]);
        if e.Then? {
          HeapAppend(form, capacity, e.heap, xs[1..], ys);
          FirstThen(form, capacity, e.heap, xs[1..], ys, [e.pointer], [e.pointer]);
        }
      }
    }
  }

  lemma {:induction false} FirstThen(form: Form, capacity: u64, h: AH.Heap, xs: seq<AH.Item>, ys: seq<AH.Item>,
        results: seq<Option<nat>>, outer: seq<Option<nat>>)
    ensures var r := AH.RunHeap(form, capacity, h, xs);
      r.Ended? ==>
        var s := AH.RunHeap(form, capacity, r.heap, ys);
        s.Ended? ==>
          && results + (r.results + s.results) == (results + r.results) + s.results
          && outer + (r.outer + s.outer) == (outer + r.outer) + s.outer
  {
  }

  /** A single call has one result, inside and outside; a scope has those of its items, and none outside. */
  lemma {:induction false} HeapOne(form: Form, capacity: u64, h: AH.Heap, item: AH.Item)
    ensures var r := AH.RunHeap(form, capacity, h, [item]);
      if item.Scope? then
        match AH.RunHeap(form, capacity, h, item.body)
        case Crashed => r == AH.Crashed
        case Ended(inner, results, _) =>
          r == AH.Ended(AH.Heap(h.cur, inner.prev, AH.KeepBelow(inner.live, h.cur)), results, [])
      else
        match AH.Next(form, capacity, h, item)
        case Crash => r == AH.Crashed
        case Then(h', pointer) => r == AH.Ended(h', [pointer], [pointer])
  {
    assert [item][1..] == [];
    if item.Scope? {
      var r := AH.RunHeap(form, capacity, h, item.body);
      if r.Ended? {
        assert r.results + [] == r.results;
      }
    }
  }
}
