/** The arena refines the heap of independent blocks, over every run. */
module ArenaRuns {
  import opened Bytes
  import opened BaseMem
  import BA = BaseArena
  import opened ArenaHeap

  ghost predicate HoldsAt(mem: seq<byte>, b: Block) {
    b.End() <= |mem| && mem[b.at..b.End()] == b.data
  }

  ghost predicate InBuffer(mem: seq<byte>, live: seq<Block>) {
    forall k :: 0 <= k < |live| ==> HoldsAt(mem, live[k])
  }

  ghost predicate Represents(a: BA.Arena, h: Heap) {
    && a.Mapped() && a.cur == h.cur && a.prev == h.prev
    && Laid(h, a.capacity)
    && InBuffer(a.mem, h.live)
  }

  /** What reaches the allocator or the memory. */
  datatype Call =
    | CallAlloc(size: u64)
    | CallPop(size: u64)
    | CallPopTo(pos: u64)
    | CallClear
    | CallTempEnd(start: u64)
    | CallPoke(address: nat, value: byte)
    | NoCall
    | CallScopeBegin
    | CallScopeEnd

  /** The call a client makes to act on the blocks it knows. */
  function Resolve(capacity: u64, h: Heap, item: Item): (c: Call)
    requires !item.Scope?
    ensures !c.CallScopeBegin? && !c.CallScopeEnd?
  {
    match item
    case Alloc(size) => CallAlloc(size)
    case Pop(size) => CallPop(size)
    case PopTo(pos) => CallPopTo(pos)
    case Clear => CallClear
    case TempEnd(start) => if start <= capacity then CallTempEnd(start) else NoCall
    case Write(k, at, value) =>
      if k < |h.live| && at < |h.live[k].data| then CallPoke(h.live[k].at + at, value) else NoCall
  }

  function Execute(a: BA.Arena, call: Call): (o: BA.Outcome)
    requires a.Mapped() && !call.CallScopeBegin? && !call.CallScopeEnd?
    ensures o.Done? ==> o.arena.Mapped()
  {
    match call
    case CallAlloc(size) => BA.Alloc(a, size)
    case CallPop(size) => BA.Done(BA.Pop(a, size), None)
    case CallPopTo(pos) => BA.Done(BA.PopTo(a, pos), None)
    case CallClear => BA.Done(BA.Clear(a), None)
    case CallTempEnd(start) => BA.Done(BA.TempEnd(a, start), None)
    case CallPoke(address, value) =>
      if address < |a.mem| then BA.Done(a.(mem := a.mem[address := value]), None) else BA.Fault
    case NoCall => BA.Done(a, None)
  }

  ghost predicate Agrees(a: BA.Arena, o: BA.Outcome, e: Effect) {
    match e
    case Crash => o == BA.Fault
    case Then(h, pointer) =>
      o.Done? && o.pointer == pointer && Represents(o.arena, h)
      && o.arena.form == a.form && o.arena.capacity == a.capacity
  }

  lemma {:induction false} KeepInBuffer(mem: seq<byte>, live: seq<Block>, top: nat, pos: nat)
    requires InBuffer(mem, live) && Ordered(live, top)
    ensures InBuffer(mem, KeepBelow(live, pos))
  {
    KeepBelowExact(live, top, pos);
  }

  /** Moving the position only gives up blocks. */
  lemma {:induction false} MoveAgrees(a: BA.Arena, h: Heap, pos: u64)
    requires Represents(a, h) && pos <= a.capacity
    ensures Represents(a.(cur := pos), MoveTo(h, pos))
  {
    MoveLaid(h, a.capacity, pos);
    KeepInBuffer(a.mem, h.live, h.cur, pos);
  }

  /** Zeroing fresh bytes above the position leaves every live block as it was. */
  lemma {:induction false} AllocKeepsBlocks(mem: seq<byte>, live: seq<Block>, top: nat, at: nat, size: nat)
    requires InBuffer(mem, live) && Ordered(live, top) && top <= at && at + size <= |mem|
    ensures InBuffer(Store(mem, at, Zeros(size)), live)
    ensures HoldsAt(Store(mem, at, Zeros(size)), Block(at, Zeros(size)))
  {
    forall k | 0 <= k < |live| ensures HoldsAt(Store(mem, at, Zeros(size)), live[k]) {
      assert HoldsAt(mem, live[k]);
      StoreElsewhere(mem, at, Zeros(size), live[k].at, live[k].End());
    }
  }

  lemma {:induction false} AllocAgrees(a: BA.Arena, h: Heap, size: u64)
    requires Represents(a, h)
    ensures Agrees(a, BA.Alloc(a, size), Allocated(a.form, a.capacity, h, size))
  {
    AlignInRange(a.form, a.cur);
    var at := NextStart(a.form, h.cur);
    AllocValue(a, size, at);
    if at + size <= a.capacity {
      AllocKeepsBlocks(a.mem, h.live, h.cur, at, size);
      AllocLaid(a.form, a.capacity, h, size);
    }
  }

  lemma {:induction false} AllocValue(a: BA.Arena, size: u64, at: nat)
    requires a.Mapped() && at == Align(a.form, a.cur, ARENA_ALIGN) && at <= ADDRESS_LIMIT + ARENA_ALIGN
    ensures BA.Alloc(a, size) ==
      if at + size <= a.capacity then
        BA.Done(BA.Arena(a.form, a.capacity, at + size, a.cur, Store(a.mem, at, Zeros(size))), Some(at))
      else if TWO_64 <= at + size <= TWO_64 + a.capacity then BA.Fault
      else BA.Done(a, None)
  {
    WrapOnce(at, size);
  }

  lemma {:induction false} WrapOnce(at: nat, size: u64)
    requires at < TWO_64
    ensures Wrap(at + size) == if at + size < TWO_64 then at + size else at + size - TWO_64
  {
  }

  /** An allocation whose end does not wrap. */
  lemma {:induction false} AllocFits(a: BA.Arena, size: nat, at: nat)
    requires a.Mapped() && a.cur <= a.capacity && size + a.capacity + ARENA_ALIGN < TWO_64
    requires at == NextStart(a.form, a.cur)
    ensures Wrap(size) == size
    ensures BA.Alloc(a, size) == if at + size > a.capacity then BA.Done(a, None) else
      BA.Done(BA.Arena(a.form, a.capacity, at + size, a.cur, Store(a.mem, at, Zeros(size))), Some(at))
  {
    AlignInRange(a.form, a.cur);
    AllocValue(a, size, at);
  }

  lemma {:induction false} WriteAgrees(a: BA.Arena, h: Heap, k: nat, at: nat, value: byte)
    requires Represents(a, h) && k < |h.live| && at < |h.live[k].data|
    ensures h.live[k].at + at < |a.mem|
    ensures Represents(a.(mem := a.mem[h.live[k].at + at := value]),
                       h.(live := h.live[k := h.live[k].(data := h.live[k].data[at := value])]))
  {
    assert HoldsAt(a.mem, h.live[k]);
    var data := h.live[k].data[at := value];
    var live' := h.live[k := h.live[k].(data := data)];
    var mem' := a.mem[h.live[k].at + at := value];
    WriteLaid(h, a.capacity, k, data);
    forall j | 0 <= j < |live'| ensures HoldsAt(mem', live'[j]) {
      assert HoldsAt(a.mem, h.live[j]);
      if j < k {
        assert h.live[j].End() <= h.live[k].at;
      } else if k < j {
        assert h.live[k].End() <= h.live[j].at;
      }
    }
  }

  lemma {:induction false} MoveItemAgrees(a: BA.Arena, h: Heap, item: Item)
    requires Represents(a, h) && (item.Pop? || item.PopTo? || item.Clear? || item.TempEnd?)
    ensures Agrees(a, Execute(a, Resolve(a.capacity, h, item)), Next(a.form, a.capacity, h, item))
  {
    match item
    case Pop(size) => MoveAgrees(a, h, h.cur - Min(size, h.cur));
    case PopTo(pos) => MoveAgrees(a, h, Min(pos, h.cur));
    case Clear => MoveAgrees(a, h, 0);
    case TempEnd(start) => if start <= a.capacity { MoveAgrees(a, h, start); }
  }

  lemma {:induction false} AllocItemAgrees(a: BA.Arena, h: Heap, item: Item)
    requires Represents(a, h) && item.Alloc?
    ensures Agrees(a, Execute(a, Resolve(a.capacity, h, item)), Next(a.form, a.capacity, h, item))
  {
    AllocAgrees(a, h, item.size);
  }

  lemma {:induction false} WriteItemAgrees(a: BA.Arena, h: Heap, item: Item)
    requires Represents(a, h) && item.Write?
    ensures Agrees(a, Execute(a, Resolve(a.capacity, h, item)), Next(a.form, a.capacity, h, item))
  {
    if item.k < |h.live| && item.at < |h.live[item.k].data| {
      WriteAgrees(a, h, item.k, item.at, item.value);
      var address, data := h.live[item.k].at + item.at, h.live[item.k].data[item.at := item.value];
      WriteResolves(a, h, item, address, data);
      AgreesThen(a, a.(mem := a.mem[address := item.value]),
                 h.(live := h.live[item.k := h.live[item.k].(data := data)]));
    }
  }

  lemma {:induction false} AgreesThen(a: BA.Arena, a': BA.Arena, h: Heap)
    requires Represents(a', h) && a'.form == a.form && a'.capacity == a.capacity
    ensures Agrees(a, BA.Done(a', None), Then(h, None))
  {
  }

  lemma {:induction false} WriteResolves(a: BA.Arena, h: Heap, item: Item, address: nat, data: seq<byte>)
    requires a.Mapped() && item.Write? && item.k < |h.live| && item.at < |h.live[item.k].data|
    requires address == h.live[item.k].at + item.at < |a.mem| && data == h.live[item.k].data[item.at := item.value]
    ensures Execute(a, Resolve(a.capacity, h, item)) == BA.Done(a.(mem := a.mem[address := item.value]), None)
    ensures Next(a.form, a.capacity, h, item)
         == Then(h.(live := h.live[item.k := h.live[item.k].(data := data)]), None)
  {
  }

  lemma {:induction false} StepAgrees(a: BA.Arena, h: Heap, item: Item)
    requires Represents(a, h) && !item.Scope?
    ensures Agrees(a, Execute(a, Resolve(a.capacity, h, item)), Next(a.form, a.capacity, h, item))
  {
    if item.Alloc? {
      AllocItemAgrees(a, h, item);
    } else if item.Write? {
      WriteItemAgrees(a, h, item);
    } else {
      MoveItemAgrees(a, h, item);
    }
  }

  // ---------------------------------------------------------------------------------------------
  // Runs of the buffer alone

  /** The calls that a client makes in a run: a scope is `temp_arena_begin`, its items, and
      `temp_arena_end`.  The heap only tells which address a client means; after a crash there are no
      more calls. */
  function CallsOf(form: Form, capacity: u64, h: Heap, items: seq<Item>): seq<Call>
    decreases items
  {
    if items == [] then
      []
    else if items[0].Scope? then
      [CallScopeBegin] + (CallsOf(form, capacity, h, items[0].body) +
        match RunHeap(form, capacity, h, items[0].body)
        case Crashed => []
        case Ended(inner, _, _) => [CallScopeEnd] + CallsOf(form, capacity, MoveTo(inner, h.cur), items[1..]))
    else
      [Resolve(capacity, h, items[0])] +
        match Next(form, capacity, h, items[0])
        case Crash => []
        case Then(h', _) => CallsOf(form, capacity, h', items[1..])
  }

  /** The buffer under a list of calls, with the start positions of the open scopes. */
  datatype CallRun = CallCrash | CallEnd(arena: BA.Arena, marks: seq<u64>, results: seq<Option<nat>>)

  function RunCalls(a: BA.Arena, marks: seq<u64>, calls: seq<Call>): CallRun
    requires a.Mapped()
    decreases |calls|
  {
    if calls == [] then
      CallEnd(a, marks, [])
    else if calls[0].CallScopeBegin? then
      RunCalls(a, marks + [a.cur], calls[1..])
    else if calls[0].CallScopeEnd? then
      if marks == [] then CallCrash
      else RunCalls(BA.TempEnd(a, marks[|marks| - 1]), marks[..|marks| - 1], calls[1..])
    else
      match Execute(a, calls[0])
      case Fault => CallCrash
      case Done(a', pointer) => Prefixed([pointer], RunCalls(a', marks, calls[1..]))
  }

  /** Earlier results go in front. */
  function Prefixed(results: seq<Option<nat>>, r: CallRun): CallRun {
    match r
    case CallCrash => CallCrash
    case CallEnd(a, marks, more) => CallEnd(a, marks, results + more)
  }

  /** One list of calls after another. */
  lemma {:induction false} RunCallsAppend(a: BA.Arena, marks: seq<u64>, xs: seq<Call>, ys: seq<Call>)
    requires a.Mapped()
    ensures match RunCalls(a, marks, xs)
      case CallCrash => RunCalls(a, marks, xs + ys) == CallCrash
      case CallEnd(a', marks', results) =>
        a'.Mapped() && RunCalls(a, marks, xs + ys) == Prefixed(results, RunCalls(a', marks', ys))
    decreases |xs|
  {
    if xs == [] {
      assert xs + ys == ys;
      PrefixNothing(RunCalls(a, marks, ys));
    } else {
      assert (xs + ys)[1..] == xs[1..] + ys;
      if xs[0].CallScopeBegin? {
        RunCallsAppend(a, marks + [a.cur], xs[1..], ys);
      } else if xs[0].CallScopeEnd? {
        if marks != [] {
          RunCallsAppend(BA.TempEnd(a, marks[|marks| - 1]), marks[..|marks| - 1], xs[1..], ys);
        }
      } else {
        var o := Execute(a, xs[0]);
        if o.Done? {
          RunCallsAppend(o.arena, marks, xs[1..], ys);
          var r := RunCalls(o.arena, marks, xs[1..]);
          if r.CallEnd? {
            PrefixTwice([o.pointer], r.results, RunCalls(r.arena, r.marks, ys));
          }
        }
      }
    }
  }

  lemma {:induction false} PrefixNothing(r: CallRun)
    ensures Prefixed([], r) == r
  {
    if r.CallEnd? {
      assert [] + r.results == r.results;
    }
  }

  lemma {:induction false} PrefixTwice(x: seq<Option<nat>>, y: seq<Option<nat>>, r: CallRun)
    ensures Prefixed(x, Prefixed(y, r)) == Prefixed(x + y, r)
  {
    if r.CallEnd? {
      assert x + (y + r.results) == (x + y) + r.results;
    }
  }

  /** The calls end like the heap, with the scopes as they were. */
  ghost predicate CallsAgree(a: BA.Arena, marks: seq<u64>, c: CallRun, r: Run) {
    match r
    case Crashed => c == CallCrash
    case Ended(final, results, _) =>
      && c.CallEnd? && c.marks == marks && c.results == results && Represents(c.arena, final)
      && c.arena.form == a.form && c.arena.capacity == a.capacity
  }

  lemma {:induction false} ScopeAgrees(a: BA.Arena, marks: seq<u64>, h: Heap, items: seq<Item>)
    requires Represents(a, h) && items != [] && items[0].Scope?
    requires CallsAgree(a, marks + [a.cur],
                        RunCalls(a, marks + [a.cur], CallsOf(a.form, a.capacity, h, items[0].body)),
                        RunHeap(a.form, a.capacity, h, items[0].body))
    ensures match RunHeap(a.form, a.capacity, h, items[0].body)
      case Crashed => RunCalls(a, marks, CallsOf(a.form, a.capacity, h, items)) == CallCrash
      case Ended(inner, results, _) =>
        var c := RunCalls(a, marks + [a.cur], CallsOf(a.form, a.capacity, h, items[0].body));
        RunCalls(a, marks, CallsOf(a.form, a.capacity, h, items))
          == Prefixed(results, RunCalls(BA.TempEnd(c.arena, a.cur), marks,
                                        CallsOf(a.form, a.capacity, MoveTo(inner, h.cur), items[1..])))
  {
    var body := CallsOf(a.form, a.capacity, h, items[0].body);
    var r := RunHeap(a.form, a.capacity, h, items[0].body);
    var rest := match r
      case Crashed => []
      case Ended(inner, _, _) => [CallScopeEnd] + CallsOf(a.form, a.capacity, MoveTo(inner, h.cur), items[1..]);
    assert CallsOf(a.form, a.capacity, h, items) == [CallScopeBegin] + (body + rest);
    assert ([CallScopeBegin] + (body + rest))[1..] == body + rest;
    RunCallsAppend(a, marks + [a.cur], body, rest);
    if r.Ended? {
      assert rest[1..] == CallsOf(a.form, a.capacity, MoveTo(r.heap, h.cur), items[1..]);
      assert (marks + [a.cur])[..|marks|] == marks;
    }
  }

  lemma {:induction false} ItemAgrees(a: BA.Arena, marks: seq<u64>, h: Heap, items: seq<Item>)
    requires Represents(a, h) && items != [] && !items[0].Scope?
    ensures match Next(a.form, a.capacity, h, items[0])
      case Crash => RunCalls(a, marks, CallsOf(a.form, a.capacity, h, items)) == CallCrash
      case Then(h', pointer) =>
        var o := Execute(a, Resolve(a.capacity, h, items[0]));
        && o.Done? && Represents(o.arena, h') && o.arena.form == a.form && o.arena.capacity == a.capacity
        && RunCalls(a, marks, CallsOf(a.form, a.capacity, h, items))
             == Prefixed([pointer], RunCalls(o.arena, marks, CallsOf(a.form, a.capacity, h', items[1..])))
  {
    StepAgrees(a, h, items[0]);
    var call := Resolve(a.capacity, h, items[0]);
    var e := Next(a.form, a.capacity, h, items[0]);
    var rest := if e.Then? then CallsOf(a.form, a.capacity, e.heap, items[1..]) else [];
    assert CallsOf(a.form, a.capacity, h, items) == [call] + rest;
    assert ([call] + rest)[1..] == rest;
  }

  lemma {:induction false} CallsRefine(a: BA.Arena, marks: seq<u64>, h: Heap, items: seq<Item>)
    requires Represents(a, h)
    ensures CallsAgree(a, marks, RunCalls(a, marks, CallsOf(a.form, a.capacity, h, items)),
                       RunHeap(a.form, a.capacity, h, items))
    decreases items
  {
    if items == [] {
    } else if items[0].Scope? {
      CallsRefine(a, marks + [a.cur], h, items[0].body);
      ScopeAgrees(a, marks, h, items);
      var r := RunHeap(a.form, a.capacity, h, items[0].body);
      if r.Ended? {
        var c := RunCalls(a, marks + [a.cur], CallsOf(a.form, a.capacity, h, items[0].body));
        MoveAgrees(c.arena, r.heap, h.cur);
        CallsRefine(BA.TempEnd(c.arena, a.cur), marks, MoveTo(r.heap, h.cur), items[1..]);
      }
    } else {
      ItemAgrees(a, marks, h, items);
      var e := Next(a.form, a.capacity, h, items[0]);
      if e.Then? {
        var o := Execute(a, Resolve(a.capacity, h, items[0]));
        CallsRefine(o.arena, marks, e.heap, items[1..]);
      }
    }
  }

  datatype BufferRun = BufferCrash | BufferEnd(arena: BA.Arena, results: seq<Option<nat>>)

  /** The buffer under the calls of a run. */
  function RunArena(a: BA.Arena, h: Heap, items: seq<Item>): BufferRun
    requires a.Mapped()
  {
    match RunCalls(a, [], CallsOf(a.form, a.capacity, h, items))
    case CallCrash => BufferCrash
    case CallEnd(a', _, results) => BufferEnd(a', results)
  }

  /** Refinement over every run: the buffer returns the same pointers as the heap of independent,
      zero-initialised blocks, holds the contents their owners last wrote, and crashes if and only if
      the heap does. */
  lemma {:induction false} RunRefines(a: BA.Arena, h: Heap, items: seq<Item>)
    requires Represents(a, h)
    ensures match RunHeap(a.form, a.capacity, h, items)
      case Crashed => RunArena(a, h, items) == BufferCrash
      case Ended(final, results, _) =>
        var r := RunArena(a, h, items);
        && r.BufferEnd? && r.results == results && Represents(r.arena, final)
        && r.arena.form == a.form && r.arena.capacity == a.capacity
  {
    CallsRefine(a, [], h, items);
  }

  /** A fresh arena represents the heap without blocks, whatever its memory holds. */
  lemma {:induction false} FreshArena(a: BA.Arena)
    requires a.Mapped() && a.cur == 0 && a.prev == 0
    ensures Represents(a, Heap(0, 0, []))
  {
  }

  /** A represented block: its contents are in the buffer below the position, and no other block touches it. */
  lemma {:induction false} LiveBlock(a: BA.Arena, h: Heap, k: nat, j: nat)
    requires Represents(a, h) && k < |h.live| && j < |h.live|
    ensures a.cur == h.cur <= a.capacity && a.prev == h.prev
    ensures h.live[k].data != [] && h.live[k].at + |h.live[k].data| <= a.cur <= |a.mem|
    ensures a.mem[h.live[k].at..h.live[k].at + |h.live[k].data|] == h.live[k].data
    ensures j < k ==> h.live[j].at + |h.live[j].data| <= h.live[k].at
  {
    assert HoldsAt(a.mem, h.live[k]);
  }

  /** An allocation crashes exactly when its size wraps the sum back into the buffer; it returns NULL
      exactly when there is no room otherwise. */
  lemma {:induction false} AllocOutcomes(a: BA.Arena, size: u64)
    requires a.Mapped() && a.cur <= a.capacity
    ensures var at := NextStart(a.form, a.cur);
      && (BA.Alloc(a, size).Fault? <==> TWO_64 - at <= size <= TWO_64 - at + a.capacity)
      && (BA.Alloc(a, size) == BA.Done(a, None) <==> a.capacity - at < size && !BA.Alloc(a, size).Fault?)
  {
    AlignInRange(a.form, a.cur);
    AllocValue(a, size, NextStart(a.form, a.cur));
  }

  // ---------------------------------------------------------------------------------------------
  // Alignment

  ghost predicate AllAligned(results: seq<Option<nat>>) {
    forall i :: 0 <= i < |results| && results[i].Some? ==> results[i].value % ARENA_ALIGN == 0
  }

  /** With `align` repaired, every block of every run starts at a multiple of `ARENA_ALIGN`. */
  lemma {:induction false} RunAligned(capacity: u64, h: Heap, items: seq<Item>)
    ensures var r := RunHeap(Repaired, capacity, h, items); r.Ended? ==> AllAligned(r.results)
    decreases items
  {
    if items == [] {
    } else if items[0].Scope? {
      RunAligned(capacity, h, items[0].body);
      var r := RunHeap(Repaired, capacity, h, items[0].body);
      if r.Ended? {
        RunAligned(capacity, MoveTo(r.heap, h.cur), items[1..]);
      }
    } else {
      RoundUpLeast(h.cur, ARENA_ALIGN, 0);
      var e := Next(Repaired, capacity, h, items[0]);
      if e.Then? {
        RunAligned(capacity, e.heap, items[1..]);
      }
    }
  }

  /** So every address that the repaired arena hands out is aligned exactly when its base is. */
  lemma {:induction false} AddressesAligned(a: BA.Arena, h: Heap, items: seq<Item>, base: nat, i: nat)
    requires Represents(a, h) && a.form == Repaired
    requires var r := RunArena(a, h, items); r.BufferEnd? && i < |r.results| && r.results[i].Some?
    ensures (base + RunArena(a, h, items).results[i].value) % ARENA_ALIGN == 0 <==> base % ARENA_ALIGN == 0
  {
    RunArenaAligned(a, h, items);
    SumAligned(base, RunArena(a, h, items).results[i].value);
  }

  lemma {:induction false} RunArenaAligned(a: BA.Arena, h: Heap, items: seq<Item>)
    requires Represents(a, h) && a.form == Repaired
    ensures var r := RunArena(a, h, items); r.BufferEnd? ==> AllAligned(r.results)
  {
    RunRefines(a, h, items);
    RunAligned(a.capacity, h, items);
  }

  lemma {:induction false} SumAligned(base: nat, p: nat)
    requires p % ARENA_ALIGN == 0
    ensures (base + p) % ARENA_ALIGN == 0 <==> base % ARENA_ALIGN == 0
  {
  }

  /** As written, a block is aligned exactly when the position already was. */
  lemma {:induction false} AlignedAsWritten(a: BA.Arena, size: u64)
    requires a.Mapped() && a.cur <= a.capacity && a.form == AsWritten
    requires var o := BA.Alloc(a, size); o.Done? && o.pointer.Some?
    ensures BA.Alloc(a, size).pointer.value % ARENA_ALIGN == 0 <==> a.cur % ARENA_ALIGN == 0
  {
    AlignInRange(a.form, a.cur);
  }

  /** Two one-byte allocations, the case of the repository's own alignment test: the second block is
      not aligned. */
  lemma {:induction false} MisalignedPair(capacity: u64)
    requires 2 <= capacity
    ensures RunHeap(AsWritten, capacity, Heap(0, 0, []), [Alloc(1), Alloc(1)]).results == [Some(0), Some(1)]
    ensures !AllAligned([Some(0), Some(1)])
  {
    var h := Heap(0, 0, []);
    var h1 := Next(AsWritten, capacity, h, Alloc(1)).heap;
    var h2 := Next(AsWritten, capacity, h1, Alloc(1)).heap;
    assert [Alloc(1), Alloc(1)][1..] == [Alloc(1)];
    assert [Alloc(1)][1..] == [];
    assert RunHeap(AsWritten, capacity, h2, []) == Ended(h2, [], []);
    assert RunHeap(AsWritten, capacity, h1, [Alloc(1)]).results == [Some(1)];
    assert [Some(0), Some(1)][1].value % ARENA_ALIGN != 0;
  }
}
