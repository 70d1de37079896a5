/** Runs that also resize, with `arena_resize_align` as intended: allocations, pops, scopes and client writes
    in any order with resizes of any live block, of NULL and of addresses outside the buffer. */
module ArenaMixedRuns {
  import opened Bytes
  import opened BaseMem
  import BA = BaseArena
  import opened ArenaHeap
  import opened ArenaRuns
  import ArenaResize

  datatype Step =
    | Plain(items: seq<Item>)
    | Resize(k: nat, newSize: u64)
    | ResizeNone(block: Option<nat>, newSize: u64, oldSize: u64)

  /** What a resize does to the list of blocks: in place for the block that the previous position names,
      by relocation for any other, and nothing without room.  Resizing no live block is skipped. */
  function ResizedHeap(form: Form, capacity: u64, h: Heap, k: nat, newSize: u64): Effect {
    if k >= |h.live| then
      Then(h, None)
    else if h.live[k].at == h.prev then
      if h.prev + newSize <= capacity then Then(ArenaResize.InPlace(h, newSize), Some(h.prev)) else Then(h, None)
    else
      ArenaResize.Relocated(form, capacity, h, Refit(h.live[k].data, newSize))
  }

  /** NULL, or a block of no bytes, makes the resize an allocation; an address outside the buffer is refused.
      An address inside that names no block is not a client's doing and is skipped. */
  predicate IsAllocation(block: Option<nat>, oldSize: u64) {
    block.None? || oldSize == 0
  }

  function NoneResized(form: Form, capacity: u64, h: Heap, block: Option<nat>, newSize: u64, oldSize: u64): Effect {
    if IsAllocation(block, oldSize) then Allocated(form, capacity, h, newSize) else Then(h, None)
  }

  // ---------------------------------------------------------------------------------------------
  // The buffer alone

  /** What reaches the allocator: the calls of a plain stretch, or one resize of an address. */
  datatype BufferStep =
    | Calls(calls: seq<Call>)
    | CallResize(block: Option<nat>, newSize: u64, oldSize: u64)
    | NoResize

  function ResolveStep(form: Form, capacity: u64, h: Heap, step: Step): BufferStep {
    match step
    case Plain(items) => Calls(CallsOf(form, capacity, h, items))
    case Resize(k, newSize) =>
      if k < |h.live| then CallResize(Some(h.live[k].at), newSize, Wrap(|h.live[k].data|)) else NoResize
    case ResizeNone(block, newSize, oldSize) =>
      if IsAllocation(block, oldSize) || block.value >= capacity then CallResize(block, newSize, oldSize) else NoResize
  }

  function ExecuteStep(a: BA.Arena, step: BufferStep): (r: BufferRun)
    requires a.Mapped()
    ensures r.BufferEnd? ==> r.arena.Mapped()
  {
    match step
    case NoResize => BufferEnd(a, [None])
    case CallResize(block, newSize, oldSize) =>
      (match ArenaResize.ResizeRepaired(a, block, newSize, oldSize)
       case Fault => BufferCrash
       case Done(a', pointer) => BufferEnd(a', [pointer]))
    case Calls(calls) =>
      RunCallsMapped(a, [], calls);
      match RunCalls(a, [], calls)
      case CallCrash => BufferCrash
      case CallEnd(a', _, results) => BufferEnd(a', results)
  }

  lemma {:induction false} RunCallsMapped(a: BA.Arena, marks: seq<u64>, calls: seq<Call>)
    requires a.Mapped()
    ensures var r := RunCalls(a, marks, calls); r.CallEnd? ==> r.arena.Mapped()
  {
    RunCallsAppend(a, marks, calls, []);
  }

  function RunBuffer(a: BA.Arena, steps: seq<BufferStep>): BufferRun
    requires a.Mapped()
    decreases |steps|
  {
    if steps == [] then BufferEnd(a, [])
    else
      match ExecuteStep(a, steps[0])
      case BufferCrash => BufferCrash
      case BufferEnd(a', results) =>
        match RunBuffer(a', steps[1..])
        case BufferCrash => BufferCrash
        case BufferEnd(final, results') => BufferEnd(final, results + results')
  }

  // ---------------------------------------------------------------------------------------------
  // The heap

  /** `outer` lists only the results of calls outside nested scopes. */
  datatype HeapEnd = HeapCrash | HeapEnd(heap: Heap, results: seq<Option<nat>>, outer: seq<Option<nat>>)

  function HeapStep(form: Form, capacity: u64, h: Heap, step: Step): HeapEnd {
    match step
    case Plain(items) =>
      (match RunHeap(form, capacity, h, items)
       case Crashed => HeapCrash
       case Ended(h', results, outer) => HeapEnd(h', results, outer))
    case Resize(k, newSize) =>
      EndOf(ResizedHeap(form, capacity, h, k, newSize))
    case ResizeNone(block, newSize, oldSize) =>
      EndOf(NoneResized(form, capacity, h, block, newSize, oldSize))
  }

  function EndOf(e: Effect): HeapEnd {
    match e
    case Crash => HeapCrash
    case Then(h, pointer) => HeapEnd(h, [pointer], [pointer])
  }

  function RunSteps(form: Form, capacity: u64, h: Heap, steps: seq<Step>): HeapEnd
    decreases |steps|
  {
    if steps == [] then HeapEnd(h, [], [])
    else
      match HeapStep(form, capacity, h, steps[0])
      case HeapCrash => HeapCrash
      case HeapEnd(h', results, outer) =>
        match RunSteps(form, capacity, h', steps[1..])
        case HeapCrash => HeapCrash
        case HeapEnd(final, results', outer') => HeapEnd(final, results + results', outer + outer')
  }

  /** The steps that reach the allocator in a run; none after a crash. */
  function StepsOf(form: Form, capacity: u64, h: Heap, steps: seq<Step>): seq<BufferStep>
    decreases |steps|
  {
    if steps == [] then []
    else
      [ResolveStep(form, capacity, h, steps[0])] +
        match HeapStep(form, capacity, h, steps[0])
        case HeapCrash => []
        case HeapEnd(h', _, _) => StepsOf(form, capacity, h', steps[1..])
  }

  // ---------------------------------------------------------------------------------------------
  // Refinement

  lemma {:induction false} ResizeAgrees(a: BA.Arena, h: Heap, k: nat, newSize: u64)
    requires Represents(a, h) && k < |h.live|
    ensures Agrees(a, ArenaResize.ResizeRepaired(a, Some(h.live[k].at), newSize, Wrap(|h.live[k].data|)),
                   ResizedHeap(a.form, a.capacity, h, k, newSize))
  {
    assert HoldsAt(a.mem, h.live[k]);
    assert Wrap(|h.live[k].data|) == |h.live[k].data|;
    if h.live[k].at == h.prev {
      ArenaResize.RepairedInPlace(a, h, k, newSize);
    } else {
      ArenaResize.RepairedRelocates(a, h, k, newSize, |h.live[k].data|);
    }
  }

  /** The buffer ends like the heap. */
  ghost predicate EndsAlike(a: BA.Arena, b: BufferRun, e: HeapEnd) {
    match e
    case HeapCrash => b == BufferCrash
    case HeapEnd(h, results, _) =>
      && b.BufferEnd? && b.results == results && Represents(b.arena, h)
      && b.arena.form == a.form && b.arena.capacity == a.capacity
  }

  lemma {:induction false} StepEndsAlike(a: BA.Arena, h: Heap, step: Step)
    requires Represents(a, h)
    ensures EndsAlike(a, ExecuteStep(a, ResolveStep(a.form, a.capacity, h, step)),
                      HeapStep(a.form, a.capacity, h, step))
  {
    match step
    case Plain(items) => CallsRefine(a, [], h, items);
    case Resize(k, newSize) => if k < |h.live| { ResizeAgrees(a, h, k, newSize); }
    case ResizeNone(block, newSize, oldSize) =>
      if IsAllocation(block, oldSize) {
        ArenaResize.ResizeNullAgrees(a, h, block, newSize, oldSize);
      } else if block.value >= a.capacity {
        ArenaResize.ResizeOutside(a, block.value, newSize, oldSize);
      }
  }

  lemma {:induction false} StepsUnfold(form: Form, capacity: u64, h: Heap, steps: seq<Step>)
    requires steps != []
    ensures var e := HeapStep(form, capacity, h, steps[0]);
      var concrete := StepsOf(form, capacity, h, steps);
      && concrete != [] && concrete[0] == ResolveStep(form, capacity, h, steps[0])
      && (e.HeapEnd? ==> concrete[1..] == StepsOf(form, capacity, e.heap, steps[1..]))
  {
  }

  /** Refinement over every run with resizes: pointers, contents and crashes agree with the list of
      independent blocks, so live blocks stay disjoint and unchanged, and grown tails are zero. */
  lemma {:induction false} MixedRunRefines(a: BA.Arena, h: Heap, steps: seq<Step>)
    requires Represents(a, h)
    ensures EndsAlike(a, RunBuffer(a, StepsOf(a.form, a.capacity, h, steps)), RunSteps(a.form, a.capacity, h, steps))
    decreases |steps|
  {
    if steps != [] {
      StepEndsAlike(a, h, steps[0]);
      StepsUnfold(a.form, a.capacity, h, steps);
      var b := ExecuteStep(a, ResolveStep(a.form, a.capacity, h, steps[0]));
      var e := HeapStep(a.form, a.capacity, h, steps[0]);
      if e.HeapEnd? {
        MixedRunRefines(b.arena, e.heap, steps[1..]);
      }
    }
  }

  // ---------------------------------------------------------------------------------------------
  // Runs are sequences of these calls

  function RunOf(o: BA.Outcome): BufferRun {
    if o.Fault? then BufferCrash else BufferEnd(o.arena, [o.pointer])
  }

  /** What a client may do, and the call that it is: resizes of live blocks with their sizes, of NULL or from no
      bytes, and of addresses outside the buffer. */
  lemma {:induction false} OneStep(a: BA.Arena, h: Heap, step: Step)
    requires Represents(a, h) && (step.Resize? ==> step.k < |h.live|)
    requires step.ResizeNone? ==> step.block.None? || step.oldSize == 0 || step.block.value >= a.capacity
    ensures step.Resize? ==> |h.live[step.k].data| < TWO_64
    ensures RunBuffer(a, StepsOf(a.form, a.capacity, h, [step])) ==
      match step
      case Plain(items) => RunArena(a, h, items)
      case Resize(k, newSize) =>
        RunOf(ArenaResize.ResizeRepaired(a, Some(h.live[k].at), newSize, |h.live[k].data|))
      case ResizeNone(block, newSize, oldSize) => RunOf(ArenaResize.ResizeRepaired(a, block, newSize, oldSize))
  {
    if step.Resize? {
      assert HoldsAt(a.mem, h.live[step.k]);
      assert Wrap(|h.live[step.k].data|) == |h.live[step.k].data|;
    }
    StepEndsAlike(a, h, step);
    StepsOfOne(a.form, a.capacity, h, step);
    SingleStep(a, ResolveStep(a.form, a.capacity, h, step), StepsOf(a.form, a.capacity, h, [step]));
  }

  lemma {:induction false} StepsOfOne(form: Form, capacity: u64, h: Heap, step: Step)
    ensures StepsOf(form, capacity, h, [step]) == [ResolveStep(form, capacity, h, step)]
  {
    assert [step][1..] == [];
  }

  lemma {:induction false} SingleStep(a: BA.Arena, step: BufferStep, steps: seq<BufferStep>)
    requires a.Mapped() && steps == [step]
    ensures RunBuffer(a, steps) == ExecuteStep(a, step)
  {
    var r := ExecuteStep(a, step);
    assert steps[1..] == [];
    if r.BufferEnd? {
      assert r.results + [] == r.results;
    }
  }

  /** Earlier results go in front. */
  function After(results: seq<Option<nat>>, r: BufferRun): BufferRun {
    if r.BufferCrash? then r else BufferEnd(r.arena, results + r.results)
  }

  lemma {:induction false} StepsAppend(form: Form, capacity: u64, h: Heap, xs: seq<Step>, ys: seq<Step>)
    ensures StepsOf(form, capacity, h, xs + ys) == StepsOf(form, capacity, h, xs) +
      match RunSteps(form, capacity, h, xs)
      case HeapCrash => []
      case HeapEnd(mid, _, _) => StepsOf(form, capacity, mid, ys)
    decreases |xs|
  {
    if xs == [] {
      assert xs + ys == ys;
    } else {
      assert (xs + ys)[1..] == xs[1..] + ys;
      var e := HeapStep(form, capacity, h, xs[0]);
      if e.HeapEnd? {
        StepsAppend(form, capacity, e.heap, xs[1..], ys);
        var r := RunSteps(form, capacity, e.heap, xs[1..]);
        Associate([ResolveStep(form, capacity, h, xs[0])], StepsOf(form, capacity, e.heap, xs[1..]),
                  if r.HeapEnd? then StepsOf(form, capacity, r.heap, ys) else []);
      }
    }
  }

  lemma {:induction false} BufferAppend(a: BA.Arena, xs: seq<BufferStep>, ys: seq<BufferStep>)
    requires a.Mapped()
    ensures match RunBuffer(a, xs)
      case BufferCrash => RunBuffer(a, xs + ys) == BufferCrash
      case BufferEnd(a', results) => a'.Mapped() && RunBuffer(a, xs + ys) == After(results, RunBuffer(a', ys))
    decreases |xs|
  {
    if xs == [] {
      assert xs + ys == ys;
      var r := RunBuffer(a, ys);
      if r.BufferEnd? {
        assert [] + r.results == r.results;
      }
    } else {
      assert (xs + ys)[1..] == xs[1..] + ys;
      var r := ExecuteStep(a, xs[0]);
      if r.BufferEnd? {
        BufferAppend(r.arena, xs[1..], ys);
        var r1 := RunBuffer(r.arena, xs[1..]);
        if r1.BufferEnd? {
          var r2 := RunBuffer(r1.arena, ys);
          if r2.BufferEnd? {
            assert r.results + (r1.results + r2.results) == (r.results + r1.results) + r2.results;
          }
        }
      }
    }
  }

  /** One run after another. */
  lemma {:induction false} MixedAppend(a: BA.Arena, h: Heap, xs: seq<Step>, ys: seq<Step>)
    requires Represents(a, h)
    ensures match RunSteps(a.form, a.capacity, h, xs)
      case HeapCrash => RunBuffer(a, StepsOf(a.form, a.capacity, h, xs + ys)) == BufferCrash
      case HeapEnd(mid, _, _) =>
        var r := RunBuffer(a, StepsOf(a.form, a.capacity, h, xs));
        && r.BufferEnd? && Represents(r.arena, mid) && r.arena.form == a.form && r.arena.capacity == a.capacity
        && RunBuffer(a, StepsOf(a.form, a.capacity, h, xs + ys))
             == After(r.results, RunBuffer(r.arena, StepsOf(a.form, a.capacity, mid, ys)))
  {
    MixedRunRefines(a, h, xs);
    StepsAppend(a.form, a.capacity, h, xs, ys);
    var e := RunSteps(a.form, a.capacity, h, xs);
    BufferAppend(a, StepsOf(a.form, a.capacity, h, xs),
                 if e.HeapEnd? then StepsOf(a.form, a.capacity, e.heap, ys) else []);
  }
}
