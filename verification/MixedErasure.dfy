/** Scope erasure in runs that also resize.  A resize looks at the previous position, which the end of a
    scope does not restore, so deleting a scope can change what a later resize does.  These are the exact
    conditions. */
module MixedErasure {
  import opened Bytes
  import opened BaseMem
  import opened ArenaHeap
  import opened ScopeErasure
  import opened ArenaMixedRuns
  import ArenaResize

  /** Both do the same for the caller. */
  predicate SameEffect(e: Effect, e': Effect) {
    && (e.Crash? <==> e'.Crash?)
    && (e.Then? ==> e'.Then? && e.pointer == e'.pointer && SameView(e.heap, e'.heap))
  }

  /** The size of block `k` can change neither in place nor by relocation, and neither way crashes. */
  predicate Refused(form: Form, capacity: u64, h: Heap, k: nat, newSize: u64)
    requires k < |h.live|
  {
    && h.live[k].at + newSize > capacity
    && !(TWO_64 <= NextStart(form, h.cur) + newSize <= TWO_64 + capacity)
  }

  /** Both previous positions name block `k`, or neither does, or there is no room anyway. */
  predicate SafeResize(form: Form, capacity: u64, h: Heap, h': Heap, k: nat, newSize: u64)
    requires SameView(h, h')
  {
    k < |h.live| ==>
      || (h.live[k].at == h.prev <==> h.live[k].at == h'.prev)
      || Refused(form, capacity, h, k, newSize)
  }

  /** Heaps that differ in the previous position alone resize alike exactly when that is safe. */
  lemma {:induction false} ResizeSameView(form: Form, capacity: u64, h: Heap, h': Heap, k: nat, newSize: u64)
    requires SameView(h, h') && Laid(h, capacity)
    ensures SameEffect(ResizedHeap(form, capacity, h, k, newSize), ResizedHeap(form, capacity, h', k, newSize))
       <==> SafeResize(form, capacity, h, h', k, newSize)
  {
    if k < |h.live| {
      if h.live[k].at == h.prev && h.live[k].at != h'.prev {
        OnlyOneNames(form, capacity, h, h', k, newSize);
      } else if h.live[k].at != h.prev && h.live[k].at == h'.prev {
        OnlyOneNames(form, capacity, h', h, k, newSize);
      }
    }
  }

  /** One resize is in place and the other relocates. */
  lemma {:induction false} OnlyOneNames(form: Form, capacity: u64, h: Heap, h': Heap, k: nat, newSize: u64)
    requires SameView(h, h') && Ordered(h.live, h.cur) && h.cur <= capacity
    requires k < |h.live| && h.live[k].at == h.prev != h'.prev
    ensures SameEffect(ResizedHeap(form, capacity, h, k, newSize), ResizedHeap(form, capacity, h', k, newSize))
       <==> Refused(form, capacity, h, k, newSize)
  {
    assert h.live[k].at < h.live[k].End() <= h.cur <= NextStart(form, h.cur);
  }

  /** `q` is `p` with some scopes deleted from its plain stretches, at any depth. */
  ghost predicate ErasesSteps(p: seq<Step>, q: seq<Step>) {
    && |p| == |q|
    && forall i :: 0 <= i < |p| ==> ErasesStep(p[i], q[i])
  }

  ghost predicate ErasesStep(p: Step, q: Step) {
    if p.Plain? then q.Plain? && Erases(p.items, q.items) else q == p
  }

  /** Every scope stays above its own start, and every resize of the run is safe. */
  ghost predicate SafeRun(form: Form, capacity: u64, h: Heap, h': Heap, p: seq<Step>, q: seq<Step>)
    requires ErasesSteps(p, q) && SameView(h, h')
    decreases |p|
  {
    p == [] ||
      (&& SafeStep(form, capacity, h, h', p[0])
       && var e, e' := HeapStep(form, capacity, h, p[0]), HeapStep(form, capacity, h', q[0]);
         e.HeapEnd? && e'.HeapEnd? && SameView(e.heap, e'.heap) ==>
           SafeRun(form, capacity, e.heap, e'.heap, p[1..], q[1..]))
  }

  ghost predicate SafeStep(form: Form, capacity: u64, h: Heap, h': Heap, step: Step)
    requires SameView(h, h')
  {
    match step
    case Plain(items) => Contained(form, capacity, h, items)
    case Resize(k, newSize) => SafeResize(form, capacity, h, h', k, newSize)
    case ResizeNone(_, _, _) => true
  }

  lemma {:induction false} StepErasure(form: Form, capacity: u64, h: Heap, h': Heap, p: Step, q: Step)
    requires ErasesStep(p, q) && SameView(h, h') && Laid(h, capacity)
    requires SafeStep(form, capacity, h, h', p)
    requires HeapStep(form, capacity, h, p).HeapEnd?
    ensures var e, e' := HeapStep(form, capacity, h, p), HeapStep(form, capacity, h', q);
      e'.HeapEnd? && e'.outer == e.outer && SameView(e.heap, e'.heap)
  {
    match p
    case Plain(items) => Erasure(form, capacity, h, h', items, q.items);
    case Resize(k, newSize) => ResizeSameView(form, capacity, h, h', k, newSize);
    case ResizeNone(block, newSize, oldSize) => NextSameView(form, capacity, h, h', Alloc(newSize));
  }

  lemma {:induction false} StepLaid(form: Form, capacity: u64, h: Heap, step: Step)
    requires Laid(h, capacity)
    ensures var e := HeapStep(form, capacity, h, step); e.HeapEnd? ==> Laid(e.heap, capacity)
  {
    match step
    case Plain(items) => RunLaid(form, capacity, h, items);
    case Resize(k, newSize) => ResizedLaid(form, capacity, h, k, newSize);
    case ResizeNone(block, newSize, oldSize) => AllocLaid(form, capacity, h, newSize);
  }

  lemma {:induction false} ResizedLaid(form: Form, capacity: u64, h: Heap, k: nat, newSize: u64)
    requires Laid(h, capacity)
    ensures var e := ResizedHeap(form, capacity, h, k, newSize); e.Then? ==> Laid(e.heap, capacity)
  {
    if k < |h.live| {
      if h.live[k].at == h.prev {
        ArenaResize.PrevNamesLast(h, capacity, k);
        if h.prev + newSize <= capacity {
          ArenaResize.InPlaceLaid(h, capacity, newSize);
        }
      } else {
        ArenaResize.RelocatedLaid(form, capacity, h, Refit(h.live[k].data, newSize));
      }
    }
  }

  /** Scope erasure with resizes: if every resize is safe, deleting contained scopes changes no result
      outside them, and leaves the same blocks with the same contents. */
  lemma {:induction false} ErasureWithResizes(form: Form, capacity: u64, h: Heap, h': Heap, p: seq<Step>, q: seq<Step>)
    requires ErasesSteps(p, q) && SameView(h, h') && Laid(h, capacity)
    requires SafeRun(form, capacity, h, h', p, q)
    requires RunSteps(form, capacity, h, p).HeapEnd?
    ensures var r, r' := RunSteps(form, capacity, h, p), RunSteps(form, capacity, h', q);
      r'.HeapEnd? && r'.outer == r.outer && SameView(r.heap, r'.heap)
    decreases |p|
  {
    if p != [] {
      var e, e' := HeapStep(form, capacity, h, p[0]), HeapStep(form, capacity, h', q[0]);
      StepErasure(form, capacity, h, h', p[0], q[0]);
      StepLaid(form, capacity, h, p[0]);
      ErasureWithResizes(form, capacity, e.heap, e'.heap, p[1..], q[1..]);
    }
  }

  lemma {:induction false} PassingScope(capacity: u64, b: Block)
    requires 2 <= capacity && b.at == 0 && |b.data| == 1
    ensures RunHeap(AsWritten, capacity, Heap(1, 0, [b]), [Scope([Alloc(1)])])
         == Ended(Heap(1, 1, [b]), [Some(1)], [])
  {
    var h, inner := Heap(1, 0, [b]), Heap(2, 1, [b] + [Block(1, Zeros(1))]);
    assert [Alloc(1)][1..] == [];
    assert RunHeap(AsWritten, capacity, inner, []) == Ended(inner, [], []);
    assert RunHeap(AsWritten, capacity, h, [Alloc(1)]) == Ended(inner, [Some(1)], [Some(1)]);
    assert inner.live[..1] == [b] && KeepBelow([b], 1) == [b];
    assert KeepBelow(inner.live, 1) == [b];
    assert MoveTo(inner, 1) == Heap(1, 1, [b]);
    assert [Scope([Alloc(1)])][1..] == [];
  }

  /** A scope that allocates makes the arena forget which block is the last: the same resize that was in
      place without the scope relocates after it. */
  lemma {:induction false} ScopeMovesResize(capacity: u64, value: byte)
    requires 3 <= capacity
    ensures var h := Heap(1, 0, [Block(0, [value])]);
      var p, q := [Plain([Scope([Alloc(1)])])] + [Resize(0, 2)], [Plain([])] + [Resize(0, 2)];
      var r, r' := RunSteps(AsWritten, capacity, h, p), RunSteps(AsWritten, capacity, h, q);
      && ErasesSteps(p, q)
      && r.HeapEnd? && r'.HeapEnd? && r.outer == [Some(1)] && r'.outer == [Some(0)]
  {
    var b := Block(0, [value]);
    PassingScope(capacity, b);
    ThenResize(capacity, Heap(1, 0, [b]), Plain([Scope([Alloc(1)])]), Heap(1, 1, [b]));
    ThenResize(capacity, Heap(1, 0, [b]), Plain([]), Heap(1, 0, [b]));
    assert [Scope([Alloc(1)])][1..] == [];
    assert Erases([], []);
  }

  lemma {:induction false} ThenResize(capacity: u64, h: Heap, step: Step, h': Heap)
    requires var e := HeapStep(AsWritten, capacity, h, step); e.HeapEnd? && e.heap == h' && e.outer == []
    ensures var e := HeapStep(AsWritten, capacity, h', Resize(0, 2));
      var r := RunSteps(AsWritten, capacity, h, [step] + [Resize(0, 2)]);
      e.HeapEnd? ==> r.HeapEnd? && r.outer == e.outer
  {
    var resize := [Resize(0, 2)];
    assert ([step] + resize)[1..] == resize && resize[1..] == [];
  }
}
