/** Temporary scopes leave no trace in runs without resizes: deleting scopes, at any depth, changes
    nothing for the code around them, although `temp_arena_end` does not restore the previous position.
    `MixedErasure` says when that still holds for code that resizes. */
module ScopeErasure {
  import opened Bytes
  import opened BaseMem
  import BA = BaseArena
  import opened ArenaHeap
  import opened ArenaRuns

  /** `q` is `p` with some scopes deleted, at any depth. */
  ghost predicate Erases(p: seq<Item>, q: seq<Item>)
    decreases p, q
  {
    if p == [] then
      q == []
    else
      || (p[0].Scope? && Erases(p[1..], q))
      || (q != [] && Erases(p[1..], q[1..]) &&
          if p[0].Scope? then q[0].Scope? && Erases(p[0].body, q[0].body) else q[0] == p[0])
  }

  /** Nothing deleted. */
  lemma {:induction false} ErasesNothing(p: seq<Item>)
    ensures Erases(p, p)
    decreases p
  {
    if p != [] {
      ErasesNothing(p[1..]);
      if p[0].Scope? {
        ErasesNothing(p[0].body);
      }
    }
  }

  /** Deleting in two parts of a run. */
  lemma {:induction false} ErasesAppend(p: seq<Item>, q: seq<Item>, p': seq<Item>, q': seq<Item>)
    requires Erases(p, q) && Erases(p', q')
    ensures Erases(p + p', q + q')
    decreases |p|
  {
    if p == [] {
      assert p + p' == p' && q + q' == q';
    } else {
      assert (p + p')[1..] == p[1..] + p';
      if p[0].Scope? && Erases(p[1..], q) {
        ErasesAppend(p[1..], q, p', q');
      } else {
        assert (q + q')[1..] == q[1..] + q';
        ErasesAppend(p[1..], q[1..], p', q');
      }
    }
  }

  /** Deleting a scope, and deleting inside one. */
  lemma {:induction false} ErasesScope(body: seq<Item>, body': seq<Item>)
    ensures Erases([Scope(body)], [])
    ensures Erases(body, body') ==> Erases([Scope(body)], [Scope(body')])
  {
    assert [Scope(body)][1..] == [] && [Scope(body')][1..] == [];
    assert Erases([], []);
  }

  /** While the items run, the position never drops below `floor`, and writes go only to blocks from
      index `n` on.  This is what makes a scope leave its surroundings alone. */
  ghost predicate Stays(form: Form, capacity: u64, h: Heap, floor: nat, n: nat, items: seq<Item>)
    decreases items
  {
    items == [] ||
    if items[0].Scope? then
      && Stays(form, capacity, h, floor, n, items[0].body)
      && var r := RunHeap(form, capacity, h, items[0].body);
        r.Ended? ==> Stays(form, capacity, MoveTo(r.heap, h.cur), floor, n, items[1..])
    else
      && (items[0].Write? ==> items[0].k >= n)
      && var e := Next(form, capacity, h, items[0]);
        e.Then? ==> e.heap.cur >= floor && Stays(form, capacity, e.heap, floor, n, items[1..])
  }

  /** Every scope of the run stays above its own start and writes only its own blocks. */
  ghost predicate Contained(form: Form, capacity: u64, h: Heap, items: seq<Item>)
    decreases items
  {
    items == [] ||
    if items[0].Scope? then
      && Contained(form, capacity, h, items[0].body)
      && Stays(form, capacity, h, h.cur, |h.live|, items[0].body)
      && var r := RunHeap(form, capacity, h, items[0].body);
        r.Ended? ==> Contained(form, capacity, MoveTo(r.heap, h.cur), items[1..])
    else
      var e := Next(form, capacity, h, items[0]);
      e.Then? ==> Contained(form, capacity, e.heap, items[1..])
  }

  /** Allocations, and scopes of allocations, at any depth. */
  predicate OnlyAllocates(items: seq<Item>)
    decreases items
  {
    items == [] ||
      (&& (items[0].Alloc? || (items[0].Scope? && OnlyAllocates(items[0].body)))
       && OnlyAllocates(items[1..]))
  }

  /** They stay above any position that is not above the start. */
  lemma {:induction false} AllocationsStay(form: Form, capacity: u64, h: Heap, floor: nat, n: nat, items: seq<Item>)
    requires OnlyAllocates(items) && floor <= h.cur
    ensures Stays(form, capacity, h, floor, n, items)
    decreases items
  {
    if items != [] {
      if items[0].Scope? {
        AllocationsStay(form, capacity, h, floor, n, items[0].body);
        var r := RunHeap(form, capacity, h, items[0].body);
        if r.Ended? {
          AllocationsStay(form, capacity, MoveTo(r.heap, h.cur), floor, n, items[1..]);
        }
      } else {
        var e := Next(form, capacity, h, items[0]);
        if e.Then? {
          AllocationsStay(form, capacity, e.heap, floor, n, items[1..]);
        }
      }
    }
  }

  /** So scopes that only allocate are contained, whatever the heap. */
  lemma {:induction false} AllocationsContained(form: Form, capacity: u64, h: Heap, items: seq<Item>)
    requires OnlyAllocates(items)
    ensures Contained(form, capacity, h, items)
    decreases items
  {
    if items != [] {
      if items[0].Scope? {
        AllocationsContained(form, capacity, h, items[0].body);
        AllocationsStay(form, capacity, h, h.cur, |h.live|, items[0].body);
        var r := RunHeap(form, capacity, h, items[0].body);
        if r.Ended? {
          AllocationsContained(form, capacity, MoveTo(r.heap, h.cur), items[1..]);
        }
      } else {
        var e := Next(form, capacity, h, items[0]);
        if e.Then? {
          AllocationsContained(form, capacity, e.heap, items[1..]);
        }
      }
    }
  }

  // ---------------------------------------------------------------------------------------------
  // Positions and results: no condition on the scopes at all

  /** What a call returns and where it leaves the position depends on the position alone. */
  lemma {:induction false} NextByPosition(form: Form, capacity: u64, h: Heap, h': Heap, item: Item)
    requires h.cur == h'.cur && !item.Scope?
    ensures var e, e' := Next(form, capacity, h, item), Next(form, capacity, h', item);
      && (e.Crash? <==> e'.Crash?)
      && (e.Then? ==> e.pointer == e'.pointer && e.heap.cur == e'.heap.cur)
  {
  }

  /** Deleting any scopes, contained or not, changes no result and no position outside them. */
  lemma {:induction false} ErasurePositions(form: Form, capacity: u64, h: Heap, h': Heap, p: seq<Item>, q: seq<Item>)
    requires Erases(p, q) && h.cur == h'.cur
    requires RunHeap(form, capacity, h, p).Ended?
    ensures var r, r' := RunHeap(form, capacity, h, p), RunHeap(form, capacity, h', q);
      r'.Ended? && r'.outer == r.outer && r'.heap.cur == r.heap.cur
    decreases p, q
  {
    if p == [] {
    } else if p[0].Scope? {
      var inner := RunHeap(form, capacity, h, p[0].body).heap;
      if Erases(p[1..], q) {
        ErasurePositions(form, capacity, MoveTo(inner, h.cur), h', p[1..], q);
      } else {
        ErasurePositions(form, capacity, h, h', p[0].body, q[0].body);
        var inner' := RunHeap(form, capacity, h', q[0].body).heap;
        ErasurePositions(form, capacity, MoveTo(inner, h.cur), MoveTo(inner', h'.cur), p[1..], q[1..]);
      }
    } else {
      NextByPosition(form, capacity, h, h', p[0]);
      ErasurePositions(form, capacity, Next(form, capacity, h, p[0]).heap, Next(form, capacity, h', p[0]).heap,
                       p[1..], q[1..]);
    }
  }

  // ---------------------------------------------------------------------------------------------
  // Contents: scopes that stay above their start

  /** The blocks `below` are still there, untouched, and everything above them starts at or above
      `floor`. */
  ghost predicate Untouched(h: Heap, capacity: nat, below: seq<Block>, floor: nat) {
    && Laid(h, capacity) && h.cur >= floor
    && |below| <= |h.live| && h.live[..|below|] == below
    && forall k :: |below| <= k < |h.live| ==> h.live[k].at >= floor
  }

  lemma {:induction false} MoveUntouched(h: Heap, capacity: nat, below: seq<Block>, floor: nat, pos: nat)
    requires Untouched(h, capacity, below, floor) && Ordered(below, floor) && floor <= pos <= capacity
    ensures Untouched(MoveTo(h, pos), capacity, below, floor)
  {
    MoveLaid(h, capacity, pos);
    KeepBelowExact(h.live, h.cur, pos);
    if |below| > 0 {
      assert h.live[|below| - 1] == below[|below| - 1];
    }
    assert KeepBelow(h.live, pos)[..|below|] == h.live[..|below|];
  }

  lemma {:induction false} AllocUntouched(form: Form, capacity: u64, h: Heap, below: seq<Block>, floor: nat, size: u64)
    requires Untouched(h, capacity, below, floor)
    ensures var e := Allocated(form, capacity, h, size); e.Then? ==> Untouched(e.heap, capacity, below, floor)
  {
    AllocLaid(form, capacity, h, size);
    var e := Allocated(form, capacity, h, size);
    if e.Then? {
      assert e.heap.live[..|below|] == h.live[..|below|];
    }
  }

  lemma {:induction false} NextUntouched(form: Form, capacity: u64, h: Heap, below: seq<Block>, floor: nat, item: Item)
    requires Untouched(h, capacity, below, floor) && Ordered(below, floor) && !item.Scope?
    requires item.Write? ==> item.k >= |below|
    requires var e := Next(form, capacity, h, item); e.Then? && e.heap.cur >= floor
    ensures Untouched(Next(form, capacity, h, item).heap, capacity, below, floor)
  {
    match item
    case Alloc(size) => AllocUntouched(form, capacity, h, below, floor, size);
    case Pop(size) => MoveUntouched(h, capacity, below, floor, h.cur - Min(size, h.cur));
    case PopTo(pos) => MoveUntouched(h, capacity, below, floor, Min(pos, h.cur));
    case Clear => MoveUntouched(h, capacity, below, floor, 0);
    case TempEnd(start) => if start <= capacity { MoveUntouched(h, capacity, below, floor, start); }
    case Write(k, at, value) =>
      if k < |h.live| && at < |h.live[k].data| {
        WriteLaid(h, capacity, k, h.live[k].data[at := value]);
        assert Next(form, capacity, h, item).heap.live[..|below|] == h.live[..|below|];
      }
  }

  lemma {:induction false} RunUntouched(form: Form, capacity: u64, h: Heap, below: seq<Block>, floor: nat,
        items: seq<Item>)
    requires Untouched(h, capacity, below, floor) && Ordered(below, floor)
    requires Stays(form, capacity, h, floor, |below|, items)
    ensures var r := RunHeap(form, capacity, h, items); r.Ended? ==> Untouched(r.heap, capacity, below, floor)
    decreases items
  {
    if items == [] {
    } else if items[0].Scope? {
      RunUntouched(form, capacity, h, below, floor, items[0].body);
      var r := RunHeap(form, capacity, h, items[0].body);
      if r.Ended? {
        MoveUntouched(r.heap, capacity, below, floor, h.cur);
        RunUntouched(form, capacity, MoveTo(r.heap, h.cur), below, floor, items[1..]);
      }
    } else {
      var e := Next(form, capacity, h, items[0]);
      if e.Then? {
        NextUntouched(form, capacity, h, below, floor, items[0]);
        RunUntouched(form, capacity, e.heap, below, floor, items[1..]);
      }
    }
  }

  /** Ending a scope that stayed above its start gives back exactly the blocks and the position from
      before it, with their contents. */
  lemma {:induction false} ScopeRestores(form: Form, capacity: u64, h: Heap, body: seq<Item>)
    requires Laid(h, capacity) && Stays(form, capacity, h, h.cur, |h.live|, body)
    ensures var r := RunHeap(form, capacity, h, body);
      r.Ended? ==> MoveTo(r.heap, h.cur) == h.(prev := r.heap.prev)
  {
    assert h.live[..|h.live|] == h.live;
    RunUntouched(form, capacity, h, h.live, h.cur, body);
    var r := RunHeap(form, capacity, h, body);
    if r.Ended? {
      KeepBelowExact(r.heap.live, r.heap.cur, h.cur);
      if |h.live| > 0 {
        assert r.heap.live[|h.live| - 1] == h.live[|h.live| - 1];
      }
      if |h.live| < |r.heap.live| {
        assert r.heap.live[|h.live|].End() > h.cur;
      }
      assert |KeepBelow(r.heap.live, h.cur)| == |h.live|;
    }
  }

  /** Same position and same blocks with the same contents; the previous positions may differ. */
  predicate SameView(h: Heap, h': Heap) {
    h.cur == h'.cur && h.live == h'.live
  }

  lemma {:induction false} NextSameView(form: Form, capacity: u64, h: Heap, h': Heap, item: Item)
    requires SameView(h, h') && !item.Scope?
    ensures var e, e' := Next(form, capacity, h, item), Next(form, capacity, h', item);
      && (e.Crash? <==> e'.Crash?)
      && (e.Then? ==> e.pointer == e'.pointer && SameView(e.heap, e'.heap))
  {
  }

  /** Scope erasure: deleting any contained scopes from a run changes no result outside them, and
      leaves the same blocks with the same contents. */
  lemma {:induction false} Erasure(form: Form, capacity: u64, h: Heap, h': Heap, p: seq<Item>, q: seq<Item>)
    requires Erases(p, q) && SameView(h, h') && Laid(h, capacity)
    requires Contained(form, capacity, h, p)
    requires RunHeap(form, capacity, h, p).Ended?
    ensures var r, r' := RunHeap(form, capacity, h, p), RunHeap(form, capacity, h', q);
      r'.Ended? && r'.outer == r.outer && SameView(r.heap, r'.heap)
    decreases p, q
  {
    if p == [] {
    } else if p[0].Scope? {
      var inner := RunHeap(form, capacity, h, p[0].body).heap;
      RunLaid(form, capacity, h, p[0].body);
      MoveLaid(inner, capacity, h.cur);
      if Erases(p[1..], q) {
        ScopeRestores(form, capacity, h, p[0].body);
        Erasure(form, capacity, MoveTo(inner, h.cur), h', p[1..], q);
      } else {
        Erasure(form, capacity, h, h', p[0].body, q[0].body);
        var inner' := RunHeap(form, capacity, h', q[0].body).heap;
        Erasure(form, capacity, MoveTo(inner, h.cur), MoveTo(inner', h'.cur), p[1..], q[1..]);
      }
    } else {
      NextSameView(form, capacity, h, h', p[0]);
      NextLaid(form, capacity, h, p[0]);
      Erasure(form, capacity, Next(form, capacity, h, p[0]).heap, Next(form, capacity, h', p[0]).heap,
              p[1..], q[1..]);
    }
  }

  /** Erasure on the buffers themselves: after both runs every live block holds the same bytes at the
      same place. */
  lemma {:induction false} BufferErasure(a: BA.Arena, h: Heap, p: seq<Item>, q: seq<Item>, k: nat)
    requires Represents(a, h) && Erases(p, q) && Contained(a.form, a.capacity, h, p)
    requires RunHeap(a.form, a.capacity, h, p).Ended?
    requires k < |RunHeap(a.form, a.capacity, h, p).heap.live|
    ensures var r, r' := RunArena(a, h, p), RunArena(a, h, q);
      var b := RunHeap(a.form, a.capacity, h, p).heap.live[k];
      && r.BufferEnd? && r'.BufferEnd? && r.arena.cur == r'.arena.cur
      && b.End() <= |r.arena.mem| && b.End() <= |r'.arena.mem|
      && r.arena.mem[b.at..b.End()] == r'.arena.mem[b.at..b.End()] == b.data
  {
    Erasure(a.form, a.capacity, h, h, p, q);
    RunRefines(a, h, p);
    RunRefines(a, h, q);
    var live := RunHeap(a.form, a.capacity, h, p).heap.live;
    assert HoldsAt(RunArena(a, h, p).arena.mem, live[k]);
    assert HoldsAt(RunArena(a, h, q).arena.mem, live[k]);
  }

  /** Why containment matters: a scope that clears the arena and allocates gives the bytes of an outer
      block to someone else, and its end does not bring them back. */
  lemma {:induction false} EscapingScope(capacity: u64, value: byte)
    requires 1 <= capacity && value != 0
    ensures var h := Heap(1, 0, [Block(0, [value])]);
      var r := RunHeap(AsWritten, capacity, h, [Scope([Clear, Alloc(1)])]);
      r.Ended? && r.heap.cur == h.cur && r.heap.live == [Block(0, [0])] != h.live
  {
    var h := Heap(1, 0, [Block(0, [value])]);
    var body := [Clear, Alloc(1)];
    assert body[1..] == [Alloc(1)] && body[1..][1..] == [];
    var h1 := Heap(0, 0, []);
    assert h.live[..0] == [];
    assert KeepBelow(h.live, 0) == [];
    assert Next(AsWritten, capacity, h, Clear) == Then(h1, None);
    var h2 := Heap(1, 0, [Block(0, [0])]);
    assert Zeros(1) == [0];
    assert Next(AsWritten, capacity, h1, Alloc(1)) == Then(h2, Some(0));
    assert RunHeap(AsWritten, capacity, h2, []) == Ended(h2, [], []);
    assert RunHeap(AsWritten, capacity, h1, [Alloc(1)]).heap == h2;
    assert RunHeap(AsWritten, capacity, h, body).heap == h2;
    assert MoveTo(h2, 1) == h2;
    assert [Scope(body)][1..] == [];
  }
}
