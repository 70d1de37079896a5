/** The arena as its clients see it: positions and a list of independent live blocks, no bytes in
    between.  Items of a run may be nested in temporary scopes. */
module ArenaHeap {
  import opened Bytes
  import opened BaseMem

  /** A live block with at least one byte; its owner sees `data`. */
  datatype Block = Block(at: nat, data: seq<byte>) {
    function End(): nat {
      at + |data|
    }
  }

  datatype Heap = Heap(cur: nat, prev: nat, live: seq<Block>)

  datatype Item =
    | Alloc(size: u64)
    | Pop(size: u64)
    | PopTo(pos: u64)
    | Clear
    | TempEnd(start: u64)
    | Write(k: nat, at: nat, value: byte)
    | Scope(body: seq<Item>)

  datatype Effect = Crash | Then(heap: Heap, pointer: Option<nat>)

  /** Where the next block would start. */
  function NextStart(form: Form, cur: nat): nat {
    if form == AsWritten then cur else RoundUp(cur, ARENA_ALIGN)
  }

  /** The blocks that end at or below a position: blocks are given up from the top. */
  function KeepBelow(live: seq<Block>, pos: nat): seq<Block> {
    if live == [] || live[|live| - 1].End() <= pos then live
    else KeepBelow(live[..|live| - 1], pos)
  }

  /** Moving the position gives up the blocks above it. */
  function MoveTo(h: Heap, pos: nat): Heap {
    h.(cur := pos, live := KeepBelow(h.live, pos))
  }

  function Allocated(form: Form, capacity: u64, h: Heap, size: u64): Effect {
    var at := NextStart(form, h.cur);
    if at + size <= capacity then
      Then(Heap(at + size, h.cur, if size == 0 then h.live else h.live + [Block(at, Zeros(size))]), Some(at))
    else if TWO_64 <= at + size <= TWO_64 + capacity then
      Crash
    else
      Then(h, None)
  }

  /** A write through a pointer that no live block backs, or a scope mark beyond the buffer, is not a
      client's doing and is skipped. */
  function Next(form: Form, capacity: u64, h: Heap, item: Item): Effect
    requires !item.Scope?
  {
    match item
    case Alloc(size) => Allocated(form, capacity, h, size)
    case Pop(size) => Then(MoveTo(h, h.cur - Min(size, h.cur)), None)
    case PopTo(pos) => Then(MoveTo(h, Min(pos, h.cur)), None)
    case Clear => Then(MoveTo(h, 0), None)
    case TempEnd(start) => Then(if start <= capacity then MoveTo(h, start) else h, None)
    case Write(k, at, value) =>
      if k < |h.live| && at < |h.live[k].data| then
        Then(h.(live := h.live[k := h.live[k].(data := h.live[k].data[at := value])]), None)
      else
        Then(h, None)
  }

  /** The end of a run: `results` lists what every call returned, `outer` only the calls outside
      scopes. */
  datatype Run = Crashed | Ended(heap: Heap, results: seq<Option<nat>>, outer: seq<Option<nat>>)

  function RunHeap(form: Form, capacity: u64, h: Heap, items: seq<Item>): Run
    decreases items
  {
    if items == [] then
      Ended(h, [], [])
    else if items[0].Scope? then
      match RunHeap(form, capacity, h, items[0].body)
      case Crashed => Crashed
      case Ended(inner, results, _) =>
        match RunHeap(form, capacity, MoveTo(inner, h.cur), items[1..])
        case Crashed => Crashed
        case Ended(final, results', outer) => Ended(final, results + results', outer)
    else
      match Next(form, capacity, h, items[0])
      case Crash => Crashed
      case Then(h', pointer) =>
        match RunHeap(form, capacity, h', items[1..])
        case Crashed => Crashed
        case Ended(final, results, outer) => Ended(final, [pointer] + results, [pointer] + outer)
  }

  // ---------------------------------------------------------------------------------------------
  // Invariant of the list of blocks

  /** Blocks are nonempty, lie one after the other, and end at or below `top`. */
  ghost predicate Ordered(live: seq<Block>, top: nat) {
    && (forall k :: 0 <= k < |live| ==> live[k].data != [] && live[k].End() <= top)
    && (forall j, k :: 0 <= j < k < |live| ==> live[j].End() <= live[k].at)
  }

  /** In addition, all blocks but the last end at or below the previous position. */
  ghost predicate Laid(h: Heap, capacity: nat) {
    && h.cur <= capacity
    && Ordered(h.live, h.cur)
    && forall k :: 0 <= k < |h.live| - 1 ==> h.live[k].End() <= h.prev
  }

  /** `KeepBelow` keeps exactly the blocks that end at or below the position. */
  lemma {:induction false} KeepBelowExact(live: seq<Block>, top: nat, pos: nat)
    requires Ordered(live, top)
    ensures var n := |KeepBelow(live, pos)|;
      && n <= |live| && KeepBelow(live, pos) == live[..n]
      && (forall k :: 0 <= k < |live| ==> (k < n <==> live[k].End() <= pos))
      && Ordered(KeepBelow(live, pos), pos)
  {
    if live == [] || live[|live| - 1].End() <= pos {
      assert live[..|live|] == live;
      AllBelow(live, top, pos);
    } else {
      var front := live[..|live| - 1];
      FrontOrdered(live, top);
      KeepBelowExact(front, top, pos);
      var n := |KeepBelow(front, pos)|;
      assert front[..n] == live[..n];
      forall k | 0 <= k < |live| ensures k < n <==> live[k].End() <= pos {
        if k < |front| {
          assert front[k] == live[k];
        }
      }
    }
  }

  lemma {:induction false} AllBelow(live: seq<Block>, top: nat, pos: nat)
    requires Ordered(live, top) && (live != [] ==> live[|live| - 1].End() <= pos)
    ensures Ordered(live, pos)
  {
    forall k | 0 <= k < |live| ensures live[k].End() <= pos {
      if k < |live| - 1 {
        assert live[k].End() <= live[|live| - 1].at;
      }
    }
  }

  lemma {:induction false} FrontOrdered(live: seq<Block>, top: nat)
    requires Ordered(live, top) && live != []
    ensures Ordered(live[..|live| - 1], top)
  {
  }

  lemma {:induction false} MoveLaid(h: Heap, capacity: nat, pos: nat)
    requires Laid(h, capacity) && pos <= capacity
    ensures Laid(MoveTo(h, pos), capacity)
  {
    KeepBelowExact(h.live, h.cur, pos);
  }

  lemma {:induction false} AllocLaid(form: Form, capacity: u64, h: Heap, size: u64)
    requires Laid(h, capacity)
    ensures var e := Allocated(form, capacity, h, size); e.Then? ==> Laid(e.heap, capacity)
  {
  }

  lemma {:induction false} WriteLaid(h: Heap, capacity: nat, k: nat, data: seq<byte>)
    requires Laid(h, capacity) && k < |h.live| && |data| == |h.live[k].data|
    ensures Laid(h.(live := h.live[k := h.live[k].(data := data)]), capacity)
  {
  }

  lemma {:induction false} NextLaid(form: Form, capacity: u64, h: Heap, item: Item)
    requires Laid(h, capacity) && !item.Scope?
    ensures var e := Next(form, capacity, h, item); e.Then? ==> Laid(e.heap, capacity)
  {
    match item
    case Alloc(size) => AllocLaid(form, capacity, h, size);
    case Pop(size) => MoveLaid(h, capacity, h.cur - Min(size, h.cur));
    case PopTo(pos) => MoveLaid(h, capacity, Min(pos, h.cur));
    case Clear => MoveLaid(h, capacity, 0);
    case TempEnd(start) => if start <= capacity { MoveLaid(h, capacity, start); }
    case Write(k, at, value) =>
      if k < |h.live| && at < |h.live[k].data| {
        WriteLaid(h, capacity, k, h.live[k].data[at := value]);
      }
  }

  /** Safety over every run: the position stays inside the buffer, and live blocks are disjoint, in
      order and below the position. */
  lemma {:induction false} RunLaid(form: Form, capacity: u64, h: Heap, items: seq<Item>)
    requires Laid(h, capacity)
    ensures var r := RunHeap(form, capacity, h, items); r.Ended? ==> Laid(r.heap, capacity)
    decreases items
  {
    if items == [] {
    } else if items[0].Scope? {
      RunLaid(form, capacity, h, items[0].body);
      var r := RunHeap(form, capacity, h, items[0].body);
      if r.Ended? {
        MoveLaid(r.heap, capacity, h.cur);
        RunLaid(form, capacity, MoveTo(r.heap, h.cur), items[1..]);
      }
    } else {
      NextLaid(form, capacity, h, items[0]);
      var e := Next(form, capacity, h, items[0]);
      if e.Then? {
        RunLaid(form, capacity, e.heap, items[1..]);
      }
    }
  }
}
