/** The doubling lists of libres/resources.cc: `disk_push_partition` and the loop body of
    `process_list_collect`, as transitions on the arena and the list's three fields.

    Both lists grow in the same way; they differ in what they store in the new slot. */
module RecordList {
  import opened Bytes
  import opened BaseMem
  import BA = BaseArena
  import AH = ArenaHeap
  import AR = ArenaRuns
  import opened Records
  import opened Decimal

  datatype List = List(items: Option<nat>, count: u64, capacity: u64)

  /** What goes into a slot: a whole partition, or the fields of a new process. */
  datatype Entry = Whole(record: seq<byte>) | NewProc(pid: i32)

  ghost predicate ValidEntry(e: Entry) {
    e.Whole? ==> |e.record| == RECORD_SIZE
  }

  function Filled(slot: seq<byte>, e: Entry): (r: seq<byte>)
    requires |slot| == RECORD_SIZE && (e.Whole? ==> |e.record| == RECORD_SIZE)
    ensures |r| == RECORD_SIZE
  {
    match e
    case Whole(record) => record
    case NewProc(pid) => FillSlot(slot, pid)
  }

  /** The stored record is what the entry asks for. */
  ghost predicate Matches(record: seq<byte>, e: Entry) {
    && |record| == RECORD_SIZE
    && match e
       case Whole(r) => record == r
       case NewProc(pid) => DecodeProc(record) == Proc([], 0, 0, 0, pid, 0)
  }

  function Slot(mem: seq<byte>, at: nat, i: nat): (r: seq<byte>)
    requires at + RECORD_SIZE * (i + 1) <= |mem|
    ensures |r| == RECORD_SIZE
  {
    mem[at + RECORD_SIZE * i..at + RECORD_SIZE * i + RECORD_SIZE]
  }

  function RecordsAt(mem: seq<byte>, at: nat, n: nat): (r: seq<seq<byte>>)
    requires at + RECORD_SIZE * n <= |mem|
    ensures |r| == n
    ensures forall i :: 0 <= i < n ==> r[i] == Slot(mem, at, i)
  {
    seq(n, i requires 0 <= i < n => Slot(mem, at, i))
  }

  /** The list's array lies in the used part of the arena. */
  ghost predicate Fits(a: BA.Arena, l: List) {
    && a.Mapped() && a.cur <= a.capacity && l.count <= l.capacity
    && match l.items
       case None => l.capacity == 0
       case Some(at) => l.capacity > 0 && at + RECORD_SIZE * l.capacity <= a.cur
  }

  /** The list as its readers see it. */
  ghost function Contents(a: BA.Arena, l: List): (r: seq<seq<byte>>)
    requires Fits(a, l)
    ensures |r| == l.count && forall i :: 0 <= i < |r| ==> |r[i]| == RECORD_SIZE
  {
    match l.items
    case None => []
    case Some(at) => RecordsAt(a.mem, at, l.count)
  }

  function NewCapacity(capacity: u64): u64 {
    if capacity != 0 then Wrap(capacity * 2) else 8
  }

  /** `Full` is the silent failure of line 35 and the `break` of line 604; `copied` counts the records
      moved by growth. */
  datatype Outcome = Broken | Full | Stored(arena: BA.Arena, list: List, copied: nat)

  /** Grow if there is no free slot. */
  function Reserve(a: BA.Arena, l: List): (o: Outcome)
    requires a.Mapped()
    ensures o.Stored? ==> o.arena.Mapped()
  {
    if l.count == l.capacity then
      var newCapacity := NewCapacity(l.capacity);
      match BA.Alloc(a, Wrap(RECORD_SIZE * newCapacity))
      case Fault => Broken
      case Done(a', None) => Full
      case Done(a', Some(np)) =>
        if l.items.Some? && l.count > 0 then
          if l.items.value + RECORD_SIZE * l.count <= |a'.mem| && np + RECORD_SIZE * l.count <= |a'.mem| then
            var moved := a'.mem[l.items.value..l.items.value + RECORD_SIZE * l.count];
            Stored(a'.(mem := Store(a'.mem, np, moved)), List(Some(np), l.count, newCapacity), l.count)
          else Broken
        else
          Stored(a', List(Some(np), l.count, newCapacity), 0)
    else
      Stored(a, l, 0)
  }

  /** Fill the next slot. */
  function Put(a: BA.Arena, l: List, e: Entry): Outcome
    requires e.Whole? ==> |e.record| == RECORD_SIZE
  {
    if l.items.None? || l.items.value + RECORD_SIZE * (l.count + 1) > |a.mem| then Broken
    else
      var at := l.items.value;
      var bytes := Filled(Slot(a.mem, at, l.count), e);
      Stored(a.(mem := Store(a.mem, at + RECORD_SIZE * l.count, bytes)), l.(count := Wrap(l.count + 1)), 0)
  }

  function Push(a: BA.Arena, l: List, e: Entry): (o: Outcome)
    requires a.Mapped() && (e.Whole? ==> |e.record| == RECORD_SIZE)
    ensures o.Stored? ==> o.arena.Mapped()
  {
    match Reserve(a, l)
    case Broken => Broken
    case Full => Full
    case Stored(a', l', copied) =>
      match Put(a', l', e)
      case Broken => Broken
      case Full => Full
      case Stored(a'', l'', _) => Stored(a'', l'', copied)
  }

  // ---------------------------------------------------------------------------------------------
  // One push

  /** Bytes of the arena that are in use and not part of the list stay as they are. */
  ghost predicate KeepsOthers(a: BA.Arena, l: List, a': BA.Arena) {
    && a'.form == a.form && a'.capacity == a.capacity && a.cur <= a'.cur && |a'.mem| == |a.mem|
    && forall i :: 0 <= i < a.cur <= |a.mem| && !Owns(l, i) ==> a'.mem[i] == a.mem[i]
  }

  predicate Owns(l: List, i: int) {
    l.items.Some? && l.items.value <= i < l.items.value + RECORD_SIZE * l.capacity
  }

  /** In single bytes: what is in use and not in the 48 * capacity bytes of the array. */
  lemma {:induction false} OthersKept(a: BA.Arena, l: List, a': BA.Arena, i: nat)
    requires KeepsOthers(a, l, a') && i < a.cur <= |a.mem|
    requires l.items.None? || i < l.items.value || i >= l.items.value + 48 * l.capacity
    ensures a'.mem[i] == a.mem[i]
  {
  }

  /** There is no room for the next doubling. */
  predicate NoRoom(a: BA.Arena, l: List) {
    && l.count == l.capacity
    && AH.NextStart(a.form, a.cur) + RECORD_SIZE * (if l.capacity != 0 then l.capacity * 2 else 8) > a.capacity
  }

  /** Record `i` of a list is the 48 bytes from 48 * i on. */
  lemma {:induction false} ContentsBytes(a: BA.Arena, l: List, i: nat, lo: nat, hi: nat)
    requires Fits(a, l) && i < l.count && l.items.Some? && lo == l.items.value + 48 * i && hi == lo + 48
    ensures hi <= |a.mem| && Contents(a, l)[i] == a.mem[lo..hi]
  {
  }

  /** The sizes never wrap: the array already fits in the arena. */
  lemma {:induction false} SizesDoNotWrap(a: BA.Arena, l: List)
    requires Fits(a, l)
    ensures NewCapacity(l.capacity) == if l.capacity != 0 then l.capacity * 2 else 8
    ensures Wrap(RECORD_SIZE * NewCapacity(l.capacity)) == RECORD_SIZE * NewCapacity(l.capacity)
    ensures RECORD_SIZE * NewCapacity(l.capacity) < TWO_64 / 2 + RECORD_SIZE * 8
  {
  }

  /** Same bytes, same records. */
  lemma {:induction false} SameRecords(mem: seq<byte>, at: nat, mem': seq<byte>, at': nat, n: nat)
    requires at + RECORD_SIZE * n <= |mem| && at' + RECORD_SIZE * n <= |mem'|
    requires mem[at..at + RECORD_SIZE * n] == mem'[at'..at' + RECORD_SIZE * n]
    ensures RecordsAt(mem, at, n) == RecordsAt(mem', at', n)
  {
    forall i | 0 <= i < n ensures Slot(mem, at, i) == Slot(mem', at', i) {
      SlotOfSlice(mem, at, RECORD_SIZE * n, i);
      SlotOfSlice(mem', at', RECORD_SIZE * n, i);
    }
  }

  lemma {:induction false} SlotOfSlice(mem: seq<byte>, at: nat, size: nat, i: nat)
    requires at + size <= |mem| && RECORD_SIZE * (i + 1) <= size
    ensures Slot(mem, at, i) == mem[at..at + size][RECORD_SIZE * i..RECORD_SIZE * i + RECORD_SIZE]
  {
    SliceOfSlice(mem, at, size, RECORD_SIZE * i, RECORD_SIZE * i + RECORD_SIZE);
  }

  /** The effect of a successful growth. */
  ghost predicate Grown(a: BA.Arena, l: List, o: Outcome)
    requires Fits(a, l)
  {
    && o.Stored? && Fits(o.arena, o.list)
    && o.list.count == l.count && o.list.count < o.list.capacity
    && Contents(o.arena, o.list) == Contents(a, l)
    && KeepsOthers(a, l, o.arena)
  }

  /** The memory after the records were moved to `at`. */
  function MovedMemory(mem: seq<byte>, l: List, at: nat): (r: seq<byte>)
    requires at + RECORD_SIZE * l.count <= |mem|
    requires l.items.Some? ==> l.items.value + RECORD_SIZE * l.count <= |mem|
    ensures |r| == |mem|
  {
    if l.items.Some? && l.count > 0 then
      Store(mem, at, mem[l.items.value..l.items.value + RECORD_SIZE * l.count])
    else mem
  }

  /** The memory after growth to `size` fresh bytes at `at`. */
  function GrownMemory(mem: seq<byte>, l: List, at: nat, size: nat): (r: seq<byte>)
    requires at + size <= |mem| && RECORD_SIZE * l.count <= size
    requires l.items.Some? ==> l.items.value + RECORD_SIZE * l.count <= |mem|
    ensures |r| == |mem|
  {
    MovedMemory(Store(mem, at, Zeros(size)), l, at)
  }

  lemma {:induction false} ReserveValue(a: BA.Arena, l: List, at: nat, size: nat)
    requires Fits(a, l) && l.count == l.capacity
    requires at == AH.NextStart(a.form, a.cur) && size == RECORD_SIZE * NewCapacity(l.capacity)
    requires at + size <= a.capacity
    ensures RECORD_SIZE * l.count <= size
    ensures Reserve(a, l) == Stored(BA.Arena(a.form, a.capacity, at + size, a.cur, GrownMemory(a.mem, l, at, size)),
                                    List(Some(at), l.count, NewCapacity(l.capacity)), l.count)
  {
    SizesDoNotWrap(a, l);
    AlignInRange(a.form, a.cur);
    AR.AllocValue(a, size, at);
  }

  lemma {:induction false} GrownMemoryKeeps(mem: seq<byte>, l: List, at: nat, size: nat)
    requires at + size <= |mem| && RECORD_SIZE * l.count <= size
    requires l.items.Some? ==> l.items.value + RECORD_SIZE * l.count <= at
    ensures forall i :: 0 <= i < at ==> GrownMemory(mem, l, at, size)[i] == mem[i]
    ensures l.items.Some? ==>
      RecordsAt(GrownMemory(mem, l, at, size), at, l.count) == RecordsAt(mem, l.items.value, l.count)
  {
    var mem1 := Store(mem, at, Zeros(size));
    if l.items.Some? {
      var from, n := l.items.value, RECORD_SIZE * l.count;
      StoreElsewhere(mem, at, Zeros(size), from, from + n);
      if l.count > 0 {
        SameRecords(mem, from, Store(mem1, at, mem1[from..from + n]), at, l.count);
      }
    }
  }

  /** Growth copies the records and touches nothing else in use. */
  lemma {:induction false} ReserveGrows(a: BA.Arena, l: List, at: nat, size: nat)
    requires Fits(a, l) && l.count == l.capacity
    requires at == AH.NextStart(a.form, a.cur) && size == RECORD_SIZE * NewCapacity(l.capacity)
    requires at + size <= a.capacity
    ensures Grown(a, l, Reserve(a, l))
  {
    SizesDoNotWrap(a, l);
    AlignInRange(a.form, a.cur);
    ReserveValue(a, l, at, size);
    GrownMemoryKeeps(a.mem, l, at, size);
  }

  lemma {:induction false} ReserveFull(a: BA.Arena, l: List)
    requires Fits(a, l)
    ensures Reserve(a, l).Full? <==> NoRoom(a, l)
    ensures !Reserve(a, l).Broken?
  {
    SizesDoNotWrap(a, l);
    AlignInRange(a.form, a.cur);
    var at := AH.NextStart(a.form, a.cur);
    if l.count == l.capacity {
      AR.AllocValue(a, RECORD_SIZE * NewCapacity(l.capacity), at);
      if at + RECORD_SIZE * NewCapacity(l.capacity) <= a.capacity {
        ReserveGrows(a, l, at, RECORD_SIZE * NewCapacity(l.capacity));
      }
    }
  }

  /** A full list grows exactly when an allocation of twice its records, or of eight, finds room. */
  lemma {:induction false} GrowthByAlloc(a: BA.Arena, l: List, size: u64)
    requires Fits(a, l) && l.count == l.capacity && size == 48 * (if l.capacity != 0 then l.capacity * 2 else 8)
    ensures NoRoom(a, l) <==> BA.Alloc(a, size) == BA.Done(a, None)
    ensures Reserve(a, l).Full? <==> BA.Alloc(a, size) == BA.Done(a, None)
    ensures var o := Reserve(a, l); o.Stored? ==>
      BA.Alloc(a, size).Done? && o.list == List(BA.Alloc(a, size).pointer, l.count, size / 48)
  {
    SizesDoNotWrap(a, l);
    AlignInRange(a.form, a.cur);
    ReserveFull(a, l);
    var at := AH.NextStart(a.form, a.cur);
    AR.AllocValue(a, size, at);
    if at + size <= a.capacity {
      ReserveValue(a, l, at, size);
    }
  }

  lemma {:induction false} PutBytes(mem: seq<byte>, at: nat, n: nat, bytes: seq<byte>)
    requires at + RECORD_SIZE * (n + 1) <= |mem| && |bytes| == RECORD_SIZE
    ensures var mem' := Store(mem, at + RECORD_SIZE * n, bytes);
      RecordsAt(mem', at, n + 1) == RecordsAt(mem, at, n) + [bytes]
  {
    var lo := at + RECORD_SIZE * n;
    var mem' := Store(mem, lo, bytes);
    StoreElsewhere(mem, lo, bytes, at, lo);
    SameRecords(mem, at, mem', at, n);
    assert Slot(mem', at, n) == bytes;
    assert RecordsAt(mem', at, n + 1) == RecordsAt(mem', at, n) + [bytes];
  }

  lemma {:induction false} FilledMatches(slot: seq<byte>, e: Entry)
    requires |slot| == RECORD_SIZE && ValidEntry(e)
    ensures Matches(Filled(slot, e), e)
  {
    if e.NewProc? {
      FilledSlot(slot, e.pid);
    }
  }

  lemma {:induction false} PutAppends(a: BA.Arena, l: List, e: Entry)
    requires Fits(a, l) && l.count < l.capacity && ValidEntry(e)
    ensures var o := Put(a, l, e);
      && o.Stored? && Fits(o.arena, o.list) && o.list == l.(count := l.count + 1)
      && o.arena.cur == a.cur && KeepsOthers(a, l, o.arena)
      && Contents(o.arena, o.list) == Contents(a, l) + [Contents(o.arena, o.list)[l.count]]
      && Matches(Contents(o.arena, o.list)[l.count], e)
  {
    var at := l.items.value;
    var bytes := Filled(Slot(a.mem, at, l.count), e);
    PutValue(a, l, e, at, bytes);
    PutBytes(a.mem, at, l.count, bytes);
    FilledMatches(Slot(a.mem, at, l.count), e);
    StoredAppends(a, l, at, bytes);
  }

  lemma {:induction false} PutValue(a: BA.Arena, l: List, e: Entry, at: nat, bytes: seq<byte>)
    requires Fits(a, l) && l.count < l.capacity && ValidEntry(e)
    requires l.items == Some(at) && bytes == Filled(Slot(a.mem, at, l.count), e)
    ensures Wrap(l.count + 1) == l.count + 1
    ensures Put(a, l, e)
         == Stored(a.(mem := Store(a.mem, at + RECORD_SIZE * l.count, bytes)), l.(count := l.count + 1), 0)
  {
  }

  /** The list after a record was stored in its next slot. */
  lemma {:induction false} StoredAppends(a: BA.Arena, l: List, at: nat, bytes: seq<byte>)
    requires Fits(a, l) && l.count < l.capacity && l.items == Some(at) && |bytes| == RECORD_SIZE
    ensures var a', l' := a.(mem := Store(a.mem, at + RECORD_SIZE * l.count, bytes)), l.(count := l.count + 1);
      Fits(a', l') && KeepsOthers(a, l, a') && Contents(a', l') == Contents(a, l) + [bytes]
  {
    PutBytes(a.mem, at, l.count, bytes);
  }
}
