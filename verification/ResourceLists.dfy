/** `sys_disk` and `sys_proc_list` as objects that grow in an arena.  Both are an array pointer, a count
    and a capacity, so one class holds them. */
module ResourceLists {
  import opened Bytes
  import opened Ranks
  import opened BaseMem
  import BA = BaseArena
  import AH = ArenaHeap
  import AR = ArenaRuns
  import opened MemArena
  import opened Decimal
  import opened Records
  import opened RecordList
  import opened ListRuns

  const ERR_OK := 0
  const ERR_IO := 1

  /** Both loops end in the same arena and list. */
  predicate SameEnd(r: All, s: All) {
    match r
    case AllBroken => s.AllBroken?
    case AllDone(a, l, _) => s.AllDone? && s.arena == a && s.list == l
  }

  /** The lines from `i` on that `sscanf` understood, in order, as records. */
  function PartitionEntries(lines: seq<Option<Scanned>>, i: nat): (r: seq<Entry>)
    requires i <= |lines|
    ensures forall k :: 0 <= k < |r| ==> r[k].Whole? && |r[k].record| == RECORD_SIZE
    decreases |lines| - i
  {
    if i == |lines| then []
    else if lines[i].None? then PartitionEntries(lines, i + 1)
    else [Whole(EncodePartition(ToPartition(lines[i].value)))] + PartitionEntries(lines, i + 1)
  }

  /** `kept` says which lines `sscanf` understood. */
  ghost predicate Understood(lines: seq<Option<Scanned>>, kept: seq<bool>) {
    |kept| == |lines| && forall i :: 0 <= i < |lines| ==> kept[i] == lines[i].Some?
  }

  function KeptLines(lines: seq<Option<Scanned>>): (kept: seq<bool>)
    ensures Understood(lines, kept)
  {
    seq(|lines|, i requires 0 <= i < |lines| => lines[i].Some?)
  }

  /** What each line contributes. */
  function PartitionOptions(lines: seq<Option<Scanned>>): (r: seq<Option<Entry>>)
    ensures |r| == |lines| && forall i :: 0 <= i < |lines| ==> r[i] == PartitionOption(lines[i])
  {
    seq(|lines|, i requires 0 <= i < |lines| => PartitionOption(lines[i]))
  }

  function PartitionOption(line: Option<Scanned>): Option<Entry> {
    if line.None? then None else Some(Whole(EncodePartition(ToPartition(line.value))))
  }

  lemma {:induction false} PartitionsAreKept(lines: seq<Option<Scanned>>, i: nat)
    requires i <= |lines|
    ensures PartitionEntries(lines, i) == KeptFrom(PartitionOptions(lines), i)
    decreases |lines| - i
  {
    if i < |lines| {
      PartitionsAreKept(lines, i + 1);
    }
  }

  /** There is a record for each line that was understood, at its place among them, and no other. */
  lemma {:induction false} PartitionsExact(lines: seq<Option<Scanned>>, kept: seq<bool>, j: nat)
    requires Understood(lines, kept)
    ensures |PartitionEntries(lines, 0)| == Rank(kept, |lines|)
    ensures j < |lines| && lines[j].Some? ==>
      && Rank(kept, j) < |PartitionEntries(lines, 0)|
      && PartitionEntries(lines, 0)[Rank(kept, j)] == Whole(EncodePartition(ToPartition(lines[j].value)))
  {
    PartitionsAreKept(lines, 0);
    KeptCount(PartitionOptions(lines), kept, 0);
    if j < |lines| && lines[j].Some? {
      KeptAt(PartitionOptions(lines), kept, 0, j, Rank(kept, j));
    }
  }

  /** A directory name as `readdir` delivers it: text, a NUL, and whatever follows. */
  ghost predicate IsName(name: seq<byte>) {
    exists i :: 0 <= i < |name| && name[i] == 0
  }

  /** The numeric names from `i` on, in order, as processes. */
  ghost function ProcEntries(names: seq<seq<byte>>, i: nat): (r: seq<Entry>)
    requires i <= |names|
    ensures forall k :: 0 <= k < |r| ==> r[k].NewProc?
    decreases |names| - i
  {
    if i == |names| then []
    else if !AllDigits(CString(names[i])) then ProcEntries(names, i + 1)
    else [NewProc(PidOf(names[i]))] + ProcEntries(names, i + 1)
  }

  /** `kept` says which names are numeric: only the bytes 48 to 57 before the NUL. */
  ghost predicate Numeric(names: seq<seq<byte>>, kept: seq<bool>) {
    && |kept| == |names|
    && forall i :: 0 <= i < |names| ==>
         kept[i] == forall k :: 0 <= k < |CString(names[i])| ==> 48 <= CString(names[i])[k] <= 57
  }

  ghost function KeptNames(names: seq<seq<byte>>): (kept: seq<bool>)
    ensures Numeric(names, kept)
  {
    seq(|names|, i requires 0 <= i < |names| => AllDigits(CString(names[i])))
  }

  /** What each name contributes. */
  ghost function ProcessOptions(names: seq<seq<byte>>): (r: seq<Option<Entry>>)
    ensures |r| == |names| && forall i :: 0 <= i < |names| ==> r[i] == ProcessOption(names[i])
  {
    seq(|names|, i requires 0 <= i < |names| => ProcessOption(names[i]))
  }

  ghost function ProcessOption(name: seq<byte>): Option<Entry> {
    if AllDigits(CString(name)) then Some(NewProc(PidOf(name))) else None
  }

  lemma {:induction false} ProcessesAreKept(names: seq<seq<byte>>, i: nat)
    requires i <= |names|
    ensures ProcEntries(names, i) == KeptFrom(ProcessOptions(names), i)
    decreases |names| - i
  {
    if i < |names| {
      ProcessesAreKept(names, i + 1);
    }
  }

  lemma {:induction false} NumericMarks(names: seq<seq<byte>>, kept: seq<bool>)
    requires Numeric(names, kept)
    ensures Marks(ProcessOptions(names), kept)
  {
  }

  /** There is a process for each numeric name, at its place among them, and no other. */
  lemma {:induction false} ProcessesExact(names: seq<seq<byte>>, kept: seq<bool>, j: nat)
    requires Marks(ProcessOptions(names), kept)
    ensures |ProcEntries(names, 0)| == Rank(kept, |names|)
    ensures j < |names| && kept[j] ==>
      Rank(kept, j) < |ProcEntries(names, 0)| && ProcEntries(names, 0)[Rank(kept, j)] == NewProc(PidOf(names[j]))
  {
    ProcessesAreKept(names, 0);
    KeptCount(ProcessOptions(names), kept, 0);
    if j < |names| && kept[j] {
      KeptAt(ProcessOptions(names), kept, 0, j, Rank(kept, j));
    }
  }

  lemma {:induction false} NumericNames(names: seq<seq<byte>>, kept: seq<bool>, j: nat)
    requires Numeric(names, kept)
    ensures |ProcEntries(names, 0)| == Rank(kept, |names|)
    ensures j < |names| && kept[j] ==>
      Rank(kept, j) < |ProcEntries(names, 0)| && ProcEntries(names, 0)[Rank(kept, j)] == NewProc(PidOf(names[j]))
  {
    NumericMarks(names, kept);
    ProcessesExact(names, kept, j);
  }

  /** What `Extends` says of one entry. */
  lemma {:induction false} ExtendsAt(a: BA.Arena, l: List, a': BA.Arena, l': List, entries: seq<Entry>, r: nat, n: nat)
    requires Fits(a, l) && Extends(a, l, a', l', entries) && n == l.count + r < l'.count
    ensures r < |entries| && Matches(Contents(a', l')[n], entries[r])
  {
    assert Matches(Contents(a', l')[l.count + r], entries[r]);
  }

  /** The list of a count of `n` has the partitions of the lines understood, as far as it goes. */
  ghost predicate ListsPartitions(records: seq<seq<byte>>, n: nat, lines: seq<Option<Scanned>>, kept: seq<bool>)
    requires Understood(lines, kept)
  {
    && n <= |records| <= n + Rank(kept, |kept|)
    && forall j :: 0 <= j < |lines| && lines[j].Some? && Place(n, kept, j) < |records| ==>
         records[Place(n, kept, j)] == EncodePartition(ToPartition(lines[j].value))
  }

  lemma {:induction false} ExtendsLists(a: BA.Arena, l: List, a': BA.Arena, l': List,
        lines: seq<Option<Scanned>>, kept: seq<bool>)
    requires Understood(lines, kept) && Fits(a, l) && Extends(a, l, a', l', PartitionEntries(lines, 0))
    ensures Fits(a', l') && ListsPartitions(Contents(a', l'), l.count, lines, kept)
    ensures l'.count < l.count + Rank(kept, |kept|) ==> NoRoom(a', l')
  {
    PartitionsExact(lines, kept, |lines|);
    forall j | 0 <= j < |lines| && lines[j].Some? && Place(l.count, kept, j) < l'.count
      ensures Contents(a', l')[Place(l.count, kept, j)] == EncodePartition(ToPartition(lines[j].value))
    {
      PartitionListed(a, l, a', l', lines, kept, j, Rank(kept, j), Place(l.count, kept, j));
    }
  }

  lemma {:induction false} PartitionListed(a: BA.Arena, l: List, a': BA.Arena, l': List,
        lines: seq<Option<Scanned>>, kept: seq<bool>, j: nat, r: nat, n: nat)
    requires Understood(lines, kept) && Fits(a, l) && Extends(a, l, a', l', PartitionEntries(lines, 0))
    requires j < |lines| && lines[j].Some? && r == Rank(kept, j) && n == l.count + r < l'.count
    ensures Contents(a', l')[n] == EncodePartition(ToPartition(lines[j].value))
  {
    PartitionsExact(lines, kept, j);
    ExtendsAt(a, l, a', l', PartitionEntries(lines, 0), r, n);
  }

  /** The same for processes: each record has the process id of its name, an empty name and zeros. */
  ghost predicate ListsProcesses(records: seq<seq<byte>>, n: nat, names: seq<seq<byte>>, kept: seq<bool>)
    requires |kept| == |names| && forall i :: 0 <= i < |records| ==> |records[i]| == RECORD_SIZE
  {
    && n <= |records| <= n + Rank(kept, |kept|)
    && forall j :: 0 <= j < |names| && kept[j] && Place(n, kept, j) < |records| ==>
         DecodeProc(records[Place(n, kept, j)]) == Proc([], 0, 0, 0, PidOf(names[j]), 0)
  }

  lemma {:induction false} ExtendsProcesses(a: BA.Arena, l: List, a': BA.Arena, l': List,
        names: seq<seq<byte>>, kept: seq<bool>)
    requires Marks(ProcessOptions(names), kept) && Fits(a, l) && Extends(a, l, a', l', ProcEntries(names, 0))
    ensures Fits(a', l') && ListsProcesses(Contents(a', l'), l.count, names, kept)
    ensures l'.count < l.count + Rank(kept, |kept|) ==> NoRoom(a', l')
  {
    ProcessesExact(names, kept, |names|);
    forall j | 0 <= j < |names| && kept[j] && Place(l.count, kept, j) < l'.count
      ensures DecodeProc(Contents(a', l')[Place(l.count, kept, j)]) == Proc([], 0, 0, 0, PidOf(names[j]), 0)
    {
      ProcessListed(a, l, a', l', names, kept, j, Rank(kept, j), Place(l.count, kept, j));
    }
  }

  lemma {:induction false} ProcessListed(a: BA.Arena, l: List, a': BA.Arena, l': List,
        names: seq<seq<byte>>, kept: seq<bool>, j: nat, r: nat, n: nat)
    requires Marks(ProcessOptions(names), kept) && Fits(a, l) && Extends(a, l, a', l', ProcEntries(names, 0))
    requires j < |names| && kept[j] && r == Rank(kept, j) && n == l.count + r < l'.count
    ensures DecodeProc(Contents(a', l')[n]) == Proc([], 0, 0, 0, PidOf(names[j]), 0)
  {
    ProcessesExact(names, kept, j);
    ExtendsAt(a, l, a', l', ProcEntries(names, 0), r, n);
  }

  /** Lines 581-592: a list without an array gets one of eight slots; `None` if there is no room. */
  ghost function Started(a: BA.Arena, l: List): Option<(BA.Arena, List)>
    requires a.Mapped()
  {
    if l.items.Some? then Some((a, l))
    else
      match BA.Alloc(a, RECORD_SIZE * 8)
      case Done(a', Some(at)) => Some((a', List(Some(at), 0, 8)))
      case _ => None
  }

  class RecordArray {
    var items: Option<nat>
    var count: u64
    var capacity: u64

    ghost function View(): List
      reads this
    {
      List(items, count, capacity)
    }

    /** The zeroed record that `disk_create` and the device record provide. */
    constructor ()
      ensures View() == List(None, 0, 0)
    {
      items, count, capacity := None, 0, 0;
    }

    /** Replace the full array by one of `newCapacity` slots and move `moved` records to it. */
    method Grow(newCapacity: u64, moved: u64, arena: ArenaAllocator) returns (grown: bool)
      requires arena.Valid() && Fits(arena.View(), View()) && count == capacity
      requires newCapacity == NewCapacity(capacity) && moved == count
      modifies this`items, this`capacity, arena`cur, arena`prev, arena.mem
      ensures arena.Valid()
      ensures match Reserve(old(arena.View()), old(View()))
        case Broken => false
        case Full => !grown && arena.View() == old(arena.View()) && View() == old(View())
        case Stored(a, l, _) => grown && arena.View() == a && View() == l
    {
      ghost var a, l := arena.View(), View();
      ghost var at, size := AH.NextStart(a.form, a.cur), RECORD_SIZE * newCapacity;
      GrowOutcome(a, l, at, size);
      grown := ReplaceArray(newCapacity, moved, arena, at, size);
    }

    /** Allocate, copy, and point to the new array of `n` slots. */
    method ReplaceArray(n: u64, moved: u64, arena: ArenaAllocator, ghost at: nat, ghost size: nat) returns (grown: bool)
      requires arena.Valid() && arena.cur <= arena.capacity && size + arena.capacity + ARENA_ALIGN < TWO_64
      requires at == AH.NextStart(arena.form, arena.cur) && size == RECORD_SIZE * n
      requires moved == count && RECORD_SIZE * count <= size
      requires items.Some? ==> items.value + RECORD_SIZE * count <= arena.capacity
      modifies this`items, this`capacity, arena`cur, arena`prev, arena.mem
      ensures arena.Valid()
      ensures var a, l := old(arena.View()), old(View());
        if at + size <= a.capacity then
          && grown && View() == List(Some(at), l.count, n)
          && arena.View() == BA.Arena(a.form, a.capacity, at + size, a.cur, GrownMemory(a.mem, l, at, size))
        else
          !grown && View() == l && arena.View() == a
    {
      var np := AllocRecords(n, arena);
      if np.None? {
        return false;
      }
      MoveRecords(np.value, moved, arena);
      items := np;
      capacity := n;
      grown := true;
    }

    /** `PushArray` for records whose total size does not wrap. */
    method AllocRecords(n: u64, arena: ArenaAllocator) returns (np: Option<nat>)
      requires arena.Valid() && arena.cur <= arena.capacity && RECORD_SIZE * n + arena.capacity + ARENA_ALIGN < TWO_64
      modifies arena`cur, arena`prev, arena.mem
      ensures arena.Valid()
      ensures var a := old(arena.View()); var at, size := AH.NextStart(a.form, a.cur), RECORD_SIZE * n;
        if at + size <= a.capacity then
          && np == Some(at) && arena.cur == at + size && arena.prev == a.cur
          && arena.mem[..] == Store(a.mem, at, Zeros(size))
        else
          np == None && arena.View() == a
    {
      AR.AllocFits(arena.View(), RECORD_SIZE * n, AH.NextStart(arena.form, arena.cur));
      var fault;
      np, fault := arena.Alloc(Wrap(RECORD_SIZE * n));
    }

    /** The `memcpy` of lines 37-40 and 606. */
    method MoveRecords(to: nat, moved: nat, arena: ArenaAllocator)
      requires arena.Valid() && moved == count && to + RECORD_SIZE * moved <= arena.capacity
      requires items.Some? ==> items.value + RECORD_SIZE * moved <= arena.capacity
      modifies arena.mem
      ensures arena.Valid()
      ensures arena.mem[..] == MovedMemory(old(arena.mem[..]), View(), to)
    {
      if items.Some? && moved > 0 {
        arena.Copy(to, items.value, RECORD_SIZE * moved);
      }
    }

    /** Store a record in the next slot. */
    method PutNext(e: Entry, record: seq<byte>, arena: ArenaAllocator)
      requires arena.Valid() && Fits(arena.View(), View()) && count < capacity && ValidEntry(e)
      requires record == Filled(Slot(arena.mem[..], items.value, count), e)
      modifies this`count, arena.mem
      ensures arena.Valid()
      ensures var o := Put(old(arena.View()), old(View()), e);
        o.Stored? && arena.View() == o.arena && View() == o.list
    {
      PutValue(arena.View(), View(), e, items.value, record);
      PutAt(items.value + RECORD_SIZE * count, record, Wrap(count + 1), arena);
    }

    method PutAt(at: nat, record: seq<byte>, next: u64, arena: ArenaAllocator)
      requires arena.Valid() && at + |record| <= arena.capacity
      modifies this`count, arena.mem
      ensures arena.Valid()
      ensures arena.View() == old(arena.View()).(mem := Store(old(arena.View()).mem, at, record))
      ensures View() == old(View()).(count := next)
    {
      arena.Put(at, record);
      count := next;
    }

    /** `disk_push_partition` */
    method PushPartition(record: seq<byte>, arena: ArenaAllocator)
      requires arena.Valid() && Fits(arena.View(), View()) && |record| == RECORD_SIZE
      modifies this, arena`cur, arena`prev, arena.mem
      ensures arena.Valid() && Fits(arena.View(), View())
      ensures match Push(old(arena.View()), old(View()), Whole(record))
        case Broken => false
        case Full => arena.View() == old(arena.View()) && View() == old(View())
        case Stored(a, l, _) => arena.View() == a && View() == l
    {
      PushAppends(arena.View(), View(), Whole(record));
      if count == capacity {
        GrowFirst(arena.View(), View());
        var grown := Grow(if capacity != 0 then Wrap(capacity * 2) else 8, count, arena);
        if !grown {
          return;
        }
      }
      PutNext(Whole(record), record, arena);
    }

    /** The loop of `disk_read`, on the lines that were read. */
    method ReadPartitions(lines: seq<Option<Scanned>>, arena: ArenaAllocator)
      requires arena.Valid() && Fits(arena.View(), View())
      modifies this, arena`cur, arena`prev, arena.mem
      ensures arena.Valid() && Fits(arena.View(), View())
      ensures Extends(old(arena.View()), old(View()), arena.View(), View(), PartitionEntries(lines, 0))
      ensures KeepsOthers(old(arena.View()), old(View()), arena.View())
      ensures ListsPartitions(Contents(arena.View(), View()), old(count), lines, KeptLines(lines))
      ensures count < old(count) + Rank(KeptLines(lines), |lines|) ==> NoRoom(arena.View(), View())
    {
      PushPartitions(lines, arena);
      ExtendsLists(old(arena.View()), old(View()), arena.View(), View(), lines, KeptLines(lines));
    }

    /** The same in terms of the entries to push. */
    method PushPartitions(lines: seq<Option<Scanned>>, arena: ArenaAllocator)
      requires arena.Valid() && Fits(arena.View(), View())
      modifies this, arena`cur, arena`prev, arena.mem
      ensures arena.Valid() && Fits(arena.View(), View())
      ensures Extends(old(arena.View()), old(View()), arena.View(), View(), PartitionEntries(lines, 0))
      ensures KeepsOthers(old(arena.View()), old(View()), arena.View())
    {
      ghost var all := PushAll(arena.View(), View(), PartitionEntries(lines, 0));
      PushAllExtends(arena.View(), View(), PartitionEntries(lines, 0));
      PushAllKeepsOthers(arena.View(), View(), PartitionEntries(lines, 0));
      for i := 0 to |lines|
        invariant arena.Valid()
        invariant StillToPush(all, arena.View(), View(), PartitionEntries(lines, i))
      {
        if lines[i].None? {
          continue;
        }
        var record := EncodePartition(ToPartition(lines[i].value));
        LoopStep(all, arena.View(), View(), Whole(record), PartitionEntries(lines, i), PartitionEntries(lines, i + 1));
        PushPartition(record, arena);
      }
    }
  
    /** Lines 599-618: one process. */
    method AppendProcess(pid: i32, arena: ArenaAllocator) returns (room: bool)
      requires arena.Valid() && Fits(arena.View(), View()) && items.Some?
      modifies this, arena`cur, arena`prev, arena.mem
      ensures arena.Valid() && Fits(arena.View(), View()) && items.Some?
      ensures match Push(old(arena.View()), old(View()), NewProc(pid))
        case Broken => false
        case Full => !room && arena.View() == old(arena.View()) && View() == old(View())
        case Stored(a, l, _) => room && arena.View() == a && View() == l
    {
      PushAppends(arena.View(), View(), NewProc(pid));
      if count == capacity {
        GrowFirst(arena.View(), View());
        var grown := Grow(Wrap(capacity * 2), capacity, arena);
        if !grown {
          return false;
        }
      }
      PutProcess(pid, arena);
      room := true;
    }

    /** Lines 611-618: assign the fields of the next slot. */
    method PutProcess(pid: i32, arena: ArenaAllocator)
      requires arena.Valid() && Fits(arena.View(), View()) && count < capacity
      modifies this`count, arena.mem
      ensures arena.Valid()
      ensures var o := Put(old(arena.View()), old(View()), NewProc(pid));
        o.Stored? && arena.View() == o.arena && View() == o.list
    {
      var at := items.value + RECORD_SIZE * count;
      var slot := arena.mem[at..at + RECORD_SIZE];
      assert slot == Slot(arena.mem[..], items.value, count);
      PutNext(NewProc(pid), FillSlot(slot, pid), arena);
    }

    /** Lines 581-592. */
    method Start(arena: ArenaAllocator) returns (ok: bool)
      requires arena.Valid() && arena.cur <= arena.capacity && (items.Some? ==> Fits(arena.View(), View()))
      modifies this, arena`cur, arena`prev, arena.mem
      ensures arena.Valid()
      ensures match Started(old(arena.View()), old(View()))
        case None => !ok && arena.View() == old(arena.View()) && View() == List(None, 0, 8)
        case Some(s) => ok && arena.View() == s.0 && View() == s.1
      ensures old(items).None? ==> capacity == 8 && count == 0 && (ok <==> items.Some?)
      ensures old(items).Some? ==> ok && View() == old(View()) && arena.View() == old(arena.View())
    {
      StartedFits(arena.View(), View());
      if items.None? {
        capacity, count := 8, 0;
        var np, fault := arena.Alloc(RECORD_SIZE * 8);
        items := np;
        if np.None? {
          return false;
        }
      }
      ok := true;
    }

    /** `process_list_collect`, on the names that were read. */
    method CollectProcesses(names: seq<seq<byte>>, arena: ArenaAllocator) returns (code: int)
      requires arena.Valid() && arena.cur <= arena.capacity && (items.Some? ==> Fits(arena.View(), View()))
      requires forall i :: 0 <= i < |names| ==> IsName(names[i])
      modifies this, arena`cur, arena`prev, arena.mem
      ensures arena.Valid()
      ensures match Started(old(arena.View()), old(View()))
        case None => code == 1 && arena.View() == old(arena.View()) && items.None? && count == 0
        case Some(s) =>
          && code == 0 && Fits(s.0, s.1) && Fits(arena.View(), View())
          && Extends(s.0, s.1, arena.View(), View(), ProcEntries(names, 0))
          && KeepsOthers(s.0, s.1, arena.View())
          && KeepsOthers(old(arena.View()), old(View()), arena.View())
          && ListsProcesses(Contents(arena.View(), View()), if old(items).None? then 0 else old(count),
                            names, KeptNames(names))
          && (count < (if old(items).None? then 0 else old(count)) + Rank(KeptNames(names), |names|) ==>
                NoRoom(arena.View(), View()))
    {
      StartedFits(arena.View(), View());
      var ok := Start(arena);
      if !ok {
        return ERR_IO;
      }
      ghost var a, l := arena.View(), View();
      AppendProcesses(names, arena);
      NumericMarks(names, KeptNames(names));
      ExtendsProcesses(a, l, arena.View(), View(), names, KeptNames(names));
      StartKeepsOthers(old(arena.View()), old(View()), arena.View());
      code := ERR_OK;
    }

    /** The loop of lines 594-620. */
    method AppendProcesses(names: seq<seq<byte>>, arena: ArenaAllocator)
      requires arena.Valid() && Fits(arena.View(), View()) && items.Some?
      requires forall i :: 0 <= i < |names| ==> IsName(names[i])
      modifies this, arena`cur, arena`prev, arena.mem
      ensures arena.Valid() && Fits(arena.View(), View())
      ensures Extends(old(arena.View()), old(View()), arena.View(), View(), ProcEntries(names, 0))
      ensures KeepsOthers(old(arena.View()), old(View()), arena.View())
    {
      ghost var all := PushAll(arena.View(), View(), ProcEntries(names, 0));
      PushAllExtends(arena.View(), View(), ProcEntries(names, 0));
      PushAllKeepsOthers(arena.View(), View(), ProcEntries(names, 0));
      ghost var rest := ProcEntries(names, 0);
      for i := 0 to |names|
        invariant arena.Valid() && items.Some?
        invariant rest == ProcEntries(names, i)
        invariant StillToPush(all, arena.View(), View(), rest)
      {
        var numeric := IsNumeric(names[i]);
        if !numeric {
          continue;
        }
        var value := ParseU64(names[i], |names[i]|);
        LoopStep(all, arena.View(), View(), NewProc(ToI32(value)), rest, ProcEntries(names, i + 1));
        rest := ProcEntries(names, i + 1);
        var room := AppendProcess(ToI32(value), arena);
        if !room {
          BreakEnds(all, arena.View(), View(), rest);
          rest := [];
          break;
        }
      }
    }
  }

  /** A list that was just started is empty and in place. */
  lemma {:induction false} StartedFits(a: BA.Arena, l: List)
    requires a.Mapped() && a.cur <= a.capacity && (l.items.Some? ==> Fits(a, l))
    ensures BA.Alloc(a, RECORD_SIZE * 8).Done?
    ensures var s := Started(a, l); s.Some? ==> Fits(s.value.0, s.value.1)
    ensures Started(a, l).None? <==> l.items.None? && AH.NextStart(a.form, a.cur) + RECORD_SIZE * 8 > a.capacity
    ensures Started(a, l).None? ==> BA.Alloc(a, RECORD_SIZE * 8) == BA.Done(a, None)
  {
    AlignInRange(a.form, a.cur);
    AR.AllocValue(a, RECORD_SIZE * 8, AH.NextStart(a.form, a.cur));
  }

  /** Starting a list takes only free bytes. */
  lemma {:induction false} StartKeepsOthers(a: BA.Arena, l: List, a': BA.Arena)
    requires a.Mapped() && a.cur <= a.capacity && (l.items.Some? ==> Fits(a, l))
    requires var s := Started(a, l); s.Some? && KeepsOthers(s.value.0, s.value.1, a')
    ensures KeepsOthers(a, l, a')
  {
    AR.AllocFits(a, RECORD_SIZE * 8, AH.NextStart(a.form, a.cur));
  }

  lemma {:induction false} BreakEnds(all: All, a: BA.Arena, l: List, rest: seq<Entry>)
    requires StillToPush(all, a, l, rest) && NoRoom(a, l)
    ensures StillToPush(all, a, l, [])
  {
    FullStaysFull(a, l, rest);
  }

  /** Pushing the rest from here leads to the same end. */
  ghost predicate StillToPush(all: All, a: BA.Arena, l: List, rest: seq<Entry>) {
    Fits(a, l) && ValidEntries(rest) && SameEnd(all, PushAll(a, l, rest))
  }

  /** How the allocation decides the growth. */
  lemma {:induction false} GrowOutcome(a: BA.Arena, l: List, at: nat, size: nat)
    requires Fits(a, l) && l.count == l.capacity
    requires at == AH.NextStart(a.form, a.cur) && size == RECORD_SIZE * NewCapacity(l.capacity)
    ensures size + a.capacity + ARENA_ALIGN < TWO_64 && RECORD_SIZE * l.count <= size
    ensures l.items.Some? ==> l.items.value + RECORD_SIZE * l.count <= a.capacity
    ensures at + size <= a.capacity ==>
      Reserve(a, l) == Stored(BA.Arena(a.form, a.capacity, at + size, a.cur, GrownMemory(a.mem, l, at, size)),
                              List(Some(at), l.count, NewCapacity(l.capacity)), l.count)
    ensures at + size > a.capacity ==> Reserve(a, l) == Full
  {
    SizesDoNotWrap(a, l);
    if at + size <= a.capacity {
      ReserveValue(a, l, at, size);
    } else {
      ReserveFull(a, l);
    }
  }

  /** Growth starts only from a full array, and its outcome decides the push. */
  lemma {:induction false} GrowFirst(a: BA.Arena, l: List)
    requires Fits(a, l) && l.count == l.capacity
    ensures var o := Reserve(a, l); o.Stored? ==> Grown(a, l, o)
  {
    ReserveFull(a, l);
    SizesDoNotWrap(a, l);
    AlignInRange(a.form, a.cur);
    if !NoRoom(a, l) {
      ReserveGrows(a, l, AH.NextStart(a.form, a.cur), RECORD_SIZE * NewCapacity(l.capacity));
    }
  }

  /** One round of a push loop. */
  lemma {:induction false} LoopStep(all: All, a: BA.Arena, l: List, e: Entry, entries: seq<Entry>, rest: seq<Entry>)
    requires StillToPush(all, a, l, entries) && entries == [e] + rest && ValidEntry(e)
    ensures var o := Push(a, l, e);
      && !o.Broken?
      && (o.Full? ==> NoRoom(a, l) && StillToPush(all, a, l, rest))
      && (o.Stored? ==> StillToPush(all, o.arena, o.list, rest))
  {
    PushAppends(a, l, e);
    assert entries[1..] == rest && entries[0] == e;
    assert forall i :: 0 <= i < |rest| ==> rest[i] == entries[i + 1];
  }
}
