/** `mem_arena` as an object whose methods update the positions and the buffer in place. */
module MemArena {
  import opened Bytes
  import opened BaseMem
  import BA = BaseArena
  import opened ArenaResize

  class ArenaAllocator {
    const form: Form
    var cur: u64
    var prev: u64
    var capacity: u64
    var base: u64
    const mem: array<byte>

    /** The state as a value. */
    ghost function View(): BA.Arena
      reads this, mem
    {
      BA.Arena(form, capacity, cur, prev, mem[..])
    }

    predicate Valid()
      reads this
    {
      capacity <= ADDRESS_LIMIT && mem.Length == capacity
    }

    /** The state `arena_create` leaves; the memory that the kernel maps is zero. */
    constructor (form: Form, base: u64, capacity: u64)
      requires capacity <= ADDRESS_LIMIT
      ensures Valid() && fresh(mem) && this.base == base
      ensures View() == BA.Arena(form, capacity, 0, 0, Zeros(capacity))
    {
      this.form, this.base, this.capacity, cur, prev := form, base, capacity, 0, 0;
      mem := new byte[capacity](_ => 0);
      new;
      assert mem[..] == Zeros(capacity);
    }

    method Alloc(size: u64) returns (pointer: Option<nat>, fault: bool)
      requires Valid()
      modifies this`cur, this`prev, mem
      ensures Valid()
      ensures match BA.Alloc(old(View()), size)
        case Fault => fault && View() == old(View())
        case Done(a, p) => !fault && View() == a && pointer == p
    {
      pointer, fault := None, false;
      var aligned: int := Align(form, cur, ARENA_ALIGN);
      var newPos := Wrap(aligned + size);
      if newPos > capacity {
        return;
      }
      if aligned + size > capacity {
        fault := true;
        return;
      }
      prev := cur;
      cur := newPos;
      forall i | aligned <= i < aligned + size {
        mem[i] := 0;
      }
      assert mem[..] == Store(old(mem[..]), aligned, Zeros(size));
      pointer := Some(aligned);
    }

    method Pop(size: u64)
      requires Valid()
      modifies this`cur
      ensures Valid() && View() == BA.Pop(old(View()), size)
    {
      cur := cur - Min(size, cur);
    }

    method PopTo(pos: u64)
      requires Valid()
      modifies this`cur
      ensures Valid() && View() == BA.PopTo(old(View()), pos)
    {
      var size := if pos < cur then cur - pos else 0;
      Pop(size);
    }

    method Clear()
      requires Valid()
      modifies this`cur
      ensures Valid() && View() == BA.Clear(old(View()))
    {
      cur := 0;
    }

    method TempBegin() returns (start: u64)
      requires Valid()
      ensures start == cur
    {
      start := cur;
    }

    method TempEnd(start: u64)
      requires Valid()
      modifies this`cur
      ensures Valid() && View() == BA.TempEnd(old(View()), start)
    {
      cur := start;
    }

    /** The whole record, with the base address. */
    ghost function Record(): Image
      reads this, mem
    {
      Image(View(), base)
    }

    /** `arena_resize_align` as written.  Its first test has no effect, so the alignment is not a
        parameter. */
    method ResizeAlign(block: Option<nat>, newSize: u64, oldSize: u64) returns (pointer: Option<nat>, broken: bool)
      requires Valid()
      modifies this, mem
      ensures match ArenaResize.ResizeAlign(old(Record()), block, newSize, oldSize)
        case Broken => broken
        case Resized(i, p) => !broken && Record() == i && pointer == p
    {
      pointer, broken := None, false;
      if block.None? || oldSize == 0 {
        pointer, broken := Alloc(newSize);
      } else if block.value < capacity {
        if prev == block.value {
          pointer := Some(prev);
          broken := GrowInPlace(newSize, oldSize);
        } else {
          var moved;
          moved, broken := Alloc(newSize);
          if !broken {
            broken := MoveKept(moved, block.value, Min(oldSize, newSize));
          }
        }
      }
    }

    /** Lines 118-123: the bytes cleared are those of this record, not those of the block. */
    method GrowInPlace(newSize: u64, oldSize: u64) returns (broken: bool)
      requires Valid()
      modifies this, mem
      ensures match ArenaResize.GrowInPlace(old(Record()), newSize, oldSize)
        case Broken => broken
        case Resized(i, _) => !broken && Record() == i
    {
      broken := false;
      cur := Wrap(prev + newSize);
      if newSize > oldSize {
        var n := newSize - oldSize;
        if n - 32 > capacity {
          return true;
        }
        ClearFront(n - 32);
        cur, prev := ClearLow(cur, n), ClearLow(prev, n - 8);
        capacity, base := ClearLow(capacity, n - 16), ClearLow(base, n - 24);
      }
    }

    /** What a `memset` that runs past the record does to the buffer behind it. */
    method ClearFront(n: int)
      requires n <= mem.Length
      modifies mem
      ensures mem[..] == if n <= 0 then old(mem[..]) else Store(old(mem[..]), 0, Zeros(n))
    {
      forall i | 0 <= i < n {
        mem[i] := 0;
      }
    }

    method MoveKept(to: Option<nat>, from: nat, size: nat) returns (broken: bool)
      requires Valid()
      modifies mem
      ensures match ArenaResize.MoveKept(old(View()), to, from, size)
        case Fault => broken
        case Done(a, _) => !broken && View() == a
    {
      broken := false;
      if size > 0 {
        if to.None? || to.value + size > capacity || from + size > capacity {
          return true;
        }
        Copy(to.value, from, size);
      }
    }

    /** The resize that the source intends. */
    method ResizeRepaired(block: Option<nat>, newSize: u64, oldSize: u64) returns (pointer: Option<nat>, broken: bool)
      requires Valid()
      modifies this`cur, this`prev, mem
      ensures match ArenaResize.ResizeRepaired(old(View()), block, newSize, oldSize)
        case Fault => broken
        case Done(a, p) => !broken && View() == a && pointer == p
    {
      pointer, broken := None, false;
      if block.None? || oldSize == 0 {
        pointer, broken := Alloc(newSize);
      } else if block.value < capacity {
        if prev == block.value {
          if prev + newSize <= capacity {
            Stretch(newSize, oldSize);
            pointer := Some(prev);
          }
        } else {
          pointer, broken := Alloc(newSize);
          if !broken && pointer.Some? {
            broken := MoveKept(pointer, block.value, Min(oldSize, newSize));
          }
        }
      }
    }

    method Stretch(newSize: u64, oldSize: u64)
      requires Valid() && prev + newSize <= capacity
      modifies this`cur, mem
      ensures Valid() && View() == StretchInPlace(old(View()), newSize, oldSize)
    {
      if newSize > oldSize {
        forall i | prev + oldSize <= i < prev + newSize {
          mem[i] := 0;
        }
        assert mem[..] == Store(old(mem[..]), prev + oldSize, Zeros(newSize - oldSize));
      }
      cur := prev + newSize;
    }

    /** A client's `memcpy` of `size` bytes from one place of the buffer to another. */
    method Copy(to: nat, from: nat, size: nat)
      requires Valid() && to + size <= capacity && from + size <= capacity
      modifies mem
      ensures Valid()
      ensures mem[..] == Store(old(mem[..]), to, old(mem[..])[from..from + size])
    {
      var bytes := mem[..][from..from + size];
      forall i | 0 <= i < size {
        mem[to + i] := bytes[i];
      }
    }

    /** A client's store of a record. */
    method Put(to: nat, bytes: seq<byte>)
      requires Valid() && to + |bytes| <= capacity
      modifies mem
      ensures Valid()
      ensures mem[..] == Store(old(mem[..]), to, bytes)
    {
      forall i | 0 <= i < |bytes| {
        mem[to + i] := bytes[i];
      }
    }
  }
}
