/** `mem_stack` as an object whose methods update the offset and the buffer in place. */
module MemStack {
  import opened Bytes
  import opened BaseMem
  import opened Padding
  import opened BaseStack
  import opened StackLive

  class StackAllocator {
    const forms: Forms
    const base: u64
    const capacity: u64
    var offset: u64
    const mem: array<byte>

    /** The state as a value. */
    ghost function View(): Stack
      reads this, mem
    {
      Stack(forms, base, capacity, offset, mem[..])
    }

    ghost predicate Valid()
      reads this, mem
    {
      View().Mapped()
    }

    /** The state `stack_create` leaves; the memory that the kernel maps is zero. */
    constructor (forms: Forms, base: u64, capacity: u64)
      requires 0 < base && base + capacity <= ADDRESS_LIMIT
      ensures Valid() && View() == Stack(forms, base, capacity, 0, Zeros(capacity))
      ensures Represents(View(), [])
      ensures fresh(mem)
    {
      this.forms, this.base, this.capacity, this.offset := forms, base, capacity, 0;
      mem := new byte[capacity](_ => 0);
      new;
      assert mem[..] == Zeros(capacity);
    }

    method PushAlign(size: u64, alignment: u64) returns (pointer: u64, fault: bool)
      requires Valid()
      modifies this`offset, mem
      ensures Valid()
      ensures match BaseStack.PushAlign(old(View()), size, alignment)
        case Fault => fault && View() == old(View())
        case Done(s, p) => !fault && View() == s && pointer == p
    {
      pointer, fault := 0, false;
      if !IsPow(alignment) {
        return;
      }
      if alignment == 0 {
        fault := true;
        return;
      }
      var currentAddress := Wrap(base + offset);
      var padding := CalculatePadding(forms.padding, currentAddress, Clamp(alignment), HEADER_SIZE);
      PushAlignIs(View(), size, alignment, currentAddress, padding);
      pointer, fault := Place(size, currentAddress, padding);
    }

    /** Lines 84-97. */
    method Place(size: u64, currentAddress: u64, padding: u64) returns (pointer: u64, fault: bool)
      requires Valid()
      modifies this`offset, mem
      ensures Valid()
      ensures match PushPadded(old(View()), size, currentAddress, padding)
        case Fault => fault && View() == old(View())
        case Done(s, p) => !fault && View() == s && pointer == p
    {
      var top, nextAddress := Wrap(offset + padding + size), Wrap(currentAddress + padding);
      var at := nextAddress - base;
      PushPaddedIs(View(), size, currentAddress, padding, top, nextAddress, at, padding % 256);
      var placed;
      placed, fault := PlaceAt(top, size, at, padding % 256);
      pointer := if placed then nextAddress else 0;
    }

    /** The same with the position of the block. */
    method PlaceAt(top: u64, size: u64, at: int, header: byte) returns (placed: bool, fault: bool)
      requires Valid()
      modifies this`offset, mem
      ensures Valid()
      ensures
        if top > capacity then
          !placed && !fault && offset == old(offset) && mem[..] == old(mem[..])
        else if HEADER_SIZE <= at && at + size <= capacity then
          placed && !fault && offset == top && mem[..] == WriteBlock(old(mem[..]), at, header, size)
        else
          fault && offset == old(offset) && mem[..] == old(mem[..])
    {
      placed, fault := false, false;
      if top > capacity {
        return;
      }
      if !(HEADER_SIZE <= at && at + size <= capacity) {
        fault := true;
        return;
      }
      offset := top;
      Write(at, header, size);
      placed := true;
    }

    /** The header byte and `MemSet`. */
    method Write(at: nat, padding: byte, size: nat)
      requires HEADER_SIZE <= at && at + size <= mem.Length
      modifies mem
      ensures mem[..] == WriteBlock(old(mem[..]), at, padding, size)
    {
      mem[at - HEADER_SIZE] := padding;
      forall i | at <= i < at + size {
        mem[i] := 0;
      }
    }

    method Push(size: u64) returns (pointer: u64, fault: bool)
      requires Valid()
      modifies this`offset, mem
      ensures Valid()
      ensures match BaseStack.Push(old(View()), size)
        case Fault => fault && View() == old(View())
        case Done(s, p) => !fault && View() == s && pointer == p
    {
      pointer, fault := PushAlign(size, ARENA_ALIGN);
    }

    method Pop(pointer: u64)
      requires Valid()
      modifies this`offset
      ensures Valid() && View() == BaseStack.Pop(old(View()), pointer)
    {
      if pointer != 0 {
        if !(base <= pointer && pointer < base + capacity) {
          return;
        }
        if pointer >= Wrap(base + if forms.popLimit == AsWritten then base else offset) {
          return;
        }
        var at := pointer - base;
        var padding :=
          if at >= 2 then mem[at - 2]
          else if at == 1 then (capacity / 0x100_0000_0000_0000) % 256
          else (capacity / 0x1_0000_0000_0000) % 256;
        offset := Wrap(pointer - padding - base);
      }
    }

    method PopAll()
      requires Valid()
      modifies this`offset
      ensures Valid() && View() == BaseStack.PopAll(old(View()))
    {
      offset := 0;
    }

    method ResizeAlign(pointer: u64, oldSize: u64, newSize: u64, alignment: u64) returns (result: u64, fault: bool)
      requires Valid()
      modifies this`offset, mem
      ensures Valid()
      ensures match BaseStack.ResizeAlign(old(View()), pointer, oldSize, newSize, alignment)
        case Fault => fault
        case Done(s, p) => !fault && View() == s && result == p
    {
      result, fault := 0, false;
      if pointer == 0 {
        result, fault := PushAlign(newSize, alignment);
        return;
      } else if newSize == 0 {
        Pop(pointer);
        return;
      }
      var minSize := Min(oldSize, newSize);
      if !(base <= pointer && pointer < base + capacity) {
        return;
      }
      if pointer >= Wrap(base + offset) {
        return;
      }
      if oldSize == newSize {
        result := pointer;
        return;
      }
      ResizeIsRelocate(View(), pointer, oldSize, newSize, alignment, minSize);
      result, fault := Relocate(pointer, minSize, newSize, alignment);
    }

    /** Lines 173-175. */
    method Relocate(pointer: u64, minSize: nat, newSize: u64, alignment: u64) returns (result: u64, fault: bool)
      requires Valid() && base <= pointer < base + capacity
      modifies this`offset, mem
      ensures Valid()
      ensures match BaseStack.Relocate(old(View()), pointer, minSize, newSize, alignment)
        case Fault => fault
        case Done(s, p) => !fault && View() == s && result == p
    {
      var newPointer;
      result := 0;
      newPointer, fault := PushAlign(newSize, alignment);
      if !fault {
        fault := Move(pointer, newPointer, minSize);
        result := if forms.resize == AsWritten then pointer else newPointer;
      }
    }

    /** `memmove` inside the buffer. */
    method Move(pointer: u64, moved: u64, size: nat) returns (fault: bool)
      requires Valid() && base <= pointer < base + capacity
      modifies mem
      ensures Valid()
      ensures match MoveTo(old(View()), pointer, moved, size)
        case Fault => fault
        case Done(s, _) => !fault && View() == s
    {
      var from, to, at := pointer - base, pointer - base + size, moved - base;
      MoveToIs(View(), pointer, moved, size, from, to, at);
      fault := MoveBytes(from, to, at);
    }

    /** The same with positions in the buffer. */
    method MoveBytes(from: nat, to: nat, at: int) returns (fault: bool)
      requires Valid() && from <= to
      modifies mem
      ensures Valid()
      ensures
        if from == to then
          !fault && mem[..] == old(mem[..])
        else if 0 <= at && at + (to - from) <= capacity && to <= capacity then
          !fault && mem[..] == Store(old(mem[..]), at, old(mem[..])[from..to])
        else
          fault
    {
      fault := false;
      if from == to {
        return;
      }
      if !(0 <= at && at + (to - from) <= capacity && to <= capacity) {
        fault := true;
        return;
      }
      Copy(from, to, at);
    }

    /** The bytes `memmove` copies. */
    method Copy(from: nat, to: nat, at: nat)
      requires from <= to <= mem.Length && at + (to - from) <= mem.Length
      modifies mem
      ensures mem[..] == Store(old(mem[..]), at, old(mem[..])[from..to])
    {
      var bytes := mem[..][from..to];
      forall i | 0 <= i < |bytes| {
        mem[at + i] := bytes[i];
      }
      assert mem[..] == Store(old(mem[..]), at, bytes);
    }
  }
}
