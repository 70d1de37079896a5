/** The stack allocator of base/base_stack.c as transitions on a buffer of bytes.

    The buffer starts at address `base`; pointers are absolute addresses and 0 is NULL.  A call
    that would touch memory outside the buffer, or divide by zero, ends in `Fault`. */
module BaseStack {
  import opened Bytes
  import opened BaseMem
  import opened Padding

  /** `sizeof(mem_stack_header)` */
  const HEADER_SIZE: u64 := 2

  /** Lines 44, 127 and 175, each as written or repaired. */
  datatype Forms = Forms(padding: Form, popLimit: Form, resize: Form)

  /** What `stack_create` establishes and no call changes. */
  datatype Setting = Setting(forms: Forms, base: u64, capacity: u64) {
    predicate Sound() {
      0 < base && base + capacity <= ADDRESS_LIMIT
    }
  }

  datatype Stack = Stack(forms: Forms, base: u64, capacity: u64, offset: u64, mem: seq<byte>) {
    function Fixed(): Setting {
      Setting(forms, base, capacity)
    }

    predicate Mapped() {
      Fixed().Sound() && |mem| == capacity
    }
  }

  datatype Outcome = Fault | Done(stack: Stack, pointer: u64)

  /** The alignment after the clamp of line 76. */
  function Clamp(alignment: u64): u64 {
    if alignment > 128 then 128 else alignment
  }

  function PushAlign(s: Stack, size: u64, alignment: u64): Outcome
    requires s.Mapped()
  {
    if !IsPow(alignment) then
      Done(s, 0)
    else if alignment == 0 then
      Fault
    else
      var address := Wrap(s.base + s.offset);
      var padding := CalculatePadding(s.forms.padding, address, Clamp(alignment), HEADER_SIZE);
      PushPadded(s, size, address, padding)
  }

  /** The header byte two bytes in front of the block, and the zeroed block. */
  function WriteBlock(mem: seq<byte>, at: nat, padding: byte, size: nat): (r: seq<byte>)
    requires HEADER_SIZE <= at && at + size <= |mem|
    ensures |r| == |mem|
  {
    Store(Store(mem, at - HEADER_SIZE, [padding]), at, Zeros(size))
  }

  /** Lines 84-97, once the padding is known. */
  function PushPadded(s: Stack, size: u64, address: u64, padding: u64): Outcome
    requires s.Mapped()
  {
    var top := Wrap(s.offset + padding + size);
    var next := Wrap(address + padding);
    if top > s.capacity then
      Done(s, 0)
    else if s.base + HEADER_SIZE <= next && next + size <= s.base + s.capacity then
      Done(s.(offset := top, mem := WriteBlock(s.mem, next - s.base, padding % 256, size)), next)
    else
      Fault
  }

  function Push(s: Stack, size: u64): Outcome
    requires s.Mapped()
  {
    PushAlign(s, size, ARENA_ALIGN)
  }

  /** The header byte of a pointer `at` bytes into the buffer.  The `mem_stack` record lies directly
      before the buffer and ends with the capacity, least significant byte first. */
  function HeaderByte(s: Stack, at: nat): byte
    requires s.Mapped() && at < s.capacity
  {
    if at >= 2 then s.mem[at - 2]
    else if at == 1 then (s.capacity / 0x100_0000_0000_0000) % 256
    else (s.capacity / 0x1_0000_0000_0000) % 256
  }

  /** Line 127 adds the base address to itself; `Repaired` adds the offset. */
  function PopLimit(s: Stack): u64 {
    Wrap(s.base + if s.forms.popLimit == AsWritten then s.base else s.offset)
  }

  function Pop(s: Stack, pointer: u64): Stack
    requires s.Mapped()
  {
    if pointer == 0 then
      s
    else if !(s.base <= pointer < s.base + s.capacity) then
      s
    else if pointer >= PopLimit(s) then
      s
    else
      s.(offset := Wrap(pointer - HeaderByte(s, pointer - s.base) - s.base))
  }

  function PopAll(s: Stack): Stack {
    s.(offset := 0)
  }

  function ResizeAlign(s: Stack, pointer: u64, oldSize: u64, newSize: u64, alignment: u64): Outcome
    requires s.Mapped()
  {
    if pointer == 0 then
      PushAlign(s, newSize, alignment)
    else if newSize == 0 then
      Done(Pop(s, pointer), 0)
    else if !(s.base <= pointer < s.base + s.capacity) then
      Done(s, 0)
    else if pointer >= Wrap(s.base + s.offset) then
      Done(s, 0)
    else if oldSize == newSize then
      Done(s, pointer)
    else
      Relocate(s, pointer, Min(oldSize, newSize), newSize, alignment)
  }

  /** Lines 173-175. */
  function Relocate(s: Stack, pointer: u64, keep: nat, newSize: u64, alignment: u64): Outcome
    requires s.Mapped() && s.base <= pointer < s.base + s.capacity
  {
    match PushAlign(s, newSize, alignment)
    case Fault => Fault
    case Done(s', moved) => MoveTo(s', pointer, moved, keep)
  }

  /** Lines 174-175: the bytes go to the new block.  As written, the old pointer is returned. */
  function MoveTo(s: Stack, pointer: u64, moved: u64, size: nat): Outcome
    requires s.Mapped() && s.base <= pointer < s.base + s.capacity
  {
    var result := if s.forms.resize == AsWritten then pointer else moved;
    if size == 0 then
      Done(s, result)
    else if s.base <= moved && moved + size <= s.base + s.capacity && pointer + size <= s.base + s.capacity then
      var from := pointer - s.base;
      Done(s.(mem := Store(s.mem, moved - s.base, s.mem[from..from + size])), result)
    else
      Fault
  }
}
