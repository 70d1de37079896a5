/** The arena allocator of base/base_arena.c as transitions on a buffer of bytes.

    Pointers are offsets into the buffer, and `None` is NULL.  `form` selects `align` as written or
    with its test repaired.  A call that would write outside the buffer ends in `Fault`. */
module BaseArena {
  import opened Bytes
  import opened BaseMem

  datatype Arena = Arena(form: Form, capacity: u64, cur: u64, prev: u64, mem: seq<byte>) {
    /** What `arena_create` establishes and no call but a resize changes: a mapped buffer. */
    predicate Mapped() {
      capacity <= ADDRESS_LIMIT && |mem| == capacity
    }
  }

  datatype Outcome = Fault | Done(arena: Arena, pointer: Option<nat>)

  function Alloc(a: Arena, size: u64): (o: Outcome)
    requires a.Mapped()
    ensures o.Done? ==> o.arena.Mapped() && o.arena.capacity == a.capacity
  {
    var aligned := Align(a.form, a.cur, ARENA_ALIGN);
    var newPos := Wrap(aligned + size);
    if newPos > a.capacity then
      Done(a, None)
    else if aligned + size > a.capacity then
      Fault
    else
      Done(a.(prev := a.cur, cur := newPos, mem := Store(a.mem, aligned, Zeros(size))), Some(aligned))
  }

  function Pop(a: Arena, size: u64): Arena {
    a.(cur := a.cur - Min(size, a.cur))
  }

  function PopTo(a: Arena, pos: u64): Arena {
    Pop(a, if pos < a.cur then a.cur - pos else 0)
  }

  function Clear(a: Arena): Arena {
    a.(cur := 0)
  }

  /** `temp_arena_end` with a scope that `temp_arena_begin` opened at position `start`. */
  function TempEnd(a: Arena, start: u64): Arena {
    a.(cur := start)
  }
}
