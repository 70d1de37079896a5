/** Many pushes: the lists agree with appending to a sequence, stop cleanly when the arena is full, and
    have an exact space and copy account. */
module ListRuns {
  import opened Bytes
  import opened Bits
  import opened BaseMem
  import BA = BaseArena
  import AH = ArenaHeap
  import opened Records
  import opened RecordList

  /** The array either stays where it is or moves to memory that was not in use. */
  ghost predicate MovesUp(a: BA.Arena, l: List, l': List) {
    forall i :: 0 <= i < a.cur && Owns(l', i) ==> Owns(l, i)
  }

  /** The capacity, the copies and the position after a push. */
  ghost predicate Accounted(a: BA.Arena, l: List, o: Outcome)
    requires o.Stored?
  {
    if l.count < l.capacity then
      o.list.capacity == l.capacity && o.copied == 0 && o.arena.cur == a.cur
    else
      && o.list.capacity == (if l.capacity != 0 then l.capacity * 2 else 8)
      && o.copied == l.count
      && o.arena.cur == AH.NextStart(a.form, a.cur) + RECORD_SIZE * o.list.capacity
  }

  /** What a push that found room did. */
  ghost predicate Appended(a: BA.Arena, l: List, e: Entry, o: Outcome)
    requires Fits(a, l)
  {
    && o.Stored? && Fits(o.arena, o.list) && o.list.count == l.count + 1
    && Contents(o.arena, o.list)[..l.count] == Contents(a, l)
    && Matches(Contents(o.arena, o.list)[l.count], e)
    && KeepsOthers(a, l, o.arena) && MovesUp(a, l, o.list)
  }

  lemma {:induction false} PushIntoFreeSlot(a: BA.Arena, l: List, e: Entry)
    requires Fits(a, l) && ValidEntry(e) && l.count < l.capacity
    ensures Appended(a, l, e, Push(a, l, e)) && Accounted(a, l, Push(a, l, e))
  {
    PutAppends(a, l, e);
  }

  /** Filling a slot after growth: the facts about the two steps combine. */
  lemma {:induction false} GrowThenPut(a: BA.Arena, l: List, e: Entry, g: Outcome)
    requires Fits(a, l) && ValidEntry(e) && Grown(a, l, g) && MovesUp(a, l, g.list)
    ensures var o := Put(g.arena, g.list, e);
      && o.Stored? && Appended(a, l, e, o.(copied := g.copied))
      && o.list.capacity == g.list.capacity && o.arena.cur == g.arena.cur
  {
    PutAppends(g.arena, g.list, e);
    var o := Put(g.arena, g.list, e);
    assert Contents(o.arena, o.list)[..l.count] == Contents(g.arena, g.list);
  }

  lemma {:induction false} ReserveAccount(a: BA.Arena, l: List)
    requires Fits(a, l) && l.count == l.capacity && !NoRoom(a, l)
    ensures var g := Reserve(a, l);
      && Grown(a, l, g) && MovesUp(a, l, g.list) && g.copied == l.count
      && g.list.capacity == (if l.capacity != 0 then l.capacity * 2 else 8)
      && g.arena.cur == AH.NextStart(a.form, a.cur) + RECORD_SIZE * g.list.capacity
  {
    SizesDoNotWrap(a, l);
    AlignInRange(a.form, a.cur);
    var at, size := AH.NextStart(a.form, a.cur), RECORD_SIZE * NewCapacity(l.capacity);
    ReserveValue(a, l, at, size);
    ReserveGrows(a, l, at, size);
  }

  lemma {:induction false} PushIs(a: BA.Arena, l: List, e: Entry, g: Outcome, o: Outcome)
    requires a.Mapped() && ValidEntry(e) && g == Reserve(a, l) && g.Stored?
    requires o == Put(g.arena, g.list, e) && o.Stored?
    ensures Push(a, l, e) == o.(copied := g.copied)
  {
  }

  lemma {:induction false} PushWithGrowth(a: BA.Arena, l: List, e: Entry)
    requires Fits(a, l) && ValidEntry(e) && l.count == l.capacity && !NoRoom(a, l)
    ensures Appended(a, l, e, Push(a, l, e)) && Accounted(a, l, Push(a, l, e))
  {
    ReserveAccount(a, l);
    var g := Reserve(a, l);
    GrowThenPut(a, l, e, g);
    PushIs(a, l, e, g, Put(g.arena, g.list, e));
  }

  /** One push: without room nothing changes, and otherwise the list gains the entry. */
  lemma {:induction false} PushAppends(a: BA.Arena, l: List, e: Entry)
    requires Fits(a, l) && ValidEntry(e)
    ensures Push(a, l, e).Full? <==> NoRoom(a, l)
    ensures !NoRoom(a, l) ==> Appended(a, l, e, Push(a, l, e)) && Accounted(a, l, Push(a, l, e))
  {
    ReserveFull(a, l);
    if l.count < l.capacity {
      PushIntoFreeSlot(a, l, e);
    } else if !NoRoom(a, l) {
      PushWithGrowth(a, l, e);
    }
  }

  datatype All = AllBroken | AllDone(arena: BA.Arena, list: List, copied: nat)

  /** The loop: a push that finds no room is skipped. */
  function PushAll(a: BA.Arena, l: List, entries: seq<Entry>): All
    requires a.Mapped() && forall i :: 0 <= i < |entries| && entries[i].Whole? ==> |entries[i].record| == RECORD_SIZE
    decreases |entries|
  {
    if entries == [] then AllDone(a, l, 0)
    else
      match Push(a, l, entries[0])
      case Broken => AllBroken
      case Full => PushAll(a, l, entries[1..])
      case Stored(a', l', copied) =>
        match PushAll(a', l', entries[1..])
        case AllBroken => AllBroken
        case AllDone(final, list, more) => AllDone(final, list, copied + more)
  }

  ghost predicate ValidEntries(entries: seq<Entry>) {
    forall i :: 0 <= i < |entries| ==> ValidEntry(entries[i])
  }

  /** A list that cannot grow stays as it is, whatever else is pushed. */
  lemma {:induction false} FullStaysFull(a: BA.Arena, l: List, entries: seq<Entry>)
    requires Fits(a, l) && NoRoom(a, l) && ValidEntries(entries)
    ensures PushAll(a, l, entries) == AllDone(a, l, 0)
    decreases |entries|
  {
    if entries != [] {
      PushAppends(a, l, entries[0]);
      FullStaysFull(a, l, entries[1..]);
    }
  }

  /** The final list is the old one followed by the first entries, in order, and it misses entries only
      if there is no room for the next doubling. */
  ghost predicate Extends(a: BA.Arena, l: List, a': BA.Arena, l': List, entries: seq<Entry>)
    requires Fits(a, l)
  {
    && Fits(a', l') && l.count <= l'.count <= l.count + |entries|
    && Contents(a', l')[..l.count] == Contents(a, l)
    && (forall i :: 0 <= i < l'.count - l.count ==> Matches(Contents(a', l')[l.count + i], entries[i]))
    && (l'.count < l.count + |entries| ==> NoRoom(a', l'))
  }

  lemma {:induction false} ExtendsStep(a: BA.Arena, l: List, o: Outcome, a': BA.Arena, l': List, entries: seq<Entry>)
    requires Fits(a, l) && entries != [] && Appended(a, l, entries[0], o)
    requires Extends(o.arena, o.list, a', l', entries[1..])
    ensures Extends(a, l, a', l', entries)
  {
    var final := Contents(a', l');
    assert final[..l.count] == final[..l.count + 1][..l.count];
    forall i | 0 <= i < l'.count - l.count ensures Matches(final[l.count + i], entries[i]) {
      if i == 0 {
        assert final[l.count] == final[..l.count + 1][l.count];
      } else {
        assert Matches(final[l.count + 1 + (i - 1)], entries[1..][i - 1]);
      }
    }
  }

  lemma {:induction false} ExtendsByNothing(a: BA.Arena, l: List, entries: seq<Entry>)
    requires Fits(a, l) && (entries != [] ==> NoRoom(a, l))
    ensures Extends(a, l, a, l, entries)
  {
    assert Contents(a, l)[..l.count] == Contents(a, l);
  }

  /** The loop, one push at a time. */
  lemma {:induction false} PushAllUnfolds(a: BA.Arena, l: List, entries: seq<Entry>, o: Outcome, rest: All)
    requires a.Mapped() && ValidEntries(entries) && entries != [] && o == Push(a, l, entries[0]) && o.Stored?
    requires rest == PushAll(o.arena, o.list, entries[1..]) && rest.AllDone?
    ensures PushAll(a, l, entries) == AllDone(rest.arena, rest.list, o.copied + rest.copied)
  {
  }

  /** Prefix semantics over every run of pushes; no call breaks. */
  lemma {:induction false} PushAllExtends(a: BA.Arena, l: List, entries: seq<Entry>)
    requires Fits(a, l) && ValidEntries(entries)
    ensures var r := PushAll(a, l, entries);
      r.AllDone? && Extends(a, l, r.arena, r.list, entries)
    decreases |entries|
  {
    if entries == [] {
      ExtendsByNothing(a, l, entries);
    } else if NoRoom(a, l) {
      FullStaysFull(a, l, entries);
      ExtendsByNothing(a, l, entries);
    } else {
      PushAppends(a, l, entries[0]);
      var o := Push(a, l, entries[0]);
      PushAllExtends(o.arena, o.list, entries[1..]);
      var rest := PushAll(o.arena, o.list, entries[1..]);
      ExtendsStep(a, l, o, rest.arena, rest.list, entries);
      PushAllUnfolds(a, l, entries, o, rest);
    }
  }

  /** Everyone else's bytes survive any number of pushes. */
  lemma {:induction false} PushAllKeepsOthers(a: BA.Arena, l: List, entries: seq<Entry>)
    requires Fits(a, l) && ValidEntries(entries)
    ensures var r := PushAll(a, l, entries); r.AllDone? && KeepsOthers(a, l, r.arena)
    decreases |entries|
  {
    if entries != [] {
      if NoRoom(a, l) {
        FullStaysFull(a, l, entries);
      } else {
        PushAppends(a, l, entries[0]);
        var o := Push(a, l, entries[0]);
        PushAllKeepsOthers(o.arena, o.list, entries[1..]);
        PushAllUnfolds(a, l, entries, o, PushAll(o.arena, o.list, entries[1..]));
      }
    }
  }

  // ---------------------------------------------------------------------------------------------
  // Exact account

  /** A reachable capacity: zero, or eight doubled some number of times. */
  ghost predicate IsCapacity(c: nat) {
    c == 0 || exists k: nat :: c == 8 * Pow2(k)
  }

  /** Copies and bytes taken by a list that started empty. */
  ghost predicate Balanced(l: List, copied: int, taken: int) {
    && IsCapacity(l.capacity)
    && copied == (if l.capacity == 0 then 0 else l.capacity - 8)
    && taken == (if l.capacity == 0 then 0 else (2 * l.capacity - 8) * RECORD_SIZE)
    && (l.capacity > 8 ==> l.capacity < 2 * l.count)
  }

  /** Blocks start where the position is: always as written, and at aligned positions if repaired. */
  predicate Snug(a: BA.Arena) {
    a.form == AsWritten || a.cur % ARENA_ALIGN == 0
  }

  lemma {:induction false} SnugStart(a: BA.Arena)
    requires Snug(a)
    ensures AH.NextStart(a.form, a.cur) == a.cur
  {
    RoundUpClosed(a.cur, ARENA_ALIGN);
  }

  lemma {:induction false} SnugAfter(a: BA.Arena, a': BA.Arena, n: nat)
    requires Snug(a) && a'.form == a.form && a'.cur == a.cur + RECORD_SIZE * n
    ensures Snug(a')
  {
    if a.form == Repaired {
      RecordsAligned(a.cur, n);
    }
  }

  lemma {:induction false} RecordsAligned(cur: nat, n: nat)
    requires cur % ARENA_ALIGN == 0
    ensures (cur + RECORD_SIZE * n) % ARENA_ALIGN == 0
  {
    if n > 0 {
      RecordsAligned(cur, n - 1);
      assert cur + RECORD_SIZE * n == cur + RECORD_SIZE * (n - 1) + RECORD_SIZE;
    }
  }

  lemma {:induction false} DoubledCapacity(c: nat)
    requires IsCapacity(c)
    ensures IsCapacity(if c != 0 then c * 2 else 8)
  {
    if c == 0 {
      assert 8 == 8 * Pow2(0);
    } else {
      var k: nat :| c == 8 * Pow2(k);
      assert c * 2 == 8 * Pow2(k + 1);
    }
  }

  lemma {:induction false} PushBalanced(a: BA.Arena, l: List, e: Entry, copied: int, taken: int)
    requires Fits(a, l) && ValidEntry(e) && Snug(a) && Balanced(l, copied, taken) && !NoRoom(a, l)
    ensures var o := Push(a, l, e);
      && o.Stored? && Fits(o.arena, o.list) && Snug(o.arena)
      && Balanced(o.list, copied + o.copied, taken + (o.arena.cur - a.cur))
  {
    PushAppends(a, l, e);
    var o := Push(a, l, e);
    if l.count == l.capacity {
      SnugStart(a);
      SnugAfter(a, o.arena, o.list.capacity);
      DoubledCapacity(l.capacity);
    } else {
      SnugAfter(a, o.arena, 0);
    }
  }

  lemma {:induction false} BalanceAdds(rest: All, o: Outcome, cur: int, copied: int, taken: int)
    requires o.Stored? && rest.AllDone?
    requires Balanced(rest.list, copied + o.copied + rest.copied,
                      taken + (o.arena.cur - cur) + (rest.arena.cur - o.arena.cur))
    ensures Balanced(rest.list, copied + (o.copied + rest.copied), taken + (rest.arena.cur - cur))
  {
  }

  lemma {:induction false} PushAllBalanced(a: BA.Arena, l: List, entries: seq<Entry>, copied: int, taken: int)
    requires Fits(a, l) && ValidEntries(entries) && Snug(a) && Balanced(l, copied, taken)
    ensures var r := PushAll(a, l, entries);
      r.AllDone? && Balanced(r.list, copied + r.copied, taken + (r.arena.cur - a.cur))
    decreases |entries|
  {
    if entries != [] {
      if NoRoom(a, l) {
        FullStaysFull(a, l, entries);
      } else {
        PushBalanced(a, l, entries[0], copied, taken);
        var o := Push(a, l, entries[0]);
        PushAllBalanced(o.arena, o.list, entries[1..], copied + o.copied, taken + (o.arena.cur - a.cur));
        var rest := PushAll(o.arena, o.list, entries[1..]);
        BalanceAdds(rest, o, a.cur, copied, taken);
        PushAllUnfolds(a, l, entries, o, rest);
      }
    }
  }

  /** The account of any run that starts with an empty list: the capacity is 0 or 8 * 2^k, the copies
      are the capacity less 8, fewer than twice the stored records, and the bytes taken are exactly
      those of all arrays together. */
  lemma {:induction false} GrowthAccount(a: BA.Arena, entries: seq<Entry>)
    requires a.Mapped() && a.cur <= a.capacity && Snug(a) && ValidEntries(entries)
    ensures var r := PushAll(a, List(None, 0, 0), entries);
      && r.AllDone? && IsCapacity(r.list.capacity)
      && (r.list.capacity > 0 ==>
            && r.copied == r.list.capacity - 8
            && r.arena.cur == a.cur + (2 * r.list.capacity - 8) * RECORD_SIZE)
      && (r.list.capacity == 0 ==> r.copied == 0 && r.arena.cur == a.cur)
      && (r.list.count > 8 ==> r.copied < 2 * r.list.count)
  {
    PushAllBalanced(a, List(None, 0, 0), entries, 0, 0);
    PushAllExtends(a, List(None, 0, 0), entries);
  }
}
