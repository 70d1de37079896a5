/** The single-pass line parser `parse_proc_files` of base/base_parse.c.  Its buffer and its entries are
    blocks of an arena, whatever that memory held before. */
module ProcFile {
  import opened Bytes
  import opened BaseMem
  import BA = BaseArena
  import AH = ArenaHeap
  import AR = ArenaRuns
  import opened MemArena
  import opened ProcText

  /** `Null` for an empty read; `Crash` where the code runs outside its memory: it uses a block that the
      arena refused, copies 2^64 - 1 bytes for a line that starts with a colon, or stores an entry
      beyond the array of 256.  A file has its number of entries and where they are. */
  datatype Result = Null | Crash | File(count: nat, entries: Option<nat>)

  const ENTRY: nat := 2 * FIELD

  /** `256 * sizeof(proc_entry)`, `KiB(4)` and `sizeof(proc_file)` */
  const TABLE: nat := ENTRY * MAX_ENTRIES
  const BUFFER: nat := 4096
  const FILE_SIZE: nat := 16

  /** Copy text into a field that the arena cleared, and put the final NUL. */
  method StoreField(mem: array<byte>, at: nat, text: seq<byte>, nul: nat)
    requires at + FIELD <= mem.Length && |text| <= nul < FIELD
    requires forall i :: at <= i < at + FIELD ==> mem[i] == 0
    modifies mem
    ensures mem[..] == Store(old(mem[..]), at, Padded(text))
  {
    forall i | 0 <= i < |text| {
      mem[at + i] := text[i];
    }
    mem[at + nul] := 0;
  }

  lemma {:induction false} TwoStores(mem: seq<byte>, at: nat, v: seq<byte>, k: seq<byte>, mid: nat)
    requires mid == at + |v| && mid + |k| <= |mem|
    ensures Store(Store(mem, at, v), mid, k) == Store(mem, at, v + k)
  {
    var once := Store(mem, at, v);
    forall i | 0 <= i < |mem| ensures Store(once, mid, k)[i] == Store(mem, at, v + k)[i] {
      StoredByte(once, mid, k, i);
      StoredByte(mem, at, v, i);
      StoredByte(mem, at, v + k, i);
    }
  }

  /** Text in a field that is zero behind it. */
  function Padded(text: seq<byte>): (r: seq<byte>)
    requires |text| <= FIELD
    ensures |r| == FIELD
  {
    text + Zeros(FIELD - |text|)
  }

  /** Lines 126-130: copy a value and a key into the entry at `at`.  The key has its NUL one byte behind
      the end of the text. */
  method StoreEntry(mem: array<byte>, at: nat, key: seq<byte>, value: seq<byte>)
    requires at + ENTRY <= mem.Length && |key| + 1 < FIELD && |value| < FIELD
    requires forall i :: at <= i < at + ENTRY ==> mem[i] == 0
    modifies mem
    ensures mem[..] == Store(old(mem[..]), at, Padded(value) + Padded(key))
  {
    StoreField(mem, at, value, |value|);
    StoreField(mem, at + FIELD, key, |key| + 1);
    TwoStores(old(mem[..]), at, Padded(value), Padded(key), at + FIELD);
  }

  /** Lines 114-118. */
  method SkipBlanksFrom(buffer: seq<byte>, from: nat, to: nat) returns (valStart: nat)
    requires from <= to <= |buffer|
    ensures valStart == SkipBlanks(buffer, from, to)
  {
    valStart := from;
    while valStart < to && (buffer[valStart] == SPACE || buffer[valStart] == TAB)
      invariant from <= valStart <= to
      invariant SkipBlanks(buffer, from, to) == SkipBlanks(buffer, valStart, to)
    {
      valStart := valStart + 1;
    }
  }

  /** A line inside the buffer, cut at its first colon. */
  lemma {:induction false} SplitAt(b: seq<byte>, s: nat, e: nat, c: nat)
    requires s <= c <= e <= |b| && (forall k :: s <= k < c ==> b[k] != COLON) && (c < e ==> b[c] == COLON)
    ensures Split(b[s..e]) == if c == e then None else Some(Pair(b[s..c], b[SkipBlanks(b, c + 1, e)..e]))
  {
    var line := b[s..e];
    ColonInLine(b, s, e, c, line);
    if c < e {
      var v := SkipBlanks(b, c + 1, e);
      var c', i', v' := c - s, c + 1 - s, v - s;
      BlanksInLine(b, s, e, c + 1, v, line, i', v');
      LineParts(b, s, e, c, v, c', v');
      SplitIs(line, c', i', v');
    }
  }

  lemma {:induction false} ColonInLine(b: seq<byte>, s: nat, e: nat, c: nat, line: seq<byte>)
    requires s <= c <= e <= |b| && (forall k :: s <= k < c ==> b[k] != COLON) && (c < e ==> b[c] == COLON)
    requires line == b[s..e]
    ensures FirstColon(line, 0, |line|) == c - s
  {
    ColonUnique(line, 0, |line|, c - s);
  }

  lemma {:induction false} BlanksInLine(b: seq<byte>, s: nat, e: nat, i: nat, v: nat, line: seq<byte>,
        i': nat, v': nat)
    requires s <= i <= e <= |b| && line == b[s..e] && v == SkipBlanks(b, i, e) && i' == i - s && v' == v - s
    ensures SkipBlanks(line, i', |line|) == v'
  {
    BlanksUnique(line, i', |line|, v');
  }

  lemma {:induction false} SplitIs(line: seq<byte>, c: nat, i: nat, v: nat)
    requires c < |line| && FirstColon(line, 0, |line|) == c && i == c + 1 && SkipBlanks(line, i, |line|) == v
    ensures Split(line) == Some(Pair(line[..c], line[v..]))
  {
  }

  lemma {:induction false} LineParts(b: seq<byte>, s: nat, e: nat, c: nat, v: nat, c': nat, v': nat)
    requires s <= c <= e <= |b| && s <= v <= e && c' == c - s && v' == v - s
    ensures b[s..e][..c'] == b[s..c] && b[s..e][v'..] == b[v..e]
  {
  }

  lemma {:induction false} ColonUnique(b: seq<byte>, i: nat, j: nat, c: nat)
    requires i <= c <= j <= |b| && (forall k :: i <= k < c ==> b[k] != COLON) && (c < j ==> b[c] == COLON)
    ensures FirstColon(b, i, j) == c
  {
  }

  lemma {:induction false} BlanksUnique(b: seq<byte>, i: nat, j: nat, v: nat)
    requires i <= v <= j <= |b| && (forall k :: i <= k < v ==> IsBlank(b[k])) && (v < j ==> !IsBlank(b[v]))
    ensures SkipBlanks(b, i, j) == v
  {
  }

  lemma {:induction false} LineEndUnique(b: seq<byte>, i: nat, e: nat)
    requires i <= e <= |b| && (forall k :: i <= k < e ==> b[k] != NEWLINE) && (e < |b| ==> b[e] == NEWLINE)
    ensures LineEnd(b, i) == e
  {
  }

  /** The pairs from a line start on, when its line ends at `e` and has its first colon at `c`. */
  lemma {:induction false} NextLine(b: seq<byte>, s: nat, e: nat, c: nat)
    requires s <= c <= e < |b| && b[e] == NEWLINE && (forall k :: s <= k < e ==> b[k] != NEWLINE)
    requires (forall k :: s <= k < c ==> b[k] != COLON) && (c < e ==> b[c] == COLON)
    ensures Pairs(Lines(b, s)) ==
      (if c == e then [] else [Pair(b[s..c], b[SkipBlanks(b, c + 1, e)..e])]) + Pairs(Lines(b, e + 1))
  {
    LineEndUnique(b, s, e);
    SplitAt(b, s, e, c);
    var rest := Lines(b, e + 1);
    assert Lines(b, s) == [b[s..e]] + rest;
    assert ([b[s..e]] + rest)[1..] == rest;
  }

  /** The same for a line with a colon, with the value at `v` and the next line at `next`. */
  lemma {:induction false} NextPair(b: seq<byte>, s: nat, e: nat, c: nat, v: nat, next: nat)
    requires s <= c < e < |b| && b[e] == NEWLINE && (forall k :: s <= k < e ==> b[k] != NEWLINE)
    requires (forall k :: s <= k < c ==> b[k] != COLON) && b[c] == COLON
    requires v == SkipBlanks(b, c + 1, e) && next == e + 1
    ensures Pairs(Lines(b, s)) == [Pair(b[s..c], b[v..e])] + Pairs(Lines(b, next))
  {
    NextLine(b, s, e, c);
  }

  /** Parsed so far: the pairs of the complete lines before `lineStart`. */
  ghost predicate Progress(b: seq<byte>, lineStart: nat, done: seq<Pair>) {
    && lineStart <= |b| && Parsable(done)
    && Pairs(Lines(b, 0)) == done + Pairs(Lines(b, lineStart))
  }

  /** The array of entries after `done`: what is not used yet is zero. */
  function Table(done: seq<Pair>): (r: seq<byte>)
    requires Parsable(done)
    ensures |r| == TABLE
  {
    Flat(done) + Zeros(TABLE - ENTRY * |done|)
  }

  /** The memory after the entries `done`, when it was `before` at the start of the scan. */
  ghost predicate Holding(mem: seq<byte>, before: seq<byte>, entries: Option<nat>, done: seq<Pair>) {
    && Parsable(done)
    && match entries
       case None => done == [] && mem == before
       case Some(at) => at + TABLE <= |before| && mem == Store(before, at, Table(done))
  }

  lemma {:induction false} StoreWithin(mem: seq<byte>, at: nat, x: seq<byte>, i: nat, y: seq<byte>, slot: nat)
    requires at + |x| <= |mem| && i + |y| <= |x| && slot == at + i
    ensures Store(Store(mem, at, x), slot, y) == Store(mem, at, Store(x, i, y))
  {
    var once, inner := Store(mem, at, x), Store(x, i, y);
    forall k | 0 <= k < |mem| ensures Store(once, slot, y)[k] == Store(mem, at, inner)[k] {
      StoredByte(once, slot, y, k);
      StoredByte(mem, at, x, k);
      StoredByte(mem, at, inner, k);
      if at <= k < at + |x| {
        StoredByte(x, i, y, k - at);
      }
    }
  }

  lemma {:induction false} TableMore(done: seq<Pair>, p: Pair, i: nat, bytes: seq<byte>)
    requires Parsable(done) && |done| < MAX_ENTRIES && p.key != [] && i == ENTRY * |done| && bytes == EntryBytes(p)
    ensures Store(Table(done), i, bytes) == Table(done + [p])
  {
    assert (done + [p])[..|done|] == done;
    FillZeros(Flat(done), TABLE - ENTRY * |done|, EntryBytes(p));
  }

  lemma {:induction false} FillZeros(front: seq<byte>, n: nat, x: seq<byte>)
    requires |x| <= n
    ensures Store(front + Zeros(n), |front|, x) == (front + x) + Zeros(n - |x|)
  {
  }

  lemma {:induction false} HoldMore(mem: seq<byte>, before: seq<byte>, at: nat, done: seq<Pair>, p: Pair,
        slot: nat, bytes: seq<byte>)
    requires Holding(mem, before, Some(at), done) && |done| < MAX_ENTRIES && p.key != []
    requires slot == at + ENTRY * |done| && bytes == EntryBytes(p)
    ensures Holding(Store(mem, slot, bytes), before, Some(at), done + [p])
  {
    var i := ENTRY * |done|;
    TableMore(done, p, i, bytes);
    StoreWithin(before, at, Table(done), i, bytes, slot);
  }

  /** The pair of a line that ends at `e`, starts at `s` and has its first colon at `c`. */
  function PairAt(b: seq<byte>, s: nat, c: nat, e: nat): Pair
    requires s <= c < e <= |b|
  {
    Pair(b[s..c], b[SkipBlanks(b, c + 1, e)..e])
  }

  lemma {:induction false} FieldsOfPair(b: seq<byte>, s: nat, c: nat, e: nat, valStart: nat,
        key: seq<byte>, value: seq<byte>)
    requires s < c < e <= |b| && valStart == SkipBlanks(b, c + 1, e)
    requires key == b[s..c][..Min(c - s, FIELD - 1) - 1] && value == b[valStart..e][..Min(e - valStart, FIELD - 1)]
    ensures |key| + 1 < FIELD && |value| < FIELD && EntryBytes(PairAt(b, s, c, e)) == Padded(value) + Padded(key)
  {
  }

  lemma {:induction false} FreshSlot(mem: seq<byte>, before: seq<byte>, at: nat, done: seq<Pair>, slot: nat)
    requires Holding(mem, before, Some(at), done) && |done| < MAX_ENTRIES && slot == at + ENTRY * |done|
    ensures slot + ENTRY <= |mem|
    ensures forall i :: slot <= i < slot + ENTRY ==> mem[i] == 0
  {
    var table := mem[at..at + TABLE];
    assert table == Table(done);
    forall i | slot <= i < slot + ENTRY ensures mem[i] == 0 {
      assert mem[i] == table[i - at];
    }
  }

  /** Lines 108-127: the bytes that are copied for a line with text before its colon. */
  method CutLine(buffer: seq<byte>, lineStart: nat, delim: nat, index: nat) returns (key: seq<byte>, value: seq<byte>)
    requires lineStart < delim < index <= |buffer|
    ensures |key| + 1 < FIELD && |value| < FIELD
    ensures EntryBytes(PairAt(buffer, lineStart, delim, index)) == Padded(value) + Padded(key)
  {
    var keyLen := delim - lineStart;
    if keyLen >= FIELD {
      keyLen := FIELD - 1;
    }
    var valStart := SkipBlanksFrom(buffer, delim + 1, index);
    var valLen := index - valStart;
    if valLen >= FIELD {
      valLen := FIELD - 1;
    }
    key, value := buffer[lineStart..delim][..keyLen - 1], buffer[valStart..index][..valLen];
    FieldsOfPair(buffer, lineStart, delim, index, valStart, key, value);
  }

  /** Lines 106-134: a line with a colon ends.  `crash` reports the ways out of memory. */
  method FinishLine(buffer: seq<byte>, mem: array<byte>, entries: Option<nat>,
                    lineStart: nat, delim: nat, index: nat, entryIndex: nat,
                    ghost before: seq<byte>, ghost done: seq<Pair>) returns (crash: bool)
    requires lineStart <= delim < index <= |buffer|
    requires entryIndex == |done| && Holding(mem[..], before, entries, done)
    modifies mem
    ensures crash <==> lineStart == delim || entryIndex == MAX_ENTRIES || entries.None?
    ensures crash ==> mem[..] == old(mem[..])
    ensures !crash ==> Holding(mem[..], before, entries, done + [PairAt(buffer, lineStart, delim, index)])
  {
    if lineStart == delim || entryIndex == MAX_ENTRIES || entries.None? {
      return true;
    }
    var key, value := CutLine(buffer, lineStart, delim, index);
    var slot := entries.value + ENTRY * entryIndex;
    FreshSlot(mem[..], before, entries.value, done, slot);
    HoldMore(mem[..], before, entries.value, done, PairAt(buffer, lineStart, delim, index),
             slot, Padded(value) + Padded(key));
    StoreEntry(mem, slot, key, value);
    crash := false;
  }

  /** Where the scan of the current line stands. */
  ghost predicate InLine(b: seq<byte>, lineStart: nat, delim: Option<nat>, index: nat) {
    && lineStart <= index <= |b|
    && (forall k :: lineStart <= k < index ==> b[k] != NEWLINE)
    && match delim
       case None => forall k :: lineStart <= k < index ==> b[k] != COLON
       case Some(d) => lineStart <= d < index && b[d] == COLON && forall k :: lineStart <= k < d ==> b[k] != COLON
  }

  lemma {:induction false} PlainLine(b: seq<byte>, lineStart: nat, index: nat, next: nat, done: seq<Pair>)
    requires InLine(b, lineStart, None, index) && index < |b| && b[index] == NEWLINE && Progress(b, lineStart, done)
    requires next == index + 1
    ensures Progress(b, next, done)
  {
    NextLine(b, lineStart, index, index);
    assert [] + Pairs(Lines(b, index + 1)) == Pairs(Lines(b, index + 1));
  }

  lemma {:induction false} PairLine(b: seq<byte>, lineStart: nat, d: nat, index: nat, next: nat, done: seq<Pair>)
    requires InLine(b, lineStart, Some(d), index) && index < |b| && b[index] == NEWLINE && Progress(b, lineStart, done)
    requires next == index + 1
    ensures |done| < |Pairs(Lines(b, 0))| && Pairs(Lines(b, 0))[|done|] == PairAt(b, lineStart, d, index)
    ensures lineStart < d && |done| < MAX_ENTRIES ==> Progress(b, next, done + [PairAt(b, lineStart, d, index)])
  {
    var p := PairAt(b, lineStart, d, index);
    var rest := Pairs(Lines(b, index + 1));
    NextLine(b, lineStart, index, d);
    assert done + ([p] + rest) == (done + [p]) + rest;
  }

  lemma {:induction false} LastLine(b: seq<byte>, lineStart: nat, delim: Option<nat>, done: seq<Pair>)
    requires InLine(b, lineStart, delim, |b|) && Progress(b, lineStart, done)
    ensures Pairs(Lines(b, 0)) == done
  {
    LineEndUnique(b, lineStart, |b|);
  }

  /** One character that does not end the line. */
  lemma {:induction false} NextCharacter(b: seq<byte>, lineStart: nat, delim: Option<nat>, index: nat)
    requires InLine(b, lineStart, delim, index) && index < |b| && b[index] != NEWLINE
    ensures InLine(b, lineStart, if b[index] == COLON && delim.None? then Some(index) else delim, index + 1)
  {
  }

  lemma {:induction false} StartOfText(b: seq<byte>)
    ensures Progress(b, 0, [])
  {
    assert [] + Pairs(Lines(b, 0)) == Pairs(Lines(b, 0));
  }

  lemma {:induction false} StartOfTable(mem: seq<byte>, entries: Option<nat>)
    requires entries.Some? ==>
      entries.value + TABLE <= |mem| && mem[entries.value..entries.value + TABLE] == Zeros(TABLE)
    ensures Holding(mem, mem, entries, [])
  {
    assert Table([]) == Zeros(TABLE);
    if entries.Some? {
      assert mem == Store(mem, entries.value, mem[entries.value..entries.value + TABLE]);
    }
  }

  /** The pairs that the parser survives: with a refused array, only none at all. */
  ghost predicate Storable(pairs: seq<Pair>, entries: Option<nat>) {
    Parsable(pairs) && (pairs == [] || entries.Some?)
  }

  lemma {:induction false} NotStorable(pairs: seq<Pair>, entries: Option<nat>, i: nat)
    requires i < |pairs| && (pairs[i].key == [] || i >= MAX_ENTRIES || entries.None?)
    ensures !Storable(pairs, entries)
  {
  }

  /** Lines 104-138: a newline. */
  method EndLine(buffer: seq<byte>, mem: array<byte>, entries: Option<nat>,
                 lineStart: nat, delim: Option<nat>, index: nat, entryIndex: nat,
                 ghost before: seq<byte>, ghost done: seq<Pair>, ghost next: nat)
    returns (crash: bool, entryIndex': nat, ghost done': seq<Pair>)
    requires index < |buffer| && buffer[index] == NEWLINE && next == index + 1
    requires InLine(buffer, lineStart, delim, index) && Progress(buffer, lineStart, done)
    requires entryIndex == |done| && Holding(mem[..], before, entries, done)
    modifies mem
    ensures crash ==> !Storable(Pairs(Lines(buffer, 0)), entries)
    ensures !crash ==> entryIndex' == |done'| && Progress(buffer, next, done')
    ensures Holding(mem[..], before, entries, done')
  {
    crash, entryIndex', done' := false, entryIndex, done;
    if delim.Some? {
      PairLine(buffer, lineStart, delim.value, index, next, done);
      crash := FinishLine(buffer, mem, entries, lineStart, delim.value, index, entryIndex, before, done);
      if crash {
        NotStorable(Pairs(Lines(buffer, 0)), entries, |done|);
      } else {
        done' := done + [PairAt(buffer, lineStart, delim.value, index)];
        entryIndex' := entryIndex + 1;
      }
    } else {
      PlainLine(buffer, lineStart, index, next, done);
    }
  }

  lemma {:induction false} HoldingStorable(mem: seq<byte>, before: seq<byte>, entries: Option<nat>, done: seq<Pair>)
    requires Holding(mem, before, entries, done)
    ensures Storable(done, entries)
  {
  }

  /** Lines 96-138: one character. */
  method Advance(buffer: seq<byte>, mem: array<byte>, entries: Option<nat>,
                 lineStart: nat, delim: Option<nat>, index: nat, entryIndex: nat,
                 ghost before: seq<byte>, ghost done: seq<Pair>)
    returns (crash: bool, lineStart': nat, delim': Option<nat>, entryIndex': nat, ghost done': seq<Pair>)
    requires index < |buffer|
    requires InLine(buffer, lineStart, delim, index) && Progress(buffer, lineStart, done)
    requires entryIndex == |done| && Holding(mem[..], before, entries, done)
    modifies mem
    ensures crash ==> !Storable(Pairs(Lines(buffer, 0)), entries)
    ensures !crash ==> entryIndex' == |done'| && InLine(buffer, lineStart', delim', index + 1)
    ensures !crash ==> Progress(buffer, lineStart', done')
    ensures Holding(mem[..], before, entries, done')
  {
    crash, lineStart', delim', entryIndex', done' := false, lineStart, delim, entryIndex, done;
    if buffer[index] == NEWLINE {
      lineStart' := index + 1;
      delim' := None;
      crash, entryIndex', done' :=
        EndLine(buffer, mem, entries, lineStart, delim, index, entryIndex, before, done, lineStart');
    } else {
      NextCharacter(buffer, lineStart, delim, index);
      if buffer[index] == COLON && delim.None? {
        delim' := Some(index);
      }
    }
  }

  /** The loop of lines 94-139 over a cleared array, or over none. */
  method ScanLines(buffer: seq<byte>, mem: array<byte>, entries: Option<nat>)
    returns (crash: bool, entryIndex: nat, ghost done: seq<Pair>)
    requires Holding(mem[..], mem[..], entries, [])
    modifies mem
    ensures crash <==> !Storable(Pairs(Lines(buffer, 0)), entries)
    ensures !crash ==> entryIndex == |done| && done == Pairs(Lines(buffer, 0))
    ensures Holding(mem[..], old(mem[..]), entries, done)
  {
    var lineStart := 0;
    var delim: Option<nat> := None;
    crash, entryIndex, done := false, 0, [];
    StartOfText(buffer);
    for index := 0 to |buffer|
      invariant InLine(buffer, lineStart, delim, index)
      invariant Progress(buffer, lineStart, done)
      invariant entryIndex == |done| && Holding(mem[..], old(mem[..]), entries, done)
      invariant !crash
    {
      crash, lineStart, delim, entryIndex, done :=
        Advance(buffer, mem, entries, lineStart, delim, index, entryIndex, old(mem[..]), done);
      if crash {
        return;
      }
    }
    LastLine(buffer, lineStart, delim, done);
    HoldingStorable(mem[..], old(mem[..]), entries, done);
  }

  // ---------------------------------------------------------------------------------------------
  // The blocks in the arena

  /** What one `read` delivers of a file. */
  function Read(file: seq<byte>): (text: seq<byte>)
    ensures |text| == Min(|file|, 4096) && text <= file
  {
    file[..Min(|file|, BUFFER)]
  }

  /** The first `n` bytes did not change. */
  ghost predicate Keeps(before: seq<byte>, after: seq<byte>, n: nat) {
    n <= |before| == |after| && after[..n] == before[..n]
  }

  lemma {:induction false} StoreKeeps(mem: seq<byte>, at: nat, data: seq<byte>, n: nat)
    requires n <= at && at + |data| <= |mem|
    ensures Keeps(mem, Store(mem, at, data), n)
  {
  }

  lemma {:induction false} KeepsOn(before: seq<byte>, mem: seq<byte>, after: seq<byte>, n: nat, m: nat)
    requires Keeps(before, mem, n) && Keeps(mem, after, m) && n <= m
    ensures Keeps(before, after, n)
  {
    assert after[..n] == after[..m][..n] && mem[..n] == mem[..m][..n];
  }

  /** `PushArray` and `PushStruct` for the three sizes used here. */
  method AllocBlock(size: u64, arena: ArenaAllocator) returns (pointer: Option<nat>)
    requires arena.Valid() && arena.cur <= arena.capacity && size <= TABLE
    modifies arena`cur, arena`prev, arena.mem
    ensures arena.Valid() && arena.capacity == old(arena.capacity)
    ensures old(arena.cur) <= arena.cur <= arena.capacity
    ensures var at := AH.NextStart(arena.form, old(arena.cur));
      if at + size <= arena.capacity then
        && pointer == Some(at) && arena.cur == at + size
        && arena.mem[..][at..at + size] == Zeros(size)
      else
        pointer == None && arena.cur == old(arena.cur)
    ensures Keeps(old(arena.mem[..]), arena.mem[..], old(arena.cur))
  {
    var at := AH.NextStart(arena.form, arena.cur);
    AR.AllocFits(arena.View(), size, at);
    if at + size <= arena.capacity {
      StoreKeeps(arena.mem[..], at, Zeros(size), arena.cur);
    }
    var fault;
    pointer, fault := arena.Alloc(size);
  }

  /** The array of entries behind a file record that starts at `file`, if there is room for it. */
  function TableAt(form: Form, file: nat, capacity: nat): Option<nat> {
    var at := AH.NextStart(form, file + FILE_SIZE);
    if at + TABLE <= capacity then Some(at) else None
  }

  /** Lines 91-92, with the text already in the buffer that ends at `end`. */
  method PlaceFile(end: nat, arena: ArenaAllocator) returns (file: Option<nat>, entries: Option<nat>)
    requires arena.Valid() && arena.cur == end <= arena.capacity
    modifies arena`cur, arena`prev, arena.mem
    ensures arena.Valid() && arena.capacity == old(arena.capacity)
    ensures file.Some? <==> AH.NextStart(arena.form, end) + FILE_SIZE <= arena.capacity
    ensures file.Some? ==> entries == TableAt(arena.form, AH.NextStart(arena.form, end), arena.capacity)
    ensures entries.Some? ==> end <= entries.value
    ensures Holding(arena.mem[..], arena.mem[..], entries, [])
    ensures Keeps(old(arena.mem[..]), arena.mem[..], end)
  {
    file := AllocBlock(FILE_SIZE, arena);
    ghost var mid, cur := arena.mem[..], arena.cur;
    entries := AllocBlock(TABLE, arena);
    KeepsOn(old(arena.mem[..]), mid, arena.mem[..], end, cur);
    StartOfTable(arena.mem[..], entries);
  }

  /** The scan keeps everything below the array, so also the buffer that it reads. */
  lemma {:induction false} HoldingKeeps(mem: seq<byte>, before: seq<byte>, entries: Option<nat>,
        done: seq<Pair>, n: nat)
    requires Holding(mem, before, entries, done) && n <= |before| && (entries.Some? ==> n <= entries.value)
    ensures Keeps(before, mem, n)
  {
    if entries.Some? {
      StoreKeeps(before, entries.value, Table(done), n);
    }
  }

  /** What the parser makes of a text in a buffer that ends at `end`.  It goes wrong exactly when there is
      no room for the file record, a line starts with its colon, there are more than 256 pairs, or
      there are pairs and no room for the array. */
  ghost function ParsedFrom(form: Form, end: nat, capacity: nat, text: seq<byte>): Result {
    var file, pairs := AH.NextStart(form, end), Pairs(Lines(text, 0));
    var entries := TableAt(form, file, capacity);
    if file + FILE_SIZE <= capacity && Storable(pairs, entries) then File(|pairs|, entries) else Crash
  }

  /** And of a file: also without room for the buffer it goes wrong. */
  ghost function ParsedFile(form: Form, cur: nat, capacity: nat, file: seq<byte>): Result {
    var end := AH.NextStart(form, cur) + BUFFER;
    if file == [] then Null
    else if end > capacity then Crash
    else ParsedFrom(form, end, capacity, Read(file))
  }

  /** The same in numbers: 4096 bytes for the buffer, 16 for the file record and 8192 for the entries, each at
      the position or repaired at the next multiple of 16. */
  lemma {:induction false} ParsedExact(form: Form, cur: nat, capacity: nat, file: seq<byte>,
        buffer: nat, record: nat, table: nat)
    requires form == AsWritten ==> buffer == cur && record == buffer + 4096 && table == record + 16
    requires form == Repaired ==>
      buffer == RoundUp(cur, 16) && record == RoundUp(buffer + 4096, 16) && table == RoundUp(record + 16, 16)
    ensures var r, pairs := ParsedFile(form, cur, capacity, file), Pairs(Lines(Read(file), 0));
      && (r == Null <==> file == [])
      && (r == Crash <==> file != [] && (|| record + 16 > capacity
                                         || |pairs| > 256
                                         || (exists i :: 0 <= i < |pairs| && pairs[i].key == [])
                                         || (pairs != [] && table + 8192 > capacity)))
      && (r.File? ==> r.count == |pairs| && r.entries == if table + 8192 <= capacity then Some(table) else None)
  {
  }

  lemma {:induction false} LeftSlice(x: seq<byte>, y: seq<byte>, lo: nat, hi: nat)
    requires lo <= hi <= |x|
    ensures (x + y)[lo..hi] == x[lo..hi]
  {
  }

  lemma {:induction false} RightSlice(x: seq<byte>, y: seq<byte>, lo: nat, hi: nat)
    requires lo == |x| && hi == |x| + |y|
    ensures (x + y)[lo..hi] == y
  {
  }

  lemma {:induction false} FlatEntry(pairs: seq<Pair>, i: nat, lo: nat, hi: nat)
    requires i < |pairs| && (forall k :: 0 <= k < |pairs| ==> pairs[k].key != []) && lo == ENTRY * i && hi == lo + ENTRY
    ensures hi <= |Flat(pairs)| && Flat(pairs)[lo..hi] == EntryBytes(pairs[i])
  {
    var n := |pairs| - 1;
    var front, last := Flat(pairs[..n]), EntryBytes(pairs[n]);
    assert Flat(pairs) == front + last;
    if i < n {
      FlatEntry(pairs[..n], i, lo, hi);
      LeftSlice(front, last, lo, hi);
    } else {
      RightSlice(front, last, lo, hi);
    }
  }

  /** Entry `i` of the array starts at byte 32 * i. */
  lemma {:induction false} TableEntry(pairs: seq<Pair>, i: nat, lo: nat, hi: nat)
    requires Parsable(pairs) && lo == 32 * i && hi == lo + 32 && i < 256
    ensures |Table(pairs)| == 8192
    ensures Table(pairs)[lo..hi] == if i < |pairs| then EntryBytes(pairs[i]) else Zeros(32)
  {
    if i < |pairs| {
      FlatEntry(pairs, i, lo, hi);
      LeftSlice(Flat(pairs), Zeros(TABLE - ENTRY * |pairs|), lo, hi);
    }
  }

  /** The entries of a file are the pairs of its lines. */
  ghost predicate EntriesHold(mem: seq<byte>, r: Result, text: seq<byte>) {
    r.File? && r.entries.Some? ==>
      && Parsable(Pairs(Lines(text, 0))) && r.entries.value + TABLE <= |mem|
      && mem[r.entries.value..r.entries.value + TABLE] == Table(Pairs(Lines(text, 0)))
  }

  /** Lines 91-141: the file record, the array and the scan. */
  method ParseBuffer(end: nat, text: seq<byte>, arena: ArenaAllocator) returns (r: Result)
    requires arena.Valid() && arena.cur == end <= arena.capacity
    modifies arena`cur, arena`prev, arena.mem
    ensures arena.Valid() && arena.capacity == old(arena.capacity)
    ensures r == ParsedFrom(arena.form, end, arena.capacity, text)
    ensures EntriesHold(arena.mem[..], r, text)
    ensures Keeps(old(arena.mem[..]), arena.mem[..], end)
  {
    var file, entries := PlaceFile(end, arena);
    if file.None? {
      return Crash;
    }
    ghost var before := arena.mem[..];
    var crash, count;
    ghost var done;
    crash, count, done := ScanLines(text, arena.mem, entries);
    HoldingKeeps(arena.mem[..], before, entries, done, end);
    KeepsOn(old(arena.mem[..]), before, arena.mem[..], end, end);
    r := if crash then Crash else File(count, entries);
  }

  /** Lines 81-83: the buffer, and what `read` puts there. */
  method ReadFile(text: seq<byte>, arena: ArenaAllocator) returns (buf: Option<nat>)
    requires arena.Valid() && arena.cur <= arena.capacity && |text| <= BUFFER
    modifies arena`cur, arena`prev, arena.mem
    ensures arena.Valid() && arena.capacity == old(arena.capacity)
    ensures var at := AH.NextStart(arena.form, old(arena.cur));
      if at + BUFFER <= arena.capacity then
        && buf == Some(at) && old(arena.cur) <= arena.cur == at + BUFFER
        && arena.mem[..][at..at + |text|] == text
      else
        buf == None
    ensures Keeps(old(arena.mem[..]), arena.mem[..], old(arena.cur))
  {
    buf := AllocBlock(BUFFER, arena);
    if buf.Some? {
      ghost var mid := arena.mem[..];
      StoreKeeps(mid, buf.value, text, old(arena.cur));
      arena.Put(buf.value, text);
      KeepsOn(old(arena.mem[..]), mid, arena.mem[..], old(arena.cur), old(arena.cur));
    }
  }

  lemma {:induction false} KeepsSlice(before: seq<byte>, after: seq<byte>, n: nat, lo: nat, hi: nat)
    requires Keeps(before, after, n) && lo <= hi <= n
    ensures after[lo..hi] == before[lo..hi]
  {
    assert after[lo..hi] == after[..n][lo..hi] && before[lo..hi] == before[..n][lo..hi];
  }

  /** `parse_proc_files` from the `read` on.  For every file, every arena and every contents of its memory
      the single pass stores exactly the pairs of the lines that were read, the buffer still holds the
      text, and no byte that was in use changes. */
  method ParseProcFile(file: seq<byte>, arena: ArenaAllocator) returns (r: Result)
    requires arena.Valid() && arena.cur <= arena.capacity
    modifies arena`cur, arena`prev, arena.mem
    ensures arena.Valid() && arena.capacity == old(arena.capacity)
    ensures r == ParsedFile(arena.form, old(arena.cur), arena.capacity, file)
    ensures r.File? && r.entries.Some? ==>
      var pairs, at := Pairs(Lines(Read(file), 0)), r.entries.value;
      && Parsable(pairs) && at + 8192 <= arena.mem.Length && arena.mem[..][at..at + 8192] == Table(pairs)
    ensures r.File? ==>
      var at, text := AH.NextStart(arena.form, old(arena.cur)), Read(file);
      at + |text| <= arena.mem.Length && arena.mem[..][at..at + |text|] == text
    ensures Keeps(old(arena.mem[..]), arena.mem[..], old(arena.cur))
  {
    var text := Read(file);
    var buf := ReadFile(text, arena);
    if |text| == 0 {
      return Null;
    }
    if buf.None? {
      return Crash;
    }
    ghost var filled, end := arena.mem[..], buf.value + BUFFER;
    r := ParseAt(buf.value, text, arena, end, buf.value + |text|);
    KeepsOn(old(arena.mem[..]), filled, arena.mem[..], old(arena.cur), end);
  }

  /** The text is read back from the buffer, which the scan does not change. */
  method ParseAt(buf: nat, text: seq<byte>, arena: ArenaAllocator, ghost end: nat, ghost stop: nat) returns (r: Result)
    requires arena.Valid() && arena.cur == end == buf + BUFFER <= arena.capacity
    requires stop == buf + |text| <= end && arena.mem[..][buf..stop] == text
    modifies arena`cur, arena`prev, arena.mem
    ensures arena.Valid() && arena.capacity == old(arena.capacity)
    ensures r == ParsedFrom(arena.form, end, arena.capacity, text) && EntriesHold(arena.mem[..], r, text)
    ensures arena.mem[..][buf..stop] == text
    ensures Keeps(old(arena.mem[..]), arena.mem[..], end)
  {
    var buffer := arena.mem[..][buf..buf + |text|];
    r := ParseBuffer(buf + BUFFER, buffer, arena);
    KeepsSlice(old(arena.mem[..]), arena.mem[..], end, buf, stop);
  }
}
