/** Rendering key/value pairs and parsing them back. */
module ProcRoundTrip {
  import opened Bytes
  import opened BaseMem
  import AH = ArenaHeap
  import opened MemArena
  import opened Decimal
  import opened ProcText
  import opened ProcFile

  /** One line to render: the parser drops the byte before the colon (58), so one is put there.  Blanks are
      spaces (32) and tabs (9), and a line ends with a newline (10). */
  datatype Item = Item(key: seq<byte>, separator: byte, blanks: seq<byte>, value: seq<byte>)

  ghost predicate ValidItem(x: Item) {
    && |x.key| <= 14 && (forall i :: 0 <= i < |x.key| ==> x.key[i] != 58 && x.key[i] != 10 && x.key[i] != 0)
    && x.separator != 58 && x.separator != 10
    && (forall i :: 0 <= i < |x.blanks| ==> x.blanks[i] == 32 || x.blanks[i] == 9)
    && |x.value| <= 15 && (forall i :: 0 <= i < |x.value| ==> x.value[i] != 10 && x.value[i] != 0)
    && (x.value != [] ==> x.value[0] != 32 && x.value[0] != 9)
  }

  ghost predicate ValidItems(items: seq<Item>) {
    forall i :: 0 <= i < |items| ==> ValidItem(items[i])
  }

  function RenderItem(x: Item): seq<byte> {
    (x.key + [x.separator]) + ([58] + (x.blanks + (x.value + [10])))
  }

  function Render(items: seq<Item>): seq<byte> {
    if items == [] then [] else RenderItem(items[0]) + Render(items[1..])
  }

  /** The pair that the parser sees in a rendered line. */
  function SeenPair(x: Item): Pair {
    Pair(x.key + [x.separator], x.value)
  }

  function SeenPairs(items: seq<Item>): (r: seq<Pair>)
    ensures |r| == |items|
    ensures forall i :: 0 <= i < |items| ==> r[i] == SeenPair(items[i])
  {
    if items == [] then [] else [SeenPair(items[0])] + SeenPairs(items[1..])
  }

  /** The pieces of a rendered line inside a text. */
  lemma {:induction false} Pieces(b: seq<byte>, s: nat, k: seq<byte>, l: seq<byte>, v: seq<byte>, rest: seq<byte>)
    requires s <= |b| && b[s..] == (k + ([COLON] + (l + (v + [NEWLINE])))) + rest
    ensures var c := s + |k|; var w := c + 1 + |l|; var e := w + |v|;
      && e < |b| && b[s..c] == k && b[c] == COLON && b[c + 1..w] == l && b[w..e] == v && b[e] == NEWLINE
      && b[e + 1..] == rest
  {
    var t := b[s..];
    var c := |k|;
    var w := c + 1 + |l|;
    var e := w + |v|;
    assert t[..c] == k && t[c] == COLON && t[c + 1..w] == l && t[w..e] == v && t[e] == NEWLINE && t[e + 1..] == rest;
    assert t[..c] == b[s..s + c] && t[c + 1..w] == b[s + c + 1..s + w] && t[w..e] == b[s + w..s + e];
    assert t[e + 1..] == b[s + e + 1..] && t[c] == b[s + c] && t[e] == b[s + e];
  }

  lemma {:induction false} KeyCharacters(b: seq<byte>, s: nat, c: nat, x: Item)
    requires ValidItem(x) && s <= c <= |b| && b[s..c] == x.key + [x.separator]
    ensures forall i :: s <= i < c ==> b[i] != COLON && b[i] != NEWLINE
  {
    forall i | s <= i < c ensures b[i] != COLON && b[i] != NEWLINE {
      assert b[i] == (x.key + [x.separator])[i - s];
    }
  }

  lemma {:induction false} ValueCharacters(b: seq<byte>, p: nat, w: nat, e: nat, x: Item)
    requires ValidItem(x) && p <= w <= e <= |b| && b[p..w] == x.blanks && b[w..e] == x.value
    ensures forall i :: p <= i < e ==> b[i] != NEWLINE
    ensures SkipBlanks(b, p, e) == w
  {
    forall i | p <= i < w ensures IsBlank(b[i]) {
      assert b[i] == x.blanks[i - p];
    }
    forall i | w <= i < e ensures b[i] == x.value[i - w] {
      assert b[i] == b[w..e][i - w];
    }
    BlanksUnique(b, p, e, w);
  }

  /** Where the parts of a rendered line are. */
  ghost predicate LineAt(b: seq<byte>, s: nat, c: nat, w: nat, e: nat, x: Item) {
    && s <= c < w <= e < |b| && b[c] == COLON && b[e] == NEWLINE
    && b[s..c] == x.key + [x.separator] && b[c + 1..w] == x.blanks && b[w..e] == x.value
  }

  lemma {:induction false} LocateLine(b: seq<byte>, s: nat, x: Item, rest: seq<byte>)
    returns (c: nat, w: nat, e: nat, next: nat)
    requires s <= |b| && b[s..] == RenderItem(x) + rest
    ensures LineAt(b, s, c, w, e, x) && next == e + 1 && b[next..] == rest && next == s + |RenderItem(x)|
  {
    Pieces(b, s, x.key + [x.separator], x.blanks, x.value, rest);
    c := s + |x.key + [x.separator]|;
    w := c + 1 + |x.blanks|;
    e := w + |x.value|;
    next := e + 1;
  }

  lemma {:induction false} PairOfLine(b: seq<byte>, s: nat, c: nat, w: nat, e: nat, x: Item, next: nat)
    requires ValidItem(x) && LineAt(b, s, c, w, e, x) && next == e + 1
    ensures Pairs(Lines(b, s)) == [SeenPair(x)] + Pairs(Lines(b, next))
  {
    KeyCharacters(b, s, c, x);
    ValueCharacters(b, c + 1, w, e, x);
    NextPair(b, s, e, c, w, next);
  }

  /** One rendered line in front of the rest of a text. */
  lemma {:induction false} HeadPair(b: seq<byte>, s: nat, x: Item, rest: seq<byte>) returns (next: nat)
    requires ValidItem(x) && s <= |b| && b[s..] == RenderItem(x) + rest
    ensures s < next == s + |RenderItem(x)| <= |b| && b[next..] == rest
    ensures Pairs(Lines(b, s)) == [SeenPair(x)] + Pairs(Lines(b, next))
  {
    var c, w, e;
    c, w, e, next := LocateLine(b, s, x, rest);
    PairOfLine(b, s, c, w, e, x, next);
  }

  /** How many of the rendered items `n` bytes hold completely. */
  function Complete(items: seq<Item>, n: nat): (m: nat)
    ensures m <= |items|
  {
    if items == [] || |RenderItem(items[0])| > n then 0
    else 1 + Complete(items[1..], n - |RenderItem(items[0])|)
  }

  /** They are all of them exactly when the rendered text fits. */
  lemma {:induction false} CompleteAll(items: seq<Item>, n: nat)
    ensures Complete(items, n) == |items| <==> |Render(items)| <= n
    ensures Complete(items, Min(n, |Render(items)|)) == Complete(items, n)
  {
    if items != [] && |RenderItem(items[0])| <= n {
      CompleteAll(items[1..], n - |RenderItem(items[0])|);
    }
  }

  /** A line that was cut short has no newline. */
  lemma {:induction false} ShortLine(b: seq<byte>, s: nat, x: Item, rest: seq<byte>)
    requires ValidItem(x) && s <= |b| && b[s..] <= RenderItem(x) + rest && |b| - s < |RenderItem(x)|
    ensures Lines(b, s) == []
  {
    var line := RenderItem(x);
    forall i | s <= i < |b| ensures b[i] != NEWLINE {
      assert b[i] == b[s..][i - s] == line[i - s];
      OneNewline(x, i - s);
    }
    LineEndUnique(b, s, |b|);
  }

  lemma {:induction false} OneNewline(x: Item, i: nat)
    requires ValidItem(x) && i < |RenderItem(x)| - 1
    ensures RenderItem(x)[i] != NEWLINE
  {
    var k := |x.key|;
    var w := k + 2 + |x.blanks|;
    if i < k {
      assert RenderItem(x)[i] == x.key[i];
    } else if k + 2 <= i < w {
      assert RenderItem(x)[i] == x.blanks[i - k - 2];
    } else if w <= i {
      assert RenderItem(x)[i] == x.value[i - w];
    }
  }

  lemma {:induction false} SplitPrefix(b: seq<byte>, x: seq<byte>, rest: seq<byte>)
    requires b <= x + rest && |x| <= |b|
    ensures b == x + b[|x|..] && b[|x|..] <= rest
  {
  }

  /** The first line of a text that was cut behind it. */
  lemma {:induction false} FirstLine(b: seq<byte>, s: nat, x: Item, rest: seq<byte>) returns (next: nat)
    requires ValidItem(x) && s <= |b| && b[s..] <= RenderItem(x) + rest && |RenderItem(x)| <= |b| - s
    ensures s < next == s + |RenderItem(x)| <= |b| && b[next..] <= rest
    ensures Pairs(Lines(b, s)) == [SeenPair(x)] + Pairs(Lines(b, next))
  {
    SplitPrefix(b[s..], RenderItem(x), rest);
    next := HeadPair(b, s, x, b[s..][|RenderItem(x)|..]);
  }

  lemma {:induction false} CompleteStep(items: seq<Item>, n: nat, n': nat, m: nat, m': nat)
    requires items != [] && n == |RenderItem(items[0])| + n' && m == Complete(items, n) && m == m' + 1
    ensures m' == Complete(items[1..], n')
  {
  }

  lemma {:induction false} ValidRest(items: seq<Item>)
    requires ValidItems(items) && items != []
    ensures ValidItem(items[0]) && ValidItems(items[1..])
  {
    assert forall i :: 0 <= i < |items| - 1 ==> items[1..][i] == items[i + 1];
  }

  /** Rendering and splitting: of a text that was cut anywhere, the pairs of the complete lines come back
      in order. */
  lemma {:induction false} RenderedPairs(b: seq<byte>, s: nat, items: seq<Item>, n: nat, m: nat)
    requires s + n == |b| && b[s..] <= Render(items) && ValidItems(items) && m == Complete(items, n)
    ensures Pairs(Lines(b, s)) == SeenPairs(items[..m])
    decreases |items|, 1
  {
    if items == [] {
      assert s == |b|;
    } else {
      ValidRest(items);
      var rest := Render(items[1..]);
      assert Render(items) == RenderItem(items[0]) + rest;
      if n < |RenderItem(items[0])| {
        ShortLine(b, s, items[0], rest);
      } else {
        RenderedMore(b, s, items, n, m, rest);
      }
    }
  }

  lemma {:induction false} RenderedMore(b: seq<byte>, s: nat, items: seq<Item>, n: nat, m: nat, rest: seq<byte>)
    requires items != [] && ValidItem(items[0]) && ValidItems(items[1..]) && rest == Render(items[1..])
    requires s + n == |b| && b[s..] <= RenderItem(items[0]) + rest && |RenderItem(items[0])| <= n
    requires m == Complete(items, n)
    ensures Pairs(Lines(b, s)) == SeenPairs(items[..m])
    decreases |items|, 0
  {
    var next := FirstLine(b, s, items[0], rest);
    var n', m' := |b| - next, m - 1;
    CompleteStep(items, n, n', m, m');
    RenderedPairs(b, next, items[1..], n', m');
    SeenPairsStep(items, m, m', Pairs(Lines(b, next)));
  }

  lemma {:induction false} SeenPairsStep(items: seq<Item>, m: nat, m': nat, rest: seq<Pair>)
    requires m == m' + 1 <= |items| && rest == SeenPairs(items[1..][..m'])
    ensures [SeenPair(items[0])] + rest == SeenPairs(items[..m])
  {
    assert items[..m][1..] == items[1..][..m'];
  }

  // ---------------------------------------------------------------------------------------------
  // Reading entries

  /** Entry `i` of the array, as the C strings its readers see. */
  function ReadPair(entries: seq<byte>, i: nat): Pair
    requires ENTRY * (i + 1) <= |entries|
  {
    Pair(CString(entries[ENTRY * i + FIELD..ENTRY * i + ENTRY]), CString(entries[ENTRY * i..ENTRY * i + FIELD]))
  }

  lemma {:induction false} FieldString(text: seq<byte>, n: nat)
    requires n < FIELD && forall i :: 0 <= i < |text| ==> text[i] != 0
    ensures CString(Field(text, n)) == text[..Min(n, |text|)]
  {
    var m := Min(n, |text|);
    CStringUnique(Field(text, n), m);
    assert Field(text, n)[..m] == text[..m];
  }

  lemma {:induction false} EntryStrings(entries: seq<byte>, i: nat, p: Pair, lo: nat, hi: nat)
    requires lo == ENTRY * i && hi == lo + ENTRY <= |entries| && p.key != []
    requires entries[lo..hi] == EntryBytes(p)
    ensures ReadPair(entries, i)
         == Pair(CString(Field(p.key, Min(|p.key|, FIELD - 1) - 1)), CString(Field(p.value, FIELD - 1)))
  {
    var t := entries[lo..hi];
    assert t[..FIELD] == entries[ENTRY * i..ENTRY * i + FIELD];
    assert t[FIELD..] == entries[ENTRY * i + FIELD..ENTRY * i + ENTRY];
  }

  /** What is stored of any pair without NULs: the key always loses its last byte (or more), and the
      value survives exactly when it has at most 15 bytes. */
  lemma {:induction false} StoredExactly(p: Pair)
    requires p.key != [] && (forall i :: 0 <= i < |p.key| ==> p.key[i] != 0)
    requires forall i :: 0 <= i < |p.value| ==> p.value[i] != 0
    ensures CString(EntryBytes(p)[16..32]) == p.key[..Min(|p.key|, 15) - 1] != p.key
    ensures CString(EntryBytes(p)[..16]) == p.value[..Min(|p.value|, 15)]
    ensures CString(EntryBytes(p)[..16]) == p.value <==> |p.value| <= 15
  {
    FieldString(p.key, Min(|p.key|, FIELD - 1) - 1);
    FieldString(p.value, FIELD - 1);
    assert EntryBytes(p)[..16] == Field(p.value, FIELD - 1);
    assert EntryBytes(p)[16..32] == Field(p.key, Min(|p.key|, FIELD - 1) - 1);
    if |p.value| < FIELD {
      assert p.value[..|p.value|] == p.value;
    }
  }

  lemma {:induction false} ItemStrings(x: Item)
    requires ValidItem(x)
    ensures var p := SeenPair(x);
      && CString(Field(p.key, Min(|p.key|, FIELD - 1) - 1)) == x.key
      && CString(Field(p.value, FIELD - 1)) == x.value
  {
    var p := SeenPair(x);
    assert Field(p.key, |x.key|) == Field(x.key, |x.key|);
    FieldString(x.key, |x.key|);
    FieldString(x.value, FIELD - 1);
    assert x.key[..|x.key|] == x.key && x.value[..|x.value|] == x.value;
  }

  /** Rendered items, cut anywhere, are a text with one pair for each complete line, and the parser
      survives it exactly when these are at most 256. */
  lemma {:induction false} RenderedParsable(items: seq<Item>, text: seq<byte>)
    requires ValidItems(items) && text <= Render(items)
    ensures Pairs(Lines(text, 0)) == SeenPairs(items[..Complete(items, |text|)])
    ensures Parsable(Pairs(Lines(text, 0))) <==> Complete(items, |text|) <= 256
  {
    assert text[0..] == text;
    var m := Complete(items, |text|);
    RenderedPairs(text, 0, items, |text|, m);
    SeenParsable(items[..m]);
  }

  lemma {:induction false} SeenParsable(items: seq<Item>)
    ensures Parsable(SeenPairs(items)) <==> |items| <= MAX_ENTRIES
  {
  }

  lemma {:induction false} PrefixEntry(pairs: seq<Pair>, entries: seq<byte>, i: nat, lo: nat, hi: nat)
    requires i < |pairs| && Parsable(pairs) && Flat(pairs) <= entries && lo == ENTRY * i && hi == lo + ENTRY
    ensures hi <= |entries| && entries[lo..hi] == EntryBytes(pairs[i])
  {
    FlatEntry(pairs, i, lo, hi);
    LeftSlice(Flat(pairs), entries[|Flat(pairs)|..], lo, hi);
    assert entries == Flat(pairs) + entries[|Flat(pairs)|..];
  }

  /** Print/parse round trip: an array that starts with the entries of the seen pairs holds, as its
      i-th C strings, the i-th key and value. */
  lemma {:induction false} RoundTrip(items: seq<Item>, entries: seq<byte>, i: nat)
    requires ValidItems(items) && Parsable(SeenPairs(items)) && Flat(SeenPairs(items)) <= entries
    requires i < |items|
    ensures ENTRY * (i + 1) <= |entries| && ReadPair(entries, i) == Pair(items[i].key, items[i].value)
  {
    var lo, hi := ENTRY * i, ENTRY * i + ENTRY;
    PrefixEntry(SeenPairs(items), entries, i, lo, hi);
    EntryStrings(entries, i, SeenPair(items[i]), lo, hi);
    ItemStrings(items[i]);
  }

  /** The array starts with the given pairs, in order. */
  ghost predicate Holds(entries: seq<byte>, items: seq<Item>) {
    && ENTRY * |items| <= |entries|
    && forall i :: 0 <= i < |items| ==> ReadPair(entries, i) == Pair(items[i].key, items[i].value)
  }

  lemma {:induction false} RoundTripAll(items: seq<Item>, entries: seq<byte>)
    requires ValidItems(items) && Parsable(SeenPairs(items)) && entries == Table(SeenPairs(items))
    ensures Holds(entries, items)
  {
    forall i | 0 <= i < |items| ensures ReadPair(entries, i) == Pair(items[i].key, items[i].value) {
      RoundTrip(items, entries, i);
    }
  }

  /** There is room for the buffer, the file record and the array. */
  predicate HasRoom(form: Form, cur: nat, capacity: nat) {
    TableAt(form, AH.NextStart(form, AH.NextStart(form, cur) + BUFFER), capacity).Some?
  }

  /** Running the parser on rendered items in an arena with room returns the same keys and values, all of
      them if the text fits in the buffer and otherwise those of the lines that do, in order. */
  method ParseRendered(items: seq<Item>, arena: ArenaAllocator) returns (r: Result)
    requires ValidItems(items) && arena.Valid() && arena.cur <= arena.capacity
    modifies arena`cur, arena`prev, arena.mem
    ensures items == [] <==> r == Null
    ensures items != [] && HasRoom(arena.form, old(arena.cur), old(arena.capacity)) ==>
      var n := Complete(items, BUFFER);
      && (r.File? <==> n <= 256)
      && (r.File? ==>
            && r.count == n && r.entries.Some? && r.entries.value + TABLE <= arena.mem.Length
            && Holds(arena.mem[..][r.entries.value..r.entries.value + TABLE], items[..n]))
    ensures Complete(items, BUFFER) == |items| <==> |Render(items)| <= 4096
  {
    var file := Render(items);
    CompleteAll(items, BUFFER);
    RenderedParsed(arena.form, arena.cur, arena.capacity, items, Complete(items, BUFFER));
    r := ParseProcFile(file, arena);
    if r.File? && r.entries.Some? {
      RoundTripAll(items[..Complete(items, BUFFER)], arena.mem[..][r.entries.value..r.entries.value + TABLE]);
    }
  }

  /** What the parser makes of rendered items. */
  lemma {:induction false} RenderedParsed(form: Form, cur: nat, capacity: nat, items: seq<Item>, n: nat)
    requires ValidItems(items) && n == Complete(items, BUFFER)
    ensures Pairs(Lines(Read(Render(items)), 0)) == SeenPairs(items[..n])
    ensures Parsable(SeenPairs(items[..n])) <==> n <= MAX_ENTRIES
    ensures var r := ParsedFile(form, cur, capacity, Render(items));
      && (items == [] <==> r == Null)
      && (items != [] && HasRoom(form, cur, capacity) ==> (r.File? <==> n <= MAX_ENTRIES))
      && (r.File? ==> r.count == n && (HasRoom(form, cur, capacity) ==> r.entries.Some?))
  {
    var file := Render(items);
    CompleteAll(items, BUFFER);
    RenderedParsable(items, Read(file));
    SeenParsable(items[..n]);
    ParsedPairs(form, cur, capacity, file, SeenPairs(items[..n]));
  }

  lemma {:induction false} ParsedPairs(form: Form, cur: nat, capacity: nat, file: seq<byte>, pairs: seq<Pair>)
    requires Pairs(Lines(Read(file), 0)) == pairs
    ensures var r := ParsedFile(form, cur, capacity, file);
      && (file == [] <==> r == Null)
      && (file != [] && HasRoom(form, cur, capacity) ==> (r.File? <==> Parsable(pairs)))
      && (r.File? ==> r.count == |pairs| && (HasRoom(form, cur, capacity) ==> r.entries.Some?))
  {
  }
}
