/** What a /proc file says, line by line: the reference for `parse_proc_files` of base/base_parse.c. */
module ProcText {
  import opened Bytes
  import opened Ranks

  const COLON: byte := 58
  const SPACE: byte := 32
  const TAB: byte := 9

  /** `sizeof(proc_entry.key)` and `sizeof(proc_entry.value)` */
  const FIELD: nat := 16

  const MAX_ENTRIES: nat := 256

  predicate IsBlank(c: byte) {
    c == SPACE || c == TAB
  }

  /** The first newline at or after `i`, or the end. */
  function LineEnd(b: seq<byte>, i: nat): (e: nat)
    requires i <= |b|
    ensures i <= e <= |b|
    ensures forall k :: i <= k < e ==> b[k] != NEWLINE
    ensures e < |b| ==> b[e] == NEWLINE
    decreases |b| - i
  {
    if i == |b| || b[i] == NEWLINE then i else LineEnd(b, i + 1)
  }

  /** The first colon in `[i, j)`, or `j`. */
  function FirstColon(b: seq<byte>, i: nat, j: nat): (c: nat)
    requires i <= j <= |b|
    ensures i <= c <= j
    ensures forall k :: i <= k < c ==> b[k] != COLON
    ensures c < j ==> b[c] == COLON
    decreases j - i
  {
    if i == j || b[i] == COLON then i else FirstColon(b, i + 1, j)
  }

  /** The first position in `[i, j)` that is not blank, or `j`. */
  function SkipBlanks(b: seq<byte>, i: nat, j: nat): (v: nat)
    requires i <= j <= |b|
    ensures i <= v <= j
    ensures forall k :: i <= k < v ==> IsBlank(b[k])
    ensures v < j ==> !IsBlank(b[v])
    decreases j - i
  {
    if i < j && IsBlank(b[i]) then SkipBlanks(b, i + 1, j) else i
  }

  /** The complete lines from position `s` on; text after the last newline is not a line. */
  function Lines(b: seq<byte>, s: nat): (r: seq<seq<byte>>)
    requires s <= |b|
    decreases |b| - s
  {
    var e := LineEnd(b, s);
    if e == |b| then [] else [b[s..e]] + Lines(b, e + 1)
  }

  datatype Pair = Pair(key: seq<byte>, value: seq<byte>)

  /** A line with a colon is a key and a value; blanks before the value do not count. */
  function Split(line: seq<byte>): Option<Pair> {
    var c := FirstColon(line, 0, |line|);
    if c == |line| then None
    else Some(Pair(line[..c], line[SkipBlanks(line, c + 1, |line|)..]))
  }

  /** The pairs of all lines that have a colon. */
  function Pairs(lines: seq<seq<byte>>): seq<Pair> {
    if lines == [] then []
    else match Split(lines[0])
         case None => Pairs(lines[1..])
         case Some(p) => [p] + Pairs(lines[1..])
  }

  /** Text cut to `n` bytes and padded with NULs to a field. */
  function Field(text: seq<byte>, n: nat): (r: seq<byte>)
    requires n < FIELD
    ensures |r| == FIELD
  {
    var m := Min(n, |text|);
    text[..m] + Zeros(FIELD - m)
  }

  /** An entry as it is stored: 16 bytes of value, then 16 bytes of key.  Of the key, at most 15 bytes
      count, and the last of those is dropped (line 126 copies one byte less). */
  function EntryBytes(p: Pair): (r: seq<byte>)
    requires p.key != []
    ensures |r| == 2 * FIELD
  {
    Field(p.value, FIELD - 1) + Field(p.key, Min(|p.key|, FIELD - 1) - 1)
  }

  /** The entries one after the other. */
  function Flat(pairs: seq<Pair>): (r: seq<byte>)
    requires forall i :: 0 <= i < |pairs| ==> pairs[i].key != []
    ensures |r| == 2 * FIELD * |pairs|
  {
    if pairs == [] then [] else Flat(pairs[..|pairs| - 1]) + EntryBytes(pairs[|pairs| - 1])
  }

  /** Every line with a colon has text before it, and there are at most 256 of them: the texts that the
      parser survives. */
  ghost predicate Parsable(pairs: seq<Pair>) {
    |pairs| <= MAX_ENTRIES && forall i :: 0 <= i < |pairs| ==> pairs[i].key != []
  }

  // ---------------------------------------------------------------------------------------------
  // What these functions mean, byte by byte

  /** A colon (58) splits a line; spaces (32) and tabs (9) before the value are skipped. */
  lemma {:induction false} SplitExact(key: seq<byte>, blanks: seq<byte>, value: seq<byte>)
    requires forall i :: 0 <= i < |key| ==> key[i] != 58
    requires forall i :: 0 <= i < |blanks| ==> blanks[i] == 32 || blanks[i] == 9
    requires value != [] ==> value[0] != 32 && value[0] != 9
    ensures Split(key + [58] + blanks + value) == Some(Pair(key, value))
  {
    var line := key + [58] + blanks + value;
    var c, i, v := |key|, |key| + 1, |key| + 1 + |blanks|;
    FirstColonIs(line, c);
    SkipBlanksIs(line, i, v);
    assert line[..c] == key && line[v..] == value;
  }

  lemma {:induction false} FirstColonIs(line: seq<byte>, c: nat)
    requires c <= |line| && (forall k :: 0 <= k < c ==> line[k] != 58) && (c < |line| ==> line[c] == 58)
    ensures FirstColon(line, 0, |line|) == c
  {
  }

  lemma {:induction false} SkipBlanksIs(line: seq<byte>, i: nat, v: nat)
    requires i <= v <= |line| && (forall k :: i <= k < v ==> line[k] == 32 || line[k] == 9)
    requires v < |line| ==> line[v] != 32 && line[v] != 9
    ensures SkipBlanks(line, i, |line|) == v
  {
  }

  /** A line without a colon is no pair, and only such a line. */
  lemma {:induction false} SplitNone(line: seq<byte>)
    ensures Split(line).None? <==> forall i :: 0 <= i < |line| ==> line[i] != 58
  {
    if forall i :: 0 <= i < |line| ==> line[i] != 58 {
      FirstColonIs(line, |line|);
    }
  }

  /** `kept` says which lines have a colon. */
  ghost predicate HaveColon(lines: seq<seq<byte>>, kept: seq<bool>) {
    |kept| == |lines| && forall i :: 0 <= i < |lines| ==> kept[i] == Split(lines[i]).Some?
  }

  /** There are as many pairs as lines with a colon. */
  lemma {:induction false} PairsCount(lines: seq<seq<byte>>, kept: seq<bool>)
    requires HaveColon(lines, kept)
    ensures |Pairs(lines)| == Rank(kept, |kept|)
  {
    if lines != [] {
      PairsUnfold(lines, PairOf(lines[0]), Pairs(lines[1..]));
      PairsCount(lines[1..], kept[1..]);
      RankOfRest(kept, kept[1..], |kept| - 1);
    }
  }

  /** Each line with a colon has its pair at its place among them. */
  lemma {:induction false} PairsExact(lines: seq<seq<byte>>, kept: seq<bool>, j: nat)
    requires HaveColon(lines, kept) && j < |lines| && kept[j]
    ensures Rank(kept, j) < |Pairs(lines)| && Pairs(lines)[Rank(kept, j)] == Split(lines[j]).value
  {
    var front, rest := PairOf(lines[0]), Pairs(lines[1..]);
    PairsUnfold(lines, front, rest);
    if j > 0 {
      RankOfRest(kept, kept[1..], j - 1);
      PairsExact(lines[1..], kept[1..], j - 1);
      Behind(front, rest, Rank(kept[1..], j - 1), Rank(kept, j));
    }
  }

  /** What a single line contributes. */
  function PairOf(line: seq<byte>): seq<Pair> {
    if Split(line).Some? then [Split(line).value] else []
  }

  lemma {:induction false} PairsUnfold(lines: seq<seq<byte>>, front: seq<Pair>, rest: seq<Pair>)
    requires lines != [] && front == PairOf(lines[0]) && rest == Pairs(lines[1..])
    ensures Pairs(lines) == front + rest
  {
  }

  /** The 32 bytes of an entry: the value in the first 16, the key in the last 16, at most 15 bytes of each, of
      the key one less, and zeros behind them. */
  lemma {:induction false} EntryLayout(p: Pair, i: nat)
    requires p.key != [] && i < 32
    ensures |EntryBytes(p)| == 32
    ensures i < 16 ==> EntryBytes(p)[i] == if i < |p.value| && i < 15 then p.value[i] else 0
    ensures i >= 16 ==> EntryBytes(p)[i] == if i - 16 < |p.key| - 1 && i - 16 < 14 then p.key[i - 16] else 0
  {
  }

  // ---------------------------------------------------------------------------------------------
  // Lines partition the text

  function Join(lines: seq<seq<byte>>): seq<byte> {
    if lines == [] then [] else lines[0] + ([10] + Join(lines[1..]))
  }

  /** The lines with their newlines, followed by the unterminated rest, are the text again. */
  lemma {:induction false} LinesJoin(b: seq<byte>, s: nat) returns (rest: seq<byte>)
    requires s <= |b|
    ensures b[s..] == Join(Lines(b, s)) + rest && 10 !in rest
    decreases |b| - s
  {
    var e := LineEnd(b, s);
    if e == |b| {
      rest := b[s..];
    } else {
      rest := LinesJoin(b, e + 1);
      var more := Lines(b, e + 1);
      assert Lines(b, s) == [b[s..e]] + more;
      JoinStep(b, s, e, more, rest);
    }
  }

  lemma {:induction false} LinesHaveNoNewline(b: seq<byte>, s: nat, i: nat)
    requires s <= |b| && i < |Lines(b, s)|
    ensures 10 !in Lines(b, s)[i]
    decreases |b| - s
  {
    var e := LineEnd(b, s);
    if i > 0 {
      LinesHaveNoNewline(b, e + 1, i - 1);
    }
  }

  lemma {:induction false} JoinStep(b: seq<byte>, s: nat, e: nat, more: seq<seq<byte>>, rest: seq<byte>)
    requires s <= e < |b| && b[e] == NEWLINE && b[e + 1..] == Join(more) + rest
    ensures b[s..] == Join([b[s..e]] + more) + rest
  {
    assert ([b[s..e]] + more)[1..] == more;
    assert b[s..] == b[s..e] + ([NEWLINE] + b[e + 1..]);
  }
}
