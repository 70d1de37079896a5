/** The digit-run scan of `cpu_get_cores_enabled_arm` in libres/resources.cc. */
module DigitRuns {
  import opened Bytes
  import opened Decimal

  const COMMA: byte := 44

  /** `s[i..j]` is a run of digits that cannot be extended. */
  ghost predicate MaximalRun(s: seq<byte>, i: int, j: int) {
    && 0 <= i < j <= |s|
    && (forall k :: i <= k < j ==> IsDigit(s[k]))
    && (i > 0 ==> !IsDigit(s[i - 1]))
    && (j < |s| ==> !IsDigit(s[j]))
  }

  /** The values of the runs from position `i` on, in order. */
  function RunsFrom(s: seq<byte>, i: nat): (r: seq<int>)
    requires i <= |s|
    decreases |s| - i
  {
    if i == |s| then []
    else if IsDigit(s[i]) then
      var e := RunEnd(s, i, |s|);
      [Number(s, i, e)] + RunsFrom(s, e)
    else
      RunsFrom(s, i + 1)
  }

  function Runs(s: seq<byte>): seq<int> {
    RunsFrom(s, 0)
  }

  function Max(values: seq<int>): int {
    if values == [] then 0
    else
      var m := Max(values[1..]);
      if values[0] > m then values[0] else m
  }

  /** Some run of digits exceeds `int`. */
  ghost predicate Overflows(s: seq<byte>) {
    exists v :: v in Runs(s) && v > INT_MAX
  }

  /** `text` is what a NUL-terminated buffer holds. */
  ghost predicate Terminated(buf: seq<byte>, text: seq<byte>) {
    && |text| < |buf| && text == buf[..|text|] && buf[|text|] == 0
    && forall i :: 0 <= i < |text| ==> text[i] != 0
  }

  /** The inner loop: the value of the digit run from `start` to `end`, unless it exceeds `int`. */
  method ScanRun(buf: seq<byte>, start: nat, ghost text: seq<byte>, ghost end: nat)
    returns (p: nat, v: int, overflow: bool)
    requires Terminated(buf, text) && start < end <= |text|
    requires end == RunEnd(text, start, |text|)
    ensures overflow <==> Number(text, start, end) > INT_MAX
    ensures !overflow ==> p == end && v == Number(text, start, end)
  {
    v, p, overflow := 0, start, false;
    while buf[p] >= ZERO && buf[p] <= NINE
      invariant start <= p <= end
      invariant v == Number(text, start, p) <= INT_MAX
      decreases |text| - p
    {
      v := v * 10 + (buf[p] - ZERO);
      p := p + 1;
      if v > INT_MAX {
        overflow := true;
        NumberGrows(text, start, p, end);
        return;
      }
    }
  }

  /** Longer digit strings are at least as large. */
  lemma {:induction false} NumberGrows(s: seq<byte>, i: nat, p: nat, q: nat)
    requires i <= p <= q <= |s| && forall k :: i <= k < q ==> IsDigit(s[k])
    ensures Number(s, i, p) <= Number(s, i, q)
    decreases q
  {
    if p < q {
      NumberGrows(s, i, p, q - 1);
    }
  }

  /** The outer loop. */
  method ScanText(buf: seq<byte>, ghost text: seq<byte>) returns (max: int, overflow: bool)
    requires Terminated(buf, text)
    ensures overflow <==> Overflows(text)
    ensures !overflow ==> max == Max(Runs(text))
  {
    max, overflow := 0, false;
    var p := 0;
    ghost var seen: seq<int> := [];
    while buf[p] != 0
      invariant p <= |text| && Runs(text) == seen + RunsFrom(text, p)
      invariant max == Max(seen)
      invariant forall v :: v in seen ==> v <= INT_MAX
      decreases |text| - p
    {
      if buf[p] >= ZERO && buf[p] <= NINE {
        ghost var end := RunEnd(text, p, |text|);
        ghost var value := Number(text, p, end);
        var next, v;
        next, v, overflow := ScanRun(buf, p, text, end);
        InFront(seen, value, RunsFrom(text, end));
        MaxAppend(seen, value);
        if overflow {
          return;
        }
        seen := seen + [v];
        if v > max {
          max := v;
        }
        p := next;
      } else {
        p := p + 1;
      }
    }
    assert seen + [] == seen;
  }

  lemma {:induction false} InFront(seen: seq<int>, v: int, rest: seq<int>)
    ensures seen + ([v] + rest) == (seen + [v]) + rest
    ensures v in seen + ([v] + rest)
  {
    assert (seen + ([v] + rest))[|seen|] == v;
  }

  /** The scan of a NUL-terminated buffer.  Exceeding `int` is undefined in C, and reported as
      `overflow`. */
  method ScanMax(buf: seq<byte>) returns (max: int, overflow: bool)
    requires exists i :: 0 <= i < |buf| && buf[i] == 0
    ensures overflow <==> Overflows(CString(buf))
    ensures !overflow ==> max == Max(Runs(CString(buf)))
  {
    ghost var text := CString(buf);
    max, overflow := ScanText(buf, text);
  }

  lemma {:induction false} MaxAppend(values: seq<int>, v: int)
    requires v >= 0
    ensures Max(values + [v]) == if v > Max(values) then v else Max(values)
  {
    if values == [] {
      assert [v][1..] == [];
    } else {
      MaxAppend(values[1..], v);
      assert (values + [v])[1..] == values[1..] + [v];
    }
  }

  // ---------------------------------------------------------------------------------------------
  // What the maximum means

  lemma {:induction false} MaximalRunEnds(s: seq<byte>, i: nat, j: nat)
    requires MaximalRun(s, i, j)
    ensures RunEnd(s, i, |s|) == j
  {
    RunEndUnique(s, i, |s|, j);
  }

  /** Every maximal run at or after a position is among the runs from there. */
  lemma {:induction false} RunsComplete(s: seq<byte>, p: nat, i: nat, j: nat)
    requires MaximalRun(s, i, j) && p <= i
    ensures Number(s, i, j) in RunsFrom(s, p)
    decreases |s| - p
  {
    if p == i {
      MaximalRunEnds(s, i, j);
    } else if IsDigit(s[p]) {
      RunsComplete(s, RunEnd(s, p, |s|), i, j);
    } else {
      RunsComplete(s, p + 1, i, j);
    }
  }

  /** Every run found is a maximal one. */
  lemma {:induction false} RunsSound(s: seq<byte>, p: nat, v: int) returns (i: nat, j: nat)
    requires p <= |s| && v in RunsFrom(s, p)
    requires 0 < p < |s| && IsDigit(s[p]) ==> !IsDigit(s[p - 1])
    ensures MaximalRun(s, i, j) && v == Number(s, i, j)
    decreases |s| - p
  {
    if IsDigit(s[p]) {
      var e := RunEnd(s, p, |s|);
      if v == Number(s, p, e) {
        i, j := p, e;
      } else {
        i, j := RunsSound(s, e, v);
      }
    } else {
      i, j := RunsSound(s, p + 1, v);
    }
  }

  lemma {:induction false} MaxBounds(values: seq<int>)
    ensures Max(values) >= 0
    ensures forall v :: v in values ==> v <= Max(values)
    ensures Max(values) == 0 || Max(values) in values
  {
    if values != [] {
      MaxBounds(values[1..]);
      assert forall v :: v in values ==> v == values[0] || v in values[1..];
    }
  }

  /** The scan result is the greatest value over all maximal digit runs, and 0 if there is none. */
  lemma {:induction false} ScanMeaning(s: seq<byte>)
    ensures forall i, j :: MaximalRun(s, i, j) ==> Number(s, i, j) <= Max(Runs(s))
    ensures Max(Runs(s)) == 0 || exists i, j :: MaximalRun(s, i, j) && Number(s, i, j) == Max(Runs(s))
    ensures Overflows(s) <==> exists i, j :: MaximalRun(s, i, j) && Number(s, i, j) > INT_MAX
  {
    MaxBounds(Runs(s));
    forall i, j | MaximalRun(s, i, j)
      ensures Number(s, i, j) in Runs(s)
    {
      RunsComplete(s, 0, i, j);
    }
    if Max(Runs(s)) != 0 {
      var i, j := RunsSound(s, 0, Max(Runs(s)));
    }
    if Overflows(s) {
      var v :| v in Runs(s) && v > INT_MAX;
      var i, j := RunsSound(s, 0, v);
    }
  }

  // ---------------------------------------------------------------------------------------------
  // The kernel's CPU lists, such as "0-3,5"

  datatype Span = One(n: nat) | Range(lo: nat, hi: nat)

  function RenderSpan(x: Span): seq<byte> {
    match x
    case One(n) => Digits(n)
    case Range(lo, hi) => Digits(lo) + [MINUS] + Digits(hi)
  }

  /** Spans separated by commas and ended by a newline. */
  function RenderList(list: seq<Span>): seq<byte> {
    if list == [] then [NEWLINE]
    else RenderSpan(list[0]) + if |list| == 1 then [NEWLINE] else [COMMA] + RenderList(list[1..])
  }

  /** The list "0-3,5" as bytes. */
  lemma {:induction false} RenderedExample()
    ensures RenderList([Range(0, 3), One(5)]) == [48, 45, 51, 44, 53, 10]
  {
    var tail := [Range(0, 3), One(5)][1..];
    assert tail == [One(5)];
    assert Digits(0) == [48] && Digits(3) == [51] && Digits(5) == [53];
    assert RenderList(tail) == [53, 10];
  }

  function Numbers(list: seq<Span>): seq<int> {
    if list == [] then []
    else SpanNumbers(list[0]) + Numbers(list[1..])
  }

  /** The highest CPU index named by a list. */
  function Highest(list: seq<Span>): int {
    if list == [] then 0
    else
      var m := Highest(list[1..]);
      var top := match list[0] case One(n) => n case Range(_, hi) => hi;
      if top > m then top else m
  }

  /** A number at position `i`, with a non-digit after it, is one run. */
  lemma {:induction false} RunsOfNumber(s: seq<byte>, i: nat, n: nat, e: nat)
    requires e == i + |Digits(n)| < |s| && s[i..e] == Digits(n) && !IsDigit(s[e])
    ensures RunsFrom(s, i) == [n] + RunsFrom(s, e + 1)
  {
    DigitsAt(s, i, n);
    FirstDigit(s, i, e);
    RunsUnfold(s, i, n, e);
  }

  lemma {:induction false} FirstDigit(s: seq<byte>, i: nat, e: nat)
    requires i < e <= |s| && IsDigit(s[i..e][0])
    ensures IsDigit(s[i])
  {
  }

  lemma {:induction false} RunsUnfold(s: seq<byte>, i: nat, n: nat, e: nat)
    requires i < e < |s| && IsDigit(s[i]) && RunEnd(s, i, |s|) == e && Number(s, i, e) == n && !IsDigit(s[e])
    ensures RunsFrom(s, i) == [n] + RunsFrom(s, e + 1)
  {
    assert RunsFrom(s, e) == RunsFrom(s, e + 1);
  }

  function SpanNumbers(x: Span): seq<int> {
    match x
    case One(n) => [n]
    case Range(lo, hi) => [lo, hi]
  }

  lemma {:induction false} RunsOfRange(s: seq<byte>, i: nat, lo: nat, hi: nat, m: nat, e: nat)
    requires m == i + |Digits(lo)| && e == m + 1 + |Digits(hi)| && e < |s|
    requires s[i..m] == Digits(lo) && !IsDigit(s[m])
    requires s[m + 1..e] == Digits(hi) && !IsDigit(s[e])
    ensures RunsFrom(s, i) == [lo] + ([hi] + RunsFrom(s, e + 1))
  {
    RunsOfNumber(s, m + 1, hi, e);
    RunsOfNumber(s, i, lo, m);
  }

  lemma {:induction false} RunsOfSpan(s: seq<byte>, i: nat, x: Span, e: nat)
    requires e == i + |RenderSpan(x)| < |s| && s[i..e] == RenderSpan(x) && !IsDigit(s[e])
    ensures RunsFrom(s, i) == SpanNumbers(x) + RunsFrom(s, e + 1)
  {
    match x
    case One(n) => RunsOfNumber(s, i, n, e);
    case Range(lo, hi) =>
      SlicesOfRange(s, i, Digits(lo), Digits(hi));
      RunsOfRange(s, i, lo, hi, i + |Digits(lo)|, e);
      TwoInFront(lo, hi, RunsFrom(s, e + 1));
  }

  lemma {:induction false} SlicesOfRange(s: seq<byte>, i: nat, a: seq<byte>, b: seq<byte>)
    requires i + |a| + 1 + |b| <= |s| && s[i..i + |a| + 1 + |b|] == a + [MINUS] + b
    ensures s[i..i + |a|] == a && s[i + |a|] == MINUS && s[i + |a| + 1..i + |a| + 1 + |b|] == b
  {
    var t := s[i..i + |a| + 1 + |b|];
    assert t[..|a|] == s[i..i + |a|];
    assert t[|a|] == s[i + |a|];
    assert t[|a| + 1..] == s[i + |a| + 1..i + |a| + 1 + |b|];
  }

  lemma {:induction false} TwoInFront(a: int, b: int, s: seq<int>)
    ensures [a] + ([b] + s) == [a, b] + s
  {
  }

  /** The text after the first span: its separator and the other spans. */
  function Tail(list: seq<Span>): (r: seq<byte>)
    requires list != []
    ensures r != [] && !IsDigit(r[0])
  {
    if |list| == 1 then [NEWLINE] else [COMMA] + RenderList(list[1..])
  }

  lemma {:induction false} RunsOfList(s: seq<byte>, i: nat, list: seq<Span>)
    requires i <= |s| && s[i..] == RenderList(list)
    ensures RunsFrom(s, i) == Numbers(list)
    decreases |list|
  {
    if list == [] {
      assert s[i] == s[i..][0];
    } else {
      var e := RunsOfHead(s, i, list);
      RunsOfTail(s, e, list);
    }
  }

  lemma {:induction false} RunsOfHead(s: seq<byte>, i: nat, list: seq<Span>) returns (e: nat)
    requires i <= |s| && list != [] && s[i..] == RenderList(list)
    ensures e < |s| && s[e] == Tail(list)[0] && s[e + 1..] == Tail(list)[1..]
    ensures i <= e && RunsFrom(s, i) == SpanNumbers(list[0]) + RunsFrom(s, e + 1)
  {
    e := i + |RenderSpan(list[0])|;
    assert RenderList(list) == RenderSpan(list[0]) + Tail(list);
    SlicesOfList(s, i, RenderSpan(list[0]), Tail(list));
    RunsOfSpan(s, i, list[0], e);
  }

  lemma {:induction false} RunsOfTail(s: seq<byte>, e: nat, list: seq<Span>)
    requires list != [] && e < |s| && s[e] == Tail(list)[0] && s[e + 1..] == Tail(list)[1..]
    ensures RunsFrom(s, e + 1) == Numbers(list[1..])
    decreases |list|, 0
  {
    if |list| > 1 {
      assert Tail(list)[1..] == RenderList(list[1..]);
      RunsOfList(s, e + 1, list[1..]);
    }
  }

  lemma {:induction false} SlicesOfList(s: seq<byte>, i: nat, x: seq<byte>, tail: seq<byte>)
    requires i <= |s| && s[i..] == x + tail && tail != []
    ensures i + |x| < |s| && s[i..i + |x|] == x && s[i + |x|] == tail[0]
    ensures s[i + |x| + 1..] == tail[1..]
  {
    var t := s[i..];
    assert t[..|x|] == s[i..i + |x|];
    assert t[|x|] == s[i + |x|];
    assert t[|x| + 1..] == s[i + |x| + 1..];
  }

  lemma {:induction false} MaxOfNumbers(list: seq<Span>)
    requires ProperSpans(list)
    ensures Max(Numbers(list)) == Highest(list) >= 0
  {
    if list != [] {
      MaxOfNumbers(list[1..]);
      var rest := Numbers(list[1..]);
      match list[0]
      case One(n) => assert ([n] + rest)[1..] == rest;
      case Range(lo, hi) =>
        assert ([lo, hi] + rest)[1..] == [hi] + rest;
        assert ([hi] + rest)[1..] == rest;
    }
  }

  ghost predicate ProperSpans(list: seq<Span>) {
    forall i :: 0 <= i < |list| && list[i].Range? ==> list[i].lo <= list[i].hi
  }

  /** On every rendered CPU list the greatest run is the highest index, and it exceeds `int` exactly when
      that index does. */
  lemma {:induction false} ScanFindsHighest(list: seq<Span>)
    requires ProperSpans(list)
    ensures Max(Runs(RenderList(list))) == Highest(list)
    ensures Overflows(RenderList(list)) <==> Highest(list) > INT_MAX
  {
    var s := RenderList(list);
    assert s[0..] == s;
    RunsOfList(s, 0, list);
    MaxOfNumbers(list);
    MaxBounds(Runs(s));
  }

  lemma {:induction false} RenderedText(list: seq<Span>, rest: seq<byte>)
    ensures CString(RenderList(list) + ([0] + rest)) == RenderList(list)
  {
    var text := RenderList(list);
    NoNulInList(list);
    CStringUnique(text + ([0] + rest), |text|);
    assert (text + ([0] + rest))[..|text|] == text;
  }

  lemma {:induction false} NoNulInSpan(x: Span)
    ensures forall i :: 0 <= i < |RenderSpan(x)| ==> RenderSpan(x)[i] != 0
  {
  }

  lemma {:induction false} NoNulInList(list: seq<Span>)
    ensures forall i :: 0 <= i < |RenderList(list)| ==> RenderList(list)[i] != 0
  {
    if list != [] {
      NoNulInSpan(list[0]);
      if |list| > 1 {
        NoNulInList(list[1..]);
      }
    }
  }

  /** The scan of a buffer that holds a rendered CPU list: the highest index, or an overflow exactly when
      that index does not fit in `int`. */
  method ScanRendered(list: seq<Span>, rest: seq<byte>) returns (max: int, overflow: bool)
    requires ProperSpans(list)
    ensures overflow <==> Highest(list) > INT_MAX
    ensures !overflow ==> max == Highest(list)
  {
    var text := RenderList(list);
    var buf := text + ([0] + rest);
    assert buf[|text|] == 0;
    RenderedText(list, rest);
    ScanFindsHighest(list);
    max, overflow := ScanMax(buf);
  }

  // ---------------------------------------------------------------------------------------------
  // When the stored number is the number of CPUs

  function First(x: Span): nat {
    match x case One(n) => n case Range(lo, _) => lo
  }

  function Last(x: Span): nat {
    match x case One(n) => n case Range(_, hi) => hi
  }

  /** The spans are nonempty, in order, without overlap, and start at `from` or later. */
  predicate Ascending(list: seq<Span>, from: nat) {
    list != [] ==> from <= First(list[0]) <= Last(list[0]) && Ascending(list[1..], Last(list[0]) + 1)
  }

  /** How many CPUs a list names. */
  function Cpus(list: seq<Span>): int {
    if list == [] then 0 else Last(list[0]) - First(list[0]) + 1 + Cpus(list[1..])
  }

  /** How many indices from `from` up to the highest one the list leaves out. */
  function Missing(list: seq<Span>, from: nat): int {
    if list == [] then 0 else First(list[0]) - from + Missing(list[1..], Last(list[0]) + 1)
  }

  lemma {:induction false} HighestCounts(list: seq<Span>, from: nat)
    requires list != [] && Ascending(list, from)
    ensures Highest(list) + 1 == from + Cpus(list) + Missing(list, from)
    ensures Cpus(list) >= 1 && Missing(list, from) >= 0
  {
    if |list| == 1 {
      assert list[1..] == [];
    } else {
      HighestCounts(list[1..], Last(list[0]) + 1);
    }
  }

  lemma {:induction false} AscendingIsProper(list: seq<Span>, from: nat)
    requires Ascending(list, from)
    ensures ProperSpans(list)
  {
    if list != [] {
      AscendingIsProper(list[1..], Last(list[0]) + 1);
      assert forall i :: 0 < i < |list| ==> list[i] == list[1..][i - 1];
    }
  }

  function UpTo(lo: int, hi: int): (r: set<int>)
    ensures forall i :: i in r <==> lo <= i <= hi
    decreases hi + 1 - lo
  {
    if lo > hi then {} else UpTo(lo, hi - 1) + {hi}
  }

  /** The CPUs that a list names. */
  function Indices(list: seq<Span>): set<int> {
    if list == [] then {} else UpTo(First(list[0]), Last(list[0])) + Indices(list[1..])
  }

  lemma {:induction false} SizeUpTo(lo: int, hi: int)
    requires lo <= hi + 1
    ensures |UpTo(lo, hi)| == hi + 1 - lo
    decreases hi + 1 - lo
  {
    if lo <= hi {
      SizeUpTo(lo, hi - 1);
    }
  }

  lemma {:induction false} IndicesCounted(list: seq<Span>, from: nat)
    requires Ascending(list, from)
    ensures |Indices(list)| == Cpus(list)
    ensures forall i :: i in Indices(list) ==> from <= i <= Highest(list)
  {
    if list != [] {
      IndicesCounted(list[1..], Last(list[0]) + 1);
      SizeUpTo(First(list[0]), Last(list[0]));
      assert UpTo(First(list[0]), Last(list[0])) !! Indices(list[1..]);
    }
  }

  /** The two counts are sizes of sets: the CPUs named, and the indices below the highest not named. */
  lemma {:induction false} CountsAreSizes(list: seq<Span>)
    requires list != [] && Ascending(list, 0)
    ensures Cpus(list) == |Indices(list)|
    ensures Missing(list, 0) == |UpTo(0, Highest(list)) - Indices(list)|
  {
    IndicesCounted(list, 0);
    HighestCounts(list, 0);
    SizeUpTo(0, Highest(list));
    assert Indices(list) <= UpTo(0, Highest(list));
    assert (UpTo(0, Highest(list)) - Indices(list)) + Indices(list) == UpTo(0, Highest(list));
  }

  /** The greatest run is the highest index.  For every list that the kernel can print it is the number
      of CPUs if and only if the list leaves out exactly one index below its highest. */
  lemma {:induction false} CoresIsTheCount(list: seq<Span>)
    requires list != [] && Ascending(list, 0)
    ensures Max(Runs(RenderList(list))) == Cpus(list) <==> Missing(list, 0) == 1
  {
    AscendingIsProper(list, 0);
    ScanFindsHighest(list);
    HighestCounts(list, 0);
  }

  /** The same of the number that is stored: the scan of a buffer that holds such a list. */
  method StoredCores(list: seq<Span>, rest: seq<byte>) returns (cores: int, overflow: bool)
    requires list != [] && Ascending(list, 0)
    ensures overflow <==> Highest(list) > INT_MAX
    ensures !overflow ==> (cores == Cpus(list) <==> Missing(list, 0) == 1)
  {
    AscendingIsProper(list, 0);
    ScanFindsHighest(list);
    CoresIsTheCount(list);
    cores, overflow := ScanRendered(list, rest);
  }

  /** It fails for the usual list "0-n": the stored number is n, one less than the CPUs listed. */
  lemma {:induction false} CoresIsAnIndex(n: nat)
    ensures var list := [Range(0, n)];
      Max(Runs(RenderList(list))) == n == Cpus(list) - 1 && Missing(list, 0) == 0
  {
    var list := [Range(0, n)];
    assert list[1..] == [];
    ScanFindsHighest(list);
  }
}
