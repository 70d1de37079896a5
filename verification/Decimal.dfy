/** Decimal text: `parse_u64` and `is_numeric` of base/base_parse.c, `write_int` of base/base_test.c. */
module Decimal {
  import opened Bytes

  const ZERO: byte := 48
  const NINE: byte := 57
  const MINUS: byte := 45
  const INT_MAX: int := 0x7fff_ffff

  type i32 = x: int | -0x8000_0000 <= x <= 0x7fff_ffff

  predicate IsDigit(c: byte) {
    ZERO <= c <= NINE
  }

  ghost predicate AllDigits(s: seq<byte>) {
    forall i :: 0 <= i < |s| ==> IsDigit(s[i])
  }

  /** The number that the digits `s[i..j]` denote. */
  function Number(s: seq<byte>, i: nat, j: nat): (v: int)
    requires i <= j <= |s|
    ensures (forall k :: i <= k < j ==> IsDigit(s[k])) ==> v >= 0
  {
    if i == j then 0 else 10 * Number(s, i, j - 1) + (s[j - 1] - ZERO)
  }

  /** Where the digits that start at `i` stop, looking no further than `n`. */
  function RunEnd(s: seq<byte>, i: nat, n: nat): (e: nat)
    requires i <= n <= |s|
    ensures i <= e <= n
    ensures forall k :: i <= k < e ==> IsDigit(s[k])
    ensures e < n ==> !IsDigit(s[e])
    decreases n - i
  {
    if i < n && IsDigit(s[i]) then RunEnd(s, i + 1, n) else i
  }

  lemma {:induction false} RunEndUnique(s: seq<byte>, i: nat, n: nat, e: nat)
    requires i <= e <= n <= |s| && (forall k :: i <= k < e ==> IsDigit(s[k])) && (e < n ==> !IsDigit(s[e]))
    ensures RunEnd(s, i, n) == e
  {
  }

  /** `parse_u64`: the value of the longest digit prefix, modulo 2^64. */
  method ParseU64(buf: seq<byte>, len: nat) returns (value: u64)
    requires len <= |buf|
    ensures value == Parsed(buf, len)
  {
    value := 0;
    var i := 0;
    while i < len
      invariant i <= len
      invariant forall j :: 0 <= j < i ==> IsDigit(buf[j])
      invariant value == Wrap(Number(buf, 0, i))
    {
      var c := buf[i];
      if c < ZERO || c > NINE {
        break;
      }
      WrapStep(Number(buf, 0, i), c - ZERO);
      value := Wrap(value * 10 + (c - ZERO));
      i := i + 1;
    }
    RunEndUnique(buf, 0, len, i);
  }

  lemma {:induction false} WrapStep(v: int, d: int)
    ensures Wrap(Wrap(v) * 10 + d) == Wrap(10 * v + d)
  {
    assert v == (v / TWO_64) * TWO_64 + Wrap(v);
  }

  /** The longest digit prefix of the first `len` bytes, as a 64-bit number. */
  function Parsed(buf: seq<byte>, len: nat): u64
    requires len <= |buf|
  {
    Wrap(Number(buf, 0, RunEnd(buf, 0, len)))
  }

  /** The text before the first NUL. */
  function CString(s: seq<byte>): (r: seq<byte>)
    ensures |r| <= |s| && r == s[..|r|]
    ensures forall i :: 0 <= i < |r| ==> r[i] != 0
    ensures |r| < |s| ==> s[|r|] == 0
  {
    if s == [] || s[0] == 0 then [] else [s[0]] + CString(s[1..])
  }

  lemma {:induction false} CStringUnique(s: seq<byte>, n: nat)
    requires n <= |s| && (forall i :: 0 <= i < n ==> s[i] != 0) && (n < |s| ==> s[n] == 0)
    ensures CString(s) == s[..n]
  {
    if n > 0 {
      CStringUnique(s[1..], n - 1);
      assert s[..n] == [s[0]] + s[1..][..n - 1];
    }
  }

  /** `is_numeric` on a NUL-terminated string; the empty string counts as numeric. */
  method IsNumeric(s: seq<byte>) returns (numeric: bool)
    requires exists i :: 0 <= i < |s| && s[i] == 0
    ensures numeric <==> AllDigits(CString(s))
  {
    var i := 0;
    while s[i] != 0
      invariant i < |s|
      invariant forall j :: 0 <= j < i ==> s[j] != 0 && IsDigit(s[j])
      decreases |s| - i
    {
      if s[i] < ZERO || s[i] > NINE {
        assert |CString(s)| > i && CString(s)[i] == s[i];
        return false;
      }
      assert exists k :: i < k < |s| && s[k] == 0;
      i := i + 1;
    }
    CStringUnique(s, i);
    return true;
  }

  /** The digits of a number, most significant first. */
  function Digits(n: nat): (s: seq<byte>)
    ensures s != [] && forall i :: 0 <= i < |s| ==> IsDigit(s[i])
  {
    (if n >= 10 then Digits(n / 10) else []) + [ZERO + n % 10]
  }

  /** What `write_int` emits. */
  function Rendered(num: int): seq<byte> {
    if num < 0 then [MINUS] + Digits(-num) else Digits(num)
  }

  /** `write_int`: the recursion emits the digits in order after what is already out.  Negating the
      least `i32` is undefined, so callers must not pass it. */
  method WriteInt(num: i32, out: seq<byte>) returns (out': seq<byte>)
    requires -INT_MAX <= num
    ensures out' == out + Rendered(num)
    decreases if num < 0 then 1 - num else num
  {
    out' := out;
    var n: int := num;
    if n < 0 {
      out' := out' + [MINUS];
      n := -n;
    }
    ghost var sign: seq<byte>, front := if num < 0 then [MINUS] else [], if n >= 10 then Digits(n / 10) else [];
    Regroup(out, sign, front, [ZERO + n % 10]);
    assert out' == out + sign;
    if n >= 10 {
      out' := WriteInt(n / 10, out');
    }
    assert out' == (out + sign) + front;
    out' := out' + [ZERO + n % 10];
    assert Rendered(num) == sign + Digits(n);
  }

  lemma {:induction false} Regroup(a: seq<byte>, b: seq<byte>, c: seq<byte>, d: seq<byte>)
    ensures ((a + b) + c) + d == a + (b + (c + d))
  {
  }

  /** A number does not depend on what surrounds its digits. */
  lemma {:induction false} NumberMoves(s: seq<byte>, i: nat, j: nat, t: seq<byte>, d: nat)
    requires i <= j <= |s| && d + j - i <= |t|
    requires forall k :: i <= k < j ==> s[k] == t[d + k - i]
    ensures Number(s, i, j) == Number(t, d, d + j - i)
    decreases j - i
  {
    if i < j {
      assert s[j - 1] == t[d + (j - 1) - i];
      NumberMoves(s, i, j - 1, t, d);
    }
  }

  lemma {:induction false} NumberOfDigits(n: nat)
    ensures Number(Digits(n), 0, |Digits(n)|) == n
  {
    if n >= 10 {
      NumberOfDigits(n / 10);
      NumberMoves(Digits(n / 10), 0, |Digits(n / 10)|, Digits(n), 0);
    }
  }

  /** A number followed by a non-digit, or by nothing, is read back, wherever it stands. */
  lemma {:induction false} DigitsAt(s: seq<byte>, i: nat, n: nat)
    requires i + |Digits(n)| <= |s| && s[i..i + |Digits(n)|] == Digits(n)
    requires i + |Digits(n)| < |s| ==> !IsDigit(s[i + |Digits(n)|])
    ensures RunEnd(s, i, |s|) == i + |Digits(n)|
    ensures Number(s, i, i + |Digits(n)|) == n
  {
    var e := i + |Digits(n)|;
    forall k | i <= k < e ensures s[k] == Digits(n)[k - i] {
      assert s[k] == s[i..e][k - i];
    }
    RunEndUnique(s, i, |s|, e);
    NumberMoves(s, i, e, Digits(n), 0);
    NumberOfDigits(n);
  }

  /** Decimal round trip, for every 64-bit number: printing and parsing gives the number back. */
  lemma {:induction false} RoundTrip(n: nat, rest: seq<byte>)
    requires n < TWO_64 && (rest != [] ==> !IsDigit(rest[0]))
    ensures Parsed(Digits(n) + rest, |Digits(n) + rest|) == n
  {
    var s := Digits(n) + rest;
    assert s[0..0 + |Digits(n)|] == Digits(n);
    DigitsAt(s, 0, n);
  }

  /** `parse_u64` undoes `write_int` exactly on the numbers that are not negative. */
  lemma {:induction false} WriteParse(num: i32, rest: seq<byte>)
    requires -INT_MAX <= num && (rest != [] ==> !IsDigit(rest[0]))
    ensures Parsed(Rendered(num) + rest, |Rendered(num) + rest|) == num <==> num >= 0
  {
    if num >= 0 {
      RoundTrip(num, rest);
    }
  }

  /** A negative number is printed as '-' (45) and its magnitude, which parses back. */
  lemma {:induction false} WriteNegative(num: i32, rest: seq<byte>)
    requires -INT_MAX <= num < 0 && (rest != [] ==> !IsDigit(rest[0]))
    ensures Rendered(num)[0] == 45
    ensures var digits := Rendered(num)[1..] + rest; Parsed(digits, |digits|) == -num
  {
    assert Rendered(num)[1..] == Digits(-num);
    RoundTrip(-num, rest);
  }

  // ---------------------------------------------------------------------------------------------
  // What digits and numbers are

  /** The digits are the ten bytes from 48 on, and each prints as itself. */
  lemma {:induction false} DigitBytes(c: byte)
    ensures IsDigit(c) <==> 48 <= c <= 57
    ensures IsDigit(c) ==> Digits(c - 48) == [c]
  {
  }

  /** A digit with `k` zeros behind it. */
  function Shifted(digit: int, k: nat): int {
    if k == 0 then digit else 10 * Shifted(digit, k - 1)
  }

  /** The sum of the digits, each with as many zeros behind it as digits follow. */
  function Sum(s: seq<byte>, i: nat, j: nat): int
    requires i <= j <= |s|
    decreases j - i
  {
    if i == j then 0 else Shifted(s[i] as int - 48, j - 1 - i) + Sum(s, i + 1, j)
  }

  lemma {:induction false} NumberIsSum(s: seq<byte>, i: nat, j: nat)
    requires i <= j <= |s|
    ensures Number(s, i, j) == Sum(s, i, j)
    decreases j - i
  {
    if i < j {
      NumberIsSum(s, i + 1, j);
      NumberFromLeft(s, i, j);
    }
  }

  /** Taking a digit off the left instead of the right. */
  lemma {:induction false} NumberFromLeft(s: seq<byte>, i: nat, j: nat)
    requires i < j <= |s|
    ensures Number(s, i, j) == Shifted(s[i] as int - 48, j - 1 - i) + Number(s, i + 1, j)
    decreases j
  {
    if i + 1 < j {
      NumberFromLeft(s, i, j - 1);
    }
  }

  /** `parse_u64` of a text that starts with exactly `e` digits: their value, modulo 2^64. */
  lemma {:induction false} ParsedExact(buf: seq<byte>, len: nat, e: nat)
    requires e <= len <= |buf| && (forall k :: 0 <= k < e ==> 48 <= buf[k] <= 57)
    requires e < len ==> !(48 <= buf[e] <= 57)
    ensures Parsed(buf, len) == Sum(buf, 0, e) % 0x1_0000_0000_0000_0000
  {
    RunEndUnique(buf, 0, len, e);
    NumberIsSum(buf, 0, e);
  }
}
