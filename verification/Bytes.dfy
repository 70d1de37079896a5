/** Bytes, 64-bit words and the C memory primitives (`memset` to zero, `memcpy`, `memmove`)
    as functions on byte sequences. */
module Bytes {

  type byte = x: int | 0 <= x < 256

  /** The byte that ends a line of text. */
  const NEWLINE: byte := 10

  /** 2^64, the modulus of the source's `u64` and `umm`. */
  const TWO_64: int := 0x1_0000_0000_0000_0000

  type u64 = x: int | 0 <= x < TWO_64

  /** Unsigned 64-bit wrap-around. */
  function Wrap(x: int): u64 {
    x % TWO_64
  }

  /** An address range that the kernel can map ends below 2^62. */
  const ADDRESS_LIMIT: int := 0x4000_0000_0000_0000

  datatype Option<+T> = None | Some(value: T)

  function Zeros(n: nat): (s: seq<byte>)
    ensures |s| == n
    ensures forall i :: 0 <= i < n ==> s[i] == 0
  {
    seq(n, _ => 0)
  }

  /** The memory after `data` was stored at position `at`. */
  function Store(mem: seq<byte>, at: nat, data: seq<byte>): (r: seq<byte>)
    requires at + |data| <= |mem|
    ensures |r| == |mem|
    ensures r[at..at + |data|] == data
    ensures forall i :: 0 <= i < |mem| && !(at <= i < at + |data|) ==> r[i] == mem[i]
  {
    mem[..at] + data + mem[at + |data|..]
  }

  /** One byte of the memory after a store. */
  lemma {:induction false} StoredByte(mem: seq<byte>, at: nat, data: seq<byte>, k: nat)
    requires at + |data| <= |mem| && k < |mem|
    ensures Store(mem, at, data)[k] == if at <= k < at + |data| then data[k - at] else mem[k]
  {
  }

  /** Storing somewhere else leaves a range as it was. */
  lemma {:induction false} StoreElsewhere(mem: seq<byte>, at: nat, data: seq<byte>, lo: nat, hi: nat)
    requires at + |data| <= |mem|
    requires lo <= hi <= |mem|
    requires hi <= at || at + |data| <= lo
    ensures Store(mem, at, data)[lo..hi] == mem[lo..hi]
  {
  }

  /** After a move of `n` bytes from `from` to `at`: the bytes of `was` there, and `before` elsewhere. */
  ghost predicate MovedOver(was: seq<byte>, before: seq<byte>, after: seq<byte>, from: nat, at: nat, n: nat) {
    && |after| == |before| == |was| && from + n <= |was|
    && forall i :: 0 <= i < |after| ==> after[i] == if at <= i < at + n then was[from + (i - at)] else before[i]
  }

  lemma {:induction false} MovedByte(mem: seq<byte>, at: nat, from: nat, to: nat, i: nat)
    requires from <= to <= |mem| && at + (to - from) <= |mem| && i < |mem|
    ensures Store(mem, at, mem[from..to])[i] == if at <= i < at + (to - from) then mem[from + (i - at)] else mem[i]
  {
    StoredByte(mem, at, mem[from..to], i);
  }

  lemma {:induction false} MovedOverStore(was: seq<byte>, before: seq<byte>, from: nat, to: nat, at: nat, n: nat)
    requires |before| == |was| && to == from + n <= at && at + n <= |was|
    requires forall i :: 0 <= i < to ==> before[i] == was[i]
    ensures MovedOver(was, before, Store(before, at, before[from..to]), from, at, n)
  {
    forall i | 0 <= i < |was|
      ensures Store(before, at, before[from..to])[i] == if at <= i < at + n then was[from + (i - at)] else before[i]
    {
      MovedByte(before, at, from, to, i);
    }
  }

  /** 256 to the power of `n`. */
  function Power256(n: nat): (r: nat)
    ensures r > 0
  {
    if n == 0 then 1 else 256 * Power256(n - 1)
  }

  lemma {:induction false} Associate<T>(x: seq<T>, y: seq<T>, z: seq<T>)
    ensures x + (y + z) == (x + y) + z
  {
  }

  lemma {:induction false} SliceOfSlice<T>(s: seq<T>, at: nat, size: nat, lo: nat, hi: nat)
    requires at + size <= |s| && lo <= hi <= size
    ensures s[at..at + size][lo..hi] == s[at + lo..at + hi]
  {
    var t := s[at..at + size];
    forall i | 0 <= i < hi - lo ensures t[lo..hi][i] == s[at + lo..at + hi][i] {
      assert t[lo..hi][i] == t[lo + i] == s[at + (lo + i)];
    }
  }

  function Min(a: int, b: int): int {
    if a < b then a else b
  }

  /** The bytes a block keeps when it is given `size` bytes: the first ones, and zeros after them. */
  function Refit(data: seq<byte>, size: nat): (r: seq<byte>)
    ensures |r| == size
  {
    if size <= |data| then data[..size] else data + Zeros(size - |data|)
  }

  lemma {:induction false} RefitSplit(data: seq<byte>, size: nat)
    ensures Refit(data, size) == data[..Min(|data|, size)] + Zeros(size - Min(|data|, size))
  {
  }
}
