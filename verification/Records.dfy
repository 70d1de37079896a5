/** `sys_partition` and `sys_proc` of libres/resources.h as the bytes they occupy in the arena. */
module Records {
  import opened Bytes
  import opened Bits
  import opened Decimal

  /** `sizeof(sys_partition)` and `sizeof(sys_proc)`. */
  const RECORD_SIZE: nat := 48

  const NAME_SIZE: nat := 32

  type u32 = x: int | 0 <= x < 0x1_0000_0000

  /** Little-endian bytes. */
  function ToBytes(x: nat, width: nat): (s: seq<byte>)
    ensures |s| == width
  {
    if width == 0 then [] else [x % 256] + ToBytes(x / 256, width - 1)
  }

  function FromBytes(s: seq<byte>): nat {
    if s == [] then 0 else s[0] + 256 * FromBytes(s[1..])
  }

  lemma {:induction false} BytesRoundTrip(x: nat, width: nat)
    requires x < Power256(width)
    ensures FromBytes(ToBytes(x, width)) == x
  {
    if width > 0 {
      BytesRoundTrip(x / 256, width - 1);
      assert ToBytes(x, width)[1..] == ToBytes(x / 256, width - 1);
    }
  }

  /** Least significant byte first. */
  lemma {:induction false} ByteOf(x: nat, width: nat, i: nat)
    requires i < width
    ensures |ToBytes(x, width)| == width
    ensures ToBytes(x, width)[i] == (x / Power256(i)) % 256
  {
    if i > 0 {
      ByteOf(x / 256, width - 1, i - 1);
      assert ToBytes(x, width)[i] == ToBytes(x / 256, width - 1)[i - 1];
      DivideTwice(x, Power256(i - 1));
    }
  }

  lemma {:induction false} DivideTwice(x: nat, p: nat)
    requires p > 0
    ensures (x / 256) / p == x / (256 * p)
  {
    var q, r := (x / 256) / p, (x / 256) % p;
    assert x / 256 == q * p + r;
    assert x == 256 * (x / 256) + x % 256;
    assert 256 * (q * p) == q * (256 * p);
    ModUnique(x, 256 * p, q, 256 * r + x % 256);
  }

  lemma {:induction false} ZeroBytes(n: nat)
    ensures FromBytes(Zeros(n)) == 0
  {
    if n > 0 {
      assert Zeros(n)[1..] == Zeros(n - 1);
      ZeroBytes(n - 1);
    }
  }

  /** A partition; the name is a C string that leaves room for its NUL. */
  datatype Partition = Partition(blocks: u64, major: u32, minor: u32, name: seq<byte>) {
    ghost predicate Valid() {
      |name| < NAME_SIZE && forall i :: 0 <= i < |name| ==> name[i] != 0
    }
  }

  function EncodePartition(p: Partition): (r: seq<byte>)
    requires |p.name| < NAME_SIZE
    ensures |r| == RECORD_SIZE
  {
    ToBytes(p.blocks, 8) + ToBytes(p.major, 4) + ToBytes(p.minor, 4) + (p.name + Zeros(NAME_SIZE - |p.name|))
  }

  function DecodePartition(r: seq<byte>): Partition
    requires |r| == RECORD_SIZE
  {
    Partition(Wrap(FromBytes(r[0..8])), FromBytes(r[8..12]) % 0x1_0000_0000, FromBytes(r[12..16]) % 0x1_0000_0000,
              CString(r[16..48]))
  }

  lemma {:induction false} Widths()
    ensures Power256(4) == 0x1_0000_0000
    ensures Power256(8) == TWO_64
  {
    assert Power256(2) == 0x1_0000;
    assert Power256(4) == 0x1_0000_0000;
    assert Power256(6) == 0x1_0000_0000_0000;
  }

  lemma {:induction false} Fields(a: seq<byte>, b: seq<byte>, c: seq<byte>, d: seq<byte>)
    requires |a| == 8 && |b| == 4 && |c| == 4 && |d| == 32
    ensures var r := a + b + c + d; r[0..8] == a && r[8..12] == b && r[12..16] == c && r[16..48] == d
  {
  }

  lemma {:induction false} CStringPadded(name: seq<byte>, n: nat)
    requires n > 0 && forall i :: 0 <= i < |name| ==> name[i] != 0
    ensures CString(name + Zeros(n)) == name
  {
    CStringUnique(name + Zeros(n), |name|);
    assert (name + Zeros(n))[..|name|] == name;
  }

  lemma {:induction false} PartitionBytes(p: Partition)
    requires |p.name| < NAME_SIZE
    ensures var r := EncodePartition(p);
      && r[0..8] == ToBytes(p.blocks, 8) && r[8..12] == ToBytes(p.major, 4) && r[12..16] == ToBytes(p.minor, 4)
      && r[16..48] == p.name + Zeros(NAME_SIZE - |p.name|)
  {
    Fields(ToBytes(p.blocks, 8), ToBytes(p.major, 4), ToBytes(p.minor, 4), p.name + Zeros(NAME_SIZE - |p.name|));
  }

  lemma {:induction false} WordsRoundTrip(x: u64, y: u32)
    ensures FromBytes(ToBytes(x, 8)) == x && FromBytes(ToBytes(y, 4)) == y
  {
    Widths();
    BytesRoundTrip(x, 8);
    BytesRoundTrip(y, 4);
  }

  /** Storing a partition and reading it back. */
  lemma {:induction false} PartitionRoundTrip(p: Partition)
    requires p.Valid()
    ensures DecodePartition(EncodePartition(p)) == p
  {
    PartitionBytes(p);
    CStringPadded(p.name, NAME_SIZE - |p.name|);
    WordsRoundTrip(p.blocks, p.major);
    WordsRoundTrip(p.blocks, p.minor);
    DecodeIs(EncodePartition(p), p);
  }

  lemma {:induction false} DecodeIs(r: seq<byte>, p: Partition)
    requires |r| == RECORD_SIZE && FromBytes(r[0..8]) == p.blocks
    requires FromBytes(r[8..12]) == p.major && FromBytes(r[12..16]) == p.minor && CString(r[16..48]) == p.name
    ensures DecodePartition(r) == p
  {
  }

  /** A line of /proc/partitions that `sscanf` understood. */
  datatype Scanned = Scanned(major: u32, minor: u32, blocks: u64, name: seq<byte>)

  /** Lines 505-510: the name is cut to fit. */
  function ToPartition(s: Scanned): (p: Partition)
    ensures p.blocks == s.blocks && p.major == s.major && p.minor == s.minor
    ensures |p.name| == Min(|s.name|, 31) && p.name <= s.name
  {
    Partition(s.blocks, s.major, s.minor, if |s.name| >= NAME_SIZE then s.name[..NAME_SIZE - 1] else s.name)
  }

  /** A process as the list stores it; `state` 0 is `proc_undefined`. */
  datatype Proc = Proc(name: seq<byte>, numThreads: byte, stime: u64, utime: u64, pid: i32, state: u32)

  function ToI32(x: int): i32 {
    var w := x % 0x1_0000_0000;
    if w > INT_MAX then w - 0x1_0000_0000 else w
  }

  function DecodeProc(r: seq<byte>): Proc
    requires |r| == RECORD_SIZE
  {
    Proc(CString(r[0..16]), r[16], Wrap(FromBytes(r[24..32])), Wrap(FromBytes(r[32..40])),
         ToI32(FromBytes(r[40..44])), FromBytes(r[44..48]) % 0x1_0000_0000)
  }

  /** The fields that lines 613-618 assign; all other bytes of the slot stay. */
  function FillSlot(slot: seq<byte>, pid: i32): (r: seq<byte>)
    requires |slot| == RECORD_SIZE
    ensures |r| == RECORD_SIZE
  {
    [0] + slot[1..16] + [0] + slot[17..24] + Zeros(16) + ToBytes(pid % 0x1_0000_0000, 4) + Zeros(4)
  }

  lemma {:induction false} SlotFields(slot: seq<byte>, p: seq<byte>)
    requires |slot| == RECORD_SIZE && |p| == 4
    ensures var r := [0] + slot[1..16] + [0] + slot[17..24] + Zeros(16) + p + Zeros(4);
      && r[0] == 0 && r[16] == 0 && r[24..32] == Zeros(8) && r[32..40] == Zeros(8)
      && r[40..44] == p && r[44..48] == Zeros(4)
  {
  }

  /** A filled slot reads as an entry with the process id, an empty name and zeros, whatever was in it. */
  lemma {:induction false} FilledSlot(slot: seq<byte>, pid: i32)
    requires |slot| == RECORD_SIZE
    ensures DecodeProc(FillSlot(slot, pid)) == Proc([], 0, 0, 0, pid, 0)
  {
    SlotFields(slot, ToBytes(pid % 0x1_0000_0000, 4));
    var r := FillSlot(slot, pid);
    Widths();
    BytesRoundTrip(pid % 0x1_0000_0000, 4);
    ZeroBytes(8);
    ZeroBytes(4);
    CStringUnique(r[0..16], 0);
  }

  /** Where the fields are: the name from byte 0, the number of threads at 16, the two times from 24, the process
      id from 40 and the state from 44; all other bytes of the slot stay. */
  lemma {:induction false} SlotLayout(slot: seq<byte>, pid: i32, i: nat)
    requires |slot| == 48 && i < 48
    ensures var r := FillSlot(slot, pid);
      && |r| == 48
      && r[i] == if i == 0 || i == 16 || 24 <= i < 40 || i >= 44 then 0
                 else if 40 <= i < 44 then ((pid % 0x1_0000_0000) / Power256(i - 40)) % 256
                 else slot[i]
  {
    var p := ToBytes(pid % 0x1_0000_0000, 4);
    if 40 <= i < 44 {
      ByteOf(pid % 0x1_0000_0000, 4, i - 40);
      assert FillSlot(slot, pid)[i] == p[i - 40];
    }
  }

  /** And reading them. */
  lemma {:induction false} ProcLayout(r: seq<byte>)
    requires |r| == 48
    ensures var p := DecodeProc(r);
      && p.name == CString(r[0..16]) && p.numThreads == r[16] && p.pid == ToI32(FromBytes(r[40..44]))
      && p.stime == FromBytes(r[24..32]) % TWO_64 && p.utime == FromBytes(r[32..40]) % TWO_64
  {
  }

  /** A number is cut to the 32-bit integer that is congruent to it. */
  lemma {:induction false} ToI32Congruent(x: int)
    ensures (x - ToI32(x)) % 0x1_0000_0000 == 0
  {
  }

  /** The process id that lines 596-613 take from a directory name: the name must be numeric, and its
      value is cut to 32 bits. */
  function PidOf(name: seq<byte>): i32 {
    ToI32(Parsed(name, |name|))
  }

  lemma {:induction false} SmallPid(n: nat)
    ensures ToI32(n) == n <==> n <= INT_MAX
  {
  }

  /** A rendered number comes back as the process id exactly when it is below 2^31: the id is cut to 32
      bits. */
  lemma {:induction false} PidOfNumber(n: nat, rest: seq<byte>)
    requires rest != [] && rest[0] == 0
    ensures PidOf(Digits(n) + rest) == n <==> n <= INT_MAX
  {
    if n <= INT_MAX {
      RoundTrip(n, rest);
      SmallPid(n);
    }
  }

  /** In general the process id is the 32-bit integer that is congruent to the value of the leading digits. */
  lemma {:induction false} PidExact(name: seq<byte>, e: nat)
    requires e <= |name| && (forall k :: 0 <= k < e ==> 48 <= name[k] <= 57)
    requires e < |name| ==> !(48 <= name[e] <= 57)
    ensures (Sum(name, 0, e) - PidOf(name)) % 0x1_0000_0000 == 0
  {
    ParsedExact(name, |name|, e);
    var v := Sum(name, 0, e);
    CutTwice(v, v % TWO_64);
  }

  lemma {:induction false} CutTwice(v: int, w: int)
    requires w == v % TWO_64
    ensures (v - ToI32(w)) % 0x1_0000_0000 == 0
  {
    assert v == w + TWO_64 * (v / TWO_64);
    assert TWO_64 == 0x1_0000_0000 * 0x1_0000_0000;
  }

  lemma {:induction false} NameOfNumber(n: nat, rest: seq<byte>)
    requires rest != [] && rest[0] == 0
    ensures CString(Digits(n) + rest) == Digits(n) && AllDigits(CString(Digits(n) + rest))
  {
    CStringUnique(Digits(n) + rest, |Digits(n)|);
    assert (Digits(n) + rest)[..|Digits(n)|] == Digits(n);
  }
}
